/** The HTTP handlers of index.js that redeem codes: `/api/verify`, which
    activates the user by upsert, and `/admin/assist`, which activates only an
    existing user. Express routing, the JSON message texts and logging are not
    modelled. A store failure is one of two arguments: `codeFault` on the
    code table, where `verifyCode` catches it itself and returns false, so the
    reply is 400; `userFault` on the users table, where the handler's catch
    block turns it into 500 after the code has already been consumed. */
module BotApi {
  import opened Optional
  import opened CodeStore
  import opened UserStore
  import opened HttpApi
  import Handlers
  import CodeProperties

  /** `POST /api/verify`. */
  method Verify(codes: CodeTable, users: UserTable, phone: Option<string>, code: Option<string>, now: int,
                codeFault: bool, userFault: bool)
    returns (reply: Reply)
    requires codes.Valid()
    modifies codes, users
    ensures codes.Valid() && codes.nextId == old(codes.nextId)
    ensures Blank(phone) || Blank(code) ==>
              reply == Reply(400, false) && codes.rows == old(codes.rows) && users.status == old(users.status)
    ensures !Blank(phone) && !Blank(code) ==>
              var r := RedeemRequest(old(codes.rows), phone, code, now, codeFault);
              && codes.rows == r.rows
              && (r.ok && !userFault ==> reply == Reply(200, true) && users.status == old(users.status)[phone.value := Active])
              && (r.ok && userFault ==> reply == Reply(500, false) && users.status == old(users.status))
              && (!r.ok ==> reply == Reply(400, false) && users.status == old(users.status))
  {
    if Blank(phone) || Blank(code) {
      return Reply(400, false);
    }
    var isValid := codes.VerifyCode(phone.value, code.value, now, codeFault);
    if !isValid {
      return Reply(400, false);
    }
    var saved := users.Upsert(phone.value, userFault);
    if !saved {
      return Reply(500, false);
    }
    return Reply(200, true);
  }

  /** `POST /admin/assist`. The key check is JavaScript's `!==` on two possibly
      absent values, so with ADMIN_SECRET unset a request without `admin_key`
      passes it. There is no check for missing phone or code. */
  method AdminAssist(codes: CodeTable, users: UserTable, adminKey: Option<string>, adminSecret: Option<string>,
                     phone: Option<string>, code: Option<string>, now: int, codeFault: bool, userFault: bool)
    returns (reply: Reply)
    requires codes.Valid()
    modifies codes, users
    ensures codes.Valid() && codes.nextId == old(codes.nextId)
    ensures adminKey != adminSecret ==>
              reply == Reply(403, false) && codes.rows == old(codes.rows) && users.status == old(users.status)
    ensures adminKey == adminSecret ==>
              var r := RedeemRequest(old(codes.rows), phone, code, now, codeFault);
              && codes.rows == r.rows
              && (r.ok && !userFault ==>
                    && reply == Reply(200, true)
                    && users.status == if phone.value in old(users.status)
                                       then old(users.status)[phone.value := Active]
                                       else old(users.status))
              && (r.ok && userFault ==> reply == Reply(500, false) && users.status == old(users.status))
              && (!r.ok ==> reply == Reply(400, false) && users.status == old(users.status))
  {
    if adminKey != adminSecret {
      return Reply(403, false);
    }
    var isValid := false;
    if phone.Some? && code.Some? {
      isValid := codes.VerifyCode(phone.value, code.value, now, codeFault);
    }
    if !isValid {
      return Reply(400, false);
    }
    var updated := users.ActivateExisting(phone.value, userFault);
    if !updated {
      return Reply(500, false);
    }
    return Reply(200, true);
  }

  /** The API passes the request phone to `verifyCode` as it came, while the
      bot saved the code under the phone with its '+' stripped: a code issued
      for a '+'-prefixed phone changes nothing for a request that keeps the
      '+', so only the stripped form can redeem it. */
  lemma PlusPhoneMissesBotCode(rows: seq<CodeRow>, id: nat, phone: string, code: string, issuedAt: int, now: int)
    requires Handlers.StartsWithPlus(phone)
    ensures var issued := rows + [CodeRow(id, Handlers.NormalisePhone(phone), code, issuedAt, false)];
            && Redeem(issued, phone, code, now).ok == Redeem(rows, phone, code, now).ok
            && Redeem(issued, phone, code, now).rows == Redeem(rows, phone, code, now).rows + [issued[|rows|]]
  {
    var clean := Handlers.NormalisePhone(phone);
    assert |clean| < |phone|;
    CodeProperties.LaterIssueLeavesEarlierCode(rows, CodeRow(id, clean, code, issuedAt, false), phone, code, now);
  }
}
