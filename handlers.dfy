/** The bot-side handlers of src/bot/handlers.js that touch the core: issuing
    a code when a user shares a contact, and the admin panel's statistics.
    Message texts, keyboards and the Telegram notifications are not modelled. */
module Handlers {
  import opened CodeStore
  import opened UserStore

  predicate StartsWithPlus(phone: string) {
    |phone| > 0 && phone[0] == '+'
  }

  /** `phone.startsWith('+') ? phone.substring(1) : phone`: at most one leading
      '+' is removed, and nothing else. */
  function NormalisePhone(phone: string): (clean: string)
    ensures StartsWithPlus(phone) <==> phone == "+" + clean
    ensures !StartsWithPlus(phone) ==> clean == phone
  {
    if StartsWithPlus(phone) then phone[1..] else phone
  }

  /** Only one '+' goes: "++1" becomes "+1", which still starts with '+'. */
  lemma NormaliseStripsOnlyOnePlus(rest: string)
    ensures NormalisePhone("+" + rest) == rest
    ensures StartsWithPlus(rest) ==> StartsWithPlus(NormalisePhone("+" + rest))
  {
  }

  /** `handleContact`: generate a code, save it under the normalised phone and
      show the same code to the user. The result of `saveCode` is not checked,
      so the code is shown even when the store failed to save it. Existing rows
      are never consulted. */
  method HandleContact(codes: CodeTable, phone: string, r: int, now: int, fault: bool) returns (shown: string)
    requires codes.Valid() && 0 <= r < 900000
    modifies codes
    ensures codes.Valid()
    ensures shown == GenerateCode(r)
    ensures codes.nextId == old(codes.nextId) + (if fault then 0 else 1)
    ensures codes.rows == old(codes.rows)
                          + (if fault then [] else [CodeRow(old(codes.nextId), NormalisePhone(phone), shown, now, false)])
  {
    var cleanPhone := NormalisePhone(phone);
    var code := GenerateCode(r);
    var saved := codes.SaveCode(cleanPhone, code, now, fault);
    shown := code;
  }

  /** The figures the admin panel shows. */
  datatype Stats = Stats(activeUsers: nat, pendingCodes: nat)

  /** What the caller of the admin panel gets: the access-denied reply, no
      reply at all (a COUNT query failed and the handler's promise is
      rejected), or the panel with its figures. */
  datatype Panel = Refused | NoReply | Figures(stats: Stats)

  /** `setupAdminPanel`: a caller whose id is not in `adminIds` is refused
      before any query; for an admin the two COUNT queries run without a
      catch, so a store failure (`fault`) leaves the admin with no reply;
      otherwise the admin gets the active-user and pending-code counts. */
  method AdminPanel(callerId: string, adminIds: seq<string>, codes: CodeTable, users: UserTable, now: int, fault: bool)
    returns (panel: Panel)
    ensures panel.Refused? <==> callerId !in adminIds
    ensures panel.NoReply? <==> callerId in adminIds && fault
    ensures panel.Figures? ==>
              && panel.stats.activeUsers == |ActivePhones(users.status)|
              && panel.stats.pendingCodes == |set i | 0 <= i < |codes.rows| && Live(codes.rows[i], now)|
  {
    if callerId !in adminIds {
      return Refused;
    }
    if fault {
      return NoReply;
    }
    PendingCountIsLiveRows(codes.rows, |codes.rows|, now);
    assert codes.rows[..|codes.rows|] == codes.rows;
    return Figures(Stats(ActiveCount(users.status), PendingCount(codes.rows, now)));
  }
}
