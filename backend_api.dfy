/** `POST /api/verify-code` of backend/src/api/index.js: it selects every
    redeemable row, marks the first one returned as used, and never reads or
    writes the users table (it is given no UserTable). Any store failure lands
    in its catch block as a 500 reply. */
module BackendApi {
  import opened Optional
  import opened CodeStore
  import opened HttpApi

  method VerifyCode(codes: CodeTable, phone: Option<string>, code: Option<string>, now: int, fault: bool)
    returns (reply: Reply)
    requires codes.Valid()
    modifies codes
    ensures codes.Valid() && codes.nextId == old(codes.nextId)
    ensures fault ==> reply == Reply(500, false) && codes.rows == old(codes.rows)
    ensures !fault ==>
              var r := RedeemRequest(old(codes.rows), phone, code, now, false);
              codes.rows == r.rows && reply == (if r.ok then Reply(200, true) else Reply(400, false))
  {
    if fault {
      return Reply(500, false);
    }
    var result: seq<CodeRow> := [];
    if phone.Some? && code.Some? {
      result := codes.SelectRedeemable(phone.value, code.value, now);
    }
    if |result| == 0 {
      return Reply(400, false);
    }
    ghost var first := Matching(codes.rows, phone.value, code.value, now)[0];
    UpdateByIdMarksOneRow(codes.rows, first);
    codes.MarkUsed(result[0].id);
    return Reply(200, true);
  }
}
