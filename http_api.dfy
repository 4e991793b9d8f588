/** What the two HTTP APIs share: the reply they send, JavaScript's `!field`
    test on a request field, and a redeem query bound to request fields. */
module HttpApi {
  import opened Optional
  import opened CodeStore

  /** An HTTP reply: its status code and the `success` field of its JSON body. */
  datatype Reply = Reply(httpStatus: int, success: bool)

  /** `!field` for a string field of the JSON body: absent or empty. */
  predicate Blank(field: Option<string>) {
    field.None? || field.value == ""
  }

  /** A redeem query whose parameters are request fields. An absent field is
      bound as SQL NULL, and `phone = NULL` holds for no row, so nothing is
      found; a store failure changes nothing. */
  function RedeemRequest(rows: seq<CodeRow>, phone: Option<string>, code: Option<string>, now: int, fault: bool)
    : (r: Redemption)
    ensures r.ok <==> && !fault && phone.Some? && code.Some?
                      && exists i :: 0 <= i < |rows| && Redeemable(rows[i], phone.value, code.value, now)
    ensures r.ok ==> r.rows == Redeem(rows, phone.value, code.value, now).rows
    ensures !r.ok ==> r.rows == rows
  {
    if fault || phone.None? || code.None? then Redemption(false, rows)
    else Redeem(rows, phone.value, code.value, now)
  }
}
