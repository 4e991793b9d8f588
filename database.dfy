/** The `verification_codes` table of src/bot/database.js: its rows, the
    predicates its queries filter on, the code generator, and the table
    itself as an object whose methods are the module's database calls.

    Time is an integer number of seconds (`now`), the database clock `NOW()`
    made explicit. Every call runs to completion before the next starts: the
    SELECT-then-UPDATE of `verifyCode` is atomic here, although two concurrent
    callers can interleave between its two queries in the real system. */
module CodeStore {
  import opened Optional
  import opened Decimal

  /** Validity window of a code: INTERVAL '10 minutes', in seconds. */
  const TTL: int := 600

  /** A row of `verification_codes`; `id` is the SERIAL key. */
  datatype CodeRow = CodeRow(id: nat, phone: string, code: string, createdAt: int, used: bool)

  /** A code still waiting to be redeemed: unused and younger than TTL (strictly). */
  predicate Live(row: CodeRow, now: int) {
    !row.used && row.createdAt > now - TTL
  }

  /** The WHERE clause of the redeem queries. */
  predicate Redeemable(row: CodeRow, phone: string, code: string, now: int) {
    row.phone == phone && row.code == code && Live(row, now)
  }

  /** The WHERE clause of the purge: strictly older than TTL, whatever `used` holds. */
  predicate Expired(row: CodeRow, now: int) {
    row.createdAt < now - TTL
  }

  /** The SERIAL primary key: no two rows share an id. */
  predicate UniqueIds(rows: seq<CodeRow>) {
    forall i, j :: 0 <= i < j < |rows| ==> rows[i].id != rows[j].id
  }

  /** `Math.floor(100000 + Math.random() * 900000).toString()`, with the
      random draw scaled to the integer `r = floor(Math.random() * 900000)`. */
  function GenerateCode(r: int): (code: string)
    requires 0 <= r < 900000
    ensures |code| == 6 && IsDigits(code) && code[0] != '0'
    ensures DecimalValue(code) == 100000 + r
  {
    assert Pow10(5) == 100000 && Pow10(6) == 1000000;
    DecimalLength(100000 + r, 6);
    DecimalRoundTrip(100000 + r);
    NatToDecimal(100000 + r)
  }

  /** Indices below `n` of the rows the redeem query selects, in insertion order. */
  function MatchingUpTo(rows: seq<CodeRow>, n: nat, phone: string, code: string, now: int): (ix: seq<nat>)
    requires n <= |rows|
    ensures forall k :: 0 <= k < |ix| ==> ix[k] < n && Redeemable(rows[ix[k]], phone, code, now)
    ensures forall j :: 0 <= j < n && Redeemable(rows[j], phone, code, now) ==> j in ix
    ensures forall k, l :: 0 <= k < l < |ix| ==> ix[k] < ix[l]
  {
    if n == 0 then []
    else
      MatchingUpTo(rows, n - 1, phone, code, now)
        + (if Redeemable(rows[n - 1], phone, code, now) then [n - 1] else [])
  }

  /** Indices of all rows the redeem query selects, in insertion order. */
  function Matching(rows: seq<CodeRow>, phone: string, code: string, now: int): seq<nat> {
    MatchingUpTo(rows, |rows|, phone, code, now)
  }

  lemma {:induction false} MatchingUpToPrefix(rows: seq<CodeRow>, m: nat, n: nat, phone: string, code: string, now: int)
    requires m <= n <= |rows|
    ensures MatchingUpTo(rows, m, phone, code, now) <= MatchingUpTo(rows, n, phone, code, now)
    decreases n
  {
    if m < n {
      MatchingUpToPrefix(rows, m, n - 1, phone, code, now);
    }
  }

  /** Row `i` with `used` set. */
  function SetUsed(rows: seq<CodeRow>, i: nat): seq<CodeRow>
    requires i < |rows|
  {
    rows[i := rows[i].(used := true)]
  }

  /** `UPDATE verification_codes SET used = TRUE WHERE id = $1`. */
  function SetUsedWhereId(rows: seq<CodeRow>, id: nat): seq<CodeRow> {
    seq(|rows|, j requires 0 <= j < |rows| => if rows[j].id == id then rows[j].(used := true) else rows[j])
  }

  /** With unique ids, the update by id marks exactly the row that carries the id. */
  lemma UpdateByIdMarksOneRow(rows: seq<CodeRow>, i: nat)
    requires UniqueIds(rows) && i < |rows|
    ensures SetUsedWhereId(rows, rows[i].id) == SetUsed(rows, i)
  {
  }

  /** The outcome of a redemption: whether it succeeded, and the table after it. */
  datatype Redemption = Redemption(ok: bool, rows: seq<CodeRow>)

  /** Redeeming (phone, code) at time `now`: it succeeds iff some row is
      redeemable, and then exactly one redeemable row is marked used; otherwise
      nothing changes. The query has no ORDER BY, so which row is not fixed by
      the source; this definition takes the first in insertion order. */
  function Redeem(rows: seq<CodeRow>, phone: string, code: string, now: int): (r: Redemption)
    ensures r.ok <==> exists i :: 0 <= i < |rows| && Redeemable(rows[i], phone, code, now)
    ensures r.ok ==> exists i :: 0 <= i < |rows| && Redeemable(rows[i], phone, code, now) && r.rows == SetUsed(rows, i)
    ensures !r.ok ==> r.rows == rows
  {
    var m := Matching(rows, phone, code, now);
    if m == [] then Redemption(false, rows) else Redemption(true, SetUsed(rows, m[0]))
  }

  /** The rows the purge leaves, in their order: every row that is not expired. */
  function Purged(rows: seq<CodeRow>, now: int): (kept: seq<CodeRow>)
    ensures |kept| <= |rows|
  {
    if rows == [] then []
    else
      var last := rows[|rows| - 1];
      Purged(rows[..|rows| - 1], now) + (if Expired(last, now) then [] else [last])
  }

  /** The purge keeps exactly the rows that are not expired. */
  lemma {:induction false} PurgedMembers(rows: seq<CodeRow>, now: int)
    ensures forall r :: r in Purged(rows, now) <==> r in rows && !Expired(r, now)
    decreases |rows|
  {
    if rows != [] {
      var init := rows[..|rows| - 1];
      PurgedMembers(init, now);
      assert rows == init + [rows[|rows| - 1]];
    }
  }

  /** The purge never duplicates a row, so ids stay unique. */
  lemma {:induction false} PurgedKeepsIdsUnique(rows: seq<CodeRow>, now: int)
    requires UniqueIds(rows)
    ensures UniqueIds(Purged(rows, now))
    decreases |rows|
  {
    if rows != [] {
      var init, last := rows[..|rows| - 1], rows[|rows| - 1];
      PurgedKeepsIdsUnique(init, now);
      PurgedMembers(init, now);
      var kept := Purged(init, now);
      forall k | 0 <= k < |kept|
        ensures kept[k].id != last.id
      {
        assert kept[k] in init;
        var j :| 0 <= j < |init| && init[j] == kept[k];
        assert rows[j] == kept[k];
      }
    }
  }

  /** The number of live codes: `SELECT COUNT(*) ... WHERE used = FALSE AND created_at > NOW() - INTERVAL '10 minutes'`. */
  function PendingCount(rows: seq<CodeRow>, now: int): (n: nat)
    ensures n <= |rows|
  {
    if rows == [] then 0
    else PendingCount(rows[..|rows| - 1], now) + (if Live(rows[|rows| - 1], now) then 1 else 0)
  }

  /** The pending count is the number of live rows: unused and younger than TTL. */
  lemma {:induction false} PendingCountIsLiveRows(rows: seq<CodeRow>, n: nat, now: int)
    requires n <= |rows|
    ensures PendingCount(rows[..n], now) == |set i | 0 <= i < n && Live(rows[i], now)|
    decreases n
  {
    if n > 0 {
      PendingCountIsLiveRows(rows, n - 1, now);
      assert rows[..n][..n - 1] == rows[..n - 1];
      var before := set i | 0 <= i < n - 1 && Live(rows[i], now);
      if Live(rows[n - 1], now) {
        assert (set i | 0 <= i < n && Live(rows[i], now)) == before + {n - 1};
      } else {
        assert (set i | 0 <= i < n && Live(rows[i], now)) == before;
      }
    }
  }

  /** The `verification_codes` table and its SERIAL counter. */
  class CodeTable {
    var rows: seq<CodeRow>
    var nextId: nat

    ghost predicate Valid()
      reads this
    {
      UniqueIds(rows) && forall i :: 0 <= i < |rows| ==> rows[i].id < nextId
    }

    /** An empty table; SERIAL starts at 1. */
    constructor ()
      ensures Valid() && rows == [] && nextId == 1
    {
      rows := [];
      nextId := 1;
    }

    /** `saveCode`: INSERT one row with `used = FALSE` and `created_at = NOW()`;
        true on success, false (and no row) when the store fails. Existing rows,
        even with the same phone and code, are untouched. */
    method SaveCode(phone: string, code: string, now: int, fault: bool) returns (ok: bool)
      requires Valid()
      modifies this
      ensures Valid()
      ensures ok == !fault
      ensures ok ==> rows == old(rows) + [CodeRow(old(nextId), phone, code, now, false)] && nextId == old(nextId) + 1
      ensures !ok ==> rows == old(rows) && nextId == old(nextId)
    {
      if fault {
        return false;
      }
      rows := rows + [CodeRow(nextId, phone, code, now, false)];
      nextId := nextId + 1;
      return true;
    }

    /** `SELECT * ... WHERE phone = $1 AND code = $2 AND created_at > NOW() - INTERVAL '10 minutes'
        AND used = FALSE LIMIT 1`, scanning in insertion order. */
    method FindFirstRedeemable(phone: string, code: string, now: int) returns (found: Option<CodeRow>)
      ensures found.None? <==> Matching(rows, phone, code, now) == []
      ensures found.Some? ==>
                Matching(rows, phone, code, now) != [] && found.value == rows[Matching(rows, phone, code, now)[0]]
    {
      var i := 0;
      while i < |rows|
        invariant i <= |rows|
        invariant MatchingUpTo(rows, i, phone, code, now) == []
      {
        if Redeemable(rows[i], phone, code, now) {
          MatchingUpToPrefix(rows, i + 1, |rows|, phone, code, now);
          return Some(rows[i]);
        }
        i := i + 1;
      }
      return None;
    }

    /** The same SELECT without LIMIT: every redeemable row, in insertion order. */
    method SelectRedeemable(phone: string, code: string, now: int) returns (result: seq<CodeRow>)
      ensures |result| == |Matching(rows, phone, code, now)|
      ensures forall k :: 0 <= k < |result| ==> result[k] == rows[Matching(rows, phone, code, now)[k]]
    {
      result := [];
      var i := 0;
      while i < |rows|
        invariant i <= |rows|
        invariant |result| == |MatchingUpTo(rows, i, phone, code, now)|
        invariant forall k :: 0 <= k < |result| ==> result[k] == rows[MatchingUpTo(rows, i, phone, code, now)[k]]
      {
        if Redeemable(rows[i], phone, code, now) {
          result := result + [rows[i]];
        }
        i := i + 1;
      }
    }

    /** `UPDATE verification_codes SET used = TRUE WHERE id = $1`. */
    method MarkUsed(id: nat)
      requires Valid()
      modifies this
      ensures Valid()
      ensures rows == SetUsedWhereId(old(rows), id) && nextId == old(nextId)
    {
      rows := SetUsedWhereId(rows, id);
    }

    /** `verifyCode`: find one redeemable row, then mark it used by id. Any
        store error is collapsed to `false` before anything changes. */
    method VerifyCode(phone: string, code: string, now: int, fault: bool) returns (ok: bool)
      requires Valid()
      modifies this
      ensures Valid() && nextId == old(nextId)
      ensures fault ==> !ok && rows == old(rows)
      ensures !fault ==> Redemption(ok, rows) == Redeem(old(rows), phone, code, now)
    {
      if fault {
        return false;
      }
      var found := FindFirstRedeemable(phone, code, now);
      if found.None? {
        return false;
      }
      ghost var i := Matching(rows, phone, code, now)[0];
      UpdateByIdMarksOneRow(rows, i);
      MarkUsed(found.value.id);
      return true;
    }

    /** The purge in `initDB`: `DELETE FROM verification_codes WHERE created_at < NOW() - INTERVAL '10 minutes'`. */
    method PurgeExpired(now: int)
      requires Valid()
      modifies this
      ensures Valid() && nextId == old(nextId)
      ensures rows == Purged(old(rows), now)
    {
      var kept: seq<CodeRow> := [];
      var i := 0;
      while i < |rows|
        invariant i <= |rows|
        invariant kept == Purged(rows[..i], now)
      {
        assert rows[..i + 1][..i] == rows[..i];
        if !Expired(rows[i], now) {
          kept := kept + [rows[i]];
        }
        i := i + 1;
      }
      assert rows[..|rows|] == rows;
      PurgedKeepsIdsUnique(rows, now);
      PurgedMembers(rows, now);
      forall k | 0 <= k < |kept|
        ensures kept[k].id < nextId
      {
        assert kept[k] in rows;
      }
      rows := kept;
    }
  }
}
