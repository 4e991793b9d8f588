/** Properties of the code table's lifecycle: single use, first-match choice,
    expiry, the effect of issuing on earlier codes, and the purge. */
module CodeProperties {
  import opened CodeStore

  /** The row a successful redemption marks is the first redeemable one in
      insertion order (the row a LIMIT 1 or a `rows[0]` picks in this model). */
  lemma RedeemMarksFirstMatch(rows: seq<CodeRow>, phone: string, code: string, now: int)
    requires Redeem(rows, phone, code, now).ok
    ensures exists i ::
              && 0 <= i < |rows|
              && Redeemable(rows[i], phone, code, now)
              && (forall j :: 0 <= j < i ==> !Redeemable(rows[j], phone, code, now))
              && Redeem(rows, phone, code, now).rows == SetUsed(rows, i)
  {
  }

  /** Marking a redeemable row takes it, and only it, out of the matches. */
  lemma {:induction false} MarkingRemovesOneMatch(rows: seq<CodeRow>, i: nat, n: nat, phone: string, code: string, now: int)
    requires i < |rows| && n <= |rows| && Redeemable(rows[i], phone, code, now)
    ensures |MatchingUpTo(SetUsed(rows, i), n, phone, code, now)|
            == |MatchingUpTo(rows, n, phone, code, now)| - (if i < n then 1 else 0)
    decreases n
  {
    if n > 0 {
      MarkingRemovesOneMatch(rows, i, n - 1, phone, code, now);
    }
  }

  /** Single use: after a successful redemption, the same request succeeds
      again iff a second, distinct redeemable row for that phone and code
      existed beforehand. */
  lemma SingleUse(rows: seq<CodeRow>, phone: string, code: string, now: int)
    requires Redeem(rows, phone, code, now).ok
    ensures Redeem(Redeem(rows, phone, code, now).rows, phone, code, now).ok
            <==> exists i, j :: 0 <= i < j < |rows|
                   && Redeemable(rows[i], phone, code, now) && Redeemable(rows[j], phone, code, now)
  {
    var m := Matching(rows, phone, code, now);
    var after := Redeem(rows, phone, code, now).rows;
    assert after == SetUsed(rows, m[0]);
    MarkingRemovesOneMatch(rows, m[0], |rows|, phone, code, now);
    assert |Matching(after, phone, code, now)| == |m| - 1;
    TwoMatches(rows, phone, code, now);
  }

  /** At least two matches means two distinct redeemable rows. */
  lemma TwoMatches(rows: seq<CodeRow>, phone: string, code: string, now: int)
    ensures |Matching(rows, phone, code, now)| >= 2
            <==> exists i, j :: 0 <= i < j < |rows|
                   && Redeemable(rows[i], phone, code, now) && Redeemable(rows[j], phone, code, now)
  {
    var m := Matching(rows, phone, code, now);
    if |m| >= 2 {
      assert m[0] < m[1];
      assert Redeemable(rows[m[0]], phone, code, now) && Redeemable(rows[m[1]], phone, code, now);
    }
    forall i, j | 0 <= i < j < |rows|
                  && Redeemable(rows[i], phone, code, now) && Redeemable(rows[j], phone, code, now)
      ensures |m| >= 2
    {
      assert i in m && j in m;
      var a :| 0 <= a < |m| && m[a] == i;
      var b :| 0 <= b < |m| && m[b] == j;
      assert a != b;
    }
  }

  /** Codes expire strictly: a row is redeemable at `now` only while
      `createdAt > now - TTL`, so a row exactly TTL old is already refused. */
  lemma ExpiredCodeRejected(rows: seq<CodeRow>, phone: string, code: string, now: int)
    requires forall i :: 0 <= i < |rows| && rows[i].phone == phone && rows[i].code == code
               ==> rows[i].createdAt <= now - TTL
    ensures !Redeem(rows, phone, code, now).ok
    ensures Redeem(rows, phone, code, now).rows == rows
  {
  }

  /** Appending a row leaves the earlier matches as they were. */
  lemma {:induction false} MatchingUpToAppend(rows: seq<CodeRow>, row: CodeRow, n: nat, phone: string, code: string, now: int)
    requires n <= |rows|
    ensures MatchingUpTo(rows + [row], n, phone, code, now) == MatchingUpTo(rows, n, phone, code, now)
    decreases n
  {
    if n > 0 {
      MatchingUpToAppend(rows, row, n - 1, phone, code, now);
      assert (rows + [row])[n - 1] == rows[n - 1];
    }
  }

  /** Issuing never disturbs earlier codes: the matches after an insert are
      the matches before it, followed by the new row if it matches. */
  lemma MatchingAppend(rows: seq<CodeRow>, row: CodeRow, phone: string, code: string, now: int)
    ensures Matching(rows + [row], phone, code, now)
            == Matching(rows, phone, code, now) + (if Redeemable(row, phone, code, now) then [|rows|] else [])
  {
    MatchingUpToAppend(rows, row, |rows|, phone, code, now);
    assert (rows + [row])[|rows|] == row;
  }

  /** A freshly issued code is redeemed exactly once within its window: the
      first redemption succeeds, an identical second one fails (when no other
      redeemable row for the same phone and code was already in the table). */
  lemma IssuedCodeRedeemsOnce(rows: seq<CodeRow>, all: seq<CodeRow>, id: nat, phone: string, code: string,
                               issuedAt: int, now: int)
    requires all == rows + [CodeRow(id, phone, code, issuedAt, false)]
    requires issuedAt <= now < issuedAt + TTL
    requires forall i :: 0 <= i < |rows| ==> !Redeemable(rows[i], phone, code, now)
    ensures Redeem(all, phone, code, now).ok
    ensures !Redeem(Redeem(all, phone, code, now).rows, phone, code, now).ok
  {
    assert Redeemable(all[|rows|], phone, code, now);
    SingleUse(all, phone, code, now);
    forall i | 0 <= i < |rows|
      ensures !Redeemable(all[i], phone, code, now)
    {
      assert all[i] == rows[i];
    }
  }

  /** A second code issued for the same phone does not change how an earlier
      code redeems: same outcome, and the new row stays as it was. */
  lemma LaterIssueLeavesEarlierCode(rows: seq<CodeRow>, row: CodeRow, phone: string, code: string, now: int)
    requires row.phone != phone || row.code != code
    ensures Redeem(rows + [row], phone, code, now).ok == Redeem(rows, phone, code, now).ok
    ensures Redeem(rows + [row], phone, code, now).rows == Redeem(rows, phone, code, now).rows + [row]
  {
    MatchingAppend(rows, row, phone, code, now);
    var m := Matching(rows, phone, code, now);
    if m != [] {
      assert SetUsed(rows + [row], m[0]) == SetUsed(rows, m[0]) + [row];
    }
  }

  /** The pending count after appending one row. */
  lemma PendingAppend(rows: seq<CodeRow>, row: CodeRow, now: int)
    ensures PendingCount(rows + [row], now) == PendingCount(rows, now) + (if Live(row, now) then 1 else 0)
  {
  }

  /** Saving a code adds one pending code. */
  lemma SaveAddsOnePending(rows: seq<CodeRow>, id: nat, phone: string, code: string, now: int)
    ensures PendingCount(rows + [CodeRow(id, phone, code, now, false)], now) == PendingCount(rows, now) + 1
  {
  }

  /** Marking a live row used takes exactly one code out of the pending count. */
  lemma {:induction false} MarkingRemovesOnePending(rows: seq<CodeRow>, i: nat, now: int)
    requires i < |rows| && Live(rows[i], now)
    ensures PendingCount(SetUsed(rows, i), now) == PendingCount(rows, now) - 1
    decreases |rows|
  {
    var n := |rows|;
    var init := rows[..n - 1];
    var after := SetUsed(rows, i);
    if i == n - 1 {
      assert after[..n - 1] == init;
    } else {
      MarkingRemovesOnePending(init, i, now);
      assert after[..n - 1] == SetUsed(init, i);
    }
  }

  /** A successful redemption lowers the pending count by one; a failed one leaves it. */
  lemma RedeemLowersPending(rows: seq<CodeRow>, phone: string, code: string, now: int)
    ensures PendingCount(Redeem(rows, phone, code, now).rows, now)
            == PendingCount(rows, now) - (if Redeem(rows, phone, code, now).ok then 1 else 0)
  {
    var m := Matching(rows, phone, code, now);
    if m != [] {
      MarkingRemovesOnePending(rows, m[0], now);
    }
  }

  /** The purge keeps the remaining rows in their order: purging a
      concatenation is concatenating the purges. */
  lemma {:induction false} PurgeDistributes(a: seq<CodeRow>, b: seq<CodeRow>, now: int)
    ensures Purged(a + b, now) == Purged(a, now) + Purged(b, now)
    decreases |b|
  {
    if b == [] {
      assert a + b == a;
    } else {
      var init := b[..|b| - 1];
      PurgeDistributes(a, init, now);
      assert (a + b)[..|a + b| - 1] == a + init;
    }
  }

  /** A table with no expired row is left exactly as it is. */
  lemma {:induction false} PurgeKeepsFreshTable(rows: seq<CodeRow>, now: int)
    requires forall i :: 0 <= i < |rows| ==> !Expired(rows[i], now)
    ensures Purged(rows, now) == rows
    decreases |rows|
  {
    if rows != [] {
      PurgeKeepsFreshTable(rows[..|rows| - 1], now);
    }
  }

  /** The boundary: a row exactly TTL old survives the purge, yet no request
      can redeem it. */
  lemma BoundaryRowKeptButDead(rows: seq<CodeRow>, i: nat, now: int)
    requires i < |rows| && rows[i].createdAt == now - TTL
    ensures rows[i] in Purged(rows, now)
    ensures forall phone, code :: !Redeemable(rows[i], phone, code, now)
  {
  }

  /** The purge is an optimisation: a purge at any time up to `now` leaves the
      pending count at `now` unchanged. */
  lemma {:induction false} PurgeKeepsPending(rows: seq<CodeRow>, purgedAt: int, now: int)
    requires purgedAt <= now
    ensures PendingCount(Purged(rows, purgedAt), now) == PendingCount(rows, now)
    decreases |rows|
  {
    if rows != [] {
      var init, last := rows[..|rows| - 1], rows[|rows| - 1];
      PurgeKeepsPending(init, purgedAt, now);
      if Expired(last, purgedAt) {
        assert Purged(rows, purgedAt) == Purged(init, purgedAt) + [] == Purged(init, purgedAt);
        assert !Live(last, now);
        assert PendingCount(rows, now) == PendingCount(init, now);
      } else {
        PendingAppend(Purged(init, purgedAt), last, now);
      }
    }
  }

  /** Nor does it change whether a redemption at `now` succeeds. */
  lemma PurgeKeepsRedeemOutcome(rows: seq<CodeRow>, purgedAt: int, phone: string, code: string, now: int)
    requires purgedAt <= now
    ensures Redeem(Purged(rows, purgedAt), phone, code, now).ok == Redeem(rows, phone, code, now).ok
  {
    var kept := Purged(rows, purgedAt);
    PurgedMembers(rows, purgedAt);
    if Redeem(rows, phone, code, now).ok {
      var i :| 0 <= i < |rows| && Redeemable(rows[i], phone, code, now);
      assert rows[i] in kept;
      var k :| 0 <= k < |kept| && kept[k] == rows[i];
      assert Redeemable(kept[k], phone, code, now);
    }
    if Redeem(kept, phone, code, now).ok {
      var k :| 0 <= k < |kept| && Redeemable(kept[k], phone, code, now);
      assert kept[k] in rows;
      var i :| 0 <= i < |rows| && rows[i] == kept[k];
      assert Redeemable(rows[i], phone, code, now);
    }
  }
}
