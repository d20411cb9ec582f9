/** Retention: rows older than a cutoff are deleted in batches until a batch comes out short. */
module Retention {

  datatype Row = Row(id: nat, ts: int)

  const BATCH_SIZE: nat := 10_000

  function Expired(rows: set<Row>, cutoff: int): set<Row> {
    set r | r in rows && r.ts < cutoff
  }

  /** DELETE ... WHERE ts IN (the picked rows' timestamps): every row sharing a picked timestamp goes. */
  function SharingTimestamp(rows: set<Row>, picked: set<Row>): set<Row> {
    set r, p | r in rows && p in picked && r.ts == p.ts :: r
  }

  function Min(a: nat, b: nat): nat {
    if a <= b then a else b
  }

  /** A possible answer of SELECT ... WHERE ts < cutoff LIMIT limit. */
  ghost predicate IsSelection(rows: set<Row>, cutoff: int, limit: nat, picked: set<Row>) {
    picked <= Expired(rows, cutoff) && |picked| == Min(limit, |Expired(rows, cutoff)|)
  }

  lemma {:induction false} SubsetOfSize<T>(s: set<T>, n: nat) returns (t: set<T>)
    requires n <= |s|
    ensures t <= s && |t| == n
  {
    if n == 0 {
      t := {};
    } else {
      var x :| x in s;
      var u := SubsetOfSize(s - {x}, n - 1);
      t := u + {x};
    }
  }

  lemma {:induction false} SubsetCardinality<T>(a: set<T>, b: set<T>)
    requires a <= b
    ensures |a| <= |b|
    ensures |b - a| == |b| - |a|
    ensures |a| == |b| ==> a == b
  {
    assert b == a + (b - a);
    if |a| == |b| {
      assert b - a == {};
    }
  }

  lemma {:induction false} ExpiredAfter(rows: set<Row>, cutoff: int, gone: set<Row>)
    ensures Expired(rows - gone, cutoff) == Expired(rows, cutoff) - gone
  {
  }

  lemma {:induction false} OnlyExpiredShare(rows: set<Row>, cutoff: int, picked: set<Row>)
    requires picked <= Expired(rows, cutoff)
    ensures picked <= SharingTimestamp(rows, picked) <= Expired(rows, cutoff)
  {
  }

  lemma {:induction false} WholeTimestamps(rows: set<Row>, picked: set<Row>)
    ensures var gone := SharingTimestamp(rows, picked);
            forall r, q :: r in gone && q in rows && q.ts == r.ts ==> q in gone
  {
  }

  lemma {:induction false} CountBatch<T>(rows: set<T>, expired: set<T>, gone: set<T>, picked: set<T>, limit: nat)
    requires picked <= gone <= expired <= rows && |picked| == Min(limit, |expired|)
    ensures Min(limit, |expired|) <= |gone| && |rows - gone| == |rows| - |gone|
    ensures |gone| < limit ==> gone == expired
  {
    SubsetCardinality(picked, gone);
    SubsetCardinality(gone, rows);
    SubsetCardinality(gone, expired);
  }

  /** One batch, whatever the LIMIT picks: it deletes expired rows only, at least as many as the
      limit allows, whole timestamps at a time; if it deletes fewer than the limit, no expired row
      is left. */
  lemma {:induction false} BatchEffect(rows: set<Row>, cutoff: int, limit: nat, picked: set<Row>)
    requires IsSelection(rows, cutoff, limit, picked)
    ensures var gone := SharingTimestamp(rows, picked);
            gone <= Expired(rows, cutoff)
            && Min(limit, |Expired(rows, cutoff)|) <= |gone|
            && |rows - gone| == |rows| - |gone|
            && Expired(rows - gone, cutoff) == Expired(rows, cutoff) - gone
            && (forall r, q :: r in gone && q in rows && q.ts == r.ts ==> q in gone)
            && (|gone| < limit ==> gone == Expired(rows, cutoff))
  {
    var gone := SharingTimestamp(rows, picked);
    OnlyExpiredShare(rows, cutoff, picked);
    ExpiredAfter(rows, cutoff, gone);
    WholeTimestamps(rows, picked);
    CountBatch(rows, Expired(rows, cutoff), gone, picked, limit);
  }

  function SameInstant(n: nat): (rows: set<Row>)
    ensures |rows| == n
    ensures forall r :: r in rows ==> r.id < n && r.ts == 0
  {
    if n == 0 then {} else SameInstant(n - 1) + {Row(n - 1, 0)}
  }

  /** Rows sharing a timestamp make a batch overshoot its limit. */
  lemma {:induction false} BatchCanExceedLimit(limit: nat, picked: set<Row>)
    requires limit > 0
    requires IsSelection(SameInstant(limit + 1), 1, limit, picked)
    ensures |SharingTimestamp(SameInstant(limit + 1), picked)| == limit + 1
  {
    var rows := SameInstant(limit + 1);
    assert Expired(rows, 1) == rows;
    assert |picked| == limit;
    var p :| p in picked;
    assert SharingTimestamp(rows, picked) == rows;
  }

  /** Some row that was not picked shares a timestamp with one that was. */
  ghost predicate LeavesSharer(rows: set<Row>, picked: set<Row>) {
    exists r, p :: r in rows && p in picked && r.ts == p.ts && r !in picked
  }

  lemma {:induction false} NothingMoreShares(rows: set<Row>, picked: set<Row>)
    requires picked <= rows
    ensures LeavesSharer(rows, picked) <==> SharingTimestamp(rows, picked) != picked
  {
    var gone := SharingTimestamp(rows, picked);
    if r, p :| r in rows && p in picked && r.ts == p.ts && r !in picked {
      assert r in gone;
    }
    if !LeavesSharer(rows, picked) {
      forall r | r in gone
        ensures r in picked
      {
        var p :| p in picked && r.ts == p.ts;
      }
    }
  }

  /** A batch exceeds its limit if and only if the selection is full and leaves a row that shares a
      timestamp with it. */
  lemma {:induction false} BatchExceedsLimitIff(rows: set<Row>, cutoff: int, limit: nat, picked: set<Row>)
    requires IsSelection(rows, cutoff, limit, picked)
    ensures |SharingTimestamp(rows, picked)| > limit <==> |picked| == limit && LeavesSharer(rows, picked)
  {
    OnlyExpiredShare(rows, cutoff, picked);
    NothingMoreShares(rows, picked);
    CountExcess(Expired(rows, cutoff), SharingTimestamp(rows, picked), picked, limit);
  }

  lemma {:induction false} CountExcess<T>(expired: set<T>, gone: set<T>, picked: set<T>, limit: nat)
    requires picked <= gone <= expired && |picked| == Min(limit, |expired|)
    ensures |gone| > limit <==> |picked| == limit && gone != picked
  {
    SubsetCardinality(picked, gone);
    SubsetCardinality(gone, expired);
  }

  ghost predicate DistinctTimestamps(rows: set<Row>) {
    forall r, p :: r in rows && p in rows && r.ts == p.ts ==> r == p
  }

  /** What the caller can check beforehand: every possible selection stays within the limit if and only
      if the limit is zero, no more rows are expired than the limit, or no two expired rows share a
      timestamp. */
  lemma {:induction false} BatchesWithinLimitIff(rows: set<Row>, cutoff: int, limit: nat)
    ensures (forall picked :: IsSelection(rows, cutoff, limit, picked) ==> |SharingTimestamp(rows, picked)| <= limit)
       <==> limit == 0 || |Expired(rows, cutoff)| <= limit || DistinctTimestamps(Expired(rows, cutoff))
  {
    var expired := Expired(rows, cutoff);
    if limit == 0 || |expired| <= limit || DistinctTimestamps(expired) {
      forall picked | IsSelection(rows, cutoff, limit, picked)
        ensures |SharingTimestamp(rows, picked)| <= limit
      {
        WithinLimit(rows, cutoff, limit, picked);
      }
    } else {
      var r, p :| r in expired && p in expired && r.ts == p.ts && r != p;
      assert |expired - {r, p}| == |expired| - 2;
      var others := SubsetOfSize(expired - {r, p}, limit - 1);
      var picked := others + {p};
      assert IsSelection(rows, cutoff, limit, picked);
      assert LeavesSharer(rows, picked);
      BatchExceedsLimitIff(rows, cutoff, limit, picked);
    }
  }

  lemma {:induction false} WithinLimit(rows: set<Row>, cutoff: int, limit: nat, picked: set<Row>)
    requires IsSelection(rows, cutoff, limit, picked)
    requires limit == 0 || |Expired(rows, cutoff)| <= limit || DistinctTimestamps(Expired(rows, cutoff))
    ensures |SharingTimestamp(rows, picked)| <= limit
  {
    var gone, expired := SharingTimestamp(rows, picked), Expired(rows, cutoff);
    OnlyExpiredShare(rows, cutoff, picked);
    SubsetCardinality(gone, expired);
    BatchExceedsLimitIff(rows, cutoff, limit, picked);
    if limit == 0 {
      assert picked == {};
    } else if DistinctTimestamps(expired) {
      assert forall r, p :: r in rows && p in picked && r.ts == p.ts ==> r in expired;
    }
  }

  /** SELECT ... LIMIT limit without an ORDER BY: any rows, as many as the limit allows. */
  method Select(expired: set<Row>, limit: nat) returns (picked: set<Row>)
    ensures picked <= expired && |picked| == Min(limit, |expired|)
  {
    ghost var some := SubsetOfSize(expired, Min(limit, |expired|));
    picked :| picked <= expired && |picked| == Min(limit, |expired|);
  }

  class Table {
    var rows: set<Row>

    constructor (initial: set<Row>)
      ensures rows == initial
    {
      rows := initial;
    }

    /** _delete_batch. The rows that LIMIT picks are arbitrary. */
    method DeleteBatch(cutoff: int) returns (deleted: nat)
      modifies this
      ensures rows <= old(rows) && deleted == |old(rows)| - |rows|
      ensures forall r :: r in old(rows) && r !in rows ==> r.ts < cutoff
      ensures forall r, q :: r in old(rows) && q in old(rows) && r.ts == q.ts ==> (r in rows <==> q in rows)
      ensures deleted >= Min(BATCH_SIZE, |Expired(old(rows), cutoff)|)
      ensures |Expired(rows, cutoff)| == |Expired(old(rows), cutoff)| - deleted
      ensures deleted < 10_000 ==> forall r :: r in rows ==> r.ts >= cutoff
    {
      var picked := Select(Expired(rows, cutoff), BATCH_SIZE);
      var gone := SharingTimestamp(rows, picked);
      BatchEffect(rows, cutoff, BATCH_SIZE, picked);
      SubsetCardinality(gone, Expired(rows, cutoff));
      deleted := |gone|;
      rows := rows - gone;
      assert old(rows) - rows == gone;
    }

    /** _run_table_cleanup: terminates, and deletes exactly the rows older than the cutoff. */
    method RunTableCleanup(cutoff: int) returns (deletedTotal: nat, batches: nat)
      modifies this
      ensures forall r :: r in rows <==> r in old(rows) && r.ts >= cutoff
      ensures deletedTotal == |set r | r in old(rows) && r.ts < cutoff| == |old(rows)| - |rows|
      ensures (batches - 1) * 10_000 <= deletedTotal
    {
      deletedTotal, batches := 0, 0;
      while true
        invariant rows <= old(rows) && old(rows) - rows <= Expired(old(rows), cutoff)
        invariant deletedTotal == |Expired(old(rows), cutoff)| - |Expired(rows, cutoff)|
        invariant batches * BATCH_SIZE <= deletedTotal
        decreases |Expired(rows, cutoff)|
      {
        ghost var before := rows;
        var deleted := DeleteBatch(cutoff);
        StillExpired(old(rows), before, rows, cutoff);
        deletedTotal := deletedTotal + deleted;
        batches := batches + 1;
        if deleted < BATCH_SIZE {
          break;
        }
      }
      NothingExpired(old(rows), rows, cutoff);
      SubsetCardinality(Expired(old(rows), cutoff), old(rows));
    }
  }

  lemma {:induction false} StillExpired(first: set<Row>, before: set<Row>, after: set<Row>, cutoff: int)
    requires after <= before <= first
    requires first - before <= Expired(first, cutoff) && before - after <= Expired(before, cutoff)
    ensures first - after <= Expired(first, cutoff)
  {
    assert Expired(before, cutoff) <= Expired(first, cutoff);
    assert first - after == (first - before) + (before - after);
  }

  lemma {:induction false} NothingExpired(first: set<Row>, last: set<Row>, cutoff: int)
    requires last <= first && first - last <= Expired(first, cutoff) && Expired(last, cutoff) == {}
    ensures last == first - Expired(first, cutoff)
  {
    forall r | r in last
      ensures r !in Expired(first, cutoff)
    {
      assert r !in Expired(last, cutoff);
    }
  }
}
