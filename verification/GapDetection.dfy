/** Gaps in a gateway's frame counter: the analysis over the rows of one window, in counter order. */
module GapDetection {
  import opened Wrappers

  /** A row of the window: a received frame, seen as its counter and the time it was inserted. */
  datatype WindowRow = WindowRow(number: int, receivedAt: int)

  datatype Gap = Gap(afterSeq: int, beforeSeq: int, missing: int, at: int)

  datatype Report = Report(
    totalPackets: nat, firstSeq: Option<int>, lastSeq: Option<int>, missingTotal: int, gaps: seq<Gap>)

  /** ORDER BY seq; rows with equal counters come in any order. */
  ghost predicate Ordered(rows: seq<WindowRow>) {
    forall i, j :: 0 <= i < j < |rows| ==> rows[i].number <= rows[j].number
  }

  function Latest(rows: seq<WindowRow>): (latest: int)
    requires rows != []
    ensures forall k :: 0 <= k < |rows| ==> rows[k].receivedAt <= latest
    ensures exists k :: 0 <= k < |rows| && rows[k].receivedAt == latest
  {
    if |rows| == 1 || Latest(rows[..|rows| - 1]) < rows[|rows| - 1].receivedAt then rows[|rows| - 1].receivedAt
    else Latest(rows[..|rows| - 1])
  }

  /** Too close to the newest frame to be asked for yet. */
  predicate Fresh(row: WindowRow, latest: int, grace: int) {
    grace > 0 && latest - row.receivedAt < grace
  }

  predicate Opens(previous: WindowRow, row: WindowRow, latest: int, maxGap: int, grace: int) {
    1 < row.number - previous.number < maxGap && !Fresh(row, latest, grace)
  }

  function GapBetween(previous: WindowRow, row: WindowRow): Gap {
    Gap(previous.number, row.number, row.number - previous.number - 1, row.receivedAt)
  }

  /** The gaps between neighbouring rows, in counter order. */
  function GapsOf(rows: seq<WindowRow>, latest: int, maxGap: int, grace: int): seq<Gap> {
    var n := |rows|;
    if n < 2 then []
    else
      GapsOf(rows[..n - 1], latest, maxGap, grace)
      + if Opens(rows[n - 2], rows[n - 1], latest, maxGap, grace) then [GapBetween(rows[n - 2], rows[n - 1])] else []
  }

  function TotalMissing(gaps: seq<Gap>): int {
    if gaps == [] then 0 else TotalMissing(gaps[..|gaps| - 1]) + gaps[|gaps| - 1].missing
  }

  /** range(from, until) */
  function Range(from: int, until: int): (r: seq<int>)
    ensures |r| == if from < until then until - from else 0
    ensures forall i :: 0 <= i < |r| ==> r[i] == from + i
    decreases until - from
  {
    if until <= from then [] else Range(from, until - 1) + [until - 1]
  }

  function MissingSeqs(gap: Gap): seq<int> {
    Range(gap.afterSeq + 1, gap.beforeSeq)
  }

  function Flatten(gaps: seq<Gap>): seq<int> {
    if gaps == [] then [] else Flatten(gaps[..|gaps| - 1]) + MissingSeqs(gaps[|gaps| - 1])
  }

  // ---- the sort: newest gap first, stable ----

  function Insert(sorted: seq<Gap>, gap: Gap): (r: seq<Gap>)
    ensures |r| == |sorted| + 1
    decreases sorted
  {
    if sorted == [] then [gap]
    else if sorted[|sorted| - 1].at < gap.at then Insert(sorted[..|sorted| - 1], gap) + [sorted[|sorted| - 1]]
    else sorted + [gap]
  }

  /** gaps.sort(key=at, reverse=True): ties keep the order they had. */
  function NewestFirst(gaps: seq<Gap>): (r: seq<Gap>)
    ensures |r| == |gaps|
  {
    if gaps == [] then [] else Insert(NewestFirst(gaps[..|gaps| - 1]), gaps[|gaps| - 1])
  }

  predicate TimesFall(gaps: seq<Gap>) {
    forall i, j :: 0 <= i < j < |gaps| ==> gaps[i].at >= gaps[j].at
  }

  function OfTime(gaps: seq<Gap>, at: int): seq<Gap> {
    if gaps == [] then []
    else OfTime(gaps[..|gaps| - 1], at) + if gaps[|gaps| - 1].at == at then [gaps[|gaps| - 1]] else []
  }

  lemma {:induction false} InsertMembers(sorted: seq<Gap>, gap: Gap, g: Gap)
    ensures g in Insert(sorted, gap) <==> g in sorted || g == gap
    decreases sorted
  {
    var n := |sorted|;
    if n > 0 && sorted[n - 1].at < gap.at {
      InsertMembers(sorted[..n - 1], gap, g);
      assert sorted == sorted[..n - 1] + [sorted[n - 1]];
    }
  }

  lemma {:induction false} InsertOrders(sorted: seq<Gap>, gap: Gap)
    requires TimesFall(sorted)
    ensures TimesFall(Insert(sorted, gap))
    decreases sorted
  {
    var n := |sorted|;
    if n > 0 && sorted[n - 1].at < gap.at {
      var front := Insert(sorted[..n - 1], gap);
      InsertOrders(sorted[..n - 1], gap);
      forall i | 0 <= i < |front|
        ensures front[i].at >= sorted[n - 1].at
      {
        InsertMembers(sorted[..n - 1], gap, front[i]);
      }
    }
  }

  lemma {:induction false} InsertIsStable(sorted: seq<Gap>, gap: Gap, at: int)
    ensures OfTime(Insert(sorted, gap), at) == OfTime(sorted, at) + if gap.at == at then [gap] else []
    decreases sorted
  {
    var n := |sorted|;
    if n == 0 {
      assert [gap][..0] == [];
    } else if sorted[n - 1].at < gap.at {
      InsertIsStable(sorted[..n - 1], gap, at);
      assert (Insert(sorted[..n - 1], gap) + [sorted[n - 1]])[..n] == Insert(sorted[..n - 1], gap);
    } else {
      assert (sorted + [gap])[..n] == sorted;
    }
  }

  /** The sort is the stable one: times fall, and the gaps of each time are the same, in the same order. */
  lemma {:induction false} NewestFirstIsStableSort(gaps: seq<Gap>, at: int)
    ensures TimesFall(NewestFirst(gaps))
    ensures OfTime(NewestFirst(gaps), at) == OfTime(gaps, at)
  {
    var n := |gaps|;
    if n == 0 {
    } else {
      NewestFirstIsStableSort(gaps[..n - 1], at);
      InsertOrders(NewestFirst(gaps[..n - 1]), gaps[n - 1]);
      InsertIsStable(NewestFirst(gaps[..n - 1]), gaps[n - 1], at);
    }
  }

  // ---- the two operations ----

  lemma {:induction false} OneMoreRow(rows: seq<WindowRow>, i: int, latest: int, maxGap: int, grace: int)
    requires 0 <= i < |rows|
    ensures var gaps, more := GapsOf(rows[..i], latest, maxGap, grace), GapsOf(rows[..i + 1], latest, maxGap, grace);
            if i > 0 && Opens(rows[i - 1], rows[i], latest, maxGap, grace) then
              more == gaps + [GapBetween(rows[i - 1], rows[i])]
              && TotalMissing(more) == TotalMissing(gaps) + rows[i].number - rows[i - 1].number - 1
            else more == gaps
  {
    assert rows[..i + 1][..i] == rows[..i];
    if i > 0 {
      var gaps, gap := GapsOf(rows[..i], latest, maxGap, grace), GapBetween(rows[i - 1], rows[i]);
      assert (gaps + [gap])[..|gaps|] == gaps;
      assert gaps + [] == gaps;
    }
  }

  method ComputeGwSeqGaps(rows: seq<WindowRow>, maxGap: int, grace: int) returns (report: Report)
    ensures rows == [] ==> report == Report(0, None, None, 0, [])
    ensures rows != [] ==>
      var gaps := GapsOf(rows, Latest(rows), maxGap, grace);
      report == Report(|rows|, Some(rows[0].number), Some(rows[|rows| - 1].number), TotalMissing(gaps), NewestFirst(gaps))
    ensures Flatten(report.gaps) == Detected(rows, maxGap, grace)
  {
    if rows == [] {
      return Report(0, None, None, 0, []);
    }
    var latest := Latest(rows);
    var gaps: seq<Gap> := [];
    var missingTotal := 0;
    for i := 0 to |rows|
      invariant gaps == GapsOf(rows[..i], latest, maxGap, grace)
      invariant missingTotal == TotalMissing(gaps)
    {
      OneMoreRow(rows, i, latest, maxGap, grace);
      if i > 0 {
        var delta := rows[i].number - rows[i - 1].number;
        if 1 < delta < maxGap && !(grace > 0 && latest - rows[i].receivedAt < grace) {
          var miss := delta - 1;
          missingTotal := missingTotal + miss;
          gaps := gaps + [Gap(rows[i - 1].number, rows[i].number, miss, rows[i].receivedAt)];
        }
      }
    }
    assert rows[..|rows|] == rows;
    report := Report(|rows|, Some(rows[0].number), Some(rows[|rows| - 1].number), missingTotal, NewestFirst(gaps));
  }

  method AllMissingSeqs(gaps: seq<Gap>) returns (missing: seq<int>)
    ensures missing == Flatten(gaps)
  {
    missing := [];
    for i := 0 to |gaps|
      invariant missing == Flatten(gaps[..i])
    {
      assert gaps[..i + 1][..i] == gaps[..i];
      missing := missing + MissingSeqs(gaps[i]);
    }
    assert gaps[..|gaps|] == gaps;
  }

  // ---- what the sort does to the list of missing counters ----

  lemma {:induction false} InsertFlatten(sorted: seq<Gap>, gap: Gap)
    ensures multiset(Flatten(Insert(sorted, gap))) == multiset(Flatten(sorted)) + multiset(MissingSeqs(gap))
    decreases sorted
  {
    var n := |sorted|;
    if n == 0 {
      assert [gap][..0] == [];
    } else if sorted[n - 1].at < gap.at {
      InsertFlatten(sorted[..n - 1], gap);
      assert (Insert(sorted[..n - 1], gap) + [sorted[n - 1]])[..n] == Insert(sorted[..n - 1], gap);
    } else {
      assert (sorted + [gap])[..n] == sorted;
    }
  }

  lemma {:induction false} NewestFirstFlatten(gaps: seq<Gap>)
    ensures multiset(Flatten(NewestFirst(gaps))) == multiset(Flatten(gaps))
  {
    if gaps == [] {
    } else {
      NewestFirstFlatten(gaps[..|gaps| - 1]);
      InsertFlatten(NewestFirst(gaps[..|gaps| - 1]), gaps[|gaps| - 1]);
    }
  }

  // ---- exactness ----

  ghost predicate Ascending(s: seq<int>) {
    forall i, j :: 0 <= i < j < |s| ==> s[i] < s[j]
  }

  lemma {:induction false} AscendingHasNoDuplicates(s: seq<int>, x: int)
    requires Ascending(s)
    ensures multiset(s)[x] == if x in s then 1 else 0
    decreases s
  {
    if s == [] {
    } else {
      var front, last := s[..|s| - 1], s[|s| - 1];
      AscendingHasNoDuplicates(front, x);
      assert s == front + [last];
      assert last !in front;
    }
  }

  /** The counter x lies strictly between row i and row i + 1, which are less than maxGap apart, and there
      is no grace period or row i + 1 is that old already, counted from the newest row. */
  ghost predicate ReportedAt(rows: seq<WindowRow>, latest: int, maxGap: int, grace: int, x: int, i: int) {
    && 0 <= i < |rows| - 1 && rows[i].number < x < rows[i + 1].number && rows[i + 1].number - rows[i].number < maxGap
    && (grace <= 0 || latest - rows[i + 1].receivedAt >= grace)
  }

  ghost predicate Reported(rows: seq<WindowRow>, latest: int, maxGap: int, grace: int, x: int) {
    exists i :: ReportedAt(rows, latest, maxGap, grace, x, i)
  }

  lemma {:induction false} ReportedIffOpens(rows: seq<WindowRow>, latest: int, maxGap: int, grace: int, x: int, i: int)
    ensures ReportedAt(rows, latest, maxGap, grace, x, i) <==>
            0 <= i < |rows| - 1 && rows[i].number < x < rows[i + 1].number && Opens(rows[i], rows[i + 1], latest, maxGap, grace)
  {
  }

  lemma {:induction false} ReportedSnoc(rows: seq<WindowRow>, latest: int, maxGap: int, grace: int, x: int)
    requires |rows| >= 2
    ensures Reported(rows, latest, maxGap, grace, x)
       <==> Reported(rows[..|rows| - 1], latest, maxGap, grace, x) || ReportedAt(rows, latest, maxGap, grace, x, |rows| - 2)
  {
    var front := rows[..|rows| - 1];
    if i :| ReportedAt(rows, latest, maxGap, grace, x, i) && i != |rows| - 2 {
      assert ReportedAt(front, latest, maxGap, grace, x, i);
    }
    if i :| ReportedAt(front, latest, maxGap, grace, x, i) {
      assert ReportedAt(rows, latest, maxGap, grace, x, i);
    }
  }

  lemma {:induction false} InRange(from: int, until: int, x: int)
    ensures x in Range(from, until) <==> from <= x < until
  {
    if from <= x < until {
      assert Range(from, until)[x - from] == x;
    }
  }

  lemma {:induction false} GapsOfMembers(rows: seq<WindowRow>, latest: int, maxGap: int, grace: int, x: int)
    ensures x in Flatten(GapsOf(rows, latest, maxGap, grace)) <==> Reported(rows, latest, maxGap, grace, x)
  {
    var n := |rows|;
    if n < 2 {
    } else {
      GapsOfMembers(rows[..n - 1], latest, maxGap, grace, x);
      SnocFlatten(rows, latest, maxGap, grace);
      ReportedSnoc(rows, latest, maxGap, grace, x);
      ReportedIffOpens(rows, latest, maxGap, grace, x, n - 2);
      InRange(rows[n - 2].number + 1, rows[n - 1].number, x);
    }
  }

  /** Before the sort the missing counters come ascending, below the last row. */
  lemma {:induction false} GapsOfAscending(rows: seq<WindowRow>, latest: int, maxGap: int, grace: int)
    requires Ordered(rows)
    ensures Ascending(Flatten(GapsOf(rows, latest, maxGap, grace)))
    ensures forall k :: 0 <= k < |Flatten(GapsOf(rows, latest, maxGap, grace))| ==>
              |rows| >= 2 && Flatten(GapsOf(rows, latest, maxGap, grace))[k] < rows[|rows| - 1].number
  {
    if |rows| < 2 {
    } else {
      GapsOfAscending(rows[..|rows| - 1], latest, maxGap, grace);
      SnocFlatten(rows, latest, maxGap, grace);
    }
  }

  lemma {:induction false} SnocFlatten(rows: seq<WindowRow>, latest: int, maxGap: int, grace: int)
    requires |rows| >= 2
    ensures var n := |rows|;
            Flatten(GapsOf(rows, latest, maxGap, grace))
            == Flatten(GapsOf(rows[..n - 1], latest, maxGap, grace))
               + if Opens(rows[n - 2], rows[n - 1], latest, maxGap, grace)
                 then Range(rows[n - 2].number + 1, rows[n - 1].number) else []
  {
    var n := |rows|;
    var front := GapsOf(rows[..n - 1], latest, maxGap, grace);
    if Opens(rows[n - 2], rows[n - 1], latest, maxGap, grace) {
      assert (front + [GapBetween(rows[n - 2], rows[n - 1])])[..|front|] == front;
    } else {
      assert front + [] == front;
    }
  }

  /** all_missing_seqs of the report on these rows. */
  function Detected(rows: seq<WindowRow>, maxGap: int, grace: int): seq<int> {
    if rows == [] then [] else Flatten(NewestFirst(GapsOf(rows, Latest(rows), maxGap, grace)))
  }

  /** Each counter is detected once or not at all: once exactly when it lies between two neighbouring
      rows less than maxGap apart, the upper of which is past the grace period. */
  lemma {:induction false} DetectedOnce(rows: seq<WindowRow>, maxGap: int, grace: int, x: int)
    requires Ordered(rows)
    ensures multiset(Detected(rows, maxGap, grace))[x]
         == if rows != [] && Reported(rows, Latest(rows), maxGap, grace, x) then 1 else 0
  {
    if rows != [] {
      var gaps := GapsOf(rows, Latest(rows), maxGap, grace);
      NewestFirstFlatten(gaps);
      GapsOfAscending(rows, Latest(rows), maxGap, grace);
      AscendingHasNoDuplicates(Flatten(gaps), x);
      GapsOfMembers(rows, Latest(rows), maxGap, grace, x);
    }
  }

  lemma {:induction false} InMultiset(s: seq<int>, x: int)
    ensures x in s <==> multiset(s)[x] > 0
  {
    assert x in s <==> x in multiset(s);
  }

  function Numbers(rows: seq<WindowRow>): set<int> {
    set row | row in rows :: row.number
  }

  /** a and b are the received counters nearest to x, one on either side. */
  ghost predicate Neighbours(received: set<int>, a: int, x: int, b: int) {
    a in received && b in received && a < x < b && forall y :: y in received ==> y <= a || b <= y
  }

  ghost predicate Missing(received: set<int>, maxGap: int, x: int) {
    exists a, b :: Neighbours(received, a, x, b) && b - a < maxGap
  }

  lemma {:induction false} LastBelow(rows: seq<WindowRow>, x: int) returns (i: int)
    requires Ordered(rows)
    ensures -1 <= i < |rows|
    ensures forall k :: 0 <= k <= i ==> rows[k].number < x
    ensures forall k :: i < k < |rows| ==> rows[k].number >= x
  {
    i := |rows| - 1;
    while i >= 0 && rows[i].number >= x
      invariant -1 <= i < |rows|
      invariant forall k :: i < k < |rows| ==> rows[k].number >= x
    {
      i := i - 1;
    }
  }

  lemma {:induction false} NumberAt(rows: seq<WindowRow>, i: int)
    requires 0 <= i < |rows|
    ensures rows[i].number in Numbers(rows)
  {
    assert rows[i] in rows;
  }

  lemma {:induction false} RowsAround(rows: seq<WindowRow>, a: int, x: int, b: int) returns (i: int)
    requires Ordered(rows) && Neighbours(Numbers(rows), a, x, b)
    ensures 0 <= i < |rows| - 1 && rows[i].number == a && rows[i + 1].number == b
  {
    var rowA :| rowA in rows && rowA.number == a;
    var rowB :| rowB in rows && rowB.number == b;
    i := LastBelow(rows, x);
    NumberAt(rows, i);
    NumberAt(rows, i + 1);
  }

  lemma {:induction false} ReportedIsMissing(rows: seq<WindowRow>, latest: int, maxGap: int, x: int)
    requires Ordered(rows) && Reported(rows, latest, maxGap, 0, x)
    ensures Missing(Numbers(rows), maxGap, x) && x !in Numbers(rows)
  {
    var i :| ReportedAt(rows, latest, maxGap, 0, x, i);
    NumberAt(rows, i);
    NumberAt(rows, i + 1);
    forall y | y in Numbers(rows)
      ensures y <= rows[i].number || rows[i + 1].number <= y
    {
      var row :| row in rows && row.number == y;
      var k :| 0 <= k < |rows| && rows[k] == row;
    }
    assert Neighbours(Numbers(rows), rows[i].number, x, rows[i + 1].number);
  }

  lemma {:induction false} MissingIsReported(rows: seq<WindowRow>, latest: int, maxGap: int, x: int)
    requires Ordered(rows) && Missing(Numbers(rows), maxGap, x)
    ensures Reported(rows, latest, maxGap, 0, x)
  {
    var a, b :| Neighbours(Numbers(rows), a, x, b) && b - a < maxGap;
    var i := RowsAround(rows, a, x, b);
    assert ReportedAt(rows, latest, maxGap, 0, x, i);
  }

  /** With no grace period detection is exact on every multiset of counters: what it lists, without
      repetition, is what is absent between nearest received neighbours less than maxGap apart. */
  lemma {:induction false} DetectionExact(rows: seq<WindowRow>, maxGap: int, x: int)
    requires Ordered(rows)
    ensures x in Detected(rows, maxGap, 0) <==> Missing(Numbers(rows), maxGap, x)
    ensures multiset(Detected(rows, maxGap, 0))[x] <= 1
    ensures Missing(Numbers(rows), maxGap, x) ==> x !in Numbers(rows)
  {
    DetectedOnce(rows, maxGap, 0, x);
    InMultiset(Detected(rows, maxGap, 0), x);
    if rows != [] {
      if Missing(Numbers(rows), maxGap, x) {
        MissingIsReported(rows, Latest(rows), maxGap, x);
      }
      if Reported(rows, Latest(rows), maxGap, 0, x) {
        ReportedIsMissing(rows, Latest(rows), maxGap, x);
      }
    }
  }

  // ---- accounting ----

  /** The counters inside the jumps that are not reported. */
  function Skipped(rows: seq<WindowRow>, latest: int, maxGap: int, grace: int): int {
    var n := |rows|;
    if n < 2 then 0
    else
      Skipped(rows[..n - 1], latest, maxGap, grace)
      + if rows[n - 1].number - rows[n - 2].number > 1 && !Opens(rows[n - 2], rows[n - 1], latest, maxGap, grace)
        then rows[n - 1].number - rows[n - 2].number - 1 else 0
  }

  lemma {:induction false} NumbersAppend(front: seq<WindowRow>, row: WindowRow)
    ensures Numbers(front + [row]) == Numbers(front) + {row.number}
  {
    forall r | r in front + [row]
      ensures r.number in Numbers(front) + {row.number}
    {
    }
    assert row in front + [row];
    forall r | r in front
      ensures r in front + [row]
    {
    }
  }

  lemma {:induction false} NumbersSnoc(rows: seq<WindowRow>)
    requires Ordered(rows) && |rows| >= 2
    ensures |Numbers(rows)|
         == |Numbers(rows[..|rows| - 1])| + if rows[|rows| - 1].number > rows[|rows| - 2].number then 1 else 0
  {
    var front, last := rows[..|rows| - 1], rows[|rows| - 1];
    assert rows == front + [last];
    NumbersAppend(front, last);
    NumberAt(front, |rows| - 2);
    if last.number > front[|rows| - 2].number {
      assert last.number !in Numbers(front);
    } else {
      assert Numbers(front) + {last.number} == Numbers(front);
    }
  }

  lemma {:induction false} TotalSnoc(gaps: seq<Gap>, gap: Gap)
    ensures TotalMissing(gaps + [gap]) == TotalMissing(gaps) + gap.missing
  {
    assert (gaps + [gap])[..|gaps|] == gaps;
  }

  /** Every counter from the first row to the last is received, reported missing, or in a jump that is not reported. */
  lemma {:induction false} EveryCounterAccounted(rows: seq<WindowRow>, latest: int, maxGap: int, grace: int)
    requires Ordered(rows) && rows != []
    ensures rows[|rows| - 1].number - rows[0].number + 1
         == |Numbers(rows)| + TotalMissing(GapsOf(rows, latest, maxGap, grace)) + Skipped(rows, latest, maxGap, grace)
    ensures TotalMissing(GapsOf(rows, latest, maxGap, grace)) == |Flatten(GapsOf(rows, latest, maxGap, grace))|
  {
    var n := |rows|;
    if n == 1 {
      assert Numbers(rows) == {rows[0].number};
    } else {
      EveryCounterAccounted(rows[..n - 1], latest, maxGap, grace);
      NumbersSnoc(rows);
      SnocFlatten(rows, latest, maxGap, grace);
      var front := GapsOf(rows[..n - 1], latest, maxGap, grace);
      TotalSnoc(front, GapBetween(rows[n - 2], rows[n - 1]));
      assert front + [] == front;
    }
  }

  /** The gap lies between row i and row i + 1, counts what is between them, and carries the time of the
      row that closes it. */
  predicate ClosedBy(rows: seq<WindowRow>, g: Gap, i: int) {
    && 0 <= i < |rows| - 1 && g.afterSeq == rows[i].number && g.beforeSeq == rows[i + 1].number
    && g.missing == rows[i + 1].number - rows[i].number - 1 > 0 && g.at == rows[i + 1].receivedAt
  }

  /** So does each reported gap. */
  lemma {:induction false} GapsAreBetweenRows(rows: seq<WindowRow>, latest: int, maxGap: int, grace: int, k: int) returns (i: int)
    requires 0 <= k < |GapsOf(rows, latest, maxGap, grace)|
    ensures ClosedBy(rows, GapsOf(rows, latest, maxGap, grace)[k], i)
  {
    var n := |rows|;
    var front := GapsOf(rows[..n - 1], latest, maxGap, grace);
    if k < |front| {
      i := GapsAreBetweenRows(rows[..n - 1], latest, maxGap, grace, k);
    } else {
      i := n - 2;
    }
  }

  // ---- healing ----

  /** Receiving one missing counter makes that counter, and no other, stop being missing. */
  lemma {:induction false} HealOne(received: set<int>, maxGap: int, t: int, x: int)
    requires Missing(received, maxGap, t)
    ensures Missing(received + {t}, maxGap, x) <==> Missing(received, maxGap, x) && x != t
  {
    var a, b :| Neighbours(received, a, t, b) && b - a < maxGap;
    var healed := received + {t};
    if Missing(healed, maxGap, x) {
      var l, r :| Neighbours(healed, l, x, r) && r - l < maxGap;
      if l == t {
        assert Neighbours(received, a, x, b);
      } else if r == t {
        assert Neighbours(received, a, x, b);
      } else {
        assert Neighbours(received, l, x, r);
      }
    }
    if Missing(received, maxGap, x) && x != t {
      var l, r :| Neighbours(received, l, x, r) && r - l < maxGap;
      if l < t < r {
        assert Neighbours(healed, if x < t then l else t, x, if x < t then t else r);
      } else {
        assert Neighbours(healed, l, x, r);
      }
    }
  }

  /** Counters received one after another. */
  function Receive(received: set<int>, arrivals: seq<int>): set<int> {
    if arrivals == [] then received
    else Receive(received, arrivals[..|arrivals| - 1]) + {arrivals[|arrivals| - 1]}
  }

  lemma {:induction false} ReceiveHolds(received: set<int>, arrivals: seq<int>, x: int)
    ensures x in Receive(received, arrivals) <==> x in received || x in arrivals
  {
    if arrivals == [] {
    } else {
      ReceiveHolds(received, arrivals[..|arrivals| - 1], x);
      assert arrivals == arrivals[..|arrivals| - 1] + [arrivals[|arrivals| - 1]];
    }
  }

  /** Receiving missing counters in any order, any of them repeatedly, removes exactly those. */
  lemma {:induction false} HealMany(received: set<int>, maxGap: int, arrivals: seq<int>, x: int)
    requires forall k :: 0 <= k < |arrivals| ==> Missing(received, maxGap, arrivals[k])
    ensures Missing(Receive(received, arrivals), maxGap, x) <==> Missing(received, maxGap, x) && x !in arrivals
    decreases arrivals
  {
    if arrivals == [] {
    } else {
      var front, t := arrivals[..|arrivals| - 1], arrivals[|arrivals| - 1];
      assert arrivals == front + [t];
      HealMany(received, maxGap, front, x);
      HealMany(received, maxGap, front, t);
      if t in front {
        ReceiveHolds(received, front, t);
        assert Receive(received, front) + {t} == Receive(received, front);
      } else {
        HealOne(Receive(received, front), maxGap, t, x);
      }
    }
  }

  /** A later window that also holds some of the detected counters lists the others; one that holds
      them all lists nothing. */
  lemma {:induction false} RecoveryHeals(rows: seq<WindowRow>, healed: seq<WindowRow>, maxGap: int, arrivals: seq<int>, x: int)
    requires Ordered(rows) && Ordered(healed)
    requires forall k :: 0 <= k < |arrivals| ==> arrivals[k] in Detected(rows, maxGap, 0)
    requires Numbers(healed) == Receive(Numbers(rows), arrivals)
    ensures x in Detected(healed, maxGap, 0) <==> x in Detected(rows, maxGap, 0) && x !in arrivals
  {
    forall k | 0 <= k < |arrivals|
      ensures Missing(Numbers(rows), maxGap, arrivals[k])
    {
      DetectionExact(rows, maxGap, arrivals[k]);
    }
    HealMany(Numbers(rows), maxGap, arrivals, x);
    DetectionExact(rows, maxGap, x);
    DetectionExact(healed, maxGap, x);
  }

  lemma {:induction false} FullRecoveryLeavesNothing(rows: seq<WindowRow>, healed: seq<WindowRow>, maxGap: int, arrivals: seq<int>)
    requires Ordered(rows) && Ordered(healed)
    requires forall k :: 0 <= k < |arrivals| ==> arrivals[k] in Detected(rows, maxGap, 0)
    requires forall k :: 0 <= k < |Detected(rows, maxGap, 0)| ==> Detected(rows, maxGap, 0)[k] in arrivals
    requires Numbers(healed) == Receive(Numbers(rows), arrivals)
    ensures Detected(healed, maxGap, 0) == []
  {
    var left := Detected(healed, maxGap, 0);
    if left != [] {
      RecoveryHeals(rows, healed, maxGap, arrivals, left[0]);
    }
  }

  // ---- the order of the list ----

  /** Nonempty gaps, each below the next. */
  ghost predicate Laid(gaps: seq<Gap>) {
    && (forall i :: 0 <= i < |gaps| ==> gaps[i].afterSeq + 1 < gaps[i].beforeSeq)
    && (forall i, j :: 0 <= i < j < |gaps| ==> gaps[i].beforeSeq <= gaps[j].afterSeq)
  }

  lemma {:induction false} GapsOfLaid(rows: seq<WindowRow>, latest: int, maxGap: int, grace: int)
    requires Ordered(rows)
    ensures Laid(GapsOf(rows, latest, maxGap, grace))
    ensures forall g :: g in GapsOf(rows, latest, maxGap, grace) ==> |rows| >= 2 && g.beforeSeq <= rows[|rows| - 1].number
  {
    if |rows| < 2 {
    } else {
      GapsOfLaid(rows[..|rows| - 1], latest, maxGap, grace);
    }
  }

  lemma {:induction false} AlreadySorted(gaps: seq<Gap>)
    requires TimesFall(gaps)
    ensures NewestFirst(gaps) == gaps
  {
    if gaps == [] {
    } else {
      AlreadySorted(gaps[..|gaps| - 1]);
    }
  }

  lemma {:induction false} FirstMissingListed(gaps: seq<Gap>, q: int)
    requires 0 <= q < |gaps| && gaps[q].afterSeq + 1 < gaps[q].beforeSeq
    ensures gaps[q].afterSeq + 1 in Flatten(gaps)
  {
    var n := |gaps|;
    if q == n - 1 {
      assert MissingSeqs(gaps[q])[0] == gaps[q].afterSeq + 1;
    } else {
      FirstMissingListed(gaps[..n - 1], q);
    }
  }

  lemma {:induction false} ListedInOrder(gaps: seq<Gap>, q: int, p: int)
    requires 0 <= q < p < |gaps| && Ascending(Flatten(gaps))
    requires gaps[q].afterSeq + 1 < gaps[q].beforeSeq && gaps[p].afterSeq + 1 < gaps[p].beforeSeq
    ensures gaps[q].afterSeq < gaps[p].afterSeq
  {
    var n := |gaps|;
    var front := Flatten(gaps[..n - 1]);
    assert Flatten(gaps)[..|front|] == front;
    if p == n - 1 {
      FirstMissingListed(gaps[..n - 1], q);
      var k :| 0 <= k < |front| && front[k] == gaps[q].afterSeq + 1;
      assert Flatten(gaps)[k] == front[k];
      assert Flatten(gaps)[|front|] == gaps[p].afterSeq + 1;
    } else {
      ListedInOrder(gaps[..n - 1], q, p);
    }
  }

  lemma {:induction false} NewestFirstMembers(gaps: seq<Gap>, g: Gap)
    ensures g in NewestFirst(gaps) <==> g in gaps
  {
    if gaps == [] {
    } else {
      NewestFirstMembers(gaps[..|gaps| - 1], g);
      InsertMembers(NewestFirst(gaps[..|gaps| - 1]), gaps[|gaps| - 1], g);
      assert gaps == gaps[..|gaps| - 1] + [gaps[|gaps| - 1]];
    }
  }

  lemma {:induction false} PlaceInSort(gaps: seq<Gap>, i: int) returns (p: int)
    requires 0 <= i < |gaps|
    ensures 0 <= p < |gaps| && NewestFirst(gaps)[p] == gaps[i]
  {
    NewestFirstMembers(gaps, gaps[i]);
    p :| 0 <= p < |gaps| && NewestFirst(gaps)[p] == gaps[i];
  }

  lemma {:induction false} LaterGapFirst(gaps: seq<Gap>, i: int, j: int)
    requires Laid(gaps) && 0 <= i < j < |gaps| && gaps[i].at < gaps[j].at
    ensures !Ascending(Flatten(NewestFirst(gaps)))
  {
    var sorted := NewestFirst(gaps);
    var p := PlaceInSort(gaps, i);
    var q := PlaceInSort(gaps, j);
    NewestFirstIsStableSort(gaps, 0);
    assert q < p;
    if Ascending(Flatten(sorted)) {
      ListedInOrder(sorted, q, p);
    }
  }

  /** The list is ascending, as all_missing_seqs says of itself, if and only if no gap was closed
      later than a gap of smaller counters. */
  lemma {:induction false} AscendingIff(rows: seq<WindowRow>, maxGap: int, grace: int)
    requires Ordered(rows) && rows != []
    ensures Ascending(Detected(rows, maxGap, grace)) <==> TimesFall(GapsOf(rows, Latest(rows), maxGap, grace))
  {
    var gaps := GapsOf(rows, Latest(rows), maxGap, grace);
    if TimesFall(gaps) {
      AlreadySorted(gaps);
      GapsOfAscending(rows, Latest(rows), maxGap, grace);
    } else {
      GapsOfLaid(rows, Latest(rows), maxGap, grace);
      var i, j :| 0 <= i < j < |gaps| && gaps[i].at < gaps[j].at;
      LaterGapFirst(gaps, i, j);
    }
  }

  lemma {:induction false} TwoGaps(low: Gap, high: Gap)
    requires low.at < high.at
    ensures Flatten(NewestFirst([low, high])) == MissingSeqs(high) + MissingSeqs(low)
  {
    assert [low, high][..1] == [low] && [low][..0] == [];
    assert NewestFirst([low]) == [low];
    assert Insert([low], high) == Insert([], high) + [low] == [high, low];
    assert [high, low][..1] == [high] && [high][..0] == [];
    assert Flatten([high]) == MissingSeqs(high);
  }

  lemma {:induction false} ThreeRows(first: WindowRow, second: WindowRow, third: WindowRow, latest: int, maxGap: int)
    requires Opens(first, second, latest, maxGap, 0) && Opens(second, third, latest, maxGap, 0)
    ensures GapsOf([first, second, third], latest, maxGap, 0) == [GapBetween(first, second), GapBetween(second, third)]
  {
    assert [first, second, third][..2] == [first, second] && [first, second][..1] == [first];
    assert GapsOf([first, second], latest, maxGap, 0) == [GapBetween(first, second)];
  }

  /** Frames 1, 3 and 5 arriving in order are enough: the list is [4, 2]. */
  lemma {:induction false} NotAscending(first: WindowRow, second: WindowRow, third: WindowRow)
    requires first == WindowRow(1, 10) && second == WindowRow(3, 20) && third == WindowRow(5, 30)
    ensures Ordered([first, second, third]) && Detected([first, second, third], 1000, 0) == [4, 2]
  {
    var rows := [first, second, third];
    ThreeRows(first, second, third, Latest(rows), 1000);
    TwoGaps(GapBetween(first, second), GapBetween(second, third));
  }
}
