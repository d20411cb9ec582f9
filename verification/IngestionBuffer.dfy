/** The ingestion buffer: size-triggered and timed flushes, retries, poison pills and the overflow cap.

    A payload is known by its arrival number. Which payloads the database refuses in a flush is
    arbitrary. All operations run under the service's lock, one after the other. */
module IngestionBuffer {

  const MAX_BUFFER_OVERFLOW: nat := 10_000
  const MAX_RETRIES: nat := 3

  datatype Entry = Entry(id: nat, retries: nat)

  /** The buffer, and where every payload that left it went. */
  datatype State = State(
    buffer: seq<Entry>, arrived: nat,
    processed: seq<nat>, poisoned: seq<nat>, dropped: seq<nat>,
    attempts: map<nat, nat>)

  const INITIAL := State([], 0, [], [], [], map[])

  datatype Op =
    | Ingest(failing: set<nat>)
    | TimedFlush(failing: set<nat>)

  // ---- one flush ----

  function Processed(buffer: seq<Entry>, failing: set<nat>): seq<nat> {
    if buffer == [] then [] else
      var e := buffer[|buffer| - 1];
      Processed(buffer[..|buffer| - 1], failing) + (if e.id in failing then [] else [e.id])
  }

  function Poisoned(buffer: seq<Entry>, failing: set<nat>): seq<nat> {
    if buffer == [] then [] else
      var e := buffer[|buffer| - 1];
      Poisoned(buffer[..|buffer| - 1], failing) + (if e.id in failing && e.retries >= MAX_RETRIES then [e.id] else [])
  }

  function Requeued(buffer: seq<Entry>, failing: set<nat>): seq<Entry> {
    if buffer == [] then [] else
      var e := buffer[|buffer| - 1];
      Requeued(buffer[..|buffer| - 1], failing)
      + (if e.id in failing && e.retries < MAX_RETRIES then [Entry(e.id, e.retries + 1)] else [])
  }

  function Ids(buffer: seq<Entry>): (ids: seq<nat>)
    ensures |ids| == |buffer|
    ensures forall i :: 0 <= i < |buffer| ==> ids[i] == buffer[i].id
  {
    seq(|buffer|, i requires 0 <= i < |buffer| => buffer[i].id)
  }

  function Tries(attempts: map<nat, nat>, id: nat): nat {
    if id in attempts then attempts[id] else 0
  }

  /** Every buffered payload is tried once per flush. */
  function Attempted(attempts: map<nat, nat>, buffer: seq<Entry>): map<nat, nat>
    decreases |buffer|
  {
    if buffer == [] then attempts else
      var before := Attempted(attempts, buffer[..|buffer| - 1]);
      var id := buffer[|buffer| - 1].id;
      before[id := Tries(before, id) + 1]
  }

  function Overflow(requeue: seq<Entry>, cap: nat): nat {
    if |requeue| > cap then |requeue| - cap else 0
  }

  function Flush(s: State, failing: set<nat>, cap: nat): State {
    var requeue := Requeued(s.buffer, failing);
    var drop := Overflow(requeue, cap);
    State(requeue[drop..], s.arrived,
          s.processed + Processed(s.buffer, failing), s.poisoned + Poisoned(s.buffer, failing),
          s.dropped + Ids(requeue[..drop]), Attempted(s.attempts, s.buffer))
  }

  function Append(s: State): State {
    s.(buffer := s.buffer + [Entry(s.arrived, 0)], arrived := s.arrived + 1)
  }

  function Step(s: State, op: Op, maxSize: int, cap: nat): State {
    match op
    case Ingest(failing) =>
      if |Append(s).buffer| >= maxSize then Flush(Append(s), failing, cap) else Append(s)
    case TimedFlush(failing) => Flush(s, failing, cap)
  }

  function Run(s: State, ops: seq<Op>, maxSize: int, cap: nat): State {
    if ops == [] then s
    else Step(Run(s, ops[..|ops| - 1], maxSize, cap), ops[|ops| - 1], maxSize, cap)
  }

  // ---- order ----

  ghost predicate InArrivalOrder(buffer: seq<Entry>, arrived: nat) {
    && (forall i :: 0 <= i < |buffer| ==> buffer[i].id < arrived)
    && (forall i, j :: 0 <= i < j < |buffer| ==> buffer[i].id < buffer[j].id)
  }

  /** What requeueing makes of one entry. */
  function Retried(e: Entry, failing: set<nat>): seq<Entry> {
    if e.id in failing && e.retries < MAX_RETRIES then [Entry(e.id, e.retries + 1)] else []
  }

  lemma {:induction false} RequeuedFrom(buffer: seq<Entry>, failing: set<nat>, e: Entry)
    requires e in Requeued(buffer, failing)
    ensures 1 <= e.retries <= MAX_RETRIES && Entry(e.id, e.retries - 1) in buffer
  {
    var rest, last := buffer[..|buffer| - 1], buffer[|buffer| - 1];
    assert buffer == rest + [last];
    assert Requeued(buffer, failing) == Requeued(rest, failing) + Retried(last, failing);
    if e in Requeued(rest, failing) {
      RequeuedFrom(rest, failing, e);
    } else {
      assert e in Retried(last, failing);
    }
  }

  lemma {:induction false} RequeuedInOrder(buffer: seq<Entry>, failing: set<nat>, arrived: nat)
    requires InArrivalOrder(buffer, arrived)
    ensures InArrivalOrder(Requeued(buffer, failing), arrived)
  {
    if buffer == [] {
    } else {
      var rest, last := buffer[..|buffer| - 1], buffer[|buffer| - 1];
      RequeuedInOrder(rest, failing, last.id);
      assert Requeued(buffer, failing) == Requeued(rest, failing) + Retried(last, failing);
    }
  }

  // ---- conservation ----

  function Arrivals(n: nat): seq<nat> {
    if n == 0 then [] else Arrivals(n - 1) + [n - 1]
  }

  lemma {:induction false} ArrivalsOnce(n: nat, id: nat)
    ensures multiset(Arrivals(n))[id] == if id < n then 1 else 0
  {
    if n == 0 {
    } else {
      ArrivalsOnce(n - 1, id);
    }
  }

  /** Where everything that ever arrived is. */
  function Whereabouts(s: State): multiset<nat> {
    multiset(s.processed) + multiset(s.poisoned) + multiset(s.dropped) + multiset(Ids(s.buffer))
  }

  lemma {:induction false} IdsOfSplit(a: seq<Entry>, b: seq<Entry>)
    ensures Ids(a + b) == Ids(a) + Ids(b)
  {
  }

  /** Where one flush sends the buffered payloads. */
  function Destinations(buffer: seq<Entry>, failing: set<nat>): multiset<nat> {
    multiset(Processed(buffer, failing)) + multiset(Poisoned(buffer, failing)) + multiset(Ids(Requeued(buffer, failing)))
  }

  lemma {:induction false} Destination(rest: seq<Entry>, e: Entry, failing: set<nat>)
    ensures Destinations(rest + [e], failing) == Destinations(rest, failing) + multiset{e.id}
  {
    assert (rest + [e])[..|rest + [e]| - 1] == rest;
    var requeue := Requeued(rest, failing);
    if e.id in failing && e.retries < MAX_RETRIES {
      SnocIds(requeue, Entry(e.id, e.retries + 1));
    } else {
      assert Requeued(rest + [e], failing) == requeue;
    }
  }

  lemma {:induction false} FlushSplits(buffer: seq<Entry>, failing: set<nat>)
    ensures Destinations(buffer, failing) == multiset(Ids(buffer))
  {
    if buffer == [] {
    } else {
      var rest, e := buffer[..|buffer| - 1], buffer[|buffer| - 1];
      FlushSplits(rest, failing);
      SnocIds(rest, e);
      Destination(rest, e, failing);
      assert buffer == rest + [e];
    }
  }

  lemma {:induction false} SnocIds(a: seq<Entry>, e: Entry)
    ensures multiset(Ids(a + [e])) == multiset(Ids(a)) + multiset{e.id}
    ensures forall id :: id in Ids(a + [e]) <==> id in Ids(a) || id == e.id
  {
    assert Ids(a + [e]) == Ids(a) + [e.id];
  }

  lemma {:induction false} FlushConserves(s: State, failing: set<nat>, cap: nat)
    ensures Whereabouts(Flush(s, failing, cap)) == Whereabouts(s)
  {
    var requeue := Requeued(s.buffer, failing);
    var drop := Overflow(requeue, cap);
    FlushSplits(s.buffer, failing);
    IdsOfSplit(requeue[..drop], requeue[drop..]);
    assert requeue == requeue[..drop] + requeue[drop..];
  }

  lemma {:induction false} AppendConserves(s: State)
    ensures Whereabouts(Append(s)) == Whereabouts(s) + multiset{s.arrived}
  {
    IdsOfSplit(s.buffer, [Entry(s.arrived, 0)]);
    assert Ids([Entry(s.arrived, 0)]) == [s.arrived];
  }

  // ---- retries are attempts ----

  lemma {:induction false} TriesAfter(attempts: map<nat, nat>, tried: nat, id: nat)
    ensures Tries(attempts[tried := Tries(attempts, tried) + 1], id) == Tries(attempts, id) + if id == tried then 1 else 0
  {
  }

  lemma {:induction false} LastIsNew(buffer: seq<Entry>, arrived: nat)
    requires InArrivalOrder(buffer, arrived) && buffer != []
    ensures var rest, e := buffer[..|buffer| - 1], buffer[|buffer| - 1];
            e.id !in Ids(rest) && forall id :: id in Ids(buffer) <==> id in Ids(rest) || id == e.id
  {
    var rest, e := buffer[..|buffer| - 1], buffer[|buffer| - 1];
    assert buffer == rest + [e];
    SnocIds(rest, e);
  }

  lemma {:induction false} AttemptedOnce(attempts: map<nat, nat>, buffer: seq<Entry>, arrived: nat, id: nat)
    requires InArrivalOrder(buffer, arrived)
    ensures Tries(Attempted(attempts, buffer), id) == Tries(attempts, id) + if id in Ids(buffer) then 1 else 0
  {
    if buffer == [] {
    } else {
      var rest, e := buffer[..|buffer| - 1], buffer[|buffer| - 1];
      AttemptedOnce(attempts, rest, e.id, id);
      LastIsNew(buffer, arrived);
      TriesAfter(Attempted(attempts, rest), e.id, id);
    }
  }

  ghost predicate AttemptsInv(s: State) {
    && (forall e :: e in s.buffer ==> e.retries <= MAX_RETRIES && Tries(s.attempts, e.id) == e.retries)
    && (forall id :: id in s.processed ==> 1 <= Tries(s.attempts, id) <= MAX_RETRIES + 1)
    && (forall id :: id in s.poisoned ==> Tries(s.attempts, id) == MAX_RETRIES + 1)
    && (forall id :: id in s.dropped ==> 1 <= Tries(s.attempts, id) <= MAX_RETRIES)
    && (forall id :: id >= s.arrived ==> Tries(s.attempts, id) == 0)
  }

  lemma {:induction false} FlushedRetries(s: State, failing: set<nat>, cap: nat)
    requires InArrivalOrder(s.buffer, s.arrived) && AttemptsInv(s)
    ensures forall e :: e in Flush(s, failing, cap).buffer ==>
              e.retries <= MAX_RETRIES && Tries(Attempted(s.attempts, s.buffer), e.id) == e.retries
  {
    var requeue := Requeued(s.buffer, failing);
    forall e | e in requeue
      ensures 1 <= e.retries <= MAX_RETRIES && Tries(Attempted(s.attempts, s.buffer), e.id) == e.retries
    {
      RequeuedFrom(s.buffer, failing, e);
      AttemptedOnce(s.attempts, s.buffer, s.arrived, e.id);
      InIds(s.buffer, Entry(e.id, e.retries - 1));
    }
  }

  lemma {:induction false} InIds(buffer: seq<Entry>, e: Entry)
    requires e in buffer
    ensures e.id in Ids(buffer)
  {
    var i :| 0 <= i < |buffer| && buffer[i] == e;
    assert Ids(buffer)[i] == e.id;
  }

  lemma {:induction false} ProcessedFrom(buffer: seq<Entry>, failing: set<nat>, id: nat)
    requires id in Processed(buffer, failing)
    ensures exists e :: e in buffer && e.id == id
  {
    var rest, last := buffer[..|buffer| - 1], buffer[|buffer| - 1];
    assert buffer == rest + [last];
    if id in Processed(rest, failing) {
      ProcessedFrom(rest, failing, id);
    } else {
      assert last in buffer && last.id == id;
    }
  }

  lemma {:induction false} PoisonedFrom(buffer: seq<Entry>, failing: set<nat>, id: nat)
    requires id in Poisoned(buffer, failing)
    ensures exists e :: e in buffer && e.id == id && e.retries >= MAX_RETRIES
  {
    var rest, last := buffer[..|buffer| - 1], buffer[|buffer| - 1];
    assert buffer == rest + [last];
    if id in Poisoned(rest, failing) {
      PoisonedFrom(rest, failing, id);
    } else {
      assert last in buffer && last.id == id;
    }
  }

  ghost predicate Conserved(s: State) {
    Whereabouts(s) == multiset(Arrivals(s.arrived))
  }

  /** Whatever left the buffer is not in it, and everything accounted for did arrive. */
  lemma {:induction false} LeftTheBuffer(s: State, id: nat)
    requires Conserved(s) && (id in s.processed || id in s.poisoned || id in s.dropped)
    ensures id !in Ids(s.buffer) && id < s.arrived
  {
    ArrivalsOnce(s.arrived, id);
    assert Whereabouts(s)[id] <= 1;
  }

  lemma {:induction false} ProcessedTries(s: State, failing: set<nat>, id: nat)
    requires Conserved(s) && InArrivalOrder(s.buffer, s.arrived) && AttemptsInv(s)
    requires id in s.processed + Processed(s.buffer, failing)
    ensures 1 <= Tries(Attempted(s.attempts, s.buffer), id) <= MAX_RETRIES + 1
  {
    AttemptedOnce(s.attempts, s.buffer, s.arrived, id);
    if id in s.processed {
      LeftTheBuffer(s, id);
    } else {
      ProcessedFrom(s.buffer, failing, id);
      var e :| e in s.buffer && e.id == id;
      InIds(s.buffer, e);
    }
  }

  lemma {:induction false} PoisonedTries(s: State, failing: set<nat>, id: nat)
    requires Conserved(s) && InArrivalOrder(s.buffer, s.arrived) && AttemptsInv(s)
    requires id in s.poisoned + Poisoned(s.buffer, failing)
    ensures Tries(Attempted(s.attempts, s.buffer), id) == MAX_RETRIES + 1
  {
    AttemptedOnce(s.attempts, s.buffer, s.arrived, id);
    if id in s.poisoned {
      LeftTheBuffer(s, id);
    } else {
      PoisonedFrom(s.buffer, failing, id);
      var e :| e in s.buffer && e.id == id && e.retries >= MAX_RETRIES;
      InIds(s.buffer, e);
    }
  }

  lemma {:induction false} DroppedTries(s: State, failing: set<nat>, cut: seq<Entry>, id: nat)
    requires Conserved(s) && InArrivalOrder(s.buffer, s.arrived) && AttemptsInv(s)
    requires cut <= Requeued(s.buffer, failing) && id in s.dropped + Ids(cut)
    ensures 1 <= Tries(Attempted(s.attempts, s.buffer), id) <= MAX_RETRIES
  {
    AttemptedOnce(s.attempts, s.buffer, s.arrived, id);
    if id in s.dropped {
      LeftTheBuffer(s, id);
    } else {
      var i :| 0 <= i < |cut| && Ids(cut)[i] == id;
      RequeuedFrom(s.buffer, failing, cut[i]);
      InIds(s.buffer, Entry(id, cut[i].retries - 1));
    }
  }

  lemma {:induction false} UnseenTries(s: State, id: nat)
    requires InArrivalOrder(s.buffer, s.arrived) && AttemptsInv(s) && id >= s.arrived
    ensures Tries(Attempted(s.attempts, s.buffer), id) == 0
  {
    AttemptedOnce(s.attempts, s.buffer, s.arrived, id);
  }

  lemma {:induction false} FlushKeepsAttempts(s: State, failing: set<nat>, cap: nat)
    requires Conserved(s) && InArrivalOrder(s.buffer, s.arrived) && AttemptsInv(s)
    ensures AttemptsInv(Flush(s, failing, cap))
  {
    var t := Flush(s, failing, cap);
    var requeue := Requeued(s.buffer, failing);
    FlushedRetries(s, failing, cap);
    forall id | id in t.processed
      ensures 1 <= Tries(t.attempts, id) <= MAX_RETRIES + 1
    {
      ProcessedTries(s, failing, id);
    }
    forall id | id in t.poisoned
      ensures Tries(t.attempts, id) == MAX_RETRIES + 1
    {
      PoisonedTries(s, failing, id);
    }
    forall id | id in t.dropped
      ensures 1 <= Tries(t.attempts, id) <= MAX_RETRIES
    {
      DroppedTries(s, failing, requeue[..Overflow(requeue, cap)], id);
    }
    forall id | id >= s.arrived
      ensures Tries(t.attempts, id) == 0
    {
      UnseenTries(s, id);
    }
  }

  // ---- how long the buffer gets ----

  /** How many entries have been retried r times. */
  function Count(buffer: seq<Entry>, r: nat): (n: nat)
    ensures n <= |buffer|
  {
    if buffer == [] then 0
    else Count(buffer[..|buffer| - 1], r) + (if buffer[|buffer| - 1].retries == r then 1 else 0)
  }

  function Max(a: int, b: int): int {
    if a >= b then a else b
  }

  /** The effective flush threshold: a buffer of one is always flushed when maxSize <= 1. */
  function Threshold(maxSize: int): int {
    Max(maxSize, 1)
  }

  /** Between operations. Fresh payloads mean no flush since the last one was below the threshold;
      the entries on their second try are at most the threshold, and every older generation can
      add only one to what the flushes keep. */
  ghost predicate Bounded(buffer: seq<Entry>, threshold: int) {
    && (Count(buffer, 0) > 0 ==> |buffer| < threshold)
    && Count(buffer, 1) <= threshold
    && Count(buffer, 1) + Count(buffer, 2) <= threshold + 1
    && Count(buffer, 1) + Count(buffer, 2) + Count(buffer, 3) <= threshold + 2
    && (forall e :: e in buffer ==> e.retries <= MAX_RETRIES)
  }

  lemma {:induction false} CountAll(buffer: seq<Entry>)
    requires forall e :: e in buffer ==> e.retries <= MAX_RETRIES
    ensures |buffer| == Count(buffer, 0) + Count(buffer, 1) + Count(buffer, 2) + Count(buffer, 3)
  {
    if buffer == [] {
    } else {
      assert buffer[|buffer| - 1] in buffer;
      CountAll(buffer[..|buffer| - 1]);
    }
  }

  lemma {:induction false} CountSnoc(buffer: seq<Entry>, e: Entry, r: nat)
    ensures Count(buffer + [e], r) == Count(buffer, r) + if e.retries == r then 1 else 0
  {
    assert (buffer + [e])[..|buffer|] == buffer;
  }

  lemma {:induction false} CountRequeued(buffer: seq<Entry>, failing: set<nat>, r: nat)
    ensures Count(Requeued(buffer, failing), 0) == 0
    ensures Count(Requeued(buffer, failing), r + 1) <= Count(buffer, r)
    ensures |Requeued(buffer, failing)| <= |buffer|
  {
    if buffer == [] {
    } else {
      var rest, e := buffer[..|buffer| - 1], buffer[|buffer| - 1];
      CountRequeued(rest, failing, r);
      if e.id in failing && e.retries < MAX_RETRIES {
        CountSnoc(Requeued(rest, failing), Entry(e.id, e.retries + 1), r + 1);
        CountSnoc(Requeued(rest, failing), Entry(e.id, e.retries + 1), 0);
      } else {
        assert Requeued(buffer, failing) == Requeued(rest, failing);
      }
    }
  }

  lemma {:induction false} CountSuffix(buffer: seq<Entry>, drop: nat, r: nat)
    requires drop <= |buffer|
    ensures Count(buffer[drop..], r) <= Count(buffer, r)
    decreases |buffer|
  {
    if drop == |buffer| {
    } else {
      var rest := buffer[..|buffer| - 1];
      CountSuffix(rest, drop, r);
      assert buffer[drop..][..|buffer[drop..]| - 1] == rest[drop..];
    }
  }

  /** A buffer about to be flushed: full to the threshold, or one fresh payload on top of leftovers. */
  ghost predicate FlushInput(buffer: seq<Entry>, threshold: int) {
    && (|buffer| <= threshold || Count(buffer, 0) <= 1)
    && Count(buffer, 0) <= threshold && Count(buffer, 1) <= threshold
    && Count(buffer, 1) + Count(buffer, 2) <= threshold + 1
    && Count(buffer, 1) + Count(buffer, 2) + Count(buffer, 3) <= threshold + 2
    && (forall e :: e in buffer ==> e.retries <= MAX_RETRIES)
  }

  lemma {:induction false} RequeueBound(buffer: seq<Entry>, failing: set<nat>, threshold: int)
    requires FlushInput(buffer, threshold)
    ensures Bounded(Requeued(buffer, failing), threshold) && Count(Requeued(buffer, failing), 0) == 0
  {
    var requeue := Requeued(buffer, failing);
    forall e | e in requeue
      ensures e.retries <= MAX_RETRIES
    {
      RequeuedFrom(buffer, failing, e);
    }
    CountAll(buffer);
    CountRequeued(buffer, failing, 0);
    CountRequeued(buffer, failing, 1);
    CountRequeued(buffer, failing, 2);
  }

  lemma {:induction false} SuffixBound(buffer: seq<Entry>, drop: nat, threshold: int)
    requires Bounded(buffer, threshold) && Count(buffer, 0) == 0 && drop <= |buffer|
    ensures Bounded(buffer[drop..], threshold)
  {
    CountSuffix(buffer, drop, 0);
    CountSuffix(buffer, drop, 1);
    CountSuffix(buffer, drop, 2);
    CountSuffix(buffer, drop, 3);
  }

  lemma {:induction false} FlushRestoresBound(s: State, failing: set<nat>, cap: nat, threshold: int)
    requires FlushInput(s.buffer, threshold)
    ensures Bounded(Flush(s, failing, cap).buffer, threshold)
    ensures |s.buffer| <= threshold + 3 && |Requeued(s.buffer, failing)| <= threshold + 2
  {
    var requeue := Requeued(s.buffer, failing);
    RequeueBound(s.buffer, failing, threshold);
    SuffixBound(requeue, Overflow(requeue, cap), threshold);
    CountAll(s.buffer);
    CountAll(requeue);
  }

  lemma {:induction false} AppendBound(s: State, threshold: int)
    requires threshold >= 1 && Bounded(s.buffer, threshold)
    ensures FlushInput(Append(s).buffer, threshold)
    ensures |Append(s).buffer| < threshold ==> Bounded(Append(s).buffer, threshold)
  {
    var e := Entry(s.arrived, 0);
    CountSnoc(s.buffer, e, 0);
    CountSnoc(s.buffer, e, 1);
    CountSnoc(s.buffer, e, 2);
    CountSnoc(s.buffer, e, 3);
    CountAll(s.buffer);
  }

  // ---- every run ----

  ghost predicate Inv(s: State, threshold: int) {
    && Conserved(s)
    && InArrivalOrder(s.buffer, s.arrived)
    && AttemptsInv(s)
    && Bounded(s.buffer, threshold)
  }

  lemma {:induction false} FlushKeepsInv(s: State, failing: set<nat>, cap: nat, threshold: int)
    requires Conserved(s) && InArrivalOrder(s.buffer, s.arrived) && AttemptsInv(s) && FlushInput(s.buffer, threshold)
    ensures Inv(Flush(s, failing, cap), threshold)
    ensures threshold + 2 <= cap ==> Flush(s, failing, cap).dropped == s.dropped
  {
    FlushConserves(s, failing, cap);
    FlushKeepsOrder(s, failing, cap);
    FlushKeepsAttempts(s, failing, cap);
    FlushRestoresBound(s, failing, cap, threshold);
    FlushDropsNothing(s, failing, cap, threshold);
  }

  lemma {:induction false} FlushKeepsOrder(s: State, failing: set<nat>, cap: nat)
    requires InArrivalOrder(s.buffer, s.arrived)
    ensures InArrivalOrder(Flush(s, failing, cap).buffer, s.arrived)
  {
    RequeuedInOrder(s.buffer, failing, s.arrived);
  }

  lemma {:induction false} FlushDropsNothing(s: State, failing: set<nat>, cap: nat, threshold: int)
    requires FlushInput(s.buffer, threshold)
    ensures threshold + 2 <= cap ==> Flush(s, failing, cap).dropped == s.dropped
  {
    FlushRestoresBound(s, failing, cap, threshold);
    assert s.dropped + [] == s.dropped;
  }

  lemma {:induction false} AppendKeepsOrder(s: State)
    requires InArrivalOrder(s.buffer, s.arrived)
    ensures InArrivalOrder(Append(s).buffer, Append(s).arrived)
  {
  }

  lemma {:induction false} AppendKeepsAttempts(s: State)
    requires AttemptsInv(s)
    ensures AttemptsInv(Append(s))
  {
  }

  lemma {:induction false} AppendKeeps(s: State, threshold: int)
    requires threshold >= 1 && Inv(s, threshold)
    ensures Conserved(Append(s)) && InArrivalOrder(Append(s).buffer, Append(s).arrived) && AttemptsInv(Append(s))
  {
    AppendConserves(s);
    AppendKeepsOrder(s);
    AppendKeepsAttempts(s);
  }

  lemma {:induction false} TimedFlushKeepsInv(s: State, failing: set<nat>, cap: nat, threshold: int)
    requires Inv(s, threshold)
    ensures Inv(Flush(s, failing, cap), threshold)
    ensures threshold + 2 <= cap ==> Flush(s, failing, cap).dropped == s.dropped
  {
    CountAll(s.buffer);
    FlushKeepsInv(s, failing, cap, threshold);
  }

  lemma {:induction false} IngestKeepsInv(s: State, failing: set<nat>, maxSize: int, cap: nat)
    requires Inv(s, Threshold(maxSize))
    ensures var t := if |Append(s).buffer| >= maxSize then Flush(Append(s), failing, cap) else Append(s);
            Inv(t, Threshold(maxSize)) && (Threshold(maxSize) + 2 <= cap ==> t.dropped == s.dropped)
  {
    AppendKeeps(s, Threshold(maxSize));
    AppendBound(s, Threshold(maxSize));
    if |Append(s).buffer| >= maxSize {
      FlushKeepsInv(Append(s), failing, cap, Threshold(maxSize));
    }
  }

  lemma {:induction false} StepKeepsInv(s: State, op: Op, maxSize: int, cap: nat)
    requires Inv(s, Threshold(maxSize))
    ensures Inv(Step(s, op, maxSize, cap), Threshold(maxSize))
    ensures Threshold(maxSize) + 2 <= cap ==> Step(s, op, maxSize, cap).dropped == s.dropped
  {
    match op
    case TimedFlush(failing) => TimedFlushKeepsInv(s, failing, cap, Threshold(maxSize));
    case Ingest(failing) => IngestKeepsInv(s, failing, maxSize, cap);
  }

  /** Whatever the database does: nothing is lost or duplicated, the buffer stays in arrival order,
      retry counts are attempts and stay within three, the buffer never holds more than the
      threshold plus two, and below the cap nothing is ever dropped. */
  lemma {:induction false} RunKeepsInv(ops: seq<Op>, maxSize: int, cap: nat)
    ensures Inv(Run(INITIAL, ops, maxSize, cap), Threshold(maxSize))
    ensures |Run(INITIAL, ops, maxSize, cap).buffer| <= Threshold(maxSize) + 2
    ensures Threshold(maxSize) + 2 <= cap ==> Run(INITIAL, ops, maxSize, cap).dropped == []
  {
    if ops == [] {
    } else {
      RunKeepsInv(ops[..|ops| - 1], maxSize, cap);
      StepKeepsInv(Run(INITIAL, ops[..|ops| - 1], maxSize, cap), ops[|ops| - 1], maxSize, cap);
    }
    CountAll(Run(INITIAL, ops, maxSize, cap).buffer);
  }

  /** Under the lock, before a size-triggered flush, one more payload fits. */
  lemma {:induction false} LockedBound(ops: seq<Op>, maxSize: int, cap: nat)
    ensures |Append(Run(INITIAL, ops, maxSize, cap)).buffer| <= Threshold(maxSize) + 3
  {
    RunKeepsInv(ops, maxSize, cap);
  }

  /** Every payload that arrived is in exactly one place, once, and was tried at most four times. */
  lemma {:induction false} ExactlyOnePlace(ops: seq<Op>, maxSize: int, cap: nat, id: nat)
    requires id < Run(INITIAL, ops, maxSize, cap).arrived
    ensures var s := Run(INITIAL, ops, maxSize, cap);
            multiset(s.processed)[id] + multiset(s.poisoned)[id] + multiset(s.dropped)[id] + multiset(Ids(s.buffer))[id] == 1
            && Tries(s.attempts, id) <= 4
  {
    var s := Run(INITIAL, ops, maxSize, cap);
    RunKeepsInv(ops, maxSize, cap);
    ArrivalsOnce(s.arrived, id);
    assert Whereabouts(s)[id] == 1;
    if id in Ids(s.buffer) {
      var i :| 0 <= i < |s.buffer| && s.buffer[i].id == id;
      assert s.buffer[i] in s.buffer;
    }
  }

  // ---- the bound is reached ----

  /** An outage: the database refuses everything that has arrived so far. */
  function Everything(n: nat): (ids: set<nat>)
    ensures forall i: nat :: i in ids <==> i < n
  {
    if n == 0 then {} else Everything(n - 1) + {n - 1}
  }

  function Outage(n: nat): seq<Op> {
    if n == 0 then [] else Outage(n - 1) + [Ingest(Everything(n))]
  }

  function Generation(from: nat, to: nat, retries: nat): seq<Entry>
    requires from <= to
  {
    seq(to - from, i requires 0 <= i < to - from => Entry(from + i, retries))
  }

  lemma {:induction false} RunSnoc(ops: seq<Op>, op: Op, maxSize: int, cap: nat)
    ensures Run(INITIAL, ops + [op], maxSize, cap) == Step(Run(INITIAL, ops, maxSize, cap), op, maxSize, cap)
  {
    assert (ops + [op])[..|ops|] == ops;
  }

  /** Below the threshold payloads pile up untried. */
  lemma {:induction false} PileUp(n: nat, maxSize: int, cap: nat)
    requires n < maxSize
    ensures Run(INITIAL, Outage(n), maxSize, cap).buffer == Generation(0, n, 0)
    ensures Run(INITIAL, Outage(n), maxSize, cap).arrived == n
    ensures Run(INITIAL, Outage(n), maxSize, cap).dropped == []
  {
    if n == 0 {
    } else {
      PileUp(n - 1, maxSize, cap);
      RunSnoc(Outage(n - 1), Ingest(Everything(n)), maxSize, cap);
      OneMorePiles(Run(INITIAL, Outage(n - 1), maxSize, cap), n, Everything(n), maxSize, cap);
    }
  }

  lemma {:induction false} OneMorePiles(s: State, n: nat, failing: set<nat>, maxSize: int, cap: nat)
    requires 0 < n < maxSize && s.buffer == Generation(0, n - 1, 0) && s.arrived == n - 1
    ensures Step(s, Ingest(failing), maxSize, cap) == Append(s)
    ensures Append(s).buffer == Generation(0, n, 0)
  {
  }

  lemma {:induction false} RequeueAll(buffer: seq<Entry>, failing: set<nat>)
    requires forall e :: e in buffer ==> e.id in failing && e.retries < MAX_RETRIES
    ensures |Requeued(buffer, failing)| == |buffer|
    ensures forall i :: 0 <= i < |buffer| ==> Requeued(buffer, failing)[i] == Entry(buffer[i].id, buffer[i].retries + 1)
  {
    if buffer == [] {
    } else {
      assert buffer[|buffer| - 1] in buffer;
      RequeueAll(buffer[..|buffer| - 1], failing);
    }
  }

  /** Everything that arrived is still buffered, each payload tried at most so often. */
  ghost predicate Waiting(s: State, n: nat, tries: nat) {
    && s.arrived == n && |s.buffer| == n
    && (forall i :: 0 <= i < n ==> s.buffer[i].id < n && s.buffer[i].retries <= tries)
  }

  lemma {:induction false} RefusedFlush(s: State, n: nat, cap: nat, tries: nat)
    requires tries < MAX_RETRIES && Waiting(s, n, tries)
    ensures var t := Flush(s, Everything(n), cap);
            if n > cap then t.dropped != [] else Waiting(t, n, tries + 1)
  {
    forall e | e in s.buffer
      ensures e.id in Everything(n) && e.retries < MAX_RETRIES
    {
      var i :| 0 <= i < |s.buffer| && s.buffer[i] == e;
    }
    RequeueAll(s.buffer, Everything(n));
    var requeue := Requeued(s.buffer, Everything(n));
    if n > cap {
      assert |Ids(requeue[..n - cap])| == n - cap;
    }
  }

  /** One payload of an outage that triggers a flush: everything is retried and requeued. */
  lemma {:induction false} OutageFlush(n: nat, maxSize: int, cap: nat, tries: nat)
    requires tries < MAX_RETRIES && maxSize <= n + 1
    requires Waiting(Run(INITIAL, Outage(n), maxSize, cap), n, tries)
    ensures var t := Run(INITIAL, Outage(n + 1), maxSize, cap);
            if n + 1 > cap then t.dropped != [] else Waiting(t, n + 1, tries + 1)
  {
    var s := Run(INITIAL, Outage(n), maxSize, cap);
    RunSnoc(Outage(n), Ingest(Everything(n + 1)), maxSize, cap);
    RefusedFlush(Append(s), n + 1, cap, tries);
  }

  lemma {:induction false} PileUpBelow(maxSize: int, cap: nat)
    ensures var n := Threshold(maxSize) - 1; Waiting(Run(INITIAL, Outage(n), maxSize, cap), n, 0)
  {
    var n := Threshold(maxSize) - 1;
    if n > 0 {
      PileUp(n, maxSize, cap);
    }
  }

  lemma {:induction false} OverflowRun(maxSize: int, cap: nat) returns (ops: seq<Op>)
    requires Threshold(maxSize) + 2 > cap
    ensures Run(INITIAL, ops, maxSize, cap).dropped != []
  {
    var b := Threshold(maxSize);
    PileUpBelow(maxSize, cap);
    OutageFlush(b - 1, maxSize, cap, 0);
    if b > cap {
      return Outage(b);
    }
    OutageFlush(b, maxSize, cap, 1);
    if b + 1 > cap {
      return Outage(b + 1);
    }
    OutageFlush(b + 1, maxSize, cap, 2);
    return Outage(b + 2);
  }

  /** The overflow branch is reachable exactly when the threshold is within two of the cap: a
      lasting outage brings the buffer to the threshold plus two, and nothing brings it further. */
  lemma {:induction false} OverflowIff(maxSize: int, cap: nat)
    ensures (exists ops: seq<Op> :: Run(INITIAL, ops, maxSize, cap).dropped != []) <==> Threshold(maxSize) + 2 > cap
  {
    if Threshold(maxSize) + 2 > cap {
      var ops := OverflowRun(maxSize, cap);
      assert Run(INITIAL, ops, maxSize, cap).dropped != [];
    } else {
      forall ops: seq<Op>
        ensures Run(INITIAL, ops, maxSize, cap).dropped == []
      {
        RunKeepsInv(ops, maxSize, cap);
      }
    }
  }

  // ---- what the database's answer decides ----

  lemma {:induction false} TriedMembers(buffer: seq<Entry>, failing: set<nat>, id: nat)
    ensures id in Processed(buffer, failing) <==> id !in failing && id in Ids(buffer)
    ensures id in Poisoned(buffer, failing) <==> id in failing && exists e :: e in buffer && e.id == id && e.retries >= 3
  {
    if buffer == [] {
    } else {
      var rest, last := buffer[..|buffer| - 1], buffer[|buffer| - 1];
      assert buffer == rest + [last];
      TriedMembers(rest, failing, id);
      SnocIds(rest, last);
      if e :| e in rest && e.id == id && e.retries >= 3 {
        assert e in buffer;
      }
    }
  }

  lemma {:induction false} RequeuedMembers(buffer: seq<Entry>, failing: set<nat>, e: Entry)
    ensures e in Requeued(buffer, failing) <==>
            e.id in failing && 1 <= e.retries <= 3 && Entry(e.id, e.retries - 1) in buffer
  {
    if buffer == [] {
    } else {
      var rest, last := buffer[..|buffer| - 1], buffer[|buffer| - 1];
      assert buffer == rest + [last];
      RequeuedMembers(rest, failing, e);
      assert Requeued(buffer, failing) == Requeued(rest, failing) + Retried(last, failing);
      assert e in Retried(last, failing) <==> e.id in failing && 1 <= e.retries <= 3 && Entry(e.id, e.retries - 1) == last;
    }
  }

  lemma {:induction false} CutMembers(requeue: seq<Entry>, drop: nat, e: Entry)
    requires drop <= |requeue|
    ensures e in requeue ==> e in requeue[drop..] || e.id in Ids(requeue[..drop])
  {
    if e in requeue {
      var i :| 0 <= i < |requeue| && requeue[i] == e;
      if i < drop {
        assert Ids(requeue[..drop])[i] == e.id;
      } else {
        assert requeue[drop..][i - drop] == e;
      }
    }
  }

  lemma {:induction false} GoneFromBuffer(s: State, failing: set<nat>, cap: nat, e: Entry)
    requires InArrivalOrder(s.buffer, s.arrived) && e in s.buffer && (e.id !in failing || e.retries >= 3)
    ensures e.id !in Ids(Flush(s, failing, cap).buffer)
  {
    var t := Flush(s, failing, cap);
    OnlyEntry(s.buffer, s.arrived, e);
    if e.id in Ids(t.buffer) {
      var i :| 0 <= i < |t.buffer| && t.buffer[i].id == e.id;
      assert t.buffer[i] in Requeued(s.buffer, failing);
      RequeuedMembers(s.buffer, failing, t.buffer[i]);
    }
  }

  lemma {:induction false} OnlyEntry(buffer: seq<Entry>, arrived: nat, e: Entry)
    requires InArrivalOrder(buffer, arrived) && e in buffer
    ensures forall f :: f in buffer && f.id == e.id ==> f == e
  {
    var i :| 0 <= i < |buffer| && buffer[i] == e;
    forall f | f in buffer && f.id == e.id
      ensures f == e
    {
      var j :| 0 <= j < |buffer| && buffer[j] == f;
    }
  }

  /** What one flush makes of each entry. Taken by the database: processed, and out of the buffer.
      Refused after three retries: discarded, and out of the buffer. Refused before: back in the buffer
      with one more retry, unless the cap drops it. Each is new where it ends. */
  lemma {:induction false} FlushOutcome(s: State, failing: set<nat>, cap: nat, e: Entry)
    requires Conserved(s) && InArrivalOrder(s.buffer, s.arrived) && e in s.buffer
    ensures e.id !in s.processed && e.id !in s.poisoned && e.id !in s.dropped
    ensures var t := Flush(s, failing, cap);
            && (e.id !in failing ==> e.id in t.processed && e.id !in Ids(t.buffer))
            && (e.id in failing ==> e.id !in t.processed)
            && (e.id in failing && e.retries >= 3 ==> e.id in t.poisoned && e.id !in Ids(t.buffer))
            && (e.id in failing && e.retries < 3 ==> Entry(e.id, e.retries + 1) in t.buffer || e.id in t.dropped)
  {
    InIds(s.buffer, e);
    if e.id in s.processed || e.id in s.poisoned || e.id in s.dropped {
      LeftTheBuffer(s, e.id);
    }
    TriedMembers(s.buffer, failing, e.id);
    if e.id !in failing || e.retries >= 3 {
      GoneFromBuffer(s, failing, cap, e);
    } else {
      var requeue := Requeued(s.buffer, failing);
      RequeuedMembers(s.buffer, failing, Entry(e.id, e.retries + 1));
      CutMembers(requeue, Overflow(requeue, cap), Entry(e.id, e.retries + 1));
    }
  }

  /** The cap drops the oldest, and only as many as it has to. */
  lemma {:induction false} FlushDropsOldest(s: State, failing: set<nat>, cap: nat, k: nat)
    requires InArrivalOrder(s.buffer, s.arrived)
    ensures |Flush(s, failing, cap).buffer| <= cap
    ensures |s.dropped| <= |Flush(s, failing, cap).dropped|
    ensures |s.dropped| < |Flush(s, failing, cap).dropped| ==> |Flush(s, failing, cap).buffer| == cap
    ensures |s.dropped| <= k < |Flush(s, failing, cap).dropped| ==>
              forall e :: e in Flush(s, failing, cap).buffer ==> Flush(s, failing, cap).dropped[k] < e.id
  {
    var requeue := Requeued(s.buffer, failing);
    RequeuedInOrder(s.buffer, failing, s.arrived);
    var drop := Overflow(requeue, cap);
    var t := Flush(s, failing, cap);
    if |s.dropped| <= k < |t.dropped| {
      assert t.dropped[k] == requeue[k - |s.dropped|].id;
      forall e | e in t.buffer
        ensures t.dropped[k] < e.id
      {
        var i :| 0 <= i < |t.buffer| && t.buffer[i] == e;
        assert t.buffer[i] == requeue[drop + i];
      }
    }
  }

  /** The operation flushes the payload: every timed flush does with what is buffered, and an ingest does
      when it fills the buffer to the size, with its own payload too. */
  predicate Held(s: State, op: Op, maxSize: int, id: nat) {
    match op
    case TimedFlush(_) => id in Ids(s.buffer)
    case Ingest(_) => |s.buffer| + 1 >= maxSize && (id in Ids(s.buffer) || id == s.arrived)
  }

  /** Some flush that held the payload was not refused by the database. */
  ghost predicate EverTaken(ops: seq<Op>, maxSize: int, cap: nat, id: nat) {
    ops != []
    && (var front, last := ops[..|ops| - 1], ops[|ops| - 1];
        EverTaken(front, maxSize, cap, id)
        || (Held(Run(INITIAL, front, maxSize, cap), last, maxSize, id) && id !in last.failing))
  }

  ghost function TimesHeld(ops: seq<Op>, maxSize: int, cap: nat, id: nat): nat {
    if ops == [] then 0
    else
      var front, last := ops[..|ops| - 1], ops[|ops| - 1];
      TimesHeld(front, maxSize, cap, id) + if Held(Run(INITIAL, front, maxSize, cap), last, maxSize, id) then 1 else 0
  }

  lemma {:induction false} FlushTries(s: State, failing: set<nat>, cap: nat, id: nat)
    requires InArrivalOrder(s.buffer, s.arrived)
    ensures id in Flush(s, failing, cap).processed <==> id in s.processed || (id in Ids(s.buffer) && id !in failing)
    ensures Tries(Flush(s, failing, cap).attempts, id) == Tries(s.attempts, id) + if id in Ids(s.buffer) then 1 else 0
  {
    TriedMembers(s.buffer, failing, id);
    AttemptedOnce(s.attempts, s.buffer, s.arrived, id);
  }

  lemma {:induction false} StepTries(s: State, op: Op, maxSize: int, cap: nat, id: nat)
    requires Inv(s, Threshold(maxSize))
    ensures var t, held := Step(s, op, maxSize, cap), Held(s, op, maxSize, id);
            && (id in t.processed <==> id in s.processed || (held && id !in op.failing))
            && Tries(t.attempts, id) == Tries(s.attempts, id) + if held then 1 else 0
  {
    match op
    case TimedFlush(failing) => FlushTries(s, failing, cap, id);
    case Ingest(failing) =>
      AppendKeeps(s, Threshold(maxSize));
      SnocIds(s.buffer, Entry(s.arrived, 0));
      FlushTries(Append(s), failing, cap, id);
  }

  /** Over every run: a payload is processed if and only if some flush that held it was not refused, it has
      been tried once for each flush that held it, and it is discarded as a poison pill if and only if
      four flushes held it and all were refused. */
  lemma {:induction false} RunOutcome(ops: seq<Op>, maxSize: int, cap: nat, id: nat)
    ensures var s := Run(INITIAL, ops, maxSize, cap);
            && (id in s.processed <==> EverTaken(ops, maxSize, cap, id))
            && Tries(s.attempts, id) == TimesHeld(ops, maxSize, cap, id)
            && (id in s.poisoned <==> TimesHeld(ops, maxSize, cap, id) == 4 && !EverTaken(ops, maxSize, cap, id))
  {
    RunTries(ops, maxSize, cap, id);
    RunKeepsInv(ops, maxSize, cap);
    OnePlace(Run(INITIAL, ops, maxSize, cap), Threshold(maxSize), id);
  }

  lemma {:induction false} RunTries(ops: seq<Op>, maxSize: int, cap: nat, id: nat)
    ensures id in Run(INITIAL, ops, maxSize, cap).processed <==> EverTaken(ops, maxSize, cap, id)
    ensures Tries(Run(INITIAL, ops, maxSize, cap).attempts, id) == TimesHeld(ops, maxSize, cap, id)
  {
    if ops == [] {
    } else {
      var front := ops[..|ops| - 1];
      RunTries(front, maxSize, cap, id);
      RunKeepsInv(front, maxSize, cap);
      StepTries(Run(INITIAL, front, maxSize, cap), ops[|ops| - 1], maxSize, cap, id);
    }
  }

  lemma {:induction false} OnePlace(s: State, threshold: int, id: nat)
    requires Inv(s, threshold)
    ensures id in s.poisoned <==> Tries(s.attempts, id) == 4 && id !in s.processed
  {
    ArrivalsOnce(s.arrived, id);
    assert Whereabouts(s)[id] == if id < s.arrived then 1 else 0;
    if id in Ids(s.buffer) {
      var i :| 0 <= i < |s.buffer| && s.buffer[i].id == id;
      assert s.buffer[i] in s.buffer;
    }
  }

  // ---- the service ----

  lemma {:induction false} FlushOfNothing(s: State, failing: set<nat>, cap: nat)
    requires s.buffer == []
    ensures Flush(s, failing, cap) == s
  {
    assert Requeued(s.buffer, failing) == [];
    assert s.processed + [] == s.processed && s.poisoned + [] == s.poisoned && s.dropped + [] == s.dropped;
  }

  class IngestionService {
    const maxSize: int
    var buffer: seq<Entry>
    /** Payloads received so far, which numbers the next one. */
    var received: nat
    ghost var history: State

    ghost predicate Valid()
      reads this
    {
      history.buffer == buffer && history.arrived == received && Inv(history, Threshold(maxSize))
    }

    constructor (maxSize: int)
      ensures this.maxSize == maxSize && history == INITIAL && Valid()
    {
      this.maxSize := maxSize;
      buffer := [];
      received := 0;
      history := INITIAL;
      new;
      RunKeepsInv([], maxSize, MAX_BUFFER_OVERFLOW);
    }

    /** ingest_parsed: refused without a serial number, otherwise buffered. */
    method IngestParsed(serialNumber: string, failing: set<nat>) returns (accepted: bool)
      requires Valid()
      modifies this
      ensures Valid()
      ensures accepted <==> serialNumber != ""
      ensures history == if accepted then Step(old(history), Ingest(failing), maxSize, 10_000) else old(history)
    {
      if serialNumber == "" {
        return false;
      }
      StepKeepsInv(history, Ingest(failing), maxSize, MAX_BUFFER_OVERFLOW);
      buffer := buffer + [Entry(received, 0)];
      received := received + 1;
      history := Append(history);
      if |buffer| >= maxSize {
        FlushUnlocked(failing);
      }
      return true;
    }

    /** The periodic flush. */
    method TimedFlush(failing: set<nat>)
      requires Valid()
      modifies this
      ensures Valid()
      ensures history == Step(old(history), Op.TimedFlush(failing), maxSize, 10_000)
    {
      TimedFlushKeepsInv(history, failing, MAX_BUFFER_OVERFLOW, Threshold(maxSize));
      FlushUnlocked(failing);
    }

    /** _flush_unlocked: swap the buffer out, try every payload once, put the retryable ones back
        in front, cut the oldest beyond the cap. */
    method FlushUnlocked(failing: set<nat>)
      requires history.buffer == buffer
      modifies `buffer, `history
      ensures history.buffer == buffer
      ensures history == Flush(old(history), failing, 10_000)
    {
      if buffer == [] {
        FlushOfNothing(history, failing, MAX_BUFFER_OVERFLOW);
        return;
      }
      var pending := buffer;
      buffer := [];
      var requeue, processed, poisoned := TryEach(pending, failing);
      ghost var dropped: seq<nat> := [];
      if requeue != [] {
        buffer := requeue + buffer;
        assert buffer == requeue;
        if |buffer| > MAX_BUFFER_OVERFLOW {
          var droppedCount := |buffer| - MAX_BUFFER_OVERFLOW;
          dropped := Ids(buffer[..droppedCount]);
          buffer := buffer[droppedCount..];
        }
      }
      assert dropped == Ids(requeue[..Overflow(requeue, MAX_BUFFER_OVERFLOW)]);
      history := State(buffer, history.arrived, history.processed + processed,
                       history.poisoned + poisoned, history.dropped + dropped,
                       Attempted(history.attempts, pending));
    }

    /** One try for every payload: processed, discarded as a poison pill, or to be tried again. */
    method TryEach(pending: seq<Entry>, failing: set<nat>)
      returns (requeue: seq<Entry>, processed: seq<nat>, poisoned: seq<nat>)
      ensures requeue == Requeued(pending, failing)
      ensures processed == Processed(pending, failing) && poisoned == Poisoned(pending, failing)
    {
      requeue, processed, poisoned := [], [], [];
      for i := 0 to |pending|
        invariant requeue == Requeued(pending[..i], failing)
        invariant processed == Processed(pending[..i], failing)
        invariant poisoned == Poisoned(pending[..i], failing)
      {
        var e := pending[i];
        assert pending[..i + 1][..i] == pending[..i];
        if e.id !in failing {
          processed := processed + [e.id];
        } else if e.retries >= 3 {
          poisoned := poisoned + [e.id];
        } else {
          requeue := requeue + [Entry(e.id, e.retries + 1)];
        }
      }
      assert pending[..|pending|] == pending;
    }
  }
}
