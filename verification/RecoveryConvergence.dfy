/** Detection and recovery together: what a gateway's gaps look like once recovery has caught up, and
    that enough answered rounds get it there. */
module RecoveryConvergence {
  import opened Wrappers
  import opened RecoveryTable
  import opened GapRecovery
  import opened RecoveryProgress
  import RecoverySafety
  import Detection = GapDetection

  // ---- windows on raw ----

  /** The row of a frame in the window query. */
  predicate IsRowOf(row: Detection.WindowRow, f: Frame, receivedAt: map<Frame, int>) {
    f in receivedAt && row == Detection.WindowRow(f.number, receivedAt[f])
  }

  predicate HasRow(window: seq<Detection.WindowRow>, f: Frame, receivedAt: map<Frame, int>) {
    f in receivedAt && Detection.WindowRow(f.number, receivedAt[f]) in window
  }

  predicate HasFrame(row: Detection.WindowRow, raw: set<Frame>, receivedAt: map<Frame, int>) {
    exists f :: f in raw && f.ownGateway && IsRowOf(row, f, receivedAt)
  }

  /** The window query on raw: the rows of the gateway's own frames, in counter order. */
  ghost predicate IsWindow(window: seq<Detection.WindowRow>, raw: set<Frame>, receivedAt: map<Frame, int>) {
    && Detection.Ordered(window)
    && (forall f :: f in raw && f.ownGateway ==> HasRow(window, f, receivedAt))
    && (forall k :: 0 <= k < |window| ==> HasFrame(window[k], raw, receivedAt))
  }

  /** The window holds the counters that are in raw. */
  ghost predicate Reflects(window: seq<Detection.WindowRow>, raw: set<Frame>) {
    && (forall y: int :: y in Detection.Numbers(window) ==> 0 <= y && InRaw(raw, y))
    && (forall d: nat :: InRaw(raw, d) ==> d in Detection.Numbers(window))
  }

  lemma {:induction false} WindowCounter(window: seq<Detection.WindowRow>, raw: set<Frame>, receivedAt: map<Frame, int>, y: int)
    requires IsWindow(window, raw, receivedAt) && y in Detection.Numbers(window)
    ensures 0 <= y && InRaw(raw, y)
  {
    var row :| row in window && row.number == y;
    var k :| 0 <= k < |window| && window[k] == row;
    assert HasFrame(window[k], raw, receivedAt);
    var f :| f in raw && f.ownGateway && IsRowOf(row, f, receivedAt);
  }

  lemma {:induction false} RawCounter(window: seq<Detection.WindowRow>, raw: set<Frame>, receivedAt: map<Frame, int>, d: nat)
    requires IsWindow(window, raw, receivedAt) && InRaw(raw, d)
    ensures d in Detection.Numbers(window)
  {
    var f :| f in raw && f.ownGateway && f.number == d;
    assert HasRow(window, f, receivedAt);
    var row := Detection.WindowRow(f.number, receivedAt[f]);
    assert row in window && row.number == d;
  }

  lemma {:induction false} WindowReflects(window: seq<Detection.WindowRow>, raw: set<Frame>, receivedAt: map<Frame, int>)
    requires IsWindow(window, raw, receivedAt)
    ensures Detection.Ordered(window) && Reflects(window, raw)
  {
    forall y: int | y in Detection.Numbers(window)
      ensures 0 <= y && InRaw(raw, y)
    {
      WindowCounter(window, raw, receivedAt, y);
    }
    forall d: nat | InRaw(raw, d)
      ensures d in Detection.Numbers(window)
    {
      RawCounter(window, raw, receivedAt, d);
    }
  }

  lemma {:induction false} DetectedAbsent(window: seq<Detection.WindowRow>, raw: set<Frame>, maxGap: int, x: int)
    requires Detection.Ordered(window) && Reflects(window, raw)
    requires x in Detection.Detected(window, maxGap, 0)
    ensures 0 <= x && !InRaw(raw, x)
  {
    var received := Detection.Numbers(window);
    Detection.DetectionExact(window, maxGap, x);
    var a, b :| Detection.Neighbours(received, a, x, b) && b - a < maxGap;
    assert a in received;
    assert x !in received;
  }

  // ---- once recovery has caught up ----

  /** Nothing in flight, nothing left to ask for, and every counter detected in the window recorded. */
  ghost predicate CaughtUp(cfg: Config, s: State, window: seq<Detection.WindowRow>, maxGap: int) {
    && Quiescent(cfg, s) && Backlog(s) == {}
    && forall d: nat :: d in Detection.Detected(window, maxGap, 0) ==> d in s.rows
  }

  lemma {:induction false} AbsentRowGivenUp(cfg: Config, s: State, d: nat)
    requires Quiescent(cfg, s) && Backlog(s) == {}
    requires d in s.rows && !InRaw(s.raw, d)
    ensures s.rows[d].status == NotFound && s.lost[d] == 1
  {
    assert d !in Backlog(s) && d !in WithStatus(s.rows, Inflight);
  }

  /** Then the gaps still detected are the ones the gateway itself could not fill, each reported lost once. */
  lemma {:induction false} OnlyLostGapsRemain(cfg: Config, s: State, window: seq<Detection.WindowRow>, maxGap: int, x: int)
    requires Detection.Ordered(window) && Reflects(window, s.raw) && CaughtUp(cfg, s, window, maxGap)
    requires x in Detection.Detected(window, maxGap, 0)
    ensures 0 <= x && x in s.rows && s.rows[x].status == NotFound && s.lost[x] == 1
  {
    DetectedAbsent(window, s.raw, maxGap, x);
    AbsentRowGivenUp(cfg, s, x);
  }

  /** A recovered counter is detected in no window on the same frames, nor on any later frames. */
  lemma {:induction false} RecoveredNeverDetected(
    cfg: Config, s: State, actions: seq<Action>, window: seq<Detection.WindowRow>, maxGap: int, d: nat)
    requires Inv(cfg, s) && AllAllowed(cfg, actions)
    requires d in s.rows && s.rows[d].status == Recovered
    requires Detection.Ordered(window) && Reflects(window, Run(cfg, s, actions).raw)
    ensures d !in Detection.Detected(window, maxGap, 0)
  {
    RunKeepsInv(cfg, s, actions);
    RecoverySafety.ClosedStays(cfg, s, actions, d);
    if d in Detection.Detected(window, maxGap, 0) {
      DetectedAbsent(window, Run(cfg, s, actions).raw, maxGap, d);
    }
  }

  // ---- getting there ----

  /** Everything that has arrived since raw0, and everything still to be asked for, is among the targets. */
  ghost predicate Confined(cfg: Config, raw0: set<Frame>, s: State, targets: set<nat>) {
    && Quiescent(cfg, s) && raw0 <= s.raw && Backlog(s) <= targets
    && forall d: nat :: InRaw(s.raw, d) ==> InRaw(raw0, d) || d in targets
  }

  ghost predicate Recorded(s: State, targets: set<nat>) {
    forall d :: d in targets ==> d in s.rows || InRaw(s.raw, d)
  }

  function LiveFrames(r: Round): set<Frame> {
    Heard(r.beforeGuard) + Heard(r.beforeMark) + Later(r)
  }

  /** The live traffic of the round repeats counters already received or brings targets, and its
      detection lists targets only. */
  ghost predicate Confines(r: Round, raw0: set<Frame>, targets: set<nat>) {
    && (forall f :: f in LiveFrames(r) && f.ownGateway ==> InRaw(raw0, f.number) || f.number in targets)
    && FirstDetected(r.detected) <= targets
  }

  lemma {:induction false} RequestableConfined(cfg: Config, raw0: set<Frame>, s: State, r: Round, targets: set<nat>)
    requires Confined(cfg, raw0, s, targets) && Confines(r, raw0, targets)
    ensures RecoverySafety.Requestable(Marking(s, r), r.detected) <= targets
  {
    MarkingInv(cfg, s, r);
    forall d | d in RecoverySafety.Requestable(Marking(s, r), r.detected)
      ensures d in targets
    {
      if d !in FirstDetected(r.detected) {
        if InRaw(s.raw, d) {
          InMore(s.raw, Marking(s, r).raw, d);
        }
        assert d in Backlog(s);
      }
    }
  }

  lemma {:induction false} ArrivalsConfined(cfg: Config, raw0: set<Frame>, s: State, r: Round, targets: set<nat>, d: nat)
    requires Confined(cfg, raw0, s, targets) && Confines(r, raw0, targets) && Served(cfg, s, r)
    requires InRaw(Play(cfg, s, r).raw, d)
    ensures InRaw(raw0, d) || d in targets
  {
    PlayRaw(cfg, s, r);
    var f :| f in Play(cfg, s, r).raw && f.ownGateway && f.number == d;
    if f in s.raw {
      assert InRaw(s.raw, d);
    } else if f !in LiveFrames(r) {
      assert f in Brought(s, r);
      BroughtRequested(cfg, s, r, f);
      RequestableConfined(cfg, raw0, s, r, targets);
    }
  }

  lemma {:induction false} BroughtRequested(cfg: Config, s: State, r: Round, f: Frame)
    requires Served(cfg, s, r) && f in Brought(s, r)
    ensures f.number in RecoverySafety.Requestable(Marking(s, r), r.detected)
  {
    var l :| l in r.answer.lines && Good(l) && FrameOf(l) == f;
    assert l.number.value in r.answer.seqs.value;
  }

  lemma {:induction false} RoundRows(cfg: Config, s: State, r: Round)
    requires Quiescent(cfg, s) && Served(cfg, s, r)
    ensures s.rows.Keys <= Play(cfg, s, r).rows.Keys
    ensures forall d :: d in FirstDetected(r.detected) ==> d in Play(cfg, s, r).rows || InRaw(Marking(s, r).raw, d)
  {
    if RecoverySafety.Requestable(Marking(s, r), r.detected) == {} {
      IdleRound(cfg, s, r);
      forall d | d in FirstDetected(r.detected) && d !in s.rows
        ensures InRaw(Marking(s, r).raw, d)
      {
        MarkingInv(cfg, s, r);
        assert d !in RecoverySafety.Requestable(Marking(s, r), r.detected);
      }
    } else {
      BusyRound(cfg, s, r);
      MarkedKeys(cfg, s, r);
      PublishedKeys(cfg, s, r);
    }
  }

  lemma {:induction false} MarkedKeys(cfg: Config, s: State, r: Round)
    requires Quiescent(cfg, s) && Served(cfg, s, r)
    requires RecoverySafety.Requestable(Marking(s, r), r.detected) != {}
    ensures var marked := MarkStep(Marking(s, r), r.detected, r.n, r.markTime);
            s.rows.Keys <= marked.rows.Keys
            && forall d :: d in FirstDetected(r.detected) && !InRaw(Marking(s, r).raw, d) ==> d in marked.rows.Keys
  {
    MarkingInv(cfg, s, r);
    RecoverySafety.DetectionNotLost(Marking(s, r), r.detected, r.n, r.markTime);
    Marks(cfg, Marking(s, r), r.detected, r.n, r.markTime);
  }

  lemma {:induction false} PublishedKeys(cfg: Config, s: State, r: Round)
    ensures Published(s, r).rows == MarkStep(Marking(s, r), r.detected, r.n, r.markTime).rows
  {
  }

  lemma {:induction false} ConfinedRound(cfg: Config, raw0: set<Frame>, s: State, r: Round, targets: set<nat>)
    requires Confined(cfg, raw0, s, targets) && Confines(r, raw0, targets) && Served(cfg, s, r)
    ensures Confined(cfg, raw0, Play(cfg, s, r), targets)
  {
    MarkingInv(cfg, s, r);
    PlayRaw(cfg, s, r);
    RoundClears(cfg, s, r);
    RequestableConfined(cfg, raw0, s, r, targets);
    forall d: nat | InRaw(Play(cfg, s, r).raw, d)
      ensures InRaw(raw0, d) || d in targets
    {
      ArrivalsConfined(cfg, raw0, s, r, targets, d);
    }
  }

  /** Targets stay recorded, and a round whose detection lists them all records them. */
  lemma {:induction false} RecordedRound(cfg: Config, s: State, r: Round, targets: set<nat>)
    requires Quiescent(cfg, s) && Served(cfg, s, r)
    requires Recorded(s, targets) || FirstDetected(r.detected) == targets
    ensures Recorded(Play(cfg, s, r), targets)
  {
    var t := Play(cfg, s, r);
    MarkingInv(cfg, s, r);
    PlayRaw(cfg, s, r);
    RoundRows(cfg, s, r);
    forall d | d in targets
      ensures d in t.rows || InRaw(t.raw, d)
    {
      if InRaw(Marking(s, r).raw, d) {
        InMore(Marking(s, r).raw, t.raw, d);
      } else if InRaw(s.raw, d) {
        InMore(s.raw, t.raw, d);
      } else if d in s.rows {
        assert d in t.rows.Keys;
      }
    }
  }

  ghost predicate AllConfine(rounds: seq<Round>, raw0: set<Frame>, targets: set<nat>) {
    forall i :: 0 <= i < |rounds| ==> Confines(rounds[i], raw0, targets)
  }

  lemma {:induction false} ConfinedRounds(cfg: Config, raw0: set<Frame>, s: State, rounds: seq<Round>, targets: set<nat>)
    requires Confined(cfg, raw0, s, targets) && Recorded(s, targets)
    requires AllServed(cfg, s, rounds) && AllConfine(rounds, raw0, targets)
    ensures Confined(cfg, raw0, PlayAll(cfg, s, rounds), targets) && Recorded(PlayAll(cfg, s, rounds), targets)
    ensures AllNothingNew(cfg, s, rounds)
    decreases |rounds|
  {
    if rounds == [] {
    } else {
      var r := rounds[0];
      MarkingInv(cfg, s, r);
      forall d | d in FirstDetected(r.detected)
        ensures d in s.rows || InRaw(Marking(s, r).raw, d)
      {
        if InRaw(s.raw, d) {
          InMore(s.raw, Marking(s, r).raw, d);
        }
      }
      ConfinedRound(cfg, raw0, s, r, targets);
      RecordedRound(cfg, s, r, targets);
      ConfinedRounds(cfg, raw0, Play(cfg, s, r), rounds[1..], targets);
    }
  }

  /** If the first round's detection lists the targets and the batch sizes add up to their number, then
      after the rounds no target is left to ask for, and each is in raw or given up with one lost event. */
  lemma {:induction false} TargetsSettled(cfg: Config, s: State, rounds: seq<Round>, targets: set<nat>)
    requires rounds != [] && AllServed(cfg, s, rounds) && AllConfine(rounds, s.raw, targets)
    requires Confined(cfg, s.raw, s, targets) && FirstDetected(rounds[0].detected) == targets
    requires Capacity(rounds) >= |targets|
    ensures var t := PlayAll(cfg, s, rounds);
            && Confined(cfg, s.raw, t, targets) && Recorded(t, targets) && Backlog(t) == {}
            && forall d :: d in targets && !InRaw(t.raw, d) ==> d in t.rows && t.rows[d].status == NotFound && t.lost[d] == 1
  {
    var first := Play(cfg, s, rounds[0]);
    FirstRound(cfg, s, rounds[0], targets);
    ConfinedRounds(cfg, s.raw, first, rounds[1..], targets);
    BacklogClears(cfg, first, rounds[1..]);
    assert |Backlog(PlayAll(cfg, s, rounds))| == 0;
    AllGivenUp(cfg, PlayAll(cfg, s, rounds), targets);
  }

  lemma {:induction false} FirstRound(cfg: Config, s: State, r: Round, targets: set<nat>)
    requires Confined(cfg, s.raw, s, targets) && Confines(r, s.raw, targets) && Served(cfg, s, r)
    requires FirstDetected(r.detected) == targets
    ensures Confined(cfg, s.raw, Play(cfg, s, r), targets) && Recorded(Play(cfg, s, r), targets)
    ensures |Backlog(Play(cfg, s, r))| <= if |targets| < r.n then 0 else |targets| - r.n
  {
    RequestableConfined(cfg, s.raw, s, r, targets);
    Subset(RecoverySafety.Requestable(Marking(s, r), r.detected), targets);
    RoundClears(cfg, s, r);
    ConfinedRound(cfg, s.raw, s, r, targets);
    RecordedRound(cfg, s, r, targets);
  }

  lemma {:induction false} AllGivenUp(cfg: Config, s: State, targets: set<nat>)
    requires Quiescent(cfg, s) && Backlog(s) == {} && Recorded(s, targets)
    ensures forall d :: d in targets && !InRaw(s.raw, d) ==> d in s.rows && s.rows[d].status == NotFound && s.lost[d] == 1
  {
    forall d | d in targets && !InRaw(s.raw, d)
      ensures d in s.rows && s.rows[d].status == NotFound && s.lost[d] == 1
    {
      AbsentRowGivenUp(cfg, s, d);
    }
  }

  // ---- back to detection ----

  /** The detected counters that are in raw by now. */
  function Arrivals(detected: seq<nat>, raw: set<Frame>): seq<int> {
    if detected == [] then []
    else
      var last := detected[|detected| - 1];
      Arrivals(detected[..|detected| - 1], raw) + if InRaw(raw, last) then [last] else []
  }

  lemma {:induction false} ArrivalsAre(detected: seq<nat>, raw: set<Frame>, x: int)
    ensures x in Arrivals(detected, raw) <==> 0 <= x && x in detected && InRaw(raw, x)
  {
    if detected == [] {
    } else {
      ArrivalsAre(detected[..|detected| - 1], raw, x);
      assert detected == detected[..|detected| - 1] + [detected[|detected| - 1]];
    }
  }

  lemma {:induction false} SameMembers(a: set<int>, b: set<int>, maxGap: int, x: int)
    requires forall y: int :: y in a <==> y in b
    requires Detection.Missing(a, maxGap, x)
    ensures Detection.Missing(b, maxGap, x)
  {
    var l, r :| Detection.Neighbours(a, l, x, r) && r - l < maxGap;
    assert Detection.Neighbours(b, l, x, r);
  }

  /** The list of a report, as the job passes it on. */
  ghost predicate Lists(detected: seq<nat>, window: seq<Detection.WindowRow>, maxGap: int) {
    && |detected| == |Detection.Detected(window, maxGap, 0)|
    && forall k :: 0 <= k < |detected| ==> detected[k] == Detection.Detected(window, maxGap, 0)[k]
  }

  /** When all that has arrived since a window was among what it detected, a later window detects
      nothing else. */
  lemma {:induction false} NothingElseDetected(
    window: seq<Detection.WindowRow>, later: seq<Detection.WindowRow>, raw0: set<Frame>, raw: set<Frame>,
    detected: seq<nat>, maxGap: int, x: nat)
    requires Detection.Ordered(window) && Reflects(window, raw0) && Detection.Ordered(later) && Reflects(later, raw)
    requires Lists(detected, window, maxGap) && raw0 <= raw
    requires forall d: nat :: InRaw(raw, d) ==> InRaw(raw0, d) || d in detected
    requires x in Detection.Detected(later, maxGap, 0)
    ensures x in detected
  {
    var arrivals := Arrivals(detected, raw);
    var healed := Detection.Receive(Detection.Numbers(window), arrivals);
    forall y: int
      ensures y in Detection.Numbers(later) <==> y in healed
    {
      Detection.ReceiveHolds(Detection.Numbers(window), arrivals, y);
      ArrivalsAre(detected, raw, y);
      if 0 <= y && InRaw(raw0, y) {
        InMore(raw0, raw, y);
      }
    }
    forall k | 0 <= k < |arrivals|
      ensures Detection.Missing(Detection.Numbers(window), maxGap, arrivals[k])
    {
      ArrivalsAre(detected, raw, arrivals[k]);
      Detection.DetectionExact(window, maxGap, arrivals[k]);
    }
    Detection.DetectionExact(later, maxGap, x);
    SameMembers(Detection.Numbers(later), healed, maxGap, x);
    Detection.HealMany(Detection.Numbers(window), maxGap, arrivals, x);
    Detection.DetectionExact(window, maxGap, x);
  }

  function Elements(detected: seq<nat>): set<nat> {
    set d | d in detected
  }

  /** From detection to the end: when the first round is given the list of a window of at most 5000
      detected counters that includes the backlog, and enough rounds are answered for them while nothing
      else arrives, recovery catches up: every counter the window detected is in raw or was given up
      with exactly one lost event, and a later window detects only the latter. */
  lemma {:induction false} RecoveryCatchesUp(
    cfg: Config, s: State, rounds: seq<Round>, window: seq<Detection.WindowRow>, later: seq<Detection.WindowRow>, maxGap: int)
    requires rounds != [] && AllServed(cfg, s, rounds)
    requires Detection.Ordered(window) && Reflects(window, s.raw)
    requires Lists(rounds[0].detected, window, maxGap) && |rounds[0].detected| <= DETECTION_LIMIT
    requires Quiescent(cfg, s) && Backlog(s) <= Elements(rounds[0].detected)
    requires AllConfine(rounds, s.raw, Elements(rounds[0].detected))
    requires Capacity(rounds) >= |Elements(rounds[0].detected)|
    requires Detection.Ordered(later) && Reflects(later, PlayAll(cfg, s, rounds).raw)
    ensures CaughtUp(cfg, PlayAll(cfg, s, rounds), later, maxGap)
    ensures var t := PlayAll(cfg, s, rounds);
            forall d :: d in rounds[0].detected && !InRaw(t.raw, d) ==>
              d in t.rows && t.rows[d].status == NotFound && t.lost[d] == 1
  {
    var detected := rounds[0].detected;
    var t := PlayAll(cfg, s, rounds);
    assert FirstDetected(detected) == Elements(detected);
    TargetsSettled(cfg, s, rounds, Elements(detected));
    forall d: nat | d in Detection.Detected(later, maxGap, 0)
      ensures d in t.rows
    {
      NothingElseDetected(window, later, s.raw, t.raw, detected, maxGap, d);
      DetectedAbsent(later, t.raw, maxGap, d);
      assert d in Elements(detected);
    }
  }
}
