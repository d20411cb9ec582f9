/** The recovery protocol of one gateway as a transition system.

    The periodic job, the response handler and live traffic take steps in any order; responses are
    lost, late, repeated or invented at will. The job is serial (its lock) and so is the handler (the
    consumer awaits each message). A step is one committed transaction or one publish. */
module GapRecovery {
  import opened Wrappers
  import opened RecoveryTable

  const DETECTION_LIMIT: nat := 5000
  /** The age of an inflight batch that carries no time. */
  const NO_TIME_AGE: int := 1_000_000_000

  datatype Config = Config(timeout: int, maxBatch: nat)

  /** A frame as the gateway sent it back; whether it parses, and whether the database takes it. */
  datatype Line = Line(number: Option<nat>, ownGateway: bool, body: nat, parses: bool, ingests: bool)

  datatype Message =
    | StorageError
    | OtherType
    | StorageRead(seqs: Option<set<nat>>, lines: seq<Line>, missing: set<nat>, foundCount: Option<int>, requested: Option<int>)

  datatype Job = JobIdle | JobMarking | JobPublishing(picked: set<nat>, batch: nat)

  datatype Handler = HandlerIdle | Correlated(response: Message)

  datatype State = State(
    rows: Rows, raw: set<Frame>, job: Job, handler: Handler, nextBatch: nat,
    lost: multiset<nat>)

  datatype Action =
    | LiveRx(frame: Frame)
    | Guard(now: int)
    | MarkBatch(detected: seq<nat>, n: nat, now: int)
    | PublishDone(delivered: bool)
    | JobFails
    | Correlate(message: Message)
    | Apply(now: int)
    | HandlerFails(done: nat)

  // ---- the job ----

  /** An inflight batch younger than the timeout, counted from its oldest row. */
  predicate Waiting(rows: Rows, now: int, timeout: int) {
    var timed := set d | d in rows && rows[d].status == Inflight && rows[d].inflightAt.Some?;
    if timed == {} then NO_TIME_AGE < timeout
    else forall d | d in timed :: now - rows[d].inflightAt.value < timeout
  }

  function GuardStep(cfg: Config, s: State, now: int): State {
    if s.job != JobIdle then s
    else if WithStatus(s.rows, Inflight) == {} then s.(job := JobMarking)
    else if Waiting(s.rows, now, cfg.timeout) then s
    else s.(rows := Expire(s.rows), job := JobMarking)
  }

  function Limited(detected: seq<nat>): seq<nat> {
    if |detected| > DETECTION_LIMIT then detected[..DETECTION_LIMIT] else detected
  }

  function FirstDetected(detected: seq<nat>): set<nat> {
    set d | d in Limited(detected)
  }

  /** The table inside the marking transaction, before the pick. */
  function Refreshed(s: State, detected: seq<nat>, now: int): Rows {
    Resolve(Record(s.rows, s.raw, FirstDetected(detected)), s.raw, now)
  }

  /** What the marking transaction picks. */
  function Pick(s: State, detected: seq<nat>, n: nat, now: int): set<nat> {
    Smallest(WithStatus(Refreshed(s, detected, now), Pending), n)
  }

  /** The marking transaction. With nothing to pick it returns without a commit. */
  function MarkStep(s: State, detected: seq<nat>, n: nat, now: int): State {
    var picked := Pick(s, detected, n, now);
    if s.job != JobMarking then s
    else if picked == {} then s.(job := JobIdle)
    else
      s.(rows := Mark(Refreshed(s, detected, now), picked, now, s.nextBatch),
         job := JobPublishing(picked, s.nextBatch), nextBatch := s.nextBatch + 1)
  }

  function PublishStep(s: State, delivered: bool): State {
    match s.job
    case JobPublishing(_, batch) =>
      if delivered then s.(job := JobIdle) else s.(rows := Unmark(s.rows, batch), job := JobIdle)
    case _ => s
  }

  // ---- the response handler ----

  function FoundCount(m: Message): int
    requires m.StorageRead?
  {
    if m.foundCount.Some? then m.foundCount.value else |m.lines|
  }

  function RequestedCount(m: Message): int
    requires m.StorageRead? && m.seqs.Some?
  {
    if m.requested.Some? then m.requested.value else |m.seqs.value|
  }

  predicate IsRead(m: Message) {
    m.StorageRead? && m.seqs.Some?
  }

  predicate Accepts(rows: Rows, m: Message) {
    && IsRead(m)
    && m.seqs.value != {} && m.seqs.value <= WithStatus(rows, Inflight)
    && FoundCount(m) + |m.missing| == RequestedCount(m)
  }

  function CorrelateStep(s: State, m: Message): State {
    if s.handler == HandlerIdle && Accepts(s.rows, m) then s.(handler := Correlated(m)) else s
  }

  predicate Good(l: Line) {
    l.number.Some? && l.parses && l.ingests
  }

  function FrameOf(l: Line): Frame
    requires l.number.Some?
  {
    Frame(l.ownGateway, l.number.value, l.body)
  }

  function Frames(lines: seq<Line>): set<Frame> {
    set l | l in lines && Good(l) :: FrameOf(l)
  }

  function Found(lines: seq<Line>): set<nat> {
    set l | l in lines && Good(l) :: l.number.value
  }

  function Arrived(raw: set<Frame>, missing: set<nat>): set<nat> {
    set d | d in missing && InRaw(raw, d)
  }

  function Gone(raw: set<Frame>, missing: set<nat>): set<nat> {
    set d | d in missing && !InRaw(raw, d)
  }

  /** The lines are ingested, then each missing counter is looked up in raw before it is given up. */
  function ApplyStep(s: State, now: int): State {
    match s.handler
    case HandlerIdle => s
    case Correlated(m) =>
      if !m.StorageRead? then s.(handler := HandlerIdle)
      else
        var raw := s.raw + Frames(m.lines);
        s.(rows := SetNotFound(SetRecovered(s.rows, Found(m.lines) + Arrived(raw, m.missing), now), Gone(raw, m.missing), now),
           raw := raw, handler := HandlerIdle, lost := s.lost + multiset(Gone(raw, m.missing)))
  }

  /** Ingestion of each line commits by itself, so a handler that fails later leaves those frames. */
  function HandlerFailsStep(s: State, done: nat): State {
    match s.handler
    case HandlerIdle => s
    case Correlated(m) =>
      if !m.StorageRead? then s.(handler := HandlerIdle)
      else s.(raw := s.raw + Frames(if done < |m.lines| then m.lines[..done] else m.lines), handler := HandlerIdle)
  }

  function Step(cfg: Config, s: State, a: Action): State {
    match a
    case LiveRx(f) => s.(raw := s.raw + {f})
    case Guard(now) => GuardStep(cfg, s, now)
    case MarkBatch(detected, n, now) => MarkStep(s, detected, n, now)
    case PublishDone(delivered) => PublishStep(s, delivered)
    case JobFails => s.(job := JobIdle)
    case Correlate(m) => CorrelateStep(s, m)
    case Apply(now) => ApplyStep(s, now)
    case HandlerFails(done) => HandlerFailsStep(s, done)
  }

  function Run(cfg: Config, s: State, actions: seq<Action>): State
    decreases |actions|
  {
    if actions == [] then s else Run(cfg, Step(cfg, s, actions[0]), actions[1..])
  }

  /** What is assumed of a gateway's answer and not checked by the handler: its lines and its missing
      counters are among the requested ones, and its lines are the gateway's own frames. */
  predicate WellFormed(m: Message) {
    IsRead(m) ==>
      && (forall l | l in m.lines && l.number.Some? :: l.ownGateway && l.number.value in m.seqs.value)
      && m.missing <= m.seqs.value
  }

  predicate Allowed(cfg: Config, a: Action) {
    match a
    case MarkBatch(_, n, _) => 1 <= n <= cfg.maxBatch
    case Correlate(m) => WellFormed(m)
    case _ => true
  }

  predicate AllAllowed(cfg: Config, actions: seq<Action>) {
    forall i :: 0 <= i < |actions| ==> Allowed(cfg, actions[i])
  }

  // ---- what holds in every reachable state ----

  predicate RowShape(r: Row) {
    && (r.status == Inflight <==> r.batchId.Some?) && (r.status == Inflight <==> r.inflightAt.Some?)
    && (r.status == Recovered <==> r.recoveredAt.Some?)
    && (r.status == NotFound <==> r.reason.Some?)
    && (r.lastResponseAt.Some? ==> Terminal(r.status))
  }

  predicate Shapes(rows: Rows) {
    forall d :: d in rows ==> RowShape(rows[d])
  }

  /** Every recovered row has its frame in raw. */
  ghost predicate Backed(rows: Rows, raw: set<Frame>) {
    forall d :: d in rows && rows[d].status == Recovered ==> InRaw(raw, d)
  }

  predicate SameBatch(rows: Rows) {
    forall d, e :: d in rows && e in rows && rows[d].status == Inflight && rows[e].status == Inflight ==>
      rows[d].batchId == rows[e].batchId && rows[d].inflightAt == rows[e].inflightAt
  }

  /** One read at a time: the inflight rows are of one batch, marked at one time, and at most maxBatch. */
  predicate SingleFlight(cfg: Config, rows: Rows) {
    SameBatch(rows) && |WithStatus(rows, Inflight)| <= cfg.maxBatch
  }

  ghost predicate JobView(s: State) {
    match s.job
    case JobIdle => true
    case JobMarking => WithStatus(s.rows, Inflight) == {}
    case JobPublishing(picked, batch) =>
      forall d :: d in s.rows && s.rows[d].status == Inflight ==> d in picked && s.rows[d].batchId == Some(batch)
  }

  ghost predicate HandlerView(s: State) {
    match s.handler
    case HandlerIdle => true
    case Correlated(m) =>
      IsRead(m) && WellFormed(m)
      && forall d :: d in m.seqs.value ==> d in s.rows && s.rows[d].status != NotFound
  }

  /** One lost event for each row given up, and none for any other counter. */
  ghost predicate LostOnce(rows: Rows, lost: multiset<nat>) {
    forall d: nat :: lost[d] == if d in rows && rows[d].status == NotFound then 1 else 0
  }

  ghost predicate Inv(cfg: Config, s: State) {
    && Shapes(s.rows)
    && Backed(s.rows, s.raw)
    && SingleFlight(cfg, s.rows)
    && JobView(s)
    && HandlerView(s)
    && LostOnce(s.rows, s.lost)
  }

  const INITIAL := State(map[], {}, JobIdle, HandlerIdle, 0, multiset{})

  lemma {:induction false} InitialInv(cfg: Config)
    ensures Inv(cfg, INITIAL)
  {
  }

  // ---- the statements keep it ----

  /** Closed rows are the same, no row is removed, and inflight rows only become fewer. */
  ghost predicate Calms(rows: Rows, after: Rows) {
    && rows.Keys <= after.Keys
    && (forall d :: d in rows && Terminal(rows[d].status) ==> d in after && after[d] == rows[d])
    && (forall d :: d in after && after[d].status != Pending ==> d in rows && after[d] == rows[d])
  }

  lemma {:induction false} CalmsKeepsFlight(cfg: Config, rows: Rows, after: Rows)
    requires SingleFlight(cfg, rows) && Calms(rows, after)
    ensures SingleFlight(cfg, after)
  {
    Subset(WithStatus(after, Inflight), WithStatus(rows, Inflight));
  }

  lemma {:induction false} CalmsKeepsInv(cfg: Config, s: State, t: State)
    requires Inv(cfg, s) && Calms(s.rows, t.rows) && Shapes(t.rows)
    requires s.raw == t.raw && s.handler == t.handler && s.lost == t.lost
    requires JobView(t)
    ensures Inv(cfg, t)
  {
    CalmsKeepsFlight(cfg, s.rows, t.rows);
    forall d: nat
      ensures t.lost[d] == if d in t.rows && t.rows[d].status == NotFound then 1 else 0
    {
    }
  }

  lemma {:induction false} ExpireCalms(rows: Rows)
    requires Shapes(rows)
    ensures Shapes(Expire(rows)) && Calms(rows, Expire(rows)) && WithStatus(Expire(rows), Inflight) == {}
  {
  }

  lemma {:induction false} UnmarkCalms(rows: Rows, batch: nat)
    requires Shapes(rows)
    ensures Shapes(Unmark(rows, batch)) && Calms(rows, Unmark(rows, batch))
  {
  }

  lemma {:induction false} GuardKeepsInv(cfg: Config, s: State, now: int)
    requires Inv(cfg, s)
    ensures Inv(cfg, GuardStep(cfg, s, now))
  {
    ExpireCalms(s.rows);
    var t := GuardStep(cfg, s, now);
    assert Calms(s.rows, s.rows);
    CalmsKeepsInv(cfg, s, t);
  }

  lemma {:induction false} PublishKeepsInv(cfg: Config, s: State, delivered: bool)
    requires Inv(cfg, s)
    ensures Inv(cfg, PublishStep(s, delivered))
  {
    var t := PublishStep(s, delivered);
    if s.job.JobPublishing? {
      UnmarkCalms(s.rows, s.job.batch);
    }
    assert Calms(s.rows, s.rows);
    CalmsKeepsInv(cfg, s, t);
  }

  lemma {:induction false} RawGrows(raw: set<Frame>, more: set<Frame>, d: nat)
    requires InRaw(raw, d)
    ensures InRaw(raw + more, d)
  {
    var f :| f in raw && f.ownGateway && f.number == d;
    assert f in raw + more;
  }

  lemma {:induction false} BackedGrows(rows: Rows, raw: set<Frame>, more: set<Frame>)
    requires Backed(rows, raw)
    ensures Backed(rows, raw + more)
  {
    forall d | d in rows && rows[d].status == Recovered
      ensures InRaw(raw + more, d)
    {
      RawGrows(raw, more, d);
    }
  }

  // ---- marking ----

  /** The refreshed table, row by row. */
  lemma {:induction false} RefreshedRow(s: State, detected: seq<nat>, now: int, d: nat)
    ensures d in Refreshed(s, detected, now) <==> d in s.rows || (d in FirstDetected(detected) && !InRaw(s.raw, d))
    ensures d in Refreshed(s, detected, now) && d !in s.rows ==> Refreshed(s, detected, now)[d] == NEW_ROW
    ensures d in s.rows && s.rows[d].status == Pending && InRaw(s.raw, d) ==>
              Refreshed(s, detected, now)[d] == s.rows[d].(status := Recovered, recoveredAt := Some(now))
    ensures d in s.rows && !(s.rows[d].status == Pending && InRaw(s.raw, d)) ==>
              Refreshed(s, detected, now)[d] == s.rows[d]
  {
  }

  /** Every row of the refreshed table keeps what it has to. */
  lemma {:induction false} RefreshedKeeps(cfg: Config, s: State, detected: seq<nat>, now: int)
    requires Inv(cfg, s)
    ensures var after := Refreshed(s, detected, now);
            Shapes(after) && Backed(after, s.raw) && LostOnce(after, s.lost) && s.rows.Keys <= after.Keys
            && (forall d :: d in after && after[d].status == Inflight ==> d in s.rows && after[d] == s.rows[d])
            && (forall d :: d in s.rows && s.rows[d].status != Pending ==> after[d] == s.rows[d])
            && (forall d :: d in after && after[d].status == NotFound ==> d in s.rows)
  {
    var after := Refreshed(s, detected, now);
    forall d | d in after
      ensures RowShape(after[d])
      ensures after[d].status == Recovered ==> InRaw(s.raw, d)
      ensures after[d].status == Inflight || after[d].status == NotFound ==> d in s.rows && after[d] == s.rows[d]
    {
      RefreshedRow(s, detected, now, d);
    }
    forall d | d in s.rows
      ensures d in after
      ensures s.rows[d].status != Pending ==> after[d] == s.rows[d]
    {
      RefreshedRow(s, detected, now, d);
    }
  }

  /** The state after a committed marking transaction. */
  lemma {:induction false} MarkKeepsInv(cfg: Config, s: State, detected: seq<nat>, n: nat, now: int)
    requires Inv(cfg, s) && n <= cfg.maxBatch
    ensures Inv(cfg, MarkStep(s, detected, n, now))
  {
    var t := MarkStep(s, detected, n, now);
    var picked := Pick(s, detected, n, now);
    if s.job == JobMarking && picked != {} {
      var before := Refreshed(s, detected, now);
      RefreshedKeeps(cfg, s, detected, now);
      SmallestSize(WithStatus(before, Pending), n);
      MarkedRows(before, picked, now, s.nextBatch);
      MarkedKeeps(before, picked, now, s.nextBatch, s.raw, s.lost);
      MarkedFlight(s, t, before, picked, now);
    }
  }

  lemma {:induction false} MarkedRows(before: Rows, picked: set<nat>, now: int, batch: nat)
    requires Shapes(before) && picked <= WithStatus(before, Pending)
    ensures var after := Mark(before, picked, now, batch);
            Shapes(after) && after.Keys == before.Keys
            && forall d :: d in before ==> after[d].status == if d in picked then Inflight else before[d].status
  {
  }

  lemma {:induction false} MarkedKeeps(before: Rows, picked: set<nat>, now: int, batch: nat, raw: set<Frame>, lost: multiset<nat>)
    requires Backed(before, raw) && LostOnce(before, lost) && picked <= WithStatus(before, Pending)
    ensures Backed(Mark(before, picked, now, batch), raw) && LostOnce(Mark(before, picked, now, batch), lost)
  {
  }

  lemma {:induction false} MarkedFlight(s: State, t: State, before: Rows, picked: set<nat>, now: int)
    requires picked <= WithStatus(before, Pending) && WithStatus(before, Inflight) == {}
    requires t.rows == Mark(before, picked, now, s.nextBatch)
    ensures SameBatch(t.rows) && WithStatus(t.rows, Inflight) == picked
    ensures forall d :: d in picked ==> t.rows[d].batchId == Some(s.nextBatch)
  {
    forall d | d in t.rows && t.rows[d].status == Inflight
      ensures d in picked
    {
      assert d !in WithStatus(before, Inflight);
    }
  }

  // ---- applying a response ----

  lemma {:induction false} FoundInRaw(raw: set<Frame>, lines: seq<Line>, d: nat)
    requires forall l :: l in lines && l.number.Some? ==> l.ownGateway
    requires d in Found(lines)
    ensures InRaw(raw + Frames(lines), d)
  {
    var l :| l in lines && Good(l) && l.number.value == d;
    assert FrameOf(l) in Frames(lines);
  }

  /** The two updates of an applied response, row by row. */
  lemma {:induction false} AppliedRow(rows: Rows, found: set<nat>, gone: set<nat>, now: int, d: nat)
    requires d in rows
    ensures var after := SetNotFound(SetRecovered(rows, found, now), gone, now);
            d in after
            && (d !in found && d !in gone ==> after[d] == rows[d])
            && (d in found && d !in gone ==> after[d].status == Recovered)
            && (d in gone ==> after[d].status == NotFound)
    ensures && RowShape(rows[d])
            && (d in found ==> d !in gone && rows[d].status != NotFound)
            && (d in gone ==> rows[d].status != Recovered)
            ==> RowShape(SetNotFound(SetRecovered(rows, found, now), gone, now)[d])
  {
  }

  /** What a correlated response may still meet: none of its counters is given up yet, so what it gives
      up now was neither received nor given up before. */
  lemma {:induction false} ResponseTouches(s: State, m: Message, d: nat)
    requires s.handler == Correlated(m) && HandlerView(s) && Backed(s.rows, s.raw)
    ensures var raw := s.raw + Frames(m.lines);
            var found := Found(m.lines) + Arrived(raw, m.missing);
            && (d in found ==> d in m.seqs.value && InRaw(raw, d) && d in s.rows && s.rows[d].status != NotFound)
            && (d in Gone(raw, m.missing) ==>
                  d in m.seqs.value && d !in found && d in s.rows && !Terminal(s.rows[d].status))
  {
    var raw := s.raw + Frames(m.lines);
    if d in Found(m.lines) {
      FoundInRaw(s.raw, m.lines, d);
    }
    if d in Gone(raw, m.missing) && s.rows[d].status == Recovered {
      RawGrows(s.raw, Frames(m.lines), d);
    }
  }

  lemma {:induction false} AppliedShapes(cfg: Config, s: State, now: int, m: Message)
    requires Inv(cfg, s) && s.handler == Correlated(m)
    ensures var t := ApplyStep(s, now);
            t.rows.Keys == s.rows.Keys && Shapes(t.rows) && Backed(t.rows, t.raw)
            && forall d :: d in t.rows && t.rows[d].status == Inflight ==> t.rows[d] == s.rows[d]
  {
    var t := ApplyStep(s, now);
    var found, gone := Found(m.lines) + Arrived(t.raw, m.missing), Gone(t.raw, m.missing);
    forall d | d in s.rows
      ensures d in t.rows && RowShape(t.rows[d])
      ensures t.rows[d].status == Recovered ==> InRaw(t.raw, d)
      ensures t.rows[d].status == Inflight ==> t.rows[d] == s.rows[d]
    {
      ResponseTouches(s, m, d);
      AppliedRow(s.rows, found, gone, now, d);
      if s.rows[d].status == Recovered {
        RawGrows(s.raw, Frames(m.lines), d);
      }
    }
  }

  lemma {:induction false} AppliedLost(cfg: Config, s: State, now: int, m: Message)
    requires Inv(cfg, s) && s.handler == Correlated(m)
    ensures LostOnce(ApplyStep(s, now).rows, ApplyStep(s, now).lost)
  {
    var t := ApplyStep(s, now);
    var found, gone := Found(m.lines) + Arrived(t.raw, m.missing), Gone(t.raw, m.missing);
    forall d: nat
      ensures t.lost[d] == if d in t.rows && t.rows[d].status == NotFound then 1 else 0
    {
      ResponseTouches(s, m, d);
      if d in s.rows {
        AppliedRow(s.rows, found, gone, now, d);
      }
    }
  }

  lemma {:induction false} ApplyKeepsInv(cfg: Config, s: State, now: int)
    requires Inv(cfg, s)
    ensures Inv(cfg, ApplyStep(s, now))
  {
    if s.handler != HandlerIdle {
      var m := s.handler.response;
      AppliedShapes(cfg, s, now, m);
      AppliedLost(cfg, s, now, m);
      var t := ApplyStep(s, now);
      Subset(WithStatus(t.rows, Inflight), WithStatus(s.rows, Inflight));
    }
  }

  lemma {:induction false} RawGrowthKeepsInv(cfg: Config, s: State, more: set<Frame>)
    requires Inv(cfg, s)
    ensures Inv(cfg, s.(raw := s.raw + more))
  {
    BackedGrows(s.rows, s.raw, more);
  }

  lemma {:induction false} HandlerFailsKeepsInv(cfg: Config, s: State, done: nat)
    requires Inv(cfg, s)
    ensures Inv(cfg, HandlerFailsStep(s, done))
  {
    if s.handler != HandlerIdle {
      var lines := s.handler.response.lines;
      RawGrowthKeepsInv(cfg, s, Frames(if done < |lines| then lines[..done] else lines));
    }
  }

  lemma {:induction false} CorrelateKeepsInv(cfg: Config, s: State, m: Message)
    requires Inv(cfg, s) && WellFormed(m)
    ensures Inv(cfg, CorrelateStep(s, m))
  {
    if Accepts(s.rows, m) {
      assert forall d :: d in m.seqs.value ==> d in WithStatus(s.rows, Inflight);
    }
  }

  lemma {:induction false} StepKeepsInv(cfg: Config, s: State, a: Action)
    requires Inv(cfg, s) && Allowed(cfg, a)
    ensures Inv(cfg, Step(cfg, s, a))
  {
    match a
    case LiveRx(f) => RawGrowthKeepsInv(cfg, s, {f});
    case Guard(now) => GuardKeepsInv(cfg, s, now);
    case MarkBatch(detected, n, now) => MarkKeepsInv(cfg, s, detected, n, now);
    case PublishDone(delivered) => PublishKeepsInv(cfg, s, delivered);
    case JobFails =>
    case Correlate(m) => CorrelateKeepsInv(cfg, s, m);
    case Apply(now) => ApplyKeepsInv(cfg, s, now);
    case HandlerFails(done) => HandlerFailsKeepsInv(cfg, s, done);
  }

  /** Every run keeps the invariant: a row is inflight iff it has a batch iff it has a time, all inflight rows
      are one batch of bounded size, every recovered row has its frame in raw, and each row given up has
      had exactly one lost event. */
  lemma {:induction false} RunKeepsInv(cfg: Config, s: State, actions: seq<Action>)
    requires Inv(cfg, s) && AllAllowed(cfg, actions)
    ensures Inv(cfg, Run(cfg, s, actions))
    decreases |actions|
  {
    if actions == [] {
    } else {
      StepKeepsInv(cfg, s, actions[0]);
      RunKeepsInv(cfg, Step(cfg, s, actions[0]), actions[1..]);
    }
  }

  /** So it holds in every state that is reached from an empty table. */
  lemma {:induction false} ReachableInv(cfg: Config, actions: seq<Action>)
    requires AllAllowed(cfg, actions)
    ensures Inv(cfg, Run(cfg, INITIAL, actions))
  {
    InitialInv(cfg);
    RunKeepsInv(cfg, INITIAL, actions);
  }
}
