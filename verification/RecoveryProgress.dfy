/** Progress: rounds whose batches are answered in full clear the backlog at the batch size per round,
    whatever live traffic arrives between their steps. */
module RecoveryProgress {
  import opened Wrappers
  import opened RecoveryTable
  import opened GapRecovery
  import opened RecoverySafety

  /** The ranking measure: rows that are pending and whose frame is not in raw. */
  ghost function Backlog(s: State): set<nat> {
    set d | d in s.rows && s.rows[d].status == Pending && !InRaw(s.raw, d)
  }

  /** Between rounds: nothing in flight and nobody at work. */
  ghost predicate Quiescent(cfg: Config, s: State) {
    Inv(cfg, s) && s.job == JobIdle && s.handler == HandlerIdle && WithStatus(s.rows, Inflight) == {}
  }

  /** One run of the job, with the gateway's answer to the batch it publishes and the live frames that
      arrive before each of its five steps. */
  datatype Round = Round(
    detected: seq<nat>, n: nat, guardTime: int, markTime: int, answer: Message, applyTime: int,
    beforeGuard: seq<Frame>, beforeMark: seq<Frame>, beforePublish: seq<Frame>, beforeAnswer: seq<Frame>,
    beforeApply: seq<Frame>)

  /** The answer is well formed, covers the batch, has true counts, and all its frames parse and ingest. */
  predicate Answers(m: Message, picked: set<nat>) {
    && IsRead(m) && WellFormed(m) && Tidy(m) && AllIngest(m)
    && m.seqs.value == picked && Numbers(m.lines) + m.missing == picked
    && FoundCount(m) == |m.lines| && RequestedCount(m) == |picked|
  }

  // ---- a round as a run of the system ----

  function Lives(frames: seq<Frame>): (actions: seq<Action>)
    ensures |actions| == |frames|
    ensures forall i :: 0 <= i < |frames| ==> actions[i] == LiveRx(frames[i])
  {
    seq(|frames|, i requires 0 <= i < |frames| => LiveRx(frames[i]))
  }

  function Actions(r: Round): seq<Action> {
    (Lives(r.beforeGuard) + [Guard(r.guardTime)])
    + ((Lives(r.beforeMark) + [MarkBatch(r.detected, r.n, r.markTime)])
       + ((Lives(r.beforePublish) + [PublishDone(true)])
          + ((Lives(r.beforeAnswer) + [Correlate(r.answer)])
             + (Lives(r.beforeApply) + [Apply(r.applyTime)]))))
  }

  function Play(cfg: Config, s: State, r: Round): State {
    Run(cfg, s, Actions(r))
  }

  function Heard(frames: seq<Frame>): set<Frame> {
    set f | f in frames
  }

  /** The state after these live frames. */
  function Hear(s: State, frames: seq<Frame>): State {
    s.(raw := s.raw + Heard(frames))
  }

  lemma {:induction false} RunAppend(cfg: Config, s: State, a: seq<Action>, b: seq<Action>)
    ensures Run(cfg, s, a + b) == Run(cfg, Run(cfg, s, a), b)
    decreases |a|
  {
    if a == [] {
      assert a + b == b;
    } else {
      assert (a + b)[1..] == a[1..] + b;
      RunAppend(cfg, Step(cfg, s, a[0]), a[1..], b);
    }
  }

  lemma {:induction false} HearFirst(s: State, frames: seq<Frame>)
    requires frames != []
    ensures Hear(s.(raw := s.raw + {frames[0]}), frames[1..]) == Hear(s, frames)
  {
    assert frames == [frames[0]] + frames[1..];
    assert Heard(frames) == {frames[0]} + Heard(frames[1..]);
    assert s.raw + {frames[0]} + Heard(frames[1..]) == s.raw + Heard(frames);
  }

  lemma {:induction false} RunOfLives(cfg: Config, s: State, frames: seq<Frame>)
    ensures Run(cfg, s, Lives(frames)) == Hear(s, frames)
    decreases |frames|
  {
    if frames == [] {
      assert s.raw + Heard(frames) == s.raw;
    } else {
      assert Lives(frames)[1..] == Lives(frames[1..]);
      assert Step(cfg, s, Lives(frames)[0]) == s.(raw := s.raw + {frames[0]});
      RunOfLives(cfg, s.(raw := s.raw + {frames[0]}), frames[1..]);
      HearFirst(s, frames);
    }
  }

  lemma {:induction false} RunSegment(cfg: Config, s: State, frames: seq<Frame>, a: Action)
    ensures Run(cfg, s, Lives(frames) + [a]) == Step(cfg, Hear(s, frames), a)
  {
    RunAppend(cfg, s, Lives(frames), [a]);
    RunOfLives(cfg, s, frames);
    assert [a][1..] == [];
    assert Run(cfg, Hear(s, frames), [a]) == Run(cfg, Step(cfg, Hear(s, frames), a), []);
  }

  lemma {:induction false} RunSegments(cfg: Config, s: State, frames: seq<Frame>, a: Action, rest: seq<Action>)
    ensures Run(cfg, s, (Lives(frames) + [a]) + rest) == Run(cfg, Step(cfg, Hear(s, frames), a), rest)
  {
    RunSegment(cfg, s, frames, a);
    RunAppend(cfg, s, Lives(frames) + [a], rest);
  }

  /** The state that the marking transaction of a round sees. */
  function Marking(s: State, r: Round): State {
    Hear(Hear(s, r.beforeGuard).(job := JobMarking), r.beforeMark)
  }

  /** The state that the answer of a round finds. */
  function Published(s: State, r: Round): State {
    Hear(PublishStep(Hear(MarkStep(Marking(s, r), r.detected, r.n, r.markTime), r.beforePublish), true), r.beforeAnswer)
  }

  lemma {:induction false} PlayActions(cfg: Config, s: State, r: Round)
    ensures var guarded := Step(cfg, Hear(s, r.beforeGuard), Guard(r.guardTime));
            var marked := Step(cfg, Hear(guarded, r.beforeMark), MarkBatch(r.detected, r.n, r.markTime));
            var published := Step(cfg, Hear(marked, r.beforePublish), PublishDone(true));
            var correlated := Step(cfg, Hear(published, r.beforeAnswer), Correlate(r.answer));
            Play(cfg, s, r) == Step(cfg, Hear(correlated, r.beforeApply), Apply(r.applyTime))
  {
    var g, m, p, c, a := Guard(r.guardTime), MarkBatch(r.detected, r.n, r.markTime), PublishDone(true), Correlate(r.answer), Apply(r.applyTime);
    var last := Lives(r.beforeApply) + [a];
    var after3 := (Lives(r.beforeAnswer) + [c]) + last;
    var after2 := (Lives(r.beforePublish) + [p]) + after3;
    var after1 := (Lives(r.beforeMark) + [m]) + after2;
    RunSegments(cfg, s, r.beforeGuard, g, after1);
    var s1 := Step(cfg, Hear(s, r.beforeGuard), g);
    RunSegments(cfg, s1, r.beforeMark, m, after2);
    var s2 := Step(cfg, Hear(s1, r.beforeMark), m);
    RunSegments(cfg, s2, r.beforePublish, p, after3);
    var s3 := Step(cfg, Hear(s2, r.beforePublish), p);
    RunSegments(cfg, s3, r.beforeAnswer, c, last);
    RunSegment(cfg, Step(cfg, Hear(s3, r.beforeAnswer), c), r.beforeApply, a);
  }

  lemma {:induction false} JobSteps(cfg: Config, s: State, r: Round)
    ensures Step(cfg, s, Guard(r.guardTime)) == GuardStep(cfg, s, r.guardTime)
    ensures Step(cfg, s, MarkBatch(r.detected, r.n, r.markTime)) == MarkStep(s, r.detected, r.n, r.markTime)
    ensures Step(cfg, s, PublishDone(true)) == PublishStep(s, true)
  {
  }

  lemma {:induction false} HandlerSteps(cfg: Config, s: State, r: Round)
    ensures Step(cfg, s, Correlate(r.answer)) == CorrelateStep(s, r.answer)
    ensures Step(cfg, s, Apply(r.applyTime)) == ApplyStep(s, r.applyTime)
  {
  }

  lemma {:induction false} GuardOpens(cfg: Config, s: State, now: int)
    requires s.job == JobIdle && WithStatus(s.rows, Inflight) == {}
    ensures GuardStep(cfg, s, now) == s.(job := JobMarking)
  {
  }

  lemma {:induction false} PlayFromPublished(cfg: Config, s: State, r: Round)
    requires Quiescent(cfg, s)
    ensures Play(cfg, s, r) == ApplyStep(Hear(CorrelateStep(Published(s, r), r.answer), r.beforeApply), r.applyTime)
  {
    PlayActions(cfg, s, r);
    JobSteps(cfg, Hear(s, r.beforeGuard), r);
    GuardOpens(cfg, Hear(s, r.beforeGuard), r.guardTime);
    JobSteps(cfg, Marking(s, r), r);
    var marked := MarkStep(Marking(s, r), r.detected, r.n, r.markTime);
    JobSteps(cfg, Hear(marked, r.beforePublish), r);
    HandlerSteps(cfg, Published(s, r), r);
    HandlerSteps(cfg, Hear(CorrelateStep(Published(s, r), r.answer), r.beforeApply), r);
  }

  // ---- what each step of a round does ----

  lemma {:induction false} HearKeepsInv(cfg: Config, s: State, frames: seq<Frame>)
    requires Inv(cfg, s)
    ensures Inv(cfg, Hear(s, frames))
  {
    RawGrowthKeepsInv(cfg, s, Heard(frames));
  }

  lemma {:induction false} MarkingInv(cfg: Config, s: State, r: Round)
    requires Quiescent(cfg, s)
    ensures Inv(cfg, Marking(s, r)) && Marking(s, r).job == JobMarking && Marking(s, r).handler == HandlerIdle
    ensures Marking(s, r).rows == s.rows && s.raw <= Marking(s, r).raw
  {
    HearKeepsInv(cfg, s, r.beforeGuard);
    HearKeepsInv(cfg, Hear(s, r.beforeGuard).(job := JobMarking), r.beforeMark);
  }

  /** This batch is in flight, these rows are pending, and the handler is free to take the answer. */
  ghost predicate Awaiting(cfg: Config, s: State, batch: set<nat>, rest: set<nat>) {
    && Inv(cfg, s) && s.job == JobIdle && s.handler == HandlerIdle
    && WithStatus(s.rows, Inflight) == batch && WithStatus(s.rows, Pending) == rest
  }

  lemma {:induction false} HearAwaiting(cfg: Config, s: State, frames: seq<Frame>, batch: set<nat>, rest: set<nat>)
    requires Awaiting(cfg, s, batch, rest)
    ensures Awaiting(cfg, Hear(s, frames), batch, rest)
  {
    HearKeepsInv(cfg, s, frames);
  }

  lemma {:induction false} MarkedRest(refreshed: Rows, picked: set<nat>, now: int, batch: nat)
    requires picked <= WithStatus(refreshed, Pending) && WithStatus(refreshed, Inflight) == {}
    ensures var after := Mark(refreshed, picked, now, batch);
            after.Keys == refreshed.Keys && WithStatus(after, Inflight) == picked
            && WithStatus(after, Pending) == WithStatus(refreshed, Pending) - picked
  {
    forall d | d in refreshed
      ensures refreshed[d].status != Inflight
    {
      assert d !in WithStatus(refreshed, Inflight);
    }
  }

  /** A marking transaction that finds something to request: afterwards the n smallest are in flight
      and the others are pending. */
  lemma {:induction false} Marks(cfg: Config, s: State, detected: seq<nat>, n: nat, now: int)
    requires Inv(cfg, s) && s.job == JobMarking && 1 <= n <= cfg.maxBatch && Requestable(s, detected) != {}
    ensures var t, req := MarkStep(s, detected, n, now), Requestable(s, detected);
            && Inv(cfg, t) && t.job.JobPublishing? && t.raw == s.raw && t.handler == s.handler
            && WithStatus(t.rows, Inflight) == Smallest(req, n) && WithStatus(t.rows, Pending) == req - Smallest(req, n)
            && s.rows.Keys <= t.rows.Keys
  {
    RefreshedPending(s, detected, now);
    RefreshedKeeps(cfg, s, detected, now);
    DetectionNotLost(s, detected, n, now);
    MarkKeepsInv(cfg, s, detected, n, now);
    MarkedRest(Refreshed(s, detected, now), Smallest(Requestable(s, detected), n), now, s.nextBatch);
  }

  lemma {:induction false} DeliveredAwaits(cfg: Config, s: State, batch: set<nat>, rest: set<nat>)
    requires Inv(cfg, s) && s.job.JobPublishing? && s.handler == HandlerIdle
    requires WithStatus(s.rows, Inflight) == batch && WithStatus(s.rows, Pending) == rest
    ensures Awaiting(cfg, PublishStep(s, true), batch, rest)
  {
    PublishKeepsInv(cfg, s, true);
  }

  lemma {:induction false} PublishedAwaits(cfg: Config, s: State, r: Round)
    requires Quiescent(cfg, s) && 1 <= r.n <= cfg.maxBatch && Requestable(Marking(s, r), r.detected) != {}
    ensures var req := Requestable(Marking(s, r), r.detected);
            Awaiting(cfg, Published(s, r), Smallest(req, r.n), req - Smallest(req, r.n))
  {
    var req := Requestable(Marking(s, r), r.detected);
    MarkingInv(cfg, s, r);
    Marks(cfg, Marking(s, r), r.detected, r.n, r.markTime);
    var marked := MarkStep(Marking(s, r), r.detected, r.n, r.markTime);
    HearKeepsInv(cfg, marked, r.beforePublish);
    DeliveredAwaits(cfg, Hear(marked, r.beforePublish), Smallest(req, r.n), req - Smallest(req, r.n));
    HearAwaiting(cfg, PublishStep(Hear(marked, r.beforePublish), true), r.beforeAnswer, Smallest(req, r.n), req - Smallest(req, r.n));
  }

  lemma {:induction false} AnswerAccepted(rows: Rows, m: Message, batch: set<nat>)
    requires WithStatus(rows, Inflight) == batch && batch != {} && Answers(m, batch)
    ensures Accepts(rows, m)
  {
    DistinctNumbers(m.lines);
    assert |Numbers(m.lines) + m.missing| == |m.lines| + |m.missing|;
  }

  lemma {:induction false} AnsweredRow(cfg: Config, s: State, m: Message, now: int, d: nat)
    requires Inv(cfg, s) && s.handler == Correlated(m) && Answers(m, m.seqs.value) && d in s.rows
    requires s.rows[d].status == Inflight ==> d in m.seqs.value
    ensures var t := ApplyStep(s, now);
            d in t.rows && t.rows[d].status != Inflight
            && (d in m.seqs.value ==> Terminal(t.rows[d].status)) && (d !in m.seqs.value ==> t.rows[d] == s.rows[d])
  {
    AllIngestFound(m);
    ApplySettles(cfg, s, now, m, d);
  }

  lemma {:induction false} AnswerTaken(cfg: Config, s: State, m: Message, frames: seq<Frame>, batch: set<nat>, rest: set<nat>)
    requires Awaiting(cfg, s, batch, rest) && batch != {} && Answers(m, batch)
    ensures var c := Hear(CorrelateStep(s, m), frames);
            Inv(cfg, c) && c.handler == Correlated(m) && c.job == JobIdle && c.rows == s.rows
  {
    AnswerAccepted(s.rows, m, batch);
    CorrelateKeepsInv(cfg, s, m);
    HearKeepsInv(cfg, CorrelateStep(s, m), frames);
  }

  /** A full answer to the batch in flight closes it and leaves the pending rows alone. */
  lemma {:induction false} AnswerCloses(cfg: Config, s: State, m: Message, frames: seq<Frame>, now: int, batch: set<nat>, rest: set<nat>)
    requires Awaiting(cfg, s, batch, rest) && batch != {} && Answers(m, batch)
    ensures var t := ApplyStep(Hear(CorrelateStep(s, m), frames), now);
            && Quiescent(cfg, t) && WithStatus(t.rows, Pending) == rest && t.rows.Keys == s.rows.Keys
            && t.raw == Hear(s, frames).raw + Frames(m.lines)
  {
    AnswerTaken(cfg, s, m, frames, batch, rest);
    AnswerApplied(cfg, Hear(CorrelateStep(s, m), frames), m, now, batch, rest);
  }

  lemma {:induction false} AnswerApplied(cfg: Config, s: State, m: Message, now: int, batch: set<nat>, rest: set<nat>)
    requires Inv(cfg, s) && s.handler == Correlated(m) && s.job == JobIdle && Answers(m, batch)
    requires WithStatus(s.rows, Inflight) == batch && WithStatus(s.rows, Pending) == rest
    ensures var t := ApplyStep(s, now);
            && Quiescent(cfg, t) && WithStatus(t.rows, Pending) == rest && t.rows.Keys == s.rows.Keys
            && t.raw == s.raw + Frames(m.lines)
  {
    ApplyKeepsInv(cfg, s, now);
    AnsweredRows(cfg, s, m, now, batch, rest);
  }

  lemma {:induction false} AnsweredRows(cfg: Config, s: State, m: Message, now: int, batch: set<nat>, rest: set<nat>)
    requires Inv(cfg, s) && s.handler == Correlated(m) && Answers(m, batch)
    requires WithStatus(s.rows, Inflight) == batch && WithStatus(s.rows, Pending) == rest
    ensures var t := ApplyStep(s, now);
            WithStatus(t.rows, Inflight) == {} && WithStatus(t.rows, Pending) == rest && t.rows.Keys == s.rows.Keys
  {
    var t := ApplyStep(s, now);
    AppliedShapes(cfg, s, now, m);
    forall d | d in s.rows
      ensures t.rows[d].status != Inflight && (t.rows[d].status == Pending <==> d in rest)
    {
      assert s.rows[d].status == Inflight <==> d in batch;
      AnsweredRow(cfg, s, m, now, d);
    }
  }

  // ---- a round ----

  /** What a round assumes: a batch size within the limit, and a full answer if a batch is published. */
  ghost predicate Served(cfg: Config, s: State, r: Round) {
    var req := Requestable(Marking(s, r), r.detected);
    1 <= r.n <= cfg.maxBatch && WellFormed(r.answer) && (req != {} ==> Answers(r.answer, Smallest(req, r.n)))
  }

  /** With nothing to request a round leaves the table as it is. */
  lemma {:induction false} IdleRound(cfg: Config, s: State, r: Round)
    requires Quiescent(cfg, s) && Served(cfg, s, r) && Requestable(Marking(s, r), r.detected) == {}
    ensures Quiescent(cfg, Play(cfg, s, r)) && Play(cfg, s, r).rows == s.rows
    ensures Play(cfg, s, r).raw == Hear(Hear(Hear(Marking(s, r), r.beforePublish), r.beforeAnswer), r.beforeApply).raw
  {
    MarkingInv(cfg, s, r);
    DetectionNotLost(Marking(s, r), r.detected, r.n, r.markTime);
    PlayFromPublished(cfg, s, r);
    var p := Published(s, r);
    assert p == Hear(Hear(Marking(s, r).(job := JobIdle), r.beforePublish), r.beforeAnswer);
    assert !Accepts(p.rows, r.answer);
    assert Play(cfg, s, r) == Hear(p, r.beforeApply);
    HearKeepsInv(cfg, Marking(s, r).(job := JobIdle), r.beforePublish);
    HearKeepsInv(cfg, Hear(Marking(s, r).(job := JobIdle), r.beforePublish), r.beforeAnswer);
    HearKeepsInv(cfg, p, r.beforeApply);
  }

  lemma {:induction false} BusyRound(cfg: Config, s: State, r: Round)
    requires Quiescent(cfg, s) && Served(cfg, s, r) && Requestable(Marking(s, r), r.detected) != {}
    ensures var req, t := Requestable(Marking(s, r), r.detected), Play(cfg, s, r);
            && Quiescent(cfg, t) && WithStatus(t.rows, Pending) == req - Smallest(req, r.n)
            && t.rows.Keys == Published(s, r).rows.Keys
            && t.raw == Hear(Published(s, r), r.beforeApply).raw + Frames(r.answer.lines)
  {
    var req := Requestable(Marking(s, r), r.detected);
    PlayFromPublished(cfg, s, r);
    PublishedAwaits(cfg, s, r);
    SmallestNonempty(req, r.n);
    AnswerCloses(cfg, Published(s, r), r.answer, r.beforeApply, r.applyTime, Smallest(req, r.n), req - Smallest(req, r.n));
  }

  /** The live frames that arrive after the marking transaction. */
  function Later(r: Round): set<Frame> {
    Heard(r.beforePublish) + Heard(r.beforeAnswer) + Heard(r.beforeApply)
  }

  /** The frames of the answer, if there was something to request. */
  ghost function Brought(s: State, r: Round): set<Frame> {
    if Requestable(Marking(s, r), r.detected) == {} || !r.answer.StorageRead? then {} else Frames(r.answer.lines)
  }

  /** What a round adds to raw after its marking. */
  lemma {:induction false} PlayRaw(cfg: Config, s: State, r: Round)
    requires Quiescent(cfg, s) && Served(cfg, s, r)
    ensures Play(cfg, s, r).raw == Marking(s, r).raw + Later(r) + Brought(s, r)
  {
    if Requestable(Marking(s, r), r.detected) == {} {
      IdleRound(cfg, s, r);
    } else {
      BusyRound(cfg, s, r);
      MarkingInv(cfg, s, r);
      Marks(cfg, Marking(s, r), r.detected, r.n, r.markTime);
    }
  }

  /** Ingesting a well-formed answer brings no counter that was not requested. */
  lemma {:induction false} OnlyAnswered(raw: set<Frame>, m: Message, d: nat)
    requires IsRead(m) && WellFormed(m) && InRaw(raw + Frames(m.lines), d) && !InRaw(raw, d)
    ensures d in m.seqs.value
  {
    var f :| f in raw + Frames(m.lines) && f.ownGateway && f.number == d;
    assert f in Frames(m.lines);
  }

  lemma {:induction false} InMore(raw: set<Frame>, more: set<Frame>, d: nat)
    requires InRaw(raw, d) && raw <= more
    ensures InRaw(more, d)
  {
    var f :| f in raw && f.ownGateway && f.number == d;
    assert f in more;
  }

  lemma {:induction false} BacklogOf(s: State, rest: set<nat>)
    requires WithStatus(s.rows, Pending) == rest
    ensures Backlog(s) == set d | d in rest && !InRaw(s.raw, d)
  {
    assert forall d :: d in rest <==> d in s.rows && s.rows[d].status == Pending;
  }

  lemma {:induction false} IdleBacklog(cfg: Config, s: State, r: Round)
    requires Quiescent(cfg, s) && Served(cfg, s, r) && Requestable(Marking(s, r), r.detected) == {}
    ensures Quiescent(cfg, Play(cfg, s, r)) && Backlog(Play(cfg, s, r)) == {}
  {
    IdleRound(cfg, s, r);
    PlayRaw(cfg, s, r);
    MarkingInv(cfg, s, r);
    var t, marking := Play(cfg, s, r), Marking(s, r);
    forall d | d in Backlog(t)
      ensures d in Requestable(marking, r.detected)
    {
      if InRaw(marking.raw, d) {
        InMore(marking.raw, t.raw, d);
      }
    }
  }

  lemma {:induction false} RoundBacklog(cfg: Config, s: State, r: Round)
    requires Quiescent(cfg, s) && Served(cfg, s, r)
    ensures Quiescent(cfg, Play(cfg, s, r))
    ensures var req, t := Requestable(Marking(s, r), r.detected), Play(cfg, s, r);
            Backlog(t) == set d | d in req - Smallest(req, r.n) && !InRaw(t.raw, d)
  {
    var req := Requestable(Marking(s, r), r.detected);
    if req == {} {
      IdleBacklog(cfg, s, r);
    } else {
      BusyRound(cfg, s, r);
      BacklogOf(Play(cfg, s, r), req - Smallest(req, r.n));
    }
  }

  lemma {:induction false} NothingElseArrives(cfg: Config, s: State, r: Round, d: nat)
    requires Quiescent(cfg, s) && Served(cfg, s, r) && Later(r) == {}
    requires d in Requestable(Marking(s, r), r.detected) - Smallest(Requestable(Marking(s, r), r.detected), r.n)
    ensures !InRaw(Play(cfg, s, r).raw, d)
  {
    var raw := Marking(s, r).raw;
    PlayRaw(cfg, s, r);
    assert raw + Later(r) == raw;
    if InRaw(raw + Frames(r.answer.lines), d) {
      OnlyAnswered(raw, r.answer, d);
    }
  }

  /** A served round closes the n smallest of what can be requested, or all of it: what is left of the
      backlog is the rest, less what arrives live in the meantime. */
  lemma {:induction false} RoundClears(cfg: Config, s: State, r: Round)
    requires Quiescent(cfg, s) && Served(cfg, s, r)
    ensures var req, t := Requestable(Marking(s, r), r.detected), Play(cfg, s, r);
            && Quiescent(cfg, t)
            && Backlog(t) <= req - Smallest(req, r.n)
            && (Later(r) == {} ==> Backlog(t) == req - Smallest(req, r.n))
            && |req - Smallest(req, r.n)| == (if |req| < r.n then 0 else |req| - r.n)
            && |Backlog(t)| <= |req - Smallest(req, r.n)|
  {
    var req, t := Requestable(Marking(s, r), r.detected), Play(cfg, s, r);
    RoundBacklog(cfg, s, r);
    SmallestSize(req, r.n);
    assert |req - Smallest(req, r.n)| == |req| - |Smallest(req, r.n)|;
    Subset(Backlog(t), req - Smallest(req, r.n));
    if Later(r) == {} {
      forall d | d in req - Smallest(req, r.n)
        ensures !InRaw(t.raw, d)
      {
        NothingElseArrives(cfg, s, r, d);
      }
    }
  }

  // ---- many rounds ----

  ghost function PlayAll(cfg: Config, s: State, rounds: seq<Round>): State
    decreases |rounds|
  {
    if rounds == [] then s else PlayAll(cfg, Play(cfg, s, rounds[0]), rounds[1..])
  }

  ghost predicate AllServed(cfg: Config, s: State, rounds: seq<Round>)
    decreases |rounds|
  {
    rounds != [] ==> Served(cfg, s, rounds[0]) && AllServed(cfg, Play(cfg, s, rounds[0]), rounds[1..])
  }

  /** Detection finds nothing that has no row yet. */
  ghost predicate NothingNew(s: State, r: Round) {
    forall d :: d in FirstDetected(r.detected) ==> d in s.rows || InRaw(Marking(s, r).raw, d)
  }

  ghost predicate AllNothingNew(cfg: Config, s: State, rounds: seq<Round>)
    decreases |rounds|
  {
    rounds != [] ==> NothingNew(s, rounds[0]) && AllNothingNew(cfg, Play(cfg, s, rounds[0]), rounds[1..])
  }

  function Capacity(rounds: seq<Round>): nat {
    if rounds == [] then 0 else rounds[0].n + Capacity(rounds[1..])
  }

  lemma {:induction false} NothingNewRequestable(cfg: Config, s: State, r: Round)
    requires Quiescent(cfg, s) && NothingNew(s, r)
    ensures Requestable(Marking(s, r), r.detected) <= Backlog(s)
    ensures |Requestable(Marking(s, r), r.detected)| <= |Backlog(s)|
  {
    MarkingInv(cfg, s, r);
    var marking := Marking(s, r);
    forall d | d in Requestable(marking, r.detected)
      ensures d in Backlog(s)
    {
      if InRaw(s.raw, d) {
        InMore(s.raw, marking.raw, d);
      }
    }
    Subset(Requestable(marking, r.detected), Backlog(s));
  }

  /** Once the batch sizes add up to the backlog, every row that is still pending is a frame in raw. */
  lemma {:induction false} BacklogClears(cfg: Config, s: State, rounds: seq<Round>)
    requires Quiescent(cfg, s) && AllServed(cfg, s, rounds) && AllNothingNew(cfg, s, rounds)
    ensures Quiescent(cfg, PlayAll(cfg, s, rounds))
    ensures |Backlog(PlayAll(cfg, s, rounds))|
         <= if |Backlog(s)| < Capacity(rounds) then 0 else |Backlog(s)| - Capacity(rounds)
    decreases |rounds|
  {
    if rounds == [] {
    } else {
      RoundClears(cfg, s, rounds[0]);
      NothingNewRequestable(cfg, s, rounds[0]);
      BacklogClears(cfg, Play(cfg, s, rounds[0]), rounds[1..]);
    }
  }

  lemma {:induction false} CapacityAtLeast(rounds: seq<Round>, size: nat)
    requires forall i :: 0 <= i < |rounds| ==> rounds[i].n >= size
    ensures Capacity(rounds) >= |rounds| * size
  {
    if rounds == [] {
    } else {
      CapacityAtLeast(rounds[1..], size);
      assert |rounds| * size == |rounds[1..]| * size + size;
    }
  }

  /** In particular rounds of size at least N clear a backlog of P rows in any number of rounds k with
      k * N >= P. */
  lemma {:induction false} RoundsNeeded(cfg: Config, s: State, rounds: seq<Round>, size: nat)
    requires Quiescent(cfg, s) && AllServed(cfg, s, rounds) && AllNothingNew(cfg, s, rounds)
    requires forall i :: 0 <= i < |rounds| ==> rounds[i].n >= size
    requires |rounds| * size >= |Backlog(s)|
    ensures var t := PlayAll(cfg, s, rounds);
            forall d :: d in t.rows && t.rows[d].status == Pending ==> InRaw(t.raw, d)
  {
    CapacityAtLeast(rounds, size);
    BacklogClears(cfg, s, rounds);
    NoBacklog(PlayAll(cfg, s, rounds));
  }

  lemma {:induction false} NoBacklog(s: State)
    requires |Backlog(s)| == 0
    ensures forall d :: d in s.rows && s.rows[d].status == Pending ==> InRaw(s.raw, d)
  {
    assert Backlog(s) == {};
    assert forall d :: d in s.rows && s.rows[d].status == Pending && !InRaw(s.raw, d) ==> d in Backlog(s);
  }
}
