/** What the recovery protocol guarantees over whole runs: closed rows stay closed, a response settles
    what it was asked for and nothing else, and no detected gap is lost. */
module RecoverySafety {
  import opened Wrappers
  import opened RecoveryTable
  import opened GapRecovery

  // ---- how a row may move ----

  /** One step removes no row, moves no closed row, gives up only what is not in raw, and creates no
      row that is already closed. */
  lemma {:induction false} StepMoves(cfg: Config, s: State, a: Action, d: nat)
    requires Inv(cfg, s) && Allowed(cfg, a)
    ensures var t := Step(cfg, s, a);
            && (d in s.rows ==> d in t.rows)
            && (d in s.rows && Terminal(s.rows[d].status) ==> t.rows[d].status == s.rows[d].status)
            && (d in s.rows && s.rows[d].status == NotFound ==> t.rows[d] == s.rows[d])
            && (d in t.rows && t.rows[d].status == NotFound && !(d in s.rows && s.rows[d].status == NotFound) ==>
                  a.Apply? && !InRaw(t.raw, d))
            && (d !in s.rows && d in t.rows ==> a.MarkBatch? && !InRaw(s.raw, d) && !Terminal(t.rows[d].status))
  {
    match a
    case LiveRx(f) =>
    case Guard(now) => ExpireCalms(s.rows);
    case MarkBatch(detected, n, now) => MarkMoves(cfg, s, detected, n, now, d);
    case PublishDone(delivered) =>
      if s.job.JobPublishing? {
        UnmarkCalms(s.rows, s.job.batch);
      }
    case JobFails =>
    case Correlate(m) =>
    case Apply(now) =>
      if s.handler != HandlerIdle {
        ApplyMoves(cfg, s, now, d);
      }
    case HandlerFails(done) =>
  }

  lemma {:induction false} MarkMoves(cfg: Config, s: State, detected: seq<nat>, n: nat, now: int, d: nat)
    requires Inv(cfg, s)
    ensures var t := MarkStep(s, detected, n, now);
            && (d in s.rows ==> d in t.rows && (Terminal(s.rows[d].status) ==> t.rows[d] == s.rows[d]))
            && (d in t.rows && t.rows[d].status == NotFound ==> d in s.rows && s.rows[d].status == NotFound)
            && (d !in s.rows && d in t.rows ==> !InRaw(s.raw, d) && !Terminal(t.rows[d].status))
  {
    RefreshedRow(s, detected, now, d);
  }

  lemma {:induction false} ApplyMoves(cfg: Config, s: State, now: int, d: nat)
    requires Inv(cfg, s) && s.handler != HandlerIdle
    ensures var t := ApplyStep(s, now);
            && (d in s.rows <==> d in t.rows)
            && (d in s.rows && Terminal(s.rows[d].status) ==> t.rows[d].status == s.rows[d].status)
            && (d in s.rows && s.rows[d].status == NotFound ==> t.rows[d] == s.rows[d])
            && (d in t.rows && t.rows[d].status == NotFound && s.rows[d].status != NotFound ==> !InRaw(t.raw, d))
  {
    var m := s.handler.response;
    var raw := s.raw + Frames(m.lines);
    ResponseTouches(s, m, d);
    if d in s.rows {
      AppliedRow(s.rows, Found(m.lines) + Arrived(raw, m.missing), Gone(raw, m.missing), now, d);
    }
  }

  /** recovered and not_found are absorbing over every run: no expiry, detection, publish failure, late
      or repeated response takes a row out of them. */
  lemma {:induction false} ClosedStays(cfg: Config, s: State, actions: seq<Action>, d: nat)
    requires Inv(cfg, s) && AllAllowed(cfg, actions)
    requires d in s.rows && Terminal(s.rows[d].status)
    ensures d in Run(cfg, s, actions).rows && Run(cfg, s, actions).rows[d].status == s.rows[d].status
    ensures s.rows[d].status == NotFound ==> Run(cfg, s, actions).rows[d] == s.rows[d]
    decreases |actions|
  {
    if actions == [] {
    } else {
      StepKeepsInv(cfg, s, actions[0]);
      StepMoves(cfg, s, actions[0], d);
      ClosedStays(cfg, Step(cfg, s, actions[0]), actions[1..], d);
    }
  }

  // ---- responses ----

  /** From the moment one counter of a read is closed, every response to that read is ignored, after any run. */
  lemma {:induction false} ClosedReadIgnored(cfg: Config, s: State, actions: seq<Action>, d: nat, m: Message)
    requires Inv(cfg, s) && AllAllowed(cfg, actions)
    requires d in s.rows && Terminal(s.rows[d].status)
    requires IsRead(m) && d in m.seqs.value
    ensures Step(cfg, Run(cfg, s, actions), Correlate(m)) == Run(cfg, s, actions)
  {
    ClosedStays(cfg, s, actions, d);
    assert d !in WithStatus(Run(cfg, s, actions).rows, Inflight);
  }

  /** What applying a response does to each requested counter: the ones whose line was ingested and the
      ones reported missing are closed, the others keep their row; recovered means in raw, given up
      means not in raw. Counters that were not requested keep their row. */
  lemma {:induction false} ApplySettles(cfg: Config, s: State, now: int, m: Message, d: nat)
    requires Inv(cfg, s) && s.handler == Correlated(m)
    ensures var t := ApplyStep(s, now);
            && (d in m.seqs.value ==> d in t.rows)
            && (d in s.rows && d !in m.seqs.value ==> t.rows[d] == s.rows[d])
            && (d in m.seqs.value && d !in Found(m.lines) + m.missing ==> t.rows[d] == s.rows[d])
            && (d in Found(m.lines) + m.missing ==>
                  d in t.rows && t.rows[d].status == if InRaw(t.raw, d) then Recovered else NotFound)
  {
    var raw := s.raw + Frames(m.lines);
    ResponseTouches(s, m, d);
    if d in Found(m.lines) {
      FoundInRaw(s.raw, m.lines, d);
    }
    if d in s.rows {
      AppliedRow(s.rows, Found(m.lines) + Arrived(raw, m.missing), Gone(raw, m.missing), now, d);
    }
  }

  // ---- the same on the fields of the lines ----

  /** A line of the message with this counter that parses and that the database takes. */
  predicate Delivered(l: Line, d: nat) {
    l.number == Some(d) && l.parses && l.ingests
  }

  /** A counter that is not reported missing: without a line that parses and ingests, applying the
      response leaves its row and its presence in raw as they were. */
  lemma {:induction false} UndeliveredKeepsRow(s: State, now: int, m: Message, d: nat)
    requires s.handler == Correlated(m) && m.StorageRead? && d !in m.missing
    requires forall l :: l in m.lines && l.number == Some(d) ==> !l.parses || !l.ingests
    ensures d in ApplyStep(s, now).rows <==> d in s.rows
    ensures d in s.rows ==> ApplyStep(s, now).rows[d] == s.rows[d]
    ensures InRaw(ApplyStep(s, now).raw, d) <==> InRaw(s.raw, d)
  {
    var t := ApplyStep(s, now);
    assert d !in Found(m.lines);
    if d in s.rows {
      AppliedRow(s.rows, Found(m.lines) + Arrived(t.raw, m.missing), Gone(t.raw, m.missing), now, d);
    }
    if InRaw(t.raw, d) {
      var f :| f in t.raw && f.ownGateway && f.number == d;
      assert f !in Frames(m.lines);
    }
    if InRaw(s.raw, d) {
      RawGrows(s.raw, Frames(m.lines), d);
    }
  }

  /** With such a line its frame is in raw, and its row is recovered at this time, out of the batch. */
  lemma {:induction false} DeliveredIsRecovered(s: State, now: int, m: Message, d: nat, l: Line)
    requires s.handler == Correlated(m) && m.StorageRead? && d !in m.missing
    requires l in m.lines && Delivered(l, d)
    ensures Frame(l.ownGateway, d, l.body) in ApplyStep(s, now).raw
    ensures d in s.rows ==>
              d in ApplyStep(s, now).rows
              && ApplyStep(s, now).rows[d] == Row(Recovered, None, None, s.rows[d].reason, Some(now), Some(now))
  {
    assert FrameOf(l) in Frames(m.lines);
    assert d in Found(m.lines);
  }

  /** Raw only grows, and by nothing but the frames of such lines. */
  lemma {:induction false} NewFramesDelivered(s: State, now: int, m: Message, f: Frame)
    requires s.handler == Correlated(m) && m.StorageRead?
    ensures f in s.raw ==> f in ApplyStep(s, now).raw
    ensures f in ApplyStep(s, now).raw && f !in s.raw ==>
              exists l :: l in m.lines && Delivered(l, f.number) && f == Frame(l.ownGateway, f.number, l.body)
  {
    if f in ApplyStep(s, now).raw && f !in s.raw {
      var l :| l in m.lines && Good(l) && FrameOf(l) == f;
      assert Delivered(l, f.number);
    }
  }

  /** A missing counter is looked up in raw after the lines: recovered if it is there, given up if not,
      and given up means one more lost event. */
  lemma {:induction false} MissingLookedUp(s: State, now: int, m: Message, d: nat)
    requires s.handler == Correlated(m) && m.StorageRead? && d in m.missing && d in s.rows
    ensures var t := ApplyStep(s, now);
            d in t.rows
            && if InRaw(t.raw, d) then t.rows[d] == Row(Recovered, None, None, s.rows[d].reason, Some(now), Some(now)) && t.lost[d] == s.lost[d]
               else t.rows[d].status == NotFound && t.rows[d].reason == Some(NoSuchFrame) && t.rows[d].lastResponseAt == Some(now)
                    && t.rows[d].inflightAt == None && t.rows[d].batchId == None && t.lost[d] == s.lost[d] + 1
  {
    var t := ApplyStep(s, now);
    assert d in Arrived(t.raw, m.missing) <==> InRaw(t.raw, d);
    assert d in Gone(t.raw, m.missing) <==> !InRaw(t.raw, d);
  }

  /** A handler that fails has ingested the first lines it came to and closed nothing. */
  lemma {:induction false} FailedHandlerKeepsRows(s: State, done: nat, m: Message, f: Frame)
    requires s.handler == Correlated(m) && m.StorageRead?
    ensures HandlerFailsStep(s, done).rows == s.rows && HandlerFailsStep(s, done).lost == s.lost
    ensures f in HandlerFailsStep(s, done).raw <==>
            f in s.raw
            || exists k :: 0 <= k < done && k < |m.lines| && Delivered(m.lines[k], f.number)
                           && f == Frame(m.lines[k].ownGateway, f.number, m.lines[k].body)
  {
    var lines := if done < |m.lines| then m.lines[..done] else m.lines;
    if f in Frames(lines) {
      var l :| l in lines && Good(l) && FrameOf(l) == f;
      var k :| 0 <= k < |lines| && lines[k] == l;
      assert m.lines[k] == l && Delivered(m.lines[k], f.number);
    }
    if k :| 0 <= k < done && k < |m.lines| && Delivered(m.lines[k], f.number) && f == Frame(m.lines[k].ownGateway, f.number, m.lines[k].body) {
      assert lines[k] == m.lines[k] && lines[k] in lines;
      assert FrameOf(lines[k]) in Frames(lines);
    }
  }

  /** The frame is carried by one of the first lines of the response at hand, and that line is delivered. */
  ghost predicate Carried(s: State, first: nat, f: Frame) {
    s.handler.Correlated? && s.handler.response.StorageRead?
    && exists k :: 0 <= k < first && k < |s.handler.response.lines|
                   && Delivered(s.handler.response.lines[k], f.number)
                   && f == Frame(s.handler.response.lines[k].ownGateway, f.number, s.handler.response.lines[k].body)
  }

  /** Where frames come from, whatever the step: live traffic, and the lines the handler comes to that
      parse and are taken. No step removes one. */
  lemma {:induction false} RawOrigin(cfg: Config, s: State, a: Action, all: nat, f: Frame)
    requires s.handler.Correlated? && s.handler.response.StorageRead? ==> all == |s.handler.response.lines|
    ensures f in Step(cfg, s, a).raw <==>
            || f in s.raw
            || a == LiveRx(f)
            || (a.Apply? && Carried(s, all, f))
            || (a.HandlerFails? && Carried(s, a.done, f))
  {
    if s.handler.Correlated? && s.handler.response.StorageRead? {
      var m := s.handler.response;
      FailedHandlerKeepsRows(s, if a.HandlerFails? then a.done else all, m, f);
    }
  }

  /** The messages the handler acts on, field by field. */
  lemma {:induction false} CorrelatedIff(s: State, m: Message)
    requires s.handler == HandlerIdle
    ensures CorrelateStep(s, m) == s || CorrelateStep(s, m) == s.(handler := Correlated(m))
    ensures CorrelateStep(s, m).handler == Correlated(m) <==>
            && m.StorageRead? && m.seqs.Some? && (exists d :: d in m.seqs.value)
            && (forall d :: d in m.seqs.value ==> d in s.rows && s.rows[d].status == Inflight)
            && (if m.foundCount.Some? then m.foundCount.value else |m.lines|) + |m.missing|
               == (if m.requested.Some? then m.requested.value else |m.seqs.value|)
  {
    if m.StorageRead? && m.seqs.Some? {
      assert m.seqs.value != {} <==> exists d :: d in m.seqs.value;
      assert m.seqs.value <= WithStatus(s.rows, Inflight) <==> forall d :: d in m.seqs.value ==> d in s.rows && s.rows[d].status == Inflight;
    }
  }

  /** So once a response has closed anything, the same read is ignored for good. */
  lemma {:induction false} AppliedReadIgnored(cfg: Config, s: State, now: int, m: Message, again: Message, actions: seq<Action>)
    requires Inv(cfg, s) && s.handler == Correlated(m) && AllAllowed(cfg, actions)
    requires Found(m.lines) + m.missing != {}
    requires IsRead(again) && again.seqs == m.seqs
    ensures var t := Run(cfg, ApplyStep(s, now), actions);
            Step(cfg, t, Correlate(again)) == t
  {
    var d :| d in Found(m.lines) + m.missing;
    ResponseTouches(s, m, d);
    ApplySettles(cfg, s, now, m, d);
    ApplyKeepsInv(cfg, s, now);
    ClosedReadIgnored(cfg, ApplyStep(s, now), actions, d, again);
  }

  function Numbers(lines: seq<Line>): set<nat> {
    set l | l in lines && l.number.Some? :: l.number.value
  }

  /** The rest of what is assumed of an answer: numbered lines, each counter once, none of them also missing. */
  predicate Tidy(m: Message)
    requires IsRead(m)
  {
    && (forall i :: 0 <= i < |m.lines| ==> m.lines[i].number.Some?)
    && (forall i, j :: 0 <= i < j < |m.lines| ==> m.lines[i].number != m.lines[j].number)
    && Numbers(m.lines) !! m.missing
  }

  lemma {:induction false} DistinctNumbers(lines: seq<Line>)
    requires forall i :: 0 <= i < |lines| ==> lines[i].number.Some?
    requires forall i, j :: 0 <= i < j < |lines| ==> lines[i].number != lines[j].number
    ensures |Numbers(lines)| == |lines|
  {
    if lines == [] {
      assert Numbers(lines) == {};
    } else {
      var front, last := lines[..|lines| - 1], lines[|lines| - 1];
      DistinctNumbers(front);
      assert lines == front + [last];
      NumbersSnoc(front, last);
    }
  }

  lemma {:induction false} NumbersSnoc(front: seq<Line>, last: Line)
    requires last.number.Some?
    ensures Numbers(front + [last]) == Numbers(front) + {last.number.value}
  {
    assert last in front + [last];
    forall l | l in front
      ensures l in front + [last]
    {
    }
  }

  /** What the answer says about the counters it was asked for. */
  function Answered(m: Message): set<nat>
    requires IsRead(m)
  {
    (Numbers(m.lines) + m.missing) * m.seqs.value
  }

  /** How many of its lines and missing counters are repeats, unnumbered, or about something else. */
  function Surplus(m: Message): int
    requires IsRead(m)
  {
    |m.lines| + |m.missing| - |Answered(m)|
  }

  /** The count check makes lines and missing cover every requested counter if and only if the errors
      of the two counts differ by exactly the surplus of the answer. For a well-formed and tidy answer,
      which has none, they then partition the request, and do so exactly when the two errors are equal,
      as when the counts are left out. */
  lemma {:induction false} PartitionIff(rows: Rows, m: Message)
    requires Accepts(rows, m)
    ensures m.seqs.value <= Numbers(m.lines) + m.missing
       <==> (RequestedCount(m) - |m.seqs.value|) - (FoundCount(m) - |m.lines|) == Surplus(m)
    ensures WellFormed(m) && Tidy(m) ==>
              (Numbers(m.lines) + m.missing == m.seqs.value
               <==> FoundCount(m) - |m.lines| == RequestedCount(m) - |m.seqs.value|)
    ensures WellFormed(m) && Tidy(m) && m.foundCount == None && m.requested == None ==>
              Numbers(m.lines) + m.missing == m.seqs.value
  {
    Subset(Answered(m), m.seqs.value);
    if m.seqs.value <= Numbers(m.lines) + m.missing {
      assert Answered(m) == m.seqs.value;
    }
    if WellFormed(m) && Tidy(m) {
      NoSurplus(m);
    }
  }

  lemma {:induction false} NoSurplus(m: Message)
    requires IsRead(m) && WellFormed(m) && Tidy(m)
    ensures Surplus(m) == 0 && Numbers(m.lines) + m.missing <= m.seqs.value
  {
    DistinctNumbers(m.lines);
    assert |Numbers(m.lines) + m.missing| == |m.lines| + |m.missing|;
    assert Answered(m) == Numbers(m.lines) + m.missing;
  }

  /** A repeated line passes the check too: two requested, one line sent twice, no counts at all, and the
      other counter stays inflight. */
  lemma {:induction false} RepeatedLineLeavesInflight(cfg: Config, s: State, m: Message, l: Line, now: int)
    requires Inv(cfg, s) && s.handler == HandlerIdle && WithStatus(s.rows, Inflight) == {1, 2}
    requires l == Line(Some(1), true, 0, true, true)
    requires m == StorageRead(Some({1, 2}), [l, l], {}, None, None)
    ensures WellFormed(m) && AllIngest(m) && Accepts(s.rows, m)
    ensures var t := ApplyStep(CorrelateStep(s, m), now);
            2 in t.rows && t.rows[2].status == Inflight
  {
    UnansweredStaysInflight(cfg, s, m, now, 2);
  }

  /** Every line of the response could be ingested. */
  predicate AllIngest(m: Message)
    requires m.StorageRead?
  {
    forall i :: 0 <= i < |m.lines| ==> Good(m.lines[i])
  }

  lemma {:induction false} AllIngestFound(m: Message)
    requires m.StorageRead? && AllIngest(m)
    ensures Found(m.lines) == Numbers(m.lines)
  {
    forall l | l in m.lines
      ensures Good(l)
    {
      var i :| 0 <= i < |m.lines| && m.lines[i] == l;
    }
  }

  /** An answer that covers the request and whose lines all ingest closes every requested counter,
      whatever happened between its correlation and its application. */
  lemma {:induction false} FullAnswerClosesAll(cfg: Config, s: State, now: int, m: Message, d: nat)
    requires Inv(cfg, s) && s.handler == Correlated(m)
    requires AllIngest(m) && Numbers(m.lines) + m.missing == m.seqs.value
    requires d in m.seqs.value
    ensures var t := ApplyStep(s, now);
            d in t.rows && t.rows[d].status == if InRaw(t.raw, d) then Recovered else NotFound
  {
    AllIngestFound(m);
    ApplySettles(cfg, s, now, m, d);
  }

  /** A counter that an accepted answer says nothing about stays inflight. */
  lemma {:induction false} UnansweredStaysInflight(cfg: Config, s: State, m: Message, now: int, d: nat)
    requires Inv(cfg, s) && s.handler == HandlerIdle && Accepts(s.rows, m) && WellFormed(m)
    requires d in m.seqs.value && d !in Found(m.lines) + m.missing
    ensures var t := ApplyStep(CorrelateStep(s, m), now);
            d in t.rows && t.rows[d].status == Inflight
  {
    assert d in WithStatus(s.rows, Inflight);
    CorrelateKeepsInv(cfg, s, m);
    ApplySettles(cfg, CorrelateStep(s, m), now, m, d);
  }

  /** Counts that lie together pass the check: two requested, one answered, and the other stays inflight. */
  lemma {:induction false} LyingCountsLeaveInflight(cfg: Config, s: State, m: Message, l: Line, now: int)
    requires Inv(cfg, s) && s.handler == HandlerIdle && WithStatus(s.rows, Inflight) == {1, 2}
    requires l == Line(Some(1), true, 0, true, true)
    requires m == StorageRead(Some({1, 2}), [l], {}, Some(2), Some(2))
    ensures WellFormed(m) && Tidy(m) && AllIngest(m) && Accepts(s.rows, m)
    ensures var t := ApplyStep(CorrelateStep(s, m), now);
            2 in t.rows && t.rows[2].status == Inflight
  {
    UnansweredStaysInflight(cfg, s, m, now, 2);
  }

  /** A line under another gateway's name is taken for the requested frame: the row is recovered and no
      frame of this gateway is in raw. */
  lemma {:induction false} ForeignLineRecovers(cfg: Config, s: State, m: Message, l: Line, now: int)
    requires Inv(cfg, s) && s.handler == HandlerIdle && WithStatus(s.rows, Inflight) == {1} && !InRaw(s.raw, 1)
    requires l == Line(Some(1), false, 0, true, true)
    requires m == StorageRead(Some({1}), [l], {}, None, None)
    ensures var t := ApplyStep(CorrelateStep(s, m), now);
            1 in t.rows && t.rows[1].status == Recovered && !InRaw(t.raw, 1)
  {
    assert 1 in WithStatus(s.rows, Inflight);
    assert l in m.lines;
    assert Found(m.lines) == {1};
    var raw := s.raw + Frames(m.lines);
    AppliedRow(s.rows, Found(m.lines) + Arrived(raw, m.missing), Gone(raw, m.missing), now, 1);
  }

  // ---- what an answer that is not well formed can break ----

  lemma {:induction false} GoodLine(raw: set<Frame>, lines: seq<Line>, d: nat) returns (l: Line)
    requires d in Found(lines)
    ensures l in lines && Good(l) && l.number.value == d
    ensures l.ownGateway ==> InRaw(raw + Frames(lines), d)
  {
    l :| l in lines && Good(l) && l.number.value == d;
    assert FrameOf(l) in Frames(lines);
  }

  /** Every line that closes a row as recovered puts its frame in raw: it carries the gateway's own name,
      or raw has the counter anyway. A counter that is also missing is given up instead. */
  ghost predicate LinesBacked(s: State, m: Message)
    requires IsRead(m)
  {
    forall l :: l in m.lines && Good(l) && l.number.value in s.rows ==>
      l.ownGateway || InRaw(s.raw + Frames(m.lines), l.number.value) || l.number.value in m.missing
  }

  /** Whatever the response, applying it keeps every recovered row backed by a frame in raw if and only
      if its lines are. */
  lemma {:induction false} ApplyKeepsBackedIff(s: State, now: int, m: Message)
    requires s.handler == Correlated(m) && IsRead(m) && Backed(s.rows, s.raw)
    ensures Backed(ApplyStep(s, now).rows, ApplyStep(s, now).raw) <==> LinesBacked(s, m)
  {
    var t := ApplyStep(s, now);
    var found, gone := Found(m.lines) + Arrived(t.raw, m.missing), Gone(t.raw, m.missing);
    if LinesBacked(s, m) {
      forall d | d in t.rows && t.rows[d].status == Recovered
        ensures InRaw(t.raw, d)
      {
        AppliedRow(s.rows, found, gone, now, d);
        if d in Found(m.lines) {
          var l := GoodLine(s.raw, m.lines, d);
        } else if d !in found {
          RawGrows(s.raw, Frames(m.lines), d);
        }
      }
    }
    if Backed(t.rows, t.raw) {
      forall l | l in m.lines && Good(l) && l.number.value in s.rows
        ensures l.ownGateway || InRaw(t.raw, l.number.value) || l.number.value in m.missing
      {
        assert l.number.value in Found(m.lines);
        AppliedRow(s.rows, found, gone, now, l.number.value);
      }
    }
  }

  /** Whatever the response, applying it moves no closed row if and only if it names no counter that was
      given up, other than as missing and still not in raw. */
  lemma {:induction false} ApplyKeepsClosedIff(s: State, now: int, m: Message)
    requires s.handler == Correlated(m) && IsRead(m) && Backed(s.rows, s.raw)
    ensures var t := ApplyStep(s, now);
            (forall d :: d in s.rows && Terminal(s.rows[d].status) ==> d in t.rows && t.rows[d].status == s.rows[d].status)
            <==>
            (forall d :: d in s.rows && s.rows[d].status == NotFound && d in Found(m.lines) + m.missing ==>
               d in m.missing && !InRaw(t.raw, d))
  {
    var t := ApplyStep(s, now);
    forall d | d in s.rows && Terminal(s.rows[d].status)
      ensures d in t.rows
      ensures t.rows[d].status == s.rows[d].status <==>
              (s.rows[d].status == NotFound && d in Found(m.lines) + m.missing ==> d in m.missing && !InRaw(t.raw, d))
    {
      AppliedRow(s.rows, Found(m.lines) + Arrived(t.raw, m.missing), Gone(t.raw, m.missing), now, d);
      if s.rows[d].status == Recovered {
        RawGrows(s.raw, Frames(m.lines), d);
      }
    }
  }

  /** Whatever the response, applying it keeps one lost event per row given up if and only if what it
      gives up are rows not given up before, and it recovers none that was. */
  lemma {:induction false} ApplyKeepsLostOnceIff(s: State, now: int, m: Message)
    requires s.handler == Correlated(m) && IsRead(m) && LostOnce(s.rows, s.lost)
    ensures var t := ApplyStep(s, now);
            LostOnce(t.rows, t.lost)
            <==>
            && (forall d :: d in Gone(t.raw, m.missing) ==> d in s.rows && s.rows[d].status != NotFound)
            && (forall d :: d in s.rows && s.rows[d].status == NotFound ==>
                  d !in Found(m.lines) && d !in Arrived(t.raw, m.missing))
  {
    var t := ApplyStep(s, now);
    var found, gone := Found(m.lines) + Arrived(t.raw, m.missing), Gone(t.raw, m.missing);
    forall d: nat
      ensures t.lost[d] == (if d in t.rows && t.rows[d].status == NotFound then 1 else 0)
         <==> && (d in gone ==> d in s.rows && s.rows[d].status != NotFound)
              && (d in s.rows && s.rows[d].status == NotFound ==> d !in found)
    {
      if d in s.rows {
        AppliedRow(s.rows, found, gone, now, d);
      }
    }
  }

  // ---- detection ----

  /** The counters a marking transaction may ask for: pending rows and new detections, not in raw. */
  ghost function Requestable(s: State, detected: seq<nat>): set<nat> {
    (set d | d in s.rows && s.rows[d].status == Pending && !InRaw(s.raw, d))
    + (set d | d in FirstDetected(detected) && d !in s.rows && !InRaw(s.raw, d))
  }

  lemma {:induction false} RefreshedPending(s: State, detected: seq<nat>, now: int)
    ensures WithStatus(Refreshed(s, detected, now), Pending) == Requestable(s, detected)
  {
    forall d
      ensures d in WithStatus(Refreshed(s, detected, now), Pending) <==> d in Requestable(s, detected)
    {
      RefreshedRow(s, detected, now, d);
    }
  }

  /** The first 5000 of the list. */
  lemma {:induction false} FirstDetectedAre(detected: seq<nat>, d: nat)
    ensures d in FirstDetected(detected) <==> exists k :: 0 <= k < 5000 && k < |detected| && detected[k] == d
  {
    var first := Limited(detected);
    if d in first {
      var k :| 0 <= k < |first| && first[k] == d;
      assert detected[k] == d;
    }
    if k :| 0 <= k < 5000 && k < |detected| && detected[k] == d {
      assert first[k] == d;
    }
  }

  /** No detected gap is lost to the early return. The transaction commits if and only if something can
      be requested, so always when it recorded a new row; it then asks for the n smallest counters, and
      each of the first 5000 detected that is not in raw has a row. Otherwise the table is untouched,
      and pending rows that are in raw by now stay pending. */
  lemma {:induction false} DetectionNotLost(s: State, detected: seq<nat>, n: nat, now: int)
    requires s.job == JobMarking && n >= 1
    ensures var t := MarkStep(s, detected, n, now);
            && (t.job.JobPublishing? <==> Requestable(s, detected) != {})
            && (t.job.JobPublishing? ==>
                  && t.job.picked == Smallest(Requestable(s, detected), n)
                  && WithStatus(t.rows, Inflight) >= t.job.picked
                  && forall d :: d in FirstDetected(detected) && !InRaw(s.raw, d) ==> d in t.rows)
            && (!t.job.JobPublishing? ==> t.rows == s.rows && t.job == JobIdle)
  {
    RefreshedPending(s, detected, now);
    var pending := WithStatus(Refreshed(s, detected, now), Pending);
    SmallestSize(pending, n);
    forall d | d in FirstDetected(detected) && !InRaw(s.raw, d)
      ensures d in Refreshed(s, detected, now)
    {
      RefreshedRow(s, detected, now, d);
    }
  }

  // ---- what gives a batch back ----

  /** The batch in flight is given back if and only if it is as old as the timeout; then its rows, and
      no others, are pending again. Younger, it stops the job and nothing changes. */
  lemma {:induction false} BatchGivenBackIff(cfg: Config, s: State, now: int, d: nat)
    requires Inv(cfg, s) && s.job == JobIdle && d in s.rows && s.rows[d].status == Inflight
    ensures var t := GuardStep(cfg, s, now);
            if now - s.rows[d].inflightAt.value < cfg.timeout then t == s
            else && t.job == JobMarking && WithStatus(t.rows, Inflight) == {}
                 && WithStatus(t.rows, Pending) == WithStatus(s.rows, Pending) + WithStatus(s.rows, Inflight)
                 && forall e :: e in s.rows && s.rows[e].status != Inflight ==> e in t.rows && t.rows[e] == s.rows[e]
  {
    assert d in WithStatus(s.rows, Inflight);
    var timed := set e | e in s.rows && s.rows[e].status == Inflight && s.rows[e].inflightAt.Some?;
    assert d in timed;
    assert forall e :: e in timed ==> s.rows[e].inflightAt == s.rows[d].inflightAt;
    ExpireCalms(s.rows);
    assert forall e :: e in s.rows ==> e in Expire(s.rows);
  }

  /** Whatever rows are in flight, the job goes on exactly when none is, when one with a time is as old as
      the timeout, or when none has a time and the timeout is at most a billion seconds. */
  lemma {:induction false} GuardProceedsIff(cfg: Config, s: State, now: int)
    requires s.job == JobIdle
    ensures GuardStep(cfg, s, now).job == JobMarking <==>
            || (forall d :: d in s.rows ==> s.rows[d].status != Inflight)
            || (exists d :: d in s.rows && s.rows[d].status == Inflight && s.rows[d].inflightAt.Some?
                            && now - s.rows[d].inflightAt.value >= cfg.timeout)
            || (cfg.timeout <= 1_000_000_000
                && forall d :: d in s.rows && s.rows[d].status == Inflight ==> s.rows[d].inflightAt.None?)
  {
    var timed := set d | d in s.rows && s.rows[d].status == Inflight && s.rows[d].inflightAt.Some?;
    forall d | d in s.rows
      ensures s.rows[d].status == Inflight <==> d in WithStatus(s.rows, Inflight)
      ensures s.rows[d].status == Inflight && s.rows[d].inflightAt.Some? <==> d in timed
    {
    }
    if timed == {} {
      assert forall d :: d in s.rows && s.rows[d].status == Inflight ==> s.rows[d].inflightAt.None?;
    } else {
      var e :| e in timed;
      assert s.rows[e].inflightAt.Some?;
    }
    if WithStatus(s.rows, Inflight) != {} {
      var e :| e in WithStatus(s.rows, Inflight);
      assert s.rows[e].status == Inflight;
    }
  }

  /** A published batch stops the job until the timeout, counted from its marking. */
  lemma {:induction false} PublishedBatchWaits(cfg: Config, s: State, detected: seq<nat>, n: nat, now: int, later: int)
    requires Inv(cfg, s) && s.job == JobMarking && Requestable(s, detected) != {} && 1 <= n <= cfg.maxBatch
    requires later - now < cfg.timeout
    ensures var published := PublishStep(MarkStep(s, detected, n, now), true);
            GuardStep(cfg, published, later) == published
  {
    var refreshed, picked := Refreshed(s, detected, now), Pick(s, detected, n, now);
    RefreshedPending(s, detected, now);
    SmallestNonempty(Requestable(s, detected), n);
    RefreshedKeeps(cfg, s, detected, now);
    NotTimedOut(cfg, PublishStep(MarkStep(s, detected, n, now), true), refreshed, picked, now, s.nextBatch, later);
  }

  lemma {:induction false} NotTimedOut(
    cfg: Config, s: State, refreshed: Rows, picked: set<nat>, now: int, batch: nat, later: int)
    requires s.job == JobIdle && s.rows == Mark(refreshed, picked, now, batch)
    requires WithStatus(refreshed, Inflight) == {}
    requires {} != picked <= WithStatus(refreshed, Pending) && later - now < cfg.timeout
    ensures GuardStep(cfg, s, later) == s
  {
    var d :| d in picked;
    assert d in WithStatus(s.rows, Inflight);
    var timed := set e | e in s.rows && s.rows[e].status == Inflight && s.rows[e].inflightAt.Some?;
    assert d in timed;
    forall e | e in timed
      ensures s.rows[e].inflightAt == Some(now)
    {
      assert e !in WithStatus(refreshed, Inflight);
    }
  }

  lemma {:induction false} UndoMark(rows: Rows, picked: set<nat>, now: int, batch: nat)
    requires Shapes(rows) && WithStatus(rows, Inflight) == {} && picked <= WithStatus(rows, Pending)
    ensures Unmark(Mark(rows, picked, now, batch), batch) == rows
    ensures Expire(Mark(rows, picked, now, batch)) == rows
  {
    forall d | d in rows
      ensures rows[d].batchId == None && rows[d].status != Inflight
    {
      assert d !in WithStatus(rows, Inflight);
    }
  }

  /** A publish that fails undoes exactly the marking: what the transaction recorded and resolved stays. */
  lemma {:induction false} FailedPublishUndoesMark(cfg: Config, s: State, detected: seq<nat>, n: nat, now: int)
    requires Inv(cfg, s) && s.job == JobMarking && Requestable(s, detected) != {} && n >= 1
    ensures var t := PublishStep(MarkStep(s, detected, n, now), false);
            t.rows == Refreshed(s, detected, now) && WithStatus(t.rows, Pending) == Requestable(s, detected)
  {
    DetectionNotLost(s, detected, n, now);
    RefreshedPending(s, detected, now);
    RefreshedKeeps(cfg, s, detected, now);
    UndoMark(Refreshed(s, detected, now), Pick(s, detected, n, now), now, s.nextBatch);
  }

  /** A batch that is published and never answered is asked for again: at its timeout the guard gives it
      back, and with nothing new in raw or detected the next marking picks the same counters. */
  lemma {:induction false} LostBatchAskedAgain(
    cfg: Config, s: State, detected: seq<nat>, n: nat, now: int, later: int, again: int)
    requires Inv(cfg, s) && s.job == JobMarking && Requestable(s, detected) != {} && 1 <= n <= cfg.maxBatch
    requires later - now >= cfg.timeout
    ensures var back := GuardStep(cfg, PublishStep(MarkStep(s, detected, n, now), true), later);
            back.job == JobMarking && Pick(back, [], n, again) == Pick(s, detected, n, now) != {}
  {
    BatchExpires(cfg, s, detected, n, now, later);
    RefreshedPending(s, detected, now);
    var back := GuardStep(cfg, PublishStep(MarkStep(s, detected, n, now), true), later);
    SameRequestable(back, Refreshed(s, detected, now), Requestable(s, detected));
    RefreshedPending(back, [], again);
    SmallestNonempty(Requestable(s, detected), n);
  }

  lemma {:induction false} BatchExpires(cfg: Config, s: State, detected: seq<nat>, n: nat, now: int, later: int)
    requires Inv(cfg, s) && s.job == JobMarking && Requestable(s, detected) != {} && 1 <= n <= cfg.maxBatch
    requires later - now >= cfg.timeout
    ensures var back := GuardStep(cfg, PublishStep(MarkStep(s, detected, n, now), true), later);
            back.rows == Refreshed(s, detected, now) && back.job == JobMarking && back.raw == s.raw
  {
    var refreshed, picked := Refreshed(s, detected, now), Pick(s, detected, n, now);
    RefreshedPending(s, detected, now);
    SmallestNonempty(Requestable(s, detected), n);
    RefreshedKeeps(cfg, s, detected, now);
    TimedOut(cfg, PublishStep(MarkStep(s, detected, n, now), true), refreshed, picked, now, s.nextBatch, later);
  }

  lemma {:induction false} TimedOut(
    cfg: Config, s: State, refreshed: Rows, picked: set<nat>, now: int, batch: nat, later: int)
    requires s.job == JobIdle && s.rows == Mark(refreshed, picked, now, batch)
    requires Shapes(refreshed) && WithStatus(refreshed, Inflight) == {}
    requires {} != picked <= WithStatus(refreshed, Pending) && later - now >= cfg.timeout
    ensures GuardStep(cfg, s, later) == s.(rows := refreshed, job := JobMarking)
  {
    UndoMark(refreshed, picked, now, batch);
    var d :| d in picked;
    var timed := set e | e in s.rows && s.rows[e].status == Inflight && s.rows[e].inflightAt.Some?;
    assert d in timed && s.rows[d].inflightAt == Some(now);
    assert d in WithStatus(s.rows, Inflight);
  }

  lemma {:induction false} SameRequestable(s: State, refreshed: Rows, requestable: set<nat>)
    requires s.rows == refreshed && WithStatus(refreshed, Pending) == requestable
    requires forall d :: d in requestable ==> !InRaw(s.raw, d)
    ensures Requestable(s, []) == requestable
  {
    assert FirstDetected([]) == {};
    forall d
      ensures d in Requestable(s, []) <==> d in requestable
    {
      assert d in requestable <==> d in WithStatus(refreshed, Pending);
    }
  }

  // ---- batch numbers ----

  /** A row's batch is the one it had, or the one a marking gives it, which has not been given before. */
  lemma {:induction false} BatchOrigin(cfg: Config, s: State, a: Action, d: nat)
    requires Inv(cfg, s) && Allowed(cfg, a)
    ensures var t := Step(cfg, s, a);
            && s.nextBatch <= t.nextBatch
            && (d in t.rows && t.rows[d].batchId.Some? ==>
                  || (d in s.rows && t.rows[d].batchId == s.rows[d].batchId)
                  || (a.MarkBatch? && t.rows[d].batchId == Some(s.nextBatch) && t.nextBatch == s.nextBatch + 1))
  {
    match a
    case Guard(now) => ExpireCalms(s.rows);
    case MarkBatch(detected, n, now) => RefreshedRow(s, detected, now, d);
    case PublishDone(delivered) =>
    case Apply(now) =>
      if s.handler != HandlerIdle {
        var m := s.handler.response;
        AppliedShapes(cfg, s, now, m);
        if d in s.rows {
          ApplySettles(cfg, s, now, m, d);
        }
      }
    case _ =>
  }

  ghost predicate BatchesGiven(s: State) {
    forall d :: d in s.rows && s.rows[d].batchId.Some? ==> s.rows[d].batchId.value < s.nextBatch
  }

  /** So over every run a marking gives its rows a batch number that no row carries. */
  lemma {:induction false} RunKeepsBatchesGiven(cfg: Config, s: State, actions: seq<Action>)
    requires Inv(cfg, s) && AllAllowed(cfg, actions) && BatchesGiven(s)
    ensures BatchesGiven(Run(cfg, s, actions))
    decreases |actions|
  {
    if actions == [] {
    } else {
      var t := Step(cfg, s, actions[0]);
      StepKeepsInv(cfg, s, actions[0]);
      forall d | d in t.rows && t.rows[d].batchId.Some?
        ensures t.rows[d].batchId.value < t.nextBatch
      {
        BatchOrigin(cfg, s, actions[0], d);
      }
      RunKeepsBatchesGiven(cfg, t, actions[1..]);
    }
  }
}
