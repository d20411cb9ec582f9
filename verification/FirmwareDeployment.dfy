/** OTA deployments: two transactions around a publish, and results from two independent sources.

    A step is one committed transaction, one publish, or one handled message; steps of any number of
    deployments and messages interleave freely. Message ids that are missing or not UUIDs are None. */
module FirmwareDeployment {
  import opened Wrappers

  datatype Status = Pending | CommandSent | Success | Failed | Timeout

  /** error_detail: the device's own text, or the fixed text of a failed publish. */
  datatype Detail = Reported(text: string) | MqttUnavailable

  datatype Row = Row(
    gwSerial: string, status: Status, requestId: Option<nat>, errorDetail: Option<Detail>,
    commandSentAt: Option<int>, ackedAt: Option<int>)

  /** Where deploy_firmware stands for a deployment. */
  datatype Phase = Created | Published(requestId: nat) | NotPublished | Returned

  datatype State = State(
    rows: map<nat, Row>, phases: map<nat, Phase>, nextRequestId: nat,
    successes: nat, failures: nat)

  const INITIAL := State(map[], map[], 0, 0, 0)

  datatype EventType = OtaStart | OtaOk | OtaFail | OtherEvent

  datatype Action =
    | Create(deployment: nat, gwSerial: string, releaseExists: bool)
    | Publish(deployment: nat, delivered: bool)
    | Record(deployment: nat, now: int)
    | Ack(id: Option<nat>, ok: bool, error: Option<Detail>, now: int)
    | Event(kind: EventType, detail: Option<nat>, now: int)

  predicate Open(status: Status) {
    status == Pending || status == CommandSent
  }

  predicate Terminal(status: Status) {
    status == Success || status == Failed
  }

  function Coalesce<T>(first: Option<T>, second: Option<T>): Option<T> {
    if first.Some? then first else second
  }

  predicate Correlates(r: Row, id: nat) {
    r.requestId == Some(id)
  }

  // ---- the steps ----

  function Close(r: Row, verdict: Status, error: Option<Detail>, now: int): Row {
    r.(status := verdict, errorDetail := Coalesce(error, r.errorDetail), ackedAt := Coalesce(r.ackedAt, Some(now)))
  }

  /** The rows a result for this request would close: WHERE request_id = id AND status IN (open). */
  function OpenFor(rows: map<nat, Row>, id: nat): set<nat> {
    set d | d in rows && Correlates(rows[d], id) && Open(rows[d].status)
  }

  function Hits(s: State, id: nat): set<nat> {
    OpenFor(s.rows, id)
  }

  function CloseAll(rows: map<nat, Row>, hits: set<nat>, verdict: Status, error: Option<Detail>, now: int): map<nat, Row> {
    map d | d in rows :: if d in hits then Close(rows[d], verdict, error, now) else rows[d]
  }

  /** _apply_ota_result: the guarded UPDATE, and the counter when a row came back. */
  function ApplyResult(s: State, id: nat, verdict: Status, error: Option<Detail>, now: int): State {
    var hits := Hits(s, id);
    if hits == {} then s
    else
      s.(rows := CloseAll(s.rows, hits, verdict, error, now),
         successes := s.successes + (if verdict == Success then 1 else 0),
         failures := s.failures + (if verdict == Failed then 1 else 0))
  }

  /** The result a message carries, if it carries one and names a request. */
  function Verdict(a: Action): Option<(nat, Status)> {
    match a
    case Ack(Some(id), ok, _, _) => Some((id, if ok then Success else Failed))
    case Event(OtaOk, Some(id), _) => Some((id, Success))
    case Event(OtaFail, Some(id), _) => Some((id, Failed))
    case _ => None
  }

  function Step(s: State, a: Action): State {
    match a
    case Create(d, gw, releaseExists) =>
      if !releaseExists || d in s.rows then s
      else s.(rows := s.rows[d := Row(gw, Pending, None, None, None, None)], phases := s.phases[d := Created])
    case Publish(d, delivered) =>
      if d !in s.phases || s.phases[d] != Created then s
      else if delivered then s.(phases := s.phases[d := Published(s.nextRequestId)], nextRequestId := s.nextRequestId + 1)
      else s.(phases := s.phases[d := NotPublished])
    case Record(d, now) =>
      if d !in s.phases || d !in s.rows then s
      else (
        match s.phases[d]
        case Published(id) =>
          s.(rows := s.rows[d := s.rows[d].(status := CommandSent, requestId := Some(id), commandSentAt := Some(now))],
             phases := s.phases[d := Returned])
        case NotPublished =>
          s.(rows := s.rows[d := s.rows[d].(errorDetail := Some(MqttUnavailable))],
             phases := s.phases[d := Returned])
        case _ => s
      )
    case Ack(_, ok, error, now) =>
      (match Verdict(a)
       case None => s
       case Some((id, verdict)) => ApplyResult(s, id, verdict, if ok then None else error, now))
    case Event(_, _, now) =>
      (match Verdict(a)
       case None => s
       case Some((id, verdict)) => ApplyResult(s, id, verdict, None, now))
  }

  function Run(s: State, actions: seq<Action>): State
    decreases |actions|
  {
    if actions == [] then s else Run(Step(s, actions[0]), actions[1..])
  }

  // ---- what every step keeps ----

  ghost predicate RowShape(r: Row, p: Phase) {
    match r.status
    case Pending => r.requestId == None && r.commandSentAt == None && r.ackedAt == None
    case CommandSent => r.requestId.Some? && r.commandSentAt.Some? && r.ackedAt == None && p == Returned
    case Timeout => false
    case _ => r.requestId.Some? && r.commandSentAt.Some? && r.ackedAt.Some? && p == Returned
  }

  /** The request a deployment is known by, from its publish on. */
  function RequestOf(s: State, d: nat): Option<nat>
    requires d in s.rows && d in s.phases
  {
    if s.phases[d].Published? then Some(s.phases[d].requestId) else s.rows[d].requestId
  }

  function WithStatus(rows: map<nat, Row>, status: Status): set<nat> {
    set d | d in rows && rows[d].status == status
  }

  ghost predicate Shapes(s: State) {
    s.rows.Keys == s.phases.Keys && forall d :: d in s.rows ==> RowShape(s.rows[d], s.phases[d])
  }

  ghost predicate RequestsDistinct(s: State)
    requires s.rows.Keys == s.phases.Keys
  {
    && (forall d :: d in s.rows && RequestOf(s, d).Some? ==> RequestOf(s, d).value < s.nextRequestId)
    && (forall d, e :: d in s.rows && e in s.rows && d != e && RequestOf(s, d).Some? ==> RequestOf(s, d) != RequestOf(s, e))
  }

  ghost predicate Counted(s: State) {
    s.successes == |WithStatus(s.rows, Success)| && s.failures == |WithStatus(s.rows, Failed)|
  }

  ghost predicate Inv(s: State) {
    Shapes(s) && RequestsDistinct(s) && Counted(s)
  }

  lemma {:induction false} OneHit(s: State, id: nat, d: nat)
    requires Inv(s) && d in Hits(s, id)
    ensures Hits(s, id) == {d} && s.rows[d].status == CommandSent && s.phases[d] == Returned
  {
    forall e | e in Hits(s, id)
      ensures e == d
    {
      assert RequestOf(s, d) == RequestOf(s, e);
    }
  }

  /** Nothing but deployment d moved. */
  ghost predicate OnlyMoves(s: State, t: State, d: nat) {
    && t.rows.Keys == t.phases.Keys == s.rows.Keys + {d}
    && (forall e :: e in s.rows && e != d ==> t.rows[e] == s.rows[e])
    && (forall e :: e in s.phases && e != d && e in t.phases ==> t.phases[e] == s.phases[e])
    && s.nextRequestId <= t.nextRequestId
  }

  lemma {:induction false} OthersStay(s: State, t: State, d: nat, e: nat)
    requires OnlyMoves(s, t, d) && Shapes(s) && e in t.rows && e != d
    ensures e in s.rows && e in s.phases && e in t.phases && t.rows[e] == s.rows[e] && t.phases[e] == s.phases[e]
  {
    assert e in t.rows.Keys;
  }

  lemma {:induction false} MoveKeepsShapes(s: State, t: State, d: nat)
    requires Shapes(s) && OnlyMoves(s, t, d)
    requires RowShape(t.rows[d], t.phases[d])
    ensures Shapes(t)
  {
    forall e | e in t.rows
      ensures RowShape(t.rows[e], t.phases[e])
    {
      if e != d {
        OthersStay(s, t, d, e);
      }
    }
  }

  lemma {:induction false} MoveKeepsRequests(s: State, t: State, d: nat)
    requires Shapes(s) && RequestsDistinct(s) && OnlyMoves(s, t, d)
    requires RowShape(t.rows[d], t.phases[d])
    requires || RequestOf(t, d) == None
             || (d in s.rows && RequestOf(t, d) == RequestOf(s, d))
             || (RequestOf(t, d) == Some(s.nextRequestId) && s.nextRequestId < t.nextRequestId)
    ensures Shapes(t) && RequestsDistinct(t)
  {
    MoveKeepsShapes(s, t, d);
    forall e | e in t.rows && e != d
      ensures e in s.rows && RequestOf(t, e) == RequestOf(s, e)
    {
      OthersStay(s, t, d, e);
    }
  }

  lemma {:induction false} MoveKeepsCounts(s: State, t: State, d: nat)
    requires Shapes(s) && Counted(s) && OnlyMoves(s, t, d)
    requires d in s.rows ==> !Terminal(s.rows[d].status)
    requires t.successes == s.successes + if t.rows[d].status == Success then 1 else 0
    requires t.failures == s.failures + if t.rows[d].status == Failed then 1 else 0
    ensures Counted(t)
  {
    Recount(s.rows, t.rows, d);
  }

  /** The guarded UPDATE closes the one row that carries the request, if it is still open. */
  lemma {:induction false} ApplyClosesOne(s: State, id: nat, verdict: Status, error: Option<Detail>, now: int)
    requires Inv(s)
    ensures var t := ApplyResult(s, id, verdict, error, now);
            if Hits(s, id) == {} then t == s
            else exists d :: d in Hits(s, id) && t.rows == s.rows[d := Close(s.rows[d], verdict, error, now)] && t.phases == s.phases
  {
    if Hits(s, id) != {} {
      var d :| d in Hits(s, id);
      OneHit(s, id, d);
      assert ApplyResult(s, id, verdict, error, now).rows == s.rows[d := Close(s.rows[d], verdict, error, now)];
    }
  }

  lemma {:induction false} ClosingMovesOne(s: State, t: State, d: nat, verdict: Status, error: Option<Detail>, now: int)
    requires Shapes(s) && d in s.rows && s.rows[d].status == CommandSent && Terminal(verdict)
    requires t.rows == s.rows[d := Close(s.rows[d], verdict, error, now)]
    requires t.phases == s.phases && t.nextRequestId == s.nextRequestId
    ensures OnlyMoves(s, t, d) && RowShape(t.rows[d], t.phases[d]) && RequestOf(t, d) == RequestOf(s, d)
  {
    assert t.rows.Keys == s.rows.Keys + {d};
    assert t.rows[d] == Close(s.rows[d], verdict, error, now);
    assert d in s.phases.Keys;
    assert RowShape(s.rows[d], s.phases[d]);
  }

  lemma {:induction false} ClosingKeepsInv(s: State, t: State, d: nat, verdict: Status, error: Option<Detail>, now: int)
    requires Inv(s) && d in s.rows && s.rows[d].status == CommandSent && Terminal(verdict)
    requires t.rows == s.rows[d := Close(s.rows[d], verdict, error, now)]
    requires t.phases == s.phases && t.nextRequestId == s.nextRequestId
    requires t.successes == s.successes + if verdict == Success then 1 else 0
    requires t.failures == s.failures + if verdict == Failed then 1 else 0
    ensures Inv(t)
  {
    ClosingMovesOne(s, t, d, verdict, error, now);
    MoveKeepsRequests(s, t, d);
    MoveKeepsCounts(s, t, d);
  }

  lemma {:induction false} ApplyKeepsInv(s: State, id: nat, verdict: Status, error: Option<Detail>, now: int)
    requires Inv(s) && Terminal(verdict)
    ensures Inv(ApplyResult(s, id, verdict, error, now))
  {
    var t := ApplyResult(s, id, verdict, error, now);
    ApplyClosesOne(s, id, verdict, error, now);
    if Hits(s, id) != {} {
      var d :| d in Hits(s, id) && t.rows == s.rows[d := Close(s.rows[d], verdict, error, now)] && t.phases == s.phases;
      OneHit(s, id, d);
      ClosingKeepsInv(s, t, d, verdict, error, now);
    }
  }

  /** How the counts move when one row changes. */
  lemma {:induction false} Recount(rows: map<nat, Row>, after: map<nat, Row>, d: nat)
    requires d in after && after.Keys == rows.Keys + {d}
    requires forall e :: e in rows && e != d ==> after[e] == rows[e]
    requires d in rows ==> !Terminal(rows[d].status)
    ensures |WithStatus(after, Success)| == |WithStatus(rows, Success)| + if after[d].status == Success then 1 else 0
    ensures |WithStatus(after, Failed)| == |WithStatus(rows, Failed)| + if after[d].status == Failed then 1 else 0
  {
    RecountOne(rows, after, d, Success);
    RecountOne(rows, after, d, Failed);
  }

  lemma {:induction false} RecountOne(rows: map<nat, Row>, after: map<nat, Row>, d: nat, status: Status)
    requires d in after && after.Keys == rows.Keys + {d}
    requires forall e :: e in rows && e != d ==> after[e] == rows[e]
    requires d in rows ==> rows[d].status != status
    ensures |WithStatus(after, status)| == |WithStatus(rows, status)| + if after[d].status == status then 1 else 0
  {
    forall e | e != d
      ensures e in WithStatus(after, status) <==> e in WithStatus(rows, status)
    {
      assert e in after.Keys <==> e in rows.Keys;
    }
    OneMore(WithStatus(rows, status), WithStatus(after, status), d);
  }

  lemma {:induction false} OneMore(before: set<nat>, after: set<nat>, d: nat)
    requires d !in before
    requires forall e :: e != d ==> (e in after <==> e in before)
    ensures |after| == |before| + if d in after then 1 else 0
  {
    if d in after {
      assert after == before + {d};
    } else {
      assert after == before;
    }
  }

  lemma {:induction false} CreateKeepsInv(s: State, d: nat, gw: string)
    requires Inv(s) && d !in s.rows
    ensures Inv(Step(s, Create(d, gw, true)))
  {
    var t := Step(s, Create(d, gw, true));
    assert OnlyMoves(s, t, d);
    MoveKeepsRequests(s, t, d);
    MoveKeepsCounts(s, t, d);
  }

  lemma {:induction false} PublishKeepsInv(s: State, d: nat, delivered: bool)
    requires Inv(s)
    ensures Inv(Step(s, Publish(d, delivered)))
  {
    var t := Step(s, Publish(d, delivered));
    if t != s {
      assert d in s.rows.Keys;
      assert OnlyMoves(s, t, d);
      MoveKeepsRequests(s, t, d);
    }
  }

  lemma {:induction false} RecordMovesOne(s: State, d: nat, now: int)
    requires Shapes(s) && Step(s, Record(d, now)) != s
    ensures OnlyMoves(s, Step(s, Record(d, now)), d)
    ensures RequestOf(Step(s, Record(d, now)), d) == RequestOf(s, d)
  {
    var t := Step(s, Record(d, now));
    assert t.rows.Keys == s.rows.Keys + {d};
    assert t.phases.Keys == s.phases.Keys + {d};
  }

  lemma {:induction false} RecordKeepsInv(s: State, d: nat, now: int)
    requires Inv(s)
    ensures Inv(Step(s, Record(d, now)))
  {
    var t := Step(s, Record(d, now));
    if t != s {
      RecordMovesOne(s, d, now);
      MoveKeepsRequests(s, t, d);
      MoveKeepsCounts(s, t, d);
    }
  }

  lemma {:induction false} StepKeepsInv(s: State, a: Action)
    requires Inv(s)
    ensures Inv(Step(s, a))
  {
    match a
    case Create(d, gw, releaseExists) =>
      if releaseExists && d !in s.rows {
        CreateKeepsInv(s, d, gw);
      }
    case Publish(d, delivered) => PublishKeepsInv(s, d, delivered);
    case Record(d, now) => RecordKeepsInv(s, d, now);
    case Ack(_, ok, error, now) =>
      if Verdict(a).Some? {
        ApplyKeepsInv(s, Verdict(a).value.0, Verdict(a).value.1, if ok then None else error, now);
      }
    case Event(_, _, now) =>
      if Verdict(a).Some? {
        ApplyKeepsInv(s, Verdict(a).value.0, Verdict(a).value.1, None, now);
      }
  }

  /** Over every interleaving, loss, duplication and reordering: rows keep the shape of their
      status, requests are never shared, and the counters equal the numbers of closed rows. */
  lemma {:induction false} RunKeepsInv(s: State, actions: seq<Action>)
    requires Inv(s)
    ensures Inv(Run(s, actions))
    decreases |actions|
  {
    if actions == [] {
    } else {
      StepKeepsInv(s, actions[0]);
      RunKeepsInv(Step(s, actions[0]), actions[1..]);
    }
  }

  // ---- a row only moves forward ----

  function Rank(status: Status): nat {
    match status
    case Pending => 0
    case CommandSent => 1
    case _ => 2
  }

  /** One stage on at most, a closed row as it was, and a recorded request kept. */
  predicate Forward(before: Row, after: Row) {
    && Rank(before.status) <= Rank(after.status) <= Rank(before.status) + 1
    && (Terminal(before.status) ==> after == before)
    && (before.requestId.Some? ==> after.requestId == before.requestId)
  }

  /** One step never takes a row back, and never touches a closed one. */
  lemma {:induction false} StepForward(s: State, a: Action, d: nat)
    requires Inv(s) && d in s.rows
    ensures d in Step(s, a).rows && Forward(s.rows[d], Step(s, a).rows[d])
  {
    if Verdict(a).Some? {
      var (id, verdict) := Verdict(a).value;
      if d in Hits(s, id) {
        OneHit(s, id, d);
      }
      match a
      case Ack(_, ok, error, now) => ApplyCloses(s, id, verdict, if ok then None else error, now, d);
      case Event(_, _, now) => ApplyCloses(s, id, verdict, None, now, d);
    } else {
      JobForward(s, a, d);
    }
  }

  lemma {:induction false} JobForward(s: State, a: Action, d: nat)
    requires Shapes(s) && d in s.rows && Verdict(a) == None
    ensures d in Step(s, a).rows && Forward(s.rows[d], Step(s, a).rows[d])
  {
    assert d in s.phases.Keys && RowShape(s.rows[d], s.phases[d]);
  }

  /** So over every run a row only moves pending -> command_sent -> success | failed, keeps its request,
      and does not change once it is closed. */
  lemma {:induction false} RunForward(s: State, actions: seq<Action>, d: nat)
    requires Inv(s) && d in s.rows
    ensures d in Run(s, actions).rows
    ensures Terminal(s.rows[d].status) ==> Run(s, actions).rows[d] == s.rows[d]
    ensures Rank(s.rows[d].status) <= Rank(Run(s, actions).rows[d].status)
    ensures s.rows[d].requestId.Some? ==> Run(s, actions).rows[d].requestId == s.rows[d].requestId
    decreases |actions|
  {
    if actions == [] {
    } else {
      StepKeepsInv(s, actions[0]);
      StepForward(s, actions[0], d);
      RunForward(Step(s, actions[0]), actions[1..], d);
    }
  }

  /** A deployment whose publish failed stays pending for ever: it has no request a result could name. */
  lemma {:induction false} FailedPublishStaysPending(s: State, actions: seq<Action>, d: nat)
    requires Inv(s) && d in s.rows && s.rows[d].status == Pending && s.phases[d] == Returned
    ensures d in Run(s, actions).rows && Run(s, actions).rows[d] == s.rows[d]
    decreases |actions|
  {
    if actions == [] {
    } else {
      StepKeepsInv(s, actions[0]);
      StepLeavesFailedPublish(s, actions[0], d);
      FailedPublishStaysPending(Step(s, actions[0]), actions[1..], d);
    }
  }

  lemma {:induction false} StepLeavesFailedPublish(s: State, a: Action, d: nat)
    requires Inv(s) && d in s.rows && s.rows[d].status == Pending && s.phases[d] == Returned
    ensures var t := Step(s, a);
            d in t.rows && d in t.phases && t.rows[d] == s.rows[d] && t.phases[d] == Returned
  {
    if Verdict(a).Some? {
      assert d !in Hits(s, Verdict(a).value.0);
    }
  }

  // ---- what a closed row says ----

  predicate CleanDetail(r: Row, p: Phase) {
    r.errorDetail.Some? ==> r.status == Failed || (r.status == Pending && p == Returned)
  }

  /** Only a failed publish or a failed result leaves an error text. */
  ghost predicate CleanDetails(s: State) {
    forall d :: d in s.rows && d in s.phases ==> CleanDetail(s.rows[d], s.phases[d])
  }

  lemma {:induction false} ResultKeepsDetail(s: State, id: nat, verdict: Status, error: Option<Detail>, now: int, d: nat)
    requires Inv(s) && CleanDetails(s) && d in s.rows && Terminal(verdict) && (verdict == Success ==> error == None)
    ensures var t := ApplyResult(s, id, verdict, error, now);
            d in t.rows && d in t.phases && CleanDetail(t.rows[d], t.phases[d])
  {
    assert d in s.phases.Keys;
    ApplyCloses(s, id, verdict, error, now, d);
    if d in Hits(s, id) {
      OneHit(s, id, d);
      assert s.rows[d].errorDetail == None;
    }
  }

  lemma {:induction false} JobKeepsDetail(s: State, a: Action, d: nat)
    requires Shapes(s) && CleanDetails(s) && d in Step(s, a).rows && Verdict(a) == None
    ensures d in Step(s, a).phases && CleanDetail(Step(s, a).rows[d], Step(s, a).phases[d])
  {
    if d in s.rows {
      assert d in s.phases.Keys && RowShape(s.rows[d], s.phases[d]);
    }
  }

  lemma {:induction false} StepKeepsDetail(s: State, a: Action, d: nat)
    requires Inv(s) && CleanDetails(s) && d in Step(s, a).rows
    ensures d in Step(s, a).phases && CleanDetail(Step(s, a).rows[d], Step(s, a).phases[d])
  {
    if Verdict(a).None? {
      JobKeepsDetail(s, a, d);
    } else {
      var (id, verdict) := Verdict(a).value;
      match a
      case Ack(_, ok, error, now) => ResultKeepsDetail(s, id, verdict, if ok then None else error, now, d);
      case Event(_, _, now) => ResultKeepsDetail(s, id, verdict, None, now, d);
    }
  }

  /** In every reachable state an error text belongs to a failed publish or a failed result: a result
      that arrived clean did not inherit one. */
  lemma {:induction false} RunKeepsDetails(s: State, actions: seq<Action>)
    requires Inv(s) && CleanDetails(s)
    ensures CleanDetails(Run(s, actions))
    decreases |actions|
  {
    if actions == [] {
    } else {
      StepKeepsInv(s, actions[0]);
      forall d | d in Step(s, actions[0]).rows
        ensures d in Step(s, actions[0]).phases && CleanDetail(Step(s, actions[0]).rows[d], Step(s, actions[0]).phases[d])
      {
        StepKeepsDetail(s, actions[0], d);
      }
      RunKeepsDetails(Step(s, actions[0]), actions[1..]);
    }
  }

  /** An ack with ok set, or an ota_ok event, for this request. */
  predicate SaysOk(a: Action, id: nat) {
    || (a.Ack? && a.id == Some(id) && a.ok)
    || (a.Event? && a.kind == OtaOk && a.detail == Some(id))
  }

  /** An ack without ok, or an ota_fail event, for this request. */
  predicate SaysFailed(a: Action, id: nat) {
    || (a.Ack? && a.id == Some(id) && !a.ok)
    || (a.Event? && a.kind == OtaFail && a.detail == Some(id))
  }

  lemma {:induction false} VerdictSays(a: Action, id: nat)
    ensures Verdict(a) == Some((id, Success)) <==> SaysOk(a, id)
    ensures Verdict(a) == Some((id, Failed)) <==> SaysFailed(a, id)
    ensures Verdict(a).Some? ==> Terminal(Verdict(a).value.1)
  {
  }

  /** d has been sent its request and waits for the result. */
  predicate Waits(s: State, d: nat) {
    d in s.rows && s.rows[d].status == CommandSent && s.rows[d].requestId.Some?
  }

  /** What the first message says that names the deployment's request while it waits for the result. */
  ghost function FirstReport(s: State, actions: seq<Action>, d: nat): Option<bool>
    decreases |actions|
  {
    if actions == [] then None
    else if Waits(s, d) && SaysOk(actions[0], s.rows[d].requestId.value) then Some(true)
    else if Waits(s, d) && SaysFailed(actions[0], s.rows[d].requestId.value) then Some(false)
    else FirstReport(Step(s, actions[0]), actions[1..], d)
  }

  lemma {:induction false} ClosedStays(s: State, actions: seq<Action>, d: nat)
    requires Inv(s) && d in s.rows && Terminal(s.rows[d].status)
    ensures d in Run(s, actions).rows && Run(s, actions).rows[d] == s.rows[d]
    decreases |actions|
  {
    if actions == [] {
    } else {
      StepKeepsInv(s, actions[0]);
      StepForward(s, actions[0], d);
      ClosedStays(Step(s, actions[0]), actions[1..], d);
    }
  }

  lemma {:induction false} ApplyCloses(s: State, id: nat, verdict: Status, error: Option<Detail>, now: int, d: nat)
    requires Inv(s) && d in s.rows
    ensures var t := ApplyResult(s, id, verdict, error, now);
            d in t.rows
            && t.rows[d] == if d in Hits(s, id) then Close(s.rows[d], verdict, error, now) else s.rows[d]
  {
    ApplyClosesOne(s, id, verdict, error, now);
    if d in Hits(s, id) {
      OneHit(s, id, d);
    }
  }

  lemma {:induction false} NotWaitingNotHit(s: State, id: nat, d: nat)
    requires Inv(s) && d in s.rows
    ensures d in Hits(s, id) <==> Waits(s, d) && s.rows[d].requestId == Some(id)
  {
    if d in Hits(s, id) {
      OneHit(s, id, d);
    }
  }

  lemma {:induction false} ResultStep(s: State, a: Action, d: nat)
    requires Inv(s) && d in s.rows && Verdict(a).Some?
    ensures d in Step(s, a).rows
    ensures Step(s, a).rows[d].status
         == if Waits(s, d) && s.rows[d].requestId == Some(Verdict(a).value.0) then Verdict(a).value.1 else s.rows[d].status
  {
    var (id, verdict) := Verdict(a).value;
    NotWaitingNotHit(s, id, d);
    match a
    case Ack(_, ok, error, now) => ApplyCloses(s, id, verdict, if ok then None else error, now, d);
    case Event(_, _, now) => ApplyCloses(s, id, verdict, None, now, d);
  }

  /** An open row is closed by a step exactly when the step reports on its request: as a success if it
      says so, as a failure if it says so. */
  lemma {:induction false} StepCloses(s: State, a: Action, d: nat)
    requires Inv(s)
    requires d in s.rows ==> !Terminal(s.rows[d].status)
    ensures var t := Step(s, a);
            if Waits(s, d) && SaysOk(a, s.rows[d].requestId.value) then d in t.rows && t.rows[d].status == Success
            else if Waits(s, d) && SaysFailed(a, s.rows[d].requestId.value) then d in t.rows && t.rows[d].status == Failed
            else d in t.rows ==> !Terminal(t.rows[d].status)
  {
    if Waits(s, d) {
      VerdictSays(a, s.rows[d].requestId.value);
    }
    if Verdict(a).Some? {
      VerdictSays(a, Verdict(a).value.0);
      if d in s.rows {
        ResultStep(s, a, d);
      } else {
        ResultAddsNoRow(s, a, d);
      }
    }
  }

  lemma {:induction false} ResultAddsNoRow(s: State, a: Action, d: nat)
    requires Inv(s) && Verdict(a).Some?
    ensures d in Step(s, a).rows <==> d in s.rows
  {
  }

  /** A deployment ends as a success exactly when the first message that reported on its request said ok,
      as a failure exactly when it said failed, and stays open exactly when there was none. */
  lemma {:induction false} FirstResultDecides(s: State, actions: seq<Action>, d: nat)
    requires Inv(s)
    requires d in s.rows ==> !Terminal(s.rows[d].status)
    ensures var t := Run(s, actions);
            && (FirstReport(s, actions, d) == Some(true) <==> d in t.rows && t.rows[d].status == Success)
            && (FirstReport(s, actions, d) == Some(false) <==> d in t.rows && t.rows[d].status == Failed)
    decreases |actions|
  {
    if actions == [] {
    } else {
      var next := Step(s, actions[0]);
      StepKeepsInv(s, actions[0]);
      StepCloses(s, actions[0], d);
      if d in next.rows && Terminal(next.rows[d].status) {
        ClosedStays(next, actions[1..], d);
      } else {
        FirstResultDecides(next, actions[1..], d);
      }
    }
  }

  lemma {:induction false} EventsAreAcks(s: State, id: nat, error: Option<Detail>, now: int)
    ensures Step(s, Event(OtaOk, Some(id), now)) == Step(s, Ack(Some(id), true, error, now))
    ensures Step(s, Event(OtaFail, Some(id), now)) == Step(s, Ack(Some(id), false, None, now))
  {
  }

  lemma {:induction false} WaitingShape(s: State, d: nat)
    requires Inv(s) && Waits(s, d)
    ensures s.rows[d].ackedAt == None
  {
    assert d in s.phases.Keys && RowShape(s.rows[d], s.phases[d]);
  }

  /** What a result writes: the status it says, the time, and the device's error text if it failed with
      one. Nothing else of the row changes, and one counter rises; ota_ok and ota_fail do as the acks. */
  lemma {:induction false} ResultWrites(s: State, d: nat, id: nat, ok: bool, error: Option<Detail>, now: int)
    requires Inv(s) && Waits(s, d) && s.rows[d].requestId == Some(id)
    ensures var t := Step(s, Ack(Some(id), ok, error, now));
            d in t.rows
            && t.rows[d] == Row(s.rows[d].gwSerial, if ok then Success else Failed, Some(id),
                                if !ok && error.Some? then error else s.rows[d].errorDetail,
                                s.rows[d].commandSentAt, Some(now))
            && t.successes == s.successes + (if ok then 1 else 0) && t.failures == s.failures + (if ok then 0 else 1)
    ensures Step(s, Event(OtaOk, Some(id), now)) == Step(s, Ack(Some(id), true, error, now))
    ensures Step(s, Event(OtaFail, Some(id), now)) == Step(s, Ack(Some(id), false, None, now))
  {
    EventsAreAcks(s, id, error, now);
    WaitingShape(s, d);
    ClosedRow(s, d, id, if ok then Success else Failed, if ok then None else error, now);
    assert Step(s, Ack(Some(id), ok, error, now))
        == ApplyResult(s, id, if ok then Success else Failed, if ok then None else error, now);
  }

  lemma {:induction false} ClosedRow(s: State, d: nat, id: nat, verdict: Status, error: Option<Detail>, now: int)
    requires Inv(s) && Waits(s, d) && s.rows[d].requestId == Some(id)
    ensures var t := ApplyResult(s, id, verdict, error, now);
            d in t.rows && t.rows[d] == Close(s.rows[d], verdict, error, now)
            && t.successes == s.successes + (if verdict == Success then 1 else 0)
            && t.failures == s.failures + (if verdict == Failed then 1 else 0)
  {
    NotWaitingNotHit(s, id, d);
    ApplyCloses(s, id, verdict, error, now, d);
  }

  /** A start, any other event and a message without a usable id change nothing. */
  lemma {:induction false} OtherMessagesIgnored(s: State, kind: EventType, detail: Option<nat>, ok: bool, error: Option<Detail>, now: int)
    ensures Step(s, Event(OtaStart, detail, now)) == s && Step(s, Event(OtherEvent, detail, now)) == s
    ensures Step(s, Event(kind, None, now)) == s && Step(s, Ack(None, ok, error, now)) == s
  {
  }

  /** What deploying writes: a pending row, then the request it was published under and the time, or the
      text of the failed publish. */
  lemma {:induction false} DeployWrites(s: State, d: nat, gw: string, now: int)
    requires Inv(s)
    ensures d !in s.rows ==> Step(s, Create(d, gw, false)) == s
    ensures d !in s.rows ==> Step(s, Create(d, gw, true)).rows == s.rows[d := Row(gw, Pending, None, None, None, None)]
    ensures d in s.rows && s.phases[d] == Created ==>
              Step(s, Publish(d, true)) == s.(phases := s.phases[d := Published(s.nextRequestId)], nextRequestId := s.nextRequestId + 1)
    ensures d in s.rows && s.phases[d].Published? ==>
              Step(s, Record(d, now)).rows[d]
              == Row(s.rows[d].gwSerial, CommandSent, Some(s.phases[d].requestId), s.rows[d].errorDetail, Some(now), s.rows[d].ackedAt)
    ensures d in s.rows && s.phases[d].NotPublished? ==>
              Step(s, Record(d, now)).rows[d] == s.rows[d].(errorDetail := Some(MqttUnavailable))
  {
  }

  /** A result that arrives between the publish and the second transaction finds no row and is lost,
      whatever it says. */
  lemma {:induction false} EarlyResultLost(s: State, d: nat, a: Action)
    requires Inv(s) && d in s.phases && s.phases[d].Published?
    requires (a.Ack? && a.id == Some(s.phases[d].requestId)) || (a.Event? && a.detail == Some(s.phases[d].requestId))
    ensures Step(s, a) == s
  {
    var id := s.phases[d].requestId;
    forall e | e in s.rows
      ensures !Correlates(s.rows[e], id)
    {
      assert RequestOf(s, d) == Some(id);
      assert RequestOf(s, e).Some? && e != d ==> RequestOf(s, e) != RequestOf(s, d);
    }
    assert Hits(s, id) == {};
  }

  // ---- the service ----

  class FirmwareDeployments {
    var rows: map<nat, Row>
    var phases: map<nat, Phase>
    var nextRequestId: nat
    var successes: nat
    var failures: nat

    ghost function Abs(): State
      reads this
    {
      State(rows, phases, nextRequestId, successes, failures)
    }

    constructor ()
      ensures Abs() == INITIAL && Inv(Abs())
    {
      rows, phases, nextRequestId, successes, failures := map[], map[], 0, 0, 0;
    }

    /** deploy_firmware, first transaction. */
    method CreateDeployment(deployment: nat, gwSerial: string, releaseExists: bool) returns (found: bool)
      requires Inv(Abs()) && deployment !in rows
      modifies this
      ensures Inv(Abs()) && Abs() == Step(old(Abs()), Create(deployment, gwSerial, releaseExists))
      ensures found == releaseExists
    {
      StepKeepsInv(Abs(), Create(deployment, gwSerial, releaseExists));
      if !releaseExists {
        return false;
      }
      rows := rows[deployment := Row(gwSerial, Pending, None, None, None, None)];
      phases := phases[deployment := Created];
      return true;
    }

    /** send_command. The broker may refuse. */
    method SendCommand(deployment: nat, delivered: bool)
      requires Inv(Abs()) && deployment in phases && phases[deployment] == Created
      modifies this
      ensures Inv(Abs()) && Abs() == Step(old(Abs()), Publish(deployment, delivered))
    {
      ghost var after := Step(Abs(), Publish(deployment, delivered));
      StepKeepsInv(Abs(), Publish(deployment, delivered));
      if delivered {
        phases := phases[deployment := Published(nextRequestId)];
        nextRequestId := nextRequestId + 1;
      } else {
        phases := phases[deployment := NotPublished];
      }
      assert Abs() == after;
    }

    /** deploy_firmware, second transaction; false stands for MqttUnavailable. */
    method RecordPublish(deployment: nat, now: int) returns (ok: bool)
      requires Inv(Abs()) && deployment in phases
      requires phases[deployment].Published? || phases[deployment].NotPublished?
      modifies this
      ensures Inv(Abs()) && Abs() == Step(old(Abs()), Record(deployment, now))
      ensures ok <==> rows[deployment].status == CommandSent
      ensures !ok ==> rows[deployment].status == Pending && rows[deployment].errorDetail.Some?
    {
      StepKeepsInv(Abs(), Record(deployment, now));
      var row := rows[deployment];
      if phases[deployment].NotPublished? {
        row := row.(errorDetail := Some(MqttUnavailable));
        ok := false;
      } else {
        row := row.(status := CommandSent, requestId := Some(phases[deployment].requestId), commandSentAt := Some(now));
        ok := true;
      }
      rows := rows[deployment := row];
      phases := phases[deployment := Returned];
    }

    /** _apply_ota_result */
    method ApplyOtaResult(id: nat, verdict: Status, error: Option<Detail>, now: int) returns (applied: bool)
      requires Inv(Abs()) && Terminal(verdict)
      modifies this
      ensures Inv(Abs()) && Abs() == ApplyResult(old(Abs()), id, verdict, error, now)
      ensures applied <==> Hits(old(Abs()), id) != {}
    {
      ApplyKeepsInv(Abs(), id, verdict, error, now);
      ghost var after := ApplyResult(Abs(), id, verdict, error, now);
      var hits := OpenFor(rows, id);
      applied := hits != {};
      if applied {
        rows := CloseAll(rows, hits, verdict, error, now);
        if verdict == Success {
          successes := successes + 1;
        } else {
          failures := failures + 1;
        }
      }
      assert Abs() == after;
    }

    /** handle_ota_ack */
    method HandleOtaAck(id: Option<nat>, ok: bool, error: Option<Detail>, now: int)
      requires Inv(Abs())
      modifies this
      ensures Inv(Abs()) && Abs() == Step(old(Abs()), Ack(id, ok, error, now))
    {
      if id.None? {
        return;
      }
      var verdict := if ok then Success else Failed;
      var detail := if ok then None else error;
      assert Step(Abs(), Ack(id, ok, error, now)) == ApplyResult(Abs(), id.value, verdict, detail, now);
      var _ := ApplyOtaResult(id.value, verdict, detail, now);
    }

    /** handle_ota_event */
    method HandleOtaEvent(kind: EventType, detail: Option<nat>, now: int)
      requires Inv(Abs())
      modifies this
      ensures Inv(Abs()) && Abs() == Step(old(Abs()), Event(kind, detail, now))
    {
      if kind == OtaStart || (kind != OtaOk && kind != OtaFail) || detail.None? {
        return;
      }
      var verdict := if kind == OtaOk then Success else Failed;
      assert Step(Abs(), Event(kind, detail, now)) == ApplyResult(Abs(), detail.value, verdict, None, now);
      var _ := ApplyOtaResult(detail.value, verdict, None, now);
    }
  }
}
