/** The job and the response handler as they run: statement by statement on the table, against the
    steps of the transition system. */
module RecoveryService {
  import opened Wrappers
  import opened RecoveryTable
  import opened GapRecovery

  lemma {:induction false} MarkOneMore(rows: Rows, done: set<nat>, d: nat, now: int, batch: nat)
    requires d in rows
    ensures Mark(rows, done, now, batch)[d := Mark(rows, {d}, now, batch)[d]] == Mark(rows, done + {d}, now, batch)
  {
  }

  lemma {:induction false} RecoverMore(rows: Rows, found: set<nat>, more: set<nat>, now: int)
    ensures SetRecovered(SetRecovered(rows, found, now), more, now) == SetRecovered(rows, found + more, now)
  {
  }

  /** The rows after the missing counters in `done` have been looked up. */
  function LookedUp(rows: Rows, raw: set<Frame>, done: set<nat>, now: int): Rows {
    SetNotFound(SetRecovered(rows, Arrived(raw, done), now), Gone(raw, done), now)
  }

  lemma {:induction false} OneMoreMissing(rows: Rows, raw: set<Frame>, done: set<nat>, d: nat, now: int)
    requires d !in done
    ensures LookedUp(rows, raw, done + {d}, now)
         == if InRaw(raw, d) then SetRecovered(LookedUp(rows, raw, done, now), {d}, now)
            else SetNotFound(LookedUp(rows, raw, done, now), {d}, now)
    ensures Gone(raw, done + {d}) == Gone(raw, done) + if InRaw(raw, d) then {} else {d}
  {
  }

  lemma {:induction false} OneMoreLine(lines: seq<Line>, i: int)
    requires 0 <= i < |lines|
    ensures Frames(lines[..i + 1]) == Frames(lines[..i]) + if Good(lines[i]) then {FrameOf(lines[i])} else {}
    ensures Found(lines[..i + 1]) == Found(lines[..i]) + if Good(lines[i]) then {lines[i].number.value} else {}
  {
    assert lines[..i + 1] == lines[..i] + [lines[i]];
    assert lines[i] in lines[..i + 1];
    forall l | l in lines[..i]
      ensures l in lines[..i + 1]
    {
    }
  }

  class GatewayRecovery {
    const cfg: Config
    var rows: Rows
    var raw: set<Frame>
    var job: Job
    var handler: Handler
    var nextBatch: nat
    var lost: multiset<nat>

    ghost function Abs(): State
      reads this
    {
      State(rows, raw, job, handler, nextBatch, lost)
    }

    ghost predicate Valid()
      reads this
    {
      Inv(cfg, Abs())
    }

    constructor (cfg: Config)
      ensures this.cfg == cfg && Abs() == INITIAL && Valid()
    {
      this.cfg := cfg;
      rows, raw, job, handler, nextBatch, lost := map[], {}, JobIdle, HandlerIdle, 0, multiset{};
    }

    /** The one-read-at-a-time guard; false when the batch in flight is still waited for. */
    method CheckInflight(now: int) returns (proceed: bool)
      requires Valid() && job == JobIdle
      modifies this`rows, this`job
      ensures Valid() && Abs() == GuardStep(cfg, old(Abs()), now)
      ensures proceed <==> job == JobMarking
      ensures proceed ==> WithStatus(rows, Inflight) == {}
    {
      GuardKeepsInv(cfg, Abs(), now);
      var inflight := WithStatus(rows, Inflight);
      if inflight != {} {
        if Waiting(rows, now, cfg.timeout) {
          return false;
        }
        rows := Expire(rows);
      }
      job := JobMarking;
      proceed := true;
    }

    /** The marking transaction; the empty set when there is nothing to request. */
    method MarkBatch(detected: seq<nat>, n: nat, now: int) returns (seqs: set<nat>)
      requires Valid() && job == JobMarking && 1 <= n <= cfg.maxBatch
      modifies this`rows, this`job, this`nextBatch
      ensures Valid() && Abs() == MarkStep(old(Abs()), detected, n, now)
      ensures seqs == Pick(old(Abs()), detected, n, now)
    {
      MarkKeepsInv(cfg, Abs(), detected, n, now);
      seqs := MarkTransaction(detected, n, now);
    }

    method MarkTransaction(detected: seq<nat>, n: nat, now: int) returns (seqs: set<nat>)
      requires job == JobMarking
      modifies this`rows, this`job, this`nextBatch
      ensures Abs() == MarkStep(old(Abs()), detected, n, now)
      ensures seqs == Pick(old(Abs()), detected, n, now)
    {
      var committed := rows;
      Refresh(detected, now);
      seqs := Smallest(WithStatus(rows, Pending), n);
      if seqs == {} {
        rows, job := committed, JobIdle;
      } else {
        MarkEach(seqs, now, nextBatch);
        job, nextBatch := JobPublishing(seqs, nextBatch), nextBatch + 1;
      }
    }

    /** Record the new detections, then resolve the pending rows that are in raw. */
    method Refresh(detected: seq<nat>, now: int)
      modifies this`rows
      ensures rows == Refreshed(old(Abs()), detected, now)
    {
      rows := Record(rows, raw, FirstDetected(detected));
      rows := Resolve(rows, raw, now);
    }

    method MarkEach(seqs: set<nat>, now: int, batch: nat)
      requires seqs <= rows.Keys
      modifies this`rows
      ensures rows == Mark(old(rows), seqs, now, batch)
    {
      var todo := seqs;
      while todo != {}
        invariant todo <= seqs
        invariant rows == Mark(old(rows), seqs - todo, now, batch)
      {
        var d :| d in todo;
        MarkOneMore(old(rows), seqs - todo, d, now, batch);
        rows := rows[d := rows[d].(status := Inflight, inflightAt := Some(now), batchId := Some(batch))];
        assert seqs - todo + {d} == seqs - (todo - {d});
        todo := todo - {d};
      }
      assert seqs - todo == seqs;
    }

    /** The publish, and the undo when it fails. */
    method Publish(delivered: bool)
      requires Valid() && job.JobPublishing?
      modifies this`rows, this`job
      ensures Valid() && Abs() == PublishStep(old(Abs()), delivered)
      ensures !delivered ==> WithStatus(rows, Inflight) == {}
    {
      PublishKeepsInv(cfg, Abs(), delivered);
      if !delivered {
        rows := Unmark(rows, job.batch);
      }
      job := JobIdle;
    }

    /** _recover_gateway, when nothing else moves in between; true if it published a batch. */
    method RecoverGateway(detected: seq<nat>, n: nat, guardTime: int, markTime: int, delivered: bool) returns (requested: bool)
      requires Valid() && job == JobIdle && 1 <= n <= cfg.maxBatch
      modifies this`rows, this`job, this`nextBatch
      ensures Valid() && job == JobIdle
      ensures Abs() == PublishStep(MarkStep(GuardStep(cfg, old(Abs()), guardTime), detected, n, markTime), delivered)
      ensures requested <==> delivered && nextBatch == old(nextBatch) + 1
    {
      var proceed := CheckInflight(guardTime);
      if !proceed {
        return false;
      }
      var seqs := MarkBatch(detected, n, markTime);
      if seqs == {} {
        return false;
      }
      Publish(delivered);
      requested := delivered;
    }

    /** handle_storage_response, up to the count check. */
    method CorrelateResponse(m: Message) returns (accepted: bool)
      requires Valid() && WellFormed(m) && handler == HandlerIdle
      modifies this`handler
      ensures Valid() && Abs() == CorrelateStep(old(Abs()), m)
      ensures accepted <==> handler == Correlated(m)
    {
      CorrelateKeepsInv(cfg, Abs(), m);
      if !m.StorageRead? || m.seqs.None? {
        return false;
      }
      var inflight := WithStatus(rows, Inflight);
      if m.seqs.value == {} || !(m.seqs.value <= inflight) {
        return false;
      }
      if FoundCount(m) + |m.missing| != RequestedCount(m) {
        return false;
      }
      handler := Correlated(m);
      accepted := true;
    }

    /** handle_storage_response, from the ingestion on. */
    method ApplyResponse(now: int)
      requires Valid() && handler.Correlated?
      modifies this`rows, this`raw, this`handler, this`lost
      ensures Valid() && Abs() == ApplyStep(old(Abs()), now)
    {
      ApplyKeepsInv(cfg, Abs(), now);
      var m := handler.response;
      IngestLines(m.lines, now);
      RecoverMore(old(rows), Found(m.lines), Arrived(raw, m.missing), now);
      LookUpMissing(m.missing, now);
      handler := HandlerIdle;
    }

    /** Ingest the lines, and close the counter of each line that made it into raw. */
    method IngestLines(lines: seq<Line>, now: int)
      modifies this`rows, this`raw
      ensures raw == old(raw) + Frames(lines)
      ensures rows == SetRecovered(old(rows), Found(lines), now)
    {
      for i := 0 to |lines|
        invariant raw == old(raw) + Frames(lines[..i])
        invariant rows == SetRecovered(old(rows), Found(lines[..i]), now)
      {
        OneMoreLine(lines, i);
        var l := lines[i];
        if l.number.None? {
          continue;
        }
        var d := l.number.value;
        if !l.parses || !l.ingests {
          continue;
        }
        RecoverMore(old(rows), Found(lines[..i]), {d}, now);
        raw := raw + {FrameOf(l)};
        rows := SetRecovered(rows, {d}, now);
      }
      assert lines[..|lines|] == lines;
    }

    /** Look each missing counter up in raw: recovered if it is there, given up with an event if not. */
    method LookUpMissing(missing: set<nat>, now: int)
      modifies this`rows, this`lost
      ensures rows == LookedUp(old(rows), raw, missing, now)
      ensures lost == old(lost) + multiset(Gone(raw, missing))
    {
      var todo := missing;
      while todo != {}
        invariant todo <= missing
        invariant rows == LookedUp(old(rows), raw, missing - todo, now)
        invariant lost == old(lost) + multiset(Gone(raw, missing - todo))
      {
        var d :| d in todo;
        OneMoreMissing(old(rows), raw, missing - todo, d, now);
        assert missing - (todo - {d}) == missing - todo + {d};
        if InRaw(raw, d) {
          rows := SetRecovered(rows, {d}, now);
        } else {
          rows := SetNotFound(rows, {d}, now);
          lost := lost + multiset{d};
        }
        todo := todo - {d};
      }
      assert missing - todo == missing;
    }

    /** A live /rx frame. */
    method LiveRx(frame: Frame)
      requires Valid()
      modifies this`raw
      ensures Valid() && Abs() == old(Abs()).(raw := old(raw) + {frame})
    {
      RawGrowthKeepsInv(cfg, Abs(), {frame});
      raw := raw + {frame};
    }
  }
}
