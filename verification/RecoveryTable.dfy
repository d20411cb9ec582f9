/** The per-gateway part of gw_seq_recovery, and the statements that change it.

    Every statement filters on the gateway's serial, so one gateway's rows are modelled on their own. */
module RecoveryTable {
  import opened Wrappers

  datatype Status = Pending | Inflight | Recovered | NotFound

  datatype Reason = NoSuchFrame

  datatype Row = Row(
    status: Status, inflightAt: Option<int>, batchId: Option<nat>, reason: Option<Reason>,
    recoveredAt: Option<int>, lastResponseAt: Option<int>)

  type Rows = map<nat, Row>

  /** A frame in raw. Only frames whose own `gw` is this gateway count as received from it. */
  datatype Frame = Frame(ownGateway: bool, number: nat, body: nat)

  const NEW_ROW := Row(Pending, None, None, None, None, None)

  predicate InRaw(raw: set<Frame>, d: nat) {
    exists f :: f in raw && f.ownGateway && f.number == d
  }

  predicate Terminal(status: Status) {
    status == Recovered || status == NotFound
  }

  function WithStatus(rows: Rows, status: Status): set<nat> {
    set d | d in rows && rows[d].status == status
  }

  // ---- the statements ----

  function BackToPending(r: Row): Row {
    r.(status := Pending, inflightAt := None, batchId := None)
  }

  /** inflight rows back to pending */
  function Expire(rows: Rows): Rows {
    map d | d in rows :: if rows[d].status == Inflight then BackToPending(rows[d]) else rows[d]
  }

  /** rows of the batch back to pending */
  function Unmark(rows: Rows, batch: nat): Rows {
    map d | d in rows :: if rows[d].batchId == Some(batch) then BackToPending(rows[d]) else rows[d]
  }

  /** INSERT ... WHERE NOT EXISTS (raw) ON CONFLICT DO NOTHING */
  function Record(rows: Rows, raw: set<Frame>, detected: set<nat>): Rows {
    rows + map d | d in detected && d !in rows && !InRaw(raw, d) :: NEW_ROW
  }

  /** pending rows already in raw become recovered */
  function Resolve(rows: Rows, raw: set<Frame>, now: int): Rows {
    map d | d in rows ::
      if rows[d].status == Pending && InRaw(raw, d) then rows[d].(status := Recovered, recoveredAt := Some(now))
      else rows[d]
  }

  function Mark(rows: Rows, picked: set<nat>, now: int, batch: nat): Rows {
    map d | d in rows ::
      if d in picked then rows[d].(status := Inflight, inflightAt := Some(now), batchId := Some(batch)) else rows[d]
  }

  function SetRecovered(rows: Rows, found: set<nat>, now: int): Rows {
    map d | d in rows ::
      if d in found then
        rows[d].(status := Recovered, recoveredAt := Some(now), lastResponseAt := Some(now), inflightAt := None, batchId := None)
      else rows[d]
  }

  function SetNotFound(rows: Rows, gone: set<nat>, now: int): Rows {
    map d | d in rows ::
      if d in gone then
        rows[d].(status := NotFound, reason := Some(NoSuchFrame), lastResponseAt := Some(now), inflightAt := None, batchId := None)
      else rows[d]
  }

  // ---- ORDER BY gw_seq LIMIT n ----

  function Below(s: set<nat>, d: nat): set<nat> {
    set e | e in s && e < d
  }

  function Smallest(s: set<nat>, n: nat): set<nat> {
    set d | d in s && |Below(s, d)| < n
  }

  lemma {:induction false} Subset(a: set<nat>, b: set<nat>)
    requires a <= b
    ensures |a| <= |b|
    ensures |a| == |b| ==> a == b
    decreases a
  {
    if a == {} {
    } else {
      var x :| x in a;
      Subset(a - {x}, b - {x});
      if |a| == |b| {
        assert a == (a - {x}) + {x} && b == (b - {x}) + {x};
      }
    }
  }

  lemma {:induction false} Greatest(s: set<nat>) returns (m: nat)
    requires s != {}
    ensures m in s && forall d :: d in s ==> d <= m
    decreases s
  {
    var one :| one in s;
    var rest := s - {one};
    m := one;
    if rest != {} {
      var other := Greatest(rest);
      m := if other > one then other else one;
    }
    forall d | d in s
      ensures d <= m
    {
      assert d == one || d in rest;
    }
  }

  /** The n smallest, or all of them when there are fewer, and every one left is larger than every one taken. */
  lemma {:induction false} SmallestSize(s: set<nat>, n: nat)
    ensures |Smallest(s, n)| == if |s| < n then |s| else n
    ensures forall d, e :: d in Smallest(s, n) && e in s - Smallest(s, n) ==> d < e
    decreases s
  {
    forall d, e | d in Smallest(s, n) && e in s - Smallest(s, n)
      ensures d < e
    {
      if e <= d {
        Subset(Below(s, e), Below(s, d));
      }
    }
    if |s| <= n {
      forall d | d in s
        ensures d in Smallest(s, n)
      {
        Subset(Below(s, d), s - {d});
      }
      assert Smallest(s, n) == s;
    } else {
      var m := Greatest(s);
      var rest := s - {m};
      SmallestSize(rest, n);
      assert Below(s, m) == rest;
      forall d | d in rest
        ensures Below(s, d) == Below(rest, d)
      {
      }
      assert Smallest(s, n) == Smallest(rest, n);
    }
  }

  lemma {:induction false} SmallestNonempty(s: set<nat>, n: nat)
    requires s != {} && n >= 1
    ensures Smallest(s, n) != {}
  {
    SmallestSize(s, n);
  }
}
