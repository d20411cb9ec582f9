/** What one delivered payload does to the database: readings stored at most once, the raw copy
    stored at most once, and alarm events on the edges of a device's flags.

    A device is its serial number, a sensor its device and index. Deliveries are committed one by one. */
module Ingestion {
  import opened Payloads
  import opened Wrappers

  datatype Sensor = Sensor(serial: string, index: int)

  /** A row of telemetry.measurement. */
  datatype Measurement = Measurement(
    sensor: Sensor, ts: real, counter: Option<int>,
    temperatureC: Option<real>, humidityPct: Option<real>, voltageCondV: Option<real>, supplyMv: Option<int>)

  datatype Raw = Raw(serial: string, payload: RawPayload)

  datatype Flag = HumidityAlarm | LowBattery

  datatype Runtime = Runtime(alarm: Option<bool>, lowBatt: Option<bool>)

  datatype Event = Event(serial: string, flag: Flag, raised: bool)

  datatype State = State(
    measurements: set<Measurement>, raw: set<Raw>, runtime: map<string, Runtime>, events: seq<Event>)

  const INITIAL := State({}, {}, map[], [])

  datatype IngestResult = Inserted | AlreadyPresent | IngestFailed

  // ---- measurements ----

  /** The two unique keys: (sensor, ts), and (sensor, msg_counter) where there is a counter. */
  predicate Clash(a: Measurement, b: Measurement) {
    && a.sensor == b.sensor
    && (a.ts == b.ts || (a.counter.Some? && a.counter == b.counter))
  }

  ghost predicate KeysUnique(table: set<Measurement>) {
    forall a, b :: a in table && b in table && Clash(a, b) ==> a == b
  }

  predicate Taken(table: set<Measurement>, m: Measurement) {
    exists r :: r in table && Clash(r, m)
  }

  /** INSERT ... ON CONFLICT DO NOTHING */
  function Insert(table: set<Measurement>, m: Measurement): set<Measurement> {
    if Taken(table, m) then table else table + {m}
  }

  function Store(table: set<Measurement>, ms: seq<Measurement>): set<Measurement> {
    if ms == [] then table else Insert(Store(table, ms[..|ms| - 1]), ms[|ms| - 1])
  }

  function RowOf(serial: string, r: Reading): Measurement {
    Measurement(Sensor(serial, r.sensorIndex), r.timestamp, r.msgCounter,
                r.temperatureC, r.humidityPct, r.voltageCondV, r.supplyMv)
  }

  function Rows(p: Payload): (rows: seq<Measurement>)
    ensures |rows| == |p.sensors|
    ensures forall i :: 0 <= i < |rows| ==> rows[i] == RowOf(p.serialNumber, p.sensors[i])
  {
    seq(|p.sensors|, i requires 0 <= i < |p.sensors| => RowOf(p.serialNumber, p.sensors[i]))
  }

  function AllRows(ps: seq<Payload>): seq<Measurement> {
    if ps == [] then [] else AllRows(ps[..|ps| - 1]) + Rows(ps[|ps| - 1])
  }

  // ---- alarm flags ----

  function Seen(p: Payload, flag: Flag): Option<bool> {
    if flag == HumidityAlarm then p.alarm else p.lowBatt
  }

  predicate CarriesFlags(p: Payload) {
    p.alarm.Some? || p.lowBatt.Some?
  }

  /** The stored flag; None for a NULL and for a device that has no row yet. */
  function Stored(s: State, serial: string, flag: Flag): Option<bool> {
    if serial !in s.runtime then None
    else if flag == HumidityAlarm then s.runtime[serial].alarm else s.runtime[serial].lowBatt
  }

  /** bool(x) of a flag: NULL counts as false. */
  predicate Truth(x: Option<bool>) {
    x.Some? && x.value
  }

  function Edge(s: State, p: Payload, flag: Flag): seq<Event> {
    match Seen(p, flag)
    case None => []
    case Some(value) => if value == Truth(Stored(s, p.serialNumber, flag)) then [] else [Event(p.serialNumber, flag, value)]
  }

  // ---- one delivery ----

  function Deliver(s: State, p: Payload): State {
    State(
      Store(s.measurements, Rows(p)),
      s.raw + {Raw(p.serialNumber, p.rawPayload)},
      if CarriesFlags(p) then s.runtime[p.serialNumber := Runtime(p.alarm, p.lowBatt)] else s.runtime,
      s.events + Edge(s, p, HumidityAlarm) + Edge(s, p, LowBattery))
  }

  function Run(s: State, ps: seq<Payload>): State
    decreases |ps|
  {
    if ps == [] then s else Deliver(Run(s, ps[..|ps| - 1]), ps[|ps| - 1])
  }

  // ---- the measurement table over a run ----

  /** A reading is stored, with its own columns, exactly when no row of its sensor has its time or its counter. */
  lemma {:induction false} InsertedIff(table: set<Measurement>, serial: string, r: Reading)
    ensures Insert(table, RowOf(serial, r))
         == if exists q :: q in table && q.sensor == Sensor(serial, r.sensorIndex)
                           && (q.ts == r.timestamp || (q.counter.Some? && q.counter == r.msgCounter))
            then table
            else table + {Measurement(Sensor(serial, r.sensorIndex), r.timestamp, r.msgCounter,
                                      r.temperatureC, r.humidityPct, r.voltageCondV, r.supplyMv)}
  {
    var m := RowOf(serial, r);
    if q :| q in table && q.sensor == m.sensor && (q.ts == m.ts || (q.counter.Some? && q.counter == m.counter)) {
      assert Clash(q, m);
    }
  }

  lemma {:induction false} StoreKeepsUnique(table: set<Measurement>, ms: seq<Measurement>)
    requires KeysUnique(table)
    ensures KeysUnique(Store(table, ms))
  {
    if ms == [] {
    } else {
      StoreKeepsUnique(table, ms[..|ms| - 1]);
    }
  }

  /** Nothing is removed, nothing is invented, and every delivered reading ends up represented by a
      row that shares its sensor and its time or counter. */
  lemma {:induction false} StoreRepresents(table: set<Measurement>, ms: seq<Measurement>)
    ensures table <= Store(table, ms)
    ensures forall m :: m in Store(table, ms) ==> m in table || m in ms
    ensures forall i :: 0 <= i < |ms| ==> Taken(Store(table, ms), ms[i])
  {
    if ms == [] {
    } else {
      var front, last := ms[..|ms| - 1], ms[|ms| - 1];
      StoreRepresents(table, front);
      assert ms == front + [last];
      var before := Store(table, front);
      assert Clash(last, last);
      forall i | 0 <= i < |ms| - 1
        ensures Taken(Insert(before, last), ms[i])
      {
        assert front[i] == ms[i];
        var r :| r in before && Clash(r, ms[i]);
        assert r in Insert(before, last);
      }
    }
  }

  lemma {:induction false} StoreUnchangedIff(table: set<Measurement>, ms: seq<Measurement>)
    ensures Store(table, ms) == table <==> forall i :: 0 <= i < |ms| ==> Taken(table, ms[i])
  {
    StoreRepresents(table, ms);
    if forall i :: 0 <= i < |ms| ==> Taken(table, ms[i]) {
      StoreNothing(table, ms);
    }
  }

  lemma {:induction false} StoreNothing(table: set<Measurement>, ms: seq<Measurement>)
    requires forall i :: 0 <= i < |ms| ==> Taken(table, ms[i])
    ensures Store(table, ms) == table
  {
    if ms == [] {
    } else {
      StoreNothing(table, ms[..|ms| - 1]);
    }
  }

  lemma {:induction false} StoreAppend(table: set<Measurement>, ms: seq<Measurement>, more: seq<Measurement>)
    ensures Store(table, ms + more) == Store(Store(table, ms), more)
  {
    if more == [] {
      assert ms + more == ms;
    } else {
      StoreAppend(table, ms, more[..|more| - 1]);
      assert (ms + more)[..|ms + more| - 1] == ms + more[..|more| - 1];
    }
  }

  lemma {:induction false} RunStores(s: State, ps: seq<Payload>)
    ensures Run(s, ps).measurements == Store(s.measurements, AllRows(ps))
  {
    if ps == [] {
    } else {
      RunStores(s, ps[..|ps| - 1]);
      StoreAppend(s.measurements, AllRows(ps[..|ps| - 1]), Rows(ps[|ps| - 1]));
    }
  }

  lemma {:induction false} RowsListed(ps: seq<Payload>, k: int, i: int)
    requires 0 <= k < |ps| && 0 <= i < |ps[k].sensors|
    ensures Rows(ps[k])[i] in AllRows(ps)
  {
    if k == |ps| - 1 {
      assert Rows(ps[k])[i] in Rows(ps[k]);
    } else {
      RowsListed(ps[..|ps| - 1], k, i);
    }
  }

  /** Both keys are unique in every state a run reaches. */
  lemma {:induction false} RunKeepsKeysUnique(s: State, ps: seq<Payload>)
    requires KeysUnique(s.measurements)
    ensures KeysUnique(Run(s, ps).measurements)
    ensures forall a, b :: a in Run(s, ps).measurements && b in Run(s, ps).measurements && a != b && a.sensor == b.sensor ==>
              a.ts != b.ts && (a.counter.Some? ==> a.counter != b.counter)
  {
    RunStores(s, ps);
    StoreKeepsUnique(s.measurements, AllRows(ps));
  }

  /** A payload already delivered leaves the measurement table as it is. */
  lemma {:induction false} RedeliveryStoresNothing(s: State, ps: seq<Payload>, p: Payload)
    requires p in ps
    ensures Store(Run(s, ps).measurements, Rows(p)) == Run(s, ps).measurements
  {
    RunStores(s, ps);
    StoreRepresents(s.measurements, AllRows(ps));
    var k :| 0 <= k < |ps| && ps[k] == p;
    forall i | 0 <= i < |Rows(p)|
      ensures Taken(Run(s, ps).measurements, Rows(p)[i])
    {
      RowsListed(ps, k, i);
      var j :| 0 <= j < |AllRows(ps)| && AllRows(ps)[j] == Rows(p)[i];
    }
    StoreNothing(Run(s, ps).measurements, Rows(p));
  }

  /** The deliveries without the repetitions. */
  function Firsts(ps: seq<Payload>): (firsts: seq<Payload>)
    ensures forall p :: p in firsts <==> p in ps
  {
    if ps == [] then []
    else
      var front, last := ps[..|ps| - 1], ps[|ps| - 1];
      assert ps == front + [last];
      if last in front then Firsts(front) else Firsts(front) + [last]
  }

  /** Replay idempotence: redeliveries, any number of them, at any place and in any order among new
      payloads, store exactly what the first deliveries alone store. */
  lemma {:induction false} RepetitionsStoreNothing(s: State, ps: seq<Payload>)
    ensures Run(s, ps).measurements == Run(s, Firsts(ps)).measurements
  {
    if ps == [] {
    } else {
      var front, last := ps[..|ps| - 1], ps[|ps| - 1];
      RepetitionsStoreNothing(s, front);
      if last in front {
        RedeliveryStoresNothing(s, front, last);
      } else {
        assert (Firsts(front) + [last])[..|Firsts(front)|] == Firsts(front);
      }
    }
  }

  /** From an empty table every reading is stored if and only if no two different ones clash. */
  lemma {:induction false} AllStoredIff(ms: seq<Measurement>)
    ensures (forall i :: 0 <= i < |ms| ==> ms[i] in Store({}, ms))
       <==> (forall i, j :: 0 <= i < j < |ms| && Clash(ms[i], ms[j]) ==> ms[i] == ms[j])
  {
    StoreKeepsUnique({}, ms);
    if forall i, j :: 0 <= i < j < |ms| && Clash(ms[i], ms[j]) ==> ms[i] == ms[j] {
      NoClashAllStored(ms);
    }
  }

  lemma {:induction false} NoClashAllStored(ms: seq<Measurement>)
    requires forall i, j :: 0 <= i < j < |ms| && Clash(ms[i], ms[j]) ==> ms[i] == ms[j]
    ensures forall i :: 0 <= i < |ms| ==> ms[i] in Store({}, ms)
  {
    if ms == [] {
    } else {
      var front, last := ms[..|ms| - 1], ms[|ms| - 1];
      NoClashAllStored(front);
      StoreRepresents({}, front);
      assert forall i :: 0 <= i < |front| ==> front[i] == ms[i];
      if Taken(Store({}, front), last) {
        var r :| r in Store({}, front) && Clash(r, last);
        var i :| 0 <= i < |front| && front[i] == r;
      }
    }
  }

  /** A node that reuses a stored message counter, as a 16-bit counter does after it wraps, never
      gets another reading of that counter stored, however new its time. */
  lemma {:induction false} ReusedCounterNeverStored(table: set<Measurement>, ms: seq<Measurement>, kept: Measurement, m: Measurement)
    requires KeysUnique(table) && kept in table && m != kept
    requires m.sensor == kept.sensor && m.counter.Some? && m.counter == kept.counter
    ensures m !in Store(table, ms)
  {
    StoreKeepsUnique(table, ms);
    StoreRepresents(table, ms);
    assert Clash(kept, m);
  }

  // ---- alarm events over a run ----

  /** What the event feed says about one flag of one device: raised (true) or cleared (false). */
  function Feed(events: seq<Event>, serial: string, flag: Flag): seq<bool> {
    if events == [] then []
    else
      var e := events[|events| - 1];
      Feed(events[..|events| - 1], serial, flag) + if e.serial == serial && e.flag == flag then [e.raised] else []
  }

  lemma {:induction false} FeedAppend(events: seq<Event>, more: seq<Event>, serial: string, flag: Flag)
    ensures Feed(events + more, serial, flag) == Feed(events, serial, flag) + Feed(more, serial, flag)
  {
    if more == [] {
      assert events + more == events;
    } else {
      FeedAppend(events, more[..|more| - 1], serial, flag);
      assert (events + more)[..|events + more| - 1] == events + more[..|more| - 1];
    }
  }

  lemma {:induction false} FeedOfEdge(s: State, p: Payload, edge: Flag, serial: string, flag: Flag)
    ensures Feed(Edge(s, p, edge), serial, flag) == if p.serialNumber == serial && edge == flag && Edge(s, p, edge) != []
                                                    then [Seen(p, flag).value] else []
  {
    var events := Edge(s, p, edge);
    if events != [] {
      assert events[..0] == [];
    }
  }

  lemma {:induction false} DeliverFeeds(s: State, p: Payload, serial: string, flag: Flag)
    ensures Feed(Deliver(s, p).events, serial, flag)
         == Feed(s.events, serial, flag)
            + if p.serialNumber == serial && Edge(s, p, flag) != [] then [Seen(p, flag).value] else []
  {
    var alarm, battery := Edge(s, p, HumidityAlarm), Edge(s, p, LowBattery);
    FeedAppend(s.events + alarm, battery, serial, flag);
    FeedAppend(s.events, alarm, serial, flag);
    FeedOfEdge(s, p, HumidityAlarm, serial, flag);
    FeedOfEdge(s, p, LowBattery, serial, flag);
  }

  /** One delivery as a single flag of a single device sees it: the two flags and the devices do not
      touch each other's events. */
  lemma {:induction false} DeliverToFlag(s: State, p: Payload, serial: string, flag: Flag)
    ensures Stored(Deliver(s, p), serial, flag)
         == if p.serialNumber == serial && CarriesFlags(p) then Seen(p, flag) else Stored(s, serial, flag)
    ensures Feed(Deliver(s, p).events, serial, flag)
         == Feed(s.events, serial, flag)
            + if p.serialNumber == serial && Seen(p, flag).Some? && Seen(p, flag).value != Truth(Stored(s, serial, flag))
              then [Seen(p, flag).value] else []
  {
    DeliverFeeds(s, p, serial, flag);
  }

  /** What a delivery writes for the alarms: the payload's two flags over the stored ones when it carries
      any, and the event of each flag that is present and differs from the stored one, the humidity alarm's first. */
  lemma {:induction false} FlagsWritten(s: State, p: Payload, alarmSet: bool, lowBattSet: bool)
    requires alarmSet <==> p.serialNumber in s.runtime && s.runtime[p.serialNumber].alarm == Some(true)
    requires lowBattSet <==> p.serialNumber in s.runtime && s.runtime[p.serialNumber].lowBatt == Some(true)
    ensures Deliver(s, p).runtime
         == if p.alarm.Some? || p.lowBatt.Some? then s.runtime[p.serialNumber := Runtime(p.alarm, p.lowBatt)] else s.runtime
    ensures Deliver(s, p).events
         == s.events
            + (if p.alarm.Some? && p.alarm.value != alarmSet then [Event(p.serialNumber, HumidityAlarm, p.alarm.value)] else [])
            + (if p.lowBatt.Some? && p.lowBatt.value != lowBattSet then [Event(p.serialNumber, LowBattery, p.lowBatt.value)] else [])
  {
    assert Truth(Stored(s, p.serialNumber, HumidityAlarm)) == alarmSet;
    assert Truth(Stored(s, p.serialNumber, LowBattery)) == lowBattSet;
  }

  predicate Alternates(feed: seq<bool>) {
    forall i :: 0 <= i < |feed| ==> feed[i] == (i % 2 == 0)
  }

  /** Raised and cleared alternate, raised first, and the flag is set exactly when the last word was raised. */
  predicate InStep(s: State, serial: string, flag: Flag) {
    && Alternates(Feed(s.events, serial, flag))
    && (|Feed(s.events, serial, flag)| % 2 == 1 <==> Truth(Stored(s, serial, flag)))
  }

  /** The payload carries the other flag, not this one, while this one is set: the upsert writes NULL
      over it and no event is emitted. */
  predicate Drops(s: State, p: Payload, serial: string, flag: Flag) {
    p.serialNumber == serial && CarriesFlags(p) && Seen(p, flag).None? && Truth(Stored(s, serial, flag))
  }

  lemma {:induction false} AppendInStep(feed: seq<bool>, value: bool)
    requires Alternates(feed) && (|feed| % 2 == 1 <==> !value)
    ensures Alternates(feed + [value]) && (|feed + [value]| % 2 == 1 <==> value)
  {
  }

  lemma {:induction false} DeliverInStepIff(s: State, p: Payload, serial: string, flag: Flag)
    requires InStep(s, serial, flag)
    ensures InStep(Deliver(s, p), serial, flag) <==> !Drops(s, p, serial, flag)
  {
    DeliverToFlag(s, p, serial, flag);
    var feed, was, seen := Feed(s.events, serial, flag), Truth(Stored(s, serial, flag)), Seen(p, flag);
    if p.serialNumber == serial && seen.Some? && seen.value != was {
      AppendInStep(feed, seen.value);
    } else {
      assert Feed(Deliver(s, p).events, serial, flag) == feed;
    }
  }

  /** In step at the start and after every delivery. */
  ghost predicate AlwaysInStep(ps: seq<Payload>, serial: string, flag: Flag) {
    InStep(Run(INITIAL, ps), serial, flag) && (ps == [] || AlwaysInStep(ps[..|ps| - 1], serial, flag))
  }

  ghost predicate NeverDrops(ps: seq<Payload>, serial: string, flag: Flag) {
    ps == []
    || (var front := ps[..|ps| - 1];
        NeverDrops(front, serial, flag) && !Drops(Run(INITIAL, front), ps[|ps| - 1], serial, flag))
  }

  /** Events and stored flag stay in step over a whole run if and only if no payload on the way drops a set flag. */
  lemma {:induction false} RunInStepIff(ps: seq<Payload>, serial: string, flag: Flag)
    ensures AlwaysInStep(ps, serial, flag) <==> NeverDrops(ps, serial, flag)
  {
    if ps == [] {
    } else {
      var front := ps[..|ps| - 1];
      RunInStepIff(front, serial, flag);
      if InStep(Run(INITIAL, front), serial, flag) {
        DeliverInStepIff(Run(INITIAL, front), ps[|ps| - 1], serial, flag);
      }
    }
  }

  lemma {:induction false} RunOfThree(s: State, a: Payload, b: Payload, c: Payload)
    ensures Run(s, [a, b]) == Deliver(Deliver(s, a), b)
    ensures Run(s, [a, b, c]) == Deliver(Deliver(Deliver(s, a), b), c)
  {
    assert [a][..0] == [] && [a, b][..1] == [a] && [a, b, c][..2] == [a, b];
    assert Run(s, [a]) == Deliver(s, a);
    assert Run(s, [a, b]) == Deliver(Run(s, [a]), b);
  }

  /** A frame with the humidity alarm raised, then one that carries only the battery flag, then the
      alarm again: two raised events in a row. */
  lemma {:induction false} DroppedFlagRaisesTwice(serial: string, raised: Payload, partial: Payload)
    requires raised.serialNumber == partial.serialNumber == serial
    requires raised.alarm == Some(true) && partial.alarm == None && partial.lowBatt.Some?
    ensures Feed(Run(INITIAL, [raised, partial, raised]).events, serial, HumidityAlarm) == [true, true]
  {
    RunOfThree(INITIAL, raised, partial, raised);
    DeliverToFlag(INITIAL, raised, serial, HumidityAlarm);
    DeliverToFlag(Deliver(INITIAL, raised), partial, serial, HumidityAlarm);
    DeliverToFlag(Deliver(Deliver(INITIAL, raised), partial), raised, serial, HumidityAlarm);
  }

  /** Payloads with both flags, as every HM v3.6 frame has, or with none. */
  predicate BothOrNone(p: Payload) {
    p.alarm.Some? <==> p.lowBatt.Some?
  }

  function LastSeen(ps: seq<Payload>, serial: string, flag: Flag): Option<bool> {
    if ps == [] then None
    else if ps[|ps| - 1].serialNumber == serial && Seen(ps[|ps| - 1], flag).Some? then Seen(ps[|ps| - 1], flag)
    else LastSeen(ps[..|ps| - 1], serial, flag)
  }

  function Count(feed: seq<bool>, raised: bool): nat {
    if feed == [] then 0
    else Count(feed[..|feed| - 1], raised) + if feed[|feed| - 1] == raised then 1 else 0
  }

  lemma {:induction false} AlternatingCounts(feed: seq<bool>)
    requires Alternates(feed)
    ensures Count(feed, true) - Count(feed, false) == |feed| % 2
  {
    if feed == [] {
    } else {
      AlternatingCounts(feed[..|feed| - 1]);
    }
  }

  /** Over every sequence of such payloads, for each device and each flag on its own: the events
      alternate starting with raised, raised minus cleared is 1 exactly when the stored flag is true
      and 0 otherwise, and the stored flag is the last delivered one. */
  lemma {:induction false} AlarmEdges(ps: seq<Payload>, serial: string, flag: Flag)
    requires forall k :: 0 <= k < |ps| ==> BothOrNone(ps[k])
    ensures var s := Run(INITIAL, ps);
            var feed := Feed(s.events, serial, flag);
            Alternates(feed)
            && Count(feed, true) - Count(feed, false) == (if Stored(s, serial, flag) == Some(true) then 1 else 0)
            && Stored(s, serial, flag) == LastSeen(ps, serial, flag)
    ensures InStep(Run(INITIAL, ps), serial, flag)
  {
    if ps == [] {
    } else {
      var front, last := ps[..|ps| - 1], ps[|ps| - 1];
      AlarmEdges(front, serial, flag);
      DeliverInStepIff(Run(INITIAL, front), last, serial, flag);
      DeliverToFlag(Run(INITIAL, front), last, serial, flag);
      AlternatingCounts(Feed(Run(INITIAL, ps).events, serial, flag));
    }
  }

  /** Exactly when a redelivery changes nothing at all. The duplicate checks cover the readings and
      the raw copy; the alarm state is processed again each time, so it must also equal what is stored. */
  lemma {:induction false} NoOpIff(s: State, p: Payload)
    ensures Deliver(s, p) == s
       <==> && (forall i :: 0 <= i < |p.sensors| ==> Taken(s.measurements, Rows(p)[i]))
            && Raw(p.serialNumber, p.rawPayload) in s.raw
            && (CarriesFlags(p) ==> p.serialNumber in s.runtime && s.runtime[p.serialNumber] == Runtime(p.alarm, p.lowBatt))
  {
    StoreUnchangedIff(s.measurements, Rows(p));
    var t := Deliver(s, p);
    if t == s {
      assert Raw(p.serialNumber, p.rawPayload) in t.raw;
    }
    if CarriesFlags(p) && p.serialNumber in s.runtime && s.runtime[p.serialNumber] == Runtime(p.alarm, p.lowBatt) {
      assert t.runtime == s.runtime;
      assert t.events == s.events;
    }
    if Raw(p.serialNumber, p.rawPayload) in s.raw {
      assert t.raw == s.raw;
    }
    if !CarriesFlags(p) {
      assert t.events == s.events;
    }
  }

  /** Replaying an old alarm frame after it was cleared stores nothing, and raises the alarm again. */
  lemma {:induction false} ReplayRaisesAgain(raised: Payload, cleared: Payload)
    requires raised.serialNumber == cleared.serialNumber && BothOrNone(raised) && BothOrNone(cleared)
    requires raised.alarm == Some(true) && cleared.alarm == Some(false)
    ensures var s, t := Run(INITIAL, [raised, cleared]), Run(INITIAL, [raised, cleared, raised]);
            t.measurements == s.measurements
            && Feed(s.events, raised.serialNumber, HumidityAlarm) == [true, false]
            && Feed(t.events, raised.serialNumber, HumidityAlarm) == [true, false, true]
  {
    RunOfThree(INITIAL, raised, cleared, raised);
    RedeliveryStoresNothing(INITIAL, [raised, cleared], raised);
    ThreeDeliveries(INITIAL, raised, cleared, raised);
  }

  lemma {:induction false} ThreeDeliveries(s: State, a: Payload, b: Payload, c: Payload)
    requires Feed(s.events, a.serialNumber, HumidityAlarm) == [] && !Truth(Stored(s, a.serialNumber, HumidityAlarm))
    requires a.serialNumber == b.serialNumber == c.serialNumber
    requires a.alarm == Some(true) && b.alarm == Some(false) && c.alarm == Some(true)
    ensures Feed(Deliver(Deliver(s, a), b).events, a.serialNumber, HumidityAlarm) == [true, false]
    ensures Feed(Deliver(Deliver(Deliver(s, a), b), c).events, a.serialNumber, HumidityAlarm) == [true, false, true]
  {
    DeliverToFlag(s, a, a.serialNumber, HumidityAlarm);
    DeliverToFlag(Deliver(s, a), b, a.serialNumber, HumidityAlarm);
    DeliverToFlag(Deliver(Deliver(s, a), b), c, a.serialNumber, HumidityAlarm);
  }

  // ---- the service ----

  class IngestionStore {
    var measurements: set<Measurement>
    var raw: set<Raw>
    var runtime: map<string, Runtime>
    var events: seq<Event>

    ghost function Abs(): State
      reads this
    {
      State(measurements, raw, runtime, events)
    }

    constructor ()
      ensures Abs() == INITIAL && KeysUnique(measurements)
    {
      measurements, raw, runtime, events := {}, {}, map[], [];
    }

    /** _process_sensor_data: the measurement insert. */
    method ProcessSensorData(serial: string, reading: Reading)
      requires KeysUnique(measurements)
      modifies this`measurements
      ensures measurements == Insert(old(measurements), RowOf(serial, reading))
      ensures KeysUnique(measurements)
      ensures measurements
           == if exists r :: r in old(measurements) && r.sensor == Sensor(serial, reading.sensorIndex)
                             && (r.ts == reading.timestamp || (r.counter.Some? && r.counter == reading.msgCounter))
              then old(measurements)
              else old(measurements)
                   + {Measurement(Sensor(serial, reading.sensorIndex), reading.timestamp, reading.msgCounter,
                                  reading.temperatureC, reading.humidityPct, reading.voltageCondV, reading.supplyMv)}
    {
      InsertedIff(measurements, serial, reading);
      var m := RowOf(serial, reading);
      if !Taken(measurements, m) {
        measurements := measurements + {m};
      }
    }

    /** _process_alarm_state */
    method ProcessAlarmState(p: Payload)
      modifies this`runtime, this`events
      ensures runtime == old(runtime)[p.serialNumber := Runtime(p.alarm, p.lowBatt)]
      ensures events == old(events) + Edge(old(Abs()), p, HumidityAlarm) + Edge(old(Abs()), p, LowBattery)
    {
      var prevAlarm, prevLowBatt := None, None;
      if p.serialNumber in runtime {
        prevAlarm, prevLowBatt := runtime[p.serialNumber].alarm, runtime[p.serialNumber].lowBatt;
      }
      var alarmChanged := p.alarm.Some? && p.alarm.value != Truth(prevAlarm);
      var lowBattChanged := p.lowBatt.Some? && p.lowBatt.value != Truth(prevLowBatt);
      runtime := runtime[p.serialNumber := Runtime(p.alarm, p.lowBatt)];
      if alarmChanged {
        events := events + [Event(p.serialNumber, HumidityAlarm, p.alarm.value)];
      }
      if lowBattChanged {
        events := events + [Event(p.serialNumber, LowBattery, p.lowBatt.value)];
      }
    }

    /** _process_parsed_payload; true if the raw copy was inserted just now. */
    method ProcessParsedPayload(p: Payload) returns (rawInserted: bool)
      requires KeysUnique(measurements)
      modifies this
      ensures Abs() == Deliver(old(Abs()), p) && KeysUnique(measurements)
      ensures rawInserted <==> Raw(p.serialNumber, p.rawPayload) !in old(raw)
    {
      rawInserted := Raw(p.serialNumber, p.rawPayload) !in raw;
      raw := raw + {Raw(p.serialNumber, p.rawPayload)};
      for i := 0 to |p.sensors|
        invariant KeysUnique(measurements)
        invariant measurements == Store(old(measurements), Rows(p)[..i])
        invariant unchanged(`runtime) && unchanged(`events) && raw == old(raw) + {Raw(p.serialNumber, p.rawPayload)}
      {
        assert Rows(p)[..i + 1][..i] == Rows(p)[..i];
        ProcessSensorData(p.serialNumber, p.sensors[i]);
      }
      assert Rows(p)[..|p.sensors|] == Rows(p);
      if p.alarm.Some? || p.lowBatt.Some? {
        ProcessAlarmState(p);
      }
    }

    /** ingest_recovered_frame: committed at once, or rolled back. */
    method IngestRecoveredFrame(p: Payload, databaseFails: bool) returns (result: IngestResult)
      requires KeysUnique(measurements)
      modifies this
      ensures KeysUnique(measurements)
      ensures result.IngestFailed? <==> databaseFails
      ensures Abs() == if databaseFails then old(Abs()) else Deliver(old(Abs()), p)
      ensures !databaseFails ==> (result == Inserted <==> Raw(p.serialNumber, p.rawPayload) !in old(raw))
      ensures !databaseFails ==> Raw(p.serialNumber, p.rawPayload) in raw
    {
      var savedMeasurements, savedRaw, savedRuntime, savedEvents := measurements, raw, runtime, events;
      var inserted := ProcessParsedPayload(p);
      if databaseFails {
        measurements, raw, runtime, events := savedMeasurements, savedRaw, savedRuntime, savedEvents;
        return IngestFailed;
      }
      return if inserted then Inserted else AlreadyPresent;
    }
  }
}
