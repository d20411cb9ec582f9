/** From the /rx wrapper to the tables: what ingestion promises about the payloads the parser makes. */
module RxIngestion {
  import opened Wrappers
  import opened BitStrings
  import opened GatewayRx
  import opened Hex
  import opened HmFrame
  import opened Ingestion
  import opened Payloads

  /** The payload of some accepted wrapper. */
  ghost predicate FromRx(p: Payload) {
    exists w: Wrapper, gwSerial: string, now: real :: ParseGatewayRx(w, gwSerial, now) == Result.Ok(p)
  }

  /** What the program ingests: /rx payloads, and those of the other parsers, which carry no flags. */
  ghost predicate Ingested(p: Payload) {
    FromRx(p) || !CarriesFlags(p)
  }

  lemma {:induction false} IngestedBothOrNone(p: Payload)
    requires Ingested(p)
    ensures BothOrNone(p)
  {
    if FromRx(p) {
      var w: Wrapper, gwSerial: string, now: real :| ParseGatewayRx(w, gwSerial, now) == Result.Ok(p);
      ParsedPayload(w, gwSerial, now);
      PayloadShape(w, DecodeHmV36(w.raw).value, p.serialNumber, w.tsMs.value, gwSerial, 0);
    }
  }

  lemma {:induction false} ParsedPayload(w: Wrapper, gwSerial: string, now: real)
    requires ParseGatewayRx(w, gwSerial, now).Ok?
    ensures DecodeHmV36(w.raw).Ok? && w.tsMs.Some?
    ensures var d, p := DecodeHmV36(w.raw).value, ParseGatewayRx(w, gwSerial, now).value;
            NormalizeSerial(d.uid) == Some(p.serialNumber)
            && p == PayloadOf(w, d, p.serialNumber, w.tsMs.value, gwSerial)
  {
  }

  /** A parsed payload is two readings of one device with the frame's counter and time, the wrapper
      itself as the raw copy, and both flags. */
  lemma {:induction false} PayloadShape(w: Wrapper, d: Decoded, serial: string, ts: real, gwSerial: string, i: int)
    requires 0 <= i < 2
    ensures var p := PayloadOf(w, d, serial, ts, gwSerial);
            && |p.sensors| == 2 && p.sensors[i].sensorIndex == i
            && p.sensors[i].msgCounter == Some(d.nodeSeq) && p.sensors[i].timestamp == ts
            && p.rawPayload == Rx(w, d) && p.alarm == Some(d.alarm) && p.lowBatt == Some(d.lowBatt)
  {
  }

  function LittleEndian(low: Byte, high: Byte): int {
    low as int + 256 * high as int
  }

  /** The two rows of a frame's bytes, column by column: the temperature with the supply voltage, and the
      raw humidity, each under the frame's time and counter; and the flags. */
  ghost predicate StoredAs(p: Payload, f: seq<Byte>, ts: real)
    requires |f| == 34
  {
    && NormalizeSerial(ToHex(f[7..15])) == Some(p.serialNumber)
    && Rows(p) == [
         Measurement(Sensor(p.serialNumber, 0), ts, Some(LittleEndian(f[15], f[16])),
                     Some((LittleEndian(f[20], f[21]) - if f[21] >= 128 then 65536 else 0) as real / 100.0),
                     None, None, Some(LittleEndian(f[18], f[19]))),
         Measurement(Sensor(p.serialNumber, 1), ts, Some(LittleEndian(f[15], f[16])),
                     None, Some(LittleEndian(f[22], f[23]) as real), None, None)]
    && p.alarm == Some(Bits8(f[6])[6] || f[5] == 5) && p.lowBatt == Some(Bits8(f[6])[5])
  }

  /** An accepted wrapper is stored as the bytes of its frame. */
  lemma {:induction false} StoredAsFrame(w: Wrapper, gwSerial: string, now: real, p: Payload, input: seq<Byte>, f: seq<Byte>)
    requires ParseGatewayRx(w, gwSerial, now) == Result.Ok(p)
    requires FromHex(w.raw) == Some(input) && |input| >= 34 && f == input[|input| - 34..]
    ensures w.tsMs.Some? && StoredAs(p, f, w.tsMs.value)
  {
    ParsedPayload(w, gwSerial, now);
    var d := DecodeHmV36(w.raw).value;
    DecodedFields(input, f, d);
    StoredAsFields(w, d, p.serialNumber, w.tsMs.value, gwSerial, f);
  }

  lemma {:induction false} StoredAsFields(w: Wrapper, d: Decoded, serial: string, ts: real, gwSerial: string, f: seq<Byte>)
    requires |f| == 34 && NormalizeSerial(ToHex(f[7..15])) == Some(serial)
    requires d.nodeSeq == LittleEndian(f[15], f[16]) && d.vccMv == LittleEndian(f[18], f[19])
    requires d.tempC == (LittleEndian(f[20], f[21]) - if f[21] >= 128 then 65536 else 0) as real / 100.0
    requires d.humidityAdc == LittleEndian(f[22], f[23])
    requires d.alarm == (Bits8(f[6])[6] || f[5] == 5) && d.lowBatt == Bits8(f[6])[5]
    ensures StoredAs(PayloadOf(w, d, serial, ts, gwSerial), f, ts)
  {
    var p := PayloadOf(w, d, serial, ts, gwSerial);
    assert |Rows(p)| == 2;
    assert Rows(p)[0] == RowOf(serial, p.sensors[0]) && Rows(p)[1] == RowOf(serial, p.sensors[1]);
  }

  /** So over every sequence of payloads the program ingests, alarm events alternate starting with
      raised, raised minus cleared is 1 exactly when the stored flag is true, and the stored flag is the
      last delivered one. */
  lemma {:induction false} IngestedAlarmEdges(ps: seq<Payload>, serial: string, flag: Flag)
    requires forall k :: 0 <= k < |ps| ==> Ingested(ps[k])
    ensures var s := Run(INITIAL, ps);
            var feed := Feed(s.events, serial, flag);
            Alternates(feed)
            && Count(feed, true) - Count(feed, false) == (if Stored(s, serial, flag) == Some(true) then 1 else 0)
            && Stored(s, serial, flag) == LastSeen(ps, serial, flag)
  {
    forall k | 0 <= k < |ps|
      ensures BothOrNone(ps[k])
    {
      IngestedBothOrNone(ps[k]);
    }
    AlarmEdges(ps, serial, flag);
  }

  /** No payload the program ingests drops a set flag, so events and stored flag are in step after
      every delivery. */
  lemma {:induction false} IngestedInStep(ps: seq<Payload>, serial: string, flag: Flag)
    requires forall k :: 0 <= k < |ps| ==> Ingested(ps[k])
    ensures NeverDrops(ps, serial, flag) && AlwaysInStep(ps, serial, flag)
  {
    if ps == [] {
    } else {
      IngestedInStep(ps[..|ps| - 1], serial, flag);
      IngestedBothOrNone(ps[|ps| - 1]);
    }
    RunInStepIff(ps, serial, flag);
  }

  /** A wrapper that is delivered again, however much later and whatever came in between, stores
      neither a reading nor a raw copy. */
  lemma {:induction false} RedeliveredWrapper(
    s: State, ps: seq<Payload>, w: Wrapper, gwSerial: string, now: real, later: real)
    requires now <= later && ParseGatewayRx(w, gwSerial, now).Ok?
    requires ParseGatewayRx(w, gwSerial, now).value in ps
    ensures ParseGatewayRx(w, gwSerial, later).Ok?
    ensures var t := Deliver(Run(s, ps), ParseGatewayRx(w, gwSerial, later).value);
            t.measurements == Run(s, ps).measurements && t.raw == Run(s, ps).raw
  {
    ParseOutcomes(w, gwSerial, now, later);
    var p := ParseGatewayRx(w, gwSerial, now).value;
    RedeliveryStoresNothing(s, ps, p);
    RawKept(s, ps, p);
  }

  lemma {:induction false} RawKept(s: State, ps: seq<Payload>, p: Payload)
    requires p in ps
    ensures Raw(p.serialNumber, p.rawPayload) in Run(s, ps).raw
  {
    var front, last := ps[..|ps| - 1], ps[|ps| - 1];
    assert ps == front + [last];
    if last != p {
      RawKept(s, front, p);
    }
  }

  /** One radio frame under two wrappers, as when a node resends it or two gateways hear it: once its
      readings are in the table, no other wrapper of it stores any, whatever its time. */
  lemma {:induction false} OneFrameStoredOnce(
    s: State, w: Wrapper, v: Wrapper, wSerial: string, vSerial: string, wNow: real, vNow: real, p: Payload, q: Payload)
    requires ParseGatewayRx(w, wSerial, wNow) == Result.Ok(p) && ParseGatewayRx(v, vSerial, vNow) == Result.Ok(q)
    requires DecodeHmV36(w.raw) == DecodeHmV36(v.raw)
    requires forall i :: 0 <= i < |Rows(p)| ==> Rows(p)[i] in s.measurements
    ensures Deliver(s, q).measurements == s.measurements
  {
    ParsedPayload(w, wSerial, wNow);
    ParsedPayload(v, vSerial, vNow);
    var d := DecodeHmV36(w.raw).value;
    SameCounters(s, w, v, d, p.serialNumber, w.tsMs.value, v.tsMs.value, wSerial, vSerial);
  }

  lemma {:induction false} SameCounters(
    s: State, w: Wrapper, v: Wrapper, d: Decoded, serial: string, wTs: real, vTs: real, wSerial: string, vSerial: string)
    requires var p := PayloadOf(w, d, serial, wTs, wSerial);
             forall i :: 0 <= i < |Rows(p)| ==> Rows(p)[i] in s.measurements
    ensures Store(s.measurements, Rows(PayloadOf(v, d, serial, vTs, vSerial))) == s.measurements
  {
    var p, q := PayloadOf(w, d, serial, wTs, wSerial), PayloadOf(v, d, serial, vTs, vSerial);
    forall i | 0 <= i < |Rows(q)|
      ensures Taken(s.measurements, Rows(q)[i])
    {
      PayloadShape(w, d, serial, wTs, wSerial, i);
      PayloadShape(v, d, serial, vTs, vSerial, i);
      assert Clash(Rows(p)[i], Rows(q)[i]);
    }
    StoreNothing(s.measurements, Rows(q));
  }
}
