/** parse_gateway_rx: from the gateway's /rx wrapper to the two sensor readings of a frame. */
module GatewayRx {
  import opened Wrappers
  import opened Hex
  import opened HmFrame
  import opened Payloads

  /** Milliseconds since the epoch of 2020-01-01T00:00:00Z. */
  const YEAR_2020_MS: real := 1577836800000.0
  const FIVE_MINUTES_MS: real := 300000.0

  function PlausibleTimestamp(tsMs: Option<real>, nowMs: real): Option<real> {
    match tsMs
    case None => None
    case Some(ts) => if YEAR_2020_MS < ts < nowMs + FIVE_MINUTES_MS then Some(ts) else None
  }

  function ParseGatewayRx(w: Wrapper, gwSerial: string, nowMs: real): Result<Payload> {
    match DecodeHmV36(w.raw)
    case Failed(reason) => Failed(reason)
    case Ok(d) =>
      match NormalizeSerial(d.uid)
      case None => Failed(BadSerial)
      case Some(serial) =>
        match PlausibleTimestamp(w.tsMs, nowMs)
        case None => Failed(BadTimestamp)
        case Some(ts) =>
          Ok(PayloadOf(w, d, serial, ts, gwSerial))
  }

  /** The readings of a decoded frame. The humidity is the raw ADC. */
  function PayloadOf(w: Wrapper, d: Decoded, serial: string, ts: real, gwSerial: string): Payload {
    Payload(serial,
            [Reading(0, "temperature", ts, "t", Some(d.tempC), None, None, Some(d.vccMv), Some(d.nodeSeq),
                     w.rssi, Some(d.pending)),
             Reading(1, "humidity", ts, "h", None, Some(d.humidityAdc as real), None, None, Some(d.nodeSeq),
                     w.rssi, None)],
            Rx(w, d), gwSerial, Some(d.alarm), Some(d.lowBatt))
  }

  /** A decoded frame always has a serial, so the only reasons of its own that the parser can give
      are the decoder's and an unusable timestamp; and its readings are dated by the frame, never
      by the clock: parsing the same wrapper later gives the same payload or none. */
  lemma {:induction false} ParseOutcomes(w: Wrapper, gwSerial: string, now: real, later: real)
    requires now <= later
    ensures ParseGatewayRx(w, gwSerial, now).Ok? <==>
            DecodeHmV36(w.raw).Ok? && w.tsMs.Some? && 1577836800000.0 < w.tsMs.value < now + 300000.0
    ensures ParseGatewayRx(w, gwSerial, now) != Failed(BadSerial)
    ensures ParseGatewayRx(w, gwSerial, now).Ok? ==>
            ParseGatewayRx(w, gwSerial, later) == ParseGatewayRx(w, gwSerial, now)
  {
    var decoded := DecodeHmV36(w.raw);
    if decoded.Ok? {
      var input := FromHex(w.raw).value;
      AcceptedIff(input);
      var uid := input[|input| - FRAME_LEN..][7..15];
      UidSerial(uid, uid);
    }
  }

  /** Two accepted wrappers carry the same serial exactly when their frames carry the same uid. */
  lemma {:induction false} SameSerialIffSameUid(w: Wrapper, v: Wrapper, gwSerial: string, now: real)
    requires ParseGatewayRx(w, gwSerial, now).Ok? && ParseGatewayRx(v, gwSerial, now).Ok?
    ensures ParseGatewayRx(w, gwSerial, now).value.serialNumber == ParseGatewayRx(v, gwSerial, now).value.serialNumber
       <==> DecodeHmV36(w.raw).value.uid == DecodeHmV36(v.raw).value.uid
  {
    var a, b := FromHex(w.raw).value, FromHex(v.raw).value;
    AcceptedIff(a);
    AcceptedIff(b);
    UidSerial(a[|a| - FRAME_LEN..][7..15], b[|b| - FRAME_LEN..][7..15]);
  }
}
