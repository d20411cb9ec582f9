/** What the parsers hand to ingestion. */
module Payloads {
  import opened Wrappers
  import opened HmFrame

  /** A gateway's /rx wrapper: the fields its parser looks at, and the rest of it as text. A ts_ms that
      is missing or not a number is None. */
  datatype Wrapper = Wrapper(raw: string, tsMs: Option<real>, rssi: Option<int>, rest: string)

  /** raw_payload: the JSON of another parser, or a wrapper with its decoded fields. */
  datatype RawPayload = Json(text: string) | Rx(wrapper: Wrapper, decoded: Decoded)

  datatype Reading = Reading(
    sensorIndex: int, sensorType: string, timestamp: real, sensorKey: string,
    temperatureC: Option<real>, humidityPct: Option<real>, voltageCondV: Option<real>, supplyMv: Option<int>,
    msgCounter: Option<int>, rssiDbm: Option<int>, bufferUsed: Option<int>)

  datatype Payload = Payload(
    serialNumber: string, sensors: seq<Reading>, rawPayload: RawPayload, gatewaySerial: string,
    alarm: Option<bool>, lowBatt: Option<bool>)
}
