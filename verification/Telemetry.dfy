/** Telemetry events as the collector sees them. A character of a string stands for one byte. */
module Telemetry {
  import opened Octets
  import opened Bytes

  datatype Option<+T> = None | Some(value: T)

  const SCHEMA_VERSION: U32 := 1

  /** A double is either a finite number or one of the infinities and NaNs. */
  datatype Double = Finite(value: real) | NotFinite

  datatype Vector3 = Vector3(x: Double, y: Double, z: Double)

  // Enumerations are open: a message may carry any number.

  const CLOCK_UNSPECIFIED: int := 0
  const CLOCK_UTC: int := 1
  const CLOCK_DEVICE_MONOTONIC: int := 2

  const STATE_UNSPECIFIED: int := 0
  const STATE_INITIALIZING: int := 1
  const STATE_READY: int := 2
  const STATE_DEGRADED: int := 3
  const STATE_STOPPED: int := 4

  const SEVERITY_UNSPECIFIED: int := 0
  const SEVERITY_WARNING: int := 1
  const SEVERITY_ERROR: int := 2
  const SEVERITY_CRITICAL: int := 3

  datatype Payload =
    | NoPayload
    | Accelerometer(acceleration: Vector3)
    | Gyroscope(rotation: Vector3)
    | Gps(latitude: Double, longitude: Double, accuracy: Double, mocked: bool)
    | Temperature(celsius: Double)
    | Camera(frame: U64, width: U32, height: U32, exposure: U64)
    | ControllerStatus(state: int, detail: string)
    | Fault(severity: int, code: U32, message: string)

  datatype Event = Event(
    schemaVersion: U32,
    producerId: string,
    sequenceNumber: U64,
    sourceTimestamp: I64,
    sourceClock: int,
    payload: Payload)

  /** An event with the time at which the collector received it. */
  datatype CollectedEvent = CollectedEvent(event: Event, arrival: I64)

  /** The message encoding, which is library code: serialising may fail, and so may parsing. */
  datatype Codec = Codec(serialize: Event -> Option<seq<Byte>>, parse: seq<Byte> -> Option<Event>)

  /** What the encoding is trusted for: what was serialised parses back to itself. */
  ghost predicate RoundTrips(codec: Codec) {
    forall e: Event :: codec.serialize(e).Some? ==> codec.parse(codec.serialize(e).value) == Some(e)
  }

  /** And for this: an empty message carries no schema version, so it is no current event. */
  ghost predicate EmptyIsNotCurrent(codec: Codec) {
    codec.parse([]).Some? ==> codec.parse([]).value.schemaVersion != SCHEMA_VERSION
  }
}
