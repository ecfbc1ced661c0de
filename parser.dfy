/**
 * The message parser: turns a completed data frame, read straight out of the
 * receive buffer, into published sensor readings and climate state.
 *
 * Temperatures are exact reals: the device reports `byte / 2 - 20` degrees,
 * which is exact in half degrees.
 */
module Parser {
  import opened Messages
  import opened Framing

  datatype Option<+T> = None | Some(value: T)

  /** The climate framework's fan modes. */
  datatype FanMode = FanOn | FanOff | FanAuto | FanLow | FanMedium | FanHigh | FanMiddle | FanFocus | FanDiffuse

  /** The climate framework's operating modes. */
  datatype ClimateMode = ModeOff | ModeHeatCool | ModeCool | ModeHeat | ModeFanOnly | ModeDry | ModeAuto

  /** The climate state the controller publishes. `None` stands for a value
      never set (the framework's NAN or empty optional). */
  datatype Climate = Climate(fanMode: Option<FanMode>, mode: ClimateMode, target: Option<real>, current: Option<real>)

  /** The numeric sensors the controller can publish to. */
  datatype Sensor =
    | SupplyAirPercentage | ExhaustAirPercentage | SupplyFanSpeed | ExhaustFanSpeed
    | OutsideAirTemperature | SupplyAirTemperature | ReturnAirTemperature | ExhaustAirTemperature

  /** Which sinks are configured: the numeric sensors and the bypass-valve
      binary sensor. An unwired sink is never published to. */
  datatype Wiring = Wiring(sensors: set<Sensor>, bypassValve: bool)

  /** One observable action of the controller, in the order it happens: a
      publish_state call or a byte written to the UART. */
  datatype Event =
    | SensorPublished(sensor: Sensor, value: real)
    | ValvePublished(open: bool)
    | ClimatePublished(state: Climate)
    | ByteWritten(b: uint8)

  /** The actions of writing `bs` to the UART, byte by byte. */
  function Writes(bs: seq<uint8>): seq<Event>
  {
    seq(|bs|, i requires 0 <= i < |bs| => ByteWritten(bs[i]))
  }

  /** Writing two runs of bytes one after the other is writing their
      concatenation. */
  lemma WritesAppend(a: seq<uint8>, b: seq<uint8>)
    ensures Writes(a + b) == Writes(a) + Writes(b)
  {
  }

  /** A temperature byte in degrees Celsius. */
  function Temperature(b: uint8): real
  {
    b as real / 2.0 - 20.0
  }

  /** A temperature byte is exact in half degrees: twice the temperature is
      the byte minus 40, and distinct bytes give distinct temperatures. */
  lemma TemperatureInHalfDegrees(b: uint8, b': uint8)
    ensures 2.0 * Temperature(b) == (b - 40) as real
    ensures -20.0 <= Temperature(b) <= 107.5
    ensures Temperature(b) == Temperature(b') <==> b == b'
  {
  }

  /** The fan-speed category of the fan-status response (byte 8). */
  function FanModeOfStatus(b: uint8): Option<FanMode>
  {
    if b == 0x00 then Some(FanLow)
    else if b == 0x01 then Some(FanMedium)
    else if b == 0x02 then Some(FanHigh)
    else None
  }

  function Publish(w: Wiring, s: Sensor, value: real): seq<Event>
  {
    if s in w.sensors then [SensorPublished(s, value)] else []
  }

  /** The fan-status response: airflow percentages, fan speeds (scaled by
      20) and, from byte 8, the fan mode when it is 0, 1 or 2. */
  function ParseFanStatus(msg: seq<uint8>, c: Climate, w: Wiring): (Climate, seq<Event>)
    requires |msg| >= 9
  {
    var events :=
      Publish(w, SupplyAirPercentage, msg[0] as real)
      + Publish(w, ExhaustAirPercentage, msg[1] as real)
      + Publish(w, SupplyFanSpeed, msg[2] as real * 20.0)
      + Publish(w, ExhaustFanSpeed, msg[3] as real * 20.0);
    var c' := match FanModeOfStatus(msg[8])
      case Some(m) => c.(fanMode := Some(m), mode := ModeFanOnly)
      case None => c;
    (c', events)
  }

  /** The temperature response: the bypass valve and the four air
      temperatures (supply air as the constant 0); the return-air temperature
      becomes the current temperature when its sensor is wired. */
  function ParseTemperature(msg: seq<uint8>, c: Climate, w: Wiring): (Climate, seq<Event>)
    requires |msg| >= 6
  {
    var events :=
      (if w.bypassValve then [ValvePublished(msg[0] != 0)] else [])
      + Publish(w, OutsideAirTemperature, Temperature(msg[3]))
      + Publish(w, SupplyAirTemperature, 0.0)
      + Publish(w, ReturnAirTemperature, Temperature(msg[4]))
      + Publish(w, ExhaustAirTemperature, Temperature(msg[5]));
    var c' := if ReturnAirTemperature in w.sensors then c.(current := Some(Temperature(msg[4]))) else c;
    (c', events)
  }

  /** The bypass-control response: byte 1 is the comfort temperature, which
      becomes the target and is published at once. */
  function ParseBypassControl(msg: seq<uint8>, c: Climate): (Climate, seq<Event>)
    requires |msg| >= 2
  {
    var c' := c.(target := Some(Temperature(msg[1])));
    (c', [ClimatePublished(c')])
  }

  /** Dispatch on the identifier of the frame in `buf` and read the payload
      from offset 5 on, whatever the frame's declared length. */
  function Parse(buf: seq<uint8>, c: Climate, w: Wiring): (Climate, seq<Event>)
    requires |buf| == BufferSize
  {
    var msg := buf[HeadLength..];
    var id := buf[IdentifierIdx];
    if id == FanStatusResponse then ParseFanStatus(msg, c, w)
    else if id == TemperatureResponse then ParseTemperature(msg, c, w)
    else if id == BypassControlResponse then ParseBypassControl(msg, c)
    else (c, [])
  }

  /** The response that carries each sensor's value. */
  function CarriedBy(s: Sensor): uint8
  {
    match s
    case SupplyAirPercentage | ExhaustAirPercentage | SupplyFanSpeed | ExhaustFanSpeed => FanStatusResponse
    case _ => TemperatureResponse
  }

  /** The value of each sensor, as read from the payload `msg` of the
      response that carries it. The supply-air temperature is always 0. */
  function Reading(s: Sensor, msg: seq<uint8>): real
    requires |msg| >= 6
  {
    match s
    case SupplyAirPercentage => msg[0] as real
    case ExhaustAirPercentage => msg[1] as real
    case SupplyFanSpeed => 20.0 * msg[2] as real
    case ExhaustFanSpeed => 20.0 * msg[3] as real
    case OutsideAirTemperature => Temperature(msg[3])
    case SupplyAirTemperature => 0.0
    case ReturnAirTemperature => Temperature(msg[4])
    case ExhaustAirTemperature => Temperature(msg[5])
  }

  /** A sensor receives a value from a parsed frame exactly when it is wired
      and the frame is the response that carries it, and the value is the
      sensor's reading from the payload. */
  lemma PublishedReadings(buf: seq<uint8>, c: Climate, w: Wiring, s: Sensor, v: real)
    requires |buf| == BufferSize
    ensures SensorPublished(s, v) in Parse(buf, c, w).1
      <==> s in w.sensors && buf[IdentifierIdx] == CarriedBy(s) && v == Reading(s, buf[HeadLength..])
  {
    var msg := buf[HeadLength..];
    var id := buf[IdentifierIdx];
    if id == FanStatusResponse {
      FanStatusReadings(msg, c, w, s, v);
    } else if id == TemperatureResponse {
      TemperatureReadings(msg, c, w, s, v);
    }
  }

  lemma FanStatusReadings(msg: seq<uint8>, c: Climate, w: Wiring, s: Sensor, v: real)
    requires |msg| >= 9
    ensures SensorPublished(s, v) in ParseFanStatus(msg, c, w).1
      <==> s in w.sensors && CarriedBy(s) == FanStatusResponse && v == Reading(s, msg)
  {
  }

  lemma TemperatureReadings(msg: seq<uint8>, c: Climate, w: Wiring, s: Sensor, v: real)
    requires |msg| >= 6
    ensures SensorPublished(s, v) in ParseTemperature(msg, c, w).1
      <==> s in w.sensors && CarriedBy(s) == TemperatureResponse && v == Reading(s, msg)
  {
  }

  /** The bypass valve is published exactly when it is wired and the frame
      is a temperature response, as open when payload byte 0 is non-zero. */
  lemma PublishedValve(buf: seq<uint8>, c: Climate, w: Wiring, open: bool)
    requires |buf| == BufferSize
    ensures ValvePublished(open) in Parse(buf, c, w).1
      <==> w.bypassValve && buf[IdentifierIdx] == TemperatureResponse && open == (buf[HeadLength] != 0)
  {
  }

  /** What parsing does to the climate state, response by response; every
      field not named stays as it was, and only the bypass-control response
      publishes the climate state. */
  lemma ParsedClimate(buf: seq<uint8>, c: Climate, w: Wiring)
    requires |buf| == BufferSize
    ensures var (c', events) := Parse(buf, c, w);
      var id := buf[IdentifierIdx];
      var msg := buf[HeadLength..];
      && (id != FanStatusResponse && id != TemperatureResponse && id != BypassControlResponse
          ==> c' == c && events == [])
      && (id == FanStatusResponse ==>
            c'.target == c.target && c'.current == c.current
            && (msg[8] <= 2 ==> c'.fanMode == Some([FanLow, FanMedium, FanHigh][msg[8]]) && c'.mode == ModeFanOnly)
            && (msg[8] > 2 ==> c' == c))
      && (id == TemperatureResponse ==>
            c'.fanMode == c.fanMode && c'.mode == c.mode && c'.target == c.target
            && c'.current == if ReturnAirTemperature in w.sensors then Some(Temperature(msg[4])) else c.current)
      && (id == BypassControlResponse ==>
            c' == c.(target := Some(Temperature(msg[1]))) && events == [ClimatePublished(c')])
      && (ClimatePublished(c') in events <==> id == BypassControlResponse)
  {
  }

  /** The parser never looks at the declared data length: a frame whose
      length byte differs parses the same, reading whatever the buffer holds
      at the payload offsets (bytes left over from an earlier, longer frame
      included). */
  lemma ParseIgnoresDataLength(buf: seq<uint8>, len: uint8, c: Climate, w: Wiring)
    requires |buf| == BufferSize
    ensures Parse(buf[DataLengthIdx := len], c, w) == Parse(buf, c, w)
  {
    assert buf[DataLengthIdx := len][HeadLength..] == buf[HeadLength..];
  }

  /** Fan status `[50, 60, 2, 3, 0, 0, 0, 0, 1]`: airflows 50 and 60, fan
      speeds 40 and 60, fan mode medium. */
  lemma FanStatusScenario(buf: seq<uint8>, c: Climate, w: Wiring)
    requires |buf| == BufferSize && buf[IdentifierIdx] == FanStatusResponse
    requires buf[HeadLength..HeadLength + 9] == [50, 60, 2, 3, 0, 0, 0, 0, 1]
    requires w.sensors == {SupplyAirPercentage, ExhaustAirPercentage, SupplyFanSpeed, ExhaustFanSpeed}
    ensures Parse(buf, c, w).1 == [SensorPublished(SupplyAirPercentage, 50.0), SensorPublished(ExhaustAirPercentage, 60.0),
                                   SensorPublished(SupplyFanSpeed, 40.0), SensorPublished(ExhaustFanSpeed, 60.0)]
    ensures Parse(buf, c, w).0.fanMode == Some(FanMedium)
  {
    var msg := buf[HeadLength..];
    assert msg[0] == 50 && msg[1] == 60 && msg[2] == 2 && msg[3] == 3 && msg[8] == 1 by {
      assert msg[..9] == buf[HeadLength..HeadLength + 9];
    }
  }

  /** Temperature response `[1, 0, 0, 84, 84, 84]`: valve open, outside,
      return and exhaust air at 22 degrees, which also becomes the current
      temperature; the supply-air temperature reads 0. */
  lemma TemperatureScenario(buf: seq<uint8>, c: Climate)
    requires |buf| == BufferSize && buf[IdentifierIdx] == TemperatureResponse
    requires buf[HeadLength..HeadLength + 6] == [1, 0, 0, 84, 84, 84]
    ensures var w := Wiring({OutsideAirTemperature, SupplyAirTemperature, ReturnAirTemperature, ExhaustAirTemperature}, true);
      Parse(buf, c, w).1 == [ValvePublished(true), SensorPublished(OutsideAirTemperature, 22.0),
                             SensorPublished(SupplyAirTemperature, 0.0), SensorPublished(ReturnAirTemperature, 22.0),
                             SensorPublished(ExhaustAirTemperature, 22.0)]
      && Parse(buf, c, w).0.current == Some(22.0)
  {
    var msg := buf[HeadLength..];
    assert msg[0] == 1 && msg[3] == 84 && msg[4] == 84 && msg[5] == 84 by {
      assert msg[..6] == buf[HeadLength..HeadLength + 6];
    }
  }
}
