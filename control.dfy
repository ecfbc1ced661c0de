/**
 * The orchestrator's pure side: the commands a control request or a poll
 * tick puts on the line, and the climate state a control request leaves.
 */
module Control {
  import opened Messages
  import opened Framing
  import opened Parser

  /** A control request: each part is optional. */
  datatype ClimateCall = ClimateCall(fanMode: Option<FanMode>, targetTemperature: Option<real>)

  /** A C array of `size` bytes initialised from `init`: the elements without
      an initialiser are zero. */
  function ZeroFilled(init: seq<uint8>, size: nat): (a: seq<uint8>)
    requires |init| <= size
    ensures |a| == size && a[..|init|] == init
    ensures forall i :: |init| <= i < size ==> a[i] == 0
  {
    init + seq(size - |init|, _ => 0)
  }

  /** The ventilation level for a fan mode, or -1 for a mode with no level. */
  function LevelOf(m: FanMode): int
  {
    match m
    case FanHigh => 0x04
    case FanMedium => 0x03
    case FanLow => 0x02
    case FanOff => 0x01
    case _ => -1
  }

  /** Exactly the four modes high, medium, low and off have a level; they get
      the distinct levels 4, 3, 2 and 1, and the three speeds are the fan
      status codes the parser reads back, shifted by two. */
  lemma LevelMapping(m: FanMode, m': FanMode)
    ensures LevelOf(m) >= 0 <==> m == FanHigh || m == FanMedium || m == FanLow || m == FanOff
    ensures LevelOf(m) >= 0 ==> 1 <= LevelOf(m) <= 4
    ensures LevelOf(m) >= 0 && LevelOf(m) == LevelOf(m') ==> m == m'
    ensures LevelOf(m) >= 2 ==> FanModeOfStatus(LevelOf(m) - 2) == Some(m)
  {
  }

  /** The bytes set_level_ writes: a set-level frame with payload
      `[level, 0]`, or nothing for a level outside 0..4. */
  function SetLevelCommand(level: int): seq<uint8>
  {
    if level < 0 || level > 4 then []
    else Frame(SetLevelRequest, ZeroFilled([level], SetLevelLength))
  }

  /** The comfort-temperature byte: `(t + 20) * 2` truncated, which for a
      temperature in range is its floor. */
  function ComfortByte(t: real): uint8
    requires 12.0 <= t <= 29.0
  {
    ((t + 20.0) * 2.0).Floor
  }

  /** Reading a comfort byte back as a temperature (as the bypass-control
      response is read) gives the requested temperature rounded down to the
      half degree, and gives it exactly when it is a whole number of half
      degrees. */
  lemma ComfortByteRoundTrip(t: real)
    requires 12.0 <= t <= 29.0
    ensures 64 <= ComfortByte(t) <= 98
    ensures Temperature(ComfortByte(t)) <= t < Temperature(ComfortByte(t)) + 0.5
    ensures (2.0 * t).Floor as real == 2.0 * t ==> Temperature(ComfortByte(t)) == t
  {
    var x := (t + 20.0) * 2.0;
    assert x.Floor as real <= x < x.Floor as real + 1.0;
    assert (2.0 * t).Floor == x.Floor - 40 by {
      assert 2.0 * t == x - 40.0;
    }
  }

  /** The bytes set_comfort_temperature_ writes: a set-comfort-temperature
      frame with the 10-byte payload `[0, byte, 0, ...]`, or nothing for a
      temperature outside 12..29 degrees. */
  function SetComfortTemperatureCommand(t: real): seq<uint8>
  {
    if t < 12.0 || t > 29.0 then []
    else Frame(SetComfortTemperatureRequest, ZeroFilled([0x00, ComfortByte(t)], SetComfortTemperatureLength))
  }

  /** The bytes reset_filter writes. */
  function ResetFilterCommand(): seq<uint8>
  {
    Frame(SetResetRequest, ZeroFilled([0, 0, 0, 1], SetResetLength))
  }

  /** The bytes a control request writes: a set-level command for a mapped
      fan mode, then a set-comfort-temperature command for an accepted target. */
  function ControlCommands(call: ClimateCall): seq<uint8>
  {
    FanModeCommand(call.fanMode) + TargetCommand(call.targetTemperature)
  }

  /** The bytes the fan-mode part of a control request writes. */
  function FanModeCommand(fanMode: Option<FanMode>): seq<uint8>
  {
    match fanMode
    case Some(m) => if LevelOf(m) >= 0 then SetLevelCommand(LevelOf(m)) else []
    case None => []
  }

  /** The bytes the target-temperature part of a control request writes. */
  function TargetCommand(target: Option<real>): seq<uint8>
  {
    match target
    case Some(t) => SetComfortTemperatureCommand(t)
    case None => []
  }

  /** The climate state after a control request: the requested fan mode and
      target are stored whether or not a command was sent for them. */
  function ApplyControl(c: Climate, call: ClimateCall): Climate
  {
    c.(fanMode := if call.fanMode.Some? then call.fanMode else c.fanMode,
       target := if call.targetTemperature.Some? then call.targetTemperature else c.target)
  }

  /** A control request writes a set-level frame exactly for the four mapped
      fan modes, with payload `[level, 0]`, and a set-comfort-temperature frame
      exactly for a target within 12..29 degrees, whose 10-byte payload
      carries the comfort byte at position 1. */
  lemma ControlCommandsShape(call: ClimateCall)
    ensures var level := if call.fanMode.Some? then LevelOf(call.fanMode.value) else -1;
      var levelBytes := if level >= 0 then Frame(SetLevelRequest, [level, 0]) else [];
      var comfortOk := call.targetTemperature.Some? && 12.0 <= call.targetTemperature.value <= 29.0;
      var comfortBytes :=
        if comfortOk
        then Frame(SetComfortTemperatureRequest, [0, ComfortByte(call.targetTemperature.value), 0, 0, 0, 0, 0, 0, 0, 0])
        else [];
      ControlCommands(call) == levelBytes + comfortBytes
      && |levelBytes| == (if level >= 0 then 10 else 0)
      && |comfortBytes| == (if comfortOk then 18 else 0)
  {
    if call.fanMode.Some? && LevelOf(call.fanMode.value) >= 0 {
      assert ZeroFilled([LevelOf(call.fanMode.value)], SetLevelLength) == [LevelOf(call.fanMode.value), 0];
    }
    if call.targetTemperature.Some? && 12.0 <= call.targetTemperature.value <= 29.0 {
      var b := ComfortByte(call.targetTemperature.value);
      assert ZeroFilled([0x00, b], SetComfortTemperatureLength) == [0, b, 0, 0, 0, 0, 0, 0, 0, 0];
    }
  }

  /** A request the device cannot take (a fan mode with no level, a target
      outside 12..29 degrees) sends nothing, yet both values are stored. */
  lemma RejectedRequestsStillStored(c: Climate, m: FanMode, t: real)
    requires LevelOf(m) < 0 && (t < 12.0 || t > 29.0)
    ensures var call := ClimateCall(Some(m), Some(t));
      ControlCommands(call) == []
      && ApplyControl(c, call) == c.(fanMode := Some(m), target := Some(t))
  {
  }

  /** Fan mode high sends identifier 0xA0 with payload `[4, 0]`. */
  lemma SetLevelHighScenario()
    ensures ControlCommands(ClimateCall(Some(FanHigh), None)) == Frame(0xA0, [0x04, 0x00])
  {
    assert ZeroFilled([4], SetLevelLength) == [4, 0];
  }

  /** 29.5 degrees is rejected; 29.0 is accepted and encodes as 98 (0x62). */
  lemma ComfortBoundaryScenario()
    ensures ControlCommands(ClimateCall(None, Some(29.5))) == []
    ensures ControlCommands(ClimateCall(None, Some(29.0))) == Frame(0x8D, [0, 0x62, 0, 0, 0, 0, 0, 0, 0, 0])
  {
    assert ComfortByte(29.0) == 98;
    assert ZeroFilled([0, 98], SetComfortTemperatureLength) == [0, 98, 0, 0, 0, 0, 0, 0, 0, 0];
  }

  /** The reset-filter command carries the payload `{0, 0, 0, 1}`. */
  lemma ResetFilterPayload()
    ensures ResetFilterCommand() == Frame(SetResetRequest, [0, 0, 0, 1])
  {
    assert ZeroFilled([0, 0, 0, 1], SetResetLength) == [0, 0, 0, 1];
  }

  // ---- Poll schedule ----

  /** A fan-status query is worth sending when one of the four fan sensors is wired. */
  predicate FanQueryWanted(w: Wiring)
  {
    SupplyAirPercentage in w.sensors || ExhaustAirPercentage in w.sensors
    || SupplyFanSpeed in w.sensors || ExhaustFanSpeed in w.sensors
  }

  /** A temperature query is worth sending when the outside, supply or return
      sensor is wired. The outside sensor is tested twice and the exhaust
      sensor not at all, as in the controller. */
  predicate TemperatureQueryWanted(w: Wiring)
  {
    OutsideAirTemperature in w.sensors || SupplyAirTemperature in w.sensors
    || ReturnAirTemperature in w.sensors || OutsideAirTemperature in w.sensors
  }

  /** The status query issued on a tick with the given counter, if any. */
  function PollRequest(counter: int, w: Wiring): Option<uint8>
  {
    if counter == 0 then (if FanQueryWanted(w) then Some(FanStatusRequest) else None)
    else if counter == 1 then (if TemperatureQueryWanted(w) then Some(TemperatureRequest) else None)
    else if counter == 2 then Some(BypassControlRequest)
    else None
  }

  /** The bytes a tick writes. */
  function PollCommand(counter: int, w: Wiring): seq<uint8>
  {
    match PollRequest(counter, w)
    case Some(id) => Frame(id, [])
    case None => []
  }

  /** The counter after a tick: one more, wrapping from 9 back to 0. From the
      initial -1 or any later value it stays within 0..8. */
  function NextCounter(counter: int): (r: int)
    ensures counter >= -1 ==> 0 <= r <= 8
  {
    if counter + 1 > 8 then 0 else counter + 1
  }

  /** The counter after `n` ticks from the initial -1. */
  function CounterAfter(n: nat): int
  {
    if n == 0 then -1 else NextCounter(CounterAfter(n - 1))
  }

  /** The counter cycles through 0..8, starting at 0 on the second tick. */
  lemma {:induction false} CounterCycle(n: nat)
    ensures CounterAfter(n) == if n == 0 then -1 else (n - 1) % 9
  {
    if n > 1 {
      CounterCycle(n - 1);
      var q, m := (n - 2) / 9, (n - 2) % 9;
      assert n - 1 == 9 * q + m + 1;
      if m == 8 {
        assert n - 1 == 9 * (q + 1) + 0;
      }
    }
  }

  /** Tick `n` (counting from 0) sends the fan-status query when n mod 9 is 1
      and a fan sensor is wired, the temperature query when n mod 9 is 2 and a
      temperature sensor is wired, the bypass-control query whenever n mod 9
      is 3, and nothing otherwise; in particular the very first tick sends
      nothing. */
  lemma PollSchedule(n: nat, w: Wiring)
    ensures PollRequest(CounterAfter(n), w) ==
      if n % 9 == 1 && FanQueryWanted(w) then Some(FanStatusRequest)
      else if n % 9 == 2 && TemperatureQueryWanted(w) then Some(TemperatureRequest)
      else if n % 9 == 3 then Some(BypassControlRequest)
      else None
  {
    CounterCycle(n);
  }

  /** With only the exhaust-air temperature sensor wired, no temperature query
      is ever sent, so that sensor is never updated. */
  lemma ExhaustAloneNeverPolled(counter: int, valve: bool)
    ensures PollRequest(counter, Wiring({ExhaustAirTemperature}, valve)) != Some(TemperatureRequest)
  {
  }
}
