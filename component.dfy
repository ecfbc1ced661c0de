/**
 * The ComfoAir controller component: the receive loop, the poll tick, the
 * control entry point and the command writer, over the controller's own
 * fields. UART writes and publish_state calls are appended, in the order
 * they happen, to one log of events.
 */
module ComfoAir {
  import opened Messages
  import opened Checksums
  import opened Framing
  import opened Parser
  import opened Control

  /** Everything one received byte can change. */
  datatype Receiver = Receiver(decoder: Decoder, climate: Climate, events: seq<Event>)

  /** One received byte: the decoder step, then, for a completed data frame
      (not an acknowledgment), the two-byte acknowledgment and after it the
      parse. */
  function Receive(r: Receiver, b: uint8, w: Wiring): (r': Receiver)
    requires r.decoder.Valid()
    ensures r'.decoder.Valid()
  {
    var (d, check) := Feed(r.decoder, b);
    if check == Complete && d.buf[AckIdx] != Ack then
      var (c, events) := Parse(d.buf, r.climate, w);
      Receiver(d, c, r.events + Writes([Prefix, Ack]) + events)
    else
      r.(decoder := d)
  }

  /** A run of received bytes, in order. */
  function ReceiveAll(r: Receiver, bs: seq<uint8>, w: Wiring): (r': Receiver)
    requires r.decoder.Valid()
    ensures r'.decoder.Valid()
    decreases |bs|
  {
    if bs == [] then r else ReceiveAll(Receive(r, bs[0], w), bs[1..], w)
  }

  /** Receiving a run the decoder accepts changes nothing but the decoder
      until the last byte; then a data frame is acknowledged and, after the
      acknowledgment, parsed over the buffer as it stands, and an
      acknowledgment changes nothing more. */
  lemma {:induction false} ReceiveAccepted(r: Receiver, bs: seq<uint8>, w: Wiring)
    requires r.decoder.Valid() && |bs| >= 1
    requires Trace(r.decoder, bs) == Repeat(Continue, |bs| - 1) + [Complete]
    ensures var d := Run(r.decoder, bs);
      ReceiveAll(r, bs, w) ==
        if d.buf[AckIdx] != Ack
        then Receiver(d, Parse(d.buf, r.climate, w).0, r.events + Writes([Prefix, Ack]) + Parse(d.buf, r.climate, w).1)
        else r.(decoder := d)
    decreases |bs|
  {
    var (d1, c1) := Feed(r.decoder, bs[0]);
    var t := Repeat(Continue, |bs| - 1) + [Complete];
    assert c1 == t[0];
    if |bs| == 1 {
      assert bs[1..] == [];
    } else {
      assert c1 == Continue;
      assert Receive(r, bs[0], w) == r.(decoder := d1);
      assert t[1..] == Repeat(Continue, |bs[1..]| - 1) + [Complete];
      ReceiveAccepted(r.(decoder := d1), bs[1..], w);
    }
  }

  /** A data frame from the device, received from index 0, is acknowledged
      with `07 F3` and then parsed from a buffer that holds the frame in front
      of whatever the buffer held before: both acknowledgment bytes are
      written before anything is published. The index is back at 0. */
  lemma DataFrameAcknowledgedAndParsed(r: Receiver, id: uint8, payload: seq<uint8>, w: Wiring)
    requires r.decoder.Valid() && r.decoder.index == 0 && |payload| <= MaxDataLength
    ensures var f := Frame(id, payload);
      var buf := f + r.decoder.buf[|f|..];
      |buf| == BufferSize
      && ReceiveAll(r, f, w) ==
         Receiver(Decoder(buf, 0), Parse(buf, r.climate, w).0,
                  r.events + [ByteWritten(Prefix), ByteWritten(Ack)] + Parse(buf, r.climate, w).1)
  {
    var f := Frame(id, payload);
    var buf0 := r.decoder.buf;
    assert f[..0] + buf0[0..] == buf0;
    assert f[0..] == f;
    FrameSuffixAccepted(buf0, id, payload, 0);
    ReceiveAccepted(r, f, w);
    assert Writes([Prefix, Ack]) == [ByteWritten(Prefix), ByteWritten(Ack)];
  }

  /** Every query the poll schedule sends is answered by a response the
      parser handles: receiving the response frame, whatever its payload of
      at most 22 bytes, from index 0 writes the acknowledgment and then
      applies the parser's branch for that response to the payload. */
  lemma PolledResponsesParsed(r: Receiver, counter: int, w: Wiring, payload: seq<uint8>)
    requires r.decoder.Valid() && r.decoder.index == 0 && |payload| <= MaxDataLength
    requires PollRequest(counter, w).Some?
    ensures var q := PollRequest(counter, w).value;
      0 < q
      && var f := Frame(q - 1, payload);
      var buf := f + r.decoder.buf[|f|..];
      |buf| == BufferSize
      && var msg := buf[HeadLength..];
      var parsed :=
        if q == FanStatusRequest then Parser.ParseFanStatus(msg, r.climate, w)
        else if q == TemperatureRequest then Parser.ParseTemperature(msg, r.climate, w)
        else Parser.ParseBypassControl(msg, r.climate);
      msg[..|payload|] == payload
      && q in {FanStatusRequest, TemperatureRequest, BypassControlRequest}
      && ReceiveAll(r, f, w) == Receiver(Decoder(buf, 0), parsed.0, r.events + Writes([Prefix, Ack]) + parsed.1)
  {
    var q := PollRequest(counter, w).value;
    var f := Frame(q - 1, payload);
    DataFrameAcknowledgedAndParsed(r, q - 1, payload, w);
    var buf := f + r.decoder.buf[|f|..];
    var msg := buf[HeadLength..];
    assert buf[IdentifierIdx] == q - 1;
    assert msg[..|payload|] == payload;
    assert Writes([Prefix, Ack]) == [ByteWritten(Prefix), ByteWritten(Ack)];
    if q == FanStatusRequest {
      assert Parse(buf, r.climate, w) == Parser.ParseFanStatus(msg, r.climate, w);
    } else if q == TemperatureRequest {
      assert Parse(buf, r.climate, w) == Parser.ParseTemperature(msg, r.climate, w);
    } else {
      assert Parse(buf, r.climate, w) == Parser.ParseBypassControl(msg, r.climate);
    }
  }

  /** An acknowledgment from the device, received from index 0, writes
      nothing, publishes nothing and leaves the climate state alone. */
  lemma AckReceivedSilently(r: Receiver, w: Wiring)
    requires r.decoder.Valid() && r.decoder.index == 0
    ensures var r' := ReceiveAll(r, [Prefix, Ack], w);
      r'.events == r.events && r'.climate == r.climate
      && r'.decoder.index == 0
  {
    AckCompletesAtIndexOne(r.decoder.buf);
    ReceiveAccepted(r, [Prefix, Ack], w);
  }

  /** The buffer is never cleared and the parser never checks the length: a
      fan-status frame with at most 5 data bytes takes its fan mode from
      byte 13 of the buffer, left over from an earlier frame. */
  lemma ShortFanStatusReadsStaleByte(r: Receiver, payload: seq<uint8>, w: Wiring)
    requires r.decoder.Valid() && r.decoder.index == 0 && |payload| <= 5
    ensures ReceiveAll(r, Frame(FanStatusResponse, payload), w).climate.fanMode ==
      match FanModeOfStatus(r.decoder.buf[HeadLength + 8])
      case Some(m) => Some(m)
      case None => r.climate.fanMode
  {
    var f := Frame(FanStatusResponse, payload);
    DataFrameAcknowledgedAndParsed(r, FanStatusResponse, payload, w);
    var buf := f + r.decoder.buf[|f|..];
    assert buf[HeadLength + 8] == r.decoder.buf[HeadLength + 8];
    assert buf[IdentifierIdx] == FanStatusResponse;
  }

  /** Writing a frame is writing its head, its payload, its checksum byte
      and its trailer, in that order. */
  lemma WritesFrame(id: uint8, payload: seq<uint8>)
    requires |payload| < 0x100
    ensures Writes(Frame(id, payload)) ==
      Writes([Prefix, Head, 0x00, id, |payload|]) + Writes(payload)
      + Writes([EncoderChecksum(id, payload)]) + Writes([Prefix, Tail])
  {
    var head := [Prefix, Head, 0x00, id, |payload|];
    var c := [EncoderChecksum(id, payload)];
    assert Frame(id, payload) == head + payload + c + [Prefix, Tail];
    WritesAppend(head, payload);
    WritesAppend(head + payload, c);
    WritesAppend(head + payload + c, [Prefix, Tail]);
  }

  class ComfoAirComponent {
    /** Which sensor sinks are configured. */
    const wiring: Wiring

    // Receive buffer and decoder index.
    var data: array<uint8>
    var dataIndex: nat
    // Poll counter (int8_t in the controller; it never leaves -1..8).
    var updateCounter: int

    // Climate state.
    var fanMode: Option<FanMode>
    var mode: ClimateMode
    var targetTemperature: Option<real>
    var currentTemperature: Option<real>

    // Bytes written to the UART and publish_state calls, in order.
    var events: seq<Event>

    ghost predicate Valid()
      reads this
    {
      data.Length == BufferSize && dataIndex < BufferSize && -1 <= updateCounter <= 8
    }

    function ClimateState(): Climate
      reads this
    {
      Climate(fanMode, mode, targetTemperature, currentTemperature)
    }

    ghost function ReceiverState(): (r: Receiver)
      reads this, data
      requires Valid()
      ensures r.decoder.Valid()
    {
      Receiver(Decoder(data[..], dataIndex), ClimateState(), events)
    }

    constructor (wiring: Wiring)
      ensures Valid() && fresh(data) && this.wiring == wiring
      ensures dataIndex == 0 && updateCounter == -1
      ensures ClimateState() == Climate(None, ModeOff, None, None)
      ensures events == []
    {
      this.wiring := wiring;
      data := new uint8[BufferSize];
      dataIndex := 0;
      updateCounter := -1;
      fanMode, mode, targetTemperature, currentTemperature := None, ModeOff, None, None;
      events := [];
    }

    /** Consumes every available byte, in order. */
    method Loop(input: seq<uint8>)
      requires Valid()
      modifies this, data
      ensures Valid() && data == old(data) && updateCounter == old(updateCounter)
      ensures ReceiverState() == ReceiveAll(old(ReceiverState()), input, wiring)
    {
      var i := 0;
      while i < |input|
        invariant 0 <= i <= |input|
        invariant Valid() && data == old(data) && updateCounter == old(updateCounter)
        invariant ReceiveAll(ReceiverState(), input[i..], wiring) == ReceiveAll(old(ReceiverState()), input, wiring)
      {
        ReadByte(input[i]);
        assert input[i..][1..] == input[i + 1..];
        i := i + 1;
      }
    }

    /** One pass of the receive loop: stores the byte at the index, judges
        it, acknowledges and then parses a completed data frame, and steps or
        resets the index. */
    method ReadByte(b: uint8)
      requires Valid()
      modifies this, data
      ensures Valid() && data == old(data) && updateCounter == old(updateCounter)
      ensures ReceiverState() == Receive(old(ReceiverState()), b, wiring)
    {
      ghost var before := ReceiverState();
      data[dataIndex] := b;
      ghost var fed := Feed(before.decoder, b);
      assert data[..] == fed.0.buf;
      var check := CheckByte(data[..], dataIndex);
      assert check == fed.1;
      if check == Complete {
        if data[AckIdx] != Ack {
          WriteBytes([Prefix, Ack]);
          ParseData();
        }
        dataIndex := 0;
      } else if check == Invalid {
        dataIndex := 0;
      } else {
        dataIndex := dataIndex + 1;
      }
    }

    /** Reads the completed frame in the buffer and updates the readings and
        the climate state. */
    method ParseData()
      requires Valid()
      modifies this`fanMode, this`mode, this`targetTemperature, this`currentTemperature, this`events
      ensures ClimateState() == Parse(data[..], old(ClimateState()), wiring).0
      ensures events == old(events) + Parse(data[..], old(ClimateState()), wiring).1
    {
      var msg := data[HeadLength..];
      var id := data[IdentifierIdx];
      assert msg == data[..][HeadLength..] && id == data[..][IdentifierIdx];
      if id == FanStatusResponse {
        ParseFanStatus(msg);
      } else if id == TemperatureResponse {
        ParseTemperature(msg);
      } else if id == BypassControlResponse {
        ParseBypassControl(msg);
      }
    }

    method ParseFanStatus(msg: seq<uint8>)
      requires |msg| >= 9
      modifies this`fanMode, this`mode, this`events
      ensures ClimateState() == Parser.ParseFanStatus(msg, old(ClimateState()), wiring).0
      ensures events == old(events) + Parser.ParseFanStatus(msg, old(ClimateState()), wiring).1
    {
      events := events
        + Publish(wiring, SupplyAirPercentage, msg[0] as real)
        + Publish(wiring, ExhaustAirPercentage, msg[1] as real)
        + Publish(wiring, SupplyFanSpeed, msg[2] as real * 20.0)
        + Publish(wiring, ExhaustFanSpeed, msg[3] as real * 20.0);
      if msg[8] == 0x00 {
        fanMode, mode := Some(FanLow), ModeFanOnly;
      } else if msg[8] == 0x01 {
        fanMode, mode := Some(FanMedium), ModeFanOnly;
      } else if msg[8] == 0x02 {
        fanMode, mode := Some(FanHigh), ModeFanOnly;
      }
    }

    method ParseTemperature(msg: seq<uint8>)
      requires |msg| >= 6
      modifies this`currentTemperature, this`events
      ensures ClimateState() == Parser.ParseTemperature(msg, old(ClimateState()), wiring).0
      ensures events == old(events) + Parser.ParseTemperature(msg, old(ClimateState()), wiring).1
    {
      ghost var before := events;
      ghost var valve := if wiring.bypassValve then [ValvePublished(msg[0] != 0)] else [];
      var outside := Publish(wiring, OutsideAirTemperature, Temperature(msg[3]));
      var supply := Publish(wiring, SupplyAirTemperature, 0.0);
      ghost var return_ := Publish(wiring, ReturnAirTemperature, Temperature(msg[4]));
      var exhaust := Publish(wiring, ExhaustAirTemperature, Temperature(msg[5]));
      if wiring.bypassValve {
        events := events + [ValvePublished(msg[0] != 0)];
      }
      events := events + outside + supply;
      assert events == before + (valve + outside + supply);
      if ReturnAirTemperature in wiring.sensors {
        events := events + [SensorPublished(ReturnAirTemperature, Temperature(msg[4]))];
        currentTemperature := Some(Temperature(msg[4]));
      }
      assert events == before + (valve + outside + supply + return_);
      events := events + exhaust;
      assert events == before + (valve + outside + supply + return_ + exhaust);
    }

    method ParseBypassControl(msg: seq<uint8>)
      requires |msg| >= 2
      modifies this`targetTemperature, this`events
      ensures ClimateState() == Parser.ParseBypassControl(msg, old(ClimateState())).0
      ensures events == old(events) + Parser.ParseBypassControl(msg, old(ClimateState())).1
    {
      targetTemperature := Some(Temperature(msg[1]));
      events := events + [ClimatePublished(ClimateState())];
    }

    /** Writes bytes to the UART, one after the other. */
    method WriteBytes(bs: seq<uint8>)
      modifies this`events
      ensures events == old(events) + Writes(bs)
    {
      events := events + Writes(bs);
    }

    /** Writes one command frame. */
    method WriteCommand(command: uint8, commandData: seq<uint8>)
      requires |commandData| < 0x100
      modifies this`events
      ensures events == old(events) + Writes(Frame(command, commandData))
    {
      ghost var start := events;
      var length: uint8 := |commandData|;
      WriteBytes([Prefix, Head, 0x00, command, length]);
      ghost var checksumByte: uint8;
      if length > 0 {
        WriteBytes(commandData);
        var checksum := ComfoairChecksum(commandData, length);
        assert commandData[..length] == commandData;
        checksumByte := (command + length + checksum) % 0x100;
        WriteBytes([(command + length + checksum) % 0x100]);
      } else {
        var checksum := ComfoairChecksum([command], 1);
        assert [command][..1] == [command];
        checksumByte := checksum;
        assert Writes(commandData) == [];
        WriteBytes([checksum]);
      }
      WriteBytes([Prefix, Tail]);
      ghost var head := [Prefix, Head, 0x00, command, length];
      assert events == start + Writes(head) + Writes(commandData) + Writes([checksumByte]) + Writes([Prefix, Tail]);
      assert checksumByte == EncoderChecksum(command, commandData);
      WritesFrame(command, commandData);
    }

    /** Sends a set-level command, ignoring a level outside 0..4. */
    method SetLevel(level: int)
      modifies this`events
      ensures events == old(events) + Writes(SetLevelCommand(level))
    {
      if level < 0 || level > 4 {
        return;
      }
      WriteCommand(SetLevelRequest, ZeroFilled([level], SetLevelLength));
    }

    /** Sends a set-comfort-temperature command, ignoring a temperature
        outside 12..29 degrees. */
    method SetComfortTemperature(temperature: real)
      modifies this`events
      ensures events == old(events) + Writes(SetComfortTemperatureCommand(temperature))
    {
      if temperature < 12.0 || temperature > 29.0 {
        return;
      }
      WriteCommand(SetComfortTemperatureRequest, ZeroFilled([0x00, ComfortByte(temperature)], SetComfortTemperatureLength));
    }

    /** Sends the reset-filter command. */
    method ResetFilter()
      modifies this`events
      ensures events == old(events) + Writes(ResetFilterCommand())
    {
      WriteCommand(SetResetRequest, ZeroFilled([0, 0, 0, 1], SetResetLength));
    }

    /** Handles a control request: stores the fan mode and sends its level
        when it has one, stores the target and sends it when in range, and
        publishes the climate state in every case. */
    method Control(call: ClimateCall)
      modifies this`fanMode, this`targetTemperature, this`events
      ensures ClimateState() == ApplyControl(old(ClimateState()), call)
      ensures events == old(events) + Writes(FanModeCommand(call.fanMode)) + Writes(TargetCommand(call.targetTemperature))
                        + [ClimatePublished(ClimateState())]
    {
      ghost var start := events;
      ghost var fanBytes := FanModeCommand(call.fanMode);
      ghost var targetBytes := TargetCommand(call.targetTemperature);
      if call.fanMode.Some? {
        fanMode := call.fanMode;
        var level := LevelOf(fanMode.value);
        if level >= 0 {
          SetLevel(level);
          assert fanBytes == SetLevelCommand(level);
        } else {
          assert fanBytes == [];
        }
      } else {
        assert fanBytes == [];
      }
      assert events == start + Writes(fanBytes);
      ghost var mid := events;
      if call.targetTemperature.Some? {
        targetTemperature := call.targetTemperature;
        SetComfortTemperature(targetTemperature.value);
      } else {
        assert targetBytes == [];
      }
      assert events == mid + Writes(targetBytes);
      events := events + [ClimatePublished(ClimateState())];
    }

    /** One poll tick: the query due at the current counter, then the counter
        steps, wrapping from 9 back to 0. */
    method Update()
      requires Valid()
      modifies this`updateCounter, this`events
      ensures Valid()
      ensures updateCounter == NextCounter(old(updateCounter))
      ensures events == old(events) + Writes(PollCommand(old(updateCounter), wiring))
    {
      if updateCounter == 0 {
        GetFanStatus();
      } else if updateCounter == 1 {
        GetTemperature();
      } else if updateCounter == 2 {
        GetBypassControlStatus();
      }
      updateCounter := updateCounter + 1;
      if updateCounter > 8 {
        updateCounter := 0;
      }
    }

    method GetFanStatus()
      modifies this`events
      ensures events == old(events) + Writes(PollCommand(0, wiring))
    {
      if FanQueryWanted(wiring) {
        WriteCommand(FanStatusRequest, []);
      }
    }

    method GetBypassControlStatus()
      modifies this`events
      ensures events == old(events) + Writes(PollCommand(2, wiring))
    {
      WriteCommand(BypassControlRequest, []);
    }

    method GetTemperature()
      modifies this`events
      ensures events == old(events) + Writes(PollCommand(1, wiring))
    {
      if TemperatureQueryWanted(wiring) {
        WriteCommand(TemperatureRequest, []);
      }
    }

    /** Payload byte `start` of the frame in the buffer. */
    function GetUint8(start: uint8): (r: uint8)
      reads this, data
      requires Valid() && HeadLength + start < BufferSize
      ensures r == ReceiverState().decoder.buf[HeadLength..][start]
    {
      data[HeadLength + start]
    }

    /** Payload bytes `start` and `start + 1`, big-endian. */
    function GetUint16(start: uint8): (r: int)
      reads this, data
      requires Valid() && HeadLength + start + 1 < BufferSize
      ensures 0 <= r < 0x1_0000
      ensures r / 0x100 == GetUint8(start) && r % 0x100 == GetUint8(start + 1)
    {
      data[HeadLength + start] as int * 0x100 + data[HeadLength + start + 1]
    }
  }
}
