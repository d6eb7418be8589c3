/** TiqiaaUsbDriver (TiqiaaRemote.kt) as a class over a UsbBus.  Every method
    updates the fields the Kotlin method updates and is proved against the
    function of TiqiaaProtocol that specifies it: its new State() is that
    function applied to the old one.  A method whose Kotlin counterpart can
    end with an exception (a null dereference from `!!` or from
    bulkTransfer on a null endpoint, an index error from getInterface(0))
    returns `threw` and stops there, leaving the fields as they were at that
    point. */
module TiqiaaDriver {
  import opened Usb
  import opened Fragments
  import opened IrCode
  import opened TiqiaaProtocol

  /** A send's results as the protocol functions describe them. */
  function Ended(ok: bool, threw: bool, s: Proto): (o: Outcome)
    ensures o.state == s && (o.Raised? <==> threw)
    ensures Succeeded(o) <==> ok && !threw
  {
    if threw then Raised(s) else Returned(ok, s)
  }

  class TiqiaaUsbDriver {
    const bus: UsbBus
    var device: Option<UsbDevice>
    var connection: Option<Connection>
    var endpointIn: Option<Endpoint>
    var endpointOut: Option<Endpoint>
    var packetIdx: int
    var cmdId: int
    var isInitialized: bool
    /** permissionReceiver != null */
    var permissionPending: bool

    ghost function ProtoState(): Proto
      reads this, bus
    {
      Proto(cmdId, packetIdx, bus.wire)
    }

    ghost function State(): DriverState
      reads this, bus
    {
      DriverState(device, connection, endpointIn, endpointOut, isInitialized, permissionPending,
                  ProtoState(), bus.isOpen, bus.permissionRequests)
    }

    ghost predicate Valid()
      reads this, bus
    {
      Inv(State())
    }

    constructor (bus: UsbBus)
      ensures this.bus == bus && Valid()
      ensures State() == InitialState(bus.permissionRequests, bus.wire, bus.isOpen)
    {
      this.bus := bus;
      device, connection, endpointIn, endpointOut := None, None, None, None;
      packetIdx, cmdId := 0, 1;
      isInitialized, permissionPending := false, false;
    }

    /** isAvailable: a device has been found. */
    predicate IsAvailable()
      reads this, bus
      ensures IsAvailable() <==> State().device.Some?
    {
      device.Some?
    }

    /** isReady: the connection has been bootstrapped (see
        ReadyOnlyAfterBootstrap for when that can happen). */
    predicate IsReady()
      reads this, bus
      ensures IsReady() <==> State().isInitialized
    {
      isInitialized
    }

    method GetCmdId() returns (id: byte)
      requires 1 <= cmdId <= MaxCmdId
      modifies this`cmdId
      ensures (id, cmdId) == CmdIdStep(old(cmdId))
    {
      if cmdId < MaxCmdId {
        id := cmdId;
        cmdId := cmdId + 1;
      } else {
        cmdId := 1;
        id := 1;
      }
    }

    method SendReport2(data: array<byte>, size: int) returns (ok: bool, threw: bool)
      requires Valid() && size <= data.Length
      modifies this`packetIdx, bus`wire
      ensures Valid()
      ensures Ended(ok, threw, ProtoState()) == ReportExchange(old(ProtoState()), data[..], size, LinkOf(State()))
    {
      if size <= 0 || size > MaxUsbPacketSize {
        return false, false;
      }
      var fragCount := FragCount(size);
      packetIdx := packetIdx % MaxUsbPacketIdx + 1;
      var sent;
      sent, threw := WriteFragments(data, size, fragCount);
      if threw || !sent {
        return false, threw;
      }
      ok, threw := RecResponse();
    }

    /** The fragment loop of sendReport2: fragment fragIdx carries the header
        and the next at most 56 bytes from the read position; a failed transfer
        ends the loop, and with no connection or OUT endpoint the first
        transfer throws. */
    method WriteFragments(data: array<byte>, size: int, fragCount: int) returns (sent: bool, threw: bool)
      requires 0 < size <= data.Length && fragCount == FragCount(size)
      modifies bus`wire
      ensures threw <==> connection.None? || endpointOut.None?
      ensures threw ==> bus.wire == old(bus.wire)
      ensures !threw ==> Sent(sent, bus.wire) == FragmentLoop(old(bus.wire), data[..], size, packetIdx, fragCount, 1, 0)
    {
      var rdPtr := 0;
      ghost var w0 := bus.wire;
      var fragIdx := 1;
      while fragIdx <= fragCount
        modifies bus`wire
        invariant 0 <= rdPtr <= size
        invariant FragmentLoop(w0, data[..], size, packetIdx, fragCount, 1, 0)
                  == FragmentLoop(bus.wire, data[..], size, packetIdx, fragCount, fragIdx, rdPtr)
        invariant fragIdx == 1 || (connection.Some? && endpointOut.Some?)
        invariant fragIdx == 1 ==> bus.wire == w0
        decreases fragCount - fragIdx
      {
        var fragSize := Min(size - rdPtr, MaxUsbFragSize);
        // the first 5 + fragSize bytes of the 61-byte fragment buffer, which is all bulkTransfer sends
        var fragBuf := [WriteReportId, ToByte(fragSize + 3), ToByte(packetIdx), ToByte(fragCount), ToByte(fragIdx)]
                       + data[rdPtr..rdPtr + fragSize];
        if connection.None? || endpointOut.None? {
          return false, true;
        }
        var bytesWritten := bus.BulkOut(fragBuf);
        if bytesWritten < 0 {
          return false, false;
        }
        rdPtr := rdPtr + fragSize;
        fragIdx := fragIdx + 1;
      }
      sent, threw := true, connection.None? || endpointOut.None?;
    }

    method RecResponse() returns (ok: bool, threw: bool)
      modifies bus`wire
      ensures threw <==> !LinkOf(State()).canRead
      ensures threw ==> !ok && bus.wire == old(bus.wire)
      ensures !threw ==> Sent(ok, bus.wire) == AckRun(old(bus.wire), 0, 1)
    {
      var fragCount := 1;
      var fragIdx := 0;
      ghost var w0 := bus.wire;
      while fragIdx < fragCount
        invariant connection.None? || endpointIn.None? ==> bus.wire == w0 && fragIdx == 0 && fragCount == 1
        invariant fragIdx < fragCount ==> AckRun(w0, 0, 1) == AckRun(bus.wire, fragIdx, fragCount)
        invariant fragIdx >= fragCount ==> AckRun(w0, 0, 1) == Sent(true, bus.wire)
        decreases |bus.wire.inReplies|
      {
        if connection.None? || endpointIn.None? {
          return false, true;
        }
        var r := bus.BulkIn();
        if r.bytesRead < 0 {
          return false, false;
        }
        if r.bytesRead >= PackHeaderSize {
          if fragIdx == 0 {
            fragCount := r.fragCount;
          }
          fragIdx := fragIdx + 1;
        }
      }
      return true, false;
    }

    method SendCmd(cmdType: byte, id: byte) returns (ok: bool, threw: bool)
      requires Valid()
      modifies this`packetIdx, bus`wire
      ensures Valid()
      ensures Ended(ok, threw, ProtoState())
              == ReportExchange(old(ProtoState()), CommandPacket(cmdType, id), 6, LinkOf(State()))
    {
      var pack := new byte[6](_ => 0);
      pack[0] := PackStartSign % 256;
      pack[1] := PackStartSign / 256;
      pack[2] := id;
      pack[3] := cmdType;
      pack[4] := PackEndSign % 256;
      pack[5] := PackEndSign / 256;
      assert pack[..] == CommandPacket(cmdType, id);
      ok, threw := SendReport2(pack, pack.Length);
    }

    /** `sendCmd(CMD_IDLE_MODE, getCmdId()) && sendCmd(CMD_SEND_MODE, getCmdId())`,
        the command pair initializeConnection and sendIrSignal both send. */
    method IdleThenSendMode() returns (ok: bool, threw: bool)
      requires Valid()
      modifies this`cmdId, this`packetIdx, bus`wire
      ensures Valid()
      ensures Ended(ok, threw, ProtoState()) == BootstrapExchange(old(ProtoState()), LinkOf(State()))
    {
      var id := GetCmdId();
      ok, threw := SendCmd(CmdIdleMode, id);
      if threw || !ok {
        return;
      }
      id := GetCmdId();
      ok, threw := SendCmd(CmdSendMode, id);
    }

    static method WritePulse(buf: array<byte>, offset: int, isOn: bool, duration: int) returns (r: int)
      requires 0 <= offset
      modifies buf
      ensures r == if offset + |DurationBytes(isOn, duration)| <= buf.Length
                   then offset + |DurationBytes(isOn, duration)| else -1
      ensures buf[..] == Overwrite(old(buf[..]), offset, DurationBytes(isOn, duration))
    {
      var pulseLength := TruncDiv(duration, TickMicros);
      // the loop below steps as TicksLoop does, which writes PulseBytes
      ghost var b0, enc := buf[..], PulseBytes(isOn, pulseLength);
      ghost var done := TicksLoop(b0, offset, isOn, pulseLength);
      assert done == (Overwrite(b0, offset, enc), if offset + |enc| <= |b0| then offset + |enc| else -1) by {
        assert Overwrite(b0, offset, []) == b0 && [] + enc == enc;
        TicksLoopSpec(b0, offset, [], isOn, pulseLength);
      }
      var bufIndex := offset;
      while pulseLength > MaxRunTicks
        invariant offset <= bufIndex
        invariant done == TicksLoop(buf[..], bufIndex, isOn, pulseLength)
        decreases pulseLength
      {
        if bufIndex >= buf.Length {
          return -1;
        }
        buf[bufIndex] := Marker(isOn) + MaxRunTicks;
        pulseLength := pulseLength - MaxRunTicks;
        bufIndex := bufIndex + 1;
      }
      if bufIndex >= buf.Length {
        return -1;
      }
      buf[bufIndex] := ToByte(Marker(isOn) + pulseLength);
      r := bufIndex + 1;
    }

    method SendIrCmd(freq: int, buffer: array<byte>, bufSize: int, id: byte) returns (ok: bool, threw: bool)
      requires Valid() && bufSize <= buffer.Length
      modifies this`packetIdx, bus`wire
      ensures Valid()
      ensures Ended(ok, threw, ProtoState())
              == IrCmdExchange(old(ProtoState()), freq, buffer[..], bufSize, id, LinkOf(State()))
    {
      if bufSize < 0 || bufSize + PackHeaderSize + 2 > MaxUsbPacketSize {
        return false, false;
      }
      var irFreqId := FrequencyId(freq);
      if irFreqId.None? {
        return false, false;
      }
      var packBuf := FillDataPacket(buffer, bufSize, id, irFreqId.value);
      var packSize := 5 + bufSize;
      ghost var s0, link := ProtoState(), LinkOf(State());
      ok, threw := SendReport2(packBuf, packSize + 2);
      ReportExchangePrefix(s0, packBuf[..], DataPacket(id, irFreqId.value, buffer[..bufSize]), packSize + 2, link);
    }

    /** sendIrCmd's packet buffer: "ST", the command id, 'D', the frequency
        byte, the pulses copied from `buffer`, "EN", in a zeroed 1024-byte array. */
    static method FillDataPacket(buffer: array<byte>, bufSize: int, id: byte, freqId: byte) returns (packBuf: array<byte>)
      requires 0 <= bufSize <= buffer.Length && bufSize + 7 <= MaxUsbPacketSize
      ensures fresh(packBuf) && packBuf.Length == MaxUsbPacketSize
      ensures packBuf[..bufSize + 7] == DataPacket(id, freqId, buffer[..bufSize])
    {
      packBuf := new byte[MaxUsbPacketSize](_ => 0);
      packBuf[0] := PackStartSign % 256;
      packBuf[1] := PackStartSign / 256;
      packBuf[2] := id;
      packBuf[3] := CmdData;
      packBuf[4] := freqId;
      forall k | 0 <= k < bufSize {
        packBuf[5 + k] := buffer[k];
      }
      var packSize := 5 + bufSize;
      packBuf[packSize] := PackEndSign % 256;
      packBuf[packSize + 1] := PackEndSign / 256;
      DataPacketLayout(packBuf[..packSize + 2], id, freqId, buffer[..bufSize]);
    }

    method SendIr(freq: int, buffer: array<byte>, bufSize: int) returns (ok: bool, threw: bool)
      requires Valid() && bufSize <= buffer.Length
      modifies this`cmdId, this`packetIdx, bus`wire
      ensures Valid()
      ensures Ended(ok, threw, ProtoState())
              == IrExchange(old(ProtoState()), freq, buffer[..], bufSize, LinkOf(State()))
    {
      var id := GetCmdId();
      ok, threw := SendIrCmd(freq, buffer, bufSize, id);
    }

    /** The pulse-filling loop of sendIrSignal: a fresh 1017-byte buffer
        filled mark by mark and space by space; -1 once a pulse no longer fits. */
    static method EncodePattern(pattern: seq<int>) returns (buf: array<byte>, bufSize: int)
      ensures fresh(buf) && buf.Length == PulseBufSize
      ensures bufSize == if |PatternBytes(pattern)| <= PulseBufSize then |PatternBytes(pattern)| else -1
      ensures 0 <= bufSize ==> buf[..bufSize] == PatternBytes(pattern)
    {
      buf := new byte[PulseBufSize](_ => 0);
      bufSize := 0;
      ghost var b0 := buf[..];
      ghost var filled := FillFrom(pattern, 0, b0, 0);
      var i := 0;
      while i < |pattern|
        invariant 0 <= bufSize <= buf.Length
        invariant filled == FillFrom(pattern, i, buf[..], bufSize)
        modifies buf
        decreases |pattern| - i
      {
        var pulse := pattern[i];
        var space := if i + 1 < |pattern| then pattern[i + 1] else 0;
        ghost var b, n := buf[..], bufSize;
        bufSize := WritePulse(buf, bufSize, true, pulse);
        if bufSize < 0 {
          assert |PatternBytes(pattern)| > PulseBufSize by {
            FillFromSpec(pattern, 0, b0, 0);
          }
          return buf, -1;
        }
        ghost var b1, n1 := buf[..], bufSize;
        if space > 0 {
          bufSize := WritePulse(buf, bufSize, false, space);
          if bufSize < 0 {
            assert |PatternBytes(pattern)| > PulseBufSize by {
              FillFromSpec(pattern, 0, b0, 0);
            }
            return buf, -1;
          }
        }
        FillFromStep(pattern, i, b, n, b1, n1, buf[..], bufSize);
        i := i + 2;
      }
      assert bufSize == |PatternBytes(pattern)| && buf[..][..bufSize] == PatternBytes(pattern) by {
        assert filled == Some(buf[..][..bufSize]);
        FillFromSpec(pattern, 0, b0, 0);
        assert b0[..0] + PatternBytes(pattern) == PatternBytes(pattern);
      }
    }

    method SendIrSignal(frequency: int, pattern: seq<int>) returns (ok: bool, threw: bool)
      requires Valid()
      modifies this`cmdId, this`packetIdx, bus`wire
      ensures Valid()
      ensures Step(threw, ok, State()) == SignalSpec(old(State()), frequency, pattern)
    {
      if !isInitialized {
        return false, false;
      }
      var booted, t := IdleThenSendMode();
      if t || !booted {
        return false, t;
      }

      ok, threw := SendPattern(frequency, pattern);
    }

    /** sendIrSignal once the bootstrap has succeeded: encode, then sendIr. */
    method SendPattern(frequency: int, pattern: seq<int>) returns (ok: bool, threw: bool)
      requires Valid()
      modifies this`cmdId, this`packetIdx, bus`wire
      ensures Valid()
      ensures Ended(ok, threw, ProtoState()) == PatternExchange(old(ProtoState()), frequency, pattern, LinkOf(State()))
    {
      var buf, bufSize := EncodePattern(pattern);
      if bufSize < 0 {
        return false, false;
      }
      ghost var s1 := ProtoState();
      ok, threw := SendIr(frequency, buf, bufSize);
      IrExchangeBuffer(s1, frequency, buf[..], PatternBytes(pattern), LinkOf(State()));
    }

    /** deinit's connected part: the Idle command, releaseInterface on
        interface 0 of the device, close. */
    method IdleAndRelease() returns (threw: bool)
      requires Valid() && connection.Some?
      modifies this`cmdId, this`packetIdx, bus`wire, bus`isOpen
      ensures Valid()
      ensures var idle := CmdExchange(old(ProtoState()), CmdIdleMode, LinkOf(State()));
              && ProtoState() == idle.state
              && threw == (idle.Raised? || device.None? || device.value.interfaces == [])
              && bus.isOpen == (old(bus.isOpen) && threw)
    {
      var id := GetCmdId();
      var ok, t := SendCmd(CmdIdleMode, id);
      if t {
        return true;
      }
      // releaseInterface(device?.getInterface(0))
      if device.None? || |device.value.interfaces| == 0 {
        return true;
      }
      bus.Close();
      threw := false;
    }

    method Deinit() returns (threw: bool)
      requires Valid()
      modifies this`connection, this`device, this`permissionPending, this`isInitialized
      modifies this`cmdId, this`packetIdx, bus`wire, bus`isOpen
      ensures Valid()
      ensures Step(threw, false, State()) == DeinitSpec(old(State()))
    {
      if connection.Some? {
        threw := IdleAndRelease();
        if threw {
          return;
        }
      }
      connection, device, permissionPending, isInitialized := None, None, false, false;
      threw := false;
    }

    method InitializeConnection() returns (threw: bool)
      requires Valid() && device.Some?
      modifies this, bus`wire, bus`isOpen
      ensures Valid()
      ensures Step(threw, false, State()) == InitConnSpec(old(State()), bus.openable)
    {
      connection := bus.OpenDevice(device.value);
      if connection.None? {
        return false;
      }
      if |device.value.interfaces| == 0 {
        return true;
      }
      var usbInterface := device.value.interfaces[0];
      var eps := usbInterface.endpoints;
      var epIn, epOut := endpointIn, endpointOut;
      var i := 0;
      while i < |eps|
        invariant 0 <= i <= |eps|
        invariant epIn == LastBulk(eps[..i], DirIn, endpointIn)
        invariant epOut == LastBulk(eps[..i], DirOut, endpointOut)
      {
        var e := eps[i];
        if e.kind == Bulk {
          match e.direction
          case DirIn => epIn := Some(e);
          case DirOut => epOut := Some(e);
        }
        assert eps[..i + 1][..i] == eps[..i];
        i := i + 1;
      }
      assert eps[..i] == eps;
      endpointIn, endpointOut := epIn, epOut;
      threw := BootOrRelease();
    }

    /** The rest of initializeConnection after the endpoint scan: without both
        bulk endpoints deinit, otherwise Idle then Send, and deinit if either
        is not acknowledged. */
    method BootOrRelease() returns (threw: bool)
      requires Valid()
      modifies this`connection, this`device, this`permissionPending, this`isInitialized
      modifies this`cmdId, this`packetIdx, bus`wire, bus`isOpen
      ensures Valid()
      ensures Step(threw, false, State()) == BootOrReleaseSpec(old(State()))
    {
      if endpointIn.None? || endpointOut.None? {
        threw := Deinit();
        return;
      }
      var ok, t := IdleThenSendMode();
      if t {
        return true;
      }
      if !ok {
        threw := Deinit();
        return;
      }
      isInitialized := true;
      threw := false;
    }

    method RequestPermissionAsync()
      requires device.Some?
      modifies this`permissionPending, bus`permissionRequests
      ensures State() == RequestPermissionSpec(old(State()))
    {
      if permissionPending {
        return;
      }
      permissionPending := true;
      bus.RequestPermission(device.value);
    }

    method Init() returns (r: bool, threw: bool)
      requires Valid()
      modifies this, bus`wire, bus`isOpen, bus`permissionRequests
      ensures Valid()
      ensures Step(threw, r, State()) == InitSpec(old(State()), Env(bus.deviceList, bus.permitted, bus.openable))
    {
      device := FindDevice(bus.deviceList);
      if device.None? {
        return false, false;
      }
      if device.value in bus.permitted {
        threw := InitializeConnection();
        if threw {
          return false, true;
        }
        return isInitialized, false;
      } else {
        RequestPermissionAsync();
        return false, false;
      }
    }
  }
}
