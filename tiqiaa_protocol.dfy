/** The protocol logic of TiqiaaUsbDriver (TiqiaaRemote.kt) as pure functions:
    device matching, the endpoint scan, the cyclic counters, command and data
    packets, the pulse encoder, the fragmenting transport with its
    acknowledgement loop, and the driver's lifecycle as a function of its
    state.  The class in TiqiaaDriver is proved against these functions; the
    lemmas here state what the driver promises. */
module TiqiaaProtocol {
  import opened Usb
  import opened Fragments
  import opened IrCode

  const MaxUsbFragSize := 56
  const MaxUsbPacketSize := 1024
  const MaxUsbPacketIdx := 15
  const MaxCmdId := 0x7F
  const PackStartSign := 0x5453  // "ST", low byte first
  const PackEndSign := 0x4E45    // "EN", low byte first
  const CmdIdleMode: byte := 'L' as int
  const CmdSendMode: byte := 'S' as int
  const CmdData: byte := 'D' as int
  const PackHeaderSize := 5
  /** The size of the pulse buffer sendIrSignal allocates. */
  const PulseBufSize := 1017

  const CompatibleDevices: seq<(int, int)> := [(0x10C4, 0x8468), (0x45E, 0x8468)]

  // ---------------------------------------------------------------------------
  // Device matching and the endpoint scan
  // ---------------------------------------------------------------------------

  /** findDevice's test: the vendor/product pair only, not the interface shape. */
  predicate IsCompatibleId(d: UsbDevice)
  {
    (d.vendorId, d.productId) in CompatibleDevices
  }

  /** findDevice: the first enumerated device with a compatible id. */
  function FindDevice(devices: seq<UsbDevice>): (r: Option<UsbDevice>)
    ensures r.None? <==> forall i :: 0 <= i < |devices| ==> !IsCompatibleId(devices[i])
    ensures r.Some? ==> exists k :: 0 <= k < |devices| && devices[k] == r.value && IsCompatibleId(r.value)
                                    && forall j :: 0 <= j < k ==> !IsCompatibleId(devices[j])
  {
    if devices == [] then None
    else if IsCompatibleId(devices[0]) then Some(devices[0])
    else
      var r := FindDevice(devices[1..]);
      assert r.Some? ==> exists k :: 1 <= k < |devices| && devices[k] == r.value && IsCompatibleId(r.value)
                                     && forall j :: 0 <= j < k ==> !IsCompatibleId(devices[j]) by {
        if r.Some? {
          var k :| 0 <= k < |devices[1..]| && devices[1..][k] == r.value && IsCompatibleId(r.value)
                   && forall j :: 0 <= j < k ==> !IsCompatibleId(devices[1..][j]);
          assert devices[k + 1] == r.value;
        }
      }
      r
  }

  predicate IsBulk(e: Endpoint, dir: Direction)
  {
    e.kind == Bulk && e.direction == dir
  }

  /** The endpoint loop of initializeConnection, for one direction: every bulk
      endpoint of that direction overwrites the field, so the last one wins,
      and a scan that finds none leaves the field as it was. */
  function LastBulk(eps: seq<Endpoint>, dir: Direction, prev: Option<Endpoint>): (r: Option<Endpoint>)
    ensures (forall i :: 0 <= i < |eps| ==> !IsBulk(eps[i], dir)) ==> r == prev
    ensures (exists i :: 0 <= i < |eps| && IsBulk(eps[i], dir)) ==>
              exists k :: 0 <= k < |eps| && r == Some(eps[k]) && IsBulk(eps[k], dir)
                          && forall j :: k < j < |eps| ==> !IsBulk(eps[j], dir)
  {
    if eps == [] then prev
    else if IsBulk(eps[|eps| - 1], dir) then Some(eps[|eps| - 1])
    else
      var init := eps[..|eps| - 1];
      assert forall i :: 0 <= i < |init| ==> init[i] == eps[i];
      LastBulk(init, dir, prev)
  }

  // ---------------------------------------------------------------------------
  // Counters
  // ---------------------------------------------------------------------------

  /** getCmdId: returns the field and increments it while it is below 127;
      at 127 it resets the field to 1 and returns 1. */
  function CmdIdStep(c: int): (r: (byte, int))
    requires 1 <= c <= MaxCmdId
    ensures 1 <= r.0 <= MaxCmdId - 1 && 1 <= r.1 <= MaxCmdId
  {
    if c < MaxCmdId then (c, c + 1) else (1, 1)
  }

  /** The cmdId field after n calls, starting from its initial value 1. */
  function CmdIdAfter(n: nat): (c: int)
    ensures 1 <= c <= MaxCmdId
  {
    if n == 0 then 1 else CmdIdStep(CmdIdAfter(n - 1)).1
  }

  /** The id returned by call n + 1. */
  function IssuedCmdId(n: nat): byte
  {
    CmdIdStep(CmdIdAfter(n)).0
  }

  lemma {:induction false} CmdIdAfterClosed(n: nat)
    ensures CmdIdAfter(n) == n % 127 + 1
  {
    if n > 0 {
      CmdIdAfterClosed(n - 1);
      ModSucc(n - 1, 127);
    }
  }

  /** The ids issued are 1, 2, ..., 126, then 1 twice (the reset call and the
      call after it), then 2, ..., 126 again: a period of 127 calls. */
  lemma IssuedCmdIdClosed(n: nat)
    ensures IssuedCmdId(n) == if n % 127 == 126 then 1 else n % 127 + 1
    ensures n % 127 == 126 ==> IssuedCmdId(n) == 1 && IssuedCmdId(n + 1) == 1
  {
    CmdIdAfterClosed(n);
    CmdIdAfterClosed(n + 1);
  }

  /** sendReport2's `packetIdx = (packetIdx % 15) + 1`. */
  function NextPacketIdx(p: int): (q: int)
    requires 0 <= p
    ensures 1 <= q <= MaxUsbPacketIdx
    ensures 1 <= p < MaxUsbPacketIdx ==> q == p + 1
  {
    p % MaxUsbPacketIdx + 1
  }

  /** The packetIdx field after n reports, starting from its initial value 0. */
  function PacketIdxAfter(n: nat): (p: int)
    ensures 0 <= p <= MaxUsbPacketIdx
  {
    if n == 0 then 0 else NextPacketIdx(PacketIdxAfter(n - 1))
  }

  /** Packet indices run 1, 2, ..., 15, 1, 2, ... */
  lemma {:induction false} PacketIdxAfterClosed(n: nat)
    requires n > 0
    ensures PacketIdxAfter(n) == (n - 1) % 15 + 1
  {
    if n > 1 {
      PacketIdxAfterClosed(n - 1);
      ModSucc(n - 2, 15);
    }
  }

  // ---------------------------------------------------------------------------
  // Frequency id
  // ---------------------------------------------------------------------------

  /** The frequency byte of sendIrCmd, or None where sendIrCmd returns false.
      Above 255 a carrier is looked up in the table; `takeIf { it >= 0 }`
      tests the signed byte, so a missing entry (-1) becomes 0.  At most 255
      the value is taken literally when it is below the table size and is
      rejected otherwise. */
  function FrequencyId(freq: int): (r: Option<byte>)
    ensures r.None? <==> |FreqTable| <= freq <= 255
  {
    if freq > 255 then
      var b := ToByte(IndexOf(FreqTable, freq));
      Some(if b < 128 then b else 0)
    else if freq < |FreqTable| then Some(ToByte(freq))
    else None
  }

  /** A listed carrier gets its first position in the table, an unlisted one
      above 255 gets 0, and a small value is its own id. */
  lemma FrequencyIdSpec(freq: int)
    ensures freq > 255 && freq in FreqTable ==>
              && FrequencyId(freq).Some? && FrequencyId(freq).value < |FreqTable|
              && FreqTable[FrequencyId(freq).value] == freq && freq !in FreqTable[..FrequencyId(freq).value]
    ensures freq > 255 && freq !in FreqTable ==> FrequencyId(freq) == Some(0)
    ensures 0 <= freq < |FreqTable| ==> FrequencyId(freq) == Some(freq)
    ensures 0 <= freq && FrequencyId(freq).Some? ==> FrequencyId(freq).value < |FreqTable|
  {
  }

  // ---------------------------------------------------------------------------
  // Packets
  // ---------------------------------------------------------------------------

  /** A 16-bit sign written low byte first: (sign and 0xFF), (sign shr 8). */
  function SignBytes(sign: int): seq<byte>
    requires 0 <= sign < 0x10000
  {
    [sign % 256, sign / 256]
  }

  /** sendCmd's six-byte packet. */
  function CommandPacket(cmdType: byte, cmdId: byte): (r: seq<byte>)
    ensures |r| == 6 && r[2] == cmdId && r[3] == cmdType
  {
    SignBytes(PackStartSign) + [cmdId, cmdType] + SignBytes(PackEndSign)
  }

  /** sendIrCmd's packet: header, frequency byte, pulse bytes, end sign. */
  function DataPacket(cmdId: byte, freqId: byte, pulses: seq<byte>): (r: seq<byte>)
    ensures |r| == |pulses| + 7 && r[5..|r| - 2] == pulses
  {
    SignBytes(PackStartSign) + [cmdId, CmdData, freqId] + pulses + SignBytes(PackEndSign)
  }

  datatype Packet = Packet(cmdId: byte, cmdType: byte, body: seq<byte>)

  /** A receiver's reading of a packet: "ST", id, type, body, "EN". */
  function ParsePacket(p: seq<byte>): Option<Packet>
  {
    if |p| >= 6 && p[0] == 'S' as int && p[1] == 'T' as int
       && p[|p| - 2] == 'E' as int && p[|p| - 1] == 'N' as int
    then Some(Packet(p[2], p[3], p[4..|p| - 2]))
    else None
  }

  /** A command packet is six bytes and reads back as its id and type. */
  lemma CommandPacketParses(cmdType: byte, cmdId: byte)
    ensures |CommandPacket(cmdType, cmdId)| == 6
    ensures ParsePacket(CommandPacket(cmdType, cmdId)) == Some(Packet(cmdId, cmdType, []))
  {
    var p := CommandPacket(cmdType, cmdId);
    assert p[4..|p| - 2] == [];
  }

  /** A data packet is seven bytes longer than its pulses and reads back as a
      'D' packet whose body is the frequency byte and the pulses. */
  lemma DataPacketParses(cmdId: byte, freqId: byte, pulses: seq<byte>)
    ensures |DataPacket(cmdId, freqId, pulses)| == |pulses| + 7
    ensures ParsePacket(DataPacket(cmdId, freqId, pulses)) == Some(Packet(cmdId, CmdData, [freqId] + pulses))
  {
    var p := DataPacket(cmdId, freqId, pulses);
    assert p[4..|p| - 2] == [freqId] + pulses;
  }

  /** A buffer filled byte by byte as sendIrCmd fills it holds the 'D' packet. */
  lemma DataPacketLayout(p: seq<byte>, cmdId: byte, freqId: byte, pulses: seq<byte>)
    requires |p| == |pulses| + 7
    requires p[0] == PackStartSign % 256 && p[1] == PackStartSign / 256
    requires p[2] == cmdId && p[3] == CmdData && p[4] == freqId
    requires forall k :: 0 <= k < |pulses| ==> p[5 + k] == pulses[k]
    requires p[|p| - 2] == PackEndSign % 256 && p[|p| - 1] == PackEndSign / 256
    ensures p == DataPacket(cmdId, freqId, pulses)
  {
    var d := DataPacket(cmdId, freqId, pulses);
    assert |d| == |p|;
    forall k | 0 <= k < |p|
      ensures p[k] == d[k]
    {
      if 5 <= k < |p| - 2 {
        assert d[k] == pulses[k - 5];
      }
    }
  }

  /** The fragments sendReport2 sends for `data`. */
  function ReportFragments(data: seq<byte>, packetIdx: int): seq<seq<byte>>
  {
    Frames(Chunked(data, MaxUsbFragSize), packetIdx)
  }

  /** Fragment i of a report, as sendReport2 builds it with a read position
      at i * 56: the header, then the next at most 56 bytes of the data. */
  lemma FragmentAt(data: seq<byte>, size: int, packetIdx: int, i: nat)
    requires 0 < size <= |data| && i < |Chunked(data[..size], MaxUsbFragSize)|
    ensures i * MaxUsbFragSize < size
    ensures var rdPtr := i * MaxUsbFragSize;
            var fragSize := Min(size - rdPtr, MaxUsbFragSize);
            ReportFragments(data[..size], packetIdx)[i]
            == [WriteReportId, ToByte(fragSize + 3), ToByte(packetIdx),
                ToByte(|Chunked(data[..size], MaxUsbFragSize)|), ToByte(i + 1)]
               + data[rdPtr..rdPtr + fragSize]
  {
    var chunks := Chunked(data[..size], MaxUsbFragSize);
    ChunkAt(data[..size], MaxUsbFragSize, i);
    var rdPtr := i * MaxUsbFragSize;
    var fragSize := Min(size - rdPtr, MaxUsbFragSize);
    assert chunks[i] == data[rdPtr..rdPtr + fragSize];
    assert ReportFragments(data[..size], packetIdx)[i] == Frame(chunks[i], packetIdx, |chunks|, i + 1);
  }

  /** A command travels as one fragment, [2, 9, packetIdx, 1, 1] followed by the packet. */
  lemma CommandFragment(cmdType: byte, cmdId: byte, packetIdx: int)
    requires 1 <= packetIdx <= MaxUsbPacketIdx
    ensures ReportFragments(CommandPacket(cmdType, cmdId), packetIdx)
            == [[2, 9, packetIdx, 1, 1, 0x53, 0x54, cmdId, cmdType, 0x45, 0x4E]]
  {
    var p := CommandPacket(cmdType, cmdId);
    assert SignBytes(PackStartSign) == [0x53, 0x54] && SignBytes(PackEndSign) == [0x45, 0x4E];
    assert p == [0x53, 0x54, cmdId, cmdType, 0x45, 0x4E];
    assert Chunked(p, MaxUsbFragSize) == [p];
    assert Frames([p], packetIdx) == [Frame(p, packetIdx, 1, 1)];
    assert Frame(p, packetIdx, 1, 1) == [2, 9, packetIdx, 1, 1] + p;
    assert [2, 9, packetIdx, 1, 1] + p == [2, 9, packetIdx, 1, 1, 0x53, 0x54, cmdId, cmdType, 0x45, 0x4E];
    assert ReportFragments(p, packetIdx) == Frames([p], packetIdx);
  }

  // ---------------------------------------------------------------------------
  // Pulse encoder (writePulse / sendIrSignal)
  // ---------------------------------------------------------------------------

  /** The bytes writePulse writes for a duration of `ticks` ticks: full bytes of
      127 while more than 127 remain, then one byte with the rest, which may
      be 0.  Kotlin's toByte() makes a negative rest wrap. */
  function PulseBytes(isOn: bool, ticks: int): (bs: seq<byte>)
    ensures bs != []
    decreases if ticks > MaxRunTicks then ticks else 0
  {
    if ticks > MaxRunTicks then [Marker(isOn) + MaxRunTicks] + PulseBytes(isOn, ticks - MaxRunTicks)
    else [ToByte(Marker(isOn) + ticks)]
  }

  /** writePulse for a duration in microseconds. */
  function DurationBytes(isOn: bool, duration: int): (r: seq<byte>)
    ensures r != []
  {
    PulseBytes(isOn, TruncDiv(duration, TickMicros))
  }

  /** What writePulse promises for t >= 0 ticks: max(1, ceil(t / 127)) bytes,
      all but the last equal to the polarity bit plus 127, every byte of the
      given polarity, and the low seven bits summing to t. */
  lemma {:induction false} PulseBytesShape(isOn: bool, ticks: int)
    requires ticks >= 0
    ensures |PulseBytes(isOn, ticks)| == if ticks == 0 then 1 else (ticks + 126) / 127
    ensures forall i :: 0 <= i < |PulseBytes(isOn, ticks)| - 1 ==> PulseBytes(isOn, ticks)[i] == Marker(isOn) + 127
    ensures Uniform(PulseBytes(isOn, ticks), isOn)
    ensures SumTicks(PulseBytes(isOn, ticks)) == ticks
    decreases ticks
  {
    var bs := PulseBytes(isOn, ticks);
    if ticks > MaxRunTicks {
      PulseBytesShape(isOn, ticks - MaxRunTicks);
      assert bs[1..] == PulseBytes(isOn, ticks - MaxRunTicks);
    }
  }

  /** The pulse buffer after writing `e` at `offset`: positions past the end
      of the buffer are not written. */
  function Overwrite(s: seq<byte>, offset: int, e: seq<byte>): (r: seq<byte>)
    requires 0 <= offset
    ensures |r| == |s|
  {
    seq(|s|, i requires 0 <= i < |s| => if offset <= i < offset + |e| then e[i - offset] else s[i])
  }

  /** When everything fits, the buffer up to the new end is the old prefix
      followed by the written bytes. */
  lemma OverwritePrefix(s: seq<byte>, offset: int, e: seq<byte>)
    requires 0 <= offset && offset + |e| <= |s|
    ensures Overwrite(s, offset, e)[..offset + |e|] == s[..offset] + e
  {
  }

  /** Writing one more byte right after what was written, inside the buffer. */
  lemma OverwriteExtend(s: seq<byte>, offset: int, e: seq<byte>, x: byte)
    requires 0 <= offset && offset + |e| < |s|
    ensures Overwrite(s, offset, e)[offset + |e| := x] == Overwrite(s, offset, e + [x])
  {
  }

  /** Once the write position reaches the end of the buffer, the bytes not
      yet written would all have fallen past it. */
  lemma OverwriteClipped(s: seq<byte>, offset: int, e: seq<byte>, rest: seq<byte>)
    requires 0 <= offset && |s| <= offset + |e|
    ensures Overwrite(s, offset, e) == Overwrite(s, offset, e + rest)
  {
  }

  /** writePulse's loop, step by step: while more than 127 ticks remain a
      full byte goes to position idx, then the remainder; -1 as soon as idx
      has reached the end of the buffer.  Returns the buffer and the new end. */
  function TicksLoop(b: seq<byte>, idx: int, isOn: bool, ticks: int): (r: (seq<byte>, int))
    requires 0 <= idx
    decreases if ticks > MaxRunTicks then ticks else 0
  {
    if idx >= |b| then (b, -1)
    else if ticks > MaxRunTicks then TicksLoop(b[idx := Marker(isOn) + MaxRunTicks], idx + 1, isOn, ticks - MaxRunTicks)
    else (b[idx := ToByte(Marker(isOn) + ticks)], idx + 1)
  }

  /** The loop writes PulseBytes after what is already written, clipped at
      the end of the buffer, and returns the new end when all of it fits. */
  lemma {:induction false} TicksLoopSpec(b0: seq<byte>, offset: int, w: seq<byte>, isOn: bool, ticks: int)
    requires 0 <= offset
    ensures var enc := PulseBytes(isOn, ticks);
            TicksLoop(Overwrite(b0, offset, w), offset + |w|, isOn, ticks)
            == (Overwrite(b0, offset, w + enc), if offset + |w| + |enc| <= |b0| then offset + |w| + |enc| else -1)
    decreases if ticks > MaxRunTicks then ticks else 0
  {
    var enc := PulseBytes(isOn, ticks);
    var idx := offset + |w|;
    if idx >= |b0| {
      OverwriteClipped(b0, offset, w, enc);
    } else if ticks > MaxRunTicks {
      var x: byte := Marker(isOn) + MaxRunTicks;
      OverwriteExtend(b0, offset, w, x);
      TicksLoopSpec(b0, offset, w + [x], isOn, ticks - MaxRunTicks);
      assert w + enc == (w + [x]) + PulseBytes(isOn, ticks - MaxRunTicks);
    } else {
      OverwriteExtend(b0, offset, w, ToByte(Marker(isOn) + ticks));
    }
  }

  /** One step of sendIrSignal's loop: the mark at i, always written, and the
      space at i + 1 (0 when the pattern has odd length), written only if positive. */
  function PairBytes(pattern: seq<int>, i: nat): seq<byte>
    requires i < |pattern|
  {
    var space := if i + 1 < |pattern| then pattern[i + 1] else 0;
    DurationBytes(true, pattern[i]) + (if space > 0 then DurationBytes(false, space) else [])
  }

  function PatternBytesFrom(pattern: seq<int>, i: nat): seq<byte>
    decreases |pattern| - i
  {
    if i >= |pattern| then [] else PairBytes(pattern, i) + PatternBytesFrom(pattern, i + 2)
  }

  /** The pulse buffer contents sendIrSignal builds for a pattern. */
  function PatternBytes(pattern: seq<int>): (r: seq<byte>)
    ensures r == [] <==> pattern == []
  {
    PatternBytesFrom(pattern, 0)
  }

  /** sendIrSignal's loop from index i over a buffer b filled up to n: each
      writePulse overwrites the buffer from n on, and the first one that
      does not fit ends the loop without a result. */
  function FillFrom(pattern: seq<int>, i: nat, b: seq<byte>, n: int): (r: Option<seq<byte>>)
    requires 0 <= n <= |b|
    decreases |pattern| - i
  {
    if i >= |pattern| then Some(b[..n])
    else
      var space := if i + 1 < |pattern| then pattern[i + 1] else 0;
      var mark := DurationBytes(true, pattern[i]);
      if n + |mark| > |b| then None
      else
        var b1 := Overwrite(b, n, mark);
        if space > 0 then
          var gap := DurationBytes(false, space);
          if n + |mark| + |gap| > |b| then None
          else FillFrom(pattern, i + 2, Overwrite(b1, n + |mark|, gap), n + |mark| + |gap|)
        else FillFrom(pattern, i + 2, b1, n + |mark|)
  }

  /** One pass of sendIrSignal's loop, when both writes fit. */
  lemma FillFromStep(pattern: seq<int>, i: nat, b: seq<byte>, n: int, b1: seq<byte>, n1: int, b2: seq<byte>, n2: int)
    requires 0 <= n <= |b| && i < |pattern|
    requires b1 == Overwrite(b, n, DurationBytes(true, pattern[i])) && n1 == n + |DurationBytes(true, pattern[i])| && n1 <= |b|
    requires var space := if i + 1 < |pattern| then pattern[i + 1] else 0;
             if space > 0 then b2 == Overwrite(b1, n1, DurationBytes(false, space)) && n2 == n1 + |DurationBytes(false, space)| && n2 <= |b|
             else b2 == b1 && n2 == n1
    ensures 0 <= n2 <= |b2| && FillFrom(pattern, i, b, n) == FillFrom(pattern, i + 2, b2, n2)
  {
  }

  /** The loop leaves exactly the pattern's encoding after what the buffer
      held, and fails exactly when that does not fit. */
  lemma {:induction false} FillFromSpec(pattern: seq<int>, i: nat, b: seq<byte>, n: int)
    requires 0 <= n <= |b|
    ensures FillFrom(pattern, i, b, n)
            == if n + |PatternBytesFrom(pattern, i)| <= |b| then Some(b[..n] + PatternBytesFrom(pattern, i)) else None
    decreases |pattern| - i
  {
    if i >= |pattern| {
      assert b[..n] + [] == b[..n];
    } else {
      var pair, rest := PairBytes(pattern, i), PatternBytesFrom(pattern, i + 2);
      var b2, n2 := FillPair(pattern, i, b, n);
      if n + |pair| <= |b| {
        FillFromSpec(pattern, i + 2, b2, n2);
        assert b[..n] + pair + rest == b[..n] + (pair + rest);
      }
    }
  }

  /** One pass of the loop writes the pair's bytes after the first n, or
      ends the loop when they do not fit. */
  lemma FillPair(pattern: seq<int>, i: nat, b: seq<byte>, n: int) returns (b2: seq<byte>, n2: int)
    requires 0 <= n <= |b| && i < |pattern|
    ensures n + |PairBytes(pattern, i)| <= |b| ==>
              && n2 == n + |PairBytes(pattern, i)| && |b2| == |b|
              && b2[..n2] == b[..n] + PairBytes(pattern, i)
              && FillFrom(pattern, i, b, n) == FillFrom(pattern, i + 2, b2, n2)
    ensures n + |PairBytes(pattern, i)| > |b| ==> FillFrom(pattern, i, b, n) == None
  {
    var space := if i + 1 < |pattern| then pattern[i + 1] else 0;
    var mark := DurationBytes(true, pattern[i]);
    var gap := if space > 0 then DurationBytes(false, space) else [];
    assert PairBytes(pattern, i) == mark + gap;
    var b1 := Overwrite(b, n, mark);
    b2 := if space > 0 then Overwrite(b1, n + |mark|, gap) else b1;
    n2 := n + |mark| + |gap|;
    if n2 <= |b| {
      FillPairFits(pattern, i, b, n, space, mark, gap, b1, b2, n2);
    } else {
      FillPairNoRoom(pattern, i, b, n, space, mark, gap);
    }
  }

  lemma FillPairFits(pattern: seq<int>, i: nat, b: seq<byte>, n: int, space: int, mark: seq<byte>, gap: seq<byte>,
                     b1: seq<byte>, b2: seq<byte>, n2: int)
    requires 0 <= n <= |b| && i < |pattern|
    requires space == (if i + 1 < |pattern| then pattern[i + 1] else 0)
    requires mark == DurationBytes(true, pattern[i])
    requires gap == (if space > 0 then DurationBytes(false, space) else [])
    requires b1 == Overwrite(b, n, mark)
    requires b2 == (if space > 0 then Overwrite(b1, n + |mark|, gap) else b1)
    requires n2 == n + |mark| + |gap| && n2 <= |b|
    ensures |b2| == |b| && b2[..n2] == b[..n] + (mark + gap)
    ensures FillFrom(pattern, i, b, n) == FillFrom(pattern, i + 2, b2, n2)
  {
    FillFromStep(pattern, i, b, n, b1, n + |mark|, b2, n2);
    PairWritten(b, n, mark, gap, space > 0, b1, b2);
  }

  /** The buffer after the mark write and, when there is one, the space write. */
  lemma PairWritten(b: seq<byte>, n: int, mark: seq<byte>, gap: seq<byte>, twice: bool, b1: seq<byte>, b2: seq<byte>)
    requires 0 <= n && n + |mark| + |gap| <= |b|
    requires b1 == Overwrite(b, n, mark)
    requires b2 == (if twice then Overwrite(b1, n + |mark|, gap) else b1)
    requires !twice ==> gap == []
    ensures |b2| == |b| && b2[..n + |mark| + |gap|] == b[..n] + (mark + gap)
  {
    if twice {
      OverwriteTwice(b, n, mark, gap);
    } else {
      OverwritePrefix(b, n, mark);
      assert mark + gap == mark;
    }
  }

  lemma FillPairNoRoom(pattern: seq<int>, i: nat, b: seq<byte>, n: int, space: int, mark: seq<byte>, gap: seq<byte>)
    requires 0 <= n <= |b| && i < |pattern|
    requires space == (if i + 1 < |pattern| then pattern[i + 1] else 0)
    requires mark == DurationBytes(true, pattern[i])
    requires gap == (if space > 0 then DurationBytes(false, space) else [])
    requires n + |mark| + |gap| > |b|
    ensures FillFrom(pattern, i, b, n) == None
  {
  }

  /** Two consecutive writes that fit leave both, in order, after the first n bytes. */
  lemma OverwriteTwice(b: seq<byte>, n: int, e1: seq<byte>, e2: seq<byte>)
    requires 0 <= n && n + |e1| + |e2| <= |b|
    ensures Overwrite(Overwrite(b, n, e1), n + |e1|, e2)[..n + |e1| + |e2|] == b[..n] + (e1 + e2)
  {
    var b1 := Overwrite(b, n, e1);
    OverwritePrefix(b, n, e1);
    OverwritePrefix(b1, n + |e1|, e2);
    assert b[..n] + e1 + e2 == b[..n] + (e1 + e2);
  }

  lemma DurationRun(isOn: bool, duration: int)
    requires duration >= TickMicros
    ensures DurationBytes(isOn, duration) != [] && Uniform(DurationBytes(isOn, duration), isOn)
    ensures DecodeRuns(DurationBytes(isOn, duration)) == [Run(isOn, duration / TickMicros)]
  {
    PulseBytesShape(isOn, duration / TickMicros);
    DecodeUniform(DurationBytes(isOn, duration), isOn);
  }

  /** Encoder round trip: when every duration is at least one tick, reading
      the buffer back gives each mark and space in order, in ticks. */
  lemma PatternRoundTrip(pattern: seq<int>)
    requires forall i :: 0 <= i < |pattern| ==> pattern[i] >= TickMicros
    ensures DecodeRuns(PatternBytes(pattern)) == PatternRuns(pattern)
  {
    PatternRoundTripFrom(pattern, 0);
  }

  /** One mark/space pair reads back as its one or two runs, starting with a
      mark and, when the space is there, ending with a space. */
  lemma PairRoundTrip(pattern: seq<int>, i: nat)
    requires i < |pattern|
    requires forall j :: 0 <= j < |pattern| ==> pattern[j] >= TickMicros
    ensures PairBytes(pattern, i) != [] && IsMark(PairBytes(pattern, i)[0])
    ensures i + 1 < |pattern| ==>
              && !IsMark(PairBytes(pattern, i)[|PairBytes(pattern, i)| - 1])
              && DecodeRuns(PairBytes(pattern, i))
                 == [Run(true, pattern[i] / TickMicros), Run(false, pattern[i + 1] / TickMicros)]
    ensures i + 1 >= |pattern| ==> DecodeRuns(PairBytes(pattern, i)) == [Run(true, pattern[i] / TickMicros)]
  {
    var mark := DurationBytes(true, pattern[i]);
    DurationRun(true, pattern[i]);
    if i + 1 < |pattern| {
      var space := DurationBytes(false, pattern[i + 1]);
      DurationRun(false, pattern[i + 1]);
      assert PairBytes(pattern, i) == mark + space;
      DecodeAppend(mark, space);
      assert (mark + space)[|mark + space| - 1] == space[|space| - 1];
    } else {
      assert PairBytes(pattern, i) == mark + [] == mark;
    }
  }

  lemma {:induction false} PatternRoundTripFrom(pattern: seq<int>, i: nat)
    requires i % 2 == 0
    requires forall j :: 0 <= j < |pattern| ==> pattern[j] >= TickMicros
    ensures DecodeRuns(PatternBytesFrom(pattern, i)) == if i < |pattern| then PatternRuns(pattern)[i..] else []
    ensures i < |pattern| ==> PatternBytesFrom(pattern, i) != [] && IsMark(PatternBytesFrom(pattern, i)[0])
    decreases |pattern| - i
  {
    if i < |pattern| {
      var pair, rest := PairBytes(pattern, i), PatternBytesFrom(pattern, i + 2);
      var runs := PatternRuns(pattern);
      var mark := Run(true, pattern[i] / TickMicros);
      assert PatternBytesFrom(pattern, i) == pair + rest;
      assert pair != [] && IsMark(pair[0]) by {
        PairRoundTrip(pattern, i);
      }
      assert (pair + rest)[0] == pair[0];
      if i + 1 < |pattern| {
        var space := Run(false, pattern[i + 1] / TickMicros);
        assert DecodeRuns(pair) == [mark, space] && !IsMark(pair[|pair| - 1]) by {
          PairRoundTrip(pattern, i);
        }
        assert runs[i..] == [mark, space] + runs[i + 2..] by {
          PairRuns(pattern, i);
        }
        if i + 2 < |pattern| {
          assert DecodeRuns(rest) == runs[i + 2..] && rest != [] && IsMark(rest[0]) by {
            PatternRoundTripFrom(pattern, i + 2);
          }
          DecodeAppend(pair, rest);
        } else {
          assert pair + rest == pair;
          assert runs[i + 2..] == [];
        }
      } else {
        assert pair + rest == pair;
        assert DecodeRuns(pair) == [mark] by {
          PairRoundTrip(pattern, i);
        }
        assert runs[i..] == [mark] by {
          PairRuns(pattern, i);
        }
      }
    }
  }

  /** The runs of a pattern from an even position: the mark, then the space
      when there is one, then the runs after them. */
  lemma PairRuns(pattern: seq<int>, i: nat)
    requires i % 2 == 0 && i < |pattern|
    ensures i + 1 < |pattern| ==>
              PatternRuns(pattern)[i..]
              == [Run(true, pattern[i] / TickMicros), Run(false, pattern[i + 1] / TickMicros)] + PatternRuns(pattern)[i + 2..]
    ensures i + 1 >= |pattern| ==> PatternRuns(pattern)[i..] == [Run(true, pattern[i] / TickMicros)]
  {
    var runs := PatternRuns(pattern);
    assert runs[i] == Run(true, pattern[i] / TickMicros);
    if i + 1 < |pattern| {
      assert (i + 1) % 2 == 1;
      assert runs[i..] == [runs[i], runs[i + 1]] + runs[i + 2..];
    }
  }

  // ---------------------------------------------------------------------------
  // Fragmenting transport (sendReport2 / recResponse)
  // ---------------------------------------------------------------------------

  datatype Sent = Sent(ok: bool, wire: Wire)

  /** sendReport2's send loop: fragments go out in order, and the first
      negative bulkTransfer result aborts the exchange. */
  function PushFrames(w: Wire, frames: seq<seq<byte>>): (s: Sent)
    ensures s.wire.inReplies == w.inReplies
    decreases |frames|
  {
    if frames == [] then Sent(true, w)
    else
      var w' := AfterWrite(w, frames[0]);
      if ResultAt(w.outResults, 0) < 0 then Sent(false, w') else PushFrames(w', frames[1..])
  }

  /** One transfer of the send loop, from fragment i on. */
  lemma PushFramesStep(w: Wire, frames: seq<seq<byte>>, i: nat)
    requires i < |frames|
    ensures PushFrames(w, frames[i..])
            == if ResultAt(w.outResults, 0) < 0 then Sent(false, AfterWrite(w, frames[i]))
               else PushFrames(AfterWrite(w, frames[i]), frames[i + 1..])
  {
    assert frames[i..][1..] == frames[i + 1..];
  }

  /** sendReport2's fragment count: whole fragments of 56 bytes, plus one
      for a shorter tail. */
  function FragCount(size: int): int
  {
    size / MaxUsbFragSize + if size % MaxUsbFragSize != 0 then 1 else 0
  }

  /** sendReport2's fragment loop from fragment fragIdx on, read position at
      rdPtr: build the fragment from the next at most 56 bytes, transfer it,
      stop on a negative result. */
  function FragmentLoop(w: Wire, data: seq<byte>, size: int, packetIdx: int, fragCount: int,
                        fragIdx: int, rdPtr: int): (s: Sent)
    requires 0 <= rdPtr <= size <= |data|
    ensures s.wire.inReplies == w.inReplies
    decreases fragCount - fragIdx + 1
  {
    if fragIdx > fragCount then Sent(true, w)
    else
      var fragSize := Min(size - rdPtr, MaxUsbFragSize);
      var fragBuf := [WriteReportId, ToByte(fragSize + 3), ToByte(packetIdx), ToByte(fragCount), ToByte(fragIdx)]
                     + data[rdPtr..rdPtr + fragSize];
      if ResultAt(w.outResults, 0) < 0 then Sent(false, AfterWrite(w, fragBuf))
      else FragmentLoop(AfterWrite(w, fragBuf), data, size, packetIdx, fragCount, fragIdx + 1, rdPtr + fragSize)
  }

  /** The loop with fragIdx = 1 + i and rdPtr = 56 * i transfers exactly the
      fragments i, i + 1, ... of the report, stopping where PushFrames stops. */
  lemma {:induction false} FragmentLoopFrom(w: Wire, data: seq<byte>, size: int, packetIdx: int, i: nat)
    requires 0 < size <= |data| && i <= |Chunked(data[..size], MaxUsbFragSize)|
    requires i < |Chunked(data[..size], MaxUsbFragSize)| || i * MaxUsbFragSize >= size
    ensures var fragCount := |Chunked(data[..size], MaxUsbFragSize)|;
            var rdPtr := Min(i * MaxUsbFragSize, size);
            FragmentLoop(w, data, size, packetIdx, fragCount, i + 1, rdPtr)
            == PushFrames(w, ReportFragments(data[..size], packetIdx)[i..])
    decreases |Chunked(data[..size], MaxUsbFragSize)| - i
  {
    var frames := ReportFragments(data[..size], packetIdx);
    var fragCount := |Chunked(data[..size], MaxUsbFragSize)|;
    if i < fragCount {
      FragmentAt(data, size, packetIdx, i);
      PushFramesStep(w, frames, i);
      var rdPtr := i * MaxUsbFragSize;
      var fragSize := Min(size - rdPtr, MaxUsbFragSize);
      var w' := AfterWrite(w, frames[i]);
      if ResultAt(w.outResults, 0) >= 0 {
        if i + 1 < fragCount {
          FragmentAt(data, size, packetIdx, i + 1);
        } else {
          assert (i + 1) * MaxUsbFragSize >= size by {
            ChunkCount(data[..size], MaxUsbFragSize);
          }
        }
        FragmentLoopFrom(w', data, size, packetIdx, i + 1);
        assert rdPtr + fragSize == Min((i + 1) * MaxUsbFragSize, size);
      }
    } else {
      assert frames[i..] == [];
    }
  }

  /** sendReport2's loop, started with fragIdx = 1 and rdPtr = 0 and its
      fragment count ceil(size / 56), is PushFrames over the report's fragments. */
  lemma FragmentLoopPushes(w: Wire, data: seq<byte>, size: int, packetIdx: int)
    requires 0 < size <= |data|
    ensures FragmentLoop(w, data, size, packetIdx, FragCount(size), 1, 0)
            == PushFrames(w, ReportFragments(data[..size], packetIdx))
  {
    ChunkCount(data[..size], MaxUsbFragSize);
    CeilDiv(size, MaxUsbFragSize);
    FragmentLoopFrom(w, data, size, packetIdx, 0);
    assert ReportFragments(data[..size], packetIdx)[0..] == ReportFragments(data[..size], packetIdx);
  }

  /** The position of the first OUT transfer, among the next n, that fails;
      n when none does. */
  function FirstFailure(results: seq<int>, n: nat): (k: nat)
    ensures k <= n
    ensures forall j :: 0 <= j < k ==> ResultAt(results, j) >= 0
    ensures k < n ==> ResultAt(results, k) < 0
  {
    if n == 0 then 0
    else if ResultAt(results, 0) < 0 then 0
    else
      assert forall j :: 1 <= j ==> ResultAt(results, j) == ResultAt(Drop(results, 1), j - 1);
      1 + FirstFailure(Drop(results, 1), n - 1)
  }

  lemma TakeCons<T>(s: seq<T>, k: nat)
    requires 0 < k <= |s|
    ensures s[..k] == [s[0]] + s[1..][..k - 1]
  {
  }

  lemma DropDrop<T>(s: seq<T>, k: nat)
    ensures Drop(Drop(s, 1), k) == Drop(s, k + 1)
  {
    if 1 <= |s| && k + 1 <= |s| {
      assert s[1..][k..] == s[k + 1..];
    }
  }

  /** The fragments up to and including the first failed transfer are
      written, in order, and the exchange succeeds exactly when none fails. */
  lemma {:induction false} PushFramesSpec(w: Wire, frames: seq<seq<byte>>)
    ensures var k := FirstFailure(w.outResults, |frames|);
            var sent := Min(k + 1, |frames|);
            PushFrames(w, frames)
            == Sent(k == |frames|, w.(outResults := Drop(w.outResults, sent), written := w.written + frames[..sent]))
    decreases |frames|
  {
    if frames != [] {
      var w' := AfterWrite(w, frames[0]);
      if ResultAt(w.outResults, 0) < 0 {
        assert frames[..1] == [frames[0]];
      } else {
        assert PushFrames(w, frames) == PushFrames(w', frames[1..]);
        PushFramesSpec(w', frames[1..]);
        var k' := FirstFailure(w'.outResults, |frames| - 1);
        var sent' := Min(k' + 1, |frames| - 1);
        assert FirstFailure(w.outResults, |frames|) == k' + 1;
        assert Min(k' + 2, |frames|) == sent' + 1;
        assert Drop(w'.outResults, sent') == Drop(w.outResults, sent' + 1) by {
          DropDrop(w.outResults, sent');
        }
        assert w'.written + frames[1..][..sent'] == w.written + frames[..sent' + 1] by {
          TakeCons(frames, sent' + 1);
        }
      }
    }
  }

  /** recResponse's loop in state (fragIdx, fragCount): a negative read fails,
      a read of fewer than five bytes is skipped, and a read of five or more
      counts, the first one fixing the count from its byte 3. */
  function AckRun(w: Wire, fragIdx: int, fragCount: int): (s: Sent)
    ensures s.wire.outResults == w.outResults && s.wire.written == w.written
    decreases |w.inReplies|
  {
    if w.inReplies == [] then Sent(false, w)
    else
      var r := w.inReplies[0];
      var w' := AfterRead(w);
      if r.bytesRead < 0 then Sent(false, w')
      else if r.bytesRead >= PackHeaderSize then
        var count := if fragIdx == 0 then r.fragCount else fragCount;
        if fragIdx + 1 < count then AckRun(w', fragIdx + 1, count) else Sent(true, w')
      else AckRun(w', fragIdx, fragCount)
  }

  /** The reads before the first failed one. */
  function UntilFailure(rs: seq<Reply>): seq<Reply>
  {
    if rs == [] || rs[0].bytesRead < 0 then [] else [rs[0]] + UntilFailure(rs[1..])
  }

  /** The reads that carry a whole five-byte header. */
  function WholeReads(rs: seq<Reply>): seq<Reply>
  {
    if rs == [] then [] else (if rs[0].bytesRead >= PackHeaderSize then [rs[0]] else []) + WholeReads(rs[1..])
  }

  /** recResponse succeeds exactly when, before any failed read, there are at
      least as many whole reads as the first of them announces (and at least one). */
  lemma AckAccepts(w: Wire)
    ensures AckRun(w, 0, 1).ok <==>
              var f := WholeReads(UntilFailure(w.inReplies)); f != [] && |f| >= f[0].fragCount
    decreases |w.inReplies|
  {
    if w.inReplies != [] {
      var r := w.inReplies[0];
      var w' := AfterRead(w);
      assert w'.inReplies == w.inReplies[1..];
      if r.bytesRead >= 0 {
        assert UntilFailure(w.inReplies) == [r] + UntilFailure(w'.inReplies);
        assert ([r] + UntilFailure(w'.inReplies))[1..] == UntilFailure(w'.inReplies);
        if r.bytesRead >= PackHeaderSize {
          if 1 < r.fragCount {
            AckContinues(w', 1, r.fragCount);
          }
        } else {
          AckAccepts(w');
        }
      }
    }
  }

  lemma {:induction false} AckContinues(w: Wire, fragIdx: int, fragCount: int)
    requires 1 <= fragIdx < fragCount
    ensures AckRun(w, fragIdx, fragCount).ok <==> |WholeReads(UntilFailure(w.inReplies))| >= fragCount - fragIdx
    decreases |w.inReplies|
  {
    if w.inReplies != [] {
      var r := w.inReplies[0];
      var w' := AfterRead(w);
      assert w'.inReplies == w.inReplies[1..];
      if r.bytesRead >= 0 {
        assert UntilFailure(w.inReplies) == [r] + UntilFailure(w'.inReplies);
        assert ([r] + UntilFailure(w'.inReplies))[1..] == UntilFailure(w'.inReplies);
        if r.bytesRead >= PackHeaderSize {
          if fragIdx + 1 < fragCount {
            AckContinues(w', fragIdx + 1, fragCount);
          }
        } else {
          AckContinues(w', fragIdx, fragCount);
        }
      }
    }
  }

  // ---------------------------------------------------------------------------
  // Exchanges: the driver's protocol state and what each send does to it
  // ---------------------------------------------------------------------------

  /** The counters and the wire. */
  datatype Proto = Proto(cmdId: int, packetIdx: int, wire: Wire)

  predicate ProtoOk(s: Proto)
  {
    1 <= s.cmdId <= MaxCmdId && 0 <= s.packetIdx <= MaxUsbPacketIdx
  }

  /** Whether a connection and an OUT (resp. IN) endpoint are there to
      transfer on.  `connection!!` on a null connection, and Android's
      bulkTransfer on a null endpoint, throw an NPE (null dereference). */
  datatype Link = Link(canWrite: bool, canRead: bool)

  /** How a send ends: it returns a result, or an NPE (null dereference)
      propagates out of it (nothing in the driver catches one). */
  datatype Outcome = Returned(ok: bool, state: Proto) | Raised(state: Proto)

  predicate Succeeded(o: Outcome)
  {
    o.Returned? && o.ok
  }

  /** sendReport2(data, size): the size check, the packet index, the fragments
      and the acknowledgement. */
  function ReportExchange(s: Proto, data: seq<byte>, size: int, link: Link): (o: Outcome)
    requires ProtoOk(s) && size <= |data|
    ensures ProtoOk(o.state) && o.state.cmdId == s.cmdId
    ensures size <= 0 || size > MaxUsbPacketSize ==> o == Returned(false, s)
    ensures 0 < size <= MaxUsbPacketSize ==> o.state.packetIdx == NextPacketIdx(s.packetIdx)
    ensures o.Raised? <==> 0 < size <= MaxUsbPacketSize && (!link.canWrite || (!link.canRead && FragmentLoop(s.wire, data, size, NextPacketIdx(s.packetIdx), FragCount(size), 1, 0).ok))
  {
    if size <= 0 || size > MaxUsbPacketSize then Returned(false, s)
    else
      var p := NextPacketIdx(s.packetIdx);
      if !link.canWrite then Raised(s.(packetIdx := p))
      else
        var pushed := FragmentLoop(s.wire, data, size, p, FragCount(size), 1, 0);
        if !pushed.ok then Returned(false, Proto(s.cmdId, p, pushed.wire))
        else if !link.canRead then Raised(Proto(s.cmdId, p, pushed.wire))
        else
          var ack := AckRun(pushed.wire, 0, 1);
          Returned(ack.ok, Proto(s.cmdId, p, ack.wire))
  }

  /** sendReport2 reads only the first `size` bytes of its buffer. */
  lemma ReportExchangePrefix(s: Proto, d1: seq<byte>, d2: seq<byte>, size: int, link: Link)
    requires ProtoOk(s) && size <= |d1| && size <= |d2| && (0 < size ==> d1[..size] == d2[..size])
    ensures ReportExchange(s, d1, size, link) == ReportExchange(s, d2, size, link)
  {
    if 0 < size <= MaxUsbPacketSize && link.canWrite {
      FragmentLoopPushes(s.wire, d1, size, NextPacketIdx(s.packetIdx));
      FragmentLoopPushes(s.wire, d2, size, NextPacketIdx(s.packetIdx));
    }
  }

  /** sendCmd(cmdType, getCmdId()). */
  function CmdExchange(s: Proto, cmdType: byte, link: Link): (o: Outcome)
    requires ProtoOk(s)
    ensures ProtoOk(o.state)
  {
    var (id, next) := CmdIdStep(s.cmdId);
    ReportExchange(s.(cmdId := next), CommandPacket(cmdType, id), 6, link)
  }

  /** `sendCmd(CMD_IDLE_MODE, getCmdId()) && sendCmd(CMD_SEND_MODE, getCmdId())`. */
  function BootstrapExchange(s: Proto, link: Link): (o: Outcome)
    requires ProtoOk(s)
    ensures ProtoOk(o.state)
  {
    var idle := CmdExchange(s, CmdIdleMode, link);
    if !Succeeded(idle) then idle else CmdExchange(idle.state, CmdSendMode, link)
  }

  /** sendIrCmd(freq, buffer, bufSize, cmdId). */
  function IrCmdExchange(s: Proto, freq: int, buffer: seq<byte>, bufSize: int, cmdId: byte, link: Link): (o: Outcome)
    requires ProtoOk(s) && bufSize <= |buffer|
    ensures ProtoOk(o.state)
  {
    if bufSize < 0 || bufSize + PackHeaderSize + 2 > MaxUsbPacketSize then Returned(false, s)
    else
      match FrequencyId(freq)
      case None => Returned(false, s)
      case Some(freqId) => ReportExchange(s, DataPacket(cmdId, freqId, buffer[..bufSize]), bufSize + 7, link)
  }

  /** An accepted frequency and a packet that fits: sendIrCmd sends the 'D' packet. */
  lemma IrCmdSendsData(s: Proto, freq: int, buffer: seq<byte>, bufSize: int, cmdId: byte, link: Link)
    requires ProtoOk(s) && 0 <= bufSize <= |buffer| && bufSize + PackHeaderSize + 2 <= MaxUsbPacketSize
    requires FrequencyId(freq).Some?
    ensures IrCmdExchange(s, freq, buffer, bufSize, cmdId, link)
            == ReportExchange(s, DataPacket(cmdId, FrequencyId(freq).value, buffer[..bufSize]), bufSize + 7, link)
  {
  }

  /** sendIr(freq, buffer, bufSize): takes a command id, then sendIrCmd. */
  function IrExchange(s: Proto, freq: int, buffer: seq<byte>, bufSize: int, link: Link): (o: Outcome)
    requires ProtoOk(s) && bufSize <= |buffer|
    ensures ProtoOk(o.state)
  {
    var (id, next) := CmdIdStep(s.cmdId);
    IrCmdExchange(s.(cmdId := next), freq, buffer, bufSize, id, link)
  }

  /** sendIr reads only the first bufSize bytes of its buffer. */
  lemma IrExchangeBuffer(s: Proto, freq: int, b1: seq<byte>, b2: seq<byte>, link: Link)
    requires ProtoOk(s) && |b2| <= |b1| && b1[..|b2|] == b2
    ensures IrExchange(s, freq, b1, |b2|, link) == IrExchange(s, freq, b2, |b2|, link)
  {
    assert b2[..|b2|] == b2;
  }

  /** sendIrSignal(freq, pattern) on a driver whose isInitialized is `ready`. */
  function SignalExchange(ready: bool, s: Proto, freq: int, pattern: seq<int>, link: Link): (o: Outcome)
    requires ProtoOk(s)
    ensures ProtoOk(o.state)
  {
    if !ready then Returned(false, s)
    else
      var boot := BootstrapExchange(s, link);
      if !Succeeded(boot) then boot
      else PatternExchange(boot.state, freq, pattern, link)
  }

  /** The rest of sendIrSignal after the bootstrap: encode the pattern into the
      1017-byte buffer, give up when it does not fit, otherwise sendIr. */
  function PatternExchange(s: Proto, freq: int, pattern: seq<int>, link: Link): (o: Outcome)
    requires ProtoOk(s)
    ensures ProtoOk(o.state)
  {
    var enc := PatternBytes(pattern);
    if |enc| > PulseBufSize then Returned(false, s)
    else IrExchange(s, freq, enc, |enc|, link)
  }

  /** The bootstrap's `&&` short-circuits: when Idle does not succeed, Send is
      never sent and no second command id is taken. */
  lemma BootstrapShortCircuits(s: Proto, link: Link)
    requires ProtoOk(s) && !Succeeded(CmdExchange(s, CmdIdleMode, link))
    ensures BootstrapExchange(s, link) == CmdExchange(s, CmdIdleMode, link)
    ensures BootstrapExchange(s, link).state.cmdId == CmdIdStep(s.cmdId).1
  {
  }

  /** A successful report has sent every fragment of its packet, in order,
      and nothing else. */
  lemma ReportSent(s: Proto, data: seq<byte>, size: int, link: Link)
    requires ProtoOk(s) && size <= |data| && Succeeded(ReportExchange(s, data, size, link))
    ensures 0 < size <= MaxUsbPacketSize && link.canWrite && link.canRead
    ensures ReportExchange(s, data, size, link).state.wire.written
            == s.wire.written + ReportFragments(data[..size], NextPacketIdx(s.packetIdx))
  {
    FragmentLoopPushes(s.wire, data, size, NextPacketIdx(s.packetIdx));
    PushFramesSpec(s.wire, ReportFragments(data[..size], NextPacketIdx(s.packetIdx)));
  }

  /** A successful sendCmd has put exactly one report on the wire: the
      command packet with the next command id, in a single fragment under the
      next packet index. */
  lemma CmdSent(s: Proto, cmdType: byte, link: Link)
    requires ProtoOk(s) && Succeeded(CmdExchange(s, cmdType, link))
    ensures var o := CmdExchange(s, cmdType, link).state;
            && o.cmdId == CmdIdStep(s.cmdId).1 && o.packetIdx == NextPacketIdx(s.packetIdx)
            && o.wire.written
               == s.wire.written + [[2, 9, NextPacketIdx(s.packetIdx), 1, 1, 0x53, 0x54, CmdIdStep(s.cmdId).0, cmdType, 0x45, 0x4E]]
  {
    var (id, next) := CmdIdStep(s.cmdId);
    var pkt := CommandPacket(cmdType, id);
    ReportSent(s.(cmdId := next), pkt, 6, link);
    CommandPacketParses(cmdType, id);
    assert pkt[..6] == pkt;
    CommandFragment(cmdType, id, NextPacketIdx(s.packetIdx));
  }

  /** A successful bootstrap has put the Idle report and then the Send report
      on the wire, with consecutive command ids and packet indices. */
  lemma BootstrapSent(s: Proto, link: Link)
    requires ProtoOk(s) && Succeeded(BootstrapExchange(s, link))
    ensures var idle := CmdIdStep(s.cmdId);
            var send := CmdIdStep(idle.1);
            var p1 := NextPacketIdx(s.packetIdx);
            var o := BootstrapExchange(s, link).state;
            && o.cmdId == send.1 && o.packetIdx == NextPacketIdx(p1)
            && o.wire.written
               == s.wire.written + [[2, 9, p1, 1, 1, 0x53, 0x54, idle.0, CmdIdleMode, 0x45, 0x4E],
                                    [2, 9, NextPacketIdx(p1), 1, 1, 0x53, 0x54, send.0, CmdSendMode, 0x45, 0x4E]]
  {
    var idle := CmdExchange(s, CmdIdleMode, link);
    CmdSent(s, CmdIdleMode, link);
    CmdSent(idle.state, CmdSendMode, link);
  }

  /** A report that cannot write raises before anything reaches the wire,
      yet the packet index has already moved on. */
  lemma ReportWithoutLinkRaises(s: Proto, data: seq<byte>, size: int, link: Link)
    requires ProtoOk(s) && size <= |data| && 0 < size <= MaxUsbPacketSize && !link.canWrite
    ensures ReportExchange(s, data, size, link) == Raised(s.(packetIdx := NextPacketIdx(s.packetIdx)))
  {
  }

  /** The sending half of sendIrSignal on a bootstrapped driver: when it
      succeeds, the frequency was accepted, the encoding fit the buffer, and
      the fragments it appended reassemble to the 'D' packet carrying the
      frequency byte and the pattern's encoding. */
  lemma PatternDelivers(b: Proto, freq: int, pattern: seq<int>, link: Link)
    requires ProtoOk(b) && Succeeded(PatternExchange(b, freq, pattern, link))
    ensures var enc := PatternBytes(pattern);
            var id := CmdIdStep(b.cmdId).0;
            && FrequencyId(freq).Some? && |enc| <= PulseBufSize
            && var sent := PatternExchange(b, freq, pattern, link).state.wire.written;
               && |b.wire.written| <= |sent| && sent[..|b.wire.written|] == b.wire.written
               && Reassemble(sent[|b.wire.written|..]) == Some(DataPacket(id, FrequencyId(freq).value, enc))
               && ParsePacket(DataPacket(id, FrequencyId(freq).value, enc))
                  == Some(Packet(id, CmdData, [FrequencyId(freq).value] + enc))
  {
    var enc := PatternBytes(pattern);
    var (id, next) := CmdIdStep(b.cmdId);
    var fid := FrequencyId(freq).value;
    var pkt := DataPacket(id, fid, enc);
    assert enc[..|enc|] == enc;
    ReportSent(b.(cmdId := next), pkt, |enc| + 7, link);
    DataPacketParses(id, fid, enc);
    assert pkt[..|enc| + 7] == pkt;
    var sent := PatternExchange(b, freq, pattern, link).state.wire.written;
    assert sent[|b.wire.written|..] == ReportFragments(pkt, NextPacketIdx(b.packetIdx));
    FragmentRoundTrip(pkt, MaxUsbFragSize, NextPacketIdx(b.packetIdx));
  }

  /** End to end: when sendIrSignal succeeds, the wire holds the Idle and Send
      reports of the bootstrap followed by fragments that reassemble to the
      'D' packet carrying the accepted frequency byte and the pattern's
      encoding, which fit the buffer. */
  lemma SignalDelivers(s: Proto, freq: int, pattern: seq<int>, link: Link)
    requires ProtoOk(s) && Succeeded(SignalExchange(true, s, freq, pattern, link))
    ensures var boot := BootstrapExchange(s, link).state;
            var enc := PatternBytes(pattern);
            var id := CmdIdStep(boot.cmdId).0;
            && FrequencyId(freq).Some? && |enc| <= PulseBufSize
            && var sent := SignalExchange(true, s, freq, pattern, link).state.wire.written;
               && |boot.wire.written| <= |sent|
               && (var idle := CmdIdStep(s.cmdId);
                   var p1 := NextPacketIdx(s.packetIdx);
                   sent[..|boot.wire.written|]
                   == s.wire.written + [[2, 9, p1, 1, 1, 0x53, 0x54, idle.0, CmdIdleMode, 0x45, 0x4E],
                                        [2, 9, NextPacketIdx(p1), 1, 1, 0x53, 0x54, CmdIdStep(idle.1).0, CmdSendMode, 0x45, 0x4E]])
               && Reassemble(sent[|boot.wire.written|..]) == Some(DataPacket(id, FrequencyId(freq).value, enc))
               && ParsePacket(DataPacket(id, FrequencyId(freq).value, enc))
                  == Some(Packet(id, CmdData, [FrequencyId(freq).value] + enc))
  {
    BootstrapSent(s, link);
    PatternDelivers(BootstrapExchange(s, link).state, freq, pattern, link);
  }

  /** sendIrSignal's 1017-byte buffer always passes sendIrCmd's size check:
      with an accepted frequency, every encoding that fit the buffer goes to
      sendReport2 as the 'D' packet of bufSize + 7 <= 1024 bytes. */
  lemma EncodingFitsPacket(b: Proto, freq: int, pattern: seq<int>, link: Link)
    requires ProtoOk(b) && |PatternBytes(pattern)| <= PulseBufSize && FrequencyId(freq).Some?
    ensures var enc := PatternBytes(pattern);
            && |enc| + PackHeaderSize + 2 <= MaxUsbPacketSize
            && PatternExchange(b, freq, pattern, link)
               == ReportExchange(b.(cmdId := CmdIdStep(b.cmdId).1),
                                 DataPacket(CmdIdStep(b.cmdId).0, FrequencyId(freq).value, enc), |enc| + 7, link)
  {
    assert PatternBytes(pattern)[..|PatternBytes(pattern)|] == PatternBytes(pattern);
  }

  /** The frequency check comes after sendIr has taken a command id: a
      rejected frequency costs an id and sends nothing. */
  lemma RejectedFrequencyConsumesCmdId(s: Proto, freq: int, pattern: seq<int>, link: Link)
    requires ProtoOk(s) && Succeeded(BootstrapExchange(s, link)) && |PatternBytes(pattern)| <= PulseBufSize
    requires |FreqTable| <= freq <= 255
    ensures var boot := BootstrapExchange(s, link).state;
            SignalExchange(true, s, freq, pattern, link) == Returned(false, boot.(cmdId := CmdIdStep(boot.cmdId).1))
  {
  }

  // ---------------------------------------------------------------------------
  // The driver's lifecycle
  // ---------------------------------------------------------------------------

  /** The fields of TiqiaaUsbDriver, with the bus state they affect: whether
      the device handle is open and the permission requests issued. */
  datatype DriverState = DriverState(
    device: Option<UsbDevice>,
    connection: Option<Connection>,
    endpointIn: Option<Endpoint>,
    endpointOut: Option<Endpoint>,
    isInitialized: bool,
    permissionPending: bool,
    proto: Proto,
    busOpen: bool,
    requests: seq<UsbDevice>)

  /** How a driver call ends: `threw` when an exception propagates out of it,
      otherwise `value` is what it returns (false for the Unit calls). */
  datatype Step = Step(threw: bool, value: bool, st: DriverState)

  /** What the USB manager answers: the enumerated devices, the granted ones,
      and whether openDevice succeeds. */
  datatype Env = Env(deviceList: seq<UsbDevice>, permitted: set<UsbDevice>, openable: bool)

  /** The driver's invariant: counters in range, endpoints of the right kind. */
  predicate Inv(st: DriverState)
  {
    && ProtoOk(st.proto)
    && (st.endpointIn.Some? ==> IsBulk(st.endpointIn.value, DirIn))
    && (st.endpointOut.Some? ==> IsBulk(st.endpointOut.value, DirOut))
  }

  function LinkOf(st: DriverState): Link
  {
    Link(st.connection.Some? && st.endpointOut.Some?, st.connection.Some? && st.endpointIn.Some?)
  }

  /** A freshly constructed driver on a bus. */
  function InitialState(requests: seq<UsbDevice>, wire: Wire, busOpen: bool): (st: DriverState)
    ensures Inv(st) && st.proto.cmdId == 1 && st.proto.packetIdx == 0
  {
    DriverState(None, None, None, None, false, false, Proto(1, 0, wire), busOpen, requests)
  }

  /** The end of deinit, once nothing has thrown: close, forget the device,
      drop the pending permission request, not ready.  The endpoints stay. */
  function Cleared(st: DriverState): (st': DriverState)
  {
    st.(device := None, connection := None, isInitialized := false, permissionPending := false,
        busOpen := st.busOpen && st.connection.None?)
  }

  /** deinit: when connected, an Idle command whose failure is ignored, then
      releaseInterface(device?.getInterface(0)) (which throws for a missing
      device or a device without interfaces), close, clear. */
  function DeinitSpec(st: DriverState): (r: Step)
    requires Inv(st)
    ensures Inv(r.st) && !r.value
    ensures r.st.device.Some? ==> r.st.device == st.device
    ensures r.st.isInitialized ==> st.isInitialized
  {
    if st.connection.None? then Step(false, false, Cleared(st))
    else
      var idle := CmdExchange(st.proto, CmdIdleMode, LinkOf(st));
      var st1 := st.(proto := idle.state);
      if idle.Raised? then Step(true, false, st1)
      else if st.device.None? || st.device.value.interfaces == [] then Step(true, false, st1)
      else Step(false, false, Cleared(st1))
  }

  /** After a deinit that completes the driver is neither available nor
      ready, holds no connection and has closed the one it held; the
      endpoints are kept. */
  lemma DeinitResets(st: DriverState)
    requires Inv(st) && !DeinitSpec(st).threw
    ensures var d := DeinitSpec(st).st;
            && d.device.None? && d.connection.None? && !d.isInitialized && !d.permissionPending
            && (st.connection.Some? ==> !d.busOpen) && (st.connection.None? ==> d.busOpen == st.busOpen)
            && d.endpointIn == st.endpointIn && d.endpointOut == st.endpointOut
            && d.requests == st.requests
  {
  }

  /** initializeConnection: open, scan interface 0, bootstrap. */
  function InitConnSpec(st: DriverState, openable: bool): (r: Step)
    requires Inv(st) && st.device.Some?
    ensures Inv(r.st) && !r.value
    ensures r.st.device.Some? ==> r.st.device == st.device
    ensures r.st.isInitialized ==> r.st.device == st.device
  {
    if !openable then Step(false, false, st.(connection := None))
    else
      var dev := st.device.value;
      var connected := st.(connection := Some(Connection(dev)), busOpen := true);
      if dev.interfaces == [] then Step(true, false, connected)  // getInterface(0) throws
      else
        var eps := dev.interfaces[0].endpoints;
        var scanned := connected.(endpointIn := LastBulk(eps, DirIn, st.endpointIn),
                                  endpointOut := LastBulk(eps, DirOut, st.endpointOut));
        BootOrReleaseSpec(scanned)
  }

  /** The rest of initializeConnection once interface 0 has been scanned:
      without both bulk endpoints the driver deinitializes; otherwise the
      bootstrap decides between ready, deinit and a propagating exception. */
  function BootOrReleaseSpec(st: DriverState): (r: Step)
    requires Inv(st)
    ensures Inv(r.st) && !r.value
    ensures r.st.device.Some? ==> r.st.device == st.device
    ensures r.st.isInitialized ==> r.st.device == st.device
  {
    if st.endpointIn.None? || st.endpointOut.None? then DeinitSpec(st)
    else
      var boot := BootstrapExchange(st.proto, LinkOf(st));
      var booted := st.(proto := boot.state);
      if boot.Raised? then Step(true, false, booted)
      else if !boot.ok then DeinitSpec(booted)
      else Step(false, false, booted.(isInitialized := true))
  }

  /** isReady only turns true when the device opened, both bulk endpoints are
      known, and the Idle and Send commands were both acknowledged; the driver
      then holds the connection. */
  lemma ReadyOnlyAfterBootstrap(st: DriverState, openable: bool)
    requires Inv(st) && st.device.Some? && !st.isInitialized
    requires InitConnSpec(st, openable).st.isInitialized
    ensures var st' := InitConnSpec(st, openable).st;
            && openable && !InitConnSpec(st, openable).threw
            && st'.connection == Some(Connection(st.device.value)) && st'.busOpen
            && st'.endpointIn.Some? && st'.endpointOut.Some? && st'.device == st.device
            && Succeeded(BootstrapExchange(st.proto, Link(true, true)))
            && st'.proto == BootstrapExchange(st.proto, Link(true, true)).state
            && var idle := CmdIdStep(st.proto.cmdId);
               var p1 := NextPacketIdx(st.proto.packetIdx);
               st'.proto.wire.written
               == st.proto.wire.written + [[2, 9, p1, 1, 1, 0x53, 0x54, idle.0, CmdIdleMode, 0x45, 0x4E],
                                           [2, 9, NextPacketIdx(p1), 1, 1, 0x53, 0x54, CmdIdStep(idle.1).0, CmdSendMode, 0x45, 0x4E]]
  {
    var dev := st.device.value;
    assert openable && dev.interfaces != [];
    var eps := dev.interfaces[0].endpoints;
    var scanned := st.(connection := Some(Connection(dev)), busOpen := true,
                       endpointIn := LastBulk(eps, DirIn, st.endpointIn),
                       endpointOut := LastBulk(eps, DirOut, st.endpointOut));
    assert InitConnSpec(st, openable) == BootOrReleaseSpec(scanned);
    BootReadyOnly(scanned);
    BootstrapSent(st.proto, Link(true, true));
  }

  /** The bootstrap half of the above: a driver that was not ready becomes
      ready only through an acknowledged bootstrap on both endpoints. */
  lemma BootReadyOnly(st: DriverState)
    requires Inv(st) && !st.isInitialized && st.connection.Some?
    requires BootOrReleaseSpec(st).st.isInitialized
    ensures var st' := BootOrReleaseSpec(st).st;
            && !BootOrReleaseSpec(st).threw
            && st'.connection == st.connection && st'.busOpen == st.busOpen
            && st'.endpointIn.Some? && st'.endpointOut.Some? && st'.device == st.device
            && Succeeded(BootstrapExchange(st.proto, Link(true, true)))
            && st'.proto == BootstrapExchange(st.proto, Link(true, true)).state
  {
    assert st.endpointIn.Some? && st.endpointOut.Some?;
    assert LinkOf(st) == Link(true, true);
  }

  /** A device whose interface 0 has a bulk IN but no bulk OUT endpoint (and
      no endpoint left from an earlier session) makes initializeConnection
      call deinit while connected: deinit's Idle command then has no OUT
      endpoint and throws, so init ends with an exception, the connection
      still open and the command id and packet index advanced. */
  lemma MissingOutEndpointThrows(st: DriverState, e: Endpoint)
    requires Inv(st) && st.device.Some? && st.endpointOut.None?
    requires st.device.value.interfaces != [] && st.device.value.interfaces[0].endpoints == [e] && IsBulk(e, DirIn)
    ensures var r := InitConnSpec(st, true);
            && r.threw && r.st.connection.Some? && r.st.busOpen && r.st.isInitialized == st.isInitialized
            && r.st.proto == st.proto.(cmdId := CmdIdStep(st.proto.cmdId).1, packetIdx := NextPacketIdx(st.proto.packetIdx))
  {
    var eps := st.device.value.interfaces[0].endpoints;
    assert LastBulk(eps, DirOut, None) == None by {
      assert !IsBulk(eps[0], DirOut);
    }
  }

  /** requestPermissionAsync: a second request while one is pending is dropped. */
  function RequestPermissionSpec(st: DriverState): (st': DriverState)
    requires st.device.Some?
    ensures st'.permissionPending
    ensures st'.requests == st.requests + (if st.permissionPending then [] else [st.device.value])
    ensures st' == st.(permissionPending := true, requests := st'.requests)
  {
    if st.permissionPending then st
    else st.(permissionPending := true, requests := st.requests + [st.device.value])
  }

  /** init: find a device, then connect now and report isInitialized, or ask
      for permission and report false. */
  function InitSpec(st: DriverState, env: Env): (r: Step)
    requires Inv(st)
    ensures Inv(r.st)
    ensures r.st.device.Some? ==> r.st.device == FindDevice(env.deviceList)
    ensures r.value ==> && !r.threw && r.st.isInitialized && r.st.device == FindDevice(env.deviceList)
                        && r.st.device.Some? && r.st.device.value in env.permitted
  {
    var dev := FindDevice(env.deviceList);
    var found := st.(device := dev);
    if dev.None? then Step(false, false, found)
    else if dev.value in env.permitted then
      var c := InitConnSpec(found, env.openable);
      if c.threw then c else Step(false, c.st.isInitialized, c.st)
    else Step(false, false, RequestPermissionSpec(found))
  }

  /** init with no compatible device attached fails and only forgets the device. */
  lemma InitWithoutDevice(st: DriverState, env: Env)
    requires Inv(st) && forall i :: 0 <= i < |env.deviceList| ==> !IsCompatibleId(env.deviceList[i])
    ensures InitSpec(st, env) == Step(false, false, st.(device := None))
  {
  }

  /** A ready driver whose re-init fails to open the device keeps isReady
      true but has lost its connection, and init still returns true. */
  lemma FailedReopenStaysReady(st: DriverState, env: Env)
    requires Inv(st) && st.isInitialized && !env.openable
    requires FindDevice(env.deviceList).Some? && FindDevice(env.deviceList).value in env.permitted
    ensures InitSpec(st, env).value && InitSpec(st, env).st.isInitialized && InitSpec(st, env).st.connection.None?
  {
  }

  /** sendIrSignal on the whole driver state. */
  function SignalSpec(st: DriverState, freq: int, pattern: seq<int>): (r: Step)
    requires Inv(st)
    ensures Inv(r.st)
    ensures r.st == st.(proto := r.st.proto)
    ensures !st.isInitialized ==> r == Step(false, false, st)
  {
    var o := SignalExchange(st.isInitialized, st.proto, freq, pattern, LinkOf(st));
    Step(o.Raised?, Succeeded(o), st.(proto := o.state))
  }

  /** ... and such a driver then throws on sendIrSignal before writing
      anything, the Idle command's id and packet index spent. */
  lemma ReadyWithoutConnectionThrows(st: DriverState, freq: int, pattern: seq<int>)
    requires Inv(st) && st.isInitialized && st.connection.None?
    ensures var r := SignalSpec(st, freq, pattern);
            && r.threw && r.st.proto.wire == st.proto.wire
            && r.st.proto.cmdId == CmdIdStep(st.proto.cmdId).1
  {
  }
}
