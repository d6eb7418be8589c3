/** The older driver generation, UsbIrService (UsbIrService.kt): a write-only
    service that encodes a pattern with its own pulse encoder, numbers it with
    the companion object's counters, cuts it into fragments sized to the OUT
    endpoint, and sends a ready frame, the data fragments and a sleep frame.
    A transfer that comes back short closes the service and sending goes on. */
module IrService {
  import opened Usb
  import opened Fragments
  import opened IrCode

  const MaxCmdCnt := 127
  const MaxUsbPackCnt := 15
  /** transmit's fragment payload is the endpoint's packet size less this. */
  const FragmentOverhead := 5
  const StateReady: byte := 'S' as int
  const StateSleep: byte := 'L' as int

  // ---------------------------------------------------------------------------
  // Pulse encoder
  // ---------------------------------------------------------------------------

  /** usbTickToUsbByteCode: while ticks remain, a block of at most 127 of
      them, with bit 7 set for a mark; nothing at all for a count <= 0. */
  function TickBytes(tickCount: int, isOn: bool): (bs: seq<byte>)
    decreases tickCount
  {
    if tickCount <= 0 then []
    else
      var block := Min(tickCount, MaxRunTicks);
      [Marker(isOn) + block] + TickBytes(tickCount - block, isOn)
  }

  /** What the encoder promises: no bytes for a count <= 0, otherwise
      ceil(count / 127) bytes, every one holding 1 to 127 ticks, all but the
      last holding 127, all of the given polarity, the ticks summing to the
      count. */
  lemma {:induction false} TickBytesShape(tickCount: int, isOn: bool)
    ensures var bs := TickBytes(tickCount, isOn);
            && |bs| == (if tickCount <= 0 then 0 else (tickCount + 126) / 127)
            && (forall i :: 0 <= i < |bs| ==> 1 <= Ticks(bs[i]) <= MaxRunTicks)
            && (forall i :: 0 <= i < |bs| - 1 ==> bs[i] == Marker(isOn) + MaxRunTicks)
            && Uniform(bs, isOn)
            && SumTicks(bs) == if tickCount <= 0 then 0 else tickCount
    decreases tickCount
  {
    var bs := TickBytes(tickCount, isOn);
    if tickCount > MaxRunTicks {
      TickBytesShape(tickCount - MaxRunTicks, isOn);
      assert bs[1..] == TickBytes(tickCount - MaxRunTicks, isOn);
      DivStep(tickCount + 126, 127);
    } else if tickCount > 0 {
      assert TickBytes(tickCount - tickCount, isOn) == [];
      DivUnique(tickCount + 126, 127, 1, tickCount - 1);
    }
  }

  method UsbTickToUsbByteCode(tickCount: int, isOn: bool) returns (result: seq<byte>)
    ensures result == TickBytes(tickCount, isOn)
  {
    var remainingTicks := tickCount;
    result := [];
    while remainingTicks > 0
      invariant result + TickBytes(remainingTicks, isOn) == TickBytes(tickCount, isOn)
      decreases remainingTicks
    {
      var sendBlockSize := Min(remainingTicks, MaxRunTicks);
      remainingTicks := remainingTicks - sendBlockSize;
      // `sendBlockSize or 128` on a block below 128 adds bit 7
      var byteValue := if isOn then sendBlockSize + 128 else sendBlockSize;
      assert result + TickBytes(remainingTicks + sendBlockSize, isOn)
             == (result + [byteValue]) + TickBytes(remainingTicks, isOn);
      result := result + [byteValue];
    }
  }

  /** consumeIrToByteCode: every duration in ticks (Kotlin's truncating
      division by 16), marks at even and spaces at odd positions, the
      encodings concatenated in pattern order. */
  function IrByteCode(pattern: seq<int>): (bs: seq<byte>)
  {
    if pattern == [] then []
    else
      var k := |pattern| - 1;
      IrByteCode(pattern[..k]) + TickBytes(TruncDiv(pattern[k], TickMicros), k % 2 == 0)
  }

  method ConsumeIrToByteCode(pattern: seq<int>) returns (result: seq<byte>)
    ensures result == IrByteCode(pattern)
  {
    var usbTickPattern := seq(|pattern|, i requires 0 <= i < |pattern| => TruncDiv(pattern[i], TickMicros));
    result := [];
    var index := 0;
    while index < |usbTickPattern|
      invariant 0 <= index <= |pattern|
      invariant result == IrByteCode(pattern[..index])
    {
      var block := UsbTickToUsbByteCode(usbTickPattern[index], index % 2 == 0);
      assert pattern[..index + 1][..index] == pattern[..index];
      result := result + block;
      index := index + 1;
    }
    assert pattern[..index] == pattern;
  }

  /** Encoder round trip: when every duration is at least one tick, reading
      the code back gives each mark and space in order, in ticks; the code
      then ends with the polarity of the last entry. */
  lemma {:induction false} IrByteCodeRoundTrip(pattern: seq<int>)
    requires forall i :: 0 <= i < |pattern| ==> pattern[i] >= TickMicros
    ensures DecodeRuns(IrByteCode(pattern)) == PatternRuns(pattern)
    ensures pattern != [] ==>
              (IrByteCode(pattern) != []
               && IsMark(IrByteCode(pattern)[|IrByteCode(pattern)| - 1]) == ((|pattern| - 1) % 2 == 0))
    decreases |pattern|
  {
    if pattern != [] {
      var k := |pattern| - 1;
      var init, isOn := pattern[..k], k % 2 == 0;
      var last := TickBytes(TruncDiv(pattern[k], TickMicros), isOn);
      LastEntryCode(pattern[k], isOn);
      assert IrByteCode(pattern) == IrByteCode(init) + last;
      assert PatternRuns(pattern) == PatternRuns(init) + [Run(isOn, pattern[k] / TickMicros)];
      if k > 0 {
        IrByteCodeRoundTrip(init);
        DecodeAppend(IrByteCode(init), last);
      } else {
        assert IrByteCode(init) + last == last;
        assert PatternRuns(pattern) == [Run(isOn, pattern[k] / TickMicros)];
      }
    }
  }

  /** One entry of at least one tick encodes to a non-empty block that
      decodes to its own run and ends with its polarity. */
  lemma LastEntryCode(duration: int, isOn: bool)
    requires duration >= TickMicros
    ensures var last := TickBytes(TruncDiv(duration, TickMicros), isOn);
            && last != [] && IsMark(last[|last| - 1]) == isOn
            && DecodeRuns(last) == [Run(isOn, duration / TickMicros)]
  {
    var last := TickBytes(TruncDiv(duration, TickMicros), isOn);
    TickBytesShape(TruncDiv(duration, TickMicros), isOn);
    DecodeUniform(last, isOn);
  }

  /** The code is empty exactly when every entry is shorter than one tick. */
  lemma {:induction false} IrByteCodeEmpty(pattern: seq<int>)
    ensures IrByteCode(pattern) == [] <==> forall i :: 0 <= i < |pattern| ==> pattern[i] < TickMicros
    decreases |pattern|
  {
    if pattern != [] {
      var k := |pattern| - 1;
      var init := pattern[..k];
      var ticks := TruncDiv(pattern[k], TickMicros);
      IrByteCodeEmpty(init);
      assert ticks <= 0 <==> pattern[k] < TickMicros;
      assert TickBytes(ticks, k % 2 == 0) == [] <==> ticks <= 0;
      assert IrByteCode(pattern) == IrByteCode(init) + TickBytes(ticks, k % 2 == 0);
      assert (forall i :: 0 <= i < |pattern| ==> pattern[i] < TickMicros)
             <==> (forall i :: 0 <= i < k ==> init[i] < TickMicros) && pattern[k] < TickMicros;
    }
  }

  /** Durations shorter than a tick leave no trace in the code. */
  lemma ShortDurationVanishes(pattern: seq<int>, x: int)
    requires x < TickMicros
    ensures IrByteCode(pattern + [x]) == IrByteCode(pattern)
  {
    assert (pattern + [x])[..|pattern|] == pattern;
    assert TruncDiv(x, TickMicros) <= 0;
  }

  // ---------------------------------------------------------------------------
  // Frequency id, device predicate
  // ---------------------------------------------------------------------------

  /** getFrequencyId: above 255 the carrier's position in the table (0 when
      it is not listed); otherwise the value itself below the table size and
      0 from there up to 255. */
  function GetFrequencyId(freq: int): (id: int)
    ensures 0 <= freq ==> 0 <= id < |FreqTable|
    ensures freq < 0 ==> id == freq
  {
    if freq > 255 then
      var index := IndexOf(FreqTable, freq);
      if index == -1 then 0 else index
    else if freq < |FreqTable| then freq
    else 0
  }

  /** The three cases of getFrequencyId. */
  lemma GetFrequencyIdSpec(freq: int)
    ensures freq > 255 && freq in FreqTable ==>
              FreqTable[GetFrequencyId(freq)] == freq && freq !in FreqTable[..GetFrequencyId(freq)]
    ensures freq > 255 && freq !in FreqTable ==> GetFrequencyId(freq) == 0
    ensures freq < |FreqTable| ==> GetFrequencyId(freq) == freq
    ensures |FreqTable| <= freq <= 255 ==> GetFrequencyId(freq) == 0
  {
  }

  /** isCompatibleDevice: exactly one interface, at least one endpoint on it,
      and one of the two known vendor/product pairs. */
  predicate IsCompatibleDevice(device: UsbDevice)
    ensures IsCompatibleDevice(device) ==>
              && device.productId == 33896 && device.vendorId in {4292, 1118}
              && |device.interfaces| == 1 && device.interfaces[0].endpoints != []
  {
    && |device.interfaces| == 1
    && |device.interfaces[0].endpoints| != 0
    && ((device.vendorId == 4292 && device.productId == 33896)
        || (device.vendorId == 1118 && device.productId == 33896))
  }

  // ---------------------------------------------------------------------------
  // Companion counters
  // ---------------------------------------------------------------------------

  /** getCmdId and getUsbPackId: increment while below `top`, otherwise back
      to 1; the caller gets the new value. */
  function Advance(c: int, top: int): (r: int)
    ensures 0 <= c <= top && 1 <= top ==> 1 <= r <= top
    ensures r == c + 1 || r == 1
  {
    if c < top then c + 1 else 1
  }

  /** `_cmdCnt` after n calls of getCmdId, starting from 0. */
  function CmdCntAfter(n: nat): int
  {
    if n == 0 then 0 else Advance(CmdCntAfter(n - 1), MaxCmdCnt)
  }

  /** `_usbPackCnt` after n calls of getUsbPackId, starting from 1. */
  function PackCntAfter(n: nat): int
  {
    if n == 0 then 1 else Advance(PackCntAfter(n - 1), MaxUsbPackCnt)
  }

  /** Call n of getCmdId (counting from 0) returns n % 127 + 1: the ids run
      1, 2, ..., 127 and then start again at 1. */
  lemma {:induction false} CmdCntAfterClosed(n: nat)
    ensures CmdCntAfter(n + 1) == n % 127 + 1
  {
    if n > 0 {
      CmdCntAfterClosed(n - 1);
      ModSucc(n - 1, 127);
    }
  }

  /** `_usbPackCnt` after n calls is n % 15 + 1, so the first call returns 2,
      the ids stay in 1..15 and 15 is followed by 1. */
  lemma {:induction false} PackCntAfterClosed(n: nat)
    ensures PackCntAfter(n) == n % 15 + 1
  {
    if n > 0 {
      PackCntAfterClosed(n - 1);
      ModSucc(n - 1, 15);
    }
  }

  /** The companion object's process-wide state: the two counters and INSTANCE. */
  class Companion {
    var cmdCnt: int
    var usbPackCnt: int
    var instance: Option<UsbIrService>

    /** The counters' reachable range (each is a Kotlin Byte). */
    ghost predicate Valid()
      reads this
    {
      0 <= cmdCnt <= MaxCmdCnt && 1 <= usbPackCnt <= MaxUsbPackCnt
    }

    constructor ()
      ensures Valid() && cmdCnt == 0 && usbPackCnt == 1 && instance == None
    {
      cmdCnt, usbPackCnt, instance := 0, 1, None;
    }

    method GetCmdId() returns (id: byte)
      requires Valid()
      modifies this`cmdCnt
      ensures Valid()
      ensures id == cmdCnt == Advance(old(cmdCnt), MaxCmdCnt)
    {
      if cmdCnt < MaxCmdCnt {
        cmdCnt := cmdCnt + 1;
      } else {
        cmdCnt := 1;
      }
      id := cmdCnt;
    }

    method GetUsbPackId() returns (id: byte)
      requires Valid()
      modifies this`usbPackCnt
      ensures Valid()
      ensures id == usbPackCnt == Advance(old(usbPackCnt), MaxUsbPackCnt)
    {
      if usbPackCnt < MaxUsbPackCnt {
        usbPackCnt := usbPackCnt + 1;
      } else {
        usbPackCnt := 1;
      }
      id := usbPackCnt;
    }
  }

  // ---------------------------------------------------------------------------
  // transmit as a function of the state
  // ---------------------------------------------------------------------------

  /** What transmit can change: the companion counters, whether INSTANCE is
      set, the wire and whether the connection is open. */
  datatype ServiceState = ServiceState(cmdCnt: int, usbPackCnt: int, registered: bool, wire: Wire, connOpen: bool)

  predicate ServiceOk(s: ServiceState)
  {
    0 <= s.cmdCnt <= MaxCmdCnt && 1 <= s.usbPackCnt <= MaxUsbPackCnt
  }

  /** close: the connection is closed and INSTANCE cleared. */
  function Closed(s: ServiceState): ServiceState
  {
    s.(registered := false, connOpen := false)
  }

  /** bulkTransfer of one frame: a result other than the frame's size closes
      the service; nothing else stops. */
  function Transfer(s: ServiceState, frame: seq<byte>): (s': ServiceState)
    ensures s'.cmdCnt == s.cmdCnt && s'.usbPackCnt == s.usbPackCnt
  {
    var result := ResultAt(s.wire.outResults, 0);
    var s1 := s.(wire := AfterWrite(s.wire, frame));
    if result != |frame| then Closed(s1) else s1
  }

  /** bulkTransfer of every frame in turn. */
  function Transfers(s: ServiceState, frames: seq<seq<byte>>): (s': ServiceState)
    ensures s'.cmdCnt == s.cmdCnt && s'.usbPackCnt == s.usbPackCnt
    decreases |frames|
  {
    if frames == [] then s else Transfers(Transfer(s, frames[0]), frames[1..])
  }

  /** Whether every one of `frames` is transferred in full. */
  predicate AllComplete(results: seq<int>, frames: seq<seq<byte>>)
  {
    forall i :: 0 <= i < |frames| ==> ResultAt(results, i) == |frames[i]|
  }

  lemma ResultAtDrop(results: seq<int>, i: nat)
    ensures ResultAt(Drop(results, 1), i) == ResultAt(results, i + 1)
  {
  }

  /** The frames go out in order, one script entry each; the service ends
      closed exactly when some transfer came back short. */
  lemma {:induction false} TransfersSpec(s: ServiceState, frames: seq<seq<byte>>)
    ensures var s' := Transfers(s, frames);
            && s'.wire == s.wire.(outResults := Drop(s.wire.outResults, |frames|), written := s.wire.written + frames)
            && s'.cmdCnt == s.cmdCnt && s'.usbPackCnt == s.usbPackCnt
            && s'.connOpen == (s.connOpen && AllComplete(s.wire.outResults, frames))
            && s'.registered == (s.registered && AllComplete(s.wire.outResults, frames))
    decreases |frames|
  {
    if frames == [] {
      assert s.wire.written + frames == s.wire.written;
    } else {
      var s1 := Transfer(s, frames[0]);
      var rest := frames[1..];
      TransfersSpec(s1, rest);
      var r := s.wire.outResults;
      assert s1.wire.outResults == Drop(r, 1);
      assert Drop(Drop(r, 1), |rest|) == Drop(r, |frames|);
      assert s1.wire.written + rest == s.wire.written + frames;
      assert AllComplete(r, frames) <==> ResultAt(r, 0) == |frames[0]| && AllComplete(Drop(r, 1), rest) by {
        forall i | 0 <= i < |rest|
          ensures ResultAt(Drop(r, 1), i) == ResultAt(r, i + 1) && rest[i] == frames[i + 1]
        {
          ResultAtDrop(r, i);
        }
        if ResultAt(r, 0) == |frames[0]| && AllComplete(Drop(r, 1), rest) {
          forall i | 0 <= i < |frames| ensures ResultAt(r, i) == |frames[i]| {
            if i > 0 {
              assert ResultAt(Drop(r, 1), i - 1) == |rest[i - 1]|;
            }
          }
        }
      }
    }
  }

  /** transmit's packet: 'S' 'T', cmdId, 'D', the frequency id, the pulse
      code, 'E' 'N'. */
  function IrPacket(cmdId: byte, freq: int, pattern: seq<int>): (r: seq<byte>)
    ensures |r| == |IrByteCode(pattern)| + 7 && r[5..|r| - 2] == IrByteCode(pattern)
  {
    [83, 84, cmdId, 68, ToByte(GetFrequencyId(freq))] + IrByteCode(pattern) + [69, 78]
  }

  /** toReady and toSleep: a report of one fragment, whose payload is 'S' 'T',
      cmdId, the state byte and 'E' 'N'. */
  function StateFrame(packId: byte, cmdId: byte, state: byte): (r: seq<byte>)
    ensures |r| == 11 && r[2] == packId && r[7] == cmdId && r[8] == state
  {
    [2, 9, packId, 1, 1, 83, 84, cmdId, state, 69, 78]
  }

  /** toReady or toSleep: a packet id, then a cmdId, then the transfer. */
  function StateChange(s: ServiceState, state: byte): (s': ServiceState)
    requires ServiceOk(s)
    ensures ServiceOk(s')
  {
    var packId := Advance(s.usbPackCnt, MaxUsbPackCnt);
    var cmdId := Advance(s.cmdCnt, MaxCmdCnt);
    Transfer(s.(cmdCnt := cmdId, usbPackCnt := packId), StateFrame(packId, cmdId, state))
  }

  /** The fragments of transmit's packet, `maxPayload` payload bytes each. */
  function DataFrames(cmdId: byte, packId: byte, maxPayload: int, freq: int, pattern: seq<int>): (frames: seq<seq<byte>>)
    requires maxPayload > 0
    ensures frames != []
  {
    var packet := IrPacket(cmdId, freq, pattern);
    ChunkCount(packet, maxPayload);
    Frames(Chunked(packet, maxPayload), packId)
  }

  /** The sending half of transmit: toReady, every fragment, toSleep. */
  function SendPhase(s: ServiceState, frames: seq<seq<byte>>): (s': ServiceState)
    requires ServiceOk(s)
    ensures ServiceOk(s')
  {
    StateChange(Transfers(StateChange(s, StateReady), frames), StateSleep)
  }

  /** transmit: nothing at all when the endpoint leaves no room for payload;
      otherwise a cmdId for the packet, a packet id shared by its fragments,
      then the sending half. */
  function TransmitSpec(s: ServiceState, maxPacketSize: int, freq: int, pattern: seq<int>): (r: ServiceState)
    requires ServiceOk(s)
    ensures ServiceOk(r)
  {
    var maxPayload := maxPacketSize - FragmentOverhead;
    if maxPayload <= 0 then s
    else
      var cmdId := Advance(s.cmdCnt, MaxCmdCnt);
      var packId := Advance(s.usbPackCnt, MaxUsbPackCnt);
      SendPhase(s.(cmdCnt := cmdId, usbPackCnt := packId), DataFrames(cmdId, packId, maxPayload, freq, pattern))
  }

  /** Everything transmit sends, in order, for a state whose counters are
      `cmdCnt` and `packCnt`: the ready frame, the data fragments, the sleep
      frame, with the ids drawn as transmit draws them. */
  function SendOrder(cmdCnt: int, packCnt: int, maxPayload: int, freq: int, pattern: seq<int>): (sent: seq<seq<byte>>)
    requires 0 <= cmdCnt <= MaxCmdCnt && 1 <= packCnt <= MaxUsbPackCnt && maxPayload > 0
    ensures var c2 := Advance(Advance(cmdCnt, MaxCmdCnt), MaxCmdCnt);
            var p2 := Advance(Advance(packCnt, MaxUsbPackCnt), MaxUsbPackCnt);
            && |sent| >= 3
            && |sent[0]| == 11 && sent[0][2] == p2 && sent[0][7] == c2 && sent[0][8] == StateReady
            && |sent[|sent| - 1]| == 11 && sent[|sent| - 1][2] == Advance(p2, MaxUsbPackCnt)
            && sent[|sent| - 1][7] == Advance(c2, MaxCmdCnt) && sent[|sent| - 1][8] == StateSleep
  {
    var c1 := Advance(cmdCnt, MaxCmdCnt);
    var p1 := Advance(packCnt, MaxUsbPackCnt);
    var c2, p2 := Advance(c1, MaxCmdCnt), Advance(p1, MaxUsbPackCnt);
    var c3, p3 := Advance(c2, MaxCmdCnt), Advance(p2, MaxUsbPackCnt);
    [StateFrame(p2, c2, StateReady)] + DataFrames(c1, p1, maxPayload, freq, pattern) + [StateFrame(p3, c3, StateSleep)]
  }

  /** The counters play no part in the transfers. */
  lemma {:induction false} TransfersCounters(s: ServiceState, frames: seq<seq<byte>>, a: int, b: int)
    ensures Transfers(s.(cmdCnt := a, usbPackCnt := b), frames) == Transfers(s, frames).(cmdCnt := a, usbPackCnt := b)
    decreases |frames|
  {
    if frames != [] {
      assert Transfer(s.(cmdCnt := a, usbPackCnt := b), frames[0]) == Transfer(s, frames[0]).(cmdCnt := a, usbPackCnt := b);
      TransfersCounters(Transfer(s, frames[0]), frames[1..], a, b);
    }
  }

  /** The sending half is one run of transfers over the ready frame, the
      fragments and the sleep frame, with the counters moved on by two. */
  lemma SendPhaseTransfers(s: ServiceState, frames: seq<seq<byte>>)
    requires ServiceOk(s)
    ensures var c2, p2 := Advance(s.cmdCnt, MaxCmdCnt), Advance(s.usbPackCnt, MaxUsbPackCnt);
            var c3, p3 := Advance(c2, MaxCmdCnt), Advance(p2, MaxUsbPackCnt);
            SendPhase(s, frames)
            == Transfers(s.(cmdCnt := c3, usbPackCnt := p3),
                         [StateFrame(p2, c2, StateReady)] + frames + [StateFrame(p3, c3, StateSleep)])
  {
    var c2, p2 := Advance(s.cmdCnt, MaxCmdCnt), Advance(s.usbPackCnt, MaxUsbPackCnt);
    var c3, p3 := Advance(c2, MaxCmdCnt), Advance(p2, MaxUsbPackCnt);
    var ready, sleep := StateFrame(p2, c2, StateReady), StateFrame(p3, c3, StateSleep);
    var u := s.(cmdCnt := c3, usbPackCnt := p3);
    var r := Transfers(u, [ready]);
    assert StateChange(s, StateReady) == r.(cmdCnt := c2, usbPackCnt := p2) by {
      TransfersCounters(u, [ready], c2, p2);
      assert u.(cmdCnt := c2, usbPackCnt := p2) == s.(cmdCnt := c2, usbPackCnt := p2);
    }
    var t := Transfers(r, frames);
    assert Transfers(StateChange(s, StateReady), frames) == t.(cmdCnt := c2, usbPackCnt := p2) by {
      TransfersCounters(r, frames, c2, p2);
    }
    assert SendPhase(s, frames) == Transfers(t, [sleep]) by {
      assert t.(cmdCnt := c2, usbPackCnt := p2).(cmdCnt := c3, usbPackCnt := p3) == t;
    }
    TransfersSplit(u, [ready], frames);
    TransfersSplit(u, [ready] + frames, [sleep]);
  }

  /** What one transmit does to the service: nothing when maxPacketSize - 5
      <= 0; otherwise three ids from each counter, every frame of SendOrder
      on the wire in order, and the service closed exactly when some
      transfer came back short. */
  lemma TransmitEffect(s: ServiceState, maxPacketSize: int, freq: int, pattern: seq<int>)
    requires ServiceOk(s)
    ensures maxPacketSize - FragmentOverhead <= 0 ==> TransmitSpec(s, maxPacketSize, freq, pattern) == s
    ensures maxPacketSize - FragmentOverhead > 0 ==>
              var s' := TransmitSpec(s, maxPacketSize, freq, pattern);
              var sent := SendOrder(s.cmdCnt, s.usbPackCnt, maxPacketSize - FragmentOverhead, freq, pattern);
              && s'.wire.written == s.wire.written + sent
              && s'.wire.outResults == Drop(s.wire.outResults, |sent|)
              && s'.cmdCnt == Advance(Advance(Advance(s.cmdCnt, MaxCmdCnt), MaxCmdCnt), MaxCmdCnt)
              && s'.usbPackCnt == Advance(Advance(Advance(s.usbPackCnt, MaxUsbPackCnt), MaxUsbPackCnt), MaxUsbPackCnt)
              && s'.connOpen == (s.connOpen && AllComplete(s.wire.outResults, sent))
              && s'.registered == (s.registered && AllComplete(s.wire.outResults, sent))
  {
    var maxPayload := maxPacketSize - FragmentOverhead;
    if maxPayload > 0 {
      var c1 := Advance(s.cmdCnt, MaxCmdCnt);
      var p1 := Advance(s.usbPackCnt, MaxUsbPackCnt);
      var c3 := Advance(Advance(c1, MaxCmdCnt), MaxCmdCnt);
      var p3 := Advance(Advance(p1, MaxUsbPackCnt), MaxUsbPackCnt);
      var s1 := s.(cmdCnt := c1, usbPackCnt := p1);
      SendPhaseTransfers(s1, DataFrames(c1, p1, maxPayload, freq, pattern));
      var u := s.(cmdCnt := c3, usbPackCnt := p3);
      assert s1.(cmdCnt := c3, usbPackCnt := p3) == u;
      TransfersSpec(u, SendOrder(s.cmdCnt, s.usbPackCnt, maxPayload, freq, pattern));
    }
  }

  /** Transfers of a list split in two is the transfers of the halves. */
  lemma {:induction false} TransfersSplit(s: ServiceState, a: seq<seq<byte>>, b: seq<seq<byte>>)
    ensures Transfers(s, a + b) == Transfers(Transfers(s, a), b)
    decreases |a|
  {
    if a == [] {
      assert a + b == b;
    } else {
      assert (a + b)[0] == a[0] && (a + b)[1..] == a[1..] + b;
      TransfersSplit(Transfer(s, a[0]), a[1..], b);
    }
  }

  /** The packet transmit cuts up: seven bytes of framing around the pulse
      code, 'S' 'T' cmdId 'D' freqId in front and 'E' 'N' behind. */
  lemma IrPacketLayout(cmdId: byte, freq: int, pattern: seq<int>)
    ensures var packet := IrPacket(cmdId, freq, pattern);
            && |packet| == |IrByteCode(pattern)| + 7
            && packet[..5] == [83, 84, cmdId, 68, ToByte(GetFrequencyId(freq))]
            && packet[5..|packet| - 2] == IrByteCode(pattern)
            && packet[|packet| - 2..] == [69, 78]
  {
  }

  /** The data fragments: ceil(|packet| / maxPayload) of them under one packet
      id, every one but the last full, reassembling to the packet. */
  lemma DataFramesLayout(cmdId: byte, packId: byte, maxPayload: int, freq: int, pattern: seq<int>)
    requires maxPayload > 0
    ensures var data := DataFrames(cmdId, packId, maxPayload, freq, pattern);
            var packet := IrPacket(cmdId, freq, pattern);
            && |data| == (|packet| + maxPayload - 1) / maxPayload
            && Reassemble(data) == Some(packet)
            && (forall i :: 0 <= i < |data| ==> |data[i]| >= HeaderSize && data[i][2] == packId)
            && (forall i :: 0 <= i < |data| - 1 ==> |data[i]| == HeaderSize + maxPayload)
  {
    var packet := IrPacket(cmdId, freq, pattern);
    var chunks := Chunked(packet, maxPayload);
    var data := Frames(chunks, packId);
    ChunkCount(packet, maxPayload);
    FragmentRoundTrip(packet, maxPayload, packId);
    forall i | 0 <= i < |data| ensures |data[i]| == HeaderSize + |chunks[i]| && data[i][2] == packId {
      assert data[i] == Frame(chunks[i], packId, |chunks|, i + 1);
    }
  }

  /** The layout of what transmit sends: a ready frame and a sleep frame that
      each carry a whole command in a single fragment, and between them the
      data fragments of the packet, numbered 1.. under one packet id. */
  lemma SendOrderLayout(cmdCnt: int, packCnt: int, maxPayload: int, freq: int, pattern: seq<int>)
    requires 0 <= cmdCnt <= MaxCmdCnt && 1 <= packCnt <= MaxUsbPackCnt && maxPayload > 0
    ensures var sent := SendOrder(cmdCnt, packCnt, maxPayload, freq, pattern);
            var cmdId := Advance(cmdCnt, MaxCmdCnt);
            && |sent| >= 3
            && Reassemble([sent[0]]) == Some([83, 84, Advance(cmdId, MaxCmdCnt), StateReady, 69, 78])
            && Reassemble([sent[|sent| - 1]])
               == Some([83, 84, Advance(Advance(cmdId, MaxCmdCnt), MaxCmdCnt), StateSleep, 69, 78])
            && sent[1..|sent| - 1] == DataFrames(cmdId, Advance(packCnt, MaxUsbPackCnt), maxPayload, freq, pattern)
  {
    var c1 := Advance(cmdCnt, MaxCmdCnt);
    var p1 := Advance(packCnt, MaxUsbPackCnt);
    var c2, p2 := Advance(c1, MaxCmdCnt), Advance(p1, MaxUsbPackCnt);
    var c3, p3 := Advance(c2, MaxCmdCnt), Advance(p2, MaxUsbPackCnt);
    var data := DataFrames(c1, p1, maxPayload, freq, pattern);
    var ready, sleep := StateFrame(p2, c2, StateReady), StateFrame(p3, c3, StateSleep);
    var sent := [ready] + data + [sleep];
    assert sent[0] == ready && sent[|sent| - 1] == sleep && sent[1..|sent| - 1] == data;
    DataFramesLayout(c1, p1, maxPayload, freq, pattern);
    StateFrameIsReport(p2, c2, StateReady);
    StateFrameIsReport(p3, c3, StateSleep);
  }

  /** A ready or sleep frame is the single fragment of a six-byte command. */
  lemma StateFrameIsReport(packId: byte, cmdId: byte, state: byte)
    ensures StateFrame(packId, cmdId, state) == Frame([83, 84, cmdId, state, 69, 78], packId, 1, 1)
    ensures Reassemble([StateFrame(packId, cmdId, state)]) == Some([83, 84, cmdId, state, 69, 78])
  {
    ReassembleFrames([[83, 84, cmdId, state, 69, 78]], packId);
    assert Frame([83, 84, cmdId, state, 69, 78], packId, 1, 1) == StateFrame(packId, cmdId, state);
    assert Frames([[83, 84, cmdId, state, 69, 78]], packId) == [StateFrame(packId, cmdId, state)];
    assert Flatten([[83, 84, cmdId, state, 69, 78]]) == [83, 84, cmdId, state, 69, 78];
  }

  // ---------------------------------------------------------------------------
  // The service object
  // ---------------------------------------------------------------------------

  /** A UsbIrService instance: the connection and OUT endpoint it was built
      with, over the bus; the counters and INSTANCE live in the companion. */
  class UsbIrService {
    const companion: Companion
    const bus: UsbBus
    const epOut: Endpoint

    ghost function State(): ServiceState
      reads companion, bus
    {
      ServiceState(companion.cmdCnt, companion.usbPackCnt, companion.instance.Some?, bus.wire, bus.isOpen)
    }

    ghost predicate Valid()
      reads companion
    {
      companion.Valid()
    }

    constructor (companion: Companion, bus: UsbBus, epOut: Endpoint)
      ensures this.companion == companion && this.bus == bus && this.epOut == epOut
    {
      this.companion, this.bus, this.epOut := companion, bus, epOut;
    }

    method Close()
      modifies bus`isOpen, companion`instance
      ensures State() == Closed(old(State()))
    {
      bus.Close();
      companion.instance := None;
    }

    method BulkTransfer(data: seq<byte>)
      modifies bus`wire, bus`isOpen, companion`instance
      ensures State() == Transfer(old(State()), data)
    {
      var result := bus.BulkOut(data);
      if result != |data| {
        Close();
      }
    }

    method ToReady()
      requires Valid()
      modifies companion`cmdCnt, companion`usbPackCnt, companion`instance, bus`wire, bus`isOpen
      ensures Valid()
      ensures State() == StateChange(old(State()), StateReady)
    {
      var packId := companion.GetUsbPackId();
      var cmdId := companion.GetCmdId();
      BulkTransfer(StateFrame(packId, cmdId, StateReady));
    }

    method ToSleep()
      requires Valid()
      modifies companion`cmdCnt, companion`usbPackCnt, companion`instance, bus`wire, bus`isOpen
      ensures Valid()
      ensures State() == StateChange(old(State()), StateSleep)
    {
      var packId := companion.GetUsbPackId();
      var cmdId := companion.GetCmdId();
      BulkTransfer(StateFrame(packId, cmdId, StateSleep));
    }

    method Transmit(freq: int, pattern: seq<int>)
      requires Valid()
      modifies companion`cmdCnt, companion`usbPackCnt, companion`instance, bus`wire, bus`isOpen
      ensures Valid()
      ensures State() == TransmitSpec(old(State()), epOut.maxPacketSize, freq, pattern)
    {
      var maxPayloadPerFragment := epOut.maxPacketSize - FragmentOverhead;
      if maxPayloadPerFragment <= 0 {
        return;
      }
      var cmdId := companion.GetCmdId();
      var payload := ConsumeIrToByteCode(pattern);
      var tqIrWriteFragments := Chunked([83, 84, cmdId, 68, ToByte(GetFrequencyId(freq))] + payload + [69, 78],
                                        maxPayloadPerFragment);
      var cmdUsbPackId := companion.GetUsbPackId();
      var toTransfer := FrameAll(tqIrWriteFragments, cmdUsbPackId);
      assert toTransfer == DataFrames(cmdId, cmdUsbPackId, maxPayloadPerFragment, freq, pattern);
      assert State() == old(State()).(cmdCnt := cmdId, usbPackCnt := cmdUsbPackId);
      SendFramed(toTransfer);
    }

    /** The end of transmit: toReady, every frame in turn, toSleep. */
    method SendFramed(toTransfer: seq<seq<byte>>)
      requires Valid()
      modifies companion`cmdCnt, companion`usbPackCnt, companion`instance, bus`wire, bus`isOpen
      ensures Valid()
      ensures State() == SendPhase(old(State()), toTransfer)
    {
      ToReady();
      SendAll(toTransfer);
      ToSleep();
    }

    /** transmit's forEachIndexed: the header [2, size + 3, packet id,
        fragment count, index + 1] in front of every fragment. */
    static method FrameAll(fragments: seq<seq<byte>>, cmdUsbPackId: byte) returns (toTransfer: seq<seq<byte>>)
      ensures toTransfer == Frames(fragments, cmdUsbPackId)
    {
      var fragmentCount := |fragments|;
      toTransfer := [];
      var index := 0;
      while index < fragmentCount
        invariant 0 <= index <= fragmentCount
        invariant toTransfer == Frames(fragments, cmdUsbPackId)[..index]
      {
        var fragment := fragments[index];
        var fragmentHeader: seq<byte> := [2, ToByte(|fragment| + 3), cmdUsbPackId, ToByte(fragmentCount), ToByte(index + 1)];
        toTransfer := toTransfer + [fragmentHeader + fragment];
        index := index + 1;
      }
    }

    /** transmit's `toTransfer.forEach { bulkTransfer(it) }`. */
    method SendAll(toTransfer: seq<seq<byte>>)
      modifies companion`instance, bus`wire, bus`isOpen
      ensures State() == Transfers(old(State()), toTransfer)
    {
      ghost var done := Transfers(State(), toTransfer);
      var i := 0;
      while i < |toTransfer|
        invariant 0 <= i <= |toTransfer|
        invariant Transfers(State(), toTransfer[i..]) == done
      {
        BulkTransfer(toTransfer[i]);
        assert toTransfer[i..][1..] == toTransfer[i + 1..];
        i := i + 1;
      }
    }
  }
}
