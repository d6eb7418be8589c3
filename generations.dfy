/** How the two driver generations relate: where TiqiaaUsbDriver
    (TiqiaaRemote.kt) and UsbIrService (UsbIrService.kt) agree, and the
    inputs on which they part ways. */
module Generations {
  import opened Usb
  import opened Fragments
  import opened IrCode
  import T = TiqiaaProtocol
  import S = IrService

  /** The two pulse encoders agree on every positive tick count; on a zero
      count writePulse still writes one byte holding 0 ticks while
      usbTickToUsbByteCode writes none. */
  lemma {:induction false} EncodersAgree(isOn: bool, ticks: int)
    requires ticks >= 0
    ensures ticks > 0 ==> T.PulseBytes(isOn, ticks) == S.TickBytes(ticks, isOn)
    ensures ticks == 0 ==> T.PulseBytes(isOn, ticks) == [Marker(isOn)] && S.TickBytes(ticks, isOn) == []
    decreases ticks
  {
    if ticks > MaxRunTicks {
      EncodersAgree(isOn, ticks - MaxRunTicks);
    } else if ticks > 0 {
      assert S.TickBytes(ticks - ticks, isOn) == [];
    }
  }

  /** A whole pattern whose durations are all at least one tick encodes to
      the same bytes in both generations. */
  lemma PatternEncodersAgree(pattern: seq<int>)
    requires forall i :: 0 <= i < |pattern| ==> pattern[i] >= TickMicros
    ensures T.PatternBytes(pattern) == S.IrByteCode(pattern)
  {
    assert pattern[..0] == [];
    PatternEncodersAgreeFrom(pattern, 0);
  }

  lemma {:induction false} PatternEncodersAgreeFrom(pattern: seq<int>, i: nat)
    requires i % 2 == 0 && i <= |pattern|
    requires forall j :: 0 <= j < |pattern| ==> pattern[j] >= TickMicros
    ensures S.IrByteCode(pattern[..i]) + T.PatternBytesFrom(pattern, i) == S.IrByteCode(pattern)
    decreases |pattern| - i
  {
    if i == |pattern| {
      assert pattern[..i] == pattern;
      assert T.PatternBytesFrom(pattern, i) == [];
    } else {
      var next := PairAgrees(pattern, i);
      var rest := T.PatternBytesFrom(pattern, i + 2);
      if next == i + 2 {
        PatternEncodersAgreeFrom(pattern, next);
      } else {
        assert pattern[..next] == pattern;
        assert rest == [];
      }
      Concat3(S.IrByteCode(pattern[..i]), T.PairBytes(pattern, i), rest,
              S.IrByteCode(pattern[..next]), S.IrByteCode(pattern));
    }
  }

  lemma Concat3<X>(a: seq<X>, b: seq<X>, c: seq<X>, ab: seq<X>, whole: seq<X>)
    requires ab == a + b && ab + c == whole
    ensures a + (b + c) == whole
  {
  }

  /** One step of sendIrSignal's loop appends what consumeIrToByteCode
      appends for the same one or two entries. */
  lemma PairAgrees(pattern: seq<int>, i: nat) returns (next: nat)
    requires i % 2 == 0 && i < |pattern|
    requires forall j :: 0 <= j < |pattern| ==> pattern[j] >= TickMicros
    ensures next == if i + 1 < |pattern| then i + 2 else i + 1
    ensures S.IrByteCode(pattern[..next]) == S.IrByteCode(pattern[..i]) + T.PairBytes(pattern, i)
  {
    var mark := EntryAgrees(pattern, i);
    assert mark == T.DurationBytes(true, pattern[i]);
    if i + 1 < |pattern| {
      assert (i + 1) % 2 == 1;
      var space := EntryAgrees(pattern, i + 1);
      assert space == T.DurationBytes(false, pattern[i + 1]) && pattern[i + 1] > 0;
      assert T.PairBytes(pattern, i) == mark + space;
      Concat3(S.IrByteCode(pattern[..i]), mark, space, S.IrByteCode(pattern[..i + 1]), S.IrByteCode(pattern[..i + 2]));
      next := i + 2;
    } else {
      assert T.PairBytes(pattern, i) == mark + [] == mark;
      next := i + 1;
    }
  }

  /** Entry k of a pattern: writePulse's bytes for it are what
      consumeIrToByteCode appends for it. */
  lemma EntryAgrees(pattern: seq<int>, k: nat) returns (bs: seq<byte>)
    requires k < |pattern| && pattern[k] >= TickMicros
    ensures bs == T.DurationBytes(k % 2 == 0, pattern[k])
    ensures S.IrByteCode(pattern[..k + 1]) == S.IrByteCode(pattern[..k]) + bs
  {
    bs := T.DurationBytes(k % 2 == 0, pattern[k]);
    EncodersAgree(k % 2 == 0, TruncDiv(pattern[k], TickMicros));
    assert pattern[..k + 1][..k] == pattern[..k];
  }

  /** A mark of less than one tick: TiqiaaUsbDriver sends a mark byte of
      0 ticks, UsbIrService sends nothing. */
  lemma ZeroMarkDiffers(x: int)
    requires 0 <= x < TickMicros
    ensures T.PatternBytes([x]) == [Marker(true)]
    ensures S.IrByteCode([x]) == []
  {
    EncodersAgree(true, 0);
    assert T.PatternBytesFrom([x], 0) == T.PairBytes([x], 0) + [];
    assert [x][..0] == [];
  }

  /** The frequency ids agree outside 30..255; inside it sendIrCmd gives up
      where getFrequencyId answers 0. */
  lemma FrequencyIdsAgree(freq: int)
    ensures !(|FreqTable| <= freq <= 255) ==> T.FrequencyId(freq) == Some(ToByte(S.GetFrequencyId(freq)))
    ensures |FreqTable| <= freq <= 255 ==> T.FrequencyId(freq).None? && S.GetFrequencyId(freq) == 0
  {
  }

  /** UsbIrService's device test is TiqiaaUsbDriver's id test (the same two
      pairs, written in decimal in IrService and in hex in TiqiaaProtocol)
      plus a check of the interface shape. */
  lemma CompatibleDevicesAgree(d: UsbDevice)
    ensures S.IsCompatibleDevice(d) <==>
              |d.interfaces| == 1 && |d.interfaces[0].endpoints| != 0 && T.IsCompatibleId(d)
  {
  }

  /** The cmdId sequences agree for the first 126 calls and then part:
      call 126 (and every 127th call after it) gets 1 from TiqiaaUsbDriver
      and 127 from UsbIrService, and
      TiqiaaUsbDriver never issues 127. */
  lemma CmdIdsDiverge(n: nat)
    ensures n < 126 ==> T.IssuedCmdId(n) == S.CmdCntAfter(n + 1)
    ensures n % 127 == 126 ==> T.IssuedCmdId(n) == 1 && S.CmdCntAfter(n + 1) == 127
    ensures T.IssuedCmdId(n) != 127
  {
    T.IssuedCmdIdClosed(n);
    S.CmdCntAfterClosed(n);
  }

  /** The packet id counters run the same cycle one step apart: the older
      counter starts where the newer one is after its first packet. */
  lemma PacketIdsOffset(n: nat)
    ensures S.PackCntAfter(n) == T.PacketIdxAfter(n + 1)
  {
    S.PackCntAfterClosed(n);
    T.PacketIdxAfterClosed(n + 1);
  }

  /** The ready and sleep frames of UsbIrService are TiqiaaUsbDriver's Send
      and Idle command packets, each in a report of one fragment; the data
      packets have the same layout. */
  lemma FrameLayoutsMatch(packId: byte, cmdId: byte, freq: int, pattern: seq<int>)
    ensures S.StateFrame(packId, cmdId, S.StateReady) == Frame(T.CommandPacket(T.CmdSendMode, cmdId), packId, 1, 1)
    ensures S.StateFrame(packId, cmdId, S.StateSleep) == Frame(T.CommandPacket(T.CmdIdleMode, cmdId), packId, 1, 1)
    ensures S.IrPacket(cmdId, freq, pattern)
            == T.DataPacket(cmdId, ToByte(S.GetFrequencyId(freq)), S.IrByteCode(pattern))
  {
    S.StateFrameIsReport(packId, cmdId, S.StateReady);
    S.StateFrameIsReport(packId, cmdId, S.StateSleep);
  }
}
