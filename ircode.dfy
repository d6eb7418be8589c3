/** The device's pulse byte code, shared by both driver generations: one byte is
    a run of up to 127 ticks of 16 microseconds, bit 7 set for a mark (carrier
    on) and clear for a space.  DecodeRuns is an independent reading of that
    code, used to state what the encoders preserve. */
module IrCode {
  import opened Usb

  const TickMicros := 16
  const MaxRunTicks := 127

  /** Bit 7 of a pulse byte. */
  function Marker(isOn: bool): int { if isOn then 128 else 0 }

  predicate IsMark(b: byte) { b >= 128 }

  /** The low seven bits of a pulse byte. */
  function Ticks(b: byte): int { b % 128 }

  function SumTicks(bs: seq<byte>): int
  {
    if bs == [] then 0 else Ticks(bs[0]) + SumTicks(bs[1..])
  }

  lemma {:induction false} SumTicksAppend(a: seq<byte>, b: seq<byte>)
    ensures SumTicks(a + b) == SumTicks(a) + SumTicks(b)
    decreases |a|
  {
    if a == [] {
      assert a + b == b;
    } else {
      assert (a + b)[1..] == a[1..] + b;
      SumTicksAppend(a[1..], b);
    }
  }

  /** A maximal stretch of one polarity and its total length in ticks. */
  datatype Run = Run(isOn: bool, ticks: int)

  /** Reads a byte code back as runs: consecutive bytes of one polarity merge. */
  function DecodeRuns(bs: seq<byte>): (runs: seq<Run>)
    ensures |runs| <= |bs|
    ensures bs != [] ==> runs != [] && runs[0].isOn == IsMark(bs[0])
  {
    if bs == [] then [] else Prepend(bs[0], DecodeRuns(bs[1..]))
  }

  /** One more byte in front of decoded runs: it joins the first run when
      the polarities match and starts a new run otherwise. */
  function Prepend(b: byte, rest: seq<Run>): (runs: seq<Run>)
    ensures runs != [] && runs[0].isOn == IsMark(b) && |runs| <= |rest| + 1
  {
    if rest != [] && rest[0].isOn == IsMark(b)
    then [Run(IsMark(b), Ticks(b) + rest[0].ticks)] + rest[1..]
    else [Run(IsMark(b), Ticks(b))] + rest
  }

  lemma PrependAppend(b: byte, x: seq<Run>, y: seq<Run>)
    requires x != []
    ensures Prepend(b, x + y) == Prepend(b, x) + y
  {
    var xy := x + y;
    assert xy[0] == x[0];
    var h := x[0];
    if h.isOn == IsMark(b) {
      var r := Run(IsMark(b), Ticks(b) + h.ticks);
      calc {
        Prepend(b, xy);
        [r] + xy[1..];
        { assert xy[1..] == x[1..] + y; }
        [r] + (x[1..] + y);
        ([r] + x[1..]) + y;
      }
    } else {
      var r := Run(IsMark(b), Ticks(b));
      assert Prepend(b, xy) == [r] + (x + y) == ([r] + x) + y;
    }
  }

  /** The carrier frequencies the device knows, in Hz; a frequency id is a
      position in this table.  Both drivers carry the same 30 entries. */
  const FreqTable: seq<int> := [
    38000, 37900, 37917, 36000, 40000, 39700, 35750, 36400, 36700, 37000,
    37700, 38380, 38400, 38462, 38740, 39200, 42000, 43600, 44000, 33000,
    33500, 34000, 34500, 35000, 40500, 41000, 41500, 42500, 43000, 45000
  ]

  /** List.indexOf: the first position of x, or -1. */
  function IndexOf(s: seq<int>, x: int): (i: int)
    ensures -1 <= i < |s|
    ensures i == -1 <==> x !in s
    ensures 0 <= i ==> s[i] == x && x !in s[..i]
  {
    if s == [] then -1
    else if s[0] == x then 0
    else
      var k := IndexOf(s[1..], x);
      if k < 0 then -1
      else
        assert s[..k + 1] == [s[0]] + s[1..][..k];
        k + 1
  }

  /** The runs a pattern describes: marks at even, spaces at odd positions. */
  function PatternRuns(pattern: seq<int>): seq<Run>
  {
    seq(|pattern|, i requires 0 <= i < |pattern| => Run(i % 2 == 0, pattern[i] / TickMicros))
  }

  predicate Uniform(bs: seq<byte>, isOn: bool)
  {
    forall i :: 0 <= i < |bs| ==> IsMark(bs[i]) == isOn
  }

  /** Bytes of one polarity read back as a single run holding all their ticks. */
  lemma {:induction false} DecodeUniform(bs: seq<byte>, isOn: bool)
    requires bs != [] && Uniform(bs, isOn)
    ensures DecodeRuns(bs) == [Run(isOn, SumTicks(bs))]
    decreases |bs|
  {
    if |bs| > 1 {
      DecodeUniform(bs[1..], isOn);
    }
  }

  /** Codes that meet at a polarity change decode independently. */
  lemma {:induction false} DecodeAppend(a: seq<byte>, b: seq<byte>)
    requires a != [] && b != [] && IsMark(a[|a| - 1]) != IsMark(b[0])
    ensures DecodeRuns(a + b) == DecodeRuns(a) + DecodeRuns(b)
    decreases |a|
  {
    var ab := a + b;
    assert ab[0] == a[0];
    if |a| == 1 {
      assert ab[1..] == b;
      assert DecodeRuns(a) == [Run(IsMark(a[0]), Ticks(a[0]))];
    } else {
      assert ab[1..] == a[1..] + b;
      DecodeAppend(a[1..], b);
      PrependAppend(a[0], DecodeRuns(a[1..]), DecodeRuns(b));
    }
  }
}
