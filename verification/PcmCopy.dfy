/** Copying 16-bit samples with a gain: ViosndPcmCopyGain16. */
module PcmCopy {

  type Byte = x: int | 0 <= x < 256

  function Sample(lo: Byte, hi: Byte): int {
    var v := lo + 256 * hi;
    if v >= 0x8000 then v - 0x1_0000 else v
  }

  function Lo(sample: int): Byte {
    sample % 256
  }

  function Hi(sample: int): Byte {
    sample % 0x1_0000 / 256
  }

  function Clamp(x: int): int {
    if x > 32767 then 32767 else if x < -32768 then -32768 else x
  }

  function Abs(x: int): nat {
    if x < 0 then -x else x
  }

  /** The i-th sample of s after the gain. */
  function Amplified(s: seq<Byte>, gain: int, i: nat): int
    requires 2 * i + 1 < |s|
  {
    Clamp(Sample(s[2 * i], s[2 * i + 1]) * gain)
  }

  function GainedByte(s: seq<Byte>, gain: int, j: nat): Byte
    requires j < |s|
  {
    if j / 2 * 2 + 1 == |s| then s[j]
    else if j % 2 == 0 then Lo(Amplified(s, gain, j / 2)) else Hi(Amplified(s, gain, j / 2))
  }

  /** The bytes of s with every whole sample amplified; an odd last byte is copied. */
  function Gained(s: seq<Byte>, gain: int): (r: seq<Byte>)
    ensures |r| == |s|
  {
    seq(|s|, j requires 0 <= j < |s| => GainedByte(s, gain, j))
  }

  lemma BytesOfSample(lo: Byte, hi: Byte)
    ensures Clamp(Sample(lo, hi)) == Sample(lo, hi) && Lo(Sample(lo, hi)) == lo && Hi(Sample(lo, hi)) == hi
  {
  }

  /** A sample written out: 16 bits, little endian, two's complement. */
  lemma SampleInFull(lo: Byte, hi: Byte)
    ensures var l: int, h: int := lo, hi; Sample(lo, hi) == 256 * h + l - if h >= 128 then 65536 else 0
  {
  }

  lemma BytesOfClamped(x: int)
    requires -32768 <= x <= 32767
    ensures Sample(Lo(x), Hi(x)) == x
  {
    var y := if x >= 0 then x else x + 0x1_0000;
    assert x % 0x1_0000 == y && x % 256 == y % 256;
    assert y == y / 256 * 256 + y % 256;
  }

  /** The i-th sample of the copy is the i-th of the source times the gain, held to the range of 16 bits. */
  lemma GainedSample(s: seq<Byte>, gain: int, i: nat)
    requires 2 * i + 1 < |s|
    ensures var r := Gained(s, gain);
      var lo: int, hi: int, lo': int, hi': int := s[2 * i], s[2 * i + 1], r[2 * i], r[2 * i + 1];
      var v, w := 256 * hi + lo - (if hi >= 128 then 65536 else 0), 256 * hi' + lo' - if hi' >= 128 then 65536 else 0;
      w == if v * gain > 32767 then 32767 else if v * gain < -32768 then -32768 else v * gain
  {
    hide Sample, Lo, Hi;
    var x := Amplified(s, gain, i);
    PairOfBytes(s, gain, i);
    SampleInFull(s[2 * i], s[2 * i + 1]);
    SampleInFull(Lo(x), Hi(x));
    BytesOfClamped(x);
  }

  /** With the gain that the driver is built with, 1, the copy is exact. */
  lemma GainOneIsIdentity(s: seq<Byte>)
    ensures Gained(s, 1) == s
  {
    forall j | 0 <= j < |s| ensures GainedByte(s, 1, j) == s[j] {
      var i := j / 2;
      if 2 * i + 1 < |s| {
        BytesOfSample(s[2 * i], s[2 * i + 1]);
      }
    }
  }

  /** peak is the largest magnitude of the first n amplified samples. */
  ghost predicate IsPeak(s: seq<Byte>, gain: int, n: nat, peak: nat)
    requires 2 * n <= |s|
  {
    && (forall i :: 0 <= i < n ==> Abs(Amplified(s, gain, i)) <= peak)
    && (peak == 0 || exists i :: 0 <= i < n && Abs(Amplified(s, gain, i)) == peak)
  }

  lemma PairOfBytes(s: seq<Byte>, gain: int, i: nat)
    requires 2 * i + 1 < |s|
    ensures GainedByte(s, gain, 2 * i) == Lo(Amplified(s, gain, i))
    ensures GainedByte(s, gain, 2 * i + 1) == Hi(Amplified(s, gain, i))
  {
  }

  lemma SilentPeak(s: seq<Byte>, gain: int)
    ensures IsPeak(s, gain, 0, 0)
  {
  }

  lemma OddByte(s: seq<Byte>, gain: int)
    requires |s| % 2 == 1
    ensures GainedByte(s, gain, |s| - 1) == s[|s| - 1]
  {
  }

  lemma NextPeak(s: seq<Byte>, gain: int, n: nat, peak: nat)
    requires 2 * n + 1 < |s| && IsPeak(s, gain, n, peak)
    ensures var m := Abs(Amplified(s, gain, n)); IsPeak(s, gain, n + 1, if m > peak then m else peak)
  {
  }

  method AmplifyOne(lo: Byte, hi: Byte, gain: int) returns (sample: int)
    ensures sample == Clamp(Sample(lo, hi) * gain)
  {
    sample := Sample(lo, hi) * gain;
    if sample > 32767 {
      sample := 32767;
    } else if sample < -32768 {
      sample := -32768;
    }
  }

  /** ViosndPcmCopyGain16, from src to dst at offset.  The gain keeps the 32-bit product from
      overflowing. */
  method CopyGain(dst: array<Byte>, offset: nat, src: array<Byte>, length: nat, gain: int) returns (peak: nat)
    requires dst != src && offset + length <= dst.Length && length <= src.Length && -0xFFFF <= gain <= 0xFFFF
    modifies dst
    ensures dst[..] == old(dst[..offset]) + Gained(src[..length], gain) + old(dst[offset + length..])
    ensures IsPeak(src[..length], gain, length / 2, peak)
  {
    hide GainedByte, IsPeak, Clamp, Sample, Lo, Hi;
    ghost var s := src[..length];
    peak := 0;
    SilentPeak(s, gain);
    for i := 0 to length / 2
      invariant forall j :: offset <= j < offset + 2 * i ==> dst[j] == GainedByte(s, gain, j - offset)
      invariant forall j :: 0 <= j < offset || offset + 2 * i <= j < dst.Length ==> dst[j] == old(dst[j])
      invariant IsPeak(s, gain, i, peak)
    {
      NextPeak(s, gain, i, peak);
      PairOfBytes(s, gain, i);
      var sample := AmplifyOne(src[2 * i], src[2 * i + 1], gain);
      dst[offset + 2 * i] := Lo(sample);
      dst[offset + 2 * i + 1] := Hi(sample);
      var magnitude := if sample < 0 then -sample else sample;
      if magnitude > peak {
        peak := magnitude;
      }
    }
    if length % 2 == 1 {
      OddByte(s, gain);
      dst[offset + length - 1] := src[length - 1];
    }
  }
}
