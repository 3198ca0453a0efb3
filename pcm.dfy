/** PCM frame decoding as the streaming clip reader does it: raw 16-bit,
    little-endian, mono frames turned into normalised samples. */
module Pcm {

  /** An unsigned 8-bit value, the element type of the staging buffer. */
  type byte = x: int | 0 <= x < 256

  /** The divisor that maps a signed 16-bit frame onto [-1, 1). */
  const FullScale: real := 32768.0

  /** True when `v` fits a signed 16-bit integer (a C# `short`). */
  predicate IsInt16(v: int) {
    -32768 <= v < 32768
  }

  /** The frame `(short)(hi << 8 | lo)`. The bits of `hi << 8` and `lo` do not
      overlap, so the OR is `hi * 256 + lo`; the cast keeps those 16 bits and
      reads them as two's complement. */
  function ToInt16(lo: byte, hi: byte): (v: int)
    ensures IsInt16(v)
    ensures v < 0 <==> hi >= 128
  {
    var u := hi * 256 + lo;
    if u < 32768 then u else u - 65536
  }

  /** The low byte of the two's-complement encoding of `v`. */
  function LowByte(v: int): byte {
    (v % 65536) % 256
  }

  /** The high byte of the two's-complement encoding of `v`. */
  function HighByte(v: int): byte {
    (v % 65536) / 256
  }

  /** Framing is lossless: every 16-bit value survives being split into two
      little-endian bytes and reassembled. */
  lemma Int16BytesRoundTrip(v: int)
    requires IsInt16(v)
    ensures ToInt16(LowByte(v), HighByte(v)) == v
  {
    var u := v % 65536;
    assert u == if v >= 0 then v else v + 65536;
    assert HighByte(v) * 256 + LowByte(v) == u;
  }

  /** ... and every pair of bytes survives being read as a frame and written back. */
  lemma BytesInt16RoundTrip(lo: byte, hi: byte)
    ensures LowByte(ToInt16(lo, hi)) == lo && HighByte(ToInt16(lo, hi)) == hi
  {
    var v := ToInt16(lo, hi);
    assert v % 65536 == hi * 256 + lo;
  }

  /** The sample a frame becomes, `short / 32768.0F`. Dividing a 16-bit integer
      by a power of two is exact in single precision, so a real models it. */
  function SampleOf(lo: byte, hi: byte): (s: real)
    ensures -1.0 <= s < 1.0
    ensures s * FullScale == ToInt16(lo, hi) as real
  {
    ToInt16(lo, hi) as real / FullScale
  }

  /** The sample the reader writes into slot `i` when the stream handed it
      `bytes`: the `i`-th little-endian frame if the bytes hold it whole,
      silence otherwise. */
  function SlotValue(bytes: seq<byte>, i: int): real {
    if 0 <= i < |bytes| / 2 then SampleOf(bytes[2 * i], bytes[2 * i + 1]) else 0.0
  }

  /** What the reader writes into a chunk of `count` slots when the stream
      handed it `bytes`: whole little-endian frames first, silence after them.
      An odd trailing byte makes no frame and is dropped. */
  function Decode(bytes: seq<byte>, count: nat): (samples: seq<real>)
    ensures |samples| == count
    ensures forall i :: 0 <= i < count ==> -1.0 <= samples[i] < 1.0
    ensures forall i :: 0 <= i < count && i < |bytes| / 2 ==>
              samples[i] * FullScale == ToInt16(bytes[2 * i], bytes[2 * i + 1]) as real
    ensures forall i :: |bytes| / 2 <= i < count ==> samples[i] == 0.0
  {
    seq(count, i => SlotValue(bytes, i))
  }

  /** The 16-bit value a sample stands for: `round(s * 32768)`, clamped to the
      range of a `short`. */
  function Quantize(s: real): (v: int)
    ensures IsInt16(v)
  {
    var q := (s * FullScale + 0.5).Floor;
    if q < -32768 then -32768 else if q > 32767 then 32767 else q
  }

  /** Re-encodes samples as little-endian 16-bit frames: the inverse of Decode. */
  function Encode(samples: seq<real>): (bytes: seq<byte>)
    ensures |bytes| == 2 * |samples|
  {
    if samples == [] then []
    else
      var v := Quantize(samples[0]);
      [LowByte(v), HighByte(v)] + Encode(samples[1..])
  }

  /** A sample lies on the 16-bit grid: it is exactly k / 32768 for a `short` k. */
  predicate OnGrid(s: real) {
    IsInt16((s * FullScale).Floor) && (s * FullScale).Floor as real == s * FullScale
  }

  /** Quantising a decoded frame gives back the frame. */
  lemma QuantizeSample(lo: byte, hi: byte)
    ensures Quantize(SampleOf(lo, hi)) == ToInt16(lo, hi)
  {
    var v := ToInt16(lo, hi);
    assert SampleOf(lo, hi) * FullScale + 0.5 == v as real + 0.5;
  }

  /** Every decoded sample is on the grid. */
  lemma SampleOnGrid(lo: byte, hi: byte)
    ensures OnGrid(SampleOf(lo, hi))
  {
    var v := ToInt16(lo, hi);
    assert SampleOf(lo, hi) * FullScale == v as real;
    assert (v as real).Floor == v;
  }

  /** Decoding frame by frame: the first sample comes from the first two bytes,
      the rest from the bytes after them. */
  lemma DecodeCons(bytes: seq<byte>, count: nat)
    requires count > 0 && |bytes| >= 2
    ensures Decode(bytes, count)[0] == SampleOf(bytes[0], bytes[1])
    ensures Decode(bytes, count)[1..] == Decode(bytes[2..], count - 1)
  {
    var d, e := Decode(bytes, count), Decode(bytes[2..], count - 1);
    assert |bytes[2..]| / 2 == |bytes| / 2 - 1;
    forall i | 0 <= i < count - 1
      ensures d[1..][i] == e[i]
    {
      if i < |bytes[2..]| / 2 {
        assert bytes[2..][2 * i] == bytes[2 * (i + 1)];
        assert bytes[2..][2 * i + 1] == bytes[2 * (i + 1) + 1];
      }
    }
  }

  /** Lossless framing: for an even number of bytes,
      decoding every frame and re-encoding each sample reproduces the bytes. */
  lemma {:induction false} EncodeDecode(bytes: seq<byte>)
    requires |bytes| % 2 == 0
    ensures Encode(Decode(bytes, |bytes| / 2)) == bytes
  {
    if bytes != [] {
      var d := Decode(bytes, |bytes| / 2);
      DecodeCons(bytes, |bytes| / 2);
      var v := Quantize(d[0]);
      assert v == ToInt16(bytes[0], bytes[1]) by {
        QuantizeSample(bytes[0], bytes[1]);
      }
      assert [LowByte(v), HighByte(v)] == bytes[..2] by {
        BytesInt16RoundTrip(bytes[0], bytes[1]);
      }
      assert Encode(d[1..]) == bytes[2..] by {
        EncodeDecode(bytes[2..]);
      }
      assert Encode(d) == [LowByte(v), HighByte(v)] + Encode(d[1..]);
      assert bytes == bytes[..2] + bytes[2..];
    }
  }

  /** The converse: samples on the 16-bit grid survive encoding and decoding. */
  lemma {:induction false} DecodeEncode(samples: seq<real>)
    requires forall i :: 0 <= i < |samples| ==> OnGrid(samples[i])
    ensures Decode(Encode(samples), |samples|) == samples
  {
    if samples != [] {
      var s := samples[0];
      var v := (s * FullScale).Floor;
      assert OnGrid(s);
      assert Quantize(s) == v by {
        assert s * FullScale + 0.5 == v as real + 0.5;
      }
      Int16BytesRoundTrip(v);
      var bytes := Encode(samples);
      assert bytes[..2] == [LowByte(v), HighByte(v)];
      DecodeCons(bytes, |samples|);
      assert bytes[2..] == Encode(samples[1..]);
      DecodeEncode(samples[1..]);
      assert SampleOf(LowByte(v), HighByte(v)) == s;
    }
  }

  /** An odd trailing byte is dropped without effect: the same chunk comes out
      as if it had never been read. */
  lemma OddTrailingByteDropped(bytes: seq<byte>, count: nat)
    requires |bytes| % 2 == 1
    ensures Decode(bytes, count) == Decode(bytes[..|bytes| - 1], count)
  {
    var d, e := Decode(bytes, count), Decode(bytes[..|bytes| - 1], count);
    forall i | 0 <= i < count
      ensures d[i] == e[i]
    {
      if i < |bytes| / 2 {
        assert bytes[..|bytes| - 1][2 * i] == bytes[2 * i];
        assert bytes[..|bytes| - 1][2 * i + 1] == bytes[2 * i + 1];
      }
    }
  }

  /** Splitting the stream at a frame boundary does not change the signal: the
      chunks decoded one after the other are the decoding of the whole. */
  lemma DecodeAppend(first: seq<byte>, second: seq<byte>)
    requires |first| % 2 == 0
    ensures Decode(first + second, |first| / 2 + |second| / 2)
         == Decode(first, |first| / 2) + Decode(second, |second| / 2)
  {
    var n := |first| / 2;
    var whole := Decode(first + second, n + |second| / 2);
    var parts := Decode(first, n) + Decode(second, |second| / 2);
    forall i | 0 <= i < n + |second| / 2
      ensures whole[i] == parts[i]
    {
      if i >= n {
        assert (first + second)[2 * i] == second[2 * (i - n)];
        assert (first + second)[2 * i + 1] == second[2 * (i - n) + 1];
      }
    }
  }
}
