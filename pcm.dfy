/** Byte-level encodings used on the serial link: unsigned bytes, signed
    16-bit PCM samples stored as little-endian pairs (what
    `np.frombuffer(data, dtype=np.int16)` reads on a little-endian host),
    and the big-endian 16-bit sample count of a frame header. */
module Pcm {

  /** One byte of serial input. */
  type Byte = x: int | 0 <= x < 256

  const INT16_MIN: int := -32768
  const INT16_MAX: int := 32767

  predicate IsInt16(x: int) {
    INT16_MIN <= x <= INT16_MAX
  }

  predicate AllInt16(xs: seq<int>) {
    forall i :: 0 <= i < |xs| ==> IsInt16(xs[i])
  }

  lemma AllInt16Append(xs: seq<int>, ys: seq<int>)
    requires AllInt16(xs) && AllInt16(ys)
    ensures AllInt16(xs + ys)
  {
    forall i | 0 <= i < |xs + ys| ensures IsInt16((xs + ys)[i]) {
      if i < |xs| {
        assert (xs + ys)[i] == xs[i];
      } else {
        assert (xs + ys)[i] == ys[i - |xs|];
      }
    }
  }

  lemma AllInt16Suffix(xs: seq<int>, k: nat)
    requires AllInt16(xs) && k <= |xs|
    ensures AllInt16(xs[k..])
  {
    forall i | 0 <= i < |xs| - k ensures IsInt16(xs[k..][i]) {
      assert xs[k..][i] == xs[k + i];
    }
  }

  /** The two's-complement value of the 16-bit word whose low byte is `lo`
      and whose high byte is `hi`. */
  function Int16LE(lo: Byte, hi: Byte): (x: int)
    ensures IsInt16(x)
    ensures x % 65536 == hi * 256 + lo
  {
    var u := hi * 256 + lo;
    if u < 32768 then u else u - 65536
  }

  /** Low and high byte of the 16-bit two's-complement word of `x`. */
  function LowByte(x: int): Byte {
    (x % 65536) % 256
  }

  function HighByte(x: int): Byte {
    (x % 65536) / 256
  }

  /** Decoding a sample's two bytes gives the sample back. */
  lemma SampleRoundTrip(x: int)
    requires IsInt16(x)
    ensures Int16LE(LowByte(x), HighByte(x)) == x
  {
  }

  /** Encoding a decoded pair gives the pair back. */
  lemma PairRoundTrip(lo: Byte, hi: Byte)
    ensures LowByte(Int16LE(lo, hi)) == lo && HighByte(Int16LE(lo, hi)) == hi
  {
  }

  /** The samples of a byte buffer read as consecutive little-endian
      int16 pairs; `np.frombuffer` refuses a buffer of odd length. */
  function DecodeInt16LE(data: seq<Byte>): (xs: seq<int>)
    requires |data| % 2 == 0
    ensures |xs| == |data| / 2
    ensures forall i :: 0 <= i < |xs| ==> xs[i] == Int16LE(data[2 * i], data[2 * i + 1])
    ensures AllInt16(xs)
    decreases |data|
  {
    if |data| == 0 then []
    else [Int16LE(data[0], data[1])] + DecodeInt16LE(data[2..])
  }

  /** The byte buffer that holds `xs` as little-endian int16 pairs. */
  function EncodeInt16LE(xs: seq<int>): (data: seq<Byte>)
    ensures |data| == 2 * |xs|
    ensures forall i :: 0 <= i < |xs| ==> data[2 * i] == LowByte(xs[i]) && data[2 * i + 1] == HighByte(xs[i])
  {
    if xs == [] then []
    else [LowByte(xs[0]), HighByte(xs[0])] + EncodeInt16LE(xs[1..])
  }

  /** Decoding inverts encoding on int16 samples ... */
  lemma {:induction false} DecodeEncode(xs: seq<int>)
    requires AllInt16(xs)
    ensures DecodeInt16LE(EncodeInt16LE(xs)) == xs
  {
    var ys := DecodeInt16LE(EncodeInt16LE(xs));
    forall i | 0 <= i < |xs|
      ensures ys[i] == xs[i]
    {
      SampleRoundTrip(xs[i]);
    }
  }

  /** ... and encoding inverts decoding on every even-length buffer. */
  lemma {:induction false} EncodeDecode(data: seq<Byte>)
    requires |data| % 2 == 0
    ensures EncodeInt16LE(DecodeInt16LE(data)) == data
    decreases |data|
  {
    if |data| > 0 {
      var rest := data[2..];
      var xs := DecodeInt16LE(data);
      assert xs[0] == Int16LE(data[0], data[1]);
      assert xs[1..] == DecodeInt16LE(rest);
      EncodeDecode(rest);
      PairRoundTrip(data[0], data[1]);
      calc {
        EncodeInt16LE(xs);
        [LowByte(xs[0]), HighByte(xs[0])] + EncodeInt16LE(xs[1..]);
        [data[0], data[1]] + rest;
        { assert data == [data[0], data[1]] + rest; }
        data;
      }
    }
  }

  /** The unsigned count carried by a big-endian byte pair:
      `(b0 << 8) | b1`, in 0..65535, and the pair can be read back from it. */
  function BigEndian16(b0: Byte, b1: Byte): (n: nat)
    ensures n <= 65535
    ensures n / 256 == b0 && n % 256 == b1
  {
    b0 * 256 + b1
  }
}
