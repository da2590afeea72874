/** Byte buffers: the hex text Node and ethereumjs-util print them as
    (bufferToHex), the decoding back (toBuffer), and the fixed-width
    big-endian words of Solidity's packed encoding. */
module Buffers {
  import opened Numerals
  import opened Wrappers

  type byte = x: int | 0 <= x < 256
  type Bytes = seq<byte>

  /** buf.toString('hex'): two lower-case digits per byte. */
  function HexOf(b: Bytes): (s: string)
    ensures |s| == 2 * |b| && AllHex(s)
    ensures forall i :: 0 <= i < |s| ==> !('A' <= s[i] <= 'Z')
  {
    if b == [] then [] else [HexChar(b[0] / 16), HexChar(b[0] % 16)] + HexOf(b[1..])
  }

  /** bufferToHex: "0x" and two lower-case hex digits per byte; get_address
      prints an address the same way. */
  function BufferToHex(b: Bytes): (s: string)
    ensures |s| == 2 + 2 * |b|
    ensures IsHexString(s)
  {
    "0x" + HexOf(b)
  }

  /** Hex digit pairs to bytes, most significant digit of each byte first. */
  function HexPairs(s: string): (b: Bytes)
    requires AllHex(s) && |s| % 2 == 0
    ensures |b| == |s| / 2
  {
    if s == [] then [] else [HexDigitValue(s[0]) * 16 + HexDigitValue(s[1])] + HexPairs(s[2..])
  }

  /** ethereumjs-util isHexString: "0x" followed by hex digits only. */
  predicate IsHexString(s: string)
  {
    |s| >= 2 && s[..2] == "0x" && AllHex(s[2..])
  }

  function PadToEven(s: string): (t: string)
    ensures |t| % 2 == 0 && (AllHex(s) ==> AllHex(t))
  {
    if |s| % 2 == 0 then s else "0" + s
  }

  /** ethereumjs-util toBuffer applied to a string: a hex string is decoded, an
      odd number of digits being padded with a leading zero; None stands for
      the other strings, which this model does not decode. */
  function ToBuffer(s: string): Option<Bytes>
  {
    if IsHexString(s) then Some(HexPairs(PadToEven(s[2..]))) else None
  }

  lemma {:induction false} HexPairsOfHexOf(b: Bytes)
    ensures HexPairs(HexOf(b)) == b
  {
    if b != [] {
      var s := HexOf(b);
      assert s[2..] == HexOf(b[1..]);
      HexPairsOfHexOf(b[1..]);
      assert HexDigitValue(s[0]) * 16 + HexDigitValue(s[1]) == b[0];
    }
  }

  /** toBuffer undoes bufferToHex: hex-encoding a buffer loses nothing. */
  lemma ToBufferOfBufferToHex(b: Bytes)
    ensures ToBuffer(BufferToHex(b)) == Some(b)
  {
    var s := BufferToHex(b);
    assert s[2..] == HexOf(b);
    HexPairsOfHexOf(b);
  }

  // ---- big-endian words ----

  /** n as `width` bytes, most significant first (a left-padded uint). */
  function ToBigEndian(n: nat, width: nat): (b: Bytes)
    requires n < Pow(256, width)
    ensures |b| == width
  {
    if width == 0 then []
    else
      assert n / 256 < Pow(256, width - 1);
      ToBigEndian(n / 256, width - 1) + [n % 256]
  }

  function FromBigEndian(b: Bytes): nat
  {
    if b == [] then 0 else 256 * FromBigEndian(b[..|b| - 1]) + b[|b| - 1]
  }

  lemma {:induction false} BigEndianRoundTrip(n: nat, width: nat)
    requires n < Pow(256, width)
    ensures FromBigEndian(ToBigEndian(n, width)) == n
  {
    if width > 0 {
      var b := ToBigEndian(n, width);
      assert b[..|b| - 1] == ToBigEndian(n / 256, width - 1);
      BigEndianRoundTrip(n / 256, width - 1);
    }
  }
}
