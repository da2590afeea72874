/** The preimage of every signed action: soliditySha3's typed arguments and
    their "non-standard packed" encoding (web3-utils), an address as 20 bytes
    and a uint256 as 32 big-endian bytes, concatenated in argument order. */
module SolidityPack {
  import opened Wrappers
  import opened Numerals
  import opened Buffers

  /** A JavaScript value handed over as a field's `v`: the client passes
      strings (amounts, order hashes) and numbers (nonces, expiry). */
  datatype Value = Str(s: string) | Int(n: int)

  /** One `{t, v}` argument of soliditySha3. */
  datatype Field = Addr(a: string) | U256(v: Value)

  datatype Kind = Address | Uint256

  function KindOf(f: Field): Kind
  {
    if f.Addr? then Address else Uint256
  }

  function Kinds(fs: seq<Field>): (ks: seq<Kind>)
    ensures |ks| == |fs| && forall i :: 0 <= i < |fs| ==> ks[i] == KindOf(fs[i])
  {
    seq(|fs|, i requires 0 <= i < |fs| => KindOf(fs[i]))
  }

  function Width(k: Kind): nat
  {
    if k == Address then 20 else 32
  }

  function TotalWidth(ks: seq<Kind>): nat
  {
    if ks == [] then 0 else Width(ks[0]) + TotalWidth(ks[1..])
  }

  const Uint256Bound: nat := Pow(256, 32)

  datatype PackError =
    | InvalidAddress(address: string)   // "… is not a valid address, or the checksum is invalid."
    | InvalidNumber(value: Value)       // bn.js: "Invalid character", or an assertion on an unsafe Number
    | UintTooWide(n: int)               // "Supplied uint exceeds width: 256 vs …"
    | NegativeUint(n: int)              // "Supplied uint … is negative"

  // ---- reading the values ----

  /** 2^53: bn.js refuses to build a number from a JavaScript Number of this
      magnitude or more, which it could not hold exactly. */
  const SafeNumberBound: nat := 0x20_0000_0000_0000

  /** web3-utils isHexStrict, /^(-)?0x[0-9a-f]*$/i. */
  predicate IsHexStrict(s: string)
  {
    var t := if |s| > 0 && s[0] == '-' then s[1..] else s;
    |t| >= 2 && t[0] == '0' && (t[1] == 'x' || t[1] == 'X') && AllHex(t[2..])
  }

  /** Hex-strict text with its "0x" removed, the minus sign kept. */
  function WithoutHexPrefix(s: string): string
    requires IsHexStrict(s)
  {
    if s[0] == '-' then "-" + s[3..] else s[2..]
  }

  /** bn.js `new BN(text, base)` for base 16 or 10: an optional leading minus,
      then digits of the base, of which there may be none (zero). Any other
      character is rejected. */
  function BNOfText(t: string, hex: bool): Option<int>
  {
    var negative := |t| > 0 && t[0] == '-';
    var digits := if negative then t[1..] else t;
    var magnitude :=
      if hex && AllHex(digits) then Some(HexToNat(digits))
      else if !hex && AllDec(digits) then Some(DecToNat(digits))
      else None;
    match magnitude
    case None => None
    case Some(m) => Some(if negative then -(m as int) else m)
  }

  /** soliditySha3's number reading (`_parseNumber` in web3-utils): hex-strict
      text in base 16, any other text in base 10, and a Number as it is when
      its magnitude is below 2^53. */
  function ParseNumber(v: Value): (r: Option<int>)
    ensures v.Int? ==> (r.Some? <==> Abs(v.n) < SafeNumberBound) && (r.Some? ==> r.value == v.n)
  {
    match v
    case Int(n) => if Abs(n) < SafeNumberBound then Some(n) else None
    case Str(s) => if IsHexStrict(s) then BNOfText(WithoutHexPrefix(s), true) else BNOfText(s, false)
  }

  /** The uint256 a value packs as, or why soliditySha3 throws. */
  function UintOf(v: Value): (r: Result<nat, PackError>)
    ensures r.Ok? <==> ParseNumber(v).Some? && 0 <= ParseNumber(v).value < Uint256Bound
    ensures r.Ok? ==> r.value == ParseNumber(v).value
  {
    match ParseNumber(v)
    case None => Err(InvalidNumber(v))
    case Some(n) =>
      if n >= Uint256Bound || -n >= Uint256Bound then Err(UintTooWide(n))
      else if n < 0 then Err(NegativeUint(n))
      else Ok(n)
  }

  /** web3-utils isAddress, /^(0x)?[0-9a-f]{40}$/i, and the 20 bytes the
      address packs as. */
  function AddressOf(a: string): (r: Option<Bytes>)
    ensures r.Some? ==> |r.value| == 20
  {
    if |a| == 42 && Lower(a[..2]) == "0x" && AllHex(a[2..]) then Some(HexPairs(a[2..]))
    else if |a| == 40 && AllHex(a) then Some(HexPairs(a))
    else None
  }

  // ---- packing ----

  function PackField(f: Field): (r: Result<Bytes, PackError>)
    ensures r.Ok? ==> |r.value| == Width(KindOf(f))
  {
    match f
    case Addr(a) =>
      if AddressOf(a).None? then Err(InvalidAddress(a)) else Ok(AddressOf(a).value)
    case U256(v) =>
      match UintOf(v)
      case Err(e) => Err(e)
      case Ok(n) => Ok(ToBigEndian(n, 32))
  }

  /** The bytes soliditySha3 hashes, or the error of the first field that
      does not encode. */
  function Pack(fs: seq<Field>): (r: Result<Bytes, PackError>)
    ensures r.Ok? <==> forall i :: 0 <= i < |fs| ==> PackField(fs[i]).Ok?
    ensures r.Ok? ==> |r.value| == TotalWidth(Kinds(fs))
  {
    if fs == [] then Ok([])
    else
      match PackField(fs[0])
      case Err(e) => Err(e)
      case Ok(head) =>
        match Pack(fs[1..])
        case Err(e) => Err(e)
        case Ok(tail) =>
          assert Kinds(fs)[1..] == Kinds(fs[1..]);
          Ok(head + tail)
  }

  // ---- what a packed preimage says ----

  /** The meaning of one encoded field: the address bytes or the number. */
  datatype Word = AddressWord(bytes: Bytes) | UintWord(n: nat)

  function Meaning(f: Field): Word
    requires PackField(f).Ok?
  {
    match f
    case Addr(a) => AddressWord(AddressOf(a).value)
    case U256(v) => UintWord(UintOf(v).value)
  }

  function Meanings(fs: seq<Field>): (ws: seq<Word>)
    requires Pack(fs).Ok?
    ensures |ws| == |fs| && forall i :: 0 <= i < |fs| ==> ws[i] == Meaning(fs[i])
  {
    seq(|fs|, i requires 0 <= i < |fs| && Pack(fs).Ok? => Meaning(fs[i]))
  }

  /** Reads a packed byte string back, given the types of its fields. */
  function Unpack(ks: seq<Kind>, b: Bytes): (ws: seq<Word>)
    requires |b| == TotalWidth(ks)
    ensures |ws| == |ks|
  {
    if ks == [] then []
    else
      var w := Width(ks[0]);
      [WordOf(ks[0], b[..w])] + Unpack(ks[1..], b[w..])
  }

  /** The meaning of one field's bytes, given its type. */
  function WordOf(k: Kind, b: Bytes): Word
  {
    if k == Address then AddressWord(b) else UintWord(FromBigEndian(b))
  }

  /** Packing loses nothing: from the packed bytes and the field types alone,
      every field's address or number can be read back. */
  lemma {:induction false} UnpackPack(fs: seq<Field>)
    requires Pack(fs).Ok?
    ensures Unpack(Kinds(fs), Pack(fs).value) == Meanings(fs)
  {
    if fs != [] {
      var head := PackField(fs[0]).value;
      var tail := Pack(fs[1..]).value;
      assert Pack(fs).value == head + tail;
      assert Kinds(fs) == [KindOf(fs[0])] + Kinds(fs[1..]);
      UnpackCons(KindOf(fs[0]), Kinds(fs[1..]), head, tail);
      UnpackPack(fs[1..]);
      WordOfPackedField(fs[0]);
      assert Meanings(fs) == [Meaning(fs[0])] + Meanings(fs[1..]);
    }
  }

  lemma UnpackCons(k: Kind, ks: seq<Kind>, head: Bytes, tail: Bytes)
    requires |head| == Width(k) && |tail| == TotalWidth(ks)
    ensures |head + tail| == TotalWidth([k] + ks)
    ensures Unpack([k] + ks, head + tail) == [WordOf(k, head)] + Unpack(ks, tail)
  {
    var b := head + tail;
    assert ([k] + ks)[1..] == ks;
    assert b[..|head|] == head && b[|head|..] == tail;
  }

  lemma WordOfPackedField(f: Field)
    requires PackField(f).Ok?
    ensures WordOf(KindOf(f), PackField(f).value) == Meaning(f)
  {
    if f.U256? {
      BigEndianRoundTrip(UintOf(f.v).value, 32);
    }
  }

  /** Two preimages of the same field types that pack to the same bytes carry
      the same addresses and numbers, field by field: changing any one value
      changes the bytes that are hashed. */
  lemma PackInjective(fs: seq<Field>, gs: seq<Field>)
    requires Kinds(fs) == Kinds(gs)
    requires Pack(fs).Ok? && Pack(gs).Ok? && Pack(fs).value == Pack(gs).value
    ensures Meanings(fs) == Meanings(gs)
  {
    UnpackPack(fs);
    UnpackPack(gs);
  }

  // ---- the values the client sends ----

  /** A decimal numeral, such as the text of an expanded amount, is read by
      soliditySha3 as the number it denotes, with or without a minus sign. */
  lemma NumberOfNumeral(negative: bool, n: nat)
    ensures ParseNumber(Str((if negative then "-" else "") + NatToDec(n))) == Some(if negative then -(n as int) else n)
  {
    var digits := NatToDec(n);
    var s := (if negative then "-" else "") + digits;
    DecRoundTrip(n);
    assert !negative ==> s == digits;
    NumberOfDigits(s, digits, negative);
  }

  lemma NumberOfDigits(s: string, digits: string, negative: bool)
    requires AllDec(digits) && |digits| > 0
    requires s == (if negative then "-" + digits else digits)
    ensures ParseNumber(Str(s)) == Some(if negative then -(DecToNat(digits) as int) else DecToNat(digits))
  {
    if negative {
      assert s[0] == '-' && s[1..] == digits;
    } else {
      assert IsDecDigit(s[0]);
    }
    assert |digits| >= 2 ==> IsDecDigit(digits[1]);
  }

  /** Every Number bn.js accepts is below 2^256. */
  lemma SafeNumbersFit()
    ensures SafeNumberBound < Uint256Bound
  {
    PowAdd(256, 7, 25);
    assert Pow(256, 7) == 0x100_0000_0000_0000;
  }

  /** An address printed by bufferToHex from 20 bytes is a valid address and
      packs as those same bytes. */
  lemma AddressOfBufferToHex(b: Bytes)
    requires |b| == 20
    ensures AddressOf(BufferToHex(b)) == Some(b)
  {
    var s := BufferToHex(b);
    assert s[..2] == "0x" && s[2..] == HexOf(b);
    assert Lower(s[..2]) == "0x";
    HexPairsOfHexOf(b);
  }
}
