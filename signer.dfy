/** The message signer: hash the packed preimage (soliditySha3), wrap the
    digest in the personal-message envelope (hashPersonalMessage), sign it
    (ecsign) and hex-encode r and s (the mapValues step). Keccak-256,
    secp256k1 and key derivation are left uninterpreted: they are the
    function-typed fields of a Crypto value. */
module Signer {
  import opened Wrappers
  import opened Numerals
  import opened Buffers
  import opened SolidityPack

  type Digest = b: Bytes | |b| == 32 witness seq(32, i => 0)

  type AddressBytes = b: Bytes | |b| == 20 witness seq(20, i => 0)

  /** What ecsign returns: the recovery id v and the 32-byte r and s. */
  datatype EcSignature = EcSignature(v: int, r: Digest, s: Digest)

  /** The foreign primitives: Keccak-256 over bytes; ecsign over a digest and
      toBuffer(privateKey), None where it throws on a malformed key;
      privateToAddress, the 20-byte address of a private key, None where it
      throws. */
  datatype Crypto = Crypto(
    keccak256: Bytes -> Digest,
    ecsign: (Digest, string) -> Option<EcSignature>,
    privateToAddress: string -> Option<AddressBytes>)

  /** The signature as it is sent: v unchanged, r and s as 0x-hex text. */
  datatype Signature = Signature(v: int, r: string, s: string)

  datatype Failure =
    | Thrown(message: string)       // a `throw` of the client itself
    | PackFailed(cause: PackError)  // soliditySha3 rejected a field
    | SigningFailed                 // ecsign rejected the private key
    | KeyRejected                   // privateToAddress rejected the private key

  /** soliditySha3: the 0x-hex Keccak-256 digest of the packed fields. */
  function SoliditySha3(c: Crypto, fields: seq<Field>): (r: Result<string, PackError>)
    ensures r.Ok? <==> Pack(fields).Ok?
    ensures r.Ok? ==> ToBuffer(r.value) == Some(c.keccak256(Pack(fields).value))
  {
    match Pack(fields)
    case Err(e) => Err(e)
    case Ok(packed) =>
      ToBufferOfBufferToHex(c.keccak256(packed));
      Ok(BufferToHex(c.keccak256(packed)))
  }

  predicate IsAscii(s: string)
  {
    forall i :: 0 <= i < |s| ==> s[i] as int < 128
  }

  /** Buffer.from(text) for ASCII text: one byte per character. */
  function AsciiBytes(s: string): (b: Bytes)
    requires IsAscii(s)
    ensures |b| == |s|
  {
    seq(|s|, i requires 0 <= i < |s| => s[i] as int)
  }

  const SignedMessageHeader: string := "Ethereum Signed Message:\n"

  /** The EIP-191 envelope header: the byte 0x19, "Ethereum Signed
      Message:\n" and the message length in decimal. */
  function EnvelopeHeader(length: nat): Bytes
  {
    assert IsAscii(SignedMessageHeader + NatToDec(length)) by {
      var s := SignedMessageHeader + NatToDec(length);
      forall i | 0 <= i < |s| ensures s[i] as int < 128 {
        if i >= |SignedMessageHeader| { assert IsDecDigit(s[i]); }
      }
    }
    [0x19] + AsciiBytes(SignedMessageHeader + NatToDec(length))
  }

  /** hashPersonalMessage: Keccak-256 of the envelope header followed by the message. */
  function HashPersonalMessage(c: Crypto, message: Bytes): Digest
  {
    c.keccak256(EnvelopeHeader(|message|) + message)
  }

  /** For a 32-byte digest the header is the fixed 28 bytes
      "\x19Ethereum Signed Message:\n32". */
  lemma EnvelopeOfDigest(d: Digest)
    ensures EnvelopeHeader(|d|) == [0x19] + AsciiBytes(SignedMessageHeader + "32")
    ensures |EnvelopeHeader(|d|)| == 28
  {
    assert NatToDec(32) == NatToDec(3) + [DecChar(2)];
    assert NatToDec(32) == "32";
  }

  /** The signature as it is sent: v as ecsign returned it, r and s each
      printed by bufferToHex. */
  function MapSignature(e: EcSignature): (r: Signature)
    ensures r.v == e.v
    ensures ToBuffer(r.r) == Some(e.r) && ToBuffer(r.s) == Some(e.s)
    ensures |r.r| == 66 && |r.s| == 66
  {
    ToBufferOfBufferToHex(e.r);
    ToBufferOfBufferToHex(e.s);
    Signature(e.v, BufferToHex(e.r), BufferToHex(e.s))
  }

  /** The three values each action computes before it posts: the raw hash,
      its salted envelope hash, and the signature. */
  datatype Signed = Signed(raw: string, salted: Digest, signature: Signature)

  /** soliditySha3, hashPersonalMessage(toBuffer(raw)), ecsign, mapValues. */
  function Sign(c: Crypto, privateKey: string, fields: seq<Field>): (r: Result<Signed, Failure>)
    ensures r.Err? <==> (Pack(fields).Err?
      || c.ecsign(HashPersonalMessage(c, c.keccak256(Pack(fields).value)), privateKey).None?)
    ensures r.Err? && Pack(fields).Err? ==> r.error == PackFailed(Pack(fields).error)
    ensures r.Ok? ==>
      var digest := c.keccak256(Pack(fields).value);
      && r.value.raw == BufferToHex(digest)
      && r.value.salted == HashPersonalMessage(c, digest)
      && r.value.signature == MapSignature(c.ecsign(r.value.salted, privateKey).value)
  {
    match SoliditySha3(c, fields)
    case Err(e) => Err(PackFailed(e))
    case Ok(raw) =>
      var salted := HashPersonalMessage(c, ToBuffer(raw).value);
      match c.ecsign(salted, privateKey)
      case None => Err(SigningFailed)
      case Some(vrs) => Ok(Signed(raw, salted, MapSignature(vrs)))
  }
}
