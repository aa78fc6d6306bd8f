/**
  The two signature schemes. Wallet v3, v4 and highload v2 sign the whole
  payload that follows a leading 512-bit signature. Wallet v5 puts the
  signature last among the body's bits and signs the body with those 512 bits
  removed and every reference kept.

  Cell hashing and Ed25519 verification (section 5.1.7 of RFC 8032) are not
  part of this model; they are the parameters of `Crypto`.
 */
module Signature {
  import opened Bits
  import opened Cells

  const SignatureBits: nat := 512
  const SignatureBytes: nat := 64

  type Bits512 = s: seq<bool> | |s| == 512 witness seq(512, i => false)

  /** An Ed25519 public key; the Go library panics on a key of any other length. */
  const PublicKeyBytes: nat := 32

  type PublicKey = s: seq<Byte> | |s| == PublicKeyBytes witness seq(32, i => 0)

  /**
    `hash` is the cell's representation hash (None when the cell cannot be
    hashed); `verify(publicKey, digest, signature)` is the Ed25519 check.
   */
  datatype Crypto = Crypto(hash: Cell -> Option<seq<Byte>>, verify: (seq<Byte>, seq<Byte>, seq<Byte>) -> bool)

  /** True when the signature checks out against the cell's hash. */
  ghost predicate SignedBy(crypto: Crypto, publicKey: PublicKey, c: Cell, signature: seq<Byte>)
  {
    crypto.hash(c).Some? && crypto.verify(publicKey, crypto.hash(c).value, signature)
  }

  /** True when the cell hashes but the signature does not check out. */
  ghost predicate SignatureRejected(crypto: Crypto, publicKey: PublicKey, c: Cell, signature: seq<Byte>)
  {
    crypto.hash(c).Some? && !crypto.verify(publicKey, crypto.hash(c).value, signature)
  }

  /** The signed body shared by wallet v3, v4 and highload v2: signature, then the payload inline. */
  datatype SignedMsgBody = SignedMsgBody(sign: Bits512, message: Cell)

  /**
    extractSignedMsgBody: the body of the outer message split into its leading
    512 signature bits and the rest of the cell as the payload.
   */
  function ExtractSignedMsgBody(env: Envelope, msg: Cell): (res: Result<SignedMsgBody>)
    ensures env(msg).None? ==> res == Err(MalformedEnvelope)
    ensures env(msg).Some? ==> (res.Ok? <==> |env(msg).value.bits| >= SignatureBits)
    ensures env(msg).Some? && res.Err? ==> res.error == NotEnoughBits
    ensures res.Ok? ==> env(msg) == Some(Cell(res.value.sign + res.value.message.bits, res.value.message.refs))
  {
    var body :- env(msg).OrFail(MalformedEnvelope);
    var sign :- ReadBits(Open(body), SignatureBits);
    var payload := Remaining(sign.rest);
    assert body.bits == sign.value + payload.bits;
    assert body.refs == payload.refs;
    Ok(SignedMsgBody(sign.value, payload))
  }

  /**
    A body laid out as a signature followed by a payload comes apart into
    exactly that signature and that payload, references included.
   */
  lemma ExtractSignedMsgBodyOf(env: Envelope, msg: Cell, sign: Bits512, payload: Cell)
    requires env(msg) == Some(Cell(sign + payload.bits, payload.refs))
    ensures ExtractSignedMsgBody(env, msg) == Ok(SignedMsgBody(sign, payload))
  {
  }

  /**
    SignedMsgBody.Verify: hashes the payload as it is and checks the signature
    against it. A failed check is BadSignature; a cell that cannot be hashed is
    HashFailed.
   */
  function Verify(body: SignedMsgBody, publicKey: PublicKey, crypto: Crypto): (r: Outcome)
    ensures r == Pass <==> SignedBy(crypto, publicKey, body.message, BytesOfBits(body.sign))
    ensures r == Fail(BadSignature) <==> SignatureRejected(crypto, publicKey, body.message, BytesOfBits(body.sign))
    ensures r != Pass && r != Fail(BadSignature) ==> r == Fail(HashFailed)
  {
    match crypto.hash(body.message)
    case None => Fail(HashFailed)
    case Some(digest) =>
      if crypto.verify(publicKey, digest, BytesOfBits(body.sign)) then Pass else Fail(BadSignature)
  }

  /** A v5 body taken apart: the cell that was signed, and the signature bytes. */
  datatype Unsigned = Unsigned(signed: Cell, signature: seq<Byte>)

  /**
    The reference-copying loop of MessageV5VerifySignature: takes `count`
    references, one by one, and appends each to `acc`.
   */
  function CopyRefs(r: CellReader, acc: Cell, count: nat): (res: Result<Cell>)
    ensures res.Ok? <==> count <= RefsAvailable(r)
    ensures res.Err? ==> res.error == NotEnoughRefs
    ensures res.Ok? ==> res.value == Cell(acc.bits, acc.refs + r.cell.refs[r.refPos .. r.refPos + count])
    decreases count
  {
    if count == 0 then Ok(acc)
    else
      var ref :- NextRef(r);
      var res := CopyRefs(ref.rest, AddRef(acc, ref.value), count - 1);
      assert res.Ok? ==>
        acc.refs + [ref.value] + r.cell.refs[r.refPos + 1 .. r.refPos + count]
          == acc.refs + r.cell.refs[r.refPos .. r.refPos + count];
      res
  }

  /**
    The canonicalisation of MessageV5VerifySignature: all unread bits but the
    last 512 go into a fresh cell, the last 512 are the signature (64 bytes),
    and then as many references as the cell holds are taken from the cursor
    and re-attached in order. The loop counts all the cell's references, so a
    cell whose reference cursor has moved runs out of references.
   */
  function StripSignature(r: CellReader): (res: Result<Unsigned>)
    ensures res == Err(NotEnoughBits) <==> BitsAvailable(r) < SignatureBits
    ensures res == Err(NotEnoughRefs) <==> BitsAvailable(r) >= SignatureBits && r.refPos > 0
    ensures res.Ok? <==> BitsAvailable(r) >= SignatureBits && r.refPos == 0
    ensures res.Ok? ==>
              var end := |r.cell.bits|;
              && res.value.signed.bits == r.cell.bits[r.bitPos .. end - SignatureBits]
              && res.value.signed.refs == r.cell.refs
              && |res.value.signature| == SignatureBytes
              && res.value.signature == BytesOfBits(r.cell.bits[end - SignatureBits ..])
  {
    var total := BitsAvailable(r);
    if total < SignatureBits then Err(NotEnoughBits)
    else
      var bits := ReadBits(r, total - SignatureBits).value;
      var sig := ReadBits(bits.rest, SignatureBits).value;
      assert sig.value == r.cell.bits[|r.cell.bits| - SignatureBits ..];
      var copy :- CopyRefs(sig.rest, WriteBits(Empty, bits.value), |r.cell.refs|);
      assert r.refPos == 0 ==> r.cell.refs[0 .. |r.cell.refs|] == r.cell.refs;
      Ok(Unsigned(copy, BytesOfBits(sig.value)))
  }

  /**
    MessageV5VerifySignature: checks the trailing signature against the hash of
    the body with the signature removed. Only a check that ran and failed is
    BadSignature.
   */
  function MessageV5VerifySignature(r: CellReader, publicKey: PublicKey, crypto: Crypto): (res: Outcome)
    ensures StripSignature(r).Err? ==> res == Fail(StripSignature(r).error)
    ensures res == Pass <==>
              && StripSignature(r).Ok?
              && SignedBy(crypto, publicKey, StripSignature(r).value.signed, StripSignature(r).value.signature)
    ensures res == Fail(BadSignature) <==>
              && StripSignature(r).Ok?
              && SignatureRejected(crypto, publicKey, StripSignature(r).value.signed, StripSignature(r).value.signature)
  {
    match StripSignature(r)
    case Err(e) => Fail(e)
    case Ok(u) =>
      match crypto.hash(u.signed)
      case None => Fail(HashFailed)
      case Some(digest) =>
        if crypto.verify(publicKey, digest, u.signature) then Pass else Fail(BadSignature)
  }

  /**
    Appending a signature to a cell's bits and checking the result verifies
    exactly that signature over exactly the original cell: same bits, same
    references in the same order.
   */
  lemma V5SignatureRoundTrip(unsigned: Cell, signature: seq<Byte>, publicKey: PublicKey, crypto: Crypto)
    requires |signature| == SignatureBytes
    ensures var body := Cell(unsigned.bits + BitsOfBytes(signature), unsigned.refs);
            && StripSignature(Open(body)) == Ok(Unsigned(unsigned, signature))
            && ((MessageV5VerifySignature(Open(body), publicKey, crypto) == Pass)
                <==> SignedBy(crypto, publicKey, unsigned, signature))
  {
    var sigBits := BitsOfBytes(signature);
    var body := Cell(unsigned.bits + sigBits, unsigned.refs);
    var u := StripSignature(Open(body));
    assert body.bits[0 .. |body.bits| - SignatureBits] == unsigned.bits;
    assert body.bits[|body.bits| - SignatureBits ..] == sigBits;
    BytesOfBitsOfBytes(signature);
    assert u == Ok(Unsigned(unsigned, signature));
  }
}
