/**
  The version dispatch of the wallet package: which wallet generations can
  have their outgoing payments listed, which can have their signature checked,
  and how each request is routed to its generation's decoder.

  The list of generations is declared elsewhere in the package; it is
  restated here so that the dispatch can be modelled.
 */
module Wallet {
  import opened Bits
  import opened Cells
  import FixedSlot
  import Highload
  import opened ActionChain
  import opened Signature
  import opened Messages

  datatype Version =
    | V1R1 | V1R2 | V1R3 | V2R1 | V2R2 | V3R1 | V3R2 | V4R1 | V4R2
    | HighLoadV1R1 | HighLoadV1R2 | HighLoadV2 | HighLoadV2R1 | HighLoadV2R2
    | V5Beta | V5R1

  /** The generations ExtractRawMessages handles. */
  predicate Extractable(v: Version)
  {
    v == V5R1 || v == V4R1 || v == V4R2 || v == V3R1 || v == V3R2 || v == HighLoadV2R2
  }

  /** The generations VerifySignature handles: those whose body opens with the signature. */
  predicate SignedBodyVersion(v: Version)
  {
    v == V3R1 || v == V3R2 || v == V4R1 || v == V4R2 || v == HighLoadV2R2
  }

  /** The payments of a wallet v3 message: the fixed slots after its 96-bit header. */
  function PaymentsV3(env: Envelope, msg: Cell): (res: Result<seq<RawMessage>>)
    ensures res.Ok? <==> DecodeMessageV3(env, msg).Ok?
    ensures env(msg).None? ==> res == Err(MalformedEnvelope)
    ensures env(msg).Some? && |env(msg).value.bits| < SignatureBits ==> res == Err(NotEnoughBits)
    ensures res.Ok? ==>
              && env(msg).Some? && SignatureBits + 96 <= |env(msg).value.bits|
              && var p := SignedPayload(env(msg).value);
                 |res.value| == |p.refs| && FixedSlot.SlotsHold(Reader(p, 96, 0), res.value)
  {
    var m :- DecodeMessageV3(env, msg);
    Ok(m.rawMessages)
  }

  /** The payments of a wallet v4 message: the fixed slots after its 104-bit header; the op is not looked at. */
  function PaymentsV4(env: Envelope, msg: Cell): (res: Result<seq<RawMessage>>)
    ensures res.Ok? <==> DecodeMessageV4(env, msg).Ok?
    ensures env(msg).None? ==> res == Err(MalformedEnvelope)
    ensures env(msg).Some? && |env(msg).value.bits| < SignatureBits ==> res == Err(NotEnoughBits)
    ensures res.Ok? ==>
              && env(msg).Some? && SignatureBits + 104 <= |env(msg).value.bits|
              && var p := SignedPayload(env(msg).value);
                 |res.value| == |p.refs| && FixedSlot.SlotsHold(Reader(p, 104, 0), res.value)
  {
    var m :- DecodeMessageV4(env, msg);
    Ok(m.rawMessages)
  }

  /** The payments of a highload v2 message: the dictionary's values in the order it lists them. */
  function PaymentsHighloadV2(env: Envelope, msg: Cell, dc: Highload.DictCodec): (res: Result<seq<RawMessage>>)
    ensures res.Ok? <==> DecodeHighloadV2Message(env, msg, dc).Ok?
    ensures env(msg).None? ==> res == Err(MalformedEnvelope)
    ensures env(msg).Some? && |env(msg).value.bits| < SignatureBits ==> res == Err(NotEnoughBits)
    ensures res.Ok? ==>
              && env(msg).Some? && SignatureBits + 96 <= |env(msg).value.bits|
              && var dict := Highload.DecodeHashmapE(Reader(SignedPayload(env(msg).value), 96, 0), dc);
                 dict.Ok? && Highload.AllWellFormed(dict.value.value)
                 && Highload.ValuesDecodeTo(dict.value.value, res.value)
  {
    var m :- DecodeHighloadV2Message(env, msg, dc);
    Ok(m.rawMessages)
  }

  /** The payments of a wallet v5 message: the actions of whichever variant was read. */
  function PaymentsV5(env: Envelope, msg: Cell): (res: Result<seq<RawMessage>>)
    ensures res.Ok? <==> DecodeMessageV5(env, msg).Ok?
    ensures env(msg).None? ==> res == Err(MalformedEnvelope)
    ensures res.Ok? ==>
              && env(msg).Some?
              && var m := DecodeV5(env(msg).value);
                 && m.Ok?
                 && (m.value.sumType == "Sint" ==> Projects(res.value, m.value.sint.actions))
                 && (m.value.sumType == "Sign" ==> Projects(res.value, m.value.sign.actions))
  {
    var m :- DecodeMessageV5(env, msg);
    Ok(RawMessages(m))
  }

  /**
    ExtractRawMessages: the outgoing payments of an external message, decoded
    as the given generation. Any generation without a decoder is refused.
   */
  function ExtractRawMessages(v: Version, msg: Cell, env: Envelope, dc: Highload.DictCodec): (res: Result<seq<RawMessage>>)
    ensures !Extractable(v) ==> res == Err(UnsupportedVersion)
    ensures Extractable(v) && env(msg).None? ==> res == Err(MalformedEnvelope)
    ensures SignedBodyVersion(v) && env(msg).Some? && |env(msg).value.bits| < SignatureBits ==> res == Err(NotEnoughBits)
    ensures v == V3R1 || v == V3R2 ==> res == PaymentsV3(env, msg)
    ensures v == V4R1 || v == V4R2 ==> res == PaymentsV4(env, msg)
    ensures v == HighLoadV2R2 ==> res == PaymentsHighloadV2(env, msg, dc)
    ensures v == V5R1 ==> res == PaymentsV5(env, msg)
  {
    match v
    case V5R1 => PaymentsV5(env, msg)
    case V4R1 | V4R2 => PaymentsV4(env, msg)
    case V3R1 | V3R2 => PaymentsV3(env, msg)
    case HighLoadV2R2 => PaymentsHighloadV2(env, msg, dc)
    case _ => Err(UnsupportedVersion)
  }

  /**
    VerifySignature: for the generations whose body opens with the signature,
    checks that signature against the hash of the payload after it. Every
    other generation, wallet v5 included, is refused.
   */
  function VerifySignature(v: Version, msg: Cell, publicKey: PublicKey, env: Envelope, crypto: Crypto): (r: Outcome)
    ensures !SignedBodyVersion(v) ==> r == Fail(UnsupportedVersion)
    ensures SignedBodyVersion(v) && env(msg).None? ==> r == Fail(MalformedEnvelope)
    ensures SignedBodyVersion(v) ==>
              (r == Pass <==>
                 && env(msg).Some? && SignatureBits <= |env(msg).value.bits|
                 && SignedBy(crypto, publicKey, SignedPayload(env(msg).value),
                             BytesOfBits(env(msg).value.bits[..SignatureBits])))
    ensures SignedBodyVersion(v) ==>
              (r == Fail(BadSignature) <==>
                 && env(msg).Some? && SignatureBits <= |env(msg).value.bits|
                 && SignatureRejected(crypto, publicKey, SignedPayload(env(msg).value),
                                      BytesOfBits(env(msg).value.bits[..SignatureBits])))
  {
    if SignedBodyVersion(v) then
      match ExtractSignedMsgBody(env, msg)
      case Err(e) => Fail(e)
      case Ok(body) => Verify(body, publicKey, crypto)
    else Fail(UnsupportedVersion)
  }

  /** A signed envelope body: the signature's 512 bits, then the payload cell inline. */
  function SignedBody(sign: Bits512, payload: Cell): (body: Cell)
    ensures |body.bits| == SignatureBits + |payload.bits|
    ensures SignedPayload(body) == payload && body.bits[..SignatureBits] == sign
  {
    var body := Cell(sign + payload.bits, payload.refs);
    assert body.bits[SignatureBits..] == payload.bits;
    body
  }

  /** A wallet v3 message's payments come back out of a message that carries it, whatever the signature. */
  lemma ExtractV3(v: Version, m: MessageV3, sign: Bits512, msg: Cell, env: Envelope, dc: Highload.DictCodec)
    requires v == V3R1 || v == V3R2
    requires |m.rawMessages| <= FixedSlot.MaxMessages
    requires env(msg) == Some(SignedBody(sign, EncodeV3(m).value))
    ensures ExtractRawMessages(v, msg, env, dc) == Ok(m.rawMessages)
  {
    assert PaymentsV3(env, msg) == Ok(m.rawMessages) by {
      V3RoundTrip(m);
    }
  }

  /** A wallet v4 message's payments come back out, whatever its op: the dispatch does not look at it. */
  lemma ExtractV4(v: Version, m: MessageV4, sign: Bits512, msg: Cell, env: Envelope, dc: Highload.DictCodec)
    requires v == V4R1 || v == V4R2
    requires |m.rawMessages| <= FixedSlot.MaxMessages
    requires env(msg) == Some(SignedBody(sign, EncodeV4(m).value))
    ensures ExtractRawMessages(v, msg, env, dc) == Ok(m.rawMessages)
  {
    assert PaymentsV4(env, msg) == Ok(m.rawMessages) by {
      V4RoundTrip(m);
    }
  }

  /** A highload v2 message's payments come back out, in the order they were indexed. */
  lemma ExtractHighloadV2(m: HighloadV2Message, sign: Bits512, msg: Cell, env: Envelope, dc: Highload.DictCodec)
    requires Highload.Faithful(dc)
    requires 0 < |m.rawMessages| <= Highload.MaxMessages
    requires env(msg) == Some(SignedBody(sign, EncodeHighloadV2(m, dc).value))
    ensures ExtractRawMessages(HighLoadV2R2, msg, env, dc) == Ok(m.rawMessages)
  {
    assert PaymentsHighloadV2(env, msg, dc) == Ok(m.rawMessages) by {
      HighloadV2RoundTrip(m, dc);
    }
  }

  /** A wallet v5 message's actions come back out as payments, one per action, in chain order. */
  lemma ExtractV5(tag: nat, b: V5Body, msg: Cell, env: Envelope, dc: Highload.DictCodec)
    requires tag == SintTag || tag == SignTag
    requires env(msg) == Some(EncodeV5(tag, b))
    ensures ExtractRawMessages(V5R1, msg, env, dc) == Ok(ActionsToRaw(b.actions))
    ensures Projects(ExtractRawMessages(V5R1, msg, env, dc).value, b.actions)
  {
    PaymentsV5Encoded(tag, b, msg, env);
  }

  /** The payments of an encoded wallet v5 message, whichever variant it is, are its actions. */
  lemma PaymentsV5Encoded(tag: nat, b: V5Body, msg: Cell, env: Envelope)
    requires tag == SintTag || tag == SignTag
    requires env(msg) == Some(EncodeV5(tag, b))
    ensures PaymentsV5(env, msg) == Ok(ActionsToRaw(b.actions))
  {
    V5RoundTrip(b);
    if tag == SintTag {
      assert DecodeMessageV5(env, msg) == Ok(MessageV5("Sint", b, ZeroBody));
    } else {
      assert DecodeMessageV5(env, msg) == Ok(MessageV5("Sign", ZeroBody, b));
    }
  }

  /**
    A body made of a signature and a payload passes VerifySignature exactly
    when that signature is valid for that payload, and fails with
    BadSignature exactly when the payload hashes and the signature is not
    valid for it.
   */
  lemma VerifySignedBody(v: Version, sign: Bits512, payload: Cell, publicKey: PublicKey, msg: Cell, env: Envelope, crypto: Crypto)
    requires SignedBodyVersion(v)
    requires env(msg) == Some(SignedBody(sign, payload))
    ensures VerifySignature(v, msg, publicKey, env, crypto) == Pass <==> SignedBy(crypto, publicKey, payload, BytesOfBits(sign))
    ensures (VerifySignature(v, msg, publicKey, env, crypto) == Fail(BadSignature))
              <==> SignatureRejected(crypto, publicKey, payload, BytesOfBits(sign))
  {
  }
}
