/**
  The message bodies of the four wallet generations, their decoders, and
  builders that lay a body out field by field in declaration order, as the
  serialisation library does for a plain record.

  Wallet v3, v4 and highload v2 bodies follow a 512-bit signature in the same
  cell; a wallet v5 body starts with a 32-bit tag choosing the internal
  ("sint") or external ("sign") variant, which share one layout.
 */
module Messages {
  import opened Bits
  import opened Cells
  import FixedSlot
  import Highload
  import opened ActionChain
  import opened Signature

  datatype MessageV3 = MessageV3(subWalletId: Uint32, validUntil: Uint32, seqno: Uint32, rawMessages: seq<RawMessage>)

  /** `op`: 0 simple send, 1 deploy and install plugin, 2 install plugin, 3 remove plugin. */
  datatype MessageV4 = MessageV4(subWalletId: Uint32, validUntil: Uint32, seqno: Uint32, op: Int8, rawMessages: seq<RawMessage>)

  datatype HighloadV2Message = HighloadV2Message(subWalletId: Uint32, boundedQueryId: Uint64, rawMessages: seq<RawMessage>)

  type Bits80 = s: seq<bool> | |s| == 80 witness seq(80, i => false)

  /** The body both wallet v5 variants share. */
  datatype V5Body = V5Body(subWalletId: Bits80, validUntil: Uint32, seqno: Uint32, op: bool, signature: Bits512,
                           actions: seq<SendMessageAction>)

  /** A wallet v5 message: `sumType` names the variant that was read, whose body is filled in. */
  datatype MessageV5 = MessageV5(sumType: string, sint: V5Body, sign: V5Body)

  const SintTag: nat := 0x73696e74
  const SignTag: nat := 0x7369676e

  function Zeros(n: nat): (s: seq<bool>)
    ensures |s| == n
  {
    if n == 0 then [] else [false] + Zeros(n - 1)
  }

  /** The body of the variant that was not read. */
  const ZeroBody := V5Body(Zeros(80), 0, 0, false, Zeros(512), [])

  /** Bits of a v5 body before the action-chain reference: 80 + 32 + 32 + 1 + 512. */
  const V5BodyBits: nat := 657

  function Int8OfByte(b: Byte): (x: Int8)
    ensures (x < 0) == (b >= 128)
    ensures x % 256 == b
  {
    if b >= 128 then b - 256 else b
  }

  function ByteOfInt8(x: Int8): (b: Byte)
    ensures Int8OfByte(b) == x
  {
    if x < 0 then x + 256 else x
  }

  // ---------------------------------------------------------------- wallet v3

  /** decodeMessageV3: three 32-bit header fields, then the fixed-slot payload. */
  function DecodeV3(c: Cell): (res: Result<MessageV3>)
    ensures res.Ok? <==> 96 <= |c.bits| && 8 * |c.refs| <= |c.bits| - 96
    ensures res.Ok? ==>
              && res.value.subWalletId == UintValue(c.bits[0..32])
              && res.value.validUntil == UintValue(c.bits[32..64])
              && res.value.seqno == UintValue(c.bits[64..96])
              && |res.value.rawMessages| == |c.refs|
              && FixedSlot.SlotsHold(Reader(c, 96, 0), res.value.rawMessages)
  {
    var sub :- ReadUint(Open(c), 32);
    var until :- ReadUint(sub.rest, 32);
    var seqno :- ReadUint(until.rest, 32);
    var msgs :- FixedSlot.DecodeFixed(seqno.rest);
    Pow2Word();
    Ok(MessageV3(sub.value as Uint32, until.value as Uint32, seqno.value as Uint32, msgs.value))
  }

  function V3Header(m: MessageV3): (c: Cell)
  {
    Pow2Word();
    WriteUint(WriteUint(WriteUint(Empty, m.subWalletId, 32), m.validUntil, 32), m.seqno, 32)
  }

  /** A wallet v3 body: the header fields, then PayloadV1toV4.MarshalTLB. */
  function EncodeV3(m: MessageV3): (res: Result<Cell>)
    ensures res.Ok? <==> |m.rawMessages| <= FixedSlot.MaxMessages
  {
    FixedSlot.EncodeFixed(V3Header(m), m.rawMessages)
  }

  lemma V3RoundTrip(m: MessageV3)
    requires |m.rawMessages| <= FixedSlot.MaxMessages
    ensures EncodeV3(m).Ok? && DecodeV3(EncodeV3(m).value) == Ok(m)
  {
    var h := V3Header(m);
    var e := EncodeV3(m).value;
    FixedSlot.FixedRoundTrip(h, m.rawMessages);
    assert e.bits[..96] == h.bits;
    V3HeaderReads(e, m);
  }

  /** The three header fields read back from a cell that starts with them. */
  lemma V3HeaderReads(e: Cell, m: MessageV3)
    requires 96 <= |e.bits| && e.bits[..96] == V3Header(m).bits
    ensures ReadUint(Open(e), 32) == Ok(Parsed(m.subWalletId as nat, Reader(e, 32, 0)))
    ensures ReadUint(Reader(e, 32, 0), 32) == Ok(Parsed(m.validUntil as nat, Reader(e, 64, 0)))
    ensures ReadUint(Reader(e, 64, 0), 32) == Ok(Parsed(m.seqno as nat, Reader(e, 96, 0)))
  {
    Pow2Word();
    var h1 := WriteUint(Empty, m.subWalletId, 32);
    var h2 := WriteUint(h1, m.validUntil, 32);
    PrefixSplit(e.bits, h2.bits, UintBits(m.seqno, 32));
    PrefixSplit(e.bits, h1.bits, UintBits(m.validUntil, 32));
    assert h1.bits == UintBits(m.subWalletId, 32);
    ReadUintWritten(Open(e), m.subWalletId, 32);
    ReadUintWritten(Reader(e, 32, 0), m.validUntil, 32);
    ReadUintWritten(Reader(e, 64, 0), m.seqno, 32);
  }


  // ---------------------------------------------------------------- wallet v4

  /** decodeMessageV4: the v3 header, a signed 8-bit op, then the fixed-slot payload. */
  function DecodeV4(c: Cell): (res: Result<MessageV4>)
    ensures res.Ok? <==> 104 <= |c.bits| && 8 * |c.refs| <= |c.bits| - 104
    ensures res.Ok? ==>
              && res.value.subWalletId == UintValue(c.bits[0..32])
              && res.value.validUntil == UintValue(c.bits[32..64])
              && res.value.seqno == UintValue(c.bits[64..96])
              && res.value.op % 256 == UintValue(c.bits[96..104])
              && |res.value.rawMessages| == |c.refs|
              && FixedSlot.SlotsHold(Reader(c, 104, 0), res.value.rawMessages)
  {
    var sub :- ReadUint(Open(c), 32);
    var until :- ReadUint(sub.rest, 32);
    var seqno :- ReadUint(until.rest, 32);
    var op :- ReadUint(seqno.rest, 8);
    var msgs :- FixedSlot.DecodeFixed(op.rest);
    Pow2Byte();
    Pow2Word();
    Ok(MessageV4(sub.value as Uint32, until.value as Uint32, seqno.value as Uint32,
                 Int8OfByte(op.value as Byte), msgs.value))
  }

  function V4Header(m: MessageV4): (c: Cell)
  {
    Pow2Byte();
    Pow2Word();
    WriteUint(WriteUint(WriteUint(WriteUint(Empty, m.subWalletId, 32), m.validUntil, 32), m.seqno, 32),
              ByteOfInt8(m.op), 8)
  }

  /** A wallet v4 body: the header fields, then PayloadV1toV4.MarshalTLB. */
  function EncodeV4(m: MessageV4): (res: Result<Cell>)
    ensures res.Ok? <==> |m.rawMessages| <= FixedSlot.MaxMessages
  {
    FixedSlot.EncodeFixed(V4Header(m), m.rawMessages)
  }

  lemma V4RoundTrip(m: MessageV4)
    requires |m.rawMessages| <= FixedSlot.MaxMessages
    ensures EncodeV4(m).Ok? && DecodeV4(EncodeV4(m).value) == Ok(m)
  {
    var h := V4Header(m);
    var e := EncodeV4(m).value;
    FixedSlot.FixedRoundTrip(h, m.rawMessages);
    assert e.bits[..104] == h.bits;
    V4HeaderReads(e, m);
  }

  /** The four header fields read back from a cell that starts with them; the op comes back signed. */
  lemma V4HeaderReads(e: Cell, m: MessageV4)
    requires 104 <= |e.bits| && e.bits[..104] == V4Header(m).bits
    ensures ReadUint(Open(e), 32) == Ok(Parsed(m.subWalletId as nat, Reader(e, 32, 0)))
    ensures ReadUint(Reader(e, 32, 0), 32) == Ok(Parsed(m.validUntil as nat, Reader(e, 64, 0)))
    ensures ReadUint(Reader(e, 64, 0), 32) == Ok(Parsed(m.seqno as nat, Reader(e, 96, 0)))
    ensures ReadUint(Reader(e, 96, 0), 8) == Ok(Parsed(ByteOfInt8(m.op) as nat, Reader(e, 104, 0)))
  {
    Pow2Byte();
    Pow2Word();
    var h1 := WriteUint(Empty, m.subWalletId, 32);
    var h2 := WriteUint(h1, m.validUntil, 32);
    var h3 := WriteUint(h2, m.seqno, 32);
    var op := ByteOfInt8(m.op);
    PrefixSplit(e.bits, h3.bits, UintBits(op, 8));
    PrefixSplit(e.bits, h2.bits, UintBits(m.seqno, 32));
    PrefixSplit(e.bits, h1.bits, UintBits(m.validUntil, 32));
    assert h1.bits == UintBits(m.subWalletId, 32);
    ReadUintWritten(Open(e), m.subWalletId, 32);
    ReadUintWritten(Reader(e, 32, 0), m.validUntil, 32);
    ReadUintWritten(Reader(e, 64, 0), m.seqno, 32);
    ReadUintWritten(Reader(e, 96, 0), op, 8);
  }


  // -------------------------------------------------------------- highload v2

  /** decodeHighloadV2Message: a 32-bit and a 64-bit header field, then the dictionary payload. */
  function DecodeHighloadV2(c: Cell, dc: Highload.DictCodec): (res: Result<HighloadV2Message>)
    ensures res.Ok? ==> 96 <= |c.bits|
    ensures res.Ok? ==>
              && res.value.subWalletId == UintValue(c.bits[0..32])
              && res.value.boundedQueryId == UintValue(c.bits[32..96])
              && Highload.DecodeHighload(Reader(c, 96, 0), dc).Ok?
              && res.value.rawMessages == Highload.DecodeHighload(Reader(c, 96, 0), dc).value.value
  {
    var sub :- ReadUint(Open(c), 32);
    var query :- ReadUint(sub.rest, 64);
    var msgs :- Highload.DecodeHighload(query.rest, dc);
    Pow2Word();
    Pow2Long();
    Ok(HighloadV2Message(sub.value as Uint32, query.value as Uint64, msgs.value))
  }

  function HighloadV2Header(m: HighloadV2Message): (c: Cell)
  {
    Pow2Word();
    Pow2Long();
    WriteUint(WriteUint(Empty, m.subWalletId, 32), m.boundedQueryId, 64)
  }

  /** A highload v2 body: the header fields, then PayloadHighload.MarshalTLB. */
  function EncodeHighloadV2(m: HighloadV2Message, dc: Highload.DictCodec): (res: Result<Cell>)
    ensures res.Ok? <==> |m.rawMessages| <= Highload.MaxMessages
  {
    Highload.EncodeHighload(HighloadV2Header(m), m.rawMessages, dc)
  }

  lemma HighloadV2RoundTrip(m: HighloadV2Message, dc: Highload.DictCodec)
    requires Highload.Faithful(dc)
    requires 0 < |m.rawMessages| <= Highload.MaxMessages
    ensures EncodeHighloadV2(m, dc).Ok? && DecodeHighloadV2(EncodeHighloadV2(m, dc).value, dc) == Ok(m)
  {
    var h := HighloadV2Header(m);
    var e := EncodeHighloadV2(m, dc).value;
    Highload.HighloadRoundTrip(h, m.rawMessages, dc);
    assert e.bits[..96] == h.bits;
    HighloadV2HeaderReads(e, m);
  }

  /** The two header fields read back from a cell that starts with them. */
  lemma HighloadV2HeaderReads(e: Cell, m: HighloadV2Message)
    requires 96 <= |e.bits| && e.bits[..96] == HighloadV2Header(m).bits
    ensures ReadUint(Open(e), 32) == Ok(Parsed(m.subWalletId as nat, Reader(e, 32, 0)))
    ensures ReadUint(Reader(e, 32, 0), 64) == Ok(Parsed(m.boundedQueryId as nat, Reader(e, 96, 0)))
  {
    Pow2Word();
    Pow2Long();
    var h1 := WriteUint(Empty, m.subWalletId, 32);
    PrefixSplit(e.bits, h1.bits, UintBits(m.boundedQueryId, 64));
    assert h1.bits == UintBits(m.subWalletId, 32);
    ReadUintWritten(Open(e), m.subWalletId, 32);
    ReadUintWritten(Reader(e, 32, 0), m.boundedQueryId, 64);
  }


  // ---------------------------------------------------------------- wallet v5

  /** The shared v5 body: fields in declaration order, then the action chain by reference. */
  function DecodeV5Body(r: CellReader): (res: Result<V5Body>)
    ensures res.Ok? <==>
              && V5BodyBits <= BitsAvailable(r) && 1 <= RefsAvailable(r)
              && DecodeChain(Open(r.cell.refs[r.refPos])).Ok?
    ensures res.Ok? ==>
              var at := r.bitPos;
              && res.value.subWalletId == r.cell.bits[at .. at + 80]
              && res.value.validUntil == UintValue(r.cell.bits[at + 80 .. at + 112])
              && res.value.seqno == UintValue(r.cell.bits[at + 112 .. at + 144])
              && res.value.op == r.cell.bits[at + 144]
              && res.value.signature == r.cell.bits[at + 145 .. at + 657]
              && DecodeChain(Open(r.cell.refs[r.refPos])) == Ok(res.value.actions)
  {
    var sub :- ReadBits(r, 80);
    var until :- ReadUint(sub.rest, 32);
    var seqno :- ReadUint(until.rest, 32);
    var op :- ReadBit(seqno.rest);
    var sig :- ReadBits(op.rest, SignatureBits);
    var head :- NextRef(sig.rest);
    var actions :- DecodeChain(Open(head.value));
    Pow2Word();
    Ok(V5Body(sub.value, until.value as Uint32, seqno.value as Uint32, op.value, sig.value, actions))
  }

  /** The v5 sum type: the tag picks the variant; any other tag is an error. */
  function DecodeV5(c: Cell): (res: Result<MessageV5>)
    ensures |c.bits| >= 32 && UintValue(c.bits[..32]) != SintTag && UintValue(c.bits[..32]) != SignTag ==>
              res == Err(BadSumTag(UintValue(c.bits[..32])))
    ensures res.Ok? ==> 32 <= |c.bits|
    ensures |c.bits| >= 32 && (UintValue(c.bits[..32]) == SintTag || UintValue(c.bits[..32]) == SignTag) ==>
              (res.Ok? <==> DecodeV5Body(Reader(c, 32, 0)).Ok?)
    ensures res.Ok? && UintValue(c.bits[..32]) == SintTag ==>
              res.value.sumType == "Sint" && Ok(res.value.sint) == DecodeV5Body(Reader(c, 32, 0))
    ensures res.Ok? && UintValue(c.bits[..32]) == SignTag ==>
              res.value.sumType == "Sign" && Ok(res.value.sign) == DecodeV5Body(Reader(c, 32, 0))
  {
    Pow2Word();
    var tag :- ReadUint(Open(c), 32);
    if tag.value == SintTag then
      var body :- DecodeV5Body(tag.rest);
      Ok(MessageV5("Sint", body, ZeroBody))
    else if tag.value == SignTag then
      var body :- DecodeV5Body(tag.rest);
      Ok(MessageV5("Sign", ZeroBody, body))
    else Err(BadSumTag(tag.value))
  }

  /** A v5 message up to and without its signature: the tag and the fields before it. */
  function V5Unsigned(tag: nat, b: V5Body): (c: Cell)
    requires tag < 0x1_0000_0000
    ensures |c.bits| == 32 + 145 && c.refs == []
  {
    Pow2Word();
    var c1 := WriteUint(Empty, tag, 32);
    var c2 := WriteBits(c1, b.subWalletId);
    var c3 := WriteUint(c2, b.validUntil, 32);
    var c4 := WriteUint(c3, b.seqno, 32);
    WriteBits(c4, [b.op])
  }

  /** A wallet v5 message laid out as its variant's tag, the body fields and the canonical action chain. */
  function EncodeV5(tag: nat, b: V5Body): (c: Cell)
    requires tag < 0x1_0000_0000
    ensures |c.bits| == 32 + V5BodyBits && |c.refs| == 1
  {
    AddRef(WriteBits(V5Unsigned(tag, b), b.signature), ChainOf(b.actions))
  }

  lemma V5RoundTrip(b: V5Body)
    ensures DecodeV5(EncodeV5(SintTag, b)) == Ok(MessageV5("Sint", b, ZeroBody))
    ensures DecodeV5(EncodeV5(SignTag, b)) == Ok(MessageV5("Sign", ZeroBody, b))
  {
    V5BodyRoundTrip(SintTag, b);
    V5BodyRoundTrip(SignTag, b);
  }

  lemma V5BodyRoundTrip(tag: nat, b: V5Body)
    requires tag == SintTag || tag == SignTag
    ensures var c := EncodeV5(tag, b);
            && ReadUint(Open(c), 32) == Ok(Parsed(tag, Reader(c, 32, 0)))
            && DecodeV5Body(Reader(c, 32, 0)) == Ok(b)
  {
    var c := EncodeV5(tag, b);
    V5FieldsRead(c, tag, b);
    ChainOfDecodes(b.actions);
    assert NextRef(Reader(c, 689, 0)) == Ok(Parsed(ChainOf(b.actions), Reader(c, 689, 1)));
  }

  /** Every field of a v5 message reads back from where the encoder put it. */
  lemma V5FieldsRead(c: Cell, tag: nat, b: V5Body)
    requires tag < 0x1_0000_0000
    requires c.bits == V5Unsigned(tag, b).bits + b.signature
    ensures ReadUint(Open(c), 32) == Ok(Parsed(tag, Reader(c, 32, 0)))
    ensures ReadBits(Reader(c, 32, 0), 80) == Ok(Parsed(b.subWalletId, Reader(c, 112, 0)))
    ensures ReadUint(Reader(c, 112, 0), 32) == Ok(Parsed(b.validUntil as nat, Reader(c, 144, 0)))
    ensures ReadUint(Reader(c, 144, 0), 32) == Ok(Parsed(b.seqno as nat, Reader(c, 176, 0)))
    ensures ReadBit(Reader(c, 176, 0)) == Ok(Parsed(b.op, Reader(c, 177, 0)))
    ensures ReadBits(Reader(c, 177, 0), 512) == Ok(Parsed(b.signature, Reader(c, 689, 0)))
  {
    V5Layout(c, tag, b);
    Pow2Word();
    ReadUintWritten(Open(c), tag, 32);
    ReadUintWritten(Reader(c, 112, 0), b.validUntil, 32);
    ReadUintWritten(Reader(c, 144, 0), b.seqno, 32);
  }

  /** Where each field of a v5 message sits among the bits the encoder wrote. */
  lemma V5Layout(c: Cell, tag: nat, b: V5Body)
    requires tag < 0x1_0000_0000
    requires c.bits == V5Unsigned(tag, b).bits + b.signature
    // the 32-bit bound makes the UintBits terms below well formed
    ensures Pow2(32) == 0x1_0000_0000
    ensures |c.bits| == 689
    ensures c.bits[0..32] == UintBits(tag, 32)
    ensures c.bits[32..112] == b.subWalletId
    ensures c.bits[112..144] == UintBits(b.validUntil, 32)
    ensures c.bits[144..176] == UintBits(b.seqno, 32)
    ensures c.bits[176] == b.op
    ensures c.bits[177..689] == b.signature
  {
    Pow2Word();
    var c1 := WriteUint(Empty, tag, 32);
    var c2 := WriteBits(c1, b.subWalletId);
    var c3 := WriteUint(c2, b.validUntil, 32);
    var c4 := WriteUint(c3, b.seqno, 32);
    var c5 := WriteBits(c4, [b.op]);
    assert c5 == V5Unsigned(tag, b);
    PrefixSplit(c.bits, c5.bits, b.signature);
    PrefixSplit(c.bits, c4.bits, [b.op]);
    PrefixSplit(c.bits, c3.bits, UintBits(b.seqno, 32));
    PrefixSplit(c.bits, c2.bits, UintBits(b.validUntil, 32));
    PrefixSplit(c.bits, c1.bits, b.subWalletId);
    assert c1.bits == UintBits(tag, 32);
  }

  /**
    The signature the v5 decoder reads is the one MessageV5VerifySignature
    checks, and what it checks it against is the message without it.
   */
  lemma V5SignatureIsTrailing(tag: nat, b: V5Body)
    requires tag == SintTag || tag == SignTag
    ensures var c := EncodeV5(tag, b);
            StripSignature(Open(c)) == Ok(Unsigned(Cell(V5Unsigned(tag, b).bits, c.refs), BytesOfBits(b.signature)))
  {
  }

  /** The actions of a v5 message as outgoing payments, one per action, in order. */
  ghost predicate Projects(msgs: seq<RawMessage>, actions: seq<SendMessageAction>)
  {
    && |msgs| == |actions|
    && forall i :: 0 <= i < |actions| ==> msgs[i] == RawMessage(actions[i].msg, actions[i].mode)
  }

  function ActionsToRaw(actions: seq<SendMessageAction>): (msgs: seq<RawMessage>)
    ensures Projects(msgs, actions)
  {
    if actions == [] then []
    else [RawMessage(actions[0].msg, actions[0].mode)] + ActionsToRaw(actions[1..])
  }

  /** MessageV5.RawMessages: the filled-in variant's actions as payments; nothing for any other tag. */
  function RawMessages(m: MessageV5): (msgs: seq<RawMessage>)
    ensures m.sumType == "Sint" ==> Projects(msgs, m.sint.actions)
    ensures m.sumType == "Sign" ==> Projects(msgs, m.sign.actions)
    ensures m.sumType != "Sint" && m.sumType != "Sign" ==> msgs == []
  {
    if m.sumType == "Sint" then ActionsToRaw(m.sint.actions)
    else if m.sumType == "Sign" then ActionsToRaw(m.sign.actions)
    else []
  }

  // ------------------------------------------------------- whole-message entry

  /** The payload of a signed body: the body without its leading 512 signature bits. */
  function SignedPayload(body: Cell): (p: Cell)
    requires SignatureBits <= |body.bits|
    ensures body.bits == body.bits[..SignatureBits] + p.bits && p.refs == body.refs
  {
    Cell(body.bits[SignatureBits..], body.refs)
  }

  /** DecodeMessageV3: the signed body, then its payload as a wallet v3 message. */
  function DecodeMessageV3(env: Envelope, msg: Cell): (res: Result<MessageV3>)
    ensures env(msg).None? ==> res == Err(MalformedEnvelope)
    ensures env(msg).Some? && |env(msg).value.bits| < SignatureBits ==> res == Err(NotEnoughBits)
    ensures env(msg).Some? && SignatureBits <= |env(msg).value.bits| ==> res == DecodeV3(SignedPayload(env(msg).value))
  {
    var body :- ExtractSignedMsgBody(env, msg);
    DecodeV3(body.message)
  }

  /** DecodeMessageV4: the signed body, then its payload as a wallet v4 message. */
  function DecodeMessageV4(env: Envelope, msg: Cell): (res: Result<MessageV4>)
    ensures env(msg).None? ==> res == Err(MalformedEnvelope)
    ensures env(msg).Some? && |env(msg).value.bits| < SignatureBits ==> res == Err(NotEnoughBits)
    ensures env(msg).Some? && SignatureBits <= |env(msg).value.bits| ==> res == DecodeV4(SignedPayload(env(msg).value))
  {
    var body :- ExtractSignedMsgBody(env, msg);
    DecodeV4(body.message)
  }

  /** DecodeHighloadV2Message: the signed body, then its payload as a highload v2 message. */
  function DecodeHighloadV2Message(env: Envelope, msg: Cell, dc: Highload.DictCodec): (res: Result<HighloadV2Message>)
    ensures env(msg).None? ==> res == Err(MalformedEnvelope)
    ensures env(msg).Some? && |env(msg).value.bits| < SignatureBits ==> res == Err(NotEnoughBits)
    ensures env(msg).Some? && SignatureBits <= |env(msg).value.bits| ==>
              res == DecodeHighloadV2(SignedPayload(env(msg).value), dc)
  {
    var body :- ExtractSignedMsgBody(env, msg);
    DecodeHighloadV2(body.message, dc)
  }

  /** DecodeMessageV5: the whole body, with no signature split off, as a wallet v5 message. */
  function DecodeMessageV5(env: Envelope, msg: Cell): (res: Result<MessageV5>)
    ensures env(msg).None? ==> res == Err(MalformedEnvelope)
    ensures env(msg).Some? ==> res == DecodeV5(env(msg).value)
  {
    var body :- env(msg).OrFail(MalformedEnvelope);
    DecodeV5(body)
  }
}
