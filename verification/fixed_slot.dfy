/**
  The payload of wallet v3 and v4 messages: up to four outgoing messages, each
  an 8-bit send mode in the payload cell's bits and the message cell as one of
  its references. The payload is laid out inline after the message header, so
  both directions work on the tail of a cell.
 */
module FixedSlot {
  import opened Bits
  import opened Cells

  const MaxMessages := 4

  /** The byte of `bits` that starts at bit `at`. */
  function ByteAt(bits: seq<bool>, at: nat): nat
    requires at + 8 <= |bits|
  {
    UintValue(bits[at .. at + 8])
  }

  /**
    `p` is the run of slots under the cursor: its first entry's mode is the
    next unread byte and its message the next unread reference, and the rest
    of `p` follows from just after them.
   */
  ghost predicate SlotsHold(r: CellReader, p: seq<RawMessage>)
    decreases |p|
  {
    if p == [] then true
    else
      && 1 <= RefsAvailable(r) && 8 <= BitsAvailable(r)
      && p[0].message == r.cell.refs[r.refPos]
      && p[0].mode == ByteAt(r.cell.bits, r.bitPos)
      && SlotsHold(Reader(r.cell, r.bitPos + 8, r.refPos + 1), p[1..])
  }

  /**
    Appends each entry's mode and then its message reference, in list order:
    the entries become the slots under a cursor placed at the old end.
   */
  function AppendSlots(c: Cell, p: seq<RawMessage>): (r: Cell)
    ensures |r.bits| == |c.bits| + 8 * |p| && |r.refs| == |c.refs| + |p|
    ensures r.bits[..|c.bits|] == c.bits && r.refs[..|c.refs|] == c.refs
    ensures SlotsHold(Reader(r, |c.bits|, |c.refs|), p)
    decreases |p|
  {
    if p == [] then c
    else
      var n := |p| - 1;
      var prev := AppendSlots(c, p[..n]);
      Pow2Byte();
      var r := AddRef(WriteUint(prev, p[n].mode, 8), p[n].message);
      SlotsSnoc(Reader(prev, |c.bits|, |c.refs|), r, p[..n], p[n]);
      assert p[..n] + [p[n]] == p;
      r
  }

  /** Appending one more slot after a run of slots that ends the cell extends the run by that entry. */
  lemma {:induction false} SlotsSnoc(rd: CellReader, r: Cell, q: seq<RawMessage>, last: RawMessage)
    requires |rd.cell.bits| == rd.bitPos + 8 * |q| && |rd.cell.refs| == rd.refPos + |q|
    requires SlotsHold(rd, q)
    requires r.bits == rd.cell.bits + UintBits(last.mode, 8) && r.refs == rd.cell.refs + [last.message]
    ensures SlotsHold(Reader(r, rd.bitPos, rd.refPos), q + [last])
    decreases |q|
  {
    var at := rd.bitPos;
    var p := q + [last];
    if q == [] {
      assert ByteAt(r.bits, at) == last.mode by {
        Pow2Byte();
        assert r.bits[at .. at + 8] == UintBits(last.mode, 8);
        UintValueOfBits(last.mode, 8);
      }
      assert p[1..] == [];
    } else {
      assert p[0] == q[0] && r.refs[rd.refPos] == rd.cell.refs[rd.refPos];
      assert ByteAt(r.bits, at) == ByteAt(rd.cell.bits, at) by {
        assert r.bits[at .. at + 8] == rd.cell.bits[at .. at + 8];
      }
      SlotsSnoc(Reader(rd.cell, at + 8, rd.refPos + 1), r, q[1..], last);
      assert p[1..] == q[1..] + [last];
    }
  }

  /** PayloadV1toV4.MarshalTLB: refuses more than four entries, otherwise appends them all. */
  function EncodeFixed(c: Cell, p: seq<RawMessage>): (res: Result<Cell>)
    ensures res.Err? <==> |p| > MaxMessages
    ensures res.Err? ==> res.error == TooManyMessages(MaxMessages)
    ensures res.Ok? ==> res.value == AppendSlots(c, p)
  {
    if |p| > MaxMessages then Err(TooManyMessages(MaxMessages))
    else Ok(AppendSlots(c, p))
  }

  /**
    PayloadV1toV4.UnmarshalTLB: takes one reference and then eight mode bits,
    until no reference is left. Running out of references ends the list;
    running out of mode bits is an error; unread bits left over are not.
   */
  function DecodeFixed(r: CellReader): (res: Result<Parsed<seq<RawMessage>>>)
    ensures res.Ok? <==> 8 * RefsAvailable(r) <= BitsAvailable(r)
    ensures res.Err? ==> res.error == NotEnoughBits
    ensures res.Ok? ==> |res.value.value| == RefsAvailable(r) && SlotsHold(r, res.value.value)
    ensures res.Ok? ==> res.value.rest == Reader(r.cell, r.bitPos + 8 * RefsAvailable(r), |r.cell.refs|)
    decreases RefsAvailable(r)
  {
    match NextRef(r)
    case Err(_) => Ok(Parsed([], r))
    case Ok(ref) =>
      var mode :- ReadUint(ref.rest, 8);
      var tail :- DecodeFixed(mode.rest);
      Pow2Byte();
      var head := RawMessage(ref.value, mode.value as Byte);
      assert ([head] + tail.value)[1..] == tail.value;
      Ok(Parsed([head] + tail.value, tail.rest))
  }

  /**
    Decoding what the encoder appended to a cell, starting where the encoder
    started, gives back the same entries in the same order.
   */
  lemma FixedRoundTrip(c: Cell, p: seq<RawMessage>)
    requires |p| <= MaxMessages
    ensures EncodeFixed(c, p).Ok?
    ensures var e := EncodeFixed(c, p).value;
            DecodeFixed(Reader(e, |c.bits|, |c.refs|))
              == Ok(Parsed(p, Reader(e, |c.bits| + 8 * |p|, |e.refs|)))
  {
    var e := AppendSlots(c, p);
    assert EncodeFixed(c, p) == Ok(e);
    FixedDecodeComplete(Reader(e, |c.bits|, |c.refs|), p);
  }

  /** Decoding is determined by the unread slots: any list the reader holds is the one decoded. */
  lemma {:induction false} FixedDecodeComplete(r: CellReader, p: seq<RawMessage>)
    requires |p| == RefsAvailable(r) && SlotsHold(r, p)
    ensures DecodeFixed(r).Ok? && DecodeFixed(r).value.value == p
    decreases |p|
  {
    if p != [] {
      var next := Reader(r.cell, r.bitPos + 8, r.refPos + 1);
      FixedDecodeComplete(next, p[1..]);
      assert NextRef(r) == Ok(Parsed(r.cell.refs[r.refPos], Reader(r.cell, r.bitPos, r.refPos + 1)));
      assert ReadUint(Reader(r.cell, r.bitPos, r.refPos + 1), 8) == Ok(Parsed(p[0].mode as nat, next));
      assert p == [p[0]] + p[1..];
    }
  }
}
