/**
  The payload of highload v2 messages: up to 254 outgoing messages in a
  dictionary keyed by 16-bit position, each value a cell holding the 8-bit
  send mode and the message as its first reference.

  The dictionary's trie layout belongs to the serialisation library and is not
  part of this model: a dictionary is an ordered list of (key, value cell)
  items, and storing/loading a dictionary cell is a parameter whose expected
  behaviour `Faithful` states.
 */
module Highload {
  import opened Bits
  import opened Cells

  const MaxMessages := 254

  datatype DictItem = DictItem(key: nat, value: Cell)

  /** Building a dictionary cell from items, and loading the items back. */
  datatype DictCodec = DictCodec(store: seq<DictItem> -> Cell, load: Cell -> Option<seq<DictItem>>)

  /** Keys fit 16 bits and strictly ascend. */
  predicate KeysAscending(items: seq<DictItem>)
  {
    && (forall i :: 0 <= i < |items| ==> items[i].key < 0x1_0000)
    && (forall i, j :: 0 <= i < j < |items| ==> items[i].key < items[j].key)
  }

  /**
    What the model assumes of the dictionary library: loading a stored
    non-empty dictionary gives back its items, and every loaded dictionary
    lists its items in ascending key order.
   */
  ghost predicate Faithful(dc: DictCodec)
  {
    && (forall items :: |items| > 0 && KeysAscending(items) ==> dc.load(dc.store(items)) == Some(items))
    && (forall c :: dc.load(c).Some? ==> KeysAscending(dc.load(c).value))
  }

  /** A value cell as the decoder needs it: eight mode bits and a message reference. */
  predicate ValueWellFormed(c: Cell)
  {
    |c.bits| >= 8 && |c.refs| >= 1
  }

  predicate AllWellFormed(items: seq<DictItem>)
  {
    forall i :: 0 <= i < |items| ==> ValueWellFormed(items[i].value)
  }

  /** `msgs[i]` is the mode and message held by the value of `items[i]`. */
  ghost predicate ValuesDecodeTo(items: seq<DictItem>, msgs: seq<RawMessage>)
    requires AllWellFormed(items)
  {
    && |msgs| == |items|
    && forall i :: 0 <= i < |items| ==>
         && msgs[i].message == items[i].value.refs[0]
         && msgs[i].mode == UintValue(items[i].value.bits[..8])
  }

  /** The value cell for one message: its mode, then the message as a reference. */
  function ValueCell(m: RawMessage): (c: Cell)
    ensures |c.bits| == 8 && UintValue(c.bits) == m.mode
    ensures c.refs == [m.message]
  {
    Pow2Byte();
    UintValueOfBits(m.mode, 8);
    var c := AddRef(WriteUint(Empty, m.mode, 8), m.message);
    assert c.bits == UintBits(m.mode, 8);
    c
  }

  /** The dictionary items for a payload: entry `i` under key `i`. */
  function IndexedItems(p: seq<RawMessage>): (items: seq<DictItem>)
    requires |p| <= MaxMessages
    ensures |items| == |p| && KeysAscending(items)
    ensures forall i :: 0 <= i < |p| ==> items[i].key == i && items[i].value == ValueCell(p[i])
  {
    seq(|p|, i requires 0 <= i < |p| => DictItem(i, ValueCell(p[i])))
  }

  /**
    PayloadHighload.MarshalTLB: refuses more than 254 entries before building
    anything; otherwise writes a 1 marker bit and a reference to the dictionary.
   */
  function EncodeHighload(c: Cell, p: seq<RawMessage>, dc: DictCodec): (res: Result<Cell>)
    ensures res.Err? <==> |p| > MaxMessages
    ensures res.Err? ==> res.error == TooManyMessages(MaxMessages)
    ensures res.Ok? ==> res.value.bits == c.bits + [true]
    ensures res.Ok? ==> res.value.refs == c.refs + [dc.store(IndexedItems(p))]
  {
    if |p| > MaxMessages then Err(TooManyMessages(MaxMessages))
    else
      var dict := dc.store(IndexedItems(p));
      Ok(AddRef(WriteBits(c, [true]), dict))
  }

  /**
    Reads a HashmapE: a 0 bit is the empty dictionary, a 1 bit is followed by a
    reference to the dictionary's root cell.
   */
  function DecodeHashmapE(r: CellReader, dc: DictCodec): (res: Result<Parsed<seq<DictItem>>>)
    ensures BitsAvailable(r) == 0 ==> res == Err(NotEnoughBits)
    ensures BitsAvailable(r) > 0 && !r.cell.bits[r.bitPos] ==> res == Ok(Parsed([], Reader(r.cell, r.bitPos + 1, r.refPos)))
    ensures BitsAvailable(r) > 0 && r.cell.bits[r.bitPos] && RefsAvailable(r) == 0 ==> res == Err(NotEnoughRefs)
    ensures res.Ok? && r.cell.bits[r.bitPos] ==>
              && RefsAvailable(r) > 0
              && dc.load(r.cell.refs[r.refPos]) == Some(res.value.value)
              && res.value.rest == Reader(r.cell, r.bitPos + 1, r.refPos + 1)
    ensures BitsAvailable(r) > 0 && r.cell.bits[r.bitPos] && RefsAvailable(r) > 0 ==>
              && (res.Ok? <==> dc.load(r.cell.refs[r.refPos]).Some?)
              && (res.Err? ==> res.error == MalformedDictionary)
    ensures res.Ok? && Faithful(dc) ==> KeysAscending(res.value.value)
  {
    var marker :- ReadBit(r);
    if !marker.value then Ok(Parsed([], marker.rest))
    else
      var root :- NextRef(marker.rest);
      var items :- dc.load(root.value).OrFail(MalformedDictionary);
      Ok(Parsed(items, root.rest))
  }

  /**
    The loop of PayloadHighload.UnmarshalTLB: each item's value cell gives a
    mode (its first eight bits) and a message (its first reference), in item
    order. One malformed value fails the whole list.
   */
  function DecodeValues(items: seq<DictItem>): (res: Result<seq<RawMessage>>)
    ensures res.Ok? <==> AllWellFormed(items)
    ensures res.Err? ==> res.error == NotEnoughBits || res.error == NotEnoughRefs
    ensures res.Ok? ==> ValuesDecodeTo(items, res.value)
  {
    Pow2Byte();
    if items == [] then Ok([])
    else
      var mode :- ReadUint(Open(items[0].value), 8);
      var msg :- NextRef(mode.rest);
      var tail :- DecodeValues(items[1..]);
      assert forall i :: 0 < i < |items| ==> items[i] == items[1..][i - 1];
      Ok([RawMessage(msg.value, mode.value as Byte)] + tail)
  }

  /** PayloadHighload.UnmarshalTLB: the dictionary, then its values in item order. */
  function DecodeHighload(r: CellReader, dc: DictCodec): (res: Result<Parsed<seq<RawMessage>>>)
    ensures res.Ok? <==> DecodeHashmapE(r, dc).Ok? && AllWellFormed(DecodeHashmapE(r, dc).value.value)
    ensures res.Ok? ==> ValuesDecodeTo(DecodeHashmapE(r, dc).value.value, res.value.value)
    ensures res.Ok? ==> res.value.rest == DecodeHashmapE(r, dc).value.rest
  {
    var dict :- DecodeHashmapE(r, dc);
    var msgs :- DecodeValues(dict.value);
    Ok(Parsed(msgs, dict.rest))
  }

  /**
    The decoder never looks at keys: gaps, duplicates or out-of-range keys in a
    loaded dictionary are neither rejected nor compacted.
   */
  lemma {:induction false} DecodeValuesIgnoresKeys(a: seq<DictItem>, b: seq<DictItem>)
    requires |a| == |b|
    requires forall i :: 0 <= i < |a| ==> a[i].value == b[i].value
    ensures DecodeValues(a) == DecodeValues(b)
  {
    if a != [] {
      DecodeValuesIgnoresKeys(a[1..], b[1..]);
    }
  }

  /**
    Decoding what the encoder appended to a cell gives back the same entries in
    the same order, for any non-empty payload the encoder accepts.
   */
  lemma HighloadRoundTrip(c: Cell, p: seq<RawMessage>, dc: DictCodec)
    requires Faithful(dc)
    requires 0 < |p| <= MaxMessages
    ensures EncodeHighload(c, p, dc).Ok?
    ensures var e := EncodeHighload(c, p, dc).value;
            DecodeHighload(Reader(e, |c.bits|, |c.refs|), dc)
              == Ok(Parsed(p, Reader(e, |c.bits| + 1, |c.refs| + 1)))
  {
    var items := IndexedItems(p);
    var e := EncodeHighload(c, p, dc).value;
    var rd := Reader(e, |c.bits|, |c.refs|);
    assert e.bits[|c.bits|];
    assert e.refs[|c.refs|] == dc.store(items);
    assert dc.load(dc.store(items)) == Some(items);
    assert DecodeHashmapE(rd, dc) == Ok(Parsed(items, Reader(e, |c.bits| + 1, |c.refs| + 1)));
    IndexedValuesDecode(p);
  }

  /** The value cells the encoder builds decode back to the entries they were built from. */
  lemma IndexedValuesDecode(p: seq<RawMessage>)
    requires |p| <= MaxMessages
    ensures DecodeValues(IndexedItems(p)) == Ok(p)
  {
    var items := IndexedItems(p);
    IndexedValuesWellFormed(p);
    var msgs := DecodeValues(items);
    IndexedValuesDecodeTo(p);
    ValuesDecodeToUnique(items, msgs.value, p);
  }

  lemma IndexedValuesWellFormed(p: seq<RawMessage>)
    requires |p| <= MaxMessages
    ensures AllWellFormed(IndexedItems(p))
  {
  }

  lemma IndexedValuesDecodeTo(p: seq<RawMessage>)
    requires |p| <= MaxMessages
    ensures AllWellFormed(IndexedItems(p)) && ValuesDecodeTo(IndexedItems(p), p)
  {
    var items := IndexedItems(p);
    forall i | 0 <= i < |p|
      ensures p[i].mode == UintValue(items[i].value.bits[..8])
    {
      assert items[i].value.bits[..8] == items[i].value.bits;
    }
  }

  /** The values of a list of items determine one payload. */
  lemma ValuesDecodeToUnique(items: seq<DictItem>, a: seq<RawMessage>, b: seq<RawMessage>)
    requires AllWellFormed(items)
    requires ValuesDecodeTo(items, a) && ValuesDecodeTo(items, b)
    ensures a == b
  {
  }
}
