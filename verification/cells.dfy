/**
  The cell tree the wallet codecs read and write, with the read cursor and the
  handful of cell operations the codecs use (reading unsigned integers, bits
  and references; appending them when building). The cell library itself is
  not part of this model: these are the behaviours the codecs rely on, with no
  capacity limit on bits or references.
 */
module Cells {
  import opened Bits

  /** A cell: its data bits and its ordered child references. */
  datatype Cell = Cell(bits: seq<bool>, refs: seq<Cell>)

  const Empty := Cell([], [])

  /** The ways a codec call can fail. */
  datatype Error =
    | NotEnoughBits                     // a read past the last unread bit
    | NotEnoughRefs                     // a reference taken past the last unread one
    | BadActionMagic(found: nat)        // an action whose 32-bit tag is not the send-message tag
    | BadSumTag(found: nat)             // a wallet v5 body with neither variant's tag
    | UnexpectedBitsAvailable(count: nat) // an action-chain node that is neither 0 nor 40 bits
    | TooManyMessages(limit: nat)       // a payload longer than its format allows
    | UnsupportedVersion                // a wallet version the dispatch does not handle
    | BadSignature                      // the signature check ran and failed
    | MalformedEnvelope                 // the outer message could not be parsed
    | MalformedDictionary               // the dictionary cell could not be parsed
    | HashFailed                        // the cell could not be hashed

  datatype Result<+T> = Ok(value: T) | Err(error: Error) {
    predicate IsFailure() {
      Err?
    }

    function PropagateFailure<U>(): Result<U>
      requires Err?
    {
      Err(error)
    }

    function Extract(): T
      requires Ok?
    {
      value
    }
  }

  datatype Option<+T> = None | Some(value: T) {
    /** The value, or the given error when there is none. */
    function OrFail(e: Error): Result<T>
    {
      if Some? then Ok(value) else Err(e)
    }
  }

  /** The result of an operation that returns only an error or nothing. */
  datatype Outcome = Pass | Fail(error: Error)

  /** A cell with its read cursor: the next unread bit and the next unread reference. */
  datatype Reader = Reader(cell: Cell, bitPos: nat, refPos: nat)

  type CellReader = r: Reader | r.bitPos <= |r.cell.bits| && r.refPos <= |r.cell.refs|
    witness Reader(Empty, 0, 0)

  /** What a read returns: the value read and the cursor after it. */
  datatype Parsed<+T> = Parsed(value: T, rest: CellReader)

  /** A cell as it is handed out by a reference or by the envelope: nothing read yet. */
  function Open(c: Cell): (r: CellReader)
    ensures r.cell == c && r.bitPos == 0 && r.refPos == 0
  {
    Reader(c, 0, 0)
  }

  function BitsAvailable(r: CellReader): nat {
    |r.cell.bits| - r.bitPos
  }

  function RefsAvailable(r: CellReader): nat {
    |r.cell.refs| - r.refPos
  }

  /** The unread part of a cell as a cell of its own. */
  function Remaining(r: CellReader): (c: Cell)
    ensures |c.bits| == BitsAvailable(r) && |c.refs| == RefsAvailable(r)
  {
    Cell(r.cell.bits[r.bitPos..], r.cell.refs[r.refPos..])
  }

  function ReadBits(r: CellReader, n: nat): (res: Result<Parsed<seq<bool>>>)
    ensures res.Ok? <==> n <= BitsAvailable(r)
    ensures res.Err? ==> res.error == NotEnoughBits
    ensures res.Ok? ==> |res.value.value| == n
    ensures res.Ok? ==> res.value.value == r.cell.bits[r.bitPos .. r.bitPos + n]
    ensures res.Ok? ==> res.value.rest == Reader(r.cell, r.bitPos + n, r.refPos)
  {
    if n > BitsAvailable(r) then Err(NotEnoughBits)
    else Ok(Parsed(r.cell.bits[r.bitPos .. r.bitPos + n], Reader(r.cell, r.bitPos + n, r.refPos)))
  }

  function ReadUint(r: CellReader, n: nat): (res: Result<Parsed<nat>>)
    ensures res.Ok? <==> n <= BitsAvailable(r)
    ensures res.Err? ==> res.error == NotEnoughBits
    ensures res.Ok? ==> res.value.value < Pow2(n)
    ensures res.Ok? ==> res.value.value == UintValue(r.cell.bits[r.bitPos .. r.bitPos + n])
    ensures res.Ok? ==> res.value.rest == Reader(r.cell, r.bitPos + n, r.refPos)
  {
    var bits :- ReadBits(r, n);
    Ok(Parsed(UintValue(bits.value), bits.rest))
  }

  function ReadBit(r: CellReader): (res: Result<Parsed<bool>>)
    ensures res.Ok? <==> 1 <= BitsAvailable(r)
    ensures res.Err? ==> res.error == NotEnoughBits
    ensures res.Ok? ==> res.value.value == r.cell.bits[r.bitPos]
    ensures res.Ok? ==> res.value.rest == Reader(r.cell, r.bitPos + 1, r.refPos)
  {
    if BitsAvailable(r) == 0 then Err(NotEnoughBits)
    else Ok(Parsed(r.cell.bits[r.bitPos], Reader(r.cell, r.bitPos + 1, r.refPos)))
  }

  /** Takes the next unread reference; the referenced cell comes back unread. */
  function NextRef(r: CellReader): (res: Result<Parsed<Cell>>)
    ensures res.Ok? <==> 1 <= RefsAvailable(r)
    ensures res.Err? ==> res.error == NotEnoughRefs
    ensures res.Ok? ==> res.value.value == r.cell.refs[r.refPos]
    ensures res.Ok? ==> res.value.rest == Reader(r.cell, r.bitPos, r.refPos + 1)
  {
    if RefsAvailable(r) == 0 then Err(NotEnoughRefs)
    else Ok(Parsed(r.cell.refs[r.refPos], Reader(r.cell, r.bitPos, r.refPos + 1)))
  }

  function WriteUint(c: Cell, v: nat, width: nat): (r: Cell)
    requires v < Pow2(width)
    ensures r.bits == c.bits + UintBits(v, width) && r.refs == c.refs
  {
    Cell(c.bits + UintBits(v, width), c.refs)
  }

  function WriteBits(c: Cell, bs: seq<bool>): (r: Cell)
    ensures r.bits == c.bits + bs && r.refs == c.refs
  {
    Cell(c.bits + bs, c.refs)
  }

  function AddRef(c: Cell, child: Cell): (r: Cell)
    ensures r.bits == c.bits && r.refs == c.refs + [child]
  {
    Cell(c.bits, c.refs + [child])
  }

  /**
    A cell whose bits start with `prefix` followed by `field` has `field` at
    that offset and `prefix` before it.
   */
  lemma PrefixSplit(bits: seq<bool>, prefix: seq<bool>, field: seq<bool>)
    requires |prefix| + |field| <= |bits|
    requires bits[..|prefix| + |field|] == prefix + field
    ensures bits[..|prefix|] == prefix
    ensures bits[|prefix| .. |prefix| + |field|] == field
  {
  }

  /** Reading `width` bits where `v` was written gives `v` back. */
  lemma ReadUintWritten(r: CellReader, v: nat, width: nat)
    requires v < Pow2(width)
    requires width <= BitsAvailable(r)
    requires r.cell.bits[r.bitPos .. r.bitPos + width] == UintBits(v, width)
    ensures ReadUint(r, width) == Ok(Parsed(v, Reader(r.cell, r.bitPos + width, r.refPos)))
  {
    UintValueOfBits(v, width);
  }

  /** One outgoing payment: the message cell and its 8-bit send mode. */
  datatype RawMessage = RawMessage(message: Cell, mode: Byte)

  /**
    Parsing of the outer ledger message, which yields its body cell, or None
    when the message does not parse. The message schema is not part of this
    model, so the parser is a parameter.
   */
  type Envelope = Cell -> Option<Cell>
}
