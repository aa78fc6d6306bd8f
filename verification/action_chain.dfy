/**
  The action list of wallet v5 messages: a chain of cells. A node with exactly
  40 unread bits holds one send-message action (a 32-bit tag and an 8-bit mode)
  with the next node as its first reference and the action's message as its
  second; a node with no unread bits ends the chain.
 */
module ActionChain {
  import opened Bits
  import opened Cells

  /** The tag every send-message action starts with. */
  const ActionMagic: nat := 0x0ec3c86d

  /** The unread bits of a node that holds one action. */
  const ActionBits: nat := 40

  datatype SendMessageAction = SendMessageAction(mode: Byte, msg: Cell)

  /** Reads one action: the tag, which must match, the mode, and the message reference. */
  function DecodeAction(r: CellReader): (res: Result<Parsed<SendMessageAction>>)
    ensures res.Ok? <==>
              && 40 <= BitsAvailable(r) && 1 <= RefsAvailable(r)
              && UintValue(r.cell.bits[r.bitPos .. r.bitPos + 32]) == ActionMagic
    ensures res.Ok? ==>
              && res.value.value.mode == UintValue(r.cell.bits[r.bitPos + 32 .. r.bitPos + 40])
              && res.value.value.msg == r.cell.refs[r.refPos]
              && res.value.rest == Reader(r.cell, r.bitPos + 40, r.refPos + 1)
  {
    Pow2Byte();
    Pow2Word();
    var magic :- ReadUint(r, 32);
    if magic.value != ActionMagic then Err(BadActionMagic(magic.value))
    else
      var mode :- ReadUint(magic.rest, 8);
      var msg :- NextRef(mode.rest);
      Ok(Parsed(SendMessageAction(mode.value as Byte, msg.value), msg.rest))
  }

  /**
    SendMessageList.UnmarshalTLB: follows the chain from the node under the
    cursor. Every reference is strictly smaller than the cell holding it, so
    the chase ends.
   */
  function DecodeChain(r: CellReader): (res: Result<seq<SendMessageAction>>)
    ensures BitsAvailable(r) == 0 ==> res == Ok([])
    ensures BitsAvailable(r) != 0 && BitsAvailable(r) != ActionBits ==>
              res == Err(UnexpectedBitsAvailable(BitsAvailable(r)))
    ensures res.Ok? && BitsAvailable(r) == ActionBits ==> |res.value| >= 1
    decreases r.cell
  {
    var avail := BitsAvailable(r);
    if avail == 0 then Ok([])
    else if avail == ActionBits then
      var next :- NextRef(r);
      var action :- DecodeAction(next.rest);
      assert next.value in r.cell.refs;
      var tail :- DecodeChain(Open(next.value));
      Ok([action.value] + tail)
    else Err(UnexpectedBitsAvailable(avail))
  }

  /**
    One action's node under the cursor: exactly 40 unread bits holding the tag
    and the mode, and at least two unread references, the second being the
    action's message.
   */
  ghost predicate ActionNode(r: CellReader, action: SendMessageAction)
  {
    && BitsAvailable(r) == ActionBits
    && RefsAvailable(r) >= 2
    && UintValue(r.cell.bits[r.bitPos .. r.bitPos + 32]) == ActionMagic
    && UintValue(r.cell.bits[r.bitPos + 32 .. r.bitPos + 40]) == action.mode
    && r.cell.refs[r.refPos + 1] == action.msg
  }

  /**
    A chain that holds `actions`, described node by node: each action's node,
    with the next node as its first unread reference; then a node with no
    unread bits.
   */
  ghost predicate IsChain(r: CellReader, actions: seq<SendMessageAction>)
    decreases |actions|
  {
    if actions == [] then BitsAvailable(r) == 0
    else
      && ActionNode(r, actions[0])
      && IsChain(Open(r.cell.refs[r.refPos]), actions[1..])
  }

  /** An action node's action is what DecodeAction reads once the next-node reference is taken. */
  lemma ActionNodeDecodes(r: CellReader, action: SendMessageAction)
    requires ActionNode(r, action)
    ensures DecodeAction(Reader(r.cell, r.bitPos, r.refPos + 1))
              == Ok(Parsed(action, Reader(r.cell, r.bitPos + 40, r.refPos + 2)))
  {
  }

  /** A 40-bit node whose action decodes is that action's node. */
  lemma DecodedActionNode(r: CellReader)
    requires BitsAvailable(r) == ActionBits && 1 <= RefsAvailable(r)
    requires DecodeAction(Reader(r.cell, r.bitPos, r.refPos + 1)).Ok?
    ensures ActionNode(r, DecodeAction(Reader(r.cell, r.bitPos, r.refPos + 1)).value.value)
  {
  }

  /** Whatever the decoder accepts is a chain of the actions it returns. */
  lemma {:induction false} DecodeChainSound(r: CellReader)
    requires DecodeChain(r).Ok?
    ensures IsChain(r, DecodeChain(r).value)
    decreases r.cell
  {
    if BitsAvailable(r) == ActionBits {
      var next := r.cell.refs[r.refPos];
      assert next in r.cell.refs;
      DecodedActionNode(r);
      var all := DecodeChain(r).value;
      assert all[1..] == DecodeChain(Open(next)).value;
      DecodeChainSound(Open(next));
    }
  }

  /** One node of a chain: its action, then whatever the rest of the chain decodes to. */
  lemma DecodeChainStep(r: CellReader, action: SendMessageAction, tail: seq<SendMessageAction>)
    requires BitsAvailable(r) == ActionBits && 1 <= RefsAvailable(r)
    requires DecodeAction(Reader(r.cell, r.bitPos, r.refPos + 1)).Ok?
    requires DecodeAction(Reader(r.cell, r.bitPos, r.refPos + 1)).value.value == action
    requires DecodeChain(Open(r.cell.refs[r.refPos])) == Ok(tail)
    ensures DecodeChain(r) == Ok([action] + tail)
  {
    assert NextRef(r) == Ok(Parsed(r.cell.refs[r.refPos], Reader(r.cell, r.bitPos, r.refPos + 1)));
  }

  /** Every chain decodes, to exactly its actions in chain order. */
  lemma {:induction false} DecodeChainComplete(r: CellReader, actions: seq<SendMessageAction>)
    requires IsChain(r, actions)
    ensures DecodeChain(r) == Ok(actions)
    decreases |actions|
  {
    if actions != [] {
      var next := r.cell.refs[r.refPos];
      assert next in r.cell.refs;
      DecodeChainComplete(Open(next), actions[1..]);
      ActionNodeDecodes(r, actions[0]);
      DecodeChainStep(r, actions[0], actions[1..]);
      assert actions == [actions[0]] + actions[1..];
    }
  }

  /** The 40 bits of an action node: the tag, then the mode. */
  function NodeBits(tag: nat, mode: Byte): (bs: seq<bool>)
    requires tag < Pow2(32)
    ensures |bs| == 40
    ensures UintValue(bs[..32]) == tag && UintValue(bs[32..]) == mode
  {
    Pow2Byte();
    var bs := UintBits(tag, 32) + UintBits(mode, 8);
    assert bs[..32] == UintBits(tag, 32) && bs[32..] == UintBits(mode, 8);
    UintValueOfBits(tag, 32);
    UintValueOfBits(mode, 8);
    bs
  }

  /** The canonical chain for a list of actions. */
  function ChainOf(actions: seq<SendMessageAction>): (c: Cell)
    decreases |actions|
  {
    Pow2Word();
    if actions == [] then Empty
    else Cell(NodeBits(ActionMagic, actions[0].mode), [ChainOf(actions[1..]), actions[0].msg])
  }

  /** The canonical chain is a chain of its actions. */
  lemma {:induction false} ChainOfIsChain(actions: seq<SendMessageAction>)
    ensures IsChain(Open(ChainOf(actions)), actions)
    decreases |actions|
  {
    if actions != [] {
      var c := ChainOf(actions);
      assert c.bits[0..32] == c.bits[..32] && c.bits[32..40] == c.bits[32..];
      ChainOfIsChain(actions[1..]);
    }
  }

  /** The canonical chain decodes back to its actions, in order. */
  lemma ChainOfDecodes(actions: seq<SendMessageAction>)
    ensures DecodeChain(Open(ChainOf(actions))) == Ok(actions)
  {
    ChainOfIsChain(actions);
    DecodeChainComplete(Open(ChainOf(actions)), actions);
  }
}
