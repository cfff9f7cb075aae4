/** Values of the sender's ring: a heap of items in order of creation, slots and
    the "oldest unacknowledged" pointer that refer into it, and the number
    generator. Pointer identity in the original is index identity here. */
module RingSpec {
  import opened Words

  const MAX_U32: u32 := 0xFFFF_FFFF
  /** The last number the generator hands out before it starts again at 1. */
  const LAST: u32 := 0xFFFF_FFFE

  datatype Item = Item(seqNum: u32, acked: bool)

  type Ref = Option<nat>

  datatype Ring = Ring(seqNum: u32, window: u16, items: seq<Item>, slots: seq<Ref>, oldest: Ref)

  /** What acknowledging the last live item does to the oldest pointer: as
      written it stays on the item just reset; the unused helper updateUnAck
      shows what was meant. */
  datatype Drain = KeepOldest | ClearOldest

  datatype NextResult = Full | Overflow | Next(seqNum: u32)

  datatype AckResult = NoItem | AlreadyAcked | Mismatch | NotOldest | Advanced(slot: nat) | Drained

  ghost predicate RefOk(n: nat, ref: Ref) {
    ref.Some? ==> ref.value < n
  }

  ghost predicate WellFormed(r: Ring) {
    && 0 < r.window == |r.slots|
    && RefOk(|r.items|, r.oldest)
    && forall k :: 0 <= k < |r.slots| ==> RefOk(|r.items|, r.slots[k])
  }

  function InitRing(window: u16): (r: Ring)
    requires window > 0
    ensures WellFormed(r)
  {
    Ring(1, window, [], seq(window, _ => None), None)
  }

  function Modulus(r: Ring, seqNum: u32): (k: nat)
    requires WellFormed(r)
    ensures k < |r.slots|
  {
    Sub32(seqNum, 1) % r.window
  }

  predicate WindowFull(r: Ring)
    requires WellFormed(r)
  {
    r.oldest.Some? && Sub32(r.seqNum, r.items[r.oldest.value].seqNum) % r.window == 0
  }

  function Succ(n: u32): (m: u32)
    requires n < MAX_U32
  {
    if n + 1 == MAX_U32 then 1 else n + 1
  }

  function NextSeqNum(r: Ring): (res: (Ring, NextResult))
    requires WellFormed(r)
    ensures WellFormed(res.0)
  {
    if WindowFull(r) then (r, Full)
    else if r.seqNum == MAX_U32 then (r, Overflow)
    else (r.(seqNum := Succ(r.seqNum)), Next(r.seqNum))
  }

  function SetNextItem(r: Ring, seqNum: u32): (r': Ring)
    requires WellFormed(r)
    ensures WellFormed(r')
  {
    var item := Some(|r.items|);
    r.(items := r.items + [Item(seqNum, false)],
       slots := r.slots[Modulus(r, seqNum) := item],
       oldest := if r.oldest.None? then item else r.oldest)
  }

  predicate LiveSlot(r: Ring, k: nat)
    requires WellFormed(r) && k < |r.slots|
  {
    r.slots[k].Some? && !r.items[r.slots[k].value].acked
  }

  function ItemAt(r: Ring, k: nat): Item
    requires WellFormed(r) && k < |r.slots| && r.slots[k].Some?
  {
    r.items[r.slots[k].value]
  }

  /** The slot m places after j, wrapping around. */
  function SlotAfter(j: nat, m: nat, w: nat): (k: nat)
    requires w > 0
    ensures k < w
  {
    (j + m) % w
  }

  /** The wrap-around scan from slot j + i back to slot j. */
  function Scan(r: Ring, j: nat, i: nat): (k: Ref)
    requires WellFormed(r) && j < |r.slots|
    ensures k.Some? ==> k.value < |r.slots| && LiveSlot(r, k.value)
    decreases r.window + 1 - i
  {
    if i > r.window then None
    else if LiveSlot(r, SlotAfter(j, i, r.window)) then Some(SlotAfter(j, i, r.window))
    else Scan(r, j, i + 1)
  }

  function ResetItem(r: Ring, i: nat): (r': Ring)
    requires WellFormed(r) && i < |r.items|
    ensures WellFormed(r')
  {
    r.(items := r.items[i := Item(0, true)])
  }

  function UpdateAck(r: Ring, seqNum: u32, drain: Drain): (res: (Ring, AckResult))
    requires WellFormed(r)
    ensures WellFormed(res.0)
  {
    var j := Modulus(r, seqNum);
    if r.slots[j].None? then (r, NoItem)
    else
      var item := ItemAt(r, j);
      if item.seqNum != seqNum then
        (r, if item.seqNum == 0 && item.acked then AlreadyAcked else Mismatch)
      else
        var r1 := ResetItem(r, r.slots[j].value);
        if r.oldest.Some? && r.oldest != r.slots[j] then (r1, NotOldest)
        else
          match Scan(r1, j, 1)
          case Some(k) => (r1.(oldest := r1.slots[k]), Advanced(k))
          case None => (if drain.ClearOldest? then r1.(oldest := None) else r1, Drained)
  }
}
