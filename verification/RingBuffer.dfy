/** The ring as the original keeps it: items are heap objects shared between the
    slots and the oldest pointer, and every operation works in place. The ghost
    field `model` is the value of RingSpec that the object stands for. */
module RingBuffer {
  import opened Words
  import opened RingSpec

  class RingItem {
    var seqNum: u32
    var acknowledged: bool

    constructor (seqNum: u32)
      ensures this.seqNum == seqNum && !acknowledged
    {
      this.seqNum := seqNum;
      this.acknowledged := false;
    }

    method Reset()
      modifies this
      ensures seqNum == 0 && acknowledged
    {
      seqNum := 0;
      acknowledged := true;
    }
  }

  class RingBuffer {
    var seqNum: u32
    var oldestUnack: RingItem?
    const window: u16
    const slots: array<RingItem?>
    ghost var items: seq<RingItem>
    ghost var model: Ring

    ghost predicate PointsTo(p: RingItem?, ref: Ref)
      reads this`items
    {
      if p == null then ref == None else ref.Some? && ref.value < |items| && items[ref.value] == p
    }

    ghost predicate Valid()
      reads this, slots, items
    {
      && WellFormed(model)
      && model.seqNum == seqNum && model.window == window == slots.Length
      && |model.items| == |items|
      && (forall i, j :: 0 <= i < j < |items| ==> items[i] != items[j])
      && (forall i :: 0 <= i < |items| ==> model.items[i] == Item(items[i].seqNum, items[i].acknowledged))
      && (forall k :: 0 <= k < slots.Length ==> PointsTo(slots[k], model.slots[k]))
      && PointsTo(oldestUnack, model.oldest)
    }

    constructor (window: u16)
      requires window > 0
      ensures Valid() && fresh(slots) && items == []
      ensures model == InitRing(window)
    {
      this.window := window;
      slots := new RingItem?[window](_ => null);
      seqNum := 1;
      oldestUnack := null;
      items := [];
      model := InitRing(window);
    }

    method WindowFull() returns (full: bool)
      requires Valid()
      ensures full <==> RingSpec.WindowFull(model)
    {
      if oldestUnack == null {
        return false;
      }
      var diff := Sub32(seqNum, oldestUnack.seqNum);
      return diff % window == 0;
    }

    method NextSeqNum() returns (res: NextResult)
      requires Valid()
      modifies this`seqNum, this`model
      ensures Valid()
      ensures (model, res) == RingSpec.NextSeqNum(old(model))
    {
      var full := WindowFull();
      if full {
        return Full;
      }
      if seqNum == MAX_U32 {
        return Overflow;
      }
      res := Next(seqNum);
      model := RingSpec.NextSeqNum(model).0;
      if seqNum + 1 == MAX_U32 {
        seqNum := 1;
      } else {
        seqNum := seqNum + 1;
      }
    }

    method SetNextItem(n: u32)
      requires Valid()
      modifies this`oldestUnack, this`items, this`model, slots
      ensures Valid() && |items| == |old(items)| + 1
      ensures fresh(items[|old(items)|]) && items[..|old(items)|] == old(items)
      ensures model == RingSpec.SetNextItem(old(model), n)
    {
      var i := Sub32(n, 1) % window;
      var item := new RingItem(n);
      if oldestUnack == null {
        oldestUnack := item;
      }
      slots[i] := item;
      items := items + [item];
      model := RingSpec.SetNextItem(model, n);
    }

    /** The loop of updateAckSeqNum: range over the slots from j + 1, ending back
        at j, and stop at the first unacknowledged item. */
    method ScanFrom(j: nat) returns (k: Ref)
      requires Valid() && j < slots.Length
      ensures k == Scan(model, j, 1)
    {
      var i: nat := 1;
      while i <= window
        invariant 1 <= i <= window + 1
        invariant Scan(model, j, 1) == Scan(model, j, i)
      {
        var m := SlotAfter(j, i, window);
        var next := slots[m];
        if next != null && !next.acknowledged {
          return Some(m);
        }
        i := i + 1;
      }
      return None;
    }

    /** Resets an item that a slot points to, wherever else it is pointed to from. */
    method ResetSlot(j: nat)
      requires Valid() && j < slots.Length && slots[j] != null
      modifies this`model, slots[j]
      ensures Valid() && model.slots[j].Some?
      ensures model == ResetItem(old(model), model.slots[j].value)
    {
      slots[j].Reset();
      model := ResetItem(model, model.slots[j].value);
    }

    /** The drain argument is the one-line repair; KeepOldest is the code as written. */
    method UpdateAckSeqNum(n: u32, drain: Drain) returns (res: AckResult)
      requires Valid()
      modifies this`oldestUnack, this`model, items
      ensures Valid()
      ensures (model, res) == RingSpec.UpdateAck(old(model), n, drain)
    {
      var j: nat := Sub32(n, 1) % window;
      var item := slots[j];
      if item == null {
        return NoItem;
      } else if item.seqNum != n {
        if item.seqNum == 0 && item.acknowledged {
          return AlreadyAcked;
        }
        return Mismatch;
      }
      var isOldest := oldestUnack == null || oldestUnack == item;
      ResetSlot(j);
      if !isOldest {
        return NotOldest;
      }
      var k := ScanFrom(j);
      if k.Some? {
        oldestUnack := slots[k.value];
        model := model.(oldest := model.slots[k.value]);
        return Advanced(k.value);
      }
      if drain == ClearOldest {
        oldestUnack := null;
        model := model.(oldest := None);
      }
      return Drained;
    }
  }
}
