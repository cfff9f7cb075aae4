/** BufferW in place: entries are shared objects whose frames are cut in place. */
module WriteQueue {
  import opened Words
  import opened WriteQueueSpec

  class BufEntry {
    var frame: seq<byte>
    var rest: seq<byte>
    ghost const key: u32

    constructor (frame: seq<byte>, ghost key: u32)
      ensures View() == Entry(frame, []) && this.key == key
    {
      this.frame, this.rest, this.key := frame, [], key;
    }

    ghost function View(): Entry
      reads this
    {
      Entry(frame, rest)
    }
  }

  class BufferW {
    var entries: map<u32, BufEntry>
    var resend: seq<u32>
    var seqNums: seq<u32>
    var size: int
    const limit: nat
    ghost var model: Queue

    ghost predicate Holds(n: u32)
      requires n in entries && n in model.entries
      reads this, entries.Values
    {
      entries[n].key == n && model.entries[n] == entries[n].View()
    }

    ghost predicate Valid()
      reads this, entries.Values
    {
      && model.resend == resend && model.seqNums == seqNums && model.size == size && model.limit == limit
      && model.entries.Keys == entries.Keys
      && (forall n :: n in entries ==> Holds(n))
    }

    constructor (writeBufferSize: nat)
      ensures Valid() && model == Init(writeBufferSize) && entries == map[]
    {
      entries, resend, seqNums, size := map[], [], [], 0;
      limit := if writeBufferSize < 16 then 16 else writeBufferSize;
      model := Init(writeBufferSize);
    }

    method AddEntry(frame: seq<byte>, n: u32) returns (k: nat)
      requires Valid() && size <= limit
      modifies this
      ensures Valid()
      ensures (model, k) == WriteQueueSpec.AddEntry(old(model), frame, n)
    {
      k := |frame|;
      var space := limit - size;
      if k > space {
        k := space;
      }
      seqNums := seqNums + [n];
      var e := new BufEntry(frame[..k], n);
      entries := entries[n := e];
      size := size + k;
      model := WriteQueueSpec.AddEntry(model, frame, n).0;
    }

    /** nextEntry: the head of the resend list or of the ordered list. */
    method NextEntry(again: bool) returns (e: BufEntry?)
      requires Valid()
      ensures var ns := if again then resend else seqNums;
              (e == null <==> NoHead(model, ns)) && (e != null ==> ns[0] in entries && e == entries[ns[0]])
    {
      var ns := if again then resend else seqNums;
      if |ns| == 0 || ns[0] !in entries {
        return null;
      }
      return entries[ns[0]];
    }

    method OnFrameWrite(wn: nat) returns (ok: bool)
      requires Valid()
      modifies this, entries.Values
      ensures Valid()
      ensures model == WriteQueueSpec.OnFrameWrite(old(model), wn)
      ensures ok <==> !NoHead(old(model), old(seqNums))
    {
      var e := NextEntry(false);
      if e == null {
        return false;
      }
      ghost var was := model;
      if wn < |e.frame| {
        e.frame := e.frame[wn..];
      } else {
        seqNums := seqNums[1..];
      }
      size := size - wn;
      model := WriteQueueSpec.OnFrameWrite(was, wn);
      return true;
    }

    method OnFrameRewrite(wn: nat) returns (ok: bool)
      requires Valid()
      modifies this, entries.Values
      ensures Valid()
      ensures model == WriteQueueSpec.OnFrameRewrite(old(model), wn)
      ensures ok <==> !NoHead(old(model), old(resend))
    {
      var e := NextEntry(true);
      if e == null {
        return false;
      }
      ghost var was := model;
      if |e.rest| > 0 {
        if wn < |e.rest| {
          e.rest := e.rest[wn..];
        }
      } else if wn < |e.frame| {
        e.rest := e.frame[wn..];
      } else {
        resend := resend[1..];
      }
      model := WriteQueueSpec.OnFrameRewrite(was, wn);
      return true;
    }

    method Pop(n: u32)
      requires Valid()
      modifies this
      ensures Valid()
      ensures model == WriteQueueSpec.Pop(old(model), n)
    {
      entries := entries - {n};
      model := WriteQueueSpec.Pop(model, n);
    }
  }
}
