/** BufferW as a value: numbered entries, the order in which they are to be
    written, the resend list, and the count of queued bytes against a limit. */
module WriteQueueSpec {
  import opened Words

  /** What is left to write, and what is left to resend once a resend has begun. */
  datatype Entry = Entry(frame: seq<byte>, rest: seq<byte>)

  datatype Queue = Queue(entries: map<u32, Entry>, resend: seq<u32>, seqNums: seq<u32>, size: int, limit: nat)

  function Init(limit: nat): Queue {
    Queue(map[], [], [], 0, if limit < 16 then 16 else limit)
  }

  predicate Present(q: Queue, ns: seq<u32>) {
    forall i :: 0 <= i < |ns| ==> ns[i] in q.entries
  }

  function Concat(q: Queue, ns: seq<u32>): (b: seq<byte>)
    requires Present(q, ns)
  {
    if ns == [] then [] else q.entries[ns[0]].frame + Concat(q, ns[1..])
  }

  /** The bytes still queued, in the order they will be written. */
  function Queued(q: Queue): seq<byte>
    requires Present(q, q.seqNums)
  {
    Concat(q, q.seqNums)
  }

  predicate Distinct(ns: seq<u32>) {
    forall i, j :: 0 <= i < j < |ns| ==> ns[i] != ns[j]
  }

  predicate Inv(q: Queue) {
    && Present(q, q.seqNums) && Distinct(q.seqNums)
    && 0 <= q.size <= q.limit && q.size == |Queued(q)|
  }

  /** Takes as much of the frame as there is room for. */
  function AddEntry(q: Queue, frame: seq<byte>, n: u32): (res: (Queue, nat))
    requires q.size <= q.limit
    ensures res.1 <= |frame|
  {
    var k := if |frame| > q.limit - q.size then q.limit - q.size else |frame|;
    (q.(entries := q.entries[n := Entry(frame[..k], [])],
        seqNums := q.seqNums + [n], size := q.size + k), k)
  }

  /** The error of an empty list, or of a head that is not in the map. */
  predicate NoHead(q: Queue, ns: seq<u32>) {
    ns == [] || ns[0] !in q.entries
  }

  function OnFrameWrite(q: Queue, wn: nat): Queue {
    if NoHead(q, q.seqNums) then q
    else
      var n := q.seqNums[0];
      var e := q.entries[n];
      if wn < |e.frame|
      then q.(entries := q.entries[n := e.(frame := e.frame[wn..])], size := q.size - wn)
      else q.(seqNums := q.seqNums[1..], size := q.size - wn)
  }

  function OnFrameRewrite(q: Queue, wn: nat): Queue {
    if NoHead(q, q.resend) then q
    else
      var n := q.resend[0];
      var e := q.entries[n];
      if e.rest != [] then
        if wn < |e.rest| then q.(entries := q.entries[n := e.(rest := e.rest[wn..])]) else q
      else if wn < |e.frame| then q.(entries := q.entries[n := e.(rest := e.frame[wn..])])
      else q.(resend := q.resend[1..])
  }

  function Pop(q: Queue, n: u32): Queue {
    q.(entries := q.entries - {n})
  }

  // ----- runs -----

  datatype Event = Add(n: u32, frame: seq<byte>) | Wrote(wn: nat) | Resend(n: u32) | Resent(wn: nat) | Drop(n: u32)

  /** The queue together with all bytes accepted and all bytes written so far. */
  datatype History = History(q: Queue, accepted: seq<byte>, written: seq<byte>)

  /** Fresh numbers, write results no longer than the head frame, and entries
      dropped only when they are not queued. */
  predicate Proper(q: Queue, e: Event) {
    match e
    case Add(n, _) => n !in q.seqNums
    case Wrote(wn) => NoHead(q, q.seqNums) || wn <= |q.entries[q.seqNums[0]].frame|
    case Drop(n) => n !in q.seqNums
    case _ => true
  }

  function Step(h: History, e: Event): (h': History)
    requires h.q.size <= h.q.limit
  {
    match e
    case Add(n, frame) =>
      var (q, k) := AddEntry(h.q, frame, n);
      h.(q := q, accepted := h.accepted + frame[..k])
    case Wrote(wn) =>
      if NoHead(h.q, h.q.seqNums) then h
      else
        var f := h.q.entries[h.q.seqNums[0]].frame;
        h.(q := OnFrameWrite(h.q, wn), written := h.written + (if wn < |f| then f[..wn] else f))
    case Resend(n) => h.(q := h.q.(resend := h.q.resend + [n]))
    case Resent(wn) => h.(q := OnFrameRewrite(h.q, wn))
    case Drop(n) => h.(q := Pop(h.q, n))
  }

  /** Bytes accepted are the bytes written followed by the bytes still queued. */
  predicate Conserved(h: History) {
    Inv(h.q) && h.accepted == h.written + Queued(h.q)
  }

  lemma {:induction false} ConcatSame(q: Queue, q': Queue, ns: seq<u32>)
    requires Present(q, ns) && Present(q', ns)
    requires forall i :: 0 <= i < |ns| ==> q'.entries[ns[i]].frame == q.entries[ns[i]].frame
    ensures Concat(q', ns) == Concat(q, ns)
  {
    if ns != [] {
      ConcatSame(q, q', ns[1..]);
    }
  }

  lemma {:induction false} ConcatLast(q: Queue, ns: seq<u32>, n: u32)
    requires Present(q, ns) && n in q.entries
    ensures Present(q, ns + [n]) && Concat(q, ns + [n]) == Concat(q, ns) + q.entries[n].frame
  {
    if ns == [] {
      assert ns + [n] == [n] && [n][1..] == [];
    } else {
      assert (ns + [n])[1..] == ns[1..] + [n];
      ConcatLast(q, ns[1..], n);
    }
  }

  lemma AddConserves(h: History, n: u32, frame: seq<byte>)
    requires Conserved(h) && n !in h.q.seqNums
    ensures Conserved(Step(h, Add(n, frame)))
  {
    var q' := Step(h, Add(n, frame)).q;
    ConcatSame(h.q, q', h.q.seqNums);
    ConcatLast(q', h.q.seqNums, n);
  }

  lemma WriteConserves(h: History, wn: nat)
    requires Conserved(h) && Proper(h.q, Wrote(wn))
    ensures Conserved(Step(h, Wrote(wn)))
  {
    if NoHead(h.q, h.q.seqNums) { return; }
    var q, q' := h.q, Step(h, Wrote(wn)).q;
    var n, tail := q.seqNums[0], q.seqNums[1..];
    var f := q.entries[n].frame;
    assert Queued(q) == f + Concat(q, tail);
    ConcatSame(q, q', tail);
    if wn < |f| {
      assert Queued(q') == f[wn..] + Concat(q, tail);
      assert f == f[..wn] + f[wn..];
    }
  }

  lemma RewriteConserves(h: History, wn: nat)
    requires Conserved(h)
    ensures Conserved(Step(h, Resent(wn)))
  {
    ConcatSame(h.q, OnFrameRewrite(h.q, wn), h.q.seqNums);
  }

  lemma StepConserves(h: History, e: Event)
    requires Conserved(h) && Proper(h.q, e)
    ensures Conserved(Step(h, e))
  {
    match e
    case Add(n, frame) => AddConserves(h, n, frame);
    case Wrote(wn) => WriteConserves(h, wn);
    case Resend(n) => ConcatSame(h.q, Step(h, e).q, h.q.seqNums);
    case Resent(wn) => RewriteConserves(h, wn);
    case Drop(n) => ConcatSame(h.q, Pop(h.q, n), h.q.seqNums);
  }

  /** A run in which every event is proper when its turn comes. */
  ghost predicate ProperRun(h: History, es: seq<Event>)
    decreases |es|
  {
    es == [] || (h.q.size <= h.q.limit && Proper(h.q, es[0]) && ProperRun(Step(h, es[0]), es[1..]))
  }

  function Run(h: History, es: seq<Event>): History
    requires ProperRun(h, es)
    decreases |es|
  {
    if es == [] then h else Run(Step(h, es[0]), es[1..])
  }

  /** Stream conservation: over every proper run the bytes accepted are the bytes
      written followed by what is queued, in order, and the size counter is the
      queued total and never leaves 0..limit. */
  lemma {:induction false} StreamConserved(h: History, es: seq<Event>)
    requires Conserved(h) && ProperRun(h, es)
    ensures Conserved(Run(h, es))
    decreases |es|
  {
    if es != [] {
      StepConserves(h, es[0]);
      StreamConserved(Step(h, es[0]), es[1..]);
    }
  }

  lemma InitConserved(limit: nat)
    ensures Conserved(History(Init(limit), [], []))
  {
  }

  /** The size counter stays the queued total exactly when the result reported is
      no longer than the head frame. */
  lemma CounterExactly(q: Queue, wn: nat)
    requires Inv(q) && q.seqNums != []
    ensures OnFrameWrite(q, wn).size == |Queued(OnFrameWrite(q, wn))| <==> wn <= |q.entries[q.seqNums[0]].frame|
  {
    var q' := OnFrameWrite(q, wn);
    var f := q.entries[q.seqNums[0]].frame;
    assert Queued(q) == f + Concat(q, q.seqNums[1..]);
    ConcatSame(q, q', q.seqNums[1..]);
  }

  // ----- resending -----

  /** The head of the resend list leaves it exactly when one resend completes it
      outright, never having been partial. */
  lemma ResendLeavesExactly(q: Queue, wn: nat)
    requires !NoHead(q, q.resend)
    ensures OnFrameRewrite(q, wn).resend != q.resend <==>
            q.entries[q.resend[0]].rest == [] && wn >= |q.entries[q.resend[0]].frame|
  {
    assert |q.resend[1..]| < |q.resend|;
  }

  function Resends(q: Queue, wns: seq<nat>): Queue
    decreases |wns|
  {
    if wns == [] then q else Resends(OnFrameRewrite(q, wns[0]), wns[1..])
  }

  /** So after one partial resend no sequence of results, complete ones included,
      ever takes the number off the list. */
  lemma {:induction false} PartialResendSticks(q: Queue, first: nat, wns: seq<nat>)
    requires !NoHead(q, q.resend)
    requires q.entries[q.resend[0]].rest != [] || first < |q.entries[q.resend[0]].frame|
    ensures Resends(OnFrameRewrite(q, first), wns).resend == q.resend
    decreases |wns|
  {
    var q' := OnFrameRewrite(q, first);
    assert q'.resend == q.resend && q'.entries[q'.resend[0]].rest != [];
    if wns != [] {
      PartialResendSticks(q', wns[0], wns[1..]);
    }
  }

  lemma {:induction false} ResendsShrink(q: Queue, wns: seq<nat>)
    ensures |Resends(q, wns).resend| <= |q.resend|
    decreases |wns|
  {
    if wns != [] {
      ResendsShrink(OnFrameRewrite(q, wns[0]), wns[1..]);
    }
  }

  /** Over any results of resends the head leaves the list if and only if it had not
      been resent in part before and the first of them completes it. */
  lemma ResendRunExactly(q: Queue, wns: seq<nat>)
    requires !NoHead(q, q.resend) && wns != []
    ensures Resends(q, wns).resend != q.resend <==>
            q.entries[q.resend[0]].rest == [] && wns[0] >= |q.entries[q.resend[0]].frame|
  {
    ResendLeavesExactly(q, wns[0]);
    if q.entries[q.resend[0]].rest == [] && wns[0] >= |q.entries[q.resend[0]].frame| {
      ResendsShrink(OnFrameRewrite(q, wns[0]), wns[1..]);
    } else {
      PartialResendSticks(q, wns[0], wns[1..]);
    }
  }

  /** How much of a first frame a new queue accepts: all of it, up to the limit it
      was opened with and never less than 16 bytes' worth. */
  lemma FirstAcceptsExactly(limit: nat, frame: seq<byte>, n: u32)
    ensures var room := if limit < 16 then 16 else limit;
            AddEntry(Init(limit), frame, n).1 == if |frame| <= room then |frame| else room
  {
  }

  /** How much of a frame is accepted: as much as there is room for beside what is
      queued, no less; so that a frame is cut exactly when it would pass the limit,
      and the queue is then full. */
  lemma AcceptsExactly(q: Queue, frame: seq<byte>, n: u32)
    requires Inv(q) && n !in q.seqNums
    ensures var (q', k) := AddEntry(q, frame, n);
            && (k < |frame| <==> |Queued(q)| + |frame| > q.limit)
            && (k < |frame| ==> q'.size == q.limit)
            && q'.entries == q.entries[n := Entry(frame[..k], [])] && q'.seqNums == q.seqNums + [n]
            && q'.size == |Queued(q)| + k && q'.limit == q.limit && q'.resend == q.resend
  {
  }

  function Sum(wns: seq<nat>): nat {
    if wns == [] then 0 else wns[0] + Sum(wns[1..])
  }

  /** While a resend is partial, what is left of it is the frame without the bytes
      resent so far. */
  lemma {:induction false} RestExactly(q: Queue, first: nat, wns: seq<nat>)
    requires !NoHead(q, q.resend)
    requires q.entries[q.resend[0]].rest == [] && first + Sum(wns) < |q.entries[q.resend[0]].frame|
    ensures var q' := Resends(OnFrameRewrite(q, first), wns);
            && q'.resend == q.resend && q'.resend[0] in q'.entries
            && q'.entries[q'.resend[0]].rest == q.entries[q.resend[0]].frame[first + Sum(wns)..]
  {
    var f := q.entries[q.resend[0]].frame;
    var q1 := OnFrameRewrite(q, first);
    assert q1.entries[q.resend[0]].rest == f[first..];
    RestCut(q1, f, first, wns);
  }

  lemma {:induction false} RestCut(q: Queue, f: seq<byte>, done: nat, wns: seq<nat>)
    requires !NoHead(q, q.resend) && done + Sum(wns) < |f| && q.entries[q.resend[0]].rest == f[done..]
    ensures var q' := Resends(q, wns);
            && q'.resend == q.resend && q'.resend[0] in q'.entries
            && q'.entries[q'.resend[0]].rest == f[done + Sum(wns)..]
    decreases |wns|
  {
    if wns != [] {
      var q1 := OnFrameRewrite(q, wns[0]);
      assert f[done..][wns[0]..] == f[done + wns[0]..];
      RestCut(q1, f, done + wns[0], wns[1..]);
    }
  }

  /** Dropping an entry that is next to be written stops the queue: from then on a
      write's result changes nothing. */
  lemma PoppedStalls(q: Queue, n: u32, wn: nat)
    requires q.seqNums != [] && q.seqNums[0] == n
    ensures Pop(q, n).seqNums == q.seqNums && OnFrameWrite(Pop(q, n), wn) == Pop(q, n)
    ensures forall k :: k in Pop(q, n).entries <==> k in q.entries && k != n
  {
  }

  /** The head leaves the order of writing if and only if the result covers what was
      left of it; otherwise exactly the bytes written are cut from its front. Nothing
      else in the queue changes but the count. */
  lemma HeadLeavesExactly(q: Queue, wn: nat)
    requires !NoHead(q, q.seqNums)
    ensures var q', n := OnFrameWrite(q, wn), q.seqNums[0];
            var f := q.entries[n].frame;
            && (q'.seqNums != q.seqNums <==> wn >= |f|)
            && (wn >= |f| ==> q'.seqNums == q.seqNums[1..] && q'.entries == q.entries)
            && (wn < |f| ==> q'.entries == q.entries[n := Entry(f[wn..], q.entries[n].rest)])
            && q'.resend == q.resend && q'.limit == q.limit
  {
    assert |q.seqNums[1..]| < |q.seqNums|;
  }
}
