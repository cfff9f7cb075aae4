/** The rule by which the buffer handed to epoll_wait is resized: its length
    follows how full the last polls left it. */
module ResizeControl {

  const MIN_EVENTS: nat := 64
  const MAX_EVENTS: nat := 4096
  const DELTA: nat := 16

  /** Length, the two logged counts (older first), and calls since a resize. */
  datatype Control = Control(len: nat, older: nat, newer: nat, since: nat)

  const INIT: Control := Control(MIN_EVENTS, 0, 0, 0)

  predicate UpSizable(c: Control, n: nat) {
    n >= c.len && c.older >= c.len && c.newer >= c.len
  }

  predicate DownSizable(c: Control, n: nat) {
    n <= c.len - DELTA && c.older <= c.len - DELTA && c.newer <= c.len - DELTA
  }

  /** The call restarts the count of calls, whether or not the length moves. */
  predicate Takes(c: Control, n: nat) {
    c.since > 2 && (UpSizable(c, n) || DownSizable(c, n))
  }

  function Grown(len: nat): nat {
    if len + DELTA > MAX_EVENTS then MAX_EVENTS else len + DELTA
  }

  function Shrunk(len: nat): nat {
    if len < MIN_EVENTS + DELTA then MIN_EVENTS else len - DELTA
  }

  function Resize(c: Control, n: nat): Control {
    Control(if !Takes(c, n) then c.len else if UpSizable(c, n) then Grown(c.len) else Shrunk(c.len),
            c.newer, n, (if Takes(c, n) then 0 else c.since) + 1)
  }

  // ----- the controller over a run of polls -----

  /** The controller before poll i of a run that found ns[0], ns[1], ... events. */
  function Before(ns: seq<nat>, i: nat): Control
    requires i <= |ns|
  {
    if i == 0 then INIT else Resize(Before(ns, i - 1), ns[i - 1])
  }

  predicate TakenAt(ns: seq<nat>, i: nat)
    requires i < |ns|
  {
    Takes(Before(ns, i), ns[i])
  }

  lemma {:induction false} LengthBounded(ns: seq<nat>, i: nat)
    requires i <= |ns|
    ensures MIN_EVENTS <= Before(ns, i).len <= MAX_EVENTS
  {
    if i > 0 {
      LengthBounded(ns, i - 1);
    }
  }

  lemma SinceCounts(ns: seq<nat>, i: nat)
    requires i <= |ns|
    ensures Before(ns, i).since > 2 <==> i >= 3 && !TakenAt(ns, i - 1) && !TakenAt(ns, i - 2)
    ensures i >= 1 ==> Before(ns, i).newer == ns[i - 1] && Before(ns, i).since >= 1
    ensures i >= 2 ==> Before(ns, i).older == ns[i - 2]
  {
    if i >= 3 {
      assert Before(ns, i - 2) == Resize(Before(ns, i - 3), ns[i - 3]);
      assert Before(ns, i - 1) == Resize(Before(ns, i - 2), ns[i - 2]);
      assert Before(ns, i) == Resize(Before(ns, i - 1), ns[i - 1]);
    } else if i == 2 {
      assert Before(ns, 1) == Resize(INIT, ns[0]);
      assert Before(ns, 2) == Resize(Before(ns, 1), ns[1]);
    } else if i == 1 {
      assert Before(ns, 1) == Resize(INIT, ns[0]);
    }
  }

  /** The last three polls, all taken at the present length, were full (or left
      at least 16 places free). */
  predicate ThreeFull(ns: seq<nat>, i: nat)
    requires 3 <= i < |ns|
  {
    var len := Before(ns, i).len;
    ns[i] >= len && ns[i - 1] >= len && ns[i - 2] >= len
  }

  predicate ThreeSlack(ns: seq<nat>, i: nat)
    requires 3 <= i < |ns|
  {
    var len := Before(ns, i).len;
    ns[i] <= len - 16 && ns[i - 1] <= len - 16 && ns[i - 2] <= len - 16
  }

  /** A poll resizes exactly when neither of the two before it did and the last
      three were all full or all slack; and the two counts consulted from the log
      were then taken at the present length. */
  lemma ResizesExactly(ns: seq<nat>, i: nat)
    requires i < |ns|
    ensures TakenAt(ns, i) <==>
            i >= 3 && !TakenAt(ns, i - 1) && !TakenAt(ns, i - 2) && (ThreeFull(ns, i) || ThreeSlack(ns, i))
    ensures TakenAt(ns, i) ==> Before(ns, i - 1).len == Before(ns, i - 2).len == Before(ns, i).len
  {
    SinceCounts(ns, i);
    if i >= 3 {
      assert Before(ns, i - 1) == Resize(Before(ns, i - 2), ns[i - 2]);
      assert Before(ns, i) == Resize(Before(ns, i - 1), ns[i - 1]);
    }
  }

  /** Two resizes are at least three calls apart. */
  lemma ResizesSpaced(ns: seq<nat>, i: nat, k: nat)
    requires i < k < |ns| && TakenAt(ns, i) && TakenAt(ns, k)
    ensures k - i >= 3
  {
    ResizesExactly(ns, k);
  }

  /** The length after each poll, in numbers: 64 at first; after a resize upon three
      full polls 16 more, or 4096 if that were more; after one upon three slack polls
      16 less, or 64 if that were less; and otherwise what it was. */
  lemma LengthExactly(ns: seq<nat>, i: nat)
    requires i < |ns|
    ensures Before(ns, 0).len == 64
    ensures var len := Before(ns, i).len;
            Before(ns, i + 1).len ==
            if i >= 3 && TakenAt(ns, i) && ThreeFull(ns, i) then (if len + 16 > 4096 then 4096 else len + 16)
            else if i >= 3 && TakenAt(ns, i) && ThreeSlack(ns, i) then (if len - 16 < 64 then 64 else len - 16)
            else len
  {
    LengthBounded(ns, i);
    SinceCounts(ns, i);
    ResizesExactly(ns, i);
    assert Before(ns, i + 1) == Resize(Before(ns, i), ns[i]);
  }
}
