/** What the dispatcher owes its waiters: none is forgotten, each is answered
    within a bounded number of handled events, readiness is conserved, and a
    timeout that finds no waiter is remembered. */
module PollerProgress {
  import opened Words
  import opened PollerSpec
  import PollerSafety

  // ----- no forgotten waiter -----

  predicate SomeWaiter(fd: Fd) {
    fd.r.ch.Some? || fd.w.ch.Some?
  }

  /** A waiter's interest is armed in the kernel, or an event is still to come. */
  predicate NotForgotten(s: Sys) {
    SomeWaiter(s.fd) ==> s.fd.mask != NO_BITS || s.queue != []
  }

  predicate NoErrorBits(e: Event) {
    e.Deliver? ==> !e.bits.er
  }

  predicate Healthy(es: seq<Event>) {
    forall i :: 0 <= i < |es| ==> CtlSucceeds(es[i]) && NoErrorBits(es[i])
  }

  /** Handling an event keeps every waiter covered, exactly unless it carries an
      error bit and it was the last thing that covered some waiter. */
  lemma HandleExactly(s: Sys, test: DeadlineTest)
    requires NotForgotten(s) && s.queue != []
    ensures NotForgotten(Step(s, Handle(true), test)) <==>
            !(s.queue[0].er && SomeWaiter(s.fd) && s.fd.mask == NO_BITS && |s.queue| == 1)
  {
  }

  predicate CleanQueue(s: Sys) {
    forall i :: 0 <= i < |s.queue| ==> !s.queue[i].er
  }

  lemma StepCovers(s: Sys, e: Event, test: DeadlineTest)
    requires NotForgotten(s) && CleanQueue(s) && CtlSucceeds(e) && NoErrorBits(e)
    ensures NotForgotten(Step(s, e, test)) && CleanQueue(Step(s, e, test))
  {
    if e.Handle? && s.queue != [] {
      HandleExactly(s, test);
    }
  }

  lemma {:induction false} RunCovers(s: Sys, es: seq<Event>, test: DeadlineTest)
    requires NotForgotten(s) && CleanQueue(s) && Healthy(es)
    ensures NotForgotten(Run(s, es, test)) && CleanQueue(Run(s, es, test))
    decreases |es|
  {
    if es != [] {
      StepCovers(s, es[0], test);
      RunCovers(Step(s, es[0], test), es[1..], test);
    }
  }

  /** In every run without error events and with EpollCtl succeeding no waiter of
      either direction is forgotten, though each rearm overwrites the mask. */
  lemma NoneForgotten(es: seq<Event>, test: DeadlineTest)
    requires Healthy(es)
    ensures NotForgotten(Run(Init(), es, test))
  {
    RunCovers(Init(), es, test);
  }

  /** An error event breaks it: the handler returns without answering or rearming. */
  lemma ErrorForgets(test: DeadlineTest)
    ensures !NotForgotten(Run(Init(), [Request(R, true), Deliver(Bits(false, false, true)), Handle(true)], test))
  {
    PollerSafety.RunThree(Init(), Request(R, true), Deliver(Bits(false, false, true)), Handle(true), test);
  }

  // ----- bounded wake-up -----

  function Bit(bits: Bits, dir: Dir): bool {
    if dir == R then bits.rd else bits.wr
  }

  /** The first event in the queue that carries dir's bit, counted from 1, or one
      more than the queue's length. */
  function FirstWith(q: seq<Bits>, dir: Dir): (k: nat)
    ensures 1 <= k <= |q| + 1
    ensures k <= |q| ==> Bit(q[k - 1], dir)
  {
    if q == [] || Bit(q[0], dir) then 1 else 1 + FirstWith(q[1..], dir)
  }

  lemma {:induction false} FirstWithAppend(q: seq<Bits>, bits: Bits, dir: Dir)
    ensures FirstWith(q + [bits], dir) ==
            if FirstWith(q, dir) <= |q| || Bit(bits, dir) then FirstWith(q, dir) else FirstWith(q, dir) + 1
  {
    if q == [] {
      assert q + [bits] == [bits] && [bits][1..] == [];
    } else {
      assert (q + [bits])[1..] == q[1..] + [bits];
      FirstWithAppend(q[1..], bits, dir);
    }
  }

  /** How many more events must be handled before dir's waiter is answered: up to
      the first queued event for it; failing that, the whole queue and the event
      that its own rearm asks for, and one more if the armed mask may first bring
      the other direction's event. */
  function Remaining(s: Sys, dir: Dir): (k: nat)
    ensures k <= |s.queue| + 2
  {
    if FirstWith(s.queue, dir) <= |s.queue| || s.fd.mask == NO_BITS || s.fd.mask == Only(dir)
    then FirstWith(s.queue, dir)
    else |s.queue| + 2
  }

  predicate Waits(s: Sys, dir: Dir, req: nat) {
    RaceOf(s.fd, dir).ch == Some(req)
  }

  /** Only deliveries and handling, every event non-empty and without error. */
  predicate Quiet(e: Event) {
    e == Handle(true) || (e.Deliver? && !e.bits.er)
  }

  predicate PlainQueue(s: Sys) {
    && !s.fd.mask.er
    && forall i :: 0 <= i < |s.queue| ==> !s.queue[i].er && (s.queue[i].rd || s.queue[i].wr)
  }

  function HandleCount(s: Sys, es: seq<Event>, test: DeadlineTest): nat
    decreases |es|
  {
    if es == [] then 0
    else (if es[0].Handle? && s.queue != [] then 1 else 0) + HandleCount(Step(s, es[0], test), es[1..], test)
  }

  predicate AnsweredReady(s: Sys, dir: Dir, req: nat) {
    Answer(req, dir, None, Readiness) in s.answers
  }

  lemma DeliverKeepsBound(s: Sys, bits: Bits, dir: Dir, req: nat, test: DeadlineTest)
    requires Waits(s, dir, req) && PlainQueue(s) && !bits.er
    ensures var s' := Step(s, Deliver(bits), test);
            Waits(s', dir, req) && PlainQueue(s') && Remaining(s', dir) <= Remaining(s, dir)
  {
    if Deliverable(s, bits) {
      FirstWithAppend(s.queue, bits, dir);
    }
  }

  lemma HandleAnswersOrAdvances(s: Sys, dir: Dir, req: nat, test: DeadlineTest)
    requires Waits(s, dir, req) && PlainQueue(s) && s.queue != []
    ensures var s' := Step(s, Handle(true), test);
            && PlainQueue(s')
            && if Bit(s.queue[0], dir) then AnsweredReady(s', dir, req)
               else Waits(s', dir, req) && Remaining(s', dir) < Remaining(s, dir)
  {
  }

  lemma AnswersStay(s: Sys, e: Event, test: DeadlineTest)
    ensures |s.answers| <= |Step(s, e, test).answers| && Step(s, e, test).answers[..|s.answers|] == s.answers
  {
  }

  lemma {:induction false} AnsweredStays(s: Sys, es: seq<Event>, test: DeadlineTest, a: Answer)
    requires a in s.answers
    ensures a in Run(s, es, test).answers
    decreases |es|
  {
    if es != [] {
      AnswersStay(s, es[0], test);
      AnsweredStays(Step(s, es[0], test), es[1..], test, a);
    }
  }

  /** Bounded wake-up: with k events in flight and no new requests, timeouts or
      errors, any waiter is answered ready once k + 2 more events are handled. */
  lemma {:induction false} WokenWithin(s: Sys, es: seq<Event>, dir: Dir, req: nat, test: DeadlineTest)
    requires Waits(s, dir, req) && PlainQueue(s)
    requires forall i :: 0 <= i < |es| ==> Quiet(es[i])
    requires HandleCount(s, es, test) >= Remaining(s, dir)
    ensures AnsweredReady(Run(s, es, test), dir, req)
    decreases |es|
  {
    if es == [] {
      assert false;
    }
    var s' := Step(s, es[0], test);
    assert Quiet(es[0]);
    if es[0].Deliver? {
      DeliverKeepsBound(s, es[0].bits, dir, req, test);
    } else if s.queue != [] {
      HandleAnswersOrAdvances(s, dir, req, test);
      if Bit(s.queue[0], dir) {
        AnsweredStays(s', es[1..], test, Answer(req, dir, None, Readiness));
        return;
      }
    }
    WokenWithin(s', es[1..], dir, req, test);
  }

  lemma AnyWaiterWoken(s: Sys, es: seq<Event>, dir: Dir, req: nat, test: DeadlineTest)
    requires Waits(s, dir, req) && PlainQueue(s)
    requires forall i :: 0 <= i < |es| ==> Quiet(es[i])
    requires HandleCount(s, es, test) >= |s.queue| + 2
    ensures AnsweredReady(Run(s, es, test), dir, req)
  {
    WokenWithin(s, es, dir, req, test);
  }

  /** And there is always such an event to handle or to deliver. */
  lemma NeverStuck(s: Sys, dir: Dir, req: nat)
    requires Waits(s, dir, req) && NotForgotten(s) && PlainQueue(s)
    ensures s.queue != [] || Deliverable(s, s.fd.mask)
  {
  }

  // ----- readiness conservation -----

  /** What of the answers is counted: those that readiness or the token paid for,
      those that a cancellation sent to a waiter, and all that tell a readiness
      request nil, which is all its waiter sees. */
  datatype Kind = Paid | ByCancel | ToldReady

  predicate Counts(a: Answer, dir: Dir, kind: Kind) {
    a.dir == dir &&
    match kind
    case Paid => a.cause == Token || a.cause == Readiness
    case ByCancel => a.cause == Cancelled
    case ToldReady => a.err == None && a.cause != Direct
  }

  function CountAnswers(answers: seq<Answer>, dir: Dir, kind: Kind): nat {
    if answers == [] then 0
    else (if Counts(answers[0], dir, kind) then 1 else 0) + CountAnswers(answers[1..], dir, kind)
  }

  function CountBits(handled: seq<Bits>, dir: Dir): nat {
    if handled == [] then 0
    else CountBits(handled[..|handled| - 1], dir) + (if Bit(handled[|handled| - 1], dir) then 1 else 0)
  }

  lemma {:induction false} CountAppend(answers: seq<Answer>, sent: seq<Answer>, dir: Dir, kind: Kind)
    ensures CountAnswers(answers + sent, dir, kind)
            == CountAnswers(answers, dir, kind) + CountAnswers(sent, dir, kind)
  {
    if answers == [] {
      assert answers + sent == sent;
    } else {
      assert (answers + sent)[1..] == answers[1..] + sent;
      CountAppend(answers[1..], sent, dir, kind);
    }
  }

  lemma {:induction false} CountNone(sent: seq<Answer>, dir: Dir, kind: Kind)
    requires forall i :: 0 <= i < |sent| ==> !Counts(sent[i], dir, kind)
    ensures CountAnswers(sent, dir, kind) == 0
  {
    if sent != [] {
      CountNone(sent[1..], dir, kind);
    }
  }

  function TokenOf(fd: Fd, dir: Dir): nat {
    if RaceOf(fd, dir).ready then 1 else 0
  }

  predicate Conserved(s: Sys, dir: Dir) {
    CountAnswers(s.answers, dir, Paid) + TokenOf(s.fd, dir) <= CountBits(s.handled, dir)
  }

  lemma TakePays(fd: Fd, d: Dir, dir: Dir)
    ensures var (fd', sent) := TakeReady(fd, d);
            CountAnswers(sent, dir, Paid) + TokenOf(fd', dir) <= TokenOf(fd, dir) + (if d == dir then 1 else 0)
  {
    var (fd', sent) := TakeReady(fd, d);
    assert |sent| == 1 ==> sent[1..] == [];
  }

  /** A handled event pays for at most one answer or token in each direction
      whose bit it carries. */
  lemma HandlePays(fd: Fd, bits: Bits, ctlOk: bool, dir: Dir)
    ensures var (fd', sent) := HandleIoReady(fd, bits, ctlOk);
            CountAnswers(sent, dir, Paid) + TokenOf(fd', dir)
            <= TokenOf(fd, dir) + (if Bit(bits, dir) then 1 else 0)
  {
    if bits.er { return; }
    TakePays(fd, R, dir);
    var (fd1, sent1, rearmed) := ReadHalf(fd, bits, ctlOk);
    TakePays(fd1, W, dir);
    var (fd2, sent2) := WriteHalf(fd1, bits, rearmed, ctlOk);
    CountAppend(sent1, sent2, dir, Paid);
  }

  lemma RequestPays(fd: Fd, dir: Dir, req: nat, ctlOk: bool, of: Dir)
    ensures var (fd', sent) := Rearm(fd, dir, req, ctlOk);
            CountAnswers(sent, of, Paid) + TokenOf(fd', of) <= TokenOf(fd, of)
  {
    var (fd', sent) := Rearm(fd, dir, req, ctlOk);
    assert |sent| == 1 ==> sent[1..] == [];
  }

  /** The remaining events use up no readiness and leave no token behind. */
  predicate PaysNothing(fd: Fd, res: (Fd, seq<Answer>), dir: Dir) {
    && TokenOf(res.0, dir) <= TokenOf(fd, dir)
    && forall i :: 0 <= i < |res.1| ==> !Counts(res.1[i], dir, Paid)
  }

  lemma OthersPayNothing(fd: Fd, d: Dir, dlRef: u16, req: nat, test: DeadlineTest, dir: Dir)
    ensures PaysNothing(fd, HandleTimeout(fd, d, dlRef), dir)
    ensures PaysNothing(fd, AddDeadline(fd, d, req, test), dir)
    ensures PaysNothing(fd, CancelIo(fd, d, req), dir)
    ensures PaysNothing(fd, ResetIoReady(fd, d, req), dir)
  {
  }

  lemma ApplyConserves(s: Sys, s': Sys, res: (Fd, seq<Answer>), dir: Dir)
    requires Conserved(s, dir) && PaysNothing(s.fd, res, dir)
    requires s'.fd == res.0 && s'.answers == s.answers + res.1 && s'.handled == s.handled
    ensures Conserved(s', dir)
  {
    CountAppend(s.answers, res.1, dir, Paid);
    CountNone(res.1, dir, Paid);
  }

  lemma StepConserves(s: Sys, e: Event, test: DeadlineTest, dir: Dir)
    requires Conserved(s, dir)
    ensures Conserved(Step(s, e, test), dir)
  {
    var s' := Step(s, e, test);
    match e
    case Request(d, ctlOk) =>
      RequestPays(s.fd, d, s.next, ctlOk, dir);
      CountAppend(s.answers, Rearm(s.fd, d, s.next, ctlOk).1, dir, Paid);
    case Deliver(bits) =>
    case Handle(ctlOk) =>
      if s.queue != [] {
        HandlePays(s.fd, s.queue[0], ctlOk, dir);
        CountAppend(s.answers, HandleIoReady(s.fd, s.queue[0], ctlOk).1, dir, Paid);
        assert s'.handled[..|s.handled|] == s.handled;
      }
    case Expire(d, dlRef) =>
      OthersPayNothing(s.fd, d, dlRef, s.next, test, dir);
      ApplyConserves(s, s', HandleTimeout(s.fd, d, dlRef), dir);
    case SetDeadline(d) =>
      OthersPayNothing(s.fd, d, 0, s.next, test, dir);
      ApplyConserves(s, s', AddDeadline(s.fd, d, s.next, test), dir);
    case Cancel(d) =>
      OthersPayNothing(s.fd, d, 0, s.next, test, dir);
      ApplyConserves(s, s', CancelIo(s.fd, d, s.next), dir);
    case Reset(d) =>
      OthersPayNothing(s.fd, d, 0, s.next, test, dir);
      ApplyConserves(s, s', ResetIoReady(s.fd, d, s.next), dir);
  }

  /** Over any run whatever, answers given from the token, answers given by
      readiness and the token still stored never exceed the handled events that
      carried the direction's bit. */
  lemma {:induction false} ReadinessConserved(s: Sys, es: seq<Event>, test: DeadlineTest, dir: Dir)
    requires Conserved(s, dir)
    ensures Conserved(Run(s, es, test), dir)
    decreases |es|
  {
    if es != [] {
      StepConserves(s, es[0], test, dir);
      ReadinessConserved(Step(s, es[0], test), es[1..], test, dir);
    }
  }

  lemma ConservedFromStart(es: seq<Event>, test: DeadlineTest, dir: Dir)
    ensures Conserved(Run(Init(), es, test), dir)
  {
    ReadinessConserved(Init(), es, test, dir);
  }

  // ----- what waiters are told -----

  /** An answer that tells a readiness request nil was paid for by readiness, or
      sent by a cancellation. */
  predicate Honest(answers: seq<Answer>) {
    forall i :: 0 <= i < |answers| ==>
      (answers[i].err == None && answers[i].cause != Direct <==>
       answers[i].cause == Token || answers[i].cause == Readiness || answers[i].cause == Cancelled)
  }

  lemma StepHonest(s: Sys, e: Event, test: DeadlineTest)
    requires Honest(s.answers)
    ensures Honest(Step(s, e, test).answers)
  {
  }

  lemma {:induction false} RunHonest(s: Sys, es: seq<Event>, test: DeadlineTest)
    requires Honest(s.answers)
    ensures Honest(Run(s, es, test).answers)
    decreases |es|
  {
    if es != [] {
      StepHonest(s, es[0], test);
      RunHonest(Step(s, es[0], test), es[1..], test);
    }
  }

  lemma {:induction false} HonestSplit(answers: seq<Answer>, dir: Dir)
    requires Honest(answers)
    ensures CountAnswers(answers, dir, ToldReady)
            == CountAnswers(answers, dir, Paid) + CountAnswers(answers, dir, ByCancel)
  {
    if answers != [] {
      HonestSplit(answers[1..], dir);
    }
  }

  /** The event cancels a stored waiter of the direction. */
  predicate CancelsWaiter(s: Sys, e: Event, dir: Dir) {
    e == Cancel(dir) && RaceOf(s.fd, dir).ch.Some? && RaceOf(s.fd, dir).err.None?
  }

  function WaitersCancelled(s: Sys, es: seq<Event>, test: DeadlineTest, dir: Dir): nat
    decreases |es|
  {
    if es == [] then 0
    else (if CancelsWaiter(s, es[0], dir) then 1 else 0) + WaitersCancelled(Step(s, es[0], test), es[1..], test, dir)
  }

  lemma NoneByCancel(fd: Fd, d: Dir, dlRef: u16, req: nat, ctlOk: bool, bits: Bits, test: DeadlineTest, dir: Dir)
    ensures CountAnswers(HandleIoReady(fd, bits, ctlOk).1, dir, ByCancel) == 0
    ensures CountAnswers(Rearm(fd, d, req, ctlOk).1, dir, ByCancel) == 0
    ensures CountAnswers(HandleTimeout(fd, d, dlRef).1, dir, ByCancel) == 0
    ensures CountAnswers(AddDeadline(fd, d, req, test).1, dir, ByCancel) == 0
    ensures CountAnswers(ResetIoReady(fd, d, req).1, dir, ByCancel) == 0
  {
    CountNone(HandleIoReady(fd, bits, ctlOk).1, dir, ByCancel);
    CountNone(Rearm(fd, d, req, ctlOk).1, dir, ByCancel);
    CountNone(HandleTimeout(fd, d, dlRef).1, dir, ByCancel);
    CountNone(AddDeadline(fd, d, req, test).1, dir, ByCancel);
    CountNone(ResetIoReady(fd, d, req).1, dir, ByCancel);
  }

  lemma CancelCounts(fd: Fd, d: Dir, req: nat, dir: Dir)
    ensures CountAnswers(CancelIo(fd, d, req).1, dir, ByCancel)
            == if d == dir && RaceOf(fd, d).ch.Some? && RaceOf(fd, d).err.None? then 1 else 0
  {
    var r := RaceOf(fd, d);
    if r.err.Some? {
      CountNone(CancelIo(fd, d, req).1, dir, ByCancel);
    } else {
      var told := CancelDeadlines(r, d, None, Cancelled).1;
      CountAppend(told, [Answer(req, d, None, Direct)], dir, ByCancel);
      CountNone([Answer(req, d, None, Direct)], dir, ByCancel);
      if told != [] {
        assert told[1..] == [];
      }
    }
  }

  /** A cancellation sends its waiter nil that no event paid for exactly when it
      meets a stored waiter with no remembered error; nothing else sends any. */
  lemma CancelExactly(s: Sys, e: Event, test: DeadlineTest, dir: Dir)
    ensures CountAnswers(Step(s, e, test).answers, dir, ByCancel)
            == CountAnswers(s.answers, dir, ByCancel) + (if CancelsWaiter(s, e, dir) then 1 else 0)
  {
    match e
    case Request(d, ctlOk) =>
      NoneByCancel(s.fd, d, 0, s.next, ctlOk, NO_BITS, test, dir);
      CountAppend(s.answers, Rearm(s.fd, d, s.next, ctlOk).1, dir, ByCancel);
    case Deliver(bits) =>
    case Handle(ctlOk) =>
      if s.queue != [] {
        NoneByCancel(s.fd, R, 0, s.next, ctlOk, s.queue[0], test, dir);
        CountAppend(s.answers, HandleIoReady(s.fd, s.queue[0], ctlOk).1, dir, ByCancel);
      }
    case Expire(d, dlRef) =>
      NoneByCancel(s.fd, d, dlRef, s.next, true, NO_BITS, test, dir);
      CountAppend(s.answers, HandleTimeout(s.fd, d, dlRef).1, dir, ByCancel);
    case SetDeadline(d) =>
      NoneByCancel(s.fd, d, 0, s.next, true, NO_BITS, test, dir);
      CountAppend(s.answers, AddDeadline(s.fd, d, s.next, test).1, dir, ByCancel);
    case Cancel(d) =>
      CancelCounts(s.fd, d, s.next, dir);
      CountAppend(s.answers, CancelIo(s.fd, d, s.next).1, dir, ByCancel);
    case Reset(d) =>
      NoneByCancel(s.fd, d, 0, s.next, true, NO_BITS, test, dir);
      CountAppend(s.answers, ResetIoReady(s.fd, d, s.next).1, dir, ByCancel);
  }

  lemma {:induction false} CancelsCounted(s: Sys, es: seq<Event>, test: DeadlineTest, dir: Dir)
    ensures CountAnswers(Run(s, es, test).answers, dir, ByCancel)
            == CountAnswers(s.answers, dir, ByCancel) + WaitersCancelled(s, es, test, dir)
    decreases |es|
  {
    if es != [] {
      CancelExactly(s, es[0], test, dir);
      CancelsCounted(Step(s, es[0], test), es[1..], test, dir);
    }
  }

  /** Over any run from the start, the requests that were told nil, and the token,
      never exceed the handled events with that bit and the waiters cancelled:
      readiness is invented by cancellations alone. */
  lemma ToldReadyBounded(es: seq<Event>, test: DeadlineTest, dir: Dir)
    ensures var s := Run(Init(), es, test);
            CountAnswers(s.answers, dir, ToldReady) + TokenOf(s.fd, dir)
            <= CountBits(s.handled, dir) + WaitersCancelled(Init(), es, test, dir)
  {
    ConservedFromStart(es, test, dir);
    RunHonest(Init(), es, test);
    HonestSplit(Run(Init(), es, test).answers, dir);
    CancelsCounted(Init(), es, test, dir);
  }

  /** And they do invent it: a waiter told nil with no event ever handled. */
  lemma CancelInvents(test: DeadlineTest)
    ensures var s := Run(Init(), [Request(R, true), Cancel(R)], test);
            s.handled == [] && Answer(0, R, None, Cancelled) in s.answers
  {
    var s1 := Step(Init(), Request(R, true), test);
    var s2 := Step(s1, Cancel(R), test);
    assert [Request(R, true), Cancel(R)][1..] == [Cancel(R)] && [Cancel(R)][1..] == [];
    assert Run(s2, [], test) == s2 && Run(s1, [Cancel(R)], test) == s2;
    assert s2.answers[0] == Answer(0, R, None, Cancelled);
  }

  // ----- readiness that nobody waits for -----

  /** The next request of the direction is told at once that it is ready. */
  ghost predicate AnswersAtOnce(s: Sys, dir: Dir, test: DeadlineTest) {
    forall ctlOk: bool :: Step(s, Request(dir, ctlOk), test).answers == s.answers + [Answer(s.next, dir, None, Token)]
  }

  lemma AtOnceMeans(s: Sys, dir: Dir, test: DeadlineTest)
    ensures AnswersAtOnce(s, dir, test) <==> RaceOf(s.fd, dir).err.None? && RaceOf(s.fd, dir).ready
  {
    var r := RaceOf(s.fd, dir);
    var s' := Step(s, Request(dir, true), test);
    if r.err.Some? {
      assert s'.answers[|s.answers|] == Answer(s.next, dir, r.err, PollerSpec.Remembered);
    } else if !r.ready {
      assert |s'.answers| == |s.answers|;
    }
  }

  /** Handling an event leaves the next request of a direction with nobody waiting
      and nothing remembered an answer at once if and only if it had one already, or
      the event carries the direction's bit and no error. */
  lemma KeptExactly(s: Sys, ctlOk: bool, dir: Dir, test: DeadlineTest)
    requires s.queue != [] && RaceOf(s.fd, dir).ch == None && RaceOf(s.fd, dir).err == None
    ensures AnswersAtOnce(Step(s, Handle(ctlOk), test), dir, test) <==>
            AnswersAtOnce(s, dir, test) || (!s.queue[0].er && Bit(s.queue[0], dir))
  {
    AtOnceMeans(s, dir, test);
    AtOnceMeans(Step(s, Handle(ctlOk), test), dir, test);
  }

  /** The events that spend it: a request takes it, a reset drops it, and a deadline
      that expires puts a timeout before it. */
  predicate Spends(e: Event, dir: Dir) {
    (e.Request? || e.Expire? || e.Reset?) && e.dir == dir
  }

  lemma SpentExactly(s: Sys, e: Event, dir: Dir, test: DeadlineTest)
    requires RaceOf(s.fd, dir).ch == None && AnswersAtOnce(s, dir, test)
    ensures AnswersAtOnce(Step(s, e, test), dir, test) <==> !Spends(e, dir)
    ensures !Spends(e, dir) ==> RaceOf(Step(s, e, test).fd, dir).ch == None
  {
    AtOnceMeans(s, dir, test);
    AtOnceMeans(Step(s, e, test), dir, test);
  }

  lemma {:induction false} UnspentStays(s: Sys, es: seq<Event>, dir: Dir, test: DeadlineTest)
    requires RaceOf(s.fd, dir).ch == None && AnswersAtOnce(s, dir, test)
    requires forall i :: 0 <= i < |es| ==> !Spends(es[i], dir)
    ensures AnswersAtOnce(Run(s, es, test), dir, test)
    decreases |es|
  {
    if es != [] {
      SpentExactly(s, es[0], dir, test);
      UnspentStays(Step(s, es[0], test), es[1..], dir, test);
    }
  }

  /** Readiness that meets no waiter is kept: with nothing remembered, after an event
      with the direction's bit is handled, and over every continuation that does not
      spend it, the next request of the direction is answered at once. */
  lemma ReadinessKept(s: Sys, ctlOk: bool, es: seq<Event>, dir: Dir, test: DeadlineTest)
    requires s.queue != [] && !s.queue[0].er && Bit(s.queue[0], dir)
    requires RaceOf(s.fd, dir).ch == None && RaceOf(s.fd, dir).err == None
    requires forall i :: 0 <= i < |es| ==> !Spends(es[i], dir)
    ensures AnswersAtOnce(Run(Step(s, Handle(ctlOk), test), es, test), dir, test)
  {
    KeptExactly(s, ctlOk, dir, test);
    assert RaceOf(Step(s, Handle(ctlOk), test).fd, dir).ch == None;
    UnspentStays(Step(s, Handle(ctlOk), test), es, dir, test);
  }

  /** From the moment a descriptor is watched: an event that comes before any request
      is kept for the first one of its direction. */
  lemma FirstEventKept(dir: Dir, other: bool, test: DeadlineTest)
    ensures var bits := Bits(dir == R || other, dir == W || other, false);
            AnswersAtOnce(Run(Init(), [Deliver(bits), Handle(true)], test), dir, test)
  {
    var bits := Bits(dir == R || other, dir == W || other, false);
    var s1 := Step(Init(), Deliver(bits), test);
    var s2 := Step(s1, Handle(true), test);
    assert [Deliver(bits), Handle(true)][1..] == [Handle(true)] && [Handle(true)][1..] == [];
    assert Run(s1, [Handle(true)], test) == Run(s2, [], test);
    KeptExactly(s1, true, dir, test);
  }

  /** A remembered timeout spends it too: once a request has been told the timeout,
      even a new deadline that clears it brings nothing back. */
  lemma TimeoutSpendsToken(s: Sys, dir: Dir, ctlOk: bool, test: DeadlineTest)
    requires RaceOf(s.fd, dir).err.Some?
    ensures !AnswersAtOnce(Step(Step(s, Request(dir, ctlOk), test), SetDeadline(dir), test), dir, test)
  {
    AtOnceMeans(Step(Step(s, Request(dir, ctlOk), test), SetDeadline(dir), test), dir, test);
  }

  // ----- the mask, the racers and the callers' own answers -----

  /** What the kernel's mask is after each event: a stored request, or the rearm of a
      waiter whose bit did not come, makes it that direction's alone if EpollCtl
      succeeds, the read waiter first; a delivery clears it; nothing else touches it. */
  lemma MaskExactly(s: Sys, e: Event, test: DeadlineTest)
    ensures var mask := Step(s, e, test).fd.mask;
            match e
            case Request(dir, ctlOk) =>
              mask == (if ctlOk && RaceOf(s.fd, dir).err.None? && !RaceOf(s.fd, dir).ready
                       then Bits(dir == R, dir == W, false) else s.fd.mask)
            case Deliver(bits) => mask == (if Deliverable(s, bits) then Bits(false, false, false) else s.fd.mask)
            case Handle(ctlOk) =>
              mask == (if !ctlOk || s.queue == [] || s.queue[0].er then s.fd.mask
                       else if s.fd.r.ch.Some? && !s.queue[0].rd then Bits(true, false, false)
                       else if s.fd.w.ch.Some? && !s.queue[0].wr then Bits(false, true, false)
                       else s.fd.mask)
            case _ => mask == s.fd.mask
  {
  }

  /** The racers still out after each event: a deadline adds one under the next
      16-bit number, its expiry takes that one away, and a cancellation or readiness
      that reaches a waiter stops them all. */
  lemma RacersExactly(s: Sys, e: Event, dir: Dir, test: DeadlineTest)
    ensures var r, r' := RaceOf(s.fd, dir), RaceOf(Step(s, e, test).fd, dir);
            && r'.dlRef == (if e == SetDeadline(dir) then (r.dlRef as int + 1) % 65536 else r.dlRef)
            && r'.doneCh ==
               if e == SetDeadline(dir) then r.doneCh + {(r.dlRef as int + 1) % 65536}
               else if e.Expire? && e.dir == dir then r.doneCh - {e.dlRef}
               else if e == Cancel(dir) && r.err.None? then {}
               else if e.Handle? && s.queue != [] && !s.queue[0].er && Bit(s.queue[0], dir) && r.ch.Some? then {}
               else r.doneCh
  {
  }

  function Deadlines(es: seq<Event>, dir: Dir): nat {
    if es == [] then 0 else (if es[0] == SetDeadline(dir) then 1 else 0) + Deadlines(es[1..], dir)
  }

  lemma CountOn(a: int, k: int)
    ensures ((a + 1) % 65536 + k) % 65536 == (a + 1 + k) % 65536
  {
  }

  /** Over every run the racer number counts the direction's deadlines, modulo 65536. */
  lemma {:induction false} RacerNumbers(s: Sys, es: seq<Event>, dir: Dir, test: DeadlineTest)
    ensures RaceOf(Run(s, es, test).fd, dir).dlRef == (RaceOf(s.fd, dir).dlRef as int + Deadlines(es, dir)) % 65536
    decreases |es|
  {
    if es != [] {
      RacersExactly(s, es[0], dir, test);
      RacerNumbers(Step(s, es[0], test), es[1..], dir, test);
      CountOn(RaceOf(s.fd, dir).dlRef, Deadlines(es[1..], dir));
    }
  }

  lemma RacersFromStart(es: seq<Event>, dir: Dir, test: DeadlineTest)
    ensures RaceOf(Run(Init(), es, test).fd, dir).dlRef == Deadlines(es, dir) % 65536
  {
    RacerNumbers(Init(), es, dir, test);
  }

  /** A handled event that carries a waiter's bit and no error tells it nil and leaves
      its race with no waiter, no token, no error and no racer, from any state. */
  lemma WaiterTaken(s: Sys, dir: Dir, ctlOk: bool, test: DeadlineTest)
    requires s.queue != [] && !s.queue[0].er && Bit(s.queue[0], dir) && RaceOf(s.fd, dir).ch.Some?
    ensures var r, s' := RaceOf(s.fd, dir), Step(s, Handle(ctlOk), test);
            && Answer(r.ch.value, dir, None, Readiness) in s'.answers
            && RaceOf(s'.fd, dir) == Race(None, false, None, {}, r.dlRef)
  {
    var a := Answer(RaceOf(s.fd, dir).ch.value, dir, None, Readiness);
    assert a in HandleIoReady(s.fd, s.queue[0], ctlOk).1;
  }

  /** What the callers of a cancellation, a deadline, a reset and a failing request
      are told themselves, after what their waiter is. */
  lemma CallersTold(s: Sys, dir: Dir, test: DeadlineTest)
    requires RaceOf(s.fd, dir).err == None || RaceOf(s.fd, dir).err == Some(DeadlineExceeded)
    ensures var r := RaceOf(s.fd, dir);
            && Step(s, Cancel(dir), test).answers ==
               s.answers + (if r.err.None? && r.ch.Some? then [Answer(r.ch.value, dir, None, Cancelled)] else [])
               + [Answer(s.next, dir, r.err, Direct)]
            && Step(s, SetDeadline(dir), test).answers ==
               s.answers + [Answer(s.next, dir, if test == AgainstDeadline then None else r.err, Direct)]
            && Step(s, Reset(dir), test).answers == s.answers + [Answer(s.next, dir, None, Direct)]
            && (r.err.None? && !r.ready ==>
                Step(s, Request(dir, false), test).answers
                == s.answers + [Answer(s.next, dir, Some(CtlFailed), Direct)])
  {
  }

  /** A deadline's expiry is told to the waiter if there is one, and then forgotten;
      otherwise it is remembered. */
  lemma ExpiryExactly(s: Sys, dir: Dir, dlRef: u16, test: DeadlineTest)
    ensures var r, s' := RaceOf(s.fd, dir), Step(s, Expire(dir, dlRef), test);
            && (Remembers(s', dir) <==> r.ch == None)
            && (r.ch.Some? ==> RaceOf(s'.fd, dir).err == None && RaceOf(s'.fd, dir).ch == None
                               && s'.answers == s.answers + [Answer(r.ch.value, dir, Some(DeadlineExceeded), TimedOut)])
            && (r.ch == None ==> s'.answers == s.answers)
  {
  }

  // ----- remembered timeouts -----

  /** The race holds the error an expired deadline left when nobody waited. */
  predicate Remembers(s: Sys, dir: Dir) {
    RaceOf(s.fd, dir).err == Some(DeadlineExceeded) && RaceOf(s.fd, dir).ch == None
  }

  lemma ExpiryRemembered(s: Sys, dir: Dir, dlRef: u16, test: DeadlineTest)
    requires RaceOf(s.fd, dir).ch == None
    ensures Remembers(Step(s, Expire(dir, dlRef), test), dir)
  {
  }

  /** Every event leaves the memory in place and answers a request with it,
      except that the repaired test clears it on a new deadline. */
  lemma RememberStep(s: Sys, e: Event, dir: Dir, test: DeadlineTest)
    requires Remembers(s, dir)
    ensures Remembers(Step(s, e, test), dir) <==> !(e == SetDeadline(dir) && test == AgainstDeadline)
    ensures e.Request? && e.dir == dir ==>
              Answer(s.next, dir, Some(DeadlineExceeded), PollerSpec.Remembered) in Step(s, e, test).answers
  {
    assert e.Request? && e.dir == dir ==>
        Rearm(s.fd, dir, s.next, e.ctlOk).1 == [Answer(s.next, dir, Some(DeadlineExceeded), PollerSpec.Remembered)];
  }

  /** As meant, a remembered timeout lasts exactly until the next new deadline on
      its direction; as written nothing ever ends it. */
  lemma {:induction false} RememberedUntil(s: Sys, es: seq<Event>, dir: Dir, test: DeadlineTest)
    requires Remembers(s, dir)
    requires test == AgainstCode || forall i :: 0 <= i < |es| ==> es[i] != SetDeadline(dir)
    ensures Remembers(Run(s, es, test), dir)
    decreases |es|
  {
    if es != [] {
      RememberStep(s, es[0], dir, test);
      RememberedUntil(Step(s, es[0], test), es[1..], dir, test);
    }
  }

  /** A deadline that expires with nobody waiting is the answer to every request
      that follows: as meant until a new deadline, as written for ever. */
  lemma UnclaimedTimeoutAnswers(s: Sys, dir: Dir, dlRef: u16, es: seq<Event>, test: DeadlineTest, ctlOk: bool)
    requires RaceOf(s.fd, dir).ch == None
    requires test == AgainstCode || forall i :: 0 <= i < |es| ==> es[i] != SetDeadline(dir)
    ensures var s' := Run(Step(s, Expire(dir, dlRef), test), es, test);
            Answer(s'.next, dir, Some(DeadlineExceeded), PollerSpec.Remembered)
              in Step(s', Request(dir, ctlOk), test).answers
  {
    ExpiryRemembered(s, dir, dlRef, test);
    var s1 := Step(s, Expire(dir, dlRef), test);
    RememberedUntil(s1, es, dir, test);
    RememberStep(Run(s1, es, test), Request(dir, ctlOk), dir, test);
  }

  // ----- deadlines that expire late -----

  /** A deadline cancelled with its waiter is not recalled if it has already expired:
      from any state with no remembered error, it answers the request made after the
      cancellation with a timeout, unless a token answers that first. */
  lemma LateExpiryExactly(s: Sys, dir: Dir, test: DeadlineTest)
    requires PollerSafety.Inv(s) && RaceOf(s.fd, dir).err.None?
    ensures var dlRef := NewDoneCh(RaceOf(s.fd, dir)).dlRef;
            var s3 := Step(Step(Step(s, SetDeadline(dir), test), Cancel(dir), test), Request(dir, true), test);
            var s' := Step(s3, Expire(dir, dlRef), test);
            Answer(s.next + 2, dir, Some(DeadlineExceeded), TimedOut) in s'.answers
            <==> !RaceOf(s.fd, dir).ready
  {
    var dlRef := NewDoneCh(RaceOf(s.fd, dir)).dlRef;
    var s1 := Step(s, SetDeadline(dir), test);
    var s2 := Step(s1, Cancel(dir), test);
    var s3 := Step(s2, Request(dir, true), test);
    var s' := Step(s3, Expire(dir, dlRef), test);
    PollerSafety.StepKeeps(s, SetDeadline(dir), test);
    PollerSafety.StepKeeps(s1, Cancel(dir), test);
    assert RaceOf(s2.fd, dir).err.None? && RaceOf(s2.fd, dir).ch.None?;
    assert RaceOf(s2.fd, dir).ready == RaceOf(s.fd, dir).ready;
    if RaceOf(s.fd, dir).ready {
      assert s3.answers == s2.answers + [Answer(s.next + 2, dir, None, Token)];
      assert s'.answers == s3.answers + [];
    } else {
      assert s'.answers == s3.answers + [Answer(s.next + 2, dir, Some(DeadlineExceeded), TimedOut)];
    }
  }

  /** So as written, one unclaimed timeout fails every later request on that
      direction, new deadlines notwithstanding. */
  lemma WrittenNeverRecovers(s: Sys, es: seq<Event>, dir: Dir, ctlOk: bool)
    requires Remembers(s, dir)
    ensures var s' := Run(s, es, AgainstCode);
            Answer(s'.next, dir, Some(DeadlineExceeded), PollerSpec.Remembered)
              in Step(s', Request(dir, ctlOk), AgainstCode).answers
  {
    RememberedUntil(s, es, dir, AgainstCode);
    RememberStep(Run(s, es, AgainstCode), Request(dir, ctlOk), dir, AgainstCode);
  }
}
