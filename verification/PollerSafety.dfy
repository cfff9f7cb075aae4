/** Safety of the dispatcher over every run: each request is answered at most
    once, a stored waiter excludes a stored error and a token, readiness is never
    invented, no waiter is forgotten, and what a remembered timeout does. */
module PollerSafety {
  import opened Words
  import opened PollerSpec

  // ----- exclusion and single answer -----

  predicate Exclusive(r: Race) {
    r.ch.Some? ==> r.err.None? && !r.ready
  }

  ghost predicate Answered(s: Sys, req: nat) {
    exists i :: 0 <= i < |s.answers| && s.answers[i].req == req
  }

  predicate Once(answers: seq<Answer>) {
    forall i, j :: 0 <= i < j < |answers| ==> answers[i].req != answers[j].req
  }

  /** A stored waiter is a request made, not yet answered, and not stored twice. */
  ghost predicate Inv(s: Sys) {
    && Exclusive(s.fd.r) && Exclusive(s.fd.w)
    && Once(s.answers)
    && (forall i :: 0 <= i < |s.answers| ==> s.answers[i].req < s.next)
    && (forall dir :: var ch := RaceOf(s.fd, dir).ch; ch.Some? ==> ch.value < s.next && !Answered(s, ch.value))
    && (s.fd.r.ch.Some? && s.fd.w.ch.Some? ==> s.fd.r.ch != s.fd.w.ch)
  }

  /** New answers that go to distinct waiters or to the request just made. */
  lemma AppendOnce(s: Sys, sent: seq<Answer>, next: nat)
    requires Once(s.answers) && Once(sent)
    requires forall i :: 0 <= i < |s.answers| ==> s.answers[i].req < next
    requires forall i :: 0 <= i < |sent| ==> sent[i].req < next && !Answered(s, sent[i].req)
    ensures Once(s.answers + sent)
    ensures forall i :: 0 <= i < |s.answers + sent| ==> (s.answers + sent)[i].req < next
  {
    var all := s.answers + sent;
    forall i, j | 0 <= i < j < |all|
      ensures all[i].req != all[j].req
    {
      if i < |s.answers| <= j {
        assert all[j] == sent[j - |s.answers|];
      }
    }
  }

  ghost predicate Sent(sent: seq<Answer>, req: nat) {
    exists i :: 0 <= i < |sent| && sent[i].req == req
  }

  /** One step's effect on a descriptor, as far as waiters go: it answers each
      request at most once, only stored waiters or the new request, and whatever
      is still stored afterwards has not been answered. */
  ghost predicate Tidy(fd: Fd, fd': Fd, sent: seq<Answer>, req: Option<nat>) {
    && Exclusive(fd'.r) && Exclusive(fd'.w)
    && Once(sent)
    && (forall i :: 0 <= i < |sent| ==>
          Some(sent[i].req) == fd.r.ch || Some(sent[i].req) == fd.w.ch || Some(sent[i].req) == req)
    && (forall dir :: RaceOf(fd', dir).ch.Some? ==>
          && !Sent(sent, RaceOf(fd', dir).ch.value)
          && (RaceOf(fd', dir).ch == RaceOf(fd, dir).ch || RaceOf(fd', dir).ch == req))
    && (req.Some? && fd'.r.ch == req ==> fd'.w.ch != req)
  }

  ghost predicate Waiters(fd: Fd, next: nat) {
    && Exclusive(fd.r) && Exclusive(fd.w)
    && (fd.r.ch.Some? ==> fd.r.ch.value < next) && (fd.w.ch.Some? ==> fd.w.ch.value < next)
    && (fd.r.ch.Some? && fd.w.ch.Some? ==> fd.r.ch != fd.w.ch)
  }

  lemma HandleTidy(fd: Fd, bits: Bits, ctlOk: bool, next: nat)
    requires Waiters(fd, next)
    ensures var (fd', sent) := HandleIoReady(fd, bits, ctlOk); Tidy(fd, fd', sent, None)
  {
  }

  lemma RearmTidy(fd: Fd, dir: Dir, req: nat, ctlOk: bool)
    requires Waiters(fd, req) && (ctlOk || RaceOf(fd, dir).err.Some? || RaceOf(fd, dir).ready)
    ensures var (fd', sent) := Rearm(fd, dir, req, ctlOk); Tidy(fd, fd', sent, Some(req))
  {
  }

  lemma CancelTidy(fd: Fd, dir: Dir, req: nat)
    requires Waiters(fd, req)
    ensures var (fd', sent) := CancelIo(fd, dir, req); Tidy(fd, fd', sent, Some(req))
  {
  }

  lemma DeadlineTidy(fd: Fd, dir: Dir, req: nat, test: DeadlineTest)
    requires Waiters(fd, req)
    ensures var (fd', sent) := AddDeadline(fd, dir, req, test); Tidy(fd, fd', sent, Some(req))
  {
  }

  lemma ResetTidy(fd: Fd, dir: Dir, req: nat)
    requires Waiters(fd, req)
    ensures var (fd', sent) := ResetIoReady(fd, dir, req); Tidy(fd, fd', sent, Some(req))
  {
  }

  lemma TimeoutTidy(fd: Fd, dir: Dir, dlRef: u16, next: nat)
    requires Waiters(fd, next)
    ensures var (fd', sent) := HandleTimeout(fd, dir, dlRef); Tidy(fd, fd', sent, None)
  {
  }

  lemma AnsweredAppend(s: Sys, s': Sys, sent: seq<Answer>, req: nat)
    requires s'.answers == s.answers + sent
    ensures Answered(s', req) <==> Answered(s, req) || Sent(sent, req)
  {
    if Answered(s, req) {
      var i :| 0 <= i < |s.answers| && s.answers[i].req == req;
      assert s'.answers[i].req == req;
    }
    if Sent(sent, req) {
      var i :| 0 <= i < |sent| && sent[i].req == req;
      assert s'.answers[|s.answers| + i].req == req;
    }
  }

  lemma TidyKeeps(s: Sys, s': Sys, fd': Fd, sent: seq<Answer>, req: Option<nat>)
    requires Inv(s) && Tidy(s.fd, fd', sent, req)
    requires s'.fd == fd' && s'.answers == s.answers + sent
    requires if req.Some? then req.value == s.next && s'.next == s.next + 1 else s'.next == s.next
    ensures Inv(s')
  {
    assert RaceOf(s.fd, R) == s.fd.r && RaceOf(s.fd, W) == s.fd.w;
    assert RaceOf(fd', R) == fd'.r && RaceOf(fd', W) == fd'.w;
    AppendOnce(s, sent, s'.next);
    forall dir | RaceOf(fd', dir).ch.Some?
      ensures !Answered(s', RaceOf(fd', dir).ch.value)
    {
      AnsweredAppend(s, s', sent, RaceOf(fd', dir).ch.value);
    }
  }

  /** EpollCtl fails a request that is stored: it is answered, and stays stored. */
  predicate FailsStored(s: Sys, e: Event) {
    e.Request? && !e.ctlOk && RaceOf(s.fd, e.dir).err.None? && !RaceOf(s.fd, e.dir).ready
  }

  lemma StepKeeps(s: Sys, e: Event, test: DeadlineTest)
    requires Inv(s) && !FailsStored(s, e)
    ensures Inv(Step(s, e, test))
  {
    assert RaceOf(s.fd, R) == s.fd.r && RaceOf(s.fd, W) == s.fd.w;
    assert Waiters(s.fd, s.next);
    var s' := Step(s, e, test);
    match e
    case Request(dir, ctlOk) =>
      RearmTidy(s.fd, dir, s.next, ctlOk);
      var (fd', sent) := Rearm(s.fd, dir, s.next, ctlOk);
      TidyKeeps(s, s', fd', sent, Some(s.next));
    case Deliver(bits) =>
      if Deliverable(s, bits) {
        assert forall dir :: RaceOf(s'.fd, dir) == RaceOf(s.fd, dir);
        assert forall n: nat :: Answered(s', n) == Answered(s, n);
      }
    case Handle(ctlOk) =>
      if s.queue != [] {
        HandleTidy(s.fd, s.queue[0], ctlOk, s.next);
        var (fd', sent) := HandleIoReady(s.fd, s.queue[0], ctlOk);
        TidyKeeps(s, s', fd', sent, None);
      }
    case Expire(dir, dlRef) =>
      TimeoutTidy(s.fd, dir, dlRef, s.next);
      var (fd', sent) := HandleTimeout(s.fd, dir, dlRef);
      TidyKeeps(s, s', fd', sent, None);
    case SetDeadline(dir) =>
      DeadlineTidy(s.fd, dir, s.next, test);
      var (fd', sent) := AddDeadline(s.fd, dir, s.next, test);
      TidyKeeps(s, s', fd', sent, Some(s.next));
    case Cancel(dir) =>
      CancelTidy(s.fd, dir, s.next);
      var (fd', sent) := CancelIo(s.fd, dir, s.next);
      TidyKeeps(s, s', fd', sent, Some(s.next));
    case Reset(dir) =>
      ResetTidy(s.fd, dir, s.next);
      var (fd', sent) := ResetIoReady(s.fd, dir, s.next);
      TidyKeeps(s, s', fd', sent, Some(s.next));
  }

  lemma {:induction false} RunKeeps(s: Sys, es: seq<Event>, test: DeadlineTest)
    requires Inv(s) && RequestsSucceed(es)
    ensures Inv(Run(s, es, test))
    decreases |es|
  {
    if es != [] {
      StepKeeps(s, es[0], test);
      RunKeeps(Step(s, es[0], test), es[1..], test);
    }
  }

  /** Over every run in which EpollCtl succeeds for requests, a stored waiter excludes
      a stored error and a token, and each request channel gets at most one result.
      A failing rearm of a handled event does no harm here. */
  lemma SingleAnswer(es: seq<Event>, test: DeadlineTest)
    requires RequestsSucceed(es)
    ensures var s := Run(Init(), es, test);
            Exclusive(s.fd.r) && Exclusive(s.fd.w) && Once(s.answers)
  {
    RunKeeps(Init(), es, test);
  }

  // ----- when EpollCtl fails a request -----

  /** The failing request has its answer already and is still waiting. */
  lemma FailedStaysStored(s: Sys, e: Event, test: DeadlineTest)
    requires FailsStored(s, e)
    ensures var s' := Step(s, e, test);
            RaceOf(s'.fd, e.dir).ch == Some(s.next) && Answered(s', s.next)
  {
    var s' := Step(s, e, test);
    assert s'.answers[|s.answers|].req == s.next;
  }

  /** A step breaks the invariant if and only if it is a request that EpollCtl fails
      after the request was stored. */
  lemma InvExactly(s: Sys, e: Event, test: DeadlineTest)
    requires Inv(s)
    ensures Inv(Step(s, e, test)) <==> !FailsStored(s, e)
  {
    if FailsStored(s, e) {
      FailedStaysStored(s, e, test);
    } else {
      StepKeeps(s, e, test);
    }
  }

  /** The next deadline to expire on its direction answers it a second time. */
  lemma FailedAnswersTwice(s: Sys, e: Event, dlRef: u16, test: DeadlineTest)
    requires FailsStored(s, e)
    ensures !Once(Step(Step(s, e, test), Expire(e.dir, dlRef), test).answers)
  {
    var s1 := Step(s, e, test);
    var s2 := Step(s1, Expire(e.dir, dlRef), test);
    FailedStaysStored(s, e, test);
    var i :| 0 <= i < |s1.answers| && s1.answers[i].req == s.next;
    assert s2.answers[i].req == s2.answers[|s1.answers|].req;
  }

  /** Each request is answered at most once, whatever follows with EpollCtl
      succeeding for requests, if and only if the step was no such failure. */
  lemma OnceExactly(s: Sys, e: Event, test: DeadlineTest)
    requires Inv(s)
    ensures (forall es: seq<Event> :: RequestsSucceed(es) ==> Once(Run(Step(s, e, test), es, test).answers))
            <==> !FailsStored(s, e)
  {
    var s1 := Step(s, e, test);
    if FailsStored(s, e) {
      FailedAnswersTwice(s, e, 0, test);
      assert RequestsSucceed([Expire(e.dir, 0)]);
      assert [Expire(e.dir, 0)][1..] == [];
      assert Run(s1, [Expire(e.dir, 0)], test) == Run(Step(s1, Expire(e.dir, 0), test), [], test);
    } else {
      StepKeeps(s, e, test);
      forall es: seq<Event> | RequestsSucceed(es)
        ensures Once(Run(s1, es, test).answers)
      {
        RunKeeps(s1, es, test);
      }
    }
  }

  // ----- every request accounted for -----

  /** The request that event e displaces: a second request of the direction is
      stored over the first. */
  function Displaces(s: Sys, e: Event): set<nat> {
    if e.Request? && RaceOf(s.fd, e.dir).err.None? && !RaceOf(s.fd, e.dir).ready && RaceOf(s.fd, e.dir).ch.Some?
    then {RaceOf(s.fd, e.dir).ch.value} else {}
  }

  function Displaced(s: Sys, es: seq<Event>, test: DeadlineTest): set<nat>
    decreases |es|
  {
    if es == [] then {} else Displaces(s, es[0]) + Displaced(Step(s, es[0], test), es[1..], test)
  }

  predicate Stored(s: Sys, req: nat) {
    s.fd.r.ch == Some(req) || s.fd.w.ch == Some(req)
  }

  /** Every request made is answered, still stored, or among the lost ones, and the
      lost ones are neither. */
  ghost predicate Accounted(s: Sys, lost: set<nat>) {
    && Inv(s)
    && (forall req: nat :: req < s.next ==> Answered(s, req) || Stored(s, req) || req in lost)
    && (forall req :: req in lost ==> req < s.next && !Answered(s, req) && !Stored(s, req))
  }

  /** What an event answers or stores: the new request, and of the stored ones each
      that it does not leave stored or displace. */
  ghost predicate Settles(s: Sys, s': Sys, sent: seq<Answer>, lost: set<nat>) {
    && s'.answers == s.answers + sent && s.next <= s'.next
    && (forall req: nat :: Stored(s, req) ==> Stored(s', req) || Sent(sent, req) || req in lost)
    && (forall req: nat :: s.next <= req < s'.next ==> Stored(s', req) || Sent(sent, req))
    && (forall req: nat :: Stored(s', req) || Sent(sent, req) ==> (Stored(s, req) || req >= s.next) && req !in lost)
    && (forall req: nat :: req in lost ==> Stored(s, req))
  }

  lemma SettlesKeeps(s: Sys, s': Sys, sent: seq<Answer>, lost: set<nat>, more: set<nat>)
    requires Accounted(s, lost) && Inv(s') && Settles(s, s', sent, more)
    ensures Accounted(s', lost + more)
  {
    assert RaceOf(s.fd, R) == s.fd.r && RaceOf(s.fd, W) == s.fd.w;
    forall req: nat
      ensures req < s'.next ==> Answered(s', req) || Stored(s', req) || req in lost + more
      ensures req in lost + more ==> req < s'.next && !Answered(s', req) && !Stored(s', req)
    {
      AnsweredAppend(s, s', sent, req);
    }
  }

  lemma HandleSettles(s: Sys, ctlOk: bool, test: DeadlineTest)
    requires Inv(s) && s.queue != []
    ensures Settles(s, Step(s, Handle(ctlOk), test), HandleIoReady(s.fd, s.queue[0], ctlOk).1, {})
  {
    var sent := HandleIoReady(s.fd, s.queue[0], ctlOk).1;
    assert s.fd.r.ch.Some? && s.queue[0].rd && !s.queue[0].er ==> sent[0].req == s.fd.r.ch.value;
    assert s.fd.w.ch.Some? && s.queue[0].wr && !s.queue[0].er ==> sent[|sent| - 1].req == s.fd.w.ch.value;
  }

  lemma RequestSettles(s: Sys, dir: Dir, test: DeadlineTest)
    requires Inv(s)
    ensures Settles(s, Step(s, Request(dir, true), test), Rearm(s.fd, dir, s.next, true).1,
                    Displaces(s, Request(dir, true)))
  {
    var sent := Rearm(s.fd, dir, s.next, true).1;
    assert sent != [] ==> sent[0].req == s.next;
  }

  lemma CancelSettles(s: Sys, dir: Dir, test: DeadlineTest)
    requires Inv(s)
    ensures Settles(s, Step(s, Cancel(dir), test), CancelIo(s.fd, dir, s.next).1, {})
  {
    var sent := CancelIo(s.fd, dir, s.next).1;
    assert sent[|sent| - 1].req == s.next;
    assert RaceOf(s.fd, dir).ch.Some? ==> sent[0].req == RaceOf(s.fd, dir).ch.value;
  }

  lemma OthersSettle(s: Sys, dir: Dir, dlRef: u16, test: DeadlineTest)
    requires Inv(s)
    ensures Settles(s, Step(s, Expire(dir, dlRef), test), HandleTimeout(s.fd, dir, dlRef).1, {})
    ensures Settles(s, Step(s, SetDeadline(dir), test), AddDeadline(s.fd, dir, s.next, test).1, {})
    ensures Settles(s, Step(s, Reset(dir), test), ResetIoReady(s.fd, dir, s.next).1, {})
  {
    var sent := HandleTimeout(s.fd, dir, dlRef).1;
    assert RaceOf(s.fd, dir).ch.Some? ==> sent[0].req == RaceOf(s.fd, dir).ch.value;
    assert AddDeadline(s.fd, dir, s.next, test).1[0].req == s.next;
    assert ResetIoReady(s.fd, dir, s.next).1[0].req == s.next;
  }

  lemma StepAccounts(s: Sys, e: Event, test: DeadlineTest, lost: set<nat>)
    requires Accounted(s, lost) && (e.Request? ==> e.ctlOk)
    ensures Accounted(Step(s, e, test), lost + Displaces(s, e))
  {
    var s' := Step(s, e, test);
    StepKeeps(s, e, test);
    match e
    case Request(dir, _) =>
      RequestSettles(s, dir, test);
      SettlesKeeps(s, s', Rearm(s.fd, dir, s.next, true).1, lost, Displaces(s, e));
    case Deliver(_) =>
      assert Settles(s, s', [], {}) by { assert s'.answers == s.answers + []; }
      SettlesKeeps(s, s', [], lost, {});
    case Handle(ctlOk) =>
      if s.queue != [] {
        HandleSettles(s, ctlOk, test);
        SettlesKeeps(s, s', HandleIoReady(s.fd, s.queue[0], ctlOk).1, lost, {});
      }
    case Cancel(dir) =>
      CancelSettles(s, dir, test);
      SettlesKeeps(s, s', CancelIo(s.fd, dir, s.next).1, lost, {});
    case Expire(dir, dlRef) =>
      OthersSettle(s, dir, dlRef, test);
      SettlesKeeps(s, s', HandleTimeout(s.fd, dir, dlRef).1, lost, {});
    case SetDeadline(dir) =>
      OthersSettle(s, dir, 0, test);
      SettlesKeeps(s, s', AddDeadline(s.fd, dir, s.next, test).1, lost, {});
    case Reset(dir) =>
      OthersSettle(s, dir, 0, test);
      SettlesKeeps(s, s', ResetIoReady(s.fd, dir, s.next).1, lost, {});
  }

  lemma {:induction false} RunAccounts(s: Sys, es: seq<Event>, test: DeadlineTest, lost: set<nat>)
    requires Accounted(s, lost) && RequestsSucceed(es)
    ensures Accounted(Run(s, es, test), lost + Displaced(s, es, test))
    decreases |es|
  {
    if es == [] {
      assert lost + {} == lost;
    } else {
      assert es[0].Request? ==> es[0].ctlOk;
      StepAccounts(s, es[0], test, lost);
      RunAccounts(Step(s, es[0], test), es[1..], test, lost + Displaces(s, es[0]));
      assert lost + Displaces(s, es[0]) + Displaced(Step(s, es[0], test), es[1..], test)
          == lost + Displaced(s, es, test);
    }
  }

  /** Over every run in which EpollCtl succeeds for requests, each request is in
      exactly one of three states: answered, still stored, or displaced by a later
      request of its direction; and one displaced is never answered. */
  lemma EveryRequestAccounted(es: seq<Event>, test: DeadlineTest, req: nat)
    requires RequestsSucceed(es) && req < Run(Init(), es, test).next
    ensures var s := Run(Init(), es, test);
            && (Answered(s, req) || Stored(s, req) || req in Displaced(Init(), es, test))
            && !(Answered(s, req) && Stored(s, req))
            && (req in Displaced(Init(), es, test) ==> !Answered(s, req) && !Stored(s, req))
  {
    RunAccounts(Init(), es, test, {});
    var s := Run(Init(), es, test);
    assert RaceOf(s.fd, R) == s.fd.r && RaceOf(s.fd, W) == s.fd.w;
    assert {} + Displaced(Init(), es, test) == Displaced(Init(), es, test);
  }

  lemma RunThree(s: Sys, a: Event, b: Event, c: Event, test: DeadlineTest)
    ensures Run(s, [a, b, c], test) == Step(Step(Step(s, a, test), b, test), c, test)
  {
    var s1 := Step(s, a, test);
    var s2 := Step(s1, b, test);
    assert [a, b, c][1..] == [b, c] && [b, c][1..] == [c] && [c][1..] == [];
    assert Run(s2, [c], test) == Step(s2, c, test);
    assert Run(s1, [b, c], test) == Run(s2, [c], test);
  }
}
