/** The epoll dispatcher, one descriptor at a time: two races (read and write),
    the one-shot kernel mask they share, and the readiness events delivered but
    not yet handled. */
module PollerSpec {
  import opened Words

  datatype Dir = R | W

  /** os.ErrDeadlineExceeded, the HDP timeout code, a failed EpollCtl, and a
      descriptor that is not watched. */
  datatype Err = DeadlineExceeded | TimeoutCode | CtlFailed | Undefined

  /** A race: the channel waiting for a result (a request's number), the
      readiness token, the remembered error, the outstanding deadline racers. */
  datatype Race = Race(ch: Option<nat>, ready: bool, err: Option<Err>, doneCh: set<u16>, dlRef: u16)

  datatype Bits = Bits(rd: bool, wr: bool, er: bool)

  datatype Fd = Fd(r: Race, w: Race, mask: Bits)

  /** Which path a result took to its request. */
  datatype Cause = Token | Remembered | Readiness | TimedOut | Cancelled | Direct

  datatype Answer = Answer(req: nat, dir: Dir, err: Option<Err>, cause: Cause)

  /** What a new deadline compares the remembered error with: as written the HDP
      timeout code; repaired, the error that expiry stores. */
  datatype DeadlineTest = AgainstCode | AgainstDeadline

  const NO_BITS: Bits := Bits(false, false, false)
  const IDLE_RACE: Race := Race(None, false, None, {}, 0)

  // ----- one race -----

  function CancelDeadline(r: Race, dlRef: u16): Race {
    r.(doneCh := r.doneCh - {dlRef})
  }

  /** Sends the result and forgets both the channel and the remembered error. */
  function DeleteResultCh(r: Race, dir: Dir, err: Option<Err>, cause: Cause): (Race, seq<Answer>)
    requires r.ch.Some?
  {
    (r.(ch := None, err := None), [Answer(r.ch.value, dir, err, cause)])
  }

  function CancelDeadlines(r: Race, dir: Dir, err: Option<Err>, cause: Cause): (Race, seq<Answer>) {
    var r1 := r.(err := err, doneCh := {});
    if r1.ch.Some? then DeleteResultCh(r1, dir, err, cause) else (r1, [])
  }

  function DoIoReady(r: Race, dir: Dir): (Race, seq<Answer>) {
    CancelDeadlines(r.(err := None, ready := false), dir, None, Readiness)
  }

  /** The racer need not be outstanding any more: nothing checks. */
  function DoIoTimeout(r: Race, dir: Dir, dlRef: u16): (Race, seq<Answer>) {
    var r1 := CancelDeadline(r.(err := Some(DeadlineExceeded)), dlRef);
    if r1.ch.Some? then DeleteResultCh(r1, dir, Some(DeadlineExceeded), TimedOut) else (r1, [])
  }

  function NewDoneCh(r: Race): Race {
    var dlRef: u16 := (r.dlRef as int + 1) % 0x1_0000;
    r.(dlRef := dlRef, doneCh := r.doneCh + {dlRef})
  }

  function Target(test: DeadlineTest): Err {
    if test == AgainstCode then TimeoutCode else DeadlineExceeded
  }

  /** A new deadline; the result is also what its request is answered with. */
  function RaceDeadline(r: Race, test: DeadlineTest): Race {
    NewDoneCh(if r.err == Some(Target(test)) then r.(err := None) else r)
  }

  // ----- one descriptor -----

  function RaceOf(fd: Fd, dir: Dir): Race {
    if dir == R then fd.r else fd.w
  }

  function WithRace(fd: Fd, dir: Dir, r: Race): Fd {
    if dir == R then fd.(r := r) else fd.(w := r)
  }

  function Only(dir: Dir): Bits {
    Bits(dir == R, dir == W, false)
  }

  function Watch(mask: Bits): Fd {
    Fd(IDLE_RACE, IDLE_RACE, mask)
  }

  /** EPOLL_CTL_MOD overwrites the whole mask, the other direction's interest too. */
  function SetMask(fd: Fd, dir: Dir, ctlOk: bool): Fd {
    if ctlOk then fd.(mask := Only(dir)) else fd
  }

  /** A readiness request: answered from the error or the token, or stored. If
      EpollCtl fails the request is answered with that and stays stored as well. */
  function Rearm(fd: Fd, dir: Dir, req: nat, ctlOk: bool): (Fd, seq<Answer>) {
    var r := RaceOf(fd, dir);
    if r.err.Some? then (WithRace(fd, dir, r.(ready := false)), [Answer(req, dir, r.err, Remembered)])
    else if r.ready then (WithRace(fd, dir, r.(ready := false)), [Answer(req, dir, None, Token)])
    else
      (SetMask(WithRace(fd, dir, r.(ch := Some(req))), dir, ctlOk),
       if ctlOk then [] else [Answer(req, dir, Some(CtlFailed), Direct)])
  }

  /** One direction's half of handleIoReady when its bit is set. */
  function TakeReady(fd: Fd, dir: Dir): (Fd, seq<Answer>) {
    var r := RaceOf(fd, dir);
    if r.ch.Some? then
      var (r', sent) := DoIoReady(r, dir);
      (WithRace(fd, dir, r'), sent)
    else (WithRace(fd, dir, r.(ready := true)), [])
  }

  /** The first switch of handleIoReady; the flag says whether it rearmed. */
  function ReadHalf(fd: Fd, bits: Bits, ctlOk: bool): (Fd, seq<Answer>, bool) {
    if bits.rd then
      var (fd', sent) := TakeReady(fd, R);
      (fd', sent, false)
    else if fd.r.ch.Some? then (SetMask(fd, R, ctlOk), [], true)
    else (fd, [], false)
  }

  function WriteHalf(fd: Fd, bits: Bits, rearmed: bool, ctlOk: bool): (Fd, seq<Answer>) {
    if bits.wr then TakeReady(fd, W)
    else if fd.w.ch.Some? && !rearmed then (SetMask(fd, W, ctlOk), [])
    else (fd, [])
  }

  function HandleIoReady(fd: Fd, bits: Bits, ctlOk: bool): (Fd, seq<Answer>) {
    if bits.er then (fd, [])
    else
      var (fd1, sent1, rearmed) := ReadHalf(fd, bits, ctlOk);
      var (fd2, sent2) := WriteHalf(fd1, bits, rearmed, ctlOk);
      (fd2, sent1 + sent2)
  }

  function HandleTimeout(fd: Fd, dir: Dir, dlRef: u16): (Fd, seq<Answer>) {
    var (r, sent) := DoIoTimeout(RaceOf(fd, dir), dir, dlRef);
    (WithRace(fd, dir, r), sent)
  }

  /** A remembered error is returned to the canceller and nothing is cancelled;
      a cancelled waiter is told nil, as if it were ready. */
  function CancelIo(fd: Fd, dir: Dir, req: nat): (Fd, seq<Answer>) {
    var r := RaceOf(fd, dir);
    if r.err.Some? then (fd, [Answer(req, dir, r.err, Direct)])
    else
      var (r', sent) := CancelDeadlines(r, dir, None, Cancelled);
      (WithRace(fd, dir, r'), sent + [Answer(req, dir, None, Direct)])
  }

  function AddDeadline(fd: Fd, dir: Dir, req: nat, test: DeadlineTest): (Fd, seq<Answer>) {
    var r := RaceDeadline(RaceOf(fd, dir), test);
    (WithRace(fd, dir, r), [Answer(req, dir, r.err, Direct)])
  }

  function ResetIoReady(fd: Fd, dir: Dir, req: nat): (Fd, seq<Answer>) {
    (WithRace(fd, dir, RaceOf(fd, dir).(ready := false)), [Answer(req, dir, None, Direct)])
  }

  // ----- the descriptor together with the kernel and the event channel -----

  datatype Sys = Sys(fd: Fd, queue: seq<Bits>, answers: seq<Answer>, handled: seq<Bits>, next: nat)

  datatype Event =
    | Request(dir: Dir, ctlOk: bool)
    | Deliver(bits: Bits)
    | Handle(ctlOk: bool)
    | Expire(dir: Dir, dlRef: u16)
    | SetDeadline(dir: Dir)
    | Cancel(dir: Dir)
    | Reset(dir: Dir)

  /** The kernel reports a subset of the mask, or an error, and only while some
      interest is armed; and then disarms the descriptor. */
  predicate Deliverable(s: Sys, bits: Bits) {
    && s.fd.mask != NO_BITS && bits != NO_BITS
    && (bits.rd ==> s.fd.mask.rd) && (bits.wr ==> s.fd.mask.wr)
  }

  function Apply(s: Sys, res: (Fd, seq<Answer>)): Sys {
    s.(fd := res.0, answers := s.answers + res.1)
  }

  function Step(s: Sys, e: Event, test: DeadlineTest): Sys {
    match e
    case Request(dir, ctlOk) => Apply(s.(next := s.next + 1), Rearm(s.fd, dir, s.next, ctlOk))
    case Deliver(bits) =>
      if Deliverable(s, bits) then s.(fd := s.fd.(mask := NO_BITS), queue := s.queue + [bits]) else s
    case Handle(ctlOk) =>
      if s.queue == [] then s
      else Apply(s.(queue := s.queue[1..], handled := s.handled + [s.queue[0]]), HandleIoReady(s.fd, s.queue[0], ctlOk))
    case Expire(dir, dlRef) => Apply(s, HandleTimeout(s.fd, dir, dlRef))
    case SetDeadline(dir) => Apply(s.(next := s.next + 1), AddDeadline(s.fd, dir, s.next, test))
    case Cancel(dir) => Apply(s.(next := s.next + 1), CancelIo(s.fd, dir, s.next))
    case Reset(dir) => Apply(s.(next := s.next + 1), ResetIoReady(s.fd, dir, s.next))
  }

  function Run(s: Sys, es: seq<Event>, test: DeadlineTest): Sys
    decreases |es|
  {
    if es == [] then s else Run(Step(s, es[0], test), es[1..], test)
  }

  /** A descriptor just watched for both directions. */
  function Init(): Sys {
    Sys(Watch(Bits(true, true, false)), [], [], [], 0)
  }

  predicate CtlSucceeds(e: Event) {
    (e.Request? || e.Handle?) ==> e.ctlOk
  }

  predicate RequestsSucceed(es: seq<Event>) {
    forall i :: 0 <= i < |es| ==> (es[i].Request? ==> es[i].ctlOk)
  }
}
