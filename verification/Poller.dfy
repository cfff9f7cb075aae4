/** The dispatcher as the original keeps it: a map from descriptors to pairs of
    race objects whose fields every step updates in place. The kernel's masks are
    kept beside it, and results sent on request channels are returned. */
module Poller {
  import opened Words
  import opened PollerSpec

  class IoRace {
    var ch: Option<nat>
    var ready: bool
    var err: Option<Err>
    var doneCh: set<u16>
    var dlRef: u16

    constructor ()
      ensures View() == IDLE_RACE
    {
      ch, ready, err, doneCh, dlRef := None, false, None, {}, 0;
    }

    ghost function View(): Race
      reads this
    {
      Race(ch, ready, err, doneCh, dlRef)
    }

    method CancelDeadline(k: u16)
      modifies this`doneCh
      ensures View() == PollerSpec.CancelDeadline(old(View()), k)
    {
      if k in doneCh {
        doneCh := doneCh - {k};
      }
    }

    method DeleteResultCh(dir: Dir, e: Option<Err>, cause: Cause) returns (sent: seq<Answer>)
      requires ch.Some?
      modifies this`ch, this`err
      ensures (View(), sent) == PollerSpec.DeleteResultCh(old(View()), dir, e, cause)
    {
      sent := [Answer(ch.value, dir, e, cause)];
      ch := None;
      err := None;
    }

    method CancelDeadlines(dir: Dir, e: Option<Err>, cause: Cause) returns (sent: seq<Answer>)
      modifies this
      ensures (View(), sent) == PollerSpec.CancelDeadlines(old(View()), dir, e, cause)
    {
      err := e;
      while doneCh != {}
        invariant View() == old(View()).(err := e, doneCh := doneCh)
        decreases doneCh
      {
        var k :| k in doneCh;
        CancelDeadline(k);
      }
      if ch.Some? {
        sent := DeleteResultCh(dir, e, cause);
      } else {
        sent := [];
      }
    }

    /** The original tests the channel once more; it is empty by then, since the
        map of racers always exists. */
    method DoIoReady(dir: Dir) returns (sent: seq<Answer>)
      modifies this
      ensures (View(), sent) == PollerSpec.DoIoReady(old(View()), dir)
    {
      err := None;
      ready := false;
      sent := CancelDeadlines(dir, None, Readiness);
    }

    method DoIoTimeout(dir: Dir, k: u16) returns (sent: seq<Answer>)
      modifies this
      ensures (View(), sent) == PollerSpec.DoIoTimeout(old(View()), dir, k)
    {
      err := Some(DeadlineExceeded);
      CancelDeadline(k);
      if ch.Some? {
        sent := DeleteResultCh(dir, Some(DeadlineExceeded), TimedOut);
      } else {
        sent := [];
      }
    }

    method NewDoneCh()
      modifies this`dlRef, this`doneCh
      ensures View() == PollerSpec.NewDoneCh(old(View()))
    {
      dlRef := (dlRef as int + 1) % 0x1_0000;
      doneCh := doneCh + {dlRef};
    }

    /** The race's part of rearm: answer at once, or store the request. */
    method TakeRequest(dir: Dir, req: nat) returns (stored: bool, sent: seq<Answer>)
      modifies this
      ensures stored <==> old(err).None? && !old(ready)
      ensures View() == if stored then old(View()).(ch := Some(req)) else old(View()).(ready := false)
      ensures sent == if stored then []
                      else if old(err).Some? then [Answer(req, dir, old(err), Remembered)]
                      else [Answer(req, dir, None, Token)]
    {
      if err.Some? {
        ready := false;
        return false, [Answer(req, dir, err, Remembered)];
      } else if ready {
        ready := false;
        return false, [Answer(req, dir, None, Token)];
      }
      ch := Some(req);
      return true, [];
    }

    /** The test argument is the one-line repair; AgainstCode is the code as written. */
    method RaceDeadline(test: DeadlineTest)
      modifies this
      ensures View() == PollerSpec.RaceDeadline(old(View()), test)
    {
      if err == Some(Target(test)) {
        err := None;
      }
      NewDoneCh();
    }
  }

  datatype Races = Races(r: IoRace, w: IoRace)

  class Epoller {
    var race: map<int, Races>
    var mask: map<int, Bits>
    ghost var home: map<IoRace, (int, Dir)>
    ghost var model: map<int, Fd>

    /** Every race object belongs to one direction of one descriptor. */
    ghost predicate Owned(fd: int)
      requires fd in race
      reads this
    {
      && race[fd].r in home && home[race[fd].r] == (fd, R)
      && race[fd].w in home && home[race[fd].w] == (fd, W)
    }

    ghost predicate Agrees(fd: int)
      requires fd in race && fd in mask && fd in model
      reads this, race[fd].r, race[fd].w
    {
      model[fd] == Fd(race[fd].r.View(), race[fd].w.View(), mask[fd])
    }

    ghost predicate Valid()
      reads this, home.Keys
    {
      && race.Keys == mask.Keys == model.Keys
      && (forall fd :: fd in race ==> Owned(fd))
      && (forall fd :: fd in race ==> Agrees(fd))
    }

    constructor ()
      ensures Valid() && model == map[] && home == map[]
    {
      race, mask, home, model := map[], map[], map[], map[];
    }

    /** getIoRace for a watched descriptor. */
    method RaceFor(fd: int, dir: Dir) returns (r: IoRace)
      requires Valid() && fd in race
      ensures r in home && r == (if dir == R then race[fd].r else race[fd].w)
      ensures r.View() == RaceOf(model[fd], dir)
    {
      r := if dir == R then race[fd].r else race[fd].w;
    }

    /** The pair of races is replaced by a fresh one, also for a descriptor already
        watched, whose waiters are then forgotten; the mask changes only if EpollCtl
        takes the descriptor. */
    method Watch(fd: int, flags: Bits, ctlOk: bool)
      requires Valid()
      modifies this
      ensures Valid() && fresh(home.Keys - old(home.Keys))
      ensures model == old(model)[fd := PollerSpec.Watch(
                if ctlOk then flags else if fd in old(model) then old(model)[fd].mask else NO_BITS)]
    {
      var bits := if ctlOk then flags else if fd in mask then mask[fd] else NO_BITS;
      var rs := NewRaces();
      assert rs.r !in home && rs.w !in home;
      race := race[fd := rs];
      mask := mask[fd := bits];
      home := home[rs.r := (fd, R)][rs.w := (fd, W)];
      model := model[fd := PollerSpec.Watch(bits)];
      assert Owned(fd) && Agrees(fd);
    }

    method NewRaces() returns (rs: Races)
      ensures fresh(rs.r) && fresh(rs.w) && rs.r != rs.w
      ensures rs.r.View() == IDLE_RACE && rs.w.View() == IDLE_RACE
    {
      var r := new IoRace();
      var w := new IoRace();
      rs := Races(r, w);
    }

    method Rearm(fd: int, dir: Dir, req: nat, ctlOk: bool) returns (sent: seq<Answer>)
      requires Valid()
      modifies this`mask, this`model, home.Keys
      ensures Valid()
      ensures if fd in old(model)
              then (model, sent) == (old(model)[fd := PollerSpec.Rearm(old(model)[fd], dir, req, ctlOk).0],
                                     PollerSpec.Rearm(old(model)[fd], dir, req, ctlOk).1)
              else model == old(model) && sent == [Answer(req, dir, Some(Undefined), Direct)]
    {
      if fd !in race {
        return [Answer(req, dir, Some(Undefined), Direct)];
      }
      ghost var m, was := model, model[fd];
      var stored;
      stored, sent := TakeRequest(fd, dir, req);
      if stored {
        Rearm1(fd, dir, ctlOk);
        if !ctlOk {
          sent := [Answer(req, dir, Some(CtlFailed), Direct)];
        }
      }
      assert model == m[fd := PollerSpec.Rearm(was, dir, req, ctlOk).0];
    }

    method TakeRequest(fd: int, dir: Dir, req: nat) returns (stored: bool, sent: seq<Answer>)
      requires Valid() && fd in race
      modifies this`model, home.Keys
      ensures Valid() && fd in model && model == old(model)[fd := model[fd]]
      ensures var r := RaceOf(old(model)[fd], dir);
              && (stored <==> r.err.None? && !r.ready)
              && model[fd] == WithRace(old(model)[fd], dir, if stored then r.(ch := Some(req)) else r.(ready := false))
              && sent == if stored then [] else [Answer(req, dir, r.err, if r.err.Some? then Remembered else Token)]
    {
      ghost var was := model[fd];
      var r := RaceFor(fd, dir);
      stored, sent := r.TakeRequest(dir, req);
      model := model[fd := WithRace(was, dir, r.View())];
    }

    method TakeReady(fd: int, dir: Dir) returns (sent: seq<Answer>)
      requires Valid() && fd in race
      modifies this`model, home.Keys
      ensures Valid() && mask == old(mask)
      ensures (model, sent) == (old(model)[fd := PollerSpec.TakeReady(old(model)[fd], dir).0],
                                PollerSpec.TakeReady(old(model)[fd], dir).1)
    {
      ghost var was := model[fd];
      var r := RaceFor(fd, dir);
      if r.ch.Some? {
        sent := r.DoIoReady(dir);
      } else {
        r.ready := true;
        sent := [];
      }
      model := model[fd := PollerSpec.TakeReady(was, dir).0];
    }

    method HandleIoReady(fd: int, bits: Bits, ctlOk: bool) returns (sent: seq<Answer>)
      requires Valid() && fd in race
      modifies this`mask, this`model, home.Keys
      ensures Valid()
      ensures (model, sent) == (old(model)[fd := PollerSpec.HandleIoReady(old(model)[fd], bits, ctlOk).0],
                                PollerSpec.HandleIoReady(old(model)[fd], bits, ctlOk).1)
    {
      sent := [];
      ghost var m, was := model, model[fd];
      if bits.er {
        assert model == m[fd := was];
        return;
      }
      var rearmed := false;
      if bits.rd {
        sent := TakeReady(fd, R);
      } else if race[fd].r.ch.Some? {
        Rearm1(fd, R, ctlOk);
        rearmed := true;
      }
      ghost var half := ReadHalf(was, bits, ctlOk);
      assert model == m[fd := half.0] && sent == half.1 && rearmed == half.2;
      if bits.wr {
        var more := TakeReady(fd, W);
        sent := sent + more;
      } else if race[fd].w.ch.Some? && !rearmed {
        Rearm1(fd, W, ctlOk);
      }
      ghost var rest := WriteHalf(half.0, bits, rearmed, ctlOk);
      assert model == m[fd := rest.0] && sent == half.1 + rest.1;
    }

    method Rearm1(fd: int, dir: Dir, ctlOk: bool)
      requires Valid() && fd in race
      modifies this`mask, this`model
      ensures Valid()
      ensures model == old(model)[fd := SetMask(old(model)[fd], dir, ctlOk)]
    {
      if ctlOk {
        mask := mask[fd := Only(dir)];
      }
      model := model[fd := SetMask(model[fd], dir, ctlOk)];
    }

    method HandleTimeout(fd: int, dir: Dir, dlRef: u16) returns (sent: seq<Answer>)
      requires Valid()
      modifies this`model, home.Keys
      ensures Valid()
      ensures if fd in old(model)
              then (model, sent) == (old(model)[fd := PollerSpec.HandleTimeout(old(model)[fd], dir, dlRef).0],
                                     PollerSpec.HandleTimeout(old(model)[fd], dir, dlRef).1)
              else model == old(model) && sent == []
    {
      if fd !in race {
        return [];
      }
      ghost var was := model[fd];
      var r := RaceFor(fd, dir);
      sent := r.DoIoTimeout(dir, dlRef);
      model := model[fd := PollerSpec.HandleTimeout(was, dir, dlRef).0];
    }

    method CancelIo(fd: int, dir: Dir, req: nat) returns (sent: seq<Answer>)
      requires Valid()
      modifies this`model, home.Keys
      ensures Valid()
      ensures if fd in old(model)
              then (model, sent) == (old(model)[fd := PollerSpec.CancelIo(old(model)[fd], dir, req).0],
                                     PollerSpec.CancelIo(old(model)[fd], dir, req).1)
              else model == old(model) && sent == [Answer(req, dir, Some(Undefined), Direct)]
    {
      if fd !in race {
        return [Answer(req, dir, Some(Undefined), Direct)];
      }
      ghost var was := model[fd];
      var r := RaceFor(fd, dir);
      if r.err.Some? {
        sent := [Answer(req, dir, r.err, Direct)];
      } else {
        sent := r.CancelDeadlines(dir, None, Cancelled);
        sent := sent + [Answer(req, dir, None, Direct)];
      }
      model := model[fd := PollerSpec.CancelIo(was, dir, req).0];
    }

    method RaceDeadline(fd: int, dir: Dir, req: nat, test: DeadlineTest) returns (sent: seq<Answer>)
      requires Valid()
      modifies this`model, home.Keys
      ensures Valid()
      ensures if fd in old(model)
              then (model, sent) == (old(model)[fd := AddDeadline(old(model)[fd], dir, req, test).0],
                                     AddDeadline(old(model)[fd], dir, req, test).1)
              else model == old(model) && sent == [Answer(req, dir, Some(Undefined), Direct)]
    {
      if fd !in race {
        return [Answer(req, dir, Some(Undefined), Direct)];
      }
      ghost var was := model[fd];
      var r := RaceFor(fd, dir);
      r.RaceDeadline(test);
      sent := [Answer(req, dir, r.err, Direct)];
      model := model[fd := AddDeadline(was, dir, req, test).0];
    }

    method ResetIoReady(fd: int, dir: Dir, req: nat) returns (sent: seq<Answer>)
      requires Valid()
      modifies this`model, home.Keys
      ensures Valid()
      ensures sent == [Answer(req, dir, None, Direct)]
      ensures model == if fd in old(model)
                       then old(model)[fd := PollerSpec.ResetIoReady(old(model)[fd], dir, req).0]
                       else old(model)
    {
      sent := [Answer(req, dir, None, Direct)];
      if fd in race {
        ghost var was := model[fd];
        var r := RaceFor(fd, dir);
        r.ready := false;
        model := model[fd := PollerSpec.ResetIoReady(was, dir, req).0];
      }
    }
  }
}
