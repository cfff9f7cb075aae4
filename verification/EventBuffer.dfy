/** The buffer itself, grown and shrunk in place. */
module EventBuffer {
  import ResizeControl

  const MIN_EVENTS := ResizeControl.MIN_EVENTS
  const MAX_EVENTS := ResizeControl.MAX_EVENTS
  const DELTA := ResizeControl.DELTA

  datatype PollEvent = PollEvent(events: nat, fd: int)

  class EventBuffer {
    var events: seq<PollEvent>
    var older: nat
    var newer: nat
    var sinceLastResize: nat

    ghost function View(): ResizeControl.Control
      reads this
    {
      ResizeControl.Control(|events|, older, newer, sinceLastResize)
    }

    constructor ()
      ensures View() == ResizeControl.INIT
    {
      events := seq(64, _ => PollEvent(0, 0));
      older, newer, sinceLastResize := 0, 0, 0;
    }

    method UpSizable(n: nat) returns (up: bool)
      ensures up <==> ResizeControl.UpSizable(View(), n)
    {
      if n < |events| {
        return false;
      }
      return older >= |events| && newer >= |events|;
    }

    method DownSizable(n: nat) returns (down: bool)
      ensures down <==> ResizeControl.DownSizable(View(), n)
    {
      if n > |events| - DELTA {
        return false;
      }
      return older <= |events| - DELTA && newer <= |events| - DELTA;
    }

    /** Growing appends empty events; shrinking keeps the front. */
    method Resize(n: nat)
      requires MIN_EVENTS <= |events| <= MAX_EVENTS
      modifies this
      ensures View() == ResizeControl.Resize(old(View()), n)
      ensures old(events) <= events || events <= old(events)
    {
      var size := |events|;
      var delta := DELTA;
      if sinceLastResize > 2 {
        var up := UpSizable(n);
        if up {
          sinceLastResize := 0;
          if size + delta > MAX_EVENTS {
            delta := MAX_EVENTS - size;
          }
          events := events + seq(delta, _ => PollEvent(0, 0));
        } else {
          var down := DownSizable(n);
          if down {
            sinceLastResize := 0;
            var newSize := size - delta;
            if newSize < MIN_EVENTS {
              newSize := MIN_EVENTS;
            }
            events := events[..newSize];
          }
        }
      }
      older := newer;
      newer := n;
      sinceLastResize := sinceLastResize + 1;
    }
  }
}
