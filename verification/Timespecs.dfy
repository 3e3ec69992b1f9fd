/** Time as the program handles it (src/utils.c:109-156): pairs compared field by field, whether
    or not the nanoseconds are below one second. */
module Timespecs {
  import opened Basics

  const ONE_SEC: int := 1_000_000_000
  const MILISEC: int := 1_000_000

  datatype Timespec = Timespec(sec: int, nsec: int) {
    /** What clock_gettime returns. */
    predicate Normal() {
      0 <= nsec < ONE_SEC
    }

    function Value(): int {
      sec * ONE_SEC + nsec
    }

    predicate Gt(t: Timespec) {
      sec > t.sec || (sec == t.sec && nsec > t.nsec)
    }

    predicate Ge(t: Timespec) {
      Gt(t) || this == t
    }

    predicate Le(t: Timespec) {
      !Gt(t)
    }

    predicate Lt(t: Timespec) {
      !Ge(t)
    }

    /** `timespec_diff(this, start)`; None stands for the exit when `start` is greater. */
    function Diff(start: Timespec): Option<Timespec> {
      if start.Gt(this) then None
      else if nsec < start.nsec then Some(Timespec(sec - start.sec - 1, nsec - start.nsec + ONE_SEC))
      else Some(Timespec(sec - start.sec, nsec - start.nsec))
    }

    /** `timespec_get_unit(this, MILISEC)` of a normalised time. */
    function Millis(): int {
      sec * 1000 + nsec / MILISEC
    }
  }

  const ZERO := Timespec(0, 0)

  /** `ms` is this many nanoseconds, in whole milliseconds. */
  predicate WholeMillis(ms: int, nanos: int) {
    ms * 1_000_000 <= nanos < (ms + 1) * 1_000_000
  }

  lemma MillisExact(t: Timespec)
    requires t.Normal()
    ensures WholeMillis(t.Millis(), t.Value())
  {
  }

  /** `timespec_set_unit(t, value, MILISEC)`: the nanoseconds repeat the whole value. */
  function SetMillis(value: nat): Timespec {
    Timespec(value / 1000, value * MILISEC)
  }

  /** On normalised times the comparisons and the difference are those of the instants. */
  lemma NormalOrder(a: Timespec, b: Timespec)
    requires a.Normal() && b.Normal()
    ensures a.Gt(b) <==> a.Value() > b.Value()
    ensures a.Ge(b) <==> a.Value() >= b.Value()
    ensures a.Le(b) <==> a.Value() <= b.Value()
    ensures a.Lt(b) <==> a.Value() < b.Value()
    ensures a.Diff(b).Some? <==> a.Value() >= b.Value()
    ensures a.Diff(b).Some? ==> a.Diff(b).value.Normal() && a.Diff(b).value.Value() == a.Value() - b.Value()
  {
  }

  /** The window test of the lightning scheduler (src/algo_lightning.c:165 and 474-477): does it let
      a swap happen at `now` when the last one was at `last`?  None is the exit in the difference. */
  function WindowOver(last: Timespec, now: Timespec, window: nat): Option<bool> {
    match now.Diff(SetMillis(window))
    case None => None
    case Some(notBefore) => Some(!last.Gt(notBefore))
  }

  /** When the difference between `now` and the window ends the program. */
  predicate TooSoon(now: Timespec, window: nat) {
    if window < 1000 then now.Value() < window * MILISEC else now.sec <= window / 1000
  }

  /** From one second on, that is until the second after the one in which the window has passed. */
  lemma WindowExit(last: Timespec, now: Timespec, window: nat)
    requires now.Normal()
    ensures now.Diff(SetMillis(window)).None? <==> TooSoon(now, window)
    ensures WindowOver(last, now, window).None? <==> TooSoon(now, window)
    ensures now.Value() < window * MILISEC ==> TooSoon(now, window)
    ensures TooSoon(now, window) ==> now.Value() < window * MILISEC + ONE_SEC
  {
  }

  /** With the default window of 2 s, the program still ends 2.9 s after the clock's origin. */
  lemma LateExit()
    ensures var now := Timespec(2, 900_000_000);
      now.Value() >= 2000 * MILISEC && now.Diff(SetMillis(2000)) == None
  {
  }

  /** Below one second the window is exact. */
  lemma ShortWindow(last: Timespec, now: Timespec, window: nat)
    requires last.Normal() && now.Normal() && window < 1000
    requires WindowOver(last, now, window).Some?
    ensures WindowOver(last, now, window).value <==> now.Value() - last.Value() >= window * MILISEC
  {
    NormalOrder(now, SetMillis(window));
    NormalOrder(last, now.Diff(SetMillis(window)).value);
  }

  /** From two seconds on, the test only looks at whole seconds and waits for two more of them. */
  lemma LongWindow(last: Timespec, now: Timespec, window: nat)
    requires last.Normal() && now.Normal() && window >= 2000
    requires WindowOver(last, now, window).Some?
    ensures WindowOver(last, now, window).value <==> now.sec - last.sec >= window / 1000 + 2
  {
    assert window * MILISEC >= 2000 * MILISEC;
  }

  /** In between it waits for one second more, and for a whole second boundary if that instant is
      not reached within the current second. */
  lemma MiddleWindow(last: Timespec, now: Timespec, window: nat)
    requires last.Normal() && now.Normal() && 1000 <= window < 2000
    requires WindowOver(last, now, window).Some?
    ensures WindowOver(last, now, window).value <==>
            if now.nsec >= window * MILISEC - ONE_SEC
            then now.Value() - last.Value() >= window * MILISEC + ONE_SEC
            else now.sec - last.sec >= 3
  {
  }

  /** Whatever the window, a swap is never early. */
  lemma NeverEarly(last: Timespec, now: Timespec, window: nat)
    requires last.Normal() && now.Normal()
    requires WindowOver(last, now, window) == Some(true)
    ensures now.Value() - last.Value() >= window * MILISEC
  {
    if window < 1000 {
      ShortWindow(last, now, window);
    } else if window < 2000 {
      MiddleWindow(last, now, window);
    } else {
      LongWindow(last, now, window);
      assert window == 1000 * (window / 1000) + window % 1000;
    }
  }

  /** And two seconds after the window it is no longer refused. */
  lemma NeverTooLate(last: Timespec, now: Timespec, window: nat)
    requires last.Normal() && now.Normal() && !TooSoon(now, window)
    requires now.Value() - last.Value() >= window * MILISEC + 2 * ONE_SEC
    ensures WindowOver(last, now, window) == Some(true)
  {
    WindowExit(last, now, window);
    if window < 1000 {
      ShortWindow(last, now, window);
    } else if window < 2000 {
      MiddleWindow(last, now, window);
    } else {
      LongWindow(last, now, window);
      assert window == 1000 * (window / 1000) + window % 1000;
    }
  }

  /** But it can be late: with the default window of 2 s, 3.9 s are not enough. */
  lemma LateSwap()
    ensures var last, now := Timespec(100, 0), Timespec(103, 900_000_000);
      now.Value() - last.Value() >= 2000 * MILISEC && WindowOver(last, now, 2000) == Some(false)
  {
  }
}
