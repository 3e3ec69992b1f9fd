/** When to send the next measurement packet, and with which number (src/measure.c:122-155). */
module MeasureTick {
  import opened Timespecs

  const U64: int := 0x1_0000_0000_0000_0000

  type uint64 = x: int | 0 <= x < U64

  /** The instant `k` intervals after `emit`. */
  function TickAt(emit: int, k: nat, step: int): int {
    if k == 0 then emit else TickAt(emit, k - 1, step) + step
  }

  /** The number of the first tick strictly after `now`, counted from `emit`. */
  function Ticks(emit: int, now: int, step: int): nat
    requires step > 0
  {
    if emit > now then 0 else (now - emit) / step + 1
  }

  lemma {:induction false} TickAtProduct(emit: int, k: nat, step: int)
    ensures TickAt(emit, k, step) == emit + k * step
  {
    if k > 0 {
      TickAtProduct(emit, k - 1, step);
      assert k * step == (k - 1) * step + step;
    }
  }

  /** A tick lies after `now` exactly from number `Ticks` on. */
  lemma TicksFirst(emit: int, now: int, step: int, k: nat)
    requires step > 0
    ensures TickAt(emit, k, step) > now <==> k >= Ticks(emit, now, step)
  {
    TickAtProduct(emit, k, step);
    if emit <= now {
      var q := (now - emit) / step;
      assert now - emit == q * step + (now - emit) % step;
      if k >= q + 1 {
        assert k * step >= (q + 1) * step;
      } else {
        assert k * step <= q * step;
      }
    } else {
      assert k * step >= 0;
    }
  }

  function Plus(counter: uint64, n: int): uint64 {
    (counter + n) % U64
  }

  lemma PlusPlus(counter: uint64, n: int, m: int)
    ensures Plus(Plus(counter, n), m) == Plus(counter, n + m)
    ensures Plus(counter, 0) == counter
  {
  }

  class MeasureState {
    /** `mp_out->counter` */
    var counter: uint64
    var outEmitTime: Timespec
    /** `mp_in->emit_time` */
    var inEmitTime: Timespec

    constructor (emitted: Timespec)
      ensures counter == 0 && inEmitTime == emitted
    {
      counter, outEmitTime, inEmitTime := 0, ZERO, emitted;
    }

    /** `measure_generate` */
    method Generate(now: Timespec)
      modifies this
      ensures counter == (old(counter) + 1) % U64 && outEmitTime == now && inEmitTime == old(inEmitTime)
    {
      counter := Plus(counter, 1);
      outEmitTime := now;
    }

    /** One interval later, with the carry as the code does it. */
    static method Advance(t: Timespec, interval: nat) returns (next: Timespec)
      requires 0 <= t.nsec <= ONE_SEC
      ensures 0 <= next.nsec <= ONE_SEC && next.Value() == t.Value() + interval * MILISEC
      ensures next.nsec == ONE_SEC <==> t.nsec + interval * MILISEC == ONE_SEC
    {
      next := t.(nsec := t.nsec + interval * MILISEC);
      if next.nsec > ONE_SEC {
        next := Timespec(next.sec + next.nsec / ONE_SEC, next.nsec % ONE_SEC);
      }
    }

    /** `measure_next_tick`.  The carry test is `>`, so a time may end with exactly one second of
        nanoseconds; neither the comparison nor the instant suffers from it. */
    method NextTick(now: Timespec, interval: nat) returns (next: Timespec)
      requires now.Normal() && inEmitTime.Normal() && interval >= 1
      modifies this`counter
      ensures 0 <= next.nsec <= ONE_SEC
      ensures var k := Ticks(inEmitTime.Value(), now.Value(), interval * MILISEC);
        && next.Value() == TickAt(inEmitTime.Value(), k, interval * MILISEC)
        && counter == (old(counter) + k - 1) % U64
    {
      ghost var emit, step := inEmitTime.Value(), interval * MILISEC;
      ghost var k := 0;
      next := inEmitTime;
      PlusPlus(counter, 0, 0);
      while !next.Gt(now)
        invariant 0 <= next.nsec <= ONE_SEC && next.Value() == TickAt(emit, k, step)
        invariant k == 0 || TickAt(emit, k - 1, step) <= now.Value()
        invariant counter == Plus(old(counter), k)
        decreases now.Value() - next.Value() + step
      {
        next := Advance(next, interval);
        PlusPlus(old(counter), k, 1);
        k := k + 1;
        counter := Plus(counter, 1);
      }
      PlusPlus(old(counter), k, -1);
      counter := Plus(counter, -1);
      TicksFirst(emit, now.Value(), step, k);
      if k > 0 {
        TicksFirst(emit, now.Value(), step, k - 1);
      }
    }

    /** So the packet generated for that tick carries the number of that tick. */
    method NextPacket(now: Timespec, interval: nat, at: Timespec) returns (next: Timespec)
      requires now.Normal() && inEmitTime.Normal() && interval >= 1
      modifies this
      ensures var k := Ticks(old(inEmitTime).Value(), now.Value(), interval * MILISEC);
        && counter == (old(counter) + k) % U64
        && next.Value() == TickAt(old(inEmitTime).Value(), k, interval * MILISEC) > now.Value()
        && forall j: nat | j < k :: TickAt(old(inEmitTime).Value(), j, interval * MILISEC) <= now.Value()
    {
      next := NextTick(now, interval);
      ghost var emit, step := inEmitTime.Value(), interval * MILISEC;
      ghost var k: int := Ticks(emit, now.Value(), step);
      TicksFirst(emit, now.Value(), step, k);
      forall j: nat | j < k ensures TickAt(emit, j, step) <= now.Value() {
        TicksFirst(emit, now.Value(), step, j);
      }
      PlusPlus(old(counter), k - 1, 1);
      Generate(at);
    }
  }
}
