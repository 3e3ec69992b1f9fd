/** How `thunder` counts visits: links are visited round robin, every packet says how often its link
    was visited since the last packet on it, and the receiver works out what the others should have
    brought (src/algo_thunder.c:103-174 and 231-247). */
module ThunderCounting {
  /** The link after `l` in the round. */
  function NextOf(l: nat, total: nat): nat {
    if l + 1 >= total then 0 else l + 1
  }

  /** Links are visited in the order 0, 1, ..., total - 1, 0, ...: the link of visit `n`, from 0 on. */
  function LinkAt(n: nat, total: nat): (l: nat)
    requires total > 0
    ensures l < total
  {
    if n == 0 then 0 else NextOf(LinkAt(n - 1, total), total)
  }

  lemma {:induction false} LinkAtMod(n: nat, total: nat)
    requires total > 0
    ensures LinkAt(n, total) == n % total
  {
    if n > 0 {
      LinkAtMod(n - 1, total);
      DivModNext(n - 1, total);
    } else {
      Quotient(0, total, 0, 0);
    }
  }

  /** How often `link` was visited in the first `n` visits. */
  function Visits(n: nat, link: nat, total: nat): nat
    requires total > 0
  {
    if n == 0 then 0 else Visits(n - 1, link, total) + if LinkAt(n - 1, total) == link then 1 else 0
  }

  lemma DivModNext(n: nat, total: nat)
    requires total > 0
    ensures (n + 1) % total == if n % total == total - 1 then 0 else n % total + 1
    ensures (n + 1) / total == if n % total == total - 1 then n / total + 1 else n / total
  {
    var q, r := n / total, n % total;
    assert n == q * total + r;
    if r == total - 1 {
      assert n + 1 == (q + 1) * total;
      Quotient(n + 1, total, q + 1, 0);
    } else {
      Quotient(n + 1, total, q, r + 1);
    }
  }

  lemma Quotient(a: nat, b: nat, q: nat, r: nat)
    requires b > 0 && r < b && a == q * b + r
    ensures a / b == q && a % b == r
  {
    var q', r' := a / b, a % b;
    assert a == q' * b + r' && (q - q') * b == r' - r;
    if q > q' {
      Product(q - q', b);
    } else if q < q' {
      Product(q' - q, b);
    }
  }

  lemma Product(k: nat, b: nat)
    requires k >= 1
    ensures k * b >= b
  {
  }

  /** Closed form: after `n` visits every link had `n / total`, and the first `n % total` one more. */
  lemma {:induction false} VisitsClosed(n: nat, link: nat, total: nat)
    requires link < total
    ensures Visits(n, link, total) == n / total + if link < n % total then 1 else 0
  {
    if n > 0 {
      VisitsClosed(n - 1, link, total);
      DivModNext(n - 1, total);
      LinkAtMod(n - 1, total);
    } else {
      Quotient(0, total, 0, 0);
    }
  }

  /** What `classify` expects of link `i` when the count of `link` is `received`. */
  function Expected(received: nat, link: nat, i: nat): int {
    if i <= link then received else received - 1
  }

  /** Right after visit `n - 1`, to link `l`, the counts of all links follow from that of `l`. */
  lemma RoundRobinCounts(n: nat, i: nat, total: nat)
    requires n > 0 && i < total
    ensures var l := LinkAt(n - 1, total);
      1 + Visits(n, i, total) == Expected(1 + Visits(n, l, total), l, i)
  {
    var l := LinkAt(n - 1, total);
    LinkAtMod(n - 1, total);
    DivModNext(n - 1, total);
    VisitsClosed(n, i, total);
    VisitsClosed(n, l, total);
  }

  // ---------------------------------------------------------- the two ends

  /** A packet on its link: the 8-bit count it carries, and (not on the wire) how many visits there
      had been when it left. */
  datatype Packet = Packet(inc: nat, at: nat)

  /** The sender after `visits` visits; per link the 8-bit counter, the packets sent in order, how
      many of them have arrived, and what the receiver has counted.  Of the receiver's last reset it is
      remembered what it set the counts to, and how many packets had arrived. */
  datatype System = System(visits: nat, toIncrement: seq<nat>, sent: seq<seq<Packet>>, arrived: seq<nat>,
                           received: seq<nat>, base: seq<nat>, since: seq<nat>)

  datatype Event = Visit(send: bool) | Deliver(link: nat) | Reset(marks: seq<nat>)

  function Initial(total: nat): System {
    System(0, seq(total, _ => 0), seq(total, _ => []), seq(total, _ => 0), seq(total, _ => 1),
           seq(total, _ => 1), seq(total, _ => 0))
  }

  predicate Shape(w: System, total: nat) {
    && total > 0 && |w.toIncrement| == |w.sent| == |w.arrived| == |w.received| == |w.base| == |w.since| == total
    && forall l | 0 <= l < total :: w.since[l] <= w.arrived[l] <= |w.sent[l]|
  }

  /** `Visit` is one turn of the scheduler, which may or may not put a packet on the visited link;
      links are reliable and first in, first out.  `Reset` is what the receiver does when its own scheduler
      finds all links blacklisted: each count becomes one more than the link's mark. */
  function Step(w: System, e: Event, total: nat): (r: System)
    requires Shape(w, total)
    ensures Shape(r, total)
  {
    match e
    case Visit(send) =>
      var l := LinkAt(w.visits, total);
      var n, c := w.visits + 1, (w.toIncrement[l] + 1) % 256;
      if send then
        w.(visits := n, toIncrement := w.toIncrement[l := 0], sent := w.sent[l := w.sent[l] + [Packet(c, n)]])
      else w.(visits := n, toIncrement := w.toIncrement[l := c])
    case Deliver(l) =>
      if l < total && w.arrived[l] < |w.sent[l]| then
        w.(arrived := w.arrived[l := w.arrived[l] + 1],
           received := w.received[l := w.received[l] + w.sent[l][w.arrived[l]].inc])
      else w
    case Reset(marks) =>
      if |marks| == total then
        var counts := seq(total, l requires 0 <= l < total => marks[l] + 1);
        w.(received := counts, base := counts, since := w.arrived)
      else w
  }

  function Run(events: seq<Event>, total: nat): (w: System)
    requires total > 0
    ensures Shape(w, total)
  {
    if events == [] then Initial(total) else Step(Run(events[..|events| - 1], total), events[|events| - 1], total)
  }

  /** Visits at the time packet `j` of a link left; 0 before the first one. */
  function At(s: seq<Packet>, j: nat): nat
    requires j <= |s|
  {
    if j == 0 then 0 else s[j - 1].at
  }

  /** Visits of link `l` between its packets `j - 1` and `j`. */
  function GapVisits(s: seq<Packet>, j: nat, l: nat, total: nat): int
    requires j < |s| && total > 0
  {
    Visits(At(s, j + 1), l, total) - Visits(At(s, j), l, total)
  }

  /** Each packet carries the visits since the one before, modulo 256, and left on a visit of its link. */
  predicate LinkExact(s: seq<Packet>, l: nat, total: nat)
    requires total > 0
  {
    forall j | 0 <= j < |s| :: PacketExact(s, j, l, total)
  }

  predicate PacketExact(s: seq<Packet>, j: nat, l: nat, total: nat)
    requires j < |s| && total > 0
  {
    && s[j].at > 0 && LinkAt(s[j].at - 1, total) == l
    && GapVisits(s, j, l, total) > 0 && s[j].inc == GapVisits(s, j, l, total) % 256
  }

  function SumInc(s: seq<Packet>, n: nat): nat
    requires n <= |s|
  {
    if n == 0 then 0 else SumInc(s, n - 1) + s[n - 1].inc
  }

  /** Visits since the last packet of a link. */
  function Since(s: seq<Packet>, visits: nat, l: nat, total: nat): int
    requires total > 0
  {
    Visits(visits, l, total) - Visits(At(s, |s|), l, total)
  }

  ghost predicate Inv(w: System, total: nat) {
    && Shape(w, total)
    && forall l | 0 <= l < total :: LinkInv(w, l, total)
  }

  ghost predicate LinkInv(w: System, l: nat, total: nat)
    requires Shape(w, total) && l < total
  {
    && LinkExact(w.sent[l], l, total)
    && At(w.sent[l], |w.sent[l]|) <= w.visits
    && Since(w.sent[l], w.visits, l, total) >= 0
    && w.toIncrement[l] == Since(w.sent[l], w.visits, l, total) % 256
    && w.received[l] == w.base[l] + SumInc(w.sent[l], w.arrived[l]) - SumInc(w.sent[l], w.since[l])
  }

  lemma {:induction false} SumIncPrefix(s: seq<Packet>, p: Packet, n: nat)
    requires n <= |s|
    ensures SumInc(s + [p], n) == SumInc(s, n)
  {
    if n > 0 {
      SumIncPrefix(s, p, n - 1);
    }
  }

  lemma ModNext(a: nat, b: nat)
    requires a == b % 256
    ensures (a + 1) % 256 == (b + 1) % 256
  {
  }

  /** A packet sent on the current visit extends its link's record. */
  lemma SendExact(s: seq<Packet>, visits: nat, inc: nat, l: nat, total: nat)
    requires total > 0 && LinkExact(s, l, total) && At(s, |s|) <= visits && l == LinkAt(visits, total)
    requires Since(s, visits, l, total) >= 0 && inc == Since(s, visits, l, total) % 256
    ensures LinkExact(s + [Packet((inc + 1) % 256, visits + 1)], l, total)
  {
    var t := s + [Packet((inc + 1) % 256, visits + 1)];
    ModNext(inc, Since(s, visits, l, total));
    forall j | 0 <= j < |t| ensures PacketExact(t, j, l, total) {
      if j < |s| {
        assert PacketExact(s, j, l, total);
      }
    }
  }

  lemma SendKeepsLink(w: System, total: nat)
    requires Shape(w, total) && LinkInv(w, LinkAt(w.visits, total), total)
    ensures LinkInv(Step(w, Visit(true), total), LinkAt(w.visits, total), total)
  {
    var l := LinkAt(w.visits, total);
    var s, t := w.sent[l], Step(w, Visit(true), total).sent[l];
    SendExact(s, w.visits, w.toIncrement[l], l, total);
    SumIncPrefix(s, t[|s|], w.arrived[l]);
    SumIncPrefix(s, t[|s|], w.since[l]);
    assert At(t, |t|) == w.visits + 1;
  }

  lemma SkipKeepsLink(w: System, total: nat)
    requires Shape(w, total) && LinkInv(w, LinkAt(w.visits, total), total)
    ensures LinkInv(Step(w, Visit(false), total), LinkAt(w.visits, total), total)
  {
    var l := LinkAt(w.visits, total);
    ModNext(w.toIncrement[l], Since(w.sent[l], w.visits, l, total));
  }

  lemma OtherKeepsLink(w: System, send: bool, l: nat, total: nat)
    requires Shape(w, total) && l < total && l != LinkAt(w.visits, total) && LinkInv(w, l, total)
    ensures LinkInv(Step(w, Visit(send), total), l, total)
  {
    var v := Step(w, Visit(send), total);
    assert v.sent[l] == w.sent[l] && v.toIncrement[l] == w.toIncrement[l];
    assert Visits(v.visits, l, total) == Visits(w.visits, l, total);
  }

  lemma VisitKeeps(w: System, send: bool, total: nat)
    requires Inv(w, total)
    ensures Inv(Step(w, Visit(send), total), total)
  {
    forall l | 0 <= l < total ensures LinkInv(Step(w, Visit(send), total), l, total) {
      assert LinkInv(w, l, total);
      if l != LinkAt(w.visits, total) {
        OtherKeepsLink(w, send, l, total);
      } else if send {
        SendKeepsLink(w, total);
      } else {
        SkipKeepsLink(w, total);
      }
    }
  }

  lemma DeliverKeeps(w: System, link: nat, total: nat)
    requires Inv(w, total)
    ensures Inv(Step(w, Deliver(link), total), total)
  {
    var v := Step(w, Deliver(link), total);
    forall l | 0 <= l < total ensures LinkInv(v, l, total) {
      assert LinkInv(w, l, total);
    }
  }

  lemma ResetKeeps(w: System, marks: seq<nat>, total: nat)
    requires Inv(w, total)
    ensures Inv(Step(w, Reset(marks), total), total)
  {
    var v := Step(w, Reset(marks), total);
    forall l | 0 <= l < total ensures LinkInv(v, l, total) {
      assert LinkInv(w, l, total);
    }
  }

  lemma {:induction false} RunInv(events: seq<Event>, total: nat)
    requires total > 0
    ensures Inv(Run(events, total), total)
  {
    if events != [] {
      var w := Run(events[..|events| - 1], total);
      RunInv(events[..|events| - 1], total);
      match events[|events| - 1]
      case Visit(send) => VisitKeeps(w, send, total);
      case Deliver(l) => DeliverKeeps(w, l, total);
      case Reset(marks) => ResetKeeps(w, marks, total);
    } else {
      var w := Initial(total);
      forall l | 0 <= l < total ensures LinkInv(w, l, total) {
      }
    }
  }

  /** None of the packets from `m` to `n` waited for 256 visits of its link or more. */
  predicate NoWrap(s: seq<Packet>, m: nat, n: nat, l: nat, total: nat)
    requires n <= |s| && total > 0
  {
    forall j | m <= j < n :: GapVisits(s, j, l, total) < 256
  }

  /** The increments add up to the visits exactly when no 8-bit counter wrapped. */
  lemma {:induction false} SumExact(s: seq<Packet>, m: nat, n: nat, l: nat, total: nat)
    requires m <= n <= |s| && total > 0 && LinkExact(s, l, total)
    ensures SumInc(s, n) - SumInc(s, m) <= Visits(At(s, n), l, total) - Visits(At(s, m), l, total)
    ensures SumInc(s, n) - SumInc(s, m) == Visits(At(s, n), l, total) - Visits(At(s, m), l, total) <==>
            NoWrap(s, m, n, l, total)
    decreases n - m
  {
    if m < n {
      SumExact(s, m, n - 1, l, total);
      assert PacketExact(s, n - 1, l, total);
    }
  }

  /** How far the last reset put the count of a link beyond the visits that it had had when its latest packet
      left; without a reset, not at all. */
  function Shift(w: System, l: nat, total: nat): int
    requires Shape(w, total) && l < total
  {
    w.base[l] - 1 - Visits(At(w.sent[l], w.since[l]), l, total)
  }

  /** Right after a reset, by so much as the mark was beyond them. */
  lemma ResetExact(w: System, marks: seq<nat>, total: nat, l: nat)
    requires Shape(w, total) && |marks| == total && l < total
    ensures var v := Step(w, Reset(marks), total);
      && v.received[l] == marks[l] + 1
      && Shift(v, l, total) == marks[l] - Visits(At(w.sent[l], w.arrived[l]), l, total)
  {
  }

  predicate Wrapless(w: System, l: nat, total: nat)
    requires Shape(w, total) && l < total
  {
    NoWrap(w.sent[l], w.since[l], w.arrived[l], l, total)
  }

  lemma {:induction false} NoShift(events: seq<Event>, total: nat, l: nat)
    requires l < total && forall i | 0 <= i < |events| :: !events[i].Reset?
    ensures Shift(Run(events, total), l, total) == 0 && Run(events, total).since[l] == 0
  {
    if events != [] {
      NoShift(events[..|events| - 1], total, l);
    }
  }

  /** What the receiver has counted on a link is one more than the visits that link had had when its
      latest packet left, shifted by the last reset, exactly as long as no counter has wrapped since. */
  lemma ReceivedExact(events: seq<Event>, total: nat, l: nat)
    requires l < total
    ensures var w := Run(events, total);
      w.received[l] == 1 + Visits(At(w.sent[l], w.arrived[l]), l, total) + Shift(w, l, total) <==>
      Wrapless(w, l, total)
  {
    RunInv(events, total);
    var w := Run(events, total);
    assert LinkInv(w, l, total);
    SumExact(w.sent[l], w.since[l], w.arrived[l], l, total);
  }

  /** On the arrival of a packet on link `l`, what the receiver expects of every link `i` is one more
      than the visits the sender had made to `i` when it sent that packet, shifted as the count of `l` is. */
  lemma ExpectedExact(events: seq<Event>, total: nat, l: nat, i: nat)
    requires l < total && i < total
    requires var w := Run(events, total); w.arrived[l] > 0 && Wrapless(w, l, total)
    ensures var w := Run(events, total);
      Expected(w.received[l], l, i) ==
        1 + Visits(w.sent[l][w.arrived[l] - 1].at, i, total) + Shift(w, l, total)
  {
    ReceivedExact(events, total, l);
    RunInv(events, total);
    var w := Run(events, total);
    assert LinkInv(w, l, total);
    assert PacketExact(w.sent[l], w.arrived[l] - 1, l, total);
    RoundRobinCounts(w.sent[l][w.arrived[l] - 1].at, i, total);
  }

  /** So, without wraps, a link is found behind exactly when some visit to it before that packet has
      not been accounted for by a packet that arrived on it, or by a greater shift. */
  lemma BehindExact(events: seq<Event>, total: nat, l: nat, i: nat)
    requires l < total && i < total
    ensures var w := Run(events, total);
      w.arrived[l] > 0 && Wrapless(w, l, total) && Wrapless(w, i, total) ==>
        (w.received[i] < Expected(w.received[l], l, i) <==>
         Visits(At(w.sent[i], w.arrived[i]), i, total) + Shift(w, i, total) <
         Visits(w.sent[l][w.arrived[l] - 1].at, i, total) + Shift(w, l, total))
  {
    var w := Run(events, total);
    if w.arrived[l] > 0 && Wrapless(w, l, total) {
      ExpectedExact(events, total, l, i);
      ReceivedExact(events, total, i);
    }
  }

  /** Without resets there are no shifts: a link is behind exactly when a visit is unaccounted for. */
  lemma BehindWithoutReset(events: seq<Event>, total: nat, l: nat, i: nat)
    requires l < total && i < total && forall j | 0 <= j < |events| :: !events[j].Reset?
    ensures var w := Run(events, total);
      w.arrived[l] > 0 && Wrapless(w, l, total) && Wrapless(w, i, total) ==>
        (w.received[i] < Expected(w.received[l], l, i) <==>
         Visits(At(w.sent[i], w.arrived[i]), i, total) < Visits(w.sent[l][w.arrived[l] - 1].at, i, total))
  {
    BehindExact(events, total, l, i);
    NoShift(events, total, l);
    NoShift(events, total, i);
  }
}
