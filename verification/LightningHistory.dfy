/** Whole runs of the receiver: the 2048-slot ring against an unbounded record of every id, and what
    that record says about each id (src/algo_lightning.c:243-274 and 331-343). */
module LightningHistory {
  import opened Basics
  import opened Timespecs
  import opened LightningMonitoring

  /** What is known of an id: it came in order, it is missing, it came after being missed, or it came in
      order and then again.  Unlike an entry of the ring, a fact has no left-over fields. */
  datatype Fact = OnTime(link: nat, at: Timespec) | Ongoing(link: nat, since: Timespec)
                | Done(link: nat, since: Timespec, at: Timespec) | Repeated(link: nat, at: Timespec)

  type Log = map<nat, Fact>

  /** An entry that says this.  A repeated id looks as if it had been late: only its link and the time of
      its last arrival mean anything, not the time of its detection. */
  predicate Says(e: Entry, f: Fact) {
    match f
    case OnTime(link, at) => e.state == InOrder && e.linkId == link && e.finishedAt == at
    case Ongoing(link, since) => e.state == OooOngoing && e.linkId == link && e.detectedAt == since
    case Done(link, since, at) =>
      e.state == OooDone && e.linkId == link && e.detectedAt == since && e.finishedAt == at
    case Repeated(link, at) => e.state == OooDone && e.linkId == link && e.finishedAt == at
  }

  /** What packet `m` says about the id `k` before it. */
  function Gap(m: Message, k: nat, now: Timespec): Fact
    requires m.id - |m.links| <= k < m.id
  {
    Ongoing(m.links[m.id - k - 1], now)
  }

  function LogAnnounce(u: Log, m: Message, n: nat, now: Timespec): Log
    requires n <= |m.links| && n <= m.id
  {
    u + map k: nat | m.id - n <= k < m.id :: Gap(m, k, now)
  }

  function LogArrive(u: Log, id: nat, link: nat, now: Timespec): Log {
    u[id := if id in u then Again(u[id], link, now) else OnTime(link, now)]
  }

  function Again(f: Fact, link: nat, now: Timespec): Fact {
    if f.Ongoing? || f.Done? then Done(link, f.since, now) else Repeated(link, now)
  }

  function LogReceive(u: Log, highest: nat, m: Message, link: nat, now: Timespec, sentPastLinks: nat): Log
    requires sentPastLinks <= |m.links|
  {
    LogArrive(LogAnnounce(u, m, Announced(highest, m.id, sentPastLinks), now), m.id, link, now)
  }

  // ------------------------------------------------------------- refinement

  /** The ids the ring can still speak about. */
  predicate InWindow(k: nat, highest: nat) {
    1 <= k <= highest && highest - HISTORIC_SIZE < k
  }

  predicate AgreeOn(r: Receiver, u: Log, k: nat)
    requires r.Valid()
  {
    && (k in u <==> r.historic[Slot(k)].pktId == k)
    && (k in u ==> Says(r.historic[Slot(k)], u[k]))
  }

  ghost predicate Agree(r: Receiver, u: Log) {
    && r.Valid() && Placed(r.historic, r.pktRcvId)
    && (forall k | k in u :: 1 <= k <= r.pktRcvId)
    && (forall k: nat | InWindow(k, r.pktRcvId) :: AgreeOn(r, u, k))
  }

  /** A packet newer than everything before. */
  lemma StepNew(r: Receiver, u: Log, m: Message, link: nat, now: Timespec, spl: nat)
    requires Agree(r, u) && spl <= |m.links| && spl <= MAX_LINKS && m.id > r.pktRcvId
    ensures Agree(Receive(r, m, link, now, spl), LogReceive(u, r.pktRcvId, m, link, now, spl))
    ensures Receive(r, m, link, now, spl).historic[Slot(m.id)].state == InOrder
  {
    var n := Announced(r.pktRcvId, m.id, spl);
    var s, v := Receive(r, m, link, now, spl), LogReceive(u, r.pktRcvId, m, link, now, spl);
    AnnounceExact(r.historic, m, n, now, r.pktRcvId);
    var g := Announce(r.historic, m, n, now);
    forall k: nat | InWindow(k, m.id) ensures AgreeOn(s, v, k) {
      if k < m.id {
        SlotsDiffer(k, m.id);
        if k < m.id - n {
          assert g[Slot(k)] == r.historic[Slot(k)];
          assert k in v <==> k in u;
          assert k <= r.pktRcvId ==> AgreeOn(r, u, k);
        } else {
          assert g[Slot(k)] == Missing(r.historic, m, k, now);
        }
      }
    }
    PlacedAfter(r.historic, m, n, now, r.pktRcvId, link);
  }

  /** A second arrival of an id that came in order turns its entry into a late one: finished now, and
      detected whenever the slot was last used for a missing packet. */
  lemma SecondArrival(r: Receiver, m: Message, link: nat, now: Timespec, spl: nat)
    requires r.Valid() && spl <= |m.links| && m.id <= r.pktRcvId
    requires r.historic[Slot(m.id)].pktId == m.id && r.historic[Slot(m.id)].state == InOrder
    ensures var e := r.historic[Slot(m.id)];
      Receive(r, m, link, now, spl) ==
        r.(historic := r.historic[Slot(m.id) := Entry(OooDone, e.detectedAt, now, link, m.id)])
  {
  }

  lemma PlacedAfter(h: seq<Entry>, m: Message, n: nat, now: Timespec, highest: nat, link: nat)
    requires |h| == HISTORIC_SIZE && n <= |m.links| && n <= MAX_LINKS && highest + n < m.id
    requires Placed(h, highest)
    ensures Placed(Arrive(Announce(h, m, n, now), m.id, link, now), m.id)
  {
    AnnounceExact(h, m, n, now, highest);
    var g := Announce(h, m, n, now);
    var r := Arrive(g, m.id, link, now);
    forall s | 0 <= s < HISTORIC_SIZE
      ensures r[s].pktId <= m.id && (r[s].pktId > 0 ==> Slot(r[s].pktId) == s)
    {
      var k := WindowId(m.id, s);
      assert Slot(k) == s;
      if k < m.id - n {
        assert g[Slot(k)] == h[Slot(k)];
      } else if k < m.id {
        assert g[Slot(k)] == Missing(h, m, k, now);
      }
    }
  }

  /** The id among the last 2048 up to `highest` that lives in slot `s`. */
  function WindowId(highest: int, s: nat): (k: int)
    requires s < HISTORIC_SIZE
    ensures highest - HISTORIC_SIZE < k <= highest && Slot(k) == s
  {
    var k := highest - (highest - s) % HISTORIC_SIZE;
    assert k == s + HISTORIC_SIZE * ((highest - s) / HISTORIC_SIZE);
    k
  }

  /** A late packet leaves ring and record in agreement exactly when it is not so late that its slot
      already speaks for an id of the window. */
  lemma StepLate(r: Receiver, u: Log, m: Message, link: nat, now: Timespec, spl: nat)
    requires Agree(r, u) && spl <= |m.links| && 1 <= m.id <= r.pktRcvId
    ensures Agree(Receive(r, m, link, now, spl), LogReceive(u, r.pktRcvId, m, link, now, spl)) <==>
            InWindow(m.id, r.pktRcvId) || WindowId(r.pktRcvId, Slot(m.id)) !in u
  {
    var s, v := Receive(r, m, link, now, spl), LogReceive(u, r.pktRcvId, m, link, now, spl);
    var w := WindowId(r.pktRcvId, Slot(m.id));
    assert LogAnnounce(u, m, 0, now) == u;
    forall k: nat | InWindow(k, r.pktRcvId) && k != w ensures AgreeOn(s, v, k) {
      SlotsDiffer(Min(k, w), if k < w then w else k);
      assert AgreeOn(r, u, k);
      assert k != m.id;
    }
    assert m.id >= 1 && (InWindow(m.id, r.pktRcvId) ==> AgreeOn(r, u, m.id));
    if InWindow(m.id, r.pktRcvId) {
      SameSlotSameId(m.id, w, r.pktRcvId);
    } else {
      assert w > m.id && InWindow(w, r.pktRcvId);
      assert s.historic[Slot(w)].pktId == m.id;
      assert v.Keys == u.Keys + {m.id};
      assert AgreeOn(s, v, w) <==> w !in u;
    }
  }

  lemma SameSlotSameId(a: int, b: int, highest: int)
    requires highest - HISTORIC_SIZE < a <= highest && highest - HISTORIC_SIZE < b <= highest
    requires Slot(a) == Slot(b)
    ensures a == b
  {
    if a < b {
      SlotsDiffer(a, b);
    } else if b < a {
      SlotsDiffer(b, a);
    }
  }

  // ------------------------------------------------------------------- runs

  datatype Arrival = Arrival(m: Message, link: nat, now: Timespec)

  function Highest(run: seq<Arrival>): nat {
    if run == [] then 0
    else
      var h, id := Highest(run[..|run| - 1]), run[|run| - 1].m.id;
      if id > h then id else h
  }

  predicate Carries(run: seq<Arrival>, spl: nat) {
    forall t | 0 <= t < |run| :: spl <= |run[t].m.links|
  }

  function RunRing(run: seq<Arrival>, spl: nat): (r: Receiver)
    requires Carries(run, spl)
    ensures r.Valid() && r.pktRcvId == Highest(run)
  {
    if run == [] then Initial()
    else
      var a := run[|run| - 1];
      Receive(RunRing(run[..|run| - 1], spl), a.m, a.link, a.now, spl)
  }

  function RunLog(run: seq<Arrival>, spl: nat): Log
    requires Carries(run, spl)
  {
    if run == [] then map[]
    else
      var r, a := run[..|run| - 1], run[|run| - 1];
      LogReceive(RunLog(r, spl), Highest(r), a.m, a.link, a.now, spl)
  }

  /** Ids start at 1. */
  predicate Positive(run: seq<Arrival>) {
    forall t | 0 <= t < |run| :: run[t].m.id >= 1
  }

  /** No packet is 2048 ids or more behind the newest one when it arrives. */
  predicate InTime(run: seq<Arrival>) {
    forall t | 0 <= t < |run| :: run[t].m.id > Highest(run[..t]) - HISTORIC_SIZE
  }

  predicate Received(run: seq<Arrival>, k: nat) {
    exists t :: 0 <= t < |run| && run[t].m.id == k
  }

  /** Arrival `s` is the first to go beyond `k`, and `k` is within reach of its list of links. */
  predicate Announces(run: seq<Arrival>, s: nat, k: nat, spl: nat) {
    s < |run| && Highest(run[..s]) < k < run[s].m.id && run[s].m.id - k <= spl
  }

  function AnnouncerOf(run: seq<Arrival>, k: nat, spl: nat): (r: Option<nat>)
    ensures r.Some? ==> Announces(run, r.value, k, spl)
  {
    if run == [] then None
    else
      var n := |run| - 1;
      var before := AnnouncerOf(run[..n], k, spl);
      assert before.Some? ==> run[..n][..before.value] == run[..before.value];
      if before.Some? then before
      else if Announces(run, n, k, spl) then Some(n)
      else None
  }

  /** The last arrival of `k`. */
  function LastOf(run: seq<Arrival>, k: nat): (r: Option<nat>)
    ensures r.Some? ==> r.value < |run| && run[r.value].m.id == k
    ensures r.Some? ==> forall t | r.value < t < |run| :: run[t].m.id != k
    ensures r.Some? <==> Received(run, k)
  {
    if run == [] then None
    else
      var n := |run| - 1;
      var before := LastOf(run[..n], k);
      assert forall t | 0 <= t < n :: run[..n][t] == run[t];
      if run[n].m.id == k then Some(n)
      else
        assert Received(run, k) ==> Received(run[..n], k) by {
          if Received(run, k) {
            var t :| 0 <= t < |run| && run[t].m.id == k;
            assert run[..n][t].m.id == k;
          }
        }
        before
  }

  /** How often `k` has arrived. */
  function Times(run: seq<Arrival>, k: nat): nat {
    if run == [] then 0
    else Times(run[..|run| - 1], k) + if run[|run| - 1].m.id == k then 1 else 0
  }

  // ------------------------------------------------------- results over runs

  lemma {:induction false} HighestCovers(run: seq<Arrival>, t: nat)
    requires t < |run|
    ensures run[t].m.id <= Highest(run) && Highest(run[..t]) <= Highest(run)
  {
    var r := run[..|run| - 1];
    if t < |run| - 1 {
      HighestCovers(r, t);
      assert r[..t] == run[..t];
    }
  }

  /** The ring refines the unbounded record over every run in which no packet is 2048 ids late, also if
      packets arrive more than once. */
  lemma {:induction false} RingRefinesLog(run: seq<Arrival>, spl: nat)
    requires Carries(run, spl) && spl <= MAX_LINKS && Positive(run) && InTime(run)
    ensures Agree(RunRing(run, spl), RunLog(run, spl))
  {
    if run != [] {
      var n := |run| - 1;
      var r, a := run[..n], run[n];
      Shorter(run, spl);
      RingRefinesLog(r, spl);
      var u := RunLog(r, spl);
      if a.m.id > Highest(r) {
        StepNew(RunRing(r, spl), u, a.m, a.link, a.now, spl);
      } else {
        StepLate(RunRing(r, spl), u, a.m, a.link, a.now, spl);
      }
    }
  }

  lemma Shorter(run: seq<Arrival>, spl: nat)
    requires run != []
    ensures var r := run[..|run| - 1];
      && (Carries(run, spl) ==> Carries(r, spl))
      && (Positive(run) ==> Positive(r))
      && (InTime(run) ==> InTime(r) && run[|run| - 1].m.id > Highest(r) - HISTORIC_SIZE)
  {
    var r := run[..|run| - 1];
    assert forall t | 0 <= t < |r| :: r[t] == run[t] && r[..t] == run[..t];
  }

  /** The announcer is the only arrival that announces `k`, and it comes before `k` itself. */
  lemma {:induction false} AnnouncerExact(run: seq<Arrival>, k: nat, spl: nat)
    requires k >= 1
    ensures forall s: nat :: AnnouncerOf(run, k, spl) == Some(s) <==> Announces(run, s, k, spl)
    ensures forall s: nat, t: nat | Announces(run, s, k, spl) && t <= s :: run[t].m.id != k
  {
    if run != [] {
      var n := |run| - 1;
      var r := run[..n];
      AnnouncerExact(r, k, spl);
      forall s: nat
        ensures s < n ==> (Announces(run, s, k, spl) <==> Announces(r, s, k, spl))
        ensures s < n && Announces(run, s, k, spl) ==> !Announces(run, n, k, spl)
      {
        if s < n {
          assert r[..s] == run[..s] && r[s] == run[s];
          HighestCovers(r, s);
        }
      }
    }
    forall s: nat, t: nat | Announces(run, s, k, spl) && t <= s ensures run[t].m.id != k {
      if t < s {
        HighestCovers(run[..s], t);
      }
    }
  }

  /** What the record must say about an id, told from the arrivals alone. */
  function Expected(run: seq<Arrival>, k: nat, spl: nat): Option<Fact>
    requires Carries(run, spl)
  {
    match (LastOf(run, k), AnnouncerOf(run, k, spl))
    case (None, None) => None
    case (None, Some(s)) => Some(Gap(run[s].m, k, run[s].now))
    case (Some(t), None) =>
      Some(if Times(run, k) == 1 then OnTime(run[t].link, run[t].now) else Repeated(run[t].link, run[t].now))
    case (Some(t), Some(s)) => Some(Done(run[t].link, run[s].now, run[t].now))
  }

  lemma {:induction false} TimesReceived(run: seq<Arrival>, k: nat)
    ensures Times(run, k) > 0 <==> Received(run, k)
  {
    if run != [] {
      TimesReceived(run[..|run| - 1], k);
      assert LastOf(run, k) == if run[|run| - 1].m.id == k then Some(|run| - 1) else LastOf(run[..|run| - 1], k);
    }
  }

  /** What one more arrival changes in that: its own id, and the ids it announces. */
  lemma ExpectedNext(run: seq<Arrival>, spl: nat, k: nat)
    requires run != [] && Carries(run, spl) && Positive(run) && k >= 1
    ensures var r, a := run[..|run| - 1], run[|run| - 1];
      Carries(r, spl) &&
      var before, g := Expected(r, k, spl), Announced(Highest(r), a.m.id, spl);
      Expected(run, k, spl) ==
        if k == a.m.id then
          Some(if before.Some? then Again(before.value, a.link, a.now) else OnTime(a.link, a.now))
        else if a.m.id - g <= k < a.m.id then Some(Gap(a.m, k, a.now))
        else before
  {
    var n := |run| - 1;
    var r, a := run[..n], run[n];
    Shorter(run, spl);
    AnnouncerExact(run, k, spl);
    AnnouncerExact(r, k, spl);
    TimesReceived(r, k);
    assert Announces(run, n, k, spl) <==> a.m.id - Announced(Highest(r), a.m.id, spl) <= k < a.m.id;
    if LastOf(r, k).Some? {
      HighestCovers(r, LastOf(r, k).value);
    }
  }

  /** The entry of id `k` after one more arrival. */
  lemma LogNext(u: Log, highest: nat, a: Arrival, spl: nat, k: nat)
    requires spl <= |a.m.links|
    ensures var v, g := LogReceive(u, highest, a.m, a.link, a.now, spl), Announced(highest, a.m.id, spl);
      if k == a.m.id then
        k in v && v[k] == if k in u then Again(u[k], a.link, a.now) else OnTime(a.link, a.now)
      else if a.m.id - g <= k < a.m.id then k in v && v[k] == Gap(a.m, k, a.now)
      else (k in v <==> k in u) && (k in u ==> v[k] == u[k])
  {
  }

  /** Classification over whole runs: an id is in order, missing, out of order or repeated exactly as its
      arrivals and its announcement say. */
  lemma {:induction false} LogExact(run: seq<Arrival>, spl: nat, k: nat)
    requires Carries(run, spl) && Positive(run) && k >= 1
    ensures Expected(run, k, spl) == if k in RunLog(run, spl) then Some(RunLog(run, spl)[k]) else None
  {
    if run != [] {
      var r := run[..|run| - 1];
      Shorter(run, spl);
      LogExact(r, spl, k);
      ExpectedNext(run, spl, k);
      LogNext(RunLog(r, spl), Highest(r), run[|run| - 1], spl, k);
    }
  }

  /** The packet that first raises the highest id to its own is in order, whatever arrived before it or
      comes after, until it comes again itself. */
  lemma NewHighestInOrder(run: seq<Arrival>, spl: nat, t: nat)
    requires Carries(run, spl) && Positive(run) && t < |run| && run[t].m.id > Highest(run[..t])
    ensures var k := run[t].m.id;
      && k in RunLog(run, spl)
      && (Times(run, k) == 1 ==> RunLog(run, spl)[k] == OnTime(run[t].link, run[t].now))
      && (Times(run, k) > 1 ==> RunLog(run, spl)[k].Repeated?)
  {
    var k := run[t].m.id;
    LogExact(run, spl, k);
    AnnouncerExact(run, k, spl);
    if AnnouncerOf(run, k, spl).Some? {
      var s := AnnouncerOf(run, k, spl).value;
      assert s < t;
      HighestCovers(run[..t], s);
      assert false;
    }
    TimesReceived(run, k);
    if Times(run, k) == 1 {
      OnlyOne(run, k, t);
    }
  }

  /** If an id came once, then that arrival is the last one. */
  lemma {:induction false} OnlyOne(run: seq<Arrival>, k: nat, t: nat)
    requires t < |run| && run[t].m.id == k && Times(run, k) == 1
    ensures LastOf(run, k) == Some(t)
  {
    var n := |run| - 1;
    if t < n {
      TimesReceived(run[..n], k);
      assert run[..n][t].m.id == k;
      OnlyOne(run[..n], k, t);
    }
  }

  /** An id that arrived is late in the record exactly when it came after the first packet beyond it, and
      that packet's list of links reached back to it; it is announced at most once, and never after it came. */
  lemma OutOfOrderExact(run: seq<Arrival>, spl: nat, t: nat)
    requires Carries(run, spl) && Positive(run) && t < |run|
    ensures var k := run[t].m.id;
      && k in RunLog(run, spl)
      && (RunLog(run, spl)[k].Done? <==> Missed(run, k, spl))
      && (RunLog(run, spl)[k].Repeated? <==> !Missed(run, k, spl) && Times(run, k) >= 2)
      && (forall s: nat | Announces(run, s, k, spl) :: s < t)
      && (forall s: nat, s': nat | Announces(run, s, k, spl) && Announces(run, s', k, spl) :: s == s')
  {
    var k := run[t].m.id;
    LogExact(run, spl, k);
    AnnouncerExact(run, k, spl);
    TimesReceived(run, k);
  }

  /** Some packet announced `k`. */
  ghost predicate Missed(run: seq<Arrival>, k: nat, spl: nat) {
    exists s: nat :: Announces(run, s, k, spl)
  }

  /** The ring itself: an entry of the last 2048 ids is OOO_DONE if and only if its id has arrived and was
      announced missing before, or has arrived at least twice. */
  lemma DoneExact(run: seq<Arrival>, spl: nat, k: nat)
    requires Carries(run, spl) && spl <= MAX_LINKS && Positive(run) && InTime(run) && InWindow(k, Highest(run))
    ensures var e := RunRing(run, spl).historic[Slot(k)];
      && (e.pktId == k <==> Received(run, k) || Missed(run, k, spl))
      && (e.pktId == k ==>
            && (e.state == OooDone <==> Received(run, k) && (Missed(run, k, spl) || Times(run, k) >= 2))
            && (e.state == OooOngoing <==> Missed(run, k, spl) && !Received(run, k))
            && (e.state == InOrder <==> !Missed(run, k, spl) && Times(run, k) == 1))
      && (Received(run, k) ==> e.finishedAt == run[LastOf(run, k).value].now)
  {
    RingRefinesLog(run, spl);
    assert AgreeOn(RunRing(run, spl), RunLog(run, spl), k);
    LogExact(run, spl, k);
    AnnouncerExact(run, k, spl);
    TimesReceived(run, k);
  }

  // ------------------------------------------- any run, however late its packets

  /** Entries keep to their slots, and none is newer than the highest id. */
  lemma {:induction false} RunPlaced(run: seq<Arrival>, spl: nat)
    requires Carries(run, spl) && spl <= MAX_LINKS
    ensures Placed(RunRing(run, spl).historic, Highest(run))
  {
    if run != [] {
      var r, a := run[..|run| - 1], run[|run| - 1];
      RunPlaced(r, spl);
      var h, highest := RunRing(r, spl).historic, Highest(r);
      if a.m.id > highest {
        PlacedAfter(h, a.m, Announced(highest, a.m.id, spl), a.now, highest, a.link);
      }
    }
  }

  /** So the guard of the detection loop never fires: every id announced gets its entry, over what was
      known of an older one. */
  lemma GuardNeverFires(run: seq<Arrival>, spl: nat, k: nat)
    requires run != [] && Carries(run, spl) && spl <= MAX_LINKS && Announces(run, |run| - 1, k, spl)
    ensures var r, a := run[..|run| - 1], run[|run| - 1];
      var h := RunRing(r, spl).historic;
      && h[Slot(k)].pktId < k && a.m.id - |a.m.links| <= k < a.m.id
      && RunRing(run, spl).historic[Slot(k)] == Missing(h, a.m, k, a.now)
  {
    var r, a := run[..|run| - 1], run[|run| - 1];
    RunPlaced(r, spl);
    AnnounceExact(RunRing(r, spl).historic, a.m, Announced(Highest(r), a.m.id, spl), a.now, Highest(r));
    SlotsDiffer(k, a.m.id);
  }

  /** Arrival `n` announces an id that lives in slot `s`. */
  ghost predicate GapIn(run: seq<Arrival>, n: nat, s: nat, spl: nat) {
    exists k: nat :: Announces(run, n, k, spl) && Slot(k) == s
  }

  /** The last arrival that does. */
  ghost function LastGap(run: seq<Arrival>, s: nat, spl: nat): (r: Option<nat>)
    ensures r.Some? ==> r.value < |run|
  {
    if run == [] then None
    else if GapIn(run, |run| - 1, s, spl) then Some(|run| - 1)
    else LastGap(run[..|run| - 1], s, spl)
  }

  /** When that was; no detection yet is the clock's origin. */
  ghost function GapTime(run: seq<Arrival>, s: nat, spl: nat): Timespec {
    match LastGap(run, s, spl)
    case None => ZERO
    case Some(t) => run[t].now
  }

  /** The detection time of an entry is that of the last gap seen in its slot, whatever id the slot is for
      by now: arrivals leave it alone. */
  lemma {:induction false} DetectedExact(run: seq<Arrival>, spl: nat, s: nat)
    requires Carries(run, spl) && spl <= MAX_LINKS && s < HISTORIC_SIZE
    ensures RunRing(run, spl).historic[s].detectedAt == GapTime(run, s, spl)
  {
    if run != [] {
      var n := |run| - 1;
      var r, a := run[..n], run[n];
      DetectedExact(r, spl, s);
      GapInWindow(run, spl, s);
      var g := Announced(Highest(r), a.m.id, spl);
      if g > 0 {
        RunPlaced(r, spl);
        AnnounceExact(RunRing(r, spl).historic, a.m, g, a.now, Highest(r));
      }
    }
  }

  /** The one id of the window in slot `s` tells whether the last arrival announces one there. */
  lemma GapInWindow(run: seq<Arrival>, spl: nat, s: nat)
    requires run != [] && spl <= MAX_LINKS && s < HISTORIC_SIZE
    ensures var n := |run| - 1;
      var id := run[n].m.id;
      GapIn(run, n, s, spl) <==>
        id - Announced(Highest(run[..n]), id, spl) <= WindowId(id, s) < id
  {
    var n := |run| - 1;
    var id := run[n].m.id;
    var k, g := WindowId(id, s), Announced(Highest(run[..n]), id, spl);
    forall j: nat | Announces(run, n, j, spl) && Slot(j) == s ensures j == k {
      SameSlotSameId(j, k, id);
    }
    if id - g <= k < id {
      assert Announces(run, n, k, spl);
    }
  }

  // ------------------------------------------------------------------- times

  /** The clock is monotonic. */
  predicate Monotone(run: seq<Arrival>) {
    && (forall t | 0 <= t < |run| :: run[t].now.Normal() && run[t].now.sec >= 0)
    && (forall s, t | 0 <= s < t < |run| :: run[s].now.Le(run[t].now))
  }

  /** No entry is ahead of `now`, and no packet was finished before it was missed. */
  predicate Timely(h: seq<Entry>, now: Timespec) {
    forall s | 0 <= s < |h| ::
      && h[s].detectedAt.Normal() && h[s].finishedAt.Normal()
      && h[s].detectedAt.Le(now) && h[s].finishedAt.Le(now)
      && (h[s].state == OooDone ==> h[s].detectedAt.Le(h[s].finishedAt))
  }

  lemma {:induction false} AnnounceTimely(h: seq<Entry>, m: Message, n: nat, now: Timespec)
    requires |h| == HISTORIC_SIZE && n <= |m.links| && n <= m.id && now.Normal() && Timely(h, now)
    ensures Timely(Announce(h, m, n, now), now)
  {
    if n > 0 {
      AnnounceTimely(h, m, n - 1, now);
    }
  }

  /** Over every run with a monotonic clock, duplicates and late packets included. */
  lemma {:induction false} RunTimely(run: seq<Arrival>, spl: nat, now: Timespec)
    requires Carries(run, spl) && Monotone(run) && now.Normal() && now.sec >= 0
    requires run != [] ==> run[|run| - 1].now.Le(now)
    ensures Timely(RunRing(run, spl).historic, now)
  {
    if run != [] {
      var r, a := run[..|run| - 1], run[|run| - 1];
      RunTimely(r, spl, a.now);
      AnnounceTimely(RunRing(r, spl).historic, a.m, Announced(Highest(r), a.m.id, spl), a.now);
    }
  }

  /** So the differences that the statistics compute on entries never reach the error exit. */
  lemma StatsNeverAbort(run: seq<Arrival>, spl: nat, now: Timespec, s: nat)
    requires Carries(run, spl) && Monotone(run) && now.Normal() && now.sec >= 0
    requires run != [] ==> run[|run| - 1].now.Le(now)
    requires s < HISTORIC_SIZE
    ensures var e := RunRing(run, spl).historic[s];
      && now.Diff(e.detectedAt).Some?
      && (e.state == OooDone ==>
            && e.finishedAt.Diff(e.detectedAt).Some?
            && 0 <= e.finishedAt.Diff(e.detectedAt).value.Millis() <= now.Millis())
  {
    RunTimely(run, spl, now);
    RunNonNegative(run, spl, s);
  }

  lemma {:induction false} RunNonNegative(run: seq<Arrival>, spl: nat, s: nat)
    requires Carries(run, spl) && Monotone(run) && s < HISTORIC_SIZE
    ensures var e := RunRing(run, spl).historic[s]; e.detectedAt.sec >= 0 && e.finishedAt.sec >= 0
  {
    if run != [] {
      var r, a := run[..|run| - 1], run[|run| - 1];
      RunNonNegative(r, spl, s);
      AnnounceNonNegative(RunRing(r, spl).historic, a.m, Announced(Highest(r), a.m.id, spl), a.now, s);
    }
  }

  lemma {:induction false} AnnounceNonNegative(h: seq<Entry>, m: Message, n: nat, now: Timespec, s: nat)
    requires |h| == HISTORIC_SIZE && n <= |m.links| && n <= m.id && s < HISTORIC_SIZE
    requires h[s].detectedAt.sec >= 0 && h[s].finishedAt.sec >= 0 && now.sec >= 0
    ensures var e := Announce(h, m, n, now)[s]; e.detectedAt.sec >= 0 && e.finishedAt.sec >= 0
  {
    if n > 0 {
      AnnounceNonNegative(h, m, n - 1, now, s);
    }
  }
}
