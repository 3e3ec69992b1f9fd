/** Consecutive selections in one category take turns (src/algo_lightning.c:405-416 and 562-592). */
module LightningFairness {
  import opened Basics
  import opened Timespecs
  import opened LightningMonitoring
  import opened LightningHistory
  import opened LightningScheduler

  /** Some selections of links of one category: when each was made, which link it picked, and when that
      link was stamped.  `lasts[i]` are the stamps before selection `i`. */
  datatype Turns = Turns(used: seq<LinkCat>, cat: LinkCat, lasts: seq<seq<Timespec>>,
                         nows: seq<Timespec>, picks: seq<nat>, stamps: seq<Timespec>) {
    ghost predicate Valid() {
      && |nows| == |picks| == |stamps| && |lasts| == |nows| + 1
      && forall i | 0 <= i < |lasts| :: |lasts[i]| == |used|
    }

    /** Selection `i` follows the program's rule, and up to the next one the stamps of the category
        change only through it; stamps of other links may change at will. */
    ghost predicate FollowsAt(i: nat)
      requires Valid() && i < |picks|
    {
      && Picks(used, lasts[i], cat, nows[i], picks[i])
      && forall l | 0 <= l < |used| && used[l] == cat ::
           lasts[i + 1][l] == if l == picks[i] then stamps[i] else lasts[i][l]
    }

    ghost predicate Follows()
      requires Valid()
    {
      forall i | 0 <= i < |picks| :: FollowsAt(i)
    }

    /** The clock does not stand still between a stamp and the next selection, nor at the start. */
    ghost predicate ClockAdvances()
      requires Valid()
    {
      && (forall i | 0 <= i < |nows| :: nows[i].Value() <= stamps[i].Value())
      && (forall i | 0 < i < |nows| :: stamps[i - 1].Value() < nows[i].Value())
      && (|nows| > 0 ==> forall l | 0 <= l < |used| && used[l] == cat :: lasts[0][l].Value() < nows[0].Value())
    }
  }

  /** When a selection is made, every link of the category has been used before. */
  lemma {:induction false} AllBefore(t: Turns, i: nat)
    requires t.Valid() && t.Follows() && t.ClockAdvances() && i < |t.picks|
    ensures forall l | 0 <= l < |t.used| && t.used[l] == t.cat :: t.lasts[i][l].Value() < t.nows[i].Value()
  {
    if i > 0 {
      AllBefore(t, i - 1);
      assert t.FollowsAt(i - 1);
    }
  }

  function PickSet(t: Turns, from: nat, n: nat): set<nat>
    requires from + n <= |t.picks|
  {
    set j | from <= j < from + n :: t.picks[j]
  }

  /** Before selection `i`, in a round begun at `from`: the links of `p` have been stamped since, and
      the other links of the category have not. */
  ghost predicate InRound(t: Turns, from: nat, i: nat, p: set<nat>)
    requires t.Valid() && from < |t.picks| && i <= |t.picks|
  {
    && p <= InCat(t.used, t.cat)
    && (forall l | l in p :: t.lasts[i][l].Value() >= t.nows[from].Value())
    && forall l | l in InCat(t.used, t.cat) && l !in p :: t.lasts[i][l].Value() < t.nows[from].Value()
  }

  /** Within a round the next selection is a link not picked in it yet. */
  lemma NextIsNew(t: Turns, from: nat, i: nat, p: set<nat>)
    requires t.Valid() && t.Follows() && from <= i < |t.picks|
    requires InRound(t, from, i, p) && |p| < |InCat(t.used, t.cat)|
    ensures t.picks[i] !in p && t.picks[i] in InCat(t.used, t.cat)
  {
    var f := InCat(t.used, t.cat);
    Smaller(p, f);
    var x :| x in f && x !in p;
    assert t.FollowsAt(i);
    assert t.lasts[i][t.picks[i]].Value() <= t.lasts[i][x].Value();
  }

  lemma StampNext(t: Turns, from: nat, i: nat, p: set<nat>)
    requires t.Valid() && t.Follows() && t.ClockAdvances() && from <= i < |t.picks|
    requires InRound(t, from, i, p) && t.picks[i] in InCat(t.used, t.cat)
    ensures InRound(t, from, i + 1, p + {t.picks[i]})
  {
    NowsGrow(t, from, i);
    assert t.FollowsAt(i);
  }

  lemma PickSetNext(t: Turns, from: nat, n: nat)
    requires from + n < |t.picks|
    ensures PickSet(t, from, n + 1) == PickSet(t, from, n) + {t.picks[from + n]}
  {
  }

  lemma RoundStart(t: Turns, from: nat)
    requires t.Valid() && t.Follows() && t.ClockAdvances() && from < |t.picks|
    ensures InRound(t, from, from, {})
  {
    AllBefore(t, from);
  }

  lemma {:induction false} Round(t: Turns, from: nat, n: nat)
    requires t.Valid() && t.Follows() && t.ClockAdvances()
    requires from + n <= |t.picks| && n <= |InCat(t.used, t.cat)| && from < |t.picks|
    ensures InRound(t, from, from + n, PickSet(t, from, n)) && |PickSet(t, from, n)| == n
  {
    if n == 0 {
      RoundStart(t, from);
      assert PickSet(t, from, 0) == {};
    } else {
      Round(t, from, n - 1);
      NextIsNew(t, from, from + n - 1, PickSet(t, from, n - 1));
      StampNext(t, from, from + n - 1, PickSet(t, from, n - 1));
      PickSetNext(t, from, n - 1);
    }
  }

  lemma Smaller(p: set<nat>, f: set<nat>)
    requires p <= f && |p| < |f|
    ensures exists x :: x in f && x !in p
  {
    if forall x :: x in f ==> x in p {
      assert f <= p;
      CardMonotone(f, p);
    }
  }

  lemma {:induction false} NowsGrow(t: Turns, i: nat, j: nat)
    requires t.Valid() && t.ClockAdvances() && i <= j < |t.nows|
    ensures t.nows[i].Value() <= t.nows[j].Value()
    decreases j - i
  {
    if i < j {
      NowsGrow(t, i, j - 1);
    }
  }

  /** Fairness: any |category| consecutive selections pick every link of the category exactly once,
      whether or not the packets could be sent. */
  lemma RoundRobin(t: Turns, from: nat)
    requires t.Valid() && t.Follows() && t.ClockAdvances()
    requires from + |InCat(t.used, t.cat)| <= |t.picks|
    ensures var k := |InCat(t.used, t.cat)|;
      && PickSet(t, from, k) == InCat(t.used, t.cat)
      && forall i, j | from <= i < j < from + k :: t.picks[i] != t.picks[j]
  {
    var f := InCat(t.used, t.cat);
    var k := |f|;
    if k > 0 {
      Round(t, from, k);
      SameCard(PickSet(t, from, k), f);
      forall i, j | from <= i < j < from + k ensures t.picks[i] != t.picks[j] {
        Round(t, from, j - from);
        NextIsNew(t, from, j, PickSet(t, from, j - from));
        assert t.picks[i] in PickSet(t, from, j - from);
      }
    } else {
      assert PickSet(t, from, 0) == {} && f == {};
    }
  }

  /** And a link is found at every selection, as long as the category has one. */
  lemma {:induction false} AlwaysPicks(used: seq<LinkCat>, last: seq<Timespec>, cat: LinkCat, now: Timespec, n: nat)
    returns (sel: nat)
    requires |last| == |used| && n < |used| && used[n] == cat
    requires forall l | 0 <= l < |used| && used[l] == cat :: last[l].Value() < now.Value()
    ensures Picks(used, last, cat, now, sel)
  {
    sel := n;
    var i, found := 0, false;
    while i < |used|
      invariant 0 <= i <= |used|
      invariant !found ==> forall l | 0 <= l < i :: used[l] != cat
      invariant found ==> sel < i && used[sel] == cat
      invariant found ==> forall l | 0 <= l < i && used[l] == cat :: last[sel].Value() <= last[l].Value()
      invariant found ==> forall l | 0 <= l < sel && used[l] == cat :: last[sel].Value() < last[l].Value()
    {
      if used[i] == cat && (!found || last[i].Value() < last[sel].Value()) {
        sel, found := i, true;
      }
      i := i + 1;
    }
  }

  // ------------------------------------------------------- runs of the scheduler

  /** The clock readings made for one datagram. */
  datatype Reading = Reading(now: Timespec, fastAt: Timespec, slowAt: Timespec) {
    predicate Ordered() {
      now.Normal() && fastAt.Normal() && slowAt.Normal() && now.Value() <= fastAt.Value() <= slowAt.Value()
    }
  }

  /** The clock before reading `i`. */
  function Floor(start: int, readings: seq<Reading>, i: nat): int
    requires i <= |readings|
  {
    if i == 0 then start else readings[i - 1].slowAt.Value()
  }

  predicate Ticking(start: int, readings: seq<Reading>) {
    forall i | 0 <= i < |readings| :: readings[i].Ordered() && Floor(start, readings, i) < readings[i].now.Value()
  }

  predicate AllUntil(last: seq<Timespec>, b: int) {
    forall l | 0 <= l < |last| :: last[l].Value() <= b
  }

  /** The selections made in a category so far: the stamps at the start, when each selection was made, what
      it picked and when that was stamped. */
  datatype Past = Past(first: seq<Timespec>, nows: seq<Timespec>, picks: seq<nat>, stamps: seq<Timespec>) {
    function More(now: Timespec, sel: nat, stamp: Timespec): Past {
      Past(first, nows + [now], picks + [sel], stamps + [stamp])
    }
  }

  /** `t` records exactly these selections, all made by the rule, in a category of `used`. */
  ghost predicate Made(t: Turns, used: seq<LinkCat>, cat: LinkCat, past: Past) {
    && t.Valid() && t.used == used && t.cat == cat && t.Follows()
    && t.lasts[0] == past.first && t.nows == past.nows && t.picks == past.picks && t.stamps == past.stamps
  }

  /** And `last` are the stamps of the category now. */
  ghost predicate Tracks(t: Turns, used: seq<LinkCat>, cat: LinkCat, past: Past, last: seq<Timespec>, b: int) {
    && Made(t, used, cat, past) && t.ClockAdvances() && |last| == |used|
    && (forall l | 0 <= l < |used| && used[l] == cat :: t.lasts[|past.picks|][l] == last[l])
    && (|past.picks| > 0 ==> t.stamps[|past.picks| - 1].Value() <= b)
  }

  /** The selections made in a category so far: none finds a link, or all are recorded. */
  ghost predicate Recorded(t: Turns, used: seq<LinkCat>, cat: LinkCat, past: Past, last: seq<Timespec>, b: int) {
    if InCat(used, cat) == {} then
      |past.picks| == |past.nows| && forall i | 0 <= i < |past.picks| :: past.picks[i] == NO_LINK
    else Tracks(t, used, cat, past, last, b)
  }

  function NoTurns(used: seq<LinkCat>, cat: LinkCat, last: seq<Timespec>): Turns {
    Turns(used, cat, [last], [], [], [])
  }

  function Extended(t: Turns, now: Timespec, sel: nat, stamp: Timespec, after: seq<Timespec>): Turns {
    Turns(t.used, t.cat, t.lasts + [after], t.nows + [now], t.picks + [sel], t.stamps + [stamp])
  }

  lemma RecordMore(t: Turns, used: seq<LinkCat>, cat: LinkCat, past: Past, last: seq<Timespec>, b: int,
                   now: Timespec, sel: nat, stamp: Timespec, after: seq<Timespec>, c: int)
    requires Tracks(t, used, cat, past, last, b) && AllUntil(last, b) && b < now.Value() <= stamp.Value() <= c
    requires Picks(used, last, cat, now, sel) && |after| == |used|
    requires forall l | 0 <= l < |used| && used[l] == cat :: after[l] == if l == sel then stamp else last[l]
    ensures Tracks(Extended(t, now, sel, stamp, after), used, cat, past.More(now, sel, stamp), after, c)
  {
    var u, n := Extended(t, now, sel, stamp, after), |past.picks|;
    forall i | 0 <= i < |u.lasts| ensures |u.lasts[i]| == |used| {
      if i < |t.lasts| {
        assert u.lasts[i] == t.lasts[i];
      }
    }
    forall i | 0 <= i < |u.picks| ensures u.FollowsAt(i) {
      assert u.lasts[i] == t.lasts[i];
      if i < n {
        assert t.FollowsAt(i) && u.lasts[i + 1] == t.lasts[i + 1];
      }
    }
    ClockMore(t, used, cat, past, last, b, now, sel, stamp, after);
  }

  lemma ClockMore(t: Turns, used: seq<LinkCat>, cat: LinkCat, past: Past, last: seq<Timespec>, b: int,
                  now: Timespec, sel: nat, stamp: Timespec, after: seq<Timespec>)
    requires Tracks(t, used, cat, past, last, b) && AllUntil(last, b) && b < now.Value() <= stamp.Value()
    requires Extended(t, now, sel, stamp, after).Valid()
    ensures Extended(t, now, sel, stamp, after).ClockAdvances()
  {
    var u, n := Extended(t, now, sel, stamp, after), |past.picks|;
    forall i | 0 < i < |u.nows| ensures u.stamps[i - 1].Value() < u.nows[i].Value() {
      if i < n {
        assert u.stamps[i - 1] == t.stamps[i - 1] && u.nows[i] == t.nows[i];
      }
    }
    assert u.lasts[0] == t.lasts[0] && (n > 0 ==> u.nows[0] == t.nows[0]);
  }

  /** The outcome of a dispatch in one category is recorded, whether it was its turn or not. */
  ghost method Record(t: Turns, used: seq<LinkCat>, cat: LinkCat, past: Past, last: seq<Timespec>, b: int,
                      now: Timespec, sel: nat, wanted: bool, stamp: Timespec, after: seq<Timespec>, c: int)
    returns (u: Turns)
    requires Recorded(t, used, cat, past, last, b) && |last| == |after| == |used| && AllUntil(last, b)
    requires b < now.Value() <= stamp.Value() <= c && Chosen(used, last, cat, now, sel, wanted)
    requires forall l | 0 <= l < |used| && used[l] == cat :: after[l] == if l == sel then stamp else last[l]
    requires |used| <= NO_LINK
    ensures Recorded(u, used, cat, if wanted then past.More(now, sel, stamp) else past, after, c)
  {
    u := t;
    if wanted {
      ChosenPicks(used, last, cat, b, now, sel);
      if sel != NO_LINK {
        RecordMore(t, used, cat, past, last, b, now, sel, stamp, after, c);
        u := Extended(t, now, sel, stamp, after);
      }
    }
  }

  /** With an advancing clock, a selection finds a link exactly if the category has one. */
  lemma ChosenPicks(used: seq<LinkCat>, last: seq<Timespec>, cat: LinkCat, b: int, now: Timespec, sel: nat)
    requires |last| == |used| <= NO_LINK && AllUntil(last, b) && b < now.Value()
    requires Chosen(used, last, cat, now, sel, true)
    ensures sel == NO_LINK <==> InCat(used, cat) == {}
  {
    if sel == NO_LINK {
      assert forall l | 0 <= l < |used| :: used[l] != cat;
    } else {
      assert sel in InCat(used, cat);
    }
  }

  /** Every selection finds a link if there is one, and any |links| in a row pick each of them once. */
  ghost predicate Fair(picks: seq<nat>, links: set<nat>) {
    && (links == {} ==> forall i | 0 <= i < |picks| :: picks[i] == NO_LINK)
    && (links != {} ==> forall i | 0 <= i < |picks| :: picks[i] in links)
    && (links != {} ==> forall from: nat | from + |links| <= |picks| :: OncePerRound(picks, from, links))
  }

  ghost predicate OncePerRound(picks: seq<nat>, from: nat, links: set<nat>)
    requires from + |links| <= |picks|
  {
    && (set j | from <= j < from + |links| :: picks[j]) == links
    && forall i, j | from <= i < j < from + |links| :: picks[i] != picks[j]
  }

  lemma RecordedFair(t: Turns, used: seq<LinkCat>, cat: LinkCat, past: Past, last: seq<Timespec>, b: int)
    requires Recorded(t, used, cat, past, last, b)
    ensures Fair(past.picks, InCat(used, cat))
  {
    var links := InCat(used, cat);
    if links != {} {
      forall i | 0 <= i < |past.picks| ensures past.picks[i] in links {
        assert t.FollowsAt(i);
      }
      forall from: nat | from + |links| <= |past.picks| ensures OncePerRound(past.picks, from, links) {
        RoundRobin(t, from);
      }
    }
  }

  // --------------------------------------------------- which readings make a selection

  /** Whether a datagram makes a selection in a category. */
  predicate Wanted(strategy: Strategy, cat: LinkCat) {
    (cat == Fast && strategy != OnlySlow) || (cat == Slow && strategy != OnlyFast)
  }

  /** The strategy for datagram `i`. */
  function StrategyAt(strategy: Strategy, i: nat): Strategy {
    if i == 0 then strategy else NextStrategy(StrategyAt(strategy, i - 1))
  }

  /** Sending on both stays so; sending on one alternates. */
  lemma {:induction false} Alternates(strategy: Strategy, i: nat)
    ensures strategy == Both ==> StrategyAt(strategy, i) == Both
    ensures strategy != Both && i % 2 == 0 ==> StrategyAt(strategy, i) == strategy
    ensures strategy != Both && i % 2 == 1 ==>
              StrategyAt(strategy, i) == if strategy == OnlyFast then OnlySlow else OnlyFast
  {
    if i > 0 {
      Alternates(strategy, i - 1);
    }
  }

  /** So a category gets a selection from every datagram, or from every other one. */
  lemma WantedExact(strategy: Strategy, cat: LinkCat, i: nat)
    requires cat != NotUsed
    ensures strategy == Both ==> Wanted(StrategyAt(strategy, i), cat)
    ensures strategy != Both ==>
              (Wanted(StrategyAt(strategy, i), cat) <==> (i % 2 == 0) == ((strategy == OnlyFast) == (cat == Fast)))
  {
    Alternates(strategy, i);
  }

  function StampAt(r: Reading, cat: LinkCat): Timespec {
    if cat == Fast then r.fastAt else r.slowAt
  }

  /** The times of the selections of a category, when the first datagram meets `strategy`. */
  function Nows(readings: seq<Reading>, strategy: Strategy, cat: LinkCat): seq<Timespec> {
    if readings == [] then []
    else
      var n := |readings| - 1;
      Nows(readings[..n], strategy, cat) + if Wanted(StrategyAt(strategy, n), cat) then [readings[n].now] else []
  }

  /** And of their stamps. */
  function Stamps(readings: seq<Reading>, strategy: Strategy, cat: LinkCat): seq<Timespec> {
    if readings == [] then []
    else
      var n := |readings| - 1;
      Stamps(readings[..n], strategy, cat) +
      if Wanted(StrategyAt(strategy, n), cat) then [StampAt(readings[n], cat)] else []
  }

  /** What these readings make of a category with stamps `first`. */
  function PastOf(first: seq<Timespec>, readings: seq<Reading>, strategy: Strategy, cat: LinkCat, picks: seq<nat>)
    : Past
  {
    Past(first, Nows(readings, strategy, cat), picks, Stamps(readings, strategy, cat))
  }

  lemma NowsNext(readings: seq<Reading>, i: nat, strategy: Strategy, cat: LinkCat)
    requires i < |readings|
    ensures Nows(readings[..i + 1], strategy, cat) ==
            Nows(readings[..i], strategy, cat) + if Wanted(StrategyAt(strategy, i), cat) then [readings[i].now] else []
    ensures Stamps(readings[..i + 1], strategy, cat) ==
            Stamps(readings[..i], strategy, cat) +
            if Wanted(StrategyAt(strategy, i), cat) then [StampAt(readings[i], cat)] else []
  {
    assert readings[..i + 1][..i] == readings[..i];
  }

  lemma PastNext(first: seq<Timespec>, readings: seq<Reading>, i: nat, strategy: Strategy, cat: LinkCat,
                 picks: seq<nat>, sel: nat)
    requires i < |readings|
    ensures var past, r := PastOf(first, readings[..i], strategy, cat, picks), readings[i];
      if Wanted(StrategyAt(strategy, i), cat)
      then PastOf(first, readings[..i + 1], strategy, cat, picks + [sel]) == past.More(r.now, sel, StampAt(r, cat))
      else PastOf(first, readings[..i + 1], strategy, cat, picks) == past
  {
    NowsNext(readings, i, strategy, cat);
  }

  /** What a dispatch does is what the record of either category needs. */
  lemma DispatchRecords(used: seq<LinkCat>, before: seq<Timespec>, after: seq<Timespec>, r: Reading, b: int,
                        fast: nat, slow: nat, strategy: Strategy)
    requires |before| == |after| == |used| <= NO_LINK && r.Ordered() && AllUntil(before, b) && b < r.now.Value()
    requires Chosen(used, before, Fast, r.now, fast, Wanted(strategy, Fast))
    requires Chosen(used, before, Slow, r.now, slow, Wanted(strategy, Slow))
    requires forall l | 0 <= l < |used| ::
               after[l] == if l == fast then r.fastAt else if l == slow then r.slowAt else before[l]
    ensures AllUntil(after, r.slowAt.Value())
    ensures forall l | 0 <= l < |used| && used[l] == Fast :: after[l] == if l == fast then r.fastAt else before[l]
    ensures forall l | 0 <= l < |used| && used[l] == Slow :: after[l] == if l == slow then r.slowAt else before[l]
  {
  }

  // ------------------------------------------------------------ unchanged tags

  /** The selections of both categories so far, with the scheduler's stamps, at time `b`. */
  ghost predicate Running(s: Scheduler, tf: Turns, ts: Turns, fasts: Past, slows: Past, b: int)
    reads s, s.used, s.last
  {
    && s.Valid() && AllUntil(s.last[..], b)
    && Recorded(tf, s.used[..], Fast, fasts, s.last[..], b) && Recorded(ts, s.used[..], Slow, slows, s.last[..], b)
  }

  /** The scheduler itself: datagram after datagram, while the tags stay as they are and the clock moves
      on.  `fasts` and `slows` are the selections it made, whether or not the packets could be sent; `tf` and
      `ts` tell with which stamps each of them was made by the rule. */
  method DispatchAll(s: Scheduler, readings: seq<Reading>, ghost start: int)
    returns (fasts: seq<nat>, slows: seq<nat>, ghost tf: Turns, ghost ts: Turns)
    requires s.Valid() && Ticking(start, readings) && AllUntil(s.last[..], start)
    modifies s`strategy, s.last
    ensures s.Valid() && s.strategy == StrategyAt(old(s.strategy), |readings|)
    ensures Fair(fasts, InCat(s.used[..], Fast)) && Fair(slows, InCat(s.used[..], Slow))
    ensures |fasts| == |Nows(readings, old(s.strategy), Fast)| && |slows| == |Nows(readings, old(s.strategy), Slow)|
    ensures InCat(s.used[..], Fast) != {} ==>
              && Made(tf, s.used[..], Fast, PastOf(old(s.last[..]), readings, old(s.strategy), Fast, fasts))
              && forall l | 0 <= l < s.totalLinks && s.used[l] == Fast :: s.last[l] == tf.lasts[|fasts|][l]
    ensures InCat(s.used[..], Slow) != {} ==>
              && Made(ts, s.used[..], Slow, PastOf(old(s.last[..]), readings, old(s.strategy), Slow, slows))
              && forall l | 0 <= l < s.totalLinks && s.used[l] == Slow :: s.last[l] == ts.lasts[|slows|][l]
  {
    ghost var b;
    ghost var first, strategy := s.last[..], s.strategy;
    fasts, slows, tf, ts, b := DispatchLoop(s, readings, start, first, strategy);
    RecordedFair(tf, s.used[..], Fast, PastOf(first, readings, strategy, Fast, fasts), s.last[..], b);
    RecordedFair(ts, s.used[..], Slow, PastOf(first, readings, strategy, Slow, slows), s.last[..], b);
  }

  method DispatchLoop(s: Scheduler, readings: seq<Reading>, ghost start: int, ghost first: seq<Timespec>,
                      ghost strategy: Strategy)
    returns (fasts: seq<nat>, slows: seq<nat>, ghost uf: Turns, ghost us: Turns, ghost b: int)
    requires s.Valid() && Ticking(start, readings) && AllUntil(s.last[..], start)
    requires first == s.last[..] && strategy == s.strategy
    modifies s`strategy, s.last
    ensures Running(s, uf, us, PastOf(first, readings, strategy, Fast, fasts),
                    PastOf(first, readings, strategy, Slow, slows), b)
    ensures s.strategy == StrategyAt(strategy, |readings|)
  {
    fasts, slows, b := [], [], start;
    uf, us := NoTurns(s.used[..], Fast, first), NoTurns(s.used[..], Slow, first);
    for i := 0 to |readings|
      modifies s`strategy, s.last
      invariant Running(s, uf, us, PastOf(first, readings[..i], strategy, Fast, fasts),
                        PastOf(first, readings[..i], strategy, Slow, slows), b)
      invariant b == Floor(start, readings, i) && s.strategy == StrategyAt(strategy, i)
    {
      fasts, slows, uf, us := DispatchNext(s, readings, i, uf, us, first, strategy, fasts, slows, b);
      b := readings[i].slowAt.Value();
    }
    assert readings[..|readings|] == readings;
  }

  method DispatchNext(s: Scheduler, readings: seq<Reading>, i: nat, ghost tf: Turns, ghost ts: Turns,
                      ghost first: seq<Timespec>, ghost strategy: Strategy, fasts: seq<nat>, slows: seq<nat>,
                      ghost b: int)
    returns (fasts': seq<nat>, slows': seq<nat>, ghost uf: Turns, ghost us: Turns)
    requires i < |readings| && s.strategy == StrategyAt(strategy, i)
    requires Running(s, tf, ts, PastOf(first, readings[..i], strategy, Fast, fasts),
                     PastOf(first, readings[..i], strategy, Slow, slows), b)
    requires readings[i].Ordered() && b < readings[i].now.Value()
    modifies s`strategy, s.last
    ensures s.strategy == StrategyAt(strategy, i + 1)
    ensures Running(s, uf, us, PastOf(first, readings[..i + 1], strategy, Fast, fasts'),
                    PastOf(first, readings[..i + 1], strategy, Slow, slows'), readings[i].slowAt.Value())
  {
    var now := s.strategy;
    ghost var pf, ps := PastOf(first, readings[..i], strategy, Fast, fasts),
                        PastOf(first, readings[..i], strategy, Slow, slows);
    var fast, slow;
    fast, slow, uf, us := DispatchOne(s, readings[i], tf, ts, pf, ps, b);
    PastNext(first, readings, i, strategy, Fast, fasts, fast);
    PastNext(first, readings, i, strategy, Slow, slows, slow);
    fasts' := if Wanted(now, Fast) then fasts + [fast] else fasts;
    slows' := if Wanted(now, Slow) then slows + [slow] else slows;
  }

  method DispatchOne(s: Scheduler, r: Reading, ghost tf: Turns, ghost ts: Turns, ghost pf: Past, ghost ps: Past,
                     ghost b: int)
    returns (fast: nat, slow: nat, ghost uf: Turns, ghost us: Turns)
    requires Running(s, tf, ts, pf, ps, b) && r.Ordered() && b < r.now.Value()
    modifies s`strategy, s.last
    ensures s.strategy == NextStrategy(old(s.strategy))
    ensures Running(s, uf, us, if Wanted(old(s.strategy), Fast) then pf.More(r.now, fast, r.fastAt) else pf,
                    if Wanted(old(s.strategy), Slow) then ps.More(r.now, slow, r.slowAt) else ps, r.slowAt.Value())
  {
    ghost var strategy, used, before := s.strategy, s.used[..], s.last[..];
    fast, slow := s.Dispatch(r.now, r.fastAt, r.slowAt);
    ghost var after, c := s.last[..], r.slowAt.Value();
    DispatchRecords(used, before, after, r, b, fast, slow, strategy);
    uf := Record(tf, used, Fast, pf, before, b, r.now, fast, Wanted(strategy, Fast), r.fastAt, after, c);
    us := Record(ts, used, Slow, ps, before, b, r.now, slow, Wanted(strategy, Slow), r.slowAt, after, c);
  }

  // --------------------------------------------------- the whole handler, tags changing

  /** What the handler is called with. */
  datatype Datagram = Datagram(h: seq<Entry>, statNow: Timespec, connected: set<nat>, sockets: nat, reading: Reading)

  function Readings(ds: seq<Datagram>): (r: seq<Reading>)
    ensures |r| == |ds|
  {
    seq(|ds|, i requires 0 <= i < |ds| => ds[i].reading)
  }

  /** A category with exactly these links. */
  function TagsOf(links: set<nat>, cat: LinkCat, total: nat): (used: seq<LinkCat>)
    ensures |used| == total
  {
    seq(total, l => if l in links then cat else NotUsed)
  }

  lemma TagsOfLinks(links: set<nat>, cat: LinkCat, total: nat)
    requires cat != NotUsed && forall l | l in links :: l < total
    ensures InCat(TagsOf(links, cat, total), cat) == links
  {
  }

  /** A selection only depends on which links are in the category. */
  lemma ChosenByLinks(used: seq<LinkCat>, other: seq<LinkCat>, last: seq<Timespec>, cat: LinkCat, now: Timespec,
                      sel: nat, wanted: bool)
    requires |used| == |other| == |last| && InCat(used, cat) == InCat(other, cat)
    ensures Chosen(used, last, cat, now, sel, wanted) <==> Chosen(other, last, cat, now, sel, wanted)
  {
    StampsByLinks(used, other, cat);
  }

  /** The entries are no newer than the clock, and there are not more links to use than links. */
  predicate CanHandle(d: Datagram, fastCount: nat, totalLinks: nat) {
    Timely(d.h, d.statNow) && d.statNow.Normal() && (2 * fastCount <= totalLinks || d.sockets <= totalLinks)
  }

  /** The selections in category `cat` of a run in which its links are `links`. */
  ghost predicate InRun(s: Scheduler, t: Turns, cat: LinkCat, links: set<nat>, past: Past, b: int)
    reads s, s.used, s.last
  {
    s.Valid() && AllUntil(s.last[..], b) && Recorded(t, TagsOf(links, cat, s.totalLinks), cat, past, s.last[..], b)
  }

  /** The whole handler, datagram after datagram, while `links` are the links of a category: scores, ranking,
      tags and swaps may change all else.  It stops when the program exits or the category has changed. */
  method HandleWhile(s: Scheduler, ds: seq<Datagram>, cat: LinkCat, links: set<nat>, ghost start: int)
    returns (n: nat, picks: seq<nat>, ghost t: Turns)
    requires s.Valid() && Ticking(start, Readings(ds)) && AllUntil(s.last[..], start)
    requires cat != NotUsed && (forall l | l in links :: l < s.totalLinks)
    requires forall i | 0 <= i < |ds| :: CanHandle(ds[i], s.fastCount, s.totalLinks)
    modifies s`active, s`localStats, s`lastUpdateUsed, s`swaps, s`strategy, s.stats, s.used, s.last
    ensures s.Valid() && n <= |ds|
    ensures n < |ds| ==> Changed(s, ds[n], cat, links)
    ensures |picks| == |Nows(Readings(ds)[..n], old(s.strategy), cat)| && Fair(picks, links)
    ensures links != {} ==>
              Made(t, TagsOf(links, cat, s.totalLinks), cat,
                   PastOf(old(s.last[..]), Readings(ds)[..n], old(s.strategy), cat, picks))
  {
    n, picks := 0, [];
    ghost var b, first, strategy, rs := start, s.last[..], s.strategy, Readings(ds);
    ghost var tags := TagsOf(links, cat, s.totalLinks);
    t := NoTurns(tags, cat, first);
    TagsOfLinks(links, cat, s.totalLinks);
    // The stamps after the last datagram counted.
    ghost var last := first;
    var same := true;
    while same && n < |ds|
      invariant s.Valid() && n <= |ds|
      invariant if same then AllUntil(last, b) && last == s.last[..] && s.strategy == StrategyAt(strategy, n)
                else n < |ds| && Changed(s, ds[n], cat, links)
      invariant same ==> b == Floor(start, rs, n)
      invariant Recorded(t, tags, cat, PastOf(first, rs[..n], strategy, cat, picks), last, b)
      decreases same, |ds| - n
    {
      ghost var past := PastOf(first, rs[..n], strategy, cat, picks);
      assert CanHandle(ds[n], s.fastCount, s.totalLinks) && rs[n] == ds[n].reading;
      var wanted := Wanted(s.strategy, cat);
      var sel;
      same, sel, t := HandleOne(s, ds[n], cat, links, t, past, b);
      if same {
        PastNext(first, rs, n, strategy, cat, picks, sel);
        if wanted {
          picks := picks + [sel];
        }
        b, last, n := ds[n].reading.slowAt.Value(), s.last[..], n + 1;
      }
    }
    RecordedFair(t, tags, cat, PastOf(first, rs[..n], strategy, cat, picks), last, b);
  }

  /** The program exits on the datagram, or the category has other links now. */
  predicate Changed(s: Scheduler, d: Datagram, cat: LinkCat, links: set<nat>)
    reads s.used
  {
    TooSoon(d.statNow, s.window) || TooSoon(d.reading.now, s.window) || InCat(s.used[..], cat) != links
  }

  method HandleOne(s: Scheduler, d: Datagram, cat: LinkCat, links: set<nat>, ghost t: Turns, ghost past: Past,
                   ghost b: int)
    returns (same: bool, sel: nat, ghost u: Turns)
    requires InRun(s, t, cat, links, past, b) && cat != NotUsed && forall l | l in links :: l < s.totalLinks
    requires CanHandle(d, s.fastCount, s.totalLinks) && d.reading.Ordered() && b < d.reading.now.Value()
    modifies s`active, s`localStats, s`lastUpdateUsed, s`swaps, s`strategy, s.stats, s.used, s.last
    ensures s.Valid() && (!same ==> Changed(s, d, cat, links) && u == t)
    ensures same ==> s.strategy == NextStrategy(old(s.strategy))
    ensures same ==>
              var r := d.reading;
              InRun(s, u, cat, links,
                    if Wanted(old(s.strategy), cat) then past.More(r.now, sel, StampAt(r, cat)) else past,
                    r.slowAt.Value())
  {
    ghost var strategy, before, r := s.strategy, s.last[..], d.reading;
    var ok, fast, slow;
    ghost var mid, swapped, evicted, admitted;
    ok, fast, slow, mid, swapped, evicted, admitted :=
      s.OnDatagram(d.h, d.reading.now, d.statNow, d.reading.fastAt, d.reading.slowAt, d.connected, d.sockets);
    sel, u := if cat == Fast then fast else slow, t;
    same := ok && InCat(s.used[..], cat) == links;
    if same {
      u := RecordLinks(t, links, cat, s.used[..], before, s.last[..], past, b, r, fast, slow, strategy);
    }
  }

  /** The record of a category by its links. */
  ghost method RecordLinks(t: Turns, links: set<nat>, cat: LinkCat, used: seq<LinkCat>, before: seq<Timespec>,
                           after: seq<Timespec>, past: Past, b: int, r: Reading, fast: nat, slow: nat,
                           strategy: Strategy)
    returns (u: Turns)
    requires |before| == |after| == |used| <= NO_LINK && r.Ordered() && AllUntil(before, b) && b < r.now.Value()
    requires Chosen(used, before, Fast, r.now, fast, Wanted(strategy, Fast))
    requires Chosen(used, before, Slow, r.now, slow, Wanted(strategy, Slow))
    requires forall l | 0 <= l < |used| ::
               after[l] == if l == fast then r.fastAt else if l == slow then r.slowAt else before[l]
    requires cat != NotUsed && InCat(used, cat) == links
    requires Recorded(t, TagsOf(links, cat, |used|), cat, past, before, b)
    ensures AllUntil(after, r.slowAt.Value())
    ensures var sel := if cat == Fast then fast else slow;
      Recorded(u, TagsOf(links, cat, |used|), cat,
               if Wanted(strategy, cat) then past.More(r.now, sel, StampAt(r, cat)) else past,
               after, r.slowAt.Value())
  {
    var tags, sel, wanted := TagsOf(links, cat, |used|), if cat == Fast then fast else slow, Wanted(strategy, cat);
    DispatchRecords(used, before, after, r, b, fast, slow, strategy);
    TagsOfLinks(links, cat, |used|);
    ChosenByLinks(used, tags, before, cat, r.now, sel, wanted);
    StampsByLinks(used, tags, cat);
    u := Record(t, tags, cat, past, before, b, r.now, sel, wanted, StampAt(r, cat), after, r.slowAt.Value());
  }

  lemma StampsByLinks(used: seq<LinkCat>, other: seq<LinkCat>, cat: LinkCat)
    requires |used| == |other| && InCat(used, cat) == InCat(other, cat)
    ensures forall l | 0 <= l < |used| :: used[l] == cat <==> other[l] == cat
  {
    forall l | 0 <= l < |used| ensures used[l] == cat <==> other[l] == cat {
      assert l in InCat(used, cat) <==> l in InCat(other, cat);
    }
  }
}
