/** The scheduler of `lightning`: which links are in use, which of them are fast, and which one gets
    the next packet (src/algo_lightning.c:313-392 and 474-599). */
module LightningScheduler {
  import opened Basics
  import opened Timespecs
  import opened LightningMonitoring
  import opened LightningHistory
  import opened LightningRanking

  datatype LinkCat = Fast | Slow | NotUsed

  datatype Strategy = Both | OnlyFast | OnlySlow

  /** `schedule_group_target_trans` */
  function NextStrategy(s: Strategy): Strategy {
    match s
    case Both => Both
    case OnlyFast => OnlySlow
    case OnlySlow => OnlyFast
  }

  /** The local score of a link: what goes to the peer, narrowed to 16 bits. */
  function LocalScore(h: seq<Entry>, l: nat, now: Timespec, notBefore: Timespec, total: nat): int {
    Average(SumOf(h, l, now, notBefore, total), OccOf(h, l, notBefore, total))
  }

  /** The score it is ranked by. */
  function FinalScore(local: int, remote: int, connected: bool): int {
    if connected then Merge(local, remote) else DISCONNECTED
  }

  /** Only a disconnected link has the mark of one. */
  lemma FinalScoreExact(h: seq<Entry>, l: nat, now: Timespec, notBefore: Timespec, total: nat, remote: int,
                        connected: bool)
    requires Timely(h, now) && now.Normal()
    ensures var score := FinalScore(LocalScore(h, l, now, notBefore, total), remote, connected);
      score >= DISCONNECTED && (score == DISCONNECTED <==> !connected)
  {
    SumNonNegative(h, l, now, notBefore, total);
    AverageRange(SumOf(h, l, now, notBefore, total), OccOf(h, l, notBefore, total));
  }

  /** Measured links by score, then unmeasured links, then exactly those that are not connected. */
  predicate RankedBy(rank: seq<StatEntry>, connected: set<nat>) {
    && (forall i | 0 <= i < |rank| :: Group(rank[i].ooo) == 2 <==> rank[i].linkId !in connected)
    && (forall i, j | 0 <= i < j < |rank| :: Group(rank[i].ooo) <= Group(rank[j].ooo))
    && (forall i, j | 0 <= i < j < |rank| && Group(rank[j].ooo) == 0 :: rank[i].ooo <= rank[j].ooo)
  }

  /** Links with a tag among those listed. */
  function Tagged(used: seq<LinkCat>): set<nat> {
    set l | 0 <= l < |used| && used[l] != NotUsed
  }

  function InCat(used: seq<LinkCat>, cat: LinkCat): set<nat> {
    set l | 0 <= l < |used| && used[l] == cat
  }

  /** Swaps, oldest first, are at least the window apart. */
  ghost predicate SpacedOut(swaps: seq<Timespec>, window: nat) {
    && (forall i | 0 <= i < |swaps| :: swaps[i].Normal())
    && (forall i, j | 0 <= i < j < |swaps| :: swaps[j].Value() - swaps[i].Value() >= window * MILISEC)
  }

  /** `after` is `before` with a slow tag for some links that had none: the best of them. */
  ghost predicate Promoted(rank: seq<StatEntry>, before: seq<LinkCat>, after: seq<LinkCat>)
    requires |before| == |after| && IsRanking(rank, |before|)
  {
    && (forall l | 0 <= l < |before| && after[l] != before[l] :: before[l] == NotUsed && after[l] == Slow)
    && forall i, j | 0 <= i < |rank| && 0 <= j < |rank| && after[rank[i].linkId] != before[rank[i].linkId]
                     && after[rank[j].linkId] == NotUsed :: i < j
  }

  /** `after` is `before` without the tags of some links: the worst of them. */
  ghost predicate Demoted(rank: seq<StatEntry>, before: seq<LinkCat>, after: seq<LinkCat>)
    requires |before| == |after| && IsRanking(rank, |before|)
  {
    && (forall l | 0 <= l < |before| && after[l] != before[l] :: after[l] == NotUsed)
    && forall i, j | 0 <= i < |rank| && 0 <= j < |rank| && after[rank[i].linkId] != before[rank[i].linkId]
                     && after[rank[j].linkId] != NotUsed :: j < i
  }

  /** The links behind rank `i` have lost their tags, and the others are as they were. */
  ghost predicate DemotedFrom(rank: seq<StatEntry>, before: seq<LinkCat>, after: seq<LinkCat>, i: int) {
    && |before| == |after| && IsRanking(rank, |before|) && -1 <= i < |rank|
    && (forall k | i < k < |rank| :: after[rank[k].linkId] == NotUsed)
    && (forall k | 0 <= k <= i :: after[rank[k].linkId] == before[rank[k].linkId])
    && (forall l | 0 <= l < |before| && after[l] != before[l] :: after[l] == NotUsed)
  }

  lemma DemotedNext(rank: seq<StatEntry>, before: seq<LinkCat>, after: seq<LinkCat>, i: nat)
    requires DemotedFrom(rank, before, after, i)
    ensures DemotedFrom(rank, before, after[rank[i].linkId := NotUsed], i - 1)
  {
  }

  /** UINT8_MAX: no link could be selected, and the packet is dropped. */
  const NO_LINK: nat := 255
  const INT64_MAX: int := 0x7FFF_FFFF_FFFF_FFFF

  /** The score that decides who is evicted; links without a score go first. */
  function Retained(ooo: int): int {
    if ooo < 0 then INT64_MAX else ooo
  }

  /** So a tagged link without a score goes before any measured one, and a slower one before a faster one. */
  lemma RetainedExact(a: int, b: int)
    requires b < INT64_MAX
    ensures a < 0 <= b ==> Retained(a) > Retained(b)
    ensures a < 0 && b < 0 ==> Retained(a) == Retained(b)
    ensures 0 <= a < INT64_MAX && b >= 0 ==> (Retained(a) > Retained(b) <==> a > b)
  {
  }

  /** What it means to be evicted: not to have been measured, or to be the slowest of links that all were. */
  lemma EvictedExact(rank: seq<StatEntry>, used: seq<LinkCat>, l: nat, j: nat)
    requires IsRanking(rank, |used|) && l < |used| && WorstTagged(rank, used, l) && j < |rank| && rank[j].linkId == l
    requires rank[j].ooo < INT64_MAX
    ensures rank[j].ooo < 0 ||
            forall i | 0 <= i < |rank| && used[rank[i].linkId] != NotUsed :: 0 <= rank[i].ooo <= rank[j].ooo
  {
    forall i | 0 <= i < |rank| && used[rank[i].linkId] != NotUsed && rank[j].ooo >= 0
      ensures 0 <= rank[i].ooo <= rank[j].ooo
    {
      RetainedExact(rank[i].ooo, rank[j].ooo);
    }
  }

  /** A link that may come into use: without a tag, connected, and not used right now. */
  predicate Admissible(s: StatEntry, used: seq<LinkCat>, last: seq<Timespec>, now: Timespec)
    requires s.linkId < |used| == |last|
  {
    used[s.linkId] == NotUsed && s.ooo != DISCONNECTED && last[s.linkId].Value() < now.Value()
  }

  ghost predicate WorstTagged(rank: seq<StatEntry>, used: seq<LinkCat>, l: nat)
    requires IsRanking(rank, |used|) && l < |used|
  {
    && used[l] != NotUsed
    && forall i, j | 0 <= i < |rank| && 0 <= j < |rank| && rank[j].linkId == l && used[rank[i].linkId] != NotUsed ::
         Retained(rank[i].ooo) <= Retained(rank[j].ooo)
  }

  ghost predicate OldestAdmissible(rank: seq<StatEntry>, used: seq<LinkCat>, last: seq<Timespec>, now: Timespec, l: nat)
    requires IsRanking(rank, |used|) && |last| == |used| && l < |used|
  {
    && used[l] == NotUsed
    && (forall j | 0 <= j < |rank| && rank[j].linkId == l :: Admissible(rank[j], used, last, now))
    && forall i | 0 <= i < |rank| && Admissible(rank[i], used, last, now) ::
         last[l].Value() <= last[rank[i].linkId].Value()
  }

  /** A swap happens exactly when the window is over and there is a link on either side; it exchanges
      the tagged link with the worst score for the admissible one used least recently. */
  ghost predicate SwapExact(rank: seq<StatEntry>, used: seq<LinkCat>, last: seq<Timespec>, now: Timespec, over: bool,
                            swapped: bool, evicted: nat, admitted: nat)
    requires IsRanking(rank, |used|) && |last| == |used|
  {
    && (swapped <==>
          && over && (exists i :: 0 <= i < |rank| && used[rank[i].linkId] != NotUsed)
          && exists i :: 0 <= i < |rank| && Admissible(rank[i], used, last, now))
    && (swapped ==>
          && evicted < |used| && admitted < |used|
          && WorstTagged(rank, used, evicted) && OldestAdmissible(rank, used, last, now, admitted))
  }

  /** The steps that change which links have a tag: the number of tags goes from `had` to `has`, which
      gives the tags `mid`, and then a swap may happen, which gives the links tagged in `after`. */
  ghost predicate Retagged(rank: seq<StatEntry>, before: seq<LinkCat>, mid: seq<LinkCat>, after: seq<LinkCat>,
                           had: nat, has: nat, last: seq<Timespec>, now: Timespec, over: bool,
                           swapped: bool, evicted: nat, admitted: nat) {
    && |mid| == |before| == |last| && IsRanking(rank, |before|)
    && (had <= has ==> Promoted(rank, before, mid)) && (had >= has ==> Demoted(rank, before, mid))
    && SwapExact(rank, mid, last, now, over, swapped, evicted, admitted)
    && Tagged(after) == if swapped then Tagged(mid) - {evicted} + {admitted} else Tagged(mid)
  }

  /** The eviction half of the loop after `i` ranks. */
  ghost predicate WorstSoFar(rank: seq<StatEntry>, used: seq<LinkCat>, i: nat, l: int, worst: int)
    requires IsRanking(rank, |used|) && i <= |rank|
  {
    && worst >= 0 && l < |used|
    && (l < 0 ==> worst == 0 && forall k | 0 <= k < i :: used[rank[k].linkId] == NotUsed)
    && (l >= 0 ==>
          used[l] != NotUsed && exists j :: 0 <= j < i && rank[j].linkId == l && worst == Retained(rank[j].ooo))
    && forall k | 0 <= k < i && used[rank[k].linkId] != NotUsed :: Retained(rank[k].ooo) <= worst
  }

  /** The admission half of the loop after `i` ranks. */
  ghost predicate OldestSoFar(rank: seq<StatEntry>, used: seq<LinkCat>, last: seq<Timespec>, now: Timespec,
                              i: nat, l: int, oldest: Timespec)
    requires IsRanking(rank, |used|) && |last| == |used| && i <= |rank|
  {
    && oldest.Normal() && l < |used|
    && (l < 0 ==> oldest == now && forall k | 0 <= k < i :: !Admissible(rank[k], used, last, now))
    && (l >= 0 ==>
          && oldest == last[l]
          && exists j :: 0 <= j < i && rank[j].linkId == l && Admissible(rank[j], used, last, now))
    && forall k | 0 <= k < i && Admissible(rank[k], used, last, now) :: oldest.Value() <= last[rank[k].linkId].Value()
  }

  /** The variables of the loop after `i` ranks. */
  function WorstOf(rank: seq<StatEntry>, used: seq<LinkCat>, i: nat): (int, int)
    requires i <= |rank| && forall k | 0 <= k < |rank| :: rank[k].linkId < |used|
  {
    if i == 0 then (-1, 0)
    else
      var (l, worst) := WorstOf(rank, used, i - 1);
      var s := rank[i - 1];
      if used[s.linkId] != NotUsed && Retained(s.ooo) >= worst then (s.linkId, Retained(s.ooo)) else (l, worst)
  }

  function OldestOf(rank: seq<StatEntry>, used: seq<LinkCat>, last: seq<Timespec>, now: Timespec, i: nat)
    : (int, Timespec)
    requires i <= |rank| && |last| == |used| && forall k | 0 <= k < |rank| :: rank[k].linkId < |used|
  {
    if i == 0 then (-1, now)
    else
      var (l, oldest) := OldestOf(rank, used, last, now, i - 1);
      var s := rank[i - 1];
      if used[s.linkId] == NotUsed && s.ooo != DISCONNECTED && last[s.linkId].Lt(oldest)
      then (s.linkId, last[s.linkId]) else (l, oldest)
  }

  lemma {:induction false} WorstExact(rank: seq<StatEntry>, used: seq<LinkCat>, i: nat)
    requires IsRanking(rank, |used|) && i <= |rank|
    ensures var (l, worst) := WorstOf(rank, used, i); WorstSoFar(rank, used, i, l, worst)
  {
    if i > 0 {
      WorstExact(rank, used, i - 1);
    }
  }

  lemma {:induction false} OldestExact(rank: seq<StatEntry>, used: seq<LinkCat>, last: seq<Timespec>, now: Timespec,
                                       i: nat)
    requires IsRanking(rank, |used|) && |last| == |used| && i <= |rank| && now.Normal()
    requires forall k | 0 <= k < |last| :: last[k].Normal()
    ensures var (l, oldest) := OldestOf(rank, used, last, now, i); OldestSoFar(rank, used, last, now, i, l, oldest)
  {
    if i > 0 {
      OldestExact(rank, used, last, now, i - 1);
      NormalOrder(last[rank[i - 1].linkId], OldestOf(rank, used, last, now, i - 1).1);
    }
  }

  /** What the loop finds: the tagged link with the worst score and the idle one used least
      recently, if there are any. */
  lemma SwapFound(rank: seq<StatEntry>, used: seq<LinkCat>, last: seq<Timespec>, now: Timespec)
    requires IsRanking(rank, |used|) && |last| == |used| && now.Normal()
    requires forall k | 0 <= k < |last| :: last[k].Normal()
    ensures var l := WorstOf(rank, used, |rank|).0;
      && l < |used| && (l >= 0 ==> WorstTagged(rank, used, l))
      && (l < 0 <==> forall i | 0 <= i < |rank| :: used[rank[i].linkId] == NotUsed)
    ensures var l := OldestOf(rank, used, last, now, |rank|).0;
      && l < |used| && (l >= 0 ==> OldestAdmissible(rank, used, last, now, l))
      && (l < 0 <==> forall i | 0 <= i < |rank| :: !Admissible(rank[i], used, last, now))
  {
    WorstExact(rank, used, |rank|);
    OldestExact(rank, used, last, now, |rank|);
  }

  /** The link of a category that was used least recently, the first one among equals. */
  predicate Picks(used: seq<LinkCat>, last: seq<Timespec>, cat: LinkCat, now: Timespec, sel: nat)
    requires |last| == |used|
  {
    && sel < |used| && used[sel] == cat && last[sel].Value() < now.Value()
    && (forall l | 0 <= l < |used| && used[l] == cat :: last[sel].Value() <= last[l].Value())
    && (forall l | 0 <= l < sel && used[l] == cat :: last[sel].Value() < last[l].Value())
  }

  /** The outcome of a selection, or of not making one. */
  ghost predicate Chosen(used: seq<LinkCat>, last: seq<Timespec>, cat: LinkCat, now: Timespec, sel: nat, wanted: bool)
    requires |last| == |used|
  {
    if wanted && sel != NO_LINK then Picks(used, last, cat, now, sel)
    else sel == NO_LINK && (wanted ==> forall l | 0 <= l < |used| && used[l] == cat :: now.Value() <= last[l].Value())
  }

  /** Stamping a fast link does not influence the selection of a slow one. */
  lemma OtherStamp(used: seq<LinkCat>, before: seq<Timespec>, after: seq<Timespec>, fast: nat, now: Timespec, slow: nat)
    requires |before| == |after| == |used|
    requires forall l | 0 <= l < |used| && l != fast :: after[l] == before[l]
    requires fast < |used| ==> used[fast] == Fast
    ensures Chosen(used, after, Slow, now, slow, true) <==> Chosen(used, before, Slow, now, slow, true)
  {
  }

  class Scheduler {
    const totalLinks: nat
    const fastCount: nat
    const window: nat
    const disableScheduler: bool
    const stats: array<StatEntry>
    const used: array<LinkCat>
    const last: array<Timespec>
    var active: nat
    var remoteStats: seq<int>
    var localStats: seq<int>
    var lastUpdateUsed: Timespec
    var strategy: Strategy

    /** When the used links were changed. */
    ghost var swaps: seq<Timespec>

    ghost predicate Shape()
      reads this`remoteStats, this`localStats
    {
      && totalLinks <= MAX_LINKS
      && stats.Length == used.Length == last.Length == |remoteStats| == |localStats| == totalLinks
    }

    ghost predicate Valid()
      reads this, used, last
    {
      && Shape() && active == |Tagged(used[..])|
      && (forall l | 0 <= l < totalLinks :: last[l].Normal())
      && lastUpdateUsed.Normal() && SpacedOut(swaps, window)
      && (swaps != [] ==> swaps[|swaps| - 1] == lastUpdateUsed)
    }

    constructor (totalLinks: nat, fastCount: nat, window: nat, disableScheduler: bool, strategy: Strategy)
      requires totalLinks <= MAX_LINKS
      ensures Valid() && fresh(stats) && fresh(used) && fresh(last) && swaps == []
      ensures this.totalLinks == totalLinks && this.fastCount == fastCount && this.window == window
      ensures this.disableScheduler == disableScheduler && this.strategy == strategy
    {
      this.totalLinks, this.fastCount, this.window := totalLinks, fastCount, window;
      this.disableScheduler, this.strategy := disableScheduler, strategy;
      stats := new StatEntry[totalLinks](_ => StatEntry(0, 0, 0));
      used := new LinkCat[totalLinks](_ => NotUsed);
      last := new Timespec[totalLinks](_ => ZERO);
      active, lastUpdateUsed, swaps := 0, ZERO, [];
      remoteStats, localStats := seq(totalLinks, _ => 0), seq(totalLinks, _ => 0);
      new;
      assert Tagged(used[..]) == {};
    }

    // -------------------------------------------------------------- statistics

    /** The sums over the history. */
    method Accumulate(h: seq<Entry>, now: Timespec, notBefore: Timespec)
      requires Shape()
      modifies stats
      ensures forall l: nat | l < totalLinks ::
                stats[l] == StatEntry(l, SumOf(h, l, now, notBefore, totalLinks) - 1,
                                      OccOf(h, l, notBefore, totalLinks))
    {
      forall i | 0 <= i < totalLinks {
        stats[i] := StatEntry(i, -1, 0);
      }
      for i := 0 to |h|
        invariant forall l: nat | l < totalLinks ::
            stats[l] == StatEntry(l, SumOf(h[..i], l, now, notBefore, totalLinks) - 1,
                                  OccOf(h[..i], l, notBefore, totalLinks))
      {
        var e := h[i];
        assert h[..i + 1][..i] == h[..i];
        if Counts(e, notBefore, totalLinks) {
          var l := e.linkId;
          stats[l] := StatEntry(l, stats[l].ooo + Delta(e, now), stats[l].measOcc + 1);
        }
      }
      assert h[..|h|] == h;
    }

    /** Averages, the peer's view, and the mark of disconnected links. */
    method Score(h: seq<Entry>, now: Timespec, notBefore: Timespec, connected: set<nat>)
      requires Shape()
      modifies stats, this`localStats
      ensures |localStats| == totalLinks
      ensures forall l: nat | l < totalLinks ::
                && localStats[l] == Narrow(LocalScore(h, l, now, notBefore, totalLinks), 16)
                && stats[l].linkId == l
                && stats[l].ooo ==
                   FinalScore(LocalScore(h, l, now, notBefore, totalLinks), remoteStats[l], l in connected)
      ensures forall l: nat | l < totalLinks ::
                if l !in connected then stats[l].ooo == DISCONNECTED
                else Merged(stats[l].ooo, LocalScore(h, l, now, notBefore, totalLinks), remoteStats[l])
    {
      Accumulate(h, now, notBefore);
      for i := 0 to totalLinks
        modifies stats, this`localStats
        invariant |localStats| == totalLinks
        invariant forall l: nat | l < i ::
            && stats[l].linkId == l && stats[l].ooo == LocalScore(h, l, now, notBefore, totalLinks)
            && localStats[l] == Narrow(stats[l].ooo, 16)
        invariant forall l: nat | i <= l < totalLinks ::
            stats[l] == StatEntry(l, SumOf(h, l, now, notBefore, totalLinks) - 1, OccOf(h, l, notBefore, totalLinks))
      {
        var s := stats[i];
        stats[i] := s.(ooo := if s.measOcc <= 0 then UNMEASURED else TruncDiv(s.ooo, s.measOcc));
        localStats := localStats[i := Narrow(stats[i].ooo, 16)];
      }
      for i := 0 to totalLinks
        modifies stats
        invariant forall l: nat | l < totalLinks :: stats[l].linkId == l
        invariant forall l: nat | l < i ::
            stats[l].ooo == FinalScore(LocalScore(h, l, now, notBefore, totalLinks), remoteStats[l], l in connected)
        invariant forall l: nat | i <= l < totalLinks :: stats[l].ooo == LocalScore(h, l, now, notBefore, totalLinks)
      {
        var s := stats[i];
        stats[i] := s.(ooo := if i in connected then Merge(s.ooo, remoteStats[i]) else DISCONNECTED);
      }
      forall l: nat | l < totalLinks && l in connected
        ensures Merged(stats[l].ooo, LocalScore(h, l, now, notBefore, totalLinks), remoteStats[l])
      {
        MergeExact(LocalScore(h, l, now, notBefore, totalLinks), remoteStats[l]);
      }
    }

    /** The ranking and what goes to the peer, told from the history, the peer's statistics and the
        connected links. */
    ghost predicate ScoresExact(h: seq<Entry>, now: Timespec, connected: set<nat>)
      reads this`remoteStats, this`localStats, stats
      requires Shape() && now.Normal() && !TooSoon(now, window)
    {
      WindowExit(ZERO, now, window);
      var notBefore := now.Diff(SetMillis(window)).value;
      && IsRanking(stats[..], totalLinks)
      && (forall i | 0 <= i < totalLinks ::
            var l := stats[i].linkId;
            stats[i].ooo == FinalScore(LocalScore(h, l, now, notBefore, totalLinks), remoteStats[l], l in connected))
      && (forall l: nat | l < totalLinks :: localStats[l] == Narrow(LocalScore(h, l, now, notBefore, totalLinks), 16))
      && (!disableScheduler ==> Sorted(stats[..]))
      && (disableScheduler ==> forall i | 0 <= i < totalLinks :: stats[i].linkId == i)
    }

    /** Every score is a delay or a mark, and the mark of a disconnected link means just that. */
    lemma ScoresMean(h: seq<Entry>, now: Timespec, connected: set<nat>)
      requires Shape() && now.Normal() && !TooSoon(now, window) && Timely(h, now) && ScoresExact(h, now, connected)
      ensures forall i | 0 <= i < totalLinks ::
                stats[i].ooo >= DISCONNECTED && (stats[i].ooo == DISCONNECTED <==> stats[i].linkId !in connected)
    {
      WindowExit(ZERO, now, window);
      var notBefore := now.Diff(SetMillis(window)).value;
      forall i | 0 <= i < totalLinks
        ensures stats[i].ooo >= DISCONNECTED && (stats[i].ooo == DISCONNECTED <==> stats[i].linkId !in connected)
      {
        var l := stats[i].linkId;
        FinalScoreExact(h, l, now, notBefore, totalLinks, remoteStats[l], l in connected);
      }
    }

    /** The links that are connected are ranked by what both sides measured. */
    ghost predicate ScoresMerged(h: seq<Entry>, now: Timespec, connected: set<nat>)
      reads this`remoteStats, this`localStats, stats
      requires Shape() && now.Normal() && !TooSoon(now, window)
    {
      WindowExit(ZERO, now, window);
      var notBefore := now.Diff(SetMillis(window)).value;
      forall i | 0 <= i < totalLinks && stats[i].linkId in connected && stats[i].linkId < totalLinks ::
        var l := stats[i].linkId;
        Merged(stats[i].ooo, LocalScore(h, l, now, notBefore, totalLinks), remoteStats[l])
    }

    lemma ScoresMerge(h: seq<Entry>, now: Timespec, connected: set<nat>)
      requires Shape() && now.Normal() && !TooSoon(now, window) && ScoresExact(h, now, connected)
      ensures ScoresMerged(h, now, connected)
    {
      WindowExit(ZERO, now, window);
      var notBefore := now.Diff(SetMillis(window)).value;
      forall i | 0 <= i < totalLinks && stats[i].linkId in connected
        ensures var l := stats[i].linkId;
          Merged(stats[i].ooo, LocalScore(h, l, now, notBefore, totalLinks), remoteStats[l])
      {
        var l := stats[i].linkId;
        MergeExact(LocalScore(h, l, now, notBefore, totalLinks), remoteStats[l]);
      }
    }

    /** What that says about the ranking. */
    ghost predicate ScoresFollow(h: seq<Entry>, now: Timespec, connected: set<nat>)
      reads this`remoteStats, this`localStats, stats
      requires Shape() && now.Normal() && !TooSoon(now, window)
    {
      && ScoresMerged(h, now, connected)
      && (forall i | 0 <= i < totalLinks :: stats[i].ooo == DISCONNECTED <==> stats[i].linkId !in connected)
      && (!disableScheduler && (forall i | 0 <= i < totalLinks :: stats[i].ooo <= INT16_MAX) ==>
            RankedBy(stats[..], connected))
    }

    /** The ranking of the links, whenever no score exceeds what the comparison allows for. */
    lemma RankingExact(h: seq<Entry>, now: Timespec, connected: set<nat>)
      requires Shape() && now.Normal() && !TooSoon(now, window) && Timely(h, now) && ScoresExact(h, now, connected)
      requires !disableScheduler && forall i | 0 <= i < totalLinks :: stats[i].ooo <= INT16_MAX
      ensures RankedBy(stats[..], connected)
    {
      ScoresMean(h, now, connected);
      var rank := stats[..];
      forall i, j | 0 <= i < j < |rank|
        ensures Group(rank[i].ooo) <= Group(rank[j].ooo)
        ensures Group(rank[j].ooo) == 0 ==> rank[i].ooo <= rank[j].ooo
      {
        RankingOrder(rank, i, j);
      }
    }

    /** `algo_lightning_update_stats`; false is the exit when the clock is too close
        to its origin. */
    method UpdateStats(h: seq<Entry>, now: Timespec, connected: set<nat>) returns (ok: bool)
      requires Shape() && Timely(h, now) && now.Normal()
      modifies stats, this`localStats
      ensures Shape() && (ok <==> !TooSoon(now, window))
      ensures ok ==> ScoresExact(h, now, connected) && ScoresFollow(h, now, connected)
    {
      WindowExit(ZERO, now, window);
      var diff := now.Diff(SetMillis(window));
      if diff == None {
        return false;
      }
      Score(h, now, diff.value, connected);
      OwnRanking(stats[..]);
      if !disableScheduler {
        SortStats();
      }
      ok := true;
      ScoresMean(h, now, connected);
      ScoresMerge(h, now, connected);
      if !disableScheduler && forall i | 0 <= i < totalLinks :: stats[i].ooo <= INT16_MAX {
        RankingExact(h, now, connected);
      }
    }

    method SortStats()
      requires Shape() && forall l: nat | l < totalLinks :: stats[l].linkId == l
      modifies stats
      ensures IsRanking(stats[..], totalLinks) && Sorted(stats[..])
      ensures forall i | 0 <= i < totalLinks :: stats[i] == old(stats[..])[stats[i].linkId]
    {
      ghost var before := stats[..];
      OwnRanking(before);
      var sorted := Qsort(stats[..]);
      ReorderedRanking(before, sorted, totalLinks);
      forall i | 0 <= i < totalLinks {
        stats[i] := sorted[i];
      }
      assert stats[..] == sorted;
      SameEntries(before, sorted);
    }

    // -------------------------------------------------------------------- tags

    /** Brings the number of tagged links to `target`: the best links without a tag get one, or the
        worst links with a tag lose it. */
    method AdaptTags(target: nat)
      requires Valid() && IsRanking(stats[..], totalLinks) && target <= totalLinks
      modifies this`active, used
      ensures Valid() && active == target
      ensures old(active) <= target ==> Promoted(stats[..], old(used[..]), used[..])
      ensures old(active) >= target ==> Demoted(stats[..], old(used[..]), used[..])
    {
      var diff := target - active;
      if diff > 0 {
        AddTags(diff);
      } else if diff < 0 {
        DropTags(-diff);
      }
      active := target;
    }

    /** The first of the two loops: from the best link on. */
    method AddTags(count: nat)
      requires Shape() && IsRanking(stats[..], totalLinks) && |Tagged(used[..])| + count <= totalLinks
      modifies used
      ensures |Tagged(used[..])| == |Tagged(old(used[..]))| + count
      ensures Promoted(stats[..], old(used[..]), used[..])
    {
      var i: int, diff: int := 0, count;
      while i < totalLinks && diff > 0
        invariant 0 <= i <= totalLinks && 0 <= diff
        invariant |Tagged(used[..])| == |Tagged(old(used[..]))| + count - diff
        invariant forall k | 0 <= k < i :: used[stats[k].linkId] != NotUsed
        invariant forall k | i <= k < totalLinks :: used[stats[k].linkId] == old(used[stats[k].linkId])
        invariant forall l | 0 <= l < totalLinks && used[l] != old(used[l]) ::
            old(used[l]) == NotUsed && used[l] == Slow
      {
        var l := stats[i].linkId;
        if used[l] == NotUsed {
          TagOne(used[..], l, Slow);
          used[l] := Slow;
          diff := diff - 1;
        }
        i := i + 1;
      }
      AllTagged(stats[..], used[..], i);
    }

    /** The second one: from the worst link on. */
    method DropTags(count: nat)
      requires Shape() && IsRanking(stats[..], totalLinks) && count <= |Tagged(used[..])|
      modifies used
      ensures |Tagged(used[..])| == |Tagged(old(used[..]))| - count
      ensures Demoted(stats[..], old(used[..]), used[..])
    {
      ghost var before := used[..];
      var i: int := totalLinks - 1;
      var diff: int := 0 - count;
      while i >= 0 && diff < 0
        invariant diff <= 0 && DemotedFrom(stats[..], before, used[..], i)
        invariant |Tagged(used[..])| == |Tagged(before)| - count - diff
      {
        var l := stats[i].linkId;
        ghost var now := used[..];
        DemotedNext(stats[..], before, now, i);
        if used[l] != NotUsed {
          UntagOne(now, l);
          used[l] := NotUsed;
          diff := diff + 1;
        }
        assert used[..] == now[l := NotUsed];
        i := i - 1;
      }
      if i < 0 {
        NoneTagged(stats[..], used[..]);
      }
    }

    /** `algo_lightning_link_cat`: of the tagged links the best `count` are fast, the rest slow. */
    method LinkCategories(count: nat)
      requires Valid() && IsRanking(stats[..], totalLinks)
      modifies used
      ensures Valid() && Tagged(used[..]) == Tagged(old(used[..]))
      ensures |InCat(used[..], Fast)| == if count < active then count else active
      ensures |InCat(used[..], Slow)| == active - |InCat(used[..], Fast)|
      ensures forall i, j | 0 <= i < j < totalLinks ::
                !(used[stats[i].linkId] == Slow && used[stats[j].linkId] == Fast)
    {
      var n := 0;
      ghost var rank, tagged := stats[..], Tagged(used[..]);
      CategoriesStart(rank, used[..]);
      for i := 0 to totalLinks
        invariant CategoriesSoFar(rank, used[..], tagged, i, n, count)
      {
        CategoriesNext(rank, used[..], tagged, i, n, count);
        n := CategoriseOne(stats[i].linkId, n, count);
      }
      CategoriesEnd(rank, used[..], tagged, n, count);
    }

    /** One turn of that loop. */
    method CategoriseOne(l: nat, n: nat, count: nat) returns (next: nat)
      requires Shape() && l < totalLinks
      modifies used
      ensures used[..] == Categorised(old(used[..]), l, n, count)
      ensures next == if l in Tagged(old(used[..])) then n + 1 else n
    {
      next := n;
      if used[l] != NotUsed {
        used[l] := if n < count then Fast else Slow;
        next := n + 1;
      }
    }

    // ------------------------------------------------------------------- swaps

    /** The loop of `algo_lightning_update_used`: the tagged link with the worst score and the idle one
        that was used least recently; -1 when there is none. */
    method FindSwap(now: Timespec) returns (usedToNot: int, notToUsed: int)
      requires Valid() && IsRanking(stats[..], totalLinks) && now.Normal()
      ensures usedToNot == WorstOf(stats[..], used[..], totalLinks).0
      ensures notToUsed == OldestOf(stats[..], used[..], last[..], now, totalLinks).0
    {
      usedToNot, notToUsed := -1, -1;
      var maxOoo, oldest := 0, now;
      ghost var rank, cats, times := stats[..], used[..], last[..];
      for i := 0 to totalLinks
        invariant (usedToNot, maxOoo) == WorstOf(rank, cats, i)
        invariant (notToUsed, oldest) == OldestOf(rank, cats, times, now, i)
      {
        var s := stats[i];
        if used[s.linkId] == Fast || used[s.linkId] == Slow {
          var retained := Retained(s.ooo);
          if retained >= maxOoo {
            maxOoo, usedToNot := retained, s.linkId;
          }
        } else if s.ooo != DISCONNECTED && last[s.linkId].Lt(oldest) {
          oldest, notToUsed := last[s.linkId], s.linkId;
        }
      }
    }

    /** The same, by what it finds. */
    method ChooseSwap(now: Timespec) returns (usedToNot: int, notToUsed: int)
      requires Valid() && IsRanking(stats[..], totalLinks) && now.Normal()
      ensures usedToNot < totalLinks && notToUsed < totalLinks
      ensures usedToNot >= 0 <==> exists i :: 0 <= i < totalLinks && used[stats[i].linkId] != NotUsed
      ensures notToUsed >= 0 <==> exists i :: 0 <= i < totalLinks && Admissible(stats[i], used[..], last[..], now)
      ensures usedToNot >= 0 ==> WorstTagged(stats[..], used[..], usedToNot)
      ensures notToUsed >= 0 ==> OldestAdmissible(stats[..], used[..], last[..], now, notToUsed)
    {
      usedToNot, notToUsed := FindSwap(now);
      SwapFound(stats[..], used[..], last[..], now);
    }

    /** `algo_lightning_update_used`; not `ok` is the exit when the clock is too close to its origin. */
    method UpdateUsed(now: Timespec) returns (ok: bool, swapped: bool, evicted: nat, admitted: nat)
      requires Valid() && IsRanking(stats[..], totalLinks) && now.Normal()
      modifies this`lastUpdateUsed, this`swaps, used
      ensures Valid()
      ensures Tagged(used[..]) ==
              if swapped then Tagged(old(used[..])) - {evicted} + {admitted} else Tagged(old(used[..]))
      ensures ok <==> !TooSoon(now, window)
      ensures SwapExact(stats[..], old(used[..]), last[..], now, Over(old(lastUpdateUsed), now),
                        swapped, evicted, admitted)
      ensures !swapped ==> used[..] == old(used[..]) && swaps == old(swaps) && lastUpdateUsed == old(lastUpdateUsed)
      ensures swapped ==>
                && used[..] == old(used[..])[evicted := NotUsed][admitted := Slow]
                && lastUpdateUsed == now && swaps == old(swaps) + [now]
    {
      swapped, evicted, admitted := false, 0, 0;
      WindowExit(lastUpdateUsed, now, window);
      var notBefore := now.Diff(SetMillis(window));
      if notBefore == None {
        return false, false, 0, 0;
      }
      ok := true;
      if lastUpdateUsed.Gt(notBefore.value) {
        return;
      }
      swapped, evicted, admitted := SwapIfFound(now);
    }

    /** Whether the window since the last swap is over. */
    predicate Over(lastSwap: Timespec, now: Timespec) {
      WindowOver(lastSwap, now, window) == Some(true)
    }

    /** Its second part, once the window is over. */
    method SwapIfFound(now: Timespec) returns (swapped: bool, evicted: nat, admitted: nat)
      requires Valid() && IsRanking(stats[..], totalLinks) && now.Normal() && Over(lastUpdateUsed, now)
      modifies this`lastUpdateUsed, this`swaps, used
      ensures Valid()
      ensures Tagged(used[..]) ==
              if swapped then Tagged(old(used[..])) - {evicted} + {admitted} else Tagged(old(used[..]))
      ensures SwapExact(stats[..], old(used[..]), last[..], now, true, swapped, evicted, admitted)
      ensures !swapped ==> used[..] == old(used[..]) && swaps == old(swaps) && lastUpdateUsed == old(lastUpdateUsed)
      ensures swapped ==>
                && used[..] == old(used[..])[evicted := NotUsed][admitted := Slow]
                && lastUpdateUsed == now && swaps == old(swaps) + [now]
    {
      var usedToNot, notToUsed := ChooseSwap(now);
      if usedToNot < 0 || notToUsed < 0 {
        return false, 0, 0;
      }
      Swap(usedToNot, notToUsed, now);
      return true, usedToNot, notToUsed;
    }

    method Swap(evicted: nat, admitted: nat, now: Timespec)
      requires Valid() && now.Normal() && Over(lastUpdateUsed, now)
      requires evicted < totalLinks && admitted < totalLinks && used[evicted] != NotUsed && used[admitted] == NotUsed
      modifies this`lastUpdateUsed, this`swaps, used
      ensures Valid() && Tagged(used[..]) == Tagged(old(used[..])) - {evicted} + {admitted}
      ensures used[..] == old(used[..])[evicted := NotUsed][admitted := Slow]
      ensures lastUpdateUsed == now && swaps == old(swaps) + [now]
    {
      SwapKeepsCount(used[..], evicted, admitted);
      AddSwap(swaps, lastUpdateUsed, now, window);
      ghost var s := used[..];
      used[evicted] := NotUsed;
      used[admitted] := Slow;
      assert used[..] == s[evicted := NotUsed][admitted := Slow];
      lastUpdateUsed := now;
      swaps := swaps + [now];
    }

    // --------------------------------------------------------------- selection

    /** The least recently used link of a category, or UINT8_MAX. */
    method SelectLink(cat: LinkCat, now: Timespec) returns (sel: nat)
      requires Valid() && now.Normal()
      ensures sel == NO_LINK || sel < totalLinks
      ensures sel != NO_LINK ==> Picks(used[..], last[..], cat, now, sel)
      ensures sel == NO_LINK <==> forall l | 0 <= l < totalLinks && used[l] == cat :: now.Value() <= last[l].Value()
    {
      var selLast := now;
      sel := NO_LINK;
      for i := 0 to totalLinks
        invariant selLast.Normal() && (sel == NO_LINK || sel < i)
        invariant sel == NO_LINK ==> selLast == now
        invariant sel != NO_LINK ==> used[sel] == cat && selLast == last[sel] && selLast.Value() < now.Value()
        invariant forall l | 0 <= l < i && used[l] == cat :: selLast.Value() <= last[l].Value()
        invariant sel != NO_LINK ==> forall l | 0 <= l < sel && used[l] == cat :: selLast.Value() < last[l].Value()
      {
        if used[i] == cat {
          NormalOrder(last[i], selLast);
          if last[i].Lt(selLast) {
            sel, selLast := i, last[i];
          }
        }
      }
    }

    /** The part of `send_message` that concerns the scheduler: the link is stamped before it is known
        whether it has a socket. */
    method Stamp(sel: nat, at: Timespec)
      requires Valid() && at.Normal() && (sel == NO_LINK || sel < totalLinks)
      modifies last
      ensures Valid() && last[..] == if sel < totalLinks then old(last[..])[sel := at] else old(last[..])
    {
      if sel < totalLinks {
        last[sel] := at;
      }
    }

    // ---------------------------------------------------------------- datagrams

    /** How many links are to be in use, `cat->socklist->len` sockets being open. */
    function Target(sockets: nat): (target: nat)
      ensures target <= sockets && target <= 2 * fastCount && (target == sockets || target == 2 * fastCount)
    {
      if 2 * fastCount < sockets then 2 * fastCount else sockets
    }

    /** The tags and the ranking after a datagram: `target` tags, half of them fast and in front. */
    ghost predicate TagsExact(target: nat)
      reads this`active, this`remoteStats, this`localStats, stats, used
    {
      && Shape() && active == target == |Tagged(used[..])|
      && |InCat(used[..], Fast)| == target / 2 && |InCat(used[..], Slow)| == target - target / 2
      && IsRanking(stats[..], totalLinks) && (!disableScheduler ==> Sorted(stats[..]))
      && forall i, j | 0 <= i < j < totalLinks :: !(used[stats[i].linkId] == Slow && used[stats[j].linkId] == Fast)
    }

    /** Tag, swap, categorise. */
    method Retag(target: nat, now: Timespec)
      returns (ok: bool, ghost mid: seq<LinkCat>, swapped: bool, evicted: nat, admitted: nat)
      requires Valid() && IsRanking(stats[..], totalLinks) && (!disableScheduler ==> Sorted(stats[..]))
      requires now.Normal() && target <= totalLinks
      modifies this`active, this`lastUpdateUsed, this`swaps, used
      ensures Valid() && (ok <==> !TooSoon(now, window))
      ensures ok ==>
                && TagsExact(target) && swaps == old(swaps) + (if swapped then [now] else [])
                && Retagged(stats[..], old(used[..]), mid, used[..], old(active), active, last[..], now,
                            Over(old(lastUpdateUsed), now), swapped, evicted, admitted)
    {
      AdaptTags(target);
      mid := used[..];
      ok, swapped, evicted, admitted := UpdateUsed(now);
      if ok {
        LinkCategories(target / 2);
      }
    }

    /** First part of `algo_lightning_on_datagram`: score and rank, then retag. */
    method RefreshTags(h: seq<Entry>, now: Timespec, statNow: Timespec, connected: set<nat>, sockets: nat)
      returns (ok: bool, ghost mid: seq<LinkCat>, swapped: bool, evicted: nat, admitted: nat)
      requires Valid() && Timely(h, statNow) && statNow.Normal() && now.Normal() && Target(sockets) <= totalLinks
      modifies this`active, this`localStats, this`lastUpdateUsed, this`swaps, stats, used
      ensures Valid() && (ok <==> !TooSoon(statNow, window) && !TooSoon(now, window))
      ensures ok ==> TagsExact(Target(sockets)) && ScoresExact(h, statNow, connected)
      ensures ok ==> ScoresFollow(h, statNow, connected)
      // `mid` are the tags between the two steps that change which links have one.
      ensures ok ==>
                && Retagged(stats[..], old(used[..]), mid, used[..], old(active), active, last[..], now,
                            Over(old(lastUpdateUsed), now), swapped, evicted, admitted)
                && swaps == old(swaps) + if swapped then [now] else []
    {
      mid, swapped, evicted, admitted := [], false, 0, 0;
      ok := UpdateStats(h, statNow, connected);
      if ok {
        ok, mid, swapped, evicted, admitted := Retag(Target(sockets), now);
      }
    }

    /** Second part: the copies.  A copy that finds no link of its category is dropped, which only
        happens when every link of the category was used at `now` or later. */
    method Dispatch(now: Timespec, fastAt: Timespec, slowAt: Timespec) returns (fast: nat, slow: nat)
      requires Valid() && now.Normal() && fastAt.Normal() && slowAt.Normal()
      modifies this`strategy, last
      ensures Valid() && strategy == NextStrategy(old(strategy))
      ensures Chosen(used[..], old(last[..]), Fast, now, fast, old(strategy) != OnlySlow)
      ensures Chosen(used[..], old(last[..]), Slow, now, slow, old(strategy) != OnlyFast)
      ensures fast != NO_LINK ==> fast != slow
      ensures forall l | 0 <= l < totalLinks ::
                last[l] == if l == fast then fastAt else if l == slow then slowAt else old(last[l])
    {
      fast, slow := NO_LINK, NO_LINK;
      if strategy == Both || strategy == OnlyFast {
        fast := SelectLink(Fast, now);
        Stamp(fast, fastAt);
      }
      ghost var mid := last[..];
      if strategy == Both || strategy == OnlySlow {
        slow := SelectLink(Slow, now);
        OtherStamp(used[..], old(last[..]), mid, fast, now, slow);
        Stamp(slow, slowAt);
      }
      strategy := NextStrategy(strategy);
    }

    /** `algo_lightning_on_datagram` after padding, with the clock readings it makes on its way. */
    method OnDatagram(h: seq<Entry>, now: Timespec, statNow: Timespec, fastAt: Timespec, slowAt: Timespec,
                      connected: set<nat>, sockets: nat)
      returns (ok: bool, fast: nat, slow: nat, ghost mid: seq<LinkCat>, swapped: bool, evicted: nat, admitted: nat)
      requires Valid() && Timely(h, statNow) && statNow.Normal() && Target(sockets) <= totalLinks
      requires now.Normal() && fastAt.Normal() && slowAt.Normal()
      modifies this`active, this`localStats, this`lastUpdateUsed, this`swaps, this`strategy, stats, used, last
      ensures Valid()
      ensures ok <==> !TooSoon(statNow, window) && !TooSoon(now, window)
      ensures ok ==> TagsExact(Target(sockets)) && ScoresExact(h, statNow, connected)
      ensures ok ==> ScoresFollow(h, statNow, connected)
      ensures ok ==>
                && Retagged(stats[..], old(used[..]), mid, used[..], old(active), active, old(last[..]), now,
                            Over(old(lastUpdateUsed), now), swapped, evicted, admitted)
                && swaps == old(swaps) + (if swapped then [now] else []) && (swapped ==> admitted in connected)
      ensures ok ==> strategy == NextStrategy(old(strategy))
      ensures ok ==> Chosen(used[..], old(last[..]), Fast, now, fast, old(strategy) != OnlySlow)
      ensures ok ==> Chosen(used[..], old(last[..]), Slow, now, slow, old(strategy) != OnlyFast)
      ensures fast != NO_LINK ==> fast != slow
      ensures ok ==> forall l | 0 <= l < totalLinks ::
                last[l] == if l == fast then fastAt else if l == slow then slowAt else old(last[l])
    {
      fast, slow := NO_LINK, NO_LINK;
      ok, mid, swapped, evicted, admitted := RefreshTags(h, now, statNow, connected, sockets);
      if ok {
        AdmittedConnected(stats[..], old(used[..]), mid, used[..], old(active), active, last[..], now,
                          Over(old(lastUpdateUsed), now), swapped, evicted, admitted, connected);
        fast, slow := Dispatch(now, fastAt, slowAt);
      }
    }
  }

  /** A swap never admits a disconnected link. */
  lemma AdmittedConnected(rank: seq<StatEntry>, before: seq<LinkCat>, mid: seq<LinkCat>, after: seq<LinkCat>,
                          had: nat, has: nat, last: seq<Timespec>, now: Timespec, over: bool,
                          swapped: bool, evicted: nat, admitted: nat, connected: set<nat>)
    requires Retagged(rank, before, mid, after, had, has, last, now, over, swapped, evicted, admitted)
    requires forall i | 0 <= i < |rank| :: rank[i].ooo == DISCONNECTED <==> rank[i].linkId !in connected
    ensures swapped ==> admitted in connected
  {
    if swapped {
      assert admitted in LinksOf(rank);
    }
  }

  lemma OwnRanking(s: seq<StatEntry>)
    requires forall l: nat | l < |s| :: s[l].linkId == l
    ensures IsRanking(s, |s|)
  {
    forall l: nat | l < |s| ensures l in LinksOf(s) {
      assert s[l].linkId == l;
    }
  }

  lemma SameEntries(s: seq<StatEntry>, r: seq<StatEntry>)
    requires multiset(s) == multiset(r) && forall l: nat | l < |s| :: s[l].linkId == l
    ensures forall i | 0 <= i < |r| :: r[i].linkId < |s| && r[i] == s[r[i].linkId]
  {
    forall i | 0 <= i < |r| ensures r[i].linkId < |s| && r[i] == s[r[i].linkId] {
      assert r[i] in multiset(s);
    }
  }

  lemma TagOne(used: seq<LinkCat>, l: nat, cat: LinkCat)
    requires l < |used| && used[l] == NotUsed && cat != NotUsed
    ensures Tagged(used[l := cat]) == Tagged(used) + {l}
    ensures |Tagged(used[l := cat])| == |Tagged(used)| + 1
  {
    assert Tagged(used[l := cat]) == Tagged(used) + {l};
  }

  lemma SwapKeepsCount(used: seq<LinkCat>, out: nat, in_: nat)
    requires out < |used| && in_ < |used| && used[out] != NotUsed && used[in_] == NotUsed
    ensures var t := used[out := NotUsed][in_ := Slow];
      Tagged(t) == Tagged(used) - {out} + {in_} && |Tagged(t)| == |Tagged(used)|
  {
    UntagOne(used, out);
    TagOne(used[out := NotUsed], in_, Slow);
  }

  lemma AddSwap(swaps: seq<Timespec>, lastSwap: Timespec, now: Timespec, window: nat)
    requires SpacedOut(swaps, window) && (swaps != [] ==> swaps[|swaps| - 1] == lastSwap)
    requires lastSwap.Normal() && now.Normal() && WindowOver(lastSwap, now, window) == Some(true)
    ensures SpacedOut(swaps + [now], window)
  {
    NeverEarly(lastSwap, now, window);
  }

  lemma UntagOne(used: seq<LinkCat>, l: nat)
    requires l < |used| && used[l] != NotUsed
    ensures Tagged(used[l := NotUsed]) == Tagged(used) - {l}
    ensures |Tagged(used[l := NotUsed])| == |Tagged(used)| - 1
  {
    assert Tagged(used[l := NotUsed]) == Tagged(used) - {l};
  }

  /** Once every rank has been looked at, every link is tagged. */
  lemma AllTagged(s: seq<StatEntry>, used: seq<LinkCat>, i: nat)
    requires IsRanking(s, |used|) && i <= |used|
    requires forall k | 0 <= k < i :: used[s[k].linkId] != NotUsed
    ensures i == |used| ==> |Tagged(used)| == |used|
  {
    if i == |used| {
      forall l: nat | l < |used| ensures l in Tagged(used) {
        assert l in LinksOf(s);
        var k :| 0 <= k < |s| && s[k].linkId == l;
      }
      RangeCard(|used|, Tagged(used));
    }
  }

  lemma NoneTagged(s: seq<StatEntry>, used: seq<LinkCat>)
    requires IsRanking(s, |used|)
    ensures (forall k | 0 <= k < |used| :: used[s[k].linkId] == NotUsed) ==> Tagged(used) == {}
  {
    if forall k | 0 <= k < |used| :: used[s[k].linkId] == NotUsed {
      forall l: nat | l < |used| ensures l !in Tagged(used) {
        assert l in LinksOf(s);
        var k :| 0 <= k < |s| && s[k].linkId == l;
      }
      assert Tagged(used) == {};
    }
  }

  lemma LinksOfNext(s: seq<StatEntry>, i: nat)
    requires IsRanking(s, |s|) && i < |s|
    ensures LinksOf(s[..i + 1]) == LinksOf(s[..i]) + {s[i].linkId} && s[i].linkId !in LinksOf(s[..i])
  {
  }

  lemma CountNext(a: set<nat>, b: set<nat>, l: nat)
    requires l !in b
    ensures |a * (b + {l})| == |a * b| + if l in a then 1 else 0
  {
    assert a * (b + {l}) == if l in a then a * b + {l} else a * b;
  }

  lemma Recategorise(s: seq<LinkCat>, t: seq<LinkCat>, l: nat, before: set<nat>)
    requires |t| == |s| && l < |s| && s[l] != NotUsed && t[l] != NotUsed && t == s[l := t[l]] && l !in before
    ensures Tagged(t) == Tagged(s)
    ensures InCat(t, Fast) * before == InCat(s, Fast) * before
  {
  }

  lemma AllLinks(s: seq<StatEntry>, total: nat, used: seq<LinkCat>)
    requires IsRanking(s, total) && |used| == total
    ensures Tagged(used) <= LinksOf(s) && InCat(used, Fast) <= LinksOf(s)
    ensures InCat(used, Fast) * LinksOf(s) == InCat(used, Fast)
  {
  }

  lemma FastAndSlow(used: seq<LinkCat>)
    ensures Tagged(used) == InCat(used, Fast) + InCat(used, Slow)
    ensures |InCat(used, Slow)| == |Tagged(used)| - |InCat(used, Fast)|
  {
    assert Tagged(used) == InCat(used, Fast) + InCat(used, Slow);
    assert InCat(used, Fast) !! InCat(used, Slow);
  }

  function Categorised(used: seq<LinkCat>, l: nat, n: nat, count: nat): seq<LinkCat>
    requires l < |used|
  {
    if used[l] == NotUsed then used else used[l := if n < count then Fast else Slow]
  }

  /** After `i` ranks, `n` of them tagged: those are categorised, the others as before. */
  ghost predicate CategoriesSoFar(rank: seq<StatEntry>, used: seq<LinkCat>, tagged: set<nat>,
                                  i: nat, n: nat, count: nat)
  {
    && IsRanking(rank, |used|) && i <= |rank|
    && Tagged(used) == tagged
    && n == |tagged * LinksOf(rank[..i])|
    && |InCat(used, Fast) * LinksOf(rank[..i])| == (if n < count then n else count)
    && forall k | 0 <= k < i && used[rank[k].linkId] != NotUsed ::
         used[rank[k].linkId] == if |tagged * LinksOf(rank[..k])| < count then Fast else Slow
  }

  lemma CategoriesStart(rank: seq<StatEntry>, used: seq<LinkCat>)
    requires IsRanking(rank, |used|)
    ensures forall count: nat :: CategoriesSoFar(rank, used, Tagged(used), 0, 0, count)
  {
    assert LinksOf(rank[..0]) == {};
    assert Tagged(used) * {} == {} && InCat(used, Fast) * {} == {};
  }

  lemma CategoriesNext(rank: seq<StatEntry>, used: seq<LinkCat>, tagged: set<nat>, i: nat, n: nat, count: nat)
    requires CategoriesSoFar(rank, used, tagged, i, n, count) && i < |rank|
    ensures var l := rank[i].linkId;
      CategoriesSoFar(rank, Categorised(used, l, n, count), tagged, i + 1, if l in tagged then n + 1 else n, count)
  {
    var l, before := rank[i].linkId, LinksOf(rank[..i]);
    var t := Categorised(used, l, n, count);
    LinksOfNext(rank, i);
    if l in tagged {
      Recategorise(used, t, l, before);
    }
    CountNext(tagged, before, l);
    CountNext(InCat(t, Fast), before, l);
    forall k | 0 <= k <= i && t[rank[k].linkId] != NotUsed
      ensures t[rank[k].linkId] == if |tagged * LinksOf(rank[..k])| < count then Fast else Slow
    {
      if k < i {
        assert t[rank[k].linkId] == used[rank[k].linkId];
      }
    }
  }

  lemma CategoriesEnd(rank: seq<StatEntry>, used: seq<LinkCat>, tagged: set<nat>, n: nat, count: nat)
    requires CategoriesSoFar(rank, used, tagged, |rank|, n, count)
    ensures Tagged(used) == tagged && n == |tagged|
    ensures |InCat(used, Fast)| == if |tagged| < count then |tagged| else count
    ensures |InCat(used, Slow)| == |tagged| - |InCat(used, Fast)|
    ensures forall i, j | 0 <= i < j < |rank| :: !(used[rank[i].linkId] == Slow && used[rank[j].linkId] == Fast)
  {
    assert rank[..|rank|] == rank;
    AllLinks(rank, |used|, used);
    assert tagged * LinksOf(rank) == tagged;
    FastAndSlow(used);
    OrderedByCount(rank, used, tagged, count);
  }

  /** Categories given by the count of tagged links before are never slow before fast. */
  lemma OrderedByCount(s: seq<StatEntry>, used: seq<LinkCat>, tagged: set<nat>, count: nat)
    requires IsRanking(s, |used|)
    requires forall k | 0 <= k < |s| && used[s[k].linkId] != NotUsed ::
               used[s[k].linkId] == if |tagged * LinksOf(s[..k])| < count then Fast else Slow
    ensures forall i, j | 0 <= i < j < |s| :: !(used[s[i].linkId] == Slow && used[s[j].linkId] == Fast)
  {
    forall i, j | 0 <= i < j < |s| ensures !(used[s[i].linkId] == Slow && used[s[j].linkId] == Fast) {
      var a, b := tagged * LinksOf(s[..i]), tagged * LinksOf(s[..j]);
      assert a <= b;
      CardMonotone(a, b);
    }
  }
}
