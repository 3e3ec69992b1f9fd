/** How `lightning` scores and ranks links (src/algo_lightning.c:304-392). */
module LightningRanking {
  import opened Basics
  import opened Timespecs
  import opened LightningMonitoring
  import opened LightningHistory

  const INT16_MAX: int := 32767
  const UNMEASURED: int := -1
  const DISCONNECTED: int := -2

  datatype StatEntry = StatEntry(linkId: nat, ooo: int, measOcc: nat)

  // ----------------------------------------------------------------- scores

  /** C's division truncates. */
  function TruncDiv(a: int, b: int): int
    requires b > 0
  {
    if a >= 0 then a / b else -(-a / b)
  }

  /** Conversion of a 64-bit value to 16 or 32 bits. */
  function Narrow(x: int, bits: nat): int
    requires bits == 16 || bits == 32
  {
    var m := if bits == 16 then 0x1_0000 else 0x1_0000_0000;
    var u := x % m;
    if u >= m / 2 then u - m else u
  }

  /** The value that has the same low bits and that the type can hold. */
  lemma NarrowExact(x: int, bits: nat)
    requires bits == 16 || bits == 32
    ensures var r, m := Narrow(x, bits), if bits == 16 then 65536 else 4294967296;
      && -m <= 2 * r < m && (x - r) % m == 0
      && (-m <= 2 * x < m ==> r == x)
  {
    var m := if bits == 16 then 65536 else 4294967296;
    assert x == m * (x / m) + x % m;
    if x % m >= m / 2 {
      assert x - Narrow(x, bits) == m * (x / m + 1);
    } else {
      assert x - Narrow(x, bits) == m * (x / m);
    }
  }

  /** Entries that count: recent, or still missing; and of a link that exists. */
  predicate Counts(e: Entry, notBefore: Timespec, total: nat) {
    !(e.finishedAt.Lt(notBefore) && e.state != OooOngoing) && e.linkId < total
  }

  /** Which these are, for a window of `window` milliseconds before `now`: as with the test of the window, from
      one second on that is only known to the second, and up to two seconds late. */
  lemma CountsExact(e: Entry, now: Timespec, window: nat, total: nat)
    requires e.finishedAt.Normal() && now.Normal() && !TooSoon(now, window)
    ensures now.Diff(SetMillis(window)).Some?
    ensures var age, secs := now.Value() - e.finishedAt.Value(), now.sec - e.finishedAt.sec;
      Counts(e, now.Diff(SetMillis(window)).value, total) <==>
        && e.linkId < total
        && (|| e.state == OooOngoing
            || (if window < 1000 then age <= window * MILISEC
                else if window < 2000 && now.nsec >= window * MILISEC - ONE_SEC then age <= window * MILISEC + ONE_SEC
                else if window < 2000 then secs < 3
                else secs < window / 1000 + 2))
  {
    WindowExit(e.finishedAt, now, window);
    if window < 1000 {
      NormalOrder(now, SetMillis(window));
      NormalOrder(e.finishedAt, now.Diff(SetMillis(window)).value);
    } else if window >= 2000 {
      LongWindow(e.finishedAt, now, window);
      assert window * MILISEC >= 2000 * MILISEC;
    } else {
      MiddleWindow(e.finishedAt, now, window);
    }
  }

  /** By how many milliseconds an entry is out of order so far. */
  function Delta(e: Entry, now: Timespec): int {
    match e.state
    case InOrder => 0
    case OooOngoing => if now.Diff(e.detectedAt).Some? then now.Diff(e.detectedAt).value.Millis() else 0
    case OooDone => if e.finishedAt.Diff(e.detectedAt).Some? then e.finishedAt.Diff(e.detectedAt).value.Millis() else 0
  }

  /** That is nothing for a packet in order, the time since its detection for a missing one, and the time from
      there to its arrival for a late one, in whole milliseconds. */
  lemma DeltaExact(e: Entry, now: Timespec)
    requires e.detectedAt.Normal() && e.finishedAt.Normal() && now.Normal() && e.detectedAt.Le(now)
    requires e.state == OooDone ==> e.detectedAt.Le(e.finishedAt)
    ensures e.state == InOrder ==> Delta(e, now) == 0
    ensures e.state == OooOngoing ==> WholeMillis(Delta(e, now), now.Value() - e.detectedAt.Value())
    ensures e.state == OooDone ==> WholeMillis(Delta(e, now), e.finishedAt.Value() - e.detectedAt.Value())
  {
    NormalOrder(now, e.detectedAt);
    NormalOrder(e.finishedAt, e.detectedAt);
    if e.state == OooOngoing {
      MillisExact(now.Diff(e.detectedAt).value);
    } else if e.state == OooDone {
      MillisExact(e.finishedAt.Diff(e.detectedAt).value);
    }
  }

  /** Sum of the delays and number of the entries of link `l` among `h`. */
  function SumOf(h: seq<Entry>, l: nat, now: Timespec, notBefore: Timespec, total: nat): int {
    if h == [] then 0
    else
      var e := h[|h| - 1];
      SumOf(h[..|h| - 1], l, now, notBefore, total) +
      if Counts(e, notBefore, total) && e.linkId == l then Delta(e, now) else 0
  }

  /** On the entries of a run no delay is negative. */
  lemma {:induction false} SumNonNegative(h: seq<Entry>, l: nat, now: Timespec, notBefore: Timespec, total: nat)
    requires Timely(h, now) && now.Normal()
    ensures SumOf(h, l, now, notBefore, total) >= 0
    decreases |h|
  {
    if h != [] {
      var e := h[|h| - 1];
      SumNonNegative(h[..|h| - 1], l, now, notBefore, total);
      NormalOrder(now, e.detectedAt);
      NormalOrder(e.finishedAt, e.detectedAt);
    }
  }

  /** A packet that arrives more than once without having been missed counts as a delay since the last gap
      seen in its slot, of whatever id, or since the clock's origin. */
  lemma RepeatIsDelay(run: seq<Arrival>, spl: nat, k: nat, now: Timespec)
    requires Carries(run, spl) && spl <= MAX_LINKS && Positive(run) && InTime(run) && Monotone(run)
    requires InWindow(k, Highest(run)) && Times(run, k) >= 2 && !Missed(run, k, spl)
    ensures Received(run, k)
    ensures var e := RunRing(run, spl).historic[Slot(k)];
      var last, since := run[LastOf(run, k).value].now, GapTime(run, Slot(k), spl);
      && e.pktId == k && e.state == OooDone
      && last.Diff(since).Some? && Delta(e, now) == last.Diff(since).value.Millis()
  {
    TimesReceived(run, k);
    DoneExact(run, spl, k);
    DetectedExact(run, spl, Slot(k));
    RunTimely(run, spl, run[|run| - 1].now);
  }

  function OccOf(h: seq<Entry>, l: nat, notBefore: Timespec, total: nat): nat {
    if h == [] then 0
    else
      var e := h[|h| - 1];
      OccOf(h[..|h| - 1], l, notBefore, total) + if Counts(e, notBefore, total) && e.linkId == l then 1 else 0
  }

  /** Each entry of the history has its own part in both: changing one of them changes just that. */
  lemma {:induction false} OneEntry(h: seq<Entry>, i: nat, e: Entry, l: nat, now: Timespec, notBefore: Timespec,
                                    total: nat)
    requires i < |h|
    ensures var before := Counts(h[i], notBefore, total) && h[i].linkId == l;
      var after := Counts(e, notBefore, total) && e.linkId == l;
      && SumOf(h[i := e], l, now, notBefore, total) - SumOf(h, l, now, notBefore, total) ==
         (if after then Delta(e, now) else 0) - (if before then Delta(h[i], now) else 0)
      && OccOf(h[i := e], l, notBefore, total) - OccOf(h, l, notBefore, total) ==
         (if after then 1 else 0) - (if before then 1 else 0)
    decreases |h|
  {
    var n := |h| - 1;
    if i < n {
      OneEntry(h[..n], i, e, l, now, notBefore, total);
      assert h[i := e][..n] == h[..n][i := e];
    } else {
      assert h[i := e][..n] == h[..n];
    }
  }

  lemma {:induction false} NoEntry(h: seq<Entry>, l: nat, now: Timespec, notBefore: Timespec, total: nat)
    requires forall i | 0 <= i < |h| :: !(Counts(h[i], notBefore, total) && h[i].linkId == l)
    ensures SumOf(h, l, now, notBefore, total) == 0 && OccOf(h, l, notBefore, total) == 0
    decreases |h|
  {
    if h != [] {
      NoEntry(h[..|h| - 1], l, now, notBefore, total);
    }
  }

  /** The program's average; its sum starts at -1. */
  function Average(sum: int, occ: nat): int {
    if occ == 0 then UNMEASURED else TruncDiv(sum - 1, occ)
  }

  /** It is the average, rounded down, exactly when the average is not a whole number, or is zero over
      at least two packets; otherwise it is one less. */
  lemma AverageExact(sum: int, occ: nat)
    requires sum >= 0 && occ >= 1
    ensures Average(sum, occ) == sum / occ <==> sum % occ != 0 || (sum == 0 && occ >= 2)
    ensures Average(sum, occ) != sum / occ ==> Average(sum, occ) == sum / occ - 1
    ensures Average(sum, occ) == UNMEASURED <==> sum == 0 && occ == 1
  {
    if sum == 0 {
      assert occ >= 2 ==> 1 / occ == 0;
    } else {
      var q, r := sum / occ, sum % occ;
      assert sum == q * occ + r;
      if r == 0 {
        assert q >= 1 by { assert q * occ == sum; }
        DivUnique(sum - 1, occ, q - 1, occ - 1);
      } else {
        DivUnique(sum - 1, occ, q, r - 1);
      }
    }
  }

  /** So an average is a delay, or the mark of an unmeasured link. */
  lemma AverageRange(sum: int, occ: nat)
    requires sum >= 0
    ensures Average(sum, occ) >= UNMEASURED
  {
    if sum > 0 && occ > 0 {
      QuotientAtLeast(sum - 1, occ, 0);
    } else if occ > 0 {
      assert occ >= 2 ==> 1 / occ == 0;
    }
  }

  function Merge(local: int, remote: int): int {
    if remote < 0 then local
    else if local < 0 then remote
    else (remote + local) / 2
  }

  /** `score` is the mean of what both sides measured, rounded down, or what one of them did. */
  predicate Merged(score: int, local: int, remote: int) {
    if local >= 0 && remote >= 0 then 2 * score <= local + remote <= 2 * score + 1
    else score == if remote < 0 then local else remote
  }

  lemma MergeExact(local: int, remote: int)
    ensures Merged(Merge(local, remote), local, remote)
  {
  }

  // ---------------------------------------------------------------- ranking

  /** What the comparison compares. */
  function Key(ooo: int): int {
    var r := Narrow(ooo, 32);
    if r < 0 then INT16_MAX - r else r
  }

  predicate Sorted(s: seq<StatEntry>) {
    forall i, j | 0 <= i < j < |s| :: Key(s[i].ooo) <= Key(s[j].ooo)
  }

  /** Each link has exactly one place. */
  ghost predicate IsRanking(s: seq<StatEntry>, total: nat) {
    && |s| == total
    && (forall i | 0 <= i < total :: s[i].linkId < total)
    && (forall i, j | 0 <= i < j < total :: s[i].linkId != s[j].linkId)
    && (forall l: nat | l < total :: l in LinksOf(s))
  }

  function LinksOf(s: seq<StatEntry>): set<nat> {
    set i | 0 <= i < |s| :: s[i].linkId
  }

  lemma MultisetTwice<T>(s: seq<T>, i: nat, j: nat)
    requires i < j < |s| && s[i] == s[j]
    ensures multiset(s)[s[i]] >= 2
  {
    assert s == s[..j] + [s[j]] + s[j + 1..];
    assert s[i] in s[..j];
  }

  lemma MultisetOnce<T>(s: seq<T>, i: nat)
    requires i < |s| && forall j | 0 <= j < |s| && j != i :: s[j] != s[i]
    ensures multiset(s)[s[i]] == 1
  {
    assert s == s[..i] + [s[i]] + s[i + 1..];
    assert s[i] !in s[..i] && s[i] !in s[i + 1..];
  }

  /** Reordering keeps a ranking a ranking. */
  lemma ReorderedRanking(s: seq<StatEntry>, r: seq<StatEntry>, total: nat)
    requires IsRanking(s, total) && multiset(s) == multiset(r)
    ensures IsRanking(r, total)
  {
    assert |s| == |multiset(s)| == |multiset(r)| == |r|;
    forall i | 0 <= i < total ensures r[i] in s {
      assert r[i] in multiset(s);
    }
    forall i, j | 0 <= i < j < total ensures r[i].linkId != r[j].linkId {
      if r[i].linkId == r[j].linkId {
        assert r[i] in s && r[j] in s;
        var k :| 0 <= k < total && s[k] == r[i];
        assert s[k] == r[j];
        MultisetTwice(r, i, j);
        MultisetOnce(s, k);
        assert false;
      }
    }
    forall l: nat | l < total ensures l in LinksOf(r) {
      assert l in LinksOf(s);
      var k :| 0 <= k < total && s[k].linkId == l;
      assert s[k] in multiset(r);
      var i :| 0 <= i < |r| && r[i] == s[k];
      assert r[i].linkId == l;
    }
  }

  function Insert(r: seq<StatEntry>, k: nat, x: StatEntry): seq<StatEntry>
    requires k <= |r|
  {
    r[..k] + [x] + r[k..]
  }

  lemma InsertKeepsEntries(r: seq<StatEntry>, k: nat, x: StatEntry)
    requires k <= |r|
    ensures multiset(Insert(r, k, x)) == multiset(r) + multiset{x}
  {
    assert r == r[..k] + r[k..];
  }

  lemma InsertKeepsOrder(r: seq<StatEntry>, k: nat, x: StatEntry)
    requires Sorted(r) && k <= |r|
    requires k > 0 ==> Key(r[k - 1].ooo) <= Key(x.ooo)
    requires forall j | k <= j < |r| :: Key(x.ooo) < Key(r[j].ooo)
    ensures Sorted(Insert(r, k, x))
  {
    var t := Insert(r, k, x);
    forall j | 0 <= j < k ensures Key(r[j].ooo) <= Key(x.ooo) {
      assert Key(r[j].ooo) <= Key(r[k - 1].ooo);
    }
    forall i, j | 0 <= i < j < |t| ensures Key(t[i].ooo) <= Key(t[j].ooo) {
      if j < k {
      } else if i < k && j == k {
      } else if i < k {
        assert t[j] == r[j - 1];
      } else if i == k {
        assert t[j] == r[j - 1];
      } else {
        assert t[i] == r[i - 1] && t[j] == r[j - 1];
      }
    }
  }

  /** `qsort` with the program's comparison; only that the result is sorted and has the same entries
      is relied upon. */
  method Qsort(s: seq<StatEntry>) returns (r: seq<StatEntry>)
    ensures Sorted(r) && multiset(r) == multiset(s)
  {
    r := [];
    for i := 0 to |s|
      invariant Sorted(r) && multiset(r) == multiset(s[..i])
    {
      var k := |r|;
      while k > 0 && Key(r[k - 1].ooo) > Key(s[i].ooo)
        invariant 0 <= k <= |r|
        invariant forall j | k <= j < |r| :: Key(s[i].ooo) < Key(r[j].ooo)
      {
        k := k - 1;
      }
      InsertKeepsOrder(r, k, s[i]);
      InsertKeepsEntries(r, k, s[i]);
      assert s[..i + 1] == s[..i] + [s[i]];
      r := Insert(r, k, s[i]);
    }
    assert s[..|s|] == s;
  }

  /** With scores in range the order is: measured links by score, then unmeasured, then disconnected. */
  predicate ScoresInRange(s: seq<StatEntry>) {
    forall i | 0 <= i < |s| :: DISCONNECTED <= s[i].ooo <= INT16_MAX
  }

  function Group(ooo: int): nat {
    if ooo >= 0 then 0 else if ooo == UNMEASURED then 1 else 2
  }

  lemma RankingOrder(s: seq<StatEntry>, i: nat, j: nat)
    requires Sorted(s) && ScoresInRange(s) && i < j < |s|
    ensures Group(s[i].ooo) <= Group(s[j].ooo)
    ensures Group(s[i].ooo) == Group(s[j].ooo) ==> s[i].ooo <= s[j].ooo
  {
    KeyInRange(s[i].ooo);
    KeyInRange(s[j].ooo);
  }

  /** What a score counts for, as long as the comparison's 32-bit sum does not overflow. */
  lemma KeyInRange(ooo: int)
    requires INT16_MAX - 0x7FFF_FFFF <= ooo < 0x8000_0000
    ensures Key(ooo) == if ooo >= 0 then ooo else INT16_MAX - ooo
  {
  }

  /** The bound is exact: a measured link goes strictly before the unmeasured ones if and only if its
      score is at most 32767. */
  lemma MeasuredFirst(score: int)
    requires 0 <= score < 0x8000_0000
    ensures Key(score) < Key(UNMEASURED) <==> score <= INT16_MAX
    ensures Key(score) < Key(DISCONNECTED) <==> score <= INT16_MAX + 1
  {
    KeyInRange(score);
  }
}
