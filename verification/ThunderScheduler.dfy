/** The scheduler and the classifier of `thunder` (src/algo_thunder.c:36-41, 96-183, 193-206 and
    221-261).  One context holds both: what was received decides which links are avoided. */
module ThunderScheduler {
  import opened Basics
  import opened ThunderCounting
  import opened ThunderTraces

  /** A late link to be looked at again: `missing` packets were expected of it. */
  datatype Timer = Timer(link: nat, missing: int, delay: int)

  class Thunder {
    const totalLinks: nat
    const schedulerActivated: bool
    const allowedJitterMs: int
    var selectedLink: nat
    const toIncrement: array<nat>
    const blacklisted: array<nat>
    const received: array<nat>

    /** The visits made so far. */
    ghost var log: seq<Turn>

    ghost predicate Shape()
      reads this
    {
      && 1 <= totalLinks <= MAX_LINKS && selectedLink < totalLinks
      && toIncrement.Length == blacklisted.Length == received.Length == totalLinks
      && toIncrement != blacklisted && toIncrement != received && blacklisted != received
    }

    /** The counters are those of the visits. */
    ghost predicate Valid()
      reads this, toIncrement, received
    {
      && Shape() && Logged(log, totalLinks) && LinkAt(|log|, totalLinks) == NextOf(selectedLink, totalLinks)
      && (forall l | 0 <= l < totalLinks :: toIncrement[l] == Counter(log, l))
      && forall l | 0 <= l < totalLinks :: received[l] >= 1
    }

    constructor (totalLinks: nat, schedulerActivated: bool, allowedJitterMs: int)
      requires 1 <= totalLinks <= MAX_LINKS
      ensures Valid() && log == [] && fresh(toIncrement) && fresh(blacklisted) && fresh(received)
      ensures this.totalLinks == totalLinks && this.schedulerActivated == schedulerActivated
      ensures this.allowedJitterMs == allowedJitterMs
      ensures forall l | 0 <= l < totalLinks :: blacklisted[l] == 0 && received[l] == 1
    {
      this.totalLinks, this.schedulerActivated, this.allowedJitterMs := totalLinks, schedulerActivated, allowedJitterMs;
      selectedLink := totalLinks - 1;
      toIncrement := new nat[totalLinks](_ => 0);
      blacklisted := new nat[totalLinks](_ => 0);
      received := new nat[totalLinks](_ => 1);
      log := [];
    }

    /** `is_blacklisted` */
    predicate Blacklisted(l: nat)
      requires l < blacklisted.Length && l < received.Length
      reads blacklisted, received
    {
      schedulerActivated && blacklisted[l] >= received[l]
    }

    /** One visit: on to the next link, whose counter goes up. */
    method VisitNext()
      requires Valid()
      modifies this`selectedLink, this`log, toIncrement
      ensures Valid() && selectedLink == NextOf(old(selectedLink), totalLinks)
      ensures log == old(log) + [Turn(selectedLink, toIncrement[selectedLink], false)]
    {
      NextMod(selectedLink, totalLinks);
      selectedLink := (selectedLink + 1) % totalLinks;
      toIncrement[selectedLink] := (toIncrement[selectedLink] + 1) % 256;
      ghost var t := Turn(selectedLink, toIncrement[selectedLink], false);
      LoggedMore(log, t, totalLinks);
      log := log + [t];
    }

    /** Visits links until one is connected, at most `totalLinks + 1` of them; `idle` are the visits before
        the last one. */
    method NextLink(connected: set<nat>) returns (found: bool, ghost idle: seq<Turn>)
      requires Valid()
      modifies this`selectedLink, this`log, toIncrement
      ensures Valid() && old(log) <= idle && Idle(idle, |old(log)|, connected)
      ensures log == idle + [Turn(selectedLink, toIncrement[selectedLink], false)]
      ensures |log| <= |old(log)| + totalLinks + 1
      ensures found <==> selectedLink in connected
      ensures !found ==> |log| == |old(log)| + totalLinks + 1 && !AnyConnected(totalLinks, connected)
    {
      var protect2 := totalLinks;
      ghost var n := |log|;
      while true
        invariant Valid() && 0 <= protect2 <= totalLinks
        invariant old(log) <= log && |log| == n + (totalLinks - protect2)
        invariant Idle(log, n, connected)
        decreases protect2
      {
        idle := log;
        VisitNext();
        if selectedLink in connected {
          return true, idle;
        }
        if protect2 == 0 {
          LoggedPrefix(log, |idle|, totalLinks);
          NoneConnected(log, n, totalLinks, connected);
          return false, idle;
        }
        protect2 := protect2 - 1;
      }
    }

    /** Puts a copy on the selected link: it carries the link's counter, which starts again. */
    method SendCopy(ghost before: seq<Turn>) returns (c: Copy)
      requires Valid() && log == before + [Turn(selectedLink, toIncrement[selectedLink], false)]
      modifies this`log, toIncrement
      ensures Valid() && c == Copy(selectedLink, old(toIncrement[selectedLink]))
      ensures log == before + [Turn(c.link, c.inc, true)] && toIncrement[selectedLink] == 0
    {
      c := Copy(selectedLink, toIncrement[selectedLink]);
      toIncrement[selectedLink] := 0;
      ghost var t := Turn(c.link, c.inc, true);
      SentInstead(log, before, t, totalLinks);
      log := before + [t];
    }

    /** The links that are avoided. */
    ghost function Avoided(): (s: set<nat>)
      requires blacklisted.Length == received.Length
      reads blacklisted, received
      ensures forall l :: l in s <==> 0 <= l < blacklisted.Length && schedulerActivated && received[l] <= blacklisted[l]
    {
      set l | 0 <= l < blacklisted.Length && Blacklisted(l)
    }

    /** One turn of the outer loop: the next connected link gets a copy, unless it is avoided and was
        visited less than PROBE_EVERY times since its last one.  `idle` are the visits before. */
    method Pass(connected: set<nat>) returns (found: bool, sent: seq<Copy>, ghost idle: seq<Turn>, ghost t: Turn)
      requires Valid()
      modifies this`selectedLink, this`log, toIncrement
      ensures Valid() && old(log) <= idle && log == idle + [t] && |log| <= |old(log)| + totalLinks + 1
      ensures Idle(idle, |old(log)|, connected)
      ensures t.link == selectedLink && (t.sent <==> Sends(t.link, t.inc, connected, Avoided()))
      ensures sent == if t.sent then [Copy(t.link, t.inc)] else []
      ensures found <==> selectedLink in connected
      ensures !found ==> |log| == |old(log)| + totalLinks + 1 && !AnyConnected(totalLinks, connected)
    {
      sent := [];
      found, idle := NextLink(connected);
      t := Turn(selectedLink, toIncrement[selectedLink], false);
      if found && !(Blacklisted(selectedLink) && toIncrement[selectedLink] < PROBE_EVERY) {
        var c := SendCopy(idle);
        sent, t := [c], t.(sent := true);
      }
    }

    /** One pass in the search that began with visit `n`; it goes on unless there is an outcome. */
    method SearchOn(connected: set<nat>, ghost n: nat, copies: seq<Copy>, ghost hits: nat, ghost avoided: set<nat>)
      returns (outcome: Option<Outcome>, more: seq<Copy>, ghost now: nat)
      requires Valid() && avoided == Avoided() && hits <= totalLinks
      requires Searching(log, n, totalLinks, connected, avoided, copies, hits)
      modifies this`selectedLink, this`log, toIncrement
      ensures Valid() && old(log) < log && |log| <= |old(log)| + totalLinks + 1
      ensures outcome == None ==> now == hits + 1 && Searching(log, n, totalLinks, connected, avoided, more, now)
      ensures outcome.Some? ==> Ends(outcome.value, log, n, totalLinks, connected, avoided, more, now)
    {
      ghost var before := log;
      var found, sent;
      ghost var idle, t;
      found, sent, idle, t := Pass(connected);
      more, now := copies + sent, if found then hits + 1 else hits;
      PassScheduled(|before|, idle, t, connected, avoided);
      ScheduledTwice(before, log, n, connected, avoided, copies, hits, sent, now - hits);
      if !found {
        NothingFound(before, log, n, totalLinks, connected, avoided, copies, hits, more);
        return Some(NoLink), more, now;
      }
      if !Blacklisted(selectedLink) {
        LinkFound(before, log, n, totalLinks, connected, avoided, copies, hits, sent[0]);
        return Some(Delivered(selectedLink)), more, now;
      }
      outcome := None;
    }

    /** The passes of `schedule`: at most `totalLinks + 1`, until a copy was put on a link that is not
        avoided or no link is connected. */
    method Passes(connected: set<nat>) returns (outcome: Outcome, copies: seq<Copy>, ghost hits: nat)
      requires Valid()
      modifies this`selectedLink, this`log, toIncrement
      ensures Valid() && old(log) <= log && |log| <= |old(log)| + VisitBound(totalLinks + 1, totalLinks)
      ensures Ends(outcome, log, |old(log)|, totalLinks, connected, Avoided(), copies, hits)
    {
      copies, hits := [], 0;
      // One more than `protect`.
      var left := totalLinks + 1;
      var result := None;
      ghost var n, avoided := |log|, Avoided();
      while result == None && left > 0
        modifies this`selectedLink, this`log, toIncrement
        invariant Valid() && 0 <= left <= totalLinks + 1 && old(log) <= log
        invariant |log| + VisitBound(left, totalLinks) <= n + VisitBound(totalLinks + 1, totalLinks)
        invariant result == None ==>
            hits == totalLinks + 1 - left && Searching(log, n, totalLinks, connected, avoided, copies, hits)
        invariant result.Some? ==> Ends(result.value, log, n, totalLinks, connected, avoided, copies, hits)
        decreases left
      {
        result, copies, hits := SearchOn(connected, n, copies, hits, avoided);
        left := left - 1;
      }
      if result == None {
        Exhausted(log, n, totalLinks, connected, avoided, copies, hits);
        return AllBlacklisted, copies, hits;
      }
      outcome := result.value;
    }

    /** `schedule`, for a node with `sockets` open sockets, those of the links in `connected`. */
    method Schedule(connected: set<nat>, sockets: nat) returns (outcome: Outcome, copies: seq<Copy>, ghost hits: nat)
      requires Valid()
      modifies this`selectedLink, this`log, toIncrement, received
      ensures Valid() && old(log) <= log && |log| <= |old(log)| + (totalLinks + 1) * (totalLinks + 1)
      ensures outcome == NoSockets <==> sockets == 0
      ensures outcome == NoSockets ==> log == old(log) && copies == []
      // Every visit sent exactly if it had to, and the copies are those of the visits.
      ensures sockets > 0 ==> Ends(outcome, log, |old(log)|, totalLinks, connected, old(Avoided()), copies, hits)
      // What happens depends only on which links are connected and avoided.
      ensures outcome == NoLink <==> sockets > 0 && forall l: nat | l < totalLinks :: l !in connected
      ensures outcome.Delivered? <==>
              sockets > 0 && exists l: nat :: l < totalLinks && l in connected && l !in old(Avoided())
      // A link is avoided if its mark has reached its count; with the scheduler off, none is.
      ensures outcome.Delivered? <==>
              && sockets > 0
              && exists l: nat :: l < totalLinks && l in connected &&
                   (schedulerActivated ==> old(blacklisted[l]) < old(received[l]))
      ensures !schedulerActivated ==> outcome != AllBlacklisted
      // If all connected links are avoided, all links are given a new chance.
      ensures outcome == AllBlacklisted ==>
                Avoided() == {} && forall l | 0 <= l < totalLinks :: received[l] == blacklisted[l] + 1
      ensures outcome != AllBlacklisted ==> received[..] == old(received[..])
    {
      if sockets == 0 {
        return NoSockets, [], 0;
      }
      VisitBoundProduct(totalLinks + 1, totalLinks);
      outcome, copies, hits := Passes(connected);
      EndsDecided(outcome, log, |old(log)|, totalLinks, connected, Avoided(), copies, hits);
      if outcome == AllBlacklisted {
        Forgive();
      }
    }

    /** The reset at the end. */
    method Forgive()
      requires Valid()
      modifies received
      ensures Valid() && Avoided() == {}
      ensures forall l | 0 <= l < totalLinks :: received[l] == blacklisted[l] + 1
    {
      forall l | 0 <= l < totalLinks {
        received[l] := blacklisted[l] + 1;
      }
    }

    /** `on_block`, at once or after the timer: the expected count becomes the link's mark, unless the
        packets came in the meantime or the mark is higher already. */
    method OnBlock(i: nat, missing: int)
      requires Shape() && i < totalLinks
      modifies blacklisted
      ensures blacklisted[i] ==
              if received[i] >= missing || old(blacklisted[i]) >= missing then old(blacklisted[i]) else missing
      ensures forall l | 0 <= l < totalLinks && l != i :: blacklisted[l] == old(blacklisted[l])
    {
      if received[i] >= missing || blacklisted[i] >= missing {
        return;
      }
      blacklisted[i] := missing;
    }

    /** `classify`: a packet with count `inc` and delays `delta` arrived on `link`. */
    method Classify(link: nat, inc: nat, delta: seq<nat>) returns (timers: seq<Timer>)
      requires Valid() && link < totalLinks && |delta| == totalLinks
      modifies received, blacklisted
      ensures Valid()
      ensures received[..] == old(received[..])[link := old(received[link]) + inc]
      ensures forall i | 0 <= i < totalLinks ::
                blacklisted[i] == MarkAfter(received[..], link, allowedJitterMs, delta, i, old(blacklisted[i]))
      ensures timers == Timers(received[..], link, allowedJitterMs, delta, totalLinks)
    {
      received[link] := received[link] + inc;
      ghost var counts := received[..];
      timers := [];
      for i := 0 to totalLinks
        modifies blacklisted
        invariant forall k | 0 <= k < i ::
            blacklisted[k] == MarkAfter(counts, link, allowedJitterMs, delta, k, old(blacklisted[k]))
        invariant forall k | i <= k < totalLinks :: blacklisted[k] == old(blacklisted[k])
        invariant timers == Timers(counts, link, allowedJitterMs, delta, i)
      {
        var expected := Expected(received[link], link, i);
        if received[i] < expected {
          var timeout := allowedJitterMs - delta[i];
          if timeout <= 0 {
            OnBlock(i, expected);
          } else {
            timers := timers + [Timer(i, expected, timeout)];
          }
        }
      }
    }
  }

  /** The mark of a link after a packet on `link`: it rises to the expected count exactly when the link is
      behind, out of time, and the mark is lower. */
  function MarkAfter(received: seq<nat>, link: nat, jitter: int, delta: seq<nat>, i: nat, mark: nat): (m: nat)
    requires link < |received| == |delta| && i < |received|
    ensures m >= mark
    ensures m != mark <==> received[i] < Expected(received[link], link, i) && jitter <= delta[i] &&
                           mark < Expected(received[link], link, i)
    ensures m != mark ==> m == Expected(received[link], link, i)
  {
    var e := Expected(received[link], link, i);
    if received[i] < e && jitter <= delta[i] && mark < e then e else mark
  }

  /** The timers that a packet on `link` starts for the first `n` links. */
  function Timers(received: seq<nat>, link: nat, jitter: int, delta: seq<nat>, n: nat): seq<Timer>
    requires link < |received| == |delta| && n <= |received|
  {
    if n == 0 then []
    else
      var e := Expected(received[link], link, n - 1);
      Timers(received, link, jitter, delta, n - 1) +
      if received[n - 1] < e && jitter > delta[n - 1] then [Timer(n - 1, e, jitter - delta[n - 1])] else []
  }

  /** Exactly the links that are behind and still have time get one, with the count expected of them. */
  lemma {:induction false} TimersExact(received: seq<nat>, link: nat, jitter: int, delta: seq<nat>, n: nat, t: Timer)
    requires link < |received| == |delta| && n <= |received|
    ensures t in Timers(received, link, jitter, delta, n) <==>
              && t.link < n && received[t.link] < Expected(received[link], link, t.link)
              && t.missing == Expected(received[link], link, t.link)
              && t.delay == jitter - delta[t.link] > 0
  {
    if n > 0 {
      TimersExact(received, link, jitter, delta, n - 1, t);
    }
  }

  lemma NextMod(l: nat, total: nat)
    requires l < total
    ensures (l + 1) % total == NextOf(l, total)
  {
    Quotient(l + 1, total, if l + 1 == total then 1 else 0, NextOf(l, total));
  }

  /** Visits in `k` passes of at most `total + 1` visits each. */
  function VisitBound(k: nat, total: nat): nat {
    if k == 0 then 0 else VisitBound(k - 1, total) + total + 1
  }

  lemma {:induction false} VisitBoundProduct(k: nat, total: nat)
    ensures VisitBound(k, total) == k * (total + 1)
  {
    if k > 0 {
      VisitBoundProduct(k - 1, total);
      assert k * (total + 1) == (k - 1) * (total + 1) + (total + 1);
    }
  }

  /** A visit that sends after all. */
  lemma SentInstead(log: seq<Turn>, before: seq<Turn>, t: Turn, total: nat)
    requires total > 0 && Logged(log, total) && log == before + [t.(sent := false)] && t.sent
    ensures Logged(before + [t], total)
    ensures forall l :: Counter(before + [t], l) == if l == t.link then 0 else Counter(log, l)
  {
    assert log[..|before|] == before && LoggedAt(log, |before|, total);
    LoggedPrefix(log, |before|, total);
    LoggedMore(before, t, total);
  }
}
