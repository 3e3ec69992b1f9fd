/** What a run of visits of thunder's scheduler put on the links (src/algo_thunder.c:103-166), and that
    it is what the round-robin system puts there. */
module ThunderTraces {
  import opened Basics
  import opened ThunderCounting

  const PROBE_EVERY: nat := 2

  /** How a datagram left the scheduler. */
  datatype Outcome = NoSockets | NoLink | Delivered(link: nat) | AllBlacklisted

  /** One visit: the link, its counter then, and whether a copy was put on the link. */
  datatype Turn = Turn(link: nat, inc: nat, sent: bool)

  /** A copy put on a link's queue, with the count it carries. */
  datatype Copy = Copy(link: nat, inc: nat)

  /** The counter of link `l` after these visits: the visits since its last copy, modulo 256. */
  function Counter(log: seq<Turn>, l: nat): nat {
    if log == [] then 0
    else
      var t := log[|log| - 1];
      if t.link != l then Counter(log[..|log| - 1], l)
      else if t.sent then 0
      else t.inc
  }

  /** The visits went round, and counted. */
  predicate Logged(log: seq<Turn>, total: nat)
    requires total > 0
  {
    forall i | 0 <= i < |log| :: LoggedAt(log, i, total)
  }

  predicate LoggedAt(log: seq<Turn>, i: nat, total: nat)
    requires total > 0 && i < |log|
  {
    log[i].link == LinkAt(i, total) && log[i].inc == (Counter(log[..i], log[i].link) + 1) % 256
  }

  lemma LoggedMore(log: seq<Turn>, t: Turn, total: nat)
    requires total > 0 && Logged(log, total)
    requires t.link == LinkAt(|log|, total) && t.inc == (Counter(log, t.link) + 1) % 256
    ensures Logged(log + [t], total)
    ensures forall l :: Counter(log + [t], l) == if l != t.link then Counter(log, l) else if t.sent then 0 else t.inc
  {
    var u := log + [t];
    assert u[..|log|] == log;
    forall i | 0 <= i < |u| ensures LoggedAt(u, i, total) {
      if i < |log| {
        assert LoggedAt(log, i, total) && u[..i] == log[..i];
      }
    }
  }

  lemma LoggedPrefix(log: seq<Turn>, n: nat, total: nat)
    requires total > 0 && n <= |log| && Logged(log, total)
    ensures Logged(log[..n], total)
  {
    var r := log[..n];
    forall i | 0 <= i < n ensures LoggedAt(r, i, total) {
      assert LoggedAt(log, i, total) && r[..i] == log[..i];
    }
  }

  // ------------------------------------------------------- what has to be sent

  /** Whether the program sends on a visit: the link is connected, and if it is avoided, a probe is due. */
  predicate Sends(link: nat, inc: nat, connected: set<nat>, avoided: set<nat>) {
    link in connected && (link in avoided ==> inc >= PROBE_EVERY)
  }

  /** The visits from `n` on sent exactly when the program does. */
  predicate Regular(log: seq<Turn>, n: nat, connected: set<nat>, avoided: set<nat>) {
    forall i | n <= i < |log| :: log[i].sent <==> Sends(log[i].link, log[i].inc, connected, avoided)
  }

  /** Those that went to connected links went to avoided ones. */
  predicate Quiet(log: seq<Turn>, n: nat, connected: set<nat>, avoided: set<nat>) {
    forall i | n <= i < |log| :: log[i].link in connected ==> log[i].link in avoided
  }

  /** None went to a connected link. */
  predicate Idle(log: seq<Turn>, n: nat, connected: set<nat>) {
    forall i | n <= i < |log| :: log[i].link !in connected && !log[i].sent
  }

  /** The copies sent from visit `n` on. */
  function Copies(log: seq<Turn>, n: nat): seq<Copy>
    requires n <= |log|
    decreases |log|
  {
    if n == |log| then []
    else
      var t := log[|log| - 1];
      Copies(log[..|log| - 1], n) + if t.sent then [Copy(t.link, t.inc)] else []
  }

  /** How many visits from `n` on went to connected links. */
  function Hits(log: seq<Turn>, n: nat, connected: set<nat>): nat
    requires n <= |log|
    decreases |log|
  {
    if n == |log| then 0
    else Hits(log[..|log| - 1], n, connected) + if log[|log| - 1].link in connected then 1 else 0
  }

  lemma {:induction false} IdleSendsNothing(log: seq<Turn>, n: nat, connected: set<nat>)
    requires n <= |log| && Idle(log, n, connected)
    ensures Copies(log, n) == [] && Hits(log, n, connected) == 0
    decreases |log|
  {
    if n < |log| {
      IdleSendsNothing(log[..|log| - 1], n, connected);
    }
  }

  lemma {:induction false} CopiesTwice(t: seq<Turn>, u: seq<Turn>, n: nat, connected: set<nat>)
    requires n <= |t| && t <= u
    ensures Copies(u, n) == Copies(t, n) + Copies(u, |t|)
    ensures Hits(u, n, connected) == Hits(t, n, connected) + Hits(u, |t|, connected)
    decreases |u|
  {
    if |t| == |u| {
      assert t == u;
    } else {
      CopiesTwice(t, u[..|u| - 1], n, connected);
    }
  }

  /** Copies sent by the rule go to connected links; those to avoided links are probes. */
  lemma {:induction false} CopiesByRule(log: seq<Turn>, n: nat, connected: set<nat>, avoided: set<nat>)
    requires n <= |log| && Regular(log, n, connected, avoided)
    ensures forall c | c in Copies(log, n) :: Sends(c.link, c.inc, connected, avoided)
    ensures Quiet(log, n, connected, avoided) ==> forall c | c in Copies(log, n) :: c.link in avoided
    ensures |Copies(log, n)| <= Hits(log, n, connected) <= |log| - n
    decreases |log|
  {
    if n < |log| {
      CopiesByRule(log[..|log| - 1], n, connected, avoided);
    }
  }

  /** Of two visits in a row to a connected link that is avoided, never both send; and if the first does not,
      the second does exactly if the first was the only visit since the last copy. */
  lemma ProbesAlternate(log: seq<Turn>, total: nat, connected: set<nat>, avoided: set<nat>, i: nat, j: nat)
    requires total > 0 && Logged(log, total) && Regular(log, i, connected, avoided) && i < j < |log|
    requires log[j].link == log[i].link && (forall k | i < k < j :: log[k].link != log[i].link)
    requires log[i].link in connected && log[i].link in avoided
    ensures log[i].sent ==> !log[j].sent
    ensures !log[i].sent ==> (log[j].sent <==> log[i].inc == 1)
  {
    var l := log[i].link;
    CounterKept(log, l, i + 1, j);
    assert log[..i + 1][..i] == log[..i];
    assert LoggedAt(log, i, total) && LoggedAt(log, j, total);
  }

  /** Visits to other links leave a counter alone. */
  lemma {:induction false} CounterKept(log: seq<Turn>, l: nat, i: nat, j: nat)
    requires i <= j <= |log| && forall k | i <= k < j :: log[k].link != l
    ensures Counter(log[..j], l) == Counter(log[..i], l)
    decreases j - i
  {
    if i < j {
      CounterKept(log, l, i, j - 1);
      assert log[..j][..j - 1] == log[..j - 1];
    }
  }

  // ------------------------------------------------------------- searches

  /** The visits from `n` on sent exactly what they had to, which is `copies`; `hits` of them went to
      connected links. */
  predicate Scheduled(log: seq<Turn>, n: nat, connected: set<nat>, avoided: set<nat>, copies: seq<Copy>, hits: nat) {
    && n <= |log| && Regular(log, n, connected, avoided)
    && copies == Copies(log, n) && hits == Hits(log, n, connected)
  }

  /** Copies on avoided links that were visited often enough. */
  predicate Probes(copies: seq<Copy>, connected: set<nat>, avoided: set<nat>) {
    forall c | c in copies :: Sends(c.link, c.inc, connected, avoided) && c.link in avoided
  }

  /** The last copy went to a link that is not avoided, and only probes before it. */
  predicate Reached(link: nat, copies: seq<Copy>, connected: set<nat>, avoided: set<nat>) {
    && link in connected && link !in avoided
    && copies != [] && copies[|copies| - 1].link == link
    && Probes(copies[..|copies| - 1], connected, avoided)
  }

  predicate AnyConnected(total: nat, connected: set<nat>) {
    exists l: nat :: l < total && l in connected
  }

  /** So far all connected links visited are avoided. */
  predicate Searching(log: seq<Turn>, n: nat, total: nat, connected: set<nat>, avoided: set<nat>,
                      copies: seq<Copy>, hits: nat) {
    && Scheduled(log, n, connected, avoided, copies, hits) && Quiet(log, n, connected, avoided)
    && (if hits > 0 then AnyConnected(total, connected) else |log| == n)
  }

  /** How a search ends: after a whole round without a connected link; with a copy on a link that is not
      avoided; or after so many passes that all connected links are known to be avoided. */
  predicate Ends(outcome: Outcome, log: seq<Turn>, n: nat, total: nat, connected: set<nat>, avoided: set<nat>,
                 copies: seq<Copy>, hits: nat) {
    && Scheduled(log, n, connected, avoided, copies, hits) && hits <= total + 1
    && match outcome
       case NoSockets => false
       case NoLink => copies == [] && |log| == n + total + 1 && !AnyConnected(total, connected)
       case Delivered(l) => l < total && Reached(l, copies, connected, avoided)
       case AllBlacklisted =>
         && hits == total + 1 && Probes(copies, connected, avoided) && AnyConnected(total, connected)
         && forall l: nat | l < total && l in connected :: l in avoided
  }

  /** So the outcome is decided by the links alone. */
  lemma EndsDecided(outcome: Outcome, log: seq<Turn>, n: nat, total: nat, connected: set<nat>, avoided: set<nat>,
                    copies: seq<Copy>, hits: nat)
    requires Ends(outcome, log, n, total, connected, avoided, copies, hits)
    ensures outcome == NoLink <==> forall l: nat | l < total :: l !in connected
    ensures outcome.Delivered? <==> exists l: nat :: l < total && l in connected && l !in avoided
  {
  }

  /** A pass: idle visits after visit `n`, and one more that sends exactly if it has to. */
  lemma PassScheduled(n: nat, idle: seq<Turn>, t: Turn, connected: set<nat>, avoided: set<nat>)
    requires n <= |idle| && Idle(idle, n, connected)
    requires t.sent <==> Sends(t.link, t.inc, connected, avoided)
    ensures Scheduled(idle + [t], n, connected, avoided, if t.sent then [Copy(t.link, t.inc)] else [],
                      if t.link in connected then 1 else 0)
    ensures (t.link in connected ==> t.link in avoided) ==> Quiet(idle + [t], n, connected, avoided)
  {
    assert (idle + [t])[..|idle|] == idle;
    IdleSendsNothing(idle, n, connected);
  }

  /** Two stretches of a search, one after the other. */
  lemma ScheduledTwice(t: seq<Turn>, u: seq<Turn>, n: nat, connected: set<nat>, avoided: set<nat>,
                       copies: seq<Copy>, hits: nat, sent: seq<Copy>, more: nat)
    requires t <= u && Scheduled(t, n, connected, avoided, copies, hits)
    requires Scheduled(u, |t|, connected, avoided, sent, more)
    ensures Scheduled(u, n, connected, avoided, copies + sent, hits + more)
    ensures Quiet(t, n, connected, avoided) && Quiet(u, |t|, connected, avoided) ==> Quiet(u, n, connected, avoided)
  {
    CopiesTwice(t, u, n, connected);
    assert forall i | n <= i < |t| :: t[i] == u[i];
  }

  lemma NothingFound(before: seq<Turn>, log: seq<Turn>, n: nat, total: nat, connected: set<nat>, avoided: set<nat>,
                     copies: seq<Copy>, hits: nat, more: seq<Copy>)
    requires Searching(before, n, total, connected, avoided, copies, hits)
    requires Scheduled(log, n, connected, avoided, more, hits)
    requires |log| == |before| + total + 1 && !AnyConnected(total, connected)
    ensures Ends(NoLink, log, n, total, connected, avoided, more, hits)
  {
    CopiesByRule(log, n, connected, avoided);
  }

  /** The search reaches a link that is not avoided. */
  lemma LinkFound(before: seq<Turn>, log: seq<Turn>, n: nat, total: nat, connected: set<nat>, avoided: set<nat>,
                  copies: seq<Copy>, hits: nat, c: Copy)
    requires Searching(before, n, total, connected, avoided, copies, hits) && hits <= total
    requires Scheduled(log, n, connected, avoided, copies + [c], hits + 1)
    requires c.link < total && c.link in connected && c.link !in avoided
    ensures Ends(Delivered(c.link), log, n, total, connected, avoided, copies + [c], hits + 1)
  {
    CopiesByRule(before, n, connected, avoided);
    assert (copies + [c])[..|copies|] == copies;
  }

  lemma Reaches(v: nat, total: nat, l: nat) returns (k: nat)
    requires l < total
    ensures k < total && LinkAt(v + k, total) == l
  {
    var q, from := v / total, v % total;
    assert v == q * total + from;
    if l >= from {
      k := l - from;
      Quotient(v + k, total, q, l);
    } else {
      k := l + total - from;
      assert (q + 1) * total == q * total + total;
      Quotient(v + k, total, q + 1, l);
    }
    LinkAtMod(v + k, total);
  }

  /** Every link comes up within `total` visits. */
  lemma Covers(log: seq<Turn>, n: nat, total: nat, l: nat) returns (i: nat)
    requires l < total && n + total <= |log| && Logged(log, total)
    ensures n <= i < n + total && log[i].link == l
  {
    var k := Reaches(n, total, l);
    i := n + k;
    assert LoggedAt(log, i, total);
  }

  /** After a whole round of idle visits, no link is connected. */
  lemma NoneConnected(log: seq<Turn>, n: nat, total: nat, connected: set<nat>)
    requires total > 0 && n + total <= |log| && Logged(log, total) && Idle(log, n, connected)
    ensures !AnyConnected(total, connected)
  {
    forall l: nat | l < total ensures l !in connected {
      var i := Covers(log, n, total, l);
    }
  }

  /** After a whole round, all connected links are known to be avoided. */
  lemma Exhausted(log: seq<Turn>, n: nat, total: nat, connected: set<nat>, avoided: set<nat>,
                  copies: seq<Copy>, hits: nat)
    requires total > 0 && Logged(log, total)
    requires Searching(log, n, total, connected, avoided, copies, hits) && hits == total + 1
    ensures Ends(AllBlacklisted, log, n, total, connected, avoided, copies, hits)
  {
    CopiesByRule(log, n, connected, avoided);
    forall l: nat | l < total && l in connected ensures l in avoided {
      var i := Covers(log, n, total, l);
    }
  }

  // ------------------------------------------------- the round-robin system

  function Events(log: seq<Turn>): (e: seq<Event>)
    ensures |e| == |log|
  {
    seq(|log|, i requires 0 <= i < |log| => Visit(log[i].sent))
  }

  /** The system run on these visits: its counters are those of the log. */
  lemma {:induction false} LogIsRun(log: seq<Turn>, total: nat)
    requires total > 0 && Logged(log, total)
    ensures Run(Events(log), total).visits == |log|
    ensures forall l | 0 <= l < total :: Run(Events(log), total).toIncrement[l] == Counter(log, l)
  {
    if log != [] {
      var n := |log| - 1;
      LoggedPrefix(log, n, total);
      LogIsRun(log[..n], total);
      assert Events(log)[..n] == Events(log[..n]);
      assert LoggedAt(log, n, total);
    }
  }

  function Incs(s: seq<Packet>): (r: seq<nat>)
    ensures |r| == |s|
  {
    if s == [] then [] else Incs(s[..|s| - 1]) + [s[|s| - 1].inc]
  }

  lemma IncsMore(s: seq<Packet>, p: Packet)
    ensures Incs(s + [p]) == Incs(s) + [p.inc]
  {
    assert (s + [p])[..|s|] == s;
  }

  /** The counts of the copies for one link, in order. */
  function OnLink(copies: seq<Copy>, l: nat): seq<nat> {
    if copies == [] then []
    else
      var c := copies[|copies| - 1];
      OnLink(copies[..|copies| - 1], l) + if c.link == l then [c.inc] else []
  }

  lemma OnLinkMore(copies: seq<Copy>, c: Copy, l: nat)
    ensures OnLink(copies + [c], l) == OnLink(copies, l) + if c.link == l then [c.inc] else []
  {
    assert (copies + [c])[..|copies|] == copies;
  }

  /** What one visit sends on link `l`. */
  function SentOn(t: Turn, l: nat): seq<nat> {
    if t.sent && t.link == l then [t.inc] else []
  }

  lemma CopiesNext(log: seq<Turn>, n: nat, l: nat)
    requires n < |log|
    ensures OnLink(Copies(log, n), l) == OnLink(Copies(log[..|log| - 1], n), l) + SentOn(log[|log| - 1], l)
  {
    var before, t := Copies(log[..|log| - 1], n), log[|log| - 1];
    if t.sent {
      OnLinkMore(before, Copy(t.link, t.inc), l);
    } else {
      assert before + [] == before;
    }
  }

  lemma StepSends(w: System, t: Turn, total: nat, l: nat)
    requires Shape(w, total) && l < total
    requires t.link == LinkAt(w.visits, total) && t.inc == (w.toIncrement[t.link] + 1) % 256
    ensures Incs(Step(w, Visit(t.sent), total).sent[l]) == Incs(w.sent[l]) + SentOn(t, l)
  {
    if t.sent && t.link == l {
      IncsMore(w.sent[l], Packet(t.inc, w.visits + 1));
    } else {
      assert Incs(w.sent[l]) + [] == Incs(w.sent[l]);
    }
  }

  lemma TurnSends(log: seq<Turn>, total: nat, l: nat)
    requires l < total && log != [] && Logged(log, total)
    ensures var n := |log| - 1;
      Incs(Run(Events(log), total).sent[l]) == Incs(Run(Events(log[..n]), total).sent[l]) + SentOn(log[n], l)
  {
    var n := |log| - 1;
    RunLast(log, total);
    StepSends(Run(Events(log[..n]), total), log[n], total, l);
  }

  /** The last visit as a step of the system. */
  lemma RunLast(log: seq<Turn>, total: nat)
    requires total > 0 && log != [] && Logged(log, total)
    ensures var n := |log| - 1;
      var w := Run(Events(log[..n]), total);
      && Run(Events(log), total) == Step(w, Visit(log[n].sent), total)
      && LinkAt(w.visits, total) == log[n].link && (w.toIncrement[log[n].link] + 1) % 256 == log[n].inc
  {
    var n := |log| - 1;
    LoggedPrefix(log, n, total);
    LogIsRun(log[..n], total);
    assert Events(log)[..n] == Events(log[..n]);
    assert LoggedAt(log, n, total);
  }

  /** The copies sent from visit `n` on are exactly the packets that these visits put on the links of the
      round-robin system, with their counts and in their order. */
  lemma {:induction false} CopiesAreSent(log: seq<Turn>, n: nat, total: nat, l: nat)
    requires l < total && n <= |log| && Logged(log, total)
    ensures Incs(Run(Events(log), total).sent[l]) ==
            Incs(Run(Events(log[..n]), total).sent[l]) + OnLink(Copies(log, n), l)
    decreases |log|
  {
    if n == |log| {
      assert log[..n] == log;
    } else {
      var r := log[..|log| - 1];
      LoggedPrefix(log, |log| - 1, total);
      CopiesAreSent(r, n, total, l);
      assert r[..n] == log[..n];
      TurnSends(log, total, l);
      CopiesNext(log, n, l);
      Assoc(Incs(Run(Events(log[..n]), total).sent[l]), OnLink(Copies(r, n), l), SentOn(log[|log| - 1], l));
    }
  }
}
