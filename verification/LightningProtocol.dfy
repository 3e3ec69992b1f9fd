/** Sender, network and receiver of `lightning` together: what the receiver believes about the link
    of an id is what the sender did (src/algo_lightning.c:221-275 and 420-444). */
module LightningProtocol {
  import opened Basics
  import opened Timespecs
  import opened LightningMonitoring

  const UINT8_MAX: nat := 255

  /** The sender's part of the context: the ring of the last 64 links and the next id. */
  datatype Sender = Sender(prevLinks: seq<nat>, pktSentId: nat) {
    predicate Valid() {
      |prevLinks| == MAX_LINKS && pktSentId >= 1
    }
  }

  /** `algo_lightning_init`: the ring starts with no link, beyond `sentPastLinks` with link 0. */
  function InitialSender(sentPastLinks: nat): Sender
    requires sentPastLinks <= MAX_LINKS
  {
    Sender(seq(MAX_LINKS, i => if i < sentPastLinks then UINT8_MAX else 0), 1)
  }

  /** Ids are 64-bit and `id - (i + 1)` may wrap below zero; 64 divides 2^64, so the index is the
      Euclidean remainder. */
  function PrevIndex(id: int): (i: nat)
    ensures i < MAX_LINKS
  {
    id % MAX_LINKS
  }

  /** The links of the packets before `id`, latest first, as the sender reads them off its ring. */
  function PastLinks(s: Sender, sentPastLinks: nat): (l: seq<nat>)
    requires s.Valid()
    ensures |l| == sentPastLinks
  {
    seq(sentPastLinks, i => s.prevLinks[PrevIndex(s.pktSentId - (i + 1))])
  }

  /** `send_message` once a link is chosen and connected. */
  function Send(s: Sender, link: nat, stats: seq<int>, sentPastLinks: nat): (r: (Sender, Message))
    requires s.Valid()
    ensures r.0.Valid() && |r.1.links| == sentPastLinks
  {
    (Sender(s.prevLinks[PrevIndex(s.pktSentId) := link], s.pktSentId + 1),
     Message(s.pktSentId, PastLinks(s, sentPastLinks), stats))
  }

  class SendContext {
    const totalLinks: nat
    const sentPastLinks: nat
    const prevLinks: array<nat>
    var pktSentId: nat

    ghost predicate Valid()
      reads this
    {
      prevLinks.Length == MAX_LINKS && pktSentId >= 1
    }

    ghost function State(): Sender
      reads this, prevLinks
    {
      Sender(prevLinks[..], pktSentId)
    }

    constructor (totalLinks: nat, sentPastLinks: nat)
      requires sentPastLinks <= MAX_LINKS
      ensures Valid() && State() == InitialSender(sentPastLinks)
      ensures this.totalLinks == totalLinks && this.sentPastLinks == sentPastLinks
    {
      this.totalLinks, this.sentPastLinks := totalLinks, sentPastLinks;
      prevLinks := new nat[MAX_LINKS](i => if i < sentPastLinks then UINT8_MAX else 0);
      pktSentId := 1;
      new;
      assert prevLinks[..] == InitialSender(sentPastLinks).prevLinks;
    }

    /** `send_message`: without a link, or without a socket on it, the packet is dropped and takes no
        id. */
    method SendMessage(link: nat, connected: set<nat>, stats: seq<int>) returns (m: Option<Message>)
      requires Valid()
      modifies this`pktSentId, prevLinks
      ensures Valid() && (m == None <==> link >= totalLinks || link !in connected)
      ensures m == None ==> State() == old(State())
      ensures m.Some? ==> (State(), m.value) == Send(old(State()), link, stats, sentPastLinks)
      ensures m.Some? ==>
                && m.value.id == old(pktSentId) && m.value.stats == stats && |m.value.links| == sentPastLinks
                && prevLinks[old(pktSentId) % MAX_LINKS] == link && pktSentId == old(pktSentId) + 1
    {
      if link >= totalLinks || link !in connected {
        return None;
      }
      var links := [];
      for i := 0 to sentPastLinks
        invariant links == PastLinks(State(), i)
      {
        links := links + [prevLinks[PrevIndex(pktSentId - (i + 1))]];
      }
      m := Some(Message(pktSentId, links, stats));
      prevLinks[PrevIndex(pktSentId)] := link;
      pktSentId := pktSentId + 1;
    }
  }

  // ------------------------------------------------------------- the system

  /** A packet on its way or delivered, and the link that really carried it. */
  datatype Sent = Sent(link: nat, m: Message)

  /** `sent[i]` is the packet with id `i + 1`; packets stay there, so the network may delay, reorder,
      drop and even repeat them. */
  datatype System = System(sender: Sender, sent: seq<Sent>, receiver: Receiver)

  datatype Event = SendOn(link: nat, stats: seq<int>) | DropOn(link: nat) | Deliver(which: nat, now: Timespec)

  ghost predicate Valid(w: System, spl: nat) {
    && w.sender.Valid() && w.receiver.Valid()
    && forall i | 0 <= i < |w.sent| :: |w.sent[i].m.links| == spl
  }

  ghost function Step(w: System, e: Event, spl: nat): (r: System)
    requires Valid(w, spl)
    ensures Valid(r, spl)
  {
    match e
    case SendOn(link, stats) =>
      var (s, m) := Send(w.sender, link, stats, spl);
      w.(sender := s, sent := w.sent + [Sent(link, m)])
    case DropOn(_) => w
    case Deliver(which, now) =>
      if which < |w.sent| then
        w.(receiver := Receive(w.receiver, w.sent[which].m, w.sent[which].link, now, spl))
      else w
  }

  ghost function Run(events: seq<Event>, spl: nat): (w: System)
    requires spl <= MAX_LINKS
    ensures Valid(w, spl)
  {
    if events == [] then System(InitialSender(spl), [], Initial())
    else Step(Run(events[..|events| - 1], spl), events[|events| - 1], spl)
  }

  /** The link that carried `id`. */
  predicate Carried(w: System, id: nat, link: nat) {
    1 <= id <= |w.sent| && w.sent[id - 1].link == link
  }

  /** The sender's ring remembers the last 64 packets. */
  ghost predicate RingExact(s: Sender, sent: seq<Sent>)
    requires s.Valid()
  {
    && s.pktSentId == |sent| + 1
    && forall id: nat | 1 <= id <= |sent| && |sent| - MAX_LINKS < id :: s.prevLinks[PrevIndex(id)] == sent[id - 1].link
  }

  /** The list of links in a packet names the real ones for all ids that exist. */
  predicate ListExact(sent: seq<Sent>, i: nat)
    requires i < |sent|
  {
    && sent[i].m.id == i + 1
    && forall j | 0 <= j < |sent[i].m.links| && i - 1 - j >= 0 :: sent[i].m.links[j] == sent[i - 1 - j].link
  }

  ghost predicate EntriesExact(w: System)
    requires w.receiver.Valid()
  {
    forall s | 0 <= s < HISTORIC_SIZE ::
      var e := w.receiver.historic[s]; e.pktId != 0 ==> Carried(w, e.pktId, e.linkId)
  }

  /** The statistics the receiver keeps are those sent with the newest packet it knows. */
  ghost predicate StatsExact(w: System) {
    var h := w.receiver.pktRcvId;
    h <= |w.sent| && (h > 0 ==> w.receiver.remoteStats == w.sent[h - 1].m.stats)
  }

  ghost predicate Inv(w: System, spl: nat) {
    && Valid(w, spl) && RingExact(w.sender, w.sent)
    && (forall i | 0 <= i < |w.sent| :: ListExact(w.sent, i))
    && EntriesExact(w) && StatsExact(w)
  }

  lemma IndicesDiffer(a: int, b: int)
    requires a < b < a + MAX_LINKS
    ensures PrevIndex(a) != PrevIndex(b)
  {
    assert a == MAX_LINKS * (a / MAX_LINKS) + PrevIndex(a);
    assert b == MAX_LINKS * (b / MAX_LINKS) + PrevIndex(b);
  }

  lemma SendKeeps(w: System, spl: nat, link: nat, stats: seq<int>)
    requires Inv(w, spl) && spl <= MAX_LINKS
    ensures Inv(Step(w, SendOn(link, stats), spl), spl)
  {
    var v := Step(w, SendOn(link, stats), spl);
    var n := |w.sent| + 1;
    forall id: nat | 1 <= id < n && n - MAX_LINKS < id
      ensures v.sender.prevLinks[PrevIndex(id)] == v.sent[id - 1].link
    {
      IndicesDiffer(id, n);
    }
    forall i | 0 <= i < n ensures ListExact(v.sent, i) {
      if i < n - 1 {
        assert ListExact(w.sent, i);
      }
    }
  }

  /** Whatever packet is named missing, it exists and its link is the one it was sent on. */
  lemma {:induction false} AnnouncedExact(w: System, spl: nat, i: nat, n: nat, now: Timespec)
    requires Inv(w, spl) && spl <= MAX_LINKS && i < |w.sent|
    requires n <= Announced(w.receiver.pktRcvId, w.sent[i].m.id, spl)
    ensures EntriesExact(w.(receiver := w.receiver.(historic := Announce(w.receiver.historic, w.sent[i].m, n, now))))
  {
    assert ListExact(w.sent, i);
    if n > 0 {
      AnnouncedExact(w, spl, i, n - 1, now);
      var missId := w.sent[i].m.id - n;
      assert missId >= 1 && w.sent[i].m.links[n - 1] == w.sent[missId - 1].link;
    }
  }

  lemma DeliverKeeps(w: System, spl: nat, which: nat, now: Timespec)
    requires Inv(w, spl) && spl <= MAX_LINKS
    ensures Inv(Step(w, Deliver(which, now), spl), spl)
  {
    if which < |w.sent| {
      AnnouncedExact(w, spl, which, Announced(w.receiver.pktRcvId, w.sent[which].m.id, spl), now);
      assert ListExact(w.sent, which);
    }
  }

  /** End-to-end attribution: after any run, every entry of the receiver's ring that speaks about a
      packet names the link that carried it, every list of links on the way is right about all
      packets that exist, and the remote statistics are the newest ones. */
  lemma {:induction false} Attribution(events: seq<Event>, spl: nat)
    requires spl <= MAX_LINKS
    ensures Inv(Run(events, spl), spl)
  {
    if events != [] {
      var w := Run(events[..|events| - 1], spl);
      Attribution(events[..|events| - 1], spl);
      match events[|events| - 1]
      case SendOn(link, stats) => SendKeeps(w, spl, link, stats);
      case DropOn(_) =>
      case Deliver(which, now) => DeliverKeeps(w, spl, which, now);
    }
  }

  // ------------------------------------------- told from the events alone

  /** The packets that were sent, in their order: on which link, and with which statistics. */
  function Given(events: seq<Event>): seq<(nat, seq<int>)> {
    if events == [] then []
    else
      match events[|events| - 1]
      case SendOn(link, stats) => Given(events[..|events| - 1]) + [(link, stats)]
      case _ => Given(events[..|events| - 1])
  }

  /** The greatest id that was delivered. */
  function Newest(events: seq<Event>): nat {
    if events == [] then 0
    else
      var r := events[..|events| - 1];
      match events[|events| - 1]
      case Deliver(which, _) => if which < |Given(r)| && which + 1 > Newest(r) then which + 1 else Newest(r)
      case _ => Newest(r)
  }

  lemma {:induction false} RunGiven(events: seq<Event>, spl: nat)
    requires spl <= MAX_LINKS
    ensures var w, g := Run(events, spl), Given(events);
      && |w.sent| == |g| && w.receiver.pktRcvId == Newest(events) <= |g|
      && forall i | 0 <= i < |g| :: w.sent[i].link == g[i].0 && w.sent[i].m.stats == g[i].1
  {
    if events != [] {
      var r := events[..|events| - 1];
      RunGiven(r, spl);
      Attribution(r, spl);
      if events[|events| - 1].Deliver? && events[|events| - 1].which < |Given(r)| {
        assert ListExact(Run(r, spl).sent, events[|events| - 1].which);
      }
    }
  }

  /** End to end: every entry of the ring names the link on which its packet was sent, every list of links
      on the way names the links on which the packets before it were sent, and the remote statistics are
      those given to the sender with the newest packet that arrived. */
  lemma EndToEnd(events: seq<Event>, spl: nat)
    requires spl <= MAX_LINKS
    ensures var w, g, n := Run(events, spl), Given(events), Newest(events);
      && |w.sent| == |g| && w.receiver.pktRcvId == n <= |g|
      && (n > 0 ==> w.receiver.remoteStats == g[n - 1].1)
      && (forall s | 0 <= s < HISTORIC_SIZE ::
            var e := w.receiver.historic[s]; e.pktId != 0 ==> e.pktId <= |g| && e.linkId == g[e.pktId - 1].0)
      && (forall i, j | 0 <= i < |g| && 0 <= j < i && j < spl :: w.sent[i].m.links[j] == g[i - 1 - j].0)
  {
    Attribution(events, spl);
    RunGiven(events, spl);
    var w, g := Run(events, spl), Given(events);
    forall i, j | 0 <= i < |g| && 0 <= j < i && j < spl ensures w.sent[i].m.links[j] == g[i - 1 - j].0 {
      assert ListExact(w.sent, i);
    }
  }

  /** What the ring says of the ids from 0 down, which no packet has: no link, or link 0, since only as much of
      the ring is initialised as is sent at a time. */
  function Never(id: int, spl: nat): nat
    requires 0 - MAX_LINKS < id <= 0
  {
    if (if id == 0 then 0 else MAX_LINKS + id) < spl then 255 else 0
  }

  ghost predicate RingBefore(w: System, spl: nat)
    requires w.sender.Valid()
  {
    forall id: int | |w.sent| - MAX_LINKS < id <= 0 :: w.sender.prevLinks[PrevIndex(id)] == Never(id, spl)
  }

  ghost predicate ListsBefore(w: System, spl: nat)
    requires spl <= MAX_LINKS && Valid(w, spl)
  {
    forall i, j | 0 <= i < |w.sent| && i <= j < spl :: w.sent[i].m.links[j] == Never(i - j, spl)
  }

  lemma SendBefore(w: System, spl: nat, link: nat, stats: seq<int>)
    requires spl <= MAX_LINKS && Inv(w, spl) && RingBefore(w, spl) && ListsBefore(w, spl)
    ensures RingBefore(Step(w, SendOn(link, stats), spl), spl)
    ensures ListsBefore(Step(w, SendOn(link, stats), spl), spl)
  {
    var v, n := Step(w, SendOn(link, stats), spl), |w.sent| + 1;
    forall id: int | n - MAX_LINKS < id <= 0 ensures v.sender.prevLinks[PrevIndex(id)] == Never(id, spl) {
      IndicesDiffer(id, n);
    }
    var last := n - 1;
    forall j | last <= j < spl ensures v.sent[last].m.links[j] == Never(last - j, spl) {
      assert v.sent[last].m.links[j] == w.sender.prevLinks[PrevIndex(n - (j + 1))];
    }
  }

  /** The first packets say this of all the ids that do not exist; AnnouncedExact says that it does no harm. */
  lemma {:induction false} BeforeFirst(events: seq<Event>, spl: nat)
    requires spl <= MAX_LINKS
    ensures RingBefore(Run(events, spl), spl) && ListsBefore(Run(events, spl), spl)
  {
    if events != [] {
      var r := events[..|events| - 1];
      BeforeFirst(r, spl);
      Attribution(r, spl);
      if events[|events| - 1].SendOn? {
        SendBefore(Run(r, spl), spl, events[|events| - 1].link, events[|events| - 1].stats);
      }
    }
  }
}
