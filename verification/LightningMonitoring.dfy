/** What the receiving side of `lightning` learns from the ids and link lists that packets carry
    (src/algo_lightning.c:221-275), as a function of its state and as the program's loop. */
module LightningMonitoring {
  import opened Basics
  import opened Timespecs

  const HISTORIC_SIZE: nat := 2048

  datatype OooState = InOrder | OooOngoing | OooDone

  datatype Entry = Entry(state: OooState, detectedAt: Timespec, finishedAt: Timespec, linkId: nat, pktId: nat)

  const BLANK := Entry(InOrder, ZERO, ZERO, 0, 0)

  /** The monitoring packet: its id, the links of the packets sent before it, latest first, and the
      sender's own link statistics. */
  datatype Message = Message(id: nat, links: seq<nat>, stats: seq<int>)

  datatype Receiver = Receiver(historic: seq<Entry>, pktRcvId: nat, remoteStats: seq<int>) {
    predicate Valid() {
      |historic| == HISTORIC_SIZE
    }
  }

  function Initial(): Receiver {
    Receiver(seq(HISTORIC_SIZE, _ => BLANK), 0, [])
  }

  /** Where an id lives in the ring. */
  function Slot(id: int): (s: nat)
    ensures s < HISTORIC_SIZE
  {
    id % HISTORIC_SIZE
  }

  /** How many ids before `id` are announced missing: the gap above the highest id so far, cut at
      the number of links the packet names. */
  function Announced(pktRcvId: nat, id: nat, sentPastLinks: nat): (n: nat)
    ensures n <= sentPastLinks
    ensures n > 0 ==> pktRcvId + n < id
  {
    if id <= pktRcvId + 1 then 0 else Min(id - pktRcvId - 1, sentPastLinks)
  }

  /** The ring after the first `n` iterations of the detection loop. */
  function Announce(h: seq<Entry>, m: Message, n: nat, now: Timespec): (r: seq<Entry>)
    requires |h| == HISTORIC_SIZE && n <= |m.links| && n <= m.id
    ensures |r| == HISTORIC_SIZE
  {
    if n == 0 then h
    else
      var g := Announce(h, m, n - 1, now);
      var missId := m.id - n;
      var te := g[Slot(missId)];
      if te.pktId >= missId then g
      else g[Slot(missId) := Entry(OooOngoing, now, te.finishedAt, m.links[n - 1], missId)]
  }

  /** The entry of the packet itself. */
  function Arrive(h: seq<Entry>, id: nat, link: nat, now: Timespec): (r: seq<Entry>)
    requires |h| == HISTORIC_SIZE
    ensures |r| == HISTORIC_SIZE
  {
    var te := h[Slot(id)];
    h[Slot(id) := Entry(if te.pktId == id then OooDone else InOrder, te.detectedAt, now, link, id)]
  }

  /** One received packet, on link `link` at time `now`. */
  function Receive(r: Receiver, m: Message, link: nat, now: Timespec, sentPastLinks: nat): (s: Receiver)
    requires r.Valid() && sentPastLinks <= |m.links|
    ensures s.Valid()
  {
    var n := Announced(r.pktRcvId, m.id, sentPastLinks);
    var h := Arrive(Announce(r.historic, m, n, now), m.id, link, now);
    if m.id > r.pktRcvId then Receiver(h, m.id, m.stats) else r.(historic := h)
  }

  /** The context as the program keeps it, and `monitoring`. */
  class Monitor {
    const sentPastLinks: nat
    const historic: array<Entry>
    var pktRcvId: nat
    var remoteStats: seq<int>

    ghost predicate Valid()
      reads this
    {
      historic.Length == HISTORIC_SIZE
    }

    ghost function State(): Receiver
      reads this, historic
    {
      Receiver(historic[..], pktRcvId, remoteStats)
    }

    constructor (sentPastLinks: nat)
      ensures Valid() && State() == Initial() && this.sentPastLinks == sentPastLinks
    {
      this.sentPastLinks := sentPastLinks;
      historic := new Entry[HISTORIC_SIZE](_ => BLANK);
      pktRcvId, remoteStats := 0, [];
      new;
      assert historic[..] == Initial().historic;
    }

    method Monitoring(m: Message, link: nat, now: Timespec)
      requires Valid() && sentPastLinks <= |m.links|
      modifies this, historic
      ensures Valid() && State() == Receive(old(State()), m, link, now, sentPastLinks)
    {
      var missing := m.id - (pktRcvId + 1);
      if m.id > pktRcvId {
        pktRcvId := m.id;
        remoteStats := m.stats;
      }
      ghost var n := Announced(old(pktRcvId), m.id, sentPastLinks);
      var i := 0;
      while i < missing && i < sentPastLinks
        modifies historic
        invariant i <= n && historic[..] == Announce(old(historic[..]), m, i, now)
      {
        var missId := m.id - (i + 1);
        var te := historic[Slot(missId)];
        if te.pktId < missId {
          historic[Slot(missId)] := Entry(OooOngoing, now, te.finishedAt, m.links[i], missId);
        }
        i := i + 1;
      }
      var te2 := historic[Slot(m.id)];
      historic[Slot(m.id)] :=
        Entry(if te2.pktId == m.id then OooDone else InOrder, te2.detectedAt, now, link, m.id);
      assert historic[..] == Arrive(Announce(old(historic[..]), m, n, now), m.id, link, now);
    }
  }

  // ----------------------------------------------------- facts about one packet

  lemma SlotsDiffer(a: int, b: int)
    requires a < b < a + HISTORIC_SIZE
    ensures Slot(a) != Slot(b)
  {
    assert a == HISTORIC_SIZE * (a / HISTORIC_SIZE) + Slot(a);
    assert b == HISTORIC_SIZE * (b / HISTORIC_SIZE) + Slot(b);
  }

  /** Every entry sits in the slot of its id and none is newer than the highest id. */
  predicate Placed(h: seq<Entry>, highest: nat)
    requires |h| == HISTORIC_SIZE
  {
    forall s | 0 <= s < HISTORIC_SIZE :: h[s].pktId <= highest && (h[s].pktId > 0 ==> Slot(h[s].pktId) == s)
  }

  function Missing(h: seq<Entry>, m: Message, k: nat, now: Timespec): Entry
    requires |h| == HISTORIC_SIZE && m.id - |m.links| <= k < m.id
  {
    Entry(OooOngoing, now, h[Slot(k)].finishedAt, m.links[m.id - k - 1], k)
  }

  /** The detection loop id by id: the guard never fires, each missing id gets its entry, and no
      other slot changes.  (The slots are those of any 2048 successive ids.) */
  lemma {:induction false} AnnounceExact(h: seq<Entry>, m: Message, n: nat, now: Timespec, highest: nat)
    requires |h| == HISTORIC_SIZE && n <= |m.links| && n <= MAX_LINKS && highest + n < m.id
    requires Placed(h, highest)
    ensures forall k: nat | m.id - n <= k < m.id ::
              h[Slot(k)].pktId < k && Announce(h, m, n, now)[Slot(k)] == Missing(h, m, k, now)
    ensures forall k: int | m.id - HISTORIC_SIZE < k < m.id - n || k == m.id ::
              Announce(h, m, n, now)[Slot(k)] == h[Slot(k)]
  {
    if n > 0 {
      AnnounceExact(h, m, n - 1, now, highest);
      forall k | m.id - HISTORIC_SIZE < k <= m.id && k != m.id - n ensures Slot(m.id - n) != Slot(k) {
        SlotsDiffer(Min(m.id - n, k), if k < m.id - n then m.id - n else k);
      }
      assert h[Slot(m.id - n)].pktId <= highest;
    }
  }
}
