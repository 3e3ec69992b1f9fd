/** How `thunder` takes frames apart and delivers each datagram once, in order
    (src/algo_thunder.c:43-56 and 280-340). */
module ThunderDelivery {
  import opened Basics
  import opened PacketChain
  import opened Padding

  /** `unpad_info` */
  datatype Unpacked = Unpacked(payloads: seq<Packet>, metas: seq<Packet>)

  /** A datagram and its metadata, as `prepare` makes them. */
  predicate Tagged(g: Chain, id: uint16) {
    && |g| == 2 && ValidGroup(g) && g[0].cmd == CMD_UDP_ENCAPSULATED
    && g[1].cmd == CMD_UDP_METADATA_THUNDER && |g[1].body| >= 2 && FirstField(g[1]) == id
  }

  /** Every encapsulated packet of `c` is followed by another packet. */
  predicate Paired(c: Chain) {
    forall i | 0 <= i < |c| && c[i].cmd == CMD_UDP_ENCAPSULATED :: i + 1 < |c|
  }

  /** What `unpad` collects from packet `i` on. */
  function UnpadFrom(c: Chain, i: nat): (u: Unpacked)
    requires Paired(c) && i <= |c|
    ensures |u.payloads| == |u.metas| <= |c| - i
    decreases |c| - i
  {
    if i == |c| then Unpacked([], [])
    else
      var u := UnpadFrom(c, i + 1);
      if c[i].cmd == CMD_UDP_ENCAPSULATED then Unpacked([c[i]] + u.payloads, [c[i + 1]] + u.metas) else u
  }

  method Unpad(c: Chain) returns (u: Unpacked)
    requires Paired(c)
    ensures u == UnpadFrom(c, 0)
  {
    u := Unpacked([], []);
    for i := 0 to |c|
      invariant UnpadFrom(c, 0) ==
          Unpacked(u.payloads + UnpadFrom(c, i).payloads, u.metas + UnpadFrom(c, i).metas)
    {
      if c[i].cmd == CMD_UDP_ENCAPSULATED {
        u := Unpacked(u.payloads + [c[i]], u.metas + [c[i + 1]]);
      }
    }
  }

  /** What the receiver does with the ids of a frame, oldest (last) first: it delivers those above the
      last delivered one. */
  function Accept(recvId: uint16, ids: seq<uint16>): (seq<uint16>, uint16)
    decreases |ids|
  {
    if ids == [] then ([], recvId)
    else
      var n := |ids| - 1;
      if ids[n] <= recvId then Accept(recvId, ids[..n])
      else
        var (d, r) := Accept(ids[n], ids[..n]);
        ([ids[n]] + d, r)
  }

  predicate Matched(u: Unpacked) {
    |u.payloads| == |u.metas| && forall i | 0 <= i < |u.metas| :: |u.metas[i].body| >= 2
  }

  /** The first `i` of what was unpacked. */
  function First(u: Unpacked, i: nat): (v: Unpacked)
    requires Matched(u) && i <= |u.metas|
    ensures Matched(v) && |v.metas| == i
  {
    Unpacked(u.payloads[..i], u.metas[..i])
  }

  lemma FirstOfFirst(u: Unpacked, i: nat)
    requires Matched(u)
    ensures i < |u.metas| ==> First(First(u, i + 1), i) == First(u, i)
    ensures i == |u.metas| ==> First(u, i) == u
  {
  }

  /** The same with the payloads: what is delivered, and the last id afterwards. */
  function Adapted(recvId: uint16, u: Unpacked): (seq<Packet>, uint16)
    requires Matched(u)
    decreases |u.metas|
  {
    if u.metas == [] then ([], recvId)
    else
      var n := |u.metas| - 1;
      var id := FirstField(u.metas[n]);
      if id <= recvId then Adapted(recvId, First(u, n))
      else
        var (d, r) := Adapted(id, First(u, n));
        ([u.payloads[n]] + d, r)
  }

  lemma AdaptedStep(recvId: uint16, u: Unpacked)
    requires Matched(u) && u.metas != []
    ensures var n := |u.metas| - 1;
      var id := FirstField(u.metas[n]);
      Adapted(recvId, u) ==
        if id <= recvId then Adapted(recvId, First(u, n))
        else ([u.payloads[n]] + Adapted(id, First(u, n)).0, Adapted(id, First(u, n)).1)
  {
  }

  lemma {:induction false} AdaptedIds(recvId: uint16, u: Unpacked)
    requires Matched(u)
    ensures |Adapted(recvId, u).0| == |Accept(recvId, Ids(u.metas)).0|
    ensures Adapted(recvId, u).1 == Accept(recvId, Ids(u.metas)).1
    decreases |u.metas|
  {
    if u.metas != [] {
      var n := |u.metas| - 1;
      var id := FirstField(u.metas[n]);
      assert Ids(u.metas)[n] == id && Ids(u.metas)[..n] == Ids(First(u, n).metas);
      AdaptedIds(if id <= recvId then recvId else id, First(u, n));
    }
  }

  function Ids(metas: seq<Packet>): seq<uint16>
    requires forall i | 0 <= i < |metas| :: |metas[i].body| >= 2
  {
    seq(|metas|, i requires 0 <= i < |metas| => FirstField(metas[i]))
  }

  class Receiver {
    var recvId: uint16

    constructor ()
      ensures recvId == 1
    {
      recvId := 1;
    }

    /** `adapt`: delivers payloads, and remembers the id of the last one. */
    method Adapt(u: Unpacked) returns (delivered: seq<Packet>)
      requires Matched(u)
      modifies this
      ensures (delivered, recvId) == Adapted(old(recvId), u)
    {
      delivered := [];
      var i := |u.metas|;
      FirstOfFirst(u, i);
      while i > 0
        invariant 0 <= i <= |u.metas|
        invariant delivered + Adapted(recvId, First(u, i)).0 == Adapted(old(recvId), u).0
        invariant Adapted(recvId, First(u, i)).1 == Adapted(old(recvId), u).1
      {
        i := i - 1;
        FirstOfFirst(u, i);
        var id := FirstField(u.metas[i]);
        if id > recvId {
          Assoc(delivered, [u.payloads[i]], Adapted(id, First(u, i)).0);
          recvId, delivered := id, delivered + [u.payloads[i]];
        }
      }
      assert First(u, 0).metas == [] && delivered + [] == delivered;
    }
  }

  // --------------------------------------------------- frames built by padding

  /** The id of datagram `n`, from 1 on: the sender numbers from 2 on, with 16 bits. */
  function IdAt(n: nat): uint16 {
    (n + 1) % IDS
  }

  /** The log of a sender. */
  predicate Numbered(log: seq<Chain>) {
    forall n | 1 <= n <= |log| :: NumberedAt(log, n)
  }

  predicate NumberedAt(log: seq<Chain>, n: nat)
    requires 1 <= n <= |log|
  {
    Tagged(log[n - 1], IdAt(n))
  }

  /** Datagram `n`, from 1 on (`part` 0), or its metadata (`part` 1). */
  function Part(log: seq<Chain>, n: nat, part: nat): (p: Packet)
    requires Numbered(log) && 1 <= n <= |log| && part < 2
    ensures part == 1 ==> |p.body| >= 2 && FirstField(p) == IdAt(n)
  {
    assert NumberedAt(log, n);
    log[n - 1][part]
  }

  /** A frame with `k` older datagrams does not reach back beyond a wrap of the ids. */
  predicate OneRound(log: seq<Chain>, k: nat) {
    k < |log| && k <= IdAt(|log|)
  }

  lemma IdBefore(n: nat, j: nat)
    requires j < n && j <= IdAt(n)
    ensures IdAt(n - j) == IdAt(n) - j
  {
  }

  /** All frames that padding builds are so. */
  lemma PaddedOneRound(log: seq<Chain>, keys: Keys, k: nat)
    requires keys.Valid() && keys.first == 2 && keys.modulus == THUNDER_MODULUS
    requires 0 < |log| < keys.ExitAt() && k <= keys.Reach(|log|)
    ensures OneRound(log, k) && keys.KeyOf(keys.Serial(|log|)) == IdAt(|log|)
  {
  }

  /** The ids `hi`, `hi - 1`, ..., `lo`. */
  function Descending(hi: nat, lo: nat): (s: seq<uint16>)
    requires lo <= hi < IDS
    ensures |s| == hi - lo + 1
  {
    seq(hi - lo + 1, i requires 0 <= i < hi - lo + 1 => hi - i)
  }

  lemma {:induction false} UnpadAppend(a: Chain, b: Chain, i: nat)
    requires Paired(a) && Paired(b) && Paired(a + b) && i <= |a|
    ensures UnpadFrom(a + b, i) ==
            Unpacked(UnpadFrom(a, i).payloads + UnpadFrom(b, 0).payloads, UnpadFrom(a, i).metas + UnpadFrom(b, 0).metas)
    decreases |a| - i
  {
    if i < |a| {
      UnpadAppend(a, b, i + 1);
    } else {
      UnpadShift(a, b, 0);
    }
  }

  lemma {:induction false} UnpadShift(a: Chain, b: Chain, i: nat)
    requires Paired(b) && Paired(a + b) && i <= |b|
    ensures UnpadFrom(a + b, |a| + i) == UnpadFrom(b, i)
    decreases |b| - i
  {
    if i < |b| {
      UnpadShift(a, b, i + 1);
    }
  }

  lemma UnpadGroup(g: Chain, id: uint16)
    requires Tagged(g, id)
    ensures Paired(g) && UnpadFrom(g, 0) == Unpacked([g[0]], [g[1]])
  {
    assert UnpadFrom(g, 2) == Unpacked([], []);
    assert UnpadFrom(g, 1) == Unpacked([], []);
  }

  lemma PairedAppend(a: Chain, b: Chain)
    requires Paired(a) && Paired(b)
    ensures Paired(a + b)
  {
  }

  /** The payloads (`part` 0) or metadata (`part` 1) of the last `k + 1` datagrams, newest first. */
  function Newest(log: seq<Chain>, k: nat, part: nat): (s: seq<Packet>)
    requires Numbered(log) && k < |log| && part < 2
    ensures |s| == k + 1
  {
    (if k == 0 then [] else Newest(log, k - 1, part)) + [Part(log, |log| - k, part)]
  }

  lemma {:induction false} NewestAt(log: seq<Chain>, k: nat, part: nat, j: nat)
    requires Numbered(log) && k < |log| && part < 2 && j <= k
    ensures Newest(log, k, part)[j] == Part(log, |log| - j, part)
  {
    if j < k {
      NewestAt(log, k - 1, part, j);
    }
  }

  lemma {:induction false} FrameParts(log: seq<Chain>, k: nat)
    requires Numbered(log) && k < |log|
    ensures Paired(Frame(log, k))
    ensures UnpadFrom(Frame(log, k), 0) == Unpacked(Newest(log, k, 0), Newest(log, k, 1))
  {
    var g := log[|log| - 1 - k];
    assert NumberedAt(log, |log| - k);
    UnpadGroup(g, IdAt(|log| - k));
    if k > 0 {
      FrameParts(log, k - 1);
      PairedAppend(Frame(log, k - 1), g);
      UnpadAppend(Frame(log, k - 1), g, 0);
    }
  }

  /** The frame as it is sent: the scheduler closes every copy with its monitoring packet. */
  function OnWire(log: seq<Chain>, k: nat, monit: Packet): Chain
    requires k < |log|
  {
    Frame(log, k) + [monit]
  }

  /** A padded frame unpacks into exactly its datagrams, newest first. */
  lemma FrameUnpads(log: seq<Chain>, k: nat, monit: Packet)
    requires Numbered(log) && k < |log| && monit.cmd == CMD_LINK_MONITORING_THUNDER
    ensures Paired(OnWire(log, k, monit))
    ensures UnpadFrom(OnWire(log, k, monit), 0) == Unpacked(Newest(log, k, 0), Newest(log, k, 1))
  {
    FrameParts(log, k);
    PairedAppend(Frame(log, k), [monit]);
    UnpadAppend(Frame(log, k), [monit], 0);
    assert UnpadFrom([monit], 1) == Unpacked([], []);
    assert UnpadFrom([monit], 0) == Unpacked([], []);
  }

  /** The ids of a frame are consecutive. */
  lemma FrameIds(log: seq<Chain>, k: nat)
    requires Numbered(log) && OneRound(log, k)
    ensures forall j | 0 <= j <= k :: |Newest(log, k, 1)[j].body| >= 2
    ensures Ids(Newest(log, k, 1)) == Descending(IdAt(|log|), IdAt(|log|) - k)
  {
    forall j | 0 <= j <= k
      ensures |Newest(log, k, 1)[j].body| >= 2 && FirstField(Newest(log, k, 1)[j]) == IdAt(|log|) - j
    {
      NewestAt(log, k, 1, j);
      IdBefore(|log|, j);
    }
    assert Ids(Newest(log, k, 1)) == Descending(IdAt(|log|), IdAt(|log|) - k);
  }

  // -------------------------------------------------------------------- runs

  /** Deliveries over a run of arriving frames, given by their ids. */
  function AcceptAll(recvId: uint16, frames: seq<seq<uint16>>): (seq<uint16>, uint16)
    decreases |frames|
  {
    if frames == [] then ([], recvId)
    else
      var (d, r) := Accept(recvId, frames[0]);
      var (e, s) := AcceptAll(r, frames[1..]);
      (d + e, s)
  }

  predicate Rising(from: uint16, d: seq<uint16>, last: uint16) {
    && from <= last
    && (forall i | 0 <= i < |d| :: from < d[i] <= last)
    && (forall i, j | 0 <= i < j < |d| :: d[i] < d[j])
  }

  lemma {:induction false} AcceptRises(recvId: uint16, ids: seq<uint16>)
    ensures Rising(recvId, Accept(recvId, ids).0, Accept(recvId, ids).1)
    decreases |ids|
  {
    if ids != [] {
      var n := |ids| - 1;
      AcceptRises(if ids[n] <= recvId then recvId else ids[n], ids[..n]);
    }
  }

  /** Whatever frames arrive in whatever order, delivered ids are strictly increasing. */
  lemma {:induction false} DeliveriesRise(recvId: uint16, frames: seq<seq<uint16>>)
    ensures Rising(recvId, AcceptAll(recvId, frames).0, AcceptAll(recvId, frames).1)
    decreases |frames|
  {
    if frames != [] {
      AcceptRises(recvId, frames[0]);
      DeliveriesRise(Accept(recvId, frames[0]).1, frames[1..]);
    }
  }

  /** So after id 65535 nothing is delivered any more: the ids that follow have wrapped to 0. */
  lemma NothingAfterLastId(recvId: uint16, frames: seq<seq<uint16>>)
    requires recvId == IDS - 1
    ensures AcceptAll(recvId, frames).0 == [] && AcceptAll(recvId, frames).1 == recvId
  {
    DeliveriesRise(recvId, frames);
    var d := AcceptAll(recvId, frames).0;
    if |d| > 0 {
      RisingRoom(recvId, d, AcceptAll(recvId, frames).1);
    }
  }

  lemma RisingRoom(from: uint16, d: seq<uint16>, last: uint16)
    requires Rising(from, d, last) && |d| > 0
    ensures from < last
  {
    assert from < d[0];
  }

  function Ascending(lo: nat, hi: nat): (s: seq<uint16>)
    requires hi < IDS
    ensures |s| == if lo <= hi then hi - lo + 1 else 0
  {
    if lo > hi then [] else seq(hi - lo + 1, i requires 0 <= i < hi - lo + 1 => lo + i)
  }

  /** One frame delivers exactly its ids above the last delivered one, in ascending order. */
  lemma {:induction false} AcceptFrame(recvId: uint16, hi: nat, lo: nat)
    requires lo <= hi < IDS
    ensures Accept(recvId, Descending(hi, lo)) == (Ascending(Max(lo, recvId + 1), hi), Max(recvId, hi))
    decreases hi - lo
  {
    var s := Descending(hi, lo);
    var n := |s| - 1;
    assert s[n] == lo;
    if lo < hi {
      assert s[..n] == Descending(hi, lo + 1);
      AcceptFrame(if lo <= recvId then recvId else lo, hi, lo + 1);
    } else {
      assert s[..n] == [];
    }
    if lo > recvId {
      AscendingNext(lo, hi);
    }
  }

  lemma AscendingNext(lo: nat, hi: nat)
    requires lo <= hi < IDS
    ensures Ascending(lo, hi) == [lo as uint16] + Ascending(lo + 1, hi)
  {
  }

  /** How many of the ids `hi` to `lo` are above the last delivered one. */
  function NewIds(recvId: uint16, hi: nat, lo: nat): nat {
    if hi < Max(lo, recvId + 1) then 0 else hi - Max(lo, recvId + 1) + 1
  }

  predicate IdsFrom(u: Unpacked, hi: nat)
    requires Matched(u)
  {
    forall j | 0 <= j < |u.metas| :: FirstField(u.metas[j]) == hi - j
  }

  /** Of payloads with consecutive descending ids, the newer ones are delivered, from the last one on. */
  lemma {:induction false} NewerDelivered(u: Unpacked, hi: nat, lo: nat, recvId: uint16)
    requires Matched(u) && IdsFrom(u, hi) && lo <= hi + 1 && |u.metas| == hi + 1 - lo
    ensures var d, n := Adapted(recvId, u).0, NewIds(recvId, hi, lo);
      |d| == n <= |u.payloads| && forall i | 0 <= i < n :: d[i] == u.payloads[n - 1 - i]
    decreases |u.metas|
  {
    if lo <= hi {
      var n := |u.metas| - 1;
      assert FirstField(u.metas[n]) == lo;
      AdaptedStep(recvId, u);
      if lo <= recvId {
        NewerDelivered(First(u, n), hi, lo + 1, recvId);
      } else {
        NewerDelivered(First(u, n), hi, lo + 1, lo);
        var d := Adapted(lo, First(u, n)).0;
        assert |d| == n;
        forall i | 0 <= i < n + 1 ensures ([u.payloads[n]] + d)[i] == u.payloads[n - i] {
          if i > 0 {
            assert d[i - 1] == u.payloads[n - 1 - (i - 1)];
          }
        }
      }
    }
  }

  /** And the last id is the highest one, if it is news. */
  lemma LastDelivered(u: Unpacked, hi: nat, lo: nat, recvId: uint16)
    requires Matched(u) && lo <= hi < IDS && Ids(u.metas) == Descending(hi, lo)
    ensures Adapted(recvId, u).1 == Max(recvId, hi)
  {
    AdaptedIds(recvId, u);
    AcceptFrame(recvId, hi, lo);
  }

  /** What a frame unpacks into. */
  function Contents(log: seq<Chain>, k: nat): Unpacked
    requires Numbered(log) && k < |log|
  {
    Unpacked(Newest(log, k, 0), Newest(log, k, 1))
  }

  lemma ContentsIds(log: seq<Chain>, k: nat)
    requires Numbered(log) && OneRound(log, k)
    ensures var u, hi := Contents(log, k), IdAt(|log|);
      Matched(u) && IdsFrom(u, hi) && Ids(u.metas) == Descending(hi, hi - k)
  {
    FrameIds(log, k);
    var u := Contents(log, k);
    forall j | 0 <= j <= k ensures FirstField(u.metas[j]) == IdAt(|log|) - j {
      assert FirstField(u.metas[j]) == Ids(u.metas)[j];
    }
  }

  lemma ContentsDelivered(log: seq<Chain>, k: nat, recvId: uint16)
    requires Numbered(log) && OneRound(log, k)
    ensures Matched(Contents(log, k))
    ensures var (d, r) := Adapted(recvId, Contents(log, k));
      && |d| == NewIds(recvId, IdAt(|log|), IdAt(|log|) - k) <= k + 1 && r == Max(recvId, IdAt(|log|))
      && forall i | 0 <= i < |d| :: d[i] == Newest(log, k, 0)[|d| - 1 - i]
  {
    var hi := IdAt(|log|);
    ContentsIds(log, k);
    NewerDelivered(Contents(log, k), hi, hi - k, recvId);
    LastDelivered(Contents(log, k), hi, hi - k, recvId);
  }

  /** The delivered packets `d` are the datagrams up to the newest one, in order. */
  predicate InOrder(log: seq<Chain>, d: seq<Packet>)
    requires Numbered(log)
  {
    |d| <= |log| && forall i | 0 <= i < |d| :: d[i] == Part(log, |log| + 1 - |d| + i, 0)
  }

  lemma NewestInOrder(log: seq<Chain>, k: nat, d: seq<Packet>)
    requires Numbered(log) && k < |log| && |d| <= k + 1
    requires forall i | 0 <= i < |d| :: d[i] == Newest(log, k, 0)[|d| - 1 - i]
    ensures InOrder(log, d)
  {
    forall i | 0 <= i < |d| ensures d[i] == Part(log, |log| + 1 - |d| + i, 0) {
      NewestAt(log, k, 0, |d| - 1 - i);
    }
  }

  /** A padded frame delivers exactly its datagrams above the last delivered one, oldest first. */
  lemma FrameDelivers(log: seq<Chain>, k: nat, monit: Packet, recvId: uint16)
    requires Numbered(log) && OneRound(log, k) && monit.cmd == CMD_LINK_MONITORING_THUNDER
    ensures Paired(OnWire(log, k, monit)) && Matched(UnpadFrom(OnWire(log, k, monit), 0))
    ensures var (d, r) := Adapted(recvId, UnpadFrom(OnWire(log, k, monit), 0));
      && |d| == NewIds(recvId, IdAt(|log|), IdAt(|log|) - k) <= k + 1 && r == Max(recvId, IdAt(|log|))
      && InOrder(log, d)
  {
    FrameUnpads(log, k, monit);
    ContentsDelivered(log, k, recvId);
    NewestInOrder(log, k, Adapted(recvId, Contents(log, k)).0);
  }

  /** A frame as padding builds it, by its newest and oldest id. */
  datatype Span = Span(hi: nat, lo: nat)

  predicate ValidSpans(f: seq<Span>) {
    forall i | 0 <= i < |f| :: f[i].lo <= f[i].hi < IDS
  }

  function Frames(f: seq<Span>): (r: seq<seq<uint16>>)
    requires ValidSpans(f)
    ensures |r| == |f|
  {
    seq(|f|, i requires 0 <= i < |f| => Descending(f[i].hi, f[i].lo))
  }

  /** Every frame that brings something new reaches back to the id after the last delivered one. */
  predicate Reaching(recvId: uint16, f: seq<Span>)
    requires ValidSpans(f)
    decreases |f|
  {
    f == [] ||
    ((f[0].hi <= recvId || f[0].lo <= recvId + 1) && Reaching(Max(recvId, f[0].hi), f[1..]))
  }

  lemma FramesNext(f: seq<Span>)
    requires ValidSpans(f) && f != []
    ensures ValidSpans(f[1..]) && Frames(f)[0] == Descending(f[0].hi, f[0].lo) && Frames(f)[1..] == Frames(f[1..])
  {
  }

  lemma AscendingJoin(a: nat, b: nat, c: nat)
    requires a <= b + 1 && b <= c < IDS
    ensures Ascending(a, b) + Ascending(b + 1, c) == Ascending(a, c)
  {
  }

  /** Delivery has no gap exactly when every frame with something new reaches back far enough. */
  lemma {:induction false} GapFree(recvId: uint16, f: seq<Span>)
    requires ValidSpans(f)
    ensures var (d, r) := AcceptAll(recvId, Frames(f));
      && r >= recvId && |d| <= r - recvId
      && (Reaching(recvId, f) <==> |d| == r - recvId)
      && (Reaching(recvId, f) ==> d == Ascending(recvId + 1, r))
    decreases |f|
  {
    if f != [] {
      FramesNext(f);
      AcceptFrame(recvId, f[0].hi, f[0].lo);
      var r := Max(recvId, f[0].hi);
      GapFree(r, f[1..]);
      AscendingJoin(recvId + 1, r, AcceptAll(r, Frames(f[1..])).1);
    }
  }

  // ------------------------------------------- runs of frames of one sender

  /** The frame built when datagram `n` was the newest one, with `k` older ones, and its monitoring packet. */
  datatype Cell = Cell(n: nat, k: nat, monit: Packet)

  predicate ValidCells(log: seq<Chain>, cells: seq<Cell>) {
    forall i | 0 <= i < |cells| :: ValidCell(log, cells[i])
  }

  predicate ValidCell(log: seq<Chain>, c: Cell) {
    1 <= c.n <= |log| && OneRound(log[..c.n], c.k) && c.monit.cmd == CMD_LINK_MONITORING_THUNDER
  }

  /** Its ids. */
  function SpanOf(c: Cell): Span
    requires c.k <= IdAt(c.n)
  {
    Span(IdAt(c.n), IdAt(c.n) - c.k)
  }

  /** The datagrams it delivers. */
  function NumbersOf(recvId: uint16, c: Cell): (s: seq<nat>)
    requires c.k < c.n && c.k <= IdAt(c.n)
    ensures |s| == NewIds(recvId, IdAt(c.n), IdAt(c.n) - c.k)
  {
    var m := NewIds(recvId, IdAt(c.n), IdAt(c.n) - c.k);
    seq(m, i requires 0 <= i < m => c.n + 1 - m + i)
  }

  lemma PrefixNumbered(log: seq<Chain>, n: nat)
    requires Numbered(log) && n <= |log|
    ensures Numbered(log[..n])
    ensures forall m, part | 1 <= m <= n && 0 <= part < 2 :: Part(log[..n], m, part) == Part(log, m, part)
  {
    forall m | 1 <= m <= n ensures NumberedAt(log[..n], m) {
      assert NumberedAt(log, m);
    }
  }

  function AdaptCell(recvId: uint16, log: seq<Chain>, c: Cell): (seq<Packet>, uint16)
    requires Numbered(log) && ValidCell(log, c)
  {
    PrefixNumbered(log, c.n);
    FrameDelivers(log[..c.n], c.k, c.monit, recvId);
    Adapted(recvId, UnpadFrom(OnWire(log[..c.n], c.k, c.monit), 0))
  }

  /** The receiver over a run of arriving frames. */
  function AdaptCells(recvId: uint16, log: seq<Chain>, cells: seq<Cell>): (seq<Packet>, uint16)
    requires Numbered(log) && ValidCells(log, cells)
    decreases |cells|
  {
    if cells == [] then ([], recvId)
    else
      var (d, r) := AdaptCell(recvId, log, cells[0]);
      var (e, q) := AdaptCells(r, log, cells[1..]);
      (d + e, q)
  }

  function Numbers(recvId: uint16, cells: seq<Cell>): seq<nat>
    requires forall i | 0 <= i < |cells| :: cells[i].k < cells[i].n && cells[i].k <= IdAt(cells[i].n)
    decreases |cells|
  {
    if cells == [] then []
    else NumbersOf(recvId, cells[0]) + Numbers(Max(recvId, IdAt(cells[0].n)), cells[1..])
  }

  function Spans(cells: seq<Cell>): (f: seq<Span>)
    requires forall i | 0 <= i < |cells| :: cells[i].k <= IdAt(cells[i].n)
    ensures |f| == |cells| && ValidSpans(f)
  {
    seq(|cells|, i requires 0 <= i < |cells| => SpanOf(cells[i]))
  }

  predicate AreDatagrams(log: seq<Chain>, d: seq<Packet>, numbers: seq<nat>)
    requires Numbered(log)
  {
    |d| == |numbers| && forall i | 0 <= i < |d| :: 1 <= numbers[i] <= |log| && d[i] == Part(log, numbers[i], 0)
  }

  predicate HaveIds(numbers: seq<nat>, ids: seq<uint16>) {
    |numbers| == |ids| && forall i | 0 <= i < |numbers| :: IdAt(numbers[i]) == ids[i]
  }

  lemma CellDatagrams(recvId: uint16, log: seq<Chain>, c: Cell)
    requires Numbered(log) && ValidCell(log, c)
    ensures var (d, r) := AdaptCell(recvId, log, c);
      AreDatagrams(log, d, NumbersOf(recvId, c)) && r == Max(recvId, IdAt(c.n))
  {
    var t := log[..c.n];
    PrefixNumbered(log, c.n);
    FrameDelivers(t, c.k, c.monit, recvId);
    var d := AdaptCell(recvId, log, c).0;
    forall i | 0 <= i < |d| ensures d[i] == Part(log, NumbersOf(recvId, c)[i], 0) {
      assert d[i] == Part(t, c.n + 1 - |d| + i, 0);
    }
  }

  lemma CellIds(recvId: uint16, c: Cell)
    requires c.k < c.n && c.k <= IdAt(c.n)
    ensures var (ids, r) := Accept(recvId, Descending(SpanOf(c).hi, SpanOf(c).lo));
      HaveIds(NumbersOf(recvId, c), ids) && r == Max(recvId, IdAt(c.n))
  {
    AcceptFrame(recvId, SpanOf(c).hi, SpanOf(c).lo);
    var numbers := NumbersOf(recvId, c);
    forall i | 0 <= i < |numbers|
      ensures IdAt(numbers[i]) == Accept(recvId, Descending(SpanOf(c).hi, SpanOf(c).lo)).0[i]
    {
      IdBefore(c.n, |numbers| - 1 - i);
    }
  }

  lemma JoinDatagrams(log: seq<Chain>, d: seq<Packet>, m: seq<nat>, e: seq<Packet>, n: seq<nat>)
    requires Numbered(log) && AreDatagrams(log, d, m) && AreDatagrams(log, e, n)
    ensures AreDatagrams(log, d + e, m + n)
  {
  }

  lemma JoinIds(m: seq<nat>, a: seq<uint16>, n: seq<nat>, b: seq<uint16>)
    requires HaveIds(m, a) && HaveIds(n, b)
    ensures HaveIds(m + n, a + b)
  {
  }

  lemma SpansNext(cells: seq<Cell>)
    requires cells != [] && forall i | 0 <= i < |cells| :: cells[i].k <= IdAt(cells[i].n)
    ensures Spans(cells)[0] == SpanOf(cells[0]) && Spans(cells)[1..] == Spans(cells[1..])
  {
  }

  lemma {:induction false} RunDelivers(recvId: uint16, log: seq<Chain>, cells: seq<Cell>)
    requires Numbered(log) && ValidCells(log, cells)
    ensures forall i | 0 <= i < |cells| :: cells[i].k < cells[i].n && cells[i].k <= IdAt(cells[i].n)
    ensures var (d, r) := AdaptCells(recvId, log, cells);
      && AreDatagrams(log, d, Numbers(recvId, cells))
      && AcceptAll(recvId, Frames(Spans(cells))).1 == r
      && HaveIds(Numbers(recvId, cells), AcceptAll(recvId, Frames(Spans(cells))).0)
    decreases |cells|
  {
    forall i | 0 <= i < |cells| ensures cells[i].k < cells[i].n && cells[i].k <= IdAt(cells[i].n) {
      assert ValidCell(log, cells[i]);
    }
    if cells != [] {
      var r := Max(recvId, IdAt(cells[0].n));
      CellDatagrams(recvId, log, cells[0]);
      CellIds(recvId, cells[0]);
      RunDelivers(r, log, cells[1..]);
      SpansNext(cells);
      FramesNext(Spans(cells));
      JoinDatagrams(log, AdaptCell(recvId, log, cells[0]).0, NumbersOf(recvId, cells[0]),
                    AdaptCells(r, log, cells[1..]).0, Numbers(r, cells[1..]));
      JoinIds(NumbersOf(recvId, cells[0]), Accept(recvId, Frames(Spans(cells))[0]).0,
              Numbers(r, cells[1..]), AcceptAll(r, Frames(Spans(cells[1..]))).0);
    }
  }

  /** End to end: whatever frames of a sender arrive, in whatever order and however often, exactly the
      datagrams of the accepted ids are delivered, their ids strictly increase, and there is no gap exactly
      when every frame with something new reaches back far enough. */
  lemma Delivery(recvId: uint16, log: seq<Chain>, cells: seq<Cell>)
    requires Numbered(log) && ValidCells(log, cells)
    ensures forall i | 0 <= i < |cells| :: cells[i].k < cells[i].n && cells[i].k <= IdAt(cells[i].n)
    ensures var (d, r) := AdaptCells(recvId, log, cells);
      var numbers := Numbers(recvId, cells);
      && AreDatagrams(log, d, numbers)
      && (forall i | 0 <= i < |numbers| :: recvId < IdAt(numbers[i]) <= r)
      && (forall i, j | 0 <= i < j < |numbers| :: IdAt(numbers[i]) < IdAt(numbers[j]))
      && (Reaching(recvId, Spans(cells)) <==> |d| == r - recvId)
  {
    RunDelivers(recvId, log, cells);
    DeliveriesRise(recvId, Frames(Spans(cells)));
    GapFree(recvId, Spans(cells));
  }

  // ------------------------------------------------------- a perfect network

  const LAST: nat := 65534

  /** The frames of datagrams `m`, `m + 1`, ... in this order. */
  predicate InTurn(cells: seq<Cell>, m: nat) {
    forall i | 0 <= i < |cells| :: cells[i].n == m + i && cells[i].k < cells[i].n && cells[i].k <= IdAt(cells[i].n)
  }

  function Range(m: nat, n: nat): (s: seq<nat>) {
    if n < m then [] else seq(n + 1 - m, i requires 0 <= i < n + 1 - m => m + i)
  }

  lemma {:induction false} InTurnNumbers(recvId: uint16, cells: seq<Cell>, m: nat)
    requires InTurn(cells, m) && m >= 1 && recvId == Min(m, LAST + 1)
    ensures Numbers(recvId, cells) == Range(m, Min(m + |cells| - 1, LAST))
    decreases |cells|
  {
    if cells != [] {
      var r := Max(recvId, IdAt(m));
      InTurnNumbers(r, cells[1..], m + 1);
      assert NumbersOf(recvId, cells[0]) == if m <= LAST then [m] else [];
      RangeNext(m, Min(m + |cells| - 1, LAST));
    }
  }

  lemma RangeNext(m: nat, n: nat)
    ensures m <= n ==> Range(m, n) == [m] + Range(m + 1, n)
  {
  }

  /** Even if every frame arrives, and in its turn, exactly the first 65534 datagrams are delivered: the
      receiver begins with id 1, the first datagram has id 2, and nothing is above id 65535. */
  lemma PerfectNetwork(log: seq<Chain>, cells: seq<Cell>)
    requires Numbered(log) && ValidCells(log, cells) && forall i | 0 <= i < |cells| :: cells[i].n == i + 1
    ensures var d := AdaptCells(1, log, cells).0;
      |d| == Min(|cells|, LAST) && forall i | 0 <= i < |d| :: i < |log| && d[i] == Part(log, i + 1, 0)
  {
    Delivery(1, log, cells);
    InTurnNumbers(1, cells, 1);
  }
}
