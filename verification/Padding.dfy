/** Filling the rest of a Tor cell with earlier datagrams: `algo_lightning_pad`
    (src/algo_lightning.c:177-219) and `pad` of thunder (src/algo_thunder.c:58-94), which differ only
    in what a datagram consists of: one packet, or a packet and its metadata. */
module Padding {
  import opened Basics
  import opened PacketChain
  import opened BufferPackets

  const TOR_CELL_SIZE: nat := 498
  const MAX_GROUP: nat := 2

  predicate ValidGroup(g: Chain) {
    1 <= |g| <= MAX_GROUP && AllValid(g) && Total(g) <= UDP_MTU
  }

  /** Datagram number `n` (the last one of `log`), followed by `k` earlier ones, newest first. */
  function Frame(log: seq<Chain>, k: nat): (c: Chain)
    requires k < |log|
  {
    if k == 0 then log[|log| - 1] else Frame(log, k - 1) + log[|log| - 1 - k]
  }

  lemma {:induction false} TotalAppend(a: Chain, b: Chain)
    ensures Total(a + b) == Total(a) + Total(b)
    decreases |b|
  {
    if b == [] {
      assert a + b == a;
    } else {
      assert (a + b)[..|a + b| - 1] == a + b[..|b| - 1];
      TotalAppend(a, b[..|b| - 1]);
    }
  }

  lemma {:induction false} FrameSize(log: seq<Chain>, k: nat)
    requires k < |log| && forall i | 0 <= i < |log| :: ValidGroup(log[i])
    ensures k + 1 <= |Frame(log, k)| <= MAX_GROUP * (k + 1)
    ensures AllValid(Frame(log, k))
    ensures k > 0 ==> Total(Frame(log, k)) == Total(Frame(log, k - 1)) + Total(log[|log| - 1 - k])
  {
    if k > 0 {
      FrameSize(log, k - 1);
      TotalAppend(Frame(log, k - 1), log[|log| - 1 - k]);
    }
  }

  lemma FrameNext(log: seq<Chain>, k: nat, g: Chain)
    requires k + 1 < |log| && k < MAX_LINKS && forall i | 0 <= i < |log| :: ValidGroup(log[i])
    requires g == log[|log| - 2 - k]
    ensures Frame(log, k + 1) == Frame(log, k) + g && ValidGroup(g)
    ensures |Frame(log, k)| + |g| <= MAX_PACKETS
    ensures Total(Frame(log, k + 1)) == Total(Frame(log, k)) + Total(g)
  {
    FrameSize(log, k);
    FrameSize(log, k + 1);
  }

  /** Every one of the `k` older datagrams fitted when it was added. */
  predicate EachFits(log: seq<Chain>, k: nat, room: int)
    requires k < |log|
  {
    k == 0 || (Total(Frame(log, k)) <= room && EachFits(log, k - 1, room))
  }

  /** No more can be added to `k` older datagrams: `reach` are all there are, or the next does not fit. */
  predicate Full(log: seq<Chain>, k: nat, reach: int, room: int) {
    k == reach || (k < reach && k + 1 < |log| && Total(Frame(log, k + 1)) > room)
  }

  lemma FullExact(log: seq<Chain>, k: nat, reach: int, room: int)
    requires k < |log| && EachFits(log, k, room) && Full(log, k, reach, room)
    ensures Total(log[|log| - 1]) <= room ==> Total(Frame(log, k)) <= room
    ensures k < reach ==> k + 1 < |log| && Total(Frame(log, k + 1)) > room
  {
  }

  // ---------------------------------------------------------------- keys

  /** Datagrams are stored under a counter that begins with `first` and counts modulo `modulus`:
      `uniq_pkt_sent_id` begins with 1 and has 64 bits, thunder's `emit_id` begins with 2 and has 16.
      `Keys` also says how many datagrams are kept. */
  datatype Keys = Keys(first: nat, modulus: nat, kept: nat) {
    predicate Valid() {
      1 <= first <= 2 && modulus >= 65536 && 1 <= kept <= MAX_LINKS
    }

    /** The counter of datagram `n`, as if it never wrapped. */
    function Serial(n: nat): int {
      n - 1 + first
    }

    /** And what it is, in the first two rounds. */
    function KeyOf(u: int): int {
      if u < modulus then u else u - modulus
    }

    /** The datagram whose key is still in use when its turn comes again. */
    function ExitAt(): int {
      2 * modulus - kept - first + 1
    }

    /** Whether the datagram with serial `u` is stored when `last` is the latest one.  Those of the end of
        the first round, and the first one of the second, are never dropped. */
    predicate Stored(u: int, last: int) {
      && first <= u <= last
      && (u > last - kept || (last >= modulus && modulus - kept <= u <= modulus))
    }

    /** The latest serial with key `k`. */
    function Unwrap(k: nat, last: int): int {
      if k + modulus <= last then k + modulus else k
    }

    /** How many datagrams before number `n` are found by counting its key down. */
    function Reach(n: nat): int {
      var last := Serial(n);
      if last < modulus then Min(n - 1, kept - 1)
      else
        var r := last - modulus;
        if r <= kept then r else kept - 1
    }
  }

  const LIGHTNING_MODULUS: nat := 0x1_0000_0000_0000_0000
  const THUNDER_MODULUS: nat := 0x1_0000

  /** The map holds exactly these datagrams. */
  ghost predicate Holding(stored: map<nat, Chain>, log: seq<Chain>, keys: Keys)
    requires keys.Valid() && |log| < keys.ExitAt()
  {
    forall k: nat :: HoldsKey(stored, log, keys, k)
  }

  predicate HoldsKey(stored: map<nat, Chain>, log: seq<Chain>, keys: Keys, k: nat)
    requires keys.Valid() && |log| < keys.ExitAt()
  {
    var last := keys.Serial(|log|);
    var u := keys.Unwrap(k, last);
    if k < keys.modulus && keys.Stored(u, last) then k in stored && stored[k] == log[u - keys.first]
    else k !in stored
  }

  /** The next key is in use only for the one datagram that ends the program. */
  lemma NextKey(stored: map<nat, Chain>, log: seq<Chain>, keys: Keys)
    requires keys.Valid() && |log| < keys.ExitAt() && Holding(stored, log, keys)
    ensures keys.KeyOf(keys.Serial(|log| + 1)) in stored <==> |log| + 1 == keys.ExitAt()
  {
    var last, k := keys.Serial(|log|), keys.KeyOf(keys.Serial(|log| + 1));
    assert HoldsKey(stored, log, keys, k);
  }

  /** What storing a datagram and dropping the one that is too old does. */
  function AfterStore(stored: map<nat, Chain>, key: nat, g: Chain, kept: nat): map<nat, Chain> {
    var m := stored[key := g];
    if key > kept && key - kept in m then m - {key - kept} else m
  }

  /** Which keys are in use after one more datagram: its own, and those in use before but for the oldest. */
  lemma KeyStored(keys: Keys, k: nat, last: int)
    requires keys.Valid() && keys.first - 1 <= last && last + 1 < 2 * keys.modulus - keys.kept && k < keys.modulus
    ensures var key := keys.KeyOf(last + 1);
      && keys.Unwrap(key, last + 1) == last + 1
      && (k != key ==>
            && keys.Unwrap(k, last + 1) == keys.Unwrap(k, last)
            && (keys.Stored(keys.Unwrap(k, last + 1), last + 1) <==>
                keys.Stored(keys.Unwrap(k, last), last) && !(key > keys.kept && k == key - keys.kept)))
  {
  }

  lemma StoreHolds(stored: map<nat, Chain>, log: seq<Chain>, g: Chain, keys: Keys)
    requires keys.Valid() && |log| + 1 < keys.ExitAt() && Holding(stored, log, keys)
    requires keys.KeyOf(keys.Serial(|log| + 1)) >= 0
    ensures Holding(AfterStore(stored, keys.KeyOf(keys.Serial(|log| + 1)), g, keys.kept), log + [g], keys)
  {
    var after := AfterStore(stored, keys.KeyOf(keys.Serial(|log| + 1)), g, keys.kept);
    forall k: nat ensures HoldsKey(after, log + [g], keys, k) {
      assert HoldsKey(stored, log, keys, k);
      StoreHoldsKey(stored, log, g, keys, k);
    }
  }

  lemma StoreHoldsKey(stored: map<nat, Chain>, log: seq<Chain>, g: Chain, keys: Keys, k: nat)
    requires keys.Valid() && |log| + 1 < keys.ExitAt() && HoldsKey(stored, log, keys, k)
    requires keys.KeyOf(keys.Serial(|log| + 1)) >= 0
    ensures HoldsKey(AfterStore(stored, keys.KeyOf(keys.Serial(|log| + 1)), g, keys.kept), log + [g], keys, k)
  {
    if k < keys.modulus {
      KeyStored(keys, k, keys.Serial(|log|));
    }
  }

  /** Counting down from the latest key finds `Reach` datagrams, one after the other. */
  lemma CountDown(stored: map<nat, Chain>, log: seq<Chain>, keys: Keys, key: nat, k: nat)
    requires keys.Valid() && 0 < |log| < keys.ExitAt() && Holding(stored, log, keys)
    requires key == keys.KeyOf(keys.Serial(|log|)) && k <= keys.Reach(|log|)
    ensures k <= key && (k == key ==> k == keys.Reach(|log|))
    ensures k < key ==> (key - 1 - k in stored <==> k < keys.Reach(|log|))
    ensures k < keys.Reach(|log|) ==> k + 1 < |log| && k < key && stored[key - 1 - k] == log[|log| - 2 - k]
  {
    var last := keys.Serial(|log|);
    if k < key {
      var j: nat := key - 1 - k;
      assert keys.Unwrap(j, last) == last - 1 - k;
      assert HoldsKey(stored, log, keys, j);
    }
  }

  class Padder {
    const keys: Keys
    const monitPktSize: nat
    /** `uniq_pkt_sent_id` or `emit_id` of the latest datagram. */
    var key: nat
    /** The application map of the pool: copies of the last datagrams. */
    var stored: map<nat, Chain>

    ghost var log: seq<Chain>

    /** The map holds the datagrams it should. */
    ghost predicate Valid()
      reads this
    {
      && keys.Valid() && monitPktSize <= TOR_CELL_SIZE && |log| < keys.ExitAt()
      && key == keys.KeyOf(keys.Serial(|log|))
      && (forall i | 0 <= i < |log| :: ValidGroup(log[i]))
      && Holding(stored, log, keys)
    }

    constructor Lightning(totalLinks: nat, monitPktSize: nat)
      requires 1 <= totalLinks <= MAX_LINKS && monitPktSize <= TOR_CELL_SIZE
      ensures Valid() && log == [] && this.monitPktSize == monitPktSize
      ensures keys == Keys(1, LIGHTNING_MODULUS, totalLinks)
    {
      this.keys, this.monitPktSize := Keys(1, LIGHTNING_MODULUS, totalLinks), monitPktSize;
      key, stored, log := 0, map[], [];
    }

    /** With 16-bit keys the program ends at datagram 131071 - `totalLinks`. */
    constructor Thunder(totalLinks: nat, monitPktSize: nat)
      requires 1 <= totalLinks <= MAX_LINKS && monitPktSize <= TOR_CELL_SIZE
      ensures Valid() && log == [] && this.monitPktSize == monitPktSize
      ensures keys == Keys(2, THUNDER_MODULUS, totalLinks) && keys.ExitAt() == 131071 - totalLinks
    {
      this.keys, this.monitPktSize := Keys(2, THUNDER_MODULUS, totalLinks), monitPktSize;
      key, stored, log := 1, map[], [];
    }

    /** Room for padding in a cell. */
    function Room(): int {
      TOR_CELL_SIZE - monitPktSize
    }

    /** Keeps a copy of the new datagram and drops the one that is too old; not `ok` is the exit because
        the key is in use. */
    method Store(g: Chain) returns (ok: bool)
      requires Valid() && ValidGroup(g)
      modifies this
      ensures ok <==> |old(log)| + 1 != keys.ExitAt()
      ensures ok ==> Valid() && log == old(log) + [g]
    {
      NextKey(stored, log, keys);
      key := if key + 1 == keys.modulus then 0 else key + 1;
      if key in stored {
        return false;
      }
      StoreHolds(stored, log, g, keys);
      stored := stored[key := g];
      log := log + [g];
      if key > keys.kept && key - keys.kept in stored {
        stored := stored - {key - keys.kept};
      }
      ok := true;
    }

    method AppendGroup(bp: BufferPacket, g: Chain, ghost c: Chain)
      requires bp.Valid() && Holds(bp.ip[..], c, false) && ValidGroup(g)
      requires |c| + |g| <= MAX_PACKETS && Total(c) + Total(g) <= UDP_MTU
      modifies bp`apCount, bp.ip
      ensures Holds(bp.ip[..], c + g, false)
    {
      assert c + g[..0] == c;
      for i := 0 to |g|
        modifies bp`apCount, bp.ip
        invariant Holds(bp.ip[..], c + g[..i], false)
      {
        GroupStep(c, g, i);
        var _ := bp.AppendAp(g[i], c + g[..i]);
        assert c + g[..i] + [Unlinked(g[i])] == c + g[..i + 1];
      }
      assert g[..|g|] == g;
    }

    /** `bp` holds `c`, which is the newest datagram and `k` older ones, each of which fitted. */
    ghost predicate Padded(bp: BufferPacket, k: nat, c: Chain)
      reads this, bp, bp.ip
    {
      && k < |log| && bp.Valid() && Holds(bp.ip[..], c, false)
      && c == Frame(log, k) && EachFits(log, k, Room())
    }

    /** One turn of the loop: adds the datagram stored under `ref` if there is one and it fits. */
    method AddOlder(bp: BufferPacket, ref: nat, ghost k: nat, ghost c: Chain, ghost reach: int)
      returns (added: bool, ghost next: nat, ghost d: Chain)
      requires Valid() && log != [] && k <= reach == keys.Reach(|log|) && ref + 1 + k == key
      requires Padded(bp, k, c)
      modifies bp`apCount, bp.ip
      ensures Valid() && Padded(bp, next, d)
      ensures added ==> next == k + 1 <= reach && (ref == 0 ==> next == reach)
      ensures !added ==> next == k && Full(log, k, reach, Room())
    {
      OlderFound(ref, k, c, reach);
      added, next, d := false, k, c;
      if ref in stored {
        var g := stored[ref];
        added := AppendWithin(bp, g, c);
        if added {
          next, d := k + 1, c + g;
        }
      }
    }

    /** What is stored under the next smaller key is the next older datagram, if there is one. */
    lemma OlderFound(ref: nat, k: nat, c: Chain, reach: int)
      requires Valid() && log != [] && k <= reach == keys.Reach(|log|) && ref + 1 + k == key
      requires k < |log| && c == Frame(log, k) && EachFits(log, k, Room())
      ensures ref !in stored ==> k == reach
      ensures ref in stored ==>
                var g := stored[ref];
                && k + 1 <= reach && k + 1 < |log| && (ref == 0 ==> k + 1 == reach)
                && ValidGroup(g) && |c| + |g| <= MAX_PACKETS && Frame(log, k + 1) == c + g
                && if Total(c) + Total(g) <= Room() then EachFits(log, k + 1, Room()) else Full(log, k, reach, Room())
    {
      CountDown(stored, log, keys, key, k);
      if ref in stored {
        FrameNext(log, k, stored[ref]);
        CountDown(stored, log, keys, key, k + 1);
      }
    }

    method AppendWithin(bp: BufferPacket, g: Chain, ghost c: Chain) returns (added: bool)
      requires bp.Valid() && Holds(bp.ip[..], c, false) && ValidGroup(g) && |c| + |g| <= MAX_PACKETS
      modifies bp`apCount, bp.ip
      ensures added <==> Total(c) + Total(g) <= Room()
      ensures Holds(bp.ip[..], if added then c + g else c, false)
    {
      var size := bp.FullSize(c);
      if size + Total(g) > Room() {
        return false;
      }
      AppendGroup(bp, g, c);
      added := true;
    }

    lemma StartDown() returns (reach: int)
      requires Valid() && log != []
      ensures 0 <= reach == keys.Reach(|log|) && (key == 0 ==> reach == 0)
    {
      reach := keys.Reach(|log|);
      CountDown(stored, log, keys, key, 0);
    }

    /** The loop: one after the other as many as fit and are found. */
    method AddAll(bp: BufferPacket, ghost g: Chain) returns (ghost k: nat, ghost c: Chain)
      requires Valid() && log != [] && Padded(bp, 0, g)
      modifies bp`apCount, bp.ip
      ensures k <= keys.Reach(|log|) && Padded(bp, k, c) && Full(log, k, keys.Reach(|log|), Room())
    {
      k, c := 0, g;
      var ref := key;
      ghost var reach := StartDown();
      var added := true;
      while ref >= 1 && added
        modifies bp`apCount, bp.ip
        invariant k <= reach && Padded(bp, k, c)
        invariant if added then ref + k == key && (ref == 0 ==> k == reach) else Full(log, k, reach, Room())
        decreases ref
      {
        ref := ref - 1;
        added, k, c := AddOlder(bp, ref, k, c, reach);
      }
    }

    /** The handler's padding; `bp` holds the new datagram.  `k` earlier ones are added. */
    method Pad(bp: BufferPacket, g: Chain) returns (ok: bool, ghost k: nat, ghost c: Chain)
      requires Valid() && ValidGroup(g) && bp.Valid() && Holds(bp.ip[..], g, false)
      modifies this, bp`apCount, bp.ip
      ensures ok <==> |old(log)| + 1 != keys.ExitAt()
      ensures ok ==> Valid() && log == old(log) + [g]
      ensures ok ==> k <= keys.Reach(|log|) && Padded(bp, k, c) && Full(log, k, keys.Reach(|log|), Room())
      // With the monitoring packet behind it the frame still fits in a cell, unless the new datagram alone
      // does not; and it ends early only because one more datagram would not fit.
      ensures ok && Total(g) + monitPktSize <= 498 ==> Total(c) + monitPktSize <= 498
      ensures ok && k < keys.Reach(|log|) ==>
                k + 1 < |log| && Total(Frame(log, k + 1)) + monitPktSize > 498
    {
      k, c := 0, g;
      ok := Store(g);
      if ok {
        k, c := AddAll(bp, g);
        FullExact(log, k, keys.Reach(|log|), Room());
      }
    }
  }

  /** As long as the counter has not wrapped, the datagrams found are the last ones kept. */
  lemma ReachFirstRound(keys: Keys, n: nat)
    requires keys.Valid() && 1 <= n <= keys.modulus - keys.first
    ensures keys.Reach(n) == Min(n, keys.kept) - 1
  {
  }

  /** Frames of two-packet datagrams never exceed the receiver's arrays of 64 entries. */
  lemma {:induction false} FewDatagrams(log: seq<Chain>, k: nat, room: int)
    requires k < |log| && room <= TOR_CELL_SIZE && EachFits(log, k, room)
    requires forall i | 0 <= i < |log| :: ValidGroup(log[i]) && |log[i]| == 2
    ensures k + 1 < MAX_LINKS
  {
    FrameBytes(log, k);
  }

  lemma {:induction false} FrameBytes(log: seq<Chain>, k: nat)
    requires k < |log| && forall i | 0 <= i < |log| :: ValidGroup(log[i]) && |log[i]| == 2
    ensures Total(Frame(log, k)) >= 2 * HEADER_SIZE * (k + 1)
  {
    var g := log[|log| - 1 - k];
    OffsetMonotone(g, 0, 2);
    OffsetEnd(g);
    if k > 0 {
      FrameBytes(log, k - 1);
      FrameSize(log, k);
    }
  }

  lemma GroupStep(c: Chain, g: Chain, i: nat)
    requires i < |g| && ValidGroup(g) && AllValid(c)
    ensures Total(c + g[..i]) + g[i].Size() <= Total(c) + Total(g)
    ensures Unlinked(g[i]) == g[i] && g[i].Valid()
  {
    TotalAppend(c, g[..i]);
    OffsetMonotone(g, i + 1, |g|);
    OffsetNext(g, i);
    OffsetEnd(g);
  }

  /** With its monitoring packet appended, a padded frame still fits in one cell whenever the newest
      datagram with the monitoring packet does. */
  lemma FrameFits(log: seq<Chain>, k: nat, monit: Packet)
    requires k < |log| && monit.Valid() && forall i | 0 <= i < |log| :: ValidGroup(log[i])
    requires EachFits(log, k, TOR_CELL_SIZE - monit.Size())
    requires Total(log[|log| - 1]) + monit.Size() <= TOR_CELL_SIZE
    ensures Total(Frame(log, k) + [monit]) <= TOR_CELL_SIZE
  {
    FrameSize(log, k);
    EncodeSnoc(Frame(log, k), monit, false);
  }

  /** Frame `k` names its datagrams in one contiguous descending run. */
  lemma {:induction false} FrameRun(log: seq<Chain>, k: nat, j: nat)
    requires k < |log| && j <= k && forall i | 0 <= i < |log| :: |log[i]| == 1
    ensures |Frame(log, k)| == k + 1 && Frame(log, k)[j] == log[|log| - 1 - j][0]
  {
    if k > 0 {
      if j < k {
        FrameRun(log, k - 1, j);
      } else {
        FrameRun(log, k - 1, 0);
      }
    }
  }
}
