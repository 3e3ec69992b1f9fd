/** The wire format of a buffer: packets laid end to end, each one announcing its own size
    and, in one flag bit, whether another packet follows it (src/packet.h, src/packet.c).

    `Encode` prints a chain; `Parse` is an independent one-shot reader that only follows size
    fields and flags.  Sizes are little-endian, as on the machines the program targets. */
module PacketChain {
  import opened Basics

  type byte = x: int | 0 <= x < 256

  const UDP_MTU: nat := 65535
  const HEADER_SIZE: nat := 4
  /** `ap_count` is an 8-bit counter, so a longer chain cannot be counted. */
  const MAX_PACKETS: nat := 255

  /** One packet.  Bit 0 of `flags` is the link bit; it belongs to the chain, not to the packet,
      and is therefore clear here. */
  datatype Packet = Packet(cmd: byte, flags: byte, body: seq<byte>) {
    function Size(): nat {
      HEADER_SIZE + |body|
    }

    predicate Valid() {
      cmd != 0 && flags % 2 == 0 && Size() <= UDP_MTU
    }
  }

  type Chain = seq<Packet>

  /** FLAG_READ_NEXT is bit 0. */
  predicate HasReadNext(flags: byte) {
    flags % 2 == 1
  }

  function SetReadNext(flags: byte): byte {
    flags - flags % 2 + 1
  }

  function ClearReadNext(flags: byte): byte {
    flags - flags % 2
  }

  /** The packet a buffer's bytes stand for, whatever its link bit says. */
  function Unlinked(raw: Packet): Packet {
    raw.(flags := ClearReadNext(raw.flags))
  }

  const CMD_UDP_ENCAPSULATED: byte := 1
  const CMD_LINK_MONITORING_THUNDER: byte := 2
  const CMD_UDP_METADATA_THUNDER: byte := 3
  const CMD_LINK_MONITORING_LIGHTNING: byte := 4

  /** The port of a datagram packet, or the id of a metadata packet. */
  function FirstField(p: Packet): uint16
    requires |p.body| >= 2
  {
    U16(p.body[0], p.body[1])
  }

  function U16(lo: byte, hi: byte): nat {
    lo + 256 * hi
  }

  function Zeros(n: nat): (z: seq<byte>)
    ensures |z| == n
    ensures forall i | 0 <= i < n :: z[i] == 0
  {
    seq(n, _ => 0)
  }

  function Total(c: Chain): nat {
    if c == [] then 0 else Total(c[..|c| - 1]) + c[|c| - 1].Size()
  }

  /** Where packet `i` of the chain starts. */
  function Offset(c: Chain, i: nat): nat
    requires i <= |c|
  {
    Total(c[..i])
  }

  predicate AllValid(c: Chain) {
    forall i | 0 <= i < |c| :: c[i].Valid()
  }

  predicate ValidChain(c: Chain) {
    AllValid(c) && Total(c) <= UDP_MTU && |c| <= MAX_PACKETS
  }

  predicate ValidChains(cs: seq<Chain>) {
    forall i | 0 <= i < |cs| :: ValidChain(cs[i])
  }

  function EncodePacket(p: Packet, more: bool): (s: seq<byte>)
    requires p.Valid()
    ensures |s| == p.Size()
  {
    [p.Size() % 256, p.Size() / 256, p.cmd, p.flags + if more then 1 else 0] + p.body
  }

  /** The bytes of a chain; when `open`, even the last packet says that another one follows. */
  function EncodeWith(c: Chain, open: bool): (s: seq<byte>)
    requires AllValid(c)
    ensures |s| == Total(c)
  {
    if c == [] then [] else EncodeWith(c[..|c| - 1], true) + EncodePacket(c[|c| - 1], open)
  }

  function Encode(c: Chain): seq<byte>
    requires AllValid(c)
  {
    EncodeWith(c, false)
  }

  /** A buffer's bytes: the chain, then zeros up to the end of the buffer. */
  predicate Holds(s: seq<byte>, c: Chain, open: bool) {
    |s| == UDP_MTU && ValidChain(c) && s == EncodeWith(c, open) + Zeros(UDP_MTU - Total(c))
  }

  /** One-shot reference reader of the packets of `s` from position `o` on; None when the
      packets do not fit in `s` or a packet has no command or an impossible size. */
  function ParseFrom(s: seq<byte>, o: nat): Option<Chain>
    decreases |s| - o
  {
    if o + HEADER_SIZE > |s| then None
    else
      var size := U16(s[o], s[o + 1]);
      if size < HEADER_SIZE || o + size > |s| || s[o + 2] == 0 then None
      else
        var p := Packet(s[o + 2], ClearReadNext(s[o + 3]), s[o + HEADER_SIZE..o + size]);
        if !HasReadNext(s[o + 3]) then Some([p])
        else match ParseFrom(s, o + size)
          case None => None
          case Some(tail) => Some([p] + tail)
  }

  /** A buffer whose first packet has no command is empty. */
  function Parse(s: seq<byte>): Option<Chain> {
    if |s| >= HEADER_SIZE && s[2] == 0 then Some([]) else ParseFrom(s, 0)
  }

  // -------------------------------------------------------------- sequences

  lemma TakeNext<T>(c: seq<T>, i: nat)
    requires i < |c|
    ensures c[..i + 1] == c[..i] + [c[i]]
  {
  }

  lemma DropNext<T>(c: seq<T>, i: nat)
    requires i < |c|
    ensures c[i..] == [c[i]] + c[i + 1..] && c[i..][1..] == c[i + 1..]
    ensures i + 1 == |c| ==> c[i..] == [c[i]]
  {
  }

  lemma TakeDrop<T>(c: seq<T>, i: nat)
    requires i <= |c|
    ensures c == c[..i] + c[i..]
  {
  }

  lemma TakeJoin(s: seq<byte>, a: nat, b: nat)
    requires a <= b <= |s|
    ensures s[..b] == s[..a] + s[a..b]
  {
  }

  lemma SliceAfter(e: seq<byte>, a: seq<byte>, p: seq<byte>)
    requires |a| + |p| <= |e| && e[..|a| + |p|] == a + p
    ensures e[|a|..|a| + |p|] == p
  {
    assert e[|a|..|a| + |p|] == e[..|a| + |p|][|a|..];
  }

  lemma SliceOfPrefix(e: seq<byte>, s: seq<byte>, from: nat, end: nat)
    requires e <= s && from <= end <= |e|
    ensures s[from..end] == e[from..end]
  {
  }

  lemma SliceJoin(s: seq<byte>, a: nat, b: nat, c: nat)
    requires a <= b <= c <= |s|
    ensures s[a..c] == s[a..b] + s[b..c]
  {
  }

  // ---------------------------------------------------------------- offsets

  lemma OffsetNext(c: Chain, i: nat)
    requires i < |c|
    ensures Offset(c, i + 1) == Offset(c, i) + c[i].Size()
  {
    assert c[..i + 1][..i] == c[..i];
  }

  lemma {:induction false} OffsetMonotone(c: Chain, i: nat, j: nat)
    requires i <= j <= |c|
    ensures Offset(c, i) + HEADER_SIZE * (j - i) <= Offset(c, j)
    decreases j - i
  {
    if i < j {
      OffsetNext(c, j - 1);
      OffsetMonotone(c, i, j - 1);
    }
  }

  lemma OffsetEnd(c: Chain)
    ensures Offset(c, |c|) == Total(c)
  {
    assert c[..|c|] == c;
  }

  lemma ValidPrefix(c: Chain, i: nat)
    requires ValidChain(c) && i <= |c|
    ensures ValidChain(c[..i])
    ensures Offset(c, i) <= Total(c)
  {
    OffsetMonotone(c, i, |c|);
    OffsetEnd(c);
  }

  /** The first `i` packets of a chain are encoded as a prefix of the whole, and that prefix
      is open exactly when packets remain. */
  lemma {:induction false} EncodePrefix(c: Chain, i: nat)
    requires ValidChain(c) && 0 < i <= |c|
    ensures Offset(c, i) <= Total(c)
    ensures Encode(c)[..Offset(c, i)] == EncodeWith(c[..i], i < |c|)
  {
    EncodePrefixWith(c, false, i);
  }

  lemma {:induction false} EncodePrefixWith(c: Chain, open: bool, i: nat)
    requires ValidChain(c) && 0 < i <= |c|
    ensures Offset(c, i) <= Total(c)
    ensures EncodeWith(c, open)[..Offset(c, i)] == EncodeWith(c[..i], i < |c| || open)
    decreases |c|
  {
    ValidPrefix(c, i);
    if i == |c| {
      assert c[..i] == c;
      OffsetEnd(c);
    } else {
      var d := c[..|c| - 1];
      ValidPrefix(c, |c| - 1);
      EncodePrefixWith(d, true, i);
      assert d[..i] == c[..i];
    }
  }

  lemma EncodeNext(c: Chain, i: nat, open: bool)
    requires AllValid(c) && i < |c|
    ensures EncodeWith(c[..i + 1], open) == EncodeWith(c[..i], true) + EncodePacket(c[i], open)
  {
    TakeNext(c, i);
    EncodeSnoc(c[..i], c[i], open);
  }

  /** Packet `i` occupies its own slice of the encoding. */
  lemma PacketSlice(c: Chain, open: bool, i: nat)
    requires ValidChain(c) && i < |c|
    ensures Offset(c, i) + c[i].Size() == Offset(c, i + 1) <= Total(c)
    ensures EncodeWith(c, open)[Offset(c, i)..Offset(c, i + 1)] == EncodePacket(c[i], i + 1 < |c| || open)
  {
    OffsetNext(c, i);
    EncodePrefixWith(c, open, i + 1);
    var more := i + 1 < |c| || open;
    EncodeNext(c, i, more);
    SliceAfter(EncodeWith(c, open), EncodeWith(c[..i], true), EncodePacket(c[i], more));
  }

  /** The header of packet `i`, read from any bytes that start with the chain's encoding. */
  lemma HeaderAt(s: seq<byte>, c: Chain, open: bool, i: nat)
    requires ValidChain(c) && i < |c|
    requires EncodeWith(c, open) <= s
    ensures Offset(c, i) + HEADER_SIZE <= Offset(c, i + 1) <= |s|
    ensures var o := Offset(c, i);
      && U16(s[o], s[o + 1]) == c[i].Size() && s[o + 2] == c[i].cmd
      && s[o + 3] == c[i].flags + (if i + 1 < |c| || open then 1 else 0)
      && Offset(c, i + 1) == o + c[i].Size()
      && s[o + HEADER_SIZE..o + c[i].Size()] == c[i].body
  {
    PacketSlice(c, open, i);
    var o := Offset(c, i);
    SliceOfPrefix(EncodeWith(c, open), s, o, o + c[i].Size());
    PacketBytes(s, o, c[i], i + 1 < |c| || open);
  }

  /** The fields of a packet's header in the bytes that encode it. */
  lemma PacketBytes(s: seq<byte>, o: nat, p: Packet, more: bool)
    requires p.Valid() && o + p.Size() <= |s| && s[o..o + p.Size()] == EncodePacket(p, more)
    ensures U16(s[o], s[o + 1]) == p.Size() && s[o + 2] == p.cmd
    ensures s[o + 3] == p.flags + (if more then 1 else 0)
    ensures s[o + HEADER_SIZE..o + p.Size()] == p.body
  {
    var t := s[o..o + p.Size()];
    assert s[o] == t[0] && s[o + 1] == t[1] && s[o + 2] == t[2] && s[o + 3] == t[3];
    assert s[o + HEADER_SIZE..o + p.Size()] == t[HEADER_SIZE..];
  }

  // ------------------------------------------------------------------ walking

  /** The size field of the packet header at `o`. */
  function SizeIn(s: seq<byte>, o: nat): nat
    requires o + HEADER_SIZE <= |s|
  {
    U16(s[o], s[o + 1])
  }

  /** Where the link of the packet at `o` leads, if it is a packet and has one. */
  function NextIn(s: seq<byte>, o: nat): Option<nat>
    requires o + HEADER_SIZE <= |s|
  {
    if s[o + 2] != 0 && HasReadNext(s[o + 3]) then Some(o + SizeIn(s, o)) else None
  }

  /** How many links a walk along the chain follows.  After an open chain, the walk ends on the
      zeros behind it. */
  function Links(c: Chain, open: bool): nat {
    if open || c == [] then |c| else |c| - 1
  }

  predicate Walkable(c: Chain, open: bool) {
    open || c == [] ==> Total(c) + HEADER_SIZE <= UDP_MTU
  }

  lemma ZerosAfter(s: seq<byte>, c: Chain, open: bool)
    requires Holds(s, c, open)
    ensures EncodeWith(c, open) <= s
    ensures forall k | Total(c) <= k < UDP_MTU :: s[k] == 0
  {
    var z := Zeros(UDP_MTU - Total(c));
    forall k | Total(c) <= k < UDP_MTU ensures s[k] == 0 {
      assert s[k] == z[k - Total(c)];
    }
  }

  /** The walk visits the packets in order and ends after `Links` steps. */
  lemma WalkAt(s: seq<byte>, c: Chain, open: bool, i: nat)
    requires Holds(s, c, open) && Walkable(c, open) && i <= Links(c, open)
    ensures Offset(c, i) + HEADER_SIZE <= |s|
    ensures NextIn(s, Offset(c, i)) == if i < Links(c, open) then Some(Offset(c, i + 1)) else None
    ensures SizeIn(s, Offset(c, i)) == if i < |c| then c[i].Size() else 0
    ensures s[Offset(c, i) + 2] != 0 <==> i < |c|
  {
    ZerosAfter(s, c, open);
    if i < |c| {
      WalkOnPacket(s, c, open, i);
    } else {
      OffsetEnd(c);
    }
  }

  lemma WalkOnPacket(s: seq<byte>, c: Chain, open: bool, i: nat)
    requires ValidChain(c) && EncodeWith(c, open) <= s && i < |c|
    ensures Offset(c, i) + HEADER_SIZE <= Offset(c, i + 1) <= |s|
    ensures SizeIn(s, Offset(c, i)) == c[i].Size() == Offset(c, i + 1) - Offset(c, i)
    ensures s[Offset(c, i) + 2] != 0
    ensures NextIn(s, Offset(c, i)) == if i + 1 < |c| || open then Some(Offset(c, i + 1)) else None
  {
    HeaderAt(s, c, open, i);
    assert c[i].Valid();
    LinkBit(c[i].flags, i + 1 < |c| || open);
  }

  lemma LinkBit(flags: byte, more: bool)
    requires flags % 2 == 0
    ensures flags + 1 < 256 && HasReadNext(flags + if more then 1 else 0) == more
  {
  }

  /** The walk's last stop plus the size found there is the end of the chain, also when empty. */
  lemma WalkEnd(s: seq<byte>, c: Chain)
    requires Holds(s, c, false)
    ensures Walkable(c, false)
    ensures var o := Offset(c, Links(c, false)); o + HEADER_SIZE <= |s| && o + SizeIn(s, o) == Total(c)
  {
    WalkAt(s, c, false, Links(c, false));
    OffsetEnd(c);
    if c != [] {
      OffsetNext(c, |c| - 1);
    }
  }

  /** Setting the link bit of the last packet turns the closed chain into an open one. */
  lemma LinkLast(s: seq<byte>, c: Chain)
    requires Holds(s, c, false) && c != []
    ensures Offset(c, |c| - 1) + HEADER_SIZE <= |s|
    ensures var o := Offset(c, |c| - 1) + 3; Holds(s[o := SetReadNext(s[o])], c, true)
  {
    var p := c[|c| - 1];
    ZerosAfter(s, c, false);
    HeaderAt(s, c, false, |c| - 1);
    OffsetEnd(c);
    var o := Offset(c, |c| - 1) + 3;
    var pre := EncodeWith(c[..|c| - 1], true);
    var t := s[o := SetReadNext(s[o])];
    assert EncodePacket(p, true) == EncodePacket(p, false)[3 := p.flags + 1];
    assert EncodeWith(c, true) == EncodeWith(c, false)[o := p.flags + 1];
    assert t[..Total(c)] == EncodeWith(c, true);
    assert t[Total(c)..] == s[Total(c)..] == Zeros(UDP_MTU - Total(c));
  }

  /** Overwriting zeros after an open chain with a packet extends the chain. */
  lemma HoldsSnoc(s: seq<byte>, t: seq<byte>, c: Chain, p: Packet)
    requires Holds(s, c, c != []) && p.Valid()
    requires |c| < MAX_PACKETS && Total(c) + p.Size() <= UDP_MTU
    requires t == s[..Total(c)] + EncodePacket(p, false) + s[Total(c) + p.Size()..]
    ensures Holds(t, c + [p], false)
  {
    EncodeSnoc(c, p, false);
    SpliceZeros(EncodeWith(c, c != []), UDP_MTU - Total(c), EncodePacket(p, false));
  }

  lemma SpliceZeros(e: seq<byte>, n: nat, p: seq<byte>)
    requires |p| <= n
    ensures var s := e + Zeros(n);
      s[..|e|] + p + s[|e| + |p|..] == (e + p) + Zeros(n - |p|)
  {
  }

  lemma SliceHeld(s: seq<byte>, c: Chain, from: nat, to: nat)
    requires Holds(s, c, false) && from <= to <= Total(c)
    ensures s[from..to] == Encode(c)[from..to]
  {
    ZerosAfter(s, c, false);
  }

  // ---------------------------------------------------------------- reading

  /** The first `n` bytes of the chain have arrived; the rest of the buffer is still zero. */
  predicate Arrived(s: seq<byte>, c: Chain, n: nat) {
    |s| == UDP_MTU && ValidChain(c) && n <= Total(c) && s == Encode(c)[..n] + Zeros(UDP_MTU - n)
  }

  /** A reader between two calls: `k` packets are complete, and packet `k` is not. */
  predicate InFlight(s: seq<byte>, c: Chain, n: nat, k: nat) {
    Arrived(s, c, n) && k < |c| && Offset(c, k) <= n < Offset(c, k + 1)
  }

  lemma EmptyInFlight(c: Chain)
    requires ValidChain(c) && c != []
    ensures InFlight(Zeros(UDP_MTU), c, 0, 0)
    ensures Holds(Zeros(UDP_MTU), [], false)
  {
    OffsetNext(c, 0);
    assert Encode(c)[..0] == [];
  }

  lemma InFlightPart(s: seq<byte>, c: Chain, n: nat, k: nat)
    requires InFlight(s, c, n, k)
    ensures n < Total(c)
  {
    ValidPrefix(c, k + 1);
  }

  lemma ArrivedBytes(s: seq<byte>, c: Chain, n: nat)
    requires Arrived(s, c, n)
    ensures s[..n] == Encode(c)[..n]
    ensures forall i | 0 <= i < n :: s[i] == Encode(c)[i]
  {
    assert forall i | 0 <= i < n :: s[i] == Encode(c)[..n][i];
  }

  lemma ArrivedMore(s: seq<byte>, t: seq<byte>, c: Chain, n: nat, m: nat)
    requires Arrived(s, c, n) && n <= m <= Total(c)
    requires t == s[..n] + Encode(c)[n..m] + s[m..]
    ensures Arrived(t, c, m)
  {
    ArrivedBytes(s, c, n);
    assert s[..n] + Encode(c)[n..m] == Encode(c)[..m];
    assert s[m..] == Zeros(UDP_MTU - m);
  }

  /** Once the two bytes of its size are there, the current packet's size can be trusted. */
  lemma ArrivedSize(s: seq<byte>, c: Chain, n: nat, k: nat)
    requires Arrived(s, c, n) && k < |c| && Offset(c, k) + 2 <= n
    ensures Offset(c, k) + HEADER_SIZE <= Offset(c, k + 1) <= |s|
    ensures SizeIn(s, Offset(c, k)) == c[k].Size() == Offset(c, k + 1) - Offset(c, k)
  {
    ArrivedBytes(s, c, n);
    HeaderAt(Encode(c), c, false, k);
  }

  /** The links of complete packets lead on, except the last one's. */
  lemma ArrivedLink(s: seq<byte>, c: Chain, n: nat, k: nat)
    requires Arrived(s, c, n) && k < |c| && Offset(c, k + 1) <= n
    ensures Offset(c, k) + HEADER_SIZE <= Offset(c, k + 1) <= |s|
    ensures SizeIn(s, Offset(c, k)) == c[k].Size() == Offset(c, k + 1) - Offset(c, k)
    ensures NextIn(s, Offset(c, k)) == if k + 1 < |c| then Some(Offset(c, k + 1)) else None
  {
    ArrivedBytes(s, c, n);
    WalkOnPacket(Encode(c), c, false, k);
  }

  /** When packets 0 to k and nothing more has arrived, the buffer holds those packets, and the
      last one announces a successor exactly while packets are missing. */
  lemma ArrivedHolds(s: seq<byte>, c: Chain, k: nat)
    requires k < |c| && Arrived(s, c, Offset(c, k + 1))
    ensures Holds(s, c[..k + 1], k + 1 < |c|)
  {
    var d := c[..k + 1];
    EncodePrefix(c, k + 1);
    ValidPrefix(c, k + 1);
    assert ValidChain(d) && Total(d) == Offset(c, k + 1);
  }

  /** So the links announce one packet too many exactly while packets are missing. */
  lemma ArrivedWhole(s: seq<byte>, c: Chain, n: nat, k: nat)
    requires k < |c| && Arrived(s, c, n) && n == Offset(c, k + 1)
    ensures Holds(s, c[..k + 1], k + 1 < |c|) && Walkable(c[..k + 1], k + 1 < |c|)
    ensures Links(c[..k + 1], k + 1 < |c|) == if k + 1 < |c| then k + 1 else k
    ensures k + 1 == |c| ==> c[..k + 1] == c && n == Total(c)
    ensures k + 1 < |c| ==> InFlight(s, c, n, k + 1)
  {
    ArrivedHolds(s, c, k);
    if k + 1 < |c| {
      OffsetMonotone(c, k + 1, |c|);
      OffsetEnd(c);
      OffsetNext(c, k + 1);
    } else {
      assert c[..k + 1] == c;
    }
  }

  /** `w` is everything received or still to come since the chain began; it and the chain's
      encoding agree as far as both go. */
  predicate Carries(w: seq<byte>, c: Chain)
    requires AllValid(c)
  {
    w <= Encode(c) || Encode(c) <= w
  }

  /** `n` bytes of the chain sit in the buffer, and the socket continues where they end. */
  predicate Synced(s: seq<byte>, c: Chain, n: nat, incoming: seq<byte>, w: seq<byte>) {
    Arrived(s, c, n) && Carries(w, c) && w == Encode(c)[..n] + incoming
  }

  /** Moving `m` bytes from the socket to the buffer keeps them in step. */
  lemma SyncedMore(s: seq<byte>, t: seq<byte>, c: Chain, n: nat, m: nat, incoming: seq<byte>, w: seq<byte>)
    requires Synced(s, c, n, incoming, w) && n + m <= Total(c) && m <= |incoming|
    requires t == s[..n] + incoming[..m] + s[n + m..]
    ensures Synced(t, c, n + m, incoming[m..], w)
  {
    var e := Encode(c);
    assert w[..n + m] == e[..n + m];
    assert incoming[..m] == w[..n + m][n..] == e[n..n + m];
    ArrivedMore(s, t, c, n, n + m);
    assert w == w[..n + m] + incoming[m..];
  }

  // ------------------------------------------------------------ round trips

  /** Reading back from packet `i` on gives the packets from `i` on. */
  lemma {:induction false} ParseFromEncode(s: seq<byte>, c: Chain, i: nat)
    requires ValidChain(c) && i < |c|
    requires Encode(c) <= s
    ensures ParseFrom(s, Offset(c, i)) == Some(c[i..])
    decreases |c| - i
  {
    ParseStep(s, c, i);
    DropNext(c, i);
    if i + 1 < |c| {
      ParseFromEncode(s, c, i + 1);
    }
  }

  lemma ParseStep(s: seq<byte>, c: Chain, i: nat)
    requires ValidChain(c) && i < |c| && Encode(c) <= s
    ensures i + 1 == |c| ==> ParseFrom(s, Offset(c, i)) == Some([c[i]])
    ensures i + 1 < |c| && ParseFrom(s, Offset(c, i + 1)).Some? ==>
              ParseFrom(s, Offset(c, i)) == Some([c[i]] + ParseFrom(s, Offset(c, i + 1)).value)
  {
    HeaderAt(s, c, false, i);
    var o := Offset(c, i);
    assert Packet(s[o + 2], ClearReadNext(s[o + 3]), s[o + HEADER_SIZE..o + c[i].Size()]) == c[i];
  }

  /** Printing then reading is the identity, whatever follows the chain in the buffer. */
  lemma ParseEncode(c: Chain, rest: seq<byte>)
    requires ValidChain(c) && c != []
    ensures Parse(Encode(c) + rest) == Some(c)
  {
    HeaderAt(Encode(c) + rest, c, false, 0);
    ParseFromEncode(Encode(c) + rest, c, 0);
    assert c[0..] == c;
  }

  /** One packet as the reader sees it prints back to the bytes it was read from. */
  lemma EncodeReadPacket(s: seq<byte>, o: nat, size: nat)
    requires HEADER_SIZE <= size <= UDP_MTU && o + size <= |s|
    requires U16(s[o], s[o + 1]) == size && s[o + 2] != 0
    ensures var p := Packet(s[o + 2], ClearReadNext(s[o + 3]), s[o + HEADER_SIZE..o + size]);
      p.Valid() && p.Size() == size && s[o..o + size] == EncodePacket(p, HasReadNext(s[o + 3]))
  {
    var p := Packet(s[o + 2], ClearReadNext(s[o + 3]), s[o + HEADER_SIZE..o + size]);
    assert s[o..o + size] == s[o..o + HEADER_SIZE] + p.body;
  }

  lemma SingletonChain(p: Packet, open: bool)
    requires p.Valid()
    ensures Total([p]) == p.Size() && EncodeWith([p], open) == EncodePacket(p, open)
  {
    assert [p][..0] == [];
  }

  /** The other direction: what the reader accepts is exactly what the printer prints. */
  lemma {:induction false} EncodeParseFrom(s: seq<byte>, o: nat)
    requires o <= |s| <= UDP_MTU
    requires ParseFrom(s, o).Some?
    ensures var c := ParseFrom(s, o).value;
      c != [] && AllValid(c) && o + Total(c) <= |s| && Encode(c) == s[o..o + Total(c)]
    decreases |s| - o
  {
    var size := U16(s[o], s[o + 1]);
    EncodeReadPacket(s, o, size);
    var p := Packet(s[o + 2], ClearReadNext(s[o + 3]), s[o + HEADER_SIZE..o + size]);
    if !HasReadNext(s[o + 3]) {
      SingletonChain(p, false);
    } else {
      EncodeParseFrom(s, o + size);
      EncodeJoin(s, o, o + size, p, ParseFrom(s, o + size).value);
    }
  }

  lemma EncodeJoin(s: seq<byte>, o: nat, mid: nat, p: Packet, tail: Chain)
    requires p.Valid() && tail != [] && AllValid(tail) && mid == o + p.Size() && mid + Total(tail) <= |s|
    requires EncodePacket(p, true) == s[o..mid] && Encode(tail) == s[mid..mid + Total(tail)]
    ensures AllValid([p] + tail) && Total([p] + tail) == p.Size() + Total(tail)
    ensures Encode([p] + tail) == s[o..mid + Total(tail)]
  {
    EncodeCons(p, tail, false);
    SliceJoin(s, o, mid, mid + Total(tail));
  }

  lemma EncodeSnoc(c: Chain, q: Packet, open: bool)
    requires AllValid(c) && q.Valid()
    ensures AllValid(c + [q]) && Total(c + [q]) == Total(c) + q.Size()
    ensures EncodeWith(c + [q], open) == EncodeWith(c, true) + EncodePacket(q, open)
  {
    assert (c + [q])[..|c|] == c;
  }

  lemma {:induction false} EncodeCons(p: Packet, tail: Chain, open: bool)
    requires p.Valid() && tail != [] && AllValid(tail)
    ensures AllValid([p] + tail) && Total([p] + tail) == p.Size() + Total(tail)
    ensures EncodeWith([p] + tail, open) == EncodePacket(p, true) + EncodeWith(tail, open)
    decreases |tail|
  {
    var t, q := tail[..|tail| - 1], tail[|tail| - 1];
    assert tail == t + [q] && [p] + tail == ([p] + t) + [q];
    EncodeSnoc(t, q, open);
    if t == [] {
      assert [p] + t == [p];
      SingletonChain(p, true);
    } else {
      EncodeCons(p, t, true);
    }
    EncodeSnoc([p] + t, q, open);
    Assoc(EncodePacket(p, true), EncodeWith(t, true), EncodePacket(q, open));
  }

  /** The reader finds chain `c` exactly when the bytes start with `c` as the printer prints it. */
  lemma ParseExact(s: seq<byte>, c: Chain)
    requires |s| <= UDP_MTU && c != [] && |c| <= MAX_PACKETS
    ensures Parse(s) == Some(c) <==> AllValid(c) && Encode(c) <= s
  {
    if Parse(s) == Some(c) {
      EncodeParseFrom(s, 0);
    }
    if AllValid(c) && Encode(c) <= s {
      ParseEncode(c, s[Total(c)..]);
      assert s == Encode(c) + s[Total(c)..];
    }
  }

  /** A buffer that holds a chain holds no other one. */
  lemma HoldsParse(s: seq<byte>, c: Chain)
    requires Holds(s, c, false)
    ensures Parse(s) == Some(c)
  {
    if c == [] {
      assert s[2] == 0;
    } else {
      ParseEncode(c, Zeros(UDP_MTU - Total(c)));
    }
  }

  // ------------------------------------------------------------------ streams

  /** Several chains written one after the other on a connection. */
  function Stream(cs: seq<Chain>): seq<byte>
    requires ValidChains(cs)
  {
    if cs == [] then [] else Encode(cs[0]) + Stream(cs[1..])
  }

  lemma {:induction false} StreamAppend(a: seq<Chain>, b: seq<Chain>)
    requires ValidChains(a)
    requires ValidChains(b)
    ensures Stream(a + b) == Stream(a) + Stream(b)
  {
    if a == [] {
      assert a + b == b;
    } else {
      assert (a + b)[1..] == a[1..] + b;
      StreamAppend(a[1..], b);
      Assoc(Encode(a[0]), Stream(a[1..]), Stream(b));
    }
  }

  /** The stream from chain `k` on starts with chain `k`. */
  lemma StreamAt(cs: seq<Chain>, k: nat)
    requires k < |cs| && ValidChains(cs)
    ensures Stream(cs[k..]) == Encode(cs[k]) + Stream(cs[k + 1..])
    ensures Stream(cs[..k + 1]) == Stream(cs[..k]) + Encode(cs[k])
    ensures Stream(cs) == Stream(cs[..k]) + Stream(cs[k..])
  {
    DropNext(cs, k);
    TakeNext(cs, k);
    TakeDrop(cs, k);
    StreamSnoc(cs[..k], cs[k]);
    StreamAppend(cs[..k], cs[k..]);
  }

  lemma StreamSnoc(a: seq<Chain>, c: Chain)
    requires ValidChains(a) && ValidChain(c)
    ensures Stream(a + [c]) == Stream(a) + Encode(c)
  {
    StreamAppend(a, [c]);
    assert [c][1..] == [];
  }
}
