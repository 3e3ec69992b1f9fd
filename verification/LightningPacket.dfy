/** The monitoring packet of `lightning` as bytes: written at the end of every frame and found there by
    the receiver (src/packet.h:60-87, src/algo_lightning.c:159-164, 226-243 and 420-433). */
module LightningPacket {
  import opened Basics
  import opened PacketChain
  import opened LightningMonitoring

  const ID_SIZE: nat := 8

  type int16 = x: int | -32768 <= x < 32768

  function Pow256(n: nat): (p: nat)
    ensures p > 0
  {
    if n == 0 then 1 else 256 * Pow256(n - 1)
  }

  /** The `n` low bytes of a number, lowest first. */
  function Le(x: nat, n: nat): (s: seq<byte>)
    ensures |s| == n
  {
    if n == 0 then [] else [x % 256] + Le(x / 256, n - 1)
  }

  function LeValue(s: seq<byte>): nat {
    if s == [] then 0 else s[0] + 256 * LeValue(s[1..])
  }

  lemma {:induction false} LeRoundTrip(x: nat, n: nat)
    requires x < Pow256(n)
    ensures LeValue(Le(x, n)) == x
  {
    if n > 0 {
      LeRoundTrip(x / 256, n - 1);
      assert Le(x, n)[1..] == Le(x / 256, n - 1);
    }
  }

  /** Byte `i` is the one of weight 256 to the `i`. */
  lemma {:induction false} LeAt(x: nat, n: nat, i: nat)
    requires i < n
    ensures Le(x, n)[i] == x / Pow256(i) % 256
  {
    if i > 0 {
      LeAt(x / 256, n - 1, i - 1);
      DivTwice(x, Pow256(i - 1));
    }
  }

  lemma DivTwice(x: nat, b: nat)
    requires b > 0
    ensures x / 256 / b == x / (256 * b)
  {
    var q := x / 256 / b;
    var r := x / 256 % b;
    assert x / 256 == q * b + r;
    assert x == q * (256 * b) + (256 * r + x % 256) && 256 * r + x % 256 < 256 * b;
    DivUnique(x, 256 * b, q, 256 * r + x % 256);
  }

  /** Two's complement. */
  function Int16Bytes(v: int16): (s: seq<byte>)
    ensures |s| == 2
  {
    Le(if v < 0 then v + 65536 else v, 2)
  }

  function Int16Value(lo: byte, hi: byte): int16 {
    if hi >= 128 then U16(lo, hi) - 65536 else U16(lo, hi)
  }

  function StatsBytes(stats: seq<int16>): (s: seq<byte>)
    ensures |s| == 2 * |stats|
  {
    if stats == [] then [] else Int16Bytes(stats[0]) + StatsBytes(stats[1..])
  }

  function StatsValue(s: seq<byte>): (stats: seq<int16>)
    requires |s| % 2 == 0
    ensures |stats| == |s| / 2
  {
    if s == [] then [] else [Int16Value(s[0], s[1])] + StatsValue(s[2..])
  }

  lemma Int16RoundTrip(v: int16)
    ensures Int16Value(Int16Bytes(v)[0], Int16Bytes(v)[1]) == v
  {
    var u := if v < 0 then v + 65536 else v;
    assert Le(u, 2) == [u % 256] + Le(u / 256, 1);
    assert Le(u / 256, 1) == [u / 256 % 256] + Le(u / 256 / 256, 0);
    assert u / 256 < 256;
  }

  lemma {:induction false} StatsRoundTrip(stats: seq<int16>)
    ensures StatsValue(StatsBytes(stats)) == stats
  {
    if stats != [] {
      Int16RoundTrip(stats[0]);
      StatsRoundTrip(stats[1..]);
      assert StatsBytes(stats)[2..] == StatsBytes(stats[1..]);
      assert StatsBytes(stats)[0] == Int16Bytes(stats[0])[0] && StatsBytes(stats)[1] == Int16Bytes(stats[0])[1];
    }
  }

  /** What fits in the fields of the packet, with both ends using the same parameters. */
  predicate Carriable(m: Message, sentPastLinks: nat, totalLinks: nat) {
    && m.id < Pow256(ID_SIZE)
    && |m.links| == sentPastLinks && (forall i | 0 <= i < |m.links| :: m.links[i] < 256)
    && |m.stats| == totalLinks && (forall i | 0 <= i < |m.stats| :: -32768 <= m.stats[i] < 32768)
  }

  /** `monit_pkt_size` */
  function MonitPktSize(sentPastLinks: nat, totalLinks: nat): nat {
    HEADER_SIZE + (ID_SIZE + 1) + sentPastLinks + 2 * totalLinks - 1
  }

  /** The packet that `send_message` appends. */
  function ToPacket(m: Message, sentPastLinks: nat, totalLinks: nat): (p: Packet)
    requires Carriable(m, sentPastLinks, totalLinks) && sentPastLinks <= MAX_LINKS && totalLinks <= MAX_LINKS
    ensures p.Valid() && p.Size() == MonitPktSize(sentPastLinks, totalLinks) <= 204
  {
    Packet(CMD_LINK_MONITORING_LIGHTNING, 0, Le(m.id, ID_SIZE) + m.links + StatsBytes(m.stats))
  }

  /** What `monitoring` reads out of such a packet. */
  function FromPacket(p: Packet, sentPastLinks: nat, totalLinks: nat): Message
    requires p.Size() == MonitPktSize(sentPastLinks, totalLinks)
  {
    var links := ID_SIZE + sentPastLinks;
    Message(LeValue(p.body[..ID_SIZE]), p.body[ID_SIZE..links], StatsValue(p.body[links..]))
  }

  lemma PacketRoundTrip(m: Message, sentPastLinks: nat, totalLinks: nat)
    requires Carriable(m, sentPastLinks, totalLinks) && sentPastLinks <= MAX_LINKS && totalLinks <= MAX_LINKS
    ensures FromPacket(ToPacket(m, sentPastLinks, totalLinks), sentPastLinks, totalLinks) == m
  {
    var b, l := ToPacket(m, sentPastLinks, totalLinks).body, ID_SIZE + sentPastLinks;
    assert b[..ID_SIZE] == Le(m.id, ID_SIZE) && b[ID_SIZE..l] == m.links && b[l..] == StatsBytes(m.stats);
    LeRoundTrip(m.id, ID_SIZE);
    StatsRoundTrip(m.stats);
  }

  /** The search at the start of `monitoring`; None is its exit. */
  method FindMonitoring(c: Chain) returns (at: Option<nat>)
    ensures at == None <==> forall i | 0 <= i < |c| :: c[i].cmd != CMD_LINK_MONITORING_LIGHTNING
    ensures at.Some? ==>
              && at.value < |c| && c[at.value].cmd == CMD_LINK_MONITORING_LIGHTNING
              && forall i | 0 <= i < at.value :: c[i].cmd != CMD_LINK_MONITORING_LIGHTNING
  {
    var i := 0;
    while i < |c| && c[i].cmd != CMD_LINK_MONITORING_LIGHTNING
      invariant i <= |c| && forall k | 0 <= k < i :: c[k].cmd != CMD_LINK_MONITORING_LIGHTNING
    {
      i := i + 1;
    }
    at := if i < |c| then Some(i) else None;
  }

  /** Sent behind any datagrams and read back out of the received bytes, the message is the same. */
  method Carry(frame: Chain, m: Message, sentPastLinks: nat, totalLinks: nat, rest: seq<byte>) returns (got: Message)
    requires Carriable(m, sentPastLinks, totalLinks) && sentPastLinks <= MAX_LINKS && totalLinks <= MAX_LINKS
    requires ValidChain(frame) && (forall i | 0 <= i < |frame| :: frame[i].cmd == CMD_UDP_ENCAPSULATED)
    requires ValidChain(frame + [ToPacket(m, sentPastLinks, totalLinks)])
    ensures got == m
  {
    var c := frame + [ToPacket(m, sentPastLinks, totalLinks)];
    ParseEncode(c, rest);
    var read := Parse(Encode(c) + rest).value;
    var at := FindMonitoring(read);
    assert c[|frame|].cmd == CMD_LINK_MONITORING_LIGHTNING;
    PacketRoundTrip(m, sentPastLinks, totalLinks);
    got := FromPacket(read[at.value], sentPastLinks, totalLinks);
  }
}
