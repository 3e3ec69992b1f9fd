/** The datagram side of a node: a buffer read from and written to a UDP socket (src/packet.c:134-215 and
    src/proxy.c:143-174). */
module Datagrams {
  import opened Basics
  import opened PacketChain
  import opened BufferPackets
  import opened BufferPools
  import opened Proxy

  /** In front of a payload: the packet's header and the port. */
  const UDP_HEADER: nat := 6

  /** A datagram socket; an offer of fewer bytes than the datagram has is an error of the call. */
  class UdpSocket {
    var incoming: seq<seq<byte>>
    var offers: seq<Offer>
    var sent: seq<seq<byte>>

    constructor (incoming: seq<seq<byte>>, offers: seq<Offer>)
      ensures this.incoming == incoming && this.offers == offers && sent == []
    {
      this.incoming, this.offers, sent := incoming, offers, [];
    }
  }

  /** Every datagram packet has its port. */
  predicate Ported(c: Chain) {
    forall i | 0 <= i < |c| && c[i].cmd == CMD_UDP_ENCAPSULATED :: |c[i].body| >= 2
  }

  /** The payloads of a chain from packet `i` on. */
  function Payloads(c: Chain, i: nat): seq<seq<byte>>
    requires Ported(c) && i <= |c|
    decreases |c| - i
  {
    if i == |c| then []
    else (if c[i].cmd == CMD_UDP_ENCAPSULATED then [c[i].body[2..]] else []) + Payloads(c, i + 1)
  }

  function ByteCount(ds: seq<seq<byte>>): nat {
    if ds == [] then 0 else |ds[0]| + ByteCount(ds[1..])
  }

  // ---------------------------------------------------------------- writing

  /** How the writing of some payloads goes: what is sent, the offers left, and the result. */
  datatype Sending = Sending(sent: seq<seq<byte>>, left: seq<Offer>, state: FdState)

  /** The answer to one `sendto`. */
  function SendState(offers: seq<Offer>, d: seq<byte>): FdState {
    match Answer(offers, |d|)
    case WouldBlock => TryAgain
    case Failed => Error
    case Moved(n) => if n == |d| then Ready else Error
  }

  /** One `sendto` after the other, up to the first that does not take its datagram. */
  function SendEach(ds: seq<seq<byte>>, offers: seq<Offer>): (r: Sending)
    ensures r.sent <= ds && (r.state == Ready <==> r.sent == ds)
    decreases |ds|
  {
    if ds == [] then Sending([], offers, Ready)
    else
      var st := SendState(offers, ds[0]);
      if st != Ready then Sending([], Rest(offers), st)
      else
        var s := SendEach(ds[1..], Rest(offers));
        s.(sent := [ds[0]] + s.sent)
  }

  /** All of them go out exactly if there is an offer for each that takes it whole. */
  predicate TakesAll(ds: seq<seq<byte>>, offers: seq<Offer>) {
    |ds| <= |offers| && forall i | 0 <= i < |ds| :: offers[i].Bytes? && |ds[i]| <= offers[i].limit
  }

  lemma {:induction false} SendsAll(ds: seq<seq<byte>>, offers: seq<Offer>)
    ensures SendEach(ds, offers).state == Ready <==> TakesAll(ds, offers)
    decreases |ds|
  {
    if ds != [] {
      SendsAll(ds[1..], Rest(offers));
      if SendState(offers, ds[0]) == Ready {
        assert TakesAll(ds, offers) <== TakesAll(ds[1..], Rest(offers)) by {
          if TakesAll(ds[1..], Rest(offers)) {
            forall i | 0 <= i < |ds| ensures offers[i].Bytes? && |ds[i]| <= offers[i].limit {
              assert i > 0 ==> offers[i] == Rest(offers)[i - 1] && ds[i] == ds[1..][i - 1];
            }
          }
        }
        assert TakesAll(ds, offers) ==> TakesAll(ds[1..], Rest(offers));
      }
    }
  }

  /** The writer sends every datagram packet of the buffer's chain, in order.  It counts the bytes of the
      payloads sent in `awrite`. */
  method WritePacketToUdp(bp: BufferPacket, sock: UdpSocket, ghost c: Chain) returns (r: FdState)
    requires bp.Valid() && Holds(bp.ip[..], c, false) && Ported(c) && bp.awrite == 0
    modifies bp`mode, bp`apCount, bp`aread, bp`awrite, sock`sent, sock`offers
    ensures old(bp.mode) == Reading ==>
              r == Error && bp.mode == Reading && sock.sent == old(sock.sent) && sock.offers == old(sock.offers)
    ensures old(bp.mode) == Writing ==>
              && Went(old(sock.sent), old(sock.offers), sock.sent, sock.offers, c, r)
              && bp.awrite == Count(c, old(sock.offers))
    ensures if r == Ready then bp.mode == Reading && bp.apCount == 0 && bp.aread == 0 else bp.mode == old(bp.mode)
  {
    if bp.mode != Writing {
      return Error;
    }
    r := SendPackets(bp, sock, c);
    if r == Ready {
      bp.mode, bp.aread, bp.apCount := Reading, 0, 0;
    }
  }

  /** What the write does to the socket. */
  predicate Went(before: seq<seq<byte>>, offers: seq<Offer>, now: seq<seq<byte>>, left: seq<Offer>, c: Chain,
                 r: FdState)
    requires Ported(c)
  {
    var s := SendEach(Payloads(c, 0), offers);
    r == s.state && now == before + s.sent && left == s.left
  }

  /** And how many bytes it counts. */
  function Count(c: Chain, offers: seq<Offer>): nat
    requires Ported(c)
  {
    ByteCount(SendEach(Payloads(c, 0), offers).sent)
  }

  /** Its loop. */
  method SendPackets(bp: BufferPacket, sock: UdpSocket, ghost c: Chain) returns (r: FdState)
    requires bp.Valid() && Holds(bp.ip[..], c, false) && Ported(c) && bp.awrite == 0
    modifies bp`awrite, sock`sent, sock`offers
    ensures Went(old(sock.sent), old(sock.offers), sock.sent, sock.offers, c, r)
    ensures bp.awrite == Count(c, old(sock.offers))
  {
    ghost var whole, before := SendEach(Payloads(c, 0), sock.offers), sock.sent;
    WalkEnd(bp.ip[..], c);
    var o, more := 0, true;
    ghost var i, out := 0, [];
    r := Ready;
    while more && r == Ready
      modifies bp`awrite, sock`sent, sock`offers
      invariant Walking(c, i, o, more) && Written(before, sock.sent, bp.awrite, out)
      invariant Decided(whole, out, c, i, sock.offers, r)
      decreases more, |c| - i, r == Ready
    {
      r, more, o, i, out := SendNext(bp, sock, o, c, i, whole, before, out);
    }
    AllDecided(whole, out, c, i, sock.offers, r);
  }

  lemma AllDecided(whole: Sending, out: seq<seq<byte>>, c: Chain, i: nat, offers: seq<Offer>, r: FdState)
    requires Ported(c) && i <= |c| && Decided(whole, out, c, i, offers, r) && (r == Ready ==> i == |c|)
    ensures whole == Sending(out, offers, r)
  {
    assert out + [] == out;
  }

  /** The walk has come to packet `i`, or to its end. */
  predicate Walking(c: Chain, i: nat, o: nat, more: bool) {
    i <= |c| && if more then i <= Links(c, false) && o == Offset(c, i) else i == |c|
  }

  /** After `out` has gone out, the rest decides. */
  predicate Continues(whole: Sending, out: seq<seq<byte>>, ds: seq<seq<byte>>, offers: seq<Offer>) {
    var s := SendEach(ds, offers);
    whole == Sending(out + s.sent, s.left, s.state)
  }

  /** After `out` has gone out, either the rest decides, or the result is there. */
  predicate Decided(whole: Sending, out: seq<seq<byte>>, c: Chain, i: nat, offers: seq<Offer>, r: FdState)
    requires Ported(c) && i <= |c|
  {
    if r == Ready then Continues(whole, out, Payloads(c, i), offers) else whole == Sending(out, offers, r)
  }

  method SendNext(bp: BufferPacket, sock: UdpSocket, o: nat, ghost c: Chain, ghost i: nat, ghost whole: Sending,
                  ghost before: seq<seq<byte>>, ghost out: seq<seq<byte>>)
    returns (r: FdState, more: bool, next: nat, ghost j: nat, ghost out': seq<seq<byte>>)
    requires bp.Valid() && Holds(bp.ip[..], c, false) && Walkable(c, false) && Ported(c) && Walking(c, i, o, true)
    requires Written(before, sock.sent, bp.awrite, out) && Decided(whole, out, c, i, sock.offers, Ready)
    modifies bp`awrite, sock`sent, sock`offers
    ensures Walking(c, j, next, more) && Written(before, sock.sent, bp.awrite, out')
    ensures Decided(whole, out', c, j, sock.offers, r)
    ensures if r == Ready then more ==> j > i else more && j == i
  {
    ghost var left, now, count := sock.offers, sock.sent, bp.awrite;
    WalkAt(bp.ip[..], c, false, i);
    r := SendAp(bp, sock, o, c, i);
    out' := Sent(whole, before, now, count, out, c, i, left, r);
    more, next, j := true, o, i;
    if r == Ready {
      var n := bp.ApNext(o);
      more, next := n.Some?, if n.Some? then n.value else o;
      j := if i < |c| then i + 1 else i;
    }
  }

  predicate Written(before: seq<seq<byte>>, now: seq<seq<byte>>, count: nat, out: seq<seq<byte>>) {
    now == before + out && count == ByteCount(out)
  }

  /** What has gone out after that packet. */
  lemma Sent(whole: Sending, before: seq<seq<byte>>, now: seq<seq<byte>>, count: nat, out: seq<seq<byte>>,
             c: Chain, i: nat, left: seq<Offer>, r: FdState)
    returns (more: seq<seq<byte>>)
    requires Ported(c) && i <= |c| && Continues(whole, out, Payloads(c, i), left) && Written(before, now, count, out)
    requires if i < |c| && c[i].cmd == CMD_UDP_ENCAPSULATED then r == SendState(left, c[i].body[2..]) else r == Ready
    ensures if i < |c| && c[i].cmd == CMD_UDP_ENCAPSULATED then
              var d := c[i].body[2..];
              && more == (if r == Ready then out + [d] else out)
              && (if r == Ready then Written(before, now + [d], count + |d|, more)
                  else Written(before, now, count, more))
              && (if r == Ready then Continues(whole, more, Payloads(c, i + 1), Rest(left))
                  else whole == Sending(more, Rest(left), r))
            else more == out && Continues(whole, out, Payloads(c, if i < |c| then i + 1 else i), left)
  {
    more := out;
    if i < |c| {
      Continued(whole, out, c, i, left);
      if c[i].cmd == CMD_UDP_ENCAPSULATED && r == Ready {
        var d := c[i].body[2..];
        BytesMore(out, d);
        Assoc(before, out, [d]);
        more := out + [d];
      }
    }
  }

  lemma Continued(whole: Sending, out: seq<seq<byte>>, c: Chain, i: nat, offers: seq<Offer>)
    requires Ported(c) && i < |c| && Continues(whole, out, Payloads(c, i), offers)
    ensures if c[i].cmd != CMD_UDP_ENCAPSULATED then Continues(whole, out, Payloads(c, i + 1), offers)
            else
              var d := c[i].body[2..];
              var st := SendState(offers, d);
              if st == Ready then Continues(whole, out + [d], Payloads(c, i + 1), Rest(offers))
              else whole == Sending(out, Rest(offers), st)
  {
    if c[i].cmd != CMD_UDP_ENCAPSULATED {
      assert Payloads(c, i) == Payloads(c, i + 1);
    } else {
      var d := c[i].body[2..];
      assert Payloads(c, i)[1..] == Payloads(c, i + 1);
      Assoc(out, [d], SendEach(Payloads(c, i + 1), Rest(offers)).sent);
      assert out + [] == out;
    }
  }

  lemma {:induction false} BytesMore(ds: seq<seq<byte>>, d: seq<byte>)
    ensures ByteCount(ds + [d]) == ByteCount(ds) + |d|
  {
    if ds == [] {
      assert [d][1..] == [];
    } else {
      assert (ds + [d])[1..] == ds[1..] + [d];
      BytesMore(ds[1..], d);
    }
  }

  /** One turn of the loop: the packet at `o`, if it is a datagram.  An empty buffer has none. */
  method SendAp(bp: BufferPacket, sock: UdpSocket, o: nat, ghost c: Chain, ghost i: nat) returns (r: FdState)
    requires bp.Valid() && Holds(bp.ip[..], c, false) && Ported(c) && Walkable(c, false)
    requires i <= Links(c, false) && o == Offset(c, i)
    modifies bp`awrite, sock`sent, sock`offers
    ensures if i < |c| && c[i].cmd == CMD_UDP_ENCAPSULATED then
              var d := c[i].body[2..];
              && r == SendState(old(sock.offers), d) && sock.offers == Rest(old(sock.offers))
              && sock.sent == old(sock.sent) + (if r == Ready then [d] else [])
              && bp.awrite == old(bp.awrite) + (if r == Ready then |d| else 0)
            else
              r == Ready && sock.offers == old(sock.offers) && sock.sent == old(sock.sent)
              && bp.awrite == old(bp.awrite)
  {
    DatagramAt(bp.ip[..], c, i);
    r := Ready;
    if bp.ip[o + 2] == CMD_UDP_ENCAPSULATED {
      var d := bp.ip[o + UDP_HEADER..o + bp.SizeAt(o)];
      assert d == bp.ip[..][o + UDP_HEADER..o + bp.SizeAt(o)];
      r := SendState(sock.offers, d);
      sock.offers := Rest(sock.offers);
      if r == Ready {
        sock.sent := sock.sent + [d];
        bp.awrite := bp.awrite + |d|;
      }
    } else {
      assert sock.sent + [] == sock.sent;
    }
  }

  lemma DatagramAt(s: seq<byte>, c: Chain, i: nat)
    requires Holds(s, c, false) && Ported(c) && Walkable(c, false) && i <= Links(c, false)
    ensures Offset(c, i) + HEADER_SIZE <= |s|
    ensures s[Offset(c, i) + 2] == CMD_UDP_ENCAPSULATED <==> i < |c| && c[i].cmd == CMD_UDP_ENCAPSULATED
    ensures i < |c| && c[i].cmd == CMD_UDP_ENCAPSULATED ==>
              var o := Offset(c, i);
              && UDP_HEADER <= U16(s[o], s[o + 1]) && o + U16(s[o], s[o + 1]) <= |s|
              && s[o + UDP_HEADER..o + U16(s[o], s[o + 1])] == c[i].body[2..]
  {
    WalkAt(s, c, false, i);
    ZerosAfter(s, c, false);
    if i < |c| {
      HeaderAt(s, c, false, i);
      var o := Offset(c, i);
      if c[i].cmd == CMD_UDP_ENCAPSULATED {
        assert s[o + UDP_HEADER..o + c[i].Size()] == s[o + HEADER_SIZE..o + c[i].Size()][2..];
      }
    }
  }

  // -------------------------------------------------------------- resumption

  lemma {:induction false} NoBytes(ds: seq<seq<byte>>)
    ensures ByteCount(ds) == 0 <==> forall i | 0 <= i < |ds| :: ds[i] == []
  {
    if ds != [] {
      NoBytes(ds[1..]);
      assert forall i | 0 < i < |ds| :: ds[i] == ds[1..][i - 1];
    }
  }

  /** The writer starts at `awrite`, which it takes for a number of whole buffers.  So a call that ends with
      EAGAIN can be made again only if it has counted nothing: exactly if no datagram with a payload went out
      before the one refused.  With one datagram in the buffer that is always so. */
  lemma ResumesExactly(c: Chain, offers: seq<Offer>)
    requires Ported(c) && SendEach(Payloads(c, 0), offers).state == TryAgain
    ensures var sent := SendEach(Payloads(c, 0), offers).sent;
      && sent < Payloads(c, 0)
      && (Count(c, offers) == 0 <==> forall i | 0 <= i < |sent| :: sent[i] == [])
    ensures |Payloads(c, 0)| == 1 ==> Count(c, offers) == 0
  {
    NoBytes(SendEach(Payloads(c, 0), offers).sent);
  }

  /** With two it is not, if only the second is refused. */
  lemma StuckAfterOne(c: Chain, d: seq<byte>, e: seq<byte>)
    requires Ported(c) && Payloads(c, 0) == [d, e] && d != []
    ensures var offers := [Offer.Bytes(|d|), Again];
      SendEach(Payloads(c, 0), offers).state == TryAgain && Count(c, offers) == |d| > 0
  {
    var offers := [Offer.Bytes(|d|), Again];
    assert Rest(offers) == [Again] && [d, e][1..] == [e];
    assert SendEach([e], [Again]) == Sending([], [Again][1..], TryAgain);
    assert [d] + [] == [d] && [d][1..] == [];
    assert ByteCount([d]) == |d| + ByteCount([]);
  }

  // ------------------------------------------------------------ the handler

  lemma {:induction false} FewBytes(ds: seq<seq<byte>>, s: seq<seq<byte>>)
    requires s <= ds
    ensures ByteCount(s) <= ByteCount(ds)
  {
    if s != [] {
      FewBytes(ds[1..], s[1..]);
    }
  }

  /** Payloads are shorter than their packets. */
  lemma {:induction false} PayloadBytes(c: Chain, i: nat)
    requires AllValid(c) && Ported(c) && i <= |c|
    ensures Offset(c, i) + ByteCount(Payloads(c, i)) <= Total(c)
    decreases |c| - i
  {
    if i == |c| {
      OffsetEnd(c);
    } else {
      OffsetNext(c, i);
      PayloadBytes(c, i + 1);
      assert Payloads(c, i) == if c[i].cmd == CMD_UDP_ENCAPSULATED then [c[i].body[2..]] + Payloads(c, i + 1)
                               else Payloads(c, i + 1);
      if c[i].cmd == CMD_UDP_ENCAPSULATED {
        assert Payloads(c, i)[1..] == Payloads(c, i + 1);
      }
    }
  }

  lemma CountWithin(c: Chain, offers: seq<Offer>)
    requires AllValid(c) && Ported(c)
    ensures Count(c, offers) <= Total(c)
  {
    FewBytes(Payloads(c, 0), SendEach(Payloads(c, 0), offers).sent);
    PayloadBytes(c, 0);
  }

  method WriteDatagrams(buffer: Buffer, sock: UdpSocket, ghost c: Chain) returns (r: FdState, after: Buffer)
    requires Outgoing(buffer, c, 0) && Ported(c) && |buffer.ip| == UDP_MTU
    modifies sock`sent, sock`offers
    ensures Went(old(sock.sent), old(sock.offers), sock.sent, sock.offers, c, r)
    ensures r == TryAgain ==> Outgoing(after, c, Count(c, old(sock.offers)))
  {
    CountWithin(c, sock.offers);
    var bp := new BufferPacket.Of(buffer);
    r := WritePacketToUdp(bp, sock, c);
    after := bp.Value();
  }

  /** `main_on_udp_write`: on EAGAIN the buffer stays in use, otherwise it is free. */
  method OnUdpWrite(pool: BufferPool<Buffer>, fd: int, sock: UdpSocket, ghost c: Chain) returns (r: Option<FdState>)
    requires pool.Valid() && ValidChain(c) && Ported(c)
    requires var h := Head(pool.used, pool.write, fd);
      h.Some? ==> h.value < pool.bps.Length && Outgoing(pool.bps[h.value], c, 0)
    modifies pool`free, pool`used, pool`write, pool`owner, pool`taken, pool.bps, sock`sent, sock`offers
    ensures pool.Valid()
    ensures var h := old(Head(pool.used, pool.write, fd));
      && (r == None <==> h == None)
      && (r == None ==> pool.At() == old(pool.At()) && sock.sent == old(sock.sent) && sock.offers == old(sock.offers))
      && (r.Some? ==>
            && Went(old(sock.sent), old(sock.offers), sock.sent, sock.offers, c, r.value)
            && Stepped(old(pool.At()), old(pool.bps[..]), pool.At(), pool.bps[..], fd, h.value,
                       c, Count(c, old(sock.offers)), r.value))
  {
    var h := pool.GetWriteBuffer(fd);
    if h == None {
      return None;
    }
    var st, after := WriteDatagrams(pool.bps[h.value], sock, c);
    Finish(pool, fd, h.value, st, after);
    PutThenRemove(old(pool.used), fd, h.value);
    r := Some(st);
  }

  // ---------------------------------------------------------------- reading

  /** The packet made of a datagram. */
  function DatagramPacket(port: uint16, d: seq<byte>): (p: Packet)
    requires UDP_HEADER + |d| <= UDP_MTU
    ensures p.Valid() && p.Size() == UDP_HEADER + |d| && FirstField(p) == port
  {
    Packet(CMD_UDP_ENCAPSULATED, 0, [port % 256, port / 256] + d)
  }

  /** It goes out as it came in. */
  lemma DatagramPayload(port: uint16, d: seq<byte>)
    requires UDP_HEADER + |d| <= UDP_MTU
    ensures Ported([DatagramPacket(port, d)]) && Payloads([DatagramPacket(port, d)], 0) == [d]
  {
    var c := [DatagramPacket(port, d)];
    assert Payloads(c, 1) == [];
  }

  /** `read_packet_from_udp` into a buffer of the pool, with the port of its descriptor.  Empty datagrams are
      swallowed, and those too long for a buffer are an error. */
  method ReadPacketFromUdp(bp: BufferPacket, sock: UdpSocket, port: uint16) returns (r: FdState)
    requires bp.Valid() && (bp.mode == Reading ==> Holds(bp.ip[..], [], false))
    modifies bp, bp.ip, sock`incoming, sock`offers
    ensures old(bp.mode) == Writing ==> r == Error && sock.incoming == old(sock.incoming)
    ensures old(bp.mode) == Reading ==>
              var can := old(sock.offers != [] && sock.offers[0].Bytes? && sock.incoming != []);
              && sock.offers == Rest(old(sock.offers))
              && sock.incoming == (if can then old(sock.incoming)[1..] else old(sock.incoming))
              && (r == Ready <==> can && 0 < |old(sock.incoming)[0]| <= UDP_MTU - UDP_HEADER)
              && (r == Error <==>
                    || (old(sock.offers) != [] && old(sock.offers)[0] == Fail)
                    || (can && |old(sock.incoming)[0]| > UDP_MTU - UDP_HEADER))
    ensures r == Ready ==>
              && bp.mode == Writing && bp.awrite == 0 && bp.apCount == 1
              && UDP_HEADER + |old(sock.incoming)[0]| <= UDP_MTU
              && Holds(bp.ip[..], [DatagramPacket(port, old(sock.incoming)[0])], false)
    ensures r == TryAgain ==> bp.mode == Reading && bp.ip[..] == old(bp.ip[..])
  {
    if bp.mode != Reading {
      return Error;
    }
    var offer := if sock.offers == [] then Again else sock.offers[0];
    sock.offers := Rest(sock.offers);
    if offer == Fail {
      return Error;
    }
    if offer == Again || sock.incoming == [] {
      return TryAgain;
    }
    var d := sock.incoming[0];
    sock.incoming := sock.incoming[1..];
    if |d| == 0 {
      return TryAgain;
    }
    if |d| > UDP_MTU - UDP_HEADER {
      bp.CopyIn(UDP_HEADER, d[..UDP_MTU - UDP_HEADER]);
      return Error;
    }
    StoreDatagram(bp, DatagramPacket(port, d));
    bp.mode, bp.awrite, bp.apCount := Writing, 0, 1;
    r := Ready;
  }

  method StoreDatagram(bp: BufferPacket, p: Packet)
    requires bp.Valid() && Holds(bp.ip[..], [], false) && p.Valid() && p.flags == 0
    modifies bp.ip
    ensures Holds(bp.ip[..], [p], false)
  {
    ghost var s := bp.ip[..];
    bp.CopyIn(0, [p.Size() % 256, p.Size() / 256, p.cmd, 0] + p.body);
    assert Total([]) == 0 && s[..0] == [];
    HoldsSnoc(s, bp.ip[..], [], p);
    assert [] + [p] == [p];
  }
}
