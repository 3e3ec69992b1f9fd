/** Whole connections: chains written by one side, cut up arbitrarily by the network, and
    reassembled by the other side (src/packet.c:65-132, driven as in src/proxy.c:50-74 and 103-141). */
module Framing {
  import opened Basics
  import opened PacketChain
  import opened BufferPackets

  predicate Sendable(cs: seq<Chain>) {
    ValidChains(cs) && forall i | 0 <= i < |cs| :: cs[i] != []
  }

  /** Builds a chain in an empty buffer, packet after packet. */
  method Load(bp: BufferPacket, c: Chain)
    requires bp.Valid() && Holds(bp.ip[..], [], false) && ValidChain(c)
    modifies bp`apCount, bp.ip
    ensures Holds(bp.ip[..], c, false)
  {
    assert c[..0] == [];
    for i := 0 to |c|
      invariant Holds(bp.ip[..], c[..i], false)
    {
      OffsetNext(c, i);
      ValidPrefix(c, i + 1);
      var _ := bp.AppendAp(c[i], c[..i]);
      assert c[..i] + [Unlinked(c[i])] == c[..i + 1];
    }
    assert c[..|c|] == c;
  }

  /** Writes chains one after the other until all are written, the offers run out or one fails.
      `done` chains went out whole and `part` bytes of the next one. */
  method SendAll(cs: seq<Chain>, sock: Socket) returns (done: nat, part: nat)
    requires Sendable(cs)
    modifies sock`sent, sock`offers
    ensures done <= |cs| && (done < |cs| ==> part < Total(cs[done])) && (done == |cs| ==> part == 0)
    ensures sock.sent == old(sock.sent) + Stream(cs[..done]) + if done < |cs| then Encode(cs[done])[..part] else []
    ensures done < |cs| ==> sock.offers == [] || Fail in old(sock.offers)
    ensures Paid(old(sock.offers), sock.offers, |sock.sent| - |old(sock.sent)|)
  {
    done, part := 0, 0;
    ghost var before := sock.sent;
    while done < |cs|
      invariant done <= |cs| && part == 0
      invariant sock.sent == before + Stream(cs[..done])
      invariant Fail in sock.offers ==> Fail in old(sock.offers)
      invariant Paid(old(sock.offers), sock.offers, |sock.sent| - |before|)
    {
      var r;
      r, part := SendOne(cs[done], sock);
      if r != Ready {
        return;
      }
      StreamAt(cs, done);
      assert Encode(cs[done])[..Total(cs[done])] == Encode(cs[done]);
      done, part := done + 1, 0;
    }
  }

  /** One chain: calls the writer again for as long as it asks for it and offers are left. */
  method SendOne(c: Chain, sock: Socket) returns (r: FdState, part: nat)
    requires ValidChain(c)
    modifies sock`sent, sock`offers
    ensures part <= Total(c) && sock.sent == old(sock.sent) + Encode(c)[..part]
    ensures r == Ready ==> part == Total(c)
    ensures r != Ready && c != [] ==> part < Total(c)
    ensures r != Ready ==> sock.offers == [] || Fail in old(sock.offers)
    ensures Fail in sock.offers ==> Fail in old(sock.offers)
    ensures c != [] ==> Paid(old(sock.offers), sock.offers, part)
  {
    var bp := new BufferPacket();
    Load(bp, c);
    bp.mode, bp.awrite := Writing, 0;
    r, part := TryAgain, 0;
    assert Encode(c)[..0] == [];
    NotEmpty(c);
    while r == TryAgain && sock.offers != []
      invariant part == bp.awrite <= Total(c) && Holds(bp.ip[..], c, false)
      invariant sock.sent == old(sock.sent) + Encode(c)[..part]
      invariant r != Ready ==> bp.mode == Writing && (c != [] ==> part < Total(c))
      invariant r == Ready ==> part == Total(c)
      invariant Fail in sock.offers || r == Error ==> Fail in old(sock.offers)
      invariant c != [] ==> Paid(old(sock.offers), sock.offers, part)
      decreases r == TryAgain, |sock.offers|
    {
      AnswerPays(sock.offers, Total(c) - part);
      r := bp.WritePacketToTcp(sock, c);
      TakeJoin(Encode(c), part, bp.awrite);
      Assoc(old(sock.sent), Encode(c)[..part], Encode(c)[part..bp.awrite]);
      part := bp.awrite;
    }
  }

  lemma NotEmpty(c: Chain)
    ensures c != [] ==> Total(c) > 0
  {
    OffsetMonotone(c, 0, |c|);
    OffsetEnd(c);
  }

  /** A zeroed buffer is ready for any chain. */
  lemma Start(s: seq<byte>, c: Chain, w: seq<byte>)
    requires ValidChain(c) && c != [] && Carries(w, c) && Holds(s, [], false)
    ensures InFlight(s, c, 0, 0) && Synced(s, c, 0, w, w)
  {
    assert s == Zeros(UDP_MTU);
    EmptyInFlight(c);
    assert Encode(c)[..0] == [];
  }

  /** One chain: a zeroed buffer, and the reader called again while the socket has something to
      say.  `w` is what the connection still carries from the start of `c` on. */
  method ReceiveOne(sock: Socket, ghost c: Chain, ghost w: seq<byte>) returns (r: FdState, got: Chain, part: nat)
    requires ValidChain(c) && c != [] && Carries(w, c) && sock.incoming == w
    modifies sock`incoming, sock`offers
    ensures r == Ready ==> got == c && part == Total(c) && w == Encode(c) + sock.incoming
    ensures r != Ready ==> part < Total(c) && w == Encode(c)[..part] + sock.incoming
    ensures r != Ready ==> sock.incoming == [] || sock.offers == [] || Fail in old(sock.offers)
    ensures Consumed(old(sock.offers), sock.offers, r == Error)
    ensures Paid(old(sock.offers), sock.offers, part + Dry(r, sock.incoming))
  {
    var bp := new BufferPacket();
    Start(bp.ip[..], c, w);
    r, got := TryAgain, [];
    while r == TryAgain && sock.incoming != [] && sock.offers != []
      invariant bp.Valid()
      invariant r == Ready ==>
          Holds(bp.ip[..], c, false) && bp.aread == Total(c) && w == Encode(c) + sock.incoming
      invariant r != Ready ==> bp.mode == Reading && bp.Underway(sock, c, w)
      invariant Consumed(old(sock.offers), sock.offers, r == Error)
      invariant Paid(old(sock.offers), sock.offers, bp.aread + Dry(r, sock.incoming))
      decreases r == TryAgain, |sock.offers|
    {
      ghost var before := sock.offers;
      r := bp.ReadPacketFromTcp(sock, c, w);
      ConsumedTwice(old(sock.offers), before, sock.offers, r == Error);
    }
    part := bp.aread;
    if r == Ready {
      HoldsParse(bp.ip[..], c);
      got := Parse(bp.ip[..]).value;
    } else {
      InFlightPart(bp.ip[..], c, bp.aread, bp.apCount);
    }
  }

  /** Bytes left over after whole chains begin the next chain. */
  lemma StreamStep(cs: seq<Chain>, got: seq<Chain>, w: seq<byte>)
    requires Sendable(cs) && got <= cs && w != [] && w <= Stream(cs[|got|..])
    ensures |got| < |cs| && Carries(w, cs[|got|])
  {
    StreamAt(cs, |got|);
  }

  lemma StreamTaken(all: seq<byte>, cs: seq<Chain>, k: nat, w: seq<byte>, left: seq<byte>)
    requires Sendable(cs) && k < |cs|
    requires all == Stream(cs[..k]) + w && w <= Stream(cs[k..]) && w == Encode(cs[k]) + left
    ensures all == Stream(cs[..k + 1]) + left && left <= Stream(cs[k + 1..])
  {
    StreamAt(cs, k);
    Regroup(all, Stream(cs[..k]), w, Encode(cs[k]), left, Stream(cs[k + 1..]));
  }

  lemma Regroup(all: seq<byte>, s: seq<byte>, w: seq<byte>, e: seq<byte>, left: seq<byte>, f: seq<byte>)
    requires all == s + w && w == e + left && w <= e + f
    ensures all == (s + e) + left && left <= f
  {
    assert left == w[|e|..] && f == (e + f)[|e|..];
  }

  /** Every byte is accounted for: whole chains, the part of the next one, and what was left unread. */
  ghost predicate Accounted(all: seq<byte>, cs: seq<Chain>, k: nat, part: nat, left: seq<byte>)
    requires Sendable(cs)
  {
    && k <= |cs| && (k < |cs| ==> part < Total(cs[k]))
    && all == Stream(cs[..k]) + (if k < |cs| then Encode(cs[k])[..part] else []) + left
  }

  lemma AccountedPart(all: seq<byte>, cs: seq<Chain>, k: nat, w: seq<byte>, part: nat, left: seq<byte>)
    requires Sendable(cs) && k < |cs| && part < Total(cs[k])
    requires all == Stream(cs[..k]) + w && w == Encode(cs[k])[..part] + left
    ensures Accounted(all, cs, k, part, left)
  {
    Assoc(Stream(cs[..k]), Encode(cs[k])[..part], left);
  }

  lemma AccountedWhole(all: seq<byte>, cs: seq<Chain>, k: nat, left: seq<byte>)
    requires Sendable(cs) && k <= |cs| && all == Stream(cs[..k]) + left
    ensures Accounted(all, cs, k, 0, left)
  {
    if k < |cs| {
      OffsetMonotone(cs[k], 0, |cs[k]|);
      OffsetEnd(cs[k]);
      assert Encode(cs[k])[..0] == [];
    }
    assert Stream(cs[..k]) + [] == Stream(cs[..k]);
  }

  /** Reads chains from a connection that carries (the beginning of) the stream of `cs`. */
  method ReceiveAll(sock: Socket, ghost cs: seq<Chain>) returns (got: seq<Chain>, part: nat)
    requires Sendable(cs) && sock.incoming <= Stream(cs)
    modifies sock`incoming, sock`offers
    ensures got <= cs && Accounted(old(sock.incoming), cs, |got|, part, sock.incoming)
    ensures sock.incoming == [] || sock.offers == [] || Fail in old(sock.offers)
    ensures Used(old(sock.offers), sock.offers)
    ensures sock.incoming != [] ==> Paid(old(sock.offers), sock.offers, |old(sock.incoming)| - |sock.incoming|)
  {
    got, part := [], 0;
    ghost var all := sock.incoming;
    while sock.incoming != []
      invariant |got| <= |cs| && got == cs[..|got|] && part == 0
      invariant all == Stream(cs[..|got|]) + sock.incoming && sock.incoming <= Stream(cs[|got|..])
      invariant Consumed(old(sock.offers), sock.offers, false)
      invariant Paid(old(sock.offers), sock.offers, |all| - |sock.incoming|)
      decreases |sock.incoming|
    {
      ghost var k, w, before := |got|, sock.incoming, sock.offers;
      StreamStep(cs, got, w);
      TakeNext(cs, k);
      var r, chain;
      r, chain, part := ReceiveOne(sock, cs[k], w);
      ConsumedTwice(old(sock.offers), before, sock.offers, r == Error);
      if r != Ready {
        AccountedPart(all, cs, k, w, part, sock.incoming);
        return;
      }
      StreamTaken(all, cs, k, w, sock.incoming);
      got, part := got + [chain], 0;
    }
    AccountedWhole(all, cs, |got|, sock.incoming);
  }

  lemma SentIsPrefix(cs: seq<Chain>, done: nat, part: nat)
    requires Sendable(cs) && done <= |cs| && (done < |cs| ==> part < Total(cs[done]))
    ensures var sent := Stream(cs[..done]) + (if done < |cs| then Encode(cs[done])[..part] else []);
      sent <= Stream(cs) && (sent == Stream(cs) <==> done == |cs|)
  {
    if done < |cs| {
      StreamAt(cs, done);
    } else {
      assert cs[..done] == cs;
    }
  }

  lemma SentFromNothing(cs: seq<Chain>, done: nat, part: nat, sent: seq<byte>)
    requires Sendable(cs) && done <= |cs| && (done < |cs| ==> part < Total(cs[done]))
    requires sent == [] + Stream(cs[..done]) + if done < |cs| then Encode(cs[done])[..part] else []
    ensures sent <= Stream(cs) && (sent == Stream(cs) <==> done == |cs|)
  {
    assert [] + Stream(cs[..done]) == Stream(cs[..done]);
    SentIsPrefix(cs, done, part);
  }

  /** Nothing but the whole list of chains accounts for all bytes of the stream. */
  lemma WholeStream(cs: seq<Chain>, got: seq<Chain>, part: nat)
    requires Sendable(cs) && got <= cs && Accounted(Stream(cs), cs, |got|, part, [])
    ensures got == cs
  {
    if |got| < |cs| {
      StreamAt(cs, |got|);
      assert false;
    }
  }

  /** The round trip.  Whatever pieces the sender's and the receiver's kernels choose, `sent` bytes go
      out, all but `unread` of them are read, and every one of those is in a chain received or in the
      one under way.  Without errors both sides get on by a byte with every useful offer; so with
      enough of them exactly the chains sent are received. */
  method Transfer(cs: seq<Chain>, sendOffers: seq<Offer>, readOffers: seq<Offer>)
    returns (got: seq<Chain>, part: nat, sent: seq<byte>, unread: seq<byte>)
    requires Sendable(cs)
    ensures sent <= Stream(cs) && got <= cs && Accounted(sent, cs, |got|, part, unread)
    ensures sent == Stream(cs) && unread == [] ==> got == cs
    ensures Fail !in sendOffers ==> |sent| >= Min(Useful(sendOffers), |Stream(cs)|)
    ensures Fail !in readOffers ==> |sent| - |unread| >= Min(Useful(readOffers), |sent|)
    ensures Enough(sendOffers, |Stream(cs)|) && Enough(readOffers, |Stream(cs)|) ==> got == cs && unread == []
  {
    var out := new Socket([], sendOffers);
    var done, partOut := SendAll(cs, out);
    sent := out.sent;
    SentFromNothing(cs, done, partOut, sent);
    var inc := new Socket(sent, readOffers);
    got, part := ReceiveAll(inc, cs);
    unread := inc.incoming;
    if sent == Stream(cs) && unread == [] {
      WholeStream(cs, got, part);
    }
  }
}
