/** The buffers that carry packet chains (src/packet.c): walking and extending a chain in place,
    and the resumable reader and writer for stream sockets. */
module BufferPackets {
  import opened Basics
  import opened PacketChain

  /** What the kernel is about to answer to one `read` or `send`: at most so many bytes, EAGAIN,
      or an error.  Running out of offers is EAGAIN for good. */
  datatype Offer = Bytes(limit: nat) | Again | Fail

  datatype IoResult = Moved(n: nat) | WouldBlock | Failed

  datatype FdState = Ready | TryAgain | Error

  datatype Mode = Reading | Writing

  /** The answer to a call that can move at most `most` bytes. */
  function Answer(offers: seq<Offer>, most: nat): (r: IoResult)
    ensures r.Moved? ==> r.n <= most
  {
    if offers == [] then WouldBlock
    else match offers[0]
      case Bytes(limit) => Moved(Min(limit, most))
      case Again => WouldBlock
      case Fail => Failed
  }

  /** The offers left after it. */
  function Rest(offers: seq<Offer>): seq<Offer> {
    if offers == [] then [] else offers[1..]
  }

  function Amount(r: IoResult): nat {
    if r.Moved? then r.n else 0
  }

  /** How many offers are good for at least one byte. */
  function Useful(offers: seq<Offer>): nat {
    if offers == [] then 0
    else Useful(offers[1..]) + if offers[0].Bytes? && offers[0].limit > 0 then 1 else 0
  }

  /** No errors, and so many useful offers. */
  predicate Enough(offers: seq<Offer>, calls: nat) {
    Fail !in offers && Useful(offers) >= calls
  }

  /** Offers are used up from the front. */
  predicate Used(before: seq<Offer>, after: seq<Offer>) {
    |after| <= |before| && after == before[|before| - |after|..]
  }

  /** And an error was among them exactly if the call failed. */
  predicate Consumed(before: seq<Offer>, after: seq<Offer>, failed: bool) {
    Used(before, after) && (failed <==> Fail in before[..|before| - |after|])
  }

  /** Every useful offer used up has moved a byte, out of `moved`. */
  predicate Paid(before: seq<Offer>, after: seq<Offer>, moved: int) {
    Useful(before) <= Useful(after) + moved
  }

  /** What a reader may have spent for nothing: the one offer with which it found no data. */
  function Dry(r: FdState, incoming: seq<byte>): nat {
    if r == TryAgain && incoming == [] then 1 else 0
  }

  lemma UsedTwice(a: seq<Offer>, b: seq<Offer>, c: seq<Offer>)
    requires Used(a, b) && Used(b, c)
    ensures Used(a, c) && a[..|a| - |c|] == a[..|a| - |b|] + b[..|b| - |c|]
  {
    var i, j := |a| - |b|, |a| - |c|;
    assert c == a[i..][|b| - |c|..] == a[j..];
    assert b[..|b| - |c|] == a[i..j];
  }

  lemma ConsumedTwice(a: seq<Offer>, b: seq<Offer>, c: seq<Offer>, failed: bool)
    requires Consumed(a, b, false) && Consumed(b, c, failed)
    ensures Consumed(a, c, failed)
  {
    UsedTwice(a, b, c);
  }

  lemma AnswerConsumes(offers: seq<Offer>, most: nat)
    ensures Consumed(offers, Rest(offers), Answer(offers, most) == Failed)
  {
  }

  lemma AnswerPays(offers: seq<Offer>, most: nat)
    ensures most > 0 ==> Paid(offers, Rest(offers), Amount(Answer(offers, most)))
    ensures Paid(offers, Rest(offers), 1)
    ensures |Rest(offers)| < |offers| || (offers == [] && Answer(offers, most) == WouldBlock)
  {
  }

  /** A connected socket.  `incoming` is everything the peer will ever have sent and that has not
      been read yet; the offers decide in which pieces it shows up.  `sent` collects what we sent. */
  class Socket {
    var incoming: seq<byte>
    var offers: seq<Offer>
    var sent: seq<byte>

    constructor (incoming: seq<byte>, offers: seq<Offer>)
      ensures this.incoming == incoming && this.offers == offers && sent == []
    {
      this.incoming, this.offers, sent := incoming, offers, [];
    }
  }

  /** `struct buffer_packet` as it lies in the pool. */
  datatype Buffer = Buffer(mode: Mode, apCount: byte, aread: nat, awrite: nat, ip: seq<byte>)

  class BufferPacket {
    var mode: Mode
    var apCount: byte
    var aread: nat
    var awrite: nat
    const ip: array<byte>

    ghost predicate Valid()
      reads this
    {
      ip.Length == UDP_MTU
    }

    /** A buffer as the pool hands it out: all zero. */
    constructor ()
      ensures Valid() && fresh(ip)
      ensures mode == Reading && apCount == 0 && aread == 0 && awrite == 0
      ensures Holds(ip[..], [], false)
    {
      mode, apCount, aread, awrite := Reading, 0, 0, 0;
      ip := new byte[UDP_MTU](_ => 0);
      new;
      assert ip[..] == Zeros(UDP_MTU);
    }

    constructor Of(b: Buffer)
      requires |b.ip| == UDP_MTU
      ensures Valid() && fresh(ip) && Value() == b
    {
      mode, apCount, aread, awrite := b.mode, b.apCount, b.aread, b.awrite;
      ip := new byte[UDP_MTU](i requires 0 <= i < |b.ip| => b.ip[i]);
      new;
      assert ip[..] == b.ip;
    }

    function Value(): Buffer
      reads this, ip
    {
      Buffer(mode, apCount, aread, awrite, ip[..])
    }

    // ------------------------------------------------------------- accessors

    function SizeAt(o: nat): nat
      requires o + HEADER_SIZE <= ip.Length
      reads ip
    {
      U16(ip[o], ip[o + 1])
    }

    function ApNext(o: nat): (r: Option<nat>)
      requires o + HEADER_SIZE <= ip.Length
      reads ip
      ensures r == NextIn(ip[..], o)
    {
      if ip[o + 2] != 0 && HasReadNext(ip[o + 3]) then Some(o + SizeAt(o)) else None
    }

    /** Position at which the walk along the links stops. */
    method LastAp(ghost c: Chain, ghost open: bool) returns (o: nat)
      requires Valid() && Holds(ip[..], c, open) && Walkable(c, open)
      ensures o == Offset(c, Links(c, open))
    {
      ghost var s := ip[..];
      o := 0;
      ghost var i := 0;
      WalkAt(s, c, open, i);
      var n := ApNext(o);
      while n.Some?
        invariant i <= Links(c, open) && o == Offset(c, i)
        invariant n == if i < Links(c, open) then Some(Offset(c, i + 1)) else None
        decreases Links(c, open) - i
      {
        o := n.value;
        i := i + 1;
        WalkAt(s, c, open, i);
        n := ApNext(o);
      }
    }

    method CountAp(ghost c: Chain, ghost open: bool) returns (n: nat)
      requires Valid() && Holds(ip[..], c, open) && Walkable(c, open)
      ensures n == Links(c, open) + 1
    {
      ghost var s := ip[..];
      n := 1;
      WalkAt(s, c, open, 0);
      var o := ApNext(0);
      while o.Some?
        invariant 1 <= n <= Links(c, open) + 1
        invariant o == if n - 1 < Links(c, open) then Some(Offset(c, n)) else None
        decreases Links(c, open) - n
      {
        n := n + 1;
        WalkAt(s, c, open, n - 1);
        o := ApNext(o.value);
      }
    }

    /** The bytes in use: exactly the chain's. */
    method FullSize(ghost c: Chain) returns (n: nat)
      requires Valid() && Holds(ip[..], c, false)
      ensures n == Total(c)
    {
      WalkEnd(ip[..], c);
      var o := LastAp(c, false);
      n := o + SizeAt(o);
    }

    // ---------------------------------------------------------------- append

    /** The first half of an append: the last packet, if any, now announces a successor. */
    method OpenChain(ghost c: Chain)
      requires Valid() && Holds(ip[..], c, false)
      modifies ip
      ensures Holds(ip[..], c, c != [])
      ensures forall k | 0 <= k < UDP_MTU ::
                ip[k] == if c != [] && k == Offset(c, |c| - 1) + 3 then SetReadNext(old(ip[k])) else old(ip[k])
    {
      ghost var s := ip[..];
      WalkAt(s, c, false, 0);
      if ip[2] != 0 {
        var last := LastAp(c, false);
        LinkLast(s, c);
        ip[last + 3] := SetReadNext(ip[last + 3]);
        assert ip[..] == s[last + 3 := SetReadNext(s[last + 3])];
      }
    }

    /** In-place append.  `raw` is the packet as it sits in some other buffer, link bit included. */
    method AppendAp(raw: Packet, ghost c: Chain) returns (at: nat)
      requires Valid() && Holds(ip[..], c, false)
      requires Unlinked(raw).Valid()
      requires |c| < MAX_PACKETS && Total(c) + raw.Size() <= UDP_MTU
      modifies this`apCount, ip
      ensures Holds(ip[..], c + [Unlinked(raw)], false)
      ensures at == Total(c)
      // Only the new packet's bytes and the link bit of the previous last packet change.
      ensures forall k | 0 <= k < UDP_MTU && !(at <= k < at + raw.Size()) ::
                ip[k] == if c != [] && k == Offset(c, |c| - 1) + 3 then SetReadNext(old(ip[k])) else old(ip[k])
      ensures apCount == (old(apCount) + 1) % 256
    {
      OpenChain(c);
      ghost var linked := ip[..];
      at := LastAp(c, c != []);
      OffsetEnd(c);
      PutPacket(at, raw);
      apCount := (apCount + 1) % 256;
      HoldsSnoc(linked, ip[..], c, Unlinked(raw));
    }

    /** The second half: the packet is copied in and its own link bit is cleared. */
    method PutPacket(at: nat, raw: Packet)
      requires Valid() && Unlinked(raw).Valid() && at + raw.Size() <= UDP_MTU
      modifies ip
      ensures ip[..] == old(ip[..at]) + EncodePacket(Unlinked(raw), false) + old(ip[at + raw.Size()..])
    {
      ghost var s := ip[..];
      ghost var p := Unlinked(raw);
      var src := [raw.Size() % 256, raw.Size() / 256, raw.cmd, raw.flags] + raw.body;
      CopyIn(at, src);
      assert ip[at + 3] == src[3];
      ip[at + 3] := ClearReadNext(ip[at + 3]);
      assert EncodePacket(p, false) == src[3 := p.flags];
      assert ip[..] == s[..at] + src[3 := p.flags] + s[at + raw.Size()..];
    }

    /** memcpy into the buffer. */
    method CopyIn(at: nat, src: seq<byte>)
      requires at + |src| <= ip.Length
      modifies ip
      ensures ip[..] == old(ip[..at]) + src + old(ip[at + |src|..])
    {
      forall k | 0 <= k < |src| {
        ip[at + k] := src[k];
      }
    }

    // -------------------------------------------------- stream sockets: reading

    /** `read` into the buffer. */
    method Read(sock: Socket, at: nat, count: nat) returns (r: IoResult)
      requires Valid() && at + count <= UDP_MTU
      modifies sock`incoming, sock`offers, ip
      ensures r == Answer(old(sock.offers), Min(count, |old(sock.incoming)|))
      ensures sock.offers == Rest(old(sock.offers))
      ensures sock.incoming == old(sock.incoming)[Amount(r)..]
      ensures ip[..] == old(ip[..at]) + old(sock.incoming)[..Amount(r)] + old(ip[at + Amount(r)..])
    {
      r := Answer(sock.offers, Min(count, |sock.incoming|));
      sock.offers := Rest(sock.offers);
      CopyIn(at, sock.incoming[..Amount(r)]);
      sock.incoming := sock.incoming[Amount(r)..];
    }

    /** Start of the packet after the first `apCount` ones. */
    method CurrentAp(ghost c: Chain, ghost n: nat) returns (o: nat)
      requires Valid() && InFlight(ip[..], c, n, apCount)
      ensures o == Offset(c, apCount)
    {
      o := 0;
      var apAread := 0;
      for i := 0 to apCount
        invariant o == apAread == Offset(c, i)
      {
        OffsetMonotone(c, i + 1, apCount);
        ArrivedLink(ip[..], c, n, i);
        apAread := apAread + SizeAt(o);
        o := ApNext(o).value;
      }
    }

    /** Brings `aread` up to `goal`, a position at most at the end of the chain. */
    method ReadUpTo(sock: Socket, goal: nat, ghost c: Chain, ghost w: seq<byte>) returns (r: FdState)
      requires Valid() && Synced(ip[..], c, aread, sock.incoming, w) && aread <= goal <= Total(c)
      modifies this`aread, ip, sock`incoming, sock`offers
      ensures Synced(ip[..], c, aread, sock.incoming, w) && old(aread) <= aread <= goal
      ensures r == Ready <==> aread == goal
      ensures Paid(old(sock.offers), sock.offers, aread - old(aread) + Dry(r, sock.incoming))
      ensures Consumed(old(sock.offers), sock.offers, r == Error)
      ensures r == TryAgain ==> |sock.offers| < |old(sock.offers)| || sock.offers == []
    {
      while aread < goal
        invariant Synced(ip[..], c, aread, sock.incoming, w) && old(aread) <= aread <= goal
        invariant Paid(old(sock.offers), sock.offers, aread - old(aread))
        invariant Consumed(old(sock.offers), sock.offers, false)
      {
        ghost var before := sock.offers;
        var got := ReadMore(sock, goal, c, w);
        ConsumedTwice(old(sock.offers), before, sock.offers, got == Failed);
        if got == WouldBlock || got == Moved(0) {
          return TryAgain;
        }
        if got == Failed {
          return Error;
        }
      }
      r := Ready;
    }

    /** One read of that loop. */
    method ReadMore(sock: Socket, goal: nat, ghost c: Chain, ghost w: seq<byte>) returns (got: IoResult)
      requires Valid() && Synced(ip[..], c, aread, sock.incoming, w) && aread < goal <= Total(c)
      modifies this`aread, ip, sock`incoming, sock`offers
      ensures got == Answer(old(sock.offers), Min(goal - old(aread), |old(sock.incoming)|))
      ensures Synced(ip[..], c, aread, sock.incoming, w) && aread == old(aread) + Amount(got) <= goal
      ensures Consumed(old(sock.offers), sock.offers, got == Failed)
      ensures |sock.offers| < |old(sock.offers)| || (sock.offers == [] && got == WouldBlock)
      ensures sock.incoming != [] || Amount(got) > 0 ==> Paid(old(sock.offers), sock.offers, Amount(got))
      ensures Paid(old(sock.offers), sock.offers, 1) && (got == Failed ==> Paid(old(sock.offers), sock.offers, 0))
    {
      ghost var s, in1 := ip[..], sock.incoming;
      AnswerConsumes(sock.offers, Min(goal - aread, |in1|));
      AnswerPays(sock.offers, Min(goal - aread, |in1|));
      got := Read(sock, aread, goal - aread);
      SyncedMore(s, ip[..], c, aread, Amount(got), in1, w);
      aread := aread + Amount(got);
    }

    /** The rest of the current packet: first its size field, then as much as the size says. */
    method ReadCurrentAp(sock: Socket, ghost c: Chain, ghost w: seq<byte>) returns (r: FdState)
      requires Valid() && InFlight(ip[..], c, aread, apCount)
      requires Synced(ip[..], c, aread, sock.incoming, w)
      modifies this`aread, ip, sock`incoming, sock`offers
      ensures Synced(ip[..], c, aread, sock.incoming, w)
      ensures old(aread) <= aread <= Offset(c, apCount + 1)
      ensures r == Ready <==> aread == Offset(c, apCount + 1)
      ensures Paid(old(sock.offers), sock.offers, aread - old(aread) + Dry(r, sock.incoming))
      ensures Consumed(old(sock.offers), sock.offers, r == Error)
      ensures r == TryAgain ==> |sock.offers| < |old(sock.offers)| || sock.offers == []
    {
      PacketSlice(c, false, apCount);
      var o := CurrentAp(c, aread);
      r := ReadSizeField(sock, o, c, w);
      if r == Ready {
        ghost var before := sock.offers;
        r := ReadUpTo(sock, o + SizeAt(o), c, w);
        ConsumedTwice(old(sock.offers), before, sock.offers, r == Error);
      }
    }

    /** The two bytes of the size; once they are there, they are those of the current packet. */
    method ReadSizeField(sock: Socket, o: nat, ghost c: Chain, ghost w: seq<byte>) returns (r: FdState)
      requires Valid() && InFlight(ip[..], c, aread, apCount) && o == Offset(c, apCount)
      requires Synced(ip[..], c, aread, sock.incoming, w)
      modifies this`aread, ip, sock`incoming, sock`offers
      ensures Synced(ip[..], c, aread, sock.incoming, w)
      ensures old(aread) <= aread < Offset(c, apCount + 1) && aread <= Max(old(aread), o + 2)
      ensures r == Ready ==>
                o + HEADER_SIZE <= UDP_MTU && o + SizeAt(o) == Offset(c, apCount + 1) <= Total(c)
      ensures Paid(old(sock.offers), sock.offers, aread - old(aread) + Dry(r, sock.incoming))
      ensures Consumed(old(sock.offers), sock.offers, r == Error)
      ensures r == TryAgain ==> |sock.offers| < |old(sock.offers)| || sock.offers == []
    {
      PacketSlice(c, false, apCount);
      r := Ready;
      if aread < o + 2 {
        r := ReadUpTo(sock, o + 2, c, w);
      }
      if r == Ready {
        ArrivedSize(ip[..], c, aread, apCount);
      }
    }

    /** Counts the packet just completed; it was the last one when the count of packets read
        equals the count of packets that the links announce. */
    method CountCurrentAp(ghost c: Chain) returns (last: bool)
      requires Valid() && apCount < |c| && Arrived(ip[..], c, aread) && aread == Offset(c, apCount + 1)
      modifies this`apCount
      ensures apCount == old(apCount) + 1
      ensures last <==> apCount == |c|
      ensures last ==> Holds(ip[..], c, false) && aread == Total(c)
      ensures !last ==> InFlight(ip[..], c, aread, apCount)
    {
      ghost var d, open := c[..apCount + 1], apCount + 1 < |c|;
      ArrivedWhole(ip[..], c, aread, apCount);
      apCount := (apCount + 1) % 256;
      var count := CountAp(d, open);
      last := apCount == count;
    }

    /** The resumable reader.  `c` is the chain being received, `w` the bytes of this connection
        from the start of `c` on. */
    method ReadPacketFromTcp(sock: Socket, ghost c: Chain, ghost w: seq<byte>) returns (r: FdState)
      requires Valid()
      requires mode == Reading ==> Underway(sock, c, w)
      modifies this, ip, sock`incoming, sock`offers
      ensures Consumed(old(sock.offers), sock.offers, r == Error && old(mode) == Reading)
      ensures r == TryAgain ==> |sock.offers| < |old(sock.offers)| || sock.offers == []
      ensures old(mode) == Writing ==>
                && r == Error && mode == Writing && ip[..] == old(ip[..])
                && sock.offers == old(sock.offers) && sock.incoming == old(sock.incoming)
      ensures old(mode) == Reading && r == Ready ==>
                && Holds(ip[..], c, false) && mode == Writing && awrite == 0 && apCount == |c|
                && aread == Total(c) && w == Encode(c) + sock.incoming
      ensures old(mode) == Reading && r != Ready ==> mode == Reading && Underway(sock, c, w)
      ensures old(mode) == Reading ==>
                && old(aread) <= aread
                && Paid(old(sock.offers), sock.offers, aread - old(aread) + Dry(r, sock.incoming))
    {
      if mode != Reading {
        return Error;
      }
      var last := false;
      while !last
        invariant mode == Reading && old(aread) <= aread
        invariant if last then Complete(sock, c, w) else Underway(sock, c, w)
        invariant Consumed(old(sock.offers), sock.offers, false)
        invariant Paid(old(sock.offers), sock.offers, aread - old(aread))
        decreases |c| - apCount
      {
        ghost var before := sock.offers;
        r, last := ReadNextAp(sock, c, w);
        ConsumedTwice(old(sock.offers), before, sock.offers, r == Error);
        if r != Ready {
          return;
        }
      }
      mode, awrite := Writing, 0;
      r := Ready;
    }

    /** Within chain `c`: in step with the connection, and packet `apCount` not complete. */
    ghost predicate Underway(sock: Socket, c: Chain, w: seq<byte>)
      reads this, ip, sock
    {
      Valid() && InFlight(ip[..], c, aread, apCount) && Synced(ip[..], c, aread, sock.incoming, w)
    }

    /** At its end. */
    ghost predicate Complete(sock: Socket, c: Chain, w: seq<byte>)
      reads this, ip, sock
    {
      && Valid() && Holds(ip[..], c, false) && aread == Total(c) && apCount == |c|
      && w == Encode(c) + sock.incoming
    }

    /** One turn of the reader's loop. */
    method ReadNextAp(sock: Socket, ghost c: Chain, ghost w: seq<byte>) returns (r: FdState, last: bool)
      requires Underway(sock, c, w)
      modifies this`aread, this`apCount, ip, sock`incoming, sock`offers
      ensures last ==> r == Ready
      ensures if last then Complete(sock, c, w) else Underway(sock, c, w)
      ensures r == Ready ==> apCount == old(apCount) + 1
      ensures old(aread) <= aread && Paid(old(sock.offers), sock.offers, aread - old(aread) + Dry(r, sock.incoming))
      ensures Consumed(old(sock.offers), sock.offers, r == Error)
      ensures r == TryAgain ==> |sock.offers| < |old(sock.offers)| || sock.offers == []
    {
      PacketSlice(c, false, apCount);
      r := ReadCurrentAp(sock, c, w);
      last := false;
      if r == Ready {
        last := CountCurrentAp(c);
        if last {
          assert Encode(c)[..Total(c)] == Encode(c);
        }
      } else {
        assert InFlight(ip[..], c, aread, apCount);
      }
    }

    // -------------------------------------------------- stream sockets: writing

    /** `send` of the chain's bytes from position `at` on. */
    method Send(sock: Socket, at: nat, count: nat, ghost c: Chain) returns (r: IoResult)
      requires Valid() && Holds(ip[..], c, false) && at + count <= Total(c)
      modifies sock`sent, sock`offers
      ensures r == Answer(old(sock.offers), count) && sock.offers == Rest(old(sock.offers))
      ensures sock.sent == old(sock.sent) + Encode(c)[at..at + Amount(r)]
    {
      r := Answer(sock.offers, count);
      sock.offers := Rest(sock.offers);
      SliceHeld(ip[..], c, at, at + Amount(r));
      assert ip[at..at + Amount(r)] == ip[..][at..at + Amount(r)];
      sock.sent := sock.sent + ip[at..at + Amount(r)];
    }

    /** The resumable writer: one `send` of what is left of chain `c`. */
    method WritePacketToTcp(sock: Socket, ghost c: Chain) returns (r: FdState)
      requires Valid() && Holds(ip[..], c, false) && awrite <= Total(c)
      modifies this`mode, this`apCount, this`aread, this`awrite, sock`sent, sock`offers
      ensures old(mode) == Reading ==>
                && r == Error && mode == Reading && awrite == old(awrite)
                && sock.offers == old(sock.offers) && sock.sent == old(sock.sent)
      ensures old(mode) == Writing ==>
                var got := Answer(old(sock.offers), Total(c) - old(awrite));
                && sock.offers == Rest(old(sock.offers)) && awrite == old(awrite) + Amount(got)
                && sock.sent == old(sock.sent) + Encode(c)[old(awrite)..awrite]
                && (r == Error <==> got == Failed)
                && (r == Ready <==> got.Moved? && awrite == Total(c))
      ensures r == Ready ==> mode == Reading && apCount == 0 && aread == 0
      ensures r != Ready ==> mode == old(mode)
    {
      var buffs := FullSize(c);
      if mode != Writing {
        return Error;
      }
      var got := Send(sock, awrite, buffs - awrite, c);
      if !got.Moved? {
        return if got == Failed then Error else TryAgain;
      }
      awrite := awrite + got.n;
      if awrite < buffs {
        return TryAgain;
      }
      mode, aread, apCount := Reading, 0, 0;
      r := Ready;
    }

    /** memset: what the pool does to a buffer it takes back. */
    method Clear()
      requires Valid()
      modifies this, ip
      ensures mode == Reading && apCount == 0 && aread == 0 && awrite == 0
      ensures Holds(ip[..], [], false)
    {
      mode, apCount, aread, awrite := Reading, 0, 0, 0;
      forall k | 0 <= k < ip.Length {
        ip[k] := 0;
      }
      assert ip[..] == Zeros(UDP_MTU);
    }
  }
}
