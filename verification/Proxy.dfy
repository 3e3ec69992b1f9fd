/** Buffers of the pool on their way out through a socket (src/proxy.c:103-141). */
module Proxy {
  import opened Basics
  import opened PacketChain
  import opened BufferPackets
  import opened BufferPools
  import opened Framing

  /** The buffer that the next write on `fd` is about. */
  function Head(used: map<int, nat>, write: map<int, seq<nat>>, fd: int): Option<nat> {
    if fd in used then Some(used[fd])
    else if QueueOf(write, fd) != [] then Some(QueueOf(write, fd)[0])
    else None
  }

  /** A buffer that holds chain `c`, to be written from byte `at` on. */
  predicate Outgoing(b: Buffer, c: Chain, at: nat) {
    b.mode == Writing && Holds(b.ip, c, false) && b.awrite == at <= Total(c)
  }

  /** What one write does to the socket: the next part of chain `c` from byte `at` on goes out. */
  predicate Wrote(before: seq<Offer>, after: seq<Offer>, sent: seq<byte>, now: seq<byte>, c: Chain, at: nat, r: FdState)
    requires AllValid(c) && at <= Total(c)
  {
    var got := Answer(before, Total(c) - at);
    && after == Rest(before) && now == sent + Encode(c)[at..at + Amount(got)]
    && (r == Error <==> got == Failed)
    && (r == Ready <==> got.Moved? && at + Amount(got) == Total(c))
  }

  /** How much of the chain is written afterwards. */
  function Upto(before: seq<Offer>, c: Chain, at: nat): nat
    requires at <= Total(c)
  {
    at + Amount(Answer(before, Total(c) - at))
  }

  /** The write itself; `b` is the descriptor's buffer. */
  method WriteBuffer(buffer: Buffer, sock: Socket, ghost c: Chain, ghost at: nat) returns (r: FdState, after: Buffer)
    requires Outgoing(buffer, c, at)
    modifies sock`sent, sock`offers
    ensures Wrote(old(sock.offers), sock.offers, old(sock.sent), sock.sent, c, at, r)
    ensures r == TryAgain ==> Outgoing(after, c, Upto(old(sock.offers), c, at))
  {
    var bp := new BufferPacket.Of(buffer);
    r := bp.WritePacketToTcp(sock, c);
    after := bp.Value();
  }

  /** `main_on_tcp_write`.  `c` is the chain in the buffer and `at` how much of it was written before: what
      is left of a partly written buffer stays in use, a buffer written out or given up is free. */
  method OnTcpWrite(pool: BufferPool<Buffer>, fd: int, sock: Socket, ghost c: Chain, ghost at: nat)
    returns (r: Option<FdState>)
    requires pool.Valid() && ValidChain(c) && at <= Total(c)
    requires var h := Head(pool.used, pool.write, fd);
      h.Some? ==> h.value < pool.bps.Length && Outgoing(pool.bps[h.value], c, at)
    modifies pool`free, pool`used, pool`write, pool`owner, pool`taken, pool.bps, sock`sent, sock`offers
    ensures pool.Valid()
    ensures var h := old(Head(pool.used, pool.write, fd));
      && (r == None <==> h == None)
      && (r == None ==> pool.At() == old(pool.At()) && sock.sent == old(sock.sent) && sock.offers == old(sock.offers))
      && (r.Some? ==>
            && Wrote(old(sock.offers), sock.offers, old(sock.sent), sock.sent, c, at, r.value)
            && Stepped(old(pool.At()), old(pool.bps[..]), pool.At(), pool.bps[..], fd, h.value,
                       c, Upto(old(sock.offers), c, at), r.value))
  {
    var h := pool.GetWriteBuffer(fd);
    if h == None {
      return None;
    }
    var st, after := WriteBuffer(pool.bps[h.value], sock, c, at);
    Finish(pool, fd, h.value, st, after);
    PutThenRemove(old(pool.used), fd, h.value);
    r := Some(st);
  }

  function AfterTake(used: map<int, nat>, write: map<int, seq<nat>>, fd: int): map<int, seq<nat>> {
    if fd in used || QueueOf(write, fd) == [] then write else write[fd := write[fd][1..]]
  }

  /** No buffer but `b` has changed. */
  predicate Kept(before: seq<Buffer>, after: seq<Buffer>, b: nat) {
    |before| == |after| && b < |after| && forall j | 0 <= j < |after| && j != b :: after[j] == before[j]
  }

  /** What the write does to the pool: buffer `b` is in use, with what is left of it to write, or free. */
  predicate Stepped(p: Places, bps: seq<Buffer>, now: Places, after: seq<Buffer>, fd: int, b: nat,
                    c: Chain, upto: nat, r: FdState)
  {
    && now.write == AfterTake(p.used, p.write, fd) && Kept(bps, after, b)
    && if r == TryAgain then now.used == p.used[fd := b] && now.free == p.free && Outgoing(after[b], c, upto)
       else now.used == p.used - {fd} && now.free == p.free + [b]
  }

  /** After the write: the buffer goes back, or keeps what is left. */
  method Finish(pool: BufferPool<Buffer>, fd: int, b: nat, st: FdState, after: Buffer)
    requires pool.Valid() && fd in pool.used && pool.used[fd] == b
    modifies pool`free, pool`used, pool`owner, pool.bps
    ensures pool.Valid() && Kept(old(pool.bps[..]), pool.bps[..], b)
    ensures st == TryAgain ==> pool.At() == old(pool.At()) && pool.bps[b] == after
    ensures st != TryAgain ==> pool.used == old(pool.used) - {fd} && pool.free == old(pool.free) + [b]
  {
    if st == TryAgain {
      pool.Store(b, after);
    } else {
      pool.MoveUsedToFree(fd);
    }
  }

  // ------------------------------------------------------------- whole queues

  /** Of the buffers `queue` that were queued for `fd`, those before `i` are done; the first of the others is
      in use already, or none is. */
  predicate Queued(used: map<int, nat>, write: map<int, seq<nat>>, fd: int, queue: seq<nat>, i: nat, at: nat) {
    && i <= |queue|
    && if fd in used then i < |queue| && used[fd] == queue[i] && QueueOf(write, fd) == queue[i + 1..]
       else QueueOf(write, fd) == queue[i..] && at == 0
  }

  predicate Waits(bps: seq<Buffer>, free: seq<nat>, b: nat, c: Chain, at: nat) {
    b < |bps| && b !in free && Outgoing(bps[b], c, at)
  }

  /** From `i` on the buffers hold the chains `cs`; `at` bytes of the first of them have been written. */
  predicate AllWait(bps: seq<Buffer>, free: seq<nat>, queue: seq<nat>, cs: seq<Chain>, i: nat, at: nat) {
    && |cs| == |queue|
    && forall j | i <= j < |queue| :: Waits(bps, free, queue[j], cs[j], if j == i then at else 0)
  }

  lemma QueuedHead(used: map<int, nat>, write: map<int, seq<nat>>, fd: int, queue: seq<nat>, i: nat, at: nat)
    requires Queued(used, write, fd, queue, i, at)
    ensures Head(used, write, fd) == if i < |queue| then Some(queue[i]) else None
  {
  }

  lemma QueuedNext(used: map<int, nat>, write: map<int, seq<nat>>, fd: int, queue: seq<nat>, i: nat, at: nat, upto: nat)
    requires Queued(used, write, fd, queue, i, at) && i < |queue|
    ensures Queued(used[fd := queue[i]], AfterTake(used, write, fd), fd, queue, i, upto)
    ensures Queued(used - {fd}, AfterTake(used, write, fd), fd, queue, i + 1, 0)
  {
    assert queue[i..][1..] == queue[i + 1..];
  }

  lemma OthersWait(bps: seq<Buffer>, now: seq<Buffer>, free: seq<nat>, queue: seq<nat>, cs: seq<Chain>, i: nat, at: nat,
                   upto: nat)
    requires AllWait(bps, free, queue, cs, i, at) && i < |queue| && Distinct(queue) && Kept(bps, now, queue[i])
    ensures AllWait(now, free + [queue[i]], queue, cs, i + 1, 0)
    ensures Waits(now, free, queue[i], cs[i], upto) ==> AllWait(now, free, queue, cs, i, upto)
  {
    forall j | i < j < |queue|
      ensures Waits(now, free, queue[j], cs[j], 0) && Waits(now, free + [queue[i]], queue[j], cs[j], 0)
    {
      assert Waits(bps, free, queue[j], cs[j], 0);
    }
  }

  /** Both. */
  predicate Line(p: Places, bps: seq<Buffer>, fd: int, queue: seq<nat>, cs: seq<Chain>, i: nat, at: nat) {
    && Distinct(queue) && i <= |cs| && (i < |cs| ==> at < Total(cs[i]))
    && Queued(p.used, p.write, fd, queue, i, at) && AllWait(bps, p.free, queue, cs, i, at)
  }

  lemma LineHead(p: Places, bps: seq<Buffer>, fd: int, queue: seq<nat>, cs: seq<Chain>, i: nat, at: nat)
    requires Line(p, bps, fd, queue, cs, i, at)
    ensures |cs| == |queue|
    ensures Head(p.used, p.write, fd) == if i < |queue| then Some(queue[i]) else None
    ensures i < |queue| ==> queue[i] < |bps| && Outgoing(bps[queue[i]], cs[i], at)
    ensures i == |queue| ==> fd !in p.used && QueueOf(p.write, fd) == []
  {
    QueuedHead(p.used, p.write, fd, queue, i, at);
    if i < |queue| {
      assert Waits(bps, p.free, queue[i], cs[i], at);
    }
  }

  /** Which chain comes next after a write. */
  function NextChain(r: FdState, i: nat): nat {
    if r == Ready then i + 1 else i
  }

  /** How much of it is written. */
  function NextAt(r: FdState, before: seq<Offer>, c: Chain, at: nat): nat
    requires at <= Total(c)
  {
    match r
    case Ready => 0
    case TryAgain => Upto(before, c, at)
    case Error => at
  }

  lemma LineNext(p: Places, bps: seq<Buffer>, now: Places, after: seq<Buffer>, fd: int, queue: seq<nat>,
                 cs: seq<Chain>, i: nat, at: nat, before: seq<Offer>, r: FdState)
    requires Line(p, bps, fd, queue, cs, i, at) && i < |queue| && i < |cs| && Sendable(cs)
    requires Stepped(p, bps, now, after, fd, queue[i], cs[i], Upto(before, cs[i], at), r)
    requires r == TryAgain ==> Upto(before, cs[i], at) < Total(cs[i])
    ensures r != Error ==> Line(now, after, fd, queue, cs, NextChain(r, i), NextAt(r, before, cs[i], at))
    ensures now.free == p.free + if r == TryAgain then [] else [queue[i]]
  {
    var upto := Upto(before, cs[i], at);
    LineHead(p, bps, fd, queue, cs, i, at);
    assert Waits(bps, p.free, queue[i], cs[i], at);
    QueuedNext(p.used, p.write, fd, queue, i, at, upto);
    OthersWait(bps, after, p.free, queue, cs, i, at, upto);
    if i + 1 < |cs| {
      NotEmpty(cs[i + 1]);
    }
  }

  /** What has gone out: whole chains, and a part of the next one. */
  function Output(cs: seq<Chain>, i: nat, at: nat): seq<byte>
    requires Sendable(cs) && i <= |cs| && (i < |cs| ==> at <= Total(cs[i]))
  {
    Stream(cs[..i]) + if i < |cs| then Encode(cs[i])[..at] else []
  }

  /** One write adds its bytes. */
  lemma OutputMore(cs: seq<Chain>, i: nat, at: nat, upto: nat)
    requires Sendable(cs) && i < |cs| && at <= upto <= Total(cs[i])
    ensures Output(cs, i, at) + Encode(cs[i])[at..upto] == Output(cs, i, upto)
    ensures upto == Total(cs[i]) ==> Output(cs, i, upto) == Output(cs, i + 1, 0)
  {
    TakeJoin(Encode(cs[i]), at, upto);
    Assoc(Stream(cs[..i]), Encode(cs[i])[..at], Encode(cs[i])[at..upto]);
    if upto == Total(cs[i]) {
      StreamAt(cs, i);
      assert Encode(cs[i])[..upto] == Encode(cs[i]);
      if i + 1 < |cs| {
        assert Encode(cs[i + 1])[..0] == [];
      }
    }
  }

  /** The end of the queue is reached exactly when everything has gone out. */
  lemma OutputAll(cs: seq<Chain>, i: nat, at: nat)
    requires Sendable(cs) && i <= |cs| && (i < |cs| ==> at < Total(cs[i]))
    ensures Output(cs, i, at) <= Stream(cs)
    ensures i < |cs| <==> |Output(cs, i, at)| < |Stream(cs)|
    ensures i == |cs| ==> Output(cs, i, at) == Stream(cs)
  {
    SentIsPrefix(cs, i, at);
  }

  lemma QueueMore(free: seq<nat>, queue: seq<nat>, i: nat)
    requires i < |queue|
    ensures (free + queue[..i]) + [queue[i]] == free + queue[..i + 1]
  {
  }

  /** `sent` and then the output from byte `from` on up to there, for offers that were used well. */
  predicate Written(sent: seq<byte>, offers: seq<Offer>, now: seq<byte>, left: seq<Offer>,
                    cs: seq<Chain>, from: nat, i: nat, at: nat)
  {
    && Sendable(cs) && i <= |cs| && (i < |cs| ==> at < Total(cs[i])) && from <= |Output(cs, i, at)|
    && now == sent + Output(cs, i, at)[from..] && Paid(offers, left, |now| - |sent|)
  }

  lemma DropJoin(out: seq<byte>, more: seq<byte>, from: nat)
    requires from <= |out|
    ensures (out + more)[from..] == out[from..] + more
  {
  }

  /** One write: the next part of the output, or the next chain, unless an error was offered. */
  lemma WrittenMore(sent: seq<byte>, offers: seq<Offer>, now: seq<byte>, left: seq<Offer>,
                    cs: seq<Chain>, from: nat, i: nat, at: nat, later: seq<byte>, rest: seq<Offer>, r: FdState)
    requires Written(sent, offers, now, left, cs, from, i, at) && i < |cs| && left != []
    requires Wrote(left, rest, now, later, cs[i], at, r)
    ensures rest == left[1..] && (r == Error ==> left[0] == Fail)
    ensures r == TryAgain ==> Upto(left, cs[i], at) < Total(cs[i])
    ensures Written(sent, offers, later, rest, cs, from, NextChain(r, i), NextAt(r, left, cs[i], at))
  {
    AnswerPays(left, Total(cs[i]) - at);
    var upto := Upto(left, cs[i], at);
    var out, more := Output(cs, i, at), Encode(cs[i])[at..upto];
    OutputMore(cs, i, at, upto);
    DropJoin(out, more, from);
    Assoc(sent, out[from..], more);
    if r == Ready && i + 1 < |cs| {
      NotEmpty(cs[i + 1]);
    }
  }

  /** At the start, when the first `at` bytes were written before. */
  lemma WrittenNothing(sent: seq<byte>, offers: seq<Offer>, cs: seq<Chain>, at: nat)
    requires Sendable(cs) && if cs == [] then at == 0 else at < Total(cs[0])
    ensures Written(sent, offers, sent, offers, cs, at, 0, at)
  {
    assert |Output(cs, 0, at)| == at;
    assert Output(cs, 0, at)[at..] == [];
    assert sent + [] == sent;
  }

  /** Enough useful offers, used up, were enough for everything. */
  lemma WrittenAll(sent: seq<byte>, offers: seq<Offer>, now: seq<byte>, left: seq<Offer>,
                   cs: seq<Chain>, from: nat, i: nat, at: nat)
    requires Written(sent, offers, now, left, cs, from, i, at)
    ensures from <= |Stream(cs)|
    ensures i == |cs| ==> now == sent + Stream(cs)[from..]
    ensures Enough(offers, |Stream(cs)| - from) && left == [] ==> i == |cs|
  {
    OutputAll(cs, i, at);
  }

  /** One call while buffers wait. */
  method FlushNext(pool: BufferPool<Buffer>, fd: int, sock: Socket, ghost queue: seq<nat>, ghost cs: seq<Chain>,
                   ghost i: nat, ghost at: nat, ghost sent: seq<byte>, ghost offers: seq<Offer>, ghost free: seq<nat>,
                   ghost from: nat)
    returns (r: FdState)
    requires pool.Valid() && Sendable(cs) && Line(pool.At(), pool.bps[..], fd, queue, cs, i, at)
    requires i < |queue| && i < |cs| && pool.free == free + queue[..i]
    requires sock.offers != [] && Written(sent, offers, sock.sent, sock.offers, cs, from, i, at)
    modifies pool`free, pool`used, pool`write, pool`owner, pool`taken, pool.bps, sock`sent, sock`offers
    ensures var next, upto := NextChain(r, i), NextAt(r, old(sock.offers), cs[i], at);
      && pool.Valid() && Written(sent, offers, sock.sent, sock.offers, cs, from, next, upto)
      && (r != Error ==> Line(pool.At(), pool.bps[..], fd, queue, cs, next, upto))
    ensures r != Error ==> pool.free == free + queue[..NextChain(r, i)]
    ensures sock.offers == old(sock.offers)[1..] && (r == Error ==> old(sock.offers)[0] == Fail)
  {
    ghost var p, bps, now, left := pool.At(), pool.bps[..], sock.sent, sock.offers;
    LineHead(p, bps, fd, queue, cs, i, at);
    QueueMore(free, queue, i);
    var st := OnTcpWrite(pool, fd, sock, cs[i], at);
    r := st.value;
    WrittenMore(sent, offers, now, left, cs, from, i, at, sock.sent, sock.offers, r);
    LineNext(p, bps, pool.At(), pool.bps[..], fd, queue, cs, i, at, left, r);
  }

  /** Layers together: the buffers queued for a descriptor go out in their order, and come back to the pool;
      with enough useful offers and no error, all of them do, and the peer gets exactly their chains.  Of the
      first chain, `at` bytes may have been written before. */
  method Flush(pool: BufferPool<Buffer>, fd: int, sock: Socket, ghost queue: seq<nat>, ghost cs: seq<Chain>,
               ghost at: nat)
    returns (ghost done: nat, ghost part: nat)
    requires pool.Valid() && Sendable(cs) && Line(pool.At(), pool.bps[..], fd, queue, cs, 0, at)
    modifies pool`free, pool`used, pool`write, pool`owner, pool`taken, pool.bps, sock`sent, sock`offers
    ensures pool.Valid() && Written(old(sock.sent), old(sock.offers), sock.sent, sock.offers, cs, at, done, part)
    ensures done < |cs| ==> sock.offers == [] || Fail in old(sock.offers)
    ensures at <= |Stream(cs)|
    ensures Enough(old(sock.offers), |Stream(cs)| - at) ==>
              && sock.sent == old(sock.sent) + Stream(cs)[at..]
              && fd !in pool.used && QueueOf(pool.write, fd) == [] && pool.free == old(pool.free) + queue
  {
    ghost var sent, free, offers := sock.sent, pool.free, sock.offers;
    var r;
    r, done, part := FlushWhile(pool, fd, sock, queue, cs, at);
    WrittenAll(sent, offers, sock.sent, sock.offers, cs, at, done, part);
    if r != Error {
      LineHead(pool.At(), pool.bps[..], fd, queue, cs, done, part);
      assert queue[..|queue|] == queue;
    }
  }

  /** The calls themselves: while there is something to write, and the socket lets them. */
  method FlushWhile(pool: BufferPool<Buffer>, fd: int, sock: Socket, ghost queue: seq<nat>, ghost cs: seq<Chain>,
                    ghost at: nat)
    returns (r: FdState, ghost done: nat, ghost part: nat)
    requires pool.Valid() && Sendable(cs) && Line(pool.At(), pool.bps[..], fd, queue, cs, 0, at)
    modifies pool`free, pool`used, pool`write, pool`owner, pool`taken, pool.bps, sock`sent, sock`offers
    ensures pool.Valid() && Written(old(sock.sent), old(sock.offers), sock.sent, sock.offers, cs, at, done, part)
    ensures r != Error ==>
              && Line(pool.At(), pool.bps[..], fd, queue, cs, done, part)
              && pool.free == old(pool.free) + queue[..done]
    ensures r == Error || sock.offers == [] || Head(pool.used, pool.write, fd) == None
    ensures r == Error ==> Fail in old(sock.offers)
  {
    r, done, part := Ready, 0, at;
    ghost var sent, free, offers := sock.sent, pool.free, sock.offers;
    LineHead(pool.At(), pool.bps[..], fd, queue, cs, 0, at);
    WrittenNothing(sent, offers, cs, at);
    assert free + queue[..0] == free;
    while r != Error && sock.offers != [] && Head(pool.used, pool.write, fd).Some?
      invariant Written(sent, offers, sock.sent, sock.offers, cs, at, done, part)
      invariant pool.Valid()
      invariant r != Error ==> Line(pool.At(), pool.bps[..], fd, queue, cs, done, part)
      invariant r != Error ==> pool.free == free + queue[..done]
      invariant Fail in sock.offers || r == Error ==> Fail in offers
      decreases r != Error, |sock.offers|
    {
      LineHead(pool.At(), pool.bps[..], fd, queue, cs, done, part);
      ghost var left := sock.offers;
      r := FlushNext(pool, fd, sock, queue, cs, done, part, sent, offers, free, at);
      done, part := NextChain(r, done), NextAt(r, left, cs[done], part);
    }
  }
}
