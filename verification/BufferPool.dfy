/** The pool of packet buffers shared by all sockets (src/algo_utils.c) and two of its clients
    (src/proxy.c).  Buffers are named by their position in the `bps` array. */
module BufferPools {
  import opened Basics
  import opened PacketChain
  import opened BufferPackets

  const PACKET_BUFFER_SIZE: nat := 1024

  /** Calls that do not come back: `exit(EXIT_FAILURE)`, or a NULL buffer used as if it were one. */
  datatype Outcome = Ok | Exit | Crash

  /** Who has a buffer; `InHand` is a buffer on its way from one place to another. */
  datatype Owner = InFree | InUse(fd: int) | InApp(key: int) | InWrite(fd: int) | InHand

  /** The collections that hold buffers.  `mv_buffer_rtoa` can store a NULL buffer under a key. */
  datatype Places = Places(free: seq<nat>, used: map<int, nat>, app: map<int, Option<nat>>, write: map<int, seq<nat>>)

  /** A queue per descriptor; no entry is an empty queue. */
  function QueueOf(m: map<int, seq<nat>>, fd: int): seq<nat> {
    if fd in m then m[fd] else []
  }

  predicate Distinct(s: seq<nat>) {
    forall i, j | 0 <= i < j < |s| :: s[i] != s[j]
  }

  ghost predicate Placed(o: Owner, b: nat, p: Places, hand: Option<nat>) {
    match o
    case InFree => b in p.free
    case InUse(fd) => fd in p.used && p.used[fd] == b
    case InApp(k) => k in p.app && p.app[k] == Some(b)
    case InWrite(fd) => fd in p.write && b in p.write[fd]
    case InHand => hand == Some(b)
  }

  ghost predicate FreeOwned(n: nat, owner: seq<Owner>, free: seq<nat>)
    requires |owner| == n
  {
    Distinct(free) && forall i | 0 <= i < |free| :: free[i] < n && owner[free[i]] == InFree
  }

  ghost predicate UsedOwned(n: nat, owner: seq<Owner>, used: map<int, nat>)
    requires |owner| == n
  {
    forall fd | fd in used :: used[fd] < n && owner[used[fd]] == InUse(fd)
  }

  ghost predicate AppOwned(n: nat, owner: seq<Owner>, app: map<int, Option<nat>>)
    requires |owner| == n
  {
    forall k | k in app && app[k].Some? :: app[k].value < n && owner[app[k].value] == InApp(k)
  }

  ghost predicate WriteOwned(n: nat, owner: seq<Owner>, write: map<int, seq<nat>>)
    requires |owner| == n
  {
    && (forall fd | fd in write :: Distinct(write[fd]))
    && (forall fd, i | fd in write && 0 <= i < |write[fd]| ::
          write[fd][i] < n && owner[write[fd][i]] == InWrite(fd))
  }

  /** Where every buffer is.  `owner` and the collections say the same thing in both directions,
      so no buffer is lost and none is in two places. */
  ghost predicate Partition(n: nat, owner: seq<Owner>, p: Places, hand: Option<nat>) {
    && |owner| == n
    && FreeOwned(n, owner, p.free)
    && UsedOwned(n, owner, p.used)
    && AppOwned(n, owner, p.app)
    && WriteOwned(n, owner, p.write)
    && (hand.Some? ==> hand.value < n && owner[hand.value] == InHand)
    && (forall b | 0 <= b < n :: Placed(owner[b], b, p, hand))
  }

  /** What was queued for a descriptor is what was taken for it, in that order, and what waits. */
  ghost predicate FifoOk(queued: map<int, seq<nat>>, taken: map<int, seq<nat>>, write: map<int, seq<nat>>) {
    forall fd :: QueueOf(queued, fd) == QueueOf(taken, fd) + QueueOf(write, fd)
  }

  lemma TakeInOrder(queued: map<int, seq<nat>>, taken: map<int, seq<nat>>, write: map<int, seq<nat>>, fd: int)
    requires FifoOk(queued, taken, write) && fd in write && write[fd] != []
    ensures FifoOk(queued, taken[fd := QueueOf(taken, fd) + [write[fd][0]]], write[fd := write[fd][1..]])
  {
    var t, w := taken[fd := QueueOf(taken, fd) + [write[fd][0]]], write[fd := write[fd][1..]];
    forall g ensures QueueOf(queued, g) == QueueOf(t, g) + QueueOf(w, g) {
      assert QueueOf(queued, g) == QueueOf(taken, g) + QueueOf(write, g);
    }
  }

  lemma QueueInOrder(queued: map<int, seq<nat>>, taken: map<int, seq<nat>>, write: map<int, seq<nat>>, fd: int, b: nat)
    requires FifoOk(queued, taken, write)
    ensures FifoOk(queued[fd := QueueOf(queued, fd) + [b]], taken, write[fd := QueueOf(write, fd) + [b]])
  {
    var q, w := queued[fd := QueueOf(queued, fd) + [b]], write[fd := QueueOf(write, fd) + [b]];
    forall g ensures QueueOf(q, g) == QueueOf(taken, g) + QueueOf(w, g) {
      assert QueueOf(queued, g) == QueueOf(taken, g) + QueueOf(write, g);
      if g == fd {
        Assoc(QueueOf(taken, fd), QueueOf(write, fd), [b]);
      }
    }
  }

  // ---------------------------------------------------- taking a buffer out

  lemma TakeFree(n: nat, owner: seq<Owner>, p: Places)
    requires Partition(n, owner, p, None) && p.free != []
    ensures Partition(n, owner[p.free[0] := InHand], p.(free := p.free[1..]), Some(p.free[0]))
  {
  }

  lemma TakeUsed(n: nat, owner: seq<Owner>, p: Places, fd: int)
    requires Partition(n, owner, p, None) && fd in p.used
    ensures Partition(n, owner[p.used[fd] := InHand], p.(used := p.used - {fd}), Some(p.used[fd]))
  {
  }

  lemma TakeApp(n: nat, owner: seq<Owner>, p: Places, k: int)
    requires Partition(n, owner, p, None) && k in p.app && p.app[k].Some?
    ensures Partition(n, owner[p.app[k].value := InHand], p.(app := p.app - {k}), p.app[k])
  {
  }

  lemma TakeWrite(n: nat, owner: seq<Owner>, p: Places, fd: int)
    requires Partition(n, owner, p, None) && fd in p.write && p.write[fd] != []
    ensures var q := p.write[fd];
      Partition(n, owner[q[0] := InHand], p.(write := p.write[fd := q[1..]]), Some(q[0]))
  {
  }

  // ---------------------------------------------------------- putting it back

  lemma PutFree(n: nat, owner: seq<Owner>, p: Places, b: nat)
    requires Partition(n, owner, p, Some(b))
    ensures Partition(n, owner[b := InFree], p.(free := p.free + [b]), None)
  {
  }

  lemma PutUsed(n: nat, owner: seq<Owner>, p: Places, b: nat, fd: int)
    requires Partition(n, owner, p, Some(b)) && fd !in p.used
    ensures Partition(n, owner[b := InUse(fd)], p.(used := p.used[fd := b]), None)
  {
  }

  lemma PutApp(n: nat, owner: seq<Owner>, p: Places, b: nat, k: int)
    requires Partition(n, owner, p, Some(b)) && k !in p.app
    ensures Partition(n, owner[b := InApp(k)], p.(app := p.app[k := Some(b)]), None)
  {
  }

  lemma PutWrite(n: nat, owner: seq<Owner>, p: Places, b: nat, fd: int)
    requires Partition(n, owner, p, Some(b))
    ensures Partition(n, owner[b := InWrite(fd)], p.(write := p.write[fd := QueueOf(p.write, fd) + [b]]), None)
  {
  }

  // ------------------------------------------------------------------- moving

  lemma FreeToUsed(n: nat, owner: seq<Owner>, p: Places, fd: int)
    requires Partition(n, owner, p, None) && p.free != [] && fd !in p.used
    ensures var b := p.free[0];
      Partition(n, owner[b := InUse(fd)], p.(free := p.free[1..], used := p.used[fd := b]), None)
  {
    var b := p.free[0];
    TakeFree(n, owner, p);
    PutUsed(n, owner[b := InHand], p.(free := p.free[1..]), b, fd);
    assert owner[b := InHand][b := InUse(fd)] == owner[b := InUse(fd)];
  }

  lemma FreeToWrite(n: nat, owner: seq<Owner>, p: Places, fd: int)
    requires Partition(n, owner, p, None) && p.free != []
    ensures var b := p.free[0];
      Partition(n, owner[b := InWrite(fd)],
                p.(free := p.free[1..], write := p.write[fd := QueueOf(p.write, fd) + [b]]), None)
  {
    var b := p.free[0];
    TakeFree(n, owner, p);
    PutWrite(n, owner[b := InHand], p.(free := p.free[1..]), b, fd);
    assert owner[b := InHand][b := InWrite(fd)] == owner[b := InWrite(fd)];
  }

  lemma FreeToApp(n: nat, owner: seq<Owner>, p: Places, k: int)
    requires Partition(n, owner, p, None) && p.free != [] && k !in p.app
    ensures var b := p.free[0];
      Partition(n, owner[b := InApp(k)], p.(free := p.free[1..], app := p.app[k := Some(b)]), None)
  {
    var b := p.free[0];
    TakeFree(n, owner, p);
    PutApp(n, owner[b := InHand], p.(free := p.free[1..]), b, k);
    assert owner[b := InHand][b := InApp(k)] == owner[b := InApp(k)];
  }

  lemma WriteToUsed(n: nat, owner: seq<Owner>, p: Places, fd: int)
    requires Partition(n, owner, p, None) && fd in p.write && p.write[fd] != [] && fd !in p.used
    ensures var b := p.write[fd][0];
      Partition(n, owner[b := InUse(fd)], p.(write := p.write[fd := p.write[fd][1..]], used := p.used[fd := b]), None)
  {
    var b := p.write[fd][0];
    TakeWrite(n, owner, p, fd);
    PutUsed(n, owner[b := InHand], p.(write := p.write[fd := p.write[fd][1..]]), b, fd);
    assert owner[b := InHand][b := InUse(fd)] == owner[b := InUse(fd)];
  }

  lemma UsedToWrite(n: nat, owner: seq<Owner>, p: Places, from: int, to: int)
    requires Partition(n, owner, p, None) && from in p.used
    ensures var b := p.used[from];
      Partition(n, owner[b := InWrite(to)],
                p.(used := p.used - {from}, write := p.write[to := QueueOf(p.write, to) + [b]]), None)
  {
    var b := p.used[from];
    TakeUsed(n, owner, p, from);
    PutWrite(n, owner[b := InHand], p.(used := p.used - {from}), b, to);
    assert owner[b := InHand][b := InWrite(to)] == owner[b := InWrite(to)];
  }

  lemma UsedToFree(n: nat, owner: seq<Owner>, p: Places, from: int)
    requires Partition(n, owner, p, None) && from in p.used
    ensures var b := p.used[from];
      Partition(n, owner[b := InFree], p.(used := p.used - {from}, free := p.free + [b]), None)
  {
    var b := p.used[from];
    TakeUsed(n, owner, p, from);
    PutFree(n, owner[b := InHand], p.(used := p.used - {from}), b);
    assert owner[b := InHand][b := InFree] == owner[b := InFree];
  }

  lemma UsedToApp(n: nat, owner: seq<Owner>, p: Places, from: int, k: int)
    requires Partition(n, owner, p, None) && from in p.used && k !in p.app
    ensures var b := p.used[from];
      Partition(n, owner[b := InApp(k)], p.(used := p.used - {from}, app := p.app[k := Some(b)]), None)
  {
    var b := p.used[from];
    TakeUsed(n, owner, p, from);
    PutApp(n, owner[b := InHand], p.(used := p.used - {from}), b, k);
    assert owner[b := InHand][b := InApp(k)] == owner[b := InApp(k)];
  }

  lemma AppToWrite(n: nat, owner: seq<Owner>, p: Places, k: int, to: int)
    requires Partition(n, owner, p, None) && k in p.app && p.app[k].Some?
    ensures var b := p.app[k].value;
      Partition(n, owner[b := InWrite(to)],
                p.(app := p.app - {k}, write := p.write[to := QueueOf(p.write, to) + [b]]), None)
  {
    var b := p.app[k].value;
    TakeApp(n, owner, p, k);
    PutWrite(n, owner[b := InHand], p.(app := p.app - {k}), b, to);
    assert owner[b := InHand][b := InWrite(to)] == owner[b := InWrite(to)];
  }

  lemma AppToFree(n: nat, owner: seq<Owner>, p: Places, k: int)
    requires Partition(n, owner, p, None) && k in p.app && p.app[k].Some?
    ensures var b := p.app[k].value;
      Partition(n, owner[b := InFree], p.(app := p.app - {k}, free := p.free + [b]), None)
  {
    var b := p.app[k].value;
    TakeApp(n, owner, p, k);
    PutFree(n, owner[b := InHand], p.(app := p.app - {k}), b);
    assert owner[b := InHand][b := InFree] == owner[b := InFree];
  }

  // ---------------------------------------------------------------- counting

  function Elements(s: seq<nat>): set<nat> {
    set x | x in s
  }

  lemma {:induction false} DistinctCard(s: seq<nat>)
    requires Distinct(s)
    ensures |Elements(s)| == |s|
  {
    if s != [] {
      DistinctCard(s[1..]);
      assert s[0] !in s[1..];
      assert Elements(s) == {s[0]} + Elements(s[1..]);
    } else {
      assert Elements(s) == {};
    }
  }

  function Range(m: map<int, nat>): set<nat> {
    set x | x in m :: m[x]
  }

  lemma {:induction false} InjectiveCard(m: map<int, nat>)
    requires forall x, y | x in m && y in m && m[x] == m[y] :: x == y
    ensures |Range(m)| == |m|
    decreases |m|
  {
    if forall x :: x !in m {
      assert m == map[] && Range(m) == {};
    } else {
      var x :| x in m;
      var rest := m - {x};
      InjectiveCard(rest);
      assert m.Keys == rest.Keys + {x};
      assert forall y | y in rest :: m[y] == rest[y] && rest[y] != m[x];
      assert Range(m) == Range(rest) + {m[x]};
    }
  }

  /** The keys under which a real buffer is stored. */
  function Real(app: map<int, Option<nat>>): map<int, nat> {
    map k | k in app && app[k].Some? :: app[k].value
  }

  ghost function AnyKey(write: map<int, seq<nat>>): (fd: int)
    requires write != map[]
    ensures fd in write
  {
    if fd :| fd in write then fd else assert false; 0
  }

  /** How many buffers wait in write queues, over all descriptors. */
  ghost function Waiting(write: map<int, seq<nat>>): nat
    decreases |write|
  {
    if write == map[] then 0
    else
      var fd := AnyKey(write);
      assert |write - {fd}| < |write| by { assert write.Keys == (write - {fd}).Keys + {fd}; }
      |write[fd]| + Waiting(write - {fd})
  }

  function WaitingSet(write: map<int, seq<nat>>): set<nat> {
    set fd, x | fd in write && x in write[fd] :: x
  }

  lemma WaitingSplit(n: nat, owner: seq<Owner>, write: map<int, seq<nat>>, fd: int)
    requires |owner| == n && WriteOwned(n, owner, write) && fd in write
    ensures WaitingSet(write) == WaitingSet(write - {fd}) + Elements(write[fd])
    ensures WaitingSet(write - {fd}) !! Elements(write[fd])
    ensures WriteOwned(n, owner, write - {fd})
  {
    var rest := write - {fd};
    forall x | x in WaitingSet(write) ensures x in WaitingSet(rest) + Elements(write[fd]) {
      var g :| g in write && x in write[g];
      assert g == fd || (g in rest && x in rest[g]);
    }
    forall x | x in WaitingSet(rest) ensures x in WaitingSet(write) {
      var g :| g in rest && x in rest[g];
      assert g in write && x in write[g];
    }
  }

  lemma {:induction false} WaitingCard(n: nat, owner: seq<Owner>, write: map<int, seq<nat>>)
    requires |owner| == n && WriteOwned(n, owner, write)
    ensures |WaitingSet(write)| == Waiting(write)
    decreases |write|
  {
    if write != map[] {
      var fd := AnyKey(write);
      var rest := write - {fd};
      assert write.Keys == rest.Keys + {fd};
      WaitingCard(n, owner, rest);
      DistinctCard(write[fd]);
      WaitingSplit(n, owner, write, fd);
    } else {
      assert WaitingSet(write) == {};
    }
  }

  /** Each place holds exactly the buffers of its kind of owner. */
  lemma PlacesByOwner(n: nat, owner: seq<Owner>, p: Places)
    requires Partition(n, owner, p, None)
    ensures forall b: nat :: b in Elements(p.free) <==> b < n && owner[b].InFree?
    ensures forall b: nat :: b in Range(p.used) <==> b < n && owner[b].InUse?
    ensures forall b: nat :: b in Range(Real(p.app)) <==> b < n && owner[b].InApp?
    ensures forall b: nat :: b in WaitingSet(p.write) <==> b < n && owner[b].InWrite?
    ensures forall b: nat | b < n :: !owner[b].InHand?
  {
    forall b: nat | b < n
      ensures owner[b].InUse? ==> b in Range(p.used)
      ensures owner[b].InApp? ==> b in Range(Real(p.app))
      ensures owner[b].InWrite? ==> b in WaitingSet(p.write)
    {
      assert Placed(owner[b], b, p, None);
      match owner[b]
      case InUse(fd) => assert p.used[fd] == b;
      case InApp(k) => assert k in Real(p.app) && Real(p.app)[k] == b;
      case _ =>
    }
    forall b | b in Range(Real(p.app)) ensures b < n && owner[b].InApp? {
      var k :| k in Real(p.app) && Real(p.app)[k] == b;
      assert k in p.app && p.app[k] == Some(b);
    }
  }

  lemma FourKinds(n: nat, owner: seq<Owner>, f: set<nat>, u: set<nat>, a: set<nat>, w: set<nat>)
    requires |owner| == n && forall b: nat | b < n :: !owner[b].InHand?
    requires forall b: nat :: b in f <==> b < n && owner[b].InFree?
    requires forall b: nat :: b in u <==> b < n && owner[b].InUse?
    requires forall b: nat :: b in a <==> b < n && owner[b].InApp?
    requires forall b: nat :: b in w <==> b < n && owner[b].InWrite?
    ensures |f| + |u| + |a| + |w| == n
  {
    var fu := f + u;
    var fua := fu + a;
    assert f !! u && fu !! a && fua !! w;
    assert forall b: nat :: b in fua + w <==> b < n;
    RangeCard(n, fua + w);
  }

  /** Conservation: the four places together hold exactly as many buffers as there are. */
  lemma BuffersConserved(n: nat, owner: seq<Owner>, p: Places)
    requires Partition(n, owner, p, None)
    ensures |p.free| + |p.used| + |Real(p.app)| + Waiting(p.write) == n
  {
    var f, u, a, w := Elements(p.free), Range(p.used), Range(Real(p.app)), WaitingSet(p.write);
    DistinctCard(p.free);
    InjectiveCard(p.used);
    InjectiveCard(Real(p.app));
    WaitingCard(n, owner, p.write);
    PlacesByOwner(n, owner, p);
    FourKinds(n, owner, f, u, a, w);
  }

  /** `g_queue_remove_all` */
  function RemoveAll(s: seq<int>, x: int): (r: seq<int>)
    ensures x !in r
    ensures forall y | y != x :: multiset(r)[y] == multiset(s)[y]
  {
    if s == [] then []
    else
      assert s == [s[0]] + s[1..];
      (if s[0] == x then [] else [s[0]]) + RemoveAll(s[1..], x)
  }

  /** A NULL buffer under a key is in no place. */
  lemma NullToApp(n: nat, owner: seq<Owner>, p: Places, to: int)
    requires Partition(n, owner, p, None) && to !in p.app
    ensures Partition(n, owner, p.(app := p.app[to := None]), None)
  {
  }

  lemma RemoveAbsent(m: map<int, nat>, k: int)
    ensures k !in m ==> m - {k} == m
  {
  }

  lemma PutThenRemove(m: map<int, nat>, k: int, v: nat)
    ensures m[k := v] - {k} == m - {k}
    ensures k in m && m[k] == v ==> m[k := v] == m
  {
  }

  lemma PutRemove(m: map<int, nat>, k: int, v: nat)
    requires k !in m
    ensures m[k := v] - {k} == m
  {
  }

  /** Contents change only in buffers that are free now. */
  predicate KeptBut<T(==)>(before: seq<T>, after: seq<T>, free: seq<nat>) {
    |before| == |after| && forall b | 0 <= b < |after| && b !in free :: after[b] == before[b]
  }

  /** The contents after the buffers of `q` were zeroed one after the other. */
  function Zeroed<T>(bps: seq<T>, q: seq<nat>, zero: T): (r: seq<T>)
    ensures |r| == |bps|
  {
    if q == [] then bps
    else
      var r, b := Zeroed(bps, q[..|q| - 1], zero), q[|q| - 1];
      if b < |r| then r[b := zero] else r
  }

  lemma ZeroedNext<T>(bps: seq<T>, q: seq<nat>, done: nat, zero: T)
    requires done < |q| && q[done] < |bps|
    ensures Zeroed(bps, q[..done + 1], zero) == Zeroed(bps, q[..done], zero)[q[done] := zero]
  {
    assert q[..done + 1][..done] == q[..done];
  }

  /** Exactly those are zero now, and all others as they were. */
  lemma {:induction false} ZeroedAt<T>(bps: seq<T>, q: seq<nat>, zero: T, b: nat)
    requires b < |bps|
    ensures Zeroed(bps, q, zero)[b] == if b in q then zero else bps[b]
  {
    if q != [] {
      ZeroedAt(bps, q[..|q| - 1], zero, b);
    }
  }

  lemma ZeroedKept<T>(bps: seq<T>, q: seq<nat>, zero: T, free: seq<nat>)
    ensures KeptBut(bps, Zeroed(bps, q, zero), free + q)
  {
    forall b | 0 <= b < |bps| && b !in free + q ensures Zeroed(bps, q, zero)[b] == bps[b] {
      ZeroedAt(bps, q, zero, b);
    }
  }

  lemma {:induction false} ZeroedTwice<T>(bps: seq<T>, p: seq<nat>, q: seq<nat>, zero: T)
    ensures Zeroed(Zeroed(bps, p, zero), q, zero) == Zeroed(bps, p + q, zero)
    decreases |q|
  {
    if q == [] {
      assert p + q == p;
    } else {
      ZeroedTwice(bps, p, q[..|q| - 1], zero);
      assert (p + q)[..|p + q| - 1] == p + q[..|q| - 1];
    }
  }

  /** The queues after the first `n` buffers of one of them were taken. */
  function Taken(write: map<int, seq<nat>>, fd: int, n: nat): map<int, seq<nat>>
    requires n <= |QueueOf(write, fd)|
  {
    if QueueOf(write, fd) == [] then write else write[fd := QueueOf(write, fd)[n..]]
  }

  /** Between two rounds of draining: `done` buffers are free, and the next one is in use, or none is left. */
  predicate Draining(used: map<int, nat>, write: map<int, seq<nat>>, use: map<int, nat>, waiting: map<int, seq<nat>>,
                     fd: int, done: nat, r: Option<nat>) {
    var queue := QueueOf(waiting, fd);
    && fd !in use
    && if r == None then done == |queue| && used == use && write == Taken(waiting, fd, done)
       else done < |queue| && used == use[fd := queue[done]] && write == Taken(waiting, fd, done + 1)
  }

  /** What taking the next buffer, if any, does to the queues. */
  lemma DrainNext(use: map<int, nat>, waiting: map<int, seq<nat>>, fd: int, done: nat)
    requires fd !in use && done <= |QueueOf(waiting, fd)|
    ensures var w := Taken(waiting, fd, done);
      var q := QueueOf(w, fd);
      if q == [] then Draining(use, w, use, waiting, fd, done, None)
      else Draining(use[fd := q[0]], w[fd := q[1..]], use, waiting, fd, done, Some(q[0]))
  {
    var queue := QueueOf(waiting, fd);
    if queue != [] {
      var w := Taken(waiting, fd, done);
      assert QueueOf(w, fd) == queue[done..];
      if done < |queue| {
        assert queue[done..][1..] == queue[done + 1..];
        assert w[fd := queue[done + 1..]] == waiting[fd := queue[done + 1..]];
      }
    }
  }

  lemma TakenAll(write: map<int, seq<nat>>, fd: int)
    ensures var w := Taken(write, fd, |QueueOf(write, fd)|);
      QueueOf(w, fd) == [] && forall g | g != fd :: QueueOf(w, g) == QueueOf(write, g)
  {
  }

  lemma NothingTaken(write: map<int, seq<nat>>, fd: int)
    ensures Taken(write, fd, 0) == write
  {
    if QueueOf(write, fd) != [] {
      assert write[fd][0..] == write[fd];
    }
  }

  lemma NextTaken(start: seq<nat>, q: seq<nat>, done: nat)
    requires done < |q|
    ensures (start + q[..done]) + [q[done]] == start + q[..done + 1]
  {
  }

  class BufferPool<T(==)> {
    const zero: T
    const bps: array<T>
    var free: seq<nat>
    var used: map<int, nat>
    var readWaiting: seq<int>
    var app: map<int, Option<nat>>
    var write: map<int, seq<nat>>

    ghost var owner: seq<Owner>
    /** Everything ever queued for, and taken to be written on, each descriptor. */
    ghost var queued: map<int, seq<nat>>
    ghost var taken: map<int, seq<nat>>

    ghost function At(): Places
      reads this
    {
      Places(free, used, app, write)
    }

    /** Nothing lost or doubled, free buffers zeroed, and every queue first in, first out. */
    ghost predicate Valid()
      reads this, bps
    {
      && Partition(bps.Length, owner, At(), None)
      && (forall i | 0 <= i < |free| :: bps[free[i]] == zero)
      && FifoOk(queued, taken, write)
    }

    constructor (zero: T)
      ensures Valid() && bps.Length == 1024 && this.zero == zero && fresh(bps)
      ensures |free| == 1024 && used == map[] && app == map[] && write == map[] && readWaiting == []
    {
      this.zero := zero;
      bps := new T[PACKET_BUFFER_SIZE](_ => zero);
      free := seq(PACKET_BUFFER_SIZE, i => i);
      used, app, write, readWaiting := map[], map[], map[], [];
      owner := seq(PACKET_BUFFER_SIZE, _ => InFree);
      queued, taken := map[], map[];
      new;
      forall b: nat | b < PACKET_BUFFER_SIZE ensures b in free {
        assert free[b] == b;
      }
    }

    /** The owner of a buffer writes its contents; free buffers belong to nobody. */
    method Store(b: nat, v: T)
      requires Valid() && b < bps.Length && b !in free
      modifies bps
      ensures Valid() && bps[..] == old(bps[..])[b := v]
    {
      bps[b] := v;
    }

    method GetReadBuffer(fd: int) returns (r: Option<nat>)
      requires Valid()
      modifies this`free, this`used, this`readWaiting, this`owner
      ensures Valid()
      ensures fd in old(used) ==> r == Some(old(used)[fd]) && At() == old(At()) && readWaiting == old(readWaiting)
      ensures fd !in old(used) && old(free) != [] ==>
                && r == Some(old(free)[0]) && readWaiting == old(readWaiting)
                && free == old(free)[1..] && used == old(used)[fd := old(free)[0]]
      ensures fd !in old(used) && old(free) == [] ==>
                r == None && At() == old(At()) && readWaiting == old(readWaiting) + [fd]
    {
      if fd in used {
        return Some(used[fd]);
      }
      if free == [] {
        readWaiting := readWaiting + [fd];
        return None;
      }
      var b := free[0];
      FreeToUsed(bps.Length, owner, At(), fd);
      free, used, owner := free[1..], used[fd := b], owner[b := InUse(fd)];
      r := Some(b);
    }

    method GetWriteBuffer(fd: int) returns (r: Option<nat>)
      requires Valid()
      modifies this`used, this`write, this`owner, this`taken
      ensures Valid()
      ensures fd in old(used) ==> r == Some(old(used)[fd]) && At() == old(At()) && taken == old(taken)
      ensures fd !in old(used) && QueueOf(old(write), fd) == [] ==>
                r == None && At() == old(At()) && taken == old(taken)
      ensures fd !in old(used) && QueueOf(old(write), fd) != [] ==>
                && r == Some(QueueOf(old(write), fd)[0]) && used == old(used)[fd := r.value]
                && write == old(write)[fd := QueueOf(old(write), fd)[1..]]
                && taken == old(taken)[fd := QueueOf(old(taken), fd) + [r.value]]
    {
      if fd in used {
        return Some(used[fd]);
      }
      if fd !in write || write[fd] == [] {
        return None;
      }
      var b := TakeFromQueue(fd);
      r := Some(b);
    }

    /** Moves the head of a write queue into use. */
    method TakeFromQueue(fd: int) returns (b: nat)
      requires Valid() && fd in write && write[fd] != [] && fd !in used
      modifies this`used, this`write, this`owner, this`taken
      ensures Valid() && b == old(write)[fd][0]
      ensures used == old(used)[fd := b] && write == old(write)[fd := old(write)[fd][1..]]
      ensures taken == old(taken)[fd := QueueOf(old(taken), fd) + [b]]
    {
      var queue := write[fd];
      b := queue[0];
      WriteToUsed(bps.Length, owner, At(), fd);
      TakeInOrder(queued, taken, write, fd);
      ghost var p := At().(write := write[fd := queue[1..]], used := used[fd := b]);
      write, used, owner := write[fd := queue[1..]], used[fd := b], owner[b := InUse(fd)];
      taken := taken[fd := QueueOf(taken, fd) + [b]];
      assert At() == p;
    }

    /** `mv_buffer_rtow` */
    method MoveReadToWrite(from: int, to: int) returns (r: Outcome)
      requires Valid()
      modifies this`used, this`write, this`owner, this`queued
      ensures Valid()
      ensures from !in old(used) ==> r == Exit && At() == old(At()) && queued == old(queued)
      ensures from in old(used) ==>
                var b := old(used)[from];
                && r == Ok && used == old(used) - {from}
                && write == old(write)[to := QueueOf(old(write), to) + [b]]
                && queued == old(queued)[to := QueueOf(old(queued), to) + [b]]
    {
      if from !in used {
        return Exit;
      }
      var b := used[from];
      UsedToWrite(bps.Length, owner, At(), from, to);
      QueueInOrder(queued, taken, write, to, b);
      ghost var p := At().(used := used - {from}, write := write[to := QueueOf(write, to) + [b]]);
      used, write := used - {from}, write[to := QueueOf(write, to) + [b]];
      owner, queued := owner[b := InWrite(to)], queued[to := QueueOf(queued, to) + [b]];
      assert At() == p;
      r := Ok;
    }

    /** `mv_buffer_rtof` and `mv_buffer_wtof`: the same code under two names. */
    method MoveUsedToFree(from: int)
      requires Valid()
      modifies this`free, this`used, this`owner, bps
      ensures Valid()
      ensures from !in old(used) ==> At() == old(At()) && bps[..] == old(bps[..])
      ensures from in old(used) ==>
                && used == old(used) - {from} && free == old(free) + [old(used)[from]]
                && bps[..] == old(bps[..])[old(used)[from] := zero]
    {
      if from !in used {
        return;
      }
      var b := used[from];
      UsedToFree(bps.Length, owner, At(), from);
      used, owner := used - {from}, owner[b := InFree];
      bps[b] := zero;
      free := free + [b];
    }

    /** `mv_buffer_rtoa`; without a buffer to move, the code stores NULL under the key. */
    method MoveReadToApp(from: int, to: int) returns (r: Outcome)
      requires Valid()
      modifies this`used, this`app, this`owner
      ensures Valid() <== r == Ok
      ensures r == Exit <==> to in old(app)
      ensures r != Crash && used == old(used) - {from}
      ensures r == Ok && from in old(used) ==> app == old(app)[to := Some(old(used)[from])]
      ensures r == Ok && from !in old(used) ==> app == old(app)[to := None]
    {
      RemoveAbsent(used, from);
      if to in app {
        used := used - {from};
        return Exit;
      }
      if from !in used {
        NullToApp(bps.Length, owner, At(), to);
        ghost var q := At().(app := app[to := None]);
        app := app[to := None];
        assert At() == q;
        return Ok;
      }
      var b := used[from];
      UsedToApp(bps.Length, owner, At(), from, to);
      ghost var p := At().(used := used - {from}, app := app[to := Some(b)]);
      used, app, owner := used - {from}, app[to := Some(b)], owner[b := InApp(to)];
      assert At() == p;
      r := Ok;
    }

    /** `get_app_buffer` */
    function GetAppBuffer(k: int): Option<nat>
      reads this
    {
      if k in app then app[k] else None
    }

    /** `mv_buffer_atow` */
    method MoveAppToWrite(from: int, to: int)
      requires Valid()
      modifies this`app, this`write, this`owner, this`queued
      ensures Valid()
      ensures old(GetAppBuffer(from)) == None ==> At() == old(At()) && queued == old(queued)
      ensures old(GetAppBuffer(from)).Some? ==>
                var b := old(GetAppBuffer(from)).value;
                && app == old(app) - {from}
                && write == old(write)[to := QueueOf(old(write), to) + [b]]
                && queued == old(queued)[to := QueueOf(old(queued), to) + [b]]
    {
      var got := GetAppBuffer(from);
      if got == None {
        return;
      }
      var b := got.value;
      AppToWrite(bps.Length, owner, At(), from, to);
      QueueInOrder(queued, taken, write, to, b);
      app, write := app - {from}, write[to := QueueOf(write, to) + [b]];
      owner, queued := owner[b := InWrite(to)], queued[to := QueueOf(queued, to) + [b]];
    }

    /** `mv_buffer_atof` */
    method MoveAppToFree(from: int) returns (r: Outcome)
      requires Valid()
      modifies this`app, this`free, this`owner, bps
      ensures Valid()
      ensures old(GetAppBuffer(from)) == None ==> r == Exit && At() == old(At()) && bps[..] == old(bps[..])
      ensures old(GetAppBuffer(from)).Some? ==>
                var b := old(GetAppBuffer(from)).value;
                r == Ok && app == old(app) - {from} && free == old(free) + [b] && bps[..] == old(bps[..])[b := zero]
    {
      var got := GetAppBuffer(from);
      if got == None {
        return Exit;
      }
      var b := got.value;
      AppToFree(bps.Length, owner, At(), from);
      app, owner := app - {from}, owner[b := InFree];
      bps[b] := zero;
      free := free + [b];
      r := Ok;
    }

    /** `inject_buffer_tow`: an empty buffer at the end of a write queue. */
    method InjectToWrite(to: int) returns (r: Option<nat>)
      requires Valid()
      modifies this`free, this`write, this`owner, this`queued
      ensures Valid()
      ensures old(free) == [] ==> r == None && At() == old(At()) && queued == old(queued)
      ensures old(free) != [] ==>
                && r == Some(old(free)[0]) && free == old(free)[1..]
                && write == old(write)[to := QueueOf(old(write), to) + [r.value]]
                && queued == old(queued)[to := QueueOf(old(queued), to) + [r.value]]
                && r.value < bps.Length && bps[r.value] == zero && r.value !in free
    {
      if free == [] {
        return None;
      }
      var b := free[0];
      FreeToWrite(bps.Length, owner, At(), to);
      QueueInOrder(queued, taken, write, to, b);
      ghost var p := At().(free := free[1..], write := write[to := QueueOf(write, to) + [b]]);
      free, write := free[1..], write[to := QueueOf(write, to) + [b]];
      owner, queued := owner[b := InWrite(to)], queued[to := QueueOf(queued, to) + [b]];
      assert At() == p;
      r := Some(b);
    }

    /** `dup_buffer_tow`; without a free buffer the copy goes through NULL. */
    method DupToWrite(b: nat, to: int) returns (r: Outcome)
      requires Valid() && b < bps.Length && b !in free
      modifies this`free, this`write, this`owner, this`queued, bps
      ensures Valid()
      ensures r == Crash <==> old(free) == []
      ensures r == Crash ==> At() == old(At()) && queued == old(queued) && bps[..] == old(bps[..])
      ensures r != Crash ==>
                var d := old(free)[0];
                && r == Ok && free == old(free)[1..] && bps[..] == old(bps[..])[d := old(bps[b])]
                && write == old(write)[to := QueueOf(old(write), to) + [d]]
                && queued == old(queued)[to := QueueOf(old(queued), to) + [d]]
    {
      var dest := InjectToWrite(to);
      if dest == None {
        return Crash;
      }
      bps[dest.value] := bps[b];
      r := Ok;
    }

    /** `dup_buffer_toa`; it says when no buffer is free, and refuses a key in use. */
    method DupToApp(b: nat, to: int) returns (r: Outcome, dest: Option<nat>)
      requires Valid() && b < bps.Length && b !in free
      modifies this`free, this`app, this`owner, bps
      ensures Valid() <== r == Ok
      ensures r != Crash && (r == Exit <==> old(free) != [] && to in old(app))
      ensures dest == None <==> old(free) == [] || r == Exit
      ensures old(free) == [] ==> At() == old(At()) && bps[..] == old(bps[..])
      ensures dest.Some? ==>
                && dest.value == old(free)[0] && free == old(free)[1..]
                && app == old(app)[to := dest] && bps[..] == old(bps[..])[dest.value := old(bps[b])]
    {
      if free == [] {
        return Ok, None;
      }
      var d := free[0];
      if to in app {
        free := free[1..];
        bps[d] := bps[b];
        return Exit, None;
      }
      FreeToApp(bps.Length, owner, At(), to);
      free, app, owner := free[1..], app[to := Some(d)], owner[d := InApp(to)];
      bps[d] := bps[b];
      return Ok, Some(d);
    }

    // ---------------------------------------------------------------- clients

    /** `main_on_err`: a broken descriptor gives back everything it has. */
    method DrainOnError(fd: int)
      requires Valid()
      modifies this`free, this`used, this`write, this`readWaiting, this`owner, this`taken, bps
      ensures Valid()
      ensures fd !in used && QueueOf(write, fd) == [] && fd !in readWaiting
      ensures forall b | 0 <= b < bps.Length :: owner[b] != InUse(fd) && owner[b] != InWrite(fd)
      // In the order in which it had them, after what was free before.
      ensures free == old(free) + old(Owned(fd))
      ensures forall g | g != fd :: QueueOf(write, g) == QueueOf(old(write), g)
      ensures used == old(used) - {fd}
      ensures readWaiting == RemoveAll(old(readWaiting), fd)
      // All that it had is zero now, and nothing else has changed.
      ensures bps[..] == Zeroed(old(bps[..]), old(Owned(fd)), zero) && KeptBut(old(bps[..]), bps[..], free)
    {
      ZeroedKept(bps[..], Owned(fd), zero, free);
      TakenAll(write, fd);
      FreeAll(fd);
      readWaiting := RemoveAll(readWaiting, fd);
      NotOwned(fd);
    }

    /** All that a descriptor has, in the order in which it is given back. */
    ghost function Owned(fd: int): seq<nat>
      reads this
    {
      (if fd in used then [used[fd]] else []) + QueueOf(write, fd)
    }

    method FreeUsed(fd: int, ghost first: seq<nat>)
      requires Valid() && first == if fd in used then [used[fd]] else []
      modifies this`free, this`used, this`owner, bps
      ensures Valid() && used == old(used) - {fd} && free == old(free) + first
      ensures bps[..] == Zeroed(old(bps[..]), first, zero)
    {
      if fd in used {
        InUsePlaced(fd);
        ZeroedNext(bps[..], first, 0, zero);
      }
      RemoveAbsent(used, fd);
      MoveUsedToFree(fd);
    }

    /** The buffer in use, if any, and then the queue. */
    method FreeAll(fd: int)
      requires Valid()
      modifies this`free, this`used, this`write, this`owner, this`taken, bps
      ensures Valid() && used == old(used) - {fd}
      ensures write == Taken(old(write), fd, |QueueOf(old(write), fd)|)
      ensures free == old(free) + old(Owned(fd)) && bps[..] == Zeroed(old(bps[..]), old(Owned(fd)), zero)
    {
      ghost var first, q := if fd in used then [used[fd]] else [], QueueOf(write, fd);
      ZeroedTwice(bps[..], first, q, zero);
      Assoc(free, first, q);
      FreeUsed(fd, first);
      DrainQueue(fd);
    }

    /** Frees, in order, all that waits to be written on a descriptor. */
    method DrainQueue(fd: int)
      requires Valid() && fd !in used
      modifies this`free, this`used, this`write, this`owner, this`taken, bps
      ensures Valid() && used == old(used)
      ensures write == Taken(old(write), fd, |QueueOf(old(write), fd)|)
      ensures free == old(free) + QueueOf(old(write), fd)
      ensures bps[..] == Zeroed(old(bps[..]), QueueOf(old(write), fd), zero)
    {
      ghost var queue, use, start, waiting, bufs := QueueOf(write, fd), used, free, write, bps[..];
      ghost var done := 0;
      NothingTaken(waiting, fd);
      DrainNext(use, waiting, fd, 0);
      var r := GetWriteBuffer(fd);
      while r.Some?
        invariant Valid() && done <= |queue| && free == start + queue[..done]
        invariant Draining(used, write, use, waiting, fd, done, r)
        invariant bps[..] == Zeroed(bufs, queue[..done], zero)
        decreases |queue| - done
      {
        NextTaken(start, queue, done);
        r := DrainOne(fd, use, waiting, done);
        ZeroedNext(bufs, queue, done, zero);
        done := done + 1;
      }
      assert queue[..|queue|] == queue;
    }

    /** One round: the buffer in use is freed and the next one, if any, taken from the queue. */
    method DrainOne(fd: int, ghost use: map<int, nat>, ghost waiting: map<int, seq<nat>>, ghost done: nat)
      returns (r: Option<nat>)
      requires Valid() && done < |QueueOf(waiting, fd)|
      requires Draining(used, write, use, waiting, fd, done, Some(QueueOf(waiting, fd)[done]))
      modifies this`free, this`used, this`write, this`owner, this`taken, bps
      ensures Valid() && Draining(used, write, use, waiting, fd, done + 1, r)
      ensures QueueOf(waiting, fd)[done] < bps.Length && free == old(free) + [QueueOf(waiting, fd)[done]]
      ensures bps[..] == old(bps[..])[QueueOf(waiting, fd)[done] := zero]
    {
      ghost var queue := QueueOf(waiting, fd);
      InUsePlaced(fd);
      PutRemove(use, fd, queue[done]);
      DrainNext(use, waiting, fd, done + 1);
      MoveUsedToFree(fd);
      r := GetWriteBuffer(fd);
    }

    lemma InUsePlaced(fd: int)
      requires Valid() && fd in used
      ensures used[fd] < bps.Length
    {
    }

    lemma NotOwned(fd: int)
      requires Valid() && fd !in used && QueueOf(write, fd) == []
      ensures forall b | 0 <= b < bps.Length :: owner[b] != InUse(fd) && owner[b] != InWrite(fd)
    {
      forall b | 0 <= b < bps.Length ensures owner[b] != InUse(fd) && owner[b] != InWrite(fd) {
        assert Placed(owner[b], b, At(), None);
      }
    }
  }
}
