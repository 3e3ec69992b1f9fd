/** Serial comparison of 16-bit ids (src/utils.c:73-91). */
module SerialIds {
  import opened Basics

  const UINT16_MAX: nat := 65535

  /** C's `%`, which truncates. */
  function TruncMod(a: int, b: int): int
    requires b > 0
  {
    if a >= 0 then a % b else -(-a % b)
  }

  /** The comparison is modulo 65535, while ids wrap modulo 65536. */
  predicate RingGe(v1: uint16, v2: uint16) {
    TruncMod(TruncMod(v1 - v2, UINT16_MAX) + UINT16_MAX, UINT16_MAX) <= UINT16_MAX / 2
  }

  predicate RingGt(v1: uint16, v2: uint16) {
    v1 != v2 && RingGe(v1, v2)
  }

  /** Any two ids are comparable, and in one way only, but for one pair of ids that are each greater
      than the other. */
  lemma RingOrder(v1: uint16, v2: uint16)
    ensures RingGe(v1, v2) || RingGe(v2, v1)
    ensures RingGt(v1, v2) && RingGt(v2, v1) <==> {v1, v2} == {0, UINT16_MAX}
    ensures v1 != v2 && {v1, v2} != {0, UINT16_MAX} ==> (RingGt(v1, v2) <==> !RingGe(v2, v1))
  {
    RingGeDistance(v1, v2);
    RingGeDistance(v2, v1);
  }

  /** The comparison by the signed distance of the two ids. */
  lemma RingGeDistance(v1: uint16, v2: uint16)
    ensures RingGe(v1, v2) <==>
            var d := v1 - v2; 0 <= d <= 32767 || d == 65535 || -65535 <= d <= -32768
  {
  }

  /** Two counters at most 32767 apart, carried modulo 65536: the comparison of the wire ids is the
      comparison of the counters, except that 65535 also looks as new as the 0 right after it. */
  lemma RingGeCounters(last: nat, next: nat)
    requires -32767 <= next - last <= 32767
    ensures RingGe(last % IDS, next % IDS) <==>
            next <= last || (last % IDS == UINT16_MAX && next == last + 1)
  {
    RingGeDistance(last % IDS, next % IDS);
    assert last == IDS * (last / IDS) + last % IDS && next == IDS * (next / IDS) + next % IDS;
    assert next / IDS - last / IDS in {-1, 0, 1};
  }
}

/** Duplicate suppression of the `dup2` algorithm: every datagram is sent on all links, and the
    receiver lets only newer ids through (src/algo_dup2.c). */
module Dup2 {
  import opened Basics
  import opened SerialIds
  import opened PacketChain

  /** What becomes of a chain; `Missing` ends the program. */
  datatype Verdict = Missing | Duplicate | NoSocket | Delivered(port: uint16)

  predicate Readable(c: Chain) {
    forall i | 0 <= i < |c| && c[i].cmd in {CMD_UDP_ENCAPSULATED, CMD_UDP_METADATA_THUNDER} :: |c[i].body| >= 2
  }

  /** The field of the last packet with command `cmd`; -1 when there is none. */
  function LastField(c: Chain, cmd: byte): (r: int)
    requires cmd in {CMD_UDP_ENCAPSULATED, CMD_UDP_METADATA_THUNDER} && Readable(c)
    ensures -1 <= r < IDS
  {
    if c == [] then -1
    else if c[|c| - 1].cmd == cmd then FirstField(c[|c| - 1])
    else LastField(c[..|c| - 1], cmd)
  }

  /** A fresh datagram packet followed by its id scans to exactly that port and id. */
  lemma ScanTagged(c: Chain, port: uint16, id: uint16)
    requires |c| == 2 && c[0].cmd == CMD_UDP_ENCAPSULATED && c[1].cmd == CMD_UDP_METADATA_THUNDER
    requires Readable(c) && FirstField(c[0]) == port && FirstField(c[1]) == id
    ensures LastField(c, CMD_UDP_ENCAPSULATED) == port && LastField(c, CMD_UDP_METADATA_THUNDER) == id
  {
    assert c[..1][0] == c[0];
  }

  class Dup2 {
    var recvId: uint16
    var emitId: uint16

    constructor ()
      ensures recvId == 0 && emitId == 0
    {
      recvId, emitId := 0, 0;
    }

    /** The receiving handler; `sockets` are the ports with an open socket. */
    method OnStream(c: Chain, sockets: set<uint16>) returns (v: Verdict)
      requires Readable(c)
      modifies this`recvId
      ensures var id, port := LastField(c, CMD_UDP_METADATA_THUNDER), LastField(c, CMD_UDP_ENCAPSULATED);
        && (v == Missing <==> id == -1 || port == -1)
        && (v != Missing ==>
              && 0 <= id < IDS
              && (v == Duplicate <==> !Accepts(old(recvId), id))
              && (v == NoSocket <==> Accepts(old(recvId), id) && port !in sockets)
              && (v.Delivered? ==> v.port == port)
              && recvId == if Accepts(old(recvId), id) then id else old(recvId))
      ensures v == Missing ==> recvId == old(recvId)
    {
      var id: int, port: int := -1, -1;
      for i := 0 to |c|
        invariant id == LastField(c[..i], CMD_UDP_METADATA_THUNDER)
        invariant port == LastField(c[..i], CMD_UDP_ENCAPSULATED)
      {
        assert c[..i + 1][..i] == c[..i];
        if c[i].cmd == CMD_UDP_METADATA_THUNDER {
          id := FirstField(c[i]);
        } else if c[i].cmd == CMD_UDP_ENCAPSULATED {
          port := FirstField(c[i]);
        }
      }
      assert c[..|c|] == c;
      if port == -1 || id == -1 {
        return Missing;
      }
      if RingGe(recvId, id) {
        return Duplicate;
      }
      recvId := id;
      if port !in sockets {
        return NoSocket;
      }
      v := Delivered(port);
    }

    /** The sending handler's id: the next one, modulo 65536. */
    method Tag(ghost sent: nat) returns (id: uint16)
      requires emitId == sent % IDS
      modifies this`emitId
      ensures id == emitId == (sent + 1) % IDS
    {
      emitId := (emitId + 1) % IDS;
      id := emitId;
    }
  }

  predicate Accepts(recvId: uint16, id: uint16) {
    !RingGe(recvId, id)
  }

  // ------------------------------------------------------------- whole runs

  /** What the receiver accepts out of arriving datagrams, given their true numbers; it only sees
      them modulo 65536. */
  function Run(recvId: uint16, arrivals: seq<nat>): seq<nat>
    decreases |arrivals|
  {
    if arrivals == [] then []
    else
      var a := arrivals[0];
      if Accepts(recvId, a % IDS) then [a] + Run(a % IDS, arrivals[1..])
      else Run(recvId, arrivals[1..])
  }

  /** What it should accept: a datagram newer than the last accepted one.  The exception is the
      wrapped id 0 directly after 65535. */
  predicate Newer(last: nat, a: nat) {
    a > last && !(last % IDS == UINT16_MAX && a == last + 1)
  }

  function Ideal(last: nat, arrivals: seq<nat>): seq<nat>
    decreases |arrivals|
  {
    if arrivals == [] then []
    else if Newer(last, arrivals[0]) then [arrivals[0]] + Ideal(arrivals[0], arrivals[1..])
    else Ideal(last, arrivals[1..])
  }

  /** Every arrival is within 32767 of the last one accepted before it. */
  predicate InWindow(last: nat, arrivals: seq<nat>)
    decreases |arrivals|
  {
    arrivals == [] ||
    (&& -32767 <= arrivals[0] - last <= 32767
     && InWindow(if Newer(last, arrivals[0]) then arrivals[0] else last, arrivals[1..]))
  }

  /** Within that window the wrapping ids do exactly what unbounded numbers would do. */
  lemma {:induction false} RunIsIdeal(last: nat, arrivals: seq<nat>)
    requires InWindow(last, arrivals)
    ensures Run(last % IDS, arrivals) == Ideal(last, arrivals)
    decreases |arrivals|
  {
    if arrivals != [] {
      RingGeCounters(last, arrivals[0]);
      RunIsIdeal(if Newer(last, arrivals[0]) then arrivals[0] else last, arrivals[1..]);
    }
  }

  predicate StrictlyAbove(last: nat, d: seq<nat>) {
    && (forall i | 0 <= i < |d| :: last < d[i])
    && (forall i, j | 0 <= i < j < |d| :: d[i] < d[j])
  }

  lemma {:induction false} IdealIncreases(last: nat, arrivals: seq<nat>)
    ensures StrictlyAbove(last, Ideal(last, arrivals))
    decreases |arrivals|
  {
    if arrivals != [] {
      IdealIncreases(if Newer(last, arrivals[0]) then arrivals[0] else last, arrivals[1..]);
    }
  }

  /** So deliveries are strictly increasing: nothing is delivered twice or out of order. */
  lemma RunIncreases(last: nat, arrivals: seq<nat>)
    requires InWindow(last, arrivals)
    ensures StrictlyAbove(last, Run(last % IDS, arrivals))
  {
    RunIsIdeal(last, arrivals);
    IdealIncreases(last, arrivals);
  }

  /** Datagrams `from + 1` to `n`, in order. */
  function InOrder(from: nat, n: nat): (s: seq<nat>)
    requires from <= n
    ensures |s| == n - from
    ensures forall i | 0 <= i < |s| :: s[i] == from + 1 + i
  {
    seq(n - from, i => from + 1 + i)
  }

  /** The last number accepted once everything up to `n` has arrived in order. */
  function LastAccepted(n: nat): nat {
    if n % IDS == 0 && n > 0 then n - 1 else n
  }

  /** Even a perfect network loses every 65536th datagram, and only those. */
  lemma {:induction false} EveryWrapIsLost(from: nat, n: nat)
    requires from <= n
    ensures InWindow(LastAccepted(from), InOrder(from, n))
    ensures forall k: nat ::
              k in Ideal(LastAccepted(from), InOrder(from, n)) <==> (from < k <= n && k % IDS != 0)
    decreases n - from
  {
    if from < n {
      var s, last := InOrder(from, n), LastAccepted(from);
      assert s[1..] == InOrder(from + 1, n);
      EveryWrapIsLost(from + 1, n);
      assert Newer(last, from + 1) <==> (from + 1) % IDS != 0;
      assert LastAccepted(from + 1) == if Newer(last, from + 1) then from + 1 else last;
    }
  }

  lemma PerfectNetwork(n: nat)
    ensures forall k: nat :: k in Run(0, InOrder(0, n)) <==> (0 < k <= n && k % IDS != 0)
  {
    EveryWrapIsLost(0, n);
    RunIsIdeal(0, InOrder(0, n));
  }
}
