/** The SOCKS5 messages that carry an address, and their two resumable readers (src/socks5.c, after
    sections 4 to 6 of RFC 1928): the server's for requests and the client's for replies. */
module Socks5 {
  import opened Basics
  import opened PacketChain
  import opened BufferPackets

  const VER_SOCKS5: byte := 5
  const CMD_CONNECT: byte := 1
  const ATYP_IPV4: byte := 1
  const ATYP_DOMAINNAME: byte := 3
  const ATYP_IPV6: byte := 4

  /** Layout of `struct client_request` and `struct server_reply`: four bytes, a union of 257 bytes for
      the address, and the port. */
  const FIXED: nat := 4
  const PORT_AT: nat := 261
  const STRUCT_SIZE: nat := 263

  datatype Address = IPv4(ip: seq<byte>) | IPv6(ip: seq<byte>) | Domain(name: seq<byte>) | Unknown(atyp: byte) {
    predicate Valid() {
      match this
      case IPv4(ip) => |ip| == 4
      case IPv6(ip) => |ip| == 16
      case Domain(name) => |name| <= 255
      case Unknown(t) => t != ATYP_IPV4 && t != ATYP_IPV6 && t != ATYP_DOMAINNAME
    }

    function Type(): byte {
      match this
      case IPv4(_) => ATYP_IPV4
      case IPv6(_) => ATYP_IPV6
      case Domain(_) => ATYP_DOMAINNAME
      case Unknown(t) => t
    }

    function Bytes(): (s: seq<byte>)
      requires Valid()
      ensures |s| <= 256
    {
      match this
      case IPv4(ip) => ip
      case IPv6(ip) => ip
      case Domain(name) => [|name|] + name
      case Unknown(_) => []
    }
  }

  /** A request (`code` is the command) or a reply (`code` is the result); the port as on the wire. */
  datatype Message = Message(ver: byte, code: byte, rsv: byte, addr: Address, port: seq<byte>) {
    predicate Valid() {
      addr.Valid() && |port| == 2
    }

    /** The bytes on the wire; after an unknown address type nothing is defined. */
    function Encode(): (s: seq<byte>)
      requires Valid()
      ensures |s| == if addr.Unknown? then FIXED else FIXED + |addr.Bytes()| + 2
    {
      [ver, code, rsv, addr.Type()] + addr.Bytes() + if addr.Unknown? then [] else port
    }
  }

  /** The CONNECT request that the client prepares; longer names end the program. */
  function ConnectRequest(host: seq<byte>, port: nat): (r: Option<Message>)
    requires port < 65536
    ensures r.Some? <==> |host| <= 255
    ensures r.Some? ==> r.value.Valid() && |r.value.Encode()| == 7 + |host| <= 262
    // CONNECT, version 5, to this name; the port goes high byte first.
    ensures r.Some? ==>
              && r.value.ver == 5 && r.value.code == 1 && r.value.rsv == 0 && r.value.addr == Domain(host)
              && U16(r.value.port[1], r.value.port[0]) == port
  {
    if |host| > 255 then None
    else Some(Message(VER_SOCKS5, CMD_CONNECT, 0, Domain(host), [port / 256, port % 256]))
  }

  /** The reply that the server prepares: success, 127.0.0.1, port 0. */
  const SUCCESS_REPLY: Message := Message(VER_SOCKS5, 0, 0, IPv4([127, 0, 0, 1]), [0, 0])

  /** `socks5_server_reply_size` on a filled structure; None is its exit. */
  function ReplySize(mem: seq<byte>): Option<nat>
    requires |mem| == STRUCT_SIZE
  {
    if mem[3] == ATYP_IPV4 then Some(FIXED + 4 + 2)
    else if mem[3] == ATYP_IPV6 then Some(FIXED + 16 + 2)
    else if mem[3] == ATYP_DOMAINNAME then Some(FIXED + 1 + mem[4] + 2)
    else None
  }

  /** The message in a filled structure. */
  function Fields(mem: seq<byte>): Message
    requires |mem| == STRUCT_SIZE
  {
    var addr :=
      if mem[3] == ATYP_IPV4 then IPv4(mem[4..8])
      else if mem[3] == ATYP_IPV6 then IPv6(mem[4..20])
      else if mem[3] == ATYP_DOMAINNAME then Domain(mem[5..5 + mem[4]])
      else Unknown(mem[3]);
    Message(mem[0], mem[1], mem[2], addr, mem[PORT_AT..STRUCT_SIZE])
  }

  /** One-shot reader of a message at the start of a byte string. */
  function Parse(s: seq<byte>): Option<Message> {
    if |s| < FIXED then None
    else if s[3] == ATYP_IPV4 then
      if |s| < 10 then None else Some(Message(s[0], s[1], s[2], IPv4(s[4..8]), s[8..10]))
    else if s[3] == ATYP_IPV6 then
      if |s| < 22 then None else Some(Message(s[0], s[1], s[2], IPv6(s[4..20]), s[20..22]))
    else if s[3] == ATYP_DOMAINNAME then
      if |s| < 5 then None
      else
        var len: int := s[4];
        if |s| < 7 + len then None else Some(Message(s[0], s[1], s[2], Domain(s[5..5 + len]), s[5 + len..7 + len]))
    else None
  }

  lemma ParseEncode(m: Message, rest: seq<byte>)
    requires m.Valid() && !m.addr.Unknown?
    ensures Parse(m.Encode() + rest) == Some(m)
  {
    var e, n := m.Encode(), |m.addr.Bytes()|;
    var s := e + rest;
    assert s[..4] == [m.ver, m.code, m.rsv, m.addr.Type()];
    assert s[0] == s[..4][0] && s[1] == s[..4][1] && s[2] == s[..4][2] && s[3] == s[..4][3];
    assert s[4..4 + n] == m.addr.Bytes() && s[4 + n..6 + n] == m.port;
    if m.addr.Domain? {
      assert s[4] == s[4..4 + n][0] && s[5..4 + n] == s[4..4 + n][1..];
    }
  }

  // ------------------------------------------- what a structure looks like on the way

  /** Where byte `p` of the message goes in the structure. */
  function Where(m: Message, p: nat): nat
    requires m.Valid()
  {
    if p < FIXED + |m.addr.Bytes()| then p else PORT_AT + (p - FIXED - |m.addr.Bytes()|)
  }

  /** The structure, zeroed before, after `p` bytes of the message. */
  function Image(m: Message, p: nat): (mem: seq<byte>)
    requires m.Valid() && p <= |m.Encode()|
    ensures |mem| == STRUCT_SIZE
  {
    var n := FIXED + |m.addr.Bytes()|;
    seq(STRUCT_SIZE, i requires 0 <= i < STRUCT_SIZE =>
      if i < n && i < p then m.Encode()[i]
      else if i >= PORT_AT && n + (i - PORT_AT) < p then m.Encode()[n + (i - PORT_AT)]
      else 0)
  }

  /** The end of the part (head, address, port) that byte `p` belongs to. */
  function PartEnd(m: Message, p: nat): nat
    requires m.Valid()
  {
    if p < FIXED then FIXED
    else if p < FIXED + |m.addr.Bytes()| then FIXED + |m.addr.Bytes()|
    else FIXED + |m.addr.Bytes()| + 2
  }

  lemma ImageNext(m: Message, p: nat, k: nat)
    requires m.Valid() && p + k <= PartEnd(m, p) && PartEnd(m, p) <= |m.Encode()|
    ensures Where(m, p) + k <= STRUCT_SIZE
    ensures var at := Where(m, p);
      Image(m, p)[..at] + m.Encode()[p..p + k] + Image(m, p)[at + k..] == Image(m, p + k)
  {
    var at := Where(m, p);
    var t := Image(m, p)[..at] + m.Encode()[p..p + k] + Image(m, p)[at + k..];
    forall i | 0 <= i < STRUCT_SIZE ensures t[i] == Image(m, p + k)[i] {
    }
  }

  /** Every part of the message lies in its own field of the filled structure. */
  lemma ImageParts(m: Message)
    requires m.Valid() && !m.addr.Unknown?
    ensures var mem := Image(m, |m.Encode()|);
      && mem[0] == m.ver && mem[1] == m.code && mem[2] == m.rsv && mem[3] == m.addr.Type()
      && mem[FIXED..FIXED + |m.addr.Bytes()|] == m.addr.Bytes() && mem[PORT_AT..STRUCT_SIZE] == m.port
  {
    var mem, n, e := Image(m, |m.Encode()|), |m.addr.Bytes()|, m.Encode();
    assert e[..4] == [m.ver, m.code, m.rsv, m.addr.Type()];
    assert e[4..4 + n] == m.addr.Bytes() && e[4 + n..] == m.port;
    assert forall i | 0 <= i < 4 + n :: mem[i] == e[i];
    assert mem[..4] == e[..4];
    assert mem[4..4 + n] == e[4..4 + n];
    assert mem[PORT_AT] == e[4 + n] && mem[PORT_AT + 1] == e[5 + n];
    assert mem[PORT_AT..STRUCT_SIZE] == e[4 + n..];
  }

  lemma ImageFields(m: Message)
    requires m.Valid() && !m.addr.Unknown?
    ensures Fields(Image(m, |m.Encode()|)) == m
    ensures ReplySize(Image(m, |m.Encode()|)) == Some(|m.Encode()|)
  {
    var mem, n := Image(m, |m.Encode()|), |m.addr.Bytes()|;
    ImageParts(m);
    if m.addr.Domain? {
      assert mem[4] == mem[4..4 + n][0];
      assert mem[5..4 + n] == mem[4..4 + n][1..] == m.addr.name;
    }
  }

  /** Once its part has arrived, the address type can be trusted, and so can the domain's length. */
  lemma ImageHead(m: Message, p: nat)
    requires m.Valid() && p <= |m.Encode()|
    ensures p < FIXED ==> Image(m, p)[3] == 0
    ensures p >= FIXED ==> Image(m, p)[3] == m.addr.Type()
    ensures m.addr.Domain? ==> Image(m, p)[4] == if p > FIXED then |m.addr.name| else 0
  {
    if m.addr.Domain? && p > FIXED {
      assert m.Encode()[4] == m.addr.Bytes()[0];
    }
  }

  /** A C string: the bytes up to the first NUL. */
  function CString(s: seq<byte>): seq<byte> {
    if s == [] || s[0] == 0 then [] else [s[0]] + CString(s[1..])
  }

  lemma {:induction false} CStringIs(s: seq<byte>, name: seq<byte>)
    requires |name| < |s| && s[..|name|] == name && s[|name|] == 0 && 0 !in name
    ensures CString(s) == name
  {
    if name != [] {
      assert s[0] == name[0] && s[1..][..|name| - 1] == name[1..];
      CStringIs(s[1..], name[1..]);
    }
  }

  /** The host as the server prints it into its URL is the host asked for, because the structure was
      zeroed and a name is shorter than its field. */
  lemma HostString(m: Message)
    requires m.Valid() && m.addr.Domain? && 0 !in m.addr.name
    ensures CString(Image(m, |m.Encode()|)[5..PORT_AT]) == m.addr.name
  {
    ImageFields(m);
    var mem := Image(m, |m.Encode()|);
    var s := mem[5..PORT_AT];
    assert s[..|m.addr.name|] == Fields(mem).addr.name;
    assert s[|m.addr.name|] == mem[5 + |m.addr.name|];
    CStringIs(s, m.addr.name);
  }

  // ------------------------------------------------------------------ readers

  datatype Phase = Receiving | Done | Rejected

  /** `w` is all that the peer will have sent, from the first byte of the message on. */
  predicate CarriesMessage(w: seq<byte>, m: Message)
    requires m.Valid()
  {
    w <= m.Encode() || m.Encode() <= w
  }

  lemma NextChunk(m: Message, p: nat, k: nat, incoming: seq<byte>, w: seq<byte>)
    requires m.Valid() && CarriesMessage(w, m) && p + k <= |m.Encode()| && k <= |incoming|
    requires w == m.Encode()[..p] + incoming
    ensures incoming[..k] == m.Encode()[p..p + k]
    ensures w == m.Encode()[..p + k] + incoming[k..]
  {
    var e := m.Encode();
    assert w[..p + k] == e[..p + k];
    assert incoming[..k] == w[..p + k][p..];
    assert w == w[..p + k] + incoming[k..];
  }

  /** Both at once: a chunk stored at its place. */
  lemma ChunkStored(m: Message, p: nat, k: nat, incoming: seq<byte>, w: seq<byte>)
    requires m.Valid() && CarriesMessage(w, m) && k <= |incoming|
    requires p + k <= PartEnd(m, p) <= |m.Encode()| && w == m.Encode()[..p] + incoming
    ensures var at := Where(m, p);
      at + k <= STRUCT_SIZE && Image(m, p)[..at] + incoming[..k] + Image(m, p)[at + k..] == Image(m, p + k)
    ensures w == m.Encode()[..p + k] + incoming[k..]
  {
    ImageNext(m, p, k);
    NextChunk(m, p, k, incoming, w);
  }

  /** Offers are used up from the front, and unless the message is rejected there was no error among them. */
  predicate Spent(before: seq<Offer>, after: seq<Offer>, phase: Phase) {
    Used(before, after) && (phase != Rejected ==> Consumed(before, after, false))
  }

  lemma SpentTwice(a: seq<Offer>, b: seq<Offer>, c: seq<Offer>, phase: Phase)
    requires Spent(a, b, Receiving) && Spent(b, c, phase)
    ensures Spent(a, c, phase)
  {
    UsedTwice(a, b, c);
  }

  /** What both readers have in common. */
  class Context {
    const mem: array<byte>
    var cursor: nat
    var hostRead: bool
    var phase: Phase

    /** How many bytes of the message have been read. */
    ghost var pos: nat

    constructor ()
      ensures mem.Length == STRUCT_SIZE && fresh(mem) && cursor == 0 && !hostRead && phase == Receiving && pos == 0
      ensures mem[..] == seq(STRUCT_SIZE, _ => 0)
    {
      mem := new byte[STRUCT_SIZE](_ => 0);
      cursor, hostRead, phase, pos := 0, false, Receiving, 0;
    }

    /** The structure holds the bytes read, and the socket continues where they end. */
    ghost predicate Holds(m: Message, sock: Socket, w: seq<byte>)
      reads this, mem, sock
    {
      && mem.Length == STRUCT_SIZE && m.Valid() && CarriesMessage(w, m) && pos <= |m.Encode()|
      && mem[..] == Image(m, pos) && w == m.Encode()[..pos] + sock.incoming
    }

    /** `recv` into the structure, at most to the end of the current part. */
    method Recv(sock: Socket, at: nat, count: nat, ghost m: Message, ghost w: seq<byte>) returns (r: IoResult)
      requires Holds(m, sock, w) && (at == Where(m, pos) || count == 0)
      requires pos + count <= PartEnd(m, pos) <= |m.Encode()|
      modifies sock`incoming, sock`offers, mem, this`pos
      ensures r == Answer(old(sock.offers), Min(count, |old(sock.incoming)|)) && sock.offers == Rest(old(sock.offers))
      ensures Holds(m, sock, w) && pos == old(pos) + Amount(r) <= old(pos) + count
      ensures Consumed(old(sock.offers), sock.offers, r == Failed)
      ensures |sock.offers| < |old(sock.offers)| || (sock.offers == [] && r == WouldBlock)
      ensures m.Encode() <= w && count > 0 ==> Paid(old(sock.offers), sock.offers, Amount(r))
      ensures Paid(old(sock.offers), sock.offers, if r.Moved? then 1 else 0)
    {
      AnswerConsumes(sock.offers, Min(count, |sock.incoming|));
      AnswerPays(sock.offers, Min(count, |sock.incoming|));
      r := Answer(sock.offers, Min(count, |sock.incoming|));
      sock.offers := Rest(sock.offers);
      if Amount(r) > 0 {
        Take(sock, at, Amount(r), m, w);
      }
    }

    method Take(sock: Socket, at: nat, n: nat, ghost m: Message, ghost w: seq<byte>)
      requires Holds(m, sock, w) && at == Where(m, pos) && n <= |sock.incoming|
      requires pos + n <= PartEnd(m, pos) <= |m.Encode()|
      modifies sock`incoming, mem, this`pos
      ensures Holds(m, sock, w) && pos == old(pos) + n
    {
      ChunkStored(m, pos, n, sock.incoming, w);
      CopyIn(at, sock.incoming[..n]);
      sock.incoming := sock.incoming[n..];
      pos := pos + n;
    }

    method CopyIn(at: nat, src: seq<byte>)
      requires at + |src| <= mem.Length
      modifies mem
      ensures mem[..] == old(mem[..at]) + src + old(mem[at + |src|..])
    {
      forall k | 0 <= k < |src| {
        mem[at + k] := src[k];
      }
    }

    // --------------------------------------------------- the server's reader

    /** Between two calls of the server's reader: the cursor counts within the current part. */
    ghost predicate RequestState(m: Message)
      reads this
      requires m.Valid()
    {
      var n := |m.addr.Bytes()|;
      match phase
      case Receiving =>
        if pos < FIXED then !hostRead && cursor == pos
        else if pos < FIXED + n then !hostRead && cursor == pos - FIXED
        else hostRead && !m.addr.Unknown? && cursor == pos - FIXED - n && cursor < 2
      case Done => !m.addr.Unknown? && pos == |m.Encode()|
      case Rejected => true
    }

    /** Reads on in the address; `more` says that it is complete. */
    method ReadRequestHost(sock: Socket, ghost m: Message, ghost w: seq<byte>) returns (more: bool)
      requires Holds(m, sock, w) && phase == Receiving && !hostRead
      requires FIXED <= pos && (pos < FIXED + |m.addr.Bytes()| || m.addr.Unknown?) && cursor == pos - FIXED
      modifies sock`incoming, sock`offers, mem, this
      ensures Holds(m, sock, w) && pos >= old(pos)
      ensures Spent(old(sock.offers), sock.offers, phase)
      ensures m.Encode() <= w ==> Paid(old(sock.offers), sock.offers, pos - old(pos))
      ensures !more ==> RequestState(m) && phase != Done
      ensures more ==>
                && phase == Receiving && hostRead && cursor == 0
                && pos == FIXED + |m.addr.Bytes()| && !m.addr.Unknown?
      ensures phase == Rejected ==> (m.addr.Unknown? && pos == |m.Encode()|) || Fail in old(sock.offers)
      ensures m.addr.Unknown? ==> phase == Rejected
      ensures phase == Receiving ==> |sock.offers| < |old(sock.offers)| || (!more && sock.offers == [])
    {
      ImageHead(m, pos);
      var toRead: int;
      if mem[3] == ATYP_DOMAINNAME {
        toRead := 1 + mem[4] as int - cursor;
      } else if mem[3] == ATYP_IPV4 {
        toRead := 4 - cursor;
      } else if mem[3] == ATYP_IPV6 {
        toRead := 16 - cursor;
      } else {
        phase := Rejected;
        return false;
      }
      var got := Recv(sock, FIXED + cursor, toRead, m, w);
      if got == WouldBlock {
        return false;
      }
      if got == Failed {
        phase := Rejected;
        return false;
      }
      cursor := cursor + got.n;
      ImageHead(m, pos);
      if (if mem[3] == ATYP_DOMAINNAME then cursor >= 1 + mem[4] as int else got.n == toRead) {
        hostRead, cursor := true, 0;
        return true;
      }
      more := false;
    }

    /** Reads on in the fixed part; `more` says that it is complete. */
    method ReadRequestHead(sock: Socket, ghost m: Message, ghost w: seq<byte>) returns (more: bool)
      requires Holds(m, sock, w) && RequestState(m) && phase == Receiving && pos < FIXED
      modifies sock`incoming, sock`offers, mem, this`cursor, this`phase, this`pos
      ensures Holds(m, sock, w) && pos >= old(pos)
      ensures Spent(old(sock.offers), sock.offers, phase)
      ensures m.Encode() <= w ==> Paid(old(sock.offers), sock.offers, pos - old(pos))
      ensures if more then phase == Receiving && pos == FIXED && cursor == 0 else RequestState(m) && phase != Done
      ensures phase == Rejected ==> Fail in old(sock.offers)
      ensures phase == Receiving ==> |sock.offers| < |old(sock.offers)| || (!more && sock.offers == [])
    {
      var toRead := FIXED - cursor;
      var got := Recv(sock, cursor, toRead, m, w);
      if got == WouldBlock {
        return false;
      }
      if got == Failed {
        phase := Rejected;
        return false;
      }
      cursor := cursor + got.n;
      if got.n != toRead {
        return false;
      }
      cursor := 0;
      more := true;
    }

    /** `on_socks5_server_recv_client_req` */
    method OnRequest(sock: Socket, ghost m: Message, ghost w: seq<byte>)
      requires Holds(m, sock, w) && RequestState(m) && phase == Receiving
      modifies sock`incoming, sock`offers, mem, this
      ensures Holds(m, sock, w) && RequestState(m) && pos >= old(pos)
      ensures Spent(old(sock.offers), sock.offers, phase)
      ensures m.Encode() <= w ==> Paid(old(sock.offers), sock.offers, pos - old(pos))
      ensures phase == Rejected ==> (m.addr.Unknown? && pos == |m.Encode()|) || Fail in old(sock.offers)
      ensures phase == Receiving ==> |sock.offers| < |old(sock.offers)| || sock.offers == []
    {
      ImageHead(m, pos);
      ghost var before := sock.offers;
      var more := true;
      if mem[3] == 0 {
        more := ReadRequestHead(sock, m, w);
      }
      if more {
        ghost var mid := sock.offers;
        ReadRequestTail(sock, m, w);
        SpentTwice(before, mid, sock.offers, phase);
      }
    }

    /** The rest: what is missing of the address, and the port. */
    method ReadRequestTail(sock: Socket, ghost m: Message, ghost w: seq<byte>)
      requires Holds(m, sock, w) && phase == Receiving && FIXED <= pos
      requires if hostRead then RequestState(m)
               else cursor == pos - FIXED && (pos < FIXED + |m.addr.Bytes()| || m.addr.Unknown?)
      modifies sock`incoming, sock`offers, mem, this
      ensures Holds(m, sock, w) && RequestState(m) && pos >= old(pos)
      ensures Spent(old(sock.offers), sock.offers, phase)
      ensures m.Encode() <= w ==> Paid(old(sock.offers), sock.offers, pos - old(pos))
      ensures phase == Rejected ==> (m.addr.Unknown? && pos == |m.Encode()|) || Fail in old(sock.offers)
      ensures phase == Receiving ==> |sock.offers| < |old(sock.offers)| || sock.offers == []
    {
      ghost var before := sock.offers;
      var more := true;
      if !hostRead {
        more := ReadRequestHost(sock, m, w);
      }
      if more {
        ghost var mid := sock.offers;
        ReadRequestPort(sock, m, w);
        SpentTwice(before, mid, sock.offers, phase);
      }
    }

    method ReadRequestPort(sock: Socket, ghost m: Message, ghost w: seq<byte>)
      requires Holds(m, sock, w) && RequestState(m) && phase == Receiving && hostRead
      modifies sock`incoming, sock`offers, mem, this`cursor, this`phase, this`pos
      ensures Holds(m, sock, w) && RequestState(m) && pos >= old(pos)
      ensures Spent(old(sock.offers), sock.offers, phase)
      ensures m.Encode() <= w ==> Paid(old(sock.offers), sock.offers, pos - old(pos))
      ensures phase == Rejected ==> Fail in old(sock.offers)
      ensures phase == Receiving ==> |sock.offers| < |old(sock.offers)| || sock.offers == []
    {
      var toRead := 2 - cursor;
      var got := Recv(sock, PORT_AT + cursor, toRead, m, w);
      if got == WouldBlock {
        return;
      }
      if got == Failed {
        phase := Rejected;
        return;
      }
      cursor := cursor + got.n;
      if got.n == toRead {
        phase := Done;
      }
    }

    // --------------------------------------------------- the client's reader

    /** Between two calls of the client's reader: the cursor counts from the start of the reply. */
    ghost predicate ReplyState(m: Message)
      reads this
      requires m.Valid()
    {
      var n := |m.addr.Bytes()|;
      match phase
      case Receiving =>
        && cursor == pos && (m.addr.Unknown? ==> pos <= FIXED)
        && (if hostRead then !m.addr.Unknown? && pos >= FIXED + n
            else pos < FIXED + n || (pos == FIXED + n && (m.addr.Unknown? || m.addr == Domain([]))))
      case Done => !m.addr.Unknown? && pos == |m.Encode()| && m.code == 0
      case Rejected => true
    }

    /** Reads of no bytes that are still to come: the one of an empty domain name. */
    ghost function Spare(m: Message): nat
      reads this
    {
      if m.addr == Domain([]) && !hostRead then 1 else 0
    }

    /** Up to where to read in the address: its end, or that of the length that tells its end. */
    method HostEnd(ghost m: Message, ghost p: nat) returns (end: Option<nat>, lengthOnly: bool)
      requires m.Valid() && FIXED <= p == cursor <= |m.Encode()| && mem[..] == Image(m, p)
      ensures end == None <==> m.addr.Unknown?
      ensures lengthOnly <==> m.addr.Domain? && p == FIXED
      ensures end.Some? ==> end.value == if lengthOnly then FIXED + 1 else FIXED + |m.addr.Bytes()|
    {
      ImageHead(m, p);
      lengthOnly := mem[3] == ATYP_DOMAINNAME && cursor < FIXED + 1;
      if mem[3] == ATYP_IPV4 {
        end := Some(FIXED + 4);
      } else if mem[3] == ATYP_IPV6 {
        end := Some(FIXED + 16);
      } else if mem[3] == ATYP_DOMAINNAME {
        end := Some(if lengthOnly then FIXED + 1 else FIXED + 1 + mem[4] as int);
      } else {
        end := None;
      }
    }

    /** `socks5_server_reply_atyp_*`: one read in the address. */
    method ReadReplyHost(sock: Socket, ghost m: Message, ghost w: seq<byte>)
      requires Holds(m, sock, w) && ReplyState(m) && phase == Receiving && !hostRead && pos >= FIXED
      modifies sock`incoming, sock`offers, mem, this
      ensures Holds(m, sock, w) && ReplyState(m) && phase != Done && pos >= old(pos)
      ensures Spent(old(sock.offers), sock.offers, phase)
      ensures m.Encode() <= w ==> Paid(old(sock.offers), sock.offers, pos - old(pos) + old(Spare(m)) - Spare(m))
      ensures phase == Rejected ==> (m.addr.Unknown? && pos == |m.Encode()|) || Fail in old(sock.offers)
      ensures phase == Receiving ==> |sock.offers| < |old(sock.offers)| || sock.offers == []
    {
      var end, lengthOnly := HostEnd(m, pos);
      if end == None {
        phase := Rejected;
        return;
      }
      var got := Recv(sock, cursor, end.value - cursor, m, w);
      if got == WouldBlock {
        return;
      }
      if got == Failed {
        phase := Rejected;
        return;
      }
      cursor := cursor + got.n;
      if !lengthOnly && cursor >= end.value {
        hostRead := true;
      }
    }

    /** `on_socks5_recv_server_reply` */
    method OnReply(sock: Socket, ghost m: Message, ghost w: seq<byte>)
      requires Holds(m, sock, w) && ReplyState(m) && phase == Receiving
      modifies sock`incoming, sock`offers, mem, this
      ensures Holds(m, sock, w) && ReplyState(m) && pos >= old(pos)
      ensures Spent(old(sock.offers), sock.offers, phase)
      ensures m.Encode() <= w ==> Paid(old(sock.offers), sock.offers, pos - old(pos) + old(Spare(m)) - Spare(m))
      ensures phase == Rejected ==>
                ((m.addr.Unknown? || m.code != 0) && pos == |m.Encode()|) || Fail in old(sock.offers)
      ensures phase == Receiving ==> |sock.offers| < |old(sock.offers)| || sock.offers == []
    {
      if cursor < FIXED {
        ReadReplyPart(sock, cursor, FIXED - cursor, m, w);
        return;
      }
      if !hostRead {
        ReadReplyHost(sock, m, w);
        return;
      }
      SizeKnown(m, pos);
      var finalSize := ReplySize(mem[..]).value;
      if cursor < finalSize {
        var relative := cursor - (finalSize - 2);
        ReadReplyPart(sock, PORT_AT + relative, 2 - relative, m, w);
        return;
      }
      CodeKnown(m, pos);
      if mem[1] > 8 || mem[1] != 0 {
        phase := Rejected;
        return;
      }
      phase := Done;
    }

    method ReadReplyPart(sock: Socket, at: nat, count: nat, ghost m: Message, ghost w: seq<byte>)
      requires Holds(m, sock, w) && ReplyState(m) && phase == Receiving
      requires at == Where(m, pos) && pos < pos + count == PartEnd(m, pos) <= |m.Encode()|
      requires pos < FIXED || hostRead
      modifies sock`incoming, sock`offers, mem, this
      ensures Holds(m, sock, w) && ReplyState(m) && phase != Done && pos >= old(pos)
      ensures Spent(old(sock.offers), sock.offers, phase)
      ensures m.Encode() <= w ==> Paid(old(sock.offers), sock.offers, pos - old(pos) + old(Spare(m)) - Spare(m))
      ensures phase == Rejected ==> Fail in old(sock.offers)
      ensures phase == Receiving ==> |sock.offers| < |old(sock.offers)| || sock.offers == []
    {
      var got := Recv(sock, at, count, m, w);
      if got == WouldBlock {
        return;
      }
      if got == Failed {
        phase := Rejected;
        return;
      }
      cursor := cursor + got.n;
    }
  }

  lemma SizeKnown(m: Message, p: nat)
    requires m.Valid() && !m.addr.Unknown? && FIXED + |m.addr.Bytes()| <= p <= |m.Encode()|
    ensures ReplySize(Image(m, p)) == Some(|m.Encode()|)
  {
    ImageHead(m, p);
  }

  lemma CodeKnown(m: Message, p: nat)
    requires m.Valid() && 2 <= p <= |m.Encode()|
    ensures Image(m, p)[1] == m.code
  {
  }

  // -------------------------------------------------------------- whole exchanges

  /** The server's reader called again and again on a connection that carries `m` and perhaps more.  With
      a useful offer for every byte, and no error, the request is decoded, or rejected for its type. */
  method ServeRequest(sock: Socket, ghost m: Message) returns (phase: Phase, got: Message)
    requires m.Valid() && CarriesMessage(sock.incoming, m)
    modifies sock`incoming, sock`offers
    ensures phase == Done ==> got == m && old(sock.incoming) == m.Encode() + sock.incoming
    // Without an error, only an unknown type is rejected, once the four bytes that tell it are read.
    ensures phase == Rejected && Fail !in old(sock.offers) ==>
              m.addr.Unknown? && old(sock.incoming) == m.Encode() + sock.incoming
    ensures phase == Receiving ==> sock.offers == []
    ensures Spent(old(sock.offers), sock.offers, phase)
    ensures m.Encode() <= old(sock.incoming) && Enough(old(sock.offers), |m.Encode()|) ==>
              phase == if m.addr.Unknown? then Rejected else Done
  {
    var c := new Context();
    ghost var w := sock.incoming;
    FreshImage(m, c.mem[..], w);
    while c.phase == Receiving && sock.offers != []
      invariant c.Holds(m, sock, w) && c.RequestState(m)
      invariant Spent(old(sock.offers), sock.offers, c.phase)
      invariant Fail in sock.offers ==> Fail in old(sock.offers)
      invariant c.phase == Rejected ==> (m.addr.Unknown? && c.pos == |m.Encode()|) || Fail in old(sock.offers)
      invariant m.Encode() <= w ==> Paid(old(sock.offers), sock.offers, c.pos)
      decreases c.phase == Receiving, |sock.offers|
    {
      ghost var mid := sock.offers;
      c.OnRequest(sock, m, w);
      SpentTwice(old(sock.offers), mid, sock.offers, c.phase);
    }
    phase, got := c.phase, Fields(c.mem[..]);
    assert m.Encode()[..|m.Encode()|] == m.Encode();
    if phase == Done {
      ImageFields(m);
    }
  }

  /** The client's reader in the same way.  It is called once more after the last byte, and spends a
      call on an empty domain name. */
  method AwaitReply(sock: Socket, ghost m: Message) returns (phase: Phase, got: Message)
    requires m.Valid() && CarriesMessage(sock.incoming, m)
    modifies sock`incoming, sock`offers
    ensures phase == Done ==> got == m && m.code == 0 && old(sock.incoming) == m.Encode() + sock.incoming
    ensures phase == Done || (phase == Rejected && Fail !in old(sock.offers) && !m.addr.Unknown?) ==>
              var size := ReplySize(Image(m, |m.Encode()|));
              size.Some? && |old(sock.incoming)| == size.value + |sock.incoming|
    // Without an error, a reply is rejected only for its type or its code, once all of it is read.
    ensures phase == Rejected && Fail !in old(sock.offers) ==>
              && old(sock.incoming) == m.Encode() + sock.incoming
              && (m.addr.Unknown? || (m.code != 0 && got == m))
    ensures phase == Receiving ==> sock.offers == []
    ensures Spent(old(sock.offers), sock.offers, phase)
    ensures m.Encode() <= old(sock.incoming) && Enough(old(sock.offers), |m.Encode()| + ExtraCalls(m)) ==>
              phase == if m.addr.Unknown? || m.code != 0 then Rejected else Done
  {
    var c := new Context();
    ghost var w := sock.incoming;
    FreshImage(m, c.mem[..], w);
    if !m.addr.Unknown? {
      ImageFields(m);
    }
    while c.phase == Receiving && sock.offers != []
      invariant c.Holds(m, sock, w) && c.ReplyState(m)
      invariant Spent(old(sock.offers), sock.offers, c.phase)
      invariant Fail in sock.offers ==> Fail in old(sock.offers)
      invariant c.phase == Rejected ==>
          ((m.addr.Unknown? || m.code != 0) && c.pos == |m.Encode()|) || Fail in old(sock.offers)
      invariant m.Encode() <= w ==> Paid(old(sock.offers), sock.offers, c.pos + ExtraCalls(m) - 1 - c.Spare(m))
      decreases c.phase == Receiving, |sock.offers|
    {
      ghost var mid := sock.offers;
      c.OnReply(sock, m, w);
      SpentTwice(old(sock.offers), mid, sock.offers, c.phase);
    }
    phase, got := c.phase, Fields(c.mem[..]);
    assert m.Encode()[..|m.Encode()|] == m.Encode();
  }

  /** Calls of the client's reader that bring no byte. */
  function ExtraCalls(m: Message): nat {
    if m.addr == Domain([]) then 2 else 1
  }

  lemma FreshImage(m: Message, mem: seq<byte>, w: seq<byte>)
    requires m.Valid() && mem == seq(STRUCT_SIZE, _ => 0)
    ensures mem == Image(m, 0) && w == m.Encode()[..0] + w
  {
  }

  /** A whole connection request, cut up at will on its way to the server. */
  method Connect(host: seq<byte>, port: nat, offers: seq<Offer>, later: seq<byte>) returns (phase: Phase, got: Message)
    requires port < 65536 && |host| <= 255
    ensures phase == Done ==> got == ConnectRequest(host, port).value
    ensures phase == Done ==>
              && got.ver == 5 && got.code == 1 && got.addr == Domain(host)
              && |got.port| == 2 && U16(got.port[1], got.port[0]) == port
    ensures phase == Rejected ==> Fail in offers
    ensures phase == Receiving ==> Fail !in offers
    ensures Enough(offers, 7 + |host|) ==> phase == Done
  {
    var m := ConnectRequest(host, port).value;
    var sock := new Socket(m.Encode() + later, offers);
    phase, got := ServeRequest(sock, m);
  }

  /** And the server's reply on its way back. */
  method Confirm(offers: seq<Offer>, later: seq<byte>) returns (phase: Phase, got: Message)
    ensures phase == Done ==> got == Message(5, 0, 0, IPv4([127, 0, 0, 1]), [0, 0])
    ensures phase == Rejected ==> Fail in offers
    ensures phase == Receiving ==> Fail !in offers
    ensures Enough(offers, 11) ==> phase == Done
  {
    var sock := new Socket(SUCCESS_REPLY.Encode() + later, offers);
    phase, got := AwaitReply(sock, SUCCESS_REPLY);
  }
}
