/** The older server in session with the scripted client, and the stream of its data replies. */
module OldSession {
  import opened Words
  import opened SeqSpace
  import opened TcbValues
  import opened ClientScript
  import S = Segments
  import opened OldMachine
  import ConnList

  // ------------------------------------------------------------------ lock-step session

  datatype Session = Session(server: Table, client: Client)

  function ResponseOf(a: Answer): Response {
    match a
    case Silent => Timeout
    case Sent(seqNum, ackNum, flags, _, payload) => Response(flags, seqNum, ackNum, payload)
  }

  /** `handshake` with nothing lost or reordered. */
  function Connect(x: Session, iss: u32, window: u16): Session {
    var o := Step(x.server, Packet(ClientSegment(x.client, SYN_ONLY, window), 0, iss, []));
    var r := ResponseOf(o.answer);
    var c := AfterHandshake(x.client, r);
    if IsSynAck(r)
    then Session(Step(o.table, Packet(ClientSegment(c, ACK_ONLY, window), 0, iss, [])).table, c)
    else Session(o.table, c)
  }

  /** Data that fits an IP packet. */
  type Payload = d: seq<byte> | |d| <= 0xFFFF

  datatype Event =
    | Send(data: Payload, body: seq<byte>, iss: u32, window: u16)   // send_data, answered with `body`
    | Elsewhere(p: Packet)                                            // a packet on another connection

  /** `send_data` with nothing lost, or a packet of someone else. */
  function Do(x: Session, e: Event): Session {
    match e
    case Send(data, body, iss, window) =>
      if !x.client.established then x
      else
        var o := Step(x.server, Packet(ClientSegment(x.client, PSH_ACK, window), |data|, iss, body));
        Session(o.table, AfterData(x.client, data, ResponseOf(o.answer)))
    case Elsewhere(p) =>
      if p.seg.id == x.client.id then x else x.(server := Step(x.server, p).table)
  }

  function DoAll(x: Session, es: seq<Event>): Session
    decreases |es|
  {
    if es == [] then x else DoAll(Do(x, es[0]), es[1..])
  }

  /** Both ends are established and hold the same two sequence numbers modulo 2^32. */
  ghost predicate InStep(x: Session) {
    && x.client.established
    && x.client.id in x.server && x.server[x.client.id].id == x.client.id && x.server[x.client.id].state.Established?
    && Wrap32(x.client.mySeq) == x.server[x.client.id].recv.next
    && Wrap32(x.client.theirSeq) == x.server[x.client.id].send.next
  }

  /** The handshake succeeds exactly when the server does not know the connection yet, and then
      leaves both ends in step. */
  lemma ConnectIff(x: Session, iss: u32, window: u16)
    requires !x.client.established
    ensures Connect(x, iss, window).client.established <==> x.client.id !in x.server
    ensures x.client.id !in x.server ==> InStep(Connect(x, iss, window))
  {
    WrapAdd(iss, 1);
  }

  /** A SYN that reaches the server twice before the client's ACK strands the connection: the
      second one changes the server's ISS but its SYN-ACK is never sent, so the client's ACK
      establishes the connection exactly when both ISS values happen to be equal. */
  lemma RepeatedSynStrands(x: Session, iss: u32, again: u32, window: u16)
    requires x.client.id !in x.server
    ensures var syn := ClientSegment(x.client, SYN_ONLY, window);
            var first := Step(x.server, Packet(syn, 0, iss, []));
            var second := Step(first.table, Packet(syn, 0, again, []));
            var c := AfterHandshake(x.client, ResponseOf(first.answer));
            var last := Step(second.table, Packet(ClientSegment(c, ACK_ONLY, window), 0, again, []));
            && c.established && second.answer == Silent
            && x.client.id in last.table
            && (last.table[x.client.id].state.Established? <==> iss == again)
  {
    var syn, id := ClientSegment(x.client, SYN_ONLY, window), x.client.id;
    var b := Opened(ConnList.OldTcb(id), syn, iss);
    var first := Step(x.server, Packet(syn, 0, iss, []));
    assert first == Outcome(x.server[id := b], SynAckFor(b));
    assert Step(first.table, Packet(syn, 0, again, [])) == Outcome(first.table[id := Opened(b, syn, again)], Silent);
    NextDiffers(iss, again);
  }

  lemma NextDiffers(a: u32, b: u32)
    ensures Wrap32(a + 1) == Wrap32(b + 1) <==> a == b
  {
  }

  /** The same data segment delivered once for each of `bodies`, which are the handler's answers. */
  function Deliveries(t: Table, p: Packet, bodies: seq<seq<byte>>): Table
    decreases |bodies|
  {
    if bodies == [] then t else Deliveries(Step(t, p.(body := bodies[0])).table, p, bodies[1..])
  }

  /** The server never looks at the sequence number of data, so each delivery counts. */
  lemma {:induction false} EachDeliveryCounts(t: Table, id: ConnId, p: Packet, bodies: seq<seq<byte>>)
    requires id in t && t[id].id == id == p.seg.id && t[id].state.Established? && p.length >= 0 && p.seg.flags == PSH_ACK
    ensures var t' := Deliveries(t, p, bodies);
            && id in t' && t'[id].state.Established?
            && t'[id].recv.next == Wrap32(t[id].recv.next + |bodies| * p.length)
    decreases |bodies|
  {
    if bodies != [] {
      var t1 := Step(t, p.(body := bodies[0])).table;
      OneDelivery(t, id, p.(body := bodies[0]));
      EachDeliveryCounts(t1, id, p, bodies[1..]);
      WrapMore(t[id].recv.next, p.length, |bodies| - 1);
    }
  }

  lemma OneDelivery(t: Table, id: ConnId, p: Packet)
    requires id in t && t[id].id == id == p.seg.id && t[id].state.Established? && p.length >= 0 && p.seg.flags == PSH_ACK
    ensures var t' := Step(t, p).table;
            && id in t' && t'[id].id == id && t'[id].state.Established?
            && t'[id].recv.next == Wrap32(t[id].recv.next + p.length)
  {
  }

  lemma WrapMore(base: u32, d: nat, n: nat)
    ensures Wrap32(Wrap32(base + d) + n * d) == Wrap32(base + (n + 1) * d)
  {
    var rest := n * d;
    assert (n + 1) * d == d + rest;
    WrapAdd(base + d, rest);
  }

  /** After a send whose segment reached the server any number of times, and which the client
      counts once if it saw an answer and not at all otherwise, both ends agree on the data sent
      so far exactly if what the server counts too much or too little is a multiple of 2^32: up to
      65536 deliveries, if there was no data or it arrived as often as the client counts it. */
  lemma DeliveriesIff(x: Session, data: Payload, bodies: seq<seq<byte>>, iss: u32, window: u16, r: Response)
    requires InStep(x)
    ensures var p := Packet(ClientSegment(x.client, PSH_ACK, window), |data|, iss, []);
            var t, c := Deliveries(x.server, p, bodies), AfterData(x.client, data, r);
            var extra := |bodies| - if r.Response? then 1 else 0;
            && x.client.id in t
            && (Wrap32(c.mySeq) == t[x.client.id].recv.next <==> extra * |data| % 0x1_0000_0000 == 0)
            && (|bodies| <= 0x1_0000 ==> (extra * |data| % 0x1_0000_0000 == 0 <==> data == [] || extra == 0))
  {
    var p := Packet(ClientSegment(x.client, PSH_ACK, window), |data|, iss, []);
    EachDeliveryCounts(x.server, x.client.id, p, bodies);
    CountedIff(x, Deliveries(x.server, p, bodies)[x.client.id].recv.next, data, |bodies|, r);
  }

  lemma CountedIff(x: Session, next: u32, data: Payload, n: nat, r: Response)
    requires InStep(x) && next == Wrap32(x.server[x.client.id].recv.next + n * |data|)
    ensures var extra := n - if r.Response? then 1 else 0;
            && (Wrap32(AfterData(x.client, data, r).mySeq) == next <==> extra * |data| % 0x1_0000_0000 == 0)
            && (n <= 0x1_0000 ==> (extra * |data| % 0x1_0000_0000 == 0 <==> data == [] || extra == 0))
  {
    CountsAgree(x.client.mySeq, next, n, if r.Response? then 1 else 0, |data|);
  }

  lemma CountsAgree(base: int, next: u32, n: nat, k: nat, d: nat)
    requires k <= 1 && d <= 0xFFFF && next == Wrap32(Wrap32(base) + n * d)
    ensures Wrap32(if k == 1 then base + d else base) == next <==> (n - k) * d % 0x1_0000_0000 == 0
    ensures n <= 0x1_0000 ==> ((n - k) * d % 0x1_0000_0000 == 0 <==> d == 0 || n == k)
  {
    if n <= 0x1_0000 {
      SmallMultiple(n - k, d);
    }
    var total, extra := n * d, (n - k) * d;
    assert total == extra + if k == 1 then d else 0;
    WrapAdd(base, total);
    SameWrap(if k == 1 then base + d else base, extra);
  }

  lemma SameWrap(a: int, e: int)
    ensures Wrap32(a) == Wrap32(a + e) <==> e % 0x1_0000_0000 == 0
  {
  }

  lemma SmallMultiple(m: int, d: nat)
    requires -1 <= m <= 0x1_0000 && d <= 0xFFFF
    ensures m * d % 0x1_0000_0000 == 0 <==> d == 0 || m == 0
  {
    if d > 0 && m > 0 {
      ProductBound(m, d);
    } else if m < 0 {
      assert m * d == 0 - d;
    }
  }

  /** In particular, a send that reaches the server twice leaves both ends in step exactly if it is
      empty. */
  lemma RepeatedSendStrands(x: Session, data: Payload, body: seq<byte>, again: seq<byte>, iss: u32, window: u16)
    requires InStep(x)
    ensures var p := Packet(ClientSegment(x.client, PSH_ACK, window), |data|, iss, body);
            var first := Step(x.server, p);
            var second := Step(first.table, p.(body := again));
            InStep(Session(second.table, AfterData(x.client, data, ResponseOf(first.answer)))) <==> data == []
  {
    var p := Packet(ClientSegment(x.client, PSH_ACK, window), |data|, iss, body);
    var first := Step(x.server, p);
    var second := Step(first.table, p.(body := again));
    DeliveriesIff(x, data, [body, again], iss, window, ResponseOf(first.answer));
    var q := p.(body := []);
    assert q.(body := body) == p && q.(body := again) == p.(body := again);
    assert [body, again][1..] == [again] && [again][1..] == [];
    assert Deliveries(first.table, q, [again]) == Deliveries(second.table, q, []) == second.table;
    assert Deliveries(x.server, q, [body, again]) == second.table;
  }

  lemma ProductBound(m: nat, d: nat)
    requires 0 < m <= 0x1_0000 && 0 < d <= 0xFFFF
    ensures 0 < m * d < 0x1_0000_0000
  {
    assert m * d <= 0x1_0000 * d;
  }

  lemma WrapAdd(x: int, y: int)
    ensures Wrap32(Wrap32(x) + y) == Wrap32(x + y)
  {
    var w: int := x % 0x1_0000_0000;
    var q := x / 0x1_0000_0000;
    assert x + y == w + y + 0x1_0000_0000 * q;
  }

  lemma DoKeepsStep(x: Session, e: Event)
    requires InStep(x)
    ensures InStep(Do(x, e))
  {
    if e.Send? && e.data != [] {
      WrapAdd(x.client.mySeq, |e.data|);
      WrapAdd(x.client.theirSeq, |e.body|);
    }
  }

  /** After the handshake and any number of sends, with other connections served in between,
      client and server agree on both sequence numbers. */
  lemma {:induction false} SessionAgreement(x: Session, iss: u32, window: u16, es: seq<Event>)
    requires !x.client.established && x.client.id !in x.server
    ensures InStep(DoAll(Connect(x, iss, window), es))
  {
    ConnectIff(x, iss, window);
    DoAllKeepsStep(Connect(x, iss, window), es);
  }

  lemma {:induction false} DoAllKeepsStep(x: Session, es: seq<Event>)
    requires InStep(x)
    ensures InStep(DoAll(x, es))
    decreases |es|
  {
    if es != [] {
      DoKeepsStep(x, es[0]);
      DoAllKeepsStep(Do(x, es[0]), es[1..]);
    }
  }

  /** The answer to a send starts at the number that the client expects next, acknowledges all
      that it has sent, and carries the body. */
  lemma AnswerFitsClient(x: Session, data: Payload, body: seq<byte>, iss: u32, window: u16)
    requires InStep(x) && data != []
    ensures var a := Step(x.server, Packet(ClientSegment(x.client, PSH_ACK, window), |data|, iss, body)).answer;
            && a.Sent? && a.seqNum == Wrap32(x.client.theirSeq) && a.payload == body && S.FlagsOf(a.flags).ack
            && a.ackNum == Wrap32(Do(x, Send(data, body, iss, window)).client.mySeq)
  {
    WrapAdd(x.client.mySeq, |data|);
  }

  /** An empty send changes neither side. */
  lemma EmptySendChangesNothing(x: Session, body: seq<byte>, iss: u32, window: u16)
    requires InStep(x)
    ensures Do(x, Send([], body, iss, window)) == x
  {
  }

  // ------------------------------------------------------------------ the output stream

  /** The data replies that the server sends on `id` while the connection lasts. */
  function Replies(t: Table, id: ConnId, ps: seq<Packet>): seq<Answer>
    decreases |ps|
  {
    if ps == [] || id !in t then []
    else
      var o := Step(t, ps[0]);
      (if ps[0].seg.id == id && o.answer.Sent? && o.answer.payload != [] then [o.answer] else [])
      + Replies(o.table, id, ps[1..])
  }

  /** The response bodies for the requests on `id`, joined in order. */
  function Bodies(t: Table, id: ConnId, ps: seq<Packet>): seq<byte>
    decreases |ps|
  {
    if ps == [] || id !in t then []
    else (if IsRequest(t[id], ps[0]) then ps[0].body else []) + Bodies(Step(t, ps[0]).table, id, ps[1..])
  }

  /** A packet that the request handler gets to see. */
  predicate IsRequest(b: Tcb, p: Packet) {
    p.seg.id == b.id && b.state.Established? && !p.seg.flags.rst && !p.seg.flags.fin && p.length > 0
  }

  /** The reply covers sequence number `num`. */
  predicate Covers(a: Answer, num: u32) {
    a.Sent? && Ahead(num, a.seqNum) < |a.payload|
  }

  /** How many bytes the first `j` replies carry. */
  function Offset(rs: seq<Answer>, j: nat): nat
    requires j <= |rs| && forall a :: a in rs ==> a.Sent?
  {
    if j == 0 then 0 else |rs[0].payload| + Offset(rs[1..], j - 1)
  }

  /** The `j`th reply starts, in sequence space, where those before it ended, and carries exactly
      the bytes of the stream there. */
  ghost predicate Tile(rs: seq<Answer>, base: u32, stream: seq<byte>, j: nat)
    requires j < |rs| && forall a :: a in rs ==> a.Sent?
  {
    var at := Offset(rs, j);
    && rs[j].seqNum == Wrap32(base + at)
    && at + |rs[j].payload| <= |stream|
    && rs[j].payload == stream[at..at + |rs[j].payload|]
  }

  ghost predicate Tiles(rs: seq<Answer>, base: u32, stream: seq<byte>) {
    && (forall a :: a in rs ==> a.Sent?)
    && Offset(rs, |rs|) == |stream|
    && forall j {:trigger Tile(rs, base, stream, j)} :: 0 <= j < |rs| ==> Tile(rs, base, stream, j)
  }

  lemma TilesCons(a: Answer, rs: seq<Answer>, base: u32, stream: seq<byte>)
    requires a.Sent? && a.seqNum == base && Tiles(rs, Wrap32(base + |a.payload|), stream)
    ensures Tiles([a] + rs, base, a.payload + stream)
  {
    var all, joined := [a] + rs, a.payload + stream;
    assert all[1..] == rs;
    forall j | 0 <= j < |all|
      ensures Tile(all, base, joined, j)
    {
      if j > 0 {
        assert all[j] == rs[j - 1];
        TileMoves(a, rs, base, stream, j - 1);
      }
    }
  }

  /** A tile keeps its place when one more reply stands before it. */
  lemma TileMoves(a: Answer, rs: seq<Answer>, base: u32, stream: seq<byte>, j: nat)
    requires a.Sent? && Tiles(rs, Wrap32(base + |a.payload|), stream) && j < |rs|
    ensures var at, len := |a.payload| + Offset(rs, j), |rs[j].payload|;
            && rs[j].seqNum == Wrap32(base + at)
            && at + len <= |a.payload + stream| && rs[j].payload == (a.payload + stream)[at..at + len]
  {
    var n, at, len := |a.payload|, Offset(rs, j), |rs[j].payload|;
    assert Tile(rs, Wrap32(base + n), stream, j);
    WrapAdd(base + n, at);
    LaterSlice(a.payload, stream, at, len);
  }

  lemma LaterSlice(first: seq<byte>, rest: seq<byte>, at: nat, len: nat)
    requires at + len <= |rest|
    ensures (first + rest)[|first| + at..|first| + at + len] == rest[at..at + len]
  {
  }

  predicate Open(b: Tcb) {
    b.state.Established? || b.state.CloseWait?
  }

  /** The next number to send after packet `p`. */
  function NextAfter(b: Tcb, p: Packet): u32 {
    if IsRequest(b, p) then Wrap32(b.send.next + |p.body|) else b.send.next
  }

  /** What one packet on the connection does to its stream. */
  lemma StreamReact(b: Tcb, p: Packet)
    requires Open(b) && p.seg.id == b.id
    ensures var e := React(b, p);
            && (e.Keep? ==> e.tcb.id == b.id && Open(e.tcb) && e.tcb.send.next == NextAfter(b, p))
            && (e.Keep? && e.answer.Sent? && e.answer.payload != [] <==> IsRequest(b, p) && p.body != [])
            && (IsRequest(b, p) ==> e.Keep? && e.answer.Sent? && e.answer.seqNum == b.send.next && e.answer.payload == p.body)
  {
    if p.seg.flags.rst {
      assert React(b, p) == Remove || React(b, p) == Keep(b, Silent);
    }
  }

  /** What one packet does to the stream of a connection. */
  lemma StreamStep(t: Table, id: ConnId, p: Packet)
    requires id in t && t[id].id == id && Open(t[id])
    ensures var o, request := Step(t, p), IsRequest(t[id], p);
            && (id in o.table ==> o.table[id].id == id && Open(o.table[id]) && o.table[id].send.next == NextAfter(t[id], p))
            && (p.seg.id == id && o.answer.Sent? && o.answer.payload != [] <==> request && p.body != [])
            && (request ==> id in o.table)
            && (request && p.body != [] ==> o.answer.seqNum == t[id].send.next && o.answer.payload == p.body)
  {
    if p.seg.id == id {
      StreamReact(t[id], p);
    }
  }

  /** Over any run of an established connection, with any packets on it and on others, the data
      replies tile the concatenation of the response bodies from the next number on. */
  lemma {:induction false} RepliesTile(t: Table, id: ConnId, ps: seq<Packet>)
    requires id in t && t[id].id == id && Open(t[id])
    ensures Tiles(Replies(t, id, ps), t[id].send.next, Bodies(t, id, ps))
    decreases |ps|
  {
    if ps != [] {
      StreamStep(t, id, ps[0]);
      var o, base := Step(t, ps[0]), t[id].send.next;
      var rest, bytes := Replies(o.table, id, ps[1..]), Bodies(o.table, id, ps[1..]);
      if id in o.table {
        RepliesTile(o.table, id, ps[1..]);
      }
      if IsRequest(t[id], ps[0]) && ps[0].body != [] {
        assert Replies(t, id, ps) == [o.answer] + rest && Bodies(t, id, ps) == o.answer.payload + bytes;
        TilesCons(o.answer, rest, base, bytes);
      } else {
        assert Replies(t, id, ps) == rest && Bodies(t, id, ps) == bytes;
        assert id in o.table ==> o.table[id].send.next == base;
      }
    }
  }

  lemma {:induction false} OffsetGrows(rs: seq<Answer>, i: nat, j: nat)
    requires (forall a :: a in rs ==> a.Sent?) && i < j <= |rs|
    ensures Offset(rs, i) + |rs[i].payload| <= Offset(rs, j)
  {
    if i == 0 {
      assert Offset(rs, j) == |rs[0].payload| + Offset(rs[1..], j - 1);
    } else {
      assert forall a :: a in rs[1..] ==> a in rs;
      OffsetGrows(rs[1..], i - 1, j - 1);
    }
  }

  /** The reply that holds byte `k` of the stream. */
  lemma {:induction false} Locate(rs: seq<Answer>, k: nat) returns (j: nat)
    requires (forall a :: a in rs ==> a.Sent?) && k < Offset(rs, |rs|)
    ensures j < |rs| && Offset(rs, j) <= k < Offset(rs, j) + |rs[j].payload|
  {
    if k < |rs[0].payload| {
      j := 0;
    } else {
      assert forall a :: a in rs[1..] ==> a in rs;
      j := Locate(rs[1..], k - |rs[0].payload|);
      j := j + 1;
    }
  }

  /** Where position `k` of the stream lies relative to reply `i`. */
  lemma TileDistance(rs: seq<Answer>, base: u32, stream: seq<byte>, i: nat, k: nat)
    requires Tiles(rs, base, stream) && i < |rs| && k < |stream| < 0x1_0000_0000
    ensures Covers(rs[i], Wrap32(base + k)) <==> Offset(rs, i) <= k < Offset(rs, i) + |rs[i].payload|
    ensures Offset(rs, i) <= k ==> Ahead(Wrap32(base + k), rs[i].seqNum) == k - Offset(rs, i)
    ensures Offset(rs, i) + |rs[i].payload| <= |stream|
    ensures rs[i].payload == stream[Offset(rs, i)..Offset(rs, i) + |rs[i].payload|]
  {
    assert Tile(rs, base, stream, i);
    AheadOf(base, Offset(rs, i), k);
  }

  /** In a tiling shorter than the circle, each position is covered by exactly one reply, which
      holds the byte of the stream there. */
  lemma TilesCoverOnce(rs: seq<Answer>, base: u32, stream: seq<byte>, k: nat) returns (j: nat)
    requires Tiles(rs, base, stream) && k < |stream| < 0x1_0000_0000
    ensures var num := Wrap32(base + k);
            && j < |rs| && Covers(rs[j], num)
            && rs[j].payload[Ahead(num, rs[j].seqNum)] == stream[k]
            && forall i :: 0 <= i < |rs| && i != j ==> !Covers(rs[i], num)
  {
    j := Locate(rs, k);
    TileDistance(rs, base, stream, j, k);
    forall i | 0 <= i < |rs| && i != j
      ensures !Covers(rs[i], Wrap32(base + k))
    {
      TileDistance(rs, base, stream, i, k);
      if i < j {
        OffsetGrows(rs, i, j);
      } else {
        OffsetGrows(rs, j, i);
      }
    }
  }

  /** Reassembling by sequence number, in whatever order the replies arrive: for every byte of
      the joined bodies there is exactly one reply covering its sequence number, and that reply
      holds that byte, also across the 32-bit wrap, for streams shorter than 2^32. */
  lemma StreamIsContiguous(t: Table, id: ConnId, ps: seq<Packet>, k: nat) returns (j: nat)
    requires id in t && t[id].id == id && t[id].state.Established? && t[id].send.next == Wrap32(t[id].send.iss + 1)
    requires k < |Bodies(t, id, ps)| < 0x1_0000_0000
    ensures var rs, num := Replies(t, id, ps), Wrap32(t[id].send.iss + 1 + k);
            && j < |rs| && Covers(rs[j], num)
            && rs[j].payload[Ahead(num, rs[j].seqNum)] == Bodies(t, id, ps)[k]
            && forall i :: 0 <= i < |rs| && i != j ==> !Covers(rs[i], num)
  {
    var rs, stream, base := Replies(t, id, ps), Bodies(t, id, ps), t[id].send.next;
    RepliesTile(t, id, ps);
    j := TilesCoverOnce(rs, base, stream, k);
    assert Wrap32(base + k) == Wrap32(t[id].send.iss + 1 + k) by {
      WrapAdd(t[id].send.iss + 1, k);
    }
  }

  /** Distances on the circle between two positions of a stream shorter than the circle. */
  lemma AheadOf(base: u32, from: nat, to: nat)
    requires from < 0x1_0000_0000 && to < 0x1_0000_0000
    ensures Ahead(Wrap32(base + to), Wrap32(base + from)) == if from <= to then to - from else to - from + 0x1_0000_0000
  {
  }
}
