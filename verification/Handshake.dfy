/** The scripted client of the refactored server, and the two of them over a network that
    drops, duplicates and reorders segments but does not forge them. */
module Handshake {
  import opened Words
  import opened TcbValues
  import opened ConnMachine
  import opened ClientScript
  import S = Segments
  import opened RstSegment

  /** What the client's sr1 sees of the reply to its segment `seg`. In a reset, whatever `tcp_rst`
      left unassigned is arbitrary; how much data there was matters only without ACK, and then
      there is none. */
  function ResponseTo(seg: Segment, r: Reply, junk: Unassigned): Response {
    match r
    case NoReply => ClientScript.Timeout
    case SynAck(seqNum, ackNum, _) => Response(S.SYN + S.ACK, seqNum, ackNum, [])
    case Reset =>
      var n := ResetNumbers(seg, 0, junk);
      Response(n.flags, n.seqNum, n.ackNum, [])
  }

  /** What the client's sr1 is waiting for. */
  datatype Waiting = Idle | ForSynAck | ForData(data: seq<byte>)

  /** Both ends and the network. Segments once sent stay available to be delivered any number of
      times, or never. The history variable `counted` is the number of data bytes whose segment the
      client saw answered. */
  datatype World = World(server: Table, client: Client, waiting: Waiting,
                         toServer: set<Segment>, toClient: set<Response>, counted: nat)

  datatype Action =
    | Start(window: u16)                      // the client begins a handshake
    | Send(data: seq<byte>, window: u16)      // the client sends data
    | Answer(r: Response, window: u16)        // sr1 returns something that the server sent
    | GiveUp                                  // sr1 times out
    | Deliver(i: Input, junk: Unassigned)     // the server gets a packet

  function Init(id: ConnId): World {
    World(map[], NewClient(id), Idle, {}, {}, 0)
  }

  /** Handshakes start only from CLOSED; what reaches the server on the client's connection
      was sent by the client, while on other connections anything may arrive. */
  predicate Enabled(w: World, a: Action) {
    match a
    case Start(_) => !w.client.established && w.waiting.Idle?
    case Send(_, _) => w.client.established && w.waiting.Idle?
    case Answer(r, _) => !w.waiting.Idle? && r in w.toClient
    case GiveUp => !w.waiting.Idle?
    case Deliver(i, _) => i.seg in w.toServer || i.seg.id != w.client.id
  }

  function Act(w: World, a: Action): World {
    match a
    case Start(window) =>
      w.(waiting := ForSynAck, toServer := w.toServer + {ClientSegment(w.client, SYN_ONLY, window)})
    case Send(data, window) =>
      w.(waiting := ForData(data), toServer := w.toServer + {ClientSegment(w.client, PSH_ACK, window)})
    case Answer(r, window) =>
      if w.waiting.ForData? then
        w.(client := AfterData(w.client, w.waiting.data, r), waiting := Idle,
           counted := w.counted + if r.Response? then |w.waiting.data| else 0)
      else
        var c := AfterHandshake(w.client, r);
        w.(client := c, waiting := Idle,
           toServer := if IsSynAck(r) then w.toServer + {ClientSegment(c, ACK_ONLY, window)} else w.toServer)
    case GiveUp => w.(waiting := Idle)
    case Deliver(i, junk) =>
      var o := Step(w.server, i);
      var seen := if i.seg.id == w.client.id && o.reply != NoReply then {ResponseTo(i.seg, o.reply, junk)} else {};
      w.(server := o.table, toClient := w.toClient + seen)
  }

  /** The world after any attempted actions; those not enabled do nothing. */
  function Exec(id: ConnId, actions: seq<Action>): World {
    if actions == [] then Init(id)
    else
      var w, a := Exec(id, actions[..|actions| - 1]), actions[|actions| - 1];
      if Enabled(w, a) then Act(w, a) else w
  }

  /** The client's entry at the server, if there is one, and what an established one says of the
      client. */
  ghost predicate Agreement(t: Table, c: Client) {
    c.id in t ==>
      && !t[c.id].state.Closed? && t[c.id].recv.irs == CLIENT_ISN
      && (t[c.id].state.Established? ==> c.established && Wrap32(c.theirSeq) == t[c.id].send.next)
  }

  predicate Flagged(f: Flags) {
    f == SYN_ONLY || f == ACK_ONLY || f == PSH_ACK
  }

  /** A SYN, or an ACK, with data or without, of an established client. */
  predicate FromClient(c: Client, s: Segment) {
    && s.id == c.id && Flagged(s.flags)
    && (s.flags.syn ==> s.seqNum == CLIENT_ISN)
    && (s.flags.ack ==> c.established && s.ackNum == Wrap32(c.theirSeq))
  }

  /** What the server may have sent the client. */
  predicate ToClient(r: Response) {
    r.Response? && r.payload == [] && (IsSynAck(r) ==> r.ackNum == CLIENT_ISN + 1)
  }

  ghost predicate Inv(w: World) {
    && GoodTable(w.server) && Agreement(w.server, w.client)
    && w.client.mySeq == (if w.client.established then CLIENT_ISN + 1 + w.counted else CLIENT_ISN)
    && (if w.client.established then !w.waiting.ForSynAck? else !w.waiting.ForData? && w.counted == 0)
    && (forall s :: s in w.toServer ==> FromClient(w.client, s))
    && (forall r :: r in w.toClient ==> ToClient(r))
  }

  /** Packets on other connections leave the client's entry alone. */
  lemma ForeignKeepsInv(w: World, i: Input, junk: Unassigned)
    requires Inv(w) && i.seg.id != w.client.id
    ensures Inv(Act(w, Deliver(i, junk)))
  {
    StepKeepsGood(w.server, i);
    StepIsLocal(w.server, i);
    var t, t', id := w.server, Step(w.server, i).table, w.client.id;
    assert id in t' <==> id in t' - {i.seg.id};
    assert id in t <==> id in t - {i.seg.id};
    assert id in t ==> t[id] == (t - {i.seg.id})[id] == t'[id];
  }

  /** What the server does with the client's own traffic. */
  lemma OwnKeepsInv(w: World, i: Input, junk: Unassigned)
    requires Inv(w) && i.seg in w.toServer
    ensures Inv(Act(w, Deliver(i, junk)))
  {
    assert FromClient(w.client, i.seg);
    StepKeepsGood(w.server, i);
    OwnReply(w.server, i, junk);
    OwnKeepsEntry(w.server, w.client, i);
  }

  lemma OwnKeepsEntry(t: Table, c: Client, i: Input)
    requires GoodTable(t) && Agreement(t, c) && FromClient(c, i.seg)
    ensures Agreement(Step(t, i).table, c)
  {
    OwnStep(t, i);
  }

  /** The server's step on a SYN, an ACK or data of the client. */
  lemma OwnStep(t: Table, i: Input)
    requires GoodTable(t) && Flagged(i.seg.flags)
    ensures var t', id := Step(t, i).table, i.seg.id;
            id in t' ==>
              || (id in t && t[id] == t'[id])
              || (t'[id].state.SynReceived? && i.seg.flags == SYN_ONLY && t'[id].recv.irs == i.seg.seqNum)
              || (&& t'[id].state.Established? && i.seg.flags.ack && i.seg.ackNum == t'[id].send.next
                  && id in t && t[id].state.SynReceived? && t[id].recv == t'[id].recv)
  {
  }

  /** What the client takes for a SYN-ACK acknowledges its SYN, be it one or a reset whose
      unassigned flags look like one: the acknowledgment number is assigned whenever the flags
      are not. */
  lemma OwnReply(t: Table, i: Input, junk: Unassigned)
    requires Flagged(i.seg.flags)
    ensures var o := Step(t, i);
            var r := ResponseTo(i.seg, o.reply, junk);
            && (o.reply != NoReply ==> r.Response? && r.payload == [])
            && (IsSynAck(r) ==> i.seg.flags == SYN_ONLY && r.ackNum == Wrap32(i.seg.seqNum + 1))
  {
  }

  lemma ActKeepsInv(w: World, a: Action)
    requires Inv(w) && Enabled(w, a)
    ensures Inv(Act(w, a))
  {
    match a
    case Deliver(i, junk) =>
      if i.seg in w.toServer {
        OwnKeepsInv(w, i, junk);
      } else {
        ForeignKeepsInv(w, i, junk);
      }
    case _ =>
  }

  lemma {:induction false} ExecKeepsInv(id: ConnId, actions: seq<Action>)
    ensures Inv(Exec(id, actions)) && Exec(id, actions).client.id == id
  {
    if actions != [] {
      var w, a := Exec(id, actions[..|actions| - 1]), actions[|actions| - 1];
      ExecKeepsInv(id, actions[..|actions| - 1]);
      if Enabled(w, a) {
        ActKeepsInv(w, a);
      }
    }
  }

  /** In every reachable state, a server entry in ESTABLISHED means that the client is established
      too and that both hold the same number for the server's side; for the client's side they do
      so exactly if the client has counted no data, or a multiple of 2^32 bytes. */
  lemma HandshakeAgreement(id: ConnId, actions: seq<Action>)
    ensures var w := Exec(id, actions);
            id in w.server && w.server[id].state.Established? ==>
              && w.client.established && Wrap32(w.client.theirSeq) == w.server[id].send.next
              && w.server[id].recv.next == 1001
              && (Wrap32(w.client.mySeq) == w.server[id].recv.next <==> w.counted % 0x1_0000_0000 == 0)
  {
    ExecKeepsInv(id, actions);
    var w := Exec(id, actions);
    if id in w.server && w.server[id].state.Established? {
      InvAgrees(w);
    }
  }

  lemma InvAgrees(w: World)
    requires Inv(w) && w.client.id in w.server && w.server[w.client.id].state.Established?
    ensures var b := w.server[w.client.id];
            && w.client.established && Wrap32(w.client.theirSeq) == b.send.next && b.recv.next == CLIENT_ISN + 1
            && (Wrap32(w.client.mySeq) == b.recv.next <==> w.counted % 0x1_0000_0000 == 0)
  {
    MultipleOnly(CLIENT_ISN + 1, w.counted);
  }

  lemma MultipleOnly(base: nat, n: nat)
    requires base < 0x1_0000_0000
    ensures Wrap32(base + n) == base <==> n % 0x1_0000_0000 == 0
  {
  }

  /** A client that sends no data counts none. */
  lemma {:induction false} NothingCounted(id: ConnId, actions: seq<Action>)
    requires forall a :: a in actions ==> !a.Send?
    ensures Exec(id, actions).counted == 0 && !Exec(id, actions).waiting.ForData?
  {
    if actions != [] {
      NothingCounted(id, actions[..|actions| - 1]);
    }
  }

  /** So as long as the client has sent no data, both ends agree on both numbers. */
  lemma AgreementWithoutData(id: ConnId, actions: seq<Action>)
    requires forall a :: a in actions ==> !a.Send?
    ensures var w := Exec(id, actions);
            id in w.server && w.server[id].state.Established? ==>
              && w.client.established && Wrap32(w.client.theirSeq) == w.server[id].send.next
              && Wrap32(w.client.mySeq) == w.server[id].recv.next == CLIENT_ISN + 1
  {
    HandshakeAgreement(id, actions);
    NothingCounted(id, actions);
  }

  /** A handshake whose last ACK is still under way. */
  function HalfOpen(id: ConnId, iss: u32, window: u16, junk: Unassigned): seq<Action> {
    [Start(window)] + [Deliver(Input(ClientSegment(NewClient(id), SYN_ONLY, window), iss, true), junk)]
    + [Answer(SynAckSeen(iss), window)]
  }

  function SynAckSeen(iss: u32): Response {
    Response(S.SYN + S.ACK, iss, CLIENT_ISN + 1, [])
  }

  function HalfOpenWorld(id: ConnId, iss: u32, window: u16): World {
    var c, r := NewClient(id), SynAckSeen(iss);
    var syn := ClientSegment(c, SYN_ONLY, window);
    var c' := AfterHandshake(c, r);
    World(map[id := OnSyn(NewTcb(id), syn, iss)], c', Idle, {syn, ClientSegment(c', ACK_ONLY, window)}, {r}, 0)
  }

  lemma HalfOpenRuns(id: ConnId, iss: u32, window: u16, junk: Unassigned)
    requires id.dstPort == LISTEN_PORT
    ensures Exec(id, HalfOpen(id, iss, window, junk)) == HalfOpenWorld(id, iss, window)
  {
    var syn := ClientSegment(NewClient(id), SYN_ONLY, window);
    var a1 := [Start(window)];
    var a2 := a1 + [Deliver(Input(syn, iss, true), junk)];
    assert [] + a1 == a1;
    ExecAppend(id, [], Start(window));
    ExecAppend(id, a1, Deliver(Input(syn, iss, true), junk));
    ExecAppend(id, a2, Answer(SynAckSeen(iss), window));
    assert Step(map[], Input(syn, iss, true)).table == map[id := OnSyn(NewTcb(id), syn, iss)];
    assert Exec(id, a2) == World(map[id := OnSyn(NewTcb(id), syn, iss)], NewClient(id), ForSynAck, {syn}, {SynAckSeen(iss)}, 0);
  }

  lemma SendAtHalfOpen(id: ConnId, iss: u32, window: u16, data: seq<byte>)
    ensures var w := HalfOpenWorld(id, iss, window);
            var w1 := Act(w, Send(data, window));
            var w2 := Act(w1, Answer(SynAckSeen(iss), window));
            && Enabled(w, Send(data, window)) && Enabled(w1, Answer(SynAckSeen(iss), window))
            && w2.server == w.server && w2.client == w.client.(mySeq := CLIENT_ISN + 1 + |data|)
            && ClientSegment(w.client, ACK_ONLY, window) in w2.toServer
  {
  }

  /** The last ACK of a half-open handshake, in any world with that server and client but for what the
      client counts. */
  lemma AckAtHalfOpen(w: World, id: ConnId, iss: u32, window: u16, junk: Unassigned)
    requires id.dstPort == LISTEN_PORT && w.server == HalfOpenWorld(id, iss, window).server
    requires ClientSegment(HalfOpenWorld(id, iss, window).client, ACK_ONLY, window) in w.toServer
    ensures var a := Deliver(Input(ClientSegment(HalfOpenWorld(id, iss, window).client, ACK_ONLY, window), iss, true), junk);
            var w' := Act(w, a);
            && Enabled(w, a) && w'.client == w.client && id in w'.server && w'.server[id].state.Established?
            && w'.server[id].recv.next == CLIENT_ISN + 1
  {
    LastAck(w.server, ClientSegment(HalfOpenWorld(id, iss, window).client, ACK_ONLY, window), iss);
  }

  /** Then the client sends data, takes a second copy of the SYN-ACK for the answer, and the ACK
      arrives: no reset occurs, and the client is ahead by the data. */
  lemma DataDrifts(id: ConnId, iss: u32, window: u16, data: seq<byte>, junk: Unassigned)
    requires id.dstPort == LISTEN_PORT
    ensures var ack := ClientSegment(AfterHandshake(NewClient(id), SynAckSeen(iss)), ACK_ONLY, window);
            var w := Exec(id, HalfOpen(id, iss, window, junk) + [Send(data, window)] + [Answer(SynAckSeen(iss), window)]
                              + [Deliver(Input(ack, iss, true), junk)]);
            && id in w.server && w.server[id].state.Established? && w.client.established
            && w.server[id].recv.next == CLIENT_ISN + 1 && w.client.mySeq == CLIENT_ISN + 1 + |data|
  {
    var a3, w3 := HalfOpen(id, iss, window, junk), HalfOpenWorld(id, iss, window);
    var a4 := a3 + [Send(data, window)];
    var a5 := a4 + [Answer(SynAckSeen(iss), window)];
    HalfOpenRuns(id, iss, window, junk);
    SendAtHalfOpen(id, iss, window, data);
    ExecAppend(id, a3, Send(data, window));
    ExecAppend(id, a4, Answer(SynAckSeen(iss), window));
    ExecAppend(id, a5, Deliver(Input(ClientSegment(w3.client, ACK_ONLY, window), iss, true), junk));
    AckAtHalfOpen(Exec(id, a5), id, iss, window, junk);
  }

  lemma LastAck(t: Table, ack: Segment, iss: u32)
    requires ack.id in t && t[ack.id].id == ack.id && ack.id.dstPort == LISTEN_PORT && ack.flags in {ACK_ONLY, PSH_ACK}
    requires t[ack.id].state.SynReceived? && t[ack.id].send.next == ack.ackNum
    ensures var t' := Step(t, Input(ack, iss, true)).table;
            ack.id in t' && t'[ack.id].state.Established? && t'[ack.id].recv == t[ack.id].recv
  {
  }

  /** What the network may do: in every reachable state each segment sent so far can be delivered
      again, to the server at any time and to the client whenever it waits, and nothing sent is ever
      out of reach later on. */
  lemma NetworkRepeats(id: ConnId, actions: seq<Action>, a: Action, i: Input, r: Response, junk: Unassigned, window: u16)
    ensures var w, w' := Exec(id, actions), Exec(id, actions + [a]);
            && w.toServer <= w'.toServer && w.toClient <= w'.toClient
            && (i.seg in w.toServer || i.seg.id != w.client.id ==> Enabled(w, Deliver(i, junk)))
            && (r in w.toClient && w.waiting != Idle ==> Enabled(w, Answer(r, window)))
            && (w.waiting != Idle ==> Enabled(w, GiveUp) && (a.GiveUp? ==> w' == w.(waiting := Idle)))
  {
    ExecAppend(id, actions, a);
  }

  /** Data may arrive in place of the last ACK, and completes the handshake as well as that would. */
  lemma DataCompletes(id: ConnId, iss: u32, window: u16, data: seq<byte>, junk: Unassigned)
    requires id.dstPort == LISTEN_PORT
    ensures var segment := ClientSegment(AfterHandshake(NewClient(id), SynAckSeen(iss)), PSH_ACK, window);
            var w := Exec(id, HalfOpen(id, iss, window, junk) + [Send(data, window)] + [Deliver(Input(segment, iss, true), junk)]);
            id in w.server && w.server[id].state.Established? && w.waiting == ForData(data)
  {
    var a3, w3 := HalfOpen(id, iss, window, junk), HalfOpenWorld(id, iss, window);
    var segment := ClientSegment(w3.client, PSH_ACK, window);
    HalfOpenRuns(id, iss, window, junk);
    ExecAppend(id, a3, Send(data, window));
    ExecAppend(id, a3 + [Send(data, window)], Deliver(Input(segment, iss, true), junk));
    LastAck(w3.server, segment, iss);
  }

  // ------------------------------------------------------------------ one attempt

  /** The answer that an undisturbed SYN gets, with memory at hand. */
  function FirstResponse(w: World, iss: u32, window: u16, junk: Unassigned): Response {
    var syn := ClientSegment(w.client, SYN_ONLY, window);
    ResponseTo(syn, Step(w.server, Input(syn, iss, true)).reply, junk)
  }

  /** The client's SYN reaches the server. */
  function Open(w: World, iss: u32, window: u16, junk: Unassigned): Action {
    Deliver(Input(ClientSegment(w.client, SYN_ONLY, window), iss, true), junk)
  }

  /** The ACK with which the client completes the handshake reaches the server. */
  function Close(w: World, iss: u32, window: u16, junk: Unassigned): Action {
    var c := AfterHandshake(w.client, FirstResponse(w, iss, window, junk));
    Deliver(Input(ClientSegment(c, ACK_ONLY, window), iss, true), junk)
  }

  /** A handshake with nothing lost, duplicated or reordered. */
  function Attempt(w: World, iss: u32, window: u16, junk: Unassigned): seq<Action> {
    var r := FirstResponse(w, iss, window, junk);
    [Start(window)] + [Open(w, iss, window, junk)] + [Answer(r, window)]
    + if IsSynAck(r) then [Close(w, iss, window, junk)] else []
  }

  /** The world after it. */
  function Attempted(w: World, iss: u32, window: u16, junk: Unassigned): World {
    var r := FirstResponse(w, iss, window, junk);
    var w' := Act(Act(Act(w, Start(window)), Open(w, iss, window, junk)), Answer(r, window));
    if IsSynAck(r) then Act(w', Close(w, iss, window, junk)) else w'
  }

  /** All steps of an attempt are enabled. */
  lemma AttemptRuns(id: ConnId, actions: seq<Action>, iss: u32, window: u16, junk: Unassigned)
    requires var w := Exec(id, actions); !w.client.established && w.waiting.Idle? && FirstResponse(w, iss, window, junk).Response?
    ensures Exec(id, actions + Attempt(Exec(id, actions), iss, window, junk))
         == Attempted(Exec(id, actions), iss, window, junk)
  {
    var w := Exec(id, actions);
    var r, a := FirstResponse(w, iss, window, junk), Attempt(w, iss, window, junk);
    var a1 := actions + [Start(window)];
    var a2 := a1 + [Open(w, iss, window, junk)];
    var a3 := a2 + [Answer(r, window)];
    ExecAppend(id, actions, Start(window));
    ExecAppend(id, a1, Open(w, iss, window, junk));
    ExecAppend(id, a2, Answer(r, window));
    if IsSynAck(r) {
      ExecAppend(id, a3, Close(w, iss, window, junk));
      assert actions + a == a3 + [Close(w, iss, window, junk)];
    } else {
      assert actions + a == a3;
    }
  }

  /** The server accepts a SYN of the client exactly if it listens on that port and has no entry
      for the connection; otherwise the SYN is reset, and any entry is gone. */
  lemma SynStep(t: Table, syn: Segment, iss: u32)
    requires GoodTable(t) && syn.flags == SYN_ONLY && (syn.id in t ==> !t[syn.id].state.Closed?)
    ensures var o := Step(t, Input(syn, iss, true));
            if syn.id.dstPort == LISTEN_PORT && syn.id !in t
            then && o.reply == SynAck(iss, Wrap32(syn.seqNum + 1), WINDOW)
                 && syn.id in o.table && o.table[syn.id].state.SynReceived? && o.table[syn.id].send.next == Wrap32(iss + 1)
            else o.reply == Reset && syn.id !in o.table
  {
  }

  /** The last ACK establishes what the SYN opened, and opens nothing by itself. */
  lemma AckStep(t: Table, ack: Segment, iss: u32)
    requires GoodTable(t) && ack.flags == ACK_ONLY
    requires ack.id in t ==> t[ack.id].state.SynReceived? && t[ack.id].send.next == ack.ackNum
    ensures var t' := Step(t, Input(ack, iss, true)).table;
            if ack.id in t then ack.id in t' && t'[ack.id].state.Established? else ack.id !in t'
  {
  }

  /** The server's table after an attempt. */
  lemma AttemptAtServer(w: World, iss: u32, window: u16, junk: Unassigned)
    requires Inv(w) && !w.client.established
    ensures var w', id := Attempted(w, iss, window, junk), w.client.id;
            if id.dstPort == LISTEN_PORT && id !in w.server
            then id in w'.server && w'.server[id].state.Established?
            else id !in w'.server
  {
    var syn := ClientSegment(w.client, SYN_ONLY, window);
    var r := FirstResponse(w, iss, window, junk);
    SynStep(w.server, syn, iss);
    if IsSynAck(r) {
      StepKeepsGood(w.server, Input(syn, iss, true));
      AckStep(Step(w.server, Input(syn, iss, true)).table, ClientSegment(AfterHandshake(w.client, r), ACK_ONLY, window), iss);
    }
  }

  /** From any reachable state with an idle client, an undisturbed attempt establishes the
      connection at the server exactly if the server listens on that port and has no entry for the
      client. Otherwise it removes the entry, and the client takes itself for established exactly
      if the flags left unassigned in the reset happen to be those of a SYN-ACK. */
  lemma AttemptIff(id: ConnId, actions: seq<Action>, iss: u32, window: u16, junk: Unassigned)
    requires var w := Exec(id, actions); !w.client.established && w.waiting.Idle?
    ensures var w := Exec(id, actions);
            var w' := Exec(id, actions + Attempt(w, iss, window, junk));
            var free := id.dstPort == LISTEN_PORT && id !in w.server;
            && (id in w'.server && w'.server[id].state.Established? <==> free)
            && (w'.client.established <==> free || junk.flags == S.SYN + S.ACK)
            && (id in w'.server <==> free) && w'.waiting.Idle?
  {
    ExecKeepsInv(id, actions);
    var w := Exec(id, actions);
    SynStep(w.server, ClientSegment(w.client, SYN_ONLY, window), iss);
    AttemptAtServer(w, iss, window, junk);
    AttemptRuns(id, actions, iss, window, junk);
  }

  /** A stale entry costs one attempt: if the client notices the reset, its next one succeeds. */
  lemma SecondAttemptSucceeds(id: ConnId, actions: seq<Action>, iss: u32, again: u32, window: u16, junk: Unassigned)
    requires var w := Exec(id, actions); !w.client.established && w.waiting.Idle? && id in w.server
    requires junk.flags != S.SYN + S.ACK
    ensures var first := actions + Attempt(Exec(id, actions), iss, window, junk);
            var w := Exec(id, first + Attempt(Exec(id, first), again, window, junk));
            id in w.server && w.server[id].state.Established? && w.client.established
  {
    ExecKeepsInv(id, actions);
    AttemptIff(id, actions, iss, window, junk);
    AttemptIff(id, actions + Attempt(Exec(id, actions), iss, window, junk), again, window, junk);
  }

  lemma {:induction false} ExecAppend(id: ConnId, actions: seq<Action>, a: Action)
    ensures var w := Exec(id, actions);
            Exec(id, actions + [a]) == if Enabled(w, a) then Act(w, a) else w
  {
    assert (actions + [a])[..|actions|] == actions;
  }
}
