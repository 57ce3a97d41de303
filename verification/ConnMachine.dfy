/** The connection machine of the refactored stack as a step function on a finite map
    from connection identifier to control block, and what every packet sequence keeps. */
module ConnMachine {
  import opened Words
  import opened SeqSpace
  import opened TcbValues

  type Table = map<ConnId, Tcb>

  datatype Edge = EvtSyn | EvtData | EvtAck | EvtFin | EvtRst | EvtDrop | EvtSendRst

  datatype Reply =
    | NoReply
    | SynAck(seqNum: u32, ackNum: u32, window: u32)
    | Reset

  /** One packet: the segment, the value the ISS generator would give, and whether the
      allocations that storing a new block needs succeed. */
  datatype Input = Input(seg: Segment, iss: u32, memory: bool)

  datatype Outcome = Outcome(table: Table, reply: Reply)

  /** `tcp_parse_edge` once a block is at hand. */
  function Classify(con: Tcb, f: Flags): Edge {
    if con.id.dstPort != LISTEN_PORT then EvtSendRst
    else if f.rst then EvtRst
    else match con.state
      case Closed => if f.syn && !f.ack then EvtSyn else EvtSendRst
      case SynReceived => if f.ack && !f.syn then EvtAck else EvtSendRst
      case Established => if f.syn then EvtSendRst else EvtData
      case _ => EvtDrop
  }

  /** `tcb_state_update` on EVT_SYN. */
  function OnSyn(con: Tcb, seg: Segment, iss: u32): Tcb {
    var recv := con.recv.(irs := seg.seqNum, next := Wrap32(seg.seqNum + 1));
    var send := con.send.(window := seg.window);
    var send' := if con.state.Closed? then send.(iss := iss, next := Wrap32(iss + 1), unac := iss) else send;
    con.(recv := recv, send := send', state := SynReceived)
  }

  /** `tcb_state_update` on EVT_ACK: only the exact next sequence number completes the handshake. */
  function OnAck(con: Tcb, seg: Segment): Tcb {
    if seg.ackNum == con.send.next
    then con.(state := Established, send := con.send.(unac := seg.ackNum))
    else con
  }

  /** What a segment does to its own block. */
  datatype Effect = Keep(tcb: Tcb, reply: Reply) | Remove(reply: Reply)

  /** Classify, update, and reply or delete. */
  function React(con: Tcb, seg: Segment, iss: u32): Effect {
    match Classify(con, seg.flags)
    case EvtSyn =>
      var con' := OnSyn(con, seg, iss);
      Keep(con', SynAck(con'.send.iss, con'.recv.next, con'.recv.window))
    case EvtAck => Keep(OnAck(con, seg), NoReply)
    case EvtRst =>
      if InWindow(seg.seqNum, con.recv.next, con.recv.window) then Remove(NoReply) else Keep(con, NoReply)
    case EvtSendRst => Remove(Reset)
    case _ => Keep(con, NoReply)
  }

  /** `tcp_dispatch` for a segment whose checksum is right: find or create the block, and
      let the segment act on it. */
  function Step(t: Table, i: Input): Outcome {
    var id := i.seg.id;
    if id !in t && !i.memory then Outcome(t, NoReply)
    else
      match React(if id in t then t[id] else NewTcb(id), i.seg, i.iss)
      case Keep(b, r) => Outcome(t[id := b], r)
      case Remove(r) => Outcome(t - {id}, r)
  }

  /** The table after a packet sequence, from the empty table. */
  function Run(ins: seq<Input>): Table {
    if ins == [] then map[] else Step(Run(ins[..|ins| - 1]), ins[|ins| - 1]).table
  }

  /** The reply to the packet at `k`. */
  function ReplyAt(ins: seq<Input>, k: nat): Reply
    requires k < |ins|
  {
    Step(Run(ins[..k]), ins[k]).reply
  }

  // ------------------------------------------------------------------ the table invariant

  /** What the sequence numbers of a stored block are in each state. */
  predicate GoodTcb(b: Tcb) {
    && b.id.dstPort == LISTEN_PORT
    && b.recv.window == WINDOW
    && match b.state
       case Closed => b == NewTcb(b.id)
       case SynReceived =>
         && b.send.unac == b.send.iss
         && b.send.next == Wrap32(b.send.iss + 1)
         && b.recv.next == Wrap32(b.recv.irs + 1)
       case Established =>
         && b.send.unac == b.send.next == Wrap32(b.send.iss + 1)
         && b.recv.next == Wrap32(b.recv.irs + 1)
       case _ => false
  }

  ghost predicate GoodTable(t: Table) {
    forall id :: id in t ==> t[id].id == id && GoodTcb(t[id])
  }

  lemma StepKeepsGood(t: Table, i: Input)
    requires GoodTable(t)
    ensures GoodTable(Step(t, i).table)
  {
    var t' := Step(t, i).table;
    forall id | id in t' && id != i.seg.id
      ensures t'[id].id == id && GoodTcb(t'[id])
    {
      assert id in t && t'[id] == t[id];
    }
  }

  /** Between dispatches, whatever packets came before, every entry is well formed. */
  lemma {:induction false} RunIsGood(ins: seq<Input>)
    ensures GoodTable(Run(ins))
  {
    if ins != [] {
      RunIsGood(ins[..|ins| - 1]);
      StepKeepsGood(Run(ins[..|ins| - 1]), ins[|ins| - 1]);
    }
  }

  /** A packet touches no connection but its own. */
  lemma StepIsLocal(t: Table, i: Input)
    ensures t - {i.seg.id} == Step(t, i).table - {i.seg.id}
  {
  }

  // ------------------------------------------------------------------ resets

  /** What is stored after a reset for the listening port: an entry goes if the sequence number is
      fewer than WINDOW numbers ahead of what it expects, and otherwise stays as it is. For an
      unknown connection a CLOSED block is made, which expects zero, and it goes or stays likewise. */
  function AfterReset(t: Table, i: Input): Table {
    var id, num := i.seg.id, i.seg.seqNum;
    if id in t then if Ahead(num, t[id].recv.next) < WINDOW then t - {id} else t
    else if i.memory && num >= WINDOW then t[id := NewTcb(id)]
    else t
  }

  /** After any packet sequence, a reset for the listening port does exactly that, and is not
      answered. */
  lemma {:induction false} ResetDeletesExactlyInWindow(ins: seq<Input>, i: Input)
    requires i.seg.flags.rst && i.seg.id.dstPort == LISTEN_PORT
    ensures Run(ins + [i]) == AfterReset(Run(ins), i)
    ensures ReplyAt(ins + [i], |ins|) == NoReply
  {
    RunIsGood(ins);
    RunAppend(ins, i);
    var t, id := Run(ins), i.seg.id;
    var con := if id in t then t[id] else NewTcb(id);
    WindowExact(i.seg.seqNum, con.recv.next, WINDOW);
    assert id !in t ==> t - {id} == t && t[id := NewTcb(id)] - {id} == t;
    assert id in t ==> t[id := t[id]] == t;
  }

  /** After any packet sequence, a reset is answered, with a reset, exactly if it is for another
      port and there is memory for the block that is made and deleted again; that leaves the table
      as it was. */
  lemma {:induction false} ResetAnsweredIff(ins: seq<Input>, i: Input)
    requires i.seg.flags.rst
    ensures ReplyAt(ins + [i], |ins|) == Reset <==> i.seg.id.dstPort != LISTEN_PORT && i.memory
    ensures ReplyAt(ins + [i], |ins|) == Reset || ReplyAt(ins + [i], |ins|) == NoReply
    ensures i.seg.id.dstPort != LISTEN_PORT ==> Run(ins + [i]) == Run(ins)
  {
    RunIsGood(ins);
    RunAppend(ins, i);
    var t, id := Run(ins), i.seg.id;
    assert id !in t ==> t - {id} == t;
  }

  lemma {:induction false} RunAppend(ins: seq<Input>, i: Input)
    ensures Run(ins + [i]) == Step(Run(ins), i).table
    ensures ReplyAt(ins + [i], |ins|) == Step(Run(ins), i).reply
  {
    assert (ins + [i])[..|ins|] == ins;
  }

  // ------------------------------------------------------------------ what each segment does

  /** The block that a SYN leaves, and that nothing else makes. */
  function Waiting(s: Segment, iss: u32): Tcb {
    Tcb(s.id, SendState(iss, (iss + 1) % 0x1_0000_0000, s.window, iss),
        RecvState((s.seqNum + 1) % 0x1_0000_0000, 8192, s.seqNum), SynReceived)
  }

  /** The reset lies fewer than 8192 numbers ahead of `next`. */
  predicate Hits(s: Segment, next: u32) {
    (s.seqNum - next) % 0x1_0000_0000 < 8192
  }

  /** After any packet sequence, an ESTABLISHED entry stays as it is and gives no answer, unless the
      segment has RST, which deletes it exactly if it hits the window, silently; or SYN without RST,
      which deletes it and is answered with a reset. */
  lemma {:induction false} OnEstablished(ins: seq<Input>, i: Input)
    requires i.seg.id in Run(ins) && Run(ins)[i.seg.id].state.Established?
    ensures var t, s, after, reply := Run(ins), i.seg, Run(ins + [i]), ReplyAt(ins + [i], |ins|);
            var hit := Hits(s, t[s.id].recv.next);
            && (!s.flags.rst && !s.flags.syn ==> after == t && reply == NoReply)
            && (s.flags.rst ==> after == (if hit then t - {s.id} else t) && reply == NoReply)
            && (!s.flags.rst && s.flags.syn ==> after == t - {s.id} && reply == Reset)
            && (s.id !in after <==> if s.flags.rst then hit else s.flags.syn)
  {
    RunIsGood(ins);
    RunAppend(ins, i);
    var t, id := Run(ins), i.seg.id;
    WindowExact(i.seg.seqNum, t[id].recv.next, WINDOW);
    assert t[id := t[id]] == t;
  }

  /** After any packet sequence, a SYN_RECEIVED entry becomes ESTABLISHED by an ACK, without SYN and
      RST, for the number it waits for; one for another number changes nothing. Without RST, SYN or a
      missing ACK deletes it and is answered with a reset. */
  lemma {:induction false} OnSynReceived(ins: seq<Input>, i: Input)
    requires i.seg.id in Run(ins) && Run(ins)[i.seg.id].state.SynReceived?
    ensures var t, s, after, reply := Run(ins), i.seg, Run(ins + [i]), ReplyAt(ins + [i], |ins|);
            var b := t[s.id];
            var acks, hit := s.flags.ack && !s.flags.syn && !s.flags.rst, Hits(s, b.recv.next);
            && (acks && s.ackNum == b.send.next ==>
                  after == t[s.id := Tcb(s.id, b.send.(unac := s.ackNum), b.recv, Established)] && reply == NoReply)
            && (acks && s.ackNum != b.send.next ==> after == t && reply == NoReply)
            && (s.flags.rst ==> after == (if hit then t - {s.id} else t) && reply == NoReply)
            && (!s.flags.rst && !acks ==> after == t - {s.id} && reply == Reset)
  {
    RunIsGood(ins);
    RunAppend(ins, i);
    var t, id := Run(ins), i.seg.id;
    WindowExact(i.seg.seqNum, t[id].recv.next, WINDOW);
    assert t[id := t[id]] == t;
  }

  /** After any packet sequence, what a segment does on a connection that is unknown, or CLOSED as a
      reset may have left it. A SYN without ACK and RST for port 8080 opens it and is answered with
      (iss, sequence number + 1, 8192). Any other segment without RST is answered with a reset and
      leaves no entry. To another port every segment is. Without memory nothing happens. */
  lemma {:induction false} OnUnopened(ins: seq<Input>, i: Input)
    requires i.seg.id in Run(ins) ==> Run(ins)[i.seg.id].state.Closed?
    ensures var t, s, after, reply := Run(ins), i.seg, Run(ins + [i]), ReplyAt(ins + [i], |ins|);
            var listening := s.id.dstPort == 8080;
            var opens := listening && s.flags.syn && !s.flags.ack && !s.flags.rst;
            if s.id !in t && !i.memory then after == t && reply == NoReply
            else
              && (opens ==> after == t[s.id := Waiting(s, i.iss)]
                            && reply == SynAck(i.iss, (s.seqNum + 1) % 0x1_0000_0000, 8192))
              && (listening && s.flags.rst ==>
                    after == (if s.seqNum < 8192 then t - {s.id} else t[s.id := NewTcb(s.id)]) && reply == NoReply)
              && (!opens && !(listening && s.flags.rst) ==> after == t - {s.id} && reply == Reset)
  {
    RunIsGood(ins);
    RunAppend(ins, i);
    WindowExact(i.seg.seqNum, 0, WINDOW);
    assert i.seg.id in Run(ins) ==> Run(ins)[i.seg.id] == NewTcb(i.seg.id);
  }

  /** A run begins with no entry, and a block with all numbers zero, window 8192, CLOSED. */
  lemma Beginnings(id: ConnId)
    ensures Run([]) == map[]
    ensures NewTcb(id) == Tcb(id, SendState(0, 0, 0, 0), RecvState(0, 8192, 0), Closed)
  {
  }

  // ------------------------------------------------------------------ honest history

  /** The packet at `k` opened connection `id`: a SYN without ACK or RST, numbered `irs`,
      answered with (iss, irs + 1). */
  predicate OpenedAt(ins: seq<Input>, k: nat, id: ConnId, iss: u32, irs: u32)
    requires k < |ins|
  {
    var s := ins[k].seg;
    && s.id == id && s.flags.syn && !s.flags.ack && !s.flags.rst && s.seqNum == irs
    && ReplyAt(ins, k).SynAck? && ReplyAt(ins, k).seqNum == iss
    && ReplyAt(ins, k).ackNum == Wrap32(irs + 1)
  }

  /** The packet at `k` acknowledged `iss + 1` for `id`, with neither SYN nor RST. */
  predicate AckedAt(ins: seq<Input>, k: nat, id: ConnId, iss: u32)
    requires k < |ins|
  {
    var s := ins[k].seg;
    s.id == id && s.flags.ack && !s.flags.syn && !s.flags.rst && s.ackNum == Wrap32(iss + 1)
  }

  /** From after the packet at `from` up to `to` packets, `id` is present in state `st` with these numbers. */
  ghost predicate Holds(ins: seq<Input>, from: nat, to: nat, id: ConnId, st: ConState, iss: u32, irs: u32)
    requires to <= |ins|
  {
    forall k {:trigger ins[..k]} :: from < k <= to ==>
      var t := Run(ins[..k]);
      id in t && t[id].state == st && t[id].send.iss == iss && t[id].recv.irs == irs
  }

  /** `id` has been waiting for its final ACK ever since the SYN at `i`. */
  ghost predicate OpenSince(ins: seq<Input>, i: nat, id: ConnId)
    requires i < |ins| && id in Run(ins)
  {
    var b := Run(ins)[id];
    OpenedAt(ins, i, id, b.send.iss, b.recv.irs) && Holds(ins, i, |ins|, id, SynReceived, b.send.iss, b.recv.irs)
  }

  /** `id` was opened at `i`, acknowledged at `j`, and never deleted since. */
  ghost predicate HonestSince(ins: seq<Input>, i: nat, j: nat, id: ConnId)
    requires i < j < |ins| && id in Run(ins)
  {
    var b := Run(ins)[id];
    && OpenedAt(ins, i, id, b.send.iss, b.recv.irs)
    && Holds(ins, i, j, id, SynReceived, b.send.iss, b.recv.irs)
    && AckedAt(ins, j, id, b.send.iss)
    && Holds(ins, j, |ins|, id, Established, b.send.iss, b.recv.irs)
  }

  /** Facts about a prefix carry over to the longer run. */
  lemma Extend(ins: seq<Input>, n: nat, from: nat, to: nat, id: ConnId, st: ConState, iss: u32, irs: u32)
    requires to <= n <= |ins|
    requires Holds(ins[..n], from, to, id, st, iss, irs)
    ensures Holds(ins, from, to, id, st, iss, irs)
  {
    forall k {:trigger ins[..k]} | from < k <= to
      ensures var t := Run(ins[..k]);
              id in t && t[id].state == st && t[id].send.iss == iss && t[id].recv.irs == irs
    {
      assert ins[..n][..k] == ins[..k];
    }
  }

  /** A step that leaves `id` in SYN_RECEIVED either did not touch it or was its opening SYN. */
  lemma IntoSynReceived(t: Table, i: Input, id: ConnId)
    requires GoodTable(t) && id in Step(t, i).table && Step(t, i).table[id].state.SynReceived?
    ensures var b, r, s := Step(t, i).table[id], Step(t, i).reply, i.seg;
            || (id in t && t[id] == b)
            || (&& s.id == id && s.flags.syn && !s.flags.ack && !s.flags.rst && s.seqNum == b.recv.irs
                && r.SynAck? && r.seqNum == b.send.iss && r.ackNum == Wrap32(b.recv.irs + 1))
  {
  }

  /** A step that leaves `id` in ESTABLISHED either did not touch it or was the ACK that
      completed its handshake. */
  lemma IntoEstablished(t: Table, i: Input, id: ConnId)
    requires GoodTable(t) && id in Step(t, i).table && Step(t, i).table[id].state.Established?
    ensures id in t
    ensures var b, s := Step(t, i).table[id], i.seg;
            || t[id] == b
            || (&& t[id].state.SynReceived? && t[id].send.iss == b.send.iss && t[id].recv.irs == b.recv.irs
                && s.id == id && s.flags.ack && !s.flags.syn && !s.flags.rst && s.ackNum == Wrap32(b.send.iss + 1))
  {
  }

  lemma {:induction false} SynReceivedWasOpened(ins: seq<Input>, id: ConnId) returns (i: nat)
    requires id in Run(ins) && Run(ins)[id].state.SynReceived?
    ensures i < |ins| && OpenSince(ins, i, id)
  {
    var n := |ins| - 1;
    var before, b := ins[..n], Run(ins)[id];
    RunIsGood(before);
    IntoSynReceived(Run(before), ins[n], id);
    assert ins[..|ins|] == ins;
    if id in Run(before) && Run(before)[id] == b {
      i := SynReceivedWasOpened(before, id);
      assert before[..i] == ins[..i];
      Extend(ins, n, i, n, id, SynReceived, b.send.iss, b.recv.irs);
    } else {
      i := n;
    }
  }

  /** Every ESTABLISHED entry, after any packet sequence, was opened by a SYN that was
      answered with its numbers, then acknowledged, and never deleted since. */
  lemma {:induction false} EstablishedIsHonest(ins: seq<Input>, id: ConnId) returns (i: nat, j: nat)
    requires id in Run(ins) && Run(ins)[id].state.Established?
    ensures i < j < |ins| && HonestSince(ins, i, j, id)
  {
    var n := |ins| - 1;
    var before, b := ins[..n], Run(ins)[id];
    RunIsGood(before);
    IntoEstablished(Run(before), ins[n], id);
    assert ins[..|ins|] == ins;
    if Run(before)[id] == b {
      i, j := EstablishedIsHonest(before, id);
      Extend(ins, n, j, n, id, Established, b.send.iss, b.recv.irs);
    } else {
      i := SynReceivedWasOpened(before, id);
      j := n;
    }
    assert before[..i] == ins[..i];
    Extend(ins, n, i, j, id, SynReceived, b.send.iss, b.recv.irs);
  }
}
