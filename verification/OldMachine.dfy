/** The connection machine of the older stack, which also transfers data, as a step function. */
module OldMachine {
  import opened Words
  import opened SeqSpace
  import opened TcbValues
  import S = Segments
  import ConnList
  import M = ConnMachine

  type Table = map<ConnId, Tcb>

  /** One packet: its header fields, the number of data bytes that its announced IP length leaves
      after both headers (negative if it does not even cover them), the ISS the generator would
      give, and the body that the request handler would return. */
  datatype Packet = Packet(seg: Segment, length: DataLength, iss: u32, body: seq<byte>)

  /** A 16-bit announced length less two headers of at most 60 bytes. */
  type DataLength = n: int | -120 <= n <= 0xFFFF

  /** What is sent: header fields and payload, or nothing (TCP_SILENT). */
  datatype Answer =
    | Silent
    | Sent(seqNum: u32, ackNum: u32, flags: byte, window: u16, payload: seq<byte>)

  datatype Outcome = Outcome(table: Table, answer: Answer)

  /** What a packet does to its own block. */
  datatype Effect = Keep(tcb: Tcb, answer: Answer) | Remove

  /** The state that `tcp_null_syn_ack` leaves: fresh numbers on both sides. */
  function Opened(b: Tcb, seg: Segment, iss: u32): Tcb {
    b.(recv := b.recv.(irs := seg.seqNum, next := Wrap32(seg.seqNum + 1)),
       send := SendState(iss, Wrap32(iss + 1), seg.window, iss))
  }

  function SynAckFor(b: Tcb): Answer {
    Sent(b.send.iss, b.recv.next, S.SYN + S.ACK, b.recv.window % 0x1_0000, [])
  }

  /** `tcp_send_ack`: an ACK, carrying the body if there is one. */
  function AckFor(b: Tcb, body: seq<byte>): Answer {
    Sent(b.send.next, b.recv.next, if body == [] then S.ACK else S.PSH + S.ACK, b.recv.window % 0x1_0000, body)
  }

  /** The block after `tcp_send_ack` with that body. */
  function Acked(b: Tcb, body: seq<byte>): Tcb {
    b.(send := b.send.(next := Wrap32(b.send.next + |body|)))
  }

  /** `tcp_null_rst`: the reset for a segment on an unknown connection. */
  function ResetFor(seg: Segment, length: DataLength): Answer {
    if seg.flags.ack then Sent(seg.ackNum, 0, S.RST, 0, [])
    else
      var counted := length + (if seg.flags.fin then 1 else 0) + if seg.flags.syn then 1 else 0;
      Sent(0, Wrap32(seg.seqNum + counted), S.RST + S.ACK, 0, [])
  }

  /** `tcp_dispatch` on a known connection. The SYN-ACK rebuilt for a repeated SYN is not sent,
      and the reset test compares the sequence number in network byte order. */
  function React(b: Tcb, p: Packet): Effect {
    var f := p.seg.flags;
    if f.rst then
      if InWindow(Swap32(p.seg.seqNum), b.recv.next, b.recv.window) then Remove else Keep(b, Silent)
    else match b.state
      case SynReceived =>
        if f.syn && !f.ack then Keep(Opened(b, p.seg, p.iss), Silent)
        else if f.ack && !f.syn && p.seg.ackNum == b.send.next then
          Keep(b.(state := Established, send := b.send.(unac := p.seg.ackNum)), Silent)
        else Keep(b, Silent)
      case Established =>
        if f.fin then
          var b' := b.(recv := b.recv.(next := Wrap32(p.seg.seqNum + 1)));
          Keep(b'.(state := CloseWait), AckFor(b', []))
        else if p.length <= 0 then Keep(b, Silent)
        else
          var b' := b.(recv := b.recv.(next := Wrap32(b.recv.next + p.length)));
          Keep(Acked(b', p.body), AckFor(b', p.body))
      case _ => Keep(b, Silent)
  }

  /** `tcp_dispatch`. */
  function Step(t: Table, p: Packet): Outcome {
    var id, f := p.seg.id, p.seg.flags;
    if id !in t then
      if f.rst then Outcome(t, Silent)
      else if f.syn && !f.ack then
        var b := Opened(ConnList.OldTcb(id), p.seg, p.iss);
        Outcome(t[id := b], SynAckFor(b))
      else Outcome(t, ResetFor(p.seg, p.length))
    else
      match React(t[id], p)
      case Keep(b, a) => Outcome(t[id := b], a)
      case Remove => Outcome(t - {id}, Silent)
  }

  /** The packet opens a connection: the one case in which the server needs a new block. */
  predicate Opens(t: Table, p: Packet) {
    p.seg.id !in t && p.seg.flags.syn && !p.seg.flags.ack && !p.seg.flags.rst
  }

  // ------------------------------------------------------------------ the table invariant

  /** The table after a packet sequence, from the empty list. */
  function Run(ps: seq<Packet>): Table {
    if ps == [] then map[] else Step(Run(ps[..|ps| - 1]), ps[|ps| - 1]).table
  }

  /** What the numbers of a stored block are in each state. */
  predicate GoodTcb(b: Tcb) {
    && b.recv.window == WINDOW
    && match b.state
       case SynReceived =>
         && b.send.unac == b.send.iss
         && b.send.next == Wrap32(b.send.iss + 1)
         && b.recv.next == Wrap32(b.recv.irs + 1)
       case Established => b.send.unac == Wrap32(b.send.iss + 1)
       case CloseWait => b.send.unac == Wrap32(b.send.iss + 1)
       case _ => false
  }

  ghost predicate GoodTable(t: Table) {
    forall id :: id in t ==> t[id].id == id && GoodTcb(t[id])
  }

  lemma ReactKeepsGood(b: Tcb, p: Packet)
    requires GoodTcb(b)
    ensures var e := React(b, p); e.Keep? ==> e.tcb.id == b.id && GoodTcb(e.tcb)
  {
  }

  /** Whatever packets came before, every entry of the older server is well formed too. */
  lemma {:induction false} RunIsGood(ps: seq<Packet>)
    ensures GoodTable(Run(ps))
  {
    if ps != [] {
      var t, p := Run(ps[..|ps| - 1]), ps[|ps| - 1];
      RunIsGood(ps[..|ps| - 1]);
      if p.seg.id in t {
        ReactKeepsGood(t[p.seg.id], p);
      }
    }
  }

  // ------------------------------------------------------------------ what each packet does

  /** The four bytes of `x` in the other order. */
  function Backwards(x: u32): int {
    x % 0x100 * 0x100_0000 + x / 0x100 % 0x100 * 0x1_0000 + x / 0x1_0000 % 0x100 * 0x100 + x / 0x100_0000
  }

  lemma SwapIsBackwards(x: u32)
    ensures Swap32(x) == Backwards(x)
  {
    var hi: int, lo: int := x / 0x1_0000, x % 0x1_0000;
    assert Swap16(hi) == hi % 0x100 * 0x100 + hi / 0x100;
    assert Swap16(lo) == lo % 0x100 * 0x100 + lo / 0x100;
    Digits(x);
  }

  lemma Digits(x: int)
    requires 0 <= x < 0x1_0000_0000
    ensures x % 0x1_0000 % 0x100 == x % 0x100 && x % 0x1_0000 / 0x100 == x / 0x100 % 0x100
    ensures x / 0x1_0000 / 0x100 == x / 0x100_0000
  {
  }

  /** The block that a SYN leaves. */
  function Waiting(s: Segment, iss: u32): Tcb {
    Tcb(s.id, SendState(iss, (iss + 1) % 0x1_0000_0000, s.window, iss),
        RecvState((s.seqNum + 1) % 0x1_0000_0000, 8192, s.seqNum), SynReceived)
  }

  /** The sequence number of a reset, its bytes read in the wrong order, lies in the window. */
  predicate Hits(s: Segment, next: u32) {
    (Backwards(s.seqNum) - next) % 0x1_0000_0000 < 8192
  }

  lemma HitsIff(s: Segment, next: u32)
    ensures Hits(s, next) <==> InWindow(Swap32(s.seqNum), next, WINDOW)
  {
    SwapIsBackwards(s.seqNum);
    WindowExact(Swap32(s.seqNum), next, WINDOW);
  }

  /** On an unknown connection a SYN without ACK and RST stores an entry and is answered with a SYN-ACK;
      a reset does nothing; anything else leaves the list and gets a reset with the number that it
      acknowledges, or acknowledging as many numbers as it occupies. */
  lemma OnUnknown(ps: seq<Packet>, p: Packet)
    requires p.seg.id !in Run(ps)
    ensures var t, s, o := Run(ps), p.seg, Step(Run(ps), p);
            var occupied := p.length + (if s.flags.syn then 1 else 0) + if s.flags.fin then 1 else 0;
            if s.flags.rst then o == Outcome(t, Silent)
            else if s.flags.syn && !s.flags.ack then
              o == Outcome(t[s.id := Waiting(s, p.iss)], Sent(p.iss, (s.seqNum + 1) % 0x1_0000_0000, 0x12, 8192, []))
            else if s.flags.ack then o == Outcome(t, Sent(s.ackNum, 0, 0x04, 0, []))
            else o == Outcome(t, Sent(0, (s.seqNum + occupied) % 0x1_0000_0000, 0x14, 0, []))
  {
    if p.seg.flags.syn && !p.seg.flags.ack {
      OpenedIsWaiting(p);
    } else {
      ResetIsSent(p);
    }
  }

  lemma OpenedIsWaiting(p: Packet)
    ensures var b := Opened(ConnList.OldTcb(p.seg.id), p.seg, p.iss);
            b == Waiting(p.seg, p.iss) && SynAckFor(b) == Sent(p.iss, (p.seg.seqNum + 1) % 0x1_0000_0000, 0x12, 8192, [])
  {
  }

  lemma ResetIsSent(p: Packet)
    ensures var s := p.seg;
            var occupied := p.length + (if s.flags.syn then 1 else 0) + if s.flags.fin then 1 else 0;
            ResetFor(s, p.length) == if s.flags.ack then Sent(s.ackNum, 0, 0x04, 0, [])
                                     else Sent(0, (s.seqNum + occupied) % 0x1_0000_0000, 0x14, 0, [])
  {
  }

  /** Any reset on a known connection is silent and deletes the entry exactly if it hits. */
  lemma OnReset(ps: seq<Packet>, p: Packet)
    requires p.seg.id in Run(ps) && p.seg.flags.rst
    ensures var t, s := Run(ps), p.seg;
            Step(t, p) == Outcome(if Hits(s, t[s.id].recv.next) then t - {s.id} else t, Silent)
  {
    RunIsGood(ps);
    var t, s := Run(ps), p.seg;
    HitsIff(s, t[s.id].recv.next);
    assert t[s.id := t[s.id]] == t;
  }

  /** A SYN_RECEIVED entry starts over with a SYN without ACK, becomes ESTABLISHED by an ACK without
      SYN for the number it waits for, and keeps as it is otherwise; it never answers. */
  lemma OnSynReceived(ps: seq<Packet>, p: Packet)
    requires p.seg.id in Run(ps) && Run(ps)[p.seg.id].state.SynReceived? && !p.seg.flags.rst
    ensures var t, s := Run(ps), p.seg;
            var b := t[s.id];
            Step(t, p) == Outcome(
              if s.flags.syn && !s.flags.ack then t[s.id := Waiting(s, p.iss)]
              else if s.flags.ack && !s.flags.syn && s.ackNum == b.send.next
              then t[s.id := Tcb(s.id, b.send.(unac := s.ackNum), b.recv, Established)]
              else t, Silent)
  {
    RunIsGood(ps);
    assert Run(ps)[p.seg.id := Run(ps)[p.seg.id]] == Run(ps);
  }

  /** An ESTABLISHED entry answers a FIN with an ACK for the number after the segment's and waits for
      the end; data with an ACK for what it now expects and the handler's body, pushed if there is one;
      and nothing else. CLOSE_WAIT ignores everything. */
  lemma OnEstablished(ps: seq<Packet>, p: Packet)
    requires p.seg.id in Run(ps) && Run(ps)[p.seg.id].state != SynReceived && !p.seg.flags.rst
    ensures var t, s := Run(ps), p.seg;
            var b := t[s.id];
            var fin, more := (s.seqNum + 1) % 0x1_0000_0000, (b.recv.next + p.length) % 0x1_0000_0000;
            if b.state.Established? && s.flags.fin then
              Step(t, p) == Outcome(t[s.id := Tcb(s.id, b.send, b.recv.(next := fin), CloseWait)],
                                    Sent(b.send.next, fin, 0x10, 8192, []))
            else if b.state.Established? && p.length > 0 then
              Step(t, p) == Outcome(
                t[s.id := Tcb(s.id, b.send.(next := (b.send.next + |p.body|) % 0x1_0000_0000), b.recv.(next := more), Established)],
                Sent(b.send.next, more, if p.body == [] then 0x10 else 0x18, 8192, p.body))
            else Step(t, p) == Outcome(t, Silent)
  {
    RunIsGood(ps);
    assert Run(ps)[p.seg.id := Run(ps)[p.seg.id]] == Run(ps);
  }

  /** A run begins with no entry, and each packet makes one step. */
  lemma {:induction false} RunSteps(ps: seq<Packet>, p: Packet)
    ensures Run([]) == map[] && Run(ps + [p]) == Step(Run(ps), p).table
  {
    assert (ps + [p])[..|ps|] == ps;
  }

  // ------------------------------------------------------------------ resets

  /** A segment on an unknown connection is answered with a reset exactly unless it is a reset
      itself or opens a connection. */
  lemma UnknownGetsReset(t: Table, p: Packet)
    requires p.seg.id !in t
    ensures var a := Step(t, p).answer;
            (a.Sent? && S.FlagsOf(a.flags).rst) <==> !(p.seg.flags.rst || (p.seg.flags.syn && !p.seg.flags.ack))
    ensures var a := Step(t, p).answer;
            a.Sent? && S.FlagsOf(a.flags).rst ==>
              && Step(t, p).table == t && a.payload == []
              && S.FlagsOf(a.flags) == Flags(false, false, true, false, !p.seg.flags.ack)
              && (p.seg.flags.ack ==> a.seqNum == p.seg.ackNum)
              && (!p.seg.flags.ack ==> a.seqNum == 0 && a.ackNum == Wrap32(p.seg.seqNum + S.SegLen(p.seg, p.length)))
  {
  }

  /** The numbers that section 3.10.7.1 of RFC 9293 asks for, the segment having `octets` of data. */
  predicate RfcReset(a: Answer, seg: Segment, octets: nat) {
    a.Sent? && if seg.flags.ack then a.seqNum == seg.ackNum
               else a.seqNum == 0 && a.ackNum == Wrap32(seg.seqNum + S.SegLen(seg, octets))
  }

  /** The reset has that form exactly when the segment carries ACK, whose number it takes over, or
      the announced length covers the headers. */
  lemma ResetFormIff(t: Table, p: Packet)
    requires p.seg.id !in t && Step(t, p).answer.Sent? && S.FlagsOf(Step(t, p).answer.flags).rst
    ensures RfcReset(Step(t, p).answer, p.seg, if p.length < 0 then 0 else p.length) <==> p.seg.flags.ack || p.length >= 0
  {
    var x := p.seg.seqNum + S.SegLen(p.seg, 0);
    if p.length < 0 {
      WrapApart(x + p.length, x);
    }
  }

  /** Two numbers less than 2^32 apart are the same modulo 2^32 only if they are equal. */
  lemma WrapApart(x: int, y: int)
    requires x < y < x + 0x1_0000_0000
    ensures Wrap32(x) != Wrap32(y)
  {
  }

  /** No reset is ever answered, by any table; so what one instance sends as a reset ends the
      exchange at any other. */
  lemma ResetsEndTheExchange(t: Table, p: Packet, t': Table, q: Packet)
    requires Step(t, p).answer.Sent? && q.seg.flags == S.FlagsOf(Step(t, p).answer.flags)
    ensures q.seg.flags.rst ==> Step(t', q).answer == Silent
    ensures q.seg.flags.rst <==> p.seg.id !in t && !(p.seg.flags.syn && !p.seg.flags.ack)
  {
  }

  /** The reset that answers an ACK carrying a refactored peer's current recv.next makes that
      peer delete its entry. */
  lemma ResetReachesRefactoredPeer(t: Table, p: Packet, ins: seq<M.Input>, i: M.Input)
    requires p.seg.id !in t && p.seg.flags.ack && !p.seg.flags.rst
    requires i.seg.id in M.Run(ins) && p.seg.ackNum == M.Run(ins)[i.seg.id].recv.next
    requires var a := Step(t, p).answer;
             a.Sent? && i.seg.seqNum == a.seqNum && i.seg.flags == S.FlagsOf(a.flags)
    ensures i.seg.id !in M.Run(ins + [i])
  {
    M.RunIsGood(ins);
    M.ResetDeletesExactlyInWindow(ins, i);
  }
}
