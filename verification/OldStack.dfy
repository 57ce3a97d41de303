/** `tcp_dispatch` of the older stack on its connection list and packet buffer. */
module OldStack {
  import opened Words
  import opened SeqSpace
  import opened Ipv4
  import V = TcbValues
  import opened Segments
  import O = OldMachine
  import opened OldSegments
  import opened ConnList

  /** A packet in the buffer: where its headers end, and the length its IP header announces. */
  datatype Layout = Layout(offset: nat, end: nat, total: nat)

  /** The dispatcher takes for granted that the headers fit. */
  ghost predicate WellLaid(p: seq<byte>, at: Layout) {
    && |p| == MTU_SIZE && at.offset <= at.end <= MTU_SIZE && at.total < 0x1_0000
    && Headers(p[..at.offset], p[at.offset..at.end]) && U16(p, 2) == at.total
  }

  /** The packet as the machine sees it. */
  ghost function PacketOf(p: seq<byte>, at: Layout, iss: u32, body: seq<byte>): O.Packet
    requires WellLaid(p, at)
  {
    O.Packet(Parse(p[..at.offset], p[at.offset..at.end]), at.total - at.end, iss, body)
  }

  /** Byte `k` of the packet that answer `a` to packet `p` makes. */
  ghost function ReplyByte(p: seq<byte>, at: Layout, a: O.Answer, k: nat): byte
    requires WellLaid(p, at) && a.Sent? && k < at.end + |a.payload| <= MTU_SIZE
  {
    ReplyPacket(p[..at.offset], p[at.offset..at.end], a)[k]
  }

  /** What is in the buffer after a return that is not TCP_SILENT, byte by byte. */
  ghost predicate Answers(p: seq<byte>, at: Layout, a: O.Answer, silent: bool, p': seq<byte>)
    requires WellLaid(p, at)
  {
    && silent == a.Silent?
    && (a.Sent? ==>
          && at.end + |a.payload| <= MTU_SIZE == |p'|
          && forall k {:trigger ReplyByte(p, at, a, k)} ::
               0 <= k < at.end + |a.payload| ==> p'[k] == ReplyByte(p, at, a, k))
  }

  /** So the announced bytes are exactly the reply packet. */
  lemma AnswersIsPacket(p: seq<byte>, at: Layout, a: O.Answer, p': seq<byte>)
    requires WellLaid(p, at) && Answers(p, at, a, false, p')
    ensures p'[..at.end + |a.payload|] == ReplyPacket(p[..at.offset], p[at.offset..at.end], a)
  {
    assert forall k :: 0 <= k < at.end + |a.payload| ==> p'[k] == ReplyByte(p, at, a, k);
  }

  /** `tcp_null_syn_ack`. */
  method NullSynAck(buf: array<byte>, at: Layout, tcb: Tcb, seg: V.Segment, iss: u32)
    requires WellLaid(buf[..], at)
    modifies buf, tcb`send, tcb`recv
    ensures tcb.Value() == O.Opened(old(tcb.Value()), seg, iss)
    ensures Answers(old(buf[..]), at, O.SynAckFor(tcb.Value()), false, buf[..])
  {
    SetOpened(tcb, seg, iss);
    Reply(buf, at, O.Sent(tcb.send.iss, tcb.recv.next, SYN + ACK, tcb.recv.window % 0x1_0000, []));
  }

  /** The numbers that `tcp_null_syn_ack` puts into the block. */
  method SetOpened(tcb: Tcb, seg: V.Segment, iss: u32)
    modifies tcb`send, tcb`recv
    ensures tcb.Value() == O.Opened(old(tcb.Value()), seg, iss)
  {
    tcb.recv := tcb.recv.(irs := seg.seqNum, next := Wrap32(seg.seqNum + 1));
    tcb.send := V.SendState(iss, Wrap32(iss + 1), seg.window, iss);
  }

  /** The numbers and flags that `tcp_null_rst` chooses. */
  method ResetFields(seg: V.Segment, length: O.DataLength) returns (a: O.Answer)
    ensures a == O.ResetFor(seg, length)
  {
    var seqNum: u32, ackNum: u32, flags: byte := 0, 0, RST;
    if seg.flags.ack {
      seqNum := seg.ackNum;
    } else {
      var counted := length + (if seg.flags.fin then 1 else 0) + if seg.flags.syn then 1 else 0;
      ackNum := Wrap32(seg.seqNum + counted);
      flags := RST + ACK;
    }
    a := O.Sent(seqNum, ackNum, flags, 0, []);
  }

  /** `tcp_null_rst`. */
  method NullRst(buf: array<byte>, at: Layout, seg: V.Segment, length: O.DataLength)
    requires WellLaid(buf[..], at) && length == at.total - at.end
    modifies buf
    ensures Answers(old(buf[..]), at, O.ResetFor(seg, length), false, buf[..])
  {
    var a := ResetFields(seg, length);
    Reply(buf, at, a);
  }

  /** `tcp_send_ack`. */
  method SendAck(buf: array<byte>, at: Layout, tcb: Tcb, body: seq<byte>)
    requires WellLaid(buf[..], at) && at.end + |body| <= MTU_SIZE
    modifies buf, tcb`send
    ensures tcb.Value() == O.Acked(old(tcb.Value()), body)
    ensures Answers(old(buf[..]), at, O.AckFor(old(tcb.Value()), body), false, buf[..])
  {
    var flags := if body == [] then ACK else PSH + ACK;
    var a := O.Sent(tcb.send.next, tcb.recv.next, flags, tcb.recv.window % 0x1_0000, body);
    if body != [] {
      tcb.send := tcb.send.(next := Wrap32(tcb.send.next + |body|));
    }
    Reply(buf, at, a);
  }

  /** The common part, seen on the whole buffer. */
  method Reply(buf: array<byte>, at: Layout, a: O.Answer)
    requires WellLaid(buf[..], at) && a.Sent? && at.end + |a.payload| <= MTU_SIZE
    modifies buf
    ensures Answers(old(buf[..]), at, a, false, buf[..])
  {
    assert buf[..at.offset] == buf[..][..at.offset] && buf[at.offset..at.end] == buf[..][at.offset..at.end];
    ghost var p := buf[..];
    var n := BuildReply(buf, at.offset, at.end, a);
    forall k | 0 <= k < at.end + |a.payload|
      ensures buf[..][k] == ReplyByte(p, at, a, k)
    {
      assert buf[k] == buf[..n][k];
    }
  }

  /** `tcp_handle_data`; `body` is what the request handler returns for the data. */
  method HandleData(buf: array<byte>, at: Layout, tcb: Tcb, body: seq<byte>) returns (silent: bool)
    requires WellLaid(buf[..], at) && at.end + |body| <= MTU_SIZE
    modifies buf, tcb`send, tcb`recv
    ensures if at.total <= at.end
            then silent && tcb.Value() == old(tcb.Value())
            else var b := old(tcb.Value()).(recv := old(tcb.recv).(next := Wrap32(old(tcb.recv.next) + (at.total - at.end))));
                 && tcb.Value() == O.Acked(b, body)
                 && Answers(old(buf[..]), at, O.AckFor(b, body), silent, buf[..])
  {
    if at.total - at.end <= 0 {
      return true;
    }
    tcb.recv := tcb.recv.(next := Wrap32(tcb.recv.next + (at.total - at.end)));
    SendAck(buf, at, tcb, body);
    return false;
  }

  /** `tcp_dispatch` on a known connection, resets apart. */
  method DispatchKnown(buf: array<byte>, at: Layout, tcb: Tcb, p: O.Packet) returns (silent: bool)
    requires WellLaid(buf[..], at) && at.end + |p.body| <= MTU_SIZE
    requires p.length == at.total - at.end && !p.seg.flags.rst
    modifies buf, tcb`send, tcb`recv, tcb`state
    ensures var e := O.React(old(tcb.Value()), p);
            e.Keep? && tcb.Value() == e.tcb && Answers(old(buf[..]), at, e.answer, silent, buf[..])
  {
    silent := true;
    match tcb.state {
      case SynReceived =>
        if p.seg.flags.syn && !p.seg.flags.ack {
          NullSynAck(buf, at, tcb, p.seg, p.iss);
        } else if p.seg.flags.ack && !p.seg.flags.syn {
          if p.seg.ackNum == tcb.send.next {
            tcb.state := V.Established;
            tcb.send := tcb.send.(unac := p.seg.ackNum);
          }
        }
      case Established =>
        silent := DispatchEstablished(buf, at, tcb, p);
      case _ =>
    }
  }

  method DispatchEstablished(buf: array<byte>, at: Layout, tcb: Tcb, p: O.Packet) returns (silent: bool)
    requires WellLaid(buf[..], at) && at.end + |p.body| <= MTU_SIZE
    requires p.length == at.total - at.end && !p.seg.flags.rst && tcb.state.Established?
    modifies buf, tcb`send, tcb`recv, tcb`state
    ensures var e := O.React(old(tcb.Value()), p);
            e.Keep? && tcb.Value() == e.tcb && Answers(old(buf[..]), at, e.answer, silent, buf[..])
  {
    if p.seg.flags.fin {
      tcb.recv := tcb.recv.(next := Wrap32(p.seg.seqNum + 1));
      SendAck(buf, at, tcb, []);
      tcb.state := V.CloseWait;
      silent := false;
    } else {
      silent := HandleData(buf, at, tcb, p.body);
    }
  }

  // ------------------------------------------------------------------ on the list

  /** `tcp_dispatch` when the connection is unknown. The new block is used before anyone looks
      whether there was memory for it: then `fault` is set, and nothing is said of what follows. */
  method DispatchUnknown(list: List, buf: array<byte>, at: Layout, p: O.Packet, memory: bool) returns (silent: bool, fault: bool)
    requires list.Valid() && p.seg.id !in list.entries
    requires WellLaid(buf[..], at) && p.length == at.total - at.end
    modifies buf, list, list.spine
    ensures fault <==> !memory && O.Opens(old(list.Model()), p)
    ensures !fault ==> list.Valid() && forall i :: 0 <= i < |list.spine| ==> fresh(list.spine[i]) || list.spine[i] in old(list.spine)
    ensures !fault ==> list.Model() == O.Step(old(list.Model()), p).table
    ensures !fault ==> Answers(old(buf[..]), at, O.Step(old(list.Model()), p).answer, silent, buf[..])
  {
    silent, fault := false, false;
    if p.seg.flags.rst {
      silent := true;
    } else if p.seg.flags.syn && !p.seg.flags.ack {
      fault := !memory;
      if !fault {
        OpenAndAnswer(list, buf, at, p.seg, p.iss);
      }
    } else {
      NullRst(buf, at, p.seg, p.length);
    }
  }

  /** A new connection: block, list entry, SYN-ACK. */
  method OpenAndAnswer(list: List, buf: array<byte>, at: Layout, seg: V.Segment, iss: u32)
    requires list.Valid() && seg.id !in list.entries && WellLaid(buf[..], at)
    modifies buf, list, list.spine
    ensures list.Valid() && forall i :: 0 <= i < |list.spine| ==> fresh(list.spine[i]) || list.spine[i] in old(list.spine)
    ensures var b := O.Opened(OldTcb(seg.id), seg, iss);
            list.Model() == old(list.Model())[seg.id := b] && Answers(old(buf[..]), at, O.SynAckFor(b), false, buf[..])
  {
    var tcb := OpenBlock(list, seg, iss);
    Reply(buf, at, O.Sent(tcb.send.iss, tcb.recv.next, SYN + ACK, tcb.recv.window % 0x1_0000, []));
  }

  /** The new block with its numbers. */
  method OpenBlock(list: List, seg: V.Segment, iss: u32) returns (tcb: Tcb)
    requires list.Valid() && seg.id !in list.entries
    modifies list, list.spine
    ensures list.Valid() && fresh(tcb) && list.spine == old(list.spine) + [tcb]
    ensures tcb.Value() == O.Opened(OldTcb(seg.id), seg, iss)
    ensures list.Model() == old(list.Model())[seg.id := tcb.Value()]
  {
    ghost var before := list.Model();
    tcb := Open(list, seg.id);
    SetOpened(tcb, seg, iss);
    OneMore(list, before, tcb);
  }

  /** A new block, appended to the list; the others keep their values. */
  method Open(list: List, id: V.ConnId) returns (tcb: Tcb)
    requires list.Valid() && id !in list.entries
    modifies list, list.spine
    ensures list.Valid() && fresh(tcb) && tcb.Value() == OldTcb(id)
    ensures list.spine == old(list.spine) + [tcb] && Extends(list, old(list.Model()), tcb)
  {
    EntriesInSpine(list);
    tcb := new Tcb(id);
    list.Insert(tcb);
  }

  /** The list holds `tcb` and, in other blocks, what `before` says. */
  ghost predicate Extends(list: List, before: map<V.ConnId, V.Tcb>, tcb: Tcb)
    reads list, list.entries.Values
  {
    && list.entries.Keys == before.Keys + {tcb.id} && tcb.id !in before && list.entries[tcb.id] == tcb
    && forall id {:trigger before[id]} :: id in before ==> list.entries[id] != tcb && list.entries[id].Value() == before[id]
  }

  lemma OneMore(list: List, before: map<V.ConnId, V.Tcb>, tcb: Tcb)
    requires Extends(list, before, tcb)
    ensures list.Model() == before[tcb.id := tcb.Value()]
  {
  }

  ghost predicate AllIds(list: List)
    reads list
  {
    forall id :: id in list.entries ==> list.entries[id].id == id && list.entries[id] in list.spine
  }

  lemma EntriesInSpine(list: List)
    requires list.Valid()
    ensures AllIds(list)
  {
    forall id | id in list.entries
      ensures list.entries[id].id == id && list.entries[id] in list.spine
    {
      assert Stored(list.spine, list.entries, id);
    }
  }

  /** `tcp_got_rst`: the sequence number is compared as it lies in the buffer. */
  method GotRst(list: List, tcb: Tcb, seg: V.Segment)
    requires list.Valid() && tcb.id in list.entries && list.entries[tcb.id] == tcb
    modifies list, list.spine
    ensures list.Valid() && forall i :: 0 <= i < |list.spine| ==> fresh(list.spine[i]) || list.spine[i] in old(list.spine)
    ensures list.Model() == if InWindow(Swap32(seg.seqNum), old(tcb.recv.next), old(tcb.recv.window))
                            then old(list.Model()) - {tcb.id} else old(list.Model())
  {
    var rstSeq := Swap32(seg.seqNum);
    EntriesInSpine(list);
    if SeqGeq(rstSeq, tcb.recv.next) && SeqLt(rstSeq, Wrap32(tcb.recv.next + tcb.recv.window)) {
      list.Remove(tcb);
    }
  }

  /** `tcp_dispatch` on a known connection. */
  method DispatchFound(list: List, tcb: Tcb, buf: array<byte>, at: Layout, p: O.Packet) returns (silent: bool)
    requires list.Valid() && p.seg.id in list.entries && list.entries[p.seg.id] == tcb && tcb.id == p.seg.id
    requires WellLaid(buf[..], at) && p.length == at.total - at.end && at.end + |p.body| <= MTU_SIZE
    modifies buf, list, list.spine
    ensures list.Valid() && forall i :: 0 <= i < |list.spine| ==> fresh(list.spine[i]) || list.spine[i] in old(list.spine)
    ensures list.Model() == O.Step(old(list.Model()), p).table
    ensures Answers(old(buf[..]), at, O.Step(old(list.Model()), p).answer, silent, buf[..])
  {
    EntriesInSpine(list);
    if p.seg.flags.rst {
      GotRst(list, tcb, p.seg);
      return true;
    }
    silent := DispatchKnown(buf, at, tcb, p);
    assert forall id :: id in list.entries && id != p.seg.id ==> list.entries[id] != tcb;
  }

  /** `tcp_dispatch` once the header fields are read. */
  method DispatchPacket(list: List, buf: array<byte>, at: Layout, p: O.Packet, memory: bool) returns (silent: bool, fault: bool)
    requires list.Valid()
    requires WellLaid(buf[..], at) && p.length == at.total - at.end && at.end + |p.body| <= MTU_SIZE
    modifies buf, list, list.spine
    ensures fault <==> !memory && O.Opens(old(list.Model()), p)
    ensures !fault ==> list.Valid() && forall i :: 0 <= i < |list.spine| ==> fresh(list.spine[i]) || list.spine[i] in old(list.spine)
    ensures !fault ==> list.Model() == O.Step(old(list.Model()), p).table
    ensures !fault ==> Answers(old(buf[..]), at, O.Step(old(list.Model()), p).answer, silent, buf[..])
  {
    var con := list.Get(p.seg.id);
    fault := false;
    if con == null {
      silent, fault := DispatchUnknown(list, buf, at, p, memory);
    } else {
      EntriesInSpine(list);
      silent := DispatchFound(list, con, buf, at, p);
    }
  }

  /** Where the headers of the packet in the buffer end. */
  function LayoutOf(p: seq<byte>): Layout
    requires |p| == MTU_SIZE
  {
    var offset := Ihl(p[0]);
    Layout(offset, offset + p[offset + 12] / 0x10 * 4, U16(p, 2))
  }

  /** `tcp_dispatch`: on any list and any packet whose headers fit, one step of the machine, with
      the answer left in the buffer; unless the packet opens a connection and there is no memory
      for its block. */
  method Dispatch(list: List, buf: array<byte>, iss: u32, body: seq<byte>, memory: bool) returns (silent: bool, fault: bool)
    requires list.Valid() && buf.Length == MTU_SIZE
    requires WellLaid(buf[..], LayoutOf(buf[..])) && LayoutOf(buf[..]).end + |body| <= MTU_SIZE
    modifies buf, list, list.spine
    ensures var p := PacketOf(old(buf[..]), LayoutOf(old(buf[..])), iss, body);
            fault <==> !memory && O.Opens(old(list.Model()), p)
    ensures !fault ==> list.Valid() && forall i :: 0 <= i < |list.spine| ==> fresh(list.spine[i]) || list.spine[i] in old(list.spine)
    ensures !fault ==>
              var at := LayoutOf(old(buf[..]));
              var o := O.Step(old(list.Model()), PacketOf(old(buf[..]), at, iss, body));
              list.Model() == o.table && Answers(old(buf[..]), at, o.answer, silent, buf[..])
  {
    var packet := buf[..];
    var at := LayoutOf(packet);
    var p := O.Packet(Parse(packet[..at.offset], packet[at.offset..at.end]), at.total - at.end, iss, body);
    assert p == PacketOf(packet, at, iss, body);
    silent, fault := DispatchPacket(list, buf, at, p, memory);
  }
}
