/** `net_demux` and the byte level of `tcp_dispatch` in the refactored stack. */
module Network {
  import opened Words
  import opened InternetChecksum
  import opened Ipv4
  import opened Segments
  import opened SynAckSegment
  import opened RstSegment
  import Icmp
  import M = ConnMachine
  import opened HashTable
  import T = TcpStack

  /** The bytes sent for a reply of the connection machine. */
  function SentFor(reply: M.Reply, h: seq<byte>, s: seq<byte>, junk: Unassigned): seq<byte>
    requires HeadersFit(h, s)
  {
    match reply
    case NoReply => []
    case SynAck(seqNum, ackNum, window) => SynAckIp(h, s) + SynAckTcp(h, s, seqNum, ackNum, window % 0x1_0000)
    case Reset => ResetPacket(h, s, junk)
  }

  /** The switch at the end of `tcp_dispatch`. */
  method SendReply(buf: array<byte>, len: nat, offset: nat, reply: M.Reply, junk: Unassigned) returns (n: nat)
    requires buf.Length == MTU_SIZE && len <= MTU_SIZE && 20 <= offset <= len && Ihl(buf[0]) == offset
    requires HeadersFit(buf[..offset], buf[offset..len])
    modifies buf
    ensures n <= len && buf[..n] == SentFor(reply, old(buf[..offset]), old(buf[offset..len]), junk)
  {
    match reply {
      case NoReply =>
        n := 0;
      case SynAck(seqNum, ackNum, window) =>
        n := TcpSynAck(buf, len, offset, seqNum, ackNum, window % 0x1_0000);
      case Reset =>
        n := TcpRst(buf, len, offset, junk);
    }
  }

  /** What segment `s` under header `h` does to `t`: nothing if its checksum is wrong. */
  function Receive(t: M.Table, h: seq<byte>, s: seq<byte>, iss: u32, memory: bool): M.Outcome
    requires HeadersFit(h, s)
  {
    if TcpValid(h, s) then M.Step(t, M.Input(Parse(h, s), iss, memory)) else M.Outcome(t, M.NoReply)
  }

  /** What `memory` may be for segment `s` under header `h`; where no block is needed it is true. */
  predicate Granted(t: M.Table, h: seq<byte>, s: seq<byte>, mem: T.Memory, memory: bool)
    requires HeadersFit(h, s)
  {
    if TcpValid(h, s) then T.Granted(Parse(h, s).id in t, mem, memory) else memory
  }

  /** `tcp_dispatch` up to its reply. */
  method TcpReceive(table: Table, buf: array<byte>, len: nat, offset: nat, iss: u32, mem: T.Memory)
    returns (reply: M.Reply, ghost memory: bool)
    requires table.Valid() && T.Conserved(table) && buf !in table.cells
    requires 20 <= offset <= len <= buf.Length && HeadersFit(buf[..offset], buf[offset..len]) && len <= 0xFFFF
    modifies buf, table, table.heap, table.cells, table.heap.live
    ensures table.Valid() && T.Conserved(table) && buf !in table.cells && buf[..] == old(buf[..])
    ensures fresh(table.cells - old(table.cells)) && fresh(table.heap.live - old(table.heap.live))
    ensures M.Outcome(table.Model(), reply)
         == Receive(old(table.Model()), old(buf[..offset]), old(buf[offset..len]), iss, memory)
    ensures Granted(old(table.Model()), old(buf[..offset]), old(buf[offset..len]), mem, memory)
  {
    var cs := TcpChecksum(buf, len, offset);
    if Native(buf[offset..len], 16) != cs {
      return M.NoReply, true;
    }
    var seg := Parse(buf[..offset], buf[offset..len]);
    reply, memory := T.Dispatch(table, seg, iss, mem);
  }

  /** Sending leaves the table alone. */
  method SendBeside(table: Table, buf: array<byte>, len: nat, offset: nat, reply: M.Reply, junk: Unassigned) returns (n: nat)
    requires table.Valid() && T.Conserved(table) && buf !in table.cells
    requires buf.Length == MTU_SIZE && len <= MTU_SIZE && 20 <= offset <= len && Ihl(buf[0]) == offset
    requires HeadersFit(buf[..offset], buf[offset..len])
    modifies buf
    ensures table.Valid() && T.Conserved(table) && table.Model() == old(table.Model())
    ensures n <= len && buf[..n] == SentFor(reply, old(buf[..offset]), old(buf[offset..len]), junk)
  {
    n := SendReply(buf, len, offset, reply, junk);
  }

  /** Segments with a wrong checksum change nothing; the others make one step of the machine. */
  method TcpDispatch(table: Table, buf: array<byte>, len: nat, offset: nat, iss: u32, mem: T.Memory, junk: Unassigned)
    returns (n: nat, ghost reply: M.Reply, ghost memory: bool)
    requires table.Valid() && T.Conserved(table) && buf !in table.cells
    requires buf.Length == MTU_SIZE && len <= MTU_SIZE && 20 <= offset <= len && Ihl(buf[0]) == offset
    requires HeadersFit(buf[..offset], buf[offset..len])
    modifies buf, table, table.heap, table.cells, table.heap.live
    ensures table.Valid() && T.Conserved(table) && buf !in table.cells && n <= len
    ensures fresh(table.cells - old(table.cells)) && fresh(table.heap.live - old(table.heap.live))
    ensures M.Outcome(table.Model(), reply)
         == Receive(old(table.Model()), old(buf[..offset]), old(buf[offset..len]), iss, memory)
    ensures Granted(old(table.Model()), old(buf[..offset]), old(buf[offset..len]), mem, memory)
    ensures buf[..n] == SentFor(reply, old(buf[..offset]), old(buf[offset..len]), junk)
  {
    ghost var p := buf[..];
    var r;
    r, memory := TcpReceive(table, buf, len, offset, iss, mem);
    reply := r;
    assert buf[..offset] == p[..offset] && buf[offset..len] == p[offset..len];
    n := SendBeside(table, buf, len, offset, r, junk);
  }

  predicate IsTcp(p: seq<byte>) {
    IpValid(p) && p[9] == PROTO_TCP
  }

  /** The headers of a TCP packet fit in the received length, which the code takes for granted. */
  predicate Fits(p: seq<byte>) {
    IsTcp(p) ==> HeadersFit(p[..Ihl(p[0])], p[Ihl(p[0])..])
  }

  /** What a packet makes of the table, and the bytes sent for it. */
  datatype Result = Result(table: M.Table, sent: seq<byte>)

  /** `net_demux` on values. */
  function Demux(t: M.Table, p: seq<byte>, iss: u32, memory: bool, junk: Unassigned): Result
    requires Fits(p)
  {
    if IsTcp(p) then
      var h, s := p[..Ihl(p[0])], p[Ihl(p[0])..];
      var o := Receive(t, h, s, iss, memory);
      Result(o.table, SentFor(o.reply, h, s, junk))
    else
      Result(t, if Icmp.NonTcpAnswer(p).Send? then Icmp.NonTcpAnswer(p).bytes else [])
  }

  /** What `memory` may be for packet `p`. */
  predicate GrantedFor(t: M.Table, p: seq<byte>, mem: T.Memory, memory: bool)
    requires Fits(p)
  {
    if IsTcp(p) then Granted(t, p[..Ihl(p[0])], p[Ihl(p[0])..], mem, memory) else memory
  }

  /** `net_demux` for a valid packet of another protocol. */
  method IcmpDemux(buf: array<byte>, len: nat) returns (n: nat)
    requires buf.Length == MTU_SIZE && len <= MTU_SIZE && IpValid(buf[..len]) && buf[9] != PROTO_TCP
    modifies buf
    ensures n <= buf.Length
    ensures (if n == 0 then Icmp.Silent else Icmp.Send(buf[..n])) == Icmp.NonTcpAnswer(old(buf[..len]))
  {
    if buf[9] == PROTO_ICMP {
      n := Icmp.IcmpDispatch(buf, len, Ihl(buf[0]));
    } else {
      n := Icmp.IcmpDestUnreachable(buf, len, Ihl(buf[0]));
    }
  }

  /** The same beside the table, which it leaves alone. */
  method OtherDemux(table: Table, buf: array<byte>, len: nat) returns (n: nat)
    requires table.Valid() && T.Conserved(table) && buf !in table.cells
    requires buf.Length == MTU_SIZE && len <= MTU_SIZE && IpValid(buf[..len]) && buf[9] != PROTO_TCP
    modifies buf
    ensures table.Valid() && T.Conserved(table) && table.Model() == old(table.Model()) && n <= buf.Length
    ensures (if n == 0 then Icmp.Silent else Icmp.Send(buf[..n])) == Icmp.NonTcpAnswer(old(buf[..len]))
  {
    n := IcmpDemux(buf, len);
  }

  /** `net_demux` for TCP. */
  method TcpDemux(table: Table, buf: array<byte>, len: nat, iss: u32, mem: T.Memory, junk: Unassigned)
    returns (n: nat, ghost memory: bool)
    requires table.Valid() && T.Conserved(table) && buf !in table.cells
    requires buf.Length == MTU_SIZE && len <= MTU_SIZE && IsTcp(buf[..len]) && Fits(buf[..len])
    modifies buf, table, table.heap, table.cells, table.heap.live
    ensures table.Valid() && T.Conserved(table) && buf !in table.cells && n <= buf.Length
    ensures fresh(table.cells - old(table.cells)) && fresh(table.heap.live - old(table.heap.live))
    ensures Result(table.Model(), buf[..n]) == Demux(old(table.Model()), old(buf[..len]), iss, memory, junk)
    ensures GrantedFor(old(table.Model()), old(buf[..len]), mem, memory)
  {
    var ihl := Ihl(buf[0]);
    assert buf[..ihl] == buf[..len][..ihl] && buf[ihl..len] == buf[..len][ihl..];
    ghost var reply;
    n, reply, memory := TcpDispatch(table, buf, len, ihl, iss, mem, junk);
  }

  /** One received packet: invalid ones get no answer, those that are not TCP get the ICMP
      answer and leave the table alone, TCP makes one step of the machine. */
  method NetDemux(table: Table, buf: array<byte>, len: nat, iss: u32, mem: T.Memory, junk: Unassigned)
    returns (n: nat, ghost memory: bool)
    requires table.Valid() && T.Conserved(table) && buf !in table.cells
    requires buf.Length == MTU_SIZE && len <= MTU_SIZE && Fits(buf[..len])
    modifies buf, table, table.heap, table.cells, table.heap.live
    ensures table.Valid() && T.Conserved(table) && buf !in table.cells && n <= buf.Length
    ensures fresh(table.cells - old(table.cells)) && fresh(table.heap.live - old(table.heap.live))
    ensures Result(table.Model(), buf[..n]) == Demux(old(table.Model()), old(buf[..len]), iss, memory, junk)
    ensures GrantedFor(old(table.Model()), old(buf[..len]), mem, memory)
  {
    memory := true;
    var ok := IpValidate(buf, len);
    if !ok {
      n := 0;
    } else if buf[9] == PROTO_TCP {
      n, memory := TcpDemux(table, buf, len, iss, mem, junk);
    } else {
      n := OtherDemux(table, buf, len);
    }
  }

  // ------------------------------------------------------------------ the server loop

  /** A packet as it is read from the device (empty if the read fails), with the ISS that the
      generator would give, the memory available and what is in unassigned locals. */
  datatype Arrival = Arrival(packet: seq<byte>, iss: u32, mem: T.Memory, junk: Unassigned)

  /** The packets that reach the connection machine: TCP, with both checksums right. */
  predicate Reaches(p: seq<byte>)
    requires Fits(p)
  {
    IsTcp(p) && TcpValid(p[..Ihl(p[0])], p[Ihl(p[0])..])
  }

  /** Such a packet as the machine sees it. */
  function InputOf(a: Arrival, memory: bool): M.Input
    requires Fits(a.packet) && IsTcp(a.packet)
  {
    var ihl := Ihl(a.packet[0]);
    M.Input(Parse(a.packet[..ihl], a.packet[ihl..]), a.iss, memory)
  }

  predicate AllFit(arrivals: seq<Arrival>) {
    forall a :: a in arrivals ==> |a.packet| <= MTU_SIZE && Fits(a.packet)
  }

  /** The machine's inputs in a run, `mems` saying whose allocations succeeded. */
  function Inputs(arrivals: seq<Arrival>, mems: seq<bool>): seq<M.Input>
    requires |mems| == |arrivals| && AllFit(arrivals)
  {
    if arrivals == [] then []
    else
      var k := |arrivals| - 1;
      Inputs(arrivals[..k], mems[..k]) + if Reaches(arrivals[k].packet) then [InputOf(arrivals[k], mems[k])] else []
  }

  /** What the packet at `k` is answered with: what is due in the state that those before it left,
      as far as there was memory. */
  ghost predicate AnsweredAt(arrivals: seq<Arrival>, mems: seq<bool>, sent: seq<seq<byte>>, k: nat)
    requires k < |arrivals| == |mems| == |sent| && AllFit(arrivals)
  {
    var a, t := arrivals[k], M.Run(Inputs(arrivals[..k], mems[..k]));
    sent[k] == Demux(t, a.packet, a.iss, mems[k], a.junk).sent && GrantedFor(t, a.packet, a.mem, mems[k])
  }

  /** The table after the arrivals is the machine's run on the valid segments among them, and each
      packet got its due answer. */
  ghost predicate Served(arrivals: seq<Arrival>, mems: seq<bool>, sent: seq<seq<byte>>, t: M.Table) {
    && AllFit(arrivals) && |arrivals| == |mems| == |sent|
    && t == M.Run(Inputs(arrivals, mems))
    && forall k {:trigger AnsweredAt(arrivals, mems, sent, k)} ::
         0 <= k < |arrivals| ==> AnsweredAt(arrivals, mems, sent, k)
  }

  lemma DemuxTable(t: M.Table, a: Arrival, memory: bool)
    requires Fits(a.packet)
    ensures Demux(t, a.packet, a.iss, memory, a.junk).table
         == if Reaches(a.packet) then M.Step(t, InputOf(a, memory)).table else t
  {
  }

  /** One more packet is one more input of the machine, or none. */
  lemma InputsAppend(arrivals: seq<Arrival>, mems: seq<bool>, a: Arrival, memory: bool)
    requires |mems| == |arrivals| && AllFit(arrivals + [a])
    ensures AllFit(arrivals)
    ensures Inputs(arrivals + [a], mems + [memory])
         == Inputs(arrivals, mems) + if Reaches(a.packet) then [InputOf(a, memory)] else []
  {
    assert forall b :: b in arrivals ==> b in arrivals + [a];
    assert (arrivals + [a])[..|arrivals|] == arrivals && (mems + [memory])[..|arrivals|] == mems;
  }

  lemma RunAppends(arrivals: seq<Arrival>, mems: seq<bool>, a: Arrival, memory: bool)
    requires |mems| == |arrivals| && AllFit(arrivals) && AllFit(arrivals + [a]) && Fits(a.packet)
    ensures Demux(M.Run(Inputs(arrivals, mems)), a.packet, a.iss, memory, a.junk).table
         == M.Run(Inputs(arrivals + [a], mems + [memory]))
  {
    var before := Inputs(arrivals, mems);
    DemuxTable(M.Run(before), a, memory);
    InputsAppend(arrivals, mems, a, memory);
    if Reaches(a.packet) {
      M.RunAppend(before, InputOf(a, memory));
    } else {
      assert before + [] == before;
    }
  }

  lemma ServedAppend(arrivals: seq<Arrival>, mems: seq<bool>, sent: seq<seq<byte>>, t: M.Table, a: Arrival, memory: bool)
    requires Served(arrivals, mems, sent, t) && |a.packet| <= MTU_SIZE && Fits(a.packet)
    requires GrantedFor(t, a.packet, a.mem, memory)
    ensures var r := Demux(t, a.packet, a.iss, memory, a.junk);
            Served(arrivals + [a], mems + [memory], sent + [r.sent], r.table)
  {
    var r := Demux(t, a.packet, a.iss, memory, a.junk);
    var all, allMems, allSent := arrivals + [a], mems + [memory], sent + [r.sent];
    assert AllFit(all);
    RunAppends(arrivals, mems, a, memory);
    forall k | 0 <= k < |all|
      ensures AnsweredAt(all, allMems, allSent, k)
    {
      assert all[..k] == arrivals[..k] && allMems[..k] == mems[..k];
      if k < |arrivals| {
        assert AnsweredAt(arrivals, mems, sent, k);
      } else {
        assert arrivals[..k] == arrivals && mems[..k] == mems;
      }
    }
  }

  /** The same for the next of given arrivals. */
  lemma ServedNext(arrivals: seq<Arrival>, mems: seq<bool>, sent: seq<seq<byte>>, t: M.Table, memory: bool)
    requires AllFit(arrivals) && |sent| < |arrivals| && Served(arrivals[..|sent|], mems, sent, t)
    requires GrantedFor(t, arrivals[|sent|].packet, arrivals[|sent|].mem, memory)
    ensures var a := arrivals[|sent|];
            var r := Demux(t, a.packet, a.iss, memory, a.junk);
            Served(arrivals[..|sent| + 1], mems + [memory], sent + [r.sent], r.table)
  {
    ServedAppend(arrivals[..|sent|], mems, sent, t, arrivals[|sent|], memory);
    assert arrivals[..|sent| + 1] == arrivals[..|sent|] + [arrivals[|sent|]];
  }

  /** Reads a packet into the buffer, which leaves the table alone. */
  method Read(table: Table, buf: array<byte>, packet: seq<byte>)
    requires table.Valid() && T.Conserved(table) && buf !in table.cells
    requires |packet| <= buf.Length
    modifies buf
    ensures table.Valid() && T.Conserved(table) && table.Model() == old(table.Model())
    ensures buf[..|packet|] == packet
  {
    Copy(buf, 0, packet);
    assert buf[..|packet|] == packet;
  }

  /** Reads one packet into the buffer and demultiplexes it. */
  method ReadAndDemux(table: Table, buf: array<byte>, a: Arrival) returns (n: nat, ghost memory: bool)
    requires table.Valid() && T.Conserved(table) && buf !in table.cells
    requires buf.Length == MTU_SIZE && |a.packet| <= MTU_SIZE && Fits(a.packet)
    modifies buf, table, table.heap, table.cells, table.heap.live
    ensures table.Valid() && T.Conserved(table) && buf !in table.cells && n <= buf.Length
    ensures fresh(table.cells - old(table.cells)) && fresh(table.heap.live - old(table.heap.live))
    ensures Result(table.Model(), buf[..n]) == Demux(old(table.Model()), a.packet, a.iss, memory, a.junk)
    ensures GrantedFor(old(table.Model()), a.packet, a.mem, memory)
  {
    Read(table, buf, a.packet);
    if |a.packet| > 0 {
      n, memory := NetDemux(table, buf, |a.packet|, a.iss, a.mem, a.junk);
    } else {
      n, memory := 0, true;
    }
  }

  /** One turn of the loop. */
  method ServeNext(table: Table, buf: array<byte>, arrivals: seq<Arrival>, sent: seq<seq<byte>>, ghost mems: seq<bool>)
    returns (bytes: seq<byte>, ghost memory: bool)
    requires table.Valid() && T.Conserved(table) && buf !in table.cells && buf.Length == MTU_SIZE
    requires AllFit(arrivals) && |sent| < |arrivals| && Served(arrivals[..|sent|], mems, sent, table.Model())
    modifies buf, table, table.heap, table.cells, table.heap.live
    ensures table.Valid() && T.Conserved(table) && buf !in table.cells
    ensures fresh(table.cells - old(table.cells)) && fresh(table.heap.live - old(table.heap.live))
    ensures Served(arrivals[..|sent| + 1], mems + [memory], sent + [bytes], table.Model())
  {
    ghost var t := table.Model();
    var n;
    n, memory := ReadAndDemux(table, buf, arrivals[|sent|]);
    bytes := buf[..n];
    ServedNext(arrivals, mems, sent, t, memory);
  }

  /** `server_run` on any packets: the table always stands for the machine's run on the valid TCP
      segments among them, each packet gets the answer due in that state, every entry is well
      formed, and no block has leaked. */
  method Serve(arrivals: seq<Arrival>) returns (table: Table, sent: seq<seq<byte>>, ghost mems: seq<bool>)
    requires AllFit(arrivals)
    ensures table.Valid() && Served(arrivals, mems, sent, table.Model()) && M.GoodTable(table.Model())
    ensures table.heap.live == table.entries.Values
  {
    table := new Table();
    var buf := new byte[MTU_SIZE](_ => 0);
    sent, mems := [], [];
    for k := 0 to |arrivals|
      invariant table.Valid() && T.Conserved(table) && fresh(table) && fresh(table.heap) && fresh(table.cells)
      invariant fresh(table.heap.live) && buf !in table.cells
      invariant |sent| == k && Served(arrivals[..k], mems, sent, table.Model())
    {
      var bytes;
      ghost var memory;
      bytes, memory := ServeNext(table, buf, arrivals, sent, mems);
      sent, mems := sent + [bytes], mems + [memory];
    }
    assert arrivals[..|arrivals|] == arrivals;
    M.RunIsGood(Inputs(arrivals, mems));
    T.LiveAreEntries(table);
  }
}
