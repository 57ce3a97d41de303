/** The loop of the older server: packets of bytes go through `packet_deserialize` to the TCP
    dispatcher. What it writes back for ICMP is not part of this model. */
module OldNetwork {
  import opened Words
  import opened Ipv4
  import opened Segments
  import O = OldMachine
  import opened OldSegments
  import opened OldStack
  import opened ConnList

  /** A packet as it is read from the device, with the ISS that the generator would give, the body
      that the request handler would return, and whether there is memory for a block. */
  datatype Arrival = Arrival(packet: seq<byte>, iss: u32, body: seq<byte>, memory: bool)

  /** What `packet_deserialize` says. */
  datatype Kind = Icmp | Tcp | Version6 | UnknownVersion | UnknownProtocol

  /** `packet_deserialize`; no checksum is looked at. */
  function KindOf(p: seq<byte>): Kind
    requires |p| >= 20
  {
    if p[0] / 0x10 == 6 then Version6
    else if p[0] / 0x10 != 4 then UnknownVersion
    else if Ihl(p[0]) < 20 then UnknownProtocol
    else if p[9] == PROTO_ICMP then Icmp
    else if p[9] == PROTO_TCP then Tcp
    else UnknownProtocol
  }

  predicate IsTcp(p: seq<byte>) {
    |p| >= 20 && KindOf(p).Tcp?
  }

  /** IP and TCP header of a packet, if they are there. */
  predicate HeadersThere(p: seq<byte>) {
    && |p| >= 20 && Ihl(p[0]) + 20 <= |p|
    && 20 <= TcpHeaderLength(p[Ihl(p[0])..]) <= |p| - Ihl(p[0])
  }

  function IpHeader(p: seq<byte>): seq<byte>
    requires HeadersThere(p)
  {
    p[..Ihl(p[0])]
  }

  function TcpHeader(p: seq<byte>): seq<byte>
    requires HeadersThere(p)
  {
    p[Ihl(p[0])..Ihl(p[0]) + TcpHeaderLength(p[Ihl(p[0])..])]
  }

  /** The headers are within what was read, and what is written back fits the buffer; the code takes
      both for granted. */
  predicate Fits(a: Arrival) {
    && 20 <= |a.packet| <= MTU_SIZE
    && (IsTcp(a.packet) ==>
          && HeadersThere(a.packet)
          && |IpHeader(a.packet)| + |TcpHeader(a.packet)| + |a.body| <= MTU_SIZE)
  }

  predicate AllFit(arrivals: seq<Arrival>) {
    forall a :: a in arrivals ==> Fits(a)
  }

  /** The packet as the machine sees it. */
  function InputOf(a: Arrival): O.Packet
    requires Fits(a) && IsTcp(a.packet)
  {
    var h, s := IpHeader(a.packet), TcpHeader(a.packet);
    O.Packet(Parse(h, s), U16(a.packet, 2) - |h| - |s|, a.iss, a.body)
  }

  /** The bytes written back for the machine's answer. */
  function Written(a: Arrival, answer: O.Answer): seq<byte>
    requires Fits(a) && IsTcp(a.packet) && (answer.Sent? ==> |answer.payload| <= |a.body|)
  {
    if answer.Silent? then [] else ReplyPacket(IpHeader(a.packet), TcpHeader(a.packet), answer)
  }

  /** An answer carries no more than the handler's body. */
  lemma PayloadFits(t: O.Table, p: O.Packet)
    ensures var answer := O.Step(t, p).answer; answer.Sent? ==> |answer.payload| <= |p.body|
  {
  }

  /** What one packet makes of the table, and what is written back; nothing for other protocols. */
  datatype Result = Result(table: O.Table, written: seq<byte>)

  function Handle(t: O.Table, a: Arrival): Result
    requires Fits(a)
  {
    if IsTcp(a.packet) then
      var o := O.Step(t, InputOf(a));
      PayloadFits(t, InputOf(a));
      Result(o.table, Written(a, o.answer))
    else Result(t, [])
  }

  /** The packet needs a block for which there is no memory. */
  predicate Faults(t: O.Table, a: Arrival)
    requires Fits(a)
  {
    IsTcp(a.packet) && !a.memory && O.Opens(t, InputOf(a))
  }

  // ------------------------------------------------------------------ one packet

  /** The bytes read are where the headers are taken from. */
  lemma SameHeaders(b: seq<byte>, a: Arrival)
    requires |b| == MTU_SIZE && Fits(a) && IsTcp(a.packet) && b[..|a.packet|] == a.packet
    ensures var at := LayoutOf(b);
            && WellLaid(b, at) && at.end + |a.body| <= MTU_SIZE
            && b[..at.offset] == IpHeader(a.packet) && b[at.offset..at.end] == TcpHeader(a.packet)
            && PacketOf(b, at, a.iss, a.body) == InputOf(a)
  {
    var p, ihl := a.packet, Ihl(a.packet[0]);
    assert b[0] == p[0] && b[2] == p[2] && b[3] == p[3];
    assert p[ihl..][12] == p[ihl + 12] == b[ihl + 12];
    assert b[..ihl] == p[..ihl];
    var end := ihl + TcpHeaderLength(p[ihl..]);
    assert b[ihl..end] == p[ihl..end];
    assert p[ihl..end][12] == p[ihl + 12];
  }

  /** The TCP branch of `parse_packet` on a packet in the buffer. */
  method HandleTcp(list: List, buf: array<byte>, a: Arrival) returns (written: seq<byte>, fault: bool)
    requires list.Valid() && buf.Length == MTU_SIZE && Fits(a) && IsTcp(a.packet)
    requires buf[..|a.packet|] == a.packet
    modifies buf, list, list.spine
    ensures fault == Faults(old(list.Model()), a)
    ensures !fault ==> list.Valid() && forall i :: 0 <= i < |list.spine| ==> fresh(list.spine[i]) || list.spine[i] in old(list.spine)
    ensures !fault ==> Result(list.Model(), written) == Handle(old(list.Model()), a)
  {
    ghost var b, t := buf[..], list.Model();
    SameHeaders(b, a);
    PayloadFits(t, InputOf(a));
    var silent;
    silent, fault := Dispatch(list, buf, a.iss, a.body, a.memory);
    written := [];
    if !fault && !silent {
      ReplyWritten(b, a, O.Step(t, InputOf(a)).answer, buf[..]);
      written := buf[..U16(buf[..], 2)];
    }
  }

  /** The length that the reply announces is that of the reply. */
  lemma ReplyWritten(b: seq<byte>, a: Arrival, answer: O.Answer, b': seq<byte>)
    requires |b| == |b'| == MTU_SIZE && Fits(a) && IsTcp(a.packet) && b[..|a.packet|] == a.packet
    requires answer.Sent? && |answer.payload| <= |a.body|
    requires WellLaid(b, LayoutOf(b)) && Answers(b, LayoutOf(b), answer, false, b')
    ensures U16(b', 2) <= MTU_SIZE && b'[..U16(b', 2)] == Written(a, answer)
  {
    SameHeaders(b, a);
    var at := LayoutOf(b);
    AnswersIsPacket(b, at, answer, b');
    AnnouncesItself(IpHeader(a.packet), TcpHeader(a.packet), answer);
    AnnouncedPrefix(b', ReplyPacket(IpHeader(a.packet), TcpHeader(a.packet), answer));
  }

  lemma AnnouncesItself(h: seq<byte>, s: seq<byte>, answer: O.Answer)
    requires Headers(h, s) && answer.Sent? && |h| + |s| + |answer.payload| <= MTU_SIZE
    ensures U16(ReplyPacket(h, s, answer), 2) == |h| + |s| + |answer.payload|
  {
    ReplyPacketIsSound(h, s, answer);
  }

  lemma AnnouncedPrefix(b: seq<byte>, r: seq<byte>)
    requires 20 <= |r| <= |b| && b[..|r|] == r && U16(r, 2) == |r|
    ensures U16(b, 2) == |r|
  {
  }

  /** Reads a packet into the buffer, which leaves the list alone. */
  method Read(list: List, buf: array<byte>, packet: seq<byte>)
    requires list.Valid() && |packet| <= buf.Length
    modifies buf
    ensures list.Valid() && list.Model() == old(list.Model())
    ensures buf[..|packet|] == packet
  {
    Copy(buf, 0, packet);
    assert buf[..|packet|] == packet;
  }

  /** Reads one packet into the buffer and handles it. */
  method ReadAndHandle(list: List, buf: array<byte>, a: Arrival) returns (written: seq<byte>, fault: bool)
    requires list.Valid() && buf.Length == MTU_SIZE && Fits(a)
    modifies buf, list, list.spine
    ensures fault == Faults(old(list.Model()), a)
    ensures !fault ==> list.Valid() && forall i :: 0 <= i < |list.spine| ==> fresh(list.spine[i]) || list.spine[i] in old(list.spine)
    ensures !fault ==> Result(list.Model(), written) == Handle(old(list.Model()), a)
  {
    Read(list, buf, a.packet);
    if KindOf(a.packet).Tcp? {
      written, fault := HandleTcp(list, buf, a);
    } else {
      written, fault := [], false;
    }
  }

  // ------------------------------------------------------------------ the server loop

  /** The TCP packets among the arrivals. */
  function Inputs(arrivals: seq<Arrival>): seq<O.Packet>
    requires AllFit(arrivals)
  {
    if arrivals == [] then []
    else
      var k := |arrivals| - 1;
      Inputs(arrivals[..k]) + if IsTcp(arrivals[k].packet) then [InputOf(arrivals[k])] else []
  }

  /** The packet at `k` had its block, and got the answer due in the state that those before it left. */
  ghost predicate ServedAt(arrivals: seq<Arrival>, written: seq<seq<byte>>, k: nat)
    requires k < |arrivals| == |written| && AllFit(arrivals)
  {
    var t := O.Run(Inputs(arrivals[..k]));
    !Faults(t, arrivals[k]) && written[k] == Handle(t, arrivals[k]).written
  }

  ghost predicate Served(arrivals: seq<Arrival>, written: seq<seq<byte>>, t: O.Table) {
    && AllFit(arrivals) && |arrivals| == |written| && t == O.Run(Inputs(arrivals))
    && forall k {:trigger ServedAt(arrivals, written, k)} :: 0 <= k < |arrivals| ==> ServedAt(arrivals, written, k)
  }

  lemma InputsAppend(arrivals: seq<Arrival>, a: Arrival)
    requires AllFit(arrivals) && AllFit(arrivals + [a]) && Fits(a)
    ensures Handle(O.Run(Inputs(arrivals)), a).table == O.Run(Inputs(arrivals + [a]))
  {
    var before := Inputs(arrivals);
    assert (arrivals + [a])[..|arrivals|] == arrivals;
    if IsTcp(a.packet) {
      assert (before + [InputOf(a)])[..|before|] == before;
    } else {
      assert before + [] == before;
    }
  }

  /** One more packet is one more input of the machine, or none. */
  lemma ServedAppend(arrivals: seq<Arrival>, written: seq<seq<byte>>, t: O.Table, a: Arrival)
    requires Served(arrivals, written, t) && Fits(a) && !Faults(t, a)
    ensures var r := Handle(t, a); Served(arrivals + [a], written + [r.written], r.table)
  {
    var all, allWritten := arrivals + [a], written + [Handle(t, a).written];
    assert AllFit(all);
    InputsAppend(arrivals, a);
    forall k | 0 <= k < |all|
      ensures ServedAt(all, allWritten, k)
    {
      assert all[..k] == arrivals[..k];
      if k < |arrivals| {
        assert ServedAt(arrivals, written, k);
      } else {
        assert arrivals[..k] == arrivals;
      }
    }
  }

  /** The same for the next of given arrivals. */
  lemma ServedNext(arrivals: seq<Arrival>, written: seq<seq<byte>>, t: O.Table)
    requires AllFit(arrivals) && |written| < |arrivals| && Served(arrivals[..|written|], written, t)
    requires !Faults(t, arrivals[|written|])
    ensures var r := Handle(t, arrivals[|written|]); Served(arrivals[..|written| + 1], written + [r.written], r.table)
  {
    ServedAppend(arrivals[..|written|], written, t, arrivals[|written|]);
    assert arrivals[..|written| + 1] == arrivals[..|written|] + [arrivals[|written|]];
  }

  /** The loop of `main` on any packets. It goes through all of them, or up to the first that opens
      a connection for which there is no memory; until then the list stands for the machine's run
      on the TCP packets, well formed, and each packet gets the answer due in its state. */
  method Serve(arrivals: seq<Arrival>) returns (list: List, written: seq<seq<byte>>, fault: bool, ghost t: O.Table)
    requires AllFit(arrivals)
    ensures |written| <= |arrivals| && Served(arrivals[..|written|], written, t) && O.GoodTable(t)
    ensures fault == (|written| < |arrivals|)
    ensures if fault then Faults(t, arrivals[|written|]) else list.Valid() && list.Model() == t
  {
    list := new List();
    var buf := new byte[MTU_SIZE](_ => 0);
    written, fault, t := [], false, list.Model();
    while |written| < |arrivals| && !fault
      invariant |written| <= |arrivals| && Served(arrivals[..|written|], written, t)
      invariant fresh(buf) && buf.Length == MTU_SIZE && fresh(list)
      invariant if fault then |written| < |arrivals| && Faults(t, arrivals[|written|])
                else list.Valid() && list.Model() == t && forall i :: 0 <= i < |list.spine| ==> fresh(list.spine[i])
      decreases |arrivals| - |written|, !fault
    {
      var bytes;
      bytes, fault := ReadAndHandle(list, buf, arrivals[|written|]);
      if !fault {
        ServedNext(arrivals, written, t);
        written, t := written + [bytes], list.Model();
      }
    }
    O.RunIsGood(Inputs(arrivals[..|written|]));
  }
}
