/** What the older server does with packets, said of their bytes alone. */
module OldOnTheWire {
  import opened Words
  import opened Ipv4
  import opened Segments
  import opened RstChecksum
  import V = TcbValues
  import O = OldMachine
  import opened OldSegments
  import N = OldNetwork
  import W = OnTheWire

  /** Version 4, a header of at least five words, protocol 6; no checksum is looked at. */
  predicate IsTcp(p: seq<byte>) {
    |p| >= 20 && p[0] / 16 == 4 && p[0] % 16 >= 5 && p[9] == 6
  }

  /** Such a packet with room for both headers. */
  predicate HasHeaders(p: seq<byte>) {
    && IsTcp(p) && W.HeaderEnd(p) + 20 <= |p|
    && W.HeaderEnd(p) + 20 <= W.TcpEnd(p, W.HeaderEnd(p)) <= |p|
  }

  /** The header fields that the machine looks at, and the data length announced. */
  function PacketAt(p: seq<byte>, iss: u32, body: seq<byte>): O.Packet
    requires HasHeaders(p)
  {
    var o := W.HeaderEnd(p);
    var f := p[o + 13];
    O.Packet(V.Segment(V.ConnId(W.Big16(p, o), W.Big16(p, o + 2), W.Big32(p, 12), W.Big32(p, 16)),
                       W.Big32(p, o + 4), W.Big32(p, o + 8),
                       V.Flags(f % 2 == 1, f / 2 % 2 == 1, f / 4 % 2 == 1, f / 8 % 2 == 1, f / 16 % 2 == 1),
                       W.Big16(p, o + 14)),
             W.Big16(p, 2) - W.TcpEnd(p, o), iss, body)
  }

  /** What the server takes for granted: headers within what was read, a reply that fits the buffer. */
  lemma FitsIff(a: N.Arrival)
    ensures N.Fits(a) <==>
            var p := a.packet;
            && 20 <= |p| <= 1500
            && (IsTcp(p) ==> HasHeaders(p) && W.TcpEnd(p, W.HeaderEnd(p)) + |a.body| <= 1500)
  {
    var p := a.packet;
    if IsTcp(p) && W.HeaderEnd(p) + 20 <= |p| {
      var o := W.HeaderEnd(p);
      assert p[o..][12] == p[o + 12];
    }
  }

  lemma KindIff(a: N.Arrival)
    requires N.Fits(a)
    ensures N.IsTcp(a.packet) <==> IsTcp(a.packet)
    ensures IsTcp(a.packet) ==> HasHeaders(a.packet)
  {
  }

  lemma HeadersAre(a: N.Arrival)
    requires N.Fits(a) && IsTcp(a.packet)
    ensures N.IsTcp(a.packet) && HasHeaders(a.packet)
    ensures var p, o := a.packet, W.HeaderEnd(a.packet);
            N.IpHeader(p) == p[..o] && N.TcpHeader(p) == p[o..W.TcpEnd(p, o)]
  {
    KindIff(a);
    var p, o := a.packet, W.HeaderEnd(a.packet);
    assert p[o..][12] == p[o + 12];
  }

  lemma PacketIs(a: N.Arrival)
    requires N.Fits(a) && IsTcp(a.packet)
    ensures N.IsTcp(a.packet) && HasHeaders(a.packet)
    ensures N.InputOf(a) == PacketAt(a.packet, a.iss, a.body)
  {
    HeadersAre(a);
    var p, o := a.packet, W.HeaderEnd(a.packet);
    var h, s := p[..o], p[o..W.TcpEnd(p, o)];
    assert U32(h, 12) == W.Big32(p, 12) && U32(h, 16) == W.Big32(p, 16);
    assert U16(s, 0) == W.Big16(p, o) && U16(s, 2) == W.Big16(p, o + 2) && U16(s, 14) == W.Big16(p, o + 14);
    assert U32(s, 4) == W.Big32(p, o + 4) && U32(s, 8) == W.Big32(p, o + 8);
    assert s[13] == p[o + 13] && U16(p, 2) == W.Big16(p, 2);
  }

  /** `q` answers `p` with these fields and this body: addresses and ports exchanged, the announced
      length its own, options as they were, both checksums right. */
  predicate Carries(p: seq<byte>, q: seq<byte>, seqNum: u32, ackNum: u32, flags: byte, window: u16, body: seq<byte>)
    requires HasHeaders(p)
  {
    var o, e := W.HeaderEnd(p), W.TcpEnd(p, W.HeaderEnd(p));
    && |q| == e + |body| && W.Returns(p, q) && W.IsTcp(q) && W.Big16(q, 2) == |q|
    && W.HeaderEnd(q) == o && W.TcpEnd(q, o) == e
    && W.Big16(q, o) == W.Big16(p, o + 2) && W.Big16(q, o + 2) == W.Big16(p, o)
    && W.Big32(q, o + 4) == seqNum && W.Big32(q, o + 8) == ackNum && q[o + 13] == flags && W.Big16(q, o + 14) == window
    && q[o + 20..e] == p[o + 20..e] && q[e..] == body
    && W.TcpRight(q)
  }

  /** What the older server makes of any packet, from its bytes. */
  lemma EveryPacket(t: O.Table, a: N.Arrival)
    requires N.Fits(a)
    ensures !IsTcp(a.packet) ==> N.Handle(t, a) == N.Result(t, [])
    ensures IsTcp(a.packet) ==> HasHeaders(a.packet)
    ensures IsTcp(a.packet) ==>
              var r, o := N.Handle(t, a), O.Step(t, PacketAt(a.packet, a.iss, a.body));
              r.table == o.table && Answers(a.packet, o.answer, r.written)
  {
    KindIff(a);
    if IsTcp(a.packet) {
      PacketIs(a);
      N.PayloadFits(t, N.InputOf(a));
      var answer := O.Step(t, PacketAt(a.packet, a.iss, a.body)).answer;
      if answer.Sent? {
        WrittenIs(a, answer);
      }
    }
  }

  predicate Answers(p: seq<byte>, answer: O.Answer, q: seq<byte>)
    requires HasHeaders(p)
  {
    match answer
    case Silent => q == []
    case Sent(seqNum, ackNum, flags, window, payload) => Carries(p, q, seqNum, ackNum, flags, window, payload)
  }

  lemma WrittenIs(a: N.Arrival, answer: O.Answer)
    requires N.Fits(a) && IsTcp(a.packet) && N.IsTcp(a.packet) && HasHeaders(a.packet)
    requires answer.Sent? && |answer.payload| <= |a.body|
    ensures Answers(a.packet, answer, N.Written(a, answer))
  {
    HeadersAre(a);
    var p, o := a.packet, W.HeaderEnd(a.packet);
    var h, s := p[..o], p[o..W.TcpEnd(p, o)];
    var q := ReplyPacket(h, s, answer);
    ReplyPacketIsSound(h, s, answer);
    ReplyBytes(p, h, s, answer);
    ReplyTests(p, q, answer);
    assert W.Big32(q, o + 4) == U32(q[o..], 4) && W.Big32(q, o + 8) == U32(q[o..], 8);
    assert W.Big16(q, o + 14) == U16(q[o..], 14) && U16(q, 2) == W.Big16(q, 2);
  }

  /** Addresses, ports, flags and options of the reply. */
  lemma ReplyBytes(p: seq<byte>, h: seq<byte>, s: seq<byte>, a: O.Answer)
    requires HasHeaders(p) && a.Sent?
    requires var o := W.HeaderEnd(p); h == p[..o] && s == p[o..W.TcpEnd(p, o)] && |h| + |s| + |a.payload| <= MTU_SIZE
    requires Headers(h, s)
    ensures var q, o, e := ReplyPacket(h, s, a), W.HeaderEnd(p), W.TcpEnd(p, W.HeaderEnd(p));
            && W.Returns(p, q) && W.Big16(q, o) == W.Big16(p, o + 2) && W.Big16(q, o + 2) == W.Big16(p, o)
            && q[o + 12] == p[o + 12] / 16 * 16 && q[o + 13] == a.flags && q[o + 20..e] == p[o + 20..e] && q[9] == 6 && q[0] == p[0]
  {
    var q, o, e := ReplyPacket(h, s, a), W.HeaderEnd(p), W.TcpEnd(p, W.HeaderEnd(p));
    var r := ReplyHeader(s, a.seqNum, a.ackNum, a.flags, a.window);
    W.ReplyHeaderTail(s, a.seqNum, a.ackNum, a.flags, a.window);
    ReplyAt(h, s, a);
    FieldsKept(p, q, s, a, o);
    SameOptions(p, q, r, o, e);
    assert q[12..16] == p[16..20] && q[16..20] == p[12..16];
  }

  lemma FieldsKept(p: seq<byte>, q: seq<byte>, s: seq<byte>, a: O.Answer, o: nat)
    requires a.Sent? && |s| >= 20 && o + |s| <= |p| && o + |s| <= |q| && s == p[o..o + |s|]
    requires var r := ReplyHeader(s, a.seqNum, a.ackNum, a.flags, a.window);
             forall i :: o <= i < o + |s| && i != o + 16 && i != o + 17 ==> q[i] == r[i - o]
    ensures W.Big16(q, o) == W.Big16(p, o + 2) && W.Big16(q, o + 2) == W.Big16(p, o)
    ensures q[o + 12] == p[o + 12] / 16 * 16 && q[o + 13] == a.flags
  {
    W.ReplyHeaderPorts(s, a.seqNum, a.ackNum, a.flags, a.window);
    ReplyHeaderRest(s, a.seqNum, a.ackNum, a.flags, a.window);
    ReplyHeaderFields(s, a.seqNum, a.ackNum, a.flags, a.window);
  }

  lemma SameOptions(p: seq<byte>, q: seq<byte>, r: seq<byte>, o: nat, e: nat)
    requires o + 20 <= e <= |p| && e <= |q| && |r| == e - o
    requires forall i :: o + 20 <= i < e ==> q[i] == r[i - o]
    requires forall i :: 20 <= i < e - o ==> r[i] == p[o..e][i]
    ensures q[o + 20..e] == p[o + 20..e]
  {
    forall i | o + 20 <= i < e
      ensures q[i] == p[i]
    {
      assert r[i - o] == p[o..e][i - o];
    }
  }

  lemma ReplyAt(h: seq<byte>, s: seq<byte>, a: O.Answer)
    requires Headers(h, s) && a.Sent? && |h| + |s| + |a.payload| <= MTU_SIZE
    ensures var q, r := ReplyPacket(h, s, a), ReplyHeader(s, a.seqNum, a.ackNum, a.flags, a.window);
            && q[0] == h[0] && q[9] == h[9]
            && (forall i :: 12 <= i < 16 ==> q[i] == h[i + 4] && q[i + 4] == h[i])
            && (forall i :: |h| <= i < |h| + |s| && i != |h| + 16 && i != |h| + 17 ==> q[i] == r[i - |h|])
  {
  }

  /** The tests that the reply passes. */
  lemma ReplyTests(p: seq<byte>, q: seq<byte>, a: O.Answer)
    requires HasHeaders(p) && a.Sent? && IpValid(q) && |q| < 0x1_0000
    requires var o := W.HeaderEnd(p);
             && |q| == W.TcpEnd(p, o) + |a.payload| && q[0] == p[0] && q[9] == 6 && q[o + 12] == p[o + 12] / 16 * 16
             && TcpValid(q[..o], q[o..])
    ensures W.IsTcp(q) && W.HeaderEnd(q) == W.HeaderEnd(p) && W.TcpEnd(q, W.HeaderEnd(p)) == W.TcpEnd(p, W.HeaderEnd(p))
    ensures W.TcpRight(q)
  {
    W.IpRightIff(q);
    var o := W.HeaderEnd(p);
    assert q[o + 12] as int / 16 == p[o + 12] as int / 16;
    W.TcpRightIff(q);
  }

  /** After any packets, a SYN without ACK and RST on an unknown connection, with memory, stores an entry
      and is answered with iss, its number plus one, and window 8192. */
  lemma SynOnTheWire(ps: seq<O.Packet>, a: N.Arrival)
    requires N.Fits(a) && IsTcp(a.packet) && HasHeaders(a.packet)
    requires var f := a.packet[W.HeaderEnd(a.packet) + 13]; f / 2 % 2 == 1 && f / 4 % 2 == 0 && f / 16 % 2 == 0
    requires PacketAt(a.packet, a.iss, a.body).seg.id !in O.Run(ps)
    ensures var t, r, s := O.Run(ps), N.Handle(O.Run(ps), a), PacketAt(a.packet, a.iss, a.body).seg;
            && r.table == t[s.id := O.Waiting(s, a.iss)]
            && Carries(a.packet, r.written, a.iss, (s.seqNum + 1) % 0x1_0000_0000, 0x12, 8192, [])
    ensures N.Faults(O.Run(ps), a) <==> !a.memory
  {
    var p := PacketAt(a.packet, a.iss, a.body);
    EveryPacket(O.Run(ps), a);
    PacketIs(a);
    SynStep(ps, p);
    SynReply(a.packet, O.Step(O.Run(ps), p).answer, p, N.Handle(O.Run(ps), a).written);
  }

  lemma SynStep(ps: seq<O.Packet>, p: O.Packet)
    requires p.seg.id !in O.Run(ps) && p.seg.flags.syn && !p.seg.flags.ack && !p.seg.flags.rst
    ensures O.Step(O.Run(ps), p)
         == O.Outcome(O.Run(ps)[p.seg.id := O.Waiting(p.seg, p.iss)],
                      O.Sent(p.iss, (p.seg.seqNum + 1) % 0x1_0000_0000, 0x12, 8192, []))
    ensures O.Opens(O.Run(ps), p)
  {
    O.OnUnknown(ps, p);
  }

  lemma SynReply(q: seq<byte>, answer: O.Answer, p: O.Packet, written: seq<byte>)
    requires HasHeaders(q) && Answers(q, answer, written)
    requires answer == O.Sent(p.iss, (p.seg.seqNum + 1) % 0x1_0000_0000, 0x12, 8192, [])
    ensures Carries(q, written, p.iss, (p.seg.seqNum + 1) % 0x1_0000_0000, 0x12, 8192, [])
  {
  }

  /** The inputs of the machine in a run of the older server are the TCP packets, in order. */
  lemma InputsAre(arrivals: seq<N.Arrival>, a: N.Arrival)
    requires N.AllFit(arrivals + [a])
    ensures N.AllFit(arrivals) && N.Fits(a) && (IsTcp(a.packet) ==> HasHeaders(a.packet))
    ensures N.Inputs(arrivals + [a])
         == N.Inputs(arrivals) + if IsTcp(a.packet) then [PacketAt(a.packet, a.iss, a.body)] else []
  {
    assert a in arrivals + [a];
    assert forall b :: b in arrivals ==> b in arrivals + [a];
    KindIff(a);
    if IsTcp(a.packet) {
      PacketIs(a);
    }
    assert (arrivals + [a])[..|arrivals|] == arrivals;
  }
}
