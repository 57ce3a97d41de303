/** What the refactored stack does with packets, said of their bytes alone. */
module OnTheWire {
  import opened Words
  import opened InternetChecksum
  import opened Ipv4
  import opened Segments
  import opened SynAckSegment
  import opened RstSegment
  import opened RstChecksum
  import Icmp
  import V = TcbValues
  import M = ConnMachine
  import N = Network

  // ------------------------------------------------------------------ fields and checksums

  /** The bytes at `k` and after, as one number. */
  function Big16(p: seq<byte>, k: nat): u16
    requires k + 2 <= |p|
  {
    p[k] as int * 256 + p[k + 1]
  }

  function Big32(p: seq<byte>, k: nat): u32
    requires k + 4 <= |p|
  {
    ((p[k] as int * 256 + p[k + 1]) * 256 + p[k + 2]) * 256 + p[k + 3]
  }

  /** The sum of the 16-bit words, an odd last byte padded by zero. */
  function WordSum(s: seq<byte>): nat {
    if |s| == 0 then 0
    else if |s| == 1 then s[0] as int * 256
    else s[0] as int * 256 + s[1] + WordSum(s[2..])
  }

  /** The one's complement sum over `s`, its checksum included, is all ones (section 1 of RFC 1071). */
  predicate Right(s: seq<byte>) {
    WordSum(s) > 0 && WordSum(s) % 0xFFFF == 0
  }

  lemma {:induction false} WordSumIsBeSum(s: seq<byte>)
    ensures WordSum(s) == BeSum(s)
  {
    if |s| >= 2 {
      WordSumIsBeSum(s[2..]);
    }
  }

  lemma RightIff(s: seq<byte>)
    ensures Sum16(s) == 0 <==> Right(s)
  {
    WordSumIsBeSum(s);
    ZeroSum(s);
    SameMultiples(s);
    var q := LeSumIsSwapped(s);
  }

  lemma BigIs(p: seq<byte>, k: nat)
    ensures k + 2 <= |p| ==> U16(p, k) == Big16(p, k)
    ensures k + 4 <= |p| ==> U32(p, k) == Big32(p, k)
  {
  }

  /** The IP header's length in bytes. */
  function HeaderEnd(p: seq<byte>): nat
    requires |p| >= 20
  {
    p[0] as int % 16 * 4
  }

  /** An IPv4 packet whose header fits and sums up. */
  predicate IpRight(p: seq<byte>) {
    |p| >= 20 && p[0] / 16 == 4 && p[0] % 16 >= 5 && HeaderEnd(p) <= |p| && Right(p[..HeaderEnd(p)])
  }

  lemma IpRightIff(p: seq<byte>)
    ensures IpValid(p) <==> IpRight(p)
  {
    if |p| >= 20 && p[0] % 16 * 4 <= |p| {
      RightIff(p[..Ihl(p[0])]);
    }
  }

  /** Where the TCP header ends, after an IP header that ends at `o`. */
  function TcpEnd(p: seq<byte>, o: nat): nat
    requires o + 20 <= |p|
  {
    o + p[o + 12] as int / 16 * 4
  }

  /** A packet with protocol 6 and room for both headers. */
  predicate IsTcp(p: seq<byte>) {
    && IpRight(p) && p[9] == 6
    && HeaderEnd(p) + 20 <= |p| < HeaderEnd(p) + 0x1_0000
    && HeaderEnd(p) + 20 <= TcpEnd(p, HeaderEnd(p)) <= |p|
  }

  /** What the stack takes for granted. */
  predicate Fits(p: seq<byte>) {
    IpRight(p) && p[9] == 6 ==> IsTcp(p)
  }

  lemma FitsIff(p: seq<byte>)
    ensures N.Fits(p) <==> Fits(p)
    ensures Fits(p) ==> (N.IsTcp(p) <==> IsTcp(p))
  {
    IpRightIff(p);
  }

  /** The segment sums up under its pseudo-header, and its checksum is not stored as 0xFFFF. */
  predicate TcpRight(p: seq<byte>)
    requires IsTcp(p)
  {
    var o := HeaderEnd(p);
    var n := |p| - o;
    && Right(p[12..20] + [0, 6, n / 256, n % 256] + p[o..])
    && !(p[o + 16] == 0xFF && p[o + 17] == 0xFF)
  }

  lemma TcpRightIff(p: seq<byte>)
    requires IsTcp(p)
    ensures TcpValid(p[..HeaderEnd(p)], p[HeaderEnd(p)..]) <==> TcpRight(p)
  {
    var o := HeaderEnd(p);
    var h, s := p[..o], p[o..];
    TcpCheckIsExact(h, s);
    assert Pseudo(h, |s|) + s == p[12..20] + [0, 6, |s| / 256, |s| % 256] + p[o..];
    RightIff(Pseudo(h, |s|) + s);
  }

  /** The header fields that the machine looks at. */
  function SegmentAt(p: seq<byte>): V.Segment
    requires IsTcp(p)
  {
    var o := HeaderEnd(p);
    var f := p[o + 13];
    V.Segment(V.ConnId(Big16(p, o), Big16(p, o + 2), Big32(p, 12), Big32(p, 16)),
              Big32(p, o + 4), Big32(p, o + 8),
              V.Flags(f % 2 == 1, f / 2 % 2 == 1, f / 4 % 2 == 1, f / 8 % 2 == 1, f / 16 % 2 == 1),
              Big16(p, o + 14))
  }

  lemma SegmentAtIs(p: seq<byte>)
    requires IsTcp(p)
    ensures Parse(p[..HeaderEnd(p)], p[HeaderEnd(p)..]) == SegmentAt(p)
  {
    var o := HeaderEnd(p);
    var h, s := p[..o], p[o..];
    assert U32(h, 12) == Big32(p, 12) && U32(h, 16) == Big32(p, 16);
    assert U16(s, 0) == Big16(p, o) && U16(s, 2) == Big16(p, o + 2) && U16(s, 14) == Big16(p, o + 14);
    assert U32(s, 4) == Big32(p, o + 4) && U32(s, 8) == Big32(p, o + 8);
    assert s[13] == p[o + 13];
  }

  /** Exactly the TCP packets with both checksums right reach the machine, with these fields. */
  lemma ReachesIff(a: N.Arrival, memory: bool)
    requires Fits(a.packet)
    ensures N.Fits(a.packet)
    ensures N.Reaches(a.packet) <==> IsTcp(a.packet) && TcpRight(a.packet)
    ensures N.Reaches(a.packet) ==> N.InputOf(a, memory) == M.Input(SegmentAt(a.packet), a.iss, memory)
  {
    FitsIff(a.packet);
    if IsTcp(a.packet) {
      TcpRightIff(a.packet);
      SegmentAtIs(a.packet);
    }
  }

  // ------------------------------------------------------------------ ICMP

  /** `q` goes back to where `p` came from. */
  predicate Returns(p: seq<byte>, q: seq<byte>) {
    |p| >= 20 && |q| >= 20 && q[12..16] == p[16..20] && q[16..20] == p[12..16]
  }

  /** `q` has the IP header bytes of `p` but for those numbered in `but` and the addresses. */
  predicate KeepsHeader(p: seq<byte>, q: seq<byte>, but: set<int>)
    requires |p| >= 20
  {
    |q| >= HeaderEnd(p) && |p| >= HeaderEnd(p)
    && forall i :: 0 <= i < HeaderEnd(p) && i !in but && !(12 <= i < 20) ==> q[i] == p[i]
  }

  /** A valid echo request: protocol 1, at least 8 bytes that sum up, type 8. */
  predicate AsksEcho(p: seq<byte>) {
    IpRight(p) && p[9] == 1 && |p| >= HeaderEnd(p) + 8 && Right(p[HeaderEnd(p)..]) && p[HeaderEnd(p)] == 8
  }

  /** `q` is the echo reply: type and code zero, both checksums right, all else as it was. */
  predicate EchoFor(p: seq<byte>, q: seq<byte>)
    requires AsksEcho(p)
  {
    var o := HeaderEnd(p);
    && |q| == |p| && Returns(p, q) && KeepsHeader(p, q, {10, 11})
    && q[o] == 0 && q[o + 1] == 0 && q[o + 4..] == p[o + 4..]
    && Right(q[..o]) && Right(q[o..])
  }

  /** `q` says that the protocol is unreachable and quotes the header and up to 8 bytes of data. */
  predicate UnreachableFor(p: seq<byte>, q: seq<byte>)
    requires IpRight(p)
  {
    var o := HeaderEnd(p);
    var quoted := if |p| < o + 8 then |p| else o + 8;
    && |q| == o + 8 + quoted && Big16(q, 2) == |q| && Returns(p, q) && KeepsHeader(p, q, {2, 3, 4, 5, 9, 10, 11})
    && q[4] == 0 && q[5] == 0 && q[9] == 1
    && q[o] == 3 && q[o + 1] == 2 && q[o + 4] == 0 && q[o + 5] == 0 && q[o + 6] == 0 && q[o + 7] == 0
    && q[o + 8..] == p[..quoted]
    && Right(q[..o]) && Right(q[o..])
  }

  lemma AsksEchoIff(p: seq<byte>)
    requires IpRight(p)
    ensures IpValid(p)
    ensures p[9] == 1 ==> (Icmp.IcmpAnswer(p).Send? <==> AsksEcho(p))
  {
    IpRightIff(p);
    RightIff(p[HeaderEnd(p)..]);
  }

  lemma EchoIs(p: seq<byte>)
    requires AsksEcho(p)
    ensures IpValid(p) && EchoFor(p, Icmp.EchoReply(p))
  {
    IpRightIff(p);
    var o, r := HeaderEnd(p), Icmp.EchoReply(p);
    Icmp.EchoReplyIsSound(p);
    IpRightIff(r);
    RightIff(r[o..]);
    assert r[12..16] == p[16..20] && r[16..20] == p[12..16];
  }

  lemma UnreachableIs(p: seq<byte>)
    requires IpRight(p)
    ensures IpValid(p) && UnreachableFor(p, Icmp.UnreachableReply(p))
  {
    IpRightIff(p);
    var o, r := HeaderEnd(p), Icmp.UnreachableReply(p);
    Icmp.UnreachableReplyIsSound(p);
    IpRightIff(r);
    RightIff(r[o..]);
    assert r[12..16] == p[16..20] && r[16..20] == p[12..16];
  }

  // ------------------------------------------------------------------ TCP

  /** What every TCP reply has in common: addresses and ports exchanged, the announced length that
      of the headers, window and the rest as given, options as they were. */
  predicate ReplyFor(p: seq<byte>, q: seq<byte>, window: u16)
    requires IsTcp(p)
  {
    var o, e := HeaderEnd(p), TcpEnd(p, HeaderEnd(p));
    && |q| == e && Big16(q, 2) == e && Returns(p, q)
    && q[o..o + 2] == p[o + 2..o + 4] && q[o + 2..o + 4] == p[o..o + 2]
    && q[o + 12] == p[o + 12] / 16 * 16 && Big16(q, o + 14) == window && q[o + 18] == 0 && q[o + 19] == 0
    && q[o + 20..] == p[o + 20..e]
  }

  /** `q` is a SYN-ACK with these numbers. Its IP checksum is right; its TCP checksum is so exactly if
      the data that came with the SYN, and their length, cancel. */
  predicate SynAckFor(p: seq<byte>, q: seq<byte>, seqNum: u32, ackNum: u32, window: u16)
    requires IsTcp(p)
  {
    var o, e := HeaderEnd(p), TcpEnd(p, HeaderEnd(p));
    && ReplyFor(p, q, window) && KeepsHeader(p, q, {2, 3, 10, 11})
    && Big32(q, o + 4) == seqNum && Big32(q, o + 8) == ackNum && q[o + 13] == 0x12
    && IsTcp(q) && (TcpRight(q) <==> (|p[e..]| + WordSum(p[e..])) % 0xFFFF == 0)
  }

  /** `q` is a reset, with both checksums those of `p`. The branch for an ACK leaves the acknowledgment
      number to chance, the other one the sequence number and the flags. */
  predicate ResetFor(p: seq<byte>, q: seq<byte>, junk: Unassigned)
    requires IsTcp(p)
  {
    var o, f := HeaderEnd(p), p[HeaderEnd(p) + 13];
    var occupied := Big16(p, 2) - TcpEnd(p, o) + f % 2 + f / 2 % 2;
    && ReplyFor(p, q, 0) && KeepsHeader(p, q, {2, 3}) && q[o + 16..o + 18] == p[o + 16..o + 18]
    && if f / 16 % 2 == 1
       then q[o + 4] == 0 && q[o + 5] == 0 && q[o + 6..o + 8] == p[o + 8..o + 10] && Big32(q, o + 8) == junk.ackNum && q[o + 13] == 0x04
       else Big32(q, o + 4) == junk.seqNum && Big32(q, o + 8) == (Big32(p, o + 4) + occupied) % 0x1_0000_0000 && q[o + 13] == junk.flags
  }

  /** `q` is a packet with IP header `g` and a TCP header `t` that is the rewritten one but for its
      checksum. */
  predicate Rewritten(p: seq<byte>, q: seq<byte>, g: seq<byte>, t: seq<byte>, n: Unassigned, window: u16)
    requires IsTcp(p)
  {
    var o, e := HeaderEnd(p), TcpEnd(p, HeaderEnd(p));
    && q == g + t && |g| == o && |t| == e - o && U16(g, 2) == e
    && (forall i :: 12 <= i < 16 ==> g[i] == p[i + 4] && g[i + 4] == p[i])
    && forall i :: 0 <= i < |t| && i != 16 && i != 17 ==>
         t[i] == ReplyHeader(p[o..], n.seqNum, n.ackNum, n.flags, window)[i]
  }

  /** The parts of a rewritten header, in bytes. */
  lemma ReplyForParts(p: seq<byte>, q: seq<byte>, g: seq<byte>, t: seq<byte>, n: Unassigned, window: u16)
    requires IsTcp(p) && Rewritten(p, q, g, t, n, window)
    ensures ReplyFor(p, q, window)
    ensures var o := HeaderEnd(p); Big32(q, o + 4) == n.seqNum && Big32(q, o + 8) == n.ackNum && q[o + 13] == n.flags
  {
    var o, s := HeaderEnd(p), p[HeaderEnd(p)..];
    var r := ReplyHeader(s, n.seqNum, n.ackNum, n.flags, window);
    ReplyHeaderFields(s, n.seqNum, n.ackNum, n.flags, window);
    ReplyHeaderRest(s, n.seqNum, n.ackNum, n.flags, window);
    ReplyHeaderPorts(s, n.seqNum, n.ackNum, n.flags, window);
    assert q[12..16] == p[16..20] && q[16..20] == p[12..16];
    assert Big32(q, o + 4) == U32(r, 4) && Big32(q, o + 8) == U32(r, 8) && Big16(q, o + 14) == U16(r, 14);
    assert q[o..o + 2] == p[o + 2..o + 4] && q[o + 2..o + 4] == p[o..o + 2];
    OptionsKept(p, q, g, t, n, window);
  }

  lemma OptionsKept(p: seq<byte>, q: seq<byte>, g: seq<byte>, t: seq<byte>, n: Unassigned, window: u16)
    requires IsTcp(p) && Rewritten(p, q, g, t, n, window)
    ensures q[HeaderEnd(p) + 20..] == p[HeaderEnd(p) + 20..TcpEnd(p, HeaderEnd(p))]
  {
    var o, s := HeaderEnd(p), p[HeaderEnd(p)..];
    var r := ReplyHeader(s, n.seqNum, n.ackNum, n.flags, window);
    ReplyHeaderTail(s, n.seqNum, n.ackNum, n.flags, window);
    assert t[20..] == r[20..|t|] == s[20..|t|];
    assert q[o + 20..] == t[20..];
  }

  lemma ReplyHeaderTail(s: seq<byte>, seqNum: u32, ackNum: u32, flags: byte, window: u16)
    requires |s| >= 20
    ensures var r := ReplyHeader(s, seqNum, ackNum, flags, window);
            forall i :: 20 <= i < |s| ==> r[i] == s[i]
  {
  }

  lemma ReplyHeaderPorts(s: seq<byte>, seqNum: u32, ackNum: u32, flags: byte, window: u16)
    requires |s| >= 20
    ensures var r := ReplyHeader(s, seqNum, ackNum, flags, window);
            r[0] == s[2] && r[1] == s[3] && r[2] == s[0] && r[3] == s[1]
  {
  }

  /** A SYN-ACK is one. */
  lemma SynAckIs(p: seq<byte>, seqNum: u32, ackNum: u32, window: u16)
    requires IsTcp(p)
    ensures var h, s := p[..HeaderEnd(p)], p[HeaderEnd(p)..];
            SynAckFor(p, SynAckIp(h, s) + SynAckTcp(h, s, seqNum, ackNum, window), seqNum, ackNum, window)
  {
    var h, s := p[..HeaderEnd(p)], p[HeaderEnd(p)..];
    SynAckPasses(p, seqNum, ackNum, window);
    SynAckShape(p, seqNum, ackNum, window);
    JoinedTests(p, SynAckIp(h, s), SynAckTcp(h, s, seqNum, ackNum, window));
  }

  lemma SynAckPasses(p: seq<byte>, seqNum: u32, ackNum: u32, window: u16)
    requires IsTcp(p)
    ensures var h, s, e := p[..HeaderEnd(p)], p[HeaderEnd(p)..], TcpEnd(p, HeaderEnd(p));
            var g, t := SynAckIp(h, s), SynAckTcp(h, s, seqNum, ackNum, window);
            IpValid(g + t) && (TcpValid(g, t) <==> (|p[e..]| + WordSum(p[e..])) % 0xFFFF == 0)
  {
    IpRightIff(p);
    SynAckValidIff(p[..HeaderEnd(p)], p[HeaderEnd(p)..], seqNum, ackNum, window);
    DataCancels(p);
  }

  lemma SynAckShape(p: seq<byte>, seqNum: u32, ackNum: u32, window: u16)
    requires IsTcp(p)
    ensures var o := HeaderEnd(p);
            var g, t := SynAckIp(p[..o], p[o..]), SynAckTcp(p[..o], p[o..], seqNum, ackNum, window);
            var q := g + t;
            && ReplyFor(p, q, window) && KeepsHeader(p, q, {2, 3, 10, 11})
            && Big32(q, o + 4) == seqNum && Big32(q, o + 8) == ackNum && q[o + 13] == 0x12
            && g[0] == p[0] && g[9] == p[9] && t[12] as int / 16 == p[o + 12] as int / 16
  {
    var o := HeaderEnd(p);
    var g, t := SynAckIp(p[..o], p[o..]), SynAckTcp(p[..o], p[o..], seqNum, ackNum, window);
    SynAckBytes(p[..o], p[o..], seqNum, ackNum, window);
    ReplyForParts(p, g + t, g, t, Unassigned(seqNum, ackNum, SYN + ACK), window);
  }

  /** The data that came with `p` cancel, said of the packet. */
  lemma DataCancels(p: seq<byte>)
    requires IsTcp(p)
    ensures var e, s := TcpEnd(p, HeaderEnd(p)), p[HeaderEnd(p)..];
            Cancels(s[TcpHeaderLength(s)..]) <==> (|p[e..]| + WordSum(p[e..])) % 0xFFFF == 0
  {
    var s := p[HeaderEnd(p)..];
    WordSumIsBeSum(s[TcpHeaderLength(s)..]);
    assert p[TcpEnd(p, HeaderEnd(p))..] == s[TcpHeaderLength(s)..];
  }

  /** What the tests say of a packet put together from its headers. */
  lemma JoinedTests(p: seq<byte>, g: seq<byte>, t: seq<byte>)
    requires IsTcp(p) && |g| == HeaderEnd(p) && |t| == TcpEnd(p, HeaderEnd(p)) - HeaderEnd(p) && IpValid(g + t)
    requires g[0] == p[0] && g[9] == p[9] && t[12] as int / 16 == p[HeaderEnd(p) + 12] as int / 16
    ensures IsTcp(g + t) && (TcpRight(g + t) <==> TcpValid(g, t))
  {
    var q := g + t;
    IpRightIff(q);
    assert q[..HeaderEnd(p)] == g && q[HeaderEnd(p)..] == t;
    TcpRightIff(q);
  }

  lemma SynAckBytes(h: seq<byte>, s: seq<byte>, seqNum: u32, ackNum: u32, window: u16)
    requires HeadersFit(h, s)
    ensures var g, t := SynAckIp(h, s), SynAckTcp(h, s, seqNum, ackNum, window);
            && U16(g, 2) == |h| + TcpHeaderLength(s)
            && (forall i :: 12 <= i < 16 ==> g[i] == h[i + 4] && g[i + 4] == h[i])
            && (forall i :: 0 <= i < |h| && i !in {2, 3, 10, 11} && !(12 <= i < 20) ==> g[i] == h[i])
            && (forall i :: 0 <= i < |t| && i != 16 && i != 17 ==> t[i] == ReplyHeader(s, seqNum, ackNum, SYN + ACK, window)[i])
            && t[12] as int / 16 == s[12] as int / 16
  {
    ReplyHeaderRest(s, seqNum, ackNum, SYN + ACK, window);
  }

  /** The numbers and flags of the reset for `p`. */
  function NumbersAt(p: seq<byte>, junk: Unassigned): Unassigned
    requires IsTcp(p)
  {
    ResetNumbers(SegmentAt(p), Big16(p, 2) - TcpEnd(p, HeaderEnd(p)), junk)
  }

  lemma PacketParts(p: seq<byte>, junk: Unassigned)
    requires IsTcp(p)
    ensures var h, s := p[..HeaderEnd(p)], p[HeaderEnd(p)..];
            ResetPacket(h, s, junk) == ResetIp(h, s) + ResetTcp(s, NumbersAt(p, junk))
  {
    SegmentAtIs(p);
    AnnouncedIs(p);
  }

  /** And so is a reset. */
  lemma ResetIs(p: seq<byte>, junk: Unassigned)
    requires IsTcp(p)
    ensures ResetFor(p, ResetPacket(p[..HeaderEnd(p)], p[HeaderEnd(p)..], junk), junk)
  {
    PacketParts(p, junk);
    ResetFrom(p, NumbersAt(p, junk));
    ResetNumbersAre(p, ResetPacket(p[..HeaderEnd(p)], p[HeaderEnd(p)..], junk), junk);
  }

  lemma AnnouncedIs(p: seq<byte>)
    requires IsTcp(p)
    ensures Announced(p[..HeaderEnd(p)], p[HeaderEnd(p)..]) == Big16(p, 2) - TcpEnd(p, HeaderEnd(p))
  {
  }

  /** A reset with any numbers. */
  lemma ResetFrom(p: seq<byte>, n: Unassigned)
    requires IsTcp(p)
    ensures var o := HeaderEnd(p);
            var q := ResetIp(p[..o], p[o..]) + ResetTcp(p[o..], n);
            && ReplyFor(p, q, 0) && KeepsHeader(p, q, {2, 3}) && q[o + 16..o + 18] == p[o + 16..o + 18]
            && Big32(q, o + 4) == n.seqNum && Big32(q, o + 8) == n.ackNum && q[o + 13] == n.flags
  {
    var g, t := ResetIp(p[..HeaderEnd(p)], p[HeaderEnd(p)..]), ResetTcp(p[HeaderEnd(p)..], n);
    ResetKeeps(p, g, t, n);
    ReplyForParts(p, g + t, g, t, n, 0);
  }

  lemma ResetKeeps(p: seq<byte>, g: seq<byte>, t: seq<byte>, n: Unassigned)
    requires IsTcp(p) && g == ResetIp(p[..HeaderEnd(p)], p[HeaderEnd(p)..]) && t == ResetTcp(p[HeaderEnd(p)..], n)
    ensures var o, q := HeaderEnd(p), g + t;
            Rewritten(p, q, g, t, n, 0) && KeepsHeader(p, q, {2, 3}) && q[o + 16..o + 18] == p[o + 16..o + 18]
  {
    var o, q, s := HeaderEnd(p), g + t, p[HeaderEnd(p)..];
    ResetIpFields(p[..o], s);
    ReplyHeaderRest(s, n.seqNum, n.ackNum, n.flags, 0);
    assert q[o + 16] == t[16] == s[16] && q[o + 17] == t[17] == s[17];
    assert q[o + 16..o + 18] == [q[o + 16], q[o + 17]] && p[o + 16..o + 18] == [p[o + 16], p[o + 17]];
  }

  lemma ResetIpFields(h: seq<byte>, s: seq<byte>)
    requires HeadersFit(h, s)
    ensures var g := ResetIp(h, s);
            && U16(g, 2) == |h| + TcpHeaderLength(s)
            && (forall i :: 12 <= i < 16 ==> g[i] == h[i + 4] && g[i + 4] == h[i])
            && (forall i :: 0 <= i < |h| && i !in {2, 3} && !(12 <= i < 20) ==> g[i] == h[i])
  {
    SwapIsExchange(h);
    PutKeeps(SwapAddresses(h), |h| + TcpHeaderLength(s));
  }

  lemma NumbersForAck(p: seq<byte>, junk: Unassigned)
    requires IsTcp(p) && p[HeaderEnd(p) + 13] / 16 % 2 == 1
    ensures NumbersAt(p, junk) == Unassigned(Big32(p, HeaderEnd(p) + 8) / 0x1_0000, junk.ackNum, 0x04)
  {
    UpperHalfOnly(SegmentAt(p), Big16(p, 2) - TcpEnd(p, HeaderEnd(p)), junk);
  }

  lemma NumbersForOther(p: seq<byte>, junk: Unassigned)
    requires IsTcp(p) && p[HeaderEnd(p) + 13] / 16 % 2 == 0
    ensures var o, f := HeaderEnd(p), p[HeaderEnd(p) + 13];
            var occupied := Big16(p, 2) - TcpEnd(p, o) + f % 2 + f / 2 % 2;
            NumbersAt(p, junk) == Unassigned(junk.seqNum, (Big32(p, o + 4) + occupied) % 0x1_0000_0000, junk.flags)
  {
  }

  /** The numbers that a reset carries. */
  lemma ResetNumbersAre(p: seq<byte>, q: seq<byte>, junk: Unassigned)
    requires IsTcp(p) && |q| >= HeaderEnd(p) + 20
    requires var o, n := HeaderEnd(p), NumbersAt(p, junk);
             Big32(q, o + 4) == n.seqNum && Big32(q, o + 8) == n.ackNum && q[o + 13] == n.flags
    ensures var o, f := HeaderEnd(p), p[HeaderEnd(p) + 13];
            var occupied := Big16(p, 2) - TcpEnd(p, o) + f % 2 + f / 2 % 2;
            if f / 16 % 2 == 1
            then q[o + 4] == 0 && q[o + 5] == 0 && q[o + 6..o + 8] == p[o + 8..o + 10] && Big32(q, o + 8) == junk.ackNum && q[o + 13] == 0x04
            else Big32(q, o + 4) == junk.seqNum && Big32(q, o + 8) == (Big32(p, o + 4) + occupied) % 0x1_0000_0000 && q[o + 13] == junk.flags
  {
    var o := HeaderEnd(p);
    if p[o + 13] / 16 % 2 == 1 {
      NumbersForAck(p, junk);
      UpperHalf(p, q, o + 8, o + 4);
    } else {
      NumbersForOther(p, junk);
    }
  }

  lemma UpperHalf(p: seq<byte>, q: seq<byte>, i: nat, k: nat)
    requires i + 4 <= |p| && k + 4 <= |q| && Big32(q, k) == Big32(p, i) / 0x1_0000
    ensures q[k] == 0 && q[k + 1] == 0 && q[k + 2..k + 4] == p[i..i + 2]
  {
    UpperBytes(q[k], q[k + 1], q[k + 2], q[k + 3], p[i], p[i + 1], p[i + 2], p[i + 3]);
  }

  lemma UpperBytes(a: byte, b: byte, c: byte, d: byte, w: byte, x: byte, y: byte, z: byte)
    requires ((a as int * 256 + b) * 256 + c) * 256 + d == (((w as int * 256 + x) * 256 + y) * 256 + z) / 0x1_0000
    ensures a == 0 && b == 0 && c == w && d == x
  {
    assert (((w as int * 256 + x) * 256 + y) * 256 + z) / 0x1_0000 == w as int * 256 + x;
  }

  // ------------------------------------------------------------------ every packet

  /** What the machine's reply to TCP packet `p` looks like. */
  predicate Answers(p: seq<byte>, reply: M.Reply, junk: Unassigned, q: seq<byte>)
    requires IsTcp(p)
  {
    match reply
    case NoReply => q == []
    case SynAck(seqNum, ackNum, window) => SynAckFor(p, q, seqNum, ackNum, window % 0x1_0000)
    case Reset => ResetFor(p, q, junk)
  }

  /** What `net_demux` makes of any packet, from its bytes. */
  lemma EveryPacket(t: M.Table, p: seq<byte>, iss: u32, memory: bool, junk: Unassigned)
    requires Fits(p)
    ensures N.Fits(p)
    ensures var r := N.Demux(t, p, iss, memory, junk);
            && (!IpRight(p) ==> r == N.Result(t, []))
            && (IpRight(p) && p[9] == 1 ==> r.table == t && if AsksEcho(p) then EchoFor(p, r.sent) else r.sent == [])
            && (IpRight(p) && p[9] != 1 && p[9] != 6 ==> r.table == t && UnreachableFor(p, r.sent))
            && (IpRight(p) && p[9] == 6 && !TcpRight(p) ==> r == N.Result(t, []))
            && (IpRight(p) && p[9] == 6 && TcpRight(p) ==>
                  var o := M.Step(t, M.Input(SegmentAt(p), iss, memory));
                  r.table == o.table && Answers(p, o.reply, junk, r.sent))
  {
    FitsIff(p);
    IpRightIff(p);
    if IsTcp(p) {
      TcpAnswered(t, p, iss, memory, junk);
    } else if IpRight(p) && p[9] == 1 {
      AsksEchoIff(p);
      if AsksEcho(p) {
        EchoIs(p);
      }
    } else if IpRight(p) {
      UnreachableIs(p);
    }
  }

  lemma TcpAnswered(t: M.Table, p: seq<byte>, iss: u32, memory: bool, junk: Unassigned)
    requires IsTcp(p) && N.Fits(p) && N.IsTcp(p)
    ensures var r := N.Demux(t, p, iss, memory, junk);
            var o := M.Step(t, M.Input(SegmentAt(p), iss, memory));
            if TcpRight(p) then r.table == o.table && Answers(p, o.reply, junk, r.sent) else r == N.Result(t, [])
  {
    TcpRightIff(p);
    SegmentAtIs(p);
    var reply := M.Step(t, M.Input(SegmentAt(p), iss, memory)).reply;
    match reply
    case NoReply =>
    case SynAck(seqNum, ackNum, window) => SynAckIs(p, seqNum, ackNum, window % 0x1_0000);
    case Reset => ResetIs(p, junk);
  }

  /** After any packets, a SYN without ACK and RST to port 8080 on an unknown connection, with memory,
      is answered with iss, its number plus one, and window 8192, and leaves just that entry. */
  lemma SynOnTheWire(ins: seq<M.Input>, p: seq<byte>, iss: u32, junk: Unassigned)
    requires IsTcp(p) && TcpRight(p) && SegmentAt(p).id !in M.Run(ins)
    requires var o := HeaderEnd(p);
             && p[o + 2] == 0x1F && p[o + 3] == 0x90
             && p[o + 13] / 2 % 2 == 1 && p[o + 13] / 4 % 2 == 0 && p[o + 13] / 16 % 2 == 0
    ensures N.Fits(p)
    ensures var r := N.Demux(M.Run(ins), p, iss, true, junk);
            && SynAckFor(p, r.sent, iss, (Big32(p, HeaderEnd(p) + 4) + 1) % 0x1_0000_0000, 0x2000)
            && r.table == M.Run(ins)[SegmentAt(p).id := M.Waiting(SegmentAt(p), iss)]
  {
    FitsIff(p);
    TcpAnswered(M.Run(ins), p, iss, true, junk);
    SynFlags(p);
    SynStep(ins, SegmentAt(p), iss);
    SynReply(p, iss, junk, N.Demux(M.Run(ins), p, iss, true, junk).sent);
  }

  lemma SynReply(p: seq<byte>, iss: u32, junk: Unassigned, q: seq<byte>)
    requires IsTcp(p) && Answers(p, M.SynAck(iss, (SegmentAt(p).seqNum + 1) % 0x1_0000_0000, 8192), junk, q)
    ensures SynAckFor(p, q, iss, (Big32(p, HeaderEnd(p) + 4) + 1) % 0x1_0000_0000, 0x2000)
  {
  }

  lemma SynFlags(p: seq<byte>)
    requires IsTcp(p)
    requires var o := HeaderEnd(p);
             && p[o + 2] == 0x1F && p[o + 3] == 0x90
             && p[o + 13] / 2 % 2 == 1 && p[o + 13] / 4 % 2 == 0 && p[o + 13] / 16 % 2 == 0
    ensures var s := SegmentAt(p); s.id.dstPort == 8080 && s.flags.syn && !s.flags.ack && !s.flags.rst
  {
  }

  lemma SynStep(ins: seq<M.Input>, s: V.Segment, iss: u32)
    requires s.id !in M.Run(ins) && s.id.dstPort == 8080 && s.flags.syn && !s.flags.ack && !s.flags.rst
    ensures M.Step(M.Run(ins), M.Input(s, iss, true))
         == M.Outcome(M.Run(ins)[s.id := M.Waiting(s, iss)], M.SynAck(iss, (s.seqNum + 1) % 0x1_0000_0000, 8192))
  {
    M.OnUnopened(ins, M.Input(s, iss, true));
    M.RunAppend(ins, M.Input(s, iss, true));
  }

  /** The inputs of the machine in a run of the server are the segments of the TCP packets with both
      checksums right, in order. */
  lemma InputsAre(arrivals: seq<N.Arrival>, mems: seq<bool>, a: N.Arrival, memory: bool)
    requires |mems| == |arrivals| && N.AllFit(arrivals + [a])
    ensures N.AllFit(arrivals) && Fits(a.packet)
    ensures N.Inputs(arrivals + [a], mems + [memory])
         == N.Inputs(arrivals, mems)
            + if IsTcp(a.packet) && TcpRight(a.packet) then [M.Input(SegmentAt(a.packet), a.iss, memory)] else []
  {
    assert a in arrivals + [a];
    FitsIff(a.packet);
    ReachesIff(a, memory);
    N.InputsAppend(arrivals, mems, a, memory);
  }
}
