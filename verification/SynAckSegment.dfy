/** The SYN-ACK of the refactored stack. Its checksum is computed over the received length,
    while the reply ends after the header. */
module SynAckSegment {
  import opened Words
  import opened InternetChecksum
  import opened Ipv4
  import V = TcbValues
  import opened Segments

  /** A received packet whose headers fit, as the code takes for granted. */
  predicate HeadersFit(h: seq<byte>, s: seq<byte>) {
    20 <= |h| <= 60 && 20 <= |s| < 0x1_0000 && 20 <= TcpHeaderLength(s) <= |s|
  }

  /** The IP header of the reply to segment `s` under `h`. */
  function SynAckIp(h: seq<byte>, s: seq<byte>): (r: seq<byte>)
    requires HeadersFit(h, s)
    ensures |r| == |h| && r[9] == h[9]
  {
    ReplyIp(h, |h| + TcpHeaderLength(s))
  }

  /** The TCP header of the reply, the checksum being that of everything received. */
  function SynAckTcp(h: seq<byte>, s: seq<byte>, seqNum: u32, ackNum: u32, window: u16): (r: seq<byte>)
    requires HeadersFit(h, s)
    ensures |r| == TcpHeaderLength(s)
  {
    TcpSummed(SynAckIp(h, s), ReplyHeader(s, seqNum, ackNum, SYN + ACK, window))[..TcpHeaderLength(s)]
  }

  /** `tcp_syn_ack`. */
  method TcpSynAck(buf: array<byte>, len: nat, offset: nat, seqNum: u32, ackNum: u32, window: u16) returns (n: nat)
    requires buf.Length == MTU_SIZE && len <= MTU_SIZE && 20 <= offset <= len && Ihl(buf[0]) == offset
    requires HeadersFit(buf[..offset], buf[offset..len])
    modifies buf
    ensures n <= len
    ensures buf[..n] == SynAckIp(old(buf[..offset]), old(buf[offset..len]))
                      + SynAckTcp(old(buf[..offset]), old(buf[offset..len]), seqNum, ackNum, window)
  {
    ghost var h, s := buf[..offset], buf[offset..len];
    var headerLength := buf[offset + 12] / 0x10 * 4;
    n := offset + headerLength;
    assert headerLength == TcpHeaderLength(s) && SynAckIp(h, s) == ReplyIp(h, n);
    assert SynAckTcp(h, s, seqNum, ackNum, window)
        == TcpSummed(ReplyIp(h, n), ReplyHeader(s, seqNum, ackNum, SYN + ACK, window))[..n - offset];
    RewriteReceived(buf, len, offset, seqNum, ackNum, SYN + ACK, window);
    SealCut(buf, offset, len, n);
  }

  /** The header rewritten, seen on the received part of the buffer. */
  method RewriteReceived(buf: array<byte>, len: nat, offset: nat, seqNum: u32, ackNum: u32, flags: byte, window: u16)
    requires offset + 20 <= len <= buf.Length
    modifies buf
    ensures buf[..offset] == old(buf[..offset])
    ensures buf[offset..len] == ReplyHeader(old(buf[offset..len]), seqNum, ackNum, flags, window)
  {
    ghost var s := buf[offset..];
    HeaderPrefix(s, len - offset, seqNum, ackNum, flags, window);
    assert buf[offset..len] == s[..len - offset];
    WriteReplyHeader(buf, offset, seqNum, ackNum, flags, window);
    assert buf[offset..len] == buf[offset..][..len - offset];
  }

  // ------------------------------------------------------------------ when its checksum is right

  lemma {:induction false} PseudoSum(h: seq<byte>, n: u16)
    requires |h| >= 20
    ensures LeSum(Pseudo(h, n)) == LeSum(h[12..20] + [0, h[9]]) + Swap16(n)
  {
    var p := Pseudo(h, n);
    assert p == (h[12..20] + [0, h[9]]) + [n / 0x100, n % 0x100];
    LeSumConcat(h[12..20] + [0, h[9]], [n / 0x100, n % 0x100]);
  }

  /** The sum over pseudo-header, header and data, taken apart. */
  lemma SumInParts(h: seq<byte>, t: seq<byte>, d: seq<byte>)
    requires |h| >= 20 && |t| % 2 == 0 && |t| + |d| < 0x1_0000
    ensures LeSum(Pseudo(h, |t| + |d|) + (t + d))
         == LeSum(h[12..20] + [0, h[9]]) + Swap16(|t| + |d|) + LeSum(t) + LeSum(d)
  {
    LeSumConcat(Pseudo(h, |t| + |d|), t + d);
    LeSumConcat(t, d);
    PseudoSum(h, |t| + |d|);
  }

  /** The data that came with the SYN, and its length, add up to nothing modulo 0xFFFF. */
  predicate Cancels(d: seq<byte>) {
    (|d| + BeSum(d)) % 0xFFFF == 0
  }

  /** No data cancels; the single letter A does not. */
  lemma CancelsOrNot()
    ensures Cancels([]) && !Cancels([0x41])
  {
    assert BeSum([0x41]) == Word(0x41, 0);
  }

  /** Summing a longer segment under a longer pseudo-header gives the checksum of its prefix
      exactly when the difference in length and the rest cancel modulo 0xFFFF. */
  lemma PrefixSum(h: seq<byte>, t: seq<byte>, d: seq<byte>)
    requires |h| >= 20 && h[9] == PROTO_TCP && |t| % 2 == 0 && |t| + |d| < 0x1_0000
    ensures Sum16(Pseudo(h, |t| + |d|) + (t + d)) == Sum16(Pseudo(h, |t|) + t) <==> Cancels(d)
  {
    var a, b := LeSum(Pseudo(h, |t| + |d|) + (t + d)), LeSum(Pseudo(h, |t|) + t);
    SumInParts(h, t, d);
    SumInParts(h, t, []);
    assert t + [] == t;
    PseudoIsPositive(h, |t| + |d|, t + d);
    PseudoIsPositive(h, |t|, t);
    SwapCancels(|t|, d);
    SameFold(a, b);
  }

  lemma SameFold(a: nat, b: nat)
    requires a > 0 && b > 0
    ensures Fold(a) == Fold(b) <==> (a - b) % 0xFFFF == 0
  {
    FoldIsResidue(a);
    FoldIsResidue(b);
    ResidueEq(a, b);
  }

  lemma SwapCancels(n: nat, d: seq<byte>)
    requires n + |d| < 0x1_0000
    ensures (Swap16(n + |d|) - Swap16(n) + LeSum(d)) % 0xFFFF == 0 <==> Cancels(d)
  {
    var q := LeSumIsSwapped(d);
    var x: int, y: int := n + |d|, n;
    var z: int := |d| + BeSum(d);
    Swap16IsTimes256(n + |d|);
    Swap16IsTimes256(n);
    var delta := Swap16(n + |d|) - Swap16(n) + LeSum(d);
    MultipleOf(z, delta, x / 0x100 - y / 0x100 + q);
  }

  lemma Swap16IsTimes256(x: u16)
    ensures var v: int := x; 0x100 * v == Swap16(x) + 0xFFFF * (v / 0x100)
  {
  }

  /** 256 is invertible modulo 0xFFFF. */
  lemma MultipleOf(z: int, delta: int, k: int)
    requires 0x100 * z == delta + 0xFFFF * k
    ensures delta % 0xFFFF == 0 <==> z % 0xFFFF == 0
  {
    if z % 0xFFFF == 0 {
      IsMultiple(delta, 0x100 * (z / 0xFFFF) - k);
    }
    if delta % 0xFFFF == 0 {
      IsMultiple(z, 0x100 * (delta / 0xFFFF + k) - z);
    }
  }

  lemma IsMultiple(a: int, m: int)
    requires a == 0xFFFF * m
    ensures a % 0xFFFF == 0
  {
  }

  /** Checksumming all of `r` but keeping only its first `n` bytes. */
  lemma CutChecksumIff(h: seq<byte>, r: seq<byte>, n: nat)
    requires |h| >= 20 && 20 <= n <= |r| < 0x1_0000 && n % 2 == 0 && h[9] == PROTO_TCP
    ensures TcpValid(h, TcpSummed(h, r)[..n]) <==> Cancels(r[n..])
  {
    var t := TcpSummed(h, r)[..n];
    var z, d := PutNative(r[..n], 16, 0), r[n..];
    assert PutNative(r, 16, 0) == z + d;
    assert PutNative(t, 16, 0) == z;
    assert Native(t, 16) == TcpSum(h, r);
    PrefixSum(h, z, d);
  }

  lemma ReplyKeepsData(s: seq<byte>, n: nat, seqNum: u32, ackNum: u32, flags: byte, window: u16)
    requires 20 <= n <= |s|
    ensures ReplyHeader(s, seqNum, ackNum, flags, window)[n..] == s[n..]
  {
  }

  /** The SYN-ACK passes the stack's own tests at the length in its header: the IP test always,
      the TCP test exactly when the data that came with the SYN and its length cancel. */
  lemma SynAckValidIff(h: seq<byte>, s: seq<byte>, seqNum: u32, ackNum: u32, window: u16)
    requires HeadersFit(h, s) && h[9] == PROTO_TCP && Ihl(h[0]) == |h| && h[0] / 0x10 == 4
    ensures var h', t := SynAckIp(h, s), SynAckTcp(h, s, seqNum, ackNum, window);
            && IpValid(h' + t)
            && (TcpValid(h', t) <==> Cancels(s[TcpHeaderLength(s)..]))
            && Parse(h', t) == V.Segment(V.Reverse(Parse(h, s).id), seqNum, ackNum, FlagsOf(SYN + ACK), window)
  {
    SynAckIpValid(h, s, SynAckTcp(h, s, seqNum, ackNum, window));
    SynAckTcpValidIff(h, s, seqNum, ackNum, window);
    SynAckParses(h, s, seqNum, ackNum, window);
  }

  lemma SynAckIpValid(h: seq<byte>, s: seq<byte>, t: seq<byte>)
    requires HeadersFit(h, s) && Ihl(h[0]) == |h| && h[0] / 0x10 == 4
    ensures IpValid(SynAckIp(h, s) + t)
  {
    TurnedIsValid(Put16(h, 2, |h| + TcpHeaderLength(s)), t);
  }

  lemma SynAckTcpValidIff(h: seq<byte>, s: seq<byte>, seqNum: u32, ackNum: u32, window: u16)
    requires HeadersFit(h, s) && h[9] == PROTO_TCP
    ensures TcpValid(SynAckIp(h, s), SynAckTcp(h, s, seqNum, ackNum, window)) <==> Cancels(s[TcpHeaderLength(s)..])
  {
    var n := TcpHeaderLength(s);
    ReplyKeepsData(s, n, seqNum, ackNum, SYN + ACK, window);
    CutChecksumIff(SynAckIp(h, s), ReplyHeader(s, seqNum, ackNum, SYN + ACK, window), n);
  }

  /** So the answer to any SYN whose data is the single letter A has a wrong TCP checksum. */
  lemma OneByteIsEnough(h: seq<byte>, s: seq<byte>, seqNum: u32, ackNum: u32, window: u16)
    requires HeadersFit(h, s) && h[9] == PROTO_TCP && Ihl(h[0]) == |h| && h[0] / 0x10 == 4
    requires s[TcpHeaderLength(s)..] == [0x41]
    ensures !TcpValid(SynAckIp(h, s), SynAckTcp(h, s, seqNum, ackNum, window))
  {
    CancelsOrNot();
    SynAckValidIff(h, s, seqNum, ackNum, window);
  }

  lemma SynAckParses(h: seq<byte>, s: seq<byte>, seqNum: u32, ackNum: u32, window: u16)
    requires HeadersFit(h, s)
    ensures Parse(SynAckIp(h, s), SynAckTcp(h, s, seqNum, ackNum, window))
         == V.Segment(V.Reverse(Parse(h, s).id), seqNum, ackNum, FlagsOf(SYN + ACK), window)
  {
    var n := TcpHeaderLength(s);
    var r := ReplyHeader(s, seqNum, ackNum, SYN + ACK, window);
    var cs := TcpSum(SynAckIp(h, s), r);
    ReplyFields(h, s, |h| + n, seqNum, ackNum, SYN + ACK, window, cs);
    ParsePrefix(SynAckIp(h, s), PutNative(r, 16, cs), n);
  }

  lemma ParsePrefix(h: seq<byte>, s: seq<byte>, n: nat)
    requires |h| >= 20 && 20 <= n <= |s|
    ensures Parse(h, s[..n]) == Parse(h, s)
  {
  }
}
