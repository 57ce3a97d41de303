/** The segment builders of the older stack, which overwrite the request in the buffer. */
module OldSegments {
  import opened Words
  import opened InternetChecksum
  import opened Ipv4
  import V = TcbValues
  import opened Segments
  import opened OldMachine

  /** IP header `h` and TCP header `s` of a packet that reached the TCP dispatcher. */
  predicate Headers(h: seq<byte>, s: seq<byte>) {
    && 20 <= |h| <= 60 && Ihl(h[0]) == |h| && h[0] / 0x10 == 4 && h[9] == PROTO_TCP
    && 20 <= |s| <= 60 && TcpHeaderLength(s) == |s|
  }

  /** The packet that a builder leaves for answer `a` to the packet with headers `h` and `s`. */
  function ReplyPacket(h: seq<byte>, s: seq<byte>, a: Answer): (r: seq<byte>)
    requires Headers(h, s) && a.Sent? && |h| + |s| + |a.payload| <= MTU_SIZE
    ensures |r| == |h| + |s| + |a.payload|
  {
    var h' := ReplyIp(h, |h| + |s| + |a.payload|);
    h' + TcpSummed(h', ReplyHeader(s, a.seqNum, a.ackNum, a.flags, a.window) + a.payload)
  }

  /** Every packet that the builders make, for every header size and body length that fits,
      passes the refactored stack's IP and TCP tests at the length in its own header, goes back
      where the request came from, and carries the numbers, flags, window and body of the answer. */
  lemma ReplyPacketIsSound(h: seq<byte>, s: seq<byte>, a: Answer)
    requires Headers(h, s) && a.Sent? && |h| + |s| + |a.payload| <= MTU_SIZE
    ensures var r := ReplyPacket(h, s, a);
            && IpValid(r) && Ihl(r[0]) == |h| && U16(r, 2) == |r|
            && TcpValid(r[..|h|], r[|h|..])
            && Parse(r[..|h|], r[|h|..])
               == V.Segment(V.Reverse(Parse(h, s).id), a.seqNum, a.ackNum, FlagsOf(a.flags), a.window)
            && TcpHeaderLength(r[|h|..]) == |s| && r[|h| + |s|..] == a.payload
  {
    var r, n := ReplyPacket(h, s, a), |h| + |s| + |a.payload|;
    var t := ReplyHeader(s, a.seqNum, a.ackNum, a.flags, a.window);
    var h' := ReplyIp(h, n);
    var u := TcpSummed(h', t + a.payload);
    assert r[..|h|] == h' && r[|h|..] == u;
    TurnedIsValid(Put16(h, 2, n), u);
    TcpSummedIsValid(h', t + a.payload);
    ReplyParses(h, s, a, n);
    assert r[|h| + |s|..] == u[|s|..] == a.payload;
  }

  lemma ReplyParses(h: seq<byte>, s: seq<byte>, a: Answer, n: u16)
    requires Headers(h, s) && a.Sent? && n == |h| + |s| + |a.payload| <= MTU_SIZE
    ensures var h' := ReplyIp(h, n);
            var u := TcpSummed(h', ReplyHeader(s, a.seqNum, a.ackNum, a.flags, a.window) + a.payload);
            && Parse(h', u) == V.Segment(V.Reverse(Parse(h, s).id), a.seqNum, a.ackNum, FlagsOf(a.flags), a.window)
            && TcpHeaderLength(u) == |s|
  {
    var h' := ReplyIp(h, n);
    var t := ReplyHeader(s, a.seqNum, a.ackNum, a.flags, a.window);
    var cs := TcpSum(h', t + a.payload);
    ReplyFields(h, s, n, a.seqNum, a.ackNum, a.flags, a.window, cs);
    SameHeader(h', PutNative(t, 16, cs), TcpSummed(h', t + a.payload));
  }

  lemma SameHeader(h: seq<byte>, s: seq<byte>, t: seq<byte>)
    requires |h| >= 20 && |s| >= 20 && |t| >= 20 && forall i :: 0 <= i < 20 ==> s[i] == t[i]
    ensures Parse(h, s) == Parse(h, t) && TcpHeaderLength(s) == TcpHeaderLength(t)
  {
  }

  /** What the three builders have in common, the header fields being written in one order;
      `end` is where the TCP header ends. */
  method BuildReply(buf: array<byte>, offset: nat, end: nat, a: Answer) returns (n: nat)
    requires buf.Length == MTU_SIZE && offset <= end <= MTU_SIZE && a.Sent?
    requires Headers(buf[..offset], buf[offset..end]) && end + |a.payload| <= MTU_SIZE
    modifies buf
    ensures n <= MTU_SIZE && buf[..n] == ReplyPacket(old(buf[..offset]), old(buf[offset..end]), a)
  {
    n := end + |a.payload|;
    ReplyInParts(buf[..offset], buf[offset..end], a, n);
    FillAndSeal(buf, offset, end, a, n);
  }

  lemma ReplyInParts(h: seq<byte>, s: seq<byte>, a: Answer, n: u16)
    requires Headers(h, s) && a.Sent? && n == |h| + |s| + |a.payload| <= MTU_SIZE
    ensures ReplyPacket(h, s, a)
         == ReplyIp(h, n) + TcpSummed(ReplyIp(h, n), ReplyHeader(s, a.seqNum, a.ackNum, a.flags, a.window) + a.payload)
  {
  }

  /** All writes, for a reply of `n` bytes. */
  method FillAndSeal(buf: array<byte>, offset: nat, end: nat, a: Answer, n: u16)
    requires a.Sent? && 20 <= offset && offset + 20 <= end && n == end + |a.payload| <= buf.Length && Ihl(buf[0]) == offset
    modifies buf
    ensures buf[..n] == ReplyIp(old(buf[..offset]), n)
                      + TcpSummed(ReplyIp(old(buf[..offset]), n),
                                  ReplyHeader(old(buf[offset..end]), a.seqNum, a.ackNum, a.flags, a.window) + a.payload)
  {
    RewriteAndFill(buf, offset, end, a);
    SealReply(buf, offset, n);
  }

  /** Both headers completed for a packet of `n` bytes. */
  method SealReply(buf: array<byte>, offset: nat, n: nat)
    requires 20 <= offset && offset + 20 <= n <= buf.Length && n <= 0xFFFF && Ihl(buf[0]) == offset
    modifies buf
    ensures buf[..n] == ReplyIp(old(buf[..offset]), n) + TcpSummed(ReplyIp(old(buf[..offset]), n), old(buf[offset..n]))
  {
    Seal(buf, offset, n, n);
    CutAt(buf, offset, n, n);
    assert buf[offset..n][..n - offset] == buf[offset..n];
  }

  /** The TCP header and the payload. */
  method RewriteAndFill(buf: array<byte>, offset: nat, end: nat, a: Answer)
    requires a.Sent? && offset + 20 <= end && end + |a.payload| <= buf.Length
    modifies buf
    ensures buf[..offset] == old(buf[..offset])
    ensures buf[offset..end + |a.payload|]
         == ReplyHeader(old(buf[offset..end]), a.seqNum, a.ackNum, a.flags, a.window) + a.payload
  {
    ghost var h, s := buf[..offset], buf[offset..];
    HeaderPrefix(s, end - offset, a.seqNum, a.ackNum, a.flags, a.window);
    assert buf[offset..end] == s[..end - offset];
    WriteReplyHeader(buf, offset, a.seqNum, a.ackNum, a.flags, a.window);
    assert buf[offset..end] == buf[offset..][..end - offset];
    ghost var t := buf[offset..end];
    if a.payload != [] {
      Copy(buf, end, a.payload);
    }
    assert buf[offset..end + |a.payload|] == t + a.payload;
    assert buf[..offset] == h;
  }
}
