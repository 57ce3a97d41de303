/** TCP segments in the packet buffer: parsing, the checksum over the pseudo-header, and
    the header fields that every reply rewrites in place. */
module Segments {
  import opened Words
  import opened InternetChecksum
  import opened Ipv4
  import V = TcbValues

  const FIN: byte := 0x01
  const SYN: byte := 0x02
  const RST: byte := 0x04
  const PSH: byte := 0x08
  const ACK: byte := 0x10

  function FlagsOf(b: byte): V.Flags {
    V.Flags(b % 2 == 1, b / 2 % 2 == 1, b / 4 % 2 == 1, b / 8 % 2 == 1, b / 16 % 2 == 1)
  }

  /** The TCP header length that the data offset announces. */
  function TcpHeaderLength(s: seq<byte>): (n: nat)
    requires |s| >= 20
    ensures n <= 60 && n % 4 == 0
  {
    s[12] / 0x10 * 4
  }

  /** The fields of segment `s` under IP header `h`. */
  function Parse(h: seq<byte>, s: seq<byte>): V.Segment
    requires |h| >= 20 && |s| >= 20
  {
    V.Segment(V.ConnId(U16(s, 0), U16(s, 2), U32(h, 12), U32(h, 16)), U32(s, 4), U32(s, 8), FlagsOf(s[13]), U16(s, 14))
  }

  /** SEG.LEN of RFC 9293: the octets a segment occupies in sequence space, SYN and FIN counting. */
  function SegLen(seg: V.Segment, length: int): int {
    length + (if seg.flags.syn then 1 else 0) + if seg.flags.fin then 1 else 0
  }

  // ------------------------------------------------------------------ the checksum

  /** The pseudo-header for a segment of `n` bytes under IP header `h`. */
  function Pseudo(h: seq<byte>, n: u16): (r: seq<byte>)
    requires |h| >= 20
    ensures |r| == 12
  {
    h[12..20] + [0, h[9], n / 0x100, n % 0x100]
  }

  /** `tcp_checksum`: the sum over pseudo-header and segment, with the field itself zero. */
  function TcpSum(h: seq<byte>, s: seq<byte>): u16
    requires |h| >= 20 && 20 <= |s| < 0x1_0000
  {
    Sum16(Pseudo(h, |s|) + PutNative(s, 16, 0))
  }

  /** The test at the head of `tcp_dispatch`. */
  predicate TcpValid(h: seq<byte>, s: seq<byte>)
    requires |h| >= 20 && 20 <= |s| < 0x1_0000
  {
    Native(s, 16) == TcpSum(h, s)
  }

  /** The segment with its checksum stored. */
  function TcpSummed(h: seq<byte>, s: seq<byte>): (r: seq<byte>)
    requires |h| >= 20 && 20 <= |s| < 0x1_0000
    ensures |r| == |s|
  {
    PutNative(s, 16, TcpSum(h, s))
  }

  lemma TcpSummedIsValid(h: seq<byte>, s: seq<byte>)
    requires |h| >= 20 && 20 <= |s| < 0x1_0000
    ensures TcpValid(h, TcpSummed(h, s))
  {
    assert PutNative(TcpSummed(h, s), 16, 0) == PutNative(s, 16, 0);
  }

  /** The test accepts exactly the TCP segments that sum to zero with their pseudo-header and
      whose checksum field is not 0xFFFF. */
  lemma TcpCheckIsExact(h: seq<byte>, s: seq<byte>)
    requires |h| >= 20 && 20 <= |s| < 0x1_0000 && h[9] == PROTO_TCP
    ensures TcpValid(h, s) <==> Sum16(Pseudo(h, |s|) + s) == 0 && Native(s, 16) != 0xFFFF
  {
    var g := Pseudo(h, |s|) + s;
    assert PutNative(g, 28, 0) == Pseudo(h, |s|) + PutNative(s, 16, 0);
    assert Native(g, 28) == Native(s, 16);
    RecomputeVersusSumToZero(g, 28);
    PseudoIsPositive(h, |s|, PutNative(s, 16, 0));
  }

  lemma PseudoIsPositive(h: seq<byte>, n: u16, rest: seq<byte>)
    requires |h| >= 20 && h[9] == PROTO_TCP
    ensures LeSum(Pseudo(h, n) + rest) > 0
  {
    var p := Pseudo(h, n);
    LeSumConcat(p, rest);
    assert LeSum(p[8..]) >= Word(h[9], 0);
    LeSumConcat(p[..8], p[8..]);
    assert p == p[..8] + p[8..];
  }

  /** `tcp_checksum` as the code runs it: the field is zeroed in the buffer, pseudo-header and
      segment are copied together and summed, and the field is put back. */
  method TcpChecksum(buf: array<byte>, len: nat, offset: nat) returns (cs: u16)
    requires 20 <= offset && offset + 20 <= len <= buf.Length && len <= 0xFFFF
    modifies buf
    ensures buf[..] == old(buf[..])
    ensures cs == TcpSum(buf[..offset], buf[offset..len])
  {
    ghost var was := buf[..];
    var lo, hi := buf[offset + 16], buf[offset + 17];
    var n := len - offset;
    var pseudo := Pseudo(buf[..offset], n);
    StoreNative(buf, offset + 16, 0);
    var copy := new byte[12 + n](_ => 0);
    Copy(copy, 0, pseudo);
    Copy(copy, 12, buf[offset..len]);
    assert buf[offset..len] == PutNative(was[offset..len], 16, 0);
    assert copy[0..12 + n] == pseudo + buf[offset..len];
    ghost var rounds;
    cs, rounds := Checksum(copy, 0, 12 + n);
    buf[offset + 16], buf[offset + 17] := lo, hi;
  }

  /** Computes the checksum over the first `len` bytes and stores it. */
  method WriteTcpSum(buf: array<byte>, len: nat, offset: nat)
    requires 20 <= offset && offset + 20 <= len <= buf.Length && len <= 0xFFFF
    modifies buf
    ensures buf[..offset] == old(buf[..offset])
    ensures buf[offset..len] == TcpSummed(buf[..offset], old(buf[offset..len]))
  {
    ghost var h, s := buf[..offset], buf[offset..len];
    var cs := TcpChecksum(buf, len, offset);
    StoreNative(buf, offset + 16, cs);
    assert buf[..offset] == h;
    assert buf[offset..len] == PutNative(s, 16, cs);
  }

  // ------------------------------------------------------------------ reply headers

  /** Source and destination port exchanged. */
  function SwapPorts(s: seq<byte>): (r: seq<byte>)
    requires |s| >= 20
    ensures |r| == |s|
  {
    s[0 := s[2]][1 := s[3]][2 := s[0]][3 := s[1]]
  }

  /** New sequence and acknowledgment numbers. */
  function WithNumbers(s: seq<byte>, seqNum: u32, ackNum: u32): (r: seq<byte>)
    requires |s| >= 20
    ensures |r| == |s|
  {
    Put32(Put32(s, 4, seqNum), 8, ackNum)
  }

  /** New flags and window, reserved bits and urgent pointer zero. */
  function WithControl(s: seq<byte>, flags: byte, window: u16): (r: seq<byte>)
    requires |s| >= 20
    ensures |r| == |s|
  {
    Put16(s[12 := s[12] / 0x10 * 0x10][13 := flags], 14, window)[18 := 0][19 := 0]
  }

  /** The TCP header of a reply; options and data stay. */
  function ReplyHeader(s: seq<byte>, seqNum: u32, ackNum: u32, flags: byte, window: u16): (r: seq<byte>)
    requires |s| >= 20
    ensures |r| == |s|
  {
    WithControl(WithNumbers(SwapPorts(s), seqNum, ackNum), flags, window)
  }

  /** The IP header of a reply of `n` bytes. */
  function ReplyIp(h: seq<byte>, n: u16): (r: seq<byte>)
    requires |h| >= 20
    ensures |r| == |h| && r[0] == h[0] && r[9] == h[9] && U16(r, 2) == n
  {
    Turned(Put16(h, 2, n))
  }

  lemma ReplyIpFields(h: seq<byte>, n: u16)
    requires |h| >= 20
    ensures U32(ReplyIp(h, n), 12) == U32(h, 16) && U32(ReplyIp(h, n), 16) == U32(h, 12)
  {
    var g := Put16(h, 2, n);
    assert forall i :: 12 <= i < 20 ==> g[i] == h[i];
  }

  lemma ReplyHeaderFields(s: seq<byte>, seqNum: u32, ackNum: u32, flags: byte, window: u16)
    requires |s| >= 20
    ensures var r := ReplyHeader(s, seqNum, ackNum, flags, window);
            && U16(r, 0) == U16(s, 2) && U16(r, 2) == U16(s, 0)
            && U32(r, 4) == seqNum && U32(r, 8) == ackNum
            && r[13] == flags && U16(r, 14) == window
            && TcpHeaderLength(r) == TcpHeaderLength(s) && r[20..] == s[20..]
  {
    var b := WithNumbers(SwapPorts(s), seqNum, ackNum);
    assert U32(b, 4) == seqNum && U32(b, 8) == ackNum;
  }

  /** What the reply headers say, and what they keep. */
  lemma ReplyFields(h: seq<byte>, s: seq<byte>, n: u16, seqNum: u32, ackNum: u32, flags: byte, window: u16, cs: u16)
    requires |h| >= 20 && |s| >= 20
    ensures var h', s' := ReplyIp(h, n), PutNative(ReplyHeader(s, seqNum, ackNum, flags, window), 16, cs);
            && Parse(h', s') == V.Segment(V.Reverse(Parse(h, s).id), seqNum, ackNum, FlagsOf(flags), window)
            && TcpHeaderLength(s') == TcpHeaderLength(s)
            && s'[20..] == s[20..]
  {
    ReplyIpFields(h, n);
    ReplyHeaderFields(s, seqNum, ackNum, flags, window);
  }

  /** Rewriting the header does not look beyond it. */
  lemma HeaderPrefix(s: seq<byte>, n: nat, seqNum: u32, ackNum: u32, flags: byte, window: u16)
    requires 20 <= n <= |s|
    ensures ReplyHeader(s, seqNum, ackNum, flags, window)[..n] == ReplyHeader(s[..n], seqNum, ackNum, flags, window)
  {
  }

  method TcpSwapPort(buf: array<byte>, offset: nat)
    requires offset + 20 <= buf.Length
    modifies buf
    ensures buf[..offset] == old(buf[..offset]) && buf[offset..] == SwapPorts(old(buf[offset..]))
  {
    var src0, src1 := buf[offset], buf[offset + 1];
    buf[offset], buf[offset + 1] := buf[offset + 2], buf[offset + 3];
    buf[offset + 2], buf[offset + 3] := src0, src1;
  }

  method WriteNumbers(buf: array<byte>, offset: nat, seqNum: u32, ackNum: u32)
    requires offset + 20 <= buf.Length
    modifies buf
    ensures buf[..offset] == old(buf[..offset]) && buf[offset..] == WithNumbers(old(buf[offset..]), seqNum, ackNum)
  {
    StoreU32(buf, offset + 4, seqNum);
    StoreU32(buf, offset + 8, ackNum);
  }

  method WriteControl(buf: array<byte>, offset: nat, flags: byte, window: u16)
    requires offset + 20 <= buf.Length
    modifies buf
    ensures buf[..offset] == old(buf[..offset]) && buf[offset..] == WithControl(old(buf[offset..]), flags, window)
  {
    var words := buf[offset + 12] / 0x10;
    buf[offset + 12], buf[offset + 13] := words * 0x10, flags;
    StoreU16(buf, offset + 14, window);
    buf[offset + 18], buf[offset + 19] := 0, 0;
  }

  /** The header writes that all reply builders share. */
  method WriteReplyHeader(buf: array<byte>, offset: nat, seqNum: u32, ackNum: u32, flags: byte, window: u16)
    requires offset + 20 <= buf.Length
    modifies buf
    ensures buf[..offset] == old(buf[..offset])
    ensures buf[offset..] == ReplyHeader(old(buf[offset..]), seqNum, ackNum, flags, window)
  {
    TcpSwapPort(buf, offset);
    WriteNumbers(buf, offset, seqNum, ackNum);
    WriteControl(buf, offset, flags, window);
  }

  /** The IP side of a reply: new length, exchanged addresses, checksum. */
  method WriteReplyIp(buf: array<byte>, offset: nat, n: u16)
    requires 20 <= offset <= buf.Length && Ihl(buf[0]) == offset
    modifies buf
    ensures buf[..offset] == ReplyIp(old(buf[..offset]), n)
    ensures buf[offset..] == old(buf[offset..])
  {
    ghost var h, s := buf[..offset], buf[offset..];
    StoreU16(buf, 2, n);
    assert buf[..offset] == Put16(h, 2, n) && buf[offset..] == s;
    TurnHeader(buf, offset);
  }

  /** The end of every builder: the IP header for a reply of `n` bytes, then the TCP checksum
      over the first `len` bytes. */
  method Seal(buf: array<byte>, offset: nat, len: nat, n: u16)
    requires 20 <= offset && offset + 20 <= len <= buf.Length && len <= 0xFFFF && Ihl(buf[0]) == offset
    modifies buf
    ensures buf[..offset] == ReplyIp(old(buf[..offset]), n)
    ensures buf[offset..len] == TcpSummed(ReplyIp(old(buf[..offset]), n), old(buf[offset..len]))
  {
    ghost var s := buf[offset..len];
    assert s == buf[offset..][..len - offset];
    WriteReplyIp(buf, offset, n);
    assert buf[offset..len] == buf[offset..][..len - offset] == s;
    WriteTcpSum(buf, len, offset);
  }

  /** The same, seen on the `n` bytes that are sent. */
  method SealCut(buf: array<byte>, offset: nat, len: nat, n: nat)
    requires 20 <= offset && offset + 20 <= n <= len <= buf.Length && len <= 0xFFFF && Ihl(buf[0]) == offset
    modifies buf
    ensures buf[..n] == ReplyIp(old(buf[..offset]), n)
                      + TcpSummed(ReplyIp(old(buf[..offset]), n), old(buf[offset..len]))[..n - offset]
  {
    Seal(buf, offset, len, n);
    CutAt(buf, offset, n, len);
  }
}
