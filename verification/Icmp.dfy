/** ICMP replies, built by overwriting the request in the packet buffer. */
module Icmp {
  import opened Words
  import opened InternetChecksum
  import opened Ipv4

  const ICMP_ECHO: byte := 8
  const ICMP_DST_UNREACHABLE: byte := 3
  const ICMP_PROTO_UNREACHABLE: byte := 2

  /** What `icmp_validate` accepts of an ICMP message. */
  predicate IcmpValid(m: seq<byte>) {
    |m| >= 8 && Sum16(m) == 0
  }

  method IcmpValidate(buf: array<byte>, offset: nat, len: nat) returns (ok: bool)
    requires offset + len <= buf.Length && len <= 0x2_0000
    ensures ok == IcmpValid(buf[offset..offset + len])
  {
    if len < 8 {
      return false;
    }
    var cs, rounds := Checksum(buf, offset, len);
    return cs == 0;
  }

  // ------------------------------------------------------------------ echo

  /** The reply to the echo request `p`. */
  function EchoReply(p: seq<byte>): (r: seq<byte>)
    requires IpValid(p) && |p| >= Ihl(p[0]) + 8
    ensures |r| == |p|
  {
    var ihl := Ihl(p[0]);
    Turned(p[..ihl]) + Summed([0, 0] + p[ihl + 2..], 2)
  }

  method IcmpEchoReply(buf: array<byte>, len: nat, offset: nat) returns (n: nat)
    requires buf.Length == MTU_SIZE && len <= MTU_SIZE
    requires IpValid(buf[..len]) && offset == Ihl(buf[0]) && len >= offset + 8
    modifies buf
    ensures n == len && buf[..n] == EchoReply(old(buf[..len]))
  {
    ghost var p := buf[..len];
    assert buf[..offset] == p[..offset] && buf[offset + 2..len] == p[offset + 2..];
    EchoParts(p);
    BuildEcho(buf, len, offset);
    n := len;
  }

  lemma EchoParts(p: seq<byte>)
    requires IpValid(p) && |p| >= Ihl(p[0]) + 8
    ensures EchoReply(p) == Turned(p[..Ihl(p[0])]) + Summed([0, 0] + p[Ihl(p[0]) + 2..], 2)
  {
  }

  method BuildEcho(buf: array<byte>, len: nat, offset: nat)
    requires 20 <= offset && offset + 8 <= len <= buf.Length <= MTU_SIZE && Ihl(buf[0]) == offset
    modifies buf
    ensures buf[..len] == Turned(old(buf[..offset])) + Summed([0, 0] + old(buf[offset + 2..len]), 2)
  {
    WriteEchoMessage(buf, len, offset);
    TurnHeader(buf, offset);
    assert buf[..len] == buf[..offset] + buf[offset..][..len - offset];
  }

  /** The ICMP part of the reply: type and code zero, and a new checksum. */
  method WriteEchoMessage(buf: array<byte>, len: nat, offset: nat)
    requires offset + 8 <= len <= buf.Length <= MTU_SIZE
    modifies buf
    ensures buf[..offset] == old(buf[..offset])
    ensures buf[offset..][..len - offset] == Summed([0, 0] + old(buf[offset + 2..len]), 2)
  {
    ghost var h, rest := buf[..offset], buf[offset + 2..len];
    buf[offset], buf[offset + 1] := 0, 0;
    assert buf[offset..len] == [0, 0] + rest;
    WriteSum(buf, offset, len, offset + 2);
    assert buf[..offset] == h;
    PartOf(buf, offset, len);
  }

  // ------------------------------------------------------------------ destination unreachable

  /** How much of the original packet is quoted: its header and at most 8 bytes of data. */
  function QuoteLength(p: seq<byte>): (n: nat)
    requires IpValid(p)
    ensures n <= |p| && n <= 68
  {
    var ihl := Ihl(p[0]);
    ihl + if |p| - ihl < 8 then |p| - ihl else 8
  }

  function UnreachableLength(p: seq<byte>): (n: nat)
    requires IpValid(p)
    ensures n <= 136
  {
    Ihl(p[0]) + 8 + QuoteLength(p)
  }

  /** The header of the reply before its addresses are exchanged and its checksum stored. */
  function UnreachableHeader(h: seq<byte>, n: u16): (r: seq<byte>)
    requires |h| >= 20
    ensures |r| == |h|
  {
    Put16(h, 2, n)[4 := 0][5 := 0][9 := PROTO_ICMP]
  }

  /** The reply that says the protocol of `p` is not handled here. */
  function UnreachableReply(p: seq<byte>): (r: seq<byte>)
    requires IpValid(p)
    ensures |r| == UnreachableLength(p)
  {
    var ihl := Ihl(p[0]);
    Turned(UnreachableHeader(p[..ihl], UnreachableLength(p)))
    + Summed(UnreachableMessage(p[..QuoteLength(p)]), 2)
  }

  method IcmpDestUnreachable(buf: array<byte>, len: nat, offset: nat) returns (n: nat)
    requires buf.Length == MTU_SIZE && len <= MTU_SIZE
    requires IpValid(buf[..len]) && offset == Ihl(buf[0])
    modifies buf
    ensures 0 < n <= buf.Length && buf[..n] == UnreachableReply(old(buf[..len]))
  {
    ghost var p := buf[..len];
    var dgramLen := if len - offset < 8 then len - offset else 8;
    var quoted := offset + dgramLen;
    n := offset + 8 + quoted;
    assert quoted == QuoteLength(p) && n == UnreachableLength(p);
    if n > MTU_SIZE {
      assert false;  // at most 136 bytes, so the code's refusal is never reached
    }
    var quote := buf[..offset] + buf[offset..quoted];
    assert quote == p[..quoted];
    assert buf[..offset] == p[..offset];
    BuildUnreachable(buf, offset, quote);
  }

  /** The reply once the quote is saved. */
  method BuildUnreachable(buf: array<byte>, offset: nat, quote: seq<byte>)
    requires 20 <= offset && offset + 8 + |quote| <= buf.Length && Ihl(buf[0]) == offset && |quote| <= 68
    modifies buf
    ensures var n := offset + 8 + |quote|;
            buf[..n] == Turned(UnreachableHeader(old(buf[..offset]), n)) + Summed(UnreachableMessage(quote), 2)
  {
    var n := offset + 8 + |quote|;
    WriteUnreachableHeader(buf, offset, n);
    WriteUnreachableMessage(buf, offset, quote);
    assert buf[..n] == buf[..offset] + buf[offset..n];
  }

  /** The ICMP message of the reply, with its checksum field zero. */
  function UnreachableMessage(quote: seq<byte>): seq<byte> {
    [ICMP_DST_UNREACHABLE, ICMP_PROTO_UNREACHABLE, 0, 0, 0, 0, 0, 0] + quote
  }

  method WriteUnreachableHeader(buf: array<byte>, offset: nat, n: u16)
    requires 20 <= offset <= buf.Length && Ihl(buf[0]) == offset
    modifies buf
    ensures buf[..offset] == Turned(UnreachableHeader(old(buf[..offset]), n))
  {
    ghost var h := buf[..offset];
    StoreU16(buf, 2, n);
    buf[4], buf[5] := 0, 0;
    buf[9] := PROTO_ICMP;
    assert buf[..offset] == UnreachableHeader(h, n);
    TurnHeader(buf, offset);
  }

  /** The ICMP part of the reply: header fields, the quoted packet, and the checksum. */
  method WriteUnreachableMessage(buf: array<byte>, offset: nat, quote: seq<byte>)
    requires offset + 8 + |quote| <= buf.Length && |quote| <= 68
    modifies buf
    ensures buf[..offset] == old(buf[..offset])
    ensures buf[offset..offset + 8 + |quote|] == Summed(UnreachableMessage(quote), 2)
  {
    WriteUnreachableFields(buf, offset, quote);
    ghost var header := buf[..offset];
    SummedIgnoresField(buf[offset..offset + 8 + |quote|], UnreachableMessage(quote), 2);
    WriteSum(buf, offset, offset + 8 + |quote|, offset + 2);
    assert buf[..offset] == header;
  }

  method WriteUnreachableFields(buf: array<byte>, offset: nat, quote: seq<byte>)
    requires offset + 8 + |quote| <= buf.Length
    modifies buf
    ensures buf[..offset] == old(buf[..offset])
    ensures PutNative(buf[offset..offset + 8 + |quote|], 2, 0) == UnreachableMessage(quote)
  {
    buf[offset] := ICMP_DST_UNREACHABLE;
    buf[offset + 1] := ICMP_PROTO_UNREACHABLE;
    buf[offset + 4], buf[offset + 5] := 0, 0;
    buf[offset + 6], buf[offset + 7] := 0, 0;
    Copy(buf, offset + 8, quote);
  }

  // ------------------------------------------------------------------ dispatch

  datatype Answer = Silent | Send(bytes: seq<byte>)

  /** `icmp_dispatch` on a packet that `ip_validate` accepted. */
  function IcmpAnswer(p: seq<byte>): Answer
    requires IpValid(p)
  {
    var m := p[Ihl(p[0])..];
    if IcmpValid(m) && m[0] == ICMP_ECHO then Send(EchoReply(p)) else Silent
  }

  method IcmpDispatch(buf: array<byte>, len: nat, offset: nat) returns (n: nat)
    requires buf.Length == MTU_SIZE && len <= MTU_SIZE
    requires IpValid(buf[..len]) && offset == Ihl(buf[0])
    modifies buf
    ensures n <= buf.Length
    ensures (if n == 0 then Silent else Send(buf[..n])) == IcmpAnswer(old(buf[..len]))
  {
    assert buf[..len][offset..] == buf[offset..len];
    var ok := IcmpValidate(buf, offset, len - offset);
    if !ok {
      return 0;
    }
    if buf[offset] == ICMP_ECHO {
      n := IcmpEchoReply(buf, len, offset);
      return;
    }
    return 0;
  }

  /** What `net_demux` sends for a packet that is not TCP. */
  function NonTcpAnswer(p: seq<byte>): Answer
    requires IpValid(p) ==> p[9] != PROTO_TCP
  {
    if !IpValid(p) then Silent
    else if p[9] == PROTO_ICMP then IcmpAnswer(p)
    else Send(UnreachableReply(p))
  }

  // ------------------------------------------------------------------ what the replies are

  /** The echo reply is accepted by both validators and carries the request unchanged except
      for type, code, checksums and the exchanged addresses. */
  lemma EchoReplyIsSound(p: seq<byte>)
    requires IpValid(p) && |p| >= Ihl(p[0]) + 8
    ensures var r, ihl := EchoReply(p), Ihl(p[0]);
            && IpValid(r) && Ihl(r[0]) == ihl && IcmpValid(r[ihl..])
            && r[ihl + 4..] == p[ihl + 4..] && r[ihl] == r[ihl + 1] == 0
            && (forall i :: 12 <= i < 16 ==> r[i] == p[i + 4] && r[i + 4] == p[i])
            && forall i :: 0 <= i < ihl && !(10 <= i < 20) ==> r[i] == p[i]
  {
    var ihl := Ihl(p[0]);
    var h, m := p[..ihl], [0, 0] + p[ihl + 2..];
    TurnedIsValid(h, Summed(m, 2));
    WriteThenVerify(m, 2);
    var r := EchoReply(p);
    assert r[..ihl] == Turned(h) && r[ihl..] == Summed(m, 2);
  }

  /** The bytes that the header of an unreachable reply to `p` has. */
  predicate UnreachableFields(p: seq<byte>, g: seq<byte>, n: nat)
    requires IpValid(p)
  {
    var ihl := Ihl(p[0]);
    && |g| == ihl && U16(g, 2) == n && g[4] == 0 && g[5] == 0 && g[9] == PROTO_ICMP
    && (forall i :: 0 <= i < ihl && i !in {2, 3, 4, 5, 9, 10, 11} && !(12 <= i < 20) ==> g[i] == p[i])
    && (forall i :: 12 <= i < 16 ==> g[i] == p[i + 4] && g[i + 4] == p[i])
  }

  /** `r` says that the protocol of `p` is unreachable: it passes both validators and quotes exactly
      the original header and the data that follows it, up to 8 bytes. */
  predicate SaysUnreachable(p: seq<byte>, r: seq<byte>)
    requires IpValid(p)
  {
    var ihl := Ihl(p[0]);
    var quoted := if |p| < ihl + 8 then |p| else ihl + 8;
    && |r| == ihl + 8 + quoted <= 136
    && IpValid(r) && IcmpValid(r[ihl..]) && UnreachableFields(p, r[..ihl], |r|)
    && r[ihl] == 3 && r[ihl + 1] == 2 && (forall i :: ihl + 4 <= i < ihl + 8 ==> r[i] == 0)
    && r[ihl + 8..] == p[..quoted]
  }

  /** Header and message put together do, if each is right. */
  lemma TogetherSay(p: seq<byte>, g: seq<byte>, m: seq<byte>)
    requires IpValid(p) && IpValid(g + m) && IcmpValid(m) && UnreachableFields(p, g, |g| + |m|)
    requires m[0] == 3 && m[1] == 2 && (forall i :: 4 <= i < 8 ==> m[i] == 0)
    requires m[8..] == p[..if |p| < Ihl(p[0]) + 8 then |p| else Ihl(p[0]) + 8]
    ensures SaysUnreachable(p, g + m)
  {
    var r := g + m;
    assert r[..|g|] == g && r[|g|..] == m && r[|g| + 8..] == m[8..];
  }

  /** The unreachable reply says so, in at most 136 bytes. */
  lemma UnreachableReplyIsSound(p: seq<byte>)
    requires IpValid(p)
    ensures SaysUnreachable(p, UnreachableReply(p))
  {
    var quote := p[..QuoteLength(p)];
    var m := Summed(UnreachableMessage(quote), 2);
    HeaderSound(p, m);
    WriteThenVerify(UnreachableMessage(quote), 2);
    UnreachableMessageBytes(quote);
    TogetherSay(p, Turned(UnreachableHeader(p[..Ihl(p[0])], UnreachableLength(p))), m);
  }

  lemma HeaderSound(p: seq<byte>, m: seq<byte>)
    requires IpValid(p)
    ensures var n := UnreachableLength(p);
            var g := Turned(UnreachableHeader(p[..Ihl(p[0])], n));
            IpValid(g + m) && UnreachableFields(p, g, n)
  {
    var ihl, n := Ihl(p[0]), UnreachableLength(p);
    TurnedIsValid(UnreachableHeader(p[..ihl], n), m);
    UnreachableHeaderBytes(p[..ihl], n);
  }

  lemma UnreachableHeaderBytes(h: seq<byte>, n: u16)
    requires |h| >= 20
    ensures var g := Turned(UnreachableHeader(h, n));
            && U16(g, 2) == n && g[4] == g[5] == 0 && g[9] == PROTO_ICMP
            && (forall i :: 0 <= i < |h| && i !in {2, 3, 4, 5, 9, 10, 11} && !(12 <= i < 20) ==> g[i] == h[i])
            && (forall i :: 12 <= i < 16 ==> g[i] == h[i + 4] && g[i + 4] == h[i])
  {
    assert U16(Turned(UnreachableHeader(h, n)), 2) == U16(UnreachableHeader(h, n), 2);
  }

  lemma UnreachableMessageBytes(quote: seq<byte>)
    ensures var m := Summed(UnreachableMessage(quote), 2);
            m[0] == 3 && m[1] == 2 && (forall i :: 4 <= i < 8 ==> m[i] == 0) && m[8..] == quote
  {
  }

  /** No ICMP packet that the stack sends is answered when it comes back. */
  lemma RepliesAreFinal(p: seq<byte>)
    requires (IpValid(p) ==> p[9] != PROTO_TCP) && NonTcpAnswer(p).Send?
    ensures var r := NonTcpAnswer(p).bytes;
            IpValid(r) && r[9] == PROTO_ICMP && NonTcpAnswer(r) == Silent
  {
    if p[9] == PROTO_ICMP {
      EchoReplyIsSound(p);
    } else {
      UnreachableReplyIsSound(p);
    }
  }
}
