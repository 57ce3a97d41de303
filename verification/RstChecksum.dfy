/** When the TCP checksum that a reset of the refactored stack keeps is the right one. */
module RstChecksum {
  import opened Words
  import opened InternetChecksum
  import opened Ipv4
  import opened Segments
  import opened SynAckSegment
  import opened RstSegment

  // ------------------------------------------------------------------ big-endian sums

  lemma {:induction false} BeSumConcat(a: seq<byte>, b: seq<byte>)
    requires |a| % 2 == 0
    ensures BeSum(a + b) == BeSum(a) + BeSum(b)
  {
    if a == [] {
      assert a + b == b;
    } else {
      BeSumConcat(a[2..], b);
      assert (a + b)[2..] == a[2..] + b;
    }
  }

  lemma BeSumStep(s: seq<byte>, k: nat)
    requires k + 2 <= |s|
    ensures BeSum(s[k..]) == U16(s, k) + BeSum(s[k + 2..])
  {
    assert s[k..][2..] == s[k + 2..];
  }

  /** Sums of both byte orders are multiples of 0xFFFF together. */
  lemma SameMultiples(s: seq<byte>)
    ensures LeSum(s) % 0xFFFF == 0 <==> BeSum(s) % 0xFFFF == 0
  {
    var q := LeSumIsSwapped(s);
    MultipleOf(BeSum(s), LeSum(s), q);
  }

  lemma PseudoBeSum(h: seq<byte>, n: u16)
    requires |h| >= 20
    ensures BeSum(Pseudo(h, n)) == BeSum(h[12..20]) + h[9] + n
  {
    var tail: seq<byte> := [0, h[9], n / 0x100, n % 0x100];
    BeSumConcat(h[12..20], tail);
    BeSumStep(tail, 0);
    BeSumStep(tail, 2);
    assert tail[0..] == tail && tail[4..] == [];
  }

  /** The sum over pseudo-header and segment. */
  function PacketSum(h: seq<byte>, s: seq<byte>): nat
    requires |h| >= 20 && 20 <= |s|
  {
    BeSum(h[12..20]) + h[9] + |s| + BeSum(s)
  }

  lemma PacketSumIsBeSum(h: seq<byte>, s: seq<byte>)
    requires |h| >= 20 && 20 <= |s| < 0x1_0000
    ensures BeSum(Pseudo(h, |s|) + s) == PacketSum(h, s)
  {
    PseudoBeSum(h, |s|);
    ConcatSum(Pseudo(h, |s|), s, BeSum(h[12..20]) + h[9] + |s|);
  }

  lemma ConcatSum(p: seq<byte>, s: seq<byte>, sum: nat)
    requires |p| % 2 == 0 && BeSum(p) == sum
    ensures BeSum(p + s) == sum + BeSum(s)
  {
    BeSumConcat(p, s);
  }

  /** The test of `tcp_dispatch` in these terms. */
  lemma TcpValidSum(h: seq<byte>, s: seq<byte>)
    requires |h| >= 20 && 20 <= |s| < 0x1_0000 && h[9] == PROTO_TCP
    ensures TcpValid(h, s) <==> Native(s, 16) != 0xFFFF && PacketSum(h, s) % 0xFFFF == 0
  {
    var g := Pseudo(h, |s|) + s;
    TcpCheckIsExact(h, s);
    PseudoIsPositive(h, |s|, s);
    ZeroSum(g);
    SameMultiples(g);
    PacketSumIsBeSum(h, s);
  }

  // ------------------------------------------------------------------ what a reset overwrites

  /** What the fields that a reset overwrites, ports apart, contribute in segment `s`. */
  function WeightOf(s: seq<byte>): nat
    requires |s| >= 20
  {
    U16(s, 4) + U16(s, 6) + U16(s, 8) + U16(s, 10) + U16(s, 12) + U16(s, 14) + U16(s, 18)
  }

  /** What they contribute in the reset for `s` with these numbers and flags. */
  function NewWeight(s: seq<byte>, n: Unassigned): nat
    requires |s| >= 20
  {
    n.seqNum / 0x1_0000 + n.seqNum % 0x1_0000 + n.ackNum / 0x1_0000 + n.ackNum % 0x1_0000
    + Word(s[12] / 0x10 * 0x10, n.flags)
  }

  /** How much more the reset weighs than the segment it answers, its data included. */
  function Surplus(s: seq<byte>, n: Unassigned): int
    requires 20 <= |s| && TcpHeaderLength(s) <= |s|
  {
    var d := s[TcpHeaderLength(s)..];
    NewWeight(s, n) - WeightOf(s) - |d| - BeSum(d)
  }

  lemma HeaderSum(s: seq<byte>)
    requires |s| >= 20
    ensures BeSum(s) == U16(s, 0) + U16(s, 2) + WeightOf(s) + U16(s, 16) + BeSum(s[20..])
  {
    assert s[0..] == s;
    BeSumStep(s, 0);
    BeSumStep(s, 2);
    BeSumStep(s, 4);
    BeSumStep(s, 6);
    BeSumStep(s, 8);
    BeSumStep(s, 10);
    BeSumStep(s, 12);
    BeSumStep(s, 14);
    BeSumStep(s, 16);
    BeSumStep(s, 18);
  }

  lemma Halves(hi: u16, lo: u16)
    ensures var x: int := hi as int * 0x1_0000 + lo; x / 0x1_0000 == hi && x % 0x1_0000 == lo
  {
  }

  /** The bytes that rewriting leaves or clears. */
  lemma ReplyHeaderRest(s: seq<byte>, seqNum: u32, ackNum: u32, flags: byte, window: u16)
    requires |s| >= 20
    ensures var r := ReplyHeader(s, seqNum, ackNum, flags, window);
            r[12] == s[12] / 0x10 * 0x10 && r[16] == s[16] && r[17] == s[17] && r[18] == r[19] == 0
  {
  }

  /** Taking the first `k` bytes keeps the header fields. */
  lemma CutKeepsFields(r: seq<byte>, k: nat)
    requires 20 <= k <= |r|
    ensures var t := r[..k];
            && U16(t, 0) == U16(r, 0) && U16(t, 2) == U16(r, 2) && U16(t, 16) == U16(r, 16)
            && WeightOf(t) == WeightOf(r) && t[20..] == r[20..][..k - 20] && t[9] == r[9]
            && Native(t, 16) == Native(r, 16) && t[12] == r[12]
  {
  }

  lemma NewWeightIsWeight(s: seq<byte>, r: seq<byte>, n: Unassigned)
    requires |s| >= 20 && |r| >= 20 && U32(r, 4) == n.seqNum && U32(r, 8) == n.ackNum
    requires r[12] == s[12] / 0x10 * 0x10 && r[13] == n.flags && U16(r, 14) == 0 && U16(r, 18) == 0
    ensures WeightOf(r) == NewWeight(s, n)
  {
    Halves(U16(r, 4), U16(r, 6));
    Halves(U16(r, 8), U16(r, 10));
  }

  /** The header of a reset, field by field. */
  lemma ResetHeader(s: seq<byte>, n: Unassigned)
    requires 20 <= |s| && 20 <= TcpHeaderLength(s) <= |s|
    ensures var t, k := ResetTcp(s, n), TcpHeaderLength(s);
            && U16(t, 0) == U16(s, 2) && U16(t, 2) == U16(s, 0) && U16(t, 16) == U16(s, 16)
            && WeightOf(t) == NewWeight(s, n)
            && t[20..] == s[20..][..k - 20] && Native(t, 16) == Native(s, 16) && t[12] == s[12] / 0x10 * 0x10
  {
    var r := ReplyHeader(s, n.seqNum, n.ackNum, n.flags, 0);
    ReplyHeaderFields(s, n.seqNum, n.ackNum, n.flags, 0);
    ReplyHeaderRest(s, n.seqNum, n.ackNum, n.flags, 0);
    CutKeepsFields(r, TcpHeaderLength(s));
    NewWeightIsWeight(s, r, n);
  }

  lemma ResetBeSum(s: seq<byte>, n: Unassigned)
    requires 20 <= |s| && 20 <= TcpHeaderLength(s) <= |s|
    ensures BeSum(ResetTcp(s, n)) + |ResetTcp(s, n)| == BeSum(s) + |s| + Surplus(s, n)
  {
    ResetHeader(s, n);
    HeaderChange(s, ResetTcp(s, n));
  }

  /** What a change of those fields, and cutting off the data, does to the sum. */
  lemma HeaderChange(s: seq<byte>, t: seq<byte>)
    requires 20 <= |t| <= |s| && |t| % 2 == 0 && t[20..] == s[20..][..|t| - 20]
    requires U16(t, 0) == U16(s, 2) && U16(t, 2) == U16(s, 0) && U16(t, 16) == U16(s, 16)
    ensures BeSum(t) == BeSum(s) + WeightOf(t) - WeightOf(s) - BeSum(s[|t|..])
  {
    HeaderSum(t);
    HeaderSum(s);
    RestSum(s, |t|);
  }

  lemma RestSum(s: seq<byte>, k: nat)
    requires 20 <= k <= |s| && k % 2 == 0
    ensures BeSum(s[20..]) == BeSum(s[20..][..k - 20]) + BeSum(s[k..])
  {
    assert s[20..] == s[20..][..k - 20] + s[k..];
    BeSumConcat(s[20..][..k - 20], s[k..]);
  }

  /** The addresses contribute the same in either order. */
  lemma AddressSum(h: seq<byte>, g: seq<byte>)
    requires |h| >= 20 && |g| >= 20
    requires forall i :: 12 <= i < 16 ==> g[i] == h[i + 4] && g[i + 4] == h[i]
    ensures BeSum(g[12..20]) == BeSum(h[12..20])
  {
    assert h[12..20] == h[12..16] + h[16..20] && g[12..20] == g[12..16] + g[16..20];
    assert g[12..16] == h[16..20] && g[16..20] == h[12..16];
    BeSumConcat(h[12..16], h[16..20]);
    BeSumConcat(h[16..20], h[12..16]);
  }

  lemma ResetIpBytes(h: seq<byte>, s: seq<byte>)
    requires HeadersFit(h, s)
    ensures var g := ResetIp(h, s);
            g[0] == h[0] && g[9] == h[9] && forall i :: 12 <= i < 16 ==> g[i] == h[i + 4] && g[i + 4] == h[i]
  {
    SwapIsExchange(h);
    PutKeeps(SwapAddresses(h), |h| + TcpHeaderLength(s));
  }

  lemma PutKeeps(g: seq<byte>, n: u16)
    requires |g| >= 20
    ensures forall i :: 0 <= i < |g| && i != 2 && i != 3 ==> Put16(g, 2, n)[i] == g[i]
  {
  }

  lemma ResetPacketSum(h: seq<byte>, s: seq<byte>, n: Unassigned)
    requires HeadersFit(h, s)
    ensures PacketSum(ResetIp(h, s), ResetTcp(s, n)) == PacketSum(h, s) + Surplus(s, n)
  {
    ResetIpBytes(h, s);
    AddressSum(h, ResetIp(h, s));
    ResetBeSum(s, n);
  }

  lemma Shifted(a: int, b: int)
    requires a % 0xFFFF == 0
    ensures (a + b) % 0xFFFF == 0 <==> b % 0xFFFF == 0
  {
  }

  /** A reset answering a segment that passed the TCP test passes it too exactly when the fields that
      it overwrites weigh as much as before, modulo 0xFFFF, the segment's data and their length counted. */
  lemma ResetTcpValidIff(h: seq<byte>, s: seq<byte>, n: Unassigned)
    requires HeadersFit(h, s) && h[9] == PROTO_TCP && TcpValid(h, s)
    ensures TcpValid(ResetIp(h, s), ResetTcp(s, n)) <==> Surplus(s, n) % 0xFFFF == 0
  {
    var h', t := ResetIp(h, s), ResetTcp(s, n);
    ResetIpBytes(h, s);
    ResetHeader(s, n);
    TcpValidSum(h, s);
    TcpValidSum(h', t);
    ResetPacketSum(h, s, n);
    Shifted(PacketSum(h, s), Surplus(s, n));
  }
}
