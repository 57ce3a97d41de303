/** The reset of the refactored stack. Each branch leaves some of the values that it writes
    unassigned, and neither checksum is computed again. */
module RstSegment {
  import opened Words
  import opened InternetChecksum
  import opened Ipv4
  import V = TcbValues
  import opened Segments
  import opened SynAckSegment

  /** What happens to be in the locals of `tcp_rst` that no branch assigned. */
  datatype Unassigned = Unassigned(seqNum: u32, ackNum: u32, flags: byte)

  /** The numbers and flags that `tcp_rst` writes for a segment with that many data bytes. */
  function ResetNumbers(seg: V.Segment, length: int, junk: Unassigned): Unassigned {
    if seg.flags.ack
    then junk.(seqNum := Swap16(Swap32(seg.ackNum) % 0x1_0000), flags := RST)
    else junk.(ackNum := Wrap32(seg.seqNum + SegLen(seg, length)))
  }

  /** Converting the 32-bit number with a 16-bit swap leaves only its upper half, so the reset
      carries the acknowledged number, as it should, only if that is zero. */
  lemma UpperHalfOnly(seg: V.Segment, length: int, junk: Unassigned)
    requires seg.flags.ack
    ensures ResetNumbers(seg, length, junk).seqNum == seg.ackNum / 0x1_0000
    ensures ResetNumbers(seg, length, junk).seqNum == seg.ackNum <==> seg.ackNum == 0
  {
    var x: int := seg.ackNum;
    var hi: u16, lo: u16 := x / 0x1_0000, x % 0x1_0000;
    SwapTwice(hi);
    LowHalf(Swap16(lo), Swap16(hi));
  }

  lemma SwapTwice(x: u16)
    ensures Swap16(Swap16(x)) == x
  {
    SwapWord(x / 0x100, x % 0x100);
    SwapWord(x % 0x100, x / 0x100);
  }

  lemma SwapWord(hi: byte, lo: byte)
    ensures Swap16(Word(hi, lo)) == Word(lo, hi)
  {
    var x: int := hi as int * 0x100 + lo;
    assert x / 0x100 == hi && x % 0x100 == lo;
  }

  lemma LowHalf(hi: u16, lo: u16)
    ensures (hi as int * 0x1_0000 + lo) % 0x1_0000 == lo
  {
  }

  /** `g` is `h` with source and destination address exchanged. */
  predicate Exchanged(h: seq<byte>, g: seq<byte>) {
    && |g| == |h| >= 20
    && (forall i :: 0 <= i < |h| && !(12 <= i < 20) ==> g[i] == h[i])
    && forall i :: 12 <= i < 16 ==> g[i] == h[i + 4] && g[i + 4] == h[i]
  }

  lemma SwapIsExchange(h: seq<byte>)
    requires |h| >= 20
    ensures Exchanged(h, SwapAddresses(h))
  {
  }

  /** The IP header of a reset: addresses exchanged, new length, old checksum. */
  function ResetIp(h: seq<byte>, s: seq<byte>): (r: seq<byte>)
    requires HeadersFit(h, s)
    ensures |r| == |h|
  {
    Readdressed(h, |h| + TcpHeaderLength(s))
  }

  function Readdressed(h: seq<byte>, n: u16): (r: seq<byte>)
    requires |h| >= 20
    ensures |r| == |h|
  {
    Put16(SwapAddresses(h), 2, n)
  }

  /** The data bytes that the announced length leaves. */
  function Announced(h: seq<byte>, s: seq<byte>): int
    requires HeadersFit(h, s)
  {
    U16(h, 2) - |h| - TcpHeaderLength(s)
  }

  /** The TCP header of a reset, with the checksum of the segment it answers. */
  function ResetTcp(s: seq<byte>, n: Unassigned): (r: seq<byte>)
    requires 20 <= |s| && 20 <= TcpHeaderLength(s) <= |s|
    ensures |r| == TcpHeaderLength(s)
  {
    ReplyHeader(s, n.seqNum, n.ackNum, n.flags, 0)[..TcpHeaderLength(s)]
  }

  /** The reset for segment `s` under IP header `h`. */
  function ResetPacket(h: seq<byte>, s: seq<byte>, junk: Unassigned): seq<byte>
    requires HeadersFit(h, s)
  {
    ResetIp(h, s) + ResetTcp(s, ResetNumbers(Parse(h, s), Announced(h, s), junk))
  }

  /** The branches of `tcp_rst`. */
  method ChooseNumbers(seg: V.Segment, length: int, junk: Unassigned) returns (n: Unassigned)
    ensures n == ResetNumbers(seg, length, junk)
  {
    var seqNum, ackNum, flags := junk.seqNum, junk.ackNum, junk.flags;
    if seg.flags.ack {
      seqNum := Swap16(Swap32(seg.ackNum) % 0x1_0000);
      flags := RST;
    } else {
      var counted := length + (if seg.flags.fin then 1 else 0) + if seg.flags.syn then 1 else 0;
      ackNum := Wrap32(seg.seqNum + counted);
    }
    n := Unassigned(seqNum, ackNum, flags);
  }

  /** `tcp_rst`, its effect on the table apart. */
  method TcpRst(buf: array<byte>, len: nat, offset: nat, junk: Unassigned) returns (n: nat)
    requires 20 <= offset <= len <= buf.Length
    requires HeadersFit(buf[..offset], buf[offset..len])
    modifies buf
    ensures n <= len
    ensures buf[..n] == ResetPacket(old(buf[..offset]), old(buf[offset..len]), junk)
  {
    var h, s := buf[..offset], buf[offset..len];
    n := offset + TcpHeaderLength(s);
    var num := ChooseNumbers(Parse(h, s), Announced(h, s), junk);
    ResetInParts(h, s, junk, n);
    WriteReset(buf, len, offset, n, num);
  }

  lemma ResetInParts(h: seq<byte>, s: seq<byte>, junk: Unassigned, n: u16)
    requires HeadersFit(h, s) && n == |h| + TcpHeaderLength(s)
    ensures var num := ResetNumbers(Parse(h, s), Announced(h, s), junk);
            ResetPacket(h, s, junk) == Readdressed(h, n) + ReplyHeader(s, num.seqNum, num.ackNum, num.flags, 0)[..n - |h|]
  {
  }

  /** The header writes of `tcp_rst`. */
  method WriteReset(buf: array<byte>, len: nat, offset: nat, n: u16, num: Unassigned)
    requires 20 <= offset && offset + 20 <= n <= len <= buf.Length
    modifies buf
    ensures buf[..n] == Readdressed(old(buf[..offset]), n)
                      + ReplyHeader(old(buf[offset..len]), num.seqNum, num.ackNum, num.flags, 0)[..n - offset]
  {
    RewriteReceived(buf, len, offset, num.seqNum, num.ackNum, num.flags, 0);
    WriteResetIp(buf, offset, len, n);
  }

  /** The IP side, seen on the `n` bytes that are sent. */
  method WriteResetIp(buf: array<byte>, offset: nat, len: nat, n: u16)
    requires 20 <= offset <= n <= len <= buf.Length
    modifies buf
    ensures buf[..n] == Readdressed(old(buf[..offset]), n) + old(buf[offset..len])[..n - offset]
  {
    ghost var h, s := buf[..offset], buf[offset..len];
    IpSwapDst(buf);
    assert buf[..offset] == SwapAddresses(h) && buf[offset..len] == s;
    StoreU16(buf, 2, n);
    assert buf[offset..len] == s;
    CutAt(buf, offset, n, len);
  }

  /** What a reset says. */
  lemma ResetFields(h: seq<byte>, s: seq<byte>, n: Unassigned)
    requires HeadersFit(h, s)
    ensures Parse(ResetIp(h, s), ResetTcp(s, n))
         == V.Segment(V.Reverse(Parse(h, s).id), n.seqNum, n.ackNum, FlagsOf(n.flags), 0)
  {
    ResetAddresses(h, s);
    ReplyHeaderFields(s, n.seqNum, n.ackNum, n.flags, 0);
    ParsedCut(h, s, ResetIp(h, s), ReplyHeader(s, n.seqNum, n.ackNum, n.flags, 0), TcpHeaderLength(s));
  }

  lemma ResetAddresses(h: seq<byte>, s: seq<byte>)
    requires HeadersFit(h, s)
    ensures U32(ResetIp(h, s), 12) == U32(h, 16) && U32(ResetIp(h, s), 16) == U32(h, 12)
  {
    SwapIsExchange(h);
    ExchangedFields(h, SwapAddresses(h), |h| + TcpHeaderLength(s));
  }

  lemma ParsedCut(h: seq<byte>, s: seq<byte>, h': seq<byte>, r: seq<byte>, k: nat)
    requires |h| >= 20 && |s| >= 20 && |h'| >= 20 && 20 <= k <= |r|
    requires U32(h', 12) == U32(h, 16) && U32(h', 16) == U32(h, 12) && U16(r, 0) == U16(s, 2) && U16(r, 2) == U16(s, 0)
    ensures Parse(h', r[..k]) == V.Segment(V.Reverse(Parse(h, s).id), U32(r, 4), U32(r, 8), FlagsOf(r[13]), U16(r, 14))
  {
    ParsedFields(h, s, h', r);
    ParsePrefix(h', r, k);
  }

  lemma ExchangedFields(h: seq<byte>, g: seq<byte>, n: u16)
    requires Exchanged(h, g)
    ensures U32(Put16(g, 2, n), 12) == U32(h, 16) && U32(Put16(g, 2, n), 16) == U32(h, 12)
  {
    var r := Put16(g, 2, n);
    assert forall i :: 12 <= i < 20 ==> r[i] == g[i];
  }

  lemma ParsedFields(h: seq<byte>, s: seq<byte>, h': seq<byte>, s': seq<byte>)
    requires |h| >= 20 && |s| >= 20 && |h'| >= 20 && |s'| >= 20
    requires U32(h', 12) == U32(h, 16) && U32(h', 16) == U32(h, 12) && U16(s', 0) == U16(s, 2) && U16(s', 2) == U16(s, 0)
    ensures Parse(h', s') == V.Segment(V.Reverse(Parse(h, s).id), U32(s', 4), U32(s', 8), FlagsOf(s'[13]), U16(s', 14))
  {
  }

  // ------------------------------------------------------------------ when its IP checksum is right

  lemma SumOfFour(a: seq<byte>, b: seq<byte>, c: seq<byte>, d: seq<byte>)
    requires |a| % 2 == |b| % 2 == |c| % 2 == 0
    ensures LeSum(a + (b + (c + d))) == LeSum(a) + LeSum(b) + LeSum(c) + LeSum(d)
  {
    LeSumConcat(a, b + (c + d));
    LeSumConcat(b, c + d);
    LeSumConcat(c, d);
  }

  /** Exchanging the addresses does not change the sum. */
  lemma ExchangeKeepsSum(h: seq<byte>, g: seq<byte>)
    requires Exchanged(h, g)
    ensures LeSum(g) == LeSum(h)
  {
    SumOfFour(h[..12], h[12..16], h[16..20], h[20..]);
    SumOfFour(g[..12], g[12..16], g[16..20], g[20..]);
    assert h == h[..12] + (h[12..16] + (h[16..20] + h[20..]));
    assert g == g[..12] + (g[12..16] + (g[16..20] + g[20..]));
    assert g[..12] == h[..12] && g[20..] == h[20..];
    assert g[12..16] == h[16..20] && g[16..20] == h[12..16];
  }

  /** A sum comes out as zero exactly for the positive multiples of 0xFFFF. */
  lemma ZeroSum(s: seq<byte>)
    ensures Sum16(s) == 0 <==> LeSum(s) > 0 && LeSum(s) % 0xFFFF == 0
  {
    FoldIsResidue(LeSum(s));
    FullResidue(LeSum(s));
  }

  lemma FullResidue(sum: nat)
    ensures Residue(sum) == 0xFFFF <==> sum > 0 && sum % 0xFFFF == 0
  {
    var q := ResidueQuotient(sum);
    if Residue(sum) == 0xFFFF {
      assert sum == 0xFFFF * (q + 1);
    } else if sum > 0 && sum % 0xFFFF == 0 {
      ResidueUnique(sum, 0xFFFF, sum / 0xFFFF - 1);
    }
  }

  /** The length field contributes its bytes in native order. */
  lemma LengthInSum(h: seq<byte>, n: u16)
    requires |h| >= 20
    ensures LeSum(Put16(h, 2, n)) == LeSum(PutNative(h, 2, 0)) + Swap16(n)
  {
    assert Put16(h, 2, n) == PutNative(h, 2, Swap16(n));
    LeSumPut(h, 2, Swap16(n));
  }

  /** Two lengths, the second one positive and small, weigh the same only if they are the same. */
  lemma SameLength(base: nat, l: u16, n: u16)
    requires base + Swap16(l) > 0 && (base + Swap16(l)) % 0xFFFF == 0 && 0 < n <= 120
    ensures (base + Swap16(n)) % 0xFFFF == 0 <==> l == n
    ensures Swap16(n) > 0
  {
    if (base + Swap16(n)) % 0xFFFF == 0 {
      var d: int := Swap16(n) - Swap16(l);
      var p, q := (base + Swap16(l)) / 0xFFFF, (base + Swap16(n)) / 0xFFFF;
      assert d == 0xFFFF * (q - p);
      assert -0xFFFF < d < 0xFFFF;
    }
  }

  lemma SameField(g: seq<byte>)
    requires |g| >= 20
    ensures Put16(g, 2, U16(g, 2)) == g
  {
  }

  /** The sum over the header of a reset. */
  lemma ResetSum(h: seq<byte>, g: seq<byte>, n: u16)
    requires Exchanged(h, g) && LeSum(h) > 0 && LeSum(h) % 0xFFFF == 0 && 0 < n <= 120
    ensures LeSum(Put16(g, 2, n)) > 0
    ensures LeSum(Put16(g, 2, n)) % 0xFFFF == 0 <==> U16(h, 2) == n
  {
    var base := LeSum(PutNative(g, 2, 0));
    SameField(g);
    ExchangeKeepsSum(h, g);
    LengthInSum(g, U16(h, 2));
    LengthInSum(g, n);
    SameLength(base, U16(h, 2), n);
  }

  /** A reset passes the stack's own IP test exactly when the packet that it answers announced
      no data: the length changes otherwise, and the checksum is not computed again. */
  lemma ResetValidIff(h: seq<byte>, s: seq<byte>, junk: Unassigned)
    requires HeadersFit(h, s) && Ihl(h[0]) == |h| && IpValid(h + s)
    ensures IpValid(ResetPacket(h, s, junk)) <==> Announced(h, s) == 0
  {
    IpTestOf(h, s);
    IpTestOf(ResetIp(h, s), ResetTcp(s, ResetNumbers(Parse(h, s), Announced(h, s), junk)));
    ZeroSum(h);
    ZeroSum(ResetIp(h, s));
    SwapIsExchange(h);
    ResetSum(h, SwapAddresses(h), |h| + TcpHeaderLength(s));
  }

  lemma IpTestOf(h: seq<byte>, rest: seq<byte>)
    requires |h| >= 20 && Ihl(h[0]) == |h|
    ensures IpValid(h + rest) <==> h[0] / 0x10 == 4 && Sum16(h) == 0
  {
    assert (h + rest)[..|h|] == h;
  }
}
