/** IPv4 headers in the packet buffer. */
module Ipv4 {
  import opened Words
  import opened InternetChecksum

  const MTU_SIZE := 1500
  const PROTO_ICMP: byte := 1
  const PROTO_TCP: byte := 6

  /** The header length in bytes that the first byte announces. */
  function Ihl(first: byte): (n: nat)
    ensures n <= 60 && n % 4 == 0
  {
    first % 0x10 * 4
  }

  /** What `ip_validate` accepts of a packet of |p| bytes. The length field is not looked at. */
  predicate IpValid(p: seq<byte>) {
    && |p| >= 20
    && 20 <= Ihl(p[0]) <= |p|
    && p[0] / 0x10 == 4
    && Sum16(p[..Ihl(p[0])]) == 0
  }

  method IpValidate(buf: array<byte>, len: nat) returns (ok: bool)
    requires len <= buf.Length
    ensures ok == IpValid(buf[..len])
  {
    if len < 20 {
      return false;
    }
    var ihl := Ihl(buf[0]);
    if ihl < 20 || ihl > len {
      return false;
    }
    if buf[0] / 0x10 != 4 {
      return false;
    }
    var cs, rounds := Checksum(buf, 0, ihl);
    assert buf[0..ihl] == buf[..len][..ihl];
    return cs == 0;
  }

  /** The header with source and destination exchanged. */
  function SwapAddresses(h: seq<byte>): (r: seq<byte>)
    requires |h| >= 20
    ensures |r| == |h|
  {
    h[12 := h[16]][13 := h[17]][14 := h[18]][15 := h[19]][16 := h[12]][17 := h[13]][18 := h[14]][19 := h[15]]
  }

  method IpSwapDst(buf: array<byte>)
    requires buf.Length >= 20
    modifies buf
    ensures buf[..] == SwapAddresses(old(buf[..]))
  {
    var src0, src1, src2, src3 := buf[12], buf[13], buf[14], buf[15];
    buf[12], buf[13], buf[14], buf[15] := buf[16], buf[17], buf[18], buf[19];
    buf[16], buf[17], buf[18], buf[19] := src0, src1, src2, src3;
  }

  /** `s` with its checksum stored in the field at `k`. */
  function Summed(s: seq<byte>, k: nat): (r: seq<byte>)
    requires k + 2 <= |s|
    ensures |r| == |s|
  {
    PutNative(s, k, Sum16(PutNative(s, k, 0)))
  }

  /** What was in the field before does not matter. */
  lemma SummedIgnoresField(s: seq<byte>, t: seq<byte>, k: nat)
    requires |s| == |t| && k + 2 <= |s| && PutNative(s, k, 0) == PutNative(t, k, 0)
    ensures Summed(s, k) == Summed(t, k)
  {
    var cs := Sum16(PutNative(s, k, 0));
    assert PutNative(s, k, cs) == PutNative(PutNative(s, k, 0), k, cs);
    assert PutNative(t, k, cs) == PutNative(PutNative(t, k, 0), k, cs);
  }

  /** A header turned round for the reply: addresses exchanged, then the checksum. */
  function Turned(h: seq<byte>): (r: seq<byte>)
    requires |h| >= 20
    ensures |r| == |h|
    ensures forall i :: 0 <= i < |h| && !(10 <= i < 20) ==> r[i] == h[i]
    ensures forall i :: 12 <= i < 16 ==> r[i] == h[i + 4] && r[i + 4] == h[i]
  {
    Summed(SwapAddresses(h), 10)
  }

  /** Zeroes the field at `k`, sums the bytes from `lo` to `hi`, and stores the result there. */
  method WriteSum(buf: array<byte>, lo: nat, hi: nat, k: nat)
    requires lo <= k && k + 2 <= hi <= buf.Length && hi - lo <= 0x2_0000
    modifies buf
    ensures buf[lo..hi] == Summed(old(buf[lo..hi]), k - lo)
    ensures forall i :: 0 <= i < buf.Length && !(k <= i < k + 2) ==> buf[i] == old(buf[i])
  {
    ghost var s := buf[lo..hi];
    StoreNative(buf, k, 0);
    assert buf[lo..hi] == PutNative(s, k - lo, 0);
    var cs, rounds := Checksum(buf, lo, hi - lo);
    StoreNative(buf, k, cs);
  }

  /** `ip_checksum`. */
  method IpChecksum(buf: array<byte>)
    requires buf.Length >= 20 && 20 <= Ihl(buf[0]) <= buf.Length
    modifies buf
    ensures Ihl(buf[0]) == Ihl(old(buf[0]))
    ensures buf[..Ihl(buf[0])] == Summed(old(buf[..Ihl(buf[0])]), 10)
    ensures forall i :: 0 <= i < buf.Length && !(10 <= i < 12) ==> buf[i] == old(buf[i])
  {
    var ihl := Ihl(buf[0]);
    WriteSum(buf, 0, ihl, 10);
  }

  /** The last two steps on every reply's header: addresses exchanged, then the checksum. */
  method TurnHeader(buf: array<byte>, offset: nat)
    requires 20 <= offset <= buf.Length && Ihl(buf[0]) == offset
    modifies buf
    ensures buf[..offset] == Turned(old(buf[..offset]))
    ensures buf[offset..] == old(buf[offset..])
  {
    ghost var h := buf[..offset];
    IpSwapDst(buf);
    assert buf[..offset] == SwapAddresses(h);
    IpChecksum(buf);
  }

  /** A packet with a turned header is accepted. */
  lemma TurnedIsValid(h: seq<byte>, rest: seq<byte>)
    requires |h| >= 20 && Ihl(h[0]) == |h| && h[0] / 0x10 == 4
    ensures IpValid(Turned(h) + rest)
  {
    assert (Turned(h) + rest)[..|h|] == Turned(h);
    WriteThenVerify(SwapAddresses(h), 10);
  }
}
