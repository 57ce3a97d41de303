/** Machine words, and the byte order in which packet fields are kept.
    Multi-byte header fields are big-endian in the buffer; the host is little-endian,
    so a field that the code stores without swapping keeps its low byte first. */
module Words {

  type byte = b: int | 0 <= b < 0x100
  type u16 = x: int | 0 <= x < 0x1_0000
  type u32 = x: int | 0 <= x < 0x1_0000_0000

  /** The value a 32-bit unsigned variable keeps of `x`. */
  function Wrap32(x: int): u32 {
    x % 0x1_0000_0000
  }

  /** Exchanges the two bytes of a 16-bit word: what htons and ntohs do on this host. */
  function Swap16(x: u16): u16 {
    x % 0x100 * 0x100 + x / 0x100
  }

  /** Reverses the four bytes of a 32-bit word: what htonl and ntohl do on this host. */
  function Swap32(x: u32): u32 {
    Swap16(x % 0x1_0000) as int * 0x1_0000 + Swap16(x / 0x1_0000)
  }

  /** The word whose bytes are `hi` and `lo`. */
  function Word(hi: byte, lo: byte): u16 {
    hi as int * 0x100 + lo
  }

  /** The 16-bit field at `k`, as ntohs reads it. */
  function U16(p: seq<byte>, k: nat): u16
    requires k + 2 <= |p|
  {
    Word(p[k], p[k + 1])
  }

  /** The 32-bit field at `k`, as ntohl reads it. */
  function U32(p: seq<byte>, k: nat): u32
    requires k + 4 <= |p|
  {
    U16(p, k) as int * 0x1_0000 + U16(p, k + 2)
  }

  /** The bytes of `p` from `k` on replaced by `bytes`. */
  function Put(p: seq<byte>, k: nat, bytes: seq<byte>): (r: seq<byte>)
    requires k + |bytes| <= |p|
    ensures |r| == |p|
    ensures forall i :: 0 <= i < |p| ==> r[i] == if k <= i < k + |bytes| then bytes[i - k] else p[i]
  {
    p[..k] + bytes + p[k + |bytes|..]
  }

  function Put16(p: seq<byte>, k: nat, v: u16): (r: seq<byte>)
    requires k + 2 <= |p|
    ensures |r| == |p| && U16(r, k) == v
  {
    p[k := v / 0x100][k + 1 := v % 0x100]
  }

  function Put32(p: seq<byte>, k: nat, v: u32): (r: seq<byte>)
    requires k + 4 <= |p|
    ensures |r| == |p| && U32(r, k) == v
  {
    Put16(Put16(p, k, v / 0x1_0000), k + 2, v % 0x1_0000)
  }

  method StoreU16(buf: array<byte>, k: nat, v: u16)
    requires k + 2 <= buf.Length
    modifies buf
    ensures buf[..] == Put16(old(buf[..]), k, v)
  {
    buf[k] := v / 0x100;
    buf[k + 1] := v % 0x100;
  }

  method StoreU32(buf: array<byte>, k: nat, v: u32)
    requires k + 4 <= buf.Length
    modifies buf
    ensures buf[..] == Put32(old(buf[..]), k, v)
  {
    StoreU16(buf, k, v / 0x1_0000);
    StoreU16(buf, k + 2, v % 0x1_0000);
  }

  /** memcpy of `bytes` to `buf + k`. */
  method Copy(buf: array<byte>, k: nat, bytes: seq<byte>)
    requires k + |bytes| <= buf.Length
    modifies buf
    ensures buf[..] == Put(old(buf[..]), k, bytes)
  {
    ghost var was := buf[..];
    for i := 0 to |bytes|
      invariant buf[..] == Put(was, k, bytes[..i])
    {
      buf[k + i] := bytes[i];
      assert buf[..] == Put(was, k, bytes[..i + 1]);
    }
    assert bytes[..|bytes|] == bytes;
  }

  /** The bytes from `k` to `n`. */
  lemma PartOf(buf: array<byte>, k: nat, n: nat)
    requires k <= n <= buf.Length
    ensures buf[k..n] == buf[k..][..n - k]
  {
  }

  /** The first `n` bytes, cut at `k`. */
  lemma CutAt(buf: array<byte>, k: nat, n: nat, len: nat)
    requires k <= n <= len <= buf.Length
    ensures buf[..n] == buf[..k] + buf[k..len][..n - k]
  {
  }
}
