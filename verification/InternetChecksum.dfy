/** The Internet checksum. The code sums little-endian words natively and folds the
    carries at the end; RFC 1071 adds big-endian words with end-around carry. */
module InternetChecksum {
  import opened Words

  // ------------------------------------------------------------------ the code

  /** What the summing loop accumulates: little-endian words, and a lone last byte as it is. */
  function LeSum(s: seq<byte>): nat {
    if |s| == 0 then 0
    else if |s| == 1 then s[0]
    else Word(s[1], s[0]) + LeSum(s[2..])
  }

  /** The value of the folding loop: carries above 16 bits added back until none is left. */
  function Fold(sum: nat): u16 {
    if sum < 0x1_0000 then sum else Fold(sum % 0x1_0000 + sum / 0x1_0000)
  }

  /** How often the folding loop adds carries back. */
  function Rounds(sum: nat): nat {
    if sum < 0x1_0000 then 0 else 1 + Rounds(sum % 0x1_0000 + sum / 0x1_0000)
  }

  /** Two rounds are enough for any 32-bit sum. */
  lemma TwoRounds(sum: u32)
    ensures Rounds(sum) <= 2
  {
    var next := sum % 0x1_0000 + sum / 0x1_0000;
    if sum >= 0x1_0000 && next >= 0x1_0000 {
      assert next <= 0x1_FFFE && next % 0x1_0000 + next / 0x1_0000 < 0x1_0000;
      assert Rounds(next) == 1;
    }
  }

  /** The checksum that the code computes over `s`, as the native 16-bit value. */
  function Sum16(s: seq<byte>): u16 {
    0xFFFF - Fold(LeSum(s))
  }

  /** `checksum(buf + off, len)`. The accumulator is a wrapping 32-bit word; for every
      length an IPv4 packet can have it does not wrap, and folding takes two rounds at most. */
  method Checksum(buf: array<byte>, off: nat, len: nat) returns (cs: u16, ghost rounds: nat)
    requires off + len <= buf.Length
    requires len <= 0x2_0000
    ensures cs == Sum16(buf[off..off + len])
    ensures rounds == Rounds(LeSum(buf[off..off + len])) <= 2
  {
    var sum := Accumulate(buf, off, len);
    var folded;
    folded, rounds := FoldCarries(sum);
    cs := 0xFFFF - folded;
  }

  /** The summing loop. */
  method Accumulate(buf: array<byte>, off: nat, len: nat) returns (sum: u32)
    requires off + len <= buf.Length
    requires len <= 0x2_0000
    ensures sum == LeSum(buf[off..off + len])
  {
    ghost var s := buf[off..off + len];
    SumFits(s);
    sum := 0;
    var ptr, left := off, len;
    while left > 1
      invariant 0 <= left && off <= ptr && ptr + left == off + len
      invariant sum + LeSum(s[ptr - off..]) == LeSum(s)
    {
      LeSumStep(s, ptr - off);
      var word := Word(buf[ptr + 1], buf[ptr]);
      StaysBelow(sum + word);
      sum := Wrap32(sum + word);
      ptr, left := ptr + 2, left - 2;
    }
    LeSumEnd(s, ptr - off);
    if left > 0 {
      StaysBelow(sum + buf[ptr]);
      sum := Wrap32(sum + buf[ptr]);
    }
  }

  lemma SumFits(s: seq<byte>)
    requires |s| <= 0x2_0000
    ensures LeSum(s) < 0x1_0000_0000
  {
    LeSumBound(s);
    assert (|s| + 1) / 2 <= 0x1_0000;
  }

  lemma LeSumEnd(s: seq<byte>, k: nat)
    requires k <= |s| <= k + 1
    ensures LeSum(s[k..]) == if k < |s| then s[k] else 0
  {
  }

  lemma StaysBelow(x: nat)
    requires x < 0x1_0000_0000
    ensures Wrap32(x) == x
  {
  }

  lemma LeSumStep(s: seq<byte>, k: nat)
    requires k + 2 <= |s|
    ensures LeSum(s[k..]) == Word(s[k + 1], s[k]) + LeSum(s[k + 2..])
  {
    assert s[k..][2..] == s[k + 2..];
  }

  /** The end-around carry loop. */
  method FoldCarries(sum0: u32) returns (sum: u16, ghost rounds: nat)
    ensures sum == Fold(sum0)
    ensures rounds == Rounds(sum0) <= 2
  {
    TwoRounds(sum0);
    var acc: u32 := sum0;
    rounds := 0;
    while acc / 0x1_0000 != 0
      invariant Fold(acc) == Fold(sum0)
      invariant rounds + Rounds(acc) == Rounds(sum0)
      decreases acc
    {
      acc := acc % 0x1_0000 + acc / 0x1_0000;
      rounds := rounds + 1;
    }
    sum := acc;
  }

  lemma {:induction false} LeSumBound(s: seq<byte>)
    ensures LeSum(s) <= 0xFFFF * ((|s| + 1) / 2)
  {
    if |s| > 1 {
      LeSumBound(s[2..]);
    }
  }

  // ------------------------------------------------------------------ arithmetic modulo 0xFFFF

  /** The closed form of folding: the representative of `sum` modulo 0xFFFF, taken from
      1..0xFFFF unless `sum` is zero. */
  function Residue(sum: nat): u16 {
    if sum == 0 then 0 else (sum - 1) % 0xFFFF + 1
  }

  /** The representative is unique, whatever the quotient. */
  lemma ResidueUnique(sum: nat, r: int, q: int)
    requires sum > 0 && 1 <= r <= 0xFFFF && sum == r + 0xFFFF * q
    ensures Residue(sum) == r
  {
    assert (sum - 1) / 0xFFFF == q;
  }

  lemma ResidueQuotient(sum: nat) returns (q: nat)
    ensures sum == Residue(sum) + 0xFFFF * q
    ensures sum > 0 ==> Residue(sum) > 0
  {
    q := if sum == 0 then 0 else (sum - 1) / 0xFFFF;
  }

  /** Two positive sums fold alike exactly when they differ by a multiple of 0xFFFF. */
  lemma ResidueEq(a: nat, b: nat)
    requires a > 0 && b > 0
    ensures Residue(a) == Residue(b) <==> (a - b) % 0xFFFF == 0
  {
    var p := ResidueQuotient(a);
    var q := ResidueQuotient(b);
    if Residue(a) == Residue(b) {
      assert a - b == 0xFFFF * (p - q);
    } else if (a - b) % 0xFFFF == 0 {
      ResidueUnique(a, Residue(b), q + (a - b) / 0xFFFF);
    }
  }

  lemma {:induction false} FoldIsResidue(sum: nat)
    ensures Fold(sum) == Residue(sum)
    decreases sum
  {
    if sum >= 0x1_0000 {
      var next := sum % 0x1_0000 + sum / 0x1_0000;
      FoldIsResidue(next);
      var q := ResidueQuotient(next);
      ResidueUnique(sum, Residue(next), q + sum / 0x1_0000);
    }
  }

  // ------------------------------------------------------------------ RFC 1071

  /** One's complement addition of 16-bit words: the carry comes back in at the low end. */
  function OnesAdd(a: u16, b: u16): u16 {
    if a + b > 0xFFFF then a + b - 0xFFFF else a + b
  }

  /** Section 1 of RFC 1071: the one's complement sum of big-endian words, with an odd
      last byte padded by zero on the right. */
  function OnesSum(s: seq<byte>): u16 {
    if |s| == 0 then 0
    else if |s| == 1 then Word(s[0], 0)
    else OnesAdd(Word(s[0], s[1]), OnesSum(s[2..]))
  }

  /** The plain sum of the same big-endian words. */
  function BeSum(s: seq<byte>): nat {
    if |s| == 0 then 0
    else if |s| == 1 then Word(s[0], 0)
    else Word(s[0], s[1]) + BeSum(s[2..])
  }

  lemma {:induction false} OnesSumIsResidue(s: seq<byte>)
    ensures OnesSum(s) == Residue(BeSum(s))
  {
    if |s| > 1 {
      OnesSumIsResidue(s[2..]);
      var q := ResidueQuotient(BeSum(s[2..]));
      if BeSum(s) > 0 {
        var carry := if Word(s[0], s[1]) + OnesSum(s[2..]) > 0xFFFF then 1 else 0;
        ResidueUnique(BeSum(s), OnesSum(s), q + carry);
      }
    }
  }

  /** Reading the words the other way round multiplies the sum by 256 modulo 0xFFFF. */
  lemma {:induction false} LeSumIsSwapped(s: seq<byte>) returns (q: nat)
    ensures 0x100 * BeSum(s) == LeSum(s) + 0xFFFF * q
    ensures LeSum(s) == 0 <==> BeSum(s) == 0
  {
    q := 0;
    if |s| == 1 {
      q := s[0];
    } else if |s| > 1 {
      q := LeSumIsSwapped(s[2..]);
      q := q + s[0];
    }
  }

  lemma Swap16Complement(x: u16)
    ensures Swap16(0xFFFF - x) == 0xFFFF - Swap16(x)
  {
    assert 0xFFFF - x == Word(0xFF - x / 0x100, 0xFF - x % 0x100);
  }

  /** The native checksum, stored without swapping, is byte for byte the big-endian
      checksum of RFC 1071. */
  lemma MatchesRfc1071(s: seq<byte>)
    ensures Sum16(s) == Swap16(0xFFFF - OnesSum(s))
  {
    var o := OnesSum(s);
    OnesSumIsResidue(s);
    FoldIsResidue(LeSum(s));
    var q := LeSumIsSwapped(s);
    var p := ResidueQuotient(BeSum(s));
    if LeSum(s) > 0 {
      var hi: int, lo: int := o / 0x100, o % 0x100;
      assert Swap16(o) == lo * 0x100 + hi;
      var quotient: int := 0x100 * p;
      ResidueUnique(LeSum(s), Swap16(o), quotient - q + hi);
    }
    Swap16Complement(o);
  }

  // ------------------------------------------------------------------ writing and verifying

  /** `s` with the native word `v` stored at `k`, low byte first. */
  function PutNative(s: seq<byte>, k: nat, v: u16): (r: seq<byte>)
    requires k + 2 <= |s|
    ensures |r| == |s|
  {
    s[k := v % 0x100][k + 1 := v / 0x100]
  }

  /** The native word at `k`. */
  function Native(s: seq<byte>, k: nat): u16
    requires k + 2 <= |s|
  {
    Word(s[k + 1], s[k])
  }

  method StoreNative(buf: array<byte>, k: nat, v: u16)
    requires k + 2 <= buf.Length
    modifies buf
    ensures buf[..] == PutNative(old(buf[..]), k, v)
  {
    buf[k] := v % 0x100;
    buf[k + 1] := v / 0x100;
  }

  /** Stored in a field as the code stores it, the checksum is byte for byte the one of RFC 1071
      in network order. */
  lemma StoredIsRfc1071(s: seq<byte>, k: nat, z: seq<byte>)
    requires k + 2 <= |s|
    ensures PutNative(s, k, Sum16(z)) == Put16(s, k, 0xFFFF - OnesSum(z))
  {
    MatchesRfc1071(z);
    SwappedBytes(0xFFFF - OnesSum(z));
  }

  lemma SwappedBytes(x: u16)
    ensures Swap16(x) % 0x100 == x / 0x100 && Swap16(x) / 0x100 == x % 0x100
  {
    var hi: int, lo: int := x / 0x100, x % 0x100;
    assert Swap16(x) == lo * 0x100 + hi;
  }

  /** An aligned word contributes exactly its native value to the sum. */
  lemma {:induction false} LeSumPut(s: seq<byte>, k: nat, v: u16)
    requires k + 2 <= |s| && k % 2 == 0
    ensures LeSum(PutNative(s, k, v)) == LeSum(PutNative(s, k, 0)) + v
  {
    var a, z := PutNative(s, k, v), PutNative(s, k, 0);
    if k == 0 {
      assert a[2..] == z[2..];
    } else {
      LeSumPut(s[2..], k - 2, v);
      assert a[2..] == PutNative(s[2..], k - 2, v);
      assert z[2..] == PutNative(s[2..], k - 2, 0);
    }
  }

  /** Zeroing an aligned field, storing the checksum there and summing again gives zero. */
  lemma WriteThenVerify(s: seq<byte>, k: nat)
    requires k + 2 <= |s| && k % 2 == 0
    ensures Sum16(PutNative(s, k, Sum16(PutNative(s, k, 0)))) == 0
  {
    var z := PutNative(s, k, 0);
    var c := Sum16(z);
    LeSumPut(s, k, c);
    FoldIsResidue(LeSum(z));
    FoldIsResidue(LeSum(z) + c);
    var q := ResidueQuotient(LeSum(z));
    ResidueUnique(LeSum(z) + c, 0xFFFF, q);
  }

  /** Recomputing with the field zeroed and comparing accepts what summing to zero
      accepts, except that a stored 0xFFFF is refused (unless everything else is zero). */
  lemma RecomputeVersusSumToZero(s: seq<byte>, k: nat)
    requires k + 2 <= |s| && k % 2 == 0
    ensures var z := PutNative(s, k, 0);
            Native(s, k) == Sum16(z) <==>
            Sum16(s) == 0 && (Native(s, k) != 0xFFFF || LeSum(z) == 0)
  {
    var z, v := PutNative(s, k, 0), Native(s, k);
    LeSumPut(s, k, v);
    assert PutNative(s, k, v) == s;
    FoldIsResidue(LeSum(z));
    FoldIsResidue(LeSum(s));
    if v == Sum16(z) {
      WriteThenVerify(s, k);
    }
    if LeSum(z) > 0 && Sum16(s) == 0 && v != 0xFFFF {
      var q := ResidueQuotient(LeSum(s));
      ResidueUnique(LeSum(z), 0xFFFF - v, q);
    }
  }

  /** Sums of an even-length prefix and the rest add up. */
  lemma {:induction false} LeSumConcat(a: seq<byte>, b: seq<byte>)
    requires |a| % 2 == 0
    ensures LeSum(a + b) == LeSum(a) + LeSum(b)
  {
    if |a| == 0 {
      assert a + b == b;
    } else {
      LeSumConcat(a[2..], b);
      assert (a + b)[2..] == a[2..] + b;
    }
  }
}
