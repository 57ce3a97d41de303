/** Sequence-number comparison on the 32-bit circle. */
module SeqSpace {
  import opened Words

  /** The cast `(int32_t)(a - b)` of a 32-bit difference. */
  function SignedDiff(a: u32, b: u32): (d: int)
    ensures -0x8000_0000 <= d < 0x8000_0000
  {
    var d := Wrap32(a - b);
    if d < 0x8000_0000 then d else d - 0x1_0000_0000
  }

  predicate SeqLt(a: u32, b: u32) {
    SignedDiff(a, b) < 0
  }

  predicate SeqGeq(a: u32, b: u32) {
    SignedDiff(a, b) >= 0
  }

  /** The reset test: `num` lies in the window of `window` numbers from `next`, as the
      two macros decide it. */
  predicate InWindow(num: u32, next: u32, window: u32) {
    SeqGeq(num, next) && SeqLt(num, Wrap32(next + window))
  }

  /** The distance from `next` forward to `num` around the circle. */
  function Ahead(num: u32, next: u32): u32 {
    Wrap32(num - next)
  }

  /** For windows up to half the circle the macros decide exactly membership of the
      window of section 3.4 of RFC 9293, at every wrap position. */
  lemma WindowExact(num: u32, next: u32, window: u32)
    requires window <= 0x8000_0000
    ensures InWindow(num, next, window) <==> Ahead(num, next) < window
  {
    WrapDifference(num, next, window);
  }

  /** Half the circle is the limit: a larger window refuses even `next` itself. */
  lemma WindowLimit(next: u32, window: u32)
    ensures (forall num: u32 :: InWindow(num, next, window) <==> Ahead(num, next) < window)
       <==> window <= 0x8000_0000
  {
    forall num: u32 | window <= 0x8000_0000
      ensures InWindow(num, next, window) <==> Ahead(num, next) < window
    {
      WindowExact(num, next, window);
    }
    WrapDifference(next, next, window);
    assert window > 0x8000_0000 ==> !InWindow(next, next, window) && Ahead(next, next) < window;
  }

  lemma WrapDifference(num: u32, next: u32, window: u32)
    ensures Wrap32(num - Wrap32(next + window)) == Wrap32(Ahead(num, next) - window)
  {
    var a, b := Ahead(num, next), Wrap32(next + window);
    assert a == num - next || a == num - next + 0x1_0000_0000;
    assert b == next + window || b == next + window - 0x1_0000_0000;
  }
}
