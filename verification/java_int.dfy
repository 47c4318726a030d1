/** Java's 32-bit `int`: the range, and the two's-complement wrap-around of
    arithmetic that leaves it. */
module JavaInts {

  const MinInt: int := -0x8000_0000
  const MaxInt: int := 0x7FFF_FFFF
  const TwoTo32: int := 0x1_0000_0000

  predicate IsInt32(x: int) {
    MinInt <= x <= MaxInt
  }

  /** The `int` that Java arithmetic leaves when the exact result is `x`. */
  function Wrap32(x: int): (r: int)
    ensures IsInt32(r)
    ensures (r - x) % TwoTo32 == 0
    ensures IsInt32(x) ==> r == x
  {
    var m := x % TwoTo32;
    if m <= MaxInt then m else m - TwoTo32
  }

  /** Values that differ by a multiple of 2^32 wrap to the same `int`. */
  lemma {:induction false} Wrap32Congruent(x: int, y: int)
    requires (x - y) % TwoTo32 == 0
    ensures Wrap32(x) == Wrap32(y)
  {
    assert x % TwoTo32 == y % TwoTo32 by {
      var q := (x - y) / TwoTo32;
      assert x - y == q * TwoTo32;
      assert x == y + q * TwoTo32;
      ModShift(y, q);
    }
  }

  /** Adding whole multiples of the modulus leaves the remainder alone. */
  lemma {:induction false} ModShift(y: int, q: int)
    ensures (y + q * TwoTo32) % TwoTo32 == y % TwoTo32
  {
    var m := y % TwoTo32;
    var d := y / TwoTo32;
    assert y == d * TwoTo32 + m;
    assert y + q * TwoTo32 == (d + q) * TwoTo32 + m;
  }

  /** `Math.min` on `int`. */
  function Min(a: int, b: int): (r: int)
    ensures r <= a && r <= b && (r == a || r == b)
  {
    if a <= b then a else b
  }

  /** `Math.max` on `int`. */
  function Max(a: int, b: int): (r: int)
    ensures r >= a && r >= b && (r == a || r == b)
  {
    if a >= b then a else b
  }
}
