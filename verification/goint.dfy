/**
 * Go's `int64`: the value range and the two's-complement wrap-around that Go
 * applies silently when signed arithmetic overflows.
 */
module GoInt {

  const MinInt64: int := -0x8000_0000_0000_0000
  const MaxInt64: int := 0x7fff_ffff_ffff_ffff
  const TwoTo64: int := 0x1_0000_0000_0000_0000

  type Int64 = x: int | MinInt64 <= x <= MaxInt64

  /** The int64 that Go's arithmetic produces for the mathematical result `x`. */
  function Wrap64(x: int): (r: Int64)
    ensures MinInt64 <= x <= MaxInt64 ==> r == x
    ensures (r - x) % TwoTo64 == 0
  {
    (x - MinInt64) % TwoTo64 + MinInt64
  }

  /** Wrapping only depends on the value modulo 2^64. */
  lemma WrapCongruent(x: int, k: int)
    ensures Wrap64(x + k * TwoTo64) == Wrap64(x)
  {
    var y := x - MinInt64;
    assert (y + k * TwoTo64) % TwoTo64 == y % TwoTo64;
  }

  /**
   * One step of a wrapping multiply-accumulate: wrapping the running value
   * first does not change the wrapped result.
   */
  lemma WrapMulAdd(a: int, m: int, v: int)
    ensures Wrap64(Wrap64(a) * m + v) == Wrap64(a * m + v)
  {
    var k := (Wrap64(a) - a) / TwoTo64;
    assert Wrap64(a) == a + k * TwoTo64;
    calc {
      Wrap64(a) * m + v;
      (a + k * TwoTo64) * m + v;
      { assert (a + k * TwoTo64) * m == a * m + (k * m) * TwoTo64; }
      a * m + v + (k * m) * TwoTo64;
    }
    WrapCongruent(a * m + v, k * m);
  }
}
