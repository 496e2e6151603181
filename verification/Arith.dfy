/** Division, rounding and powers of two, as the allocators and tables use them. */
module Arith {

  function Pow2(n: nat): (r: nat)
    ensures r > 0
  {
    if n == 0 then 1 else 2 * Pow2(n - 1)
  }

  /** align_down: the largest multiple of `b` up to `x`. */
  function AlignDown(x: nat, b: nat): (r: nat)
    requires b > 0
    ensures r <= x
  {
    x / b * b
  }

  /** Division with remainder is unique. */
  lemma {:induction false} DivUnique(x: int, b: nat, q: int, m: nat)
    requires b > 0 && x == q * b + m && m < b
    ensures x / b == q && x % b == m
  {
    var d := q - x / b;
    assert d * b == x % b - m;
    MulAtLeast(d, b);
  }

  lemma {:induction false} MulAtLeast(d: int, s: nat)
    ensures d >= 1 ==> d * s >= s
    ensures d <= -1 ==> d * s <= 0 - s
  {
  }

  lemma {:induction false} MulOrder(a: int, b: int, s: nat)
    requires a <= b
    ensures a * s <= b * s
  {
  }

  /** Multiples of `b` have quotient and remainder as expected. */
  lemma {:induction false} MulDiv(k: int, b: nat)
    requires b > 0
    ensures k * b / b == k && k * b % b == 0
  {
    DivUnique(k * b, b, k, 0);
  }

  lemma {:induction false} DivShift(x: int, k: int, b: nat)
    requires b > 0
    ensures (x + k * b) / b == x / b + k && (x + k * b) % b == x % b
  {
    assert x + k * b == (x / b + k) * b + x % b;
    DivUnique(x + k * b, b, x / b + k, x % b);
  }

  lemma {:induction false} AlignedDown(x: nat, b: nat)
    requires b > 0
    ensures AlignDown(x, b) % b == 0 && AlignDown(x, b) <= x < AlignDown(x, b) + b
  {
    MulDiv(x / b, b);
  }

  /** No multiple of `b` lies between the rounded value and `x`. */
  lemma {:induction false} AlignedBelow(x: nat, q: nat, b: nat)
    requires b > 0 && q % b == 0 && q <= x
    ensures q <= AlignDown(x, b)
  {
    assert q == q / b * b;
    if q / b > x / b {
      MulOrder(x / b + 1, q / b, b);
      assert false;
    }
    MulOrder(q / b, x / b, b);
  }

  ghost predicate Between(lo: int, p: int, hi: int) {
    lo <= p < hi
  }

  /** The numbers from `lo` up to `hi`. */
  ghost function Span(lo: int, hi: int): iset<int> {
    iset p: int | Between(lo, p, hi)
  }
}
