/**
 Rounding to multiples, and the size-class table behind `s2u`, `size2index`,
 `index2size` and `extent_quantize`.

 The class table is a parameter: any strictly increasing sequence of positive
 sizes.  Rounding macros such as CHUNK_CEILING are written arithmetically; for a
 power of two `m`, `(x + (m - 1)) & -m` is `(x + m - 1) / m * m`.
 */
module SizeClasses {

  /** The smallest multiple of `m` that is at least `x`. */
  function Ceil(x: nat, m: nat): (r: nat)
    requires m > 0
    ensures x <= r < x + m
    ensures r % m == 0
    ensures x % m == 0 ==> r == x
  {
    var q := (x + m - 1) / m;
    DivMul(q, m);
    assert x + m - 1 == q * m + (x + m - 1) % m;
    if x % m == 0 then
      var p := x / m;
      assert x == p * m;
      QuotientBetween(p, m, m - 1);
      q * m
    else
      q * m
  }

  lemma DivMul(q: nat, m: nat)
    requires m > 0
    ensures (q * m) % m == 0 && (q * m) / m == q
  {
    QuotientBetween(q, m, 0);
  }

  /** Division recovers the quotient of `q * m + r`. */
  lemma QuotientBetween(q: nat, m: nat, r: nat)
    requires r < m
    ensures (q * m + r) / m == q && (q * m + r) % m == r
  {
    var n := q * m + r;
    var d := n / m;
    assert n == d * m + n % m;
    if d < q {
      NextMultiple(d, q, m);
    } else if q < d {
      NextMultiple(q, d, m);
    }
  }

  lemma {:induction false} NextMultiple(a: nat, b: nat, m: nat)
    requires a < b
    ensures a * m + m <= b * m
  {
    assert b * m == (b - 1) * m + m;
    if a < b - 1 {
      NextMultiple(a, b - 1, m);
    }
  }

  /** A positive multiple of `m` is at least `m`; a multiple below `b` (itself a multiple) leaves room for one more `m`. */
  lemma MultipleGap(a: nat, b: nat, m: nat)
    requires m > 0 && a % m == 0 && b % m == 0 && a < b
    ensures a + m <= b && (b - a) % m == 0
  {
    var p, q := a / m, b / m;
    assert a == p * m && b == q * m;
    assert p < q;
    assert (p + 1) * m <= q * m;
    assert b - a == (q - p) * m;
    DivMul(q - p, m);
  }

  lemma MultipleSum(a: nat, b: nat, m: nat)
    requires m > 0 && a % m == 0 && b % m == 0
    ensures (a + b) % m == 0
  {
    var p, q := a / m, b / m;
    assert a + b == (p + q) * m;
    DivMul(p + q, m);
  }

  /** Multiples are transitive: a multiple of `n` is a multiple of every divisor of `n`. */
  lemma MultipleTrans(a: nat, n: nat, m: nat)
    requires n > 0 && m > 0 && a % n == 0 && n % m == 0
    ensures a % m == 0
  {
    var p, q := a / n, n / m;
    assert a == p * n && n == q * m;
    assert a == (p * q) * m;
    DivMul(p * q, m);
  }

  ghost predicate IsTable(cs: seq<nat>) {
    && |cs| > 0
    && cs[0] > 0
    && forall i, j :: 0 <= i < j < |cs| ==> cs[i] < cs[j]
  }

  /** `size2index`: the first class that is large enough, or |cs| (NSIZES) when none is. */
  function Size2Index(cs: seq<nat>, size: nat): (i: nat)
    ensures i <= |cs|
    ensures i < |cs| ==> size <= cs[i]
    ensures forall j :: 0 <= j < i ==> cs[j] < size
  {
    if cs == [] || size <= cs[0] then 0
    else
      var i := Size2Index(cs[1..], size);
      assert forall j :: 0 < j < i + 1 ==> cs[j] == cs[1..][j - 1];
      i + 1
  }

  /** `s2u`: round up to a class, 0 when the request is larger than every class. */
  function S2u(cs: seq<nat>, size: nat): (u: nat) {
    var i := Size2Index(cs, size);
    if i < |cs| then cs[i] else 0
  }

  /** `extent_quantize`: `index2size(size2index(size + 1) - 1)`. */
  function Quantize(cs: seq<nat>, size: nat): (q: nat)
    requires IsTable(cs) && cs[0] <= size
    ensures q in cs && q <= size
  {
    cs[Size2Index(cs, size + 1) - 1]
  }

  /** Quantising is rounding DOWN: no class lies strictly between the result and the size. */
  lemma QuantizeIsFloor(cs: seq<nat>, size: nat, c: nat)
    requires IsTable(cs) && cs[0] <= size && c in cs
    ensures c <= size <==> c <= Quantize(cs, size)
  {
    var i := Size2Index(cs, size + 1);
    var k :| 0 <= k < |cs| && cs[k] == c;
  }

  /** Rounding up and rounding down are adjoint: the law that best fit relies on. */
  lemma RoundingAdjoint(cs: seq<nat>, request: nat, size: nat)
    requires IsTable(cs) && cs[0] <= size
    requires S2u(cs, request) != 0
    ensures request <= S2u(cs, request)
    ensures S2u(cs, request) <= size <==> request <= Quantize(cs, size)
  {
    QuantizeIsFloor(cs, size, S2u(cs, request));
    var q := Quantize(cs, size);
    var k :| 0 <= k < |cs| && cs[k] == q;
    var i := Size2Index(cs, request);
    if request <= q && i > k {
      assert cs[k] < request;
    }
  }
}
