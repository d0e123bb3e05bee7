/**
 * Natural numbers in positional notation: a digit sequence, most significant
 * digit first, in a given base. Both the big-endian integer reading of a byte
 * string (base 256) and Base58 (base 58) are instances.
 */
module Digits {

  function Pow(b: nat, e: nat): (r: nat)
    ensures b > 0 ==> r > 0
  {
    if e == 0 then 1 else b * Pow(b, e - 1)
  }

  /** Every element of `ds` is a digit of `base`. */
  predicate InBase(ds: seq<nat>, base: nat) {
    forall i :: 0 <= i < |ds| ==> ds[i] < base
  }

  /** The canonical (shortest) spelling: no zero digit in front. */
  predicate NoLeadingZero(ds: seq<nat>) {
    ds == [] || ds[0] != 0
  }

  /** The number a digit sequence denotes. */
  function FromDigits(ds: seq<nat>, base: nat): nat {
    if ds == [] then 0 else FromDigits(ds[..|ds| - 1], base) * base + ds[|ds| - 1]
  }

  /** Repeated division by `base`: the shortest digit sequence of `n` (empty for 0). */
  function ToDigits(n: nat, base: nat): (ds: seq<nat>)
    requires base >= 2
    ensures InBase(ds, base) && NoLeadingZero(ds)
    ensures ds == [] <==> n == 0
    decreases n
  {
    if n == 0 then [] else
      DivideByBase(n, base);
      ToDigits(n / base, base) + [n % base]
  }

  /** One step of repeated division makes progress, and a zero quotient leaves all of `n` as remainder. */
  lemma DivideByBase(n: nat, base: nat)
    requires n > 0 && base >= 2
    ensures n / base < n && n == (n / base) * base + n % base
    ensures n / base == 0 ==> n % base == n
  {
    var q, r := n / base, n % base;
    assert n == q * base + r;
    if q > 0 {
      MulAtLeast(q, base);
    }
  }

  lemma MulAtLeast(x: int, b: int)
    requires x >= 1 && b >= 0
    ensures x * b >= b
  {}

  /** Euclidean division has a unique quotient and remainder. */
  lemma DivModOf(q: nat, r: nat, base: nat)
    requires r < base
    ensures (q * base + r) / base == q && (q * base + r) % base == r
  {
    var n := q * base + r;
    var q', r' := n / base, n % base;
    assert n == q' * base + r';
    if q' < q {
      MulAtLeast(q - q', base);
    } else if q' > q {
      MulAtLeast(q' - q, base);
    }
  }

  lemma PowMonotone(b: nat, i: nat, j: nat)
    requires b >= 1 && i <= j
    ensures Pow(b, i) <= Pow(b, j)
    decreases j - i
  {
    if i < j {
      PowMonotone(b, i, j - 1);
      assert Pow(b, j) == b * Pow(b, j - 1);
    }
  }

  lemma {:induction false} PowAdd(b: nat, i: nat, j: nat)
    ensures Pow(b, i + j) == Pow(b, i) * Pow(b, j)
    decreases j
  {
    if j > 0 {
      PowAdd(b, i, j - 1);
      Rotate(b, Pow(b, i), Pow(b, j - 1));
    }
  }

  lemma Rotate(b: int, x: int, y: int)
    ensures b * (x * y) == x * (b * y)
  {}

  /** Reading back the digits of `n` gives `n`. */
  lemma {:induction false} FromToDigits(n: nat, base: nat)
    requires base >= 2
    ensures FromDigits(ToDigits(n, base), base) == n
    decreases n
  {
    if n > 0 {
      var q, r := n / base, n % base;
      DivideByBase(n, base);
      FromToDigits(q, base);
      var ds := ToDigits(n, base);
      assert ds == ToDigits(q, base) + [r];
      assert ds[..|ds| - 1] == ToDigits(q, base);
      assert FromDigits(ds, base) == q * base + r;
    }
  }

  /** A number with `k` digits is below `base^k`. */
  lemma {:induction false} FromDigitsBelow(ds: seq<nat>, base: nat)
    requires InBase(ds, base)
    ensures FromDigits(ds, base) < Pow(base, |ds|)
    decreases |ds|
  {
    if ds != [] {
      var p := ds[..|ds| - 1];
      FromDigitsBelow(p, base);
      ShiftBelow(FromDigits(p, base), ds[|ds| - 1], Pow(base, |p|), base);
    }
  }

  lemma ShiftBelow(f: nat, d: nat, p: nat, b: nat)
    requires f < p && d < b
    ensures f * b + d < b * p
  {
    assert (p - f) * b >= b by { MulAtLeast(p - f, b); }
  }

  /** A canonical sequence of `k > 0` digits denotes at least `base^(k-1)`. */
  lemma {:induction false} FromDigitsAtLeast(ds: seq<nat>, base: nat)
    requires ds != [] && NoLeadingZero(ds)
    ensures FromDigits(ds, base) >= Pow(base, |ds| - 1)
    decreases |ds|
  {
    var p := ds[..|ds| - 1];
    if p != [] {
      FromDigitsAtLeast(p, base);
      ShiftAtLeast(FromDigits(p, base), ds[|ds| - 1], Pow(base, |p| - 1), base);
    }
  }

  lemma ShiftAtLeast(f: nat, d: nat, p: nat, b: nat)
    requires f >= p
    ensures f * b + d >= b * p
  {
    assert (f - p) * b >= 0;
  }

  /** Canonical digit sequences are exactly what ToDigits produces. */
  lemma {:induction false} ToFromDigits(ds: seq<nat>, base: nat)
    requires base >= 2 && InBase(ds, base) && NoLeadingZero(ds)
    ensures ToDigits(FromDigits(ds, base), base) == ds
    decreases |ds|
  {
    if ds != [] {
      var p, last := ds[..|ds| - 1], ds[|ds| - 1];
      var n := FromDigits(ds, base);
      FromDigitsAtLeast(ds, base);
      DivModOf(FromDigits(p, base), last, base);
      ToFromDigits(p, base);
    }
  }

  /** Splitting a digit sequence splits the number it denotes. */
  lemma {:induction false} FromDigitsAppend(a: seq<nat>, c: seq<nat>, base: nat)
    ensures FromDigits(a + c, base) == FromDigits(a, base) * Pow(base, |c|) + FromDigits(c, base)
    decreases |c|
  {
    if c == [] {
      assert a + c == a;
    } else {
      var c', x := c[..|c| - 1], c[|c| - 1];
      assert (a + c)[..|a + c| - 1] == a + c';
      FromDigitsAppend(a, c', base);
      Regroup(FromDigits(a, base), Pow(base, |c'|), FromDigits(c', base), base, x);
    }
  }

  lemma Regroup(f: int, p: int, g: int, b: int, x: int)
    ensures (f * p + g) * b + x == f * (b * p) + (g * b + x)
  {}

  /** The number of digits of `n` is pinned down by the powers of the base around it. */
  lemma ToDigitsLength(n: nat, base: nat, k: nat)
    requires base >= 2 && k >= 1
    requires Pow(base, k - 1) <= n < Pow(base, k)
    ensures |ToDigits(n, base)| == k
  {
    var ds := ToDigits(n, base);
    FromToDigits(n, base);
    FromDigitsBelow(ds, base);
    if |ds| < k {
      PowMonotone(base, |ds|, k - 1);
    } else if |ds| > k {
      FromDigitsAtLeast(ds, base);
      PowMonotone(base, k, |ds| - 1);
    }
  }

  /** Dividing by `x` and then by `b` is dividing by `b * x`. */
  lemma DivDiv(n: nat, x: nat, b: nat)
    requires x > 0 && b > 0
    ensures n / x / b == n / (b * x)
  {
    var q1, r1 := n / x, n % x;
    var q, r2 := q1 / b, q1 % b;
    Euclid(n, x);
    Euclid(q1, b);
    Regroup(q, b, r2, x, r1);
    ShiftBelow(r2, r1, b, x);
    var d := x * b;
    assert d == b * x;
    assert n == q * d + (r2 * x + r1);
    DivModOf(q, r2 * x + r1, d);
  }

  lemma Euclid(n: nat, d: nat)
    requires d > 0
    ensures n == (n / d) * d + n % d && n % d < d
  {}

  /** Dropping the last `j` digits of `n` gives the digits of `n / base^j`. */
  lemma {:induction false} ToDigitsDrop(n: nat, base: nat, j: nat)
    requires base >= 2 && j <= |ToDigits(n, base)|
    ensures ToDigits(n, base)[..|ToDigits(n, base)| - j] == ToDigits(n / Pow(base, j), base)
    decreases j
  {
    var ds := ToDigits(n, base);
    if j == 0 {
      assert ds[..|ds|] == ds;
    } else {
      ToDigitsDrop(n, base, j - 1);
      var x := Pow(base, j - 1);
      var dm := ToDigits(n / x, base);
      assert ds[..|ds| - j] == dm[..|dm| - 1];
      DropLast(n / x, base);
      DivDiv(n, x, base);
    }
  }

  /** The digits of `n / base` are those of `n` without the last. */
  lemma DropLast(n: nat, base: nat)
    requires base >= 2 && n > 0
    ensures var ds := ToDigits(n, base); ds[..|ds| - 1] == ToDigits(n / base, base)
  {
    var ds := ToDigits(n, base);
    assert ds == ToDigits(n / base, base) + [n % base];
  }
}
