/** Facts about division and multiplication that the other modules share. */
module Arithmetic {

  lemma MulAtLeast(d: int, size: int)
    requires 0 <= size
    ensures d >= 1 ==> d * size >= size
    ensures d <= -1 ==> d * size <= -size
  {
  }

  lemma MulMonotone(a: int, b: int, size: nat)
    requires a <= b
    ensures a * size <= b * size
  {
  }

  lemma MulCancel(a: int, b: int, size: int)
    requires 0 < size && a * size <= b * size
    ensures a <= b
  {
    assert (a - b) * size <= 0;
    MulAtLeast(a - b, size);
  }

  /** Quotient and remainder are determined by the division equation. */
  lemma DivModUnique(x: nat, size: nat, q: nat, r: nat)
    requires 0 < size && r < size && x == q * size + r
    ensures x / size == q && x % size == r
  {
    var q', r' := x / size, x % size;
    assert (q - q') * size == r' - r;
    MulAtLeast(q - q', size);
  }

  lemma ModOfMod(n: nat, a: nat, b: nat)
    requires 0 < a && 0 < b && 0 < a * b
    ensures n % (a * b) % a == n % a
  {
    var q, r := n / (a * b), n % (a * b);
    var q', r' := r / a, r % a;
    Regroup(a, b, q, q');
    DivModUnique(n, a, b * q + q', r');
  }

  lemma Regroup(a: nat, b: nat, q: nat, q': nat)
    ensures a * b * q + a * q' == (b * q + q') * a
  {
  }

  lemma DivMinus(x: nat, m: nat)
    requires 0 < m <= x
    ensures x / m == (x - m) / m + 1 && x % m == (x - m) % m
  {
    var q, r := (x - m) / m, (x - m) % m;
    assert x == (q + 1) * m + r;
    DivModUnique(x, m, q + 1, r);
  }

  /** `x` is a whole number of pieces of size `m`, by repeated subtraction. */
  predicate Whole(x: nat, m: nat)
    requires 0 < m
  {
    if x < m then x == 0 else Whole(x - m, m)
  }

  lemma WholeOnce(m: nat)
    requires 0 < m
    ensures Whole(0, m) && Whole(m, m)
  {
  }

  lemma {:induction false} WholeIsMod(x: nat, m: nat)
    requires 0 < m
    ensures Whole(x, m) <==> x % m == 0
  {
    if x < m {
      DivModUnique(x, m, 0, x);
    } else {
      WholeIsMod(x - m, m);
      DivMinus(x, m);
    }
  }

  lemma MulDistributes(a: int, b: int, m: int)
    ensures (a + b) * m == a * m + b * m
  {
  }

  /** The remainder of `x`, by repeated subtraction. */
  function Wrap(x: nat, m: nat): (r: nat)
    requires 0 < m
    ensures r < m
  {
    if x < m then x else Wrap(x - m, m)
  }

  lemma {:induction false} WrapIsMod(x: nat, m: nat)
    requires 0 < m
    ensures Wrap(x, m) == x % m
  {
    if x < m {
      DivModUnique(x, m, 0, x);
    } else {
      WrapIsMod(x - m, m);
      DivMinus(x, m);
    }
  }

  /** A remainder can be taken early. */
  lemma {:induction false} WrapEarly(x: nat, n: nat, m: nat)
    requires 0 < m
    ensures Wrap(Wrap(x, m) + n, m) == Wrap(x + n, m)
    decreases x
  {
    if x >= m {
      WrapEarly(x - m, n, m);
    }
  }

  /** Numbers less than `m` apart have different remainders. */
  lemma {:induction false} WrapsDiffer(x: nat, y: nat, m: nat)
    requires 0 < m && x < y < x + m
    ensures Wrap(x, m) != Wrap(y, m)
    decreases x
  {
    if x >= m {
      WrapsDiffer(x - m, y - m, m);
    }
  }
}
