/**
 Carry-less multiplication (src/instructions/register.rs), for registers of any width: bits from the lowest up.
 The reference is the product of polynomials over the field of two elements, as the Zbc instructions of
 RISC-V Bitmanip 1.0.0 use it.
 */
module CarryLess {

  type Bits = seq<bool>

  function Zero(width: nat): Bits { seq(width, k => false) }

  function Xor(a: Bits, b: Bits): (r: Bits)
    requires |a| == |b|
    ensures |r| == |a|
  {
    seq(|a|, k requires 0 <= k < |a| => a[k] != b[k])
  }

  function Shl(a: Bits, n: nat): (r: Bits)
    ensures |r| == |a|
  {
    seq(|a|, k requires 0 <= k < |a| => k >= n && a[k - n])
  }

  function Shr(a: Bits, n: nat): (r: Bits)
    ensures |r| == |a|
  {
    seq(|a|, k requires 0 <= k < |a| => k + n < |a| && a[k + n])
  }

  // ---------------------------------------------------------------- the polynomial product

  /** The term of x^j in `b` and x^(n-j) in `a`. */
  predicate Term(a: Bits, b: Bits, n: int, j: int) {
    0 <= j < |b| && 0 <= n - j < |a| && b[j] && a[n - j]
  }

  /** The sum, in two elements, of the first `j` terms of coefficient `n`. */
  function Sum(a: Bits, b: Bits, n: int, j: nat): bool {
    if j == 0 then false else Sum(a, b, n, j - 1) != Term(a, b, n, j - 1)
  }

  function Coefficient(a: Bits, b: Bits, n: int): bool { Sum(a, b, n, |b|) }

  function Product(a: Bits, b: Bits): (p: Bits)
    ensures |p| == |a| + |b|
  {
    seq(|a| + |b|, n => Coefficient(a, b, n))
  }

  /** Terms from `j` on are all zero. */
  lemma {:induction false} NoMoreTerms(a: Bits, b: Bits, n: int, j: nat, more: nat)
    requires forall i :: j <= i < j + more ==> !Term(a, b, n, i)
    ensures Sum(a, b, n, j + more) == Sum(a, b, n, j)
    decreases more
  {
    if more > 0 { NoMoreTerms(a, b, n, j, more - 1); }
  }

  /** The product is one short of twice the width: its top coefficient is zero. */
  lemma {:induction false} TopIsZero(a: Bits, b: Bits)
    requires |a| == |b| > 0
    ensures !Coefficient(a, b, 2 * |a| - 1)
  {
    NoMoreTerms(a, b, 2 * |a| - 1, 0, |b|);
  }

  // ---------------------------------------------------------------- the loops

  method Clmul(a: Bits, b: Bits) returns (x: Bits)
    requires |a| == |b|
    ensures x == Product(a, b)[..|a|]
  {
    x := Zero(|a|);
    for i := 0 to |b|
      invariant |x| == |a| && forall k :: 0 <= k < |a| ==> x[k] == Sum(a, b, k, i)
    {
      if b[i] {
        x := Xor(x, Shl(a, i));
      }
    }
  }

  method Clmulh(a: Bits, b: Bits) returns (x: Bits)
    requires |a| == |b|
    ensures x == Product(a, b)[|a|..]
  {
    x := Zero(|a|);
    if |b| > 0 {
      forall k | 0 <= k < |a| ensures x[k] == Sum(a, b, k + |a|, 1) { FirstTermIsLow(a, b, k); }
      for i := 1 to |b|
        invariant |x| == |a| && forall k :: 0 <= k < |a| ==> x[k] == Sum(a, b, k + |a|, i)
      {
        if b[i] {
          x := Xor(x, Shr(a, |a| - i));
        }
      }
    }
  }

  /** The lowest bit of `b` reaches no coefficient of the high half. */
  lemma {:induction false} FirstTermIsLow(a: Bits, b: Bits, k: nat)
    requires |a| == |b| > 0
    ensures !Sum(a, b, k + |a|, 1)
  {
  }

  method Clmulr(a: Bits, b: Bits) returns (x: Bits)
    requires |a| == |b|
    ensures |x| == |a| && forall k :: 0 <= k < |a| ==> x[k] == Coefficient(a, b, k + |a| - 1)
  {
    x := Zero(|a|);
    for i := 0 to |b|
      invariant |x| == |a| && forall k :: 0 <= k < |a| ==> x[k] == Sum(a, b, k + |a| - 1, i)
    {
      if b[i] {
        x := Xor(x, Shr(a, |a| - 1 - i));
      }
    }
  }

  /** The reversed product is the high half moved up by one, with the top bit of the low half below it. */
  method Reversed(a: Bits, b: Bits) returns (low: Bits, high: Bits, reversed: Bits)
    requires |a| == |b| > 0
    ensures |low| == |high| == |a| && low + high == Product(a, b) && !high[|a| - 1]
    ensures reversed == [low[|a| - 1]] + high[..|a| - 1]
  {
    low := Clmul(a, b);
    high := Clmulh(a, b);
    reversed := Clmulr(a, b);
    TopIsZero(a, b);
    forall k | 0 <= k < |a| ensures reversed[k] == ([low[|a| - 1]] + high[..|a| - 1])[k] {
      assert Coefficient(a, b, k + |a| - 1) == Product(a, b)[k + |a| - 1];
    }
  }

  // ---------------------------------------------------------------- laws of the product

  /** Distributivity over exclusive or. */
  lemma {:induction false} SumDistributes(a: Bits, b: Bits, c: Bits, n: int, j: nat)
    requires |b| == |c|
    ensures Sum(a, Xor(b, c), n, j) == (Sum(a, b, n, j) != Sum(a, c, n, j))
  {
    if j > 0 {
      SumDistributes(a, b, c, n, j - 1);
      assert Term(a, Xor(b, c), n, j - 1) == (Term(a, b, n, j - 1) != Term(a, c, n, j - 1));
    }
  }

  lemma {:induction false} ProductDistributes(a: Bits, b: Bits, c: Bits)
    requires |b| == |c|
    ensures Product(a, Xor(b, c)) == Xor(Product(a, b), Product(a, c))
  {
    forall n | 0 <= n < |a| + |b| ensures Coefficient(a, Xor(b, c), n) == (Coefficient(a, b, n) != Coefficient(a, c, n)) {
      SumDistributes(a, b, c, n, |b|);
    }
  }

  /** The terms from `i` to `j`, taken from the top down. */
  function SumDown(a: Bits, b: Bits, n: int, i: int, j: int): bool
    requires i <= j
    decreases j - i
  {
    if i == j then false else SumDown(a, b, n, i + 1, j) != Term(a, b, n, i)
  }

  lemma {:induction false} SumDownSnoc(a: Bits, b: Bits, n: int, i: int, j: int)
    requires i <= j
    ensures SumDown(a, b, n, i, j + 1) == (SumDown(a, b, n, i, j) != Term(a, b, n, j))
    decreases j - i
  {
    if i < j { SumDownSnoc(a, b, n, i + 1, j); } else { assert !SumDown(a, b, n, j + 1, j + 1) && !SumDown(a, b, n, j, j); }
  }

  lemma {:induction false} SumIsSumDown(a: Bits, b: Bits, n: int, j: nat)
    ensures Sum(a, b, n, j) == SumDown(a, b, n, 0, j)
  {
    if j > 0 {
      SumIsSumDown(a, b, n, j - 1);
      SumDownSnoc(a, b, n, 0, j - 1);
    }
  }

  /** Exchanging the factors turns the order of the terms around. */
  lemma {:induction false} Mirrored(a: Bits, b: Bits, n: nat, j: nat)
    requires j <= n + 1
    ensures Sum(b, a, n, j) == SumDown(a, b, n, n + 1 - j, n + 1)
  {
    if j > 0 {
      Mirrored(a, b, n, j - 1);
      assert Term(b, a, n, j - 1) == Term(a, b, n, n + 1 - j);
    }
  }

  /** A coefficient may be summed as far as its degree, or as far as the factor reaches. */
  lemma {:induction false} SumToDegree(a: Bits, b: Bits, n: nat)
    ensures Coefficient(a, b, n) == Sum(a, b, n, n + 1)
  {
    if |b| <= n + 1 {
      NoMoreTerms(a, b, n, |b|, n + 1 - |b|);
    } else {
      NoMoreTerms(a, b, n, n + 1, |b| - (n + 1));
    }
  }

  lemma {:induction false} ProductCommutes(a: Bits, b: Bits)
    ensures Product(a, b) == Product(b, a)
  {
    forall n | 0 <= n < |a| + |b| ensures Coefficient(a, b, n) == Coefficient(b, a, n) {
      SumToDegree(a, b, n);
      SumToDegree(b, a, n);
      Mirrored(a, b, n, n + 1);
      SumIsSumDown(a, b, n, n + 1);
    }
  }
}
