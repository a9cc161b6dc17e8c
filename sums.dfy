/** Finite sums of real-valued terms, the arithmetic under cofactor expansion and
    matrix products. */
module Sums {

  /** f(0) + f(1) + ... + f(n - 1) */
  function Sum(n: nat, f: nat -> real): real
    decreases n
  {
    if n == 0 then 0.0 else Sum(n - 1, f) + f(n - 1)
  }

  /** Sums only look at the terms below n. */
  lemma {:induction false} SumExt(n: nat, f: nat -> real, g: nat -> real)
    requires forall i: nat :: i < n ==> f(i) == g(i)
    ensures Sum(n, f) == Sum(n, g)
  {
    if n > 0 {
      SumExt(n - 1, f, g);
    }
  }

  lemma {:induction false} SumOfZeros(n: nat, f: nat -> real)
    requires forall i: nat :: i < n ==> f(i) == 0.0
    ensures Sum(n, f) == 0.0
  {
    if n > 0 {
      SumOfZeros(n - 1, f);
    }
  }

  lemma {:induction false} SumAdd(n: nat, f: nat -> real, g: nat -> real, h: nat -> real)
    requires forall i: nat :: i < n ==> h(i) == f(i) + g(i)
    ensures Sum(n, h) == Sum(n, f) + Sum(n, g)
  {
    if n > 0 {
      SumAdd(n - 1, f, g, h);
    }
  }

  lemma {:induction false} SumScale(n: nat, f: nat -> real, g: nat -> real, c: real)
    requires forall i: nat :: i < n ==> g(i) == c * f(i)
    ensures Sum(n, g) == c * Sum(n, f)
  {
    if n > 0 {
      SumScale(n - 1, f, g, c);
    }
  }

  lemma {:induction false} Combine(s: real, t: real, x: real, y: real, a: real, b: real)
    ensures (a * s + b * t) + (a * x + b * y) == a * (s + x) + b * (t + y)
  {
  }

  /** A sum of the combinations a * f(i) + b * g(i) is that combination of the sums. */
  lemma {:induction false} SumCombination(n: nat, f: nat -> real, g: nat -> real, h: nat -> real, a: real, b: real)
    requires forall i: nat :: i < n ==> h(i) == a * f(i) + b * g(i)
    ensures Sum(n, h) == a * Sum(n, f) + b * Sum(n, g)
  {
    if n > 0 {
      SumCombination(n - 1, f, g, h, a, b);
      Combine(Sum(n - 1, f), Sum(n - 1, g), f(n - 1), g(n - 1), a, b);
    }
  }

  /** Taking one term k out of a sum. */
  lemma {:induction false} SumPick(n: nat, f: nat -> real, g: nat -> real, k: nat)
    requires k < n
    requires forall i: nat :: i < n && i != k ==> g(i) == f(i)
    requires g(k) == 0.0
    ensures Sum(n, f) == Sum(n, g) + f(k)
  {
    if n - 1 == k {
      SumExt(n - 1, f, g);
    } else {
      SumPick(n - 1, f, g, k);
    }
  }

  /** A sum with a single non-zero term is that term. */
  lemma {:induction false} SumSingle(n: nat, f: nat -> real, k: nat)
    requires k < n
    requires forall i: nat :: i < n && i != k ==> f(i) == 0.0
    ensures Sum(n, f) == f(k)
  {
    var z: nat -> real := (i: nat) => 0.0;
    SumPick(n, f, z, k);
    SumOfZeros(n, z);
  }

  /** Two sums that differ in two places, where the two differing terms have the
      same total, are equal. */
  lemma {:induction false} SumTwo(n: nat, f: nat -> real, g: nat -> real, a: nat, b: nat)
    requires a < n && b < n && a != b
    requires forall i: nat :: i < n && i != a && i != b ==> f(i) == g(i)
    requires f(a) + f(b) == g(a) + g(b)
    ensures Sum(n, f) == Sum(n, g)
  {
    var f1: nat -> real := (i: nat) => if i == a then 0.0 else f(i);
    var f2: nat -> real := (i: nat) => if i == a || i == b then 0.0 else f(i);
    var g1: nat -> real := (i: nat) => if i == a then 0.0 else g(i);
    var g2: nat -> real := (i: nat) => if i == a || i == b then 0.0 else g(i);
    SumPick(n, f, f1, a);
    SumPick(n, f1, f2, b);
    SumPick(n, g, g1, a);
    SumPick(n, g1, g2, b);
    SumExt(n, f2, g2);
  }

  /** Exchanging the order of a double sum. */
  lemma {:induction false} SumExchange(n: nat, m: nat, F: (nat, nat) -> real)
    ensures Sum(n, (i: nat) => Sum(m, (j: nat) => F(i, j))) == Sum(m, (j: nat) => Sum(n, (i: nat) => F(i, j)))
  {
    if n > 0 {
      var rows: nat -> real := (i: nat) => Sum(m, (j: nat) => F(i, j));
      var before: nat -> real := (j: nat) => Sum(n - 1, (i: nat) => F(i, j));
      var last: nat -> real := (j: nat) => F(n - 1, j);
      var cols: nat -> real := (j: nat) => Sum(n, (i: nat) => F(i, j));
      SumExchange(n - 1, m, F);
      SumAdd(m, before, last, cols);
      calc {
        Sum(n, rows);
        Sum(n - 1, rows) + rows(n - 1);
        Sum(m, before) + Sum(m, last);
        Sum(m, cols);
      }
    } else {
      SumOfZeros(m, (j: nat) => Sum(n, (i: nat) => F(i, j)));
    }
  }

  /** Reindexing a sum over all indices but j. */
  lemma {:induction false} SumSkip(n: nat, j: nat, g: nat -> real)
    requires j <= n
    ensures Sum(n, (k: nat) => g(if k < j then k else k + 1)) == Sum(n + 1, (l: nat) => if l == j then 0.0 else g(l))
  {
    var h: nat -> real := (l: nat) => if l == j then 0.0 else g(l);
    if j == n {
      SumExt(n, (k: nat) => g(if k < j then k else k + 1), h);
    } else {
      SumSkip(n - 1, j, g);
    }
  }

  /** A double sum of the negated transposed terms is the negated double sum. */
  lemma {:induction false} SumTransposeNeg(n: nat, F: (nat, nat) -> real, G: (nat, nat) -> real)
    requires forall a: nat, b: nat :: a < n && b < n ==> G(a, b) == - F(b, a)
    ensures Sum(n, (a: nat) => Sum(n, (b: nat) => G(a, b))) == - Sum(n, (a: nat) => Sum(n, (b: nat) => F(a, b)))
  {
    var rows: nat -> real := (a: nat) => Sum(n, (b: nat) => G(a, b));
    var cols: nat -> real := (j: nat) => Sum(n, (i: nat) => F(i, j));
    SumExchange(n, n, F);
    forall a: nat | a < n
      ensures rows(a) == -1.0 * cols(a)
    {
      SumScale(n, (i: nat) => F(i, a), (b: nat) => G(a, b), -1.0);
    }
    SumScale(n, cols, rows, -1.0);
  }
}
