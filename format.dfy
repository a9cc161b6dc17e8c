/** `fmt(v)`, the way every value is printed in the steps: the fraction `toFraction`
    finds with denominators up to 2000 and the default tolerance `1e-10`, written
    `n` when the denominator is 1 and `n/d` otherwise. The three page scripts have
    the same `fmt`. */
module Format {
  import opened Text
  import opened Fractions

  const FmtMaxDen: int := 2000
  const FractionEps: real := 0.0000000001

  /** The fraction `fmt` prints. */
  function FmtFraction(v: real): (int, int)
  {
    ToFractionOf(v, FmtMaxDen, FractionEps)
  }

  /** `fmt(v)` for a finite number v. */
  function Fmt(v: real): string
  {
    var (n, d) := FmtFraction(v);
    if d == 1 then IntToString(n) else IntToString(n) + "/" + IntToString(d)
  }

  /** The printed text has a '/' exactly when the denominator is not 1; each part
      reads back as the numerator and the denominator, so the text determines the
      fraction. The denominator is between 1 and 2000, the fraction is in lowest
      terms and only the numerator carries a sign. */
  lemma {:induction false} FmtReadsBack(v: real)
    ensures var (n, d) := FmtFraction(v);
      && 1 <= d <= 2000 && Coprime(n, d)
      && (v < 0.0 ==> n <= 0) && (v >= 0.0 ==> n >= 0)
      && ('/' in Fmt(v) <==> d != 1)
      && (d == 1 ==> IsIntText(Fmt(v)) && ParseInt(Fmt(v)) == n)
      && (d != 1 ==>
            var i := IndexOf(Fmt(v), '/');
            && IsIntText(Fmt(v)[..i]) && ParseInt(Fmt(v)[..i]) == n
            && IsIntText(Fmt(v)[i + 1..]) && ParseInt(Fmt(v)[i + 1..]) == d)
  {
    var (n, d) := FmtFraction(v);
    ToFractionBounds(v, FmtMaxDen, FractionEps);
    IntToStringRoundTrip(n);
    IntToStringRoundTrip(d);
    var s := Fmt(v);
    if d != 1 {
      var a, b := IntToString(n), IntToString(d);
      assert s == a + "/" + b;
      assert s[|a|] == '/';
      assert s[..|a|] == a;
      assert '/' !in s[..|a|];
      var i := IndexOf(s, '/');
      assert i == |a|;
      assert s[i + 1..] == b;
    }
  }

  /** A value p / q with 1 <= q <= 2000 is printed as that fraction: the printed
      numerator and denominator are p / q in lowest terms. */
  lemma {:induction false} FmtExact(v: real, p: int, q: int)
    requires 1 <= q <= 2000 && v == p as real / q as real
    ensures FmtFraction(v).0 * q == p * FmtFraction(v).1
    ensures FmtFraction(v).1 >= 1 && Coprime(FmtFraction(v).0, FmtFraction(v).1)
  {
    ToFractionExact(v, FmtMaxDen, FractionEps, p, q);
  }

  /** `fmt(1.5)` is "3/2", `fmt(-0.5)` is "-1/2", `fmt(0)` is "0" and `fmt(2)` is "2". */
  lemma {:induction false} FmtExamples()
    ensures Fmt(1.5) == "3/2" && Fmt(-0.5) == "-1/2" && Fmt(0.0) == "0" && Fmt(2.0) == "2"
  {
    ThreeHalves();
    MinusOneHalf();
    WholeNumbers();
  }

  lemma {:induction false} ThreeHalves()
    ensures Fmt(1.5) == "3/2"
  {
    assert Expand(2.0, 1, 1, 1, 0, 2000, FractionEps) == (3, 2);
    assert (1.5).Floor == 1 && 1.0 / 0.5 == 2.0;
    assert Expand(1.5, 1, 0, 0, 1, 2000, FractionEps) == (3, 2);
    assert GcdOf(3, 2) == 1;
    assert FmtFraction(1.5) == (3, 2);
    SmallNumbers();
  }

  lemma {:induction false} MinusOneHalf()
    ensures Fmt(-0.5) == "-1/2"
  {
    MinusHalfFraction();
    SmallNumbers();
    assert IntToString(-1) == "-1";
  }

  lemma {:induction false} MinusHalfFraction()
    ensures FmtFraction(-0.5) == (-1, 2)
  {
    assert Expand(2.0, 0, 1, 1, 0, 2000, FractionEps) == (1, 2);
    assert (0.5).Floor == 0 && 1.0 / 0.5 == 2.0;
    assert Expand(0.5, 1, 0, 0, 1, 2000, FractionEps) == (1, 2);
    assert GcdOf(-1, 2) == 1;
  }

  lemma {:induction false} WholeNumbers()
    ensures Fmt(0.0) == "0" && Fmt(2.0) == "2"
  {
    assert Expand(0.0, 1, 0, 0, 1, 2000, FractionEps) == (0, 1);
    assert GcdOf(0, 1) == 1;
    assert FmtFraction(0.0) == (0, 1);
    assert Expand(2.0, 1, 0, 0, 1, 2000, FractionEps) == (2, 1);
    assert GcdOf(2, 1) == 1;
    assert FmtFraction(2.0) == (2, 1);
    SmallNumbers();
  }

  lemma {:induction false} SmallNumbers()
    ensures IntToString(0) == "0" && IntToString(1) == "1" && IntToString(2) == "2" && IntToString(3) == "3"
    ensures NatToString(1) == "1"
  {
    assert DigitChar(0) == '0';
    assert DigitChar(1) == '1';
    assert DigitChar(2) == '2';
    assert DigitChar(3) == '3';
  }
}
