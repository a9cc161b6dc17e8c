/** The string operations the formatter and the equation validators rely on, with
    JavaScript's meaning: decimal digits and `${n}` for an integer, the whitespace
    set of `\s` and `trim`, `includes`, `split` on one character and `join`.
    Strings are sequences of Unicode scalar values. */
module Text {
  import opened Options

  predicate IsDigit(c: char)
  {
    '0' <= c <= '9'
  }

  predicate AllDigits(s: string)
  {
    forall i :: 0 <= i < |s| ==> IsDigit(s[i])
  }

  function DigitChar(d: nat): (c: char)
    requires d < 10
    ensures IsDigit(c)
  {
    ('0' as int + d) as char
  }

  function DigitValue(c: char): (d: nat)
    requires IsDigit(c)
    ensures d < 10
  {
    c as int - '0' as int
  }

  /** The number a string of decimal digits denotes, most significant digit first. */
  function DigitsValue(s: string): nat
    requires AllDigits(s)
  {
    if s == [] then 0 else 10 * DigitsValue(s[..|s| - 1]) + DigitValue(s[|s| - 1])
  }

  /** `${n}` for n >= 0: the decimal digits without leading zeros. */
  function NatToString(n: nat): (s: string)
    ensures 1 <= |s| && AllDigits(s)
    ensures s[0] == '0' ==> n == 0 && s == "0"
    decreases n
  {
    if n < 10 then [DigitChar(n)] else NatToString(n / 10) + [DigitChar(n % 10)]
  }

  /** Reading the digits back gives n. */
  lemma {:induction false} NatToStringValue(n: nat)
    ensures DigitsValue(NatToString(n)) == n
    decreases n
  {
    var s := NatToString(n);
    if n >= 10 {
      NatToStringValue(n / 10);
      assert s[..|s| - 1] == NatToString(n / 10);
    }
  }

  /** `${n}` for any integer: a minus sign before the digits of |n|. */
  function IntToString(n: int): string
  {
    if n < 0 then "-" + NatToString(- n) else NatToString(n)
  }

  /** A string of the shape `${n}` produces: an optional minus sign, then digits. */
  predicate IsIntText(s: string)
  {
    if |s| >= 1 && s[0] == '-' then |s| >= 2 && AllDigits(s[1..]) else |s| >= 1 && AllDigits(s)
  }

  /** The integer such a string denotes. */
  function ParseInt(s: string): int
    requires IsIntText(s)
  {
    if s[0] == '-' then - (DigitsValue(s[1..]) as int) else DigitsValue(s)
  }

  /** `${n}` is an integer text without '/', '-' appears only in front, and it reads
      back as n. */
  lemma {:induction false} IntToStringRoundTrip(n: int)
    ensures IsIntText(IntToString(n)) && ParseInt(IntToString(n)) == n
    ensures '/' !in IntToString(n)
    ensures '-' in IntToString(n) <==> n < 0
  {
    var m := if n < 0 then - n else n;
    NatToStringValue(m);
    var s := IntToString(n);
    if n < 0 {
      assert s[1..] == NatToString(m);
    }
    assert forall i :: 0 <= i < |NatToString(m)| ==> IsDigit(NatToString(m)[i]);
  }

  /** The characters of `\s` and of `trim`: the JavaScript white space and line
      terminators. */
  predicate IsSpace(c: char)
  {
    c == '\t' || c == '\n' || c == '\U{000B}' || c == '\U{000C}' || c == '\r' || c == ' '
    || c == '\U{00A0}' || c == '\U{1680}' || ('\U{2000}' <= c <= '\U{200A}')
    || c == '\U{2028}' || c == '\U{2029}' || c == '\U{202F}' || c == '\U{205F}'
    || c == '\U{3000}' || c == '\U{FEFF}'
  }

  predicate AllSpace(s: string)
  {
    forall i :: 0 <= i < |s| ==> IsSpace(s[i])
  }

  /** The number of white-space characters s starts with. */
  function LeadingSpaces(s: string): (n: nat)
    ensures n <= |s| && (n == |s| || !IsSpace(s[n]))
  {
    if s != [] && IsSpace(s[0]) then 1 + LeadingSpaces(s[1..]) else 0
  }

  lemma {:induction false} LeadingAreSpaces(s: string)
    ensures AllSpace(s[..LeadingSpaces(s)])
  {
    if s != [] && IsSpace(s[0]) {
      LeadingAreSpaces(s[1..]);
      assert s[..LeadingSpaces(s)] == [s[0]] + s[1..][..LeadingSpaces(s[1..])];
    }
  }

  /** The position where the white space s ends with begins. */
  function TrailingStart(s: string): (n: nat)
    ensures n <= |s| && (n == 0 || !IsSpace(s[n - 1]))
  {
    if s != [] && IsSpace(s[|s| - 1]) then TrailingStart(s[..|s| - 1]) else |s|
  }

  lemma {:induction false} TrailingAreSpaces(s: string)
    ensures AllSpace(s[TrailingStart(s)..])
  {
    if s != [] && IsSpace(s[|s| - 1]) {
      TrailingAreSpaces(s[..|s| - 1]);
      assert s[TrailingStart(s)..] == s[..|s| - 1][TrailingStart(s[..|s| - 1])..] + [s[|s| - 1]];
    }
  }

  /** `s.trimStart()`. */
  function TrimStart(s: string): (t: string)
    ensures t == [] || !IsSpace(t[0])
  {
    s[LeadingSpaces(s)..]
  }

  /** `s.trimEnd()`. */
  function TrimEnd(s: string): (t: string)
    ensures t == [] || !IsSpace(t[|t| - 1])
  {
    s[..TrailingStart(s)]
  }

  /** `s.trim()`: s without its leading and trailing white space. */
  function Trim(s: string): (t: string)
    ensures t == [] || (!IsSpace(t[0]) && !IsSpace(t[|t| - 1]))
  {
    TrimEnd(TrimStart(s))
  }

  /** Trimming leaves nothing exactly when the string is all white space. */
  lemma {:induction false} TrimEmpty(s: string)
    ensures Trim(s) == [] <==> AllSpace(s)
  {
    var n := LeadingSpaces(s);
    var u := TrimStart(s);
    LeadingAreSpaces(s);
    TrailingAreSpaces(u);
    if Trim(s) == [] {
      assert TrailingStart(u) == 0 && u[0..] == u;
      assert s == s[..n] + u;
    } else {
      assert u[0] == s[n];
    }
  }

  /** Leading white space does not change `trimStart`. */
  lemma {:induction false} TrimStartSpaces(p: string, x: string)
    requires AllSpace(p)
    ensures LeadingSpaces(p + x) == |p| + LeadingSpaces(x)
    ensures TrimStart(p + x) == TrimStart(x)
    decreases |p|
  {
    if p != [] {
      assert (p + x)[0] == p[0] && IsSpace(p[0]);
      assert (p + x)[1..] == p[1..] + x;
      TrimStartSpaces(p[1..], x);
    } else {
      assert p + x == x;
    }
    assert (p + x)[|p| + LeadingSpaces(x)..] == x[LeadingSpaces(x)..];
  }

  /** Trailing white space does not change `trimEnd`. */
  lemma {:induction false} TrimEndSpaces(x: string, q: string)
    requires AllSpace(q)
    ensures TrailingStart(x + q) == TrailingStart(x)
    ensures TrimEnd(x + q) == TrimEnd(x)
    decreases |q|
  {
    if q != [] {
      assert (x + q)[|x + q| - 1] == q[|q| - 1] && IsSpace(q[|q| - 1]);
      assert (x + q)[..|x + q| - 1] == x + q[..|q| - 1];
      TrimEndSpaces(x, q[..|q| - 1]);
    } else {
      assert x + q == x;
    }
    assert (x + q)[..TrailingStart(x)] == x[..TrailingStart(x)];
  }

  /** `trim` removes exactly the white space padding a text that neither starts
      nor ends with white space. */
  lemma {:induction false} TrimPadded(p: string, a: string, q: string)
    requires AllSpace(p) && AllSpace(q)
    requires a == [] || (!IsSpace(a[0]) && !IsSpace(a[|a| - 1]))
    ensures Trim(p + a + q) == a
  {
    assert p + a + q == p + (a + q);
    TrimStartSpaces(p, a + q);
    if a == [] {
      TrimStartSpaces(q, []);
      assert q + [] == q && a + q == q;
      assert TrimStart([]) == [];
    } else {
      assert (a + q)[0] == a[0];
      assert TrimStart(a + q) == a + q;
      TrimEndSpaces(a, q);
      assert TrimEnd(a) == a;
    }
  }


  /** w occurs in s at position i. */
  predicate OccursAt(s: string, w: string, i: nat)
  {
    i + |w| <= |s| && s[i..i + |w|] == w
  }

  /** `s.includes(w)`: w occurs in s at some position. */
  predicate Contains(s: string, w: string)
  {
    exists i: nat | i <= |s| :: OccursAt(s, w, i)
  }

  /** When a word occurs, so does each of its prefixes. */
  lemma {:induction false} PrefixOccurs(s: string, w: string, v: string)
    requires Contains(s, w) && |v| <= |w| && w[..|v|] == v
    ensures Contains(s, v)
  {
    var i: nat :| i <= |s| && OccursAt(s, w, i);
    assert s[i..i + |v|] == s[i..i + |w|][..|v|];
    assert OccursAt(s, v, i);
  }

  /** The first position of c in s (`indexOf`). */
  function IndexOf(s: string, c: char): (i: nat)
    requires c in s
    ensures i < |s| && s[i] == c && c !in s[..i]
  {
    if s[0] == c then 0
    else
      var i := 1 + IndexOf(s[1..], c);
      assert s[..i] == [s[0]] + s[1..][..i - 1];
      i
  }

  /** `s.split(sep)` for a one-character separator: the pieces between the
      separators, one more than there are separators. */
  function Split(s: string, sep: char): (parts: seq<string>)
    ensures |parts| >= 1
    ensures |parts| >= 2 <==> sep in s
    decreases |s|
  {
    if sep in s then
      var i := IndexOf(s, sep);
      [s[..i]] + Split(s[i + 1..], sep)
    else
      [s]
  }

  /** `parts.join(sep)`. */
  function Join(parts: seq<string>, sep: char): string
  {
    if |parts| == 0 then ""
    else if |parts| == 1 then parts[0]
    else parts[0] + [sep] + Join(parts[1..], sep)
  }

  /** Joining the pieces of a split gives back the string. */
  lemma {:induction false} SplitJoin(s: string, sep: char)
    ensures Join(Split(s, sep), sep) == s
    decreases |s|
  {
    if sep in s {
      var i := IndexOf(s, sep);
      SplitJoin(s[i + 1..], sep);
      assert s == s[..i] + [sep] + s[i + 1..];
    }
  }

  /** `s.split(sep)[0]`: the text before the first separator, or all of s. */
  function BeforeFirst(s: string, sep: char): (t: string)
    ensures sep !in t
  {
    Split(s, sep)[0]
  }

  /** `s.split(sep).slice(1).join(sep)`: the text after the first separator, which
      may contain further separators. */
  function AfterFirst(s: string, sep: char): string
  {
    Join(Split(s, sep)[1..], sep)
  }

  /** The split is cut at the first separator and the rest is kept whole. */
  lemma {:induction false} SplitAtFirst(s: string, sep: char)
    requires sep in s
    ensures BeforeFirst(s, sep) == s[..IndexOf(s, sep)]
    ensures AfterFirst(s, sep) == s[IndexOf(s, sep) + 1..]
  {
    var i := IndexOf(s, sep);
    SplitJoin(s[i + 1..], sep);
  }

  /** Cutting a + [sep] + b, with no separator in a, gives back a and b. */
  lemma {:induction false} SplitAround(a: string, b: string, sep: char)
    requires sep !in a
    ensures sep in a + [sep] + b
    ensures BeforeFirst(a + [sep] + b, sep) == a && AfterFirst(a + [sep] + b, sep) == b
  {
    var s := a + [sep] + b;
    assert s[|a|] == sep;
    assert s[..|a|] == a;
    var i := IndexOf(s, sep);
    SplitAtFirst(s, sep);
    assert s[..|a|] == a && s[|a| + 1..] == b;
  }

  /** When sep occurs in s, the text before the first separator is the same in s + t. */
  lemma {:induction false} BeforeFirstOfAppend(s: string, t: string, sep: char)
    requires sep in s
    ensures sep in s + t && BeforeFirst(s + t, sep) == BeforeFirst(s, sep)
  {
    var i := IndexOf(s, sep);
    var j := IndexOf(s + t, sep);
    assert (s + t)[i] == sep;
    assert (s + t)[..i] == s[..i];
    SplitAtFirst(s, sep);
    SplitAtFirst(s + t, sep);
  }
}
