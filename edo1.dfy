/** The first-order equation page, `services/edo/js/edo1.js`: the input sanitizer
    that guards the expression handed to the evaluator, the validator that enables
    the solve button, and the right side `s.split('=').slice(1).join('=').trim()`
    that both click handlers extract. */
module Edo1 {
  import opened Text
  import opened Options

  // ---------------------------------------------------------------------------
  // sanitizeMathExpression

  /** The class `[0-9xysin()cos()tan()log()exp()sqrt()abs()\s\+\-\*\/\^\.\,\'\"\(\)]`:
      digits, white space, the letters of the function names and the operators. */
  predicate SanitizerChar(c: char)
  {
    || IsDigit(c) || IsSpace(c)
    || c == 'x' || c == 'y' || c == 's' || c == 'i' || c == 'n' || c == 'c' || c == 'o' || c == 't'
    || c == 'a' || c == 'l' || c == 'g' || c == 'e' || c == 'p' || c == 'q' || c == 'r' || c == 'b'
    || c == '+' || c == '-' || c == '*' || c == '/' || c == '^' || c == '.' || c == ',' || c == '\''
    || c == '"' || c == '(' || c == ')'
  }

  predicate AllSanitizerChars(s: string)
  {
    forall i :: 0 <= i < |s| ==> SanitizerChar(s[i])
  }

  /** `expr.length`: characters outside the Basic Multilingual Plane count twice. */
  function Utf16Length(s: string): nat
  {
    if s == [] then 0 else Utf16Length(s[..|s| - 1]) + if s[|s| - 1] as int > 0xFFFF then 2 else 1
  }

  const MaxExpressionLength: nat := 200

  /** The forbidden patterns, in the order the source checks them and as the error message
      names them. */
  const DangerousPatterns: seq<string> :=
    ["eval", "Function", "constructor", "apply", "call", "document", "window", "innerHTML"]

  /** The same patterns lower-cased, as the test compares them. */
  const LoweredPatterns: seq<string> :=
    ["eval", "function", "constructor", "apply", "call", "document", "window", "innerhtml"]

  /** `toLowerCase` on the ASCII letters. */
  function LowerChar(c: char): char
  {
    if 'A' <= c <= 'Z' then (c as int + 32) as char else c
  }

  function Lower(s: string): (t: string)
    ensures |t| == |s| && forall i :: 0 <= i < |s| ==> t[i] == LowerChar(s[i])
  {
    seq(|s|, i requires 0 <= i < |s| => LowerChar(s[i]))
  }

  /** The lowered list is `pattern.toLowerCase()` of each pattern. */
  lemma {:induction false} PatternsLowered()
    ensures |LoweredPatterns| == |DangerousPatterns| == 8
    ensures forall k :: 0 <= k < 8 ==> Lower(DangerousPatterns[k]) == LoweredPatterns[k]
  {
    assert Lower("Function") == "function";
    assert Lower("innerHTML") == "innerhtml";
    assert Lower("eval") == "eval" && Lower("constructor") == "constructor";
    assert Lower("apply") == "apply" && Lower("call") == "call";
    assert Lower("document") == "document" && Lower("window") == "window";
  }

  /** The index of the first pattern from k on that occurs in the lower-cased text. */
  function FirstDangerous(lowered: string, k: nat): (r: Option<nat>)
    requires k <= |LoweredPatterns|
    ensures r.Some? ==> k <= r.value < |LoweredPatterns| && Contains(lowered, LoweredPatterns[r.value])
    ensures r.Some? ==> forall j :: k <= j < r.value ==> !Contains(lowered, LoweredPatterns[j])
    ensures r.None? <==> forall j :: k <= j < |LoweredPatterns| ==> !Contains(lowered, LoweredPatterns[j])
    decreases |LoweredPatterns| - k
  {
    if k == |LoweredPatterns| then None
    else if Contains(lowered, LoweredPatterns[k]) then Some(k)
    else FirstDangerous(lowered, k + 1)
  }

  datatype SanitizeError = TooLong | BadCharacters | Forbidden(pattern: string)

  /** `null`, a thrown error, or the expression itself. */
  datatype Sanitized = Empty | Rejected(error: SanitizeError) | Accepted(expr: string)

  /** `sanitizeMathExpression(expr)` on a string. */
  function Sanitize(expr: string): Sanitized
  {
    if expr == [] then Empty
    else if Utf16Length(expr) > MaxExpressionLength then Rejected(TooLong)
    else if !AllSanitizerChars(expr) then Rejected(BadCharacters)
    else
      match FirstDangerous(Lower(expr), 0)
      case Some(k) => Rejected(Forbidden(DangerousPatterns[k]))
      case None => Accepted(expr)
  }

  /** On the allowed characters lower-casing changes nothing. */
  lemma {:induction false} LowerOfAllowed(s: string)
    requires AllSanitizerChars(s)
    ensures Lower(s) == s
  {
    forall i | 0 <= i < |s|
      ensures Lower(s)[i] == s[i]
    {
      assert SanitizerChar(s[i]);
    }
  }

  /** Every character of a word occurring in s is one of s's characters. */
  lemma {:induction false} OccurringWordAllowed(s: string, w: string, c: char)
    requires AllSanitizerChars(s) && Contains(s, w) && c in w
    ensures SanitizerChar(c)
  {
    var i: nat :| i <= |s| && OccursAt(s, w, i);
    var k :| 0 <= k < |w| && w[k] == c;
    assert s[i..i + |w|][k] == s[i + k];
  }

  /** A string the sanitizer accepts is returned unchanged; it is accepted exactly
      when it is non-empty, at most 200 UTF-16 units long, made of allowed characters
      and free of every forbidden pattern in any letter case. */
  lemma {:induction false} SanitizeAccepts(expr: string)
    ensures Sanitize(expr).Accepted? ==> Sanitize(expr).expr == expr
    ensures Sanitize(expr).Accepted? <==>
      && expr != [] && Utf16Length(expr) <= 200 && AllSanitizerChars(expr)
      && forall k :: 0 <= k < |DangerousPatterns| ==> !Contains(expr, Lower(DangerousPatterns[k]))
    ensures Sanitize(expr) == Empty <==> expr == []
  {
    PatternsLowered();
    if AllSanitizerChars(expr) {
      LowerOfAllowed(expr);
    }
  }

  /** Of the eight forbidden patterns only "apply" and "call" are spelt with allowed
      characters, so once the character test has passed, the pattern test rejects
      exactly the strings containing "apply" or "call", and names the first of them. */
  lemma {:induction false} OnlyApplyAndCall(expr: string)
    requires AllSanitizerChars(expr)
    ensures FirstDangerous(Lower(expr), 0).Some? <==> Contains(expr, "apply") || Contains(expr, "call")
    ensures FirstDangerous(Lower(expr), 0).Some? ==>
      DangerousPatterns[FirstDangerous(Lower(expr), 0).value] == if Contains(expr, "apply") then "apply" else "call"
  {
    LowerOfAllowed(expr);
    OtherPatternsNeverOccur(expr);
  }

  /** The six patterns spelt with a letter the class lacks: 'v', 'f', 'u', 'd', 'w'
      and 'h'. */
  lemma {:induction false} OtherPatternsNeverOccur(expr: string)
    requires AllSanitizerChars(expr)
    ensures forall k :: 0 <= k < |LoweredPatterns| && k != 3 && k != 4 ==> !Contains(expr, LoweredPatterns[k])
  {
    NeverOccurs(expr, LoweredPatterns[0], 1);
    NeverOccurs(expr, LoweredPatterns[1], 0);
    NeverOccurs(expr, LoweredPatterns[2], 6);
    NeverOccurs(expr, LoweredPatterns[5], 0);
    NeverOccurs(expr, LoweredPatterns[6], 0);
    NeverOccurs(expr, LoweredPatterns[7], 5);
  }

  /** A word with a character outside the class never occurs in a string inside it. */
  lemma {:induction false} NeverOccurs(s: string, w: string, k: nat)
    requires AllSanitizerChars(s) && k < |w| && !SanitizerChar(w[k])
    ensures !Contains(s, w)
  {
    if Contains(s, w) {
      OccurringWordAllowed(s, w, w[k]);
    }
  }

  // ---------------------------------------------------------------------------
  // validateEDO1 and the right side

  /** The class `validChars` of the validator,
      `[0-9xysin()cos()tan()ln()exp()\s\+\-\*\/\^\.\,\=\'\(\)]`: unlike the
      sanitizer's it has '=' but no 'g', 'q', 'r', 'b' and no double quote. */
  predicate RhsChar(c: char)
  {
    || IsDigit(c) || IsSpace(c)
    || c == 'x' || c == 'y' || c == 's' || c == 'i' || c == 'n' || c == 'c' || c == 'o' || c == 't'
    || c == 'a' || c == 'l' || c == 'e' || c == 'p'
    || c == '+' || c == '-' || c == '*' || c == '/' || c == '^' || c == '.' || c == ',' || c == '='
    || c == '\'' || c == '(' || c == ')'
  }

  predicate AllRhsChars(s: string)
  {
    forall i :: 0 <= i < |s| ==> RhsChar(s[i])
  }

  /** `parts[0].trim()`. */
  function LeftSide(s: string): string
  {
    Trim(BeforeFirst(s, '='))
  }

  /** `parts.slice(1).join('=').trim()`, the same expression in both click handlers. */
  function RightSide(s: string): string
  {
    Trim(AfterFirst(s, '='))
  }

  /** `validateEDO1(equation)` on a string. */
  function ValidateEdo1(s: string): bool
  {
    if Trim(s) == [] then false
    else if |Split(s, '=')| < 2 then false
    else
      var left, right := LeftSide(s), RightSide(s);
      if !Contains(left, "dy/dx") && !Contains(left, "dy") && !Contains(left, "y'") then false
      else if right == [] then false
      else AllRhsChars(right)
  }

  /** The validator, stated on the text around the first '=': there is one, the
      trimmed text before it names `dy` or `y'` (the `dy/dx` test adds nothing), and
      the trimmed text after it, later '=' included, is non-empty and made of the
      validator's characters. */
  lemma {:induction false} ValidateEdo1AtFirstEquals(s: string)
    ensures ValidateEdo1(s) <==>
      && '=' in s
      && NamesDerivative(Trim(s[..IndexOf(s, '=')]))
      && Trim(s[IndexOf(s, '=') + 1..]) != []
      && AllRhsChars(Trim(s[IndexOf(s, '=') + 1..]))
  {
    if '=' in s {
      ValidateWithEquals(s);
      SplitAtFirst(s, '=');
      assert LeftSide(s) == Trim(s[..IndexOf(s, '=')]);
      assert RightSide(s) == Trim(s[IndexOf(s, '=') + 1..]);
    }
  }

  /** With an '=' in s the validator comes down to its tests on the two sides. */
  lemma {:induction false} ValidateWithEquals(s: string)
    requires '=' in s
    ensures ValidateEdo1(s) == (NamesDerivative(LeftSide(s)) && RightSide(s) != [] && AllRhsChars(RightSide(s)))
  {
    TrimEmpty(s);
    assert !IsSpace(s[IndexOf(s, '=')]);
    DerivativeTest(LeftSide(s));
  }

  /** The left side names the derivative: `dy` (which `dy/dx` contains) or `y'`. */
  predicate NamesDerivative(left: string)
  {
    Contains(left, "dy") || Contains(left, "y'")
  }

  /** The validator's three tests on the left side come to two. */
  lemma {:induction false} DerivativeTest(left: string)
    ensures (Contains(left, "dy/dx") || Contains(left, "dy") || Contains(left, "y'")) <==> NamesDerivative(left)
  {
    if Contains(left, "dy/dx") {
      PrefixOccurs(left, "dy/dx", "dy");
    }
  }

  /** What the solve button shows: the format reminder when there is no '=', or the
      equation with its right side followed by one of the canned solutions, chosen by
      the first test that matches. */
  datatype Edo1Form = SeparableXY | LinearXPlusY | InverseSquare | SineIntegral | FormalIntegral
  datatype Edo1Outcome = FormatReminder | Shown(rhs: string, form: Edo1Form)

  function ClassifyRhs(rhs: string): Edo1Form
  {
    if Contains(rhs, "*") && Contains(rhs, "x") && Contains(rhs, "y") then SeparableXY
    else if Contains(rhs, "x + y") then LinearXPlusY
    else if Contains(rhs, "y^2") then InverseSquare
    else if Contains(rhs, "sin(x)") then SineIntegral
    else FormalIntegral
  }

  /** The solve handler on `eq.value || ''`. */
  function SolveEdo1(s: string): Edo1Outcome
  {
    if |Split(s, '=')| < 2 then FormatReminder
    else Shown(RightSide(s), ClassifyRhs(RightSide(s)))
  }

  /** The RK4 handler up to the evaluator: the format reminder, the error card for a
      right side the sanitizer does not return, or the expression handed to
      `math.evaluate`. */
  datatype Rk4Start = Rk4FormatReminder | Rk4Error(reason: Sanitized) | Rk4Evaluate(expr: string)

  function Rk4StartOf(s: string): Rk4Start
  {
    if |Split(s, '=')| < 2 then Rk4FormatReminder
    else
      match Sanitize(RightSide(s))
      case Accepted(e) => Rk4Evaluate(e)
      case other => Rk4Error(other)
  }

  /** An equation the validator accepts reaches the solutions, and the right side
      shown is the validated one: the trimmed text after the first '='. */
  lemma {:induction false} SolveShowsValidatedRhs(s: string)
    requires ValidateEdo1(s)
    ensures SolveEdo1(s).Shown?
    ensures SolveEdo1(s).rhs == Trim(s[IndexOf(s, '=') + 1..]) && SolveEdo1(s).rhs != []
  {
    SplitAtFirst(s, '=');
  }

  /** "x + y" contains 'x' and 'y', so the linear solution is only chosen for a right
      side without '*'. */
  lemma {:induction false} LinearHasNoStar(rhs: string)
    requires ClassifyRhs(rhs) == LinearXPlusY
    ensures !Contains(rhs, "*") && Contains(rhs, "x") && Contains(rhs, "y")
  {
    PrefixOccurs(rhs, "x + y", "x");
    var i: nat :| i <= |rhs| && OccursAt(rhs, "x + y", i);
    assert rhs[i + 4..i + 5] == rhs[i..i + 5][4..];
    assert OccursAt(rhs, "y", i + 4);
  }

  /** A validated right side reaches the evaluator when it has no '=' (which only the
      validator allows), is at most 200 units long and contains neither "apply" nor
      "call". */
  lemma {:induction false} ValidatedReachesEvaluator(s: string)
    requires ValidateEdo1(s)
    requires '=' !in RightSide(s) && Utf16Length(RightSide(s)) <= 200
    requires !Contains(RightSide(s), "apply") && !Contains(RightSide(s), "call")
    ensures Rk4StartOf(s) == Rk4Evaluate(RightSide(s))
  {
    var r := RightSide(s);
    assert '=' in s;
    ValidateWithEquals(s);
    forall i | 0 <= i < |r|
      ensures SanitizerChar(r[i])
    {
      RhsCharBesidesEquals(r[i]);
    }
    OnlyApplyAndCall(r);
    SanitizeAcceptsClean(r);
  }

  /** Sanitizing a short, non-empty text of allowed characters with no pattern in it
      returns it. */
  lemma {:induction false} SanitizeAcceptsClean(e: string)
    requires e != [] && Utf16Length(e) <= 200 && AllSanitizerChars(e)
    requires FirstDangerous(Lower(e), 0).None?
    ensures Sanitize(e) == Accepted(e)
  {
  }

  /** The validator's class without '=' lies inside the sanitizer's. */
  lemma {:induction false} RhsCharBesidesEquals(c: char)
    requires RhsChar(c) && c != '='
    ensures SanitizerChar(c)
  {
  }

  /** The validator allows '=' on the right side and the sanitizer does not: every
      validated equation with a second '=' (such as "dy/dx = x = y") ends in the RK4
      error card. */
  lemma {:induction false} SecondEqualsRejectedByRk4(s: string)
    requires ValidateEdo1(s) && '=' in RightSide(s)
    ensures Rk4StartOf(s) == Rk4Error(Rejected(if Utf16Length(RightSide(s)) > 200 then TooLong else BadCharacters))
  {
    var r := RightSide(s);
    var k :| 0 <= k < |r| && r[k] == '=';
    EqualsOutsideSanitizerClass();
    SanitizeRejectsChar(r, k);
  }

  lemma {:induction false} EqualsOutsideSanitizerClass()
    ensures !SanitizerChar('=')
  {
  }

  /** A character outside the class makes the sanitizer throw: for the length if the
      text is too long, for the characters otherwise. */
  lemma {:induction false} SanitizeRejectsChar(e: string, k: nat)
    requires k < |e| && !SanitizerChar(e[k])
    ensures Sanitize(e) == Rejected(if Utf16Length(e) > 200 then TooLong else BadCharacters)
  {
  }

  /** Each character takes one or two UTF-16 units. */
  lemma {:induction false} Utf16AtMostTwice(s: string)
    ensures |s| <= Utf16Length(s) <= 2 * |s|
  {
    if s != [] {
      Utf16AtMostTwice(s[..|s| - 1]);
    }
  }
  /** The length limit of 200 UTF-16 units lets through every text of at most 100
      characters and stops every text of more than 200 characters. */
  lemma {:induction false} LengthLimitInCharacters(e: string)
    ensures |e| <= MaxExpressionLength / 2 ==> Sanitize(e) != Rejected(TooLong)
    ensures |e| > MaxExpressionLength ==> Sanitize(e) == Rejected(TooLong)
  {
    Utf16AtMostTwice(e);
  }
}
