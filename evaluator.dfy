/** The front end of `CalculatorEngine.evaluateExpression`: glyph
    canonicalisation, trimming, validation against the calculator's alphabet,
    the two-operand division shortcut with its zero-divisor guard, and the
    rewrite that wraps every numeric component in parentheses before the text
    is handed to the platform's expression evaluator.

    The floating-point division, the `%.12g` formatting and the platform
    evaluator itself are not modelled: the outcome of a call is an
    `Evaluation` that says which of them would run, and on what text. */
module Evaluator {
  import opened StringOps

  /** The display glyphs the keypad uses for division and multiplication. */
  const DivisionSign: char := '\U{00F7}'
  const MultiplicationSign: char := '\U{00D7}'

  /** The only text the evaluator returns on failure. */
  const ErrorSentinel: string := "Error"

  /** Why an evaluation returned `ErrorSentinel`. The source does not
      distinguish the two; the model keeps the cause for its lemmas. */
  datatype ErrorCause = InvalidCharacter | DivisionByZero

  /** The outcome of `evaluateExpression` up to the opaque steps:
      - `Failed`: the call returns `ErrorSentinel`;
      - `Quotient`: the call divides the two numbers given as text and returns
        the quotient formatted with `%.12g`;
      - `Delegated`: the call hands `expression` to the platform evaluator.
        What happens next is not modelled: a number comes back formatted with
        `%.12g`, a non-number gives `ErrorSentinel`, and text the platform
        cannot parse (such as `(5) +`) raises an exception that ends the
        program instead of returning. */
  datatype Evaluation =
    | Failed(cause: ErrorCause)
    | Quotient(numerator: string, denominator: string)
    | Delegated(expression: string)

  // ---------------------------------------------------------------------------
  // Step 1: canonical glyphs, then trimming

  /** What canonicalisation does to one character. */
  function CanonicalGlyph(c: char): char
  {
    if c == DivisionSign then '/' else if c == MultiplicationSign then '*' else c
  }

  /** Canonicalisation, character by character. */
  function CanonicalGlyphs(e: string): (r: string)
    ensures |r| == |e|
    ensures DivisionSign !in r && MultiplicationSign !in r
    ensures forall i :: 0 <= i < |e| ==> r[i] == CanonicalGlyph(e[i])
  {
    if e == [] then [] else [CanonicalGlyph(e[0])] + CanonicalGlyphs(e[1..])
  }

  /** The four `replacingOccurrences` calls, in the source's order: division
      sign to `/`, multiplication sign to `*`, then `-` and `+` to themselves.
      Together they canonicalise the glyphs and nothing else. */
  function ReplaceGlyphs(e: string): (r: string)
    ensures r == CanonicalGlyphs(e)
  {
    var r := ReplaceAll(ReplaceAll(ReplaceAll(ReplaceAll(e, DivisionSign, '/'), MultiplicationSign, '*'), '-', '-'), '+', '+');
    assert forall i :: 0 <= i < |e| ==> r[i] == CanonicalGlyphs(e)[i];
    r
  }

  /** The `formattedExpression` of the source: canonical glyphs, with leading
      and trailing whitespace and newlines removed. */
  function Formatted(e: string): (r: string)
    ensures DivisionSign !in r && MultiplicationSign !in r
    ensures IsTrimmed(r, WhitespacesAndNewlines)
  {
    var c := CanonicalGlyphs(e);
    TrimIsCore(c, WhitespacesAndNewlines);
    Trim(c, WhitespacesAndNewlines)
  }

  /** Formatting an already formatted string changes nothing. */
  lemma {:induction false} FormattedIdempotent(e: string)
    ensures Formatted(Formatted(e)) == Formatted(e)
  {
    var f := Formatted(e);
    CanonicalGlyphsFixed(f);
    TrimTrimmed(f, WhitespacesAndNewlines);
  }

  /** Whitespace and newlines around an expression do not change its formatted form. */
  lemma {:induction false} FormattedIgnoresSurroundingWhitespace(a: string, e: string, b: string)
    requires AllIn(a, WhitespacesAndNewlines) && AllIn(b, WhitespacesAndNewlines)
    ensures Formatted(a + e + b) == Formatted(e)
  {
    CanonicalGlyphsKeepsWhitespace(a);
    CanonicalGlyphsKeepsWhitespace(b);
    CanonicalGlyphsConcat(a, e);
    CanonicalGlyphsConcat(a + e, b);
    TrimAbsorbs(a, CanonicalGlyphs(e), b, WhitespacesAndNewlines);
  }

  lemma {:induction false} CanonicalGlyphsConcat(x: string, y: string)
    ensures CanonicalGlyphs(x + y) == CanonicalGlyphs(x) + CanonicalGlyphs(y)
  {
    var l, r := CanonicalGlyphs(x + y), CanonicalGlyphs(x) + CanonicalGlyphs(y);
    forall i | 0 <= i < |l|
      ensures l[i] == r[i]
    {
      if i < |x| {
        assert (x + y)[i] == x[i];
      } else {
        assert (x + y)[i] == y[i - |x|];
      }
    }
  }

  /** Text without the two display glyphs is already canonical. */
  lemma {:induction false} CanonicalGlyphsFixed(s: string)
    requires DivisionSign !in s && MultiplicationSign !in s
    ensures CanonicalGlyphs(s) == s
  {
    var c := CanonicalGlyphs(s);
    forall i | 0 <= i < |s|
      ensures c[i] == s[i]
    {
      assert s[i] != DivisionSign && s[i] != MultiplicationSign;
    }
  }

  lemma {:induction false} CanonicalGlyphsKeepsWhitespace(a: string)
    requires AllIn(a, WhitespacesAndNewlines)
    ensures CanonicalGlyphs(a) == a
  {
    assert DivisionSign !in WhitespacesAndNewlines;
    assert MultiplicationSign !in WhitespacesAndNewlines;
    var c := CanonicalGlyphs(a);
    forall i | 0 <= i < |a|
      ensures c[i] == a[i]
    {
      assert a[i] in WhitespacesAndNewlines;
    }
  }

  // ---------------------------------------------------------------------------
  // Step 2: validation

  // The `CharacterSet` of the ten digits, the point, the four ASCII operators and the space.
  const ValidCharacters: set<char> :=
    {'0', '1', '2', '3', '4', '5', '6', '7', '8', '9', '.', '+', '-', '*', '/', ' '}

  /** `rangeOfCharacter(from: validCharacters.inverted) != nil`. */
  predicate HasInvalidCharacter(s: string)
  {
    !AllIn(s, ValidCharacters)
  }

  // ---------------------------------------------------------------------------
  // Parsing numbers

  predicate IsDigit(c: char)
  {
    '0' <= c <= '9'
  }

  /** Digits with at most one decimal point and at least one digit. */
  predicate IsUnsignedDecimal(s: string)
  {
    && (exists i :: 0 <= i < |s| && IsDigit(s[i]))
    && (forall i :: 0 <= i < |s| ==> IsDigit(s[i]) || s[i] == '.')
    && AtMostOneDot(s)
  }

  /** No two decimal points in a string. */
  predicate AtMostOneDot(s: string)
  {
    forall i, j :: 0 <= i < j < |s| && s[i] == '.' ==> s[j] != '.'
  }

  /** `Double(s) != nil` on strings over the validated alphabet: an optional
      sign followed by an unsigned decimal. */
  predicate IsNumber(s: string)
  {
    if |s| > 0 && (s[0] == '+' || s[0] == '-') then IsUnsignedDecimal(s[1..])
    else IsUnsignedDecimal(s)
  }

  /** `Double(s) == 0` for a string that `IsNumber` accepts: every digit is `0`. */
  predicate IsZero(s: string)
  {
    forall i :: 0 <= i < |s| && IsDigit(s[i]) ==> s[i] == '0'
  }

  // ---------------------------------------------------------------------------
  // Step 3: the division shortcut

  /** Each piece trimmed of whitespace and newlines. */
  function TrimEach(parts: seq<string>): (r: seq<string>)
    ensures |r| == |parts|
    ensures forall i :: 0 <= i < |r| ==> r[i] == Trim(parts[i], WhitespacesAndNewlines)
  {
    if parts == [] then [] else [Trim(parts[0], WhitespacesAndNewlines)] + TrimEach(parts[1..])
  }

  /** The operands of the shortcut: `split(separator: "/")`, each trimmed. */
  function DivisionOperands(f: string): seq<string>
  {
    TrimEach(Split(f, '/'))
  }

  /** The shortcut applies: the string has a `/` and splits into exactly two
      operands that both parse as numbers. */
  predicate TakesDivisionShortcut(f: string)
  {
    var operands := DivisionOperands(f);
    '/' in f && |operands| == 2 && IsNumber(operands[0]) && IsNumber(operands[1])
  }

  // ---------------------------------------------------------------------------
  // Step 4: wrapping numbers in parentheses

  /** One component: wrapped in parentheses when it parses as a number. */
  function Cast(component: string): string
  {
    if IsNumber(component) then "(" + component + ")" else component
  }

  function CastEach(parts: seq<string>): (r: seq<string>)
    ensures |r| == |parts|
    ensures forall i :: 0 <= i < |r| ==> r[i] == Cast(parts[i])
  {
    if parts == [] then [] else [Cast(parts[0])] + CastEach(parts[1..])
  }

  /** `expressionWithCasts`: the space-separated components, empty ones
      included, each cast, joined again with single spaces. */
  function WithCasts(f: string): string
  {
    Join(CastEach(Components(f, ' ')), ' ')
  }

  /** The inverse of `Cast` on a component: drops one pair of enclosing parentheses. */
  function Uncast(component: string): string
  {
    if |component| >= 2 && component[0] == '(' && component[|component| - 1] == ')' then
      component[1..|component| - 1]
    else component
  }

  function UncastEach(parts: seq<string>): (r: seq<string>)
    ensures |r| == |parts|
    ensures forall i :: 0 <= i < |r| ==> r[i] == Uncast(parts[i])
  {
    if parts == [] then [] else [Uncast(parts[0])] + UncastEach(parts[1..])
  }

  /** The rewrite keeps the components: there are as many as before, the
      numeric ones are wrapped and every other one, empty ones included, is
      unchanged. */
  lemma {:induction false} WithCastsComponents(f: string)
    ensures Components(WithCasts(f), ' ') == CastEach(Components(f, ' '))
  {
    var parts := Components(f, ' ');
    var cast := CastEach(parts);
    ComponentsExcludeSeparator(f, ' ');
    forall i | 0 <= i < |cast|
      ensures ' ' !in cast[i]
    {
      assert ' ' !in parts[i];
      if IsNumber(parts[i]) {
        assert cast[i] == "(" + parts[i] + ")";
      }
    }
    ComponentsOfJoin(cast, ' ');
  }

  /** Removing the added parentheses from each component of the rewrite and
      joining gives back the formatted string, for any string without `(`
      (which validation guarantees). */
  lemma {:induction false} WithCastsRoundTrip(f: string)
    requires '(' !in f
    ensures Join(UncastEach(Components(WithCasts(f), ' ')), ' ') == f
  {
    var parts := Components(f, ' ');
    WithCastsComponents(f);
    var back := UncastEach(CastEach(parts));
    forall i | 0 <= i < |parts|
      ensures back[i] == parts[i]
    {
      var p := parts[i];
      ComponentOfStringWithout(f, ' ', i, '(');
      if IsNumber(p) {
        assert Cast(p) == ['('] + p + [')'];
      } else {
        assert p == [] || p[0] != '(';
      }
    }
    assert back == parts;
    JoinComponents(f, ' ');
  }

  /** A character absent from a string is absent from each of its components. */
  lemma {:induction false} ComponentOfStringWithout(s: string, sep: char, i: nat, x: char)
    requires x !in s
    requires i < |Components(s, sep)|
    ensures x !in Components(s, sep)[i]
    decreases |s|
  {
    if s != [] {
      var t, c := s[..|s| - 1], s[|s| - 1];
      assert s == t + [c];
      assert x !in t;
      var init := Components(t, sep);
      ComponentsSnoc(t, c, sep);
      if c == sep {
        if i < |init| {
          ComponentOfStringWithout(t, sep, i, x);
        }
      } else {
        ComponentOfStringWithout(t, sep, i, x);
      }
    }
  }

  // ---------------------------------------------------------------------------
  // The whole front end

  /** `evaluateExpression(expression)` up to the opaque steps. */
  function Evaluate(expression: string): (r: Evaluation)
    ensures r == Failed(InvalidCharacter) <==> HasInvalidCharacter(Formatted(expression))
    ensures r.Quotient? ==>
              IsNumber(r.numerator) && IsNumber(r.denominator) && !IsZero(r.denominator)
    ensures r.Quotient? ==> DivisionOperands(Formatted(expression)) == [r.numerator, r.denominator]
    ensures r.Delegated? ==>
              !HasInvalidCharacter(Formatted(expression)) && !TakesDivisionShortcut(Formatted(expression))
    ensures r.Delegated? ==>
              Join(UncastEach(Components(r.expression, ' ')), ' ') == Formatted(expression)
    ensures r.Delegated? ==>
              Components(r.expression, ' ') == CastEach(Components(Formatted(expression), ' '))
  {
    var f := Formatted(expression);
    if HasInvalidCharacter(f) then Failed(InvalidCharacter)
    else if TakesDivisionShortcut(f) then
      var operands := DivisionOperands(f);
      if IsZero(operands[1]) then Failed(DivisionByZero) else Quotient(operands[0], operands[1])
    else
      assert '(' !in ValidCharacters;
      AllInExcludes(f, ValidCharacters, '(');
      WithCastsRoundTrip(f);
      WithCastsComponents(f);
      Delegated(WithCasts(f))
  }

  /** The evaluator looks only at the formatted string. */
  lemma {:induction false} EvaluateFormatted(e: string)
    ensures Evaluate(Formatted(e)) == Evaluate(e)
  {
    FormattedIdempotent(e);
  }

  /** Whitespace and newlines around an expression never change its outcome. */
  lemma {:induction false} EvaluateIgnoresSurroundingWhitespace(a: string, e: string, b: string)
    requires AllIn(a, WhitespacesAndNewlines) && AllIn(b, WhitespacesAndNewlines)
    ensures Evaluate(a + e + b) == Evaluate(e)
  {
    FormattedIgnoresSurroundingWhitespace(a, e, b);
  }

  /** A division by zero is reported exactly when the shortcut applies and its
      divisor is zero; in particular a zero divisor inside a longer expression
      is handed to the platform evaluator. */
  lemma {:induction false} DivisionByZeroOnlyOnShortcut(e: string)
    ensures var f := Formatted(e);
            Evaluate(e) == Failed(DivisionByZero) <==>
              !HasInvalidCharacter(f) && TakesDivisionShortcut(f) && IsZero(DivisionOperands(f)[1])
  {
  }

  /** Without a `/` there are never two division operands, so the `contains`
      test before the split is implied by the count test. */
  lemma {:induction false} ShortcutNeedsSlash(f: string)
    requires '/' !in f
    ensures |DivisionOperands(f)| <= 1
  {
    ComponentsWithoutSeparator(f, '/');
    var parts := Components(f, '/');
    assert parts == [f];
    assert NonEmpty(parts) == (if f == [] then [] else [f]) by {
      assert parts[1..] == [];
    }
  }


  // ---------------------------------------------------------------------------
  // Worked examples

  /** A string free of the two glyphs and of surrounding whitespace is its own formatted form. */
  lemma {:induction false} FormattedPlain(e: string)
    requires DivisionSign !in e && MultiplicationSign !in e
    requires IsTrimmed(e, WhitespacesAndNewlines)
    ensures Formatted(e) == e
  {
    CanonicalGlyphsFixed(e);
    TrimTrimmed(e, WhitespacesAndNewlines);
  }

  /** The operands of `a / b` when neither side holds a `/`. */
  lemma {:induction false} OperandsOfOneSlash(a: string, b: string)
    requires '/' !in a && '/' !in b && a != [] && b != []
    ensures DivisionOperands(a + ['/'] + b) ==
              [Trim(a, WhitespacesAndNewlines), Trim(b, WhitespacesAndNewlines)]
  {
    ComponentsConcat(a, b, '/');
    ComponentsWithoutSeparator(a, '/');
    ComponentsWithoutSeparator(b, '/');
    assert [a] + [b] == [a, b];
    assert NonEmpty([a, b]) == [a, b] by {
      assert [a, b][1..] == [b];
      assert [b][1..] == [];
    }
  }

  /** The characters a number is written with. */
  const NumberCharacters: set<char> :=
    {'0', '1', '2', '3', '4', '5', '6', '7', '8', '9', '.', '+', '-'}

  /** What a number looks like from outside: it is not empty, uses only digits,
      signs and the point, and neither starts nor ends with whitespace. */
  lemma {:induction false} NumberShape(p: string)
    requires IsNumber(p)
    ensures p != [] && AllIn(p, NumberCharacters) && IsTrimmed(p, WhitespacesAndNewlines)
  {
    if p != [] && (p[0] == '+' || p[0] == '-') {
      UnsignedShape(p[1..]);
      forall i | 0 <= i < |p|
        ensures p[i] in NumberCharacters
      {
        if i > 0 {
          assert p[i] == p[1..][i - 1];
        }
      }
    } else {
      UnsignedShape(p);
    }
    NumberCharacterNotWhitespace(p[0]);
    NumberCharacterNotWhitespace(p[|p| - 1]);
  }

  /** An unsigned decimal is not empty and uses only digits and the point. */
  lemma {:induction false} UnsignedShape(s: string)
    requires IsUnsignedDecimal(s)
    ensures s != [] && AllIn(s, NumberCharacters)
  {
    forall i | 0 <= i < |s|
      ensures s[i] in NumberCharacters
    {
      assert IsDigit(s[i]) || s[i] == '.';
    }
  }

  lemma {:induction false} NumberCharacterNotWhitespace(c: char)
    requires c in NumberCharacters
    ensures c !in WhitespacesAndNewlines
  {
  }

  /** `p + " / " + q` for two numbers is formatted as itself and passes validation. */
  lemma {:induction false} SpacedDivisionFormatted(p: string, q: string)
    requires p != [] && q != []
    requires AllIn(p, NumberCharacters) && IsTrimmed(p, WhitespacesAndNewlines)
    requires AllIn(q, NumberCharacters) && IsTrimmed(q, WhitespacesAndNewlines)
    ensures Formatted(p + " / " + q) == p + " / " + q
    ensures !HasInvalidCharacter(p + " / " + q)
  {
    var e := p + " / " + q;
    assert e[0] == p[0] && e[|e| - 1] == q[|q| - 1];
    var cs := NumberCharacters + {' ', '/'};
    forall i | 0 <= i < |e|
      ensures e[i] in cs
    {
      if i >= |p| + 3 {
        assert e[i] == q[i - |p| - 3];
      } else if i < |p| {
        assert e[i] == p[i];
      }
    }
    assert cs <= ValidCharacters;
    assert DivisionSign !in cs && MultiplicationSign !in cs;
    AllInExcludes(e, cs, DivisionSign);
    AllInExcludes(e, cs, MultiplicationSign);
    FormattedPlain(e);
  }

  /** The operands of `p + " / " + q` are `p` and `q`. */
  lemma {:induction false} SpacedDivisionOperands(p: string, q: string)
    requires p != [] && q != []
    requires AllIn(p, NumberCharacters) && IsTrimmed(p, WhitespacesAndNewlines)
    requires AllIn(q, NumberCharacters) && IsTrimmed(q, WhitespacesAndNewlines)
    ensures DivisionOperands(p + " / " + q) == [p, q]
  {
    var a, b := p + [' '], [' '] + q;
    assert p + " / " + q == a + ['/'] + b;
    AllInExcludes(p, NumberCharacters, '/');
    AllInExcludes(q, NumberCharacters, '/');
    assert '/' !in a && '/' !in b;
    OperandsOfOneSlash(a, b);
    assert ' ' in WhitespacesAndNewlines;
    TrimPadded(p, ' ', WhitespacesAndNewlines);
    TrimPadded(q, ' ', WhitespacesAndNewlines);
  }

  /** Two numbers around ` / ` go to the division shortcut: a zero divisor is
      an error, any other divisor yields the quotient of the two numbers. */
  lemma {:induction false} NumberDivision(p: string, q: string)
    requires IsNumber(p) && IsNumber(q)
    ensures Evaluate(p + " / " + q) ==
              if IsZero(q) then Failed(DivisionByZero) else Quotient(p, q)
  {
    var e := p + " / " + q;
    NumberShape(p);
    NumberShape(q);
    SpacedDivisionFormatted(p, q);
    SpacedDivisionOperands(p, q);
    assert e[|p| + 1] == '/';
    EvaluateOnShortcut(e, p, q);
  }

  /** A formatted, valid string whose operands are two numbers takes the shortcut. */
  lemma {:induction false} EvaluateOnShortcut(e: string, p: string, q: string)
    requires Formatted(e) == e && !HasInvalidCharacter(e) && '/' in e
    requires DivisionOperands(e) == [p, q] && IsNumber(p) && IsNumber(q)
    ensures Evaluate(e) == if IsZero(q) then Failed(DivisionByZero) else Quotient(p, q)
  {
    assert TakesDivisionShortcut(e);
  }

  /** Canonicalisation never turns a character that is not whitespace into one. */
  lemma {:induction false} CanonicalKeepsNonWhitespace(s: string, i: nat)
    requires i < |s| && s[i] !in WhitespacesAndNewlines
    ensures i < |CanonicalGlyphs(s)| && CanonicalGlyphs(s)[i] !in WhitespacesAndNewlines
  {
    assert '/' !in WhitespacesAndNewlines && '*' !in WhitespacesAndNewlines;
  }

  /** A character outside the alphabet rejects the expression wherever it
      stands, unless it is whitespace at either end, where trimming removes it. */
  lemma {:induction false} InvalidCharacterRejected(a: string, x: char, b: string)
    requires x !in ValidCharacters && x != DivisionSign && x != MultiplicationSign
    requires x !in WhitespacesAndNewlines ||
             (!AllIn(a, WhitespacesAndNewlines) && !AllIn(b, WhitespacesAndNewlines))
    ensures Evaluate(a + [x] + b) == Failed(InvalidCharacter)
  {
    SurvivesFormatting(a, x, b);
    RejectedWhenKept(a + [x] + b, x);
  }

  /** A glyph-free character survives formatting when it is not whitespace, or
      when non-whitespace text stands on both sides of it. */
  lemma {:induction false} SurvivesFormatting(a: string, x: char, b: string)
    requires x != DivisionSign && x != MultiplicationSign
    requires x !in WhitespacesAndNewlines ||
             (!AllIn(a, WhitespacesAndNewlines) && !AllIn(b, WhitespacesAndNewlines))
    ensures x in Trim(CanonicalGlyphs(a + [x] + b), WhitespacesAndNewlines)
  {
    var e := a + [x] + b;
    var c := CanonicalGlyphs(e);
    assert e[|a|] == x;
    var m := |a|;
    if x !in WhitespacesAndNewlines {
      TrimKeepsInterior(c, WhitespacesAndNewlines, m, m, m);
    } else {
      var i :| 0 <= i < |a| && a[i] !in WhitespacesAndNewlines;
      var j :| 0 <= j < |b| && b[j] !in WhitespacesAndNewlines;
      assert e[i] == a[i] && e[m + 1 + j] == b[j];
      CanonicalKeepsNonWhitespace(e, i);
      CanonicalKeepsNonWhitespace(e, m + 1 + j);
      TrimKeepsInterior(c, WhitespacesAndNewlines, i, m, m + 1 + j);
    }
  }

  /** A character outside the alphabet that survives formatting rejects the expression. */
  lemma {:induction false} RejectedWhenKept(e: string, x: char)
    requires x in Trim(CanonicalGlyphs(e), WhitespacesAndNewlines) && x !in ValidCharacters
    ensures Evaluate(e) == Failed(InvalidCharacter)
  {
    MemberOutside(Formatted(e), ValidCharacters, x);
  }

  /** A single digit is a number, and a zero one exactly when it is `0`. */
  lemma {:induction false} DigitNumber(c: char)
    requires IsDigit(c)
    ensures IsNumber([c]) && (IsZero([c]) <==> c == '0')
  {
    assert IsDigit([c][0]);
  }

  /** The five characters of a spaced one-digit division. */
  lemma {:induction false} SpacedDigits(x: char, y: char)
    ensures [x] + " / " + [y] == [x, ' ', '/', ' ', y]
  {
  }

  /** A zero divisor on the shortcut is an error; a non-zero one is divided. */
  lemma DivisionExamples()
    ensures Evaluate("6 / 0") == Failed(DivisionByZero)
    ensures Evaluate("6 / 3") == Quotient("6", "3")
  {
    DigitNumber('6');
    DigitNumber('0');
    DigitNumber('3');
    SpacedDigits('6', '0');
    SpacedDigits('6', '3');
    NumberDivision(['6'], ['0']);
    NumberDivision(['6'], ['3']);
  }
}
