/** The `CalculatorEngine` class: a text buffer edited with `clear`, `append`
    and `appendOperator`, and `evaluateExpression`, which reads only its
    argument and hands it to the front end in `Evaluator`. */
module Engine {
  import opened StringOps
  import opened Evaluator

  /** The glyphs `appendOperator` treats as a pending operator: `+`, `-`, `×`, `÷`. */
  const OperatorGlyphs: set<char> := {'+', '-', MultiplicationSign, DivisionSign}

  /** `s.hasSuffix(String(c))`. */
  predicate EndsWith(s: string, c: char)
  {
    s != [] && s[|s| - 1] == c
  }

  // ---------------------------------------------------------------------------
  // What each editing operation does to the buffer

  /** The buffer after `append(value)`: a `.` is dropped when the number being
      typed (the text after the last space) already has a point; anything else
      is appended as it is. */
  function AfterAppend(buffer: string, value: string): (r: string)
    ensures r == buffer + value || r == buffer
    ensures r == buffer + value <==> value != "." || '.' !in LastComponent(buffer, ' ')
  {
    DotEndInLastComponent(buffer);
    if value == "." then
      if !EndsWith(buffer, '.') && '.' !in LastComponent(buffer, ' ') then buffer + value else buffer
    else buffer + value
  }

  /** The buffer after `appendOperator(op)`: a trailing operator glyph is
      dropped, then ` op ` is appended. */
  function AfterOperator(buffer: string, op: string): (r: string)
    ensures |op| + 2 <= |r|
    ensures r[|r| - |op| - 2..] == [' '] + op + [' ']
    ensures r[..|r| - |op| - 2] <= buffer
    ensures r[..|r| - |op| - 2] == buffer <==> buffer == [] || buffer[|buffer| - 1] !in OperatorGlyphs
    ensures |buffer| <= |r| - |op| - 1
  {
    var kept := WithoutTrailingOperator(buffer);
    var r := kept + [' '] + op + [' '];
    assert r[..|kept|] == kept;
    assert r[|kept|..] == [' '] + op + [' '];
    r
  }

  /** The buffer with one trailing operator glyph removed, if it has one. */
  function WithoutTrailingOperator(buffer: string): (kept: string)
    ensures kept <= buffer && |buffer| <= |kept| + 1
    ensures kept == buffer <==> buffer == [] || buffer[|buffer| - 1] !in OperatorGlyphs
  {
    if buffer != [] && buffer[|buffer| - 1] in OperatorGlyphs then buffer[..|buffer| - 1] else buffer
  }

  // ---------------------------------------------------------------------------
  // The engine

  class CalculatorEngine {
    /** The expression typed so far. `Append` and `AppendOperator` read it;
        no method returns it, and `EvaluateExpression` never reads it because
        its parameter shadows it. */
    var expression: string

    constructor()
      ensures expression == []
    {
      expression := [];
    }

    /** `clear()`. */
    method Clear()
      modifies this
      ensures expression == []
    {
      expression := [];
    }

    /** `append(value)`. */
    method Append(value: string)
      modifies this
      ensures expression == AfterAppend(old(expression), value)
    {
      if value == "." {
        if !EndsWith(expression, '.') && '.' !in LastComponent(expression, ' ') {
          expression := expression + value;
        }
      } else {
        expression := expression + value;
      }
    }

    /** `appendOperator(op)`. */
    method AppendOperator(op: string)
      modifies this
      ensures expression == AfterOperator(old(expression), op)
    {
      if expression != [] && expression[|expression| - 1] in OperatorGlyphs {
        expression := expression[..|expression| - 1];
      }
      expression := expression + [' '] + op + [' '];
    }

    /** `evaluateExpression(expression)`: the parameter shadows the stored
        expression, which is left alone. */
    method EvaluateExpression(expression: string) returns (r: Evaluation)
      ensures r == Evaluate(expression)
      ensures r == Failed(InvalidCharacter) <==> HasInvalidCharacter(Formatted(expression))
    {
      r := Evaluate(expression);
    }
  }

  // ---------------------------------------------------------------------------
  // The decimal-point guard

  /** A buffer that ends in `.` has a point in its last number, so the
      `hasSuffix(".")` test adds nothing to the last-component test. */
  lemma {:induction false} DotEndInLastComponent(buffer: string)
    ensures EndsWith(buffer, '.') ==> '.' in LastComponent(buffer, ' ')
  {
    if EndsWith(buffer, '.') {
      var init := buffer[..|buffer| - 1];
      assert buffer == init + ['.'];
      ComponentsSnoc(init, '.', ' ');
      var parts := Components(init, ' ');
      assert LastComponent(buffer, ' ') == parts[|parts| - 1] + ['.'];
    }
  }

  /** Pressing `.` twice is the same as pressing it once. */
  lemma {:induction false} AppendDotIdempotent(buffer: string)
    ensures AfterAppend(AfterAppend(buffer, "."), ".") == AfterAppend(buffer, ".")
  {
    var once := AfterAppend(buffer, ".");
    if once == buffer + "." {
      DotEndInLastComponent(once);
      assert EndsWith(once, '.');
    }
  }

  /** Every space-separated piece of the buffer has at most one decimal point:
      the invariant the decimal-point guard keeps. */
  predicate DotsSeparated(buffer: string)
  {
    var parts := Components(buffer, ' ');
    forall i :: 0 <= i < |parts| ==> AtMostOneDot(parts[i])
  }

  /** Adding one character that is not a second point keeps at most one point. */
  lemma {:induction false} AtMostOneDotSnoc(s: string, c: char)
    requires AtMostOneDot(s)
    requires c == '.' ==> '.' !in s
    ensures AtMostOneDot(s + [c])
  {
    var t := s + [c];
    forall i, j | 0 <= i < j < |t| && t[i] == '.'
      ensures t[j] != '.'
    {
      if j == |s| {
        assert t[i] == s[i];
      } else {
        assert t[i] == s[i] && t[j] == s[j];
      }
    }
  }

  /** Typing one key keeps every number to at most one decimal point. */
  lemma {:induction false} AppendKeepsDotsSeparated(buffer: string, c: char)
    requires DotsSeparated(buffer)
    ensures DotsSeparated(AfterAppend(buffer, [c]))
  {
    var r := AfterAppend(buffer, [c]);
    if r != buffer {
      assert r == buffer + [c];
      ComponentsSnoc(buffer, c, ' ');
      var parts := Components(buffer, ' ');
      if c != ' ' {
        var n := |parts|;
        assert LastComponent(buffer, ' ') == parts[n - 1];
        AtMostOneDotSnoc(parts[n - 1], c);
        var ext := ExtendLast(parts, c);
        forall i | 0 <= i < n
          ensures AtMostOneDot(ext[i])
        {
          if i < n - 1 {
            assert ext[i] == parts[i];
          }
        }
      } else {
        var ext := parts + [[]];
        forall i | 0 <= i < |ext|
          ensures AtMostOneDot(ext[i])
        {
          if i < |parts| {
            assert ext[i] == parts[i];
          }
        }
      }
    }
  }

  /** A prefix of a string with at most one point has at most one point. */
  lemma {:induction false} AtMostOneDotPrefix(s: string, k: nat)
    requires AtMostOneDot(s) && k <= |s|
    ensures AtMostOneDot(s[..k])
  {
    var t := s[..k];
    forall i, j | 0 <= i < j < |t| && t[i] == '.'
      ensures t[j] != '.'
    {
      assert t[i] == s[i] && t[j] == s[j];
    }
  }

  /** Removing the last character that is not a space keeps the invariant. */
  lemma {:induction false} DropLastKeepsDotsSeparated(buffer: string)
    requires DotsSeparated(buffer) && buffer != [] && buffer[|buffer| - 1] != ' '
    ensures DotsSeparated(buffer[..|buffer| - 1])
  {
    var init := buffer[..|buffer| - 1];
    var c := buffer[|buffer| - 1];
    assert buffer == init + [c];
    ComponentsSnoc(init, c, ' ');
    var parts := Components(init, ' ');
    var n := |parts|;
    var ext := ExtendLast(parts, c);
    forall i | 0 <= i < n
      ensures AtMostOneDot(parts[i])
    {
      if i < n - 1 {
        assert ext[i] == parts[i];
      } else {
        assert ext[i] == parts[i] + [c];
        assert parts[i] == ext[i][..|parts[i]|];
        AtMostOneDotPrefix(ext[i], |parts[i]|);
      }
    }
  }

  /** Pressing an operator key keeps every number to at most one decimal point. */
  lemma {:induction false} OperatorKeepsDotsSeparated(buffer: string, g: char)
    requires DotsSeparated(buffer) && g in OperatorGlyphs
    ensures DotsSeparated(AfterOperator(buffer, [g]))
  {
    var kept := WithoutTrailingOperator(buffer);
    if kept != buffer {
      DropLastKeepsDotsSeparated(buffer);
    }
    assert AfterOperator(buffer, [g]) == kept + [' '] + [g] + [' '];
    ComponentsSeparatedChar(kept, g, ' ');
    var parts := Components(kept, ' ');
    var ext := parts + [[g], []];
    forall i | 0 <= i < |ext|
      ensures AtMostOneDot(ext[i])
    {
      if i < |parts| {
        assert ext[i] == parts[i];
      }
    }
  }

  // ---------------------------------------------------------------------------
  // Operators

  /** The second of two operator keys in a row does not replace the first: the
      buffer ends in a space after the first, which is not an operator glyph. */
  lemma {:induction false} ConsecutiveOperatorsBothKept(buffer: string, first: string, second: string)
    ensures AfterOperator(AfterOperator(buffer, first), second) ==
              AfterOperator(buffer, first) + [' '] + second + [' ']
  {
    var once := AfterOperator(buffer, first);
    assert once[|once| - 1] == ([' '] + first + [' '])[|first| + 1];
  }

  /** An operator key right after a digit keeps the digit. */
  lemma {:induction false} OperatorAfterDigit(buffer: string, d: char, op: string)
    requires IsDigit(d)
    ensures AfterOperator(buffer + [d], op) == buffer + [d] + [' '] + op + [' ']
  {
  }

  // ---------------------------------------------------------------------------
  // Digit, point and operator entry always passes validation

  /** The entry alphabet this model chooses: the digit keys, the point, the
      space `appendOperator` inserts and the four operator glyphs. The source's
      keypad has further keys (`%`, `+/-`, `AC`, `=`), and no key is wired to
      the engine, so this alphabet is an assumption about the callers, not a
      fact about them. */
  const EntryCharacters: set<char> :=
    {'0', '1', '2', '3', '4', '5', '6', '7', '8', '9', '.', ' ',
     '+', '-', MultiplicationSign, DivisionSign}

  /** Appending entry text keeps the buffer over the entry alphabet. */
  lemma {:induction false} AppendKeepsEntryAlphabet(buffer: string, value: string)
    requires AllIn(buffer, EntryCharacters) && AllIn(value, EntryCharacters)
    ensures AllIn(AfterAppend(buffer, value), EntryCharacters)
  {
    var r := AfterAppend(buffer, value);
    if r != buffer {
      forall i | 0 <= i < |r|
        ensures r[i] in EntryCharacters
      {
        if i >= |buffer| {
          assert r[i] == value[i - |buffer|];
        } else {
          assert r[i] == buffer[i];
        }
      }
    }
  }

  /** An operator from the entry alphabet keeps the buffer over that alphabet. */
  lemma {:induction false} OperatorKeepsEntryAlphabet(buffer: string, op: string)
    requires AllIn(buffer, EntryCharacters) && AllIn(op, EntryCharacters)
    ensures AllIn(AfterOperator(buffer, op), EntryCharacters)
  {
    var r := AfterOperator(buffer, op);
    var k := |r| - |op| - 2;
    forall i | 0 <= i < |r|
      ensures r[i] in EntryCharacters
    {
      if i < k {
        assert r[i] == r[..k][i] == buffer[i];
      } else if k < i < |r| - 1 {
        assert r[i] == r[k..][i - k] == op[i - k - 1];
      } else {
        assert r[i] == r[k..][i - k];
      }
    }
  }

  /** Canonicalising entry text gives text over the validated alphabet. */
  lemma {:induction false} CanonicalEntryIsValid(buffer: string)
    requires AllIn(buffer, EntryCharacters)
    ensures AllIn(CanonicalGlyphs(buffer), ValidCharacters)
  {
    var c := CanonicalGlyphs(buffer);
    forall i | 0 <= i < |c|
      ensures c[i] in ValidCharacters
    {
      assert buffer[i] in EntryCharacters;
    }
  }

  /** A buffer built from the entry alphabet is never rejected for an invalid character. */
  lemma {:induction false} EntryBufferPassesValidation(buffer: string)
    requires AllIn(buffer, EntryCharacters)
    ensures !HasInvalidCharacter(Formatted(buffer))
  {
    var c := CanonicalGlyphs(buffer);
    CanonicalEntryIsValid(buffer);
    TrimKeepsAlphabet(c, WhitespacesAndNewlines, ValidCharacters);
  }

  // ---------------------------------------------------------------------------
  // A session at the keypad

  /** Typing `1`, `.`, `.`, `2` leaves `1.2`: the second point is ignored. */
  method DotTypingExample()
  {
    var engine := new CalculatorEngine();
    engine.Append("1");
    assert engine.expression == "1";
    ComponentsWithoutSeparator("1", ' ');
    engine.Append(".");
    assert engine.expression == "1.";
    DotEndInLastComponent("1.");
    engine.Append(".");
    assert engine.expression == "1.";
    engine.Append("2");
    assert engine.expression == "1.2";
  }

  /** Typing `3`, `+`, `-` leaves `3 +  - `: the minus does not replace the plus. */
  method OperatorTypingExample()
  {
    var engine := new CalculatorEngine();
    engine.Append("3");
    assert engine.expression == "3";
    engine.AppendOperator("+");
    assert engine.expression == "3 + ";
    engine.AppendOperator("-");
    assert engine.expression == "3 +  - ";
  }
}
