/** The Foundation string operations the calculator engine relies on, over
    strings seen as sequences of Unicode scalar values:
    - `components(separatedBy:)` with a one-character separator (keeps empty pieces),
    - `split(separator:)` (drops empty pieces),
    - `joined(separator:)`,
    - `replacingOccurrences(of:with:)` for a one-character pattern,
    - `trimmingCharacters(in: .whitespacesAndNewlines)`. */
module StringOps {

  // ---------------------------------------------------------------------------
  // Splitting and joining

  /** `parts` with `c` added to the end of its last piece. */
  function ExtendLast(parts: seq<string>, c: char): (r: seq<string>)
    requires |parts| >= 1
    ensures |r| == |parts|
  {
    parts[..|parts| - 1] + [parts[|parts| - 1] + [c]]
  }

  /** `s.components(separatedBy: [sep])`: the pieces between separators, empty
      pieces included, so there is always at least one piece. Defined from the
      end of the string: a separator opens a new, empty last piece and any
      other character extends the last piece. */
  function Components(s: string, sep: char): (parts: seq<string>)
    ensures |parts| >= 1
    decreases |s|
  {
    if s == [] then [[]]
    else
      var init := Components(s[..|s| - 1], sep);
      var c := s[|s| - 1];
      if c == sep then init + [[]] else ExtendLast(init, c)
  }

  /** The last piece of `Components(s, sep)`: Swift's `.last!` on it, which
      cannot trap because there is always a piece. */
  function LastComponent(s: string, sep: char): string
  {
    var parts := Components(s, sep);
    parts[|parts| - 1]
  }

  /** A one-character piece between two separators at the end of a string
      adds that piece and an empty last piece. */
  lemma {:induction false} ComponentsSeparatedChar(s: string, c: char, sep: char)
    requires c != sep
    ensures Components(s + [sep] + [c] + [sep], sep) == Components(s, sep) + [[c], []]
  {
    var t := s + [sep];
    var u := t + [c];
    assert s + [sep] + [c] + [sep] == u + [sep];
    ComponentsSnoc(s, sep, sep);
    ComponentsSnoc(t, c, sep);
    ComponentsSnoc(u, sep, sep);
    ExtendLastAppend(Components(s, sep), [[]], c);
    var empty: string := [];
    assert [empty][..0] == [] && empty + [c] == [c];
    assert ExtendLast([empty], c) == [[c]];
    assert Components(u, sep) == Components(s, sep) + [[c]];
  }

  /** `parts.joined(separator: [sep])`. */
  function Join(parts: seq<string>, sep: char): string
  {
    if parts == [] then []
    else if |parts| == 1 then parts[0]
    else Join(parts[..|parts| - 1], sep) + [sep] + parts[|parts| - 1]
  }

  /** The pieces that are not empty, in order. */
  function NonEmpty(parts: seq<string>): (r: seq<string>)
    ensures |r| <= |parts|
    ensures forall i :: 0 <= i < |r| ==> r[i] != [] && r[i] in parts
    ensures forall p :: p in parts && p != [] ==> p in r
  {
    if parts == [] then []
    else if parts[0] == [] then NonEmpty(parts[1..])
    else [parts[0]] + NonEmpty(parts[1..])
  }

  /** `s.split(separator: sep)`: the pieces between separators, with Swift's
      default of omitting the empty ones. */
  function Split(s: string, sep: char): (parts: seq<string>)
    ensures forall i :: 0 <= i < |parts| ==> parts[i] != [] && sep !in parts[i]
  {
    ComponentsExcludeSeparator(s, sep);
    NonEmpty(Components(s, sep))
  }

  /** Dropping empty pieces distributes over concatenation: the kept pieces
      stay in order and every occurrence of a repeated piece is kept. */
  lemma {:induction false} NonEmptyConcat(a: seq<string>, b: seq<string>)
    ensures NonEmpty(a + b) == NonEmpty(a) + NonEmpty(b)
    decreases |a|
  {
    if a != [] {
      assert (a + b)[1..] == a[1..] + b;
      NonEmptyConcat(a[1..], b);
    } else {
      assert a + b == b;
    }
  }

  /** The pieces of `a sep b` are the pieces of `a` followed by those of `b`. */
  lemma {:induction false} SplitConcat(a: string, b: string, sep: char)
    ensures Split(a + [sep] + b, sep) == Split(a, sep) + Split(b, sep)
  {
    ComponentsConcat(a, b, sep);
    NonEmptyConcat(Components(a, sep), Components(b, sep));
  }

  /** Text without the separator is its own only piece, unless it is empty. */
  lemma {:induction false} SplitWithout(s: string, sep: char)
    requires sep !in s
    ensures Split(s, sep) == if s == [] then [] else [s]
  {
    ComponentsWithoutSeparator(s, sep);
    assert [s][1..] == [];
  }

  lemma ExtendLastAppend(front: seq<string>, parts: seq<string>, c: char)
    requires |parts| >= 1
    ensures ExtendLast(front + parts, c) == front + ExtendLast(parts, c)
  {
    var m := |parts|;
    assert (front + parts)[..|front| + m - 1] == front + parts[..m - 1];
  }

  /** One step of `Components`: the effect of appending one character. */
  lemma {:induction false} ComponentsSnoc(s: string, c: char, sep: char)
    ensures var init := Components(s, sep);
            Components(s + [c], sep) == if c == sep then init + [[]] else ExtendLast(init, c)
  {
    assert (s + [c])[..|s|] == s;
  }

  /** No piece contains the separator. */
  lemma {:induction false} ComponentsExcludeSeparator(s: string, sep: char)
    ensures forall i :: 0 <= i < |Components(s, sep)| ==> sep !in Components(s, sep)[i]
    decreases |s|
  {
    if s != [] {
      var init := Components(s[..|s| - 1], sep);
      ComponentsExcludeSeparator(s[..|s| - 1], sep);
      var c := s[|s| - 1];
      if c != sep {
        assert sep !in init[|init| - 1] + [c];
      }
    }
  }

  /** A string without the separator is its own single piece. */
  lemma {:induction false} ComponentsWithoutSeparator(s: string, sep: char)
    requires sep !in s
    ensures Components(s, sep) == [s]
    decreases |s|
  {
    if s != [] {
      var t, c := s[..|s| - 1], s[|s| - 1];
      assert s == t + [c];
      assert sep !in t;
      ComponentsWithoutSeparator(t, sep);
      ComponentsSnoc(t, c, sep);
      assert ExtendLast([t], c) == [t + [c]];
    }
  }

  /** Joining the components gives back the string. */
  lemma {:induction false} JoinComponents(s: string, sep: char)
    ensures Join(Components(s, sep), sep) == s
    decreases |s|
  {
    if s != [] {
      var t := s[..|s| - 1];
      var c := s[|s| - 1];
      var init := Components(t, sep);
      JoinComponents(t, sep);
      assert s == t + [c];
      if c == sep {
        assert (init + [[]])[..|init|] == init;
      } else {
        var n := |init|;
        var parts := ExtendLast(init, c);
        assert parts[..n - 1] == init[..n - 1];
        if n > 1 {
          assert Join(init, sep) == Join(init[..n - 1], sep) + [sep] + init[n - 1];
        }
      }
    }
  }

  /** Components distribute over a separator: the pieces of `a + [sep] + b` are
      those of `a` followed by those of `b`. */
  lemma {:induction false} ComponentsConcat(a: string, b: string, sep: char)
    ensures Components(a + [sep] + b, sep) == Components(a, sep) + Components(b, sep)
    decreases |b|
  {
    var ca := Components(a, sep);
    if b == [] {
      assert a + [sep] + b == a + [sep];
      ComponentsSnoc(a, sep, sep);
    } else {
      var b' := b[..|b| - 1];
      var c := b[|b| - 1];
      assert b == b' + [c];
      assert a + [sep] + b == (a + [sep] + b') + [c];
      ComponentsConcat(a, b', sep);
      ComponentsSnoc(a + [sep] + b', c, sep);
      ComponentsSnoc(b', c, sep);
      var cb := Components(b', sep);
      if c == sep {
        assert (ca + cb) + [[]] == ca + (cb + [[]]);
      } else {
        ExtendLastAppend(ca, cb, c);
      }
    }
  }

  /** The pieces of a join are the joined parts when no part holds the separator. */
  lemma {:induction false} ComponentsOfJoin(parts: seq<string>, sep: char)
    requires |parts| >= 1
    requires forall i :: 0 <= i < |parts| ==> sep !in parts[i]
    ensures Components(Join(parts, sep), sep) == parts
    decreases |parts|
  {
    var n := |parts|;
    ComponentsWithoutSeparator(parts[n - 1], sep);
    if n > 1 {
      ComponentsOfJoin(parts[..n - 1], sep);
      ComponentsConcat(Join(parts[..n - 1], sep), parts[n - 1], sep);
      assert parts[..n - 1] + [parts[n - 1]] == parts;
    }
  }

  // ---------------------------------------------------------------------------
  // Replacing one character

  /** `s.replacingOccurrences(of: [from], with: [to])`. */
  function ReplaceAll(s: string, from: char, to: char): (r: string)
    ensures |r| == |s|
    ensures forall i :: 0 <= i < |s| ==> r[i] == if s[i] == from then to else s[i]
    ensures from != to ==> from !in r
  {
    if s == [] then []
    else [if s[0] == from then to else s[0]] + ReplaceAll(s[1..], from, to)
  }

  // ---------------------------------------------------------------------------
  // Trimming

  /** `CharacterSet.whitespacesAndNewlines`: the Unicode space separators
      (category Zs), the line and paragraph separators U+2028 and U+2029, tab,
      U+000A through U+000D, and U+0085. */
  const WhitespacesAndNewlines: set<char> := {
    '\t', '\n', '\U{000B}', '\U{000C}', '\r', ' ', '\U{0085}', '\U{00A0}', '\U{1680}',
    '\U{2000}', '\U{2001}', '\U{2002}', '\U{2003}', '\U{2004}', '\U{2005}',
    '\U{2006}', '\U{2007}', '\U{2008}', '\U{2009}', '\U{200A}',
    '\U{2028}', '\U{2029}', '\U{202F}', '\U{205F}', '\U{3000}'
  }

  /** Every character of `s` belongs to `cs`. */
  predicate AllIn(s: string, cs: set<char>)
  {
    forall i :: 0 <= i < |s| ==> s[i] in cs
  }

  /** A character outside `cs` does not occur in a string drawn from `cs`. */
  lemma AllInExcludes(s: string, cs: set<char>, x: char)
    requires AllIn(s, cs) && x !in cs
    ensures x !in s
  {
  }

  /** A string holding a character outside `cs` is not over `cs`. */
  lemma MemberOutside(s: string, cs: set<char>, x: char)
    requires x in s && x !in cs
    ensures !AllIn(s, cs)
  {
  }

  /** Neither the first nor the last character of `s` belongs to `cs`. */
  predicate IsTrimmed(s: string, cs: set<char>)
  {
    s == [] || (s[0] !in cs && s[|s| - 1] !in cs)
  }

  /** Drops the leading characters in `cs`: the result is the longest suffix
      that does not start with one of them. */
  function TrimStart(s: string, cs: set<char>): (r: string)
    ensures r == [] || r[0] !in cs
  {
    if s == [] || s[0] !in cs then s
    else TrimStart(s[1..], cs)
  }

  /** Drops the trailing characters in `cs`: the result is the longest prefix
      that does not end with one of them. */
  function TrimEnd(s: string, cs: set<char>): (r: string)
    ensures r <= s
    ensures r == [] || r[|r| - 1] !in cs
  {
    if s == [] || s[|s| - 1] !in cs then s
    else TrimEnd(s[..|s| - 1], cs)
  }

  /** `s.trimmingCharacters(in: cs)`. */
  function Trim(s: string, cs: set<char>): (r: string)
    ensures IsTrimmed(r, cs)
  {
    TrimEnd(TrimStart(s, cs), cs)
  }

  /** Only characters of `cs` are dropped, and only from the front. */
  lemma {:induction false} TrimStartDropsPrefix(s: string, cs: set<char>)
    ensures var r := TrimStart(s, cs);
            |r| <= |s| && r == s[|s| - |r|..] && AllIn(s[..|s| - |r|], cs)
    decreases |s|
  {
    if s != [] && s[0] in cs {
      var r := TrimStart(s[1..], cs);
      TrimStartDropsPrefix(s[1..], cs);
      var k := |s| - |r|;
      assert r == s[k..] by {
        assert s[1..][k - 1..] == s[k..];
      }
      forall i | 0 <= i < k
        ensures s[..k][i] in cs
      {
        if i > 0 {
          assert s[..k][i] == s[1..][..k - 1][i - 1];
        }
      }
    }
  }

  /** Only characters of `cs` are dropped, and only from the back. */
  lemma {:induction false} TrimEndDropsSuffix(s: string, cs: set<char>)
    ensures AllIn(s[|TrimEnd(s, cs)|..], cs)
    decreases |s|
  {
    if s != [] && s[|s| - 1] in cs {
      var r := TrimEnd(s[..|s| - 1], cs);
      TrimEndDropsSuffix(s[..|s| - 1], cs);
      assert s[|r|..] == s[..|s| - 1][|r|..] + [s[|s| - 1]];
    }
  }

  /** The trimmed string is a slice of the original, and everything outside
      that slice is in `cs`. */
  lemma {:induction false} TrimIsCore(s: string, cs: set<char>)
    ensures var k := |s| - |TrimStart(s, cs)|;
            var r := Trim(s, cs);
            0 <= k <= k + |r| <= |s| && r == s[k..k + |r|] &&
            AllIn(s[..k], cs) && AllIn(s[k + |r|..], cs)
  {
    var t := TrimStart(s, cs);
    var k := |s| - |t|;
    var r := Trim(s, cs);
    TrimStartDropsPrefix(s, cs);
    TrimEndDropsSuffix(t, cs);
    assert t == s[k..];
    assert r == t[..|r|];
    assert s[k + |r|..] == t[|r|..];
  }

  /** Trimming keeps a string within any alphabet it was already in. */
  lemma {:induction false} TrimKeepsAlphabet(s: string, cs: set<char>, alphabet: set<char>)
    requires AllIn(s, alphabet)
    ensures AllIn(Trim(s, cs), alphabet)
  {
    TrimIsCore(s, cs);
    var k := |s| - |TrimStart(s, cs)|;
    var r := Trim(s, cs);
    forall i | 0 <= i < |r|
      ensures r[i] in alphabet
    {
      assert r[i] == s[k + i];
    }
  }

  /** Trimming keeps everything between two characters that are not in `cs`. */
  lemma {:induction false} TrimKeepsInterior(s: string, cs: set<char>, i: nat, m: nat, j: nat)
    requires i <= m <= j < |s| && s[i] !in cs && s[j] !in cs
    ensures s[m] in Trim(s, cs)
  {
    TrimIsCore(s, cs);
    var k := |s| - |TrimStart(s, cs)|;
    var r := Trim(s, cs);
    assert r[m - k] == s[m];
  }

  /** Trimming a string that is already trimmed changes nothing. */
  lemma {:induction false} TrimTrimmed(s: string, cs: set<char>)
    requires IsTrimmed(s, cs)
    ensures Trim(s, cs) == s
  {
    assert TrimStart(s, cs) == s;
  }

  /** One character of `cs` on either side of a trimmed string is trimmed away. */
  lemma {:induction false} TrimPadded(s: string, pad: char, cs: set<char>)
    requires IsTrimmed(s, cs) && pad in cs
    ensures Trim(s + [pad], cs) == s && Trim([pad] + s, cs) == s
  {
    assert s + [pad] == [] + s + [pad];
    assert [pad] + s == [pad] + s + [];
    TrimAbsorbs([], s, [pad], cs);
    TrimAbsorbs([pad], s, [], cs);
    TrimTrimmed(s, cs);
  }

  /** Characters of `cs` around a string do not change its trimmed form. */
  lemma {:induction false} TrimAbsorbs(a: string, s: string, b: string, cs: set<char>)
    requires AllIn(a, cs) && AllIn(b, cs)
    ensures Trim(a + s + b, cs) == Trim(s, cs)
  {
    var t := s + b;
    assert a + s + b == a + t;
    TrimStartSkips(a, t, cs);
    TrimStartAppend(s, b, cs);
  }

  lemma {:induction false} TrimStartSkips(a: string, s: string, cs: set<char>)
    requires AllIn(a, cs)
    ensures TrimStart(a + s, cs) == TrimStart(s, cs)
    decreases |a|
  {
    if a == [] {
      assert a + s == s;
    } else {
      assert (a + s)[1..] == a[1..] + s;
      TrimStartSkips(a[1..], s, cs);
    }
  }

  lemma {:induction false} TrimStartAppend(s: string, b: string, cs: set<char>)
    requires AllIn(b, cs)
    ensures TrimEnd(TrimStart(s + b, cs), cs) == TrimEnd(TrimStart(s, cs), cs)
    decreases |s|
  {
    if s == [] {
      assert s + b == b + [];
      TrimStartSkips(b, [], cs);
    } else if s[0] in cs {
      assert (s + b)[0] == s[0];
      assert (s + b)[1..] == s[1..] + b;
      TrimStartAppend(s[1..], b, cs);
    } else {
      assert (s + b)[0] == s[0];
      TrimEndAppend(s, b, cs);
    }
  }

  lemma {:induction false} TrimEndAppend(s: string, b: string, cs: set<char>)
    requires AllIn(b, cs)
    ensures TrimEnd(s + b, cs) == TrimEnd(s, cs)
    decreases |b|
  {
    if b == [] {
      assert s + b == s;
    } else {
      var t := s + b;
      assert t[|t| - 1] == b[|b| - 1];
      assert t[..|t| - 1] == s + b[..|b| - 1];
      TrimEndAppend(s, b[..|b| - 1], cs);
    }
  }
}
