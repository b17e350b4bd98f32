/** String operations the clipboard history relies on: lower-casing, the
    substring test behind `query in text`, the first line of a rendered
    listbox row, and Python's ordering of strings. */
module Text {

  predicate IsUpper(c: char) {
    'A' <= c <= 'Z'
  }

  /** True when no character of `s` is an upper-case ASCII letter. */
  predicate NoUpper(s: string) {
    forall i :: 0 <= i < |s| ==> !IsUpper(s[i])
  }

  function LowerChar(c: char): (r: char)
    ensures !IsUpper(r)
    ensures !IsUpper(c) ==> r == c
  {
    if IsUpper(c) then (c as int + 32) as char else c
  }

  /** `str.lower()`, restricted to the ASCII letters: each letter A-Z
      becomes its lower-case letter and every other character is kept. */
  function Lower(s: string): (r: string)
    ensures |r| == |s|
    ensures NoUpper(r)
    ensures forall i :: 0 <= i < |s| && !IsUpper(s[i]) ==> r[i] == s[i]
    ensures forall i :: 0 <= i < |s| && IsUpper(s[i]) ==> r[i] as int == s[i] as int + 32
  {
    seq(|s|, i requires 0 <= i < |s| => LowerChar(s[i]))
  }

  /** Two characters that are equal or are the upper- and lower-case
      forms of one ASCII letter. */
  predicate CasePartners(a: char, b: char) {
    a == b
    || (IsUpper(a) && b as int == a as int + 32)
    || (IsUpper(b) && a as int == b as int + 32)
  }

  /** Strings that differ only in the case of ASCII letters lower-case to
      the same string. */
  lemma LowerIgnoresCase(s: string, t: string)
    requires |s| == |t|
    requires forall i :: 0 <= i < |s| ==> CasePartners(s[i], t[i])
    ensures Lower(s) == Lower(t)
  {
    var a, b := Lower(s), Lower(t);
    forall i | 0 <= i < |s| ensures a[i] == b[i] {
      assert CasePartners(s[i], t[i]);
    }
  }

  /** Python's `q in s` on strings: `q` occurs in `s` as a contiguous
      block, checked at every starting position from left to right. */
  predicate Contains(s: string, q: string) {
    q <= s || (s != [] && Contains(s[1..], q))
  }

  /** `Contains` agrees with the definition by an explicit position. */
  lemma {:induction false} ContainsAt(s: string, q: string)
    ensures Contains(s, q) <==> exists i :: 0 <= i <= |s| && q <= s[i..]
  {
    if s == [] {
      assert s[0..] == s;
    } else {
      ContainsAt(s[1..], q);
      if Contains(s, q) {
        if q <= s {
          assert s[0..] == s;
        } else {
          var i :| 0 <= i <= |s| - 1 && q <= s[1..][i..];
          assert s[1..][i..] == s[i + 1..];
        }
      }
      if exists i :: 0 <= i <= |s| && q <= s[i..] {
        var i :| 0 <= i <= |s| && q <= s[i..];
        if i == 0 {
          assert s[0..] == s;
        } else {
          assert s[1..][i - 1..] == s[i..];
        }
      }
    }
  }

  /** The empty query occurs in every string. */
  lemma ContainsEmpty(s: string)
    ensures Contains(s, [])
  {
  }

  /** `s.split('\n')[0]`: everything before the first newline, or all of
      `s` when it has none. The three clauses determine the result. */
  function FirstLine(s: string): (r: string)
    ensures r <= s
    ensures '\n' !in r
    ensures |r| == |s| || s[|r|] == '\n'
  {
    if s == [] || s[0] == '\n' then [] else [s[0]] + FirstLine(s[1..])
  }

  /** Whatever follows the first newline does not affect the first line. */
  lemma {:induction false} FirstLineOfJoin(a: string, b: string)
    ensures FirstLine(a + "\n" + b) == FirstLine(a)
  {
    if a != [] && a[0] != '\n' {
      assert (a + "\n" + b)[1..] == a[1..] + "\n" + b;
      FirstLineOfJoin(a[1..], b);
    }
  }

  /** A string without newlines is its own first line. */
  lemma {:induction false} FirstLineNoNewline(a: string)
    requires '\n' !in a
    ensures FirstLine(a) == a
  {
    if a != [] {
      FirstLineNoNewline(a[1..]);
    }
  }

  /** Python's `a < b` on strings: code point by code point, and a proper
      prefix comes first. */
  predicate LexLess(a: string, b: string) {
    if a == [] then b != []
    else if b == [] then false
    else if a[0] != b[0] then a[0] < b[0]
    else LexLess(a[1..], b[1..])
  }

  /** Python's `a <= b` on strings. */
  predicate LexLe(a: string, b: string) {
    a == b || LexLess(a, b)
  }

  lemma {:induction false} LexLessIrreflexive(a: string)
    ensures !LexLess(a, a)
  {
    if a != [] {
      LexLessIrreflexive(a[1..]);
    }
  }

  lemma {:induction false} LexLessTransitive(a: string, b: string, c: string)
    requires LexLess(a, b) && LexLess(b, c)
    ensures LexLess(a, c)
  {
    if a != [] && b != [] && c != [] && a[0] == b[0] && b[0] == c[0] {
      LexLessTransitive(a[1..], b[1..], c[1..]);
    }
  }

  lemma {:induction false} LexLessTotal(a: string, b: string)
    ensures LexLess(a, b) || a == b || LexLess(b, a)
  {
    if a != [] && b != [] && a[0] == b[0] {
      LexLessTotal(a[1..], b[1..]);
      if a[1..] == b[1..] {
        assert a == [a[0]] + a[1..] && b == [b[0]] + b[1..];
      }
    }
  }

  lemma LexLessAsymmetric(a: string, b: string)
    requires LexLess(a, b)
    ensures !LexLess(b, a)
  {
    if LexLess(b, a) {
      LexLessTransitive(a, b, a);
      LexLessIrreflexive(a);
    }
  }
}
