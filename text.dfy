/**
 * The string operations the booking engine and the registry rely on:
 * JavaScript's `String.prototype.trim`, the case-insensitive whole-string
 * match of a `^...$` regular expression with the `i` flag, the code-point
 * order MongoDB's `$sort` uses on strings, and an abstraction of
 * `localeCompare` as a strict total order.
 */
module Text {
  import opened Wrappers

  /** The characters `trim` removes: ECMAScript's WhiteSpace and LineTerminator. */
  predicate IsWhitespace(c: char) {
    || c == ' ' || c == '\t' || c == '\n' || c == '\r'
    || c == '\U{B}' || c == '\U{C}' || c == '\U{A0}' || c == '\U{1680}'
    || ('\U{2000}' <= c <= '\U{200A}')
    || c == '\U{2028}' || c == '\U{2029}' || c == '\U{202F}'
    || c == '\U{205F}' || c == '\U{3000}' || c == '\U{FEFF}'
  }

  /** Every character is whitespace (the empty string included). */
  predicate IsBlank(s: string) {
    forall i :: 0 <= i < |s| ==> IsWhitespace(s[i])
  }

  /**
   * A text input that is absent (`undefined` or `null`) or trims to the
   * empty string: what both the booking request check and the
   * registration presence check refuse.
   */
  predicate IsAbsentOrBlank(field: Option<string>) {
    field.None? || IsBlank(field.value)
  }

  /** No whitespace at either end: what `trim` leaves behind. */
  predicate Trimmed(s: string) {
    s == [] || (!IsWhitespace(s[0]) && !IsWhitespace(s[|s| - 1]))
  }

  /** `trimStart`: drops the leading whitespace and nothing else. */
  function TrimStart(s: string): (r: string)
    ensures |r| <= |s| && r == s[|s| - |r|..]
    ensures IsBlank(s[..|s| - |r|])
    ensures r == [] || !IsWhitespace(r[0])
  {
    if s != [] && IsWhitespace(s[0]) then TrimStart(s[1..]) else s
  }

  /** `trimEnd`: drops the trailing whitespace and nothing else. */
  function TrimEnd(s: string): (r: string)
    ensures |r| <= |s| && r == s[..|r|]
    ensures IsBlank(s[|r|..])
    ensures r == [] || !IsWhitespace(r[|r| - 1])
  {
    if s != [] && IsWhitespace(s[|s| - 1]) then TrimEnd(s[..|s| - 1]) else s
  }

  /**
   * `trim`: drops the whitespace at both ends. Written as one recursion so
   * that a client sees its contract rather than two nested unfoldings.
   */
  function Trim(s: string): (r: string)
    ensures Trimmed(r) && |r| <= |s|
    ensures r == [] <==> IsBlank(s)
  {
    if s == [] then []
    else if IsWhitespace(s[0]) then
      assert IsBlank(s) <==> IsBlank(s[1..]) by {
        if IsBlank(s[1..]) {
          forall i | 0 <= i < |s| ensures IsWhitespace(s[i]) {
            if i > 0 { assert s[i] == s[1..][i - 1]; }
          }
        }
      }
      Trim(s[1..])
    else if IsWhitespace(s[|s| - 1]) then
      assert IsBlank(s) <==> IsBlank(s[..|s| - 1]) by {
        assert !IsBlank(s) by { assert !IsWhitespace(s[0]); }
        assert !IsBlank(s[..|s| - 1]) by { assert s[..|s| - 1][0] == s[0]; }
      }
      Trim(s[..|s| - 1])
    else
      s
  }

  /** `trim` is `trimStart` followed by `trimEnd`. */
  lemma {:induction false} TrimIsTrimStartThenTrimEnd(s: string)
    ensures Trim(s) == TrimEnd(TrimStart(s))
    decreases |s|
  {
    if s == [] {
    } else if IsWhitespace(s[0]) {
      assert TrimStart(s) == TrimStart(s[1..]);
      TrimIsTrimStartThenTrimEnd(s[1..]);
    } else {
      assert TrimStart(s) == s;
      if IsWhitespace(s[|s| - 1]) {
        var t := s[..|s| - 1];
        assert t != [] && t[0] == s[0];
        assert TrimStart(t) == t;
        assert TrimEnd(s) == TrimEnd(t);
        TrimIsTrimStartThenTrimEnd(t);
      } else {
        assert TrimEnd(s) == s;
      }
    }
  }

  /** Trimming a trimmed string changes nothing. */
  lemma TrimOfTrimmed(s: string)
    requires Trimmed(s)
    ensures Trim(s) == s
  {
  }

  /** `trim` is idempotent. */
  lemma TrimIdempotent(s: string)
    ensures Trim(Trim(s)) == Trim(s)
  {
  }

  /** ASCII lower-casing: the case folding the model gives to the regular expression's `i` flag. */
  function LowerChar(c: char): char {
    if 'A' <= c <= 'Z' then (c as int + 32) as char else c
  }

  function Lower(s: string): string {
    seq(|s|, i requires 0 <= i < |s| => LowerChar(s[i]))
  }

  /** The match the database makes for `a` against the pattern `^b$` with the `i` flag, if `b` held no metacharacters and every letter in both were ASCII. */
  predicate EqualsIgnoreCase(a: string, b: string) {
    Lower(a) == Lower(b)
  }

  /** Strict lexicographic order on characters: MongoDB's binary string order. */
  predicate LexLess(a: string, b: string) {
    if a == [] then b != []
    else if b == [] then false
    else a[0] < b[0] || (a[0] == b[0] && LexLess(a[1..], b[1..]))
  }

  lemma {:induction false} LexLessIrreflexive(a: string)
    ensures !LexLess(a, a)
  {
    if a != [] {
      LexLessIrreflexive(a[1..]);
    }
  }

  lemma {:induction false} LexLessTransitive(a: string, b: string, c: string)
    requires LexLess(a, b) && LexLess(b, c)
    ensures LexLess(a, c)
  {
    if a != [] && b != [] && c != [] && a[0] == b[0] == c[0] {
      LexLessTransitive(a[1..], b[1..], c[1..]);
    }
  }

  lemma {:induction false} LexLessTotal(a: string, b: string)
    requires a != b
    ensures LexLess(a, b) || LexLess(b, a)
  {
    if a != [] && b != [] && a[0] == b[0] {
      assert a == [a[0]] + a[1..] && b == [b[0]] + b[1..];
      LexLessTotal(a[1..], b[1..]);
    }
  }

  lemma LexLessAsymmetric(a: string, b: string)
    requires LexLess(a, b)
    ensures !LexLess(b, a)
  {
    if LexLess(b, a) {
      LexLessTransitive(a, b, a);
      LexLessIrreflexive(a);
    }
  }

  /**
   * The order `localeCompare` gives identifiers, abstracted: case-insensitive
   * lexicographic order; between strings that differ only in case, the
   * raw code units decide in reverse, so that at the first difference in
   * case the lower-case letter comes first, as in the default collation.
   */
  predicate IdLess(a: string, b: string) {
    LexLess(Lower(a), Lower(b)) || (Lower(a) == Lower(b) && LexLess(b, a))
  }

  lemma IdLessIrreflexive(a: string)
    ensures !IdLess(a, a)
  {
    LexLessIrreflexive(a);
    LexLessIrreflexive(Lower(a));
  }

  lemma IdLessTransitive(a: string, b: string, c: string)
    requires IdLess(a, b) && IdLess(b, c)
    ensures IdLess(a, c)
  {
    if LexLess(Lower(a), Lower(b)) && LexLess(Lower(b), Lower(c)) {
      LexLessTransitive(Lower(a), Lower(b), Lower(c));
    } else if Lower(a) == Lower(b) && Lower(b) == Lower(c) {
      LexLessTransitive(c, b, a);
    }
  }

  lemma IdLessTotal(a: string, b: string)
    requires a != b
    ensures IdLess(a, b) || IdLess(b, a)
  {
    if Lower(a) == Lower(b) {
      LexLessTotal(a, b);
    } else {
      LexLessTotal(Lower(a), Lower(b));
    }
  }

  lemma IdLessAsymmetric(a: string, b: string)
    requires IdLess(a, b)
    ensures !IdLess(b, a)
  {
    if IdLess(b, a) {
      IdLessTransitive(a, b, a);
      IdLessIrreflexive(a);
    }
  }

  /** Two ids that differ only in case: the lower-case one sorts first. */
  lemma LowerCaseIdFirst(a: string, b: string)
    requires a == "d1" && b == "D1"
    ensures IdLess(a, b) && !IdLess(b, a)
  {
    assert Lower(a) == "d1" && Lower(b) == "d1";
    assert LexLess(b, a);
    IdLessAsymmetric(a, b);
  }
}
