/** The string primitives the application borrows from JavaScript:
    `trim`, `startsWith`, `slice` and the `localeCompare` ordering of titles. */
module Strings {

  /** Whitespace as `trim` removes it, simplified to the ASCII layout characters
      (space, tab, line feed, vertical tab, form feed, carriage return). */
  predicate IsWhitespace(c: char) {
    c == ' ' || c == '\t' || c == '\n' || c == '\r' || c as int == 0x0B || c as int == 0x0C
  }

  /** How many whitespace characters `s` starts with. */
  function LeadingWhitespace(s: string): (n: nat)
    ensures n <= |s|
    ensures forall k :: 0 <= k < n ==> IsWhitespace(s[k])
    ensures n == |s| || !IsWhitespace(s[n])
  {
    if s == [] || !IsWhitespace(s[0]) then 0 else 1 + LeadingWhitespace(s[1..])
  }

  /** How many whitespace characters `s` ends with. */
  function TrailingWhitespace(s: string): (n: nat)
    ensures n <= |s|
    ensures forall k :: |s| - n <= k < |s| ==> IsWhitespace(s[k])
    ensures n == |s| || !IsWhitespace(s[|s| - n - 1])
  {
    if s == [] || !IsWhitespace(s[|s| - 1]) then 0 else 1 + TrailingWhitespace(s[..|s| - 1])
  }

  /** `r` sits in `s` at offset `i`, and everything cut away on either side is whitespace. */
  ghost predicate TrimmedAt(s: string, i: int, r: string) {
    && 0 <= i <= i + |r| <= |s|
    && r == s[i..i + |r|]
    && (forall k :: 0 <= k < i ==> IsWhitespace(s[k]))
    && (forall k :: i + |r| <= k < |s| ==> IsWhitespace(s[k]))
  }

  /** `String.prototype.trim`: the infix of `s` left after cutting the whitespace away
      on both sides; it neither starts nor ends with whitespace. */
  function Trim(s: string): (r: string)
    ensures TrimmedAt(s, LeadingWhitespace(s), r)
    ensures r == [] || (!IsWhitespace(r[0]) && !IsWhitespace(r[|r| - 1]))
  {
    var i := LeadingWhitespace(s);
    var j := |s| - TrailingWhitespace(s[i..]);
    assert forall k :: j <= k < |s| ==> IsWhitespace(s[k]) by {
      forall k | j <= k < |s|
        ensures IsWhitespace(s[k])
      {
        assert s[k] == s[i..][k - i];
      }
    }
    s[i..j]
  }

  /** A string is blank after trimming exactly when every character is whitespace. */
  lemma TrimEmptyIffBlank(s: string)
    ensures Trim(s) == [] <==> forall k :: 0 <= k < |s| ==> IsWhitespace(s[k])
  {
  }

  /** `String.prototype.startsWith`. */
  predicate StartsWith(s: string, prefix: string) {
    |prefix| <= |s| && s[..|prefix|] == prefix
  }

  /** How many UTF-16 code units a character takes in a JavaScript string: two for a
      character outside the Basic Multilingual Plane (a surrogate pair), one otherwise. */
  function Utf16Width(c: char): nat {
    if c as int >= 0x1_0000 then 2 else 1
  }

  /** `length`: the number of UTF-16 code units of `s`. */
  function Utf16Length(s: string): (n: nat)
    ensures |s| <= n <= 2 * |s|
  {
    if s == [] then 0 else Utf16Width(s[0]) + Utf16Length(s[1..])
  }

  lemma {:induction false} Utf16LengthAppend(a: string, b: string)
    ensures Utf16Length(a + b) == Utf16Length(a) + Utf16Length(b)
  {
    if a == [] {
      assert a + b == b;
    } else {
      assert (a + b)[0] == a[0] && (a + b)[1..] == a[1..] + b;
      Utf16LengthAppend(a[1..], b);
    }
  }

  /** `slice(0, n)` for a non-negative `n`, counted in UTF-16 code units: the longest
      prefix of `s` that fits in `n` units.  It is all of `s` when `s` fits, and
      otherwise the next character would not fit, so the prefix is `n` units long,
      or `n - 1` when the character at the cut is a surrogate pair. */
  function SliceUnits(s: string, n: nat): (r: string)
    ensures r <= s
    ensures Utf16Length(r) <= n
    ensures r == s || Utf16Length(r) + Utf16Width(s[|r|]) > n
    ensures Utf16Length(s) <= n ==> r == s
    ensures Utf16Length(s) > n ==> |r| < |s| && Utf16Length(r) + Utf16Width(s[|r|]) > n
  {
    if s == [] || Utf16Width(s[0]) > n then []
    else
      var rest := SliceUnits(s[1..], n - Utf16Width(s[0]));
      assert ([s[0]] + rest)[1..] == rest;
      [s[0]] + rest
  }

  /** Text inside the Basic Multilingual Plane takes one unit per character, so
      slicing it keeps the first `n` characters. */
  lemma {:induction false} SliceUnitsPlain(s: string, n: nat)
    requires forall k :: 0 <= k < |s| ==> s[k] as int < 0x1_0000
    ensures Utf16Length(s) == |s|
    ensures SliceUnits(s, n) == if |s| <= n then s else s[..n]
  {
    if s != [] {
      SliceUnitsPlain(s[1..], if n == 0 then 0 else n - 1);
      if n > 0 && |s| > n {
        assert s[..n] == [s[0]] + s[1..][..n - 1];
      }
    }
  }

  lemma {:induction false} AstralLength(s: string)
    requires forall k :: 0 <= k < |s| ==> s[k] as int >= 0x1_0000
    ensures Utf16Length(s) == 2 * |s|
  {
    if s != [] {
      AstralLength(s[1..]);
    }
  }

  lemma SliceUnitsCons(s: string, n: nat)
    requires s != [] && Utf16Width(s[0]) <= n
    ensures SliceUnits(s, n) == [s[0]] + SliceUnits(s[1..], n - Utf16Width(s[0]))
  {
  }

  lemma {:induction false} SliceAstralCut(s: string, m: nat)
    requires forall k :: 0 <= k < |s| ==> s[k] as int >= 0x1_0000
    requires |s| > m
    ensures SliceUnits(s, 2 * m) == s[..m]
  {
    assert Utf16Width(s[0]) == 2;
    if m > 0 {
      SliceUnitsCons(s, 2 * m);
      SliceAstralCut(s[1..], m - 1);
      assert s[..m] == [s[0]] + s[1..][..m - 1];
    }
  }

  /** Text made only of surrogate pairs takes two units per character, so slicing
      it at `2 * m` units keeps `m` characters. */
  lemma SliceUnitsAstral(s: string, m: nat)
    requires forall k :: 0 <= k < |s| ==> s[k] as int >= 0x1_0000
    ensures Utf16Length(s) == 2 * |s|
    ensures SliceUnits(s, 2 * m) == if |s| <= m then s else s[..m]
  {
    AstralLength(s);
    if |s| > m {
      SliceAstralCut(s, m);
    }
  }

  /** The ordering `localeCompare` gives titles, modelled as lexicographic order on
      character codes: negative when `a` sorts first, zero when equal, positive otherwise. */
  function CompareStrings(a: string, b: string): (r: int)
    ensures -1 <= r <= 1
    ensures r == 0 <==> a == b
  {
    if a == [] && b == [] then 0
    else if a == [] then -1
    else if b == [] then 1
    else if a[0] < b[0] then -1
    else if a[0] > b[0] then 1
    else
      var r := CompareStrings(a[1..], b[1..]);
      assert a == [a[0]] + a[1..] && b == [b[0]] + b[1..];
      r
  }

  /** Swapping the operands swaps the sign. */
  lemma {:induction false} CompareStringsAntisymmetric(a: string, b: string)
    ensures CompareStrings(a, b) == -CompareStrings(b, a)
    decreases |a|
  {
    if a != [] && b != [] && a[0] == b[0] {
      CompareStringsAntisymmetric(a[1..], b[1..]);
    }
  }

  /** "Sorts no later than" is transitive. */
  lemma {:induction false} CompareStringsTransitive(a: string, b: string, c: string)
    requires CompareStrings(a, b) <= 0 && CompareStrings(b, c) <= 0
    ensures CompareStrings(a, c) <= 0
    decreases |a|
  {
    if a != [] && b != [] && c != [] && a[0] == b[0] && b[0] == c[0] {
      CompareStringsTransitive(a[1..], b[1..], c[1..]);
    }
  }
}
