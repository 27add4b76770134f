/** The input validators and the query sanitiser of `src/utils/validators.ts`. */
module Validators {
  import opened Types
  import opened Strings
  import opened Lists

  /** The longest query the sanitiser lets through. */
  const MaxInputLength: nat := 200

  predicate IsAngle(c: char) {
    c == '<' || c == '>'
  }

  function NotAngle(): char -> bool {
    c => !IsAngle(c)
  }

  /** `replace(/[<>]/g, '')`: deletes every angle bracket and keeps everything else,
      in order (the order follows from `Lists.FilterAppend`). */
  function StripAngles(s: string): (r: string)
    ensures |r| <= |s|
    ensures forall k :: 0 <= k < |r| ==> !IsAngle(r[k])
    ensures forall c :: !IsAngle(c) ==> multiset(r)[c] == multiset(s)[c]
  {
    var r := Filter(s, NotAngle());
    assert forall k :: 0 <= k < |r| ==> !IsAngle(r[k]) by {
      forall k | 0 <= k < |r|
        ensures !IsAngle(r[k])
      {
        assert r[k] in multiset(r);
      }
    }
    r
  }

  /** A string without angle brackets comes through `StripAngles` unchanged. */
  lemma StripAnglesKeepsClean(s: string)
    requires forall k :: 0 <= k < |s| ==> !IsAngle(s[k])
    ensures StripAngles(s) == s
  {
    FilterAllPass(s, NotAngle());
  }

  /** `sanitizeInput`: trim, then delete the angle brackets, then keep the first 200
      UTF-16 code units.  The result is a prefix of the trimmed, bracket-free input and
      never longer than 200 units; it is all of that input when it fits, and otherwise
      exactly 200 units long, or 199 when the character at the cut is a surrogate pair. */
  function SanitizeInput(input: string): (r: string)
    ensures Utf16Length(r) <= MaxInputLength && |r| <= MaxInputLength
    ensures forall k :: 0 <= k < |r| ==> !IsAngle(r[k])
    ensures r <= StripAngles(Trim(input))
    ensures Utf16Length(StripAngles(Trim(input))) <= MaxInputLength ==> r == StripAngles(Trim(input))
    ensures Utf16Length(StripAngles(Trim(input))) > MaxInputLength ==>
              Utf16Length(r) == MaxInputLength
              || (&& |r| < |StripAngles(Trim(input))| && Utf16Length(r) == MaxInputLength - 1
                  && Utf16Width(StripAngles(Trim(input))[|r|]) == 2)
  {
    var clean := StripAngles(Trim(input));
    SliceUnits(clean, MaxInputLength)
  }

  /** Input inside the Basic Multilingual Plane with no brackets and no surrounding
      whitespace that is at least 200 long is cut to exactly its first 200 characters. */
  lemma SanitizeTruncatesPlainInput(input: string)
    requires |input| >= MaxInputLength
    requires !IsWhitespace(input[0]) && !IsWhitespace(input[|input| - 1])
    requires forall k :: 0 <= k < |input| ==> !IsAngle(input[k])
    requires forall k :: 0 <= k < |input| ==> input[k] as int < 0x1_0000
    ensures SanitizeInput(input) == input[..MaxInputLength]
  {
    TrimKeepsTight(input);
    StripAnglesKeepsClean(input);
    PlainPrefix(input);
  }

  lemma PlainPrefix(s: string)
    requires |s| >= MaxInputLength
    requires forall k :: 0 <= k < |s| ==> s[k] as int < 0x1_0000
    ensures SliceUnits(s, MaxInputLength) == s[..MaxInputLength]
  {
    SliceUnitsPlain(s, MaxInputLength);
  }

  /** The unit-test case: 300 copies of 'a' sanitise to 200 characters. */
  lemma SanitizeLongQueryExample()
    ensures |SanitizeInput(seq(300, _ => 'a'))| == 200
  {
    SanitizeTruncatesPlainInput(seq(300, _ => 'a'));
  }

  /** The cap counts code units, not characters: 150 emoji take 300 units, and only
      the first 100 of them survive. */
  lemma SanitizeAstralExample()
    ensures var emoji := seq(150, _ => '\U{1F600}');
            SanitizeInput(emoji) == emoji[..100] && Utf16Length(SanitizeInput(emoji)) == 200
  {
    var emoji := seq(150, _ => '\U{1F600}');
    assert LeadingWhitespace(emoji) == 0;
    assert Trim(emoji) == emoji;
    StripAnglesKeepsClean(emoji);
    SliceUnitsAstral(emoji, 100);
    SliceUnitsAstral(emoji[..100], 0);
  }

  /** Deleting the brackets of a concatenation deletes them from each part. */
  lemma StripAnglesAppend(a: string, b: string)
    ensures StripAngles(a + b) == StripAngles(a) + StripAngles(b)
  {
    FilterAppend(a, b, NotAngle());
  }

  lemma StripAnglesBracket(c: char)
    requires IsAngle(c)
    ensures StripAngles([c]) == []
  {
    assert Filter([c], NotAngle()) == [] + Filter([c][1..], NotAngle());
  }

  lemma TrimExampleA()
    ensures Trim("< a >") == "< a >"
  {
    assert LeadingWhitespace("< a >") == 0;
    assert TrailingWhitespace("< a >") == 0;
  }

  /** Brackets around clean text are deleted and the text is kept. */
  lemma StripBracketed(l: char, m: string, r: char)
    requires IsAngle(l) && IsAngle(r)
    requires forall k :: 0 <= k < |m| ==> !IsAngle(m[k])
    ensures StripAngles([l] + m + [r]) == m
  {
    StripAnglesAppend([l] + m, [r]);
    StripAnglesAppend([l], m);
    StripAnglesBracket(l);
    StripAnglesBracket(r);
    StripAnglesKeepsClean(m);
  }

  /** A string that neither starts nor ends with whitespace is its own trim. */
  lemma TrimKeepsTight(s: string)
    requires s != [] && !IsWhitespace(s[0]) && !IsWhitespace(s[|s| - 1])
    ensures Trim(s) == s
  {
    assert LeadingWhitespace(s) == 0;
    assert TrailingWhitespace(s) == 0;
  }

  /** An opening and a closing tag around clean text lose their brackets and nothing else. */
  lemma StripTagged(open: string, body: string, close: string)
    requires forall k :: 0 <= k < |open| ==> !IsAngle(open[k])
    requires forall k :: 0 <= k < |body| ==> !IsAngle(body[k])
    requires forall k :: 0 <= k < |close| ==> !IsAngle(close[k])
    ensures StripAngles(['<'] + open + ['>'] + body + ['<'] + close + ['>']) == open + body + close
  {
    var a, c := ['<'] + open + ['>'], ['<'] + close + ['>'];
    assert ['<'] + open + ['>'] + body + ['<'] + close + ['>'] == a + body + c;
    StripAnglesAppend(a + body, c);
    StripAnglesAppend(a, body);
    StripBracketed('<', open, '>');
    StripBracketed('<', close, '>');
    StripAnglesKeepsClean(body);
  }

  /** Clean text between an opening and a closing tag, short enough not to be cut,
      sanitises to the three texts joined. */
  lemma SanitizeTagged(open: string, body: string, close: string)
    requires forall k :: 0 <= k < |open| ==> !IsAngle(open[k])
    requires forall k :: 0 <= k < |body| ==> !IsAngle(body[k])
    requires forall k :: 0 <= k < |close| ==> !IsAngle(close[k])
    requires Utf16Length(open + body + close) <= MaxInputLength
    ensures SanitizeInput(['<'] + open + ['>'] + body + ['<'] + close + ['>']) == open + body + close
  {
    var s := ['<'] + open + ['>'] + body + ['<'] + close + ['>'];
    assert s[0] == '<' && s[|s| - 1] == '>';
    TrimKeepsTight(s);
    StripTagged(open, body, close);
  }

  /** The unit-test case: "<div>test</div>", written here as its pieces, sanitises
      to "divtest/div". */
  lemma SanitizeTagExample()
    ensures SanitizeInput(['<'] + "div" + ['>'] + "test" + ['<'] + "/div" + ['>']) == "div" + "test" + "/div"
  {
    SanitizeTagged("div", "test", "/div");
  }

  lemma StripExampleA()
    ensures StripAngles("< a >") == " a "
  {
    StripBracketed('<', " a ", '>');
    assert "< a >" == ['<'] + " a " + ['>'];
  }

  lemma TrimExampleB()
    ensures Trim(" a ") == "a"
  {
    assert LeadingWhitespace("a ") == 0;
    assert LeadingWhitespace(" a ") == 1;
    assert TrailingWhitespace("a") == 0;
    assert TrailingWhitespace("a ") == 1;
  }

  /** Trimming comes before the brackets are deleted, so whitespace that the brackets
      were shielding survives, and sanitising a second time trims it: `"< a >"`
      sanitises to `" a "`, which sanitises to `"a"`.  The sanitiser is not idempotent. */
  lemma SanitizeOrderExample()
    ensures SanitizeInput("< a >") == " a "
    ensures SanitizeInput(" a ") == "a"
    ensures SanitizeInput(SanitizeInput("< a >")) != SanitizeInput("< a >")
  {
    TrimExampleA();
    StripExampleA();
    TrimExampleB();
    StripAnglesKeepsClean("a");
  }

  predicate IsDigit(c: char) {
    '0' <= c <= '9'
  }

  /** How many decimal digits `s` starts with. */
  function DigitRun(s: string): (n: nat)
    ensures n <= |s|
    ensures forall k :: 0 <= k < n ==> IsDigit(s[k])
    ensures n == |s| || !IsDigit(s[n])
  {
    if s == [] || !IsDigit(s[0]) then 0 else 1 + DigitRun(s[1..])
  }

  /** `isValidImdbId`, the anchored pattern `^tt\d{7,}$`: "tt" followed by seven or
      more ASCII digits and nothing else. */
  function IsValidImdbId(id: string): (ok: bool)
    ensures ok <==> |id| >= 9 && id[0] == 't' && id[1] == 't'
                    && forall k :: 2 <= k < |id| ==> IsDigit(id[k])
  {
    if |id| < 2 || id[..2] != "tt" then false
    else
      var run := DigitRun(id[2..]);
      assert forall k :: 2 <= k < 2 + run ==> id[k] == id[2..][k - 2];
      run == |id| - 2 && run >= 7
  }

  /** "tt" followed by seven or more digits is a well-formed id. */
  lemma ImdbIdFromDigits(digits: string)
    requires |digits| >= 7 && forall k :: 0 <= k < |digits| ==> IsDigit(digits[k])
    ensures IsValidImdbId("tt" + digits)
  {
    var id := "tt" + digits;
    assert forall k :: 2 <= k < |id| ==> id[k] == digits[k - 2];
  }

  /** The ids the unit tests accept, written as prefix and digits. */
  lemma ImdbIdAcceptedExamples()
    ensures IsValidImdbId("tt" + "0133093") && IsValidImdbId("tt" + "1234567") && IsValidImdbId("tt" + "12345678")
  {
    ImdbIdFromDigits("0133093");
    ImdbIdFromDigits("1234567");
    ImdbIdFromDigits("12345678");
  }

  /** The ids the unit tests reject. */
  lemma ImdbIdRejectedExamples()
    ensures !IsValidImdbId("123456") && !IsValidImdbId("tt123")
    ensures !IsValidImdbId("nm0000123") && !IsValidImdbId("")
  {
  }

  /** `isValidYear`, with the current calendar year passed in. */
  function IsValidYear(year: int, currentYear: int): (ok: bool)
    ensures ok <==> 1900 <= year <= currentYear + 5
  {
    year >= 1900 && year <= currentYear + 5
  }

  /** `isValidPage` on integers (the fractional pages it also rejects are not modelled). */
  function IsValidPage(page: int): (ok: bool)
    ensures ok <==> page >= 1
  {
    page > 0
  }

  /** `isValidSearchQuery` accepts every string: the sanitiser already caps the length. */
  function IsValidSearchQuery(query: string): (ok: bool)
    ensures ok
  {
    var sanitized := SanitizeInput(query);
    0 <= Utf16Length(sanitized) <= MaxInputLength
  }

  /** A value of unknown type, as `isNonEmptyString` receives it. */
  datatype Unknown = Text(text: string) | NotText

  /** `isNonEmptyString`: a string with at least one character that is not whitespace. */
  function IsNonEmptyString(v: Unknown): (ok: bool)
    ensures ok <==> v.Text? && exists k :: 0 <= k < |v.text| && !IsWhitespace(v.text[k])
  {
    match v
    case NotText => false
    case Text(s) =>
      TrimEmptyIffBlank(s);
      |Trim(s)| > 0
  }

  /** `isValidSortOption`: membership in the four wire names. */
  function IsValidSortOption(s: string): (ok: bool)
    ensures ok <==> exists o :: SortOptionName(o) == s
  {
    var ok := s in ["title-asc", "title-desc", "year-asc", "year-desc"];
    if ok then
      assert SortOptionName(if s == "title-asc" then TitleAsc else if s == "title-desc" then TitleDesc
                            else if s == "year-asc" then YearAsc else YearDesc) == s;
      ok
    else
      assert forall o :: SortOptionName(o) in ["title-asc", "title-desc", "year-asc", "year-desc"];
      ok
  }

  /** The narrowing `isValidSortOption` performs as a type guard. */
  function ParseSortOption(s: string): (r: Option<SortOption>)
    ensures r.Some? <==> IsValidSortOption(s)
    ensures r.Some? ==> SortOptionName(r.value) == s
  {
    if s == "title-asc" then Some(TitleAsc)
    else if s == "title-desc" then Some(TitleDesc)
    else if s == "year-asc" then Some(YearAsc)
    else if s == "year-desc" then Some(YearDesc)
    else None
  }

  /** Every sort option survives the trip to its wire name and back. */
  lemma SortOptionRoundTrip(o: SortOption)
    ensures ParseSortOption(SortOptionName(o)) == Some(o)
  {
  }
}
