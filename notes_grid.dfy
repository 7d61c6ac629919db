/** The pure display helpers of the notes grid
    (frontend/src/components/NotesGrid.tsx): the card shadow chosen from the
    note's background colour, the plain text of a rich-text description,
    and whether the card shows "Read more". */
module NotesGrid {
  import opened Wrappers
  import opened JsString
  import opened Types

  // ---------------------------------------------------------------------
  // parseInt(s, 16)
  // ---------------------------------------------------------------------

  predicate IsHexDigit(c: char) {
    ('0' <= c <= '9') || ('a' <= c <= 'f') || ('A' <= c <= 'F')
  }

  function HexDigitValue(c: char): (v: nat)
    requires IsHexDigit(c)
    ensures v < 16
  {
    if '0' <= c <= '9' then c as int - '0' as int
    else if 'a' <= c <= 'f' then c as int - 'a' as int + 10
    else c as int - 'A' as int + 10
  }

  /** The number of hex digits at the start of `s`. */
  function HexPrefixLength(s: string): (n: nat)
    ensures n <= |s|
    ensures forall i :: 0 <= i < n ==> IsHexDigit(s[i])
    ensures n < |s| ==> !IsHexDigit(s[n])
  {
    if s != [] && IsHexDigit(s[0]) then 1 + HexPrefixLength(s[1..]) else 0
  }

  /** The value of a string of hex digits, most significant first. */
  function HexValue(s: string): (v: nat)
    requires forall i :: 0 <= i < |s| ==> IsHexDigit(s[i])
  {
    if s == [] then 0 else 16 * HexValue(s[..|s| - 1]) + HexDigitValue(s[|s| - 1])
  }

  /** `parseInt(s, 16)` as section 19.2.5 of ECMA-262 defines it: leading
      white space skipped, an optional sign, an optional `0x`/`0X` prefix,
      then the longest run of hex digits; `None` (NaN) when that run is
      empty. */
  function ParseIntHex(s: string): Option<int> {
    var t := TrimStart(s);
    var negative := t != [] && t[0] == '-';
    var unsigned := if t != [] && (t[0] == '-' || t[0] == '+') then t[1..] else t;
    var digits := if |unsigned| >= 2 && unsigned[0] == '0' && (unsigned[1] == 'x' || unsigned[1] == 'X')
                  then unsigned[2..] else unsigned;
    var n := HexPrefixLength(digits);
    if n == 0 then None
    else
      var run := digits[..n];
      assert forall i :: 0 <= i < |run| ==> run[i] == digits[i];
      var v: int := HexValue(run);
      Some(if negative then -v else v)
  }

  /** Two hex digits parse to the byte they spell, `16 * hi + lo`. */
  lemma ParseTwoHexDigits(s: string)
    requires |s| == 2 && IsHexDigit(s[0]) && IsHexDigit(s[1])
    ensures ParseIntHex(s) == Some(16 * HexDigitValue(s[0]) + HexDigitValue(s[1]))
    ensures 0 <= ParseIntHex(s).value <= 255
  {
    assert !IsWhiteSpace(s[0]);
    assert TrimStart(s) == s;
    assert HexPrefixLength(s[1..]) == 1 by { assert s[1..][1..] == []; }
    assert HexPrefixLength(s) == 2;
    assert s[..2] == s;
    assert s[..1][..0] == [];
    assert HexValue(s[..1]) == HexDigitValue(s[0]);
    assert HexValue(s) == 16 * HexDigitValue(s[0]) + HexDigitValue(s[1]);
  }

  // ---------------------------------------------------------------------
  // computeShadow
  // ---------------------------------------------------------------------

  const DefaultShadow := "0px 2px 6px rgba(0,0,0,0.15)"
  const LightShadow := "0px 4px 14px rgba(255,255,255,0.35)"
  const DarkShadow := "0px 4px 14px rgba(0,0,0,0.23)"

  /** `(r * 299 + g * 587 + b * 114) / 1000 < 140`. The division and the
      comparison are in IEEE doubles in the source; for the integers
      `parseInt` can produce from two characters the quotient is below 140
      exactly when the numerator is below 140000. A NaN channel makes the
      comparison false. */
  predicate DarkBackground(r: Option<int>, g: Option<int>, b: Option<int>) {
    r.Some? && g.Some? && b.Some? && r.value * 299 + g.value * 587 + b.value * 114 < 140000
  }

  /** `computeShadow(color)`. */
  function ComputeShadow(color: Option<string>): string {
    if !Truthy(color) then DefaultShadow
    else ShadowOfHex(if color.value[0] == '#' then color.value[1..] else color.value)
  }

  /** The part of `computeShadow` after the leading `#` is dropped. */
  function ShadowOfHex(hex: string): string {
    if |hex| != 6 then DefaultShadow
    else if DarkBackground(ParseIntHex(hex[0..2]), ParseIntHex(hex[2..4]), ParseIntHex(hex[4..6]))
    then LightShadow
    else DarkShadow
  }

  /** A colour that is absent, empty, or not six characters once one leading
      `#` is dropped gets the default shadow; so do the eight-digit palette
      colours such as `#d4e9f8ff`. */
  lemma ShadowDefault(color: Option<string>)
    requires !Truthy(color) || |color.value| == 1 + 8 ||
             (color.value[0] == '#' && |color.value| != 7) ||
             (color.value[0] != '#' && |color.value| != 6)
    ensures ComputeShadow(color) == DefaultShadow
  {
  }

  /** The channel spelled by the two hex digits at `i` and `i + 1`. */
  lemma ChannelValue(hex: string, i: nat)
    requires i + 2 <= |hex| && IsHexDigit(hex[i]) && IsHexDigit(hex[i + 1])
    ensures ParseIntHex(hex[i..i + 2]) == Some(16 * HexDigitValue(hex[i]) + HexDigitValue(hex[i + 1]))
  {
    var s := hex[i..i + 2];
    assert s[0] == hex[i] && s[1] == hex[i + 1];
    ParseTwoHexDigits(s);
  }

  /** A colour written `#` and more is judged by the characters after the
      `#`. */
  lemma ShadowOfHashColor(color: string)
    requires |color| >= 1 && color[0] == '#'
    ensures ComputeShadow(Some(color)) == ShadowOfHex(color[1..])
  {
  }

  /** For six hex digits the channels are bytes, and the light shadow is
      chosen exactly when the background's brightness (out of 255) is below
      140. */
  lemma ShadowOfSixHexDigits(hex: string)
    requires |hex| == 6
    requires IsHexDigit(hex[0]) && IsHexDigit(hex[1]) && IsHexDigit(hex[2])
    requires IsHexDigit(hex[3]) && IsHexDigit(hex[4]) && IsHexDigit(hex[5])
    ensures var r := 16 * HexDigitValue(hex[0]) + HexDigitValue(hex[1]);
            var g := 16 * HexDigitValue(hex[2]) + HexDigitValue(hex[3]);
            var b := 16 * HexDigitValue(hex[4]) + HexDigitValue(hex[5]);
            && r <= 255 && g <= 255 && b <= 255
            && ShadowOfHex(hex) == (if 299 * r + 587 * g + 114 * b < 140000 then LightShadow else DarkShadow)
  {
    ChannelValue(hex, 0);
    ChannelValue(hex, 2);
    ChannelValue(hex, 4);
  }

  /** Black cards get the light shadow, white cards the dark one. */
  lemma ShadowOfBlackAndWhite()
    ensures ComputeShadow(Some("#000000")) == LightShadow
    ensures ComputeShadow(Some("#ffffff")) == DarkShadow
  {
    ShadowOfHashColor("#000000");
    assert "#000000"[1..] == "000000";
    ShadowOfSixHexDigits("000000");
    ShadowOfHashColor("#ffffff");
    assert "#ffffff"[1..] == "ffffff";
    ShadowOfSixHexDigits("ffffff");
  }

  // ---------------------------------------------------------------------
  // stripHtml and shouldShowReadMore
  // ---------------------------------------------------------------------

  /** The index of the first `c` in `s`, or -1. */
  function IndexOf(s: string, c: char): (i: int)
    ensures -1 <= i < |s|
    ensures i == -1 <==> c !in s
    ensures 0 <= i ==> s[i] == c && c !in s[..i]
  {
    if s == [] then -1
    else if s[0] == c then 0
    else
      var i := IndexOf(s[1..], c);
      assert s == [s[0]] + s[1..];
      if i == -1 then -1
      else
        assert s[..i + 1] == [s[0]] + s[1..][..i];
        i + 1
  }

  /** The length of the match of `/<[^>]+>/` at the start of `s`, or 0 when
      there is none: a `<`, at least one character other than `>`, and the
      first `>` after them. A match is found whenever one exists. */
  function TagLength(s: string): (n: nat)
    ensures n == 0 || (3 <= n <= |s| && s[0] == '<' && s[n - 1] == '>' && '>' !in s[1..n - 1])
    ensures |s| >= 3 && s[0] == '<' && s[1] != '>' && '>' in s[2..] ==> n > 0
  {
    if s == [] || s[0] != '<' then 0
    else
      var close := IndexOf(s[1..], '>');
      assert |s| >= 3 && s[1] != '>' && '>' in s[2..] ==> '>' in s[1..] && close != 0 by {
        if |s| >= 3 && s[1] != '>' && '>' in s[2..] {
          var j :| 0 <= j < |s[2..]| && s[2..][j] == '>';
          assert s[1..][j + 1] == '>';
        }
      }
      if close < 1 then 0
      else
        assert s[1..close + 1] == s[1..][..close];
        close + 2
  }

  /** `s.replace(/<[^>]+>/g, '')`: scanning left to right, every match is
      removed and the scan resumes after it; where there is no match the
      character is kept and the scan moves on by one. */
  function RemoveTags(s: string): (r: string)
    ensures |r| <= |s|
    ensures forall c :: c in r ==> c in s
    decreases |s|
  {
    if s == [] then []
    else
      var n := TagLength(s);
      if n > 0 then
        var r := RemoveTags(s[n..]);
        assert forall c :: c in s[n..] ==> c in s;
        r
      else
        var r := RemoveTags(s[1..]);
        assert forall c :: c in s[1..] ==> c in s;
        [s[0]] + r
  }

  /** No match of `/<[^>]+>/` anywhere in `s`: every `<` either is followed
      at once by `>` or has no `>` after it. */
  predicate TagFree(s: string) {
    forall i :: 0 <= i < |s| && s[i] == '<' ==> (i + 1 < |s| && s[i + 1] == '>') || '>' !in s[i + 1..]
  }

  /** What `replace` leaves holds no tag. */
  lemma {:induction false} RemoveTagsIsTagFree(s: string)
    ensures TagFree(RemoveTags(s))
    decreases |s|
  {
    if s != [] {
      var n := TagLength(s);
      if n > 0 {
        RemoveTagsIsTagFree(s[n..]);
      } else {
        RemoveTagsIsTagFree(s[1..]);
        var rest := RemoveTags(s[1..]);
        var r := [s[0]] + rest;
        forall i | 0 <= i < |r| && r[i] == '<'
          ensures (i + 1 < |r| && r[i + 1] == '>') || '>' !in r[i + 1..]
        {
          if i > 0 {
            assert r[i + 1..] == rest[i..];
          } else {
            assert r[1..] == rest;
            var close := IndexOf(s[1..], '>');
            if close == -1 {
              assert '>' !in s[1..];
            } else {
              assert close == 0;
              assert s[1] == '>';
              assert TagLength(s[1..]) == 0;
              assert rest == [s[1]] + RemoveTags(s[2..]) by {
                assert s[1..][1..] == s[2..];
              }
            }
          }
        }
      }
    }
  }

  /** A string with no tag is left as it is by `replace`. */
  lemma {:induction false} RemoveTagsOfTagFree(s: string)
    requires TagFree(s)
    ensures RemoveTags(s) == s
    decreases |s|
  {
    if s != [] {
      assert TagFree(s[1..]) by {
        forall i | 0 <= i < |s[1..]| && s[1..][i] == '<'
          ensures (i + 1 < |s[1..]| && s[1..][i + 1] == '>') || '>' !in s[1..][i + 1..]
        {
          assert s[1..][i + 1..] == s[i + 2..];
          assert s[i + 1] == '<';
        }
      }
      RemoveTagsOfTagFree(s[1..]);
    }
  }

  /** Every slice of a tag-free string is tag-free. */
  lemma TagFreeSlice(s: string, a: nat, b: nat)
    requires a <= b <= |s| && TagFree(s)
    ensures TagFree(s[a..b])
  {
    var t := s[a..b];
    forall i | 0 <= i < |t| && t[i] == '<'
      ensures (i + 1 < |t| && t[i + 1] == '>') || '>' !in t[i + 1..]
    {
      assert s[a + i] == '<';
      if '>' in t[i + 1..] {
        var j :| i + 1 <= j < |t| && t[j] == '>';
        assert s[a + j] == '>';
        assert '>' in s[a + i + 1..] by { assert s[a + i + 1..][j - i - 1] == '>'; }
        assert s[a + i + 1] == '>';
      }
    }
  }

  /** Removing the tags twice is removing them once. */
  lemma RemoveTagsIdempotent(s: string)
    ensures RemoveTags(RemoveTags(s)) == RemoveTags(s)
  {
    RemoveTagsIsTagFree(s);
    RemoveTagsOfTagFree(RemoveTags(s));
  }

  /** A string without any `<` loses nothing to `replace`. */
  lemma {:induction false} RemoveTagsWithoutAngle(s: string)
    requires '<' !in s
    ensures RemoveTags(s) == s
  {
    assert TagFree(s);
    RemoveTagsOfTagFree(s);
  }

  /** `stripHtml(html)`: "" for a falsy argument, else the tags removed and
      the result trimmed. */
  function StripHtml(html: Option<string>): string {
    if !Truthy(html) then "" else Trim(RemoveTags(html.value))
  }

  /** The plain text is never longer than the markup; markup without any
      `<` is only trimmed. */
  lemma StripHtmlShortens(html: Option<string>)
    ensures |StripHtml(html)| <= |html.GetOr("")|
    ensures html.Some? && '<' !in html.value ==> StripHtml(html) == Trim(html.value)
  {
    if Truthy(html) {
      if '<' !in html.value {
        RemoveTagsWithoutAngle(html.value);
      }
    }
  }

  /** Trimming a tag-free string leaves it tag-free. */
  lemma TrimKeepsTagFree(t: string)
    requires TagFree(t)
    ensures TagFree(Trim(t))
  {
    var u := t[LeadingWhiteSpace(t)..];
    TagFreeSlice(t, LeadingWhiteSpace(t), |t|);
    TagFreeSlice(u, 0, |u| - TrailingWhiteSpace(u));
  }

  /** The plain text holds no tag and has no white space at either end. */
  lemma StripHtmlIsPlain(html: Option<string>)
    ensures TagFree(StripHtml(html))
    ensures var r := StripHtml(html); r == [] || (!IsWhiteSpace(r[0]) && !IsWhiteSpace(r[|r| - 1]))
  {
    if Truthy(html) {
      var t := RemoveTags(html.value);
      RemoveTagsIsTagFree(html.value);
      TrimKeepsTagFree(t);
      TrimHasNoMargins(t);
    }
  }

  const ReadMoreThreshold := 160

  /** `shouldShowReadMore(note)`. */
  predicate ShouldShowReadMore(note: Note) {
    |StripHtml(note.description)| > ReadMoreThreshold
  }

  /** "Read more" never shows for a description of at most 160 characters,
      and for one without markup it shows exactly when its trimmed form is
      longer than 160. */
  lemma ReadMoreThresholdHolds(note: Note)
    ensures |note.description.GetOr("")| <= 160 ==> !ShouldShowReadMore(note)
    ensures note.description.Some? && '<' !in note.description.value ==>
              (ShouldShowReadMore(note) <==> |Trim(note.description.value)| > 160)
  {
    StripHtmlShortens(note.description);
  }
}
