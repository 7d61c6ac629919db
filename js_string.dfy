/** The parts of ECMAScript's String behaviour that the notes application
    relies on: `String.prototype.trim`, and the truthiness of an optional
    string. */
module JsString {
  import opened Wrappers

  /** ECMAScript's WhiteSpace and LineTerminator code points: TAB, VT, FF,
      ZWNBSP, the Unicode space separators (category Zs) and LF, CR, LS, PS.
      This is the set `trim` removes and `parseInt` skips. */
  const WhiteSpace: set<char> := {
    '\t', '\n', '\U{000B}', '\U{000C}', '\r', ' ', '\U{00A0}', '\U{1680}',
    '\U{2000}', '\U{2001}', '\U{2002}', '\U{2003}', '\U{2004}', '\U{2005}',
    '\U{2006}', '\U{2007}', '\U{2008}', '\U{2009}', '\U{200A}',
    '\U{2028}', '\U{2029}', '\U{202F}', '\U{205F}', '\U{3000}', '\U{FEFF}'
  }

  predicate IsWhiteSpace(c: char) {
    c in WhiteSpace
  }

  /** Every character of `s` is white space (vacuously so for ""). */
  predicate AllWhiteSpace(s: string) {
    forall i :: 0 <= i < |s| ==> IsWhiteSpace(s[i])
  }

  /** The number of white-space characters at the start of `s`. */
  function LeadingWhiteSpace(s: string): (n: nat)
    ensures n <= |s|
    ensures forall i :: 0 <= i < n ==> IsWhiteSpace(s[i])
    ensures n < |s| ==> !IsWhiteSpace(s[n])
  {
    if s != [] && IsWhiteSpace(s[0]) then 1 + LeadingWhiteSpace(s[1..]) else 0
  }

  /** The number of white-space characters at the end of `s`. */
  function TrailingWhiteSpace(s: string): (n: nat)
    ensures n <= |s|
    ensures forall i :: |s| - n <= i < |s| ==> IsWhiteSpace(s[i])
    ensures n < |s| ==> !IsWhiteSpace(s[|s| - n - 1])
  {
    if s != [] && IsWhiteSpace(s[|s| - 1]) then 1 + TrailingWhiteSpace(s[..|s| - 1]) else 0
  }

  /** `String.prototype.trimStart`. */
  function TrimStart(s: string): string {
    s[LeadingWhiteSpace(s)..]
  }

  /** `String.prototype.trimEnd`. */
  function TrimEnd(s: string): string {
    s[..|s| - TrailingWhiteSpace(s)]
  }

  /** `String.prototype.trim`: the white space at both ends of `s` removed. */
  function Trim(s: string): string {
    TrimEnd(TrimStart(s))
  }

  /** What `trim` returns is the slice of its input that starts after the
      leading white space. */
  lemma TrimIsSlice(s: string)
    ensures var a, r := LeadingWhiteSpace(s), Trim(s); a + |r| <= |s| && r == s[a..a + |r|]
  {
    var a := LeadingWhiteSpace(s);
    var t := s[a..];
    var r := t[..|t| - TrailingWhiteSpace(t)];
    SliceOfSuffix(s, a, |r|);
  }

  /** Only white space is cut from either end by `trim`. */
  lemma TrimCutsOnlyWhiteSpace(s: string)
    ensures var a, r := LeadingWhiteSpace(s), Trim(s);
      && a + |r| <= |s| && AllWhiteSpace(s[..a]) && AllWhiteSpace(s[a + |r|..])
  {
    var a := LeadingWhiteSpace(s);
    var t := s[a..];
    var k := |t| - TrailingWhiteSpace(t);
    var u := s[a + k..];
    forall i | 0 <= i < |u| ensures IsWhiteSpace(u[i]) {
      assert u[i] == t[k + i];
    }
  }

  /** Slicing a suffix is slicing the whole. */
  lemma SliceOfSuffix<T>(s: seq<T>, a: nat, k: nat)
    requires a + k <= |s|
    ensures s[a..][..k] == s[a..a + k]
  {
  }

  /** What `trim` returns starts and ends with a character that is not
      white space. */
  lemma TrimHasNoMargins(s: string)
    ensures var r := Trim(s); r == [] || (!IsWhiteSpace(r[0]) && !IsWhiteSpace(r[|r| - 1]))
  {
    var a := LeadingWhiteSpace(s);
    var t := s[a..];
    var k := |t| - TrailingWhiteSpace(t);
    if k > 0 {
      assert t[..k][0] == t[0];
      assert t[..k][k - 1] == t[k - 1];
    }
  }

  /** `trim` yields "" exactly for a string made only of white space: this
      is the test behind "name is required" and "title is required". */
  lemma TrimEmptyIffBlank(s: string)
    ensures Trim(s) == "" <==> AllWhiteSpace(s)
  {
    var a := LeadingWhiteSpace(s);
    var t := s[a..];
    var k := |t| - TrailingWhiteSpace(t);
    if k != 0 {
      assert t[0] == s[a];
    }
  }

  /** Trimming twice is trimming once: a value that was already trimmed by
      the form is unchanged when the page trims it again. */
  lemma TrimIdempotent(s: string)
    ensures Trim(Trim(s)) == Trim(s)
  {
    var r := Trim(s);
    TrimHasNoMargins(s);
    if r != [] {
      assert LeadingWhiteSpace(r) == 0;
      assert TrimStart(r) == r;
      assert TrailingWhiteSpace(r) == 0;
    }
  }

  /** JavaScript truthiness of an optional string: present and non-empty. */
  predicate Truthy(s: Option<string>) {
    s.Some? && s.value != ""
  }
}
