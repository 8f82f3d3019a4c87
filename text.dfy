/** `String.prototype.trim` as the service applies it to new titles. */
module Text {

  /** The characters `trim` strips: the ECMAScript WhiteSpace set (tab,
      vertical tab, form feed, the byte-order mark and the Unicode space
      separators U+0020, U+00A0, U+1680, U+2000 to U+200A, U+202F, U+205F,
      U+3000) and the LineTerminator set (LF, CR, U+2028, U+2029). */
  const Whitespace: set<char> := {
    '\t', '\n', '\U{000B}', '\U{000C}', '\r', ' ', '\U{00A0}', '\U{1680}',
    '\U{2000}', '\U{2001}', '\U{2002}', '\U{2003}', '\U{2004}', '\U{2005}',
    '\U{2006}', '\U{2007}', '\U{2008}', '\U{2009}', '\U{200A}',
    '\U{2028}', '\U{2029}', '\U{202F}', '\U{205F}', '\U{3000}', '\U{FEFF}'
  }

  /** How many `blanks` open `s`: the length of its longest all-blank prefix. */
  function LeadingBlanks(s: string, blanks: set<char>): (n: nat)
    ensures n <= |s|
    ensures forall i :: 0 <= i < n ==> s[i] in blanks
    ensures n < |s| ==> s[n] !in blanks
  {
    if s != [] && s[0] in blanks then 1 + LeadingBlanks(s[1..], blanks) else 0
  }

  /** How many `blanks` close `s`: the length of its longest all-blank suffix. */
  function TrailingBlanks(s: string, blanks: set<char>): (n: nat)
    ensures n <= |s|
    ensures forall i :: |s| - n <= i < |s| ==> s[i] in blanks
    ensures n < |s| ==> s[|s| - n - 1] !in blanks
  {
    if s != [] && s[|s| - 1] in blanks then 1 + TrailingBlanks(s[..|s| - 1], blanks) else 0
  }

  /** `r` is the slice of `s` that starts at `a`, and everything of `s`
      before and after that slice is in `blanks`. */
  predicate SliceBetween(s: string, r: string, a: int, blanks: set<char>) {
    && 0 <= a <= |s| - |r|
    && r == s[a..a + |r|]
    && (forall i :: 0 <= i < a ==> s[i] in blanks)
    && (forall i :: a + |r| <= i < |s| ==> s[i] in blanks)
  }

  /** `s` without its leading and trailing `blanks`: a slice of `s` with only
      blanks around it, which itself neither starts nor ends with a blank. */
  function Strip(s: string, blanks: set<char>): (r: string)
    ensures r != [] ==> r[0] !in blanks && r[|r| - 1] !in blanks
    ensures exists a :: SliceBetween(s, r, a, blanks)
  {
    var a := LeadingBlanks(s, blanks);
    if a == |s| then
      assert SliceBetween(s, [], a, blanks);
      []
    else
      var b := |s| - TrailingBlanks(s, blanks);
      assert SliceBetween(s, s[a..b], a, blanks);
      s[a..b]
  }

  /** `s.trim()`: `Strip` over the JavaScript whitespace set. */
  function Trim(s: string): (r: string)
    ensures r != [] ==> r[0] !in Whitespace && r[|r| - 1] !in Whitespace
    ensures exists a :: SliceBetween(s, r, a, Whitespace)
  {
    Strip(s, Whitespace)
  }

  /** Stripping an already stripped string changes nothing. */
  lemma StripIdempotent(s: string, blanks: set<char>)
    ensures Strip(Strip(s, blanks), blanks) == Strip(s, blanks)
  {
  }
}
