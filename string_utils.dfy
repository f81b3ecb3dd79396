/** The text test the search applies to its string fields before filtering. */
module StringUtils {
  import opened Entities

  /** Java's `Character.isWhitespace`: the Unicode space, line and paragraph
      separators except the no-break spaces U+00A0, U+2007 and U+202F, plus
      the control characters U+0009-U+000D and U+001C-U+001F. */
  predicate IsWhitespace(c: char)
  {
    || ('\t' <= c <= '\r')
    || ('\U{1C}' <= c <= ' ')
    || c == '\U{1680}'
    || ('\U{2000}' <= c <= '\U{2006}')
    || ('\U{2008}' <= c <= '\U{200A}')
    || c == '\U{2028}' || c == '\U{2029}'
    || c == '\U{205F}' || c == '\U{3000}'
  }

  /** Spring's `StringUtils.hasText`: not null, not empty, and holding at
      least one character that is not whitespace. */
  predicate HasText(s: Option<string>)
  {
    s.Some? && |s.value| > 0 && exists i :: 0 <= i < |s.value| && !IsWhitespace(s.value[i])
  }

  /** `trimLeadingWhitespace`: the string without its leading whitespace. */
  function TrimLeading(s: string): (t: string)
    ensures |t| <= |s| && t == s[|s| - |t|..]
    ensures forall i :: 0 <= i < |s| - |t| ==> IsWhitespace(s[i])
    ensures t == [] || !IsWhitespace(t[0])
  {
    if s == [] || !IsWhitespace(s[0]) then s else TrimLeading(s[1..])
  }

  /** A non-null string has text exactly when trimming its leading whitespace
      leaves something. */
  lemma HasTextIffTrimmedNonEmpty(s: string)
    ensures HasText(Some(s)) <==> TrimLeading(s) != []
  {
    var t := TrimLeading(s);
    if t != [] {
      assert s[|s| - |t|] == t[0];
    }
  }

  /** Null, the empty string and whitespace-only strings have no text; a
      string with one other character among blanks has. */
  lemma HasTextExamples()
    ensures !HasText(None) && !HasText(Some("")) && !HasText(Some(" \t\r\n"))
    ensures HasText(Some(" member1 "))
  {
    assert !IsWhitespace(" member1 "[1]);
  }
}
