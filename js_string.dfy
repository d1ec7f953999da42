/** The part of JavaScript's string semantics the to-do screen relies on:
    `String.prototype.trim`, used as the "empty input" guard of both the
    add handler and the prompt-based edit handler. Strings are sequences of
    Unicode scalar values here; JavaScript's are UTF-16 code units, which
    only matters for unpaired surrogates (none of the trimmed characters
    is one). */
module JsString {

  /** The characters `trim` strips: ECMAScript's WhiteSpace production
      (tab, vertical tab, form feed, space, no-break space, the byte order
      mark and every other "Space_Separator" character) together with its
      LineTerminator production (line feed, carriage return, line and
      paragraph separators). */
  predicate IsJsWhitespace(c: char) {
    || c == '\t' || c == '\n' || c == '\U{000B}' || c == '\U{000C}' || c == '\r'
    || c == ' ' || c == '\U{00A0}' || c == '\U{1680}'
    || ('\U{2000}' <= c <= '\U{200A}')
    || c == '\U{2028}' || c == '\U{2029}' || c == '\U{202F}' || c == '\U{205F}'
    || c == '\U{3000}' || c == '\U{FEFF}'
  }

  /** Every character of `s` is stripped by `trim` (vacuously true of ""). */
  predicate AllWhitespace(s: string) {
    forall i :: 0 <= i < |s| ==> IsJsWhitespace(s[i])
  }

  /** Drops the leading whitespace: the result is the longest suffix of `s`
      that does not start with whitespace. */
  function TrimStart(s: string): (r: string)
    ensures |r| <= |s| && r == s[|s| - |r|..]
    ensures r == [] || !IsJsWhitespace(r[0])
    ensures forall i :: 0 <= i < |s| - |r| ==> IsJsWhitespace(s[i])
  {
    if s != [] && IsJsWhitespace(s[0]) then
      var r := TrimStart(s[1..]);
      assert forall i :: 0 < i < |s| ==> s[i] == s[1..][i - 1];
      r
    else s
  }

  /** Drops the trailing whitespace: the result is the longest prefix of `s`
      that does not end with whitespace. */
  function TrimEnd(s: string): (r: string)
    ensures |r| <= |s| && r == s[..|r|]
    ensures r == [] || !IsJsWhitespace(r[|r| - 1])
    ensures forall i :: |r| <= i < |s| ==> IsJsWhitespace(s[i])
  {
    if s != [] && IsJsWhitespace(s[|s| - 1]) then
      var r := TrimEnd(s[..|s| - 1]);
      assert forall i :: 0 <= i < |s| - 1 ==> s[i] == s[..|s| - 1][i];
      r
    else s
  }

  /** `s.trim()`: both ends stripped, the middle kept as it is. */
  function Trim(s: string): (r: string)
    ensures |r| <= |s|
    ensures r == [] || (!IsJsWhitespace(r[0]) && !IsJsWhitespace(r[|r| - 1]))
  {
    TrimEnd(TrimStart(s))
  }

  /** `trim` keeps the interior of `s`: the slice that starts where the
      leading whitespace ends, with only whitespace dropped on either side. */
  lemma TrimIsInterior(s: string)
    ensures var k := |s| - |TrimStart(s)|;
      && k + |Trim(s)| <= |s|
      && (forall i :: 0 <= i < |Trim(s)| ==> Trim(s)[i] == s[k + i])
      && (forall i :: 0 <= i < k ==> IsJsWhitespace(s[i]))
      && (forall i :: k + |Trim(s)| <= i < |s| ==> IsJsWhitespace(s[i]))
  {
    var a := TrimStart(s);
    var r := TrimEnd(a);
    SuffixThenPrefix(s, a, r);
  }

  /** A prefix `r` of a suffix `a` of `s` sits in `s` at the offset where `a`
      starts, and what `r` leaves of `a` is the end of `s`. */
  lemma SuffixThenPrefix(s: string, a: string, r: string)
    requires |a| <= |s| && a == s[|s| - |a|..]
    requires |r| <= |a| && r == a[..|r|]
    requires forall i :: |r| <= i < |a| ==> IsJsWhitespace(a[i])
    ensures forall i :: 0 <= i < |r| ==> r[i] == s[|s| - |a| + i]
    ensures forall i :: |s| - |a| + |r| <= i < |s| ==> IsJsWhitespace(s[i])
  {
    var k := |s| - |a|;
    forall i | k + |r| <= i < |s| ensures IsJsWhitespace(s[i]) {
      assert s[i] == a[i - k];
    }
  }

  /** The guard `s.trim() === ''`. */
  predicate IsBlank(s: string) {
    Trim(s) == ""
  }

  /** The guard holds exactly of the strings made only of whitespace. */
  lemma {:induction false} BlankIffAllWhitespace(s: string)
    ensures IsBlank(s) <==> AllWhitespace(s)
  {
    var t := TrimStart(s);
    if t == [] {
      // TrimStart consumed everything, so every character was whitespace
      assert s[..|s|] == s;
    } else {
      // t starts with a character TrimEnd cannot strip all the way to
      assert t[0] == TrimEnd(t)[0];
      assert s[|s| - |t|] == t[0];
    }
  }
}
