/** The two notions of a blank string that meet in this system: the client asks
    JavaScript's `String.prototype.trim`, the server's `required` rule asks PHP's
    `trim`. Both strip a set of characters from both ends; they disagree on
    which characters. */
module Whitespace {

  /** Characters stripped by `String.prototype.trim`: the WhiteSpace and
      LineTerminator code points of ECMA-262 (sections 12.2 and 12.3 of
      ECMAScript 2023), with every Zs space separator of Unicode 15 spelled out. */
  predicate IsJsWhitespace(c: char)
  {
    var n := c as int;
    || n == 0x09 || n == 0x0A || n == 0x0B || n == 0x0C || n == 0x0D
    || n == 0x20 || n == 0xA0 || n == 0x1680
    || (0x2000 <= n <= 0x200A)
    || n == 0x2028 || n == 0x2029 || n == 0x202F || n == 0x205F
    || n == 0x3000 || n == 0xFEFF
  }

  /** Characters stripped by PHP's `trim` with its default character list:
      space, tab, line feed, carriage return, NUL and vertical tab. */
  predicate IsPhpWhitespace(c: char)
  {
    var n := c as int;
    n == 0x20 || n == 0x09 || n == 0x0A || n == 0x0D || n == 0x00 || n == 0x0B
  }

  /** Number of leading characters of `s` that satisfy `ws`. */
  function LeadingCount(s: string, ws: char -> bool): (n: nat)
    ensures n <= |s|
    ensures forall i :: 0 <= i < n ==> ws(s[i])
    ensures n < |s| ==> !ws(s[n])
  {
    if |s| > 0 && ws(s[0]) then
      var n := LeadingCount(s[1..], ws);
      assert forall i :: 1 <= i < n + 1 ==> s[i] == s[1..][i - 1];
      n + 1
    else 0
  }

  /** Number of trailing characters of `s` that satisfy `ws`. */
  function TrailingCount(s: string, ws: char -> bool): (n: nat)
    ensures n <= |s|
    ensures forall i :: |s| - n <= i < |s| ==> ws(s[i])
    ensures n < |s| ==> !ws(s[|s| - n - 1])
  {
    if |s| > 0 && ws(s[|s| - 1]) then
      var n := TrailingCount(s[..|s| - 1], ws);
      assert forall i :: |s| - 1 - n <= i < |s| - 1 ==> s[i] == s[..|s| - 1][i];
      n + 1
    else 0
  }

  /** Strips `ws` characters from both ends, as both languages' `trim` do. */
  function Trim(s: string, ws: char -> bool): (r: string)
    ensures |r| > 0 ==> !ws(r[0]) && !ws(r[|r| - 1])
  {
    var t := s[LeadingCount(s, ws)..];
    t[..|t| - TrailingCount(t, ws)]
  }

  function JsTrim(s: string): string
  {
    Trim(s, IsJsWhitespace)
  }

  function PhpTrim(s: string): string
  {
    Trim(s, IsPhpWhitespace)
  }

  /** Every character of `s` satisfies `ws`. */
  predicate AllOf(s: string, ws: char -> bool)
  {
    forall i :: 0 <= i < |s| ==> ws(s[i])
  }

  /** `s.trim() === ""` in JavaScript. */
  predicate IsJsBlank(s: string)
  {
    AllOf(s, IsJsWhitespace)
  }

  /** `trim($s) === ''` in PHP. */
  predicate IsPhpBlank(s: string)
  {
    AllOf(s, IsPhpWhitespace)
  }

  /** Trimming leaves nothing exactly when every character is stripped. */
  lemma TrimEmptyIffAllWhitespace(s: string, ws: char -> bool)
    ensures Trim(s, ws) == "" <==> AllOf(s, ws)
  {
    var n := LeadingCount(s, ws);
    if !AllOf(s, ws) {
      var i :| 0 <= i < |s| && !ws(s[i]);
      assert n <= i;
      var t := s[n..];
      assert t[0] == s[n];
      var m := TrailingCount(t, ws);
      assert m < |t|;
    }
  }

  /** The blank predicates agree with the two languages' `trim`. */
  lemma BlankIffTrimEmpty(s: string)
    ensures IsJsBlank(s) <==> JsTrim(s) == ""
    ensures IsPhpBlank(s) <==> PhpTrim(s) == ""
  {
    TrimEmptyIffAllWhitespace(s, IsJsWhitespace);
    TrimEmptyIffAllWhitespace(s, IsPhpWhitespace);
  }

  /** The client's blank test and the server's disagree in both directions:
      a form feed is blank to JavaScript only, a NUL is blank to PHP only. */
  lemma BlankTestsDisagree()
    ensures JsTrim("\U{000C}") == "" && PhpTrim("\U{000C}") != ""
    ensures JsTrim("\U{0000}") != "" && PhpTrim("\U{0000}") == ""
  {
    BlankIffTrimEmpty("\U{000C}");
    BlankIffTrimEmpty("\U{0000}");
  }
}
