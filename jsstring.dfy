/**
 * The part of JavaScript's string library the to-do list relies on:
 * `String.prototype.trim`, which strips the characters the ECMAScript
 * Language Specification classifies as WhiteSpace or LineTerminator from
 * both ends of a string.
 */
module JsString {

  /** ECMAScript WhiteSpace (TAB, VT, FF, SP, NBSP, ZWNBSP and the Unicode
      space separators) together with LineTerminator (LF, CR, LS, PS). */
  predicate IsWhitespace(c: char)
    ensures c == ' ' || c == '\t' || c == '\n' || c == '\r' ==> IsWhitespace(c)
    ensures '!' <= c <= '~' ==> !IsWhitespace(c)
    ensures IsWhitespace(c) ==> c as int <= 0xFEFF
  {
    var n := c as int;
    || n == 0x09 || n == 0x0A || n == 0x0B || n == 0x0C || n == 0x0D
    || n == 0x20 || n == 0xA0 || n == 0x1680
    || (0x2000 <= n <= 0x200A)
    || n == 0x2028 || n == 0x2029 || n == 0x202F || n == 0x205F
    || n == 0x3000 || n == 0xFEFF
  }

  /** A string made of whitespace only: every position holds whitespace.
      The empty string is blank; a string holding any printable ASCII
      character is not. */
  predicate IsBlank(s: string)
    ensures s == [] ==> IsBlank(s)
    ensures forall i :: 0 <= i < |s| && '!' <= s[i] <= '~' ==> !IsBlank(s)
  {
    forall i :: 0 <= i < |s| ==> IsWhitespace(s[i])
  }

  /** Scans forward from `i` past whitespace: the index of the first
      non-whitespace character at or after `i`, or `|s|` if there is none. */
  function SkipLeading(s: string, i: nat): (k: nat)
    requires i <= |s|
    ensures i <= k <= |s|
    ensures forall j :: i <= j < k ==> IsWhitespace(s[j])
    ensures k < |s| ==> !IsWhitespace(s[k])
    decreases |s| - i
  {
    if i < |s| && IsWhitespace(s[i]) then SkipLeading(s, i + 1) else i
  }

  /** Scans backward from `hi` past whitespace, not going below `lo`: the
      index just after the last non-whitespace character of `s[lo..hi]`,
      or `lo` if there is none. */
  function SkipTrailing(s: string, lo: nat, hi: nat): (e: nat)
    requires lo <= hi <= |s|
    ensures lo <= e <= hi
    ensures forall j :: e <= j < hi ==> IsWhitespace(s[j])
    ensures lo < e ==> !IsWhitespace(s[e - 1])
    decreases hi
  {
    if lo < hi && IsWhitespace(s[hi - 1]) then SkipTrailing(s, lo, hi - 1) else hi
  }

  /** `s.trim()`: the slice of `s` left between a blank prefix and a blank
      suffix. It is empty exactly when `s` is blank, and otherwise neither
      starts nor ends with whitespace. */
  function Trim(s: string): (r: string)
    ensures |r| <= |s|
    ensures r == [] <==> IsBlank(s)
    ensures r != [] ==> !IsWhitespace(r[0]) && !IsWhitespace(r[|r| - 1])
    ensures exists k :: 0 <= k <= |s| - |r| && r == s[k..k + |r|] && IsBlank(s[..k]) && IsBlank(s[k + |r|..])
  {
    var k := SkipLeading(s, 0);
    var e := SkipTrailing(s, k, |s|);
    var r := s[k..e];
    assert IsBlank(s[..k]) by {
      forall j | 0 <= j < k ensures IsWhitespace(s[..k][j]) {
        assert s[..k][j] == s[j];
      }
    }
    assert IsBlank(s[e..]) by {
      forall j | 0 <= j < |s| - e ensures IsWhitespace(s[e..][j]) {
        assert s[e..][j] == s[e + j];
      }
    }
    assert r == [] ==> k == |s|;
    r
  }
}
