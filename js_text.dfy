/**
 * The string operation of the JavaScript runtime that the new-tab page relies on:
 * `String.prototype.trim`, which strips ECMAScript white space and line terminators
 * from both ends of a string.
 */
module JsText {

  /** The characters `trim` removes: WhiteSpace and LineTerminator of ECMAScript. */
  predicate IsTrimmable(c: char) {
    c == ' ' || c == '\t' || c == '\n' || c == '\r' || c == '\U{000B}' || c == '\U{000C}'
    || c == '\U{00A0}' || c == '\U{1680}' || ('\U{2000}' <= c <= '\U{200A}')
    || c == '\U{2028}' || c == '\U{2029}' || c == '\U{202F}' || c == '\U{205F}'
    || c == '\U{3000}' || c == '\U{FEFF}'
  }

  /** Every character of `s` at an index in [lo, hi) is one that `trim` removes. */
  predicate BlankBetween(s: string, lo: int, hi: int) {
    forall k :: lo <= k < hi && 0 <= k < |s| ==> IsTrimmable(s[k])
  }

  /** True when `s` consists of trimmable characters only. */
  predicate IsBlank(s: string) {
    BlankBetween(s, 0, |s|)
  }

  /** How many trimmable characters `s` starts with. */
  function LeadingBlanks(s: string): (n: nat)
    ensures n <= |s| && BlankBetween(s, 0, n)
    ensures n < |s| ==> !IsTrimmable(s[n])
  {
    if s != [] && IsTrimmable(s[0]) then
      var m := LeadingBlanks(s[1..]);
      assert forall k :: 1 <= k < 1 + m ==> s[k] == s[1..][k - 1];
      1 + m
    else 0
  }

  /** Where the trimmable characters that `s` ends with begin. */
  function TrailingBlanksStart(s: string): (n: nat)
    ensures n <= |s| && BlankBetween(s, n, |s|)
    ensures n > 0 ==> !IsTrimmable(s[n - 1])
  {
    if s != [] && IsTrimmable(s[|s| - 1]) then
      var m := TrailingBlanksStart(s[..|s| - 1]);
      assert forall k :: m <= k < |s| - 1 ==> s[k] == s[..|s| - 1][k];
      m
    else |s|
  }

  /** `s` with its leading trimmable characters removed: a suffix of `s`. */
  function TrimStart(s: string): (r: string)
    ensures |r| <= |s| && r == s[|s| - |r|..]
    ensures BlankBetween(s, 0, |s| - |r|)
    ensures r != [] ==> !IsTrimmable(r[0])
    ensures r == [] <==> IsBlank(s)
  {
    s[LeadingBlanks(s)..]
  }

  /** `s` with its trailing trimmable characters removed: a prefix of `s`. */
  function TrimEnd(s: string): (r: string)
    ensures |r| <= |s| && r == s[..|r|]
    ensures BlankBetween(s, |r|, |s|)
    ensures r != [] ==> !IsTrimmable(r[|r| - 1])
    ensures r == [] <==> IsBlank(s)
  {
    var n := TrailingBlanksStart(s);
    assert n > 0 ==> !IsBlank(s) by { if n > 0 { assert !IsTrimmable(s[n - 1]); } }
    s[..n]
  }

  /**
   * `s.trim()`: `s` without its leading and its trailing trimmable characters. What it keeps
   * is one contiguous piece of `s`, starting at offset `i`; everything cut away on either
   * side is trimmable, and the piece kept neither starts nor ends with a trimmable character.
   */
  function Trim(s: string): (r: string)
    ensures var i := |s| - |TrimStart(s)|;
      i + |r| <= |s| && r == s[i..i + |r|] && BlankBetween(s, 0, i) && BlankBetween(s, i + |r|, |s|)
    ensures r == [] || (!IsTrimmable(r[0]) && !IsTrimmable(r[|r| - 1]))
    ensures r == [] <==> IsBlank(s)
  {
    var t := TrimStart(s);
    assert t != [] ==> !IsBlank(t) by {
      if t != [] { assert !IsTrimmable(t[0]); }
    }
    var u := TrimEnd(t);
    assert u != [] ==> u[0] == t[0];
    PrefixOfSuffix(s, t, u);
    u
  }

  /** A prefix `u` of a suffix `t` of `s` is a piece of `s`, and `t`'s blank tail is `s`'s. */
  lemma PrefixOfSuffix(s: string, t: string, u: string)
    requires |t| <= |s| && t == s[|s| - |t|..]
    requires |u| <= |t| && u == t[..|u|] && BlankBetween(t, |u|, |t|)
    ensures var i := |s| - |t|; u == s[i..i + |u|] && BlankBetween(s, i + |u|, |s|)
  {
    var i := |s| - |t|;
    forall k | 0 <= k < |u| ensures u[k] == s[i + k] {
      assert u[k] == t[k];
    }
    forall k | i + |u| <= k < |s| ensures IsTrimmable(s[k]) {
      assert s[k] == t[k - i];
    }
  }

  /** A string that neither starts nor ends with a trimmable character is its own trim. */
  lemma TrimKeepsTrimmed(s: string)
    requires s == [] || (!IsTrimmable(s[0]) && !IsTrimmable(s[|s| - 1]))
    ensures Trim(s) == s
  {
  }

  /** Trimming twice is trimming once. */
  lemma TrimIdempotent(s: string)
    ensures Trim(Trim(s)) == Trim(s)
  {
    TrimKeepsTrimmed(Trim(s));
  }
}
