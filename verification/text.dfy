/**
 The string operations the combobox's label filter is built from:
 `toLowerCase`, `trim` and `includes` of JavaScript strings.
 Strings are sequences of Unicode scalar values; lower-casing covers the
 ASCII letters only.
 */
module Text {

  /** The code points `String.prototype.trim` strips: the WhiteSpace and
      LineTerminator productions of sections 12.2 and 12.3 of ECMA-262
      (tab, vertical tab, form feed, space, no-break space, the byte order
      mark, the space separators of Unicode category Zs, line feed,
      carriage return, line and paragraph separators). */
  predicate IsWhitespace(c: char) {
    || c == '\t' || c == '\n' || c == '\U{000B}' || c == '\U{000C}' || c == '\r'
    || c == ' ' || c == '\U{00A0}' || c == '\U{1680}'
    || ('\U{2000}' <= c <= '\U{200A}')
    || c == '\U{2028}' || c == '\U{2029}' || c == '\U{202F}' || c == '\U{205F}'
    || c == '\U{3000}' || c == '\U{FEFF}'
  }

  predicate AllWhitespace(s: string) {
    forall i :: 0 <= i < |s| ==> IsWhitespace(s[i])
  }

  predicate IsUpper(c: char) {
    'A' <= c <= 'Z'
  }

  /** `toLowerCase` on one character, restricted to ASCII. */
  function LowerChar(c: char): (r: char)
    ensures !IsUpper(r)
    ensures !IsUpper(c) ==> r == c
    ensures IsUpper(c) ==> 'a' <= r <= 'z' && r as int - c as int == 'a' as int - 'A' as int
  {
    if IsUpper(c) then (c as int - 'A' as int + 'a' as int) as char else c
  }

  function ToLower(s: string): (r: string)
    ensures |r| == |s|
    ensures forall i :: 0 <= i < |s| ==> r[i] == LowerChar(s[i])
  {
    seq(|s|, i requires 0 <= i < |s| => LowerChar(s[i]))
  }

  /** The end of the leading whitespace of `s`, searching from `i`: every
      character before it is whitespace, and the one at it is not. */
  function StartIndex(s: string, i: nat): (n: nat)
    requires i <= |s|
    requires forall k :: 0 <= k < i ==> IsWhitespace(s[k])
    ensures i <= n <= |s|
    ensures forall k :: 0 <= k < n ==> IsWhitespace(s[k])
    ensures n < |s| ==> !IsWhitespace(s[n])
    decreases |s| - i
  {
    if i < |s| && IsWhitespace(s[i]) then StartIndex(s, i + 1) else i
  }

  /** The start of the trailing whitespace of `s`, searching down from `j`
      but not below `lo`: every character from it on is whitespace, and the
      one just before it (when above `lo`) is not. */
  function EndIndex(s: string, lo: nat, j: nat): (m: nat)
    requires lo <= j <= |s|
    requires forall k :: j <= k < |s| ==> IsWhitespace(s[k])
    ensures lo <= m <= j
    ensures forall k :: m <= k < |s| ==> IsWhitespace(s[k])
    ensures m > lo ==> !IsWhitespace(s[m - 1])
    decreases j
  {
    if j > lo && IsWhitespace(s[j - 1]) then EndIndex(s, lo, j - 1) else j
  }

  /** `r` sits at offset `i` of `s` with only whitespace before and after. */
  predicate TrimmedAt(s: string, r: string, i: int) {
    && 0 <= i <= |s| - |r| && s[i..i + |r|] == r
    && (forall k :: 0 <= k < i ==> IsWhitespace(s[k]))
    && (forall k :: i + |r| <= k < |s| ==> IsWhitespace(s[k]))
  }

  /** `String.prototype.trim`: the longest infix of `s` that neither starts
      nor ends with whitespace, with only whitespace around it. */
  function Trim(s: string): (r: string)
    ensures r == [] || (!IsWhitespace(r[0]) && !IsWhitespace(r[|r| - 1]))
    ensures |r| <= |s|
    ensures exists i :: TrimmedAt(s, r, i)
  {
    var n := StartIndex(s, 0);
    var m := EndIndex(s, n, |s|);
    assert TrimmedAt(s, s[n..m], n);
    s[n..m]
  }

  /** A string with no letters or text: trimming leaves nothing. */
  lemma TrimAllWhitespace(s: string)
    ensures Trim(s) == [] <==> AllWhitespace(s)
  {
  }

  /** Text that already neither starts nor ends with whitespace is left
      as it is. */
  lemma TrimIdentity(s: string)
    requires s != [] && !IsWhitespace(s[0]) && !IsWhitespace(s[|s| - 1])
    ensures Trim(s) == s
  {
    assert StartIndex(s, 0) == 0;
    assert EndIndex(s, 0, |s|) == |s|;
  }

  /** `needle` occurs in `haystack` starting at position `k`. */
  predicate OccursAt(haystack: string, needle: string, k: int) {
    0 <= k && k + |needle| <= |haystack| && haystack[k..k + |needle|] == needle
  }

  /** A needle holding a character that the haystack lacks occurs nowhere
      in it. */
  lemma MissingCharMisses(haystack: string, needle: string, j: nat)
    requires j < |needle| && forall i :: 0 <= i < |haystack| ==> haystack[i] != needle[j]
    ensures !Includes(haystack, needle)
  {
    forall k
      ensures !OccursAt(haystack, needle, k)
    {
      if 0 <= k && k + |needle| <= |haystack| {
        assert haystack[k..k + |needle|][j] == haystack[k + j];
      }
    }
  }

  /** `String.prototype.includes`: an unanchored substring search.  The
      empty string occurs in every string. */
  function Includes(haystack: string, needle: string): (r: bool)
    ensures r <==> exists k :: OccursAt(haystack, needle, k)
    ensures needle == [] ==> r
    decreases |haystack|
  {
    if needle <= haystack then
      assert OccursAt(haystack, needle, 0);
      true
    else if |haystack| == 0 then
      assert forall k :: !OccursAt(haystack, needle, k);
      false
    else
      var rest := Includes(haystack[1..], needle);
      assert !OccursAt(haystack, needle, 0);
      assert forall k :: 0 < k ==> (OccursAt(haystack, needle, k) <==> OccursAt(haystack[1..], needle, k - 1)) by {
        forall k | 0 < k
          ensures OccursAt(haystack, needle, k) <==> OccursAt(haystack[1..], needle, k - 1)
        {
          if k + |needle| <= |haystack| {
            assert haystack[1..][k - 1..k - 1 + |needle|] == haystack[k..k + |needle|];
          }
        }
      }
      if rest then
        var k :| OccursAt(haystack[1..], needle, k);
        assert OccursAt(haystack, needle, k + 1);
        true
      else
        false
  }
}
