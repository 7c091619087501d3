/**
 * The part of JavaScript's String.prototype.trim that the task list relies on:
 * whitespace and line terminators are removed from both ends of a string.
 * A string is a sequence of characters; every character trim removes lies in
 * the Basic Multilingual Plane, so modelling a JavaScript string as a sequence
 * of Unicode scalar values rather than of UTF-16 code units does not change
 * which characters trim removes.
 */
module JsString {

  /** ECMAScript WhiteSpace (TAB, VT, FF, SPACE, NBSP, ZWNBSP and the Zs category)
      and LineTerminator (LF, CR, LS, PS): exactly what trim removes. */
  predicate IsWhiteSpace(c: char) {
    var n := c as int;
    || n == 0x09 || n == 0x0B || n == 0x0C || n == 0x20 || n == 0xA0 || n == 0xFEFF
    || n == 0x1680 || (0x2000 <= n <= 0x200A) || n == 0x202F || n == 0x205F || n == 0x3000
    || n == 0x0A || n == 0x0D || n == 0x2028 || n == 0x2029
  }

  /** True when every character of s is whitespace (the empty string included). */
  predicate AllWhiteSpace(s: string) {
    forall k :: 0 <= k < |s| ==> IsWhiteSpace(s[k])
  }

  /** Where the text of s begins: the length of its leading run of whitespace. */
  function TextStart(s: string): (i: nat)
    ensures i <= |s|
    ensures forall k :: 0 <= k < i ==> IsWhiteSpace(s[k])
    ensures i == |s| || !IsWhiteSpace(s[i])
    decreases |s|
  {
    if s != [] && IsWhiteSpace(s[0]) then
      var i := 1 + TextStart(s[1..]);
      assert forall k :: 1 <= k < i ==> s[k] == s[1..][k - 1];
      i
    else 0
  }

  /** Where the text of s ends: |s| minus the length of its trailing run of whitespace. */
  function TextEnd(s: string): (j: nat)
    ensures j <= |s|
    ensures forall k :: j <= k < |s| ==> IsWhiteSpace(s[k])
    ensures j == 0 || !IsWhiteSpace(s[j - 1])
    decreases |s|
  {
    if s != [] && IsWhiteSpace(s[|s| - 1]) then
      var j := TextEnd(s[..|s| - 1]);
      assert forall k :: j <= k < |s| - 1 ==> s[k] == s[..|s| - 1][k];
      j
    else |s|
  }

  /** String.prototype.trim: s without its leading and trailing whitespace. The result
      neither starts nor ends with whitespace, and it is empty exactly when s is all
      whitespace. TrimIsInfix says where in s it lies. */
  function Trim(s: string): (r: string)
    ensures r == [] || (!IsWhiteSpace(r[0]) && !IsWhiteSpace(r[|r| - 1]))
    ensures r == [] <==> AllWhiteSpace(s)
  {
    var i := TextStart(s);
    if i == |s| then [] else s[i..TextEnd(s)]
  }

  /** The trimmed string is the piece of s that starts where its text starts, and only
      whitespace lies before and after it. */
  lemma TrimIsInfix(s: string)
    ensures var i := TextStart(s);
            && i + |Trim(s)| <= |s|
            && Trim(s) == s[i..i + |Trim(s)|]
            && AllWhiteSpace(s[..i])
            && AllWhiteSpace(s[i + |Trim(s)|..])
  {
    var i, r := TextStart(s), Trim(s);
    assert AllWhiteSpace(s[..i]) by {
      forall k | 0 <= k < i
        ensures IsWhiteSpace(s[..i][k])
      {
        assert s[..i][k] == s[k];
      }
    }
    var tail := s[i + |r|..];
    forall m | 0 <= m < |tail|
      ensures IsWhiteSpace(tail[m])
    {
      assert tail[m] == s[i + |r| + m];
    }
  }
}
