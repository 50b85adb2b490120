/** The string primitives of .NET the core relies on: whitespace, trimming, invariant upper-casing. */
module Text {

  /** `char.IsWhiteSpace`: the Unicode classes Zs, Zl and Zp plus the control characters
      U+0009..U+000D, U+0085 and U+00A0. */
  predicate IsWhiteSpace(c: char) {
    || c == ' '
    || ('\t' <= c <= '\r')
    || c == '\U{0085}'
    || c == '\U{00A0}'
    || c == '\U{1680}'
    || ('\U{2000}' <= c <= '\U{200A}')
    || c == '\U{2028}'
    || c == '\U{2029}'
    || c == '\U{202F}'
    || c == '\U{205F}'
    || c == '\U{3000}'
  }

  /** `string.IsNullOrWhiteSpace` on a non-null string: empty, or whitespace throughout. */
  predicate IsBlank(s: string) {
    forall i :: 0 <= i < |s| ==> IsWhiteSpace(s[i])
  }

  /** Invariant upper-casing of one character, restricted to the ASCII letters. */
  function UpperChar(c: char): (r: char)
    ensures 'a' <= c <= 'z' ==> 'A' <= r <= 'Z'
    ensures !('a' <= c <= 'z') ==> r == c
  {
    if 'a' <= c <= 'z' then (c as int - 'a' as int + 'A' as int) as char else c
  }

  /** `string.ToUpperInvariant`, character by character. */
  function Upper(s: string): (r: string)
    ensures |r| == |s|
    ensures forall i :: 0 <= i < |s| ==> r[i] == UpperChar(s[i])
  {
    seq(|s|, i requires 0 <= i < |s| => UpperChar(s[i]))
  }

  /** `new string(c, k)`. */
  function Repeat(c: char, k: nat): (r: string)
    ensures |r| == k
    ensures forall i :: 0 <= i < k ==> r[i] == c
  {
    seq(k, _ => c)
  }

  function TrimStart(s: string): (r: string)
    ensures |r| <= |s| && r == s[|s| - |r|..]
    ensures r == [] || !IsWhiteSpace(r[0])
    ensures forall i :: 0 <= i < |s| - |r| ==> IsWhiteSpace(s[i])
  {
    if |s| > 0 && IsWhiteSpace(s[0]) then TrimStart(s[1..]) else s
  }

  function TrimEnd(s: string): (r: string)
    ensures |r| <= |s| && r == s[..|r|]
    ensures r == [] || !IsWhiteSpace(r[|r| - 1])
    ensures forall i :: |r| <= i < |s| ==> IsWhiteSpace(s[i])
  {
    if |s| > 0 && IsWhiteSpace(s[|s| - 1]) then TrimEnd(s[..|s| - 1]) else s
  }

  /** `string.Trim()`: drops leading and trailing whitespace. */
  function Trim(s: string): (r: string)
    ensures r == [] || (!IsWhiteSpace(r[0]) && !IsWhiteSpace(r[|r| - 1]))
    ensures var k := |s| - |TrimStart(s)|; k + |r| <= |s| && r == s[k..k + |r|]
    ensures var k := |s| - |TrimStart(s)|; forall i :: 0 <= i < k ==> IsWhiteSpace(s[i])
    ensures var k := |s| - |TrimStart(s)|; forall i :: k + |r| <= i < |s| ==> IsWhiteSpace(s[i])
  {
    var t := TrimStart(s);
    TrimEnd(t)
  }

  /** A string with no whitespace at either end is its own trim. */
  lemma TrimIdentity(s: string)
    requires s == [] || (!IsWhiteSpace(s[0]) && !IsWhiteSpace(s[|s| - 1]))
    ensures Trim(s) == s
  {
  }

  /** Upper-casing never turns a non-blank word into a blank one. */
  lemma UpperKeepsNonBlank(s: string)
    requires !IsBlank(s)
    ensures !IsBlank(Upper(s))
  {
    var i :| 0 <= i < |s| && !IsWhiteSpace(s[i]);
    assert Upper(s)[i] == UpperChar(s[i]);
  }
}
