/** Character classes and read pointers of TinyXML.

  A `char` of the model stands for one byte.  A `const char*` that only moves
  forward through a NUL-terminated text is the string from that byte up to the
  terminator, so `*p` is NUL exactly when the string is empty.
 */
module XmlChars {
  import opened Chars
  import opened Sequences

  datatype Encoding = Undeclared | Utf8 | Legacy

  /** A pointer into the text being parsed; `To("")` points at the terminator. */
  datatype Ptr = Null | To(s: string)

  const QUOTE: char := '\"'
  const APOS: char := '\''

  predicate IsWhiteSpace(c: char) {
    IsSpace(c) || c == '\n' || c == '\r'
  }

  predicate IsAlpha(c: char) {
    c as int >= 127 || 'a' <= c <= 'z' || 'A' <= c <= 'Z'
  }

  predicate IsAlphaNum(c: char) {
    IsAlpha(c) || '0' <= c <= '9'
  }

  predicate IsNameChar(c: char) {
    IsAlphaNum(c) || c == '_' || c == '-' || c == '.' || c == ':'
  }

  predicate AllWhite(w: string) {
    forall k :: 0 <= k < |w| ==> IsWhiteSpace(w[k])
  }

  predicate HasPrefix(s: string, t: string) {
    t <= s
  }

  /** `p + n`; the model stops at the terminator where the code would run past it. */
  function Advance(s: string, n: nat): string {
    if n <= |s| then s[n..] else ""
  }

  predicate AtEnd(p: Ptr) {
    p.Null? || p.s == ""
  }

  lemma CutAt(a: string, b: string)
    ensures (a + b)[..|a|] == a && (a + b)[|a|..] == b
  {
  }

  lemma Assoc3(a: string, b: string, c: string, d: string)
    ensures a + (b + (c + d)) == a + b + c + d
  {
    Regroup(b, c, d);
    Regroup(a, b, c + d);
    Regroup(a + b, c, d);
  }

  lemma Assoc4(a: string, b: string, c: string, d: string, e: string)
    ensures a + (b + (c + (d + e))) == a + b + c + d + e
  {
    Assoc3(b, c, d, e);
    Assoc3(a, b, c, d + e);
    Regroup(a + b + c, d, e);
  }

  method StringEqual(p: string, tag: string, ignoreCase: bool) returns (equal: bool)
    ensures !ignoreCase ==> (equal <==> p != "" && HasPrefix(p, tag))
    ensures ignoreCase ==> (equal <==> p != "" && |tag| <= |p|
                                       && forall k :: 0 <= k < |tag| ==> ToLower(p[k]) == ToLower(tag[k]))
  {
    if p == "" {
      return false;
    }
    var i := 0;
    while i < |p| && i < |tag| && (p[i] == tag[i] || (ignoreCase && ToLower(p[i]) == ToLower(tag[i])))
      invariant 0 <= i <= |p| && i <= |tag|
      invariant !ignoreCase ==> p[..i] == tag[..i]
      invariant forall k :: 0 <= k < i ==> ToLower(p[k]) == ToLower(tag[k])
    {
      i := i + 1;
    }
    equal := i == |tag|;
    assert tag[..|tag|] == tag;
    if !ignoreCase && !equal && i < |p| {
      assert p[i] != tag[i];
    }
  }
}
