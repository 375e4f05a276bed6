/**
 * `String.prototype.trim`: removes leading and trailing characters that
 * ECMAScript counts as WhiteSpace or LineTerminator.
 */
module JsString {

  /** WhiteSpace (TAB, VT, FF, ZWNBSP and every space separator) or LineTerminator (LF, CR, LS, PS). */
  predicate IsWhiteSpace(c: char)
  {
    c as int in {0x09, 0x0A, 0x0B, 0x0C, 0x0D, 0x20, 0xA0, 0x1680, 0x2028, 0x2029, 0x202F, 0x205F, 0x3000, 0xFEFF}
    || 0x2000 <= c as int <= 0x200A
  }

  /** `s` without its leading white space. */
  function TrimStart(s: string): (r: string)
    ensures |r| <= |s| && r == s[|s| - |r|..]
    ensures forall i :: 0 <= i < |s| - |r| ==> IsWhiteSpace(s[i])
    ensures r == [] || !IsWhiteSpace(r[0])
  {
    if s == [] then []
    else if IsWhiteSpace(s[0]) then TrimStart(s[1..])
    else s
  }

  /** `s` without its trailing white space. */
  function TrimEnd(s: string): (r: string)
    ensures |r| <= |s| && r == s[..|r|]
    ensures forall i :: |r| <= i < |s| ==> IsWhiteSpace(s[i])
    ensures r == [] || !IsWhiteSpace(r[|r| - 1])
  {
    if s == [] then []
    else if IsWhiteSpace(s[|s| - 1]) then TrimEnd(s[..|s| - 1])
    else s
  }

  /** `r` is `s` with the first `k` characters and everything after `k + |r|` dropped, all of them white space. */
  predicate TrimmedAt(s: string, r: string, k: nat)
  {
    && k + |r| <= |s| && s[k..][..|r|] == r
    && (forall i :: 0 <= i < k ==> IsWhiteSpace(s[i]))
    && (forall i :: k + |r| <= i < |s| ==> IsWhiteSpace(s[i]))
  }

  /**
   * `s.trim()`: the part of `s` left once its leading and trailing white space
   * is dropped; empty exactly when every character of `s` is white space.
   */
  function Trim(s: string): (r: string)
    ensures r == [] <==> forall i :: 0 <= i < |s| ==> IsWhiteSpace(s[i])
    ensures r != [] ==> !IsWhiteSpace(r[0]) && !IsWhiteSpace(r[|r| - 1])
    ensures exists k: nat :: TrimmedAt(s, r, k)
  {
    TrimStartBlank(s);
    TrimEndKeepsStart(TrimStart(s));
    TrimIsPart(s);
    TrimEnd(TrimStart(s))
  }

  /** Trimming both ends leaves a contiguous part of the text, and all it drops is white space. */
  lemma TrimIsPart(s: string)
    ensures TrimmedAt(s, TrimEnd(TrimStart(s)), |s| - |TrimStart(s)|)
  {
    var t := TrimStart(s);
    var r := TrimEnd(t);
    var k := |s| - |t|;
    assert s[k..][..|r|] == r;
    forall i | k + |r| <= i < |s|
      ensures IsWhiteSpace(s[i])
    {
      assert s[i] == t[i - k];
    }
  }

  /** Trimming the start leaves nothing exactly when every character is white space. */
  lemma TrimStartBlank(s: string)
    ensures TrimStart(s) == [] <==> forall i :: 0 <= i < |s| ==> IsWhiteSpace(s[i])
  {
    var t := TrimStart(s);
    assert t != [] ==> t[0] == s[|s| - |t|];
  }

  /** Trimming the end of a text that starts with a non-white-space character keeps that character. */
  lemma TrimEndKeepsStart(t: string)
    requires t == [] || !IsWhiteSpace(t[0])
    ensures TrimEnd(t) == [] <==> t == []
    ensures TrimEnd(t) != [] ==> TrimEnd(t)[0] == t[0]
  {
  }
}
