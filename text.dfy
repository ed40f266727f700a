/**
 * The two Python string operations the account code applies to user input:
 * `str.strip()` and `str.lower()`.
 */
module Text {

  import opened Wrappers

  /** Python truthiness of an optional string: given and not empty. */
  predicate Present(s: Option<string>)
  {
    s.Some? && s.value != ""
  }

  /** Python's `str.isspace()` for one character: the characters `str.strip()` removes. */
  predicate IsSpace(c: char)
  {
    || c == ' '
    || ('\t' <= c <= '\r')
    || ('\U{1C}' <= c <= '\U{1F}')
    || c == '\U{85}' || c == '\U{A0}' || c == '\U{1680}'
    || ('\U{2000}' <= c <= '\U{200A}')
    || c == '\U{2028}' || c == '\U{2029}' || c == '\U{202F}' || c == '\U{205F}' || c == '\U{3000}'
  }

  /** Neither end of `s` is whitespace. */
  predicate Unpadded(s: string)
  {
    |s| == 0 || (!IsSpace(s[0]) && !IsSpace(s[|s| - 1]))
  }

  /** Drops leading whitespace; the result is a suffix of `s` cut after whitespace only. */
  function TrimStart(s: string): (r: string)
    ensures |r| <= |s| && r == s[|s| - |r|..]
    ensures forall i :: 0 <= i < |s| - |r| ==> IsSpace(s[i])
    ensures |r| == 0 || !IsSpace(r[0])
  {
    if |s| > 0 && IsSpace(s[0]) then TrimStart(s[1..]) else s
  }

  /** Drops trailing whitespace; the result is a prefix of `s` cut before whitespace only. */
  function TrimEnd(s: string): (r: string)
    ensures |r| <= |s| && r == s[..|r|]
    ensures forall i :: |r| <= i < |s| ==> IsSpace(s[i])
    ensures |r| == 0 || !IsSpace(r[|r| - 1])
  {
    if |s| > 0 && IsSpace(s[|s| - 1]) then TrimEnd(s[..|s| - 1]) else s
  }

  /** `s.strip()` */
  function Trim(s: string): (r: string)
    ensures |r| <= |s| && Unpadded(r)
    ensures Unpadded(s) ==> r == s
  {
    var left := TrimStart(s);
    var r := TrimEnd(left);
    assert |r| > 0 ==> r[0] == left[0];
    r
  }

  /** Every character of `t` is whitespace. */
  predicate AllSpace(t: string)
  {
    forall i :: 0 <= i < |t| ==> IsSpace(t[i])
  }

  /** `strip()` removes whitespace from the two ends and nothing else: the input is the result with whitespace around it. */
  lemma TrimRemovesOnlyEndSpace(s: string)
    ensures exists pre, post :: s == pre + Trim(s) + post && AllSpace(pre) && AllSpace(post)
  {
    var left := TrimStart(s);
    var pre := TrimStartSplit(s);
    var post := TrimEndSplit(left);
    var r := Trim(s);
    assert r == TrimEnd(left);
    Regroup(pre, r, post);
    assert s == pre + r + post;
  }

  /** The leading whitespace `TrimStart` drops. */
  lemma TrimStartSplit(s: string) returns (pre: string)
    ensures s == pre + TrimStart(s) && AllSpace(pre)
  {
    var r := TrimStart(s);
    var k := |s| - |r|;
    pre := s[..k];
    SplitAt(s, k);
    forall i | 0 <= i < |pre| ensures IsSpace(pre[i]) {
      assert pre[i] == s[i];
    }
  }

  /** The trailing whitespace `TrimEnd` drops. */
  lemma TrimEndSplit(s: string) returns (post: string)
    ensures s == TrimEnd(s) + post && AllSpace(post)
  {
    var r := TrimEnd(s);
    post := s[|r|..];
    SplitAt(s, |r|);
    forall i | 0 <= i < |post| ensures IsSpace(post[i]) {
      assert post[i] == s[|r| + i];
    }
  }

  /** A string is its prefix followed by the matching suffix. */
  lemma SplitAt(s: string, k: nat)
    requires k <= |s|
    ensures s == s[..k] + s[k..]
  {
  }

  /** Concatenation regroups freely. */
  lemma Regroup(a: string, b: string, c: string)
    ensures a + (b + c) == a + b + c
  {
  }

  /** Stripping twice is stripping once. */
  lemma TrimIdempotent(s: string)
    ensures Trim(Trim(s)) == Trim(s)
  {
  }

  predicate IsAsciiUpper(c: char) { 'A' <= c <= 'Z' }

  function LowerChar(c: char): (r: char)
    ensures !IsAsciiUpper(r)
    ensures IsSpace(r) <==> IsSpace(c)
    ensures !IsAsciiUpper(c) ==> r == c
    ensures IsAsciiUpper(c) ==> r as int - 'a' as int == c as int - 'A' as int
  {
    if IsAsciiUpper(c) then (c as int + 32) as char else c
  }

  /** `s.lower()` on ASCII letters; every other character is kept. */
  function Lower(s: string): (r: string)
    ensures |r| == |s|
    ensures forall i :: 0 <= i < |s| ==> r[i] == LowerChar(s[i])
  {
    seq(|s|, i requires 0 <= i < |s| => LowerChar(s[i]))
  }

  /** Lower-casing never makes an end of the string whitespace. */
  lemma LowerKeepsUnpadded(s: string)
    requires Unpadded(s)
    ensures Unpadded(Lower(s))
  {
    var r := Lower(s);
    if |r| > 0 {
      assert r[0] == LowerChar(s[0]);
      assert r[|r| - 1] == LowerChar(s[|s| - 1]);
    }
  }

  /**
   * The email normalisation `email.strip().lower()` is idempotent: an address
   * stored in normalised form normalises to itself.
   */
  lemma NormalizeEmailIdempotent(email: string)
    ensures Lower(Trim(Lower(Trim(email)))) == Lower(Trim(email))
  {
    var trimmed := Trim(email);
    var t := Lower(trimmed);
    if |t| > 0 {
      assert t[0] == LowerChar(trimmed[0]);
      assert t[|t| - 1] == LowerChar(trimmed[|t| - 1]);
    }
    assert Unpadded(t);
    assert Trim(t) == t;
    assert forall i :: 0 <= i < |t| ==> Lower(t)[i] == t[i];
    assert Lower(t) == t;
  }
}
