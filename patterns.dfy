/**
 * Hand-written recognizers for the two regular expressions of the account code,
 * each proved equal to a declarative statement of what the pattern matches.
 *
 *   `^[\w\.-]+@[\w\.-]+\.[a-zA-z]{2,}$` (signup and create_user)
 *   `^[\w\.-]+@[\w\.-]+\.[a-zA-Z]{2,}$` (profile edit)
 *   `^.{8,}$`                            (create_user's password rule)
 *
 * All are applied with Python's `re.match`, so they are anchored at the start;
 * without MULTILINE, `$` matches at the end or just before one final "\n".
 * `\w` is taken over ASCII: letters, digits and underscore.
 */
module Patterns {

  import opened Wrappers
  import Text

  /** The top-level-domain character class, which differs between call sites. */
  datatype LetterClass =
    | LooseAtoz    // `[a-zA-z]`: the range `A-z` also admits `[ \ ] ^ _` and the backtick
    | AsciiLetters // `[a-zA-Z]`

  predicate IsWordChar(c: char)
  {
    ('a' <= c <= 'z') || ('A' <= c <= 'Z') || ('0' <= c <= '9') || c == '_'
  }

  /** `[\w\.-]` */
  predicate IsPartChar(c: char)
  {
    IsWordChar(c) || c == '.' || c == '-'
  }

  predicate IsLetter(cls: LetterClass, c: char)
  {
    match cls
    case LooseAtoz => ('a' <= c <= 'z') || ('A' <= c <= 'z')
    case AsciiLetters => ('a' <= c <= 'z') || ('A' <= c <= 'Z')
  }

  predicate AllPart(s: string)
  {
    forall i :: 0 <= i < |s| ==> IsPartChar(s[i])
  }

  predicate AllLetters(cls: LetterClass, s: string)
  {
    forall i :: 0 <= i < |s| ==> IsLetter(cls, s[i])
  }

  /**
   * `s` is `local @ head . tld` with the `@` at index `at` and the `.` at index `dot`:
   * the three pieces of `[\w\.-]+@[\w\.-]+\.[letters]{2,}` matched back to back.
   */
  predicate SplitsAt(cls: LetterClass, s: string, at: int, dot: int)
  {
    && 0 < at && at + 1 < dot && dot + 2 < |s|
    && s[at] == '@' && s[dot] == '.'
    && AllPart(s[..at]) && AllPart(s[at + 1..dot]) && AllLetters(cls, s[dot + 1..])
  }

  /** The whole of `s` matches the body of the pattern (the regular language, no anchors). */
  ghost predicate FullMatch(cls: LetterClass, s: string)
  {
    exists at, dot :: SplitsAt(cls, s, at, dot)
  }

  /** Index of the first occurrence of `c` in `s`. */
  function IndexOf(s: string, c: char): (r: Option<nat>)
    ensures r.Some? ==> r.value < |s| && s[r.value] == c && forall j :: 0 <= j < r.value ==> s[j] != c
    ensures r.None? ==> forall j :: 0 <= j < |s| ==> s[j] != c
  {
    if |s| == 0 then None
    else if s[0] == c then Some(0)
    else match IndexOf(s[1..], c)
      case None => None
      case Some(k) => Some(k + 1)
  }

  /** Index of the last occurrence of `c` in `s`. */
  function LastIndexOf(s: string, c: char): (r: Option<nat>)
    ensures r.Some? ==> r.value < |s| && s[r.value] == c && forall j :: r.value < j < |s| ==> s[j] != c
    ensures r.None? ==> forall j :: 0 <= j < |s| ==> s[j] != c
  {
    if |s| == 0 then None
    else if s[|s| - 1] == c then Some(|s| - 1)
    else LastIndexOf(s[..|s| - 1], c)
  }

  /**
   * The recognizer: split at the first `@` and the last `.`, then check the pieces.
   * It accepts exactly the strings the pattern body matches.
   */
  function IsEmailShape(cls: LetterClass, s: string): (b: bool)
    ensures b <==> FullMatch(cls, s)
  {
    var at := IndexOf(s, '@');
    var dot := LastIndexOf(s, '.');
    var b := at.Some? && dot.Some? && SplitsAt(cls, s, at.value, dot.value);
    assert FullMatch(cls, s) ==> b by {
      if FullMatch(cls, s) {
        var i, k :| SplitsAt(cls, s, i, k);
        SplitIsFirstAtLastDot(cls, s, i, k);
      }
    }
    b
  }

  /** In any split, the `@` is the first `@` and the `.` is the last `.`. */
  lemma SplitIsFirstAtLastDot(cls: LetterClass, s: string, at: int, dot: int)
    requires SplitsAt(cls, s, at, dot)
    ensures IndexOf(s, '@') == Some(at)
    ensures LastIndexOf(s, '.') == Some(dot)
  {
    forall j | 0 <= j < at ensures s[j] != '@' {
      assert s[..at][j] == s[j];
    }
    forall j | dot < j < |s| ensures s[j] != '.' {
      assert s[dot + 1..][j - dot - 1] == s[j];
    }
  }

  /** `re.match(pattern, s)` is truthy: the body matches all of `s`, or all of `s` but a final "\n". */
  predicate LooksLikeEmail(cls: LetterClass, s: string)
  {
    || IsEmailShape(cls, s)
    || (|s| > 0 && s[|s| - 1] == '\n' && IsEmailShape(cls, s[..|s| - 1]))
  }

  /** Every string `[a-zA-Z]` admits, `[a-zA-z]` admits too. */
  lemma StrictShapeIsLooseShape(s: string)
    ensures LooksLikeEmail(AsciiLetters, s) ==> LooksLikeEmail(LooseAtoz, s)
  {
    forall t: string, at, dot | SplitsAt(AsciiLetters, t, at, dot)
      ensures SplitsAt(LooseAtoz, t, at, dot)
    {
    }
  }

  /** The two call-site patterns differ: `[a-zA-z]` also admits `_` in the domain suffix. */
  lemma LooseAdmitsMore()
    ensures LooksLikeEmail(LooseAtoz, "x@y.z_")
    ensures !LooksLikeEmail(AsciiLetters, "x@y.z_")
  {
    var s := "x@y.z_";
    assert SplitsAt(LooseAtoz, s, 1, 3);
    assert !IsLetter(AsciiLetters, s[5]);
    assert !SplitsAt(AsciiLetters, s, 1, 3);
  }

  /** An email-shaped string has no whitespace at either end, so stripping leaves it as it is. */
  lemma ShapeIsUnpadded(cls: LetterClass, s: string)
    requires IsEmailShape(cls, s)
    ensures Text.Unpadded(s)
  {
    var at, dot :| SplitsAt(cls, s, at, dot);
    assert s[..at][0] == s[0];
    assert s[dot + 1..][|s| - dot - 2] == s[|s| - 1];
  }

  /** A string without `@` is not email-shaped. */
  lemma NoAtNotEmailShaped(cls: LetterClass, s: string)
    requires '@' !in s
    ensures !LooksLikeEmail(cls, s)
  {
    NoAtNoSplit(cls, s);
    if |s| > 0 {
      assert '@' !in s[..|s| - 1];
      NoAtNoSplit(cls, s[..|s| - 1]);
    }
  }

  lemma NoAtNoSplit(cls: LetterClass, s: string)
    requires '@' !in s
    ensures !FullMatch(cls, s)
  {
    forall at, dot ensures !SplitsAt(cls, s, at, dot) {
      if 0 <= at < |s| {
        assert s[at] in s;
      }
    }
  }

  /** On stripped input the `$`-before-newline alternative never applies. */
  lemma LooksLikeEmailUnpadded(cls: LetterClass, s: string)
    requires Text.Unpadded(s)
    ensures LooksLikeEmail(cls, s) <==> IsEmailShape(cls, s)
  {
  }

  /**
   * A string whose stripped form is not email-shaped is not email-shaped itself:
   * a username accepted by the stripped check cannot be stored in email form.
   */
  lemma ShapeSurvivesStrip(cls: LetterClass, s: string)
    requires IsEmailShape(cls, s)
    ensures LooksLikeEmail(cls, Text.Trim(s))
  {
    ShapeIsUnpadded(cls, s);
  }

  /** `^.{8,}$`: `.` is any character but "\n"; `$` allows one final "\n". */
  predicate MatchesAtLeastEight(p: string)
  {
    var body := if |p| > 0 && p[|p| - 1] == '\n' then p[..|p| - 1] else p;
    |body| >= 8 && '\n' !in body
  }

  /** The pattern matches iff some run of eight or more non-newline characters reaches `$`. */
  ghost predicate AtLeastEightAt(p: string, n: int)
  {
    && 8 <= n <= |p|
    && (forall i :: 0 <= i < n ==> p[i] != '\n')
    && (n == |p| || (n == |p| - 1 && p[n] == '\n'))
  }

  lemma MatchesAtLeastEightSpec(p: string)
    ensures MatchesAtLeastEight(p) <==> exists n :: AtLeastEightAt(p, n)
  {
    if |p| > 0 && p[|p| - 1] == '\n' {
      var body := p[..|p| - 1];
      if MatchesAtLeastEight(p) {
        assert forall i :: 0 <= i < |body| ==> body[i] == p[i];
        assert AtLeastEightAt(p, |body|);
      }
      if n :| AtLeastEightAt(p, n) {
        assert n == |p| - 1;
        assert forall i :: 0 <= i < |body| ==> body[i] == p[i];
      }
    } else {
      if MatchesAtLeastEight(p) {
        assert AtLeastEightAt(p, |p|);
      }
      if n :| AtLeastEightAt(p, n) {
        assert n == |p|;
        assert forall i :: 0 <= i < |p| ==> p[i] != '\n';
      }
    }
  }

  /** Any password shorter than eight characters fails the pattern. */
  lemma ShortFailsAtLeastEight(p: string)
    requires |p| < 8
    ensures !MatchesAtLeastEight(p)
  {
  }

  /** A password of eight or more characters without a newline passes. */
  lemma LongPassesAtLeastEight(p: string)
    requires |p| >= 8 && '\n' !in p
    ensures MatchesAtLeastEight(p)
  {
  }
}
