/**
  Which prefixes of a path are URI schemes (section 3.1 of RFC 3986), and what Canonicalize does
  to the rest.
 */
module PathSchemes {
  import opened Paths

  // ----- the grammar -----

  const LOWER := "abcdefghijklmnopqrstuvwxyz"
  const UPPER := "ABCDEFGHIJKLMNOPQRSTUVWXYZ"
  const DIGITS := "0123456789"
  const MARKS := "+-."

  predicate Letter(ch: char) {
    ch in LOWER || ch in UPPER
  }

  predicate Follows(ch: char) {
    Letter(ch) || ch in DIGITS || ch in MARKS
  }

  predicate Scheme(s: string) {
    s != "" && Letter(s[0]) && forall i | 1 <= i < |s| :: Follows(s[i])
  }

  lemma LowerIs(ch: char)
    ensures ch in LOWER <==> 'a' <= ch <= 'z'
  {
    if 'a' <= ch <= 'z' {
      var k := ch as int - 'a' as int;
      assert LOWER[k] == ch;
    }
  }

  lemma UpperIs(ch: char)
    ensures ch in UPPER <==> 'A' <= ch <= 'Z'
  {
    if 'A' <= ch <= 'Z' {
      var k := ch as int - 'A' as int;
      assert UPPER[k] == ch;
    }
  }

  lemma DigitIs(ch: char)
    ensures ch in DIGITS <==> '0' <= ch <= '9'
  {
    if '0' <= ch <= '9' {
      var k := ch as int - '0' as int;
      assert DIGITS[k] == ch;
    }
  }

  lemma SchemeCharacter(ch: char)
    ensures Letter(ch) <==> IsAlpha(ch)
    ensures Follows(ch) <==> IsAlpha(ch) || ('0' <= ch <= '9') || ch == '+' || ch == '-' || ch == '.'
  {
    LowerIs(ch);
    UpperIs(ch);
    DigitIs(ch);
  }

  lemma SchemeIs(s: string)
    requires |s| > 0
    ensures Scheme(s) <==> IsScheme(s)
  {
    forall i | 0 <= i < |s|
      ensures Letter(s[i]) <==> IsAlpha(s[i])
      ensures Follows(s[i]) <==> IsAlpha(s[i]) || ('0' <= s[i] <= '9') || s[i] == '+' || s[i] == '-' || s[i] == '.'
    {
      SchemeCharacter(s[i]);
    }
  }

  // ----- the prefix -----

  /** `n` is the length of a scheme of two or more characters at the start of `path` together with
      the separator after it. */
  ghost predicate SchemePrefix(path: string, n: nat) {
    exists scheme: string, rest: string | |scheme| >= 2 && Scheme(scheme) ::
      path == scheme + "://" + rest && n == |scheme| + 3
  }

  /** A scheme has no colon in it, so the first separator is the one after it. */
  lemma SchemeEnds(scheme: string, rest: string)
    requires Scheme(scheme)
    ensures FindSeparator(scheme + "://" + rest, 0) == |scheme|
  {
    var s := scheme + "://" + rest;
    SchemeIs(scheme);
    forall k: nat | k < |scheme| ensures !SeparatorAt(s, k) {
      assert s[k] == scheme[k];
    }
    assert SeparatorAt(s, |scheme|);
    FindSeparatorIs(s, 0, |scheme|);
  }

  lemma PrefixIsLength(path: string, n: nat)
    requires SchemePrefix(path, n)
    ensures SchemeLength(path) == n > 0
  {
    var scheme: string, rest: string :| |scheme| >= 2 && Scheme(scheme) && path == scheme + "://" + rest && n == |scheme| + 3;
    SchemeEnds(scheme, rest);
    SchemeIs(scheme);
    assert path[..|scheme|] == scheme;
  }

  lemma AroundSeparator(path: string, p: nat)
    requires SeparatorAt(path, p)
    ensures path == path[..p] + "://" + path[p + 3..]
  {
    assert path[p..p + 3] == "://";
    assert path == path[..p] + path[p..p + 3] + path[p + 3..];
  }

  lemma LengthIsPrefix(path: string, n: nat)
    requires n == SchemeLength(path) > 0
    ensures SchemePrefix(path, n)
  {
    SchemeIs(path[..n - 3]);
    AroundSeparator(path, n - 3);
  }

  /** The prefix that is set aside is a scheme and its separator where the path begins with one,
      and nothing everywhere else. */
  lemma SchemeLengthIff(path: string, n: nat)
    ensures SchemeLength(path) == n <==> SchemePrefix(path, n) || (n == 0 && forall m: nat :: !SchemePrefix(path, m))
  {
    var k := SchemeLength(path);
    forall m: nat | SchemePrefix(path, m) ensures k == m > 0 {
      PrefixIsLength(path, m);
    }
    if k > 0 {
      LengthIsPrefix(path, k);
    }
  }

  /** What a scheme and its separator precede is made canonical by itself. */
  lemma CanonicalizeAfterScheme(scheme: string, rest: string)
    requires |scheme| >= 2 && Scheme(scheme)
    ensures Canonicalized(scheme + "://" + rest) == scheme + "://" + Join(CanonicalComponents(Split(rest)))
  {
    var path, n := scheme + "://" + rest, |scheme| + 3;
    assert SchemePrefix(path, n);
    SchemeLengthIff(path, n);
    assert path[..n] == scheme + "://" && path[n..] == rest;
  }
}
