/**
  `StringUtil::WildcardMatch`: the greedy matcher that backtracks only to the latest `*`,
  against the declarative meaning of `*` (any text) and `?` (any one character).
 */
module Wildcard {
  type Comparison = (char, char) -> bool

  /** What the terminator compares as: a mask that has run out equals no character. */
  ghost predicate RejectsTerminator(eq: Comparison) {
    forall c | c != '\0' :: !eq('\0', c)
  }

  predicate MatchesOne(m: char, c: char, eq: Comparison) {
    m == '?' || eq(m, c)
  }

  /** The meaning of a mask. */
  ghost predicate Matches(mask: string, text: string, eq: Comparison)
    decreases mask
  {
    if mask == "" then text == ""
    else if mask[0] == '*' then exists k | 0 <= k <= |text| :: Matches(mask[1..], text[k..], eq)
    else text != "" && MatchesOne(mask[0], text[0], eq) && Matches(mask[1..], text[1..], eq)
  }

  /** `m` holds no star and matches the start of `text`, character by character. */
  ghost predicate MatchesPrefix(m: string, text: string, eq: Comparison) {
    && '*' !in m
    && |m| <= |text|
    && forall i | 0 <= i < |m| :: MatchesOne(m[i], text[i], eq)
  }

  /** The character at `i`, or the terminator. */
  function At(s: string, i: nat): char
    requires i <= |s|
  {
    if i < |s| then s[i] else '\0'
  }

  // ----- masks without a star up to some point -----

  /** A star-free prefix of a mask takes exactly its own length of text. */
  lemma {:induction false} LiteralPrefix(mask: string, n: nat, text: string, eq: Comparison)
    requires n <= |mask| && '*' !in mask[..n]
    ensures Matches(mask, text, eq) <==>
              MatchesPrefix(mask[..n], text, eq) && Matches(mask[n..], text[n..], eq)
  {
    if n == 0 {
      assert mask[0..] == mask && text[0..] == text;
    } else if text != "" {
      assert mask[0] == mask[..n][0];
      assert mask[1..][..n - 1] == mask[..n][1..];
      LiteralPrefix(mask[1..], n - 1, text[1..], eq);
      assert mask[1..][n - 1..] == mask[n..];
      if n <= |text| {
        assert text[1..][n - 1..] == text[n..];
        PrefixStep(mask[..n], text, eq);
      }
    } else {
      assert mask[0] == mask[..n][0];
    }
  }

  lemma PrefixStep(m: string, text: string, eq: Comparison)
    requires m != "" && text != "" && m[0] != '*'
    ensures MatchesPrefix(m, text, eq) <==>
              MatchesOne(m[0], text[0], eq) && MatchesPrefix(m[1..], text[1..], eq)
  {
    if MatchesOne(m[0], text[0], eq) && MatchesPrefix(m[1..], text[1..], eq) {
      forall i | 0 <= i < |m| ensures MatchesOne(m[i], text[i], eq) {
        if i > 0 {
          assert m[1..][i - 1] == m[i] && text[1..][i - 1] == text[i];
        }
      }
      assert m == [m[0]] + m[1..];
    }
    if MatchesPrefix(m, text, eq) {
      forall i | 0 <= i < |m[1..]| ensures MatchesOne(m[1..][i], text[1..][i], eq) {
        assert MatchesOne(m[i + 1], text[i + 1], eq);
      }
    }
  }

  /** A mask that matches the empty text is all stars. */
  lemma {:induction false} MatchesEmpty(mask: string, eq: Comparison)
    ensures Matches(mask, "", eq) <==> forall i | 0 <= i < |mask| :: mask[i] == '*'
  {
    if mask != "" {
      MatchesEmpty(mask[1..], eq);
      assert ""[0..] == "";
      if mask[0] == '*' {
        assert Matches(mask, "", eq) <==> Matches(mask[1..], "", eq);
        assert mask == [mask[0]] + mask[1..];
      }
    }
  }

  // ----- alternatives -----

  /** `mask` matches some suffix of `text` that starts at `from` or later. */
  ghost predicate MatchesSuffix(mask: string, text: string, from: nat, eq: Comparison) {
    exists k | from <= k <= |text| :: Matches(mask, text[k..], eq)
  }

  lemma StarIsSuffix(mask: string, text: string, from: nat, eq: Comparison)
    requires mask != "" && mask[0] == '*' && from <= |text|
    ensures Matches(mask, text[from..], eq) <==> MatchesSuffix(mask[1..], text, from, eq)
  {
    if Matches(mask, text[from..], eq) {
      var k :| 0 <= k <= |text[from..]| && Matches(mask[1..], text[from..][k..], eq);
      assert text[from..][k..] == text[from + k..];
    }
    if MatchesSuffix(mask[1..], text, from, eq) {
      var k :| from <= k <= |text| && Matches(mask[1..], text[k..], eq);
      assert text[from..][k - from..] == text[k..];
    }
  }

  lemma SuffixSplit(mask: string, text: string, from: nat, eq: Comparison)
    requires from <= |text|
    ensures MatchesSuffix(mask, text, from, eq) <==>
              Matches(mask, text[from..], eq) || MatchesSuffix(mask, text, from + 1, eq)
  {
  }

  /** Why only the latest star matters: once the text between two stars has been placed as
      early as possible, starting it later gains nothing. */
  lemma EarlierStarIsMoot(mask: string, n: nat, text: string, start: nat, eq: Comparison)
    requires n < |mask| && '*' !in mask[..n] && mask[n] == '*'
    requires start + n <= |text|
    requires MatchesSuffix(mask, text, start + 1, eq)
    ensures Matches(mask[n..], text[start + n..], eq)
  {
    var k :| start + 1 <= k <= |text| && Matches(mask, text[k..], eq);
    LiteralPrefix(mask, n, text[k..], eq);
    assert text[k..][n..] == text[k + n..];
    StarIsSuffix(mask[n..], text, k + n, eq);
    var j :| k + n <= j <= |text| && Matches(mask[n..][1..], text[j..], eq);
    StarIsSuffix(mask[n..], text, start + n, eq);
  }

  /** A mask cannot match a text shorter than its star-free prefix. */
  lemma TooShort(mask: string, n: nat, text: string, from: nat, eq: Comparison)
    requires n <= |mask| && '*' !in mask[..n] && |text| < from + n
    ensures !MatchesSuffix(mask, text, from, eq)
  {
    forall k | from <= k <= |text| ensures !Matches(mask, text[k..], eq) {
      LiteralPrefix(mask, n, text[k..], eq);
    }
  }

  /** One character of the mask that is no star. */
  lemma OneStep(mask: string, mi: nat, text: string, si: nat, eq: Comparison)
    requires '\0' !in text && RejectsTerminator(eq)
    requires mi <= |mask| && si < |text| && At(mask, mi) != '*'
    ensures mi == |mask| ==> !MatchesOne(At(mask, mi), text[si], eq)
    ensures Matches(mask[mi..], text[si..], eq) <==>
              MatchesOne(At(mask, mi), text[si], eq) && mi < |mask|
              && Matches(mask[mi + 1..], text[si + 1..], eq)
  {
    if mi < |mask| {
      assert mask[mi..][1..] == mask[mi + 1..];
      assert text[si..][1..] == text[si + 1..];
    } else {
      assert text[si] in text;
    }
  }

  // ----- the search -----

  /** Where the second loop stands: `mi` and `si` are the places in mask and subject, `mp` is
      the place after the latest star and `cp` the next place in the subject to try it at. */
  datatype Search = Search(mi: nat, si: nat, starred: bool, mp: nat, cp: nat)

  ghost predicate WellFormed(p: Search, mask: string, text: string) {
    && p.si <= |text| && p.mi <= |mask|
    && (if p.starred
        then p.mp <= p.mi && 0 < p.cp && p.si - (p.mi - p.mp) == p.cp - 1 && '*' !in mask[p.mp..p.mi]
        else p.mp == 0 && p.cp == 0 && (p.si < |text| ==> At(mask, p.mi) == '*'))
  }

  /** The current attempt can still succeed, or a later placement after the latest star can. */
  ghost predicate Hopeful(p: Search, mask: string, text: string, eq: Comparison)
    requires WellFormed(p, mask, text)
  {
    || Matches(mask[p.mi..], text[p.si..], eq)
    || (p.starred && MatchesSuffix(mask[p.mp..], text, p.cp, eq))
  }

  lemma StarStep(p: Search, q: Search, mask: string, text: string, eq: Comparison)
    requires WellFormed(p, mask, text) && p.si < |text| && At(mask, p.mi) == '*'
    requires q == Search(p.mi + 1, p.si, true, p.mi + 1, p.si + 1)
    ensures p.mi < |mask| && WellFormed(q, mask, text)
    ensures Hopeful(p, mask, text, eq) == Hopeful(q, mask, text, eq)
    ensures q.mi == |mask| ==> Hopeful(p, mask, text, eq)
  {
    if p.starred {
      assert mask[p.mp..][..p.mi - p.mp] == mask[p.mp..p.mi];
      assert mask[p.mp..][p.mi - p.mp..] == mask[p.mi..];
      if MatchesSuffix(mask[p.mp..], text, p.cp, eq) {
        EarlierStarIsMoot(mask[p.mp..], p.mi - p.mp, text, p.cp - 1, eq);
      }
    }
    StarIsSuffix(mask[p.mi..], text, p.si, eq);
    assert mask[p.mi..][1..] == mask[q.mi..];
    SuffixSplit(mask[q.mi..], text, p.si, eq);
    if q.mi == |mask| {
      assert Matches(mask[q.mi..], text[|text|..], eq);
    }
  }

  lemma MatchStep(p: Search, q: Search, mask: string, text: string, eq: Comparison)
    requires '\0' !in text && RejectsTerminator(eq)
    requires WellFormed(p, mask, text) && p.si < |text| && At(mask, p.mi) != '*'
    requires MatchesOne(At(mask, p.mi), text[p.si], eq)
    requires q == p.(mi := p.mi + 1, si := p.si + 1)
    ensures WellFormed(q, mask, text) && Hopeful(p, mask, text, eq) == Hopeful(q, mask, text, eq)
  {
    OneStep(mask, p.mi, text, p.si, eq);
    assert mask[p.mp..q.mi] == mask[p.mp..p.mi] + [mask[p.mi]];
  }

  lemma BacktrackStep(p: Search, q: Search, mask: string, text: string, eq: Comparison)
    requires '\0' !in text && RejectsTerminator(eq)
    requires WellFormed(p, mask, text) && p.si < |text| && At(mask, p.mi) != '*'
    requires !MatchesOne(At(mask, p.mi), text[p.si], eq)
    requires q == p.(mi := p.mp, si := p.cp, cp := p.cp + 1)
    ensures p.cp <= |text| && WellFormed(q, mask, text) && Hopeful(p, mask, text, eq) == Hopeful(q, mask, text, eq)
  {
    OneStep(mask, p.mi, text, p.si, eq);
    SuffixSplit(mask[p.mp..], text, p.cp, eq);
  }

  /** When the subject has run out only stars may be left in the mask. */
  lemma EndStep(p: Search, mask: string, text: string, eq: Comparison)
    requires WellFormed(p, mask, text) && p.si == |text|
    ensures Hopeful(p, mask, text, eq) <==> forall i | p.mi <= i < |mask| :: mask[i] == '*'
  {
    if p.starred {
      assert mask[p.mp..][..p.mi - p.mp] == mask[p.mp..p.mi];
      TooShort(mask[p.mp..], p.mi - p.mp, text, p.cp, eq);
    }
    assert text[p.si..] == "";
    var rest := mask[p.mi..];
    MatchesEmpty(rest, eq);
    assert forall i | p.mi <= i < |mask| :: mask[i] == rest[i - p.mi];
  }

  // ----- the matcher -----

  /** The second and third loops: the subject from `start` on against the mask from `at` on,
      where the subject is used up or the mask has a star next. */
  method MatchFromStar(subject: string, mask: string, start: nat, at: nat, eq: Comparison) returns (r: bool)
    requires '\0' !in subject && '\0' !in mask && RejectsTerminator(eq)
    requires start <= |subject| && at <= |mask| && (start < |subject| ==> At(mask, at) == '*')
    ensures r <==> Matches(mask[at..], subject[start..], eq)
  {
    var si: nat, mi: nat := start, at;
    ghost var p := Search(mi, si, false, 0, 0);
    var mp: nat, cp: nat := 0, 0;
    while si < |subject|
      invariant p == Search(mi, si, p.starred, mp, cp) && WellFormed(p, mask, subject)
      invariant Matches(mask[at..], subject[start..], eq) <==> Hopeful(p, mask, subject, eq)
      decreases !p.starred, |mask| - mp, |subject| - cp, |subject| - si
    {
      ghost var last := p;
      if At(mask, mi) == '*' {
        p := Search(mi + 1, si, true, mi + 1, si + 1);
        StarStep(last, p, mask, subject, eq);
        mi := mi + 1;
        if mi == |mask| {
          return true;
        }
        mp, cp := mi, si + 1;
      } else if MatchesOne(At(mask, mi), subject[si], eq) {
        p := p.(mi := mi + 1, si := si + 1);
        MatchStep(last, p, mask, subject, eq);
        mi, si := mi + 1, si + 1;
      } else {
        p := p.(mi := mp, si := cp, cp := cp + 1);
        BacktrackStep(last, p, mask, subject, eq);
        mi, si, cp := mp, cp, cp + 1;
      }
    }

    EndStep(p, mask, subject, eq);
    while At(mask, mi) == '*'
      invariant p.mi <= mi <= |mask|
      invariant forall i | p.mi <= i < mi :: mask[i] == '*'
      decreases |mask| - mi
    {
      mi := mi + 1;
    }
    r := mi == |mask|;
  }

  /** The body of either branch, with the branch's character comparison as a parameter.
      `subject` and `mask` are C strings without their terminators. */
  method MatchWith(subject: string, mask: string, eq: Comparison) returns (r: bool)
    requires '\0' !in subject && '\0' !in mask && RejectsTerminator(eq)
    ensures r <==> Matches(mask, subject, eq)
  {
    var si, mi := 0, 0;
    assert mask[0..] == mask && subject[0..] == subject;
    while si < |subject| && At(mask, mi) != '*'
      invariant si <= |subject| && mi <= |mask|
      invariant Matches(mask, subject, eq) <==> Matches(mask[mi..], subject[si..], eq)
      decreases |subject| - si
    {
      OneStep(mask, mi, subject, si, eq);
      if !MatchesOne(At(mask, mi), subject[si], eq) {
        return false;
      }
      mi, si := mi + 1, si + 1;
    }

    r := MatchFromStar(subject, mask, si, mi, eq);
  }

  // ----- the two comparisons -----

  function ToLower(c: char): char {
    if 'A' <= c <= 'Z' then (c as int + 32) as char else c
  }

  function Compare(foldCase: bool): Comparison {
    if foldCase then (m, c) => ToLower(m) == ToLower(c) else (m, c) => m == c
  }

  function Lowered(s: string): (r: string)
    ensures |r| == |s| && forall i | 0 <= i < |s| :: r[i] == ToLower(s[i])
  {
    if s == "" then "" else [ToLower(s[0])] + Lowered(s[1..])
  }

  lemma LoweredSuffix(s: string, k: nat)
    requires k <= |s|
    ensures Lowered(s)[k..] == Lowered(s[k..])
  {
  }

  /** What the branch for `case_sensitive` decides: whether the mask in lower case matches the
      subject in lower case, letter for letter. */
  lemma {:induction false} FoldedIsLowered(mask: string, text: string)
    ensures Matches(mask, text, Compare(true)) <==> Matches(Lowered(mask), Lowered(text), Compare(false))
    decreases mask
  {
    var m, t := Lowered(mask), Lowered(text);
    if mask != "" {
      LoweredSuffix(mask, 1);
      if mask[0] == '*' {
        forall k | 0 <= k <= |text|
          ensures Matches(mask[1..], text[k..], Compare(true)) <==> Matches(m[1..], t[k..], Compare(false))
        {
          FoldedIsLowered(mask[1..], text[k..]);
          LoweredSuffix(text, k);
        }
      } else if text != "" {
        FoldedIsLowered(mask[1..], text[1..]);
        LoweredSuffix(text, 1);
      }
    }
  }

  // ----- when folding case makes a difference -----

  predicate IsLetter(c: char) {
    'a' <= c <= 'z' || 'A' <= c <= 'Z'
  }

  /** A letter in the other case. */
  function Flip(c: char): char {
    if 'A' <= c <= 'Z' then (c as int + 32) as char
    else if 'a' <= c <= 'z' then (c as int - 32) as char
    else c
  }

  /** The characters of a mask that are no stars, every letter in the other case. */
  function Flipped(mask: string): string {
    if mask == "" then ""
    else if mask[0] == '*' then Flipped(mask[1..])
    else [Flip(mask[0])] + Flipped(mask[1..])
  }

  /** A mask without letters matches the same under both comparisons. */
  lemma {:induction false} NoLetters(mask: string, text: string)
    requires forall i | 0 <= i < |mask| :: !IsLetter(mask[i])
    ensures Matches(mask, text, Compare(true)) <==> Matches(mask, text, Compare(false))
    decreases mask
  {
    if mask != "" {
      if mask[0] == '*' {
        forall k | 0 <= k <= |text|
          ensures Matches(mask[1..], text[k..], Compare(true)) <==> Matches(mask[1..], text[k..], Compare(false))
        {
          NoLetters(mask[1..], text[k..]);
        }
      } else if text != "" {
        NoLetters(mask[1..], text[1..]);
      }
    }
  }

  /** Folding case, a mask matches its own characters in the other case. */
  lemma {:induction false} FlippedMatches(mask: string)
    ensures Matches(mask, Flipped(mask), Compare(true))
  {
    if mask != "" {
      FlippedMatches(mask[1..]);
      var text := Flipped(mask);
      if mask[0] == '*' {
        assert text[0..] == text;
      } else {
        assert text[1..] == Flipped(mask[1..]);
      }
    }
  }

  /** What a mask matches is at least as long as the characters it names. */
  lemma {:induction false} MatchIsLong(mask: string, text: string, eq: Comparison)
    requires Matches(mask, text, eq)
    ensures |text| >= |Flipped(mask)|
    decreases mask
  {
    if mask != "" {
      if mask[0] == '*' {
        var k :| 0 <= k <= |text| && Matches(mask[1..], text[k..], eq);
        MatchIsLong(mask[1..], text[k..], eq);
      } else {
        MatchIsLong(mask[1..], text[1..], eq);
      }
    }
  }

  /** Compared exactly, a mask with a letter does not: its stars have no characters to take, so
      the letter meets the other case. */
  lemma {:induction false} FlippedFails(mask: string, i: nat)
    requires i < |mask| && IsLetter(mask[i])
    ensures !Matches(mask, Flipped(mask), Compare(false))
    decreases mask
  {
    var text := Flipped(mask);
    if mask[0] == '*' {
      FlippedFails(mask[1..], i - 1);
      forall k | 0 <= k <= |text| ensures !Matches(mask[1..], text[k..], Compare(false)) {
        if k == 0 {
          assert text[0..] == text;
        } else if Matches(mask[1..], text[k..], Compare(false)) {
          MatchIsLong(mask[1..], text[k..], Compare(false));
        }
      }
    } else if i > 0 {
      FlippedFails(mask[1..], i - 1);
      assert text[1..] == Flipped(mask[1..]);
    }
  }

  lemma {:induction false} FlippedHasNoTerminator(mask: string)
    requires '\0' !in mask
    ensures '\0' !in Flipped(mask)
  {
    if mask != "" {
      assert mask[0] in mask;
      FlippedHasNoTerminator(mask[1..]);
    }
  }

  /** The two branches decide the same for every subject. */
  ghost predicate BranchesAgree(mask: string) {
    forall text: string | '\0' !in text :: Matches(mask, text, Compare(true)) <==> Matches(mask, text, Compare(false))
  }

  /** The branch for `case_sensitive` decides what an exact comparison would, for every subject,
      if and only if the mask has no letter in it. */
  lemma CaseSensitiveIff(mask: string)
    requires '\0' !in mask
    ensures BranchesAgree(mask) <==> forall i | 0 <= i < |mask| :: !IsLetter(mask[i])
  {
    if i: nat :| i < |mask| && IsLetter(mask[i]) {
      FlippedMatches(mask);
      FlippedFails(mask, i);
      FlippedHasNoTerminator(mask);
    } else {
      forall text: string | '\0' !in text
        ensures Matches(mask, text, Compare(true)) <==> Matches(mask, text, Compare(false))
      {
        NoLetters(mask, text);
      }
    }
  }

  /** For example the mask `A` matches the subject `a` in one branch and not in the other. */
  lemma FoldingExample(mask: string, subject: string)
    requires mask == "A" && subject == "a"
    ensures Matches(mask, subject, Compare(true)) && !Matches(mask, subject, Compare(false))
  {
    assert mask[1..] == "" && subject[1..] == "";
  }

  /** The branch taken for `case_sensitive` is the one that folds case. */
  method WildcardMatch(subject: string, mask: string, caseSensitive: bool) returns (r: bool)
    requires '\0' !in subject && '\0' !in mask
    ensures r <==> Matches(mask, subject, Compare(caseSensitive))
  {
    r := MatchWith(subject, mask, Compare(caseSensitive));
  }

  // ----- the meaning of a mask in one piece -----

  /** What the mask character `m` stands for: `*` for any text, `?` for any one character, and
      any other for one character that compares equal. */
  predicate StandsFor(m: char, piece: string, eq: Comparison) {
    if m == '*' then true else |piece| == 1 && (m == '?' || eq(m, piece[0]))
  }

  /** The text falls into one piece for each character of the mask, in order. */
  ghost predicate FallsInto(mask: string, text: string, cuts: seq<nat>, eq: Comparison) {
    && |cuts| == |mask| + 1 && cuts[0] == 0 && cuts[|mask|] == |text|
    && forall i | 0 <= i < |mask| :: PieceFits(mask, text, cuts[i], cuts[i + 1], i, eq)
  }

  predicate PieceFits(mask: string, text: string, from: nat, to: nat, i: nat, eq: Comparison)
    requires i < |mask|
  {
    from <= to <= |text| && StandsFor(mask[i], text[from..to], eq)
  }

  /** A mask matches a text if and only if the text can be cut into pieces that the characters of
      the mask stand for. */
  lemma MatchesIffPieces(mask: string, text: string, eq: Comparison)
    ensures Matches(mask, text, eq) <==> exists cuts: seq<nat> :: FallsInto(mask, text, cuts, eq)
  {
    if Matches(mask, text, eq) {
      var cuts := CutsOf(mask, text, eq);
    }
    if cuts: seq<nat> :| FallsInto(mask, text, cuts, eq) {
      PiecesMatch(mask, text, cuts, eq);
    }
  }

  /** The same cuts, `k` further on, after a first piece of `k` characters. */
  lemma CutsAfter(mask: string, text: string, k: nat, rest: seq<nat>, eq: Comparison) returns (cuts: seq<nat>)
    requires mask != "" && k <= |text| && StandsFor(mask[0], text[..k], eq) && FallsInto(mask[1..], text[k..], rest, eq)
    ensures FallsInto(mask, text, cuts, eq)
  {
    cuts := [0] + seq(|rest|, i requires 0 <= i < |rest| => rest[i] + k);
    forall i | 0 <= i < |mask| ensures PieceFits(mask, text, cuts[i], cuts[i + 1], i, eq) {
      if i > 0 {
        var from, to := rest[i - 1], rest[i];
        assert PieceFits(mask[1..], text[k..], from, to, i - 1, eq);
        assert text[k..][from..to] == text[from + k..to + k];
      } else {
        assert text[0..k] == text[..k];
      }
    }
  }

  lemma {:induction false} CutsOf(mask: string, text: string, eq: Comparison) returns (cuts: seq<nat>)
    requires Matches(mask, text, eq)
    ensures FallsInto(mask, text, cuts, eq)
    decreases mask
  {
    if mask == "" {
      cuts := [0];
    } else if mask[0] == '*' {
      var k :| 0 <= k <= |text| && Matches(mask[1..], text[k..], eq);
      var rest := CutsOf(mask[1..], text[k..], eq);
      cuts := CutsAfter(mask, text, k, rest, eq);
    } else {
      var rest := CutsOf(mask[1..], text[1..], eq);
      cuts := CutsAfter(mask, text, 1, rest, eq);
    }
  }

  /** What follows the first piece falls into the rest of the mask. */
  lemma PiecesAfter(mask: string, text: string, cuts: seq<nat>, eq: Comparison) returns (rest: seq<nat>)
    requires mask != "" && FallsInto(mask, text, cuts, eq)
    ensures cuts[1] <= |text| && StandsFor(mask[0], text[..cuts[1]], eq)
    ensures FallsInto(mask[1..], text[cuts[1]..], rest, eq)
  {
    var k := cuts[1];
    assert PieceFits(mask, text, cuts[0], k, 0, eq);
    assert text[0..k] == text[..k];
    CutsAscend(mask, text, cuts, eq, |mask|);
    rest := seq(|mask|, i requires 0 <= i < |mask| => if cuts[i + 1] >= k then cuts[i + 1] - k else 0);
    forall i | 0 <= i < |mask| - 1 ensures PieceFits(mask[1..], text[k..], rest[i], rest[i + 1], i, eq) {
      var from, to := cuts[i + 1], cuts[i + 2];
      CutsAscend(mask, text, cuts, eq, i + 1);
      assert PieceFits(mask, text, from, to, i + 1, eq);
      assert text[k..][from - k..to - k] == text[from..to];
    }
  }

  lemma {:induction false} CutsAscend(mask: string, text: string, cuts: seq<nat>, eq: Comparison, i: nat)
    requires mask != "" && FallsInto(mask, text, cuts, eq) && 1 <= i <= |mask|
    ensures cuts[1] <= cuts[i] <= |text|
  {
    assert PieceFits(mask, text, cuts[i - 1], cuts[i], i - 1, eq);
    if i > 1 {
      CutsAscend(mask, text, cuts, eq, i - 1);
    }
  }

  lemma {:induction false} PiecesMatch(mask: string, text: string, cuts: seq<nat>, eq: Comparison)
    requires FallsInto(mask, text, cuts, eq)
    ensures Matches(mask, text, eq)
    decreases mask
  {
    if mask != "" {
      var rest := PiecesAfter(mask, text, cuts, eq);
      PiecesMatch(mask[1..], text[cuts[1]..], rest, eq);
    }
  }
}
