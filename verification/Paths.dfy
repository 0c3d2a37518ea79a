/**
  POSIX path algebra of `common/FileSystem.cpp`: split, join, canonicalize and make-relative,
  with the prefix of a URI kept out of it (section 3.1 of RFC 3986).
 */
module Paths {

  type Components = seq<string>

  // ----- pieces between slashes -----

  /** Length of the run of characters before the first slash. */
  function RunLength(s: string): (n: nat)
    ensures n <= |s| && '/' !in s[..n] && (n < |s| ==> s[n] == '/')
  {
    if s == "" || s[0] == '/' then 0 else
    assert s[..RunLength(s[1..]) + 1] == [s[0]] + s[1..][..RunLength(s[1..])];
    1 + RunLength(s[1..])
  }

  /** The maximal runs without a slash, in order. */
  function Pieces(s: string): Components
    decreases |s|
  {
    if s == "" then []
    else if s[0] == '/' then Pieces(s[1..])
    else [s[..RunLength(s)]] + Pieces(s[RunLength(s)..])
  }

  predicate IsAbsolute(path: string) {
    |path| >= 1 && path[0] == '/'
  }

  /** What SplitNativePath returns: an absolute path has an empty first component. */
  function Split(path: string): Components {
    (if IsAbsolute(path) then [""] else []) + Pieces(path)
  }

  function Join(c: Components): string {
    if c == [] then "" else if |c| == 1 then c[0] else c[0] + "/" + Join(c[1..])
  }

  lemma {:induction false} RunLengthIs(s: string, n: nat)
    requires n <= |s| && '/' !in s[..n] && (n < |s| ==> s[n] == '/')
    ensures RunLength(s) == n
  {
    if n > 0 {
      assert s[0] == s[..n][0];
      assert s[1..][..n - 1] == s[..n][1..];
      RunLengthIs(s[1..], n - 1);
    }
  }

  /** A run up to a slash, or the end, is the first piece. */
  lemma FirstPiece(s: string, n: nat)
    requires 0 < n <= |s| && '/' !in s[..n] && (n < |s| ==> s[n] == '/')
    ensures Pieces(s) == [s[..n]] + Pieces(s[n..])
    ensures n < |s| ==> Pieces(s[n..]) == Pieces(s[n + 1..])
  {
    assert s[0] == s[..n][0];
    RunLengthIs(s, n);
    if n < |s| {
      assert s[n..][0] == '/' && s[n..][1..] == s[n + 1..];
    }
  }

  /** Two paths with a slash between them have the pieces of both. */
  lemma {:induction false} PiecesConcat(a: string, b: string)
    ensures Pieces(a + "/" + b) == Pieces(a) + Pieces(b)
    decreases |a|
  {
    if a == "" {
      var s := a + "/" + b;
      assert s[0] == '/' && s[1..] == b;
    } else if a[0] == '/' {
      var s := a + "/" + b;
      assert s[1..] == a[1..] + "/" + b;
      PiecesConcat(a[1..], b);
    } else {
      FirstPieceOfConcat(a, b);
      PiecesConcat(a[RunLength(a)..], b);
    }
  }

  lemma FirstPieceOfConcat(a: string, b: string)
    requires a != "" && a[0] != '/'
    ensures RunLength(a) > 0 && Pieces(a) == [a[..RunLength(a)]] + Pieces(a[RunLength(a)..])
    ensures Pieces(a + "/" + b) == [a[..RunLength(a)]] + Pieces(a[RunLength(a)..] + "/" + b)
  {
    var n, s := RunLength(a), a + "/" + b;
    assert s[..n] == a[..n] && s[n] == '/';
    FirstPiece(s, n);
    assert s[n..] == a[n..] + "/" + b;
  }

  // ----- component lists -----

  /** Components hold no slash, and only the first may be empty. */
  ghost predicate Proper(c: Components) {
    && (forall i | 0 <= i < |c| :: '/' !in c[i])
    && (forall i | 0 < i < |c| :: c[i] != "")
  }

  lemma {:induction false} PiecesAreProper(s: string)
    ensures Proper(Pieces(s)) && (forall i | 0 <= i < |Pieces(s)| :: Pieces(s)[i] != "")
    decreases |s|
  {
    if s != "" {
      PiecesAreProper(if s[0] == '/' then s[1..] else s[RunLength(s)..]);
    }
  }

  lemma SplitIsProper(path: string)
    ensures Proper(Split(path))
    ensures Split(path) != [] && Split(path)[0] == "" ==> IsAbsolute(path)
  {
    PiecesAreProper(path);
  }

  lemma {:induction false} PiecesOfJoin(c: Components)
    requires Proper(c) && (c != [] ==> c[0] != "")
    ensures Pieces(Join(c)) == c
    ensures Join(c) != "" <==> c != []
    ensures c != [] ==> Join(c)[0] == c[0][0]
  {
    if |c| == 1 {
      assert c[0][..|c[0]|] == c[0];
      FirstPiece(c[0], |c[0]|);
    } else if |c| > 1 {
      var s := Join(c);
      PiecesOfJoin(c[1..]);
      assert s[..|c[0]|] == c[0];
      FirstPiece(s, |c[0]|);
      assert s[|c[0]| + 1..] == Join(c[1..]);
    }
  }

  /** Split inverts Join on every proper list but the one that stands for the root alone. */
  lemma SplitJoin(c: Components)
    requires Proper(c)
    ensures Split(Join(c)) == if c == [""] then [] else c
  {
    if c == [] || c == [""] {
    } else if c[0] == "" {
      SplitJoinAbsolute(c);
    } else {
      PiecesOfJoin(c);
      assert c[0][0] in c[0];
    }
  }

  lemma SplitJoinAbsolute(c: Components)
    requires Proper(c) && |c| > 1 && c[0] == ""
    ensures Split(Join(c)) == c
  {
    PiecesOfJoin(c[1..]);
    assert Join(c) == "/" + Join(c[1..]);
    assert Join(c)[1..] == Join(c[1..]);
  }

  /** Two slashes in a row. */
  ghost predicate HasDoubleSlash(s: string) {
    exists i | 0 <= i < |s| - 1 :: s[i] == '/' && s[i + 1] == '/'
  }

  /** Join never makes a double slash. */
  lemma {:induction false} JoinHasNoDoubleSlash(c: Components)
    requires Proper(c)
    ensures !HasDoubleSlash(Join(c))
  {
    if |c| == 1 {
      forall i | 0 <= i < |c[0]| - 1 ensures c[0][i] != '/' {
        assert c[0][i] in c[0];
      }
    } else if |c| > 1 {
      var s, n, rest := Join(c), |c[0]|, Join(c[1..]);
      JoinHasNoDoubleSlash(c[1..]);
      PiecesOfJoin(c[1..]);
      assert s == c[0] + "/" + rest;
      forall i | 0 <= i < |s| - 1 ensures !(s[i] == '/' && s[i + 1] == '/') {
        if i < n {
          assert s[i] == c[0][i] && c[0][i] in c[0];
        } else if i == n {
          assert s[i + 1] == rest[0] == c[1][0] && c[1][0] in c[1];
        } else {
          assert s[i] == rest[i - n - 1] && s[i + 1] == rest[i - n];
        }
      }
    }
  }

  // ----- the fold of Canonicalize -----

  /** What one component does to those kept so far; `alone` when it is the only one there is. */
  function Push(kept: Components, c: string, alone: bool): Components {
    if c == "." then (if alone then kept + [c] else kept)
    else if c == ".." then (if kept != [] then kept[..|kept| - 1] else [c])
    else kept + [c]
  }

  function Fold(kept: Components, rest: Components, alone: bool): Components
    decreases |rest|
  {
    if rest == [] then kept else Fold(Push(kept, rest[0], alone), rest[1..], alone)
  }

  function CanonicalComponents(c: Components): Components {
    Fold([], c, |c| == 1)
  }

  /** No `..` but at the start, no `.` but alone. */
  ghost predicate Canonical(c: Components) {
    && Proper(c)
    && (forall i | 0 < i < |c| :: c[i] != "..")
    && ((forall i | 0 <= i < |c| :: c[i] != ".") || c == ["."])
  }

  lemma {:induction false} FoldIsCanonical(kept: Components, rest: Components)
    requires Canonical(kept) && (forall i | 0 <= i < |kept| :: kept[i] != ".")
    requires Proper(rest) && (kept != [] && rest != [] ==> rest[0] != "")
    ensures Canonical(Fold(kept, rest, false))
    decreases |rest|
  {
    if rest != [] {
      FoldIsCanonical(Push(kept, rest[0], false), rest[1..]);
    }
  }

  lemma CanonicalComponentsAreCanonical(c: Components)
    requires Proper(c)
    ensures Canonical(CanonicalComponents(c))
  {
    if |c| == 1 {
      assert c[1..] == [];
      assert Fold([], c, true) == Push([], c[0], true);
    } else {
      FoldIsCanonical([], c);
    }
  }

  /** Folding a canonical list gives it back. */
  lemma {:induction false} FoldKeeps(kept: Components, rest: Components, alone: bool)
    requires Canonical(kept + rest) && (alone || kept + rest != ["."])
    ensures Fold(kept, rest, alone) == kept + rest
    decreases |rest|
  {
    if rest != [] {
      var c, all := rest[0], kept + rest;
      assert all[|kept|] == c;
      assert kept + [c] + rest[1..] == all;
      assert Push(kept, c, alone) == kept + [c];
      FoldKeeps(kept + [c], rest[1..], alone);
    }
  }

  // ----- URI schemes -----

  predicate SeparatorAt(s: string, i: nat) {
    i + 3 <= |s| && s[i] == ':' && s[i + 1] == '/' && s[i + 2] == '/'
  }

  /** `str.find("://")` from `i` on; the length of the string when there is none. */
  function FindSeparator(s: string, i: nat): (p: nat)
    requires i <= |s|
    ensures i <= p <= |s| && (p < |s| ==> SeparatorAt(s, p))
    ensures forall k: nat | i <= k < p :: !SeparatorAt(s, k)
    decreases |s| - i
  {
    if i == |s| || SeparatorAt(s, i) then i else FindSeparator(s, i + 1)
  }

  predicate IsAlpha(ch: char) {
    ('a' <= ch <= 'z') || ('A' <= ch <= 'Z')
  }

  /** `ALPHA *( ALPHA / DIGIT / "+" / "-" / "." )`. */
  predicate IsScheme(s: string) {
    forall i | 0 <= i < |s| ::
      IsAlpha(s[i]) || (i > 0 && (('0' <= s[i] <= '9') || s[i] == '+' || s[i] == '-' || s[i] == '.'))
  }

  /** Length of a `scheme://` prefix, or zero. One letter is a drive, not a scheme. */
  function SchemeLength(path: string): (n: nat)
    ensures n <= |path|
  {
    var p := FindSeparator(path, 0);
    if p == |path| || p < 2 || !IsScheme(path[..p]) then 0 else p + 3
  }

  lemma FindSeparatorIs(s: string, i: nat, p: nat)
    requires i <= p <= |s| && (p < |s| ==> SeparatorAt(s, p))
    requires forall k: nat | i <= k < p :: !SeparatorAt(s, k)
    ensures FindSeparator(s, i) == p
    decreases p - i
  {
    if i < p {
      FindSeparatorIs(s, i + 1, p);
    }
  }

  /** What follows the scheme does not matter to it. */
  lemma SchemeIsStable(path: string, n: nat, tail: string)
    requires n == SchemeLength(path) > 0
    ensures SchemeLength(path[..n] + tail) == n
  {
    var p, s := n - 3, path[..n] + tail;
    forall k: nat | k < p ensures !SeparatorAt(s, k) {
      assert !SeparatorAt(path, k);
    }
    assert SeparatorAt(s, p);
    FindSeparatorIs(s, 0, p);
    assert s[..p] == path[..p];
  }

  /** Without a double slash there is no scheme. */
  lemma NoScheme(s: string)
    requires !HasDoubleSlash(s)
    ensures SchemeLength(s) == 0
  {
    forall k: nat | k < |s| ensures !SeparatorAt(s, k) {
      SeparatorIsDouble(s, k);
    }
    FindSeparatorIs(s, 0, |s|);
  }

  lemma SeparatorIsDouble(s: string, k: nat)
    ensures SeparatorAt(s, k) ==> HasDoubleSlash(s)
  {
    if SeparatorAt(s, k) {
      var i := k + 1;
      assert s[i] == '/' && s[i + 1] == '/';
    }
  }

  lemma AbsoluteHasNoScheme(path: string)
    requires IsAbsolute(path)
    ensures SchemeLength(path) == 0
  {
    var p := FindSeparator(path, 0);
    if p >= 2 {
      assert path[..p][0] == '/';
    }
  }

  // ----- canonicalize -----

  function Canonicalized(path: string): string {
    var n := SchemeLength(path);
    path[..n] + Join(CanonicalComponents(Split(path[n..])))
  }

  /** The part after the scheme comes out the same the second time. */
  lemma CanonicalTailIsStable(tail: string)
    ensures var once := Join(CanonicalComponents(Split(tail)));
            Join(CanonicalComponents(Split(once))) == once && !HasDoubleSlash(once)
  {
    var c := CanonicalComponents(Split(tail));
    SplitIsProper(tail);
    CanonicalComponentsAreCanonical(Split(tail));
    SplitJoin(c);
    JoinHasNoDoubleSlash(c);
    if c != [""] {
      FoldKeeps([], c, |c| == 1);
      assert [] + c == c;
    }
  }

  /** Canonicalize is idempotent on every string, and keeps a URI scheme as it is. */
  lemma CanonicalizeIsIdempotent(path: string)
    ensures Canonicalized(Canonicalized(path)) == Canonicalized(path)
    ensures SchemeLength(Canonicalized(path)) == SchemeLength(path)
    ensures Canonicalized(path)[..SchemeLength(path)] == path[..SchemeLength(path)]
  {
    var n := SchemeLength(path);
    var once := Join(CanonicalComponents(Split(path[n..])));
    CanonicalTailIsStable(path[n..]);
    var s := Canonicalized(path);
    assert s == path[..n] + once && s[..n] == path[..n] && s[n..] == once;
    if n > 0 {
      SchemeIsStable(path, n, once);
    } else {
      assert s == once;
      NoScheme(s);
    }
  }

  // ----- make relative -----

  function CommonPrefix(a: Components, b: Components): (n: nat)
    ensures n <= |a| && n <= |b| && a[..n] == b[..n]
    ensures n < |a| && n < |b| ==> a[n] != b[n]
  {
    if a == [] || b == [] || a[0] != b[0] then 0 else
    var n := 1 + CommonPrefix(a[1..], b[1..]);
    assert a[..n] == [a[0]] + a[1..][..n - 1] && b[..n] == [b[0]] + b[1..][..n - 1];
    n
  }

  lemma {:induction false} CommonPrefixIs(a: Components, b: Components, n: nat)
    requires n <= |a| && n <= |b| && a[..n] == b[..n]
    requires n < |a| && n < |b| ==> a[n] != b[n]
    ensures CommonPrefix(a, b) == n
  {
    if n > 0 {
      assert a[0] == a[..n][0] == b[..n][0] == b[0];
      assert a[1..][..n - 1] == a[..n][1..] && b[1..][..n - 1] == b[..n][1..];
      CommonPrefixIs(a[1..], b[1..], n - 1);
    }
  }

  function Ups(k: nat): Components {
    seq(k, _ => "..")
  }

  /** The components MakeRelative joins. */
  function RelativeComponents(path: string, base: string): Components {
    var p, b := Split(path), Split(base);
    var n := CommonPrefix(p, b);
    if IsAbsolute(path) && IsAbsolute(base) && n > 0 then Ups(|b| - n) + p[n..] else p
  }

  function Relative(path: string, base: string): string {
    Join(RelativeComponents(path, base))
  }

  ghost predicate NoDots(c: Components) {
    forall i | 0 <= i < |c| :: c[i] != "." && c[i] != ".."
  }

  lemma {:induction false} FoldAppend(kept: Components, a: Components, b: Components, alone: bool)
    ensures Fold(kept, a + b, alone) == Fold(Fold(kept, a, alone), b, alone)
    decreases |a|
  {
    if a == [] {
      assert a + b == b;
    } else {
      FoldAppend(Push(kept, a[0], alone), a[1..], b, alone);
      assert (a + b)[1..] == a[1..] + b;
    }
  }

  lemma {:induction false} FoldPlain(kept: Components, rest: Components, alone: bool)
    requires NoDots(rest)
    ensures Fold(kept, rest, alone) == kept + rest
    decreases |rest|
  {
    if rest != [] {
      FoldPlain(kept + [rest[0]], rest[1..], alone);
      assert kept + [rest[0]] + rest[1..] == kept + rest;
    }
  }

  lemma {:induction false} FoldUps(kept: Components, k: nat, alone: bool)
    requires k <= |kept|
    ensures Fold(kept, Ups(k), alone) == kept[..|kept| - k]
    decreases k
  {
    if k > 0 {
      assert Ups(k)[1..] == Ups(k - 1);
      FoldUps(kept[..|kept| - 1], k - 1, alone);
    }
  }

  /** Going up from the base to the common part and down again. */
  lemma UpAndDown(p: Components, b: Components, n: nat, alone: bool)
    requires n <= |p| && n <= |b| && p[..n] == b[..n] && NoDots(p) && NoDots(b)
    ensures Fold([], b + (Ups(|b| - n) + p[n..]), alone) == p
  {
    FoldAppend([], b, Ups(|b| - n) + p[n..], alone);
    FoldPlain([], b, alone);
    assert [] + b == b;
    FoldAppend(b, Ups(|b| - n), p[n..], alone);
    FoldUps(b, |b| - n, alone);
    FoldPlain(b[..n], p[n..], alone);
    assert p[..n] + p[n..] == p;
  }

  /** Between absolute paths, no component of the relative path is empty. */
  lemma RelativeIsProper(path: string, base: string)
    requires IsAbsolute(path) && IsAbsolute(base)
    ensures var p, b := Split(path), Split(base);
            var n := CommonPrefix(p, b);
            n > 0 && RelativeComponents(path, base) == Ups(|b| - n) + p[n..]
    ensures Proper(RelativeComponents(path, base))
    ensures forall c | c in RelativeComponents(path, base) :: c != ""
  {
    var p, b := Split(path), Split(base);
    assert p[0] == b[0] == "";
    PiecesAreProper(path);
    SplitIsProper(path);
    var n := CommonPrefix(p, b);
    var r := Ups(|b| - n) + p[n..];
    forall i | 0 <= i < |r| ensures '/' !in r[i] && r[i] != "" {
      if i >= |b| - n {
        assert r[i] == p[n + i - (|b| - n)];
      }
    }
  }

  /** MakeRelative is undone by the fold of Canonicalize: from the components of the base
      followed by those of the relative path, it makes the components of the path. */
  lemma RelativeIsUndone(path: string, base: string)
    requires IsAbsolute(path) && IsAbsolute(base) && NoDots(Split(path)) && NoDots(Split(base))
    ensures CanonicalComponents(Split(base) + Split(Relative(path, base))) == Split(path)
  {
    var p, b, r := Split(path), Split(base), RelativeComponents(path, base);
    RelativeIsProper(path, base);
    SplitJoin(r);
    assert "" !in r && "" in [""];
    UpAndDown(p, b, CommonPrefix(p, b), |b + r| == 1);
  }

  lemma SplitCombined(base: string, tail: string)
    requires IsAbsolute(base) && !IsAbsolute(tail)
    ensures IsAbsolute(base + "/" + tail) && Split(base + "/" + tail) == Split(base) + Split(tail)
  {
    PiecesConcat(base, tail);
  }

  lemma CanonicalizedAbsolute(path: string)
    requires IsAbsolute(path)
    ensures Canonicalized(path) == Join(CanonicalComponents(Split(path)))
  {
    AbsoluteHasNoScheme(path);
    assert path[0..] == path;
  }

  /** In terms of strings: resolving the relative path against the base leads to the path. */
  lemma RelativeResolves(path: string, base: string)
    requires IsAbsolute(path) && IsAbsolute(base) && NoDots(Split(path)) && NoDots(Split(base))
    ensures Canonicalized(base + "/" + Relative(path, base)) == Canonicalized(path)
  {
    var c, r := Split(path), RelativeComponents(path, base);
    RelativeIsUndone(path, base);
    RelativeIsProper(path, base);
    assert !IsAbsolute(Join(r)) by {
      if r != [] {
        assert r[0] in r;
        PiecesOfJoin(r);
        assert r[0][0] in r[0];
      }
    }
    SplitCombined(base, Join(r));
    CanonicalizedAbsolute(base + "/" + Join(r));
    CanonicalizedAbsolute(path);
    FoldPlain([], c, |c| == 1);
    assert [] + c == c;
  }

  // ----- the methods -----

  /** SplitNativePath has dealt with `path` up to `pos`, with a component begun at `start`. */
  ghost predicate SplitUpTo(path: string, parts: Components, start: nat, pos: nat) {
    && start <= pos <= |path| && '/' !in path[start..pos]
    && (if pos == 0 then parts == [] else Split(path) == parts + Pieces(path[start..]))
  }

  lemma SplitAtChar(path: string, parts: Components, start: nat, pos: nat)
    requires SplitUpTo(path, parts, start, pos) && pos < |path| && path[pos] != '/'
    ensures SplitUpTo(path, parts, start, pos + 1)
  {
    assert path[start..pos + 1] == path[start..pos] + [path[pos]];
    if pos == 0 {
      assert path[0..] == path && parts + Pieces(path) == Pieces(path);
    }
  }

  lemma SplitAtSlash(path: string, parts: Components, start: nat, pos: nat)
    requires SplitUpTo(path, parts, start, pos) && pos < |path| && path[pos] == '/'
    ensures SplitUpTo(path, parts + if pos != start || pos == 0 then [path[start..pos]] else [], pos + 1, pos + 1)
  {
    var s := path[start..];
    assert s[pos - start..] == path[pos..] && s[..pos - start] == path[start..pos];
    if pos != start {
      FirstPiece(s, pos - start);
      assert s[pos - start + 1..] == path[pos + 1..];
    } else {
      assert s[0] == '/' && s[1..] == path[pos + 1..];
      assert path[0..0] == "";
    }
  }

  lemma SplitAtEnd(path: string, parts: Components, start: nat)
    requires SplitUpTo(path, parts, start, |path|)
    ensures Split(path) == parts + if start != |path| then [path[start..]] else []
  {
    var s := path[start..];
    if s != "" {
      assert s[..|s|] == s == path[start..|path|];
      FirstPiece(s, |s|);
    }
  }

  method SplitNativePath(path: string) returns (parts: Components)
    ensures parts == Split(path)
  {
    parts := [];
    var start: nat, pos: nat := 0, 0;
    while pos < |path|
      invariant pos <= |path| && SplitUpTo(path, parts, start, pos)
    {
      if path[pos] != '/' {
        SplitAtChar(path, parts, start, pos);
        pos := pos + 1;
      } else {
        SplitAtSlash(path, parts, start, pos);
        parts := parts + if pos != start || pos == 0 then [path[start..pos]] else [];
        pos := pos + 1;
        start := pos;
      }
    }
    SplitAtEnd(path, parts, start);
    if start != pos {
      parts := parts + [path[start..]];
    }
  }

  lemma {:induction false} JoinSnoc(c: Components, x: string)
    ensures Join(c + [x]) == (if c == [] then "" else Join(c) + "/") + x
  {
    if c == [] {
      assert c + [x] == [x];
    } else {
      JoinSnoc(c[1..], x);
      assert (c + [x])[1..] == c[1..] + [x];
      if |c| == 1 {
        assert c[1..] == [];
      }
    }
  }

  /** `StringUtil::JoinString` with a slash. */
  method JoinNativePath(c: Components) returns (r: string)
    ensures r == Join(c)
  {
    r := "";
    for i := 0 to |c|
      invariant r == Join(c[..i])
    {
      JoinSnoc(c[..i], c[i]);
      assert c[..i + 1] == c[..i] + [c[i]];
      if i != 0 {
        r := r + "/";
      }
      r := r + c[i];
    }
    assert c[..|c|] == c;
  }

  method GetURISchemeLength(str: string) returns (n: nat)
    ensures n == SchemeLength(str)
  {
    var pos := FindSeparator(str, 0);
    if pos == |str| || pos < 2 {
      return 0;
    }
    for i := 0 to pos
      invariant IsScheme(str[..i])
    {
      var ch := str[i];
      assert str[..i + 1] == str[..i] + [ch] && str[..pos][i] == ch;
      if !IsAlpha(ch) && !(i > 0 && (('0' <= ch <= '9') || ch == '+' || ch == '-' || ch == '.')) {
        return 0;
      }
    }
    return pos + 3;
  }

  method Canonicalize(path: string) returns (r: string)
    ensures r == Canonicalized(path)
  {
    var n := GetURISchemeLength(path);
    var components := SplitNativePath(path[n..]);
    var kept: Components := [];
    ghost var alone := |components| == 1;
    for i := 0 to |components|
      invariant Fold([], components, alone) == Fold(kept, components[i..], alone)
    {
      var c := components[i];
      assert components[i..][0] == c && components[i..][1..] == components[i + 1..];
      ghost var next := Push(kept, c, alone);
      if c == "." {
        if |components| == 1 {
          kept := kept + [c];
        }
      } else if c == ".." {
        if kept != [] {
          kept := kept[..|kept| - 1];
        } else {
          kept := kept + [c];
        }
      } else {
        kept := kept + [c];
      }
      assert kept == next;
    }
    r := JoinNativePath(kept);
    r := path[..n] + r;
  }

  method MakeRelative(path: string, base: string) returns (r: string)
    ensures r == Relative(path, base)
  {
    var p := SplitNativePath(path);
    var b := SplitNativePath(base);
    var c: Components := p;
    if IsAbsolute(path) && IsAbsolute(base) {
      var same := 0;
      while same < |p| && same < |b| && p[same] == b[same]
        invariant same <= |p| && same <= |b| && p[..same] == b[..same]
      {
        same := same + 1;
      }
      CommonPrefixIs(p, b, same);
      if same > 0 {
        c := [];
        for i := 0 to |b| - same
          invariant c == Ups(i)
        {
          c := c + [".."];
        }
        for i := same to |p|
          invariant c == Ups(|b| - same) + p[same..i]
        {
          c := c + [p[i]];
        }
        assert p[same..|p|] == p[same..];
      }
    }
    assert c == RelativeComponents(path, base);
    r := JoinNativePath(c);
  }
}
