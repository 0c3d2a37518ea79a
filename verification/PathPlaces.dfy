/**
  What a path means, and when `Canonicalize` keeps it. A place is the list of names from the
  root down to it; a path leads from the place one is at to another. The parent of the root is
  the root.
 */
module PathPlaces {
  import opened Arithmetic
  import opened Paths

  type Place = seq<string>

  function WalkOne(at: Place, c: string): Place {
    if c == "" then []
    else if c == "." then at
    else if c == ".." then (if at == [] then [] else at[..|at| - 1])
    else at + [c]
  }

  /** Where the components lead from `at`. */
  function Walk(at: Place, c: Components): Place
    decreases |c|
  {
    if c == [] then at else Walk(WalkOne(at, c[0]), c[1..])
  }

  /** The two lists lead to the same place from everywhere at least `n` levels down. */
  ghost predicate SamePlace(a: Components, b: Components, n: nat) {
    forall at: Place | |at| >= n :: Walk(at, a) == Walk(at, b)
  }

  // ----- how far up and down a path goes -----

  function Rise(c: string): int {
    if c == "" || c == "." then 0 else if c == ".." then -1 else 1
  }

  /** Names minus `..` in all. */
  function Depth(c: Components): int {
    if c == [] then 0 else Rise(c[0]) + Depth(c[1..])
  }

  /** The least value that names minus `..` has on the way. */
  function Low(c: Components): (low: int)
    ensures -|c| <= low <= 0
  {
    if c == [] then 0 else Min(0, Rise(c[0]) + Low(c[1..]))
  }

  ghost predicate NoRoot(c: Components) {
    forall i | 0 <= i < |c| :: c[i] != ""
  }

  lemma {:induction false} WalkAppend(at: Place, a: Components, b: Components)
    ensures Walk(at, a + b) == Walk(Walk(at, a), b)
    decreases |a|
  {
    if a == [] {
      assert a + b == b;
    } else {
      WalkAppend(WalkOne(at, a[0]), a[1..], b);
      assert (a + b)[1..] == a[1..] + b;
    }
  }

  lemma {:induction false} DepthAppend(a: Components, b: Components)
    ensures Depth(a + b) == Depth(a) + Depth(b)
  {
    if a == [] {
      assert a + b == b;
    } else {
      DepthAppend(a[1..], b);
      assert (a + b)[1..] == a[1..] + b;
    }
  }

  /** From deep enough down, a path without a root leads as many levels down as it says. */
  lemma {:induction false} WalkDeep(at: Place, c: Components)
    requires NoRoot(c) && |at| + Low(c) >= 0
    ensures |Walk(at, c)| == |at| + Depth(c)
    decreases |c|
  {
    if c != [] {
      WalkDeep(WalkOne(at, c[0]), c[1..]);
    }
  }

  // ----- what Canonicalize keeps of a path without a root -----

  /** Components kept so far: names, after at most one `..`. */
  ghost predicate Kept(c: Components) {
    && (forall i | 0 <= i < |c| :: c[i] != "" && c[i] != ".")
    && (forall i | 0 < i < |c| :: c[i] != "..")
  }

  lemma {:induction false} KeptDepth(kept: Components)
    requires Kept(kept)
    ensures Depth(kept) == if kept != [] && kept[0] == ".." then |kept| - 2 else |kept|
  {
    if kept != [] {
      KeptDepth(kept[1..]);
    }
  }

  /** The step that goes wrong: `..` after a single `..`, which takes it away. */
  predicate BadStep(kept: Components, c: string) {
    kept == [".."] && c == ".."
  }

  lemma WalkLast(at: Place, kept: Components, c: string)
    ensures Walk(at, kept + [c]) == WalkOne(Walk(at, kept), c)
    ensures Depth(kept + [c]) == Depth(kept) + Rise(c)
  {
    WalkAppend(at, kept, [c]);
    DepthAppend(kept, [c]);
    assert [c][1..] == [];
  }

  /** Any other step leads where the component leads. */
  lemma PushStep(at: Place, kept: Components, c: string)
    requires Kept(kept) && c != ""
    ensures var next := Push(kept, c, false);
            && Kept(next)
            && Depth(next) == Depth(kept) + Rise(c) + (if BadStep(kept, c) then 2 else 0)
            && (!BadStep(kept, c) ==> Walk(at, next) == WalkOne(Walk(at, kept), c))
  {
    if c == ".." && kept != [] {
      var n := |kept| - 1;
      assert kept == kept[..n] + [kept[n]];
      WalkLast(at, kept[..n], kept[n]);
    } else if c != "." {
      WalkLast(at, kept, c);
    }
    KeptDepth(kept);
  }

  /** While the path does not go more than one level above its start, folding keeps where it
      leads. */
  lemma {:induction false} FoldKeepsPlace(at: Place, kept: Components, rest: Components)
    requires Kept(kept) && NoRoot(rest) && Depth(kept) + Low(rest) >= -1
    ensures Walk(at, Fold(kept, rest, false)) == Walk(Walk(at, kept), rest)
    decreases |rest|
  {
    if rest != [] {
      PushStep(at, kept, rest[0]);
      KeptDepth(kept);
      FoldKeepsPlace(at, Push(kept, rest[0], false), rest[1..]);
    }
  }

  /** If it does, what is kept ends up less far up than the path. */
  lemma {:induction false} FoldDepth(kept: Components, rest: Components)
    requires Kept(kept) && NoRoot(rest)
    ensures var k := Fold(kept, rest, false);
            && Kept(k) && Depth(k) >= Depth(kept) + Depth(rest)
            && (Depth(kept) + Low(rest) < -1 ==> Depth(k) > Depth(kept) + Depth(rest))
    decreases |rest|
  {
    KeptDepth(kept);
    if rest != [] {
      PushStep([], kept, rest[0]);
      FoldDepth(Push(kept, rest[0], false), rest[1..]);
    }
  }

  /** From deep enough down, the fold of Canonicalize is the walk. */
  lemma {:induction false} FoldIsWalk(at: Place, c: Components)
    requires NoRoot(c) && |at| + Low(c) >= 0
    ensures Fold(at, c, false) == Walk(at, c)
    decreases |c|
  {
    if c != [] {
      FoldIsWalk(WalkOne(at, c[0]), c[1..]);
    }
  }

  function Deep(n: nat): (at: Place)
    ensures |at| == n
  {
    seq(n, _ => "x")
  }

  /** The component fold keeps where a path without a root leads if and only if the path never
      goes more than one level above its start. */
  lemma RelativeKeepsPlaceIff(c: Components, n: nat)
    requires NoRoot(c)
    ensures NoRoot(CanonicalComponents(c))
    ensures SamePlace(CanonicalComponents(c), c, n) <==> Low(c) >= -1
  {
    var k := CanonicalComponents(c);
    if |c| == 1 {
      assert c[1..] == [];
      assert k == Fold(Push([], c[0], true), c[1..], true);
      assert Push([], c[0], true) == [c[0]] == c;
    } else {
      FoldDepth([], c);
      if Low(c) >= -1 {
        forall at: Place | |at| >= n ensures Walk(at, k) == Walk(at, c) {
          FoldKeepsPlace(at, [], c);
        }
      } else {
        var at := Deep(n + |c| + |k|);
        WalkDeep(at, c);
        WalkDeep(at, k);
        assert Walk(at, k) != Walk(at, c);
      }
    }
  }

  /** The same in terms of the fold alone: folded onto any list deep enough for both, what
      Canonicalize keeps has the effect of what it was given. */
  lemma RelativeKeepsFoldIff(c: Components)
    requires NoRoot(c)
    ensures var k := CanonicalComponents(c);
            (forall base: Place | |base| + Low(c) >= 0 && |base| + Low(k) >= 0 :: Fold(base, k, false) == Fold(base, c, false))
            <==> Low(c) >= -1
  {
    var k := CanonicalComponents(c);
    var n := |c| + |k|;
    RelativeKeepsPlaceIff(c, n);
    RelativeKeepsPlaceIff(c, 0);
    forall base: Place | |base| + Low(c) >= 0 && |base| + Low(k) >= 0
      ensures Fold(base, k, false) == Walk(base, k) && Fold(base, c, false) == Walk(base, c)
    {
      FoldIsWalk(base, c);
      FoldIsWalk(base, k);
    }
    if Low(c) < -1 {
      var base: Place :| |base| >= n && Walk(base, k) != Walk(base, c);
      assert Fold(base, k, false) != Fold(base, c, false);
    }
  }

  // ----- absolute paths -----

  ghost predicate Names(c: Components) {
    NoRoot(c) && NoDots(c)
  }

  lemma {:induction false} WalkNames(at: Place, c: Components)
    requires Names(c)
    ensures Walk(at, c) == at + c
    decreases |c|
  {
    if c != [] {
      WalkNames(at + [c[0]], c[1..]);
      assert at + [c[0]] + c[1..] == at + c;
    }
  }

  lemma PushOnRoot(stack: Place, c: string)
    requires Names(stack) && c != "" && |stack| + Rise(c) >= 0
    ensures Push([""] + stack, c, false) == [""] + WalkOne(stack, c) && Names(WalkOne(stack, c))
  {
    if c == ".." {
      assert ([""] + stack)[..|stack|] == [""] + stack[..|stack| - 1];
    } else if c != "." {
      assert [""] + stack + [c] == [""] + (stack + [c]);
    }
  }

  /** While an absolute path does not go above the root, the fold keeps the root and the names
      of the place. Once it has, the root is gone for good. */
  lemma {:induction false} FoldFromRoot(stack: Place, rest: Components)
    requires Names(stack) && NoRoot(rest)
    ensures |stack| + Low(rest) >= 0 ==>
              Fold([""] + stack, rest, false) == [""] + Walk(stack, rest) && Names(Walk(stack, rest))
    ensures |stack| + Low(rest) < 0 ==> NoRoot(Fold([""] + stack, rest, false))
    decreases |rest|
  {
    if rest != [] {
      if |stack| + Rise(rest[0]) >= 0 {
        PushOnRoot(stack, rest[0]);
        FoldFromRoot(WalkOne(stack, rest[0]), rest[1..]);
      } else {
        assert [""] + stack == [""];
        assert Push([""] + stack, rest[0], false) == [];
        FoldDepth([], rest[1..]);
      }
    }
  }

  lemma FoldAbsolute(p: Components)
    requires NoRoot(p)
    ensures CanonicalComponents([""] + p) == Fold([""], p, false)
    ensures forall at: Place :: Walk(at, [""] + p) == Walk([], p)
  {
    var c := [""] + p;
    assert c[0] == "" && c[1..] == p;
    assert Push([], "", p == []) == [""];
    assert Fold([], c, p == []) == Fold([""], p, p == []);
  }

  /** A path without a root leads to different places from different levels, and an absolute
      one does not. */
  lemma RootlessIsElsewhere(s: Components, p: Components, n: nat)
    requires NoRoot(s) && NoRoot(p)
    ensures !SamePlace(s, [""] + p, n)
  {
    var at, lower := Deep(n + |s|), Deep(n + |s| + 1);
    WalkDeep(at, s);
    WalkDeep(lower, s);
    FoldAbsolute(p);
    assert Walk(at, [""] + p) == Walk([], p) == Walk(lower, [""] + p);
  }

  /** For an absolute path with pieces `p`: the canonical path is still absolute, and leads to
      the same place, if and only if the path never goes above the root and does not end there. */
  lemma AbsoluteKeepsPlaceIff(p: Components, n: nat)
    requires Proper([""] + p)
    ensures var s := Join(CanonicalComponents([""] + p));
            && (IsAbsolute(s) <==> Low(p) >= 0 && Depth(p) > 0)
            && (SamePlace(Split(s), [""] + p, n) <==> Low(p) >= 0 && Depth(p) > 0)
  {
    var c := [""] + p;
    assert forall i | 0 <= i < |p| :: p[i] == c[i + 1];
    var k := CanonicalComponents(c);
    CanonicalComponentsAreCanonical(c);
    FoldAbsolute(p);
    FoldFromRoot([], p);
    assert [""] + [] == [""];
    SplitJoin(k);
    if Low(p) >= 0 && Depth(p) > 0 {
      KeptRoot(p, k, n);
    } else {
      LostRoot(p, k);
      RootlessIsElsewhere(Split(Join(k)), p, n);
    }
  }

  lemma KeptRoot(p: Components, k: Components, n: nat)
    requires NoRoot(p) && Low(p) >= 0 && Depth(p) > 0
    requires k == [""] + Walk([], p) && Names(Walk([], p))
    ensures IsAbsolute(Join(k)) && SamePlace(k, [""] + p, n) && k != [""]
  {
    WalkDeep([], p);
    assert Join(k)[0] == '/';
    FoldAbsolute(p);
    FoldAbsolute(k[1..]);
    assert k == [""] + k[1..];
    WalkNames([], k[1..]);
    forall at: Place | |at| >= n ensures Walk(at, k) == Walk(at, [""] + p) {
      assert Walk(at, [""] + p) == Walk([], p);
      assert Walk(at, [""] + k[1..]) == Walk([], k[1..]);
    }
  }

  lemma LostRoot(p: Components, k: Components)
    requires NoRoot(p) && Proper(k) && !(Low(p) >= 0 && Depth(p) > 0)
    requires Low(p) >= 0 ==> k == [""] + Walk([], p)
    requires Low(p) < 0 ==> NoRoot(k)
    ensures !IsAbsolute(Join(k)) && NoRoot(Split(Join(k)))
  {
    if Low(p) >= 0 {
      WalkDeep([], p);
      assert k == [""];
    } else {
      RootlessIsRelative(k);
    }
  }

  lemma RootlessIsRelative(k: Components)
    requires Proper(k) && NoRoot(k)
    ensures !IsAbsolute(Join(k)) && Split(Join(k)) == k
  {
    SplitJoin(k);
    if k != [] {
      PiecesOfJoin(k);
      assert k[0][0] in k[0];
    } else {
      assert Join(k) == "";
    }
  }

  // ----- canonicalize -----

  /** The part of a path that is not its scheme. */
  function Tail(path: string): string {
    path[SchemeLength(path)..]
  }

  /** What a caller can see beforehand: an absolute path stays below the root and does not end
      at it, a relative one goes up at most one level above its start. */
  predicate KeepsPlace(tail: string) {
    if IsAbsolute(tail) then Low(Pieces(tail)) >= 0 && Depth(Pieces(tail)) > 0
    else Low(Pieces(tail)) >= -1
  }

  lemma TailKeepsPlaceIff(tail: string, n: nat)
    ensures var s := Join(CanonicalComponents(Split(tail)));
            && (SamePlace(Split(s), Split(tail), n) <==> KeepsPlace(tail))
            && (IsAbsolute(s) <==> IsAbsolute(tail) && KeepsPlace(tail))
  {
    PiecesAreProper(tail);
    SplitIsProper(tail);
    var p := Pieces(tail);
    if IsAbsolute(tail) {
      AbsoluteKeepsPlaceIff(p, n);
    } else {
      assert Split(tail) == p;
      RelativeKeepsPlaceIff(p, n);
      CanonicalComponentsAreCanonical(p);
      RootlessIsRelative(CanonicalComponents(p));
    }
  }

  /** For every path, with or without a scheme: the canonical path leads to the same place
      (from everywhere at least `n` levels down, for any `n`) if and only if the path keeps
      within the limits above; and it is absolute if and only if the path is and keeps within
      them. */
  lemma CanonicalizeKeepsPlaceIff(path: string, n: nat)
    ensures SamePlace(Split(Tail(Canonicalized(path))), Split(Tail(path)), n) <==> KeepsPlace(Tail(path))
    ensures IsAbsolute(Tail(Canonicalized(path))) <==> IsAbsolute(Tail(path)) && KeepsPlace(Tail(path))
  {
    TailKeepsPlaceIff(Tail(path), n);
    CanonicalizeIsIdempotent(path);
    assert Tail(Canonicalized(path)) == Join(CanonicalComponents(Split(Tail(path))));
  }

  /** Canonicalize on a path given by its components. */
  lemma FromComponents(path: string, c: Components)
    requires Proper(c) && c != [""] && path == Join(c)
    ensures Split(path) == c && Canonicalized(path) == Join(CanonicalComponents(c))
  {
    SplitJoin(c);
    JoinHasNoDoubleSlash(c);
    NoScheme(path);
    assert path[..0] == "" && path[0..] == path;
  }

  /** A second `..` at the start takes the first one away. */
  lemma TwoLevelsUp(path: string, n: nat)
    requires path == "../.."
    ensures Canonicalized(path) == ""
    ensures !SamePlace(Split(Canonicalized(path)), Split(path), n)
  {
    var c := ["..", ".."];
    assert path == c[0] + "/" + c[1];
    JoinOfTwo(c);
    FromComponents(path, c);
    assert c[1..] == [".."] && c[1..][1..] == [];
    assert Low(c) == -2;
    RelativeKeepsPlaceIff(c, n);
    assert CanonicalComponents(c) == [];
    assert Split("") == [];
  }

  lemma JoinOfTwo(c: Components)
    requires |c| == 2
    ensures Join(c) == c[0] + "/" + c[1]
  {
  }

  /** `..` at the root takes the root away. */
  lemma AboveRoot(path: string, n: nat)
    requires path == "/.."
    ensures Canonicalized(path) == ""
    ensures !SamePlace(Split(Canonicalized(path)), Split(path), n)
  {
    var c := ["", ".."];
    assert path == c[0] + "/" + c[1];
    JoinOfTwo(c);
    FromComponents(path, c);
    FoldAbsolute([".."]);
    assert c == [""] + [".."];
    assert CanonicalComponents(c) == [] by {
      assert [".."][1..] == [];
    }
    assert Split("") == [];
    RootlessIsElsewhere([], [".."], n);
  }

  /** So a path below the root becomes one below wherever the program runs. */
  lemma BesideRoot(path: string, n: nat)
    requires path == "/../a"
    ensures Canonicalized(path) == "a"
    ensures !SamePlace(Split(Canonicalized(path)), Split(path), n)
  {
    var c, p := ["", "..", "a"], ["..", "a"];
    assert c == [""] + p && c[1..] == p;
    JoinOfTwo(p);
    assert Join(c) == "" + "/" + Join(p);
    assert path == "" + "/" + (".." + "/" + "a");
    FromComponents(path, c);
    FoldAbsolute(p);
    assert p[1..] == ["a"] && ["a"][1..] == [];
    assert CanonicalComponents(c) == ["a"];
    SplitJoin(["a"]);
    RootlessIsElsewhere(["a"], p, n);
  }

  /** And the root itself becomes the empty path. */
  lemma RootAlone(path: string, n: nat)
    requires path == "/"
    ensures Canonicalized(path) == ""
    ensures !SamePlace(Split(Canonicalized(path)), Split(path), n)
  {
    AbsoluteHasNoScheme(path);
    assert path[0] == '/' && path[1..] == "" && path[0..] == path;
    assert Pieces(path) == Pieces("") == [];
    assert Split(path) == [""] + [];
    FoldAbsolute([]);
    assert CanonicalComponents(Split(path)) == [""];
    RootlessIsElsewhere([], [], n);
  }
}
