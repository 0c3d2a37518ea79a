/**
  Extraction of the index bits of a BC7 block (the BPTC chapter of the Khronos Data Format
  Specification). The code inserts a zero bit at the top of every anchor index and then cuts
  the word into fields of one width; the specification has a reader that takes one bit fewer
  at each anchor.
 */
module Bc7Index {
  import opened Arithmetic
  import opened Bc7Modes

  // ----- bits of a number -----

  /** `x >> n`. */
  function ShiftRight(x: nat, n: nat): nat
    decreases n, x
  {
    if n == 0 then x else ShiftRight(x / 2, n - 1)
  }

  /** `x & ((1 << n) - 1)`. */
  function LowBits(x: nat, n: nat): (r: nat)
    ensures r <= x
    decreases n, x
  {
    if n == 0 then 0 else x % 2 + 2 * LowBits(x / 2, n - 1)
  }

  function Bit(x: nat, k: nat): nat
    decreases k, x
  {
    if k == 0 then x % 2 else Bit(x / 2, k - 1)
  }

  lemma {:induction false} BitOfZero(k: nat)
    ensures Bit(0, k) == 0
  {
    if k > 0 {
      BitOfZero(k - 1);
    }
  }

  lemma {:induction false} BitOfLow(x: nat, n: nat, k: nat)
    ensures Bit(LowBits(x, n), k) == if k < n then Bit(x, k) else 0
  {
    if n == 0 {
      BitOfZero(k);
    } else if k > 0 {
      BitOfLow(x / 2, n - 1, k - 1);
    }
  }

  lemma {:induction false} BitOfShift(x: nat, n: nat, k: nat)
    ensures Bit(ShiftRight(x, n), k) == Bit(x, n + k)
  {
    if n > 0 {
      BitOfShift(x / 2, n - 1, k);
    }
  }

  lemma {:induction false} ShiftShift(x: nat, n: nat, m: nat)
    ensures ShiftRight(ShiftRight(x, n), m) == ShiftRight(x, n + m)
  {
    if n > 0 {
      ShiftShift(x / 2, n - 1, m);
    }
  }

  /** Fields with the same bits are the same. */
  lemma {:induction false} SameBits(x: nat, y: nat, n: nat)
    requires forall k: nat | k < n :: Bit(x, k) == Bit(y, k)
    ensures LowBits(x, n) == LowBits(y, n)
  {
    if n > 0 {
      assert Bit(x, 0) == Bit(y, 0);
      forall k: nat | k < n - 1 ensures Bit(x / 2, k) == Bit(y / 2, k) {
        assert Bit(x, k + 1) == Bit(y, k + 1);
      }
      SameBits(x / 2, y / 2, n - 1);
    }
  }

  /** A field whose top bit is zero is one bit narrower. */
  lemma {:induction false} TopBitZero(x: nat, n: nat)
    requires n > 0 && Bit(x, n - 1) == 0
    ensures LowBits(x, n) == LowBits(x, n - 1)
  {
    if n == 1 {
      assert LowBits(x / 2, 0) == 0;
    } else {
      TopBitZero(x / 2, n - 1);
    }
  }

  // ----- inserting a zero bit -----

  /** `((x & ~LOW) << 1) | (x & LOW)` in 64 bits, where LOW covers the bits below `p`: what
      `insert_weight_zero` does at bit `p`. */
  function InsertZero(x: nat, p: nat): nat {
    LowBits(2 * (x - LowBits(x, p)) + LowBits(x, p), 64)
  }

  /** The same before it is cut to 64 bits, bit by bit. */
  function Widened(x: nat, p: nat): nat
    decreases p
  {
    if p == 0 then 2 * x else x % 2 + 2 * Widened(x / 2, p - 1)
  }

  lemma {:induction false} WidenedIs(x: nat, p: nat)
    ensures Widened(x, p) == 2 * (x - LowBits(x, p)) + LowBits(x, p)
  {
    if p > 0 {
      WidenedIs(x / 2, p - 1);
    }
  }

  lemma {:induction false} WidenedBit(x: nat, p: nat, k: nat)
    ensures Bit(Widened(x, p), k) == if k < p then Bit(x, k) else if k == p then 0 else Bit(x, k - 1)
  {
    if p > 0 && k > 0 {
      WidenedBit(x / 2, p - 1, k - 1);
    }
  }

  lemma InsertedBit(x: nat, p: nat, k: nat)
    requires k < 64
    ensures Bit(InsertZero(x, p), k) == if k < p then Bit(x, k) else if k == p then 0 else Bit(x, k - 1)
  {
    WidenedIs(x, p);
    WidenedBit(x, p, k);
    BitOfLow(Widened(x, p), 64, k);
  }

  ghost predicate Ascending(s: seq<nat>) {
    forall i, j | 0 <= i < j < |s| :: s[i] < s[j]
  }

  /** Zeros inserted at `places` in turn. */
  function InsertAll(x: nat, places: seq<nat>): nat {
    if places == [] then x else
    InsertZero(InsertAll(x, places[..|places| - 1]), places[|places| - 1])
  }

  function CountBelow(s: seq<nat>, k: nat): (n: nat)
    ensures n <= |s|
  {
    if s == [] then 0 else CountBelow(s[..|s| - 1], k) + if s[|s| - 1] < k then 1 else 0
  }

  lemma {:induction false} AllBelow(s: seq<nat>, k: nat)
    requires forall i | 0 <= i < |s| :: s[i] < k
    ensures CountBelow(s, k) == |s|
  {
    if s != [] {
      AllBelow(s[..|s| - 1], k);
    }
  }

  /** A list in ascending order, its last element and a number compared with it. */
  lemma AscendingLast(places: seq<nat>, k: nat)
    requires Ascending(places) && places != []
    ensures var before, p := places[..|places| - 1], places[|places| - 1];
            && Ascending(before)
            && (k in places <==> k in before || k == p)
            && (k >= p ==> k !in before && CountBelow(before, k) == |before|)
  {
    var before, p := places[..|places| - 1], places[|places| - 1];
    assert places == before + [p];
    if k >= p {
      AllBelow(before, k);
    }
  }

  /** Bit `k` of `word` is a zero at a place, and else the bit of `x` that many places down. */
  ghost predicate BitMoved(word: nat, x: nat, places: seq<nat>, k: nat) {
    CountBelow(places, k) <= k && Bit(word, k) == if k in places then 0 else Bit(x, k - CountBelow(places, k))
  }

  /** `word` is `x` with zeros at `places`, as far as its bits below 64 tell. */
  ghost predicate ZerosAt(word: nat, x: nat, places: seq<nat>) {
    forall k: nat | k < 64 :: BitMoved(word, x, places, k)
  }

  /** One more zero, above all those there are. */
  lemma OneMoreZero(word: nat, x: nat, before: seq<nat>, p: nat, k: nat)
    requires ZerosAt(word, x, before) && Ascending(before + [p]) && k < 64
    ensures BitMoved(InsertZero(word, p), x, before + [p], k)
  {
    var places := before + [p];
    assert places[..|before|] == before;
    InsertedBit(word, p, k);
    AscendingLast(places, k);
    assert BitMoved(word, x, before, k);
    if k > p {
      AscendingLast(places, k - 1);
      assert BitMoved(word, x, before, k - 1);
    }
  }

  lemma {:induction false} InsertAllBits(x: nat, places: seq<nat>)
    requires Ascending(places)
    ensures ZerosAt(InsertAll(x, places), x, places)
  {
    if places != [] {
      var before, p := places[..|places| - 1], places[|places| - 1];
      assert places == before + [p];
      InsertAllBits(x, before);
      forall k: nat | k < 64 ensures BitMoved(InsertAll(x, places), x, places, k) {
        OneMoreZero(InsertAll(x, before), x, before, p, k);
      }
    }
  }

  // ----- anchors -----

  /** The first bit of index `i` when all are `width` bits wide. */
  function Start(width: nat, i: nat): nat {
    if i == 0 then 0 else Start(width, i - 1) + width
  }

  lemma {:induction false} StartIsProduct(width: nat, i: nat)
    ensures Start(width, i) == width * i
  {
    if i > 0 {
      StartIsProduct(width, i - 1);
      assert width * i == width * (i - 1) + width;
    }
  }

  lemma {:induction false} StartGrows(width: nat, a: nat, b: nat)
    requires a < b
    ensures Start(width, a) + width <= Start(width, b)
    decreases b
  {
    if a < b - 1 {
      StartGrows(width, a, b - 1);
    }
  }

  /** The bit where the zero for anchor `a` goes, `bits_per_index * (offset + 1) - 1`: the top
      one of the index. */
  function TopBit(width: nat, a: nat): (p: nat)
    requires width > 0
    ensures p == Start(width, a) + width - 1
  {
    StartIsProduct(width, a);
    assert width * (a + 1) == width * a + width;
    width * (a + 1) - 1
  }

  function TopBits(width: nat, anchors: seq<nat>): (places: seq<nat>)
    requires width > 0
    ensures |places| == |anchors| && forall t | 0 <= t < |anchors| :: places[t] == TopBit(width, anchors[t])
  {
    if anchors == [] then [] else TopBits(width, anchors[..|anchors| - 1]) + [TopBit(width, anchors[|anchors| - 1])]
  }

  /** Where the top bit of index `a` lies relative to bit `j` of index `i`. */
  lemma TopBitOrder(width: nat, a: nat, i: nat, j: nat)
    requires j < width
    ensures TopBit(width, a) < Start(width, i) + j <==> a < i
    ensures TopBit(width, a) == Start(width, i) + j <==> a == i && j == width - 1
  {
    if a < i {
      StartGrows(width, a, i);
    } else if i < a {
      StartGrows(width, i, a);
    }
  }

  lemma TopBitsAscend(width: nat, anchors: seq<nat>)
    requires width > 0 && Ascending(anchors)
    ensures Ascending(TopBits(width, anchors))
  {
    var places := TopBits(width, anchors);
    forall s, t | 0 <= s < t < |places| ensures places[s] < places[t] {
      TopBitOrder(width, anchors[s], anchors[t], width - 1);
    }
  }

  /** The zeros below bit `j` of index `i` are those of the anchors before `i`. */
  lemma {:induction false} ZerosBelow(width: nat, anchors: seq<nat>, i: nat, j: nat)
    requires j < width
    ensures CountBelow(TopBits(width, anchors), Start(width, i) + j) == CountBelow(anchors, i)
  {
    if anchors != [] {
      var n := |anchors| - 1;
      assert TopBits(width, anchors)[..n] == TopBits(width, anchors[..n]);
      ZerosBelow(width, anchors[..n], i, j);
      TopBitOrder(width, anchors[n], i, j);
    }
  }

  lemma {:induction false} ZeroHere(width: nat, anchors: seq<nat>, i: nat, j: nat)
    requires j < width
    ensures Start(width, i) + j in TopBits(width, anchors) <==> i in anchors && j == width - 1
  {
    if anchors != [] {
      var n := |anchors| - 1;
      assert anchors == anchors[..n] + [anchors[n]];
      ZeroHere(width, anchors[..n], i, j);
      TopBitOrder(width, anchors[n], i, j);
    }
  }

  /** Bit `j` of index `i` after the insertions: zero on top of an anchor, and else the bit of
      the original word that many anchors further down. */
  lemma IndexBit(x: nat, width: nat, anchors: seq<nat>, i: nat, j: nat)
    requires j < width && Start(width, i) + j < 64 && Ascending(anchors)
    ensures CountBelow(anchors, i) <= Start(width, i) + j
    ensures Bit(InsertAll(x, TopBits(width, anchors)), Start(width, i) + j)
            == if i in anchors && j == width - 1 then 0 else Bit(x, Start(width, i) + j - CountBelow(anchors, i))
  {
    TopBitsAscend(width, anchors);
    InsertAllBits(x, TopBits(width, anchors));
    assert BitMoved(InsertAll(x, TopBits(width, anchors)), x, TopBits(width, anchors), Start(width, i) + j);
    ZerosBelow(width, anchors, i, j);
    ZeroHere(width, anchors, i, j);
  }

  // ----- the two ways of reading -----

  /** The reader of the specification: one bit fewer at each anchor. */
  function ReadIndices(bits: nat, width: nat, anchors: seq<nat>, i: nat): seq<nat>
    requires width > 0
    decreases 16 - i, bits
  {
    if i >= 16 then [] else
    var n := if i in anchors then width - 1 else width;
    [LowBits(bits, n)] + ReadIndices(ShiftRight(bits, n), width, anchors, i + 1)
  }

  /** Fields of one width. */
  function CutFields(word: nat, width: nat, i: nat): seq<nat>
    decreases 16 - i, word
  {
    if i >= 16 then [] else [LowBits(word, width)] + CutFields(ShiftRight(word, width), width, i + 1)
  }

  lemma {:induction false} OneMoreBelow(anchors: seq<nat>, i: nat)
    requires Ascending(anchors)
    ensures CountBelow(anchors, i + 1) == CountBelow(anchors, i) + if i in anchors then 1 else 0
  {
    if anchors != [] {
      var n := |anchors| - 1;
      OneMoreBelow(anchors[..n], i);
      assert anchors == anchors[..n] + [anchors[n]];
    }
  }

  /** Index `i` starts at bit `at` of the word with the zeros and at bit `pos` of the original. */
  ghost predicate StartsAt(width: nat, anchors: seq<nat>, i: nat, at: nat, pos: nat) {
    at == Start(width, i) && pos == at - CountBelow(anchors, i)
  }

  /** The word with the zeros in it. */
  ghost predicate HasZeros(word: nat, x: nat, width: nat, anchors: seq<nat>) {
    width > 0 && word == InsertAll(x, TopBits(width, anchors))
  }

  lemma ShiftedIndexBit(word: nat, x: nat, width: nat, anchors: seq<nat>, i: nat, at: nat, pos: nat, j: nat)
    requires j < width && at + j < 64 && Ascending(anchors) && StartsAt(width, anchors, i, at, pos)
    requires HasZeros(word, x, width, anchors)
    ensures Bit(ShiftRight(word, at), j) == if i in anchors && j == width - 1 then 0 else Bit(ShiftRight(x, pos), j)
  {
    IndexBit(x, width, anchors, i, j);
    BitOfShift(word, at, j);
    BitOfShift(x, pos, j);
    assert at + j - CountBelow(anchors, i) == pos + j;
  }

  /** One field and one read agree. */
  lemma SameIndex(word: nat, x: nat, width: nat, anchors: seq<nat>, i: nat, at: nat, pos: nat)
    requires at + width <= 64 && Ascending(anchors) && StartsAt(width, anchors, i, at, pos)
    requires HasZeros(word, x, width, anchors)
    ensures LowBits(ShiftRight(word, at), width)
            == LowBits(ShiftRight(x, pos), if i in anchors then width - 1 else width)
  {
    var field, bits := ShiftRight(word, at), ShiftRight(x, pos);
    forall j: nat | j < width
      ensures Bit(field, j) == if i in anchors && j == width - 1 then 0 else Bit(bits, j)
    {
      ShiftedIndexBit(word, x, width, anchors, i, at, pos, j);
    }
    SameField(field, bits, width, i in anchors);
  }

  lemma SameField(field: nat, bits: nat, width: nat, anchor: bool)
    requires 0 < width
    requires forall j: nat | j < width :: Bit(field, j) == if anchor && j == width - 1 then 0 else Bit(bits, j)
    ensures LowBits(field, width) == LowBits(bits, if anchor then width - 1 else width)
  {
    if anchor {
      TopBitZero(field, width);
      SameBits(field, bits, width - 1);
    } else {
      SameBits(field, bits, width);
    }
  }

  lemma StepOn(width: nat, anchors: seq<nat>, i: nat, at: nat, pos: nat)
    requires 0 < width <= 4 && Ascending(anchors) && i < 16 && StartsAt(width, anchors, i, at, pos)
    ensures at + width <= 64
    ensures StartsAt(width, anchors, i + 1, at + width, pos + if i in anchors then width - 1 else width)
  {
    StartGrows(width, i, 16);
    StartIsProduct(width, 16);
    OneMoreBelow(anchors, i);
  }

  lemma OneIndexMore(word: nat, bits: nat, width: nat, anchors: seq<nat>, i: nat, n: nat)
    requires width > 0 && i < 16 && n == (if i in anchors then width - 1 else width)
    requires LowBits(word, width) == LowBits(bits, n)
    requires CutFields(ShiftRight(word, width), width, i + 1) == ReadIndices(ShiftRight(bits, n), width, anchors, i + 1)
    ensures CutFields(word, width, i) == ReadIndices(bits, width, anchors, i)
  {
  }

  lemma {:induction false} SameFromHere(word: nat, x: nat, width: nat, anchors: seq<nat>, i: nat, at: nat, pos: nat)
    requires 0 < width <= 4 && Ascending(anchors) && i <= 16 && StartsAt(width, anchors, i, at, pos)
    requires HasZeros(word, x, width, anchors)
    ensures CutFields(ShiftRight(word, at), width, i) == ReadIndices(ShiftRight(x, pos), width, anchors, i)
    decreases 16 - i
  {
    if i < 16 {
      var n := if i in anchors then width - 1 else width;
      StepOn(width, anchors, i, at, pos);
      SameFromHere(word, x, width, anchors, i + 1, at + width, pos + n);
      SameIndex(word, x, width, anchors, i, at, pos);
      ShiftShift(word, at, width);
      ShiftShift(x, pos, n);
      OneIndexMore(ShiftRight(word, at), ShiftRight(x, pos), width, anchors, i, n);
    }
  }

  /** Inserting zeros at the anchors and cutting fields of one width is what a reader sees that
      reads one bit fewer at each anchor. */
  lemma InsertingIsReading(x: nat, width: nat, anchors: seq<nat>)
    requires 0 < width <= 4 && Ascending(anchors)
    ensures CutFields(InsertAll(x, TopBits(width, anchors)), width, 0) == ReadIndices(x, width, anchors, 0)
  {
    NoneBelow(anchors);
    SameFromHere(InsertAll(x, TopBits(width, anchors)), x, width, anchors, 0, 0, 0);
  }

  lemma {:induction false} NoneBelow(anchors: seq<nat>)
    ensures CountBelow(anchors, 0) == 0
  {
    if anchors != [] {
      NoneBelow(anchors[..|anchors| - 1]);
    }
  }

  /** `insert_weight_zero` for every anchor in turn. */
  method InsertZeros(chunk: nat, width: nat, anchors: seq<nat>) returns (word: nat)
    requires 0 < width
    ensures word == InsertAll(chunk, TopBits(width, anchors))
  {
    word := chunk;
    ghost var places := TopBits(width, anchors);
    for t := 0 to |anchors|
      invariant word == InsertAll(chunk, places[..t])
    {
      assert places[..t + 1][..t] == places[..t];
      word := InsertZero(word, width * (anchors[t] + 1) - 1);
    }
    assert places[..|anchors|] == places;
  }

  /** One field off the bottom leaves the others. */
  lemma CutOne(done: seq<nat>, word: nat, width: nat, i: nat, all: seq<nat>)
    requires i < 16 && done + CutFields(word, width, i) == all
    ensures done + [LowBits(word, width)] + CutFields(ShiftRight(word, width), width, i + 1) == all
  {
    var rest := CutFields(ShiftRight(word, width), width, i + 1);
    assert done + [LowBits(word, width)] + rest == done + ([LowBits(word, width)] + rest);
  }

  /** Sixteen fields off the bottom of the word. */
  method CutIndices(chunk: nat, width: nat) returns (weights: seq<nat>)
    ensures weights == CutFields(chunk, width, 0)
  {
    var word, i := chunk, 0;
    ghost var all := CutFields(chunk, width, i);
    weights := [];
    while i < 16
      invariant i <= 16
      invariant weights + CutFields(word, width, i) == all
    {
      CutOne(weights, word, width, i, all);
      weights := weights + [LowBits(word, width)];
      word := ShiftRight(word, width);
      i := i + 1;
    }
  }

  method ExtractIndices(chunk: nat, width: nat, anchors: seq<nat>) returns (weights: seq<nat>)
    requires 0 < width <= 4 && Ascending(anchors)
    ensures weights == ReadIndices(chunk, width, anchors, 0)
  {
    InsertingIsReading(chunk, width, anchors);
    var word := InsertZeros(chunk, width, anchors);
    weights := CutIndices(word, width);
  }

  // ----- where the indices lie in a block -----

  lemma {:induction false} ShiftLow(x: nat, m: nat, n: nat)
    requires n <= m
    ensures ShiftRight(LowBits(x, m), n) == LowBits(ShiftRight(x, n), m - n)
  {
    if n > 0 {
      ShiftLow(x / 2, m - 1, n - 1);
    }
  }

  lemma {:induction false} LowLow(x: nat, m: nat, n: nat)
    requires n <= m
    ensures LowBits(LowBits(x, m), n) == LowBits(x, n)
  {
    if n > 0 {
      LowLow(x / 2, m - 1, n - 1);
      var half := LowBits(x / 2, m - 1);
      assert LowBits(x, m) == x % 2 + 2 * half;
      assert (x % 2 + 2 * half) / 2 == half && (x % 2 + 2 * half) % 2 == x % 2;
    }
  }

  lemma {:induction false} Rejoin(x: nat, n: nat)
    ensures LowBits(x, n) + Pow2(n) * ShiftRight(x, n) == x
  {
    if n > 0 {
      Rejoin(x / 2, n - 1);
      assert Pow2(n) * ShiftRight(x, n) == 2 * (Pow2(n - 1) * ShiftRight(x / 2, n - 1));
    }
  }

  /** `(low >> 50) | (high << 14)` is the block from bit 50 on. */
  lemma Straddle(block: nat)
    ensures ShiftRight(LowBits(block, 64), 50) + 0x4000 * ShiftRight(block, 64) == ShiftRight(block, 50)
  {
    ShiftLow(block, 64, 50);
    ShiftShift(block, 50, 14);
    Rejoin(ShiftRight(block, 50), 14);
    assert Pow2(14) == 0x4000 by {
      assert Pow2(2) == 4 && Pow2(4) == 16 && Pow2(6) == 64 && Pow2(8) == 256;
      assert Pow2(10) == 1024 && Pow2(12) == 4096;
    }
  }

  /** The reader takes no more than `16 * width` bits, so it does not see where a word was cut. */
  lemma {:induction false} ReadFromCut(bits: nat, m: nat, width: nat, anchors: seq<nat>, i: nat)
    requires 0 < width && i <= 16 && Start(width, 16 - i) <= m
    ensures ReadIndices(LowBits(bits, m), width, anchors, i) == ReadIndices(bits, width, anchors, i)
    decreases 16 - i
  {
    if i < 16 {
      var n := if i in anchors then width - 1 else width;
      LowLow(bits, m, n);
      ShiftLow(bits, m, n);
      ReadFromCut(ShiftRight(bits, n), m - n, width, anchors, i + 1);
    }
  }

  /** `g_bc7_table_anchor_index_second_subset` */
  function SecondSubsetAnchor(part: nat): (a: nat)
    requires part < 64
    ensures 0 < a < 16
  {
    if part < 16 then [15, 15, 15, 15, 15, 15, 15, 15, 15, 15, 15, 15, 15, 15, 15, 15][part]
    else if part < 32 then [15, 2, 8, 2, 2, 8, 8, 15, 2, 8, 2, 2, 8, 8, 2, 2][part - 16]
    else if part < 48 then [15, 15, 6, 8, 2, 8, 15, 15, 2, 8, 2, 2, 2, 15, 15, 6][part - 32]
    else [6, 2, 6, 8, 15, 15, 2, 2, 15, 15, 15, 15, 15, 2, 2, 15][part - 48]
  }

  /** `g_bc7_table_anchor_index_third_subset_1` */
  function ThirdSubsetAnchor1(part: nat): (a: nat)
    requires part < 64
    ensures 0 < a < 16
  {
    if part < 16 then [3, 3, 15, 15, 8, 3, 15, 15, 8, 8, 6, 6, 6, 5, 3, 3][part]
    else if part < 32 then [3, 3, 8, 15, 3, 3, 6, 10, 5, 8, 8, 6, 8, 5, 15, 15][part - 16]
    else if part < 48 then [8, 15, 3, 5, 6, 10, 8, 15, 15, 3, 15, 5, 15, 15, 15, 15][part - 32]
    else [3, 15, 5, 5, 5, 8, 5, 10, 5, 10, 8, 13, 15, 12, 3, 3][part - 48]
  }

  /** `g_bc7_table_anchor_index_third_subset_2` */
  function ThirdSubsetAnchor2(part: nat): (a: nat)
    requires part < 64
    ensures 0 < a < 16
  {
    if part < 16 then [15, 8, 8, 3, 15, 15, 3, 8, 15, 15, 15, 15, 15, 15, 15, 8][part]
    else if part < 32 then [15, 8, 15, 3, 15, 8, 15, 8, 3, 15, 6, 10, 15, 15, 10, 8][part - 16]
    else if part < 48 then [15, 3, 15, 10, 10, 8, 9, 10, 6, 15, 8, 15, 3, 6, 6, 8][part - 32]
    else [15, 3, 15, 15, 15, 15, 15, 15, 15, 15, 15, 15, 3, 15, 15, 8][part - 48]
  }

  lemma DifferInFirstHalf(part: nat)
    requires part < 32
    ensures ThirdSubsetAnchor1(part) != ThirdSubsetAnchor2(part)
  {
  }

  lemma DifferInSecondHalf(part: nat)
    requires 32 <= part < 64
    ensures ThirdSubsetAnchor1(part) != ThirdSubsetAnchor2(part)
  {
  }

  /** The two anchors of a three-subset partition are different indices. */
  lemma ThirdSubsetAnchorsDiffer(part: nat)
    requires part < 64
    ensures ThirdSubsetAnchor1(part) != ThirdSubsetAnchor2(part)
  {
    if part < 32 {
      DifferInFirstHalf(part);
    } else {
      DifferInSecondHalf(part);
    }
  }

  /** Index width, first index bit in the block, and where the partition number lies, for the
      modes with one set of indices made of subsets. */
  predicate HasPartition(mode: nat) {
    mode == 0 || mode == 1 || mode == 2 || mode == 3 || mode == 7
  }

  function IndexWidth(mode: nat): nat {
    if mode <= 1 then 3 else 2
  }

  function IndexOffset(mode: nat): nat {
    if mode == 0 then 83 else if mode == 1 then 82 else if mode == 2 then 99 else 98
  }

  /** The partition number follows the mode bits. */
  function Partition(mode: nat, block: nat): (part: nat)
    ensures part < 64
  {
    SixBits(ShiftRight(block, mode + 1));
    if mode == 0 then LowBits(ShiftRight(block, mode + 1), 4) else LowBits(ShiftRight(block, mode + 1), 6)
  }

  lemma SixBits(x: nat)
    ensures LowBits(x, 4) < 64 && LowBits(x, 6) < 64
  {
    Rejoin(x, 0);
    LowBelow(x, 4);
    LowBelow(x, 6);
    assert Pow2(2) == 4 && Pow2(4) == 16 && Pow2(6) == 64;
  }

  lemma {:induction false} LowBelow(x: nat, n: nat)
    ensures LowBits(x, n) < Pow2(n)
  {
    if n > 0 {
      LowBelow(x / 2, n - 1);
    }
  }

  /** The anchors: the first index, and one for each further subset. */
  function Anchors(mode: nat, part: nat): seq<nat>
    requires part < 64
  {
    if mode == 0 || mode == 2 then
      [0, Min(ThirdSubsetAnchor1(part), ThirdSubsetAnchor2(part)), Max(ThirdSubsetAnchor1(part), ThirdSubsetAnchor2(part))]
    else [0, SecondSubsetAnchor(part)]
  }

  lemma AnchorsAscend(mode: nat, part: nat)
    requires part < 64
    ensures Ascending(Anchors(mode, part))
  {
    ThirdSubsetAnchorsDiffer(part);
  }

  /** How far the code shifts the high half of the block to get at the indices. */
  function WeightsShift(mode: nat): nat
    requires HasPartition(mode)
  {
    if mode == 0 || mode == 2 then 67 - 16 * IndexWidth(mode) else if mode == 1 then 18 else 34
  }

  lemma IndicesInBlock(mode: nat, block: nat)
    requires HasPartition(mode)
    ensures ShiftRight(ShiftRight(block, 64), WeightsShift(mode)) == ShiftRight(block, IndexOffset(mode))
  {
    ShiftShift(block, 64, WeightsShift(mode));
  }

  /** The anchors of the specification: the first index of each of `ns` subsets. */
  function SubsetAnchors(ns: nat, part: nat): seq<nat>
    requires part < 64
  {
    if ns == 3 then [0, ThirdSubsetAnchor1(part), ThirdSubsetAnchor2(part)]
    else if ns == 2 then [0, SecondSubsetAnchor(part)]
    else [0]
  }

  /** The partition number of a block, as many bits of it as the mode has. */
  function PartitionNumber(mode: nat, block: nat): (part: nat)
    requires mode < 8
    ensures part < 64
  {
    SixBits(ShiftRight(block, PartitionAt(mode)));
    LowBits(ShiftRight(block, PartitionAt(mode)), Info(mode).pb)
  }

  /** What the specification reads: from the first index bit of the mode on, one bit fewer at the
      first index of each subset. */
  function BlockIndices(mode: nat, block: nat): seq<nat>
    requires mode < 8
  {
    ReadIndices(ShiftRight(block, IndexAt(mode)), Info(mode).ib,
                SubsetAnchors(Info(mode).ns, PartitionNumber(mode, block)), 0)
  }

  /** The second set of indices, in the modes that have one. */
  function SecondBlockIndices(mode: nat, block: nat): seq<nat>
    requires mode < 8 && Info(mode).ib2 > 0
  {
    ReadIndices(ShiftRight(block, SecondIndexAt(mode)), Info(mode).ib2, [0], 0)
  }

  /** The order in which anchors are listed does not matter to the reader. */
  lemma {:induction false} ReadSameAnchors(bits: nat, width: nat, anchors: seq<nat>, others: seq<nat>, i: nat)
    requires width > 0 && forall k :: k in anchors <==> k in others
    ensures ReadIndices(bits, width, anchors, i) == ReadIndices(bits, width, others, i)
    decreases 16 - i
  {
    if i < 16 {
      var n := if i in anchors then width - 1 else width;
      ReadSameAnchors(ShiftRight(bits, n), width, anchors, others, i + 1);
    }
  }

  lemma WidthFromTable(mode: nat)
    requires HasPartition(mode)
    ensures IndexWidth(mode) == Info(mode).ib
  {
  }

  lemma OffsetFromTable(mode: nat)
    requires HasPartition(mode)
    ensures IndexOffset(mode) == IndexAt(mode)
  {
    match mode
    case 0 => assert Info(0).EndPoints() == 78;
    case 1 => assert Info(1).EndPoints() == 74;
    case 2 => assert Info(2).EndPoints() == 90;
    case 3 => assert Info(3).EndPoints() == 88;
    case 7 => assert Info(7).EndPoints() == 84;
  }

  lemma SubsetsFromTable(mode: nat)
    requires HasPartition(mode)
    ensures Info(mode).ns == if mode == 0 || mode == 2 then 3 else 2
  {
  }

  lemma PartitionFromTable(mode: nat, block: nat)
    requires HasPartition(mode)
    ensures Partition(mode, block) == PartitionNumber(mode, block)
  {
    assert Info(mode).pb == if mode == 0 then 4 else 6;
  }

  lemma SameAnchors(mode: nat, ns: nat, part: nat)
    requires part < 64 && ns == if mode == 0 || mode == 2 then 3 else 2
    ensures forall k :: k in Anchors(mode, part) <==> k in SubsetAnchors(ns, part)
  {
  }

  /** What the code reads, with its own offset and width. */
  function CodeIndices(mode: nat, block: nat): seq<nat> {
    ReadIndices(ShiftRight(block, IndexOffset(mode)), IndexWidth(mode), Anchors(mode, Partition(mode, block)), 0)
  }

  lemma SameReading(mode: nat, block: nat, at: nat, width: nat, ns: nat, part: nat)
    requires at == IndexOffset(mode) && width == IndexWidth(mode) && part == Partition(mode, block)
    requires ns == if mode == 0 || mode == 2 then 3 else 2
    ensures CodeIndices(mode, block) == ReadIndices(ShiftRight(block, at), width, SubsetAnchors(ns, part), 0)
  {
    SameAnchors(mode, ns, part);
    ReadSameAnchors(ShiftRight(block, at), width, Anchors(mode, part), SubsetAnchors(ns, part), 0);
  }

  /** The code's offsets, widths, partition number and anchors are those of the mode table. */
  lemma CodeFollowsTable(mode: nat, block: nat)
    requires HasPartition(mode)
    ensures CodeIndices(mode, block) == BlockIndices(mode, block)
  {
    WidthFromTable(mode);
    OffsetFromTable(mode);
    SubsetsFromTable(mode);
    PartitionFromTable(mode, block);
    SameReading(mode, block, IndexAt(mode), Info(mode).ib, Info(mode).ns, PartitionNumber(mode, block));
  }

  /** The weights of a block in modes 0 to 3 and 7. */
  method UnpackWeights(mode: nat, block: nat) returns (weights: seq<nat>)
    requires HasPartition(mode)
    ensures weights == BlockIndices(mode, block)
  {
    CodeFollowsTable(mode, block);
    weights := ReadChunk(mode, block);
  }

  method ReadChunk(mode: nat, block: nat) returns (weights: seq<nat>)
    requires HasPartition(mode)
    ensures weights == CodeIndices(mode, block)
  {
    var part := Partition(mode, block);
    IndicesInBlock(mode, block);
    AnchorsAscend(mode, part);
    weights := ExtractIndices(ShiftRight(ShiftRight(block, 64), WeightsShift(mode)), IndexWidth(mode), Anchors(mode, part));
  }

  /** The colour and alpha indices of modes 4 and 5 as the specification reads them. */
  function DualIndices(block: nat, offset: nat, width: nat): seq<nat>
    requires width > 0
  {
    ReadIndices(ShiftRight(block, offset), width, [0], 0)
  }

  lemma DualChunks(block: nat, low: nat, high: nat)
    requires low == LowBits(block, 64) && high == ShiftRight(block, 64)
    ensures ReadIndices(LowBits(ShiftRight(low, 50) + 0x4000 * high, 64), 2, [0], 0) == DualIndices(block, 50, 2)
    ensures ReadIndices(ShiftRight(high, 17), 3, [0], 0) == DualIndices(block, 81, 3)
    ensures ReadIndices(ShiftRight(high, 2), 2, [0], 0) == DualIndices(block, 66, 2)
    ensures ReadIndices(ShiftRight(high, 33), 2, [0], 0) == DualIndices(block, 97, 2)
    ensures LowBits(ShiftRight(low, 7), 1) == Bit(block, 7)
  {
    Straddle(block);
    StartIsProduct(2, 16);
    ReadFromCut(ShiftRight(block, 50), 64, 2, [0], 0);
    ShiftShift(block, 64, 17);
    ShiftShift(block, 64, 2);
    ShiftShift(block, 64, 33);
    BitOfLow(block, 64, 7);
    BitOfShift(low, 7, 0);
    assert LowBits(ShiftRight(low, 7) / 2, 0) == 0;
  }

  /** The offsets and widths of the code for the two sets of indices. */
  function CodeDual(mode: nat, block: nat): (seq<nat>, seq<nat>) {
    var first := if mode == 4 then DualIndices(block, 50, 2) else DualIndices(block, 66, 2);
    var second := if mode == 4 then DualIndices(block, 81, 3) else DualIndices(block, 97, 2);
    if mode == 4 && Bit(block, 7) == 1 then (second, first) else (first, second)
  }

  /** What the specification reads: colour and alpha take the first and the second set, or the
      other way round if the mode has an index selection bit and it is set. */
  function TableDual(mode: nat, block: nat): (seq<nat>, seq<nat>)
    requires mode == 4 || mode == 5
  {
    var first, second := BlockIndices(mode, block), SecondBlockIndices(mode, block);
    if Info(mode).isb == 1 && Bit(block, SelectionAt(mode)) == 1 then (second, first) else (first, second)
  }

  lemma DualTable(mode: nat)
    requires mode == 4 || mode == 5
    ensures IndexAt(mode) == (if mode == 4 then 50 else 66) && Info(mode).ib == 2 && Info(mode).ns == 1
    ensures SecondIndexAt(mode) == (if mode == 4 then 81 else 97) && Info(mode).ib2 == (if mode == 4 then 3 else 2)
    ensures if mode == 4 then Info(mode).isb == 1 && SelectionAt(mode) == 7 else Info(mode).isb == 0
  {
    match mode
    case 4 => assert Info(4).EndPoints() == 42;
    case 5 => assert Info(5).EndPoints() == 58;
  }

  lemma DualModesFollowTable(mode: nat, block: nat)
    requires mode == 4 || mode == 5
    ensures CodeDual(mode, block) == TableDual(mode, block)
  {
    DualTable(mode);
    var anchors := SubsetAnchors(Info(mode).ns, PartitionNumber(mode, block));
    assert anchors == [0];
  }

  /** The weights of a block in modes 4 and 5, which have two sets of indices; mode 4 has a bit
      that swaps them. */
  method UnpackDualWeights(mode: nat, block: nat) returns (weights: seq<nat>, alphaWeights: seq<nat>)
    requires mode == 4 || mode == 5
    ensures (weights, alphaWeights) == TableDual(mode, block)
  {
    DualModesFollowTable(mode, block);
    weights, alphaWeights := ReadBothChunks(mode, block);
  }

  method ReadBothChunks(mode: nat, block: nat) returns (weights: seq<nat>, alphaWeights: seq<nat>)
    requires mode == 4 || mode == 5
    ensures (weights, alphaWeights) == CodeDual(mode, block)
  {
    var low, high := LowBits(block, 64), ShiftRight(block, 64);
    DualChunks(block, low, high);
    var chunk := if mode == 4 then LowBits(ShiftRight(low, 50) + 0x4000 * high, 64) else ShiftRight(high, 2);
    var alphaChunk := if mode == 4 then ShiftRight(high, 17) else ShiftRight(high, 33);
    var alphaWidth := if mode == 4 then 3 else 2;
    var indexMode := if mode == 4 then LowBits(ShiftRight(low, 7), 1) else 0;
    if indexMode == 1 {
      weights := ExtractIndices(alphaChunk, alphaWidth, [0]);
      alphaWeights := ExtractIndices(chunk, 2, [0]);
    } else {
      weights := ExtractIndices(chunk, 2, [0]);
      alphaWeights := ExtractIndices(alphaChunk, alphaWidth, [0]);
    }
  }

  /** The bit fields of mode 6: the first index three bits from bit 1 of the high half on, the
      others four bits each. */
  function ModeSixWeights(block: nat): seq<nat> {
    var high := ShiftRight(block, 64);
    seq(16, i requires 0 <= i < 16 => if i == 0 then LowBits(ShiftRight(high, 1), 3) else LowBits(ShiftRight(high, 4 * i), 4))
  }

  lemma {:induction false} ReadOn(bits: nat, i: nat, j: nat)
    requires 0 < i <= j < 16
    ensures |ReadIndices(bits, 4, [0], i)| == 16 - i
    ensures ReadIndices(bits, 4, [0], i)[j - i] == LowBits(ShiftRight(bits, 4 * (j - i)), 4)
    decreases 16 - i
  {
    if i < j {
      ReadOn(ShiftRight(bits, 4), i + 1, j);
      ShiftShift(bits, 4, 4 * (j - i - 1));
    } else if i < 15 {
      ReadOn(ShiftRight(bits, 4), i + 1, i + 1);
    } else {
      assert ReadIndices(ShiftRight(bits, 4), 4, [0], 16) == [];
    }
  }

  lemma SixFromTable(mode: nat)
    requires mode == 6
    ensures Info(mode).ib == 4 && Info(mode).ns == 1 && IndexAt(mode) == 65
  {
    assert Info(6) == Mode(1, 0, 0, 0, 7, 7, 1, 0, 4, 0);
  }

  lemma ReadFirst(bits: nat, width: nat)
    requires width > 0
    ensures ReadIndices(bits, width, [0], 0) == [LowBits(bits, width - 1)] + ReadIndices(ShiftRight(bits, width - 1), width, [0], 1)
  {
  }

  lemma FieldOfModeSix(block: nat, j: nat)
    requires 0 < j < 16
    ensures ShiftRight(ShiftRight(ShiftRight(block, 65), 3), 4 * (j - 1)) == ShiftRight(ShiftRight(block, 64), 4 * j)
  {
    ShiftShift(block, 65, 3);
    ShiftShift(block, 68, 4 * (j - 1));
    ShiftShift(block, 64, 4 * j);
  }

  lemma ModeSixFields(block: nat)
    ensures ModeSixWeights(block) == ReadIndices(ShiftRight(block, 65), 4, [0], 0)
  {
    var bits, weights := ShiftRight(block, 65), ModeSixWeights(block);
    var rest := ReadIndices(ShiftRight(bits, 3), 4, [0], 1);
    ReadFirst(bits, 4);
    ReadOn(ShiftRight(bits, 3), 1, 1);
    ShiftShift(block, 64, 1);
    forall j | 0 < j < 16 ensures weights[j] == rest[j - 1] {
      ReadOn(ShiftRight(bits, 3), 1, j);
      FieldOfModeSix(block, j);
    }
  }

  lemma SixReading(block: nat, at: nat, width: nat, ns: nat, part: nat)
    requires at == 65 && width == 4 && ns == 1 && part < 64
    ensures ModeSixWeights(block) == ReadIndices(ShiftRight(block, at), width, SubsetAnchors(ns, part), 0)
  {
    ModeSixFields(block);
  }

  /** The bit fields of mode 6 are what the reader of the specification finds. */
  lemma ModeSixIsReading(mode: nat, block: nat)
    requires mode == 6
    ensures ModeSixWeights(block) == BlockIndices(mode, block)
  {
    SixFromTable(mode);
    SixReading(block, IndexAt(mode), Info(mode).ib, Info(mode).ns, PartitionNumber(mode, block));
  }
}
