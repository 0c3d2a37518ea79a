/**
  What the rows of the side index mean to the lookup that reads them, in terms of the
  registers the TLB was written from, and what the lookup makes of them.
 */
module TlbLookup {
  import opened Arithmetic
  import opened Wrappers
  import opened TlbIndex

  // ----- the registers -----

  datatype Registers = Registers(pageMask: u32, entryHi: u32, entryLo0: u32, entryLo1: u32) {
    /** S, the scratchpad bit of EntryLo0. */
    predicate Scratchpad() { entryLo0 / 0x8000_0000 == 1 }

    /** Non-scratchpad registers that map cached memory with at least one valid half. */
    predicate MapsCached() {
      !Scratchpad() && ((Valid(entryLo0) && ModeThree(entryLo0)) || (Valid(entryLo1) && ModeThree(entryLo1)))
    }

    /** The frames of a half with cache mode 3 take in `addr`. */
    ghost predicate CachesAddress(addr: u32) {
      HalfCaches(entryLo0, pageMask, addr) || HalfCaches(entryLo1, pageMask, addr)
    }
  }

  predicate Valid(lo: u32) { lo / 2 % 2 == 1 }

  predicate ModeThree(lo: u32) { lo / 8 % 8 == 3 }

  /** Bits 6 to 25 of an EntryLo register. */
  function FrameNumber(lo: u32): nat { lo / 64 % 0x10_0000 }

  /** Bits 13 to 24 of PageMask. */
  function MaskField(pageMask: u32): nat { pageMask / 0x2000 % 0x1000 }

  predicate Bit(x: nat, k: nat) {
    if k == 0 then x % 2 == 1 else Bit(x / 2, k - 1)
  }

  ghost function Ones(x: nat, n: nat): set<nat> {
    set k: nat | k < n && Bit(x, k)
  }

  /** `s` is the address of the frame number with the bits of the mask cleared. */
  ghost predicate IsFirst(s: nat, pfn: nat, mask: nat) {
    s < WORD && s % 0x1000 == 0 && forall k: nat | k < 20 :: Bit(s / 0x1000, k) <==> Bit(pfn, k) && !Bit(mask, k)
  }

  /** One page for every setting of the bits that are one in PageMask from bit 13 up. */
  ghost function RangeSize(pageMask: u32): nat {
    0x1000 * Pow2(|Ones(pageMask / 0x2000, 19)|)
  }

  /** `size` bytes from the first address on; the end wraps around at 32 bits. */
  ghost predicate InRange(addr: u32, pfn: nat, mask: nat, size: nat) {
    exists s: nat | IsFirst(s, pfn, mask) :: s <= addr <= (s + size - 1) % WORD
  }

  ghost predicate Spans(pageMask: u32, lo: u32, addr: u32) {
    InRange(addr, FrameNumber(lo), MaskField(pageMask), RangeSize(pageMask))
  }

  ghost predicate HalfCaches(lo: u32, pageMask: u32, addr: u32) {
    ModeThree(lo) && Spans(pageMask, lo, addr)
  }

  // ----- bits -----

  lemma {:induction false} AndNotBit(x: nat, y: nat, n: nat, k: nat)
    ensures Bit(AndNot(x, y, n), k) <==> k < n && Bit(x, k) && !Bit(y, k)
    decreases n, k
  {
    if n == 0 {
      NoBit(k);
    } else if k > 0 {
      AndNotBit(x / 2, y / 2, n - 1, k - 1);
    }
  }

  lemma {:induction false} AndNotBelow(x: nat, y: nat, n: nat)
    ensures AndNot(x, y, n) < Pow2(n)
  {
    if n > 0 {
      AndNotBelow(x / 2, y / 2, n - 1);
    }
  }

  lemma {:induction false} NoBit(k: nat)
    ensures !Bit(0, k)
  {
    if k > 0 {
      NoBit(k - 1);
    }
  }

  lemma {:induction false} BitsDecide(x: nat, y: nat, n: nat)
    requires x < Pow2(n) && y < Pow2(n) && forall k: nat | k < n :: Bit(x, k) <==> Bit(y, k)
    ensures x == y
  {
    if n > 0 {
      assert Bit(x, 0) <==> Bit(y, 0);
      forall k: nat | k < n - 1 ensures Bit(x / 2, k) <==> Bit(y / 2, k) {
        assert Bit(x, k + 1) <==> Bit(y, k + 1);
      }
      BitsDecide(x / 2, y / 2, n - 1);
    }
  }

  lemma OnesSnoc(x: nat, n: nat)
    ensures |Ones(x, n + 1)| == |Ones(x, n)| + if Bit(x, n) then 1 else 0
  {
    if Bit(x, n) {
      assert Ones(x, n + 1) == Ones(x, n) + {n};
    } else {
      assert Ones(x, n + 1) == Ones(x, n);
    }
  }

  lemma {:induction false} OnesShift(x: nat, n: nat)
    ensures |Ones(x, n + 1)| == x % 2 + |Ones(x / 2, n)|
  {
    OnesSnoc(x, n);
    if n == 0 {
      assert Ones(x, 0) == {} && Ones(x / 2, 0) == {};
    } else {
      OnesShift(x, n - 1);
      OnesSnoc(x / 2, n - 1);
    }
  }

  /** The population count is the number of places where there is a one. */
  lemma {:induction false} PopCountIsOnes(x: nat, n: nat)
    requires x < Pow2(n)
    ensures PopCount(x) == |Ones(x, n)|
  {
    if n == 0 {
      assert Ones(x, 0) == {};
    } else {
      OnesShift(x, n - 1);
      PopCountIsOnes(x / 2, n - 1);
      if x == 0 {
        assert PopCount(x / 2) == 0;
      }
    }
  }

  // ----- rows and registers -----

  /** The comparison of the lookup: a half that is enabled and whose range takes in `addr`. */
  predicate Covers(r: Row, addr: u32) {
    (r.enabled1 && r.key.pfn1 <= addr <= (r.key.pfn1 + r.key.pageMask) % WORD) ||
    (r.enabled0 && r.key.pfn0 <= addr <= (r.key.pfn0 + r.key.pageMask) % WORD)
  }

  predicate Covered(rows: seq<Row>, addr: u32) {
    exists i | 0 <= i < |rows| :: Covers(rows[i], addr)
  }

  lemma PowersOfTwo()
    ensures Pow2(12) == 0x1000 && Pow2(19) == 0x8_0000 && Pow2(20) == 0x10_0000
  {
    PowerSum(10, 2);
    PowerSum(10, 9);
    PowerSum(10, 10);
  }

  lemma {:induction false} PowerSum(a: nat, b: nat)
    ensures Pow2(a + b) == Pow2(a) * Pow2(b)
  {
    if b > 0 {
      PowerSum(a, b - 1);
      assert a + b - 1 == a + (b - 1);
    }
  }

  lemma SizeIs(pageMask: u32)
    ensures RangeSize(pageMask) == ConvertPageMask(pageMask) + 1
  {
    PowersOfTwo();
    PopCountIsOnes(pageMask / 0x2000, 19);
    PowerSum(12, PopCount(pageMask / 0x2000));
  }

  /** Clearing the bits and shifting, as PFN0 and PFN1 do. */
  lemma MaskedIsFirst(pfn: nat, mask: nat, n: nat)
    requires n == 20
    ensures IsFirst(0x1000 * AndNot(pfn, mask, n), pfn, mask)
  {
    var f := AndNot(pfn, mask, n);
    PowersOfTwo();
    AndNotBelow(pfn, mask, n);
    forall k: nat | k < n ensures Bit(f, k) <==> Bit(pfn, k) && !Bit(mask, k) {
      AndNotBit(pfn, mask, n, k);
    }
    assert 0x1000 * f / 0x1000 == f && 0x1000 * f % 0x1000 == 0;
  }

  lemma FirstIsUnique(s: nat, t: nat, pfn: nat, mask: nat)
    requires IsFirst(s, pfn, mask) && IsFirst(t, pfn, mask)
    ensures s == t
  {
    PowersOfTwo();
    BitsDecide(s / 0x1000, t / 0x1000, 20);
  }

  lemma RangeIs(addr: u32, s: nat, pfn: nat, mask: nat, size: nat)
    requires IsFirst(s, pfn, mask)
    ensures InRange(addr, pfn, mask, size) <==> s <= addr <= (s + size - 1) % WORD
  {
    forall t: nat | IsFirst(t, pfn, mask) ensures s == t {
      FirstIsUnique(s, t, pfn, mask);
    }
  }

  function EntryOf(r: Registers): Entry {
    NewEntry(r.pageMask, r.entryHi, r.entryLo0, r.entryLo1)
  }

  lemma RowFields(r: Registers)
    ensures EntryOf(r).Qualifies() <==> r.MapsCached()
    ensures !r.Scratchpad() ==>
              EntryOf(r).lo0.IsCached() == ModeThree(r.entryLo0) && EntryOf(r).lo1.IsCached() == ModeThree(r.entryLo1)
  {
  }

  lemma RowKey(r: Registers)
    ensures var key := EntryOf(r).LookupKey();
            key.pageMask == ConvertPageMask(r.pageMask) &&
            key.pfn0 == 0x1000 * AndNot(FrameNumber(r.entryLo0), MaskField(r.pageMask), 20) &&
            key.pfn1 == 0x1000 * AndNot(FrameNumber(r.entryLo1), MaskField(r.pageMask), 20)
  {
  }

  lemma RowIsFirst(r: Registers)
    ensures var key := EntryOf(r).LookupKey();
            IsFirst(key.pfn0, FrameNumber(r.entryLo0), MaskField(r.pageMask)) &&
            IsFirst(key.pfn1, FrameNumber(r.entryLo1), MaskField(r.pageMask)) &&
            key.pageMask == ConvertPageMask(r.pageMask)
  {
    RowKey(r);
    MaskedIsFirst(FrameNumber(r.entryLo0), MaskField(r.pageMask), 20);
    MaskedIsFirst(FrameNumber(r.entryLo1), MaskField(r.pageMask), 20);
  }

  lemma HalfBySpans(s: nat, size: int, lo: u32, pageMask: u32, addr: u32)
    requires IsFirst(s, FrameNumber(lo), MaskField(pageMask)) && size == ConvertPageMask(pageMask)
    ensures HalfCaches(lo, pageMask, addr) <==> ModeThree(lo) && s <= addr <= (s + size) % WORD
  {
    SizeIs(pageMask);
    RangeIs(addr, s, FrameNumber(lo), MaskField(pageMask), RangeSize(pageMask));
  }

  lemma CoversBySpans(row: Row, r: Registers, addr: u32)
    requires row.enabled0 == ModeThree(r.entryLo0) && row.enabled1 == ModeThree(r.entryLo1)
    requires row.key.pageMask == ConvertPageMask(r.pageMask)
    requires IsFirst(row.key.pfn0, FrameNumber(r.entryLo0), MaskField(r.pageMask))
    requires IsFirst(row.key.pfn1, FrameNumber(r.entryLo1), MaskField(r.pageMask))
    ensures Covers(row, addr) <==> r.CachesAddress(addr)
  {
    HalfBySpans(row.key.pfn0, row.key.pageMask, r.entryLo0, r.pageMask, addr);
    HalfBySpans(row.key.pfn1, row.key.pageMask, r.entryLo1, r.pageMask, addr);
  }

  /** An entry has a row exactly when its registers map cached memory, and its row covers just
      the addresses that they say. */
  lemma RowMeansRegisters(r: Registers, addr: u32)
    ensures EntryOf(r).Qualifies() <==> r.MapsCached()
    ensures r.MapsCached() ==> (Covers(EntryOf(r).IndexRow(), addr) <==> r.CachesAddress(addr))
  {
    RowFields(r);
    if r.MapsCached() {
      RowIsFirst(r);
      CoversBySpans(EntryOf(r).IndexRow(), r, addr);
    }
  }

  // ----- what the slots hold after a run -----

  datatype RegisterWrite = RegisterWrite(slot: nat, regs: Registers)

  function ToWrites(ws: seq<RegisterWrite>): (writes: seq<Write>)
    ensures |writes| == |ws|
  {
    if ws == [] then []
    else
      var w := ws[|ws| - 1];
      ToWrites(ws[..|ws| - 1]) + [Write(w.slot, EntryOf(w.regs))]
  }

  /** The registers that were written last to slot `j`. */
  function Latest(ws: seq<RegisterWrite>, j: nat): Option<Registers> {
    if ws == [] then None
    else if ws[|ws| - 1].slot == j then Some(ws[|ws| - 1].regs)
    else Latest(ws[..|ws| - 1], j)
  }

  lemma {:induction false} EntriesAreLatest(ws: seq<RegisterWrite>, j: nat)
    requires j < ENTRIES
    ensures var entries := Run(INITIAL, ToWrites(ws)).entries;
            |entries| == ENTRIES && entries[j] == match Latest(ws, j) case None => BLANK case Some(r) => EntryOf(r)
    decreases |ws|
  {
    if ws != [] {
      var n := |ws| - 1;
      assert ToWrites(ws)[..n] == ToWrites(ws[..n]);
      EntriesAreLatest(ws[..n], j);
    }
  }

  predicate EntryCovers(e: Entry, addr: u32) {
    e.Qualifies() && Covers(e.IndexRow(), addr)
  }

  lemma {:induction false} RowsOfEntries(es: seq<Entry>, rows: seq<Row>, addr: u32)
    requires multiset(rows) == Sum(es, RowOfEntry)
    ensures Covered(rows, addr) <==> exists j | 0 <= j < |es| :: EntryCovers(es[j], addr)
  {
    if Covered(rows, addr) {
      var i :| 0 <= i < |rows| && Covers(rows[i], addr);
      assert rows[i] in multiset(rows);
      var j := InSum(es, rows[i]);
    }
    if j :| 0 <= j < |es| && EntryCovers(es[j], addr) {
      SumReplace(es, RowOfEntry, j, es[j]);
      assert es[j].IndexRow() in multiset(rows);
      var i :| 0 <= i < |rows| && rows[i] == es[j].IndexRow();
    }
  }

  ghost predicate SlotCaches(ws: seq<RegisterWrite>, j: nat, addr: u32) {
    match Latest(ws, j)
    case None => false
    case Some(r) => r.MapsCached() && r.CachesAddress(addr)
  }

  function RowsAfter(ws: seq<RegisterWrite>): seq<Row> {
    Run(INITIAL, ToWrites(ws)).rows
  }

  /** In a run in which no key is ever shared the rows cover an address if and only if the
      registers written last to some slot cache it. */
  lemma IndexMeansRegisters(ws: seq<RegisterWrite>, addr: u32)
    requires forall k | 0 <= k < |ws| :: NoSharing(Run(INITIAL, ToWrites(ws)[..k]).entries)
    ensures Covered(RowsAfter(ws), addr) <==> exists j: nat | j < ENTRIES :: SlotCaches(ws, j, addr)
  {
    RunSameRows(ToWrites(ws));
    EntriesAreLatest(ws, 0);
    forall j: nat | j < ENTRIES ensures EntryCovers(Run(INITIAL, ToWrites(ws)).entries[j], addr) <==> SlotCaches(ws, j, addr) {
      SlotMeansRegisters(ws, j, addr);
    }
    RowsMeanSlots(Run(INITIAL, ToWrites(ws)), ws, addr);
  }

  lemma RowsMeanSlots(m: Model, ws: seq<RegisterWrite>, addr: u32)
    requires SameRows(m) && |m.entries| == ENTRIES
    requires forall j: nat | j < ENTRIES :: EntryCovers(m.entries[j], addr) <==> SlotCaches(ws, j, addr)
    ensures Covered(m.rows, addr) <==> exists j: nat | j < ENTRIES :: SlotCaches(ws, j, addr)
  {
    RowsOfEntries(m.entries, m.rows, addr);
  }

  lemma SlotMeansRegisters(ws: seq<RegisterWrite>, j: nat, addr: u32)
    requires j < ENTRIES
    ensures var entries := Run(INITIAL, ToWrites(ws)).entries;
            |entries| == ENTRIES &&
            (EntryCovers(entries[j], addr) <==> SlotCaches(ws, j, addr))
  {
    EntriesAreLatest(ws, j);
    match Latest(ws, j)
    case None =>
    case Some(r) => RowMeansRegisters(r, addr);
  }

  // ----- ranges and pages -----

  /** The page frame of `addr` is the one in the register, but for the bits that are masked. */
  ghost predicate SamePage(pageMask: u32, lo: u32, addr: u32) {
    AgreeOutside(addr / 0x1000, FrameNumber(lo), MaskField(pageMask))
  }

  ghost predicate AgreeOutside(a: nat, f: nat, mask: nat) {
    forall k: nat | k < 20 :: Bit(mask, k) || (Bit(a, k) <==> Bit(f, k))
  }

  /** The range of a half is the page of its frame, for every frame and address, if and only if
      the ones of PageMask run from bit 13 up to no more than bit 24 without a gap. */
  lemma RangeIsPageIff(pageMask: u32)
    ensures (forall lo: u32, addr: u32 :: Spans(pageMask, lo, addr) <==> SamePage(pageMask, lo, addr)) <==>
            exists m: nat | m <= 12 :: pageMask / 0x2000 == LowMask(m)
  {
    if m: nat :| m <= 12 && pageMask / 0x2000 == LowMask(m) {
      forall lo: u32, addr: u32 ensures Spans(pageMask, lo, addr) <==> SamePage(pageMask, lo, addr) {
        RunOfOnes(pageMask, m, lo, addr);
      }
    }
    if forall lo: u32, addr: u32 :: Spans(pageMask, lo, addr) <==> SamePage(pageMask, lo, addr) {
      NoGap(pageMask);
    }
  }

  /** `m` ones. */
  function LowMask(m: nat): (mask: nat)
    ensures mask + 1 == Pow2(m)
  {
    if m == 0 then 0 else 2 * LowMask(m - 1) + 1
  }

  lemma {:induction false} BitsOfRun(m: nat, k: nat)
    ensures Bit(LowMask(m), k) <==> k < m
  {
    if m == 0 {
      NoBit(k);
    } else if k > 0 {
      BitsOfRun(m - 1, k - 1);
    }
  }

  lemma {:induction false} PopCountOfRun(m: nat)
    ensures PopCount(LowMask(m)) == m
  {
    if m > 0 {
      PopCountOfRun(m - 1);
    }
  }

  lemma {:induction false} PowIsMonotone(m: nat, n: nat)
    requires m <= n
    ensures Pow2(m) <= Pow2(n)
  {
    if m < n {
      PowIsMonotone(m, n - 1);
    }
  }

  lemma {:induction false} Unmasked(x: nat, n: nat)
    requires x < Pow2(n)
    ensures AndNot(x, 0, n) == x
  {
    if n > 0 {
      Unmasked(x / 2, n - 1);
    }
  }

  ghost predicate AgreeFrom(a: nat, f: nat, m: nat, n: nat) {
    forall k: nat | m <= k < n :: Bit(a, k) <==> Bit(f, k)
  }

  lemma HalvesAgree(a: nat, f: nat, m: nat, n: nat)
    requires 0 < m <= n
    ensures AgreeFrom(a, f, m, n) <==> AgreeFrom(a / 2, f / 2, m - 1, n - 1)
  {
    if AgreeFrom(a, f, m, n) {
      forall k: nat | m - 1 <= k < n - 1 ensures Bit(a / 2, k) <==> Bit(f / 2, k) {
        assert Bit(a, k + 1) <==> Bit(f, k + 1);
      }
    }
    if AgreeFrom(a / 2, f / 2, m - 1, n - 1) {
      forall k: nat | m <= k < n ensures Bit(a, k) <==> Bit(f, k) {
        assert Bit(a / 2, k - 1) <==> Bit(f / 2, k - 1);
      }
    }
  }

  /** Agreeing from bit `m` up is lying among the `Pow2(m)` numbers from the masked one on. */
  lemma {:induction false} AgreeingIsNear(a: nat, f: nat, m: nat, n: nat)
    requires m <= n && a < Pow2(n) && f < Pow2(n)
    ensures AgreeFrom(a, f, m, n) <==> AndNot(f, LowMask(m), n) <= a <= AndNot(f, LowMask(m), n) + LowMask(m)
  {
    if m == 0 {
      Unmasked(f, n);
      if AgreeFrom(a, f, 0, n) {
        BitsDecide(a, f, n);
      }
    } else {
      AgreeingIsNear(a / 2, f / 2, m - 1, n - 1);
      HalvesAgree(a, f, m, n);
    }
  }

  lemma OutsideRun(a: nat, f: nat, m: nat)
    ensures AgreeOutside(a, f, LowMask(m)) <==> AgreeFrom(a, f, m, 20)
  {
    forall k: nat ensures Bit(LowMask(m), k) <==> k < m {
      BitsOfRun(m, k);
    }
  }

  lemma RunOfOnes(pageMask: u32, m: nat, lo: u32, addr: u32)
    requires m <= 12 && pageMask / 0x2000 == LowMask(m)
    ensures Spans(pageMask, lo, addr) <==> SamePage(pageMask, lo, addr)
  {
    MaskOfRun(pageMask, m);
    PageRange(addr, FrameNumber(lo), m, 20);
  }

  lemma MaskOfRun(pageMask: u32, m: nat)
    requires m <= 12 && pageMask / 0x2000 == LowMask(m)
    ensures MaskField(pageMask) == LowMask(m) && RangeSize(pageMask) == 0x1000 * LowMask(m) + 0x1000
  {
    SmallField(pageMask, m);
    PopCountOfRun(m);
    RangeOfRun(pageMask, m);
  }

  lemma SmallField(pageMask: u32, m: nat)
    requires m <= 12 && pageMask / 0x2000 == LowMask(m)
    ensures MaskField(pageMask) == LowMask(m)
  {
    PowersOfTwo();
    PowIsMonotone(m, 12);
  }

  lemma PageRange(addr: u32, f: nat, m: nat, n: nat)
    requires m <= n == 20 && f < 0x10_0000
    ensures InRange(addr, f, LowMask(m), 0x1000 * LowMask(m) + 0x1000) <==> AgreeOutside(addr / 0x1000, f, LowMask(m))
  {
    PowersOfTwo();
    OutsideRun(addr / 0x1000, f, m);
    AgreeingIsNear(addr / 0x1000, f, m, n);
    MaskedEnd(f, m, n);
    MaskedIsFirst(f, LowMask(m), n);
    RangeIs(addr, 0x1000 * AndNot(f, LowMask(m), n), f, LowMask(m), 0x1000 * LowMask(m) + 0x1000);
    RunEnd(AndNot(f, LowMask(m), n), LowMask(m), addr);
  }

  lemma RangeOfRun(pageMask: u32, m: nat)
    requires PopCount(pageMask / 0x2000) == m
    ensures RangeSize(pageMask) == 0x1000 * LowMask(m) + 0x1000
  {
    PowersOfTwo();
    PopCountIsOnes(pageMask / 0x2000, 19);
  }

  lemma RunEnd(s: nat, mask: nat, addr: u32)
    requires s + mask < 0x10_0000
    ensures s <= addr / 0x1000 <= s + mask <==> 0x1000 * s <= addr <= (0x1000 * s + (0x1000 * mask + 0xFFF)) % WORD
  {
  }

  lemma {:induction false} MaskedEnd(f: nat, m: nat, n: nat)
    requires m <= n
    ensures AndNot(f, LowMask(m), n) + LowMask(m) < Pow2(n)
  {
    if m == 0 {
      AndNotBelow(f, 0, n);
    } else {
      MaskedEnd(f / 2, m - 1, n - 1);
    }
  }

  lemma {:induction false} LowOnes(y: nat, p: nat)
    requires PopCount(y) == p && forall k: nat | k < p :: Bit(y, k)
    ensures y == LowMask(p)
  {
    if p > 0 {
      assert Bit(y, 0);
      forall k: nat | k < p - 1 ensures Bit(y / 2, k) {
        assert Bit(y, k + 1);
      }
      LowOnes(y / 2, p - 1);
    } else {
      NoOnes(y);
    }
  }

  lemma {:induction false} NoOnes(y: nat)
    requires PopCount(y) == 0
    ensures y == 0
  {
    if y != 0 {
      NoOnes(y / 2);
    }
  }

  lemma {:induction false} BitsOfRemainder(y: nat, n: nat, k: nat)
    ensures Pow2(n) > 0 && (Bit(y % Pow2(n), k) <==> k < n && Bit(y, k))
    decreases n
  {
    if n == 0 {
      NoBit(k);
    } else {
      BitsOfRemainder(y / 2, n - 1, if k == 0 then 0 else k - 1);
      HalfRemainder(y, Pow2(n - 1));
    }
  }

  lemma HalfRemainder(y: nat, p: nat)
    requires p > 0
    ensures y % (2 * p) == 2 * (y / 2 % p) + y % 2
  {
    var q, h := y / 2 / p, y / 2 % p;
    assert q * (2 * p) == 2 * (q * p);
    DivisionUnique(y, 2 * p, q, 2 * h + y % 2);
  }

  /** The last frame of the range from address 0 has to be in the page. */
  lemma NoGap(pageMask: u32)
    requires forall lo: u32, addr: u32 :: Spans(pageMask, lo, addr) <==> SamePage(pageMask, lo, addr)
    ensures exists m: nat | m <= 12 :: pageMask / 0x2000 == LowMask(m)
  {
    var p := PopCount(pageMask / 0x2000);
    AtMostNineteen(pageMask);
    LastFrameSpans(pageMask, p);
    LastFrameInPage(pageMask, LowMask(p));
    LastFrameOnes(pageMask, p);
    LowOnes(pageMask / 0x2000, p);
  }

  lemma LastFrameInPage(pageMask: u32, f: nat)
    requires f < 0x10_0000 && SamePage(pageMask, 0, 0x1000 * f)
    ensures AgreeOutside(f, 0, MaskField(pageMask))
  {
    assert 0x1000 * f / 0x1000 == f && FrameNumber(0) == 0;
  }

  lemma AtMostNineteen(pageMask: u32)
    ensures PopCount(pageMask / 0x2000) <= 19 && LowMask(PopCount(pageMask / 0x2000)) < 0x8_0000
  {
    PowersOfTwo();
    PopCountIsOnes(pageMask / 0x2000, 19);
    SetOfPlaces(pageMask / 0x2000, 19);
    PowIsMonotone(PopCount(pageMask / 0x2000), 19);
  }

  lemma LastFrameSpans(pageMask: u32, p: nat)
    requires p == PopCount(pageMask / 0x2000) && LowMask(p) < 0x8_0000
    ensures Spans(pageMask, 0, 0x1000 * LowMask(p))
  {
    RangeOfRun(pageMask, p);
    assert FrameNumber(0) == 0;
    assert IsFirst(0, 0, MaskField(pageMask)) by {
      forall k: nat ensures !Bit(0, k) {
        NoBit(k);
      }
    }
    RangeIs(0x1000 * LowMask(p), 0, 0, MaskField(pageMask), RangeSize(pageMask));
    LastInRange(LowMask(p));
  }

  lemma LastInRange(mask: nat)
    requires mask < 0x8_0000
    ensures 0x1000 * mask <= (0x1000 * mask + 0x1000 - 1) % WORD
  {
  }

  lemma OneIsMasked(pageMask: u32, p: nat, k: nat)
    requires k < p <= 19 && AgreeOutside(LowMask(p), 0, MaskField(pageMask))
    ensures k < 12 && Bit(pageMask / 0x2000, k)
  {
    PowersOfTwo();
    BitsOfRun(p, k);
    NoBit(k);
    assert Bit(MaskField(pageMask), k);
    BitsOfRemainder(pageMask / 0x2000, 12, k);
  }

  lemma LastFrameOnes(pageMask: u32, p: nat)
    requires p <= 19 && AgreeOutside(LowMask(p), 0, MaskField(pageMask))
    ensures p <= 12 && forall k: nat | k < p :: Bit(pageMask / 0x2000, k)
  {
    forall k: nat | k < p ensures Bit(pageMask / 0x2000, k) {
      OneIsMasked(pageMask, p, k);
    }
    if p > 12 {
      OneIsMasked(pageMask, p, 12);
    }
  }

  lemma {:induction false} NoneLeft(mask: nat, n: nat)
    ensures AndNot(0, mask, n) == 0
  {
    NoBits(mask, n);
  }

  lemma {:induction false} SetOfPlaces(x: nat, n: nat)
    ensures |Ones(x, n)| <= n
  {
    if n > 0 {
      SetOfPlaces(x, n - 1);
      OnesSnoc(x, n - 1);
    } else {
      assert Ones(x, 0) == {};
    }
  }

  // ----- the lookup -----

  /** One lane of the four-way loop: signed comparisons, and both halves up to the end of the
      second. */
  predicate LaneHit(r: Row, a: u32) {
    var end1 := Wrap32(r.key.pfn1 + r.key.pageMask);
    (r.enabled1 && Wrap32(r.key.pfn1) <= Wrap32(a) <= end1) || (r.enabled0 && Wrap32(r.key.pfn0) <= Wrap32(a) <= end1)
  }

  /** The first lane has the address, the others have zero. */
  function LaneAddress(i: nat, addr: u32): u32 {
    if i % 4 == 0 then addr else 0
  }

  function Quads(n: nat): nat {
    n - n % 4
  }

  /** CheckCache accepts row `i` of `n`: whole groups of four by lanes, the rest as intended. */
  predicate AcceptsRow(r: Row, i: nat, n: nat, addr: u32) {
    if i < Quads(n) then LaneHit(r, LaneAddress(i, addr)) else Covers(r, addr)
  }

  predicate Accepts(rows: seq<Row>, i: nat, addr: u32)
    requires i < |rows|
  {
    AcceptsRow(rows[i], i, |rows|, addr)
  }

  predicate Hit(rows: seq<Row>, addr: u32) {
    exists i | 0 <= i < |rows| :: Accepts(rows, i, addr)
  }

  /** Four rows at once. */
  method AnyLane(cached: array<Row>, i: nat, size: nat, addr: u32) returns (any: bool)
    requires i % 4 == 0 && i + 4 <= size <= cached.Length
    ensures any <==> exists k | i <= k < i + 4 :: AcceptsRow(cached[k], k, size, addr)
  {
    var lane0, lane1 := LaneHit(cached[i], addr), LaneHit(cached[i + 1], 0);
    var lane2, lane3 := LaneHit(cached[i + 2], 0), LaneHit(cached[i + 3], 0);
    assert lane0 == AcceptsRow(cached[i], i, size, addr) && lane1 == AcceptsRow(cached[i + 1], i + 1, size, addr);
    assert lane2 == AcceptsRow(cached[i + 2], i + 2, size, addr) && lane3 == AcceptsRow(cached[i + 3], i + 3, size, addr);
    any := lane0 || lane1 || lane2 || lane3;
  }

  method CheckCache(t: Tlb, config: u32, addr: u32) returns (hit: bool)
    requires t.Valid()
    ensures hit <==> config / 0x1_0000 % 2 == 1 && Hit(t.cached[..t.count], addr)
  {
    if config / 0x1_0000 % 2 == 0 {
      return false;
    }
    ghost var rows := t.cached[..t.count];
    var i, size := 0, t.count;
    while i + 4 <= size
      invariant i % 4 == 0 && i <= size
      invariant forall k | 0 <= k < i :: !AcceptsRow(t.cached[k], k, size, addr)
    {
      var any := AnyLane(t.cached, i, size, addr);
      if any {
        var k :| i <= k < i + 4 && AcceptsRow(t.cached[k], k, size, addr);
        assert Accepts(rows, k, addr);
        return true;
      }
      i := i + 4;
    }
    while i < size
      invariant Quads(size) <= i <= size
      invariant forall k | 0 <= k < i :: !AcceptsRow(t.cached[k], k, size, addr)
    {
      if Covers(t.cached[i], addr) {
        assert Accepts(rows, i, addr);
        return true;
      }
      i := i + 1;
    }
    return false;
  }

  predicate RightAt(rows: seq<Row>, addr: u32) {
    Hit(rows, addr) <==> Covered(rows, addr)
  }

  /** With `n` rows in the index CheckCache is right whatever was written before. */
  ghost predicate RightFor(n: nat) {
    forall ws: seq<RegisterWrite>, addr: u32 :: |RowsAfter(ws)| == n ==> RightAt(RowsAfter(ws), addr)
  }

  /** CheckCache finds just the addresses that the rows cover if and only if there are fewer
      than four rows. */
  lemma CheckCacheRightIff(n: nat)
    requires n <= ENTRIES
    ensures RightFor(n) <==> n < 4
  {
    if n < 4 {
      forall ws: seq<RegisterWrite>, addr: u32 | |RowsAfter(ws)| == n ensures RightAt(RowsAfter(ws), addr) {
        FewRows(RowsAfter(ws), addr);
      }
    } else {
      FramesMissed(n);
      assert !RightAt(RowsAfter(Frames(n)), 0x2000);
    }
  }

  lemma FewRows(rows: seq<Row>, addr: u32)
    requires |rows| < 4
    ensures RightAt(rows, addr)
  {
    if i :| 0 <= i < |rows| && Covers(rows[i], addr) {
      assert Accepts(rows, i, addr);
    }
  }

  /** Page frame i + 1 in the first half of slot i, valid and cached; the second half is not. */
  function Frames(n: nat): seq<RegisterWrite>
    requires n <= ENTRIES
  {
    seq(n, i requires 0 <= i < n => RegisterWrite(i, FrameRegisters(i)))
  }

  function FrameRegisters(i: nat): Registers
    requires i < ENTRIES
  {
    Registers(0, 0, 64 * (i + 1) + 0x1A, 0)
  }

  function FrameRow(i: nat): Row {
    Row(true, false, Key(0x1000 * (i + 1), 0, 0xFFF))
  }

  lemma FrameFields(lo: u32, i: nat)
    requires i < ENTRIES && lo == 64 * (i + 1) + 0x1A
    ensures Valid(lo) && ModeThree(lo) && lo / 0x8000_0000 == 0 && FrameNumber(lo) == i + 1
  {
  }

  lemma ZeroFields(x: u32)
    requires x == 0
    ensures !ModeThree(x) && FrameNumber(x) == MaskField(x) == 0 && ConvertPageMask(x) == 0xFFF
  {
    PowersOfTwo();
  }

  lemma FrameEntry(r: Registers, i: nat)
    requires i < ENTRIES && r.entryLo0 == 64 * (i + 1) + 0x1A && r.pageMask == r.entryLo1 == 0
    ensures EntryOf(r).Qualifies() && EntryOf(r).IndexRow() == FrameRow(i)
  {
    FrameFields(r.entryLo0, i);
    ZeroFields(0);
    RowFields(r);
    RowKey(r);
    FirstHalfOnly(EntryOf(r).IndexRow(), i, FrameNumber(r.entryLo0), FrameNumber(r.entryLo1), MaskField(r.pageMask));
  }

  lemma FirstHalfOnly(row: Row, i: nat, f0: nat, f1: nat, mask: nat)
    requires i < ENTRIES && f0 == i + 1 && f1 == mask == 0
    requires row.enabled0 && !row.enabled1 && row.key.pageMask == 0xFFF
    requires row.key.pfn0 == 0x1000 * AndNot(f0, mask, 20) && row.key.pfn1 == 0x1000 * AndNot(f1, mask, 20)
    ensures row == FrameRow(i)
  {
    UnmaskedPair(f0, mask, 20);
  }

  lemma UnmaskedPair(f: nat, mask: nat, n: nat)
    requires f <= ENTRIES && mask == 0 && n == 20
    ensures AndNot(f, mask, n) == f && AndNot(0, mask, n) == 0
  {
    PowersOfTwo();
    Unmasked(f, n);
    Unmasked(0, n);
  }

  lemma {:induction false} NothingRemoved(rows: seq<Row>, key: Key)
    requires forall r | r in rows :: r.key != key
    ensures RemoveFirst(rows, key) == rows
  {
    FirstMatch(rows, |rows|, key);
  }

  /** Writing over a blank entry takes out no row with an odd frame in it. */
  lemma BlankHasNoRow(rows: seq<Row>)
    requires forall r | r in rows :: r.key.pfn0 != 0
    ensures Unmapped(rows, BLANK) == rows
  {
    NoneLeft(BLANK.Mask(), 20);
    NothingRemoved(rows, BLANK.LookupKey());
  }

  lemma OneMoreWrite(ws: seq<RegisterWrite>, w: RegisterWrite)
    requires w.slot < ENTRIES && Latest(ws, w.slot) == None && forall r | r in RowsAfter(ws) :: r.key.pfn0 != 0
    requires EntryOf(w.regs).Qualifies()
    ensures RowsAfter(ws + [w]) == RowsAfter(ws) + [EntryOf(w.regs).IndexRow()]
  {
    var e := EntryOf(w.regs);
    assert (ws + [w])[..|ws|] == ws;
    RunSnoc(INITIAL, ToWrites(ws), Write(w.slot, e));
    EntriesAreLatest(ws, w.slot);
    BlankHasNoRow(RowsAfter(ws));
  }

  lemma FramesSnoc(n: nat)
    requires 0 < n <= ENTRIES
    ensures Frames(n) == Frames(n - 1) + [RegisterWrite(n - 1, FrameRegisters(n - 1))]
  {
  }

  lemma {:induction false} RowsOfFrames(n: nat)
    requires n <= ENTRIES
    ensures |RowsAfter(Frames(n))| == n && forall i | 0 <= i < n :: RowsAfter(Frames(n))[i] == FrameRow(i)
  {
    if n > 0 {
      RowsOfFrames(n - 1);
      var ws, w := Frames(n - 1), RegisterWrite(n - 1, FrameRegisters(n - 1));
      FramesSnoc(n);
      NotYetWritten(n - 1, n - 1);
      FrameEntry(w.regs, n - 1);
      OneMoreWrite(ws, w);
    }
  }

  lemma {:induction false} NotYetWritten(n: nat, j: nat)
    requires n <= j < ENTRIES
    ensures Latest(Frames(n), j) == None
  {
    if n > 0 {
      NotYetWritten(n - 1, j);
      assert Frames(n)[..n - 1] == Frames(n - 1);
    }
  }

  /** From four rows on, an address of the second row is not found. */
  lemma FramesMissed(n: nat)
    requires 4 <= n <= ENTRIES
    ensures var rows := RowsAfter(Frames(n)); |rows| == n && Covered(rows, 0x2000) && !Hit(rows, 0x2000)
  {
    RowsOfFrames(n);
    SecondRowMissed(RowsAfter(Frames(n)));
  }

  lemma SecondRowMissed(rows: seq<Row>)
    requires 4 <= |rows| <= ENTRIES && forall i | 0 <= i < |rows| :: rows[i] == FrameRow(i)
    ensures Covered(rows, 0x2000) && !Hit(rows, 0x2000)
  {
    assert Covers(rows[1], 0x2000);
    forall i | 0 <= i < |rows| ensures !Accepts(rows, i, 0x2000) {
      assert rows[i] == FrameRow(i);
    }
  }
}
