/**
  The EE data cache of `pcsx2/Cache.cpp`: 64 sets of two 64-byte lines, written back on
  eviction, in front of host memory.

  The vtlb is a function from virtual to host pages of 4 KiB. A line is named by its host
  page and its set, the two parts of `tag.addr() | (set << 6)`. Whether a page exists in
  physical memory (`validPFN`) is a function of the page.
 */
module DataCache {
  import opened Arithmetic

  type Block = b: seq<byte> | |b| == 64 witness Zeros(64)
  datatype Addr = Addr(page: nat, index: nat)
  type Memory = map<Addr, Block>
  type Pages = nat -> bool

  const SETS: nat := 64

  // ----- tags, lines and sets -----

  datatype Tag = Tag(page: nat, validPFN: bool, dirty: bool, valid: bool, lrf: bool, locked: bool) {
    predicate Matches(p: nat) {
      valid && page == p
    }

    predicate DirtyAndValid() {
      dirty && valid
    }

    /** Everything but the least-recently-filled bit. */
    function Cleared(): Tag {
      Tag(0, false, false, false, lrf, false)
    }
  }

  datatype Line = Line(tag: Tag, data: Block) {
    function Cleared(): Line {
      Line(tag.Cleared(), Zeros(64))
    }

    function WrittenBack(): Line {
      if tag.DirtyAndValid() then Line(tag.(dirty := false), data) else this
    }
  }

  datatype CacheSet = CacheSet(way0: Line, way1: Line) {
    function Way(w: bool): Line {
      if w then way1 else way0
    }

    function Put(w: bool, line: Line): CacheSet {
      if w then CacheSet(way0, line) else CacheSet(line, way1)
    }

    /** Whether the page is in the set, and in which way. */
    function Find(page: nat): (bool, bool) {
      if way0.tag.Matches(page) then (true, false)
      else if way1.tag.Matches(page) then (true, true)
      else (false, false)
    }

    /** The way the next fill goes to. */
    function Victim(): bool {
      way0.tag.lrf != way1.tag.lrf
    }
  }

  /** Host memory after writing back a line of set `i`, if it needs to be. A line of a page
      that does not exist is dropped. */
  function Spill(line: Line, i: nat, mem: Memory): Memory {
    if line.tag.DirtyAndValid() && line.tag.validPFN then mem[Addr(line.tag.page, i) := line.data] else mem
  }

  /** What a load of line `a` finds below the cache. */
  function Backing(a: Addr, mem: Memory, pages: Pages): Block {
    if pages(a.page) && a in mem then mem[a] else Zeros(64)
  }

  /** The line that a miss on `a` puts in the place of `victim`. */
  function Filled(victim: Line, a: Addr, mem: Memory, pages: Pages): Line {
    Line(Tag(a.page, pages(a.page), false, true, !victim.tag.lrf, victim.tag.locked), Backing(a, mem, pages))
  }

  // ----- the view of memory through the cache -----

  /** What line `a` reads as. */
  function View(s: CacheSet, a: Addr, mem: Memory, pages: Pages): Block {
    if s.way0.tag.Matches(a.page) then s.way0.data
    else if s.way1.tag.Matches(a.page) then s.way1.data
    else Backing(a, mem, pages)
  }

  /** A line in set `i` is consistent with memory. */
  ghost predicate LineOk(line: Line, i: nat, mem: Memory, pages: Pages) {
    && !line.tag.locked
    && (line.tag.valid ==> line.tag.validPFN == pages(line.tag.page))
    && (line.tag.valid && !line.tag.dirty && pages(line.tag.page) ==>
          line.data == Backing(Addr(line.tag.page, i), mem, pages))
  }

  ghost predicate SetOk(s: CacheSet, i: nat, mem: Memory, pages: Pages) {
    && LineOk(s.way0, i, mem, pages) && LineOk(s.way1, i, mem, pages)
    && !(s.way0.tag.valid && s.way1.tag.Matches(s.way0.tag.page))
  }

  /** Host memory has exactly the lines of the pages that exist. */
  ghost predicate MemoryOk(mem: Memory, pages: Pages) {
    forall a: Addr :: a in mem <==> pages(a.page) && a.index < SETS
  }

  /** The pages in set `i` read the same before and after, all but those exempted. */
  ghost predicate SameViews(s: CacheSet, mem: Memory, s': CacheSet, mem': Memory, i: nat, pages: Pages, concerned: nat -> bool) {
    forall p: nat | concerned(p) :: View(s', Addr(p, i), mem', pages) == View(s, Addr(p, i), mem, pages)
  }

  /** Writing a line back changes no view, and leaves it clean. */
  lemma WriteBackKeepsView(s: CacheSet, w: bool, i: nat, mem: Memory, pages: Pages)
    requires SetOk(s, i, mem, pages) && MemoryOk(mem, pages) && i < SETS
    ensures var s', mem' := s.Put(w, s.Way(w).WrittenBack()), Spill(s.Way(w), i, mem);
            && SetOk(s', i, mem', pages) && MemoryOk(mem', pages)
            && SameViews(s, mem, s', mem', i, pages, p => true)
  {
  }

  /** Dropping a line that is not dirty changes no view of a page that exists; a line of a
      page that does not reads as zeros from then on. */
  lemma ClearKeepsView(s: CacheSet, w: bool, i: nat, mem: Memory, pages: Pages)
    requires SetOk(s, i, mem, pages) && !s.Way(w).tag.DirtyAndValid()
    ensures var s' := s.Put(w, s.Way(w).Cleared());
            && SetOk(s', i, mem, pages)
            && SameViews(s, mem, s', mem, i, pages, pages)
  {
  }

  /** So does putting another line in its place. */
  lemma FillKeepsView(s: CacheSet, w: bool, a: Addr, mem: Memory, pages: Pages)
    requires SetOk(s, a.index, mem, pages) && !s.Way(w).tag.DirtyAndValid() && !s.Find(a.page).0
    ensures var s' := s.Put(w, Filled(s.Way(w), a, mem, pages));
            && SetOk(s', a.index, mem, pages)
            && View(s', a, mem, pages) == View(s, a, mem, pages)
            && SameViews(s, mem, s', mem, a.index, pages, pages)
  {
  }

  // ----- one set -----

  /** What an access to `a` does: find the line, or evict one and load it. */
  datatype Outcome = Outcome(s: CacheSet, w: bool, mem: Memory)

  function Access(s: CacheSet, a: Addr, mem: Memory, pages: Pages): Outcome {
    var (hit, w) := s.Find(a.page);
    if hit then
      Outcome(s, if s.Way(w).tag.locked && !s.Way(!w).tag.locked then !w else w, mem)
    else
      var v := if s.Way(s.Victim()).tag.locked then !s.Victim() else s.Victim();
      var mem' := Spill(s.Way(v), a.index, mem);
      var line := s.Way(v).WrittenBack();
      Outcome(s.Put(v, Filled(line, a, mem', pages)), v, mem')
  }

  lemma AccessKeepsView(s: CacheSet, a: Addr, mem: Memory, pages: Pages)
    requires SetOk(s, a.index, mem, pages) && MemoryOk(mem, pages) && a.index < SETS
    ensures var o := Access(s, a, mem, pages);
            && SetOk(o.s, a.index, o.mem, pages) && MemoryOk(o.mem, pages)
            && o.s.Way(o.w).tag.Matches(a.page) && o.s.Way(o.w).data == View(s, a, mem, pages)
            && View(o.s, a, o.mem, pages) == View(s, a, mem, pages)
            && SameViews(s, mem, o.s, o.mem, a.index, pages, pages)
  {
    if !s.Find(a.page).0 {
      var v := s.Victim();
      WriteBackKeepsView(s, v, a.index, mem, pages);
      FillKeepsView(s.Put(v, s.Way(v).WrittenBack()), v, a, Spill(s.Way(v), a.index, mem), pages);
    }
  }

  /** Fills alternate between the ways, so two misses in a row replace both lines of a set. */
  lemma TwoMissesReplaceBoth(s: CacheSet, b: Addr, c: Addr, mem: Memory, pages: Pages, o: Outcome, r: Outcome)
    requires SetOk(s, b.index, mem, pages) && MemoryOk(mem, pages) && b.index == c.index < SETS
    requires o == Access(s, b, mem, pages) && !s.Find(b.page).0
    requires r == Access(o.s, c, o.mem, pages) && !o.s.Find(c.page).0
    ensures o.w != r.w && r.s.Way(o.w).tag.Matches(b.page) && r.s.Way(r.w).tag.Matches(c.page)
  {
    AccessKeepsView(s, b, mem, pages);
  }

  /** Exactly the pages that exist survive it: a line thrown out reads as before if its page
      exists and as zeros if it does not, whatever was last written to it. */
  lemma EvictedLineReadsAs(s: CacheSet, a: Addr, b: Addr, c: Addr, mem: Memory, pages: Pages, o: Outcome, r: Outcome)
    requires SetOk(s, b.index, mem, pages) && MemoryOk(mem, pages) && a.index == b.index == c.index < SETS
    requires o == Access(s, b, mem, pages) && !s.Find(b.page).0
    requires r == Access(o.s, c, o.mem, pages) && !o.s.Find(c.page).0
    requires a != b && a != c
    ensures View(r.s, a, r.mem, pages) == if pages(a.page) then View(s, a, mem, pages) else Zeros(64)
  {
    TwoMissesReplaceBoth(s, b, c, mem, pages, o, r);
    AccessKeepsView(s, b, mem, pages);
    AccessKeepsView(o.s, c, o.mem, pages);
    assert a == Addr(a.page, b.index);
    assert r.s.Way(o.w).tag.page == b.page && r.s.Way(r.w).tag.page == c.page;
  }

  /** Storing into the line that an access found changes the view of that line only. */
  lemma StoreChangesView(s: CacheSet, w: bool, a: Addr, at: nat, bytes: seq<byte>, mem: Memory, pages: Pages)
    requires SetOk(s, a.index, mem, pages) && s.Way(w).tag.Matches(a.page) && at + |bytes| <= 64
    ensures var line := s.Way(w);
            var s' := s.Put(w, Stored(line, at, bytes));
            && SetOk(s', a.index, mem, pages)
            && View(s', a, mem, pages) == Overwritten(View(s, a, mem, pages), at, bytes)
            && SameViews(s, mem, s', mem, a.index, pages, p => p != a.page)
  {
  }

  // ----- all sets -----

  ghost predicate AllOk(sets: seq<CacheSet>, mem: Memory, pages: Pages) {
    && |sets| == SETS && MemoryOk(mem, pages)
    && forall i | 0 <= i < SETS :: SetOk(sets[i], i, mem, pages)
  }

  /** Memory as seen through the cache. */
  ghost function FlatOf(sets: seq<CacheSet>, mem: Memory, pages: Pages): Memory
    requires |sets| == SETS
  {
    map a: Addr | a in mem :: if a.index < SETS then View(sets[a.index], a, mem, pages) else mem[a]
  }

  /** Memory changed, if at all, in lines of set `i` only. */
  ghost predicate OnlyInSet(mem: Memory, mem': Memory, i: nat) {
    && mem'.Keys == mem.Keys
    && forall a: Addr | a in mem && a.index != i :: mem'[a] == mem[a]
  }

  lemma OtherSet(s: CacheSet, k: nat, mem: Memory, mem': Memory, i: nat, pages: Pages)
    requires k != i && SetOk(s, k, mem, pages) && OnlyInSet(mem, mem', i)
    ensures SetOk(s, k, mem', pages) && SameViews(s, mem, s, mem', k, pages, p => true)
  {
  }

  /** A step inside one set that keeps the views of its pages keeps the view of memory. */
  lemma ReplaceSet(sets: seq<CacheSet>, mem: Memory, i: nat, s': CacheSet, mem': Memory, pages: Pages)
    requires AllOk(sets, mem, pages) && i < SETS && OnlyInSet(mem, mem', i)
    requires SetOk(s', i, mem', pages) && SameViews(sets[i], mem, s', mem', i, pages, pages)
    ensures AllOk(sets[i := s'], mem', pages)
    ensures FlatOf(sets[i := s'], mem', pages) == FlatOf(sets, mem, pages)
  {
    ReplaceSetOk(sets, mem, i, s', mem', pages);
    forall a: Addr | a in mem ensures FlatOf(sets[i := s'], mem', pages)[a] == FlatOf(sets, mem, pages)[a] {
      ViewAt(sets, mem, i, s', mem', pages, a);
    }
  }

  lemma ReplaceSetOk(sets: seq<CacheSet>, mem: Memory, i: nat, s': CacheSet, mem': Memory, pages: Pages)
    requires AllOk(sets, mem, pages) && i < SETS && OnlyInSet(mem, mem', i) && SetOk(s', i, mem', pages)
    ensures AllOk(sets[i := s'], mem', pages)
  {
    forall k | 0 <= k < SETS && k != i ensures SetOk(sets[k], k, mem', pages) {
      OtherSet(sets[k], k, mem, mem', i, pages);
    }
  }

  lemma ViewAt(sets: seq<CacheSet>, mem: Memory, i: nat, s': CacheSet, mem': Memory, pages: Pages, a: Addr)
    requires AllOk(sets, mem, pages) && i < SETS && OnlyInSet(mem, mem', i)
    requires SameViews(sets[i], mem, s', mem', i, pages, pages)
    requires a in mem
    ensures a.index < SETS && pages(a.page)
    ensures View(sets[i := s'][a.index], a, mem', pages) == View(sets[a.index], a, mem, pages)
  {
    assert a == Addr(a.page, a.index);
    if a.index != i {
      OtherSet(sets[a.index], a.index, mem, mem', i, pages);
    }
  }

  /** The line after `bytes` were stored at `at`. */
  function Stored(line: Line, at: nat, bytes: seq<byte>): Line
    requires at + |bytes| <= 64
  {
    Line(line.tag.(dirty := true), Overwritten(line.data, at, bytes))
  }

  /** Storing into a line shows in the view of memory, at that line and nowhere else. */
  lemma StoreInSet(sets: seq<CacheSet>, mem: Memory, w: bool, a: Addr, at: nat, bytes: seq<byte>, pages: Pages)
    requires AllOk(sets, mem, pages) && a.index < SETS && at + |bytes| <= 64
    requires sets[a.index].Way(w).tag.Matches(a.page)
    ensures var sets' := sets[a.index := sets[a.index].Put(w, Stored(sets[a.index].Way(w), at, bytes))];
            && AllOk(sets', mem, pages)
            && FlatOf(sets', mem, pages) == FlatWrite(FlatOf(sets, mem, pages), a, at, bytes)
  {
    StoreChangesView(sets[a.index], w, a, at, bytes, mem, pages);
    ReplaceSetOk(sets, mem, a.index, sets[a.index].Put(w, Stored(sets[a.index].Way(w), at, bytes)), mem, pages);
    StoreShows(sets, mem, w, a, at, bytes, pages);
  }

  lemma StoreShows(sets: seq<CacheSet>, mem: Memory, w: bool, a: Addr, at: nat, bytes: seq<byte>, pages: Pages)
    requires |sets| == SETS && MemoryOk(mem, pages) && a.index < SETS && SetOk(sets[a.index], a.index, mem, pages)
    requires at + |bytes| <= 64
    requires sets[a.index].Way(w).tag.Matches(a.page)
    ensures var sets' := sets[a.index := sets[a.index].Put(w, Stored(sets[a.index].Way(w), at, bytes))];
            FlatOf(sets', mem, pages) == FlatWrite(FlatOf(sets, mem, pages), a, at, bytes)
  {
    var s' := sets[a.index].Put(w, Stored(sets[a.index].Way(w), at, bytes));
    var flat, flat' := FlatOf(sets, mem, pages), FlatOf(sets[a.index := s'], mem, pages);
    forall b: Addr | b in mem && b != a ensures flat'[b] == flat[b] {
      StoreElsewhere(sets, mem, w, a, at, bytes, pages, b);
    }
    StoreChangesView(sets[a.index], w, a, at, bytes, mem, pages);
    if a in mem {
      OneLineChanged(flat, flat', a, Overwritten(flat[a], at, bytes));
    } else {
      OneLineChanged(flat, flat', a, Zeros(64));
    }
  }

  lemma OneLineChanged(flat: Memory, flat': Memory, a: Addr, line: Block)
    requires flat'.Keys == flat.Keys && (a in flat ==> flat'[a] == line)
    requires forall b: Addr | b in flat && b != a :: flat'[b] == flat[b]
    ensures flat' == if a in flat then flat[a := line] else flat
  {
  }

  lemma StoreElsewhere(sets: seq<CacheSet>, mem: Memory, w: bool, a: Addr, at: nat, bytes: seq<byte>, pages: Pages, b: Addr)
    requires |sets| == SETS && MemoryOk(mem, pages) && a.index < SETS && SetOk(sets[a.index], a.index, mem, pages)
    requires at + |bytes| <= 64
    requires sets[a.index].Way(w).tag.Matches(a.page) && b in mem && b != a
    ensures b.index < SETS
    ensures var s' := sets[a.index].Put(w, Stored(sets[a.index].Way(w), at, bytes));
            View(sets[a.index := s'][b.index], b, mem, pages) == View(sets[b.index], b, mem, pages)
  {
    StoreChangesView(sets[a.index], w, a, at, bytes, mem, pages);
    assert b == Addr(b.page, b.index);
  }

  /** When no line is dirty, memory is what is seen through the cache. */
  lemma CleanMeansFlat(sets: seq<CacheSet>, mem: Memory, pages: Pages)
    requires AllOk(sets, mem, pages)
    requires forall i, w | 0 <= i < SETS :: !sets[i].Way(w).tag.DirtyAndValid()
    ensures FlatOf(sets, mem, pages) == mem
  {
    forall a: Addr | a in mem ensures FlatOf(sets, mem, pages)[a] == mem[a] {
      var s := sets[a.index];
      assert SetOk(s, a.index, mem, pages);
      assert !s.Way(false).tag.DirtyAndValid() && !s.Way(true).tag.DirtyAndValid();
    }
  }

  // ----- flat memory -----

  function FlatWrite(flat: Memory, a: Addr, at: nat, bytes: seq<byte>): Memory
    requires at + |bytes| <= 64
  {
    if a in flat then flat[a := Overwritten(flat[a], at, bytes)] else flat
  }

  /** The sizes of access there are. */
  predicate IsSize(n: nat) {
    n == 1 || n == 2 || n == 4 || n == 8 || n == 16
  }

  lemma AlignedInLine(vaddr: nat, n: nat)
    requires IsSize(n)
    ensures (vaddr - vaddr % n) % 64 + n <= 64
  {
    var a := vaddr - vaddr % n;
    assert a % n == 0 by {
      DivisionUnique(a, n, vaddr / n, 0);
    }
    MultipleInLine(a, n);
  }

  lemma MultipleInLine(a: nat, n: nat)
    requires IsSize(n) && a % n == 0
    ensures a % 64 % n == 0
  {
    if n == 2 {
      DivisionUnique(a % 64, 2, a / 2 - 32 * (a / 64), 0);
    } else if n == 4 {
      DivisionUnique(a % 64, 4, a / 4 - 16 * (a / 64), 0);
    } else if n == 8 {
      DivisionUnique(a % 64, 8, a / 8 - 8 * (a / 64), 0);
    } else if n == 16 {
      DivisionUnique(a % 64, 16, a / 16 - 4 * (a / 64), 0);
    }
  }

  /** The place in its line of an access of `n` bytes, aligned downwards. */
  function Offset(vaddr: nat, n: nat): (at: nat)
    requires IsSize(n)
    ensures at + n <= 64
  {
    AlignedInLine(vaddr, n);
    (vaddr - vaddr % n) % 64
  }

  // ----- memory as bytes -----

  /** Memory by host address. */
  type Bytes = imap<nat, byte>

  /** The line that a host address lies in. */
  function LineAt(host: nat): Addr {
    Addr(host / 4096, host / 64 % 64)
  }

  /** The bytes that lines of memory hold: byte `k` of a line at 4096 times its page plus 64 times
      its index plus `k`. */
  ghost function BytesOf(flat: Memory): Bytes {
    imap host: nat | LineAt(host) in flat :: flat[LineAt(host)][host % 64]
  }

  /** Where an access of `n` bytes at `vaddr`, aligned downwards, begins in host memory. */
  function HostAddress(vaddr: nat, n: nat, vmap: nat -> nat): nat
    requires n > 0
  {
    4096 * vmap(vaddr / 4096) + (vaddr - vaddr % n) % 4096
  }

  /** Aligning downwards stays in the line. */
  lemma AlignedStays(vaddr: nat, n: nat)
    requires IsSize(n)
    ensures (vaddr - vaddr % n) / 64 == vaddr / 64
  {
    AlignedInLine(vaddr, n);
    var a, r := vaddr - vaddr % n, vaddr % n;
    DivisionUnique(a + r, 64, a / 64, a % 64 + r);
  }

  /** The line of an access and its place in the line are those of its host address. */
  lemma PlaceIsHostAddress(vaddr: nat, n: nat, vmap: nat -> nat)
    requires IsSize(n)
    ensures var a := LineOf(vaddr, vmap);
            4096 * a.page + 64 * a.index + Offset(vaddr, n) == HostAddress(vaddr, n, vmap)
  {
    AlignedInLine(vaddr, n);
    AlignedStays(vaddr, n);
    var a := vaddr - vaddr % n;
    DivisionUnique(a, 4096, a / 64 / 64, 64 * (a / 64 % 64) + a % 64);
  }

  /** Byte `k` of a line, by its host address. */
  lemma HostOf(a: Addr, k: nat)
    requires a.index < 64 && k < 64
    ensures var host := 4096 * a.page + 64 * a.index + k;
            LineAt(host) == a && host % 64 == k
  {
    var host := 4096 * a.page + 64 * a.index + k;
    DivisionUnique(host, 4096, a.page, 64 * a.index + k);
    DivisionUnique(host, 64, 64 * a.page + a.index, k);
    DivisionUnique(64 * a.page + a.index, 64, a.page, a.index);
  }

  /** And a host address by its line and place. */
  lemma HostIs(host: nat)
    ensures host == 4096 * LineAt(host).page + 64 * LineAt(host).index + host % 64
  {
    DivisionUnique(host, 4096, host / 64 / 64, 64 * (host / 64 % 64) + host % 64);
  }

  /** What a write does to memory: the bytes from `at` on, where there is memory. */
  ghost function BytesWritten(mem: Bytes, at: nat, bytes: seq<byte>): Bytes {
    imap host: nat | host in mem :: if at <= host < at + |bytes| then bytes[host - at] else mem[host]
  }

  ghost function BytesStep(mem: Bytes, op: Op, vmap: nat -> nat): Bytes {
    if op.Write? then BytesWritten(mem, HostAddress(op.vaddr, |op.bytes|, vmap), op.bytes) else mem
  }

  ghost function BytesRun(mem: Bytes, ops: seq<Op>, vmap: nat -> nat): Bytes {
    if ops == [] then mem else BytesStep(BytesRun(mem, ops[..|ops| - 1], vmap), ops[|ops| - 1], vmap)
  }

  /** `value` is what memory holds from `at` on. */
  ghost predicate ReadsBytes(mem: Bytes, at: nat, n: nat, value: seq<byte>) {
    |value| == n && forall i | 0 <= i < n :: HasByte(mem, at + i, value[i])
  }

  ghost predicate HasByte(mem: Bytes, host: nat, value: byte) {
    host in mem && mem[host] == value
  }

  /** One byte of an access in a line. */
  lemma ByteOfLine(flat: Memory, a: Addr, k: nat, host: nat)
    requires a in flat && a.index < 64 && k < 64 && host == 4096 * a.page + 64 * a.index + k
    ensures HasByte(BytesOf(flat), host, flat[a][k])
  {
    HostOf(a, k);
  }

  lemma LineReadsBytes(flat: Memory, a: Addr, at: nat, n: nat, host: nat)
    requires a in flat && a.index < 64 && at + n <= 64 && host == 4096 * a.page + 64 * a.index + at
    ensures ReadsBytes(BytesOf(flat), host, n, flat[a][at..at + n])
  {
    var mem, value := BytesOf(flat), flat[a][at..at + n];
    forall i | 0 <= i < n ensures HasByte(mem, host + i, value[i]) {
      ByteOfLine(flat, a, at + i, host + i);
    }
  }

  /** Reading lines is reading bytes. */
  lemma LinesReadBytes(flat: Memory, vaddr: nat, n: nat, vmap: nat -> nat, value: seq<byte>)
    requires IsSize(n) && LineOf(vaddr, vmap) in flat
    requires value == flat[LineOf(vaddr, vmap)][Offset(vaddr, n)..Offset(vaddr, n) + n]
    ensures ReadsBytes(BytesOf(flat), HostAddress(vaddr, n, vmap), n, value)
  {
    PlaceIsHostAddress(vaddr, n, vmap);
    LineReadsBytes(flat, LineOf(vaddr, vmap), Offset(vaddr, n), n, HostAddress(vaddr, n, vmap));
  }

  /** One byte of memory after a write to a line. */
  lemma ByteAfterWrite(flat: Memory, a: Addr, at: nat, bytes: seq<byte>, from: nat, host: nat)
    requires a.index < 64 && at + |bytes| <= 64 && from == 4096 * a.page + 64 * a.index + at && LineAt(host) in flat
    ensures FlatWrite(flat, a, at, bytes)[LineAt(host)][host % 64]
            == if from <= host < from + |bytes| then bytes[host - from] else flat[LineAt(host)][host % 64]
  {
    HostIs(host);
    if from <= host < from + |bytes| {
      HostOf(a, at + (host - from));
    }
  }

  /** Writing to lines is writing bytes. */
  lemma LinesWriteBytes(flat: Memory, vaddr: nat, bytes: seq<byte>, vmap: nat -> nat)
    requires IsSize(|bytes|)
    ensures BytesOf(FlatWrite(flat, LineOf(vaddr, vmap), Offset(vaddr, |bytes|), bytes))
            == BytesWritten(BytesOf(flat), HostAddress(vaddr, |bytes|, vmap), bytes)
  {
    var a, at, from := LineOf(vaddr, vmap), Offset(vaddr, |bytes|), HostAddress(vaddr, |bytes|, vmap);
    PlaceIsHostAddress(vaddr, |bytes|, vmap);
    forall host: nat | LineAt(host) in flat
      ensures FlatWrite(flat, a, at, bytes)[LineAt(host)][host % 64]
              == if from <= host < from + |bytes| then bytes[host - from] else flat[LineAt(host)][host % 64]
    {
      ByteAfterWrite(flat, a, at, bytes, from, host);
    }
  }

  /** Reads and writes of 1, 2, 4, 8 or 16 bytes and the cache instructions that write back. */
  datatype AnyOp =
    | Read(vaddr: nat, size: nat)
    | Write(vaddr: nat, bytes: seq<byte>)
    | HitWriteBackInvalidate(vaddr: nat)    // DHWBIN
    | HitWriteBack(vaddr: nat)              // DHWOIN
    | IndexWriteBackInvalidate(vaddr: nat)  // DXWBIN
    | IndexLoadTag(vaddr: nat)              // DXLTG
    | WriteBackAll                          // writebackCache

  predicate WellSized(op: AnyOp) {
    match op
    case Read(_, n) => IsSize(n)
    case Write(_, bytes) => IsSize(|bytes|)
    case _ => true
  }

  type Op = op: AnyOp | WellSized(op) witness WriteBackAll

  function LineOf(vaddr: nat, vmap: nat -> nat): Addr {
    Addr(vmap(vaddr / 4096), vaddr / 64 % SETS)
  }

  /** `rawValue & ALL_FLAGS`. */
  function Flags(tag: Tag): nat {
    (if tag.dirty then 0x40 else 0) + (if tag.valid then 0x20 else 0)
    + (if tag.lrf then 0x10 else 0) + (if tag.locked then 0x8 else 0)
  }

  /** One line was written back, and dropped if asked for; no other line changed. */
  ghost predicate WroteBack(sets: seq<CacheSet>, mem: Memory, sets': seq<CacheSet>, mem': Memory, i: nat, w: bool, invalidate: bool) {
    && i < |sets|
    && mem' == Spill(sets[i].Way(w), i, mem)
    && var line := sets[i].Way(w).WrittenBack();
       sets' == sets[i := sets[i].Put(w, if invalidate then line.Cleared() else line)]
  }

  // ----- the cache -----

  class Cache {
    const vmap: nat -> nat
    const pages: Pages
    const sets: array<CacheSet>
    var mem: Memory

    ghost predicate Valid()
      reads this, sets
    {
      sets.Length == SETS && AllOk(sets[..], mem, pages)
    }

    ghost function Flat(): Memory
      reads this, sets
      requires sets.Length == SETS
    {
      FlatOf(sets[..], mem, pages)
    }

    /** Memory as seen through the cache, byte by byte. */
    ghost function Seen(): Bytes
      reads this, sets
      requires sets.Length == SETS
    {
      BytesOf(Flat())
    }

    /** `resetCache` over given memory. */
    constructor (vmap: nat -> nat, pages: Pages, mem: Memory)
      requires MemoryOk(mem, pages)
      ensures Valid() && Flat() == mem && fresh(sets)
      ensures this.vmap == vmap && this.pages == pages
    {
      this.vmap, this.pages, this.mem := vmap, pages, mem;
      var empty := Line(Tag(0, false, false, false, false, false), Zeros(64));
      sets := new CacheSet[SETS](_ => CacheSet(empty, empty));
      new;
      CleanMeansFlat(sets[..], mem, pages);
    }

    method WriteBackIfNeeded(i: nat, w: bool)
      requires Valid() && i < SETS
      modifies this`mem, sets
      ensures Valid() && Flat() == old(Flat())
      ensures mem == Spill(old(sets[i].Way(w)), i, old(mem))
      ensures sets[..] == old(sets[..])[i := old(sets[i].Put(w, sets[i].Way(w).WrittenBack()))]
    {
      var line := sets[i].Way(w);
      WriteBackKeepsView(sets[i], w, i, mem, pages);
      ReplaceSet(sets[..], mem, i, sets[i].Put(w, line.WrittenBack()), Spill(line, i, mem), pages);
      if !line.tag.DirtyAndValid() {
        assert sets[i].Put(w, line) == sets[i];
        return;
      }
      if line.tag.validPFN {
        mem := mem[Addr(line.tag.page, i) := line.data];
      }
      sets[i] := sets[i].Put(w, Line(line.tag.(dirty := false), line.data));
      assert sets[..] == old(sets[..])[i := sets[i]];
    }

    /** `line.clear()` after a write-back. */
    method ClearLine(i: nat, w: bool)
      requires Valid() && i < SETS && !sets[i].Way(w).tag.DirtyAndValid()
      modifies sets
      ensures Valid() && Flat() == old(Flat())
      ensures sets[..] == old(sets[..])[i := old(sets[i].Put(w, sets[i].Way(w).Cleared()))]
    {
      ClearKeepsView(sets[i], w, i, mem, pages);
      ReplaceSet(sets[..], mem, i, sets[i].Put(w, sets[i].Way(w).Cleared()), mem, pages);
      sets[i] := sets[i].Put(w, sets[i].Way(w).Cleared());
      assert sets[..] == old(sets[..])[i := sets[i]];
    }

    /** Find the line of `vaddr`, or evict one and load it. */
    method GetFreeCache(vaddr: nat, validPFN: bool) returns (i: nat, w: bool)
      requires Valid() && validPFN == pages(LineOf(vaddr, vmap).page)
      modifies this`mem, sets
      ensures Valid() && Flat() == old(Flat())
      ensures i == LineOf(vaddr, vmap).index < SETS && sets[i].Way(w).tag.Matches(LineOf(vaddr, vmap).page)
      ensures sets[i].Way(w).data == old(View(sets[i], LineOf(vaddr, vmap), mem, pages))
      ensures sets[..] == old(sets[..])[i := sets[i]]
      ensures Outcome(sets[i], w, mem) == Access(old(sets[i]), LineOf(vaddr, vmap), old(mem), pages)
    {
      var a := LineOf(vaddr, vmap);
      i := a.index;
      AccessKeepsView(sets[i], a, mem, pages);
      var s := sets[i];
      var (hit, found) := s.Find(a.page);
      if hit {
        w := if s.Way(found).tag.locked && !s.Way(!found).tag.locked then !found else found;
      } else {
        w := if s.Way(s.Victim()).tag.locked then !s.Victim() else s.Victim();
        WriteBackIfNeeded(i, w);
        FillKeepsView(sets[i], w, a, mem, pages);
        var line := Filled(sets[i].Way(w), a, mem, pages);
        ReplaceSet(sets[..], mem, i, sets[i].Put(w, line), mem, pages);
        ghost var before := sets[..];
        sets[i] := sets[i].Put(w, line);
        assert sets[..] == before[i := sets[i]];
      }
    }

    /** A read returns what memory holds as seen through the cache. */
    method Read(vaddr: nat, n: nat, validPFN: bool) returns (value: seq<byte>)
      requires Valid() && IsSize(n) && validPFN == pages(LineOf(vaddr, vmap).page)
      modifies this`mem, sets
      ensures Valid() && Flat() == old(Flat())
      ensures var a := LineOf(vaddr, vmap);
              value == old(View(sets[a.index], a, mem, pages))[Offset(vaddr, n)..Offset(vaddr, n) + n]
      ensures pages(vmap(vaddr / 4096)) ==> ReadsBytes(old(Seen()), HostAddress(vaddr, n, vmap), n, value)
      ensures var a := LineOf(vaddr, vmap);
              var o := Access(old(sets[a.index]), a, old(mem), pages);
              sets[..] == old(sets[..])[a.index := o.s] && mem == o.mem
    {
      var i, w := GetFreeCache(vaddr, validPFN);
      value := sets[i].Way(w).data[Offset(vaddr, n)..Offset(vaddr, n) + n];
      if validPFN {
        LinesReadBytes(old(Flat()), vaddr, n, vmap, value);
      }
    }

    /** A write changes the bytes at its host address and no others. */
    method Write(vaddr: nat, bytes: seq<byte>, validPFN: bool)
      requires Valid() && IsSize(|bytes|) && validPFN == pages(LineOf(vaddr, vmap).page)
      modifies this`mem, sets
      ensures Valid()
      ensures Seen() == BytesWritten(old(Seen()), HostAddress(vaddr, |bytes|, vmap), bytes)
      ensures var a := LineOf(vaddr, vmap);
              var o := Access(old(sets[a.index]), a, old(mem), pages);
              && mem == o.mem
              && sets[..] == old(sets[..])[a.index := o.s.Put(o.w, Stored(o.s.Way(o.w), Offset(vaddr, |bytes|), bytes))]
    {
      var i, w := GetFreeCache(vaddr, validPFN);
      var at := Offset(vaddr, |bytes|);
      StoreInSet(sets[..], mem, w, LineOf(vaddr, vmap), at, bytes, pages);
      LinesWriteBytes(old(Flat()), vaddr, bytes, vmap);
      ghost var before := sets[..];
      sets[i] := sets[i].Put(w, Stored(sets[i].Way(w), at, bytes));
      assert sets[..] == before[i := sets[i]];
    }

    /** DHWBIN and DHWOIN: afterwards memory itself holds what the line reads as, and with
        DHWBIN the line is no longer in the cache. A miss changes nothing. */
    method HitOp(vaddr: nat, invalidate: bool)
      requires Valid()
      modifies this`mem, sets
      ensures Valid() && Flat() == old(Flat())
      ensures var a := LineOf(vaddr, vmap);
              && (pages(a.page) ==> a in mem && mem[a] == View(sets[a.index], a, mem, pages))
              && (invalidate ==> !sets[a.index].Find(a.page).0)
              && var (hit, w) := old(sets[a.index].Find(a.page));
                 if hit then WroteBack(old(sets[..]), old(mem), sets[..], mem, a.index, w, invalidate)
                 else sets[..] == old(sets[..]) && mem == old(mem)
    {
      var a := LineOf(vaddr, vmap);
      var (hit, w) := sets[a.index].Find(a.page);
      if hit {
        WriteBackIfNeeded(a.index, w);
        if invalidate {
          ClearLine(a.index, w);
        }
      }
    }

    /** DXWBIN: the lowest address bit names the way, which is empty afterwards. */
    method IndexWriteBackInvalidate(vaddr: nat)
      requires Valid()
      modifies this`mem, sets
      ensures Valid() && Flat() == old(Flat())
      ensures !sets[vaddr / 64 % SETS].Way(vaddr % 2 == 1).tag.valid
      ensures WroteBack(old(sets[..]), old(mem), sets[..], mem, vaddr / 64 % SETS, vaddr % 2 == 1, true)
    {
      var i, w := vaddr / 64 % SETS, vaddr % 2 == 1;
      WriteBackIfNeeded(i, w);
      ClearLine(i, w);
    }

    /** DXLTG: the flags of a tag, after writing its line back. */
    method IndexLoadTag(vaddr: nat) returns (tagLo: nat)
      requires Valid()
      modifies this`mem, sets
      ensures Valid() && Flat() == old(Flat())
      ensures WroteBack(old(sets[..]), old(mem), sets[..], mem, vaddr / 64 % SETS, vaddr % 2 == 1, false)
      ensures var tag := sets[vaddr / 64 % SETS].Way(vaddr % 2 == 1).tag;
              && (tagLo / 0x40 % 2 == 1 <==> tag.dirty) && (tagLo / 0x20 % 2 == 1 <==> tag.valid)
              && (tagLo / 0x10 % 2 == 1 <==> tag.lrf) && (tagLo / 8 % 2 == 1 <==> tag.locked)
              && tagLo % 8 == 0 && tagLo < 0x80
    {
      var i, w := vaddr / 64 % SETS, vaddr % 2 == 1;
      WriteBackIfNeeded(i, w);
      tagLo := Flags(sets[i].Way(w).tag);
    }

    /** `writebackCache`: afterwards no line is dirty and memory is what was seen before. */
    method WriteBackAll()
      requires Valid()
      modifies this`mem, sets
      ensures Valid() && Flat() == old(Flat()) && mem == old(Flat())
      ensures forall i, w | 0 <= i < SETS :: !sets[i].Way(w).tag.DirtyAndValid()
    {
      for i := 0 to SETS
        invariant Valid() && Flat() == old(Flat())
        invariant forall k, w | 0 <= k < i :: !sets[k].Way(w).tag.DirtyAndValid()
      {
        WriteBackIfNeeded(i, false);
        WriteBackIfNeeded(i, true);
      }
      CleanMeansFlat(sets[..], mem, pages);
    }

    /** The cache refines memory without one: in any run of accesses and write-backs, every read
        of a page that exists returns the bytes that such a memory holds after the writes before
        it, and that memory is what is seen in the end. */
    method Run(ops: seq<Op>) returns (values: seq<seq<byte>>)
      requires Valid()
      modifies this`mem, sets
      ensures Valid() && Seen() == BytesRun(old(Seen()), ops, vmap)
      ensures |values| == |ops|
      ensures forall k | 0 <= k < |ops| && ops[k].Read? && pages(vmap(ops[k].vaddr / 4096)) ::
                ReadsBytes(BytesRun(old(Seen()), ops[..k], vmap), HostAddress(ops[k].vaddr, ops[k].size, vmap), ops[k].size, values[k])
    {
      values := [];
      for k := 0 to |ops|
        invariant Valid() && Seen() == BytesRun(old(Seen()), ops[..k], vmap) && |values| == k
        invariant forall j | 0 <= j < k && ops[j].Read? && pages(vmap(ops[j].vaddr / 4096)) ::
                    ReadsBytes(BytesRun(old(Seen()), ops[..j], vmap), HostAddress(ops[j].vaddr, ops[j].size, vmap), ops[j].size, values[j])
      {
        assert ops[..k + 1][..k] == ops[..k];
        var value := Do(ops[k]);
        values := values + [value];
      }
      assert ops[..|ops|] == ops;
    }

    /** One operation; the value is empty for all but reads. */
    method Do(op: Op) returns (value: seq<byte>)
      requires Valid()
      modifies this`mem, sets
      ensures Valid() && Seen() == BytesStep(old(Seen()), op, vmap)
      ensures op.Read? && pages(vmap(op.vaddr / 4096)) ==>
                ReadsBytes(old(Seen()), HostAddress(op.vaddr, op.size, vmap), op.size, value)
    {
      if op.Read? {
        value := Read(op.vaddr, op.size, pages(LineOf(op.vaddr, vmap).page));
      } else {
        value := [];
        if op.Write? {
          Write(op.vaddr, op.bytes, pages(LineOf(op.vaddr, vmap).page));
        } else {
          Maintain(op);
        }
      }
    }

    /** The operations that change nothing seen through the cache. */
    method Maintain(op: Op)
      requires Valid() && !op.Read? && !op.Write?
      modifies this`mem, sets
      ensures Valid() && Flat() == old(Flat())
    {
      match op
      case HitWriteBackInvalidate(vaddr) => HitOp(vaddr, true);
      case HitWriteBack(vaddr) => HitOp(vaddr, false);
      case IndexWriteBackInvalidate(vaddr) => IndexWriteBackInvalidate(vaddr);
      case IndexLoadTag(vaddr) => var tagLo := IndexLoadTag(vaddr);
      case WriteBackAll => WriteBackAll();
      case _ =>
    }
  }
}
