/**
  The COP0 TLB and its side index `cachedTlbs`, a compact array with one row for every
  entry that maps cached memory. The page-map calls beside it are not modelled.
 */
module TlbIndex {
  import opened Arithmetic

  const ENTRIES: nat := 48

  // ----- entries -----

  datatype EntryLo = EntryLo(g: bool, v: bool, d: bool, c: nat, pfn: nat, s: bool) {
    predicate IsCached() { c == 3 }
    predicate IsValidCacheMode() { c == 2 || c == 3 || c == 7 }
  }

  /** The bit fields of an EntryLo register. */
  function Unpack(ul: u32): EntryLo {
    EntryLo(ul % 2 == 1, ul / 2 % 2 == 1, ul / 4 % 2 == 1, ul / 8 % 8, ul / 64 % 0x10_0000, ul / 0x8000_0000 == 1)
  }

  /** The low `n` bits of `x & ~y`. */
  function AndNot(x: nat, y: nat, n: nat): nat
    decreases n, x, y
  {
    if n == 0 then 0 else (if x % 2 == 1 && y % 2 == 0 then 1 else 0) + 2 * AndNot(x / 2, y / 2, n - 1)
  }

  function PopCount(x: nat): nat {
    if x == 0 then 0 else x % 2 + PopCount(x / 2)
  }

  function ConvertPageMask(pageMask: u32): int {
    Pow2(12 + PopCount(pageMask / 0x2000)) - 1
  }

  datatype Entry = Entry(pageMask: u32, entryHi: u32, lo0: EntryLo, lo1: EntryLo) {
    predicate IsSPR() { lo0.s }
    function Mask(): nat { pageMask / 0x2000 % 0x1000 }
    function PFN0(): nat { 0x1000 * AndNot(lo0.pfn, Mask(), 20) }
    function PFN1(): nat { 0x1000 * AndNot(lo1.pfn, Mask(), 20) }

    /** Worth a row in the side index. */
    predicate Qualifies() {
      !IsSPR() && ((lo0.v && lo0.IsCached()) || (lo1.v && lo1.IsCached()))
    }

    /** What rows are looked up by when an entry goes. */
    function LookupKey(): Key {
      Key(PFN0(), PFN1(), ConvertPageMask(pageMask))
    }

    function IndexRow(): Row {
      Row(lo0.IsCached(), lo1.IsCached(), LookupKey())
    }
  }

  datatype Key = Key(pfn0: nat, pfn1: nat, pageMask: int)
  datatype Row = Row(enabled0: bool, enabled1: bool, key: Key)

  /** The entry that WriteTLB makes of the registers: scratchpad entries are cached, others
      with a reserved cache mode are not. */
  function NewEntry(pageMask: u32, entryHi: u32, entryLo0: u32, entryLo1: u32): (e: Entry)
    ensures e.IsSPR() ==> e.lo0.IsCached() && e.lo1.IsCached()
    ensures !e.IsSPR() ==> e.lo0.IsValidCacheMode() && e.lo1.IsValidCacheMode()
  {
    var lo0, lo1 := Unpack(entryLo0), Unpack(entryLo1);
    if lo0.s then Entry(pageMask, entryHi, lo0.(c := 3), lo1.(c := 3))
    else Entry(pageMask, entryHi,
               if lo0.IsValidCacheMode() then lo0 else lo0.(c := 2),
               if lo1.IsValidCacheMode() then lo1 else lo1.(c := 2))
  }

  // ----- what the two operations do to entries and rows -----

  datatype Model = Model(entries: seq<Entry>, rows: seq<Row>)

  function RemoveFirst(rows: seq<Row>, key: Key): seq<Row> {
    if rows == [] then []
    else if rows[0].key == key then rows[1..]
    else [rows[0]] + RemoveFirst(rows[1..], key)
  }

  /** RemoveFirst takes out the row at the first place that has the key, if there is one. */
  lemma {:induction false} FirstMatch(rows: seq<Row>, i: nat, key: Key)
    requires i <= |rows| && forall k | 0 <= k < i :: rows[k].key != key
    requires i < |rows| ==> rows[i].key == key
    ensures RemoveFirst(rows, key) == if i < |rows| then rows[..i] + rows[i + 1..] else rows
  {
    if i > 0 {
      var rest := rows[1..];
      FirstMatch(rest, i - 1, key);
      assert rows == [rows[0]] + rest;
      if i < |rows| {
        assert rest[..i - 1] == rows[1..i] && rest[i..] == rows[i + 1..];
        assert rows[..i] == [rows[0]] + rows[1..i];
        assert [rows[0]] + (rows[1..i] + rows[i + 1..]) == rows[..i] + rows[i + 1..];
      }
    }
  }

  function Unmapped(rows: seq<Row>, e: Entry): seq<Row> {
    if e.IsSPR() then rows else RemoveFirst(rows, e.LookupKey())
  }

  /** UnmapTLB of the entry in slot `j`, then WriteTLB of `e` there. */
  function Replace(m: Model, j: nat, e: Entry): Model
    requires j < |m.entries|
  {
    Model(m.entries[j := e], Unmapped(m.rows, m.entries[j]) + if e.Qualifies() then [e.IndexRow()] else [])
  }

  // ----- bags -----

  /** The bags that `f` gives for the elements, taken together. */
  function Sum<E, T>(es: seq<E>, f: E -> multiset<T>): multiset<T> {
    if es == [] then multiset{} else f(es[0]) + Sum(es[1..], f)
  }

  lemma {:induction false} SumReplace<E, T>(es: seq<E>, f: E -> multiset<T>, j: nat, e: E)
    requires j < |es|
    ensures Sum(es[j := e], f) + f(es[j]) == Sum(es, f) + f(e)
    ensures f(es[j]) <= Sum(es, f)
  {
    if j == 0 {
      assert es[0 := e][1..] == es[1..];
    } else {
      SumReplace(es[1..], f, j - 1, e);
      assert es[j := e][1..] == es[1..][j - 1 := e];
      Regroup(f(es[0]), Sum(es[1..][j - 1 := e], f), f(es[j]), Sum(es[1..], f), f(e));
    }
  }

  lemma Regroup<T>(a: multiset<T>, x: multiset<T>, y: multiset<T>, z: multiset<T>, w: multiset<T>)
    requires x + y == z + w
    ensures (a + x) + y == (a + z) + w
  {
    assert (a + x) + y == a + (x + y);
    assert (a + z) + w == a + (z + w);
  }

  lemma {:induction false} SumAppend<E, T>(es: seq<E>, f: E -> multiset<T>, e: E)
    ensures Sum(es + [e], f) == Sum(es, f) + f(e)
  {
    if es == [] {
      assert (es + [e])[1..] == [];
    } else {
      SumAppend(es[1..], f, e);
      assert (es + [e])[1..] == es[1..] + [e];
    }
  }

  /** At most one element each, and none for element `j`. */
  lemma {:induction false} SumSize<E, T>(es: seq<E>, f: E -> multiset<T>, j: nat)
    requires forall i | 0 <= i < |es| :: |f(es[i])| <= 1
    requires j < |es| ==> f(es[j]) == multiset{}
    ensures |Sum(es, f)| <= if j < |es| then |es| - 1 else |es|
  {
    if es != [] {
      SumSize(es[1..], f, if j == 0 then |es| else j - 1);
    }
  }

  // ----- the bags of keys -----

  function KeyOfRow(r: Row): multiset<Key> {
    multiset{r.key}
  }

  function RowKeys(rows: seq<Row>): multiset<Key> {
    Sum(rows, KeyOfRow)
  }

  function KeyOfEntry(e: Entry): multiset<Key> {
    if e.Qualifies() then multiset{e.LookupKey()} else multiset{}
  }

  /** The keys of the entries that qualify. */
  function QualifiedKeys(es: seq<Entry>): multiset<Key> {
    Sum(es, KeyOfEntry)
  }

  lemma {:induction false} RemoveKey(rows: seq<Row>, key: Key)
    ensures RowKeys(RemoveFirst(rows, key)) == RowKeys(rows) - multiset{key}
  {
    if rows != [] && rows[0].key != key {
      RemoveKey(rows[1..], key);
      assert RemoveFirst(rows, key)[1..] == RemoveFirst(rows[1..], key);
    }
  }

  lemma {:induction false} RowCount(rows: seq<Row>)
    ensures |RowKeys(rows)| == |rows|
  {
    if rows != [] {
      RowCount(rows[1..]);
    }
  }

  /** The keys after a replacement. */
  lemma KeysAfter(m: Model, j: nat, e: Entry)
    requires j < |m.entries|
    ensures RowKeys(Replace(m, j, e).rows) == RowKeys(Unmapped(m.rows, m.entries[j])) + KeyOfEntry(e)
    ensures QualifiedKeys(m.entries[j := e]) + KeyOfEntry(m.entries[j]) == QualifiedKeys(m.entries) + KeyOfEntry(e)
    ensures KeyOfEntry(m.entries[j]) <= QualifiedKeys(m.entries)
  {
    var rest := Unmapped(m.rows, m.entries[j]);
    SumReplace(m.entries, KeyOfEntry, j, e);
    if e.Qualifies() {
      SumAppend(rest, KeyOfRow, e.IndexRow());
    } else {
      assert rest + [] == rest;
    }
  }

  // ----- the side index never holds a stale key -----

  ghost predicate Contained(m: Model) {
    RowKeys(m.rows) <= QualifiedKeys(m.entries)
  }

  /** Taking an entry's row out keeps the others among the entries that are left. */
  lemma UnmapContained(m: Model, j: nat)
    requires j < |m.entries| && Contained(m)
    ensures RowKeys(Unmapped(m.rows, m.entries[j])) + KeyOfEntry(m.entries[j]) <= QualifiedKeys(m.entries)
  {
    var gone := m.entries[j];
    SumReplace(m.entries, KeyOfEntry, j, gone);
    RemoveKey(m.rows, gone.LookupKey());
  }

  /** Every replacement keeps the rows' keys among those of the entries that qualify. */
  lemma ReplaceContained(m: Model, j: nat, e: Entry)
    requires j < |m.entries| && Contained(m)
    ensures Contained(Replace(m, j, e))
  {
    UnmapContained(m, j);
    KeysAfter(m, j, e);
    Exchange(RowKeys(Unmapped(m.rows, m.entries[j])), KeyOfEntry(m.entries[j]), QualifiedKeys(m.entries),
             QualifiedKeys(m.entries[j := e]), KeyOfEntry(e));
  }

  lemma Exchange<T>(rows: multiset<T>, gone: multiset<T>, all: multiset<T>, all': multiset<T>, come: multiset<T>)
    requires all' + gone == all + come
    ensures rows + gone <= all ==> rows + come <= all'
    ensures rows + gone == all ==> rows + come == all'
  {
    forall x: T | x in rows + come || x in all'
      ensures rows[x] + gone[x] <= all[x] ==> rows[x] + come[x] <= all'[x]
      ensures rows[x] + gone[x] == all[x] ==> rows[x] + come[x] == all'[x]
    {
      assert (all' + gone)[x] == (all + come)[x];
    }
    if rows + gone <= all {
      forall x: T | x in rows + come ensures (rows + come)[x] <= all'[x] {
        assert (rows + gone)[x] <= all[x];
      }
    }
    if rows + gone == all {
      forall x: T ensures (rows + come)[x] == all'[x] {
        assert (rows + gone)[x] == all[x];
        assert (all' + gone)[x] == (all + come)[x];
      }
    }
  }

  /** After UnmapTLB there is room for one more row. */
  lemma RoomForRow(m: Model, j: nat)
    requires j < |m.entries| && Contained(m)
    ensures |Unmapped(m.rows, m.entries[j])| < |m.entries|
  {
    var rest := Unmapped(m.rows, m.entries[j]);
    UnmapContained(m, j);
    RowCount(rest);
    SumSize(m.entries, KeyOfEntry, if m.entries[j].Qualifies() then |m.entries| else j);
    SmallerBag(RowKeys(rest) + KeyOfEntry(m.entries[j]), QualifiedKeys(m.entries));
  }

  lemma SmallerBag<T>(a: multiset<T>, b: multiset<T>)
    requires a <= b
    ensures |a| <= |b|
  {
    assert b == a + (b - a);
  }

  // ----- when the side index misses nothing -----

  ghost predicate Exact(m: Model) {
    RowKeys(m.rows) == QualifiedKeys(m.entries)
  }

  /** UnmapTLB of this entry takes out a row that belongs to another one. */
  predicate StealsRow(m: Model, j: nat)
    requires j < |m.entries|
  {
    var gone := m.entries[j];
    !gone.IsSPR() && !gone.Qualifies() && gone.LookupKey() in RowKeys(m.rows)
  }

  /** A replacement keeps the index exact if and only if the entry that goes does not share its
      key with a row while having none of its own. */
  lemma StaysExactIff(m: Model, j: nat, e: Entry)
    requires j < |m.entries| && Exact(m)
    ensures Exact(Replace(m, j, e)) <==> !StealsRow(m, j)
  {
    var gone, rest := m.entries[j], Unmapped(m.rows, m.entries[j]);
    KeysAfter(m, j, e);
    RemoveKey(m.rows, gone.LookupKey());
    if StealsRow(m, j) {
      var k := gone.LookupKey();
      assert (RowKeys(rest) + KeyOfEntry(e))[k] < (QualifiedKeys(m.entries) + KeyOfEntry(e))[k];
    } else {
      Exchange(RowKeys(rest), KeyOfEntry(gone), QualifiedKeys(m.entries),
               QualifiedKeys(m.entries[j := e]), KeyOfEntry(e));
    }
  }

  /** No entry that qualifies has its key in common with another non-scratchpad entry. */
  ghost predicate NoSharing(es: seq<Entry>) {
    forall i, j | 0 <= i < |es| && 0 <= j < |es| && i != j && es[i].Qualifies() && !es[j].IsSPR() ::
      es[i].LookupKey() != es[j].LookupKey()
  }

  function RowOfEntry(e: Entry): multiset<Row> {
    if e.Qualifies() then multiset{e.IndexRow()} else multiset{}
  }

  /** The rows, cache-enable flags and all, are those of the entries that qualify. */
  ghost predicate SameRows(m: Model) {
    multiset(m.rows) == Sum(m.entries, RowOfEntry)
  }

  lemma {:induction false} InSum(es: seq<Entry>, r: Row) returns (i: nat)
    requires r in Sum(es, RowOfEntry)
    ensures i < |es| && es[i].Qualifies() && es[i].IndexRow() == r
  {
    if r in RowOfEntry(es[0]) {
      i := 0;
    } else {
      i := InSum(es[1..], r);
      i := i + 1;
    }
  }

  /** The row that UnmapTLB takes out for a key: the first one with it, if there is one. */
  function TakenOut(rows: seq<Row>, key: Key): multiset<Row> {
    if rows == [] then multiset{}
    else if rows[0].key == key then multiset{rows[0]}
    else TakenOut(rows[1..], key)
  }

  lemma {:induction false} RemovedIsTaken(rows: seq<Row>, key: Key)
    ensures multiset(rows) == multiset(RemoveFirst(rows, key)) + TakenOut(rows, key)
  {
    if rows != [] {
      assert rows == [rows[0]] + rows[1..];
      if rows[0].key != key {
        RemovedIsTaken(rows[1..], key);
        Regroup(multiset{rows[0]}, multiset(rows[1..]), multiset{}, multiset(RemoveFirst(rows[1..], key)), TakenOut(rows[1..], key));
      }
    }
  }

  lemma {:induction false} TakenIsOwn(rows: seq<Row>, r: Row)
    requires r in rows && forall q | q in rows && q.key == r.key :: q == r
    ensures TakenOut(rows, r.key) == multiset{r}
  {
    if rows[0].key != r.key {
      TakenIsOwn(rows[1..], r);
    }
  }

  lemma {:induction false} NothingTaken(rows: seq<Row>, key: Key)
    requires forall q | q in rows :: q.key != key
    ensures TakenOut(rows, key) == multiset{}
  {
    if rows != [] {
      assert rows[0] in rows;
      NothingTaken(rows[1..], key);
    }
  }

  /** UnmapTLB of this entry takes out the entry's own row, and none if it has none. */
  predicate TakesOwnRow(m: Model, j: nat)
    requires j < |m.entries|
  {
    var gone := m.entries[j];
    gone.IsSPR() || TakenOut(m.rows, gone.LookupKey()) == RowOfEntry(gone)
  }

  /** A replacement keeps the index right in every detail, cache-enable flags included, if and
      only if the first row with the key of the entry that goes is that entry's own. */
  lemma StaysSameRowsIff(m: Model, j: nat, e: Entry)
    requires j < |m.entries| && SameRows(m)
    ensures SameRows(Replace(m, j, e)) <==> TakesOwnRow(m, j)
  {
    var gone, rest := m.entries[j], Unmapped(m.rows, m.entries[j]);
    var all, all' := Sum(m.entries, RowOfEntry), Sum(m.entries[j := e], RowOfEntry);
    var taken := if gone.IsSPR() then multiset{} else TakenOut(m.rows, gone.LookupKey());
    SumReplace(m.entries, RowOfEntry, j, e);
    RemovedIsTaken(m.rows, gone.LookupKey());
    assert multiset(rest) + taken == all;
    assert multiset(Replace(m, j, e).rows) == multiset(rest) + RowOfEntry(e);
    ExchangeIff(multiset(rest), RowOfEntry(gone), taken, all, all', RowOfEntry(e));
  }

  lemma ExchangeIff<T>(rest: multiset<T>, gone: multiset<T>, taken: multiset<T>, all: multiset<T>, all': multiset<T>, come: multiset<T>)
    requires rest + taken == all && all' + gone == all + come
    ensures rest + come == all' <==> taken == gone
  {
    if rest + come == all' {
      assert (rest + come) + gone == (rest + come) + taken;
      Cancel(rest + come, gone, taken);
    }
    Exchange(rest, gone, all, all', come);
  }

  lemma Cancel<T>(a: multiset<T>, b: multiset<T>, c: multiset<T>)
    requires a + b == a + c
    ensures b == c
  {
    assert (a + b) - a == b;
    assert (a + c) - a == c;
  }

  /** While no key is shared the index is right in every detail. */
  lemma ReplaceSameRows(m: Model, j: nat, e: Entry)
    requires j < |m.entries| && SameRows(m) && NoSharing(m.entries)
    ensures SameRows(Replace(m, j, e))
  {
    UnsharedTakesOwn(m, j);
    StaysSameRowsIff(m, j, e);
  }

  lemma UnsharedTakesOwn(m: Model, j: nat)
    requires j < |m.entries| && SameRows(m) && NoSharing(m.entries)
    ensures TakesOwnRow(m, j)
  {
    var gone := m.entries[j];
    if !gone.IsSPR() {
      forall q | q in m.rows && q.key == gone.LookupKey() ensures gone.Qualifies() && q == gone.IndexRow() {
        assert q in multiset(m.rows);
        var i := InSum(m.entries, q);
      }
      SumReplace(m.entries, RowOfEntry, j, gone);
      if gone.Qualifies() {
        assert gone.IndexRow() in multiset(m.rows);
        TakenIsOwn(m.rows, gone.IndexRow());
      } else {
        NothingTaken(m.rows, gone.LookupKey());
      }
    }
  }

  /** Two cached entries with one key and different flags: replacing the one whose row comes
      second leaves its row behind and takes the other's. The keys stay right, the flags do not. */
  lemma SharedKeyMixesFlags(m: Model, j: nat, e: Entry, first: Row)
    requires j < |m.entries| && SameRows(m) && Exact(m) && m.entries[j].Qualifies()
    requires TakenOut(m.rows, m.entries[j].LookupKey()) == multiset{first} && first != m.entries[j].IndexRow()
    ensures Exact(Replace(m, j, e)) && !SameRows(Replace(m, j, e))
  {
    StaysExactIff(m, j, e);
    assert m.entries[j].IndexRow() !in TakenOut(m.rows, m.entries[j].LookupKey());
    StaysSameRowsIff(m, j, e);
  }

  // ----- runs -----

  datatype Write = Write(slot: nat, entry: Entry)

  /** A run of TLBWI and TLBWR; a slot above 47 is refused. */
  function Run(m: Model, writes: seq<Write>): Model {
    if writes == [] then m else
    var before, w := Run(m, writes[..|writes| - 1]), writes[|writes| - 1];
    if w.slot < |before.entries| then Replace(before, w.slot, w.entry) else before
  }

  const BLANK := Entry(0, 0, EntryLo(false, false, false, 0, 0, false), EntryLo(false, false, false, 0, 0, false))

  function Blanks(n: nat): (es: seq<Entry>)
    ensures |es| == n && forall i | 0 <= i < n :: es[i] == BLANK
  {
    seq(n, _ => BLANK)
  }

  const INITIAL := Model(Blanks(ENTRIES), [])

  lemma {:induction false} SumOfBlanks<T>(n: nat, es: seq<Entry>, f: Entry -> multiset<T>)
    requires |es| == n && (forall i | 0 <= i < n :: es[i] == BLANK) && f(BLANK) == multiset{}
    ensures Sum(es, f) == multiset{}
  {
    if n > 0 {
      SumOfBlanks(n - 1, es[1..], f);
    }
  }

  /** In every run from an empty TLB the rows' keys are among those of the entries that
      qualify, and there are never more than 48 rows. */
  lemma {:induction false} RunContained(writes: seq<Write>)
    ensures var m := Run(INITIAL, writes); Contained(m) && |m.entries| == ENTRIES && |m.rows| <= ENTRIES
    decreases |writes|
  {
    if writes == [] {
      SumOfBlanks(ENTRIES, INITIAL.entries, KeyOfEntry);
    } else {
      var before, w := Run(INITIAL, writes[..|writes| - 1]), writes[|writes| - 1];
      RunContained(writes[..|writes| - 1]);
      if w.slot < ENTRIES {
        ReplaceContained(before, w.slot, w.entry);
      }
    }
    var m := Run(INITIAL, writes);
    RowCount(m.rows);
    SumSize(m.entries, KeyOfEntry, |m.entries|);
    SmallerBag(RowKeys(m.rows), QualifiedKeys(m.entries));
  }

  /** In a run in which no key is ever shared the index is right in every detail. */
  lemma {:induction false} RunSameRows(writes: seq<Write>)
    requires forall k | 0 <= k < |writes| :: NoSharing(Run(INITIAL, writes[..k]).entries)
    ensures SameRows(Run(INITIAL, writes))
    decreases |writes|
  {
    if writes == [] {
      SumOfBlanks(ENTRIES, INITIAL.entries, RowOfEntry);
    } else {
      var n := |writes| - 1;
      forall k | 0 <= k < n ensures NoSharing(Run(INITIAL, writes[..n][..k]).entries) {
        assert writes[..n][..k] == writes[..k];
      }
      RunSameRows(writes[..n]);
      var before, w := Run(INITIAL, writes[..n]), writes[n];
      if w.slot < |before.entries| {
        ReplaceSameRows(before, w.slot, w.entry);
      }
    }
  }

  /** Sharing does go wrong: an entry that is not cached and has the key of one that is, when
      replaced by anything, takes the other's row with it. */
  lemma SharedKeyLosesRow(m: Model, i: nat, j: nat, e: Entry)
    requires i < |m.entries| && j < |m.entries| && i != j && Exact(m)
    requires m.entries[i].Qualifies() && !m.entries[j].Qualifies() && !m.entries[j].IsSPR()
    requires m.entries[i].LookupKey() == m.entries[j].LookupKey()
    ensures !Exact(Replace(m, j, e))
  {
    SumReplace(m.entries, KeyOfEntry, i, m.entries[i]);
    StaysExactIff(m, j, e);
  }

  /** And it does come about: any such pair of entries can be written into an empty TLB. */
  lemma SharingIsReachable(e: Entry, u: Entry, x: Entry)
    requires e.Qualifies() && !u.Qualifies() && !u.IsSPR() && e.LookupKey() == u.LookupKey()
    requires e.LookupKey() != BLANK.LookupKey()
    ensures !Exact(Run(INITIAL, [Write(0, e), Write(1, u), Write(1, x)]))
  {
    var m1 := Replace(INITIAL, 0, e);
    var m2 := Replace(m1, 1, u);
    TwoWritesExact(e, u, m1);
    SharedKeyLosesRow(m2, 0, 1, x);
    ThreeWrites(e, u, x);
  }

  /** For example a cached page frame 1 in slot 0 and an uncached one in slot 1, which is then
      overwritten. */
  lemma SharingExample() returns (writes: seq<Write>)
    ensures |writes| == 3
    ensures writes[0] == Write(0, NewEntry(0, 0, 0x5A, 0)) && writes[1] == Write(1, NewEntry(0, 0, 0x52, 0))
    ensures writes[2] == Write(1, NewEntry(0, 0, 0, 0))
    ensures !Exact(Run(INITIAL, writes))
  {
    var e, u, x := NewEntry(0, 0, 0x5A, 0), NewEntry(0, 0, 0x52, 0), NewEntry(0, 0, 0, 0);
    ExampleFields(e, u);
    SharingPair(e, u);
    writes := [Write(0, e), Write(1, u), Write(1, x)];
    SharingIsReachable(e, u, x);
  }

  /** Bit fields 0x5A and 0x52: valid, page frame 1, cache modes 3 and 2. */
  lemma ExampleFields(e: Entry, u: Entry)
    requires e == NewEntry(0, 0, 0x5A, 0) && u == NewEntry(0, 0, 0x52, 0)
    ensures e.lo0 == EntryLo(false, true, false, 3, 1, false) && u.lo0 == e.lo0.(c := 2)
    ensures e.lo1 == u.lo1 && e.pageMask == u.pageMask && !u.lo1.v && e.Mask() % 2 == 0
  {
  }

  lemma SharingPair(e: Entry, u: Entry)
    requires e.lo0 == EntryLo(false, true, false, 3, 1, false) && u.lo0 == e.lo0.(c := 2)
    requires e.lo1 == u.lo1 && e.pageMask == u.pageMask && !u.lo1.v && e.Mask() % 2 == 0
    ensures e.Qualifies() && !u.Qualifies() && !u.IsSPR() && e.LookupKey() == u.LookupKey()
    ensures e.LookupKey() != BLANK.LookupKey()
  {
    SameFrames(e, u);
    OddFrame(e, BLANK);
  }

  lemma SameFrames(e: Entry, u: Entry)
    requires e.pageMask == u.pageMask && e.lo0.pfn == u.lo0.pfn && e.lo1.pfn == u.lo1.pfn
    ensures e.LookupKey() == u.LookupKey()
  {
  }

  lemma OddFrame(e: Entry, blank: Entry)
    requires e.lo0.pfn % 2 == 1 && e.Mask() % 2 == 0 && blank.lo0.pfn == 0
    ensures e.LookupKey() != blank.LookupKey()
  {
    NoBits(blank.Mask(), 20);
  }

  lemma {:induction false} NoBits(y: nat, n: nat)
    ensures AndNot(0, y, n) == 0
  {
    if n > 0 {
      NoBits(y / 2, n - 1);
    }
  }

  /** Flags get mixed up in the same way: two cached entries with one key, the second of which
      is overwritten. */
  lemma MixingIsReachable(e: Entry, u: Entry, x: Entry)
    requires e.Qualifies() && u.Qualifies() && e.LookupKey() == u.LookupKey() && e.IndexRow() != u.IndexRow()
    requires e.LookupKey() != BLANK.LookupKey()
    ensures var m := Run(INITIAL, [Write(0, e), Write(1, u), Write(1, x)]); Exact(m) && !SameRows(m)
  {
    var m1 := Replace(INITIAL, 0, e);
    var m2 := Replace(m1, 1, u);
    SumOfBlanks(ENTRIES, INITIAL.entries, RowOfEntry);
    StaysSameRowsIff(INITIAL, 0, e);
    assert m1.rows == [e.IndexRow()] && m1.rows[1..] == [];
    StaysSameRowsIff(m1, 1, u);
    assert m2.rows == [e.IndexRow(), u.IndexRow()];
    SumOfBlanks(ENTRIES, INITIAL.entries, KeyOfEntry);
    StaysExactIff(INITIAL, 0, e);
    MixedRowsExact(e, u, m1);
    SharedKeyMixesFlags(m2, 1, x, e.IndexRow());
    ThreeWrites(e, u, x);
  }

  lemma MixedRowsExact(e: Entry, u: Entry, m1: Model)
    requires m1 == Replace(INITIAL, 0, e) && Exact(m1)
    requires e.Qualifies() && e.LookupKey() != BLANK.LookupKey()
    ensures Exact(Replace(m1, 1, u))
  {
    KeysAfter(INITIAL, 0, e);
    StaysExactIff(m1, 1, u);
  }

  /** For example page frame 1 with both halves cached in one slot, and with the second half
      uncached in the other. */
  lemma MixingExample() returns (writes: seq<Write>)
    ensures |writes| == 3
    ensures writes[0] == Write(0, NewEntry(0, 0, 0x5A, 0x5A)) && writes[1] == Write(1, NewEntry(0, 0, 0x5A, 0x52))
    ensures writes[2] == Write(1, NewEntry(0, 0, 0, 0))
    ensures Exact(Run(INITIAL, writes)) && !SameRows(Run(INITIAL, writes))
  {
    var e, u, x := NewEntry(0, 0, 0x5A, 0x5A), NewEntry(0, 0, 0x5A, 0x52), NewEntry(0, 0, 0, 0);
    MixingFields(e, u);
    MixingPair(e, u);
    writes := [Write(0, e), Write(1, u), Write(1, x)];
    MixingIsReachable(e, u, x);
  }

  lemma MixingFields(e: Entry, u: Entry)
    requires e == NewEntry(0, 0, 0x5A, 0x5A) && u == NewEntry(0, 0, 0x5A, 0x52)
    ensures e.lo0 == u.lo0 == e.lo1 == EntryLo(false, true, false, 3, 1, false) && u.lo1 == e.lo1.(c := 2)
    ensures e.pageMask == u.pageMask && e.Mask() % 2 == 0
  {
  }

  lemma MixingPair(e: Entry, u: Entry)
    requires e.lo0 == u.lo0 == e.lo1 == EntryLo(false, true, false, 3, 1, false) && u.lo1 == e.lo1.(c := 2)
    requires e.pageMask == u.pageMask && e.Mask() % 2 == 0
    ensures e.Qualifies() && u.Qualifies() && e.LookupKey() == u.LookupKey() != BLANK.LookupKey()
    ensures e.IndexRow() != u.IndexRow()
  {
    SameFrames(e, u);
    OddFrame(e, BLANK);
  }

  lemma ThreeWrites(e: Entry, u: Entry, x: Entry)
    ensures Run(INITIAL, [Write(0, e), Write(1, u), Write(1, x)]) == Replace(Replace(Replace(INITIAL, 0, e), 1, u), 1, x)
  {
    RunSnoc(INITIAL, [], Write(0, e));
    RunSnoc(INITIAL, [Write(0, e)], Write(1, u));
    RunSnoc(INITIAL, [Write(0, e), Write(1, u)], Write(1, x));
    assert [] + [Write(0, e)] == [Write(0, e)];
    assert [Write(0, e)] + [Write(1, u)] == [Write(0, e), Write(1, u)];
    assert [Write(0, e), Write(1, u)] + [Write(1, x)] == [Write(0, e), Write(1, u), Write(1, x)];
  }

  lemma RunSnoc(m: Model, writes: seq<Write>, w: Write)
    ensures var before := Run(m, writes);
            Run(m, writes + [w]) == if w.slot < |before.entries| then Replace(before, w.slot, w.entry) else before
  {
    assert (writes + [w])[..|writes|] == writes;
  }

  lemma TwoWritesExact(e: Entry, u: Entry, m1: Model)
    requires e.Qualifies() && !u.Qualifies() && e.LookupKey() != BLANK.LookupKey()
    requires m1 == Replace(INITIAL, 0, e)
    ensures Exact(Replace(m1, 1, u))
  {
    SumOfBlanks(ENTRIES, INITIAL.entries, KeyOfEntry);
    StaysExactIff(INITIAL, 0, e);
    KeysAfter(INITIAL, 0, e);
    StaysExactIff(m1, 1, u);
  }

  // ----- the TLB -----

  class Tlb {
    const tlb: array<Entry>
    const cached: array<Row>
    var count: nat
    var pageMask: u32
    var entryHi: u32
    var entryLo0: u32
    var entryLo1: u32
    var index: u32
    var random: u32

    ghost function Value(): Model
      reads this, tlb, cached
      requires count <= cached.Length
    {
      Model(tlb[..], cached[..count])
    }

    ghost predicate Valid()
      reads this, tlb, cached
    {
      tlb.Length == ENTRIES && cached.Length == ENTRIES && count <= ENTRIES && Contained(Value())
    }

    constructor ()
      ensures Valid() && Value() == INITIAL && fresh(tlb) && fresh(cached)
    {
      tlb := new Entry[ENTRIES](_ => BLANK);
      cached := new Row[ENTRIES](_ => Row(false, false, Key(0, 0, 0)));
      count, pageMask, entryHi, entryLo0, entryLo1, index, random := 0, 0, 0, 0, 0, 0, 0;
      new;
      RunContained([]);
      assert tlb[..] == INITIAL.entries && cached[..0] == [];
    }

    /** The part of UnmapTLB that concerns the index: take out the first row with the key of
        `t` and close the gap. */
    method UnmapTLB(t: Entry)
      requires cached.Length == ENTRIES && count <= ENTRIES
      modifies this`count, cached
      ensures count <= old(count) && cached[..count] == Unmapped(old(cached[..count]), t)
    {
      if t.IsSPR() {
        return;
      }
      var i := 0;
      while i < count && cached[i].key != t.LookupKey()
        invariant i <= count
        invariant forall k | 0 <= k < i :: cached[k].key != t.LookupKey()
      {
        i := i + 1;
      }
      FirstMatch(cached[..count], i, t.LookupKey());
      if i < count {
        CloseGap(i);
        count := count - 1;
      }
    }

    /** The shift-down loop. */
    method CloseGap(i: nat)
      requires i < count <= cached.Length
      modifies cached
      ensures cached[..count - 1] == old(cached[..i]) + old(cached[i + 1..count])
    {
      var j := i;
      ghost var was := cached[..];
      while j < count - 1
        invariant i <= j <= count - 1
        invariant forall k | 0 <= k < i :: cached[k] == was[k]
        invariant forall k | i <= k < j :: cached[k] == was[k + 1]
        invariant forall k | j <= k < count :: cached[k] == was[k]
      {
        cached[j] := cached[j + 1];
        j := j + 1;
      }
      ghost var target := was[..i] + was[i + 1..count];
      assert forall k | i <= k < count - 1 :: target[k] == was[k + 1];
      assert cached[..count - 1] == target;
    }

    /** WriteTLB without the page maps: `e` is what the registers make. */
    method WriteTLB(j: nat, e: Entry)
      requires tlb.Length == ENTRIES && cached.Length == ENTRIES && count < ENTRIES && j < ENTRIES
      modifies this`count, cached, tlb
      ensures count <= ENTRIES && tlb[..] == old(tlb[..])[j := e]
      ensures cached[..count] == old(cached[..count]) + if e.Qualifies() then [e.IndexRow()] else []
    {
      tlb[j] := e;
      if e.Qualifies() {
        cached[count] := e.IndexRow();
        count := count + 1;
      }
    }

    method ReplaceSlot(j: nat, e: Entry)
      requires Valid() && j < ENTRIES
      modifies this`count, cached, tlb
      ensures Valid() && Value() == Replace(old(Value()), j, e)
    {
      RoomForRow(Value(), j);
      ReplaceContained(Value(), j, e);
      UnmapTLB(tlb[j]);
      WriteTLB(j, e);
    }

    /** TLBWI and TLBWR with the register that names the slot; slots above 47 are refused. */
    method WriteSlot(register: u32)
      requires Valid()
      modifies this`count, cached, tlb
      ensures Valid()
      ensures Value() == if register % 64 > 47 then old(Value())
                         else Replace(old(Value()), register % 64, NewEntry(pageMask, entryHi, entryLo0, entryLo1))
    {
      if register % 64 <= 47 {
        ReplaceSlot(register % 64, NewEntry(pageMask, entryHi, entryLo0, entryLo1));
      }
    }

    method TLBWI()
      requires Valid()
      modifies this`count, cached, tlb
      ensures Valid()
      ensures Value() == if index % 64 > 47 then old(Value())
                         else Replace(old(Value()), index % 64, NewEntry(pageMask, entryHi, entryLo0, entryLo1))
    {
      WriteSlot(index);
    }

    method TLBWR()
      requires Valid()
      modifies this`count, cached, tlb
      ensures Valid()
      ensures Value() == if random % 64 > 47 then old(Value())
                         else Replace(old(Value()), random % 64, NewEntry(pageMask, entryHi, entryLo0, entryLo1))
    {
      WriteSlot(random);
    }
  }
}
