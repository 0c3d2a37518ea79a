/**
  `LRUCache`: a map of values stamped with the time of their last access, against a list
  of entries in the order they were last touched.
 */
module LruCache {
  import opened Arithmetic
  import opened Wrappers

  const WORD_LIMIT := 0x1_0000_0000_0000_0000  // 2^64
  type u64 = x: nat | x < WORD_LIMIT

  // ----- the recency list: least recently touched first -----

  type Entries<K, V> = seq<(K, V)>

  function Find<K(==), V>(l: Entries<K, V>, key: K): Option<V> {
    if l == [] then None
    else if l[0].0 == key then Some(l[0].1)
    else Find(l[1..], key)
  }

  function Without<K(==), V>(l: Entries<K, V>, key: K): (r: Entries<K, V>)
    ensures |r| == if Find(l, key).Some? then |l| - 1 else |l|
  {
    if l == [] then []
    else if l[0].0 == key then l[1..]
    else [l[0]] + Without(l[1..], key)
  }

  /** Drop the `n` least recently touched entries. */
  function DropOldest<K, V>(l: Entries<K, V>, n: nat): (r: Entries<K, V>)
    ensures |r| == if n <= |l| then |l| - n else 0
  {
    if n <= |l| then l[n..] else []
  }

  datatype Op<K, V> =
    | Lookup(key: K) | Insert(key: K, value: V) | Evict(count: u64) | Remove(key: K)
    | SetMaxCapacity(capacity: u64) | SetManualEvict(block: bool) | ManualEvict | Clear

  /** Lookup and Insert return a pointer to a value or null, Remove whether the key was there. */
  datatype Answer<V> = Nothing | Value(value: Option<V>) | Removed(found: bool)

  datatype Model<K, V> = Model(entries: Entries<K, V>, capacity: u64)

  /** Entries over capacity go, oldest first. */
  function Trim<K, V>(l: Entries<K, V>, capacity: nat): Entries<K, V> {
    if |l| > capacity then DropOldest(l, |l| - capacity) else l
  }

  /** Room is made for a new entry before the key is looked for, so inserting a key that is
      present still costs the oldest entry of a full cache its place. */
  function MakeRoom<K, V>(l: Entries<K, V>, capacity: nat): Entries<K, V> {
    Trim(l, if capacity == 0 then 0 else capacity - 1)
  }

  /** What an operation does to the list, and what it returns. */
  function Apply<K(==), V>(m: Model<K, V>, op: Op<K, V>): (Model<K, V>, Answer<V>) {
    match op
    case Lookup(key) =>
      (match Find(m.entries, key)
       case None => (m, Value(None))
       case Some(v) => (m.(entries := Without(m.entries, key) + [(key, v)]), Value(Some(v))))
    case Insert(key, value) =>
      (m.(entries := Without(MakeRoom(m.entries, m.capacity), key) + [(key, value)]), Value(Some(value)))
    case Evict(count) => (m.(entries := DropOldest(m.entries, count)), Nothing)
    case Remove(key) => (m.(entries := Without(m.entries, key)), Removed(Find(m.entries, key).Some?))
    case SetMaxCapacity(capacity) => (Model(Trim(m.entries, capacity), capacity), Nothing)
    case SetManualEvict(block) => (if block then m else m.(entries := Trim(m.entries, m.capacity)), Nothing)
    case ManualEvict => (m.(entries := Trim(m.entries, m.capacity)), Nothing)
    case Clear => (m.(entries := []), Nothing)
  }

  function Run<K(==), V>(m: Model<K, V>, ops: seq<Op<K, V>>): (r: (Model<K, V>, seq<Answer<V>>))
    ensures |r.1| == |ops|
  {
    if ops == [] then (m, []) else
    var (m1, results) := Run(m, ops[..|ops| - 1]);
    var (m2, r) := Apply(m1, ops[|ops| - 1]);
    (m2, results + [r])
  }

  predicate WithinCapacity<K, V>(m: Model<K, V>) {
    |m.entries| <= m.capacity || |m.entries| <= 1
  }

  /** The list never outgrows its capacity, or a single entry for capacity 0, whatever is
      done to it. */
  lemma {:induction false} RunStaysWithinCapacity<K, V>(m: Model<K, V>, ops: seq<Op<K, V>>)
    requires WithinCapacity(m)
    ensures WithinCapacity(Run(m, ops).0)
    decreases |ops|
  {
    if ops != [] {
      RunStaysWithinCapacity(m, ops[..|ops| - 1]);
    }
  }

  // ----- the order is that of the last touch -----

  /** An operation with this answer touched the key: it inserted it, or looked it up and found it. */
  predicate Touches<K(==), V>(op: Op<K, V>, answer: Answer<V>, key: K) {
    match op
    case Insert(k, _) => k == key
    case Lookup(k) => k == key && answer.Value? && answer.value.Some?
    case _ => false
  }

  /** The place in the run of the last operation that touched the key, or -1. */
  function LastTouch<K(==), V>(m: Model<K, V>, ops: seq<Op<K, V>>, key: K): (place: int)
    ensures place < |ops|
    decreases |ops|
  {
    if ops == [] then -1 else
    var n := |ops| - 1;
    if Touches(ops[n], Run(m, ops).1[n], key) then n else LastTouch(m, ops[..n], key)
  }

  /** The value that was inserted for the key last. */
  function LastValue<K(==), V>(ops: seq<Op<K, V>>, key: K): Option<V>
    decreases |ops|
  {
    if ops == [] then None else
    var n := |ops| - 1;
    if ops[n].Insert? && ops[n].key == key then Some(ops[n].value) else LastValue(ops[..n], key)
  }

  ghost predicate InOrder<K(!new), V>(l: Entries<K, V>, rank: K -> int) {
    forall i, j | 0 <= i < j < |l| :: rank(l[i].0) < rank(l[j].0)
  }

  /** An order splits into that of the first entry before the rest and that of the rest. */
  lemma FirstInOrder<K(!new), V>(first: (K, V), rest: Entries<K, V>, rank: K -> int)
    ensures InOrder([first] + rest, rank) <==>
              InOrder(rest, rank) && forall e | e in rest :: rank(first.0) < rank(e.0)
  {
    var l := [first] + rest;
    if InOrder(l, rank) {
      forall e | e in rest ensures rank(first.0) < rank(e.0) {
        var i :| 0 <= i < |rest| && rest[i] == e;
        assert rank(l[0].0) < rank(l[i + 1].0);
      }
      forall i, j | 0 <= i < j < |rest| ensures rank(rest[i].0) < rank(rest[j].0) {
        assert rank(l[i + 1].0) < rank(l[j + 1].0);
      }
    }
  }

  lemma {:induction false} WithoutInOrder<K(!new), V>(l: Entries<K, V>, key: K, rank: K -> int)
    requires InOrder(l, rank)
    ensures InOrder(Without(l, key), rank)
    ensures forall e | e in Without(l, key) :: e in l && e.0 != key
  {
    if l != [] {
      assert l == [l[0]] + l[1..];
      FirstInOrder(l[0], l[1..], rank);
      if l[0].0 != key {
        WithoutInOrder(l[1..], key, rank);
        FirstInOrder(l[0], Without(l[1..], key), rank);
      }
    }
  }

  /** A touched key goes behind all others. */
  lemma TouchInOrder<K(!new), V>(l: Entries<K, V>, key: K, value: V, rank: K -> int, later: K -> int)
    requires InOrder(l, rank)
    requires forall e | e in l :: e.0 != key ==> rank(e.0) == later(e.0) < later(key)
    ensures InOrder(Without(l, key) + [(key, value)], later)
  {
    var r := Without(l, key);
    WithoutInOrder(l, key, rank);
    forall i, j | 0 <= i < j < |r + [(key, value)]|
      ensures later((r + [(key, value)])[i].0) < later((r + [(key, value)])[j].0)
    {
      assert r[i] in r;
      assert j < |r| ==> r[j] in r;
    }
  }

  lemma SuffixInOrder<K(!new), V>(l: Entries<K, V>, n: nat, rank: K -> int)
    requires InOrder(l, rank)
    ensures InOrder(DropOldest(l, n), rank)
    ensures forall e | e in DropOldest(l, n) :: e in l
  {
  }

  /** Every entry has the value inserted last, and was touched. */
  ghost predicate IsLatest<K, V>(m: Model<K, V>, ops: seq<Op<K, V>>, e: (K, V)) {
    LastTouch(m, ops, e.0) >= 0 && LastValue(ops, e.0) == Some(e.1)
  }

  lemma {:induction false} FoundIsListed<K, V>(l: Entries<K, V>, key: K)
    requires Find(l, key).Some?
    ensures (key, Find(l, key).value) in l
  {
    if l[0].0 != key {
      FoundIsListed(l[1..], key);
    }
  }

  /** One more operation, in terms of the ranks before and after it. */
  lemma ApplyInOrder<K(!new), V>(m: Model<K, V>, op: Op<K, V>, rank: K -> int, later: K -> int)
    requires InOrder(m.entries, rank)
    requires var (_, answer) := Apply(m, op);
             && (forall k | !Touches(op, answer, k) :: later(k) == rank(k))
             && (forall k, e | Touches(op, answer, k) && e in m.entries :: rank(e.0) < later(k))
    ensures var (after, answer) := Apply(m, op);
            && InOrder(after.entries, later)
            && forall e | e in after.entries ::
                 if op.Insert? && op.key == e.0 then e.1 == op.value else e in m.entries
  {
    var l := m.entries;
    var (after, answer) := Apply(m, op);
    match op
    case Lookup(key) =>
      if Find(l, key).Some? {
        FoundIsListed(l, key);
        assert Touches(op, answer, key);
        TouchInOrder(l, key, Find(l, key).value, rank, later);
        WithoutInOrder(l, key, rank);
      }
    case Insert(key, value) =>
      var room := MakeRoom(l, m.capacity);
      RoomInOrder(l, m.capacity, rank);
      assert Touches(op, answer, key);
      TouchInOrder(room, key, value, rank, later);
      WithoutInOrder(room, key, rank);
    case Remove(key) => WithoutInOrder(l, key, rank);
    case Evict(count) => SuffixInOrder(l, count, rank);
    case SetMaxCapacity(capacity) => TrimInOrder(l, capacity, rank);
    case SetManualEvict(_) => TrimInOrder(l, m.capacity, rank);
    case ManualEvict => TrimInOrder(l, m.capacity, rank);
    case Clear =>
  }

  lemma TrimInOrder<K(!new), V>(l: Entries<K, V>, capacity: nat, rank: K -> int)
    requires InOrder(l, rank)
    ensures InOrder(Trim(l, capacity), rank)
    ensures forall e | e in Trim(l, capacity) :: e in l
  {
    if |l| > capacity {
      SuffixInOrder(l, |l| - capacity, rank);
    }
  }

  lemma RoomInOrder<K(!new), V>(l: Entries<K, V>, capacity: nat, rank: K -> int)
    requires InOrder(l, rank)
    ensures InOrder(MakeRoom(l, capacity), rank)
    ensures forall e | e in MakeRoom(l, capacity) :: e in l
  {
    TrimInOrder(l, if capacity == 0 then 0 else capacity - 1, rank);
  }

  /** In every run from an empty cache the entries stand in the order in which their keys were
      last inserted, or looked up and found; each of them has the value inserted last. */
  lemma {:induction false} RunInOrderOfTouch<K(!new), V>(capacity: u64, ops: seq<Op<K, V>>)
    ensures var m := Model([], capacity);
            && InOrder(Run(m, ops).0.entries, k => LastTouch(m, ops, k))
            && forall e | e in Run(m, ops).0.entries :: IsLatest(m, ops, e)
    decreases |ops|
  {
    if ops != [] {
      var m: Model<K, V>, n := Model([], capacity), |ops| - 1;
      RunInOrderOfTouch<K, V>(capacity, ops[..n]);
      var before := Run(m, ops[..n]).0;
      ApplyInOrder(before, ops[n], k => LastTouch(m, ops[..n], k), k => LastTouch(m, ops, k));
      forall e | e in Run(m, ops).0.entries ensures IsLatest(m, ops, e) {
        StillLatest(m, ops, e);
      }
    }
  }

  lemma StillLatest<K(!new), V>(m: Model<K, V>, ops: seq<Op<K, V>>, e: (K, V))
    requires ops != []
    requires var n := |ops| - 1;
             if ops[n].Insert? && ops[n].key == e.0 then e.1 == ops[n].value else IsLatest(m, ops[..n], e)
    ensures IsLatest(m, ops, e)
  {
    var n := |ops| - 1;
    assert ops[n].Insert? && ops[n].key == e.0 ==> Touches(ops[n], Run(m, ops).1[n], e.0);
  }

  /** So `Evict` after any run drops the keys whose last touch lies furthest back. */
  lemma EvictDropsLeastRecent<K(!new), V>(capacity: u64, ops: seq<Op<K, V>>, count: u64, i: nat, j: nat)
    requires var m := Model([], capacity);
             i < j < |Run(m, ops).0.entries| && i < count <= j
    ensures var m := Model([], capacity);
            var before, after := Run(m, ops).0.entries, Apply(Run(m, ops).0, Evict(count)).0.entries;
            && before[j] in after && before[i] !in after
            && LastTouch(m, ops, before[i].0) < LastTouch(m, ops, before[j].0)
  {
    var m: Model<K, V> := Model([], capacity);
    RunInOrderOfTouch<K, V>(capacity, ops);
    var before := Run(m, ops).0.entries;
    var after := before[count..];
    assert after[j - count] == before[j];
    forall k | 0 <= k < |after| ensures after[k] != before[i] {
      assert after[k] == before[count + k];
    }
  }

  // ----- what overwriting a key costs -----

  ghost predicate DistinctKeys<K, V>(l: Entries<K, V>) {
    forall i, j | 0 <= i < j < |l| :: l[i].0 != l[j].0
  }

  lemma {:induction false} FoundIffListed<K, V>(l: Entries<K, V>, key: K)
    ensures Find(l, key).Some? <==> exists i :: 0 <= i < |l| && l[i].0 == key
  {
    if l != [] && l[0].0 != key {
      FoundIffListed(l[1..], key);
      if Find(l[1..], key).Some? {
        var i :| 0 <= i < |l[1..]| && l[1..][i].0 == key;
        assert l[i + 1].0 == key;
      }
      if i :| 0 <= i < |l| && l[i].0 == key {
        assert l[1..][i - 1].0 == key;
      }
    }
  }

  /** Inserting a key that is present leaves every other entry in its place if and only if
      there was room for one more, or the key itself was the least recently touched. Otherwise
      the least recently touched entry is lost although the size need not have grown. */
  lemma OverwriteKeepsOthersIff<K, V>(m: Model<K, V>, key: K, value: V)
    requires DistinctKeys(m.entries) && WithinCapacity(m) && Find(m.entries, key).Some?
    ensures Apply(m, Insert(key, value)).0.entries == Without(m.entries, key) + [(key, value)]
            <==> |m.entries| < m.capacity || m.entries[0].0 == key
  {
    var l, room := m.entries, MakeRoom(m.entries, m.capacity);
    var after, others := Without(room, key), Without(l, key);
    if |l| < m.capacity || l[0].0 == key {
      if l[0].0 == key {
        NotInRest(l);
      }
    } else {
      FoundIffListed(l, key);
      assert room == l[1..];
      assert (after + [(key, value)])[..|after|] == after && (others + [(key, value)])[..|others|] == others;
      assert |after| < |others|;
    }
  }

  /** A first key is not found again. */
  lemma NotInRest<K, V>(l: Entries<K, V>)
    requires DistinctKeys(l) && l != []
    ensures Find(l[1..], l[0].0).None? && Without(l[1..], l[0].0) == l[1..]
  {
    FoundIffListed(l[1..], l[0].0);
    WithoutAbsent(l[1..], l[0].0);
  }

  lemma {:induction false} WithoutAbsent<K, V>(l: Entries<K, V>, key: K)
    requires Find(l, key).None?
    ensures Without(l, key) == l
  {
    if l != [] {
      WithoutAbsent(l[1..], key);
    }
  }

  /** For example a cache for two entries that holds keys 1 and 2: writing key 2 again loses
      key 1. */
  lemma OverwriteExample()
    ensures Apply(Model([(1, 'a'), (2, 'b')], 2), Insert(2, 'c')) == (Model([(2, 'c')], 2), Value(Some('c')))
  {
    var l := [(1, 'a'), (2, 'b')];
    assert MakeRoom(l, 2) == l[1..] == [(2, 'b')];
    assert Without([(2, 'b')], 2) == [];
    assert [] + [(2, 'c')] == [(2, 'c')];
  }

  // ----- the cache -----

  datatype Item<V> = Item(value: V, lastAccess: nat)

  /** `items` holds exactly the entries of `l`, stamped in increasing order from `after` on. */
  ghost predicate Represents<K, V>(items: map<K, Item<V>>, l: Entries<K, V>, after: int)
    decreases |l|
  {
    if l == [] then items == map[] else
    var key := l[0].0;
    && key in items && items[key].value == l[0].1 && after < items[key].lastAccess
    && Represents(items - {key}, l[1..], items[key].lastAccess)
  }

  lemma {:induction false} SameSize<K, V>(items: map<K, Item<V>>, l: Entries<K, V>, after: int)
    requires Represents(items, l, after)
    ensures |items| == |l|
    decreases |l|
  {
    if l != [] {
      var key := l[0].0;
      SameSize(items - {key}, l[1..], items[key].lastAccess);
      assert (items - {key}).Keys == items.Keys - {key};
    }
  }

  lemma {:induction false} StampsAfter<K, V>(items: map<K, Item<V>>, l: Entries<K, V>, after: int)
    requires Represents(items, l, after)
    ensures forall k | k in items :: after < items[k].lastAccess
    decreases |l|
  {
    if l != [] {
      var key := l[0].0;
      var rest := items - {key};
      StampsAfter(rest, l[1..], items[key].lastAccess);
      forall k | k in items ensures after < items[k].lastAccess {
        if k != key {
          assert k in rest;
        }
      }
    }
  }

  /** The first entry of the list carries the least stamp, and only it does. */
  lemma OldestFirst<K, V>(items: map<K, Item<V>>, l: Entries<K, V>, after: int, k: K)
    requires Represents(items, l, after) && k in items
    ensures l != [] && l[0].0 in items
    ensures k != l[0].0 ==> items[l[0].0].lastAccess < items[k].lastAccess
  {
    var key := l[0].0;
    StampsAfter(items - {key}, l[1..], items[key].lastAccess);
    if k != key {
      assert k in items - {key};
    }
  }

  /** Places in the list and stamps agree: an entry comes before another exactly when its key
      was last touched earlier. So stamps are distinct, and dropping `n` entries from the
      front drops the `n` least recently touched keys. */
  lemma {:induction false} OrderIsRecency<K, V>(items: map<K, Item<V>>, l: Entries<K, V>, after: int, i: nat, j: nat)
    requires Represents(items, l, after) && i < |l| && j < |l|
    ensures l[i].0 in items && l[j].0 in items
    ensures i < j <==> items[l[i].0].lastAccess < items[l[j].0].lastAccess
    ensures l[i].0 == l[j].0 ==> i == j
    decreases |l|
  {
    var key := l[0].0;
    var rest := items - {key};
    if i > 0 && j > 0 {
      OrderIsRecency(rest, l[1..], items[key].lastAccess, i - 1, j - 1);
    } else if i + j > 0 {
      var m := i + j - 1;
      OrderIsRecency(rest, l[1..], items[key].lastAccess, m, m);
      OldestFirst(items, l, after, l[1..][m].0);
    }
  }

  /** So the keys of the list are distinct. */
  lemma RepresentedKeysAreDistinct<K, V>(items: map<K, Item<V>>, l: Entries<K, V>, after: int)
    requires Represents(items, l, after)
    ensures DistinctKeys(l)
  {
    forall i, j | 0 <= i < j < |l| ensures l[i].0 != l[j].0 {
      OrderIsRecency(items, l, after, i, j);
    }
  }

  lemma StartEarlier<K, V>(items: map<K, Item<V>>, l: Entries<K, V>, after: int, earlier: int)
    requires Represents(items, l, after) && earlier <= after
    ensures Represents(items, l, earlier)
  {
  }

  /** Looking a key up in the map and in the list agree. */
  lemma {:induction false} Agree<K, V>(items: map<K, Item<V>>, l: Entries<K, V>, after: int, key: K)
    requires Represents(items, l, after)
    ensures Find(l, key) == if key in items then Some(items[key].value) else None
    decreases |l|
  {
    if l != [] {
      var first := l[0].0;
      Agree(items - {first}, l[1..], items[first].lastAccess, key);
    }
  }

  lemma {:induction false} EraseKey<K, V>(items: map<K, Item<V>>, l: Entries<K, V>, after: int, key: K)
    requires Represents(items, l, after)
    ensures Represents(items - {key}, Without(l, key), after)
    decreases |l|
  {
    if l == [] {
      assert items - {key} == items;
    } else if l[0].0 == key {
      StartEarlier(items - {key}, l[1..], items[key].lastAccess, after);
    } else {
      var first := l[0].0;
      EraseKey(items - {first}, l[1..], items[first].lastAccess, key);
      assert (items - {key}) - {first} == (items - {first}) - {key};
      assert Without(l, key)[1..] == Without(l[1..], key);
    }
  }

  /** An entry stamped later than all others goes to the end of the list. */
  lemma {:induction false} AppendNewest<K, V>(items: map<K, Item<V>>, l: Entries<K, V>, after: int, key: K, value: V, now: nat)
    requires Represents(items, l, after) && key !in items && after < now
    requires forall k | k in items :: items[k].lastAccess < now
    ensures Represents(items[key := Item(value, now)], l + [(key, value)], after)
    decreases |l|
  {
    var more := items[key := Item(value, now)];
    if l == [] {
      assert more - {key} == map[];
    } else {
      var first := l[0].0;
      AppendNewest(items - {first}, l[1..], items[first].lastAccess, key, value, now);
      assert more - {first} == (items - {first})[key := Item(value, now)];
      assert (l + [(key, value)])[1..] == l[1..] + [(key, value)];
    }
  }

  /** Touching a key moves it to the end. */
  lemma Touch<K, V>(items: map<K, Item<V>>, l: Entries<K, V>, after: int, key: K, value: V, now: nat)
    requires Represents(items, l, after) && after < now
    requires forall k | k in items :: items[k].lastAccess < now
    ensures Represents(items[key := Item(value, now)], Without(l, key) + [(key, value)], after)
  {
    EraseKey(items, l, after, key);
    AppendNewest(items - {key}, Without(l, key), after, key, value, now);
    assert items[key := Item(value, now)] == (items - {key})[key := Item(value, now)];
  }

  /** A map that holds nothing but entries of another, as they are there. */
  ghost predicate PartOf<K, V>(part: map<K, Item<V>>, items: map<K, Item<V>>) {
    forall k | k in part :: k in items && part[k] == items[k]
  }

  /** Some entries have gone and the others are as they were, and those that have gone were touched
      before all others. */
  ghost predicate NewestOf<K, V>(kept: map<K, Item<V>>, items: map<K, Item<V>>) {
    && PartOf(kept, items)
    && forall k, j | k in items && k !in kept && j in kept :: items[k].lastAccess < items[j].lastAccess
  }

  /** Taking the oldest of the entries that are left out leaves the newest. */
  lemma WithoutLowest<K, V>(items: map<K, Item<V>>, left: map<K, Item<V>>, l: Entries<K, V>, lowest: K)
    requires NewestOf(left, items) && Represents(left, l, -1) && l != [] && lowest == l[0].0
    ensures NewestOf(left - {lowest}, items)
  {
    forall j | j in left && j != lowest ensures left[lowest].lastAccess < left[j].lastAccess {
      OldestFirst(left, l, -1, j);
    }
  }

  lemma OthersAreThere<K, V>(items: map<K, Item<V>>, room: map<K, Item<V>>, key: K, item: Item<V>)
    requires PartOf(room, items)
    ensures PartOf(items - {key}, room[key := item]) <==> forall k | k in items && k != key :: k in room
  {
    if PartOf(items - {key}, room[key := item]) {
      forall k | k in items && k != key ensures k in room {
        assert k in items - {key};
      }
    }
  }

  /** The key was touched before all others. */
  ghost predicate IsOldest<K, V>(items: map<K, Item<V>>, key: K)
    requires key in items
  {
    forall k | k in items :: items[key].lastAccess <= items[k].lastAccess
  }

  /** Making room leaves every key but `key` where it was if and only if there was room, or
      `key` is the one to go. */
  lemma RoomKeepsOthersIff<K, V>(items: map<K, Item<V>>, l: Entries<K, V>, room: map<K, Item<V>>, capacity: nat, key: K)
    requires Represents(items, l, -1) && Represents(room, MakeRoom(l, capacity), -1)
    requires key in items && (|l| <= capacity || |l| <= 1)
    ensures (forall k | k in items && k != key :: k in room) <==> |l| < capacity || IsOldest(items, key)
  {
    forall k ensures k in items <==> Find(l, k).Some? {
      Agree(items, l, -1, k);
    }
    forall k ensures k in room <==> Find(MakeRoom(l, capacity), k).Some? {
      Agree(room, MakeRoom(l, capacity), -1, k);
    }
    OldestFirst(items, l, -1, key);
    if |l| >= capacity {
      assert MakeRoom(l, capacity) == l[1..];
      RepresentedKeysAreDistinct(items, l, -1);
      NotInRest(l);
      if l[0].0 == key {
        forall k | k in items ensures items[key].lastAccess <= items[k].lastAccess {
          OldestFirst(items, l, -1, k);
        }
      }
    }
  }

  /** Every entry but that of `key` is as it was. */
  ghost predicate OthersKept<K, V>(before: map<K, Item<V>>, after: map<K, Item<V>>, key: K) {
    PartOf(before - {key}, after)
  }

  /** Every key but `key` that is still there has the entry it had, touched before that of `key`. */
  ghost predicate NewestOnTop<K, V>(before: map<K, Item<V>>, after: map<K, Item<V>>, key: K) {
    && PartOf(after - {key}, before)
    && forall k | k in after && k != key :: key in after && after[k].lastAccess < after[key].lastAccess
  }

  /** The keys that have gone were touched before all that are left, `key` apart. */
  ghost predicate GoneAreOldest<K, V>(before: map<K, Item<V>>, after: map<K, Item<V>>, key: K) {
    forall k, j | k in before && k !in after && j in after && j != key :: before[k].lastAccess < after[j].lastAccess
  }

  lemma StoredOnTop<K, V>(items: map<K, Item<V>>, room: map<K, Item<V>>, key: K, item: Item<V>)
    requires NewestOf(room, items) && forall k | k in room :: room[k].lastAccess < item.lastAccess
    ensures NewestOnTop(items, room[key := item], key)
    ensures GoneAreOldest(items, room[key := item], key)
  {
  }

  lemma InsertKeepsOthersIff<K, V>(items: map<K, Item<V>>, l: Entries<K, V>, room: map<K, Item<V>>, capacity: nat, key: K, item: Item<V>)
    requires Represents(items, l, -1) && Represents(room, MakeRoom(l, capacity), -1) && PartOf(room, items)
    requires key in items && |items| == |l| && (|l| <= capacity || |l| <= 1)
    ensures OthersKept(items, room[key := item], key) <==> |items| < capacity || IsOldest(items, key)
  {
    RoomKeepsOthersIff(items, l, room, capacity, key);
    OthersAreThere(items, room, key, item);
  }

  /** `size - (capacity - 1)` in unsigned 64-bit arithmetic: it wraps for capacity 0. */
  function ShrinkCount(size: nat, capacity: u64): u64 {
    (size - (capacity - 1) % WORD_LIMIT) % WORD_LIMIT
  }

  lemma ShrinkIsRoom<K, V>(l: Entries<K, V>, capacity: u64)
    requires |l| >= capacity && (|l| == capacity || |l| <= 1)
    ensures DropOldest(l, ShrinkCount(|l|, capacity)) == MakeRoom(l, capacity)
  {
    if capacity > 0 {
      assert (capacity - 1) % WORD_LIMIT == capacity - 1;
    } else {
      assert (capacity - 1) % WORD_LIMIT == WORD_LIMIT - 1;
    }
  }

  /** `std::min_element` over the last access times. */
  method Lowest<K(==), V>(items: map<K, Item<V>>) returns (lowest: K)
    requires |items| > 0
    ensures lowest in items
    ensures forall k | k in items :: items[lowest].lastAccess <= items[k].lastAccess
  {
    assert items.Keys != {};
    lowest :| lowest in items.Keys;
    var rest := items.Keys - {lowest};
    while rest != {}
      invariant rest <= items.Keys && lowest in items
      invariant forall k | k in items.Keys - rest :: items[lowest].lastAccess <= items[k].lastAccess
      decreases rest
    {
      var k :| k in rest;
      if items[k].lastAccess < items[lowest].lastAccess {
        lowest := k;
      }
      rest := rest - {k};
    }
  }

  class Cache<K(==), V(==)> {
    var items: map<K, Item<V>>
    var lastCounter: u64
    var maxCapacity: u64
    var manualEvict: bool
    ghost var entries: Entries<K, V>

    /** The map and the list agree, and no stamp is ahead of the counter. */
    ghost predicate Consistent()
      reads this
    {
      && Represents(items, entries, -1) && |items| == |entries|
      && (forall k | k in items :: items[k].lastAccess <= lastCounter)
    }

    ghost predicate Valid()
      reads this
    {
      Consistent() && (|items| <= maxCapacity || |items| <= 1)
    }

    ghost function Contents(): Model<K, V>
      reads this
    {
      Model(entries, maxCapacity)
    }

    constructor (capacity: u64, block: bool)
      ensures Valid() && Contents() == Model([], capacity) && lastCounter == 0
    {
      items, lastCounter, maxCapacity, manualEvict := map[], 0, capacity, block;
      entries := [];
    }

    method Evict(count: u64)
      requires Consistent()
      modifies this`items, this`entries
      ensures Consistent() && Contents() == Apply(old(Contents()), Op.Evict(count)).0
      ensures NewestOf(items, old(items)) && |items| == Max(0, |old(items)| - count)
    {
      var left: u64 := count;
      ghost var dropped := 0;
      while |items| > 0 && left > 0
        invariant Consistent() && dropped + left == count && NewestOf(items, old(items))
        invariant dropped <= |old(entries)| && entries == old(entries)[dropped..]
        decreases left
      {
        DropLowest(old(items));
        left := left - 1;
        dropped := dropped + 1;
      }
      assert count <= |old(entries)| ==> dropped == count;
    }

    /** One turn of the loop, in which entries of `all` are dropped. */
    method DropLowest(ghost all: map<K, Item<V>>)
      requires Consistent() && |items| > 0 && NewestOf(items, all)
      modifies this`items, this`entries
      ensures Consistent() && NewestOf(items, all) && |items| == old(|items|) - 1
      ensures entries == old(entries)[1..]
    {
      var lowest := Lowest(items);
      OldestFirst(items, entries, -1, lowest);
      StartEarlier(items - {lowest}, entries[1..], items[lowest].lastAccess, -1);
      WithoutLowest(all, items, entries, lowest);
      items := items - {lowest};
      entries := entries[1..];
      SameSize(items, entries, -1);
    }

    method SetMaxCapacity(capacity: u64)
      requires Valid()
      modifies this`items, this`entries, this`maxCapacity
      ensures Valid() && Contents() == Apply(old(Contents()), Op.SetMaxCapacity(capacity)).0
      ensures NewestOf(items, old(items)) && |items| == Min(|old(items)|, capacity)
    {
      maxCapacity := capacity;
      if |items| > maxCapacity {
        Evict(|items| - maxCapacity);
      }
    }

    method ManualEvict()
      requires Valid()
      modifies this`items, this`entries
      ensures Valid() && Contents() == Apply(old(Contents()), Op.ManualEvict).0
      ensures NewestOf(items, old(items)) && |items| == Min(|old(items)|, maxCapacity)
    {
      while |items| > maxCapacity
        invariant NewestOf(items, old(items)) && Min(|items|, maxCapacity) == Min(|old(items)|, maxCapacity)
        invariant Valid() && Trim(entries, maxCapacity) == Trim(old(entries), maxCapacity)
        decreases |items|
      {
        Evict(|items| - maxCapacity);
      }
    }

    method SetManualEvict(block: bool)
      requires Valid()
      modifies this`items, this`entries, this`manualEvict
      ensures Valid() && Contents() == Apply(old(Contents()), Op.SetManualEvict(block)).0
      ensures manualEvict == block && NewestOf(items, old(items))
      ensures |items| == if block then |old(items)| else Min(|old(items)|, maxCapacity)
    {
      manualEvict := block;
      if !manualEvict {
        ManualEvict();
      }
    }

    method ShrinkForNewItem()
      requires Valid()
      modifies this`items, this`entries
      ensures Valid() && entries == MakeRoom(old(entries), maxCapacity)
      ensures NewestOf(items, old(items)) && |items| == Min(|old(items)|, Max(0, maxCapacity - 1))
    {
      if |items| < maxCapacity {
        return;
      }
      ShrinkIsRoom(entries, maxCapacity);
      Evict(ShrinkCount(|items|, maxCapacity));
    }

    /** A key that is there becomes the most recent of all, with the value it has. */
    method Lookup(key: K) returns (r: Option<V>)
      requires Valid() && lastCounter + 1 < WORD_LIMIT
      modifies this`items, this`entries, this`lastCounter
      ensures Valid() && lastCounter <= old(lastCounter) + 1
      ensures (Contents(), Answer.Value(r)) == Apply(old(Contents()), Op.Lookup(key))
      ensures key !in old(items) ==> r == None && items == old(items) && lastCounter == old(lastCounter)
      ensures key in old(items) ==> key in items && r == Some(old(items)[key].value) == Some(items[key].value)
      ensures key in old(items) ==> items.Keys == old(items.Keys) && NewestOnTop(old(items), items, key)
    {
      Agree(items, entries, -1, key);
      if key !in items {
        return None;
      }
      lastCounter := lastCounter + 1;
      Touch(items, entries, -1, key, items[key].value, lastCounter);
      r := Some(items[key].value);
      entries := Without(entries, key) + [(key, items[key].value)];
      items := items[key := Item(items[key].value, lastCounter)];
      SameSize(items, entries, -1);
    }

    /** The key becomes the most recent of all with the new value; of the others, those that go to
        make room are the least recent. */
    method Insert(key: K, value: V) returns (r: Option<V>)
      requires Valid() && lastCounter + 1 < WORD_LIMIT
      modifies this`items, this`entries, this`lastCounter
      ensures Valid() && lastCounter <= old(lastCounter) + 1
      ensures (Contents(), Answer.Value(Some(value))) == Apply(old(Contents()), Op.Insert(key, value)) && r == Some(value)
      ensures key in items && items[key].value == value && NewestOnTop(old(items), items, key)
      ensures GoneAreOldest(old(items), items, key)
      ensures key in old(items) ==>
                (OthersKept(old(items), items, key) <==> |old(items)| < maxCapacity || IsOldest(old(items), key))
    {
      ShrinkForNewItem();
      ghost var room := items;
      Store(key, value);
      StoredOnTop(old(items), room, key, Item(value, lastCounter));
      if key in old(items) {
        InsertKeepsOthersIff(old(items), old(entries), room, maxCapacity, key, Item(value, lastCounter));
      }
      r := Some(value);
    }

    /** The key with the next stamp, whether it is there or not. */
    method Store(key: K, value: V)
      requires Consistent() && lastCounter + 1 < WORD_LIMIT
      modifies this`items, this`entries, this`lastCounter
      ensures Consistent() && lastCounter == old(lastCounter) + 1
      ensures items == old(items)[key := Item(value, lastCounter)]
      ensures entries == Without(old(entries), key) + [(key, value)]
      ensures forall k | k in old(items) :: old(items)[k].lastAccess < lastCounter
    {
      lastCounter := lastCounter + 1;
      Touch(items, entries, -1, key, value, lastCounter);
      items := items[key := Item(value, lastCounter)];
      entries := Without(entries, key) + [(key, value)];
      SameSize(items, entries, -1);
    }

    method Remove(key: K) returns (r: bool)
      requires Valid()
      modifies this`items, this`entries
      ensures Valid() && (Contents(), Removed(r)) == Apply(old(Contents()), Op.Remove(key))
      ensures r == (key in old(items)) && items == old(items) - {key}
    {
      Agree(items, entries, -1, key);
      EraseKey(items, entries, -1, key);
      r := key in items;
      items := items - {key};
      entries := Without(entries, key);
      SameSize(items, entries, -1);
    }

    method Clear()
      requires Valid()
      modifies this`items, this`entries
      ensures Valid() && Contents() == Apply(old(Contents()), Op.Clear).0 && items == map[]
    {
      items, entries := map[], [];
    }

    /** One operation. */
    method Do(op: Op<K, V>) returns (r: Answer<V>)
      requires Valid() && lastCounter + 1 < WORD_LIMIT
      modifies this
      ensures Valid() && lastCounter <= old(lastCounter) + 1
      ensures (Contents(), r) == Apply(old(Contents()), op)
    {
      r := Nothing;
      match op
      case Lookup(key) => var found := Lookup(key); r := Answer.Value(found);
      case Insert(key, value) => var stored := Insert(key, value); r := Answer.Value(stored);
      case Evict(count) => Evict(count);
      case Remove(key) => var found := Remove(key); r := Removed(found);
      case SetMaxCapacity(capacity) => SetMaxCapacity(capacity);
      case SetManualEvict(block) => SetManualEvict(block);
      case ManualEvict => ManualEvict();
      case Clear => Clear();
    }

    /** Refinement over any run of operations, short of overflowing the access counter. */
    method DoAll(ops: seq<Op<K, V>>) returns (results: seq<Answer<V>>)
      requires Valid() && lastCounter + |ops| < WORD_LIMIT
      modifies this
      ensures Valid() && (Contents(), results) == Run(old(Contents()), ops)
      ensures |items| <= maxCapacity || |items| <= 1
    {
      results := [];
      for i := 0 to |ops|
        invariant Valid() && lastCounter <= old(lastCounter) + i
        invariant (Contents(), results) == Run(old(Contents()), ops[..i])
      {
        var r := Do(ops[i]);
        results := results + [r];
        assert ops[..i + 1][..i] == ops[..i];
      }
      assert ops[..|ops|] == ops;
    }
  }
}
