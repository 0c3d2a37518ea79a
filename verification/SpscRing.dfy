/**
  `ringbuffer_base`: the single-producer/single-consumer lock-free ring.
  One producer thread pushes, one consumer thread pops (or consumes); each load and store
  of an index and each access to a slot is one step, in any interleaving.
 */
module SpscRing {
  import opened Arithmetic
  import opened Wrappers

  /** A slot of the buffer holds a constructed object or raw storage. */
  datatype Slot<T> = Vacant | Live(value: T)

  datatype ProducerPc<T> =
    | PushIdle
    | PushLoaded(item: T, write: nat)    // has its own write index
    | PushCleared(item: T, write: nat)   // saw that the ring was not full
    | PushBuilt(item: T, write: nat)     // constructed the object, about to publish it

  /** `held` is how many elements the ring held when the write index was loaded. */
  datatype ConsumerPc<T> =
    | PopIdle
    | PopLoadedWrite(write: nat, held: nat)
    | PopLoadedRead(write: nat, read: nat, held: nat)
    | PopTaken(read: nat, item: T)       // copied the object out, about to destroy it
    | PopDestroyed(read: nat, item: T)   // about to release the slot

  /** `pushed` and `popped` list what the completed pushes and pops carried. */
  datatype State<T> = State(
    slots: seq<Slot<T>>, write: nat, read: nat,
    producer: ProducerPc<T>, consumer: ConsumerPc<T>,
    pushed: seq<T>, popped: seq<T>)

  function Init<T>(size: nat): State<T> {
    State(seq(size, _ => Vacant), 0, 0, PushIdle, PopIdle, [], [])
  }

  datatype Action<T> =
    | PushLoad(item: T) | PushCheck | PushBuild | PushStore
    | PopLoadWrite | PopLoadRead | PopTake | PopDestroy | PopStore

  /** Where element number `k` lives in a ring of `size` slots. */
  function Index(k: nat, size: nat): (i: nat)
    requires size > 0
    ensures i < size
  {
    k % size
  }

  function NextIndex(i: nat, size: nat): nat
    requires size > 0
  {
    (i + 1) % size
  }

  /** `size()` on the two indices. */
  function Size(write: nat, read: nat, size: nat): int {
    if read > write then write + size - read else write - read
  }

  /** The step `a` takes in `s`, or None where `a` is not possible in `s`. */
  function Next<T>(s: State<T>, a: Action<T>): Option<State<T>>
    requires |s.slots| > 0
  {
    if a.PushLoad? || a.PushCheck? || a.PushBuild? || a.PushStore? then ProducerStep(s, a) else ConsumerStep(s, a)
  }

  function ProducerStep<T>(s: State<T>, a: Action<T>): Option<State<T>>
    requires |s.slots| > 0
  {
    match (a, s.producer)
    case (PushLoad(item), PushIdle) => Some(s.(producer := PushLoaded(item, s.write)))
    case (PushCheck, PushLoaded(item, w)) =>
      Some(s.(producer := if NextIndex(w, |s.slots|) == s.read then PushIdle else PushCleared(item, w)))
    case (PushBuild, PushCleared(item, w)) =>
      if w >= |s.slots| then None else
      Some(s.(slots := s.slots[w := Live(item)], producer := PushBuilt(item, w)))
    case (PushStore, PushBuilt(item, w)) =>
      Some(s.(write := NextIndex(w, |s.slots|), producer := PushIdle, pushed := s.pushed + [item]))
    case _ => None
  }

  function ConsumerStep<T>(s: State<T>, a: Action<T>): Option<State<T>>
    requires |s.slots| > 0
  {
    match (a, s.consumer)
    case (PopLoadWrite, PopIdle) =>
      Some(s.(consumer := PopLoadedWrite(s.write, if |s.popped| <= |s.pushed| then |s.pushed| - |s.popped| else 0)))
    case (PopLoadRead, PopLoadedWrite(w, held)) => Some(s.(consumer := PopLoadedRead(w, s.read, held)))
    case (PopTake, PopLoadedRead(w, r, held)) =>
      if w == r then Some(s.(consumer := PopIdle))
      else if r >= |s.slots| || s.slots[r].Vacant? then None
      else Some(s.(consumer := PopTaken(r, s.slots[r].value)))
    case (PopDestroy, PopTaken(r, item)) =>
      if r >= |s.slots| then None else
      Some(s.(slots := s.slots[r := Vacant], consumer := PopDestroyed(r, item)))
    case (PopStore, PopDestroyed(r, item)) =>
      Some(s.(read := NextIndex(r, |s.slots|), consumer := PopIdle, popped := s.popped + [item]))
    case _ => None
  }

  /** `states` is what `actions` do from an empty ring of `size` slots, one step each. */
  ghost predicate IsExecution<T(!new)>(size: nat, states: seq<State<T>>, actions: seq<Action<T>>) {
    && |states| == |actions| + 1
    && states[0] == Init(size)
    && forall k | 0 <= k < |actions| ::
         |states[k].slots| > 0 && Next(states[k], actions[k]) == Some(states[k + 1])
  }

  // ----- modular indices -----

  lemma IndexSucc(k: nat, size: nat)
    requires size > 0
    ensures NextIndex(Index(k, size), size) == Index(k + 1, size)
  {
    IndexPlus(k, 1, size);
  }

  /** Counting on from the slot of element `k` finds the slot of element `k + i`. */
  lemma IndexPlus(k: nat, i: nat, size: nat)
    requires size > 0
    ensures (Index(k, size) + i) % size == Index(k + i, size)
  {
    AddModulo(k, i, size);
  }

  lemma IndexDistinct(a: nat, b: nat, size: nat)
    requires size > 0 && a < b < a + size
    ensures Index(a, size) != Index(b, size)
  {
    var q := b / size - a / size;
    assert b - a == q * size + (b % size - a % size);
    ProductSign(q, size);
  }

  /** Within one lap, the slot of element `k` belongs to no other element. */
  lemma OwnSlot(k: nat, first: nat, size: nat)
    requires size > 0 && first <= k < first + size
    ensures forall j: nat | first <= j < first + size && j != k :: Index(j, size) != Index(k, size)
  {
    forall j: nat | first <= j < first + size && j != k ensures Index(j, size) != Index(k, size) {
      if j < k { IndexDistinct(j, k, size); } else { IndexDistinct(k, j, size); }
    }
  }

  // ----- the invariant -----

  ghost predicate CountInv<T>(s: State<T>, size: nat) {
    && size > 0 && |s.slots| == size
    && |s.popped| <= |s.pushed| <= |s.popped| + size - 1
    && s.popped <= s.pushed
    && s.write == Index(|s.pushed|, size) && s.read == Index(|s.popped|, size)
  }

  ghost predicate PcInv<T>(s: State<T>, size: nat) {
    && (!s.producer.PushIdle? ==> s.producer.write == s.write)
    && (s.producer.PushCleared? || s.producer.PushBuilt? ==> |s.pushed| + 1 < |s.popped| + size)
    && (s.consumer.PopLoadedWrite? || s.consumer.PopLoadedRead? ==>
          |s.popped| + s.consumer.held <= |s.pushed|
          && size > 0 && s.consumer.write == Index(|s.popped| + s.consumer.held, size))
    && (s.consumer.PopLoadedRead? ==> s.consumer.read == s.read)
    && (s.consumer.PopTaken? || s.consumer.PopDestroyed? ==>
          s.consumer.read == s.read && |s.popped| < |s.pushed| && s.consumer.item == s.pushed[|s.popped|])
  }

  /** What the slot of element `k` holds. */
  ghost function Content<T>(s: State<T>, k: nat): Slot<T> {
    if k < |s.pushed| then
      (if k == |s.popped| && s.consumer.PopDestroyed? then Vacant else Live(s.pushed[k]))
    else if k == |s.pushed| && s.producer.PushBuilt? then Live(s.producer.item)
    else Vacant
  }

  ghost predicate SlotInv<T>(s: State<T>, size: nat)
    requires size > 0 && |s.slots| == size
  {
    forall k: nat | |s.popped| <= k < |s.popped| + size :: s.slots[Index(k, size)] == Content(s, k)
  }

  ghost predicate Inv<T>(s: State<T>, size: nat) {
    CountInv(s, size) && PcInv(s, size) && SlotInv(s, size)
  }

  lemma ProducerStepInv<T>(s: State<T>, a: Action<T>, t: State<T>, size: nat)
    requires Inv(s, size) && ProducerStep(s, a) == Some(t)
    ensures Inv(t, size)
  {
    var first := |s.popped|;
    if a.PushCheck? {
      IndexSucc(|s.pushed|, size);
      if |s.pushed| + 1 == first + size {
        SameSlotNextLap(first, size);
      }
    } else if a.PushBuild? {
      OwnSlot(|s.pushed|, first, size);
    } else if a.PushStore? {
      IndexSucc(|s.pushed|, size);
    }
  }

  lemma SameSlotNextLap(k: nat, size: nat)
    requires size > 0
    ensures Index(k + size, size) == Index(k, size)
  {
    DivisionUnique(k + size, size, k / size + 1, k % size);
  }

  lemma ConsumerStepInv<T>(s: State<T>, a: Action<T>, t: State<T>, size: nat)
    requires Inv(s, size) && ConsumerStep(s, a) == Some(t)
    ensures Inv(t, size)
  {
    var first := |s.popped|;
    if a.PopDestroy? {
      OwnSlot(first, first, size);
    } else if a.PopStore? {
      PopStoreInv(s, t, size);
    } else if a.PopTake? && s.consumer.PopLoadedRead? && s.consumer.held == 0 {
    } else if a.PopTake? {
      assert s.slots[Index(first, size)] == Content(s, first);
    }
  }

  lemma PopStoreInv<T>(s: State<T>, t: State<T>, size: nat)
    requires Inv(s, size) && ConsumerStep(s, PopStore) == Some(t)
    ensures Inv(t, size)
  {
    var first := |s.popped|;
    IndexSucc(first, size);
    forall k: nat | first + 1 <= k < first + 1 + size ensures t.slots[Index(k, size)] == Content(t, k) {
      if k == first + size {
        SameSlotNextLap(first, size);
        assert s.slots[Index(first, size)] == Content(s, first);
      } else {
        assert s.slots[Index(k, size)] == Content(s, k);
      }
    }
  }

  lemma {:induction false} ExecutionInv<T(!new)>(size: nat, states: seq<State<T>>, actions: seq<Action<T>>, k: nat)
    requires size > 0 && IsExecution(size, states, actions) && k < |states|
    ensures Inv(states[k], size)
  {
    if k == 0 {
    } else {
      ExecutionInv(size, states, actions, k - 1);
      var s, a, t := states[k - 1], actions[k - 1], states[k];
      assert Next(s, a) == Some(t);
      if ProducerStep(s, a) == Some(t) && (a.PushLoad? || a.PushCheck? || a.PushBuild? || a.PushStore?) {
        ProducerStepInv(s, a, t, size);
      } else {
        ConsumerStepInv(s, a, t, size);
      }
    }
  }

  // ----- main results -----

  /** The slot `i` places on from the read index. */
  function SlotFromRead<T>(s: State<T>, i: nat): Slot<T>
    requires |s.slots| > 0
  {
    s.slots[(s.read + i) % |s.slots|]
  }

  /** One while the consumer has destroyed an object and not yet moved the read index. */
  function Released<T>(s: State<T>): nat {
    if s.consumer.PopDestroyed? then 1 else 0
  }

  /** FIFO: what was popped is a prefix of what was pushed, and the rest of what was pushed
      lies in the ring in order from the read index on (but for an object the consumer has
      copied out and destroyed and has not yet released). */
  lemma Fifo<T(!new)>(size: nat, states: seq<State<T>>, actions: seq<Action<T>>, k: nat)
    requires size > 0 && IsExecution(size, states, actions) && k < |states|
    ensures var s := states[k];
            && s.popped <= s.pushed && |s.slots| == size
            && |s.pushed| == |s.popped| + Size(s.write, s.read, size)
            && (s.consumer.PopDestroyed? ==> |s.popped| < |s.pushed| && s.consumer.item == s.pushed[|s.popped|])
            && forall i: nat | Released(s) <= i < |s.pushed| - |s.popped| ::
                 SlotFromRead(s, i) == Live(s.pushed[|s.popped| + i])
  {
    ExecutionInv(size, states, actions, k);
    var s := states[k];
    var n := |s.pushed| - |s.popped|;
    SizeFromIndices(|s.popped|, n, size);
    forall i: nat | Released(s) <= i < n
      ensures SlotFromRead(s, i) == Live(s.pushed[|s.popped| + i])
    {
      IndexPlus(|s.popped|, i, size);
      assert s.slots[Index(|s.popped| + i, size)] == Content(s, |s.popped| + i);
    }
  }

  /** The two indices tell how many elements there are, since a ring of `size` slots never
      holds more than `size - 1`. */
  lemma SizeFromIndices(first: nat, n: nat, size: nat)
    requires n < size
    ensures Size(Index(first + n, size), Index(first, size), size) == n
  {
    IndexPlus(first, n, size);
    var x := Index(first, size) + n;
    if x < size {
      DivisionUnique(x, size, 0, x);
    } else {
      DivisionUnique(x, size, 1, x - size);
    }
  }

  /** No slot is written while it is live or being read, and none is read, or destroyed,
      unless it is live. */
  lemma SlotsNeverClash<T(!new)>(size: nat, states: seq<State<T>>, actions: seq<Action<T>>, k: nat)
    requires size > 0 && IsExecution(size, states, actions) && k < |states|
    ensures var s := states[k];
            s.producer.PushCleared? ==>
              && s.producer.write < |s.slots| && s.slots[s.producer.write].Vacant?
              && (s.consumer.PopLoadedRead? && s.consumer.write != s.consumer.read ==>
                    s.producer.write != s.consumer.read)
              && (s.consumer.PopTaken? ==> s.producer.write != s.consumer.read)
    ensures var s := states[k];
            && (s.consumer.PopLoadedRead? && s.consumer.write != s.consumer.read ==>
                  && s.consumer.read < |s.slots| && |s.popped| < |s.pushed|
                  && s.slots[s.consumer.read] == Live(s.pushed[|s.popped|]))
            && (s.consumer.PopTaken? ==>
                  s.consumer.read < |s.slots| && s.slots[s.consumer.read] == Live(s.consumer.item))
  {
    ExecutionInv(size, states, actions, k);
    var s := states[k];
    assert s.slots[Index(|s.popped|, size)] == Content(s, |s.popped|);
    if s.producer.PushCleared? {
      assert s.slots[Index(|s.pushed|, size)] == Content(s, |s.pushed|);
    }
  }

  /** push fails exactly when the ring holds `size - 1` elements as it reads the read index. */
  lemma PushFailsIffFull<T(!new)>(size: nat, states: seq<State<T>>, actions: seq<Action<T>>, k: nat)
    requires size > 0 && IsExecution(size, states, actions) && k < |actions| && actions[k] == PushCheck
    ensures states[k + 1].producer.PushIdle? <==> |states[k].pushed| - |states[k].popped| == size - 1
  {
    ExecutionInv(size, states, actions, k);
    var s := states[k];
    assert Next(s, actions[k]) == Some(states[k + 1]);
    IndexSucc(|s.pushed|, size);
    if |s.pushed| + 1 == |s.popped| + size {
      SameSlotNextLap(|s.popped|, size);
    } else {
      IndexDistinct(|s.popped|, |s.pushed| + 1, size);
    }
  }

  lemma {:induction false} ConsumerRemembers<T(!new)>(size: nat, states: seq<State<T>>, actions: seq<Action<T>>, load: nat, k: nat)
    requires size > 0 && IsExecution(size, states, actions) && load < k < |states|
    requires actions[load] == PopLoadWrite
    requires forall j | load < j < k :: actions[j] != PopLoadWrite
    ensures states[k].consumer.PopLoadedWrite? || states[k].consumer.PopLoadedRead? ==>
              states[k].consumer.held == |states[load].pushed| - |states[load].popped|
  {
    ExecutionInv(size, states, actions, load);
    assert Next(states[k - 1], actions[k - 1]) == Some(states[k]);
    if load + 1 < k {
      ConsumerRemembers(size, states, actions, load, k - 1);
    }
  }

  /** pop (and consume_one) fails exactly when the ring was empty as it read the write index. */
  lemma PopFailsIffEmpty<T(!new)>(size: nat, states: seq<State<T>>, actions: seq<Action<T>>, load: nat, k: nat)
    requires size > 0 && IsExecution(size, states, actions) && load < k < |actions|
    requires actions[load] == PopLoadWrite && actions[k] == PopTake
    requires forall j | load < j < k :: actions[j] != PopLoadWrite
    ensures states[k + 1].consumer.PopIdle? <==> |states[load].pushed| == |states[load].popped|
  {
    ExecutionInv(size, states, actions, k);
    ConsumerRemembers(size, states, actions, load, k);
    var s := states[k];
    assert Next(s, actions[k]) == Some(states[k + 1]);
    if s.consumer.held > 0 {
      IndexDistinct(|s.popped|, |s.popped| + s.consumer.held, size);
    }
  }

  // ----- no call waits for the other side -----

  function ProducerLeft<T>(pc: ProducerPc<T>): nat {
    match pc
    case PushIdle => 0
    case PushLoaded(_, _) => 3
    case PushCleared(_, _) => 2
    case PushBuilt(_, _) => 1
  }

  function ConsumerLeft<T>(pc: ConsumerPc<T>): nat {
    match pc
    case PopIdle => 0
    case PopLoadedWrite(_, _) => 4
    case PopLoadedRead(_, _, _) => 3
    case PopTaken(_, _) => 2
    case PopDestroyed(_, _) => 1
  }

  function ProducerNext<T>(pc: ProducerPc<T>): Action<T>
    requires !pc.PushIdle?
  {
    if pc.PushLoaded? then PushCheck else if pc.PushCleared? then PushBuild else PushStore
  }

  function ConsumerNext<T>(pc: ConsumerPc<T>): Action<T>
    requires !pc.PopIdle?
  {
    if pc.PopLoadedWrite? then PopLoadRead else if pc.PopLoadedRead? then PopTake
    else if pc.PopTaken? then PopDestroy else PopStore
  }

  /** In every interleaving a push that has begun can always take its next step, and is over
      after at most three more of its own, whatever the consumer does in between; a pop after
      at most four. */
  lemma CallsGoOn<T(!new)>(size: nat, states: seq<State<T>>, actions: seq<Action<T>>, k: nat)
    requires size > 0 && IsExecution(size, states, actions) && k < |states|
    ensures |states[k].slots| > 0
    ensures var s := states[k];
            !s.producer.PushIdle? ==>
              ProducerStep(s, ProducerNext(s.producer)).Some? &&
              ProducerLeft(ProducerStep(s, ProducerNext(s.producer)).value.producer) < ProducerLeft(s.producer)
    ensures var s := states[k];
            !s.consumer.PopIdle? ==>
              ConsumerStep(s, ConsumerNext(s.consumer)).Some? &&
              ConsumerLeft(ConsumerStep(s, ConsumerNext(s.consumer)).value.consumer) < ConsumerLeft(s.consumer)
  {
    ExecutionInv(size, states, actions, k);
    if states[k].consumer.PopLoadedRead? {
      SlotsNeverClash(size, states, actions, k);
    }
  }

  /** Left alone, a push on a ring that is not full adds its item. */
  lemma PushAlone<T>(s: State<T>, size: nat, item: T) returns (loaded: State<T>, cleared: State<T>, built: State<T>, end: State<T>)
    requires Inv(s, size) && s.producer.PushIdle? && |s.pushed| < |s.popped| + size - 1
    ensures Next(s, PushLoad(item)) == Some(loaded)
    ensures |loaded.slots| > 0 && Next(loaded, PushCheck) == Some(cleared)
    ensures |cleared.slots| > 0 && Next(cleared, PushBuild) == Some(built)
    ensures |built.slots| > 0 && Next(built, PushStore) == Some(end)
    ensures end.producer.PushIdle? && end.pushed == s.pushed + [item] && end.popped == s.popped && end.consumer == s.consumer
  {
    IndexSucc(|s.pushed|, size);
    IndexDistinct(|s.popped|, |s.pushed| + 1, size);
    loaded := Next(s, PushLoad(item)).value;
    cleared := Next(loaded, PushCheck).value;
    built := Next(cleared, PushBuild).value;
    end := Next(built, PushStore).value;
  }

  /** Left alone, a pop on a ring that is not empty takes the oldest item there is. */
  lemma PopAlone<T>(s: State<T>, size: nat) returns (first: State<T>, both: State<T>, taken: State<T>, destroyed: State<T>, end: State<T>)
    requires Inv(s, size) && s.consumer.PopIdle? && |s.popped| < |s.pushed|
    ensures Next(s, PopLoadWrite) == Some(first)
    ensures |first.slots| > 0 && Next(first, PopLoadRead) == Some(both)
    ensures |both.slots| > 0 && Next(both, PopTake) == Some(taken)
    ensures |taken.slots| > 0 && Next(taken, PopDestroy) == Some(destroyed)
    ensures |destroyed.slots| > 0 && Next(destroyed, PopStore) == Some(end)
    ensures end.consumer.PopIdle? && end.popped == s.popped + [s.pushed[|s.popped|]]
    ensures end.pushed == s.pushed && end.producer == s.producer
  {
    IndexDistinct(|s.popped|, |s.pushed|, size);
    assert s.slots[Index(|s.popped|, size)] == Content(s, |s.popped|);
    first := Next(s, PopLoadWrite).value;
    both := Next(first, PopLoadRead).value;
    taken := Next(both, PopTake).value;
    destroyed := Next(taken, PopDestroy).value;
    end := Next(destroyed, PopStore).value;
  }
}
