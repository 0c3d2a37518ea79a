/**
  `Threading::WorkSema`: the sleep/wake protocol between one worker, any number of
  notifiers and one thread waiting for the queue to run empty.

  Every load, compare-exchange, fetch_add, fetch_and, exchange, Post and Wait is one
  atomic step; an execution is any interleaving of such steps.
 */
module WorkSema {
  import opened Arithmetic
  import opened Wrappers

  const SPINNING := -2
  const SLEEPING := -1
  const RUNNING_0 := 0
  const FLAG_WAITING_EMPTY := 0x4000_0000
  const INT_MIN := -0x8000_0000
  const NOTIFY_LIMIT := 0x2000_0000  // 2^29

  // ----- the state word: a signed 32-bit integer -----

  /** `v & STATE_FLAG_WAITING_EMPTY` is not zero: bit 30 of the two's complement of `v`. */
  predicate HasFlag(v: int) {
    (v / FLAG_WAITING_EMPTY) % 2 == 1
  }

  /** `v & STATE_FLAG_WAITING_EMPTY`. */
  function AndFlag(v: int): int {
    if HasFlag(v) then FLAG_WAITING_EMPTY else 0
  }

  /** `v | STATE_FLAG_WAITING_EMPTY`. */
  function OrFlag(v: int): int {
    if HasFlag(v) then v else v + FLAG_WAITING_EMPTY
  }

  predicate IsDead(v: int) {
    v < SPINNING
  }

  /** The bits below the flag are all zero. */
  predicate IsReadyForSleep(v: int) {
    v % FLAG_WAITING_EMPTY == RUNNING_0
  }

  function NextStateWaitForWork(v: int): int {
    var next := if IsReadyForSleep(v) then SLEEPING else RUNNING_0;
    if HasFlag(v) then OrFlag(next) else next
  }

  // ----- program counters -----

  /** One call of NotifyOfWork; the caller has put its item in the queue first. */
  datatype NotifierPc = Pushed | Posting | Notified

  datatype WorkerPc =
    | Processing         // taking items off the queue
    | Drained            // found the queue empty, about to ask for work
    | WaitCas(v: int)    // WaitForWork: about to compare-exchange
    | WaitPost           // WaitForWork: about to post m_empty_sema
    | WaitSleep          // WaitForWork: about to wait on m_sema
    | WaitAck            // WaitForWork: about to fetch_and
    | CheckCas(v: int)   // CheckForWork
    | CheckPost
    | SpinCas(v: int)    // WaitForWorkWithSpin: about to try SPINNING
    | SpinPost
    | SpinLoop(v: int)   // last value seen is negative
    | SpinSleep
    | SpinAck
    | KillPost           // Kill: about to post m_empty_sema
    | Dead

  /** `before` is the set of items that had been notified when WaitForEmpty was called. */
  datatype WaiterPc =
    | Idle
    | Called(before: set<nat>)
    | Test(v: int, before: set<nat>)
    | Waiting(before: set<nat>)
    | Awake(before: set<nat>)
    | Returned(ok: bool, before: set<nat>)

  function WithFetchAddDone(notifiers: map<nat, NotifierPc>): set<nat> {
    set i | i in notifiers && notifiers[i] != Pushed
  }

  function WithPostDue(notifiers: map<nat, NotifierPc>): set<nat> {
    set i | i in notifiers && notifiers[i] == Posting
  }

  /** `sleeps`, `posts` and `wakes` count the worker's decisions to sleep, the posts of
      m_sema and the worker's returns from its wait; `since` counts the notifications
      since a worker step last wrote the state word. */
  datatype State = State(
    word: int, sema: nat, emptySema: nat,
    notifiers: map<nat, NotifierPc>, processed: set<nat>,
    worker: WorkerPc, waiter: WaiterPc,
    since: nat, sleeps: nat, posts: nat, wakes: nat)
  {
    /** Items whose NotifyOfWork has done its fetch_add. */
    function NotifiedItems(): set<nat> {
      WithFetchAddDone(notifiers)
    }

    predicate AllNotifiedProcessed() {
      NotifiedItems() <= processed
    }

    /** Notifiers that saw SLEEPING and have still to post m_sema. */
    function Posters(): set<nat> {
      WithPostDue(notifiers)
    }

    predicate FlagSet() {
      word >= 0 && HasFlag(word)
    }

    predicate AboutToPostEmpty() {
      worker.WaitPost? || worker.CheckPost? || worker.SpinPost? || worker.KillPost?
    }

    /** The worker has written SLEEPING and has not yet returned from its wait. */
    predicate Asleep() {
      worker.WaitPost? || worker.WaitSleep? || worker.SpinSleep?
    }

    predicate Spinning() {
      worker.SpinPost? || worker.SpinLoop?
    }

    predicate Gone() {
      worker.KillPost? || worker.Dead?
    }

    /** The worker looked at the queue, found it empty, and has not looked again. */
    predicate PastQueueCheck() {
      worker.Drained? || worker.WaitCas? || worker.CheckCas? || worker.SpinCas?
    }
  }

  const INIT := State(RUNNING_0, 0, 0, map[], {}, Processing, Idle, 0, 0, 0, 0)

  // ----- steps -----

  datatype Action =
    // a notifier
    | Push(item: nat) | FetchAdd(item: nat) | PostWork(item: nat)
    // the worker
    | Process(item: nat) | SeeQueueEmpty
    | CallWaitForWork | CallCheckForWork | CallWaitForWorkWithSpin
    | WorkerCas(spurious: bool) | WorkerPostEmpty | WorkerWake | WorkerAck
    | SpinReload | SpinTrySleep(spurious: bool) | CallKill
    // the waiter
    | CallWaitForEmpty | EmptyLoad | EmptyTest(spurious: bool) | EmptyReload
    | EmptyWake | EmptyCheck

  /** The step `a` takes in `s`, or None where `a` is not possible in `s`. */
  function Next(s: State, a: Action): Option<State> {
    match a
    case Push(_) => NotifierStep(s, a)
    case FetchAdd(_) => NotifierStep(s, a)
    case PostWork(_) => NotifierStep(s, a)
    case CallWaitForEmpty => WaiterStep(s, a)
    case EmptyLoad => WaiterStep(s, a)
    case EmptyTest(_) => WaiterStep(s, a)
    case EmptyReload => WaiterStep(s, a)
    case EmptyWake => WaiterStep(s, a)
    case EmptyCheck => WaiterStep(s, a)
    case _ => WorkerStep(s, a)
  }

  function NotifierStep(s: State, a: Action): Option<State> {
    match a
    case Push(i) =>
      if i in s.notifiers then None else
      Some(s.(notifiers := s.notifiers[i := Pushed]))
    case FetchAdd(i) =>
      if i !in s.notifiers || s.notifiers[i] != Pushed then None else
      Some(s.(word := Wrap32(s.word + 2),
              notifiers := s.notifiers[i := if s.word == SLEEPING then Posting else Notified],
              since := s.since + 1))
    case PostWork(i) =>
      if i !in s.notifiers || s.notifiers[i] != Posting then None else
      Some(s.(sema := s.sema + 1, notifiers := s.notifiers[i := Notified], posts := s.posts + 1))
    case _ => None
  }

  /** Where WaitForWorkWithSpin goes once it holds value `v` at the head of its second loop. */
  function SpinTest(v: int): WorkerPc {
    if v < 0 then SpinLoop(v) else SpinAck
  }

  function WorkerStep(s: State, a: Action): Option<State> {
    match a
    case Process(i) =>
      if !s.worker.Processing? || i !in s.notifiers || i in s.processed then None else
      Some(s.(processed := s.processed + {i}))
    case SeeQueueEmpty =>
      if !s.worker.Processing? || !(s.notifiers.Keys <= s.processed) then None else
      Some(s.(worker := Drained))
    case CallWaitForWork =>
      if !s.worker.Drained? then None else Some(s.(worker := WaitCas(s.word)))
    case CallCheckForWork =>
      if !s.worker.Drained? then None else Some(s.(worker := CheckCas(s.word)))
    case CallWaitForWorkWithSpin =>
      if !s.worker.Drained? then None else
      Some(s.(worker := if IsReadyForSleep(s.word) then SpinCas(s.word) else SpinTest(s.word)))
    case WorkerCas(spurious) => WorkerCasStep(s, spurious)
    case WorkerPostEmpty =>
      if !s.AboutToPostEmpty() then None else
      Some(s.(emptySema := s.emptySema + 1,
              worker := match s.worker
                        case WaitPost => WaitSleep
                        case CheckPost => Processing
                        case SpinPost => SpinLoop(SPINNING)
                        case _ => Dead))
    case WorkerWake =>
      if s.sema == 0 || !(s.worker.WaitSleep? || s.worker.SpinSleep?) then None else
      Some(s.(sema := s.sema - 1, wakes := s.wakes + 1,
              worker := if s.worker.WaitSleep? then WaitAck else SpinAck))
    case WorkerAck =>
      if !(s.worker.WaitAck? || s.worker.SpinAck?) then None else
      Some(s.(word := AndFlag(s.word), worker := Processing, since := 0))
    case SpinReload =>
      if !s.worker.SpinLoop? then None else Some(s.(worker := SpinTest(s.word)))
    case SpinTrySleep(spurious) =>
      if !s.worker.SpinLoop? then None else
      if s.word == s.worker.v && !spurious
      then Some(s.(word := SLEEPING, worker := SpinSleep, since := 0, sleeps := s.sleeps + 1))
      else Some(s.(worker := SpinTest(s.word)))
    case CallKill =>
      if !(s.worker.Processing? || s.worker.Drained?) then None else
      Some(s.(word := INT_MIN, worker := if HasFlag(s.word) then KillPost else Dead, since := 0))
    case _ => None
  }

  /** The compare-exchange of CheckForWork, WaitForWork or WaitForWorkWithSpin. A failed
      one, spurious or not, refreshes the expected value. */
  function WorkerCasStep(s: State, spurious: bool): Option<State> {
    match s.worker
    case WaitCas(v) =>
      if s.word != v || spurious then Some(s.(worker := WaitCas(s.word))) else
      var next := s.(word := NextStateWaitForWork(v), since := 0);
      if !IsReadyForSleep(v) then Some(next.(worker := Processing))
      else Some(next.(worker := if HasFlag(v) then WaitPost else WaitSleep, sleeps := s.sleeps + 1))
    case CheckCas(v) =>
      if s.word != v || spurious then Some(s.(worker := CheckCas(s.word))) else
      var next := s.(word := if IsReadyForSleep(v) then RUNNING_0 else AndFlag(v), since := 0);
      Some(next.(worker := if IsReadyForSleep(v) && HasFlag(v) then CheckPost else Processing))
    case SpinCas(v) =>
      if s.word != v || spurious
      then Some(s.(worker := if IsReadyForSleep(s.word) then SpinCas(s.word) else SpinTest(s.word)))
      else Some(s.(word := SPINNING, since := 0,
                   worker := if HasFlag(v) then SpinPost else SpinLoop(SPINNING)))
    case _ => None
  }

  /** WaitForEmpty and WaitForEmptyWithSpin; EmptyReload is the spin of the latter. */
  function WaiterStep(s: State, a: Action): Option<State> {
    match a
    case CallWaitForEmpty =>
      if !(s.waiter.Idle? || s.waiter.Returned?) then None else
      Some(s.(waiter := Called(s.NotifiedItems())))
    case EmptyLoad =>
      if !s.waiter.Called? then None else Some(s.(waiter := Test(s.word, s.waiter.before)))
    case EmptyTest(spurious) =>
      if !s.waiter.Test? then None else
      var Test(v, before) := s.waiter;
      if v < 0 then Some(s.(waiter := Returned(!IsDead(v), before)))
      else if s.word == v && !spurious
      then Some(s.(word := OrFlag(v), waiter := Waiting(before)))
      else Some(s.(waiter := Test(s.word, before)))
    case EmptyReload =>
      if !s.waiter.Test? then None else
      Some(s.(waiter := Test(s.word, s.waiter.before)))
    case EmptyWake =>
      if !s.waiter.Waiting? || s.emptySema == 0 then None else
      Some(s.(emptySema := s.emptySema - 1, waiter := Awake(s.waiter.before)))
    case EmptyCheck =>
      if !s.waiter.Awake? then None else
      Some(s.(waiter := Returned(!IsDead(s.word), s.waiter.before)))
    case _ => None
  }

  // ----- executions -----

  /** `states` is what `actions` do from the initial state, one step each. */
  ghost predicate IsExecution(states: seq<State>, actions: seq<Action>) {
    && |states| == |actions| + 1
    && states[0] == INIT
    && forall k | 0 <= k < |actions| :: Next(states[k], actions[k]) == Some(states[k + 1])
  }

  /** Fewer than 2^29 notifications arrive between two writes of the word by the worker. */
  ghost predicate BoundedNotifications(states: seq<State>) {
    forall k | 0 <= k < |states| :: states[k].since < NOTIFY_LIMIT
  }

  // ----- the invariant -----

  /** The word agrees with what the worker is doing. */
  ghost predicate WordInv(s: State) {
    && s.since < NOTIFY_LIMIT
    && (s.word >= 0 ==> s.word < 0x8000_0000 && s.word % FLAG_WAITING_EMPTY <= 2 * s.since)
    && (s.word < 0 ==> s.word == SLEEPING || s.word == SPINNING || INT_MIN <= s.word <= INT_MIN + 2 * s.since)
    && (s.Gone() <==> IsDead(s.word))
    && (s.word == SLEEPING ==> s.Asleep())
    && (s.word == SPINNING ==> s.Spinning())
    && (s.worker.SpinLoop? ==> s.worker.v == SPINNING)
  }

  /** Nothing notified is forgotten: an item that the worker has been told of and will
      not meet in its current pass over the queue shows in the word. */
  ghost predicate WorkInv(s: State) {
    && (s.PastQueueCheck() && IsReadyForSleep(s.word) ==> s.AllNotifiedProcessed())
    && (s.word == SLEEPING || s.word == SPINNING ==> s.AllNotifiedProcessed())
    && (s.worker.SpinCas? ==> IsReadyForSleep(s.worker.v))
  }

  /** Sleeps and tokens of m_sema. */
  ghost predicate SleepInv(s: State) {
    && s.sema + |s.Posters()| == (if s.Asleep() && s.word != SLEEPING then 1 else 0)
    && s.sleeps == s.wakes + (if s.Asleep() then 1 else 0)
    && s.posts == s.wakes + s.sema
  }

  /** The thread waiting for empty, the flag, and tokens of m_empty_sema. */
  ghost predicate EmptyInv(s: State) {
    && (if s.FlagSet() then 1 else 0) + (if s.AboutToPostEmpty() then 1 else 0) + s.emptySema
       == (if s.waiter.Waiting? then 1 else 0)
    && (!s.waiter.Idle? ==> s.waiter.before <= s.NotifiedItems())
    && (s.waiter.Test? && (s.waiter.v == SLEEPING || s.waiter.v == SPINNING) ==> s.waiter.before <= s.processed)
    && (s.waiter.Waiting? && !s.FlagSet() && !IsDead(s.word) ==> s.waiter.before <= s.processed)
    && (s.waiter.Awake? && !IsDead(s.word) ==> s.waiter.before <= s.processed)
    && (s.waiter.Returned? && s.waiter.ok ==> s.waiter.before <= s.processed)
    && (s.waiter.Test? && IsDead(s.waiter.v) ==> s.Gone())
    && (s.waiter.Returned? && !s.waiter.ok ==> s.Gone())
  }

  ghost predicate Inv(s: State) {
    WordInv(s) && WorkInv(s) && SleepInv(s) && EmptyInv(s)
  }

  lemma InitInv()
    ensures Inv(INIT)
  {
    assert INIT.Posters() == {};
  }

  lemma StepInv(s: State, a: Action, t: State)
    requires Inv(s) && Next(s, a) == Some(t) && t.since < NOTIFY_LIMIT
    ensures Inv(t)
  {
    match a
    case Push(i) => NotifierStepInv(s, a, t);
    case FetchAdd(i) => NotifierStepInv(s, a, t);
    case PostWork(i) => NotifierStepInv(s, a, t);
    case CallWaitForEmpty => WaiterStepInv(s, a, t);
    case EmptyLoad => WaiterStepInv(s, a, t);
    case EmptyTest(_) => WaiterStepInv(s, a, t);
    case EmptyReload => WaiterStepInv(s, a, t);
    case EmptyWake => WaiterStepInv(s, a, t);
    case EmptyCheck => WaiterStepInv(s, a, t);
    case _ => WorkerStepInv(s, a, t);
  }

  // ----- the word under each kind of write -----

  /** A notification below the limit counts up and leaves the flag alone. */
  lemma AddToRunning(v: int, since: nat)
    requires 0 <= v < 0x8000_0000 && v % FLAG_WAITING_EMPTY <= 2 * since && since + 1 < NOTIFY_LIMIT
    ensures Wrap32(v + 2) == v + 2 < 0x8000_0000
    ensures HasFlag(v + 2) == HasFlag(v) && !IsReadyForSleep(v + 2)
    ensures (v + 2) % FLAG_WAITING_EMPTY == v % FLAG_WAITING_EMPTY + 2
  {
  }

  /** Setting the flag changes nothing else. */
  lemma SetFlag(v: int)
    requires 0 <= v < 0x8000_0000 && !HasFlag(v)
    ensures OrFlag(v) == v + FLAG_WAITING_EMPTY < 0x8000_0000 && HasFlag(OrFlag(v))
    ensures OrFlag(v) % FLAG_WAITING_EMPTY == v % FLAG_WAITING_EMPTY
  {
  }

  lemma KeepFlag(v: int)
    ensures HasFlag(AndFlag(v)) == HasFlag(v) && 0 <= AndFlag(v) < 0x8000_0000
    ensures AndFlag(v) % FLAG_WAITING_EMPTY == 0
  {
  }

  lemma NotifierStepInv(s: State, a: Action, t: State)
    requires Inv(s) && NotifierStep(s, a) == Some(t) && t.since < NOTIFY_LIMIT
    ensures Inv(t)
  {
    match a
    case Push(i) => PushInv(s, i, t);
    case FetchAdd(i) => FetchAddInv(s, i, t);
    case PostWork(i) => PostWorkInv(s, i, t);
    case _ =>
  }

  lemma PushInv(s: State, i: nat, t: State)
    requires Inv(s) && NotifierStep(s, Push(i)) == Some(t)
    ensures Inv(t)
  {
    assert t.NotifiedItems() == s.NotifiedItems();
    assert t.Posters() == s.Posters();
  }

  lemma FetchAddInv(s: State, i: nat, t: State)
    requires Inv(s) && NotifierStep(s, FetchAdd(i)) == Some(t) && t.since < NOTIFY_LIMIT
    ensures Inv(t)
  {
    if s.word >= 0 {
      AddToRunningInv(s, i, t);
    } else {
      AddToIdleInv(s, i, t);
    }
  }

  lemma AddToIdleInv(s: State, i: nat, t: State)
    requires Inv(s) && s.word < 0 && NotifierStep(s, FetchAdd(i)) == Some(t) && t.since < NOTIFY_LIMIT
    ensures Inv(t)
  {
    if s.word == SLEEPING {
      AddToSleepingInv(s, i, t);
    } else {
      assert t.NotifiedItems() == s.NotifiedItems() + {i};
      assert t.Posters() == s.Posters();
    }
  }

  lemma AddToSleepingInv(s: State, i: nat, t: State)
    requires Inv(s) && s.word == SLEEPING && NotifierStep(s, FetchAdd(i)) == Some(t) && t.since < NOTIFY_LIMIT
    ensures Inv(t)
  {
    assert t.NotifiedItems() == s.NotifiedItems() + {i};
    assert t.Posters() == s.Posters() + {i};
  }

  lemma AddToRunningInv(s: State, i: nat, t: State)
    requires Inv(s) && s.word >= 0 && NotifierStep(s, FetchAdd(i)) == Some(t) && t.since < NOTIFY_LIMIT
    ensures Inv(t)
  {
    AddToRunning(s.word, s.since);
    assert t.NotifiedItems() == s.NotifiedItems() + {i};
    assert t.Posters() == s.Posters();
  }

  lemma PostWorkInv(s: State, i: nat, t: State)
    requires Inv(s) && NotifierStep(s, PostWork(i)) == Some(t)
    ensures Inv(t)
  {
    assert t.NotifiedItems() == s.NotifiedItems();
    assert t.Posters() == s.Posters() - {i};
  }

  lemma WaiterStepInv(s: State, a: Action, t: State)
    requires Inv(s) && WaiterStep(s, a) == Some(t)
    ensures Inv(t)
  {
    if a.EmptyTest? {
      EmptyTestInv(s, a.spurious, t);
    }
  }

  lemma EmptyTestInv(s: State, spurious: bool, t: State)
    requires Inv(s) && WaiterStep(s, EmptyTest(spurious)) == Some(t)
    ensures Inv(t)
  {
    if t.waiter.Waiting? {
      SetFlag(s.word);
    }
  }

  lemma WorkerStepInv(s: State, a: Action, t: State)
    requires Inv(s) && WorkerStep(s, a) == Some(t)
    ensures Inv(t)
  {
    match a
    case Process(i) => ProcessInv(s, i, t);
    case SeeQueueEmpty => CallInv(s, a, t);
    case CallWaitForWork => CallInv(s, a, t);
    case CallCheckForWork => CallInv(s, a, t);
    case CallWaitForWorkWithSpin => CallInv(s, a, t);
    case WorkerCas(spurious) => WorkerCasInv(s, spurious, t);
    case WorkerPostEmpty => WorkerPostEmptyInv(s, t);
    case WorkerWake => WakeInv(s, a, t);
    case WorkerAck => WakeInv(s, a, t);
    case SpinReload => SpinInv(s, a, t);
    case SpinTrySleep(_) => SpinInv(s, a, t);
    case CallKill => CallKillInv(s, t);
    case _ =>
  }

  lemma ProcessInv(s: State, i: nat, t: State)
    requires Inv(s) && WorkerStep(s, Process(i)) == Some(t)
    ensures Inv(t)
  {
  }

  lemma CallInv(s: State, a: Action, t: State)
    requires a.SeeQueueEmpty? || a.CallWaitForWork? || a.CallCheckForWork? || a.CallWaitForWorkWithSpin?
    requires Inv(s) && WorkerStep(s, a) == Some(t)
    ensures Inv(t)
  {
  }

  lemma WorkerPostEmptyInv(s: State, t: State)
    requires Inv(s) && WorkerStep(s, WorkerPostEmpty) == Some(t)
    ensures Inv(t)
  {
  }

  lemma WakeInv(s: State, a: Action, t: State)
    requires a.WorkerWake? || a.WorkerAck?
    requires Inv(s) && WorkerStep(s, a) == Some(t)
    ensures Inv(t)
  {
    KeepFlag(s.word);
  }

  lemma SpinInv(s: State, a: Action, t: State)
    requires a.SpinReload? || a.SpinTrySleep?
    requires Inv(s) && WorkerStep(s, a) == Some(t)
    ensures Inv(t)
  {
  }

  lemma CallKillInv(s: State, t: State)
    requires Inv(s) && WorkerStep(s, CallKill) == Some(t)
    ensures Inv(t)
  {
  }

  lemma WorkerCasInv(s: State, spurious: bool, t: State)
    requires Inv(s) && WorkerCasStep(s, spurious) == Some(t)
    ensures Inv(t)
  {
    KeepFlag(s.word);
    match s.worker
    case WaitCas(v) => WaitCasInv(s, spurious, t);
    case CheckCas(v) => CheckCasInv(s, spurious, t);
    case SpinCas(v) => SpinCasInv(s, spurious, t);
    case _ =>
  }

  lemma WaitCasInv(s: State, spurious: bool, t: State)
    requires Inv(s) && s.worker.WaitCas? && WorkerCasStep(s, spurious) == Some(t)
    ensures Inv(t)
  {
    KeepFlag(s.word);
  }

  lemma CheckCasInv(s: State, spurious: bool, t: State)
    requires Inv(s) && s.worker.CheckCas? && WorkerCasStep(s, spurious) == Some(t)
    ensures Inv(t)
  {
    KeepFlag(s.word);
  }

  lemma SpinCasInv(s: State, spurious: bool, t: State)
    requires Inv(s) && s.worker.SpinCas? && WorkerCasStep(s, spurious) == Some(t)
    ensures Inv(t)
  {
  }

  lemma ExecutionInv(states: seq<State>, actions: seq<Action>, k: nat)
    requires IsExecution(states, actions) && BoundedNotifications(states)
    requires k < |states|
    ensures Inv(states[k])
  {
    if k == 0 {
      InitInv();
    } else {
      ExecutionInv(states, actions, k - 1);
      StepInv(states[k - 1], actions[k - 1], states[k]);
    }
  }

  // ----- main results -----

  /** The worker is blocked and nobody is on the way to wake it. */
  ghost predicate StuckAsleep(s: State) {
    (s.worker.WaitSleep? || s.worker.SpinSleep?) && s.sema == 0 && s.Posters() == {}
  }

  /** No lost work: in no state of any execution is the worker stuck asleep while a notified
      item is unprocessed; m_sema never holds two tokens; and every sleep gets exactly one
      post, which wakes it. */
  lemma NoLostWork(states: seq<State>, actions: seq<Action>, k: nat)
    requires IsExecution(states, actions) && BoundedNotifications(states) && k < |states|
    ensures StuckAsleep(states[k]) ==> states[k].AllNotifiedProcessed()
    ensures states[k].sema <= 1
    ensures states[k].wakes <= states[k].posts <= states[k].sleeps <= states[k].wakes + 1
    ensures !states[k].Asleep() ==> states[k].sleeps == states[k].posts == states[k].wakes
  {
    ExecutionInv(states, actions, k);
  }

  /** From the call on, the waiter remembers what had been notified when it called. */
  lemma WaiterRemembers(states: seq<State>, actions: seq<Action>, call: nat, k: nat)
    requires IsExecution(states, actions) && call < k < |states|
    requires actions[call] == CallWaitForEmpty
    requires forall j | call < j < k :: actions[j] != CallWaitForEmpty
    ensures !states[k].waiter.Idle? && states[k].waiter.before == states[call].NotifiedItems()
  {
    assert Next(states[k - 1], actions[k - 1]) == Some(states[k]);
    if call + 1 < k {
      WaiterRemembers(states, actions, call, k - 1);
    }
  }

  /** WaitForEmpty is sound: when the call made at step `call` has returned true, every item
      notified before the call has been processed. */
  lemma WaitForEmptySound(states: seq<State>, actions: seq<Action>, call: nat, k: nat)
    requires IsExecution(states, actions) && BoundedNotifications(states) && call < k < |states|
    requires actions[call] == CallWaitForEmpty
    requires forall j | call < j < k :: actions[j] != CallWaitForEmpty
    requires states[k].waiter.Returned? && states[k].waiter.ok
    ensures states[call].NotifiedItems() <= states[k].processed
  {
    WaiterRemembers(states, actions, call, k);
    ExecutionInv(states, actions, k);
  }

  /** A call made when the worker is gone is on its way to the answer false. */
  ghost predicate AnswersDead(w: WaiterPc) {
    w.Called? || (w.Test? && IsDead(w.v)) || (w.Returned? && !w.ok)
  }

  lemma {:induction false} CallAfterDeath(states: seq<State>, actions: seq<Action>, call: nat, k: nat)
    requires IsExecution(states, actions) && BoundedNotifications(states) && call < k < |states|
    requires actions[call] == CallWaitForEmpty && states[call].Gone()
    requires forall j | call < j < k :: actions[j] != CallWaitForEmpty
    ensures states[k].Gone() && AnswersDead(states[k].waiter)
  {
    ExecutionInv(states, actions, k - 1);
    assert Next(states[k - 1], actions[k - 1]) == Some(states[k]);
    if call + 1 < k {
      CallAfterDeath(states, actions, call, k - 1);
    }
  }

  /** What the answer of the call made at step `call` says. Death stays, so a false answer means
      that the worker is gone now; and it is gone at the call only if the answer is false. So
      with a worker still alive the answer is true. */
  lemma WaitForEmptyAnswers(states: seq<State>, actions: seq<Action>, call: nat, k: nat)
    requires IsExecution(states, actions) && BoundedNotifications(states) && call < k < |states|
    requires actions[call] == CallWaitForEmpty
    requires forall j | call < j < k :: actions[j] != CallWaitForEmpty
    requires states[k].waiter.Returned?
    ensures !states[k].waiter.ok ==> states[k].Gone()
    ensures states[call].Gone() ==> !states[k].waiter.ok
  {
    ExecutionInv(states, actions, k);
    if states[call].Gone() {
      CallAfterDeath(states, actions, call, k);
    }
  }

  /** While a thread waits on m_empty_sema exactly one of "flag set", "worker about to post"
      and "token present" holds, and otherwise none does. So it is never left asleep once the
      worker sleeps, spins or is dead. */
  lemma WaiterNeverStranded(states: seq<State>, actions: seq<Action>, k: nat)
    requires IsExecution(states, actions) && BoundedNotifications(states) && k < |states|
    ensures var s := states[k];
            (if s.FlagSet() then 1 else 0) + (if s.AboutToPostEmpty() then 1 else 0) + s.emptySema
            == if s.waiter.Waiting? then 1 else 0
    ensures states[k].waiter.Waiting? && states[k].word < 0 ==>
              states[k].emptySema == 1 || states[k].AboutToPostEmpty()
  {
    ExecutionInv(states, actions, k);
  }

  /** The assertions in the code hold: a worker asking for work never finds the word dead,
      and the waiter never finds the flag already set. */
  lemma AssertionsHold(states: seq<State>, actions: seq<Action>, k: nat)
    requires IsExecution(states, actions) && BoundedNotifications(states) && k < |actions|
    ensures states[k].worker.Drained? ==> !IsDead(states[k].word)
    ensures actions[k].EmptyTest? && states[k + 1].waiter.Waiting? ==> !HasFlag(states[k].word)
  {
    ExecutionInv(states, actions, k);
  }

  // ----- nothing is stuck -----

  /** The outcome of steps taken in turn, or None where one is not possible. */
  function Perform(s: State, path: seq<Action>): Option<State>
    decreases |path|
  {
    if path == [] then Some(s) else
    match Next(s, path[0])
    case None => None
    case Some(t) => Perform(t, path[1..])
  }

  /** Steps of the worker, and posts that notifiers owe it; no new notification, no Kill. */
  predicate IsWorkerOrPost(a: Action) {
    match a
    case PostWork(_) => true
    case Process(_) => true
    case CallCheckForWork => true
    case WorkerCas(_) => true
    case WorkerPostEmpty => true
    case WorkerWake => true
    case WorkerAck => true
    case SpinReload => true
    case _ => false
  }

  /** How far the worker is from taking items off the queue. */
  function Distance(s: State): nat {
    match s.worker
    case Processing => 0
    case WaitAck => 1
    case SpinAck => 1
    case CheckPost => 1
    case WaitSleep => if s.sema > 0 then 2 else 3
    case SpinSleep => if s.sema > 0 then 2 else 3
    case WaitPost => 4
    case SpinLoop(_) => 2
    case SpinPost => 3
    case WaitCas(v) => if s.word == v then 2 else 3
    case CheckCas(v) => if s.word == v then 2 else 3
    case SpinCas(_) => 2
    case Drained => 4
    case _ => 0
  }

  /** What one step towards the queue keeps. */
  ghost predicate Nearer(s: State, t: State) {
    && Inv(t) && Distance(t) < Distance(s) && !t.Gone()
    && t.processed == s.processed && t.notifiers.Keys == s.notifiers.Keys
    && t.NotifiedItems() == s.NotifiedItems()
  }

  lemma StepFromSleep(s: State) returns (a: Action, t: State)
    requires Inv(s) && !s.AllNotifiedProcessed() && (s.worker.WaitSleep? || s.worker.SpinSleep?)
    ensures IsWorkerOrPost(a) && Next(s, a) == Some(t) && Nearer(s, t)
  {
    if s.sema > 0 {
      a := WorkerWake;
    } else {
      assert s.Posters() != {};
      var i :| i in s.Posters();
      a := PostWork(i);
    }
    t := Next(s, a).value;
    StepInv(s, a, t);
    assert t.NotifiedItems() == s.NotifiedItems();
  }

  /** An unprocessed item shows in the word, so that the worker does not go to sleep. */
  lemma StepFromCas(s: State) returns (t: State)
    requires Inv(s) && !s.AllNotifiedProcessed() && (s.worker.WaitCas? || s.worker.CheckCas? || s.worker.SpinCas?)
    ensures Next(s, WorkerCas(false)) == Some(t) && Nearer(s, t)
  {
    t := Next(s, WorkerCas(false)).value;
    WorkerCasInv(s, false, t);
    assert t.NotifiedItems() == s.NotifiedItems();
  }

  lemma StepFromPost(s: State) returns (t: State)
    requires Inv(s) && (s.worker.WaitPost? || s.worker.CheckPost? || s.worker.SpinPost?)
    ensures Next(s, WorkerPostEmpty) == Some(t) && Nearer(s, t)
  {
    t := Next(s, WorkerPostEmpty).value;
    WorkerPostEmptyInv(s, t);
    assert t.NotifiedItems() == s.NotifiedItems();
  }

  lemma StepAwake(s: State) returns (a: Action, t: State)
    requires Inv(s) && !s.AllNotifiedProcessed()
    requires s.worker.Drained? || s.worker.SpinLoop? || s.worker.WaitAck? || s.worker.SpinAck?
    ensures IsWorkerOrPost(a) && Next(s, a) == Some(t) && Nearer(s, t)
  {
    a := match s.worker
         case Drained => CallCheckForWork
         case SpinLoop(_) => SpinReload
         case _ => WorkerAck;
    t := Next(s, a).value;
    WorkerStepInv(s, a, t);
    assert t.NotifiedItems() == s.NotifiedItems();
  }

  /** One step towards the queue. */
  lemma StepNearer(s: State) returns (a: Action, t: State)
    requires Inv(s) && !s.AllNotifiedProcessed() && !s.Gone() && !s.worker.Processing?
    ensures IsWorkerOrPost(a) && Next(s, a) == Some(t) && Nearer(s, t)
  {
    if s.worker.WaitSleep? || s.worker.SpinSleep? {
      a, t := StepFromSleep(s);
    } else if s.worker.WaitCas? || s.worker.CheckCas? || s.worker.SpinCas? {
      a := WorkerCas(false);
      t := StepFromCas(s);
    } else if s.AboutToPostEmpty() {
      a := WorkerPostEmpty;
      t := StepFromPost(s);
    } else {
      a, t := StepAwake(s);
    }
  }

  lemma {:induction false} PathToQueue(s: State) returns (path: seq<Action>, t: State)
    requires Inv(s) && !s.AllNotifiedProcessed() && !s.Gone()
    ensures forall a | a in path :: IsWorkerOrPost(a)
    ensures Perform(s, path) == Some(t) && t.worker.Processing?
    ensures t.processed == s.processed && t.notifiers.Keys == s.notifiers.Keys
    decreases Distance(s)
  {
    if s.worker.Processing? {
      path, t := [], s;
    } else {
      var a, next := StepNearer(s);
      var rest;
      rest, t := PathToQueue(next);
      path := [a] + rest;
      assert path[1..] == rest;
    }
  }

  lemma {:induction false} PerformOneMore(s: State, path: seq<Action>, t: State, a: Action)
    requires Perform(s, path) == Some(t)
    ensures Perform(s, path + [a]) == Next(t, a)
    decreases |path|
  {
    if path == [] {
      assert ([] + [a])[1..] == [];
    } else {
      PerformOneMore(Next(s, path[0]).value, path[1..], t, a);
      assert (path + [a])[1..] == path[1..] + [a];
    }
  }

  /** Notified work gets done: from every state of every execution in which the worker is alive
      and an item is notified and not processed, steps of the worker and posts already due
      process it, without any further notification. */
  lemma NotifiedWorkIsDone(states: seq<State>, actions: seq<Action>, k: nat, item: nat) returns (path: seq<Action>)
    requires IsExecution(states, actions) && BoundedNotifications(states) && k < |states|
    requires !states[k].Gone() && item in states[k].NotifiedItems() && item !in states[k].processed
    ensures forall a | a in path :: IsWorkerOrPost(a)
    ensures Perform(states[k], path).Some? && item in Perform(states[k], path).value.processed
  {
    ExecutionInv(states, actions, k);
    var t;
    path, t := PathToQueue(states[k]);
    PerformOneMore(states[k], path, t, Process(item));
    path := path + [Process(item)];
  }

  /** Steps of the waiting thread, and the post that the worker owes it. */
  predicate IsWaiterOrPost(a: Action) {
    a == EmptyLoad || a == EmptyTest(false) || a == EmptyReload || a == EmptyWake || a == EmptyCheck
    || a == WorkerPostEmpty
  }

  /** How far the waiting thread is from its answer. */
  function ToAnswer(s: State): nat {
    match s.waiter
    case Called(_) => 2
    case Test(v, _) => if v < 0 then 1 else 2
    case Waiting(_) => if s.emptySema > 0 then 2 else 3
    case Awake(_) => 1
    case _ => 0
  }

  lemma {:induction false} PathToAnswer(s: State) returns (path: seq<Action>, t: State)
    requires Inv(s) && s.word < 0 && !s.waiter.Idle?
    ensures forall a | a in path :: IsWaiterOrPost(a)
    ensures Perform(s, path) == Some(t) && Inv(t) && t.waiter.Returned?
    ensures t.word == s.word
    decreases ToAnswer(s)
  {
    if s.waiter.Returned? {
      path, t := [], s;
    } else {
      var a := match s.waiter
               case Called(_) => EmptyLoad
               case Test(v, _) => if v < 0 then EmptyTest(false) else EmptyReload
               case Waiting(_) => if s.emptySema > 0 then EmptyWake else WorkerPostEmpty
               case _ => EmptyCheck;
      var next := Next(s, a).value;
      StepInv(s, a, next);
      var rest;
      rest, t := PathToAnswer(next);
      path := [a] + rest;
      assert path[1..] == rest;
    }
  }

  /** WaitForEmpty comes back: once the worker sleeps, spins or is gone, the steps of the waiting
      thread and a post already due take it to its answer. */
  lemma WaitForEmptyReturns(states: seq<State>, actions: seq<Action>, k: nat) returns (path: seq<Action>)
    requires IsExecution(states, actions) && BoundedNotifications(states) && k < |states|
    requires states[k].word < 0 && !states[k].waiter.Idle?
    ensures forall a | a in path :: IsWaiterOrPost(a)
    ensures Perform(states[k], path).Some? && Perform(states[k], path).value.waiter.Returned?
  {
    ExecutionInv(states, actions, k);
    var t;
    path, t := PathToAnswer(states[k]);
  }

  // ----- the bound on notifications is exact -----

  function FirstNotified(n: nat): (m: map<nat, NotifierPc>)
    ensures forall i | i in m :: i < n && m[i] == Notified
  {
    if n == 0 then map[] else FirstNotified(n - 1)[n - 1 := Notified]
  }

  /** The state after `n` items were pushed and notified behind the back of a worker that
      had just found the queue empty. */
  function Flooded(n: nat): State {
    INIT.(word := 2 * n, worker := Drained, since := n, notifiers := FirstNotified(n))
  }

  /** One more step. */
  lemma Extend(states: seq<State>, actions: seq<Action>, a: Action, t: State)
    requires IsExecution(states, actions) && Next(states[|actions|], a) == Some(t)
    ensures IsExecution(states + [t], actions + [a]) && (states + [t])[|actions| + 1] == t
  {
  }

  lemma Flood(n: nat) returns (states: seq<State>, actions: seq<Action>)
    requires n <= NOTIFY_LIMIT
    ensures IsExecution(states, actions) && states[|actions|] == Flooded(n)
    ensures forall k | 0 <= k < |states| :: states[k].since <= n
  {
    if n == 0 {
      states, actions := [INIT, Flooded(0)], [SeeQueueEmpty];
    } else {
      states, actions := Flood(n - 1);
      var s := Flooded(n - 1);
      var pushed := s.(notifiers := s.notifiers[n - 1 := Pushed]);
      Extend(states, actions, Push(n - 1), pushed);
      states, actions := states + [pushed], actions + [Push(n - 1)];
      assert pushed.notifiers[n - 1 := Notified] == Flooded(n).notifiers;
      Extend(states, actions, FetchAdd(n - 1), Flooded(n));
      states, actions := states + [Flooded(n)], actions + [FetchAdd(n - 1)];
    }
  }

  /** The steps that put the worker to sleep on a word whose count has run into the flag. */
  lemma FloodedWorkerSleeps(s: State, s1: State, s2: State, s3: State)
    requires s == Flooded(NOTIFY_LIMIT)
    requires s1 == s.(worker := WaitCas(s.word))
    requires s2 == s.(worker := WaitPost, word := SLEEPING, since := 0, sleeps := 1)
    requires s3 == s2.(worker := WaitSleep, emptySema := 1)
    ensures Next(s, CallWaitForWork) == Some(s1)
    ensures Next(s1, WorkerCas(false)) == Some(s2)
    ensures Next(s2, WorkerPostEmpty) == Some(s3)
    ensures StuckAsleep(s3) && !s3.AllNotifiedProcessed()
  {
    assert NOTIFY_LIMIT - 1 in s3.NotifiedItems() && NOTIFY_LIMIT - 1 !in s3.processed;
  }

  /** A worker stuck asleep stays so, whatever other threads do, until the next notification. */
  lemma StuckUntilNotified(s: State, a: Action, t: State)
    requires StuckAsleep(s) && s.word == SLEEPING && Next(s, a) == Some(t) && !a.FetchAdd?
    ensures StuckAsleep(t) && t.word == SLEEPING && t.processed == s.processed
  {
    assert forall i | i in s.notifiers :: s.notifiers[i] == Posting ==> i in s.Posters();
    if a.Push? {
      assert t.Posters() == s.Posters();
    } else if a.EmptyTest? && s.waiter.Test? {
      assert s.waiter.v >= 0 ==> s.word != s.waiter.v;
    }
  }

  /** With 2^29 notifications between two worker writes the count runs into the flag bit:
      the worker goes to sleep on a queue of notified items, with nothing under way to wake it. */
  lemma BoundIsExact() returns (states: seq<State>, actions: seq<Action>)
    ensures IsExecution(states, actions)
    ensures forall k | 0 <= k < |states| :: states[k].since <= NOTIFY_LIMIT
    ensures StuckAsleep(states[|actions|]) && !states[|actions|].AllNotifiedProcessed()
    ensures states[|actions|].word == SLEEPING
  {
    states, actions := Flood(NOTIFY_LIMIT);
    var s := states[|actions|];
    var s1 := s.(worker := WaitCas(s.word));
    var s2 := s.(worker := WaitPost, word := SLEEPING, since := 0, sleeps := 1);
    var s3 := s2.(worker := WaitSleep, emptySema := 1);
    FloodedWorkerSleeps(s, s1, s2, s3);
    Extend(states, actions, CallWaitForWork, s1);
    states, actions := states + [s1], actions + [CallWaitForWork];
    Extend(states, actions, WorkerCas(false), s2);
    states, actions := states + [s2], actions + [WorkerCas(false)];
    Extend(states, actions, WorkerPostEmpty, s3);
    states, actions := states + [s3], actions + [WorkerPostEmpty];
  }
}
