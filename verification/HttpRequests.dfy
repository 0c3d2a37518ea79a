/**
  The request table of `HTTPDownloader`: requests are created by any thread, one thread polls,
  and the poller drops the lock around every callback. The network is a source of state
  changes; timeouts and cancellations are choices.
 */
module HttpRequests {
  import opened Wrappers

  datatype RequestState = Pending | Cancelled | Started | Receiving | Complete

  predicate IsActive(s: RequestState) {
    s == Started || s == Receiving
  }

  /** Where LockedPollRequests stands. It holds the lock in Scan and Starting. */
  datatype PollerPc =
    | Idle
    | Scan(index: nat, active: nat, unstarted: nat)
    | Unlocked(request: nat, index: nat, active: nat, unstarted: nat)  // about to run a callback
    | CalledBack(index: nat, active: nat, unstarted: nat)              // about to lock again
    | Starting(index: nat, active: nat)

  /** `list` is m_pending_http_requests, `created` every request ever made and `called` the
      callbacks that have run. */
  datatype State = State(
    list: seq<nat>, states: map<nat, RequestState>, poller: PollerPc,
    created: set<nat>, called: multiset<nat>)
  {
    predicate LockFree() {
      poller.Idle? || poller.Unlocked? || poller.CalledBack?
    }

    /** A request off the list whose callback the poller has still to run. */
    function InHand(): multiset<nat> {
      if poller.Unlocked? then multiset{poller.request} else multiset{}
    }
  }

  const INIT := State([], map[], Idle, {}, multiset{})

  function Erase(list: seq<nat>, index: nat): seq<nat>
    requires index < |list|
  {
    list[..index] + list[index + 1..]
  }

  /** `LockedGetActiveRequestCount` over part of the list. */
  function ActiveCount(list: seq<nat>, states: map<nat, RequestState>): nat {
    if list == [] then 0 else
    (if list[0] in states && IsActive(states[list[0]]) then 1 else 0) + ActiveCount(list[1..], states)
  }

  /** Choices: whether StartRequest succeeds, and whether an active request is found to have
      timed out or been cancelled. */
  datatype Action =
    | Create(request: nat, startOk: bool)
    | Network(request: nat, to: RequestState)
    | PollBegin | ScanStep(expired: bool) | RunCallback | Relock | StartStep(startOk: bool)

  /** The step `a` takes in `s`, or None where `a` is not possible in `s`. */
  function Next(s: State, a: Action, limit: nat): Option<State> {
    match a
    case Create(r, ok) => CreateStep(s, r, ok, limit)
    case Network(r, to) =>
      if r !in s.states || !IsActive(s.states[r]) || !(to == Receiving || to == Complete) then None
      else Some(s.(states := s.states[r := to]))
    case _ => PollerStep(s, a, limit)
  }

  /** CreateRequest and CreatePostRequest, which hold the lock throughout. A failing
      StartRequest runs the callback. */
  function CreateStep(s: State, r: nat, ok: bool, limit: nat): Option<State> {
    if !s.LockFree() || r in s.created then None else
    var next := s.(created := s.created + {r});
    if ActiveCount(s.list, s.states) < limit then
      if ok then Some(next.(list := s.list + [r], states := s.states[r := Started]))
      else Some(next.(called := s.called + multiset{r}))
    else Some(next.(list := s.list + [r], states := s.states[r := Pending]))
  }

  function PollerStep(s: State, a: Action, limit: nat): Option<State> {
    match (a, s.poller)
    case (PollBegin, Idle) => Some(s.(poller := if s.list == [] then Idle else Scan(0, 0, 0)))
    case (ScanStep(expired), Scan(index, active, unstarted)) => Some(Scanned(s, expired, limit))
    case (RunCallback, Unlocked(r, index, active, unstarted)) =>
      Some(s.(called := s.called + multiset{r}, poller := CalledBack(index, active, unstarted)))
    case (Relock, CalledBack(index, active, unstarted)) => Some(s.(poller := Scan(index, active, unstarted)))
    case (StartStep(ok), Starting(index, active)) => Some(StartedOne(s, ok, limit))
    case _ => None
  }

  /** One turn of the first loop, or its end. */
  function Scanned(s: State, expired: bool, limit: nat): State
    requires s.poller.Scan?
  {
    var Scan(index, active, unstarted) := s.poller;
    if index >= |s.list| then
      s.(poller := if unstarted > 0 && active < limit then Starting(0, active) else Idle)
    else
      var r := s.list[index];
      var state := if r in s.states then s.states[r] else Pending;
      if state == Pending then s.(poller := Scan(index + 1, active, unstarted + 1))
      else if IsActive(state) && expired then
        s.(states := s.states[r := Cancelled], list := Erase(s.list, index),
           poller := Unlocked(r, index, active, unstarted))
      else if state != Complete then s.(poller := Scan(index + 1, active + 1, unstarted))
      else s.(list := Erase(s.list, index), poller := Unlocked(r, index, active, unstarted))
  }

  /** One turn of the second loop, or its end. */
  function StartedOne(s: State, ok: bool, limit: nat): State
    requires s.poller.Starting?
  {
    var Starting(index, active) := s.poller;
    if index >= |s.list| then s.(poller := Idle)
    else
      var r := s.list[index];
      if r in s.states && s.states[r] != Pending then s.(poller := Starting(index + 1, active))
      else if !ok then s.(list := Erase(s.list, index), called := s.called + multiset{r})
      else s.(states := s.states[r := Started],
              poller := if active + 1 >= limit then Idle else Starting(index + 1, active + 1))
  }

  ghost predicate IsExecution(states: seq<State>, actions: seq<Action>, limit: nat) {
    && |states| == |actions| + 1
    && states[0] == INIT
    && forall k | 0 <= k < |actions| :: Next(states[k], actions[k], limit) == Some(states[k + 1])
  }

  // ----- counting active requests -----

  lemma {:induction false} CountConcat(a: seq<nat>, b: seq<nat>, states: map<nat, RequestState>)
    ensures ActiveCount(a + b, states) == ActiveCount(a, states) + ActiveCount(b, states)
  {
    if a == [] {
      assert a + b == b;
    } else {
      CountConcat(a[1..], b, states);
      assert (a + b)[1..] == a[1..] + b;
    }
  }

  lemma CountSplit(list: seq<nat>, index: nat, states: map<nat, RequestState>)
    requires index < |list|
    ensures ActiveCount(list, states) == ActiveCount(list[..index], states) + ActiveCount([list[index]], states)
                                         + ActiveCount(list[index + 1..], states)
    ensures ActiveCount(Erase(list, index), states) == ActiveCount(list[..index], states) + ActiveCount(list[index + 1..], states)
    ensures ActiveCount(list[..index + 1], states) == ActiveCount(list[..index], states) + ActiveCount([list[index]], states)
  {
    CountConcat(list[..index], [list[index]], states);
    CountConcat(list[..index] + [list[index]], list[index + 1..], states);
    CountConcat(list[..index], list[index + 1..], states);
    assert list == list[..index] + [list[index]] + list[index + 1..];
    assert list[..index + 1] == list[..index] + [list[index]];
  }

  /** A change of one request's state moves the count by at most the places it has. */
  lemma {:induction false} CountAfterChange(list: seq<nat>, states: map<nat, RequestState>, r: nat, to: RequestState)
    ensures ActiveCount(list, states[r := to]) <= ActiveCount(list, states) + (if IsActive(to) then multiset(list)[r] else 0)
    ensures r in states && IsActive(states[r]) ==> ActiveCount(list, states[r := to]) <= ActiveCount(list, states)
  {
    if list != [] {
      CountAfterChange(list[1..], states, r, to);
      assert list == [list[0]] + list[1..];
    }
  }

  // ----- the invariant -----

  /** Conservation: every request ever made is listed, in the poller's hand or called back,
      in one of these places and once. */
  ghost predicate Conserved(s: State) {
    multiset(s.list) + s.InHand() + s.called == multiset(s.created)
  }

  ghost predicate StatesKnown(s: State) {
    && (forall r | r in s.list :: r in s.states)
    && s.states.Keys <= s.created
  }

  /** The limit is kept, and the poller's count is never too low. */
  ghost predicate Limited(s: State, limit: nat) {
    && ActiveCount(s.list, s.states) <= limit
    && (match s.poller
        case Idle => true
        case Scan(index, active, _) => index <= |s.list| && ActiveCount(s.list[..index], s.states) <= active
        case Unlocked(_, index, active, _) => index <= |s.list| && ActiveCount(s.list[..index], s.states) <= active
        case CalledBack(index, active, _) => index <= |s.list| && ActiveCount(s.list[..index], s.states) <= active
        case Starting(_, active) => ActiveCount(s.list, s.states) <= active < limit)
  }

  ghost predicate Inv(s: State, limit: nat) {
    Conserved(s) && StatesKnown(s) && Limited(s, limit)
  }

  lemma ListedOnce(s: State, r: nat)
    requires Conserved(s)
    ensures multiset(s.list)[r] <= 1
    ensures r !in s.created ==> r !in s.list
  {
    assert multiset(s.created)[r] <= 1;
    assert (multiset(s.list) + s.InHand() + s.called)[r] == multiset(s.created)[r];
    if r in s.list {
      assert r in multiset(s.list);
    }
  }

  lemma EraseBag(list: seq<nat>, index: nat)
    requires index < |list|
    ensures multiset(list) == multiset(Erase(list, index)) + multiset{list[index]}
    ensures forall r | r in Erase(list, index) :: r in list
  {
    assert list == list[..index] + [list[index]] + list[index + 1..];
  }

  lemma CreateInv(s: State, r: nat, ok: bool, t: State, limit: nat)
    requires Inv(s, limit) && CreateStep(s, r, ok, limit) == Some(t)
    ensures Inv(t, limit)
  {
    ListedOnce(s, r);
    CreateConserved(s, r, ok, t, limit);
    if t.list != s.list {
      CreateLimited(s, r, t, limit);
    }
  }

  lemma CreateConserved(s: State, r: nat, ok: bool, t: State, limit: nat)
    requires Conserved(s) && CreateStep(s, r, ok, limit) == Some(t)
    ensures Conserved(t)
  {
    NewMember(s.created, r);
    OneMore(multiset(s.list), s.InHand(), s.called, multiset(s.created), r);
    if t.list != s.list {
      assert t.list == s.list + [r] && t.called == s.called;
      assert multiset(t.list) == multiset(s.list) + multiset{r};
    } else {
      assert t.called == s.called + multiset{r};
    }
  }

  lemma NewMember(created: set<nat>, r: nat)
    requires r !in created
    ensures multiset(created + {r}) == multiset(created) + multiset{r}
  {
  }

  lemma OneMore(a: multiset<nat>, b: multiset<nat>, c: multiset<nat>, all: multiset<nat>, r: nat)
    requires a + b + c == all
    ensures (a + multiset{r}) + b + c == all + multiset{r}
    ensures a + b + (c + multiset{r}) == all + multiset{r}
  {
  }

  /** A request added at the end lies beyond what the poller has counted. */
  lemma CreateLimited(s: State, r: nat, t: State, limit: nat)
    requires Limited(s, limit) && s.LockFree() && r !in s.list
    requires r in t.states && t.states == s.states[r := t.states[r]]
    requires t.list == s.list + [r] && t.poller == s.poller && (IsActive(t.states[r]) ==> ActiveCount(s.list, s.states) < limit)
    ensures Limited(t, limit)
  {
    CountUnaware(s.list, s.states, r, t.states[r]);
    CountConcat(s.list, [r], t.states);
    assert [r][1..] == [];
    if !s.poller.Idle? {
      var index := s.poller.index;
      assert t.list[..index] == s.list[..index];
      CountUnaware(s.list[..index], s.states, r, t.states[r]);
    }
  }

  lemma {:induction false} CountUnaware(list: seq<nat>, states: map<nat, RequestState>, r: nat, to: RequestState)
    requires r !in list
    ensures ActiveCount(list, states[r := to]) == ActiveCount(list, states)
  {
    if list != [] {
      CountUnaware(list[1..], states, r, to);
    }
  }

  lemma NetworkInv(s: State, r: nat, to: RequestState, t: State, limit: nat)
    requires Inv(s, limit) && Next(s, Network(r, to), limit) == Some(t)
    ensures Inv(t, limit)
  {
    CountAfterChange(s.list, s.states, r, to);
    if s.poller.Scan? || s.poller.Unlocked? || s.poller.CalledBack? {
      CountAfterChange(s.list[..s.poller.index], s.states, r, to);
    }
  }

  lemma ScanInv(s: State, expired: bool, t: State, limit: nat)
    requires Inv(s, limit) && s.poller.Scan? && t == Scanned(s, expired, limit)
    ensures Inv(t, limit)
  {
    var Scan(index, active, unstarted) := s.poller;
    if index >= |s.list| {
      assert s.list[..index] == s.list;
    } else if t.poller.Unlocked? {
      TakeOffInv(s, t, limit);
    } else {
      StepOverInv(s, t, limit);
    }
  }

  /** Any other request is counted and left where it is. */
  lemma StepOverInv(s: State, t: State, limit: nat)
    requires Inv(s, limit) && s.poller.Scan? && s.poller.index < |s.list|
    requires t == s.(poller := t.poller) && t.poller.Scan? && t.poller.index == s.poller.index + 1
    requires var r := s.list[s.poller.index];
             t.poller.active >= s.poller.active + if r in s.states && IsActive(s.states[r]) then 1 else 0
    ensures Inv(t, limit)
  {
    CountSplit(s.list, s.poller.index, s.states);
    assert [s.list[s.poller.index]][1..] == [];
  }

  /** A request that is complete, or given up, is taken off the list. */
  lemma TakeOffInv(s: State, t: State, limit: nat)
    requires Inv(s, limit) && s.poller.Scan? && s.poller.index < |s.list|
    requires var Scan(index, active, unstarted) := s.poller;
             && t == s.(list := Erase(s.list, index), states := t.states,
                        poller := Unlocked(s.list[index], index, active, unstarted))
             && (t.states == s.states || t.states == s.states[s.list[index] := Cancelled])
    ensures Inv(t, limit)
  {
    var index, r := s.poller.index, s.list[s.poller.index];
    EraseBag(s.list, index);
    assert multiset(t.list) + t.InHand() == multiset(s.list) + s.InHand();
    CountSplit(s.list, index, s.states);
    assert t.list[..index] == s.list[..index];
    CountAfterChange(t.list, s.states, r, Cancelled);
    CountAfterChange(t.list[..index], s.states, r, Cancelled);
  }

  lemma StartInv(s: State, ok: bool, t: State, limit: nat)
    requires Inv(s, limit) && s.poller.Starting? && t == StartedOne(s, ok, limit)
    ensures Inv(t, limit)
  {
    var Starting(index, active) := s.poller;
    if index < |s.list| {
      var r := s.list[index];
      CountSplit(s.list, index, s.states);
      EraseBag(s.list, index);
      ListedOnce(s, r);
      CountAfterChange(s.list, s.states, r, Started);
    }
  }

  lemma StepInv(s: State, a: Action, t: State, limit: nat)
    requires Inv(s, limit) && Next(s, a, limit) == Some(t)
    ensures Inv(t, limit)
  {
    match a
    case Create(r, ok) => CreateInv(s, r, ok, t, limit);
    case Network(r, to) => NetworkInv(s, r, to, t, limit);
    case ScanStep(expired) => ScanInv(s, expired, t, limit);
    case StartStep(ok) => StartInv(s, ok, t, limit);
    case _ =>
  }

  lemma {:induction false} ExecutionInv(states: seq<State>, actions: seq<Action>, limit: nat, k: nat)
    requires IsExecution(states, actions, limit) && k < |states|
    ensures Inv(states[k], limit)
  {
    if k > 0 {
      ExecutionInv(states, actions, limit, k - 1);
      StepInv(states[k - 1], actions[k - 1], states[k], limit);
    }
  }

  // ----- main results -----

  /** Every request created has had its callback exactly once or is still listed, exactly once
      (or is the one whose callback the poller is just about to run), in spite of the lock
      being dropped in the middle of a scan. */
  lemma CallbackExactlyOnce(states: seq<State>, actions: seq<Action>, limit: nat, k: nat, r: nat)
    requires IsExecution(states, actions, limit) && k < |states| && r in states[k].created
    ensures var s := states[k];
            s.called[r] + multiset(s.list)[r] + s.InHand()[r] == 1
    ensures states[k].poller.Idle? ==> (states[k].called[r] == 1 <==> r !in states[k].list)
  {
    ExecutionInv(states, actions, limit, k);
    var s := states[k];
    assert (multiset(s.list) + s.InHand() + s.called)[r] == multiset(s.created)[r];
    if r in s.list {
      assert r in multiset(s.list);
    }
  }

  /** No callback runs for a request that was never created. */
  lemma NoStrayCallback(states: seq<State>, actions: seq<Action>, limit: nat, k: nat, r: nat)
    requires IsExecution(states, actions, limit) && k < |states| && r !in states[k].created
    ensures states[k].called[r] == 0 && r !in states[k].list
  {
    ExecutionInv(states, actions, limit, k);
    var s := states[k];
    assert (multiset(s.list) + s.InHand() + s.called)[r] == multiset(s.created)[r];
    ListedOnce(s, r);
  }

  /** The places in the list of requests that are Started or Receiving. */
  ghost function ActivePlaces(list: seq<nat>, states: map<nat, RequestState>): set<nat> {
    set i: nat | i < |list| && list[i] in states && states[list[i]] in {Started, Receiving}
  }

  lemma {:induction false} CountIsSize(list: seq<nat>, states: map<nat, RequestState>)
    ensures ActiveCount(list, states) == |ActivePlaces(list, states)|
  {
    if list != [] {
      var n := |list| - 1;
      var r, before := list[n], list[..n];
      CountIsSize(before, states);
      CountConcat(before, [r], states);
      assert list == before + [r] && [r][1..] == [];
      if r in states && states[r] in {Started, Receiving} {
        assert ActivePlaces(list, states) == ActivePlaces(before, states) + {n};
      } else {
        assert ActivePlaces(list, states) == ActivePlaces(before, states);
      }
    } else {
      assert ActivePlaces(list, states) == {};
    }
  }

  /** Never more requests are active than the limit allows. */
  lemma ActiveWithinLimit(states: seq<State>, actions: seq<Action>, limit: nat, k: nat)
    requires IsExecution(states, actions, limit) && k < |states|
    ensures |ActivePlaces(states[k].list, states[k].states)| <= limit
  {
    ExecutionInv(states, actions, limit, k);
    CountIsSize(states[k].list, states[k].states);
  }

  // ----- why a callback runs -----

  predicate IsOver(s: State, r: nat) {
    r in s.states && (s.states[r] == Complete || s.states[r] == Cancelled)
  }

  ghost predicate HandIsOver(s: State) {
    s.poller.Unlocked? ==> IsOver(s, s.poller.request)
  }

  lemma HandStep(s: State, a: Action, t: State, limit: nat)
    requires StatesKnown(s) && HandIsOver(s) && Next(s, a, limit) == Some(t)
    ensures HandIsOver(t)
  {
    match a
    case Create(r, ok) =>
    case Network(r, to) =>
    case ScanStep(expired) =>
      if s.poller.index < |s.list| {
        assert s.list[s.poller.index] in s.list;
      }
    case _ =>
  }

  /** The request in the poller's hand is complete or cancelled. */
  lemma {:induction false} InHandIsOver(states: seq<State>, actions: seq<Action>, limit: nat, k: nat)
    requires IsExecution(states, actions, limit) && k < |states|
    ensures states[k].poller.Unlocked? ==> IsOver(states[k], states[k].poller.request)
  {
    if k > 0 {
      InHandIsOver(states, actions, limit, k - 1);
      ExecutionInv(states, actions, limit, k - 1);
      HandStep(states[k - 1], actions[k - 1], states[k], limit);
    }
  }

  /** A request is cancelled only while it is active, and only by a scan that finds it to have
      timed out or been cancelled. */
  lemma CancelledByScan(s: State, a: Action, t: State, limit: nat, r: nat)
    requires Inv(s, limit) && Next(s, a, limit) == Some(t)
    requires r in t.states && t.states[r] == Cancelled && !(r in s.states && s.states[r] == Cancelled)
    ensures a == ScanStep(true) && s.poller.Scan? && s.poller.index < |s.list| && s.list[s.poller.index] == r
    ensures r in s.states && IsActive(s.states[r])
  {
    match a
    case Create(q, ok) =>
    case Network(q, to) =>
    case ScanStep(expired) =>
    case StartStep(ok) =>
    case _ =>
  }

  /** A callback runs for a request that is complete or cancelled, or that failed to start. */
  lemma CallbackReason(states: seq<State>, actions: seq<Action>, limit: nat, k: nat, r: nat)
    requires IsExecution(states, actions, limit) && k < |actions| && states[k + 1].called[r] != states[k].called[r]
    ensures match actions[k]
            case RunCallback => IsOver(states[k], r)
            case Create(q, ok) => q == r && !ok
            case StartStep(ok) => !ok && r in states[k].states && states[k].states[r] == Pending
            case _ => false
  {
    InHandIsOver(states, actions, limit, k);
    ExecutionInv(states, actions, limit, k);
    assert Next(states[k], actions[k], limit) == Some(states[k + 1]);
    var s := states[k];
    if s.poller.Starting? && s.poller.index < |s.list| {
      assert s.list[s.poller.index] in s.list;
    }
  }

  // ----- one pass of the poller -----

  /** In the scan of a pass, `r` has been called back, is about to be, or is complete and still
      ahead of the index; if it is to expire, active and ahead of the index will do. */
  ghost predicate Handled(s: State, r: nat, expires: bool) {
    || r in s.called
    || r in s.InHand()
    || ((s.poller.Scan? || s.poller.Unlocked? || s.poller.CalledBack?)
        && DueBack(s, r, expires)
        && exists i :: s.poller.index <= i < |s.list| && s.list[i] == r)
  }

  predicate DueBack(s: State, r: nat, expires: bool) {
    r in s.states && (s.states[r] == Complete || (expires && IsActive(s.states[r])))
  }

  /** A scan that comes upon `r` finds that it has timed out or been cancelled. */
  predicate FindsExpired(s: State, a: Action, r: nat) {
    a.ScanStep? && s.poller.Scan? && s.poller.index < |s.list| && s.list[s.poller.index] == r ==> a.expired
  }

  /** An erase moves what is ahead of the index down by one and the index stays, so that no
      request is stepped over. */
  lemma EraseKeepsAhead(list: seq<nat>, index: nat, i: nat)
    requires index < i < |list|
    ensures Erase(list, index)[i - 1] == list[i]
  {
  }

  lemma ScanHandles(s: State, expired: bool, limit: nat, r: nat, expires: bool)
    requires Inv(s, limit) && s.poller.Scan? && Handled(s, r, expires)
    requires expires ==> FindsExpired(s, ScanStep(expired), r)
    ensures Handled(Scanned(s, expired, limit), r, expires)
  {
    var t, index := Scanned(s, expired, limit), s.poller.index;
    if r !in s.called {
      var i :| index <= i < |s.list| && s.list[i] == r;
      if i == index {
        assert r in s.states;
      } else {
        ListedOnce(s, r);
        TwicePlaced(s.list, index, i);
        assert DueBack(t, r, expires);
        if t.poller.Unlocked? {
          EraseKeepsAhead(s.list, index, i);
          assert t.poller.index <= i - 1 < |t.list| && t.list[i - 1] == r;
        } else {
          assert t.poller.index <= i < |t.list| && t.list[i] == r;
        }
      }
    }
  }

  lemma TwicePlaced(list: seq<nat>, i: nat, j: nat)
    requires i < j < |list|
    ensures list[i] == list[j] ==> multiset(list)[list[j]] >= 2
  {
    assert list == list[..i] + [list[i]] + list[i + 1..];
    assert list[i + 1..][j - i - 1] == list[j];
    assert list[j] in list[i + 1..];
    assert list[j] in multiset(list[i + 1..]);
  }

  lemma CreateLeaves(s: State, q: nat, ok: bool, t: State, limit: nat, r: nat)
    requires Conserved(s) && CreateStep(s, q, ok, limit) == Some(t) && r in s.list
    ensures t.poller == s.poller && s.list <= t.list && r != q
    ensures r in s.states ==> r in t.states && t.states[r] == s.states[r]
  {
    ListedOnce(s, q);
  }

  lemma CreateHandles(s: State, q: nat, ok: bool, t: State, limit: nat, r: nat, expires: bool)
    requires Inv(s, limit) && CreateStep(s, q, ok, limit) == Some(t) && !s.poller.Idle? && Handled(s, r, expires)
    ensures Handled(t, r, expires)
  {
    if r in s.called {
      assert r in t.called;
    } else if r !in s.InHand() {
      var i :| s.poller.index <= i < |s.list| && s.list[i] == r;
      CreateLeaves(s, q, ok, t, limit, r);
      assert t.list[i] == r;
    }
  }

  lemma NetworkHandles(s: State, q: nat, to: RequestState, t: State, limit: nat, r: nat, expires: bool)
    requires Next(s, Network(q, to), limit) == Some(t) && Handled(s, r, expires)
    ensures Handled(t, r, expires)
  {
    assert t.list == s.list && t.poller == s.poller && t.called == s.called;
  }

  lemma PollerHandles(s: State, a: Action, t: State, limit: nat, r: nat, expires: bool)
    requires Inv(s, limit) && PollerStep(s, a, limit) == Some(t) && !s.poller.Idle? && Handled(s, r, expires)
    requires expires ==> FindsExpired(s, a, r)
    ensures Handled(t, r, expires)
  {
    if a.ScanStep? {
      ScanHandles(s, a.expired, limit, r, expires);
    } else if a.StartStep? {
      assert r in s.called;
    }
  }

  lemma StepHandles(s: State, a: Action, t: State, limit: nat, r: nat, expires: bool)
    requires Inv(s, limit) && Next(s, a, limit) == Some(t) && !s.poller.Idle? && Handled(s, r, expires)
    requires expires ==> FindsExpired(s, a, r)
    ensures Handled(t, r, expires)
  {
    match a
    case Create(q, ok) => CreateHandles(s, q, ok, t, limit, r, expires);
    case Network(q, to) => NetworkHandles(s, q, to, t, limit, r, expires);
    case _ => PollerHandles(s, a, t, limit, r, expires);
  }

  ghost predicate ExpiresIn(states: seq<State>, actions: seq<Action>, first: nat, last: nat, r: nat)
    requires last <= |states| && last <= |actions|
  {
    forall j | first < j < last :: FindsExpired(states[j], actions[j], r)
  }

  /** A pass of the poller, from its start to its end. */
  ghost predicate IsPass(states: seq<State>, actions: seq<Action>, first: nat, last: nat) {
    && first < last < |states| && first < |actions|
    && actions[first] == PollBegin
    && (forall j | first < j < last :: !states[j].poller.Idle?)
  }

  lemma PassBegins(s: State, t: State, limit: nat, r: nat, expires: bool)
    requires Next(s, PollBegin, limit) == Some(t) && r in s.list && DueBack(s, r, expires)
    ensures Handled(t, r, expires)
  {
    var i :| 0 <= i < |s.list| && s.list[i] == r;
    assert t.poller.index <= i < |t.list| && t.list[i] == r;
  }

  lemma {:induction false} PassHandles(states: seq<State>, actions: seq<Action>, limit: nat, first: nat, k: nat, r: nat, expires: bool)
    requires IsExecution(states, actions, limit) && IsPass(states, actions, first, k)
    requires r in states[first].list && DueBack(states[first], r, expires)
    requires expires ==> ExpiresIn(states, actions, first, k, r)
    ensures Handled(states[k], r, expires)
  {
    assert Next(states[k - 1], actions[k - 1], limit) == Some(states[k]);
    ExecutionInv(states, actions, limit, k - 1);
    if k - 1 == first {
      PassBegins(states[first], states[k], limit, r, expires);
    } else {
      PassHandles(states, actions, limit, first, k - 1, r, expires);
      StepHandles(states[k - 1], actions[k - 1], states[k], limit, r, expires);
    }
  }

  lemma HandledIsCalled(states: seq<State>, actions: seq<Action>, limit: nat, last: nat, r: nat, expires: bool)
    requires IsExecution(states, actions, limit) && last < |states| && states[last].poller.Idle?
    requires Handled(states[last], r, expires)
    ensures states[last].called[r] == 1
  {
    ExecutionInv(states, actions, limit, last);
    var s := states[last];
    assert (multiset(s.list) + s.InHand() + s.called)[r] == multiset(s.created)[r];
  }

  /** A pass that has ended has run the callback of every request that was complete when it
      began, though it drops the lock, and the list may grow, in between. */
  lemma PassCallsBackComplete(states: seq<State>, actions: seq<Action>, limit: nat, first: nat, last: nat, r: nat)
    requires IsExecution(states, actions, limit) && IsPass(states, actions, first, last) && states[last].poller.Idle?
    requires r in states[first].list && r in states[first].states && states[first].states[r] == Complete
    ensures states[last].called[r] == 1
  {
    PassHandles(states, actions, limit, first, last, r, false);
    HandledIsCalled(states, actions, limit, last, r, false);
  }

  /** So has it for every request that was active when it began and that its scan finds to have
      timed out or been cancelled, if the network has not completed it by then. */
  lemma PassCallsBackExpired(states: seq<State>, actions: seq<Action>, limit: nat, first: nat, last: nat, r: nat)
    requires IsExecution(states, actions, limit) && IsPass(states, actions, first, last) && states[last].poller.Idle?
    requires r in states[first].list && r in states[first].states && IsActive(states[first].states[r])
    requires ExpiresIn(states, actions, first, last, r)
    ensures states[last].called[r] == 1
  {
    PassHandles(states, actions, limit, first, last, r, true);
    HandledIsCalled(states, actions, limit, last, r, true);
  }

  // ----- every pass ends -----

  function Ahead(s: State, index: nat): nat {
    if index < |s.list| then |s.list| - index else 0
  }

  /** How many steps of the poller are left of a pass at most, if no request is added. */
  function StepsLeft(s: State): nat {
    match s.poller
    case Idle => 0
    case Starting(index, _) => 1 + Ahead(s, index)
    case Scan(index, _, _) => 2 + |s.list| + 3 * Ahead(s, index)
    case CalledBack(index, _, _) => 3 + |s.list| + 3 * Ahead(s, index)
    case Unlocked(_, index, _, _) => 4 + |s.list| + 3 * Ahead(s, index)
  }

  /** In the middle of a pass the poller always has a step to take, and whatever step it takes
      brings it closer to the end. */
  lemma PassComesToEnd(s: State, limit: nat)
    requires !s.poller.Idle?
    ensures exists a, t :: PollerStep(s, a, limit) == Some(t)
    ensures forall a, t | PollerStep(s, a, limit) == Some(t) :: StepsLeft(t) < StepsLeft(s)
  {
    var a := match s.poller
             case Unlocked(_, _, _, _) => RunCallback
             case CalledBack(_, _, _) => Relock
             case Scan(_, _, _) => ScanStep(false)
             case _ => StartStep(true);
    assert PollerStep(s, a, limit).Some?;
    assert PollerStep(s, a, limit) == Some(PollerStep(s, a, limit).value);
    forall b, t | PollerStep(s, b, limit) == Some(t) ensures StepsLeft(t) < StepsLeft(s) {
      StepShrinks(s, b, t, limit);
    }
  }

  lemma StepShrinks(s: State, a: Action, t: State, limit: nat)
    requires !s.poller.Idle? && PollerStep(s, a, limit) == Some(t)
    ensures StepsLeft(t) < StepsLeft(s)
  {
  }

  // ----- what a pass leaves waiting -----

  /** No request before `index` is waiting to be started. */
  ghost predicate NonePending(s: State, index: nat) {
    forall i | 0 <= i < index && i < |s.list| :: s.list[i] in s.states && s.states[s.list[i]] != Pending
  }

  /** The poller has counted what it has stepped over, and started what it could. */
  ghost predicate Counted(s: State) {
    match s.poller
    case Idle => true
    case Scan(index, _, unstarted) => unstarted == 0 ==> NonePending(s, index)
    case Unlocked(_, index, _, unstarted) => unstarted == 0 ==> NonePending(s, index)
    case CalledBack(index, _, unstarted) => unstarted == 0 ==> NonePending(s, index)
    case Starting(index, _) => NonePending(s, index)
  }

  lemma ScanCounts(s: State, expired: bool, limit: nat)
    requires Inv(s, limit) && s.poller.Scan? && Counted(s)
    ensures Counted(Scanned(s, expired, limit))
  {
    var t, index := Scanned(s, expired, limit), s.poller.index;
    if index < |s.list| {
      assert s.list[index] in s.list;
      forall i | 0 <= i < index && s.poller.unstarted == 0
        ensures i < |t.list| && t.list[i] in t.states && t.states[t.list[i]] != Pending
      {
        assert t.list[i] == s.list[i];
      }
    }
  }

  lemma StartCounts(s: State, ok: bool, limit: nat)
    requires Inv(s, limit) && s.poller.Starting? && Counted(s)
    ensures Counted(StartedOne(s, ok, limit))
  {
    var index := s.poller.index;
    if index < |s.list| {
      assert s.list[index] in s.list;
    }
  }

  lemma CreateCounts(s: State, r: nat, ok: bool, t: State, limit: nat)
    requires Inv(s, limit) && CreateStep(s, r, ok, limit) == Some(t) && Counted(s)
    ensures Counted(t)
  {
    ListedOnce(s, r);
    if !s.poller.Idle? {
      assert s.poller.index <= |s.list|;
      forall i | 0 <= i < s.poller.index ensures t.list[i] == s.list[i] != r {
        assert s.list[i] in s.list;
      }
    }
  }

  lemma NetworkCounts(s: State, r: nat, to: RequestState, t: State, limit: nat)
    requires Next(s, Network(r, to), limit) == Some(t) && Counted(s)
    ensures Counted(t)
  {
    if !s.poller.Idle? && NonePending(s, s.poller.index) {
      assert NonePending(t, s.poller.index);
    }
  }

  lemma PollerCounts(s: State, a: Action, t: State, limit: nat)
    requires Inv(s, limit) && PollerStep(s, a, limit) == Some(t) && Counted(s)
    ensures Counted(t)
  {
    if a.ScanStep? {
      ScanCounts(s, a.expired, limit);
    } else if a.StartStep? {
      StartCounts(s, a.startOk, limit);
    } else if s.poller.Idle? {
      assert NonePending(t, 0);
    } else {
      assert NonePending(s, s.poller.index) ==> NonePending(t, s.poller.index);
    }
  }

  lemma StepCounts(s: State, a: Action, t: State, limit: nat)
    requires Inv(s, limit) && Next(s, a, limit) == Some(t) && Counted(s)
    ensures Counted(t)
  {
    match a
    case Create(r, ok) => CreateCounts(s, r, ok, t, limit);
    case Network(r, to) => NetworkCounts(s, r, to, t, limit);
    case _ => PollerCounts(s, a, t, limit);
  }

  lemma {:induction false} ExecutionCounts(states: seq<State>, actions: seq<Action>, limit: nat, k: nat)
    requires IsExecution(states, actions, limit) && k < |states|
    ensures Counted(states[k])
  {
    if k > 0 {
      var s, a, t := states[k - 1], actions[k - 1], states[k];
      ExecutionCounts(states, actions, limit, k - 1);
      ExecutionInv(states, actions, limit, k - 1);
      StepCounts(s, a, t, limit);
    }
  }

  /** How many requests the poller takes to be active as it ends its pass in this state: those
      counted in the scan and those started, the last of them in the ending step. */
  function CountAtEnd(s: State): nat
    requires s.poller.Scan? || s.poller.Starting?
  {
    if s.poller.Scan? then s.poller.active else s.poller.active + 1
  }

  /** A pass that ends leaves no listed request waiting to be started, unless the poller's count
      of active requests has reached the limit. */
  lemma PassStartsPending(states: seq<State>, actions: seq<Action>, limit: nat, last: nat)
    requires IsExecution(states, actions, limit) && 0 < last < |states|
    requires !states[last - 1].poller.Idle? && states[last].poller.Idle?
    ensures states[last - 1].poller.Scan? || states[last - 1].poller.Starting?
    ensures NonePending(states[last], |states[last].list|) || CountAtEnd(states[last - 1]) >= limit
  {
    var s, t := states[last - 1], states[last];
    ExecutionCounts(states, actions, limit, last - 1);
    ExecutionInv(states, actions, limit, last - 1);
    assert Next(s, actions[last - 1], limit) == Some(t);
  }
}
