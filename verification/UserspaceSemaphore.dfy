/**
  `Threading::UserspaceSemaphore`: an atomic counter in front of a kernel semaphore.
  Any number of threads post, wait and try-wait; each atomic operation is one step.
 */
module UserspaceSemaphore {
  import opened Arithmetic
  import opened Wrappers

  /** `posting` and `waiting` are the threads whose Post or Wait has changed the counter and
      has still to post or wait on the kernel semaphore; `trying` are the threads in the
      loop of TryWait with the value they saw last. `posts` counts the Posts that have
      changed the counter, `claims` the Waits and TryWaits that have taken from it, and
      `completed` the Waits and successful TryWaits that have returned. */
  datatype State = State(
    counter: int, kernel: nat,
    posting: set<nat>, waiting: set<nat>, trying: map<nat, int>,
    posts: nat, claims: nat, completed: nat)
  {
    predicate Busy(t: nat) {
      t in posting || t in waiting || t in trying
    }
  }

  const INIT := State(0, 0, {}, {}, map[], 0, 0, 0)

  datatype Action =
    | PostAdd(t: nat) | PostKernel(t: nat)
    | WaitSub(t: nat) | WaitKernel(t: nat)
    | TryLoad(t: nat) | TryCas(t: nat, spurious: bool) | TryGiveUp(t: nat)

  /** The step `a` takes in `s`, or None where `a` is not possible in `s`. */
  function Next(s: State, a: Action): Option<State> {
    match a
    case PostAdd(t) =>
      if s.Busy(t) then None else
      Some(s.(counter := Wrap32(s.counter + 1), posts := s.posts + 1,
              posting := if s.counter < 0 then s.posting + {t} else s.posting))
    case PostKernel(t) =>
      if t !in s.posting then None else
      Some(s.(kernel := s.kernel + 1, posting := s.posting - {t}))
    case WaitSub(t) =>
      if s.Busy(t) then None else
      var next := s.(counter := Wrap32(s.counter - 1), claims := s.claims + 1);
      if s.counter <= 0 then Some(next.(waiting := s.waiting + {t}))
      else Some(next.(completed := s.completed + 1))
    case WaitKernel(t) =>
      if t !in s.waiting || s.kernel == 0 then None else
      Some(s.(kernel := s.kernel - 1, waiting := s.waiting - {t}, completed := s.completed + 1))
    case TryLoad(t) =>
      if s.Busy(t) then None else Some(s.(trying := s.trying[t := s.counter]))
    case TryCas(t, spurious) =>
      if t !in s.trying || s.trying[t] <= 0 then None else
      if s.counter == s.trying[t] && !spurious
      then Some(s.(counter := s.counter - 1, trying := s.trying - {t},
                   claims := s.claims + 1, completed := s.completed + 1))
      else Some(s.(trying := s.trying[t := s.counter]))
    case TryGiveUp(t) =>
      if t !in s.trying || s.trying[t] > 0 then None else Some(s.(trying := s.trying - {t}))
  }

  ghost predicate IsExecution(states: seq<State>, actions: seq<Action>) {
    && |states| == |actions| + 1
    && states[0] == INIT
    && forall k | 0 <= k < |actions| :: Next(states[k], actions[k]) == Some(states[k + 1])
  }

  /** The surplus of posts over claims stays within the 32 bits of the counter. */
  ghost predicate InRange(states: seq<State>) {
    forall k | 0 <= k < |states| :: -0x8000_0000 <= states[k].posts - states[k].claims < 0x8000_0000
  }

  ghost predicate Inv(s: State) {
    && s.counter == s.posts - s.claims
    && s.claims == s.completed + |s.waiting|
    && |s.waiting| == Max(0, -s.counter) + s.kernel + |s.posting|
  }

  lemma StepInv(s: State, a: Action, t: State)
    requires Inv(s) && Next(s, a) == Some(t)
    requires -0x8000_0000 <= t.posts - t.claims < 0x8000_0000
    ensures Inv(t)
  {
    if a.PostAdd? {
      PostAddInv(s, a.t, t);
    } else if a.WaitSub? {
      WaitSubInv(s, a.t, t);
    }
  }

  lemma PostAddInv(s: State, thread: nat, t: State)
    requires Inv(s) && Next(s, PostAdd(thread)) == Some(t)
    requires -0x8000_0000 <= t.posts - t.claims < 0x8000_0000
    ensures Inv(t)
  {
    FitsUnwrapped(s.counter + 1);
  }

  lemma WaitSubInv(s: State, thread: nat, t: State)
    requires Inv(s) && Next(s, WaitSub(thread)) == Some(t)
    requires -0x8000_0000 <= t.posts - t.claims < 0x8000_0000
    ensures Inv(t)
  {
    FitsUnwrapped(s.counter - 1);
  }

  lemma {:induction false} ExecutionInv(states: seq<State>, actions: seq<Action>, k: nat)
    requires IsExecution(states, actions) && InRange(states) && k < |states|
    ensures Inv(states[k])
  {
    if k > 0 {
      ExecutionInv(states, actions, k - 1);
      StepInv(states[k - 1], actions[k - 1], states[k]);
    }
  }

  // ----- main results -----

  /** Balance: the threads that need a kernel token are as many as the debt in the counter
      plus the kernel tokens there are and the tokens on their way. */
  lemma Balance(states: seq<State>, actions: seq<Action>, k: nat)
    requires IsExecution(states, actions) && InRange(states) && k < |states|
    ensures var s := states[k]; |s.waiting| == Max(0, -s.counter) + s.kernel + |s.posting|
  {
    ExecutionInv(states, actions, k);
  }

  /** A semaphore never hands out more than was posted: completed waits and the tokens not
      yet taken together never exceed the posts that have finished. */
  lemma WaitsNeverExceedPosts(states: seq<State>, actions: seq<Action>, k: nat)
    requires IsExecution(states, actions) && InRange(states) && k < |states|
    ensures var s := states[k];
            s.completed + s.kernel + Max(0, s.counter) == s.posts - |s.posting|
    ensures states[k].completed <= states[k].posts
  {
    ExecutionInv(states, actions, k);
  }

  /** No lost wake-up: when the counter owes nothing, every thread blocked in the kernel has a
      token there or a poster about to bring one; and if one is stuck (no token, no poster)
      then the posts are fewer than the claims. */
  lemma NoLostWakeup(states: seq<State>, actions: seq<Action>, k: nat)
    requires IsExecution(states, actions) && InRange(states) && k < |states|
    ensures states[k].counter >= 0 ==> |states[k].waiting| == states[k].kernel + |states[k].posting|
    ensures states[k].kernel == 0 && states[k].posting == {} ==>
              |states[k].waiting| == Max(0, states[k].claims - states[k].posts)
  {
    ExecutionInv(states, actions, k);
  }

  // ----- TryWait -----

  /** Thread `t` reads the counter: the load of TryWait, or its compare-and-swap. */
  predicate Looks(a: Action, t: nat) {
    (a.TryLoad? || a.TryCas?) && a.t == t
  }

  /** A thread is in one call at a time. */
  lemma {:induction false} OneCallEach(states: seq<State>, actions: seq<Action>, k: nat)
    requires IsExecution(states, actions) && k < |states|
    ensures states[k].posting !! states[k].waiting
    ensures states[k].trying.Keys !! states[k].posting && states[k].trying.Keys !! states[k].waiting
  {
    if k > 0 {
      OneCallEach(states, actions, k - 1);
      assert Next(states[k - 1], actions[k - 1]) == Some(states[k]);
    }
  }

  /** What a thread in TryWait goes by is the counter at its last look. */
  lemma {:induction false} LastLook(states: seq<State>, actions: seq<Action>, k: nat, t: nat) returns (i: nat)
    requires IsExecution(states, actions) && k < |states| && t in states[k].trying
    ensures i < k && Looks(actions[i], t) && states[k].trying[t] == states[i].counter
    ensures forall j | i < j < k :: actions[j].t != t
  {
    var a := actions[k - 1];
    if Looks(a, t) {
      i := k - 1;
    } else {
      OneCallEach(states, actions, k - 1);
      assert Next(states[k - 1], a) == Some(states[k]);
      assert a.t != t;
      i := LastLook(states, actions, k - 1, t);
    }
  }

  /** TryWait takes a token only where there is one, and gives up only where its last look
      found none: no more posts than claims at that moment. */
  lemma TryWaitIsRight(states: seq<State>, actions: seq<Action>, k: nat, t: nat)
    requires IsExecution(states, actions) && InRange(states) && k < |actions| && actions[k].t == t
    ensures actions[k].TryCas? && states[k + 1].claims != states[k].claims ==>
              states[k].posts > states[k].claims && states[k + 1].claims == states[k].claims + 1 &&
              states[k + 1].completed == states[k].completed + 1
    ensures actions[k].TryGiveUp? ==>
              exists i | 0 <= i < k && Looks(actions[i], t) ::
                states[i].posts <= states[i].claims && forall j | i < j < k :: actions[j].t != t
  {
    ExecutionInv(states, actions, k);
    if actions[k].TryGiveUp? {
      var i := LastLook(states, actions, k, t);
      ExecutionInv(states, actions, i);
    }
  }

  /** With a token there and nobody in between, TryWait takes it. */
  lemma TryWaitAlone(s: State, t: nat) returns (seen: State, end: State)
    requires Inv(s) && !s.Busy(t) && s.posts > s.claims
    ensures Next(s, TryLoad(t)) == Some(seen) && Next(seen, TryCas(t, false)) == Some(end)
    ensures end.claims == s.claims + 1 && end.completed == s.completed + 1 && end.posts == s.posts && !end.Busy(t)
  {
    seen := Next(s, TryLoad(t)).value;
    end := Next(seen, TryCas(t, false)).value;
  }

  // ----- every wait that is paid for ends -----

  ghost predicate IsPath(states: seq<State>, actions: seq<Action>) {
    && |states| == |actions| + 1
    && forall k | 0 <= k < |actions| :: Next(states[k], actions[k]) == Some(states[k + 1])
  }

  predicate IsKernelStep(a: Action) {
    a.PostKernel? || a.WaitKernel?
  }

  ghost predicate InBounds(s: State) {
    Inv(s) && -0x8000_0000 <= s.counter < 0x8000_0000
  }

  predicate AtRest(s: State) {
    s.posting == {} && (s.waiting == {} || s.kernel == 0)
  }

  lemma KernelStep(s: State) returns (a: Action, next: State)
    requires InBounds(s) && !AtRest(s)
    ensures IsKernelStep(a) && Next(s, a) == Some(next) && InBounds(next)
    ensures next.posts == s.posts && next.claims == s.claims
    ensures |next.posting| + |next.waiting| < |s.posting| + |s.waiting|
  {
    if t :| t in s.posting {
      a := PostKernel(t);
    } else {
      var t :| t in s.waiting;
      a := WaitKernel(t);
    }
    next := Next(s, a).value;
    StepInv(s, a, next);
  }

  /** From every reachable state the steps on the kernel semaphore alone let all waits return
      but those that are still owed a post; with as many posts as claims, all of them. */
  lemma {:induction false} Drain(s: State) returns (states: seq<State>, actions: seq<Action>)
    requires InBounds(s)
    ensures IsPath(states, actions) && states[0] == s && forall k | 0 <= k < |actions| :: IsKernelStep(actions[k])
    ensures var e := states[|actions|];
            e.posts == s.posts && e.claims == s.claims && e.posting == {} &&
            |e.waiting| == Max(0, s.claims - s.posts) && e.completed == s.claims - Max(0, s.claims - s.posts)
    decreases |s.posting| + |s.waiting|
  {
    if AtRest(s) {
      states, actions := [s], [];
    } else {
      var a, next := KernelStep(s);
      var later, rest := Drain(next);
      states, actions := [s] + later, [a] + rest;
      assert states[|actions|] == later[|rest|];
    }
  }
}
