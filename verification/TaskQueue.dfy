/** The blocking task queue as interleaved steps of any number of threads that push and get: a mutex, a condition
    variable, and one step for every call the code makes on them. */
module TaskQueue {
  import opened Sequences
  import opened Wrappers

  /** Where a thread is. */
  datatype Phase<T> =
    | Idle
    | PushLocking(value: T)            // in Acquire
    | PushLocked(value: T)             // about to push
    | PushUnlocking                    // about to Release
    | PushBroadcasting                 // about to Broadcast
    | GetLocking                       // in Wait, in Acquire
    | GetTesting                       // about to ask wait()
    | GetSleeping                      // in pthread_cond_wait, without the mutex
    | GetWaking                        // in pthread_cond_wait, taking the mutex again
    | GetFailing                       // pthread_cond_wait failed, about to Release
    | GetTaking                        // Wait returned 0, about to look at the queue
    | GetUnlocking(taken: Option<T>)   // about to Release
  {
    predicate HoldsLock() {
      PushLocked? || PushUnlocking? || GetTesting? || GetFailing? || GetTaking? || GetUnlocking?
    }

    /** A pusher whose broadcast is still to come. */
    predicate WillBroadcast() {
      PushUnlocking? || PushBroadcasting?
    }
  }

  /** The queue, the owner of the mutex and the threads; and the tasks ever pushed, popped and returned by Get,
      in order. */
  datatype State<T> = State(queue: seq<T>, owner: Option<nat>, threads: seq<Phase<T>>,
                            pushed: seq<T>, popped: seq<T>, returned: seq<T>)

  /** What a thread does next: call Push or Get, go on, or see pthread_cond_wait fail or return for no reason. */
  datatype Action<T> = Push(value: T) | Get | GoOn | Fail | WakeUp

  function Init<T>(n: nat): State<T> {
    State([], None, seq(n, _ => Idle), [], [], [])
  }

  function WakeAll<T>(threads: seq<Phase<T>>): (woken: seq<Phase<T>>)
    ensures |woken| == |threads|
    ensures forall i | 0 <= i < |threads| :: woken[i] == if threads[i].GetSleeping? then GetWaking else threads[i]
  {
    seq(|threads|, i requires 0 <= i < |threads| => if threads[i].GetSleeping? then GetWaking else threads[i])
  }

  /** The state after a step of thread t; None if it cannot take that step. */
  function Step<T>(s: State<T>, t: nat, action: Action<T>): Option<State<T>> {
    if t >= |s.threads| then None
    else
      var phase := s.threads[t];
      match action
      case Push(value) => if phase.Idle? then Some(s.(threads := s.threads[t := PushLocking(value)])) else None
      case Get => if phase.Idle? then Some(s.(threads := s.threads[t := GetLocking])) else None
      case Fail =>
        if phase.GetTesting? && s.queue == [] then Some(s.(threads := s.threads[t := GetFailing])) else None
      case WakeUp => if phase.GetSleeping? then Some(s.(threads := s.threads[t := GetWaking])) else None
      case GoOn => GoOnFrom(s, t, phase)
  }

  function Acquire<T>(s: State<T>, t: nat, next: Phase<T>): Option<State<T>>
    requires t < |s.threads|
  {
    if s.owner.None? then Some(s.(owner := Some(t), threads := s.threads[t := next])) else None
  }

  function Release<T>(s: State<T>, t: nat, next: Phase<T>): Option<State<T>>
    requires t < |s.threads|
  {
    Some(s.(owner := None, threads := s.threads[t := next]))
  }

  function GoOnFrom<T>(s: State<T>, t: nat, phase: Phase<T>): Option<State<T>>
    requires t < |s.threads| && phase == s.threads[t]
  {
    match phase
    case Idle => None
    case PushLocking(value) => Acquire(s, t, PushLocked(value))
    case PushLocked(value) =>
      Some(s.(queue := s.queue + [value], pushed := s.pushed + [value], threads := s.threads[t := PushUnlocking]))
    case PushUnlocking => Release(s, t, PushBroadcasting)
    case PushBroadcasting => Some(s.(threads := WakeAll(s.threads)[t := Idle]))
    case GetLocking => Acquire(s, t, GetTesting)
    case GetTesting =>
      if s.queue == [] then Release(s, t, GetSleeping)
      else Some(s.(threads := s.threads[t := GetTaking]))
    case GetSleeping => None
    case GetWaking => Acquire(s, t, GetTaking)
    case GetFailing => Release(s, t, Idle)
    case GetTaking =>
      if s.queue == [] then Some(s.(threads := s.threads[t := GetUnlocking(None)]))
      else Some(s.(queue := s.queue[1..], popped := s.popped + [s.queue[0]],
                   threads := s.threads[t := GetUnlocking(Some(s.queue[0]))]))
    case GetUnlocking(taken) =>
      Release(s.(returned := s.returned + InHand(phase)), t, Idle)
  }

  function InHand<T>(phase: Phase<T>): seq<T> {
    if phase.GetUnlocking? && phase.taken.Some? then [phase.taken.value] else []
  }

  /** The task the owner of the mutex is about to return. */
  function OnTheWay<T>(s: State<T>): seq<T> {
    if s.owner.Some? && s.owner.value < |s.threads| then InHand(s.threads[s.owner.value]) else []
  }

  /** The mutex is held by the one thread that is between its Acquire and its Release, or free. */
  ghost predicate Exclusive<T>(s: State<T>) {
    && (s.owner.Some? ==> s.owner.value < |s.threads|)
    && forall t | 0 <= t < |s.threads| :: s.threads[t].HoldsLock() <==> s.owner == Some(t)
  }

  /** As long as someone sleeps although there is a task, someone is yet to broadcast. */
  ghost predicate NoLostWakeup<T>(s: State<T>) {
    s.queue != [] && (exists t | 0 <= t < |s.threads| :: s.threads[t].GetSleeping?) ==>
      exists p | 0 <= p < |s.threads| :: s.threads[p].WillBroadcast()
  }

  /** No task is lost, doubled or overtaken. */
  ghost predicate Conserved<T>(s: State<T>) {
    s.pushed == s.popped + s.queue && s.popped == s.returned + OnTheWay(s)
  }

  ghost predicate Inv<T>(s: State<T>) {
    Exclusive(s) && NoLostWakeup(s) && Conserved(s)
  }

  lemma StepKeepsExclusive<T>(s: State<T>, t: nat, action: Action<T>)
    requires Exclusive(s) && Step(s, t, action).Some?
    ensures Exclusive(Step(s, t, action).value)
  {
  }

  lemma StepKeepsWakeup<T>(s: State<T>, t: nat, action: Action<T>)
    requires Exclusive(s) && NoLostWakeup(s) && Step(s, t, action).Some?
    ensures NoLostWakeup(Step(s, t, action).value)
  {
    var s' := Step(s, t, action).value;
    if s'.queue != [] && exists u | 0 <= u < |s'.threads| :: s'.threads[u].GetSleeping? {
      var u :| 0 <= u < |s'.threads| && s'.threads[u].GetSleeping?;
      if action.GoOn? && s.threads[t].PushLocked? {
        assert s'.threads[t].WillBroadcast();
      } else {
        assert s.queue != [] && s.threads[u].GetSleeping?;
        var p :| 0 <= p < |s.threads| && s.threads[p].WillBroadcast();
        assert s'.threads[p].WillBroadcast();
      }
    }
  }

  lemma StepKeepsConserved<T>(s: State<T>, t: nat, action: Action<T>)
    requires Exclusive(s) && Conserved(s) && Step(s, t, action).Some?
    ensures Conserved(Step(s, t, action).value)
  {
    hide Exclusive;
    Owner(s, t);
    if action.GoOn? {
      match s.threads[t] {
        case PushLocked(value) => Regroup(s.popped, s.queue, [value]);
        case GetTaking =>
          if s.queue != [] {
            assert s.queue == [s.queue[0]] + s.queue[1..];
            Regroup(s.popped, [s.queue[0]], s.queue[1..]);
          }
        case _ =>
      }
      Regroup(s.returned, OnTheWay(s), []);
    }
  }

  lemma Owner<T>(s: State<T>, t: nat)
    requires Exclusive(s) && t < |s.threads|
    ensures s.owner.Some? ==> s.owner.value < |s.threads|
    ensures s.threads[t].HoldsLock() <==> s.owner == Some(t)
  {
  }

  /** A run: the threads that act and what they do. */
  function Run<T>(s: State<T>, steps: seq<(nat, Action<T>)>): Option<State<T>> {
    if steps == [] then Some(s)
    else
      match Run(s, steps[..|steps| - 1])
      case None => None
      case Some(before) => Step(before, steps[|steps| - 1].0, steps[|steps| - 1].1)
  }

  lemma StepKeepsInv<T>(s: State<T>, t: nat, action: Action<T>)
    requires Inv(s) && Step(s, t, action).Some?
    ensures Inv(Step(s, t, action).value) && |Step(s, t, action).value.threads| == |s.threads|
  {
    StepKeepsExclusive(s, t, action);
    StepKeepsWakeup(s, t, action);
    StepKeepsConserved(s, t, action);
    hide Exclusive, NoLostWakeup, Conserved;
  }

  lemma {:induction false} RunsKeepInv<T>(n: nat, steps: seq<(nat, Action<T>)>)
    requires Run(Init<T>(n), steps).Some?
    ensures Inv(Run(Init<T>(n), steps).value) && |Run(Init<T>(n), steps).value.threads| == n
  {
    if steps != [] {
      var last := steps[|steps| - 1];
      RunsKeepInv(n, steps[..|steps| - 1]);
      StepKeepsInv(Run(Init<T>(n), steps[..|steps| - 1]).value, last.0, last.1);
      hide Inv, Step, Init;
    }
  }

  /** In every state that any run of any number of threads reaches: one owner, no lost wakeup, no lost task; and Get
      has returned the first of the pushed tasks, in order. */
  lemma {:induction false} RunsAreSafe<T>(n: nat, steps: seq<(nat, Action<T>)>)
    requires Run(Init<T>(n), steps).Some?
    ensures var s := Run(Init<T>(n), steps).value;
      Exclusive(s) && NoLostWakeup(s) && Conserved(s) && s.returned <= s.popped <= s.pushed
  {
    RunsKeepInv(n, steps);
    hide Run, Exclusive, NoLostWakeup;
    var s := Run(Init<T>(n), steps).value;
    assert s.popped == s.returned + OnTheWay(s) && s.pushed == s.popped + s.queue;
  }

  /** The values that were passed to Push, in the order of the calls. */
  function Offered<T>(steps: seq<(nat, Action<T>)>): seq<T> {
    if steps == [] then []
    else
      var action := steps[|steps| - 1].1;
      Offered(steps[..|steps| - 1]) + if action.Push? then [action.value] else []
  }

  /** The value a thread has not yet pushed. */
  function Held<T>(phase: Phase<T>): seq<T> {
    if phase.PushLocking? || phase.PushLocked? then [phase.value] else []
  }

  ghost function Pending<T>(threads: seq<Phase<T>>): multiset<T> {
    if threads == [] then multiset{} else Pending(threads[..|threads| - 1]) + multiset(Held(threads[|threads| - 1]))
  }

  lemma Beside<T>(a: multiset<T>, b: multiset<T>, c: multiset<T>, d: multiset<T>, more: multiset<T>)
    requires a + b == c + d
    ensures (a + more) + b == (c + more) + d
  {
    forall x ensures ((a + more) + b)[x] == ((c + more) + d)[x] {
      assert (a + b)[x] == (c + d)[x];
    }
  }

  lemma Balance<T>(p': multiset<T>, h: multiset<T>, p: multiset<T>, h': multiset<T>, q': multiset<T>, q: multiset<T>,
    more: multiset<T>)
    requires p' + h == p + h' && q' + h' == q + h + more
    ensures q' + p' == q + p + more
  {
    forall x ensures (q' + p')[x] == (q + p + more)[x] {
      assert (p' + h)[x] == (p + h')[x] && (q' + h')[x] == (q + h + more)[x];
    }
  }

  lemma {:induction false} PendingUpdate<T>(threads: seq<Phase<T>>, t: nat, phase: Phase<T>)
    requires t < |threads|
    ensures Pending(threads[t := phase]) + multiset(Held(threads[t])) == Pending(threads) + multiset(Held(phase))
  {
    hide Held;
    var n := |threads| - 1;
    if t < n {
      PendingUpdate(threads[..n], t, phase);
      assert threads[t := phase][..n] == threads[..n][t := phase];
      Beside(Pending(threads[..n][t := phase]), multiset(Held(threads[t])), Pending(threads[..n]),
        multiset(Held(phase)), multiset(Held(threads[n])));
    } else {
      assert threads[t := phase][..n] == threads[..n];
    }
  }

  lemma LastWoken<T>(threads: seq<Phase<T>>)
    requires threads != []
    ensures var n := |threads| - 1;
      WakeAll(threads)[..n] == WakeAll(threads[..n]) && Held(WakeAll(threads)[n]) == Held(threads[n])
  {
  }

  lemma {:induction false} PendingOfWoken<T>(threads: seq<Phase<T>>)
    ensures Pending(WakeAll(threads)) == Pending(threads)
  {
    hide Held, WakeAll;
    if threads != [] {
      LastWoken(threads);
      PendingOfWoken(threads[..|threads| - 1]);
    }
  }

  lemma {:induction false} NothingPending<T>(threads: seq<Phase<T>>)
    requires forall t | 0 <= t < |threads| :: threads[t].Idle?
    ensures Pending(threads) == multiset{}
  {
    if threads != [] {
      NothingPending(threads[..|threads| - 1]);
    }
  }

  lemma StepHolds<T>(s: State<T>, t: nat, action: Action<T>)
    requires Step(s, t, action).Some?
    ensures t < |s.threads| == |Step(s, t, action).value.threads|
    ensures Pending(Step(s, t, action).value.threads) + multiset(Held(s.threads[t])) ==
      Pending(s.threads) + multiset(Held(Step(s, t, action).value.threads[t]))
  {
    hide Pending, Held;
    var next := Step(s, t, action).value.threads[t];
    PendingUpdate(s.threads, t, next);
    PendingUpdate(WakeAll(s.threads), t, next);
    PendingOfWoken(s.threads);
  }

  lemma StepHeld<T>(s: State<T>, t: nat, action: Action<T>)
    requires Step(s, t, action).Some?
    ensures var phase, after := s.threads[t], Step(s, t, action).value;
      var next := after.threads[t];
      if action.Push? then after.pushed == s.pushed && Held(phase) == [] && Held(next) == [action.value]
      else if action.GoOn? && phase.PushLocked? then
        after.pushed == s.pushed + [phase.value] && Held(phase) == [phase.value] && Held(next) == []
      else after.pushed == s.pushed && Held(next) == Held(phase)
  {
  }

  lemma StepPushes<T>(s: State<T>, t: nat, action: Action<T>)
    requires Step(s, t, action).Some?
    ensures var phase, after := s.threads[t], Step(s, t, action).value;
      multiset(after.pushed) + multiset(Held(after.threads[t])) ==
      multiset(s.pushed) + multiset(Held(phase)) + multiset(if action.Push? then [action.value] else [])
  {
    hide *;
    StepHeld(s, t, action);
  }

  /** A step moves what its thread holds to the queue, or nothing. */
  lemma StepMoves<T>(s: State<T>, t: nat, action: Action<T>)
    requires Step(s, t, action).Some?
    ensures var after := Step(s, t, action).value;
      multiset(after.pushed) + Pending(after.threads) ==
      multiset(s.pushed) + Pending(s.threads) + multiset(if action.Push? then [action.value] else [])
  {
    hide *;
    StepHolds(s, t, action);
    StepPushes(s, t, action);
    var phase, after := s.threads[t], Step(s, t, action).value;
    Balance(Pending(after.threads), multiset(Held(phase)), Pending(s.threads), multiset(Held(after.threads[t])),
      multiset(after.pushed), multiset(s.pushed), multiset(if action.Push? then [action.value] else []));
  }

  /** Every value passed to Push is pushed once, or still held by its caller. */
  lemma {:induction false} OfferedIsPushed<T>(n: nat, steps: seq<(nat, Action<T>)>)
    requires Run(Init<T>(n), steps).Some?
    ensures var s := Run(Init<T>(n), steps).value;
      multiset(Offered(steps)) == multiset(s.pushed) + Pending(s.threads)
  {
    if steps == [] {
      NothingPending(Init<T>(n).threads);
    } else {
      var last := steps[|steps| - 1];
      OfferedIsPushed(n, steps[..|steps| - 1]);
      StepMoves(Run(Init<T>(n), steps[..|steps| - 1]).value, last.0, last.1);
      hide Step, Pending, Init;
    }
  }

  /** So it is held by its caller, in the queue, in the hands of one Get or returned by one. */
  lemma NothingIsLost<T>(n: nat, steps: seq<(nat, Action<T>)>)
    requires Run(Init<T>(n), steps).Some?
    ensures var s := Run(Init<T>(n), steps).value;
      multiset(Offered(steps)) ==
      multiset(s.returned) + multiset(OnTheWay(s)) + multiset(s.queue) + Pending(s.threads)
  {
    OfferedIsPushed(n, steps);
    RunsKeepInv(n, steps);
    hide Run, Pending, OnTheWay, Exclusive, NoLostWakeup, Init;
    var s := Run(Init<T>(n), steps).value;
    assert s.pushed == s.returned + OnTheWay(s) + s.queue;
  }

  /** What a thread did, in order. */
  function Own<T>(steps: seq<(nat, Action<T>)>, t: nat): seq<Action<T>> {
    if steps == [] then []
    else
      var last := steps[|steps| - 1];
      Own(steps[..|steps| - 1], t) + if last.0 == t then [last.1] else []
  }

  /** The thread has called Push last, or has called it and gone on once. */
  predicate JustCalled<T>(own: seq<Action<T>>) {
    own != [] && own[|own| - 1].Push?
  }

  predicate WentOn<T>(own: seq<Action<T>>) {
    |own| >= 2 && own[|own| - 1].GoOn? && own[|own| - 2].Push?
  }

  /** The values passed to Push, in the order in which their threads went on for the second time. */
  function InOrder<T>(steps: seq<(nat, Action<T>)>): seq<T> {
    if steps == [] then []
    else
      var last := steps[|steps| - 1];
      var own := Own(steps[..|steps| - 1], last.0);
      InOrder(steps[..|steps| - 1]) + if last.1.GoOn? && WentOn(own) then [own[|own| - 2].value] else []
  }

  /** Where a pusher is, by what it did last. */
  ghost predicate IsAt<T>(phase: Phase<T>, own: seq<Action<T>>) {
    && (phase.PushLocking? <==> JustCalled(own)) && (phase.PushLocked? <==> WentOn(own))
    && (phase.PushLocking? ==> own[|own| - 1].value == phase.value)
    && (phase.PushLocked? ==> own[|own| - 2].value == phase.value)
  }

  lemma StepIsAt<T>(s: State<T>, u: nat, action: Action<T>, t: nat, own: seq<Action<T>>)
    requires Step(s, u, action).Some? && t < |s.threads| && IsAt(s.threads[t], own)
    ensures t < |Step(s, u, action).value.threads|
    ensures IsAt(Step(s, u, action).value.threads[t], own + if u == t then [action] else [])
  {
    if u == t {
      assert (own + [action])[|own|] == action && (own != [] ==> (own + [action])[|own| - 1] == own[|own| - 1]);
    } else {
      Regroup(own, [], []);
    }
  }

  lemma {:induction false} PushersAreAt<T>(n: nat, steps: seq<(nat, Action<T>)>, t: nat)
    requires Run(Init<T>(n), steps).Some? && t < n
    ensures |Run(Init<T>(n), steps).value.threads| == n
    ensures IsAt(Run(Init<T>(n), steps).value.threads[t], Own(steps, t))
  {
    RunsKeepInv(n, steps);
    if steps != [] {
      var before, last := steps[..|steps| - 1], steps[|steps| - 1];
      PushersAreAt(n, before, t);
      StepIsAt(Run(Init<T>(n), before).value, last.0, last.1, t, Own(before, t));
      hide Step, IsAt, Inv, Init;
    }
  }

  lemma StepPushesOwn<T>(s: State<T>, t: nat, action: Action<T>, own: seq<Action<T>>)
    requires Step(s, t, action).Some? && IsAt(s.threads[t], own)
    ensures Step(s, t, action).value.pushed ==
      s.pushed + if action.GoOn? && WentOn(own) then [own[|own| - 2].value] else []
  {
    Regroup(s.pushed, [], []);
  }

  lemma LastStep<T>(s: State<T>, steps: seq<(nat, Action<T>)>)
    requires Run(s, steps).Some? && steps != []
    ensures var before, last := Run(s, steps[..|steps| - 1]), steps[|steps| - 1];
      before.Some? && last.0 < |before.value.threads| && Run(s, steps) == Step(before.value, last.0, last.1)
  {
    hide GoOnFrom;
  }

  /** So the tasks are pushed in the order in which the pushers got the mutex. */
  lemma {:induction false} PushedInOrder<T>(n: nat, steps: seq<(nat, Action<T>)>)
    requires Run(Init<T>(n), steps).Some?
    ensures Run(Init<T>(n), steps).value.pushed == InOrder(steps)
  {
    hide Run, Step, IsAt, Inv, WentOn, Own;
    if steps == [] {
      NothingPushed<T>(n);
    } else {
      var before, last := steps[..|steps| - 1], steps[|steps| - 1];
      LastStep(Init<T>(n), steps);
      PushedInOrder(n, before);
      RunsKeepInv(n, before);
      PushersAreAt(n, before, last.0);
      StepPushesOwn(Run(Init<T>(n), before).value, last.0, last.1, Own(before, last.0));
    }
  }

  lemma NothingPushed<T>(n: nat)
    ensures Run(Init<T>(n), []) == Some(Init<T>(n))
  {
  }

  /** Nobody is stuck: when some thread is inside a call and not asleep, one of the threads inside can go on. */
  lemma SomeoneGoesOn<T>(s: State<T>, t: nat) returns (u: nat)
    requires Inv(s) && t < |s.threads| && !s.threads[t].Idle? && !s.threads[t].GetSleeping?
    ensures u < |s.threads| && !s.threads[u].Idle? && Step(s, u, GoOn).Some?
  {
    u := if s.owner.Some? then s.owner.value else t;
  }

  /** Everyone is outside or asleep. */
  predicate Quiet<T>(s: State<T>) {
    forall t | 0 <= t < |s.threads| :: s.threads[t].Idle? || s.threads[t].GetSleeping?
  }

  /** When everyone is outside or asleep, nobody sleeps over a task. */
  lemma QuietMeansEmpty<T>(s: State<T>)
    requires Inv(s) && Quiet(s)
    ensures s.owner.None? && s.returned == s.popped
    ensures s.queue == [] || forall t | 0 <= t < |s.threads| :: s.threads[t].Idle?
  {
    assert s.owner.Some? ==> s.threads[s.owner.value].HoldsLock();
    assert s.popped == s.returned + [];
  }

  // Calls finish: every step that starts no call brings its thread, or the threads it wakes, nearer to the end

  /** How many steps a thread can still take in its call. */
  function Weight<T>(phase: Phase<T>): (w: nat)
    ensures w <= 6
  {
    match phase
    case Idle => 0
    case PushLocking(_) => 4
    case PushLocked(_) => 3
    case PushUnlocking => 2
    case PushBroadcasting => 1
    case GetLocking => 6
    case GetTesting => 5
    case GetSleeping => 4
    case GetWaking => 3
    case GetFailing => 1
    case GetTaking => 2
    case GetUnlocking(_) => 1
  }

  function Work<T>(threads: seq<Phase<T>>): (w: nat)
    ensures w <= 6 * |threads|
  {
    if threads == [] then 0 else Work(threads[..|threads| - 1]) + Weight(threads[|threads| - 1])
  }

  lemma {:induction false} WorkUpdate<T>(threads: seq<Phase<T>>, t: nat, phase: Phase<T>)
    requires t < |threads|
    ensures Work(threads[t := phase]) == Work(threads) - Weight(threads[t]) + Weight(phase)
  {
    hide Weight;
    var n := |threads| - 1;
    if t < n {
      WorkUpdate(threads[..n], t, phase);
      assert threads[t := phase][..n] == threads[..n][t := phase];
    } else {
      assert threads[t := phase][..n] == threads[..n];
    }
  }

  lemma {:induction false} WorkOfWoken<T>(threads: seq<Phase<T>>)
    ensures Work(WakeAll(threads)) <= Work(threads)
  {
    if threads != [] {
      var n := |threads| - 1;
      WorkOfWoken(threads[..n]);
      assert WakeAll(threads)[..n] == WakeAll(threads[..n]);
    }
  }

  predicate StartsCall<T>(action: Action<T>) {
    action.Push? || action.Get?
  }

  lemma StepWorks<T>(s: State<T>, t: nat, action: Action<T>)
    requires Step(s, t, action).Some? && !StartsCall(action)
    ensures Work(Step(s, t, action).value.threads) < Work(s.threads)
  {
    hide Work;
    var phase := Step(s, t, action).value.threads[t];
    WorkUpdate(s.threads, t, phase);
    WorkUpdate(WakeAll(s.threads), t, phase);
    WorkOfWoken(s.threads);
  }

  lemma {:induction false} RunFromKeepsInv<T>(s: State<T>, steps: seq<(nat, Action<T>)>)
    requires Inv(s) && Run(s, steps).Some?
    ensures Inv(Run(s, steps).value) && |Run(s, steps).value.threads| == |s.threads|
  {
    if steps != [] {
      var prefix, last := steps[..|steps| - 1], steps[|steps| - 1];
      RunFromKeepsInv(s, prefix);
      StepKeepsInv(Run(s, prefix).value, last.0, last.1);
      hide Inv, Step;
    }
  }

  lemma {:induction false} RunWorks<T>(s: State<T>, steps: seq<(nat, Action<T>)>)
    requires Run(s, steps).Some? && forall i | 0 <= i < |steps| :: !StartsCall(steps[i].1)
    ensures |steps| + Work(Run(s, steps).value.threads) <= Work(s.threads)
  {
    if steps != [] {
      var prefix, last := steps[..|steps| - 1], steps[|steps| - 1];
      RunWorks(s, prefix);
      StepWorks(Run(s, prefix).value, last.0, last.1);
      hide Step, StartsCall, Work;
    }
  }

  /** From every state that any run reaches, once no thread starts another call, all threads together take at most six
      steps each; and where no thread can go on, everyone is outside or asleep: all calls of Push have come back, and
      those of Get that have not sleep over an empty queue. */
  lemma CallsFinish<T>(n: nat, before: seq<(nat, Action<T>)>, steps: seq<(nat, Action<T>)>)
    requires Run(Init<T>(n), before).Some? && Run(Run(Init<T>(n), before).value, steps).Some?
    requires forall i | 0 <= i < |steps| :: !StartsCall(steps[i].1)
    ensures |steps| <= 6 * n
    ensures var s := Run(Run(Init<T>(n), before).value, steps).value;
      (forall u: nat | u < |s.threads| :: Step(s, u, GoOn).None?) ==>
        Quiet(s) && s.owner.None? && s.returned == s.popped
        && (s.queue == [] || forall t | 0 <= t < |s.threads| :: s.threads[t].Idle?)
  {
    var start := Run(Init<T>(n), before).value;
    var s := Run(start, steps).value;
    RunsKeepInv(n, before);
    RunFromKeepsInv(start, steps);
    RunWorks(start, steps);
    hide Run, Inv, Step, StartsCall;
    if forall u: nat | u < |s.threads| :: Step(s, u, GoOn).None? {
      forall t | 0 <= t < |s.threads| ensures s.threads[t].Idle? || s.threads[t].GetSleeping? {
        if !s.threads[t].Idle? && !s.threads[t].GetSleeping? {
          var u := SomeoneGoesOn(s, t);
          assert false;
        }
      }
      QuietMeansEmpty(s);
    }
  }

  /** And there is such a run: the threads can always go on until everyone is outside or asleep. */
  lemma {:induction false} ReachesQuiet<T>(s: State<T>) returns (steps: seq<(nat, Action<T>)>)
    requires Inv(s)
    ensures forall i | 0 <= i < |steps| :: steps[i].1 == GoOn
    ensures Run(s, steps).Some? && Quiet(Run(s, steps).value)
    decreases Work(s.threads)
  {
    if Quiet(s) {
      steps := [];
    } else {
      var t: nat :| t < |s.threads| && !s.threads[t].Idle? && !s.threads[t].GetSleeping?;
      var u := SomeoneGoesOn(s, t);
      var next := Step(s, u, GoOn).value;
      StepKeepsInv(s, u, GoOn);
      StepWorks(s, u, GoOn);
      hide Inv, Step, Work, Quiet;
      var rest := ReachesQuiet(next);
      steps := [(u, GoOn)] + rest;
      RunCons(s, (u, GoOn), rest);
    }
  }

  lemma {:induction false} RunCons<T>(s: State<T>, step: (nat, Action<T>), rest: seq<(nat, Action<T>)>)
    requires Step(s, step.0, step.1).Some?
    ensures Run(s, [step] + rest) == Run(Step(s, step.0, step.1).value, rest)
    decreases |rest|
  {
    hide Step;
    var steps := [step] + rest;
    if rest == [] {
      assert steps == [step] && steps[..0] == [];
      assert Run(s, steps[..0]) == Some(s);
    } else {
      RunCons(s, step, rest[..|rest| - 1]);
      assert steps[..|steps| - 1] == [step] + rest[..|rest| - 1];
    }
  }

  /** The last step of a thread; -1 if there is none. */
  function LastOf<T>(steps: seq<(nat, Action<T>)>, t: nat): (j: int)
    ensures -1 <= j < |steps| && (j >= 0 ==> steps[j].0 == t)
    ensures forall k | j < k < |steps| :: steps[k].0 != t
  {
    if steps == [] then -1
    else if steps[|steps| - 1].0 == t then |steps| - 1
    else LastOf(steps[..|steps| - 1], t)
  }

  /** A step of another thread changes neither the phase of the thread that holds the mutex nor the queue. */
  lemma OthersWait<T>(s: State<T>, u: nat, action: Action<T>, t: nat)
    requires Exclusive(s) && t < |s.threads| && s.threads[t].HoldsLock() && u != t && Step(s, u, action).Some?
    ensures var r := Step(s, u, action).value; r.threads[t] == s.threads[t] && r.queue == s.queue
  {
  }

  /** The thread that holds the mutex is where its own last step left it, and so is the queue. */
  lemma {:induction false} HeldSince<T>(n: nat, steps: seq<(nat, Action<T>)>, t: nat)
    requires Run(Init<T>(n), steps).Some? && t < n
    requires Inv(Run(Init<T>(n), steps).value) && |Run(Init<T>(n), steps).value.threads| == n
    requires Run(Init<T>(n), steps).value.threads[t].HoldsLock()
    ensures var s, j := Run(Init<T>(n), steps).value, LastOf(steps, t);
      && j >= 0 && Run(Init<T>(n), steps[..j]).Some?
      && var b := Run(Init<T>(n), steps[..j]).value;
         && Inv(b) && |b.threads| == n && Step(b, t, steps[j].1).Some?
         && s.threads[t] == Step(b, t, steps[j].1).value.threads[t]
         && s.queue == Step(b, t, steps[j].1).value.queue
  {
    hide Step;
    if steps != [] {
      var prefix, last := steps[..|steps| - 1], steps[|steps| - 1];
      var b := Run(Init<T>(n), prefix).value;
      RunsKeepInv(n, prefix);
      if last.0 != t {
        assert b.threads[t].HoldsLock() by { TookNoLock(b, last.0, last.1, t); }
        OthersWait(b, last.0, last.1, t);
        HeldSince(n, prefix, t);
        assert prefix[..LastOf(prefix, t)] == steps[..LastOf(prefix, t)];
      }
    }
  }

  lemma TookNoLock<T>(s: State<T>, u: nat, action: Action<T>, t: nat)
    requires Exclusive(s) && t < |s.threads| && u != t && Step(s, u, action).Some?
    requires Step(s, u, action).value.threads[t].HoldsLock()
    ensures s.threads[t].HoldsLock()
  {
  }

  /** When Get comes back without a task, over all runs of any number of threads: pthread_cond_wait failed, or the
      call slept and the queue was empty when it took the mutex again. Otherwise it comes back with the task that
      was the first of the queue when it took the mutex. */
  lemma {:induction false} NoneExactlyWhen<T>(n: nat, steps: seq<(nat, Action<T>)>, t: nat)
    requires Run(Init<T>(n), steps).Some? && t < |Run(Init<T>(n), steps).value.threads|
    ensures var phase := Run(Init<T>(n), steps).value.threads[t];
      && (phase.GetFailing? ==> LastOf(steps, t) >= 0 && steps[LastOf(steps, t)].1.Fail?)
      && (phase.GetUnlocking? ==>
            LastOf(steps, t) >= 0 &&
            var k := LastOf(steps[..LastOf(steps, t)], t);
            && k >= 0 && Run(Init<T>(n), steps[..k]).Some?
            && var b := Run(Init<T>(n), steps[..k]).value;
               && t < |b.threads| && (b.threads[t].GetTesting? || b.threads[t].GetWaking?)
               && (phase.taken.None? <==> b.threads[t].GetWaking? && b.queue == [])
               && (phase.taken.Some? ==> b.queue != [] && phase.taken.value == b.queue[0]))
  {
    hide Run, Inv, Init, LastOf;
    RunsKeepInv(n, steps);
    var phase, j := Run(Init<T>(n), steps).value.threads[t], LastOf(steps, t);
    if phase.GetFailing? || phase.GetUnlocking? {
      HeldSince(n, steps, t);
      if phase.GetUnlocking? {
        HeldSince(n, steps[..j], t);
        assert steps[..j][..LastOf(steps[..j], t)] == steps[..LastOf(steps[..j], t)];
      }
    }
  }

  lemma NoSteps<T>(s: State<T>)
    ensures Run(s, []) == Some(s)
  {
  }

  /** A run goes on with one more step. */
  lemma Then<T>(init: State<T>, run: seq<(nat, Action<T>)>, s: State<T>, t: nat, action: Action<T>, s': State<T>)
    returns (run': seq<(nat, Action<T>)>)
    requires Run(init, run) == Some(s) && Step(s, t, action).Some?
    requires var r := Step(s, t, action).value;
      && r.queue == s'.queue && r.owner == s'.owner && r.threads == s'.threads
      && r.pushed == s'.pushed && r.popped == s'.popped && r.returned == s'.returned
    ensures run' == run + [(t, action)] && Run(init, run') == Some(s')
  {
    run' := run + [(t, action)];
    assert run'[..|run|] == run;
  }

  ghost predicate Normal<T>(run: seq<(nat, Action<T>)>) {
    forall k | 0 <= k < |run| :: !run[k].1.Fail? && !run[k].1.WakeUp?
  }

  lemma Retargeted<T>(threads: seq<Phase<T>>, t: nat, a: Phase<T>, b: Phase<T>)
    requires t < |threads|
    ensures threads[t := a][t := b] == threads[t := b]
  {
  }

  /** A Get of a thread that finds the mutex free and no task. */
  lemma FallsAsleep<T>(init: State<T>, before: seq<(nat, Action<T>)>, s: State<T>, t: nat)
    returns (run: seq<(nat, Action<T>)>)
    requires Normal(before) && Run(init, before) == Some(s)
    requires t < |s.threads| && s.threads[t].Idle? && s.owner.None? && s.queue == []
    ensures Normal(run) && Run(init, run) == Some(s.(threads := s.threads[t := GetSleeping]))
  {
    hide Run;
    var a := s.(threads := s.threads[t := GetLocking]);
    run := Then(init, before, s, t, Get, a);
    var b := s.(owner := Some(t), threads := s.threads[t := GetTesting]);
    Retargeted(s.threads, t, GetLocking, GetTesting);
    run := Then(init, run, a, t, GoOn, b);
    Retargeted(s.threads, t, GetTesting, GetSleeping);
    run := Then(init, run, b, t, GoOn, s.(threads := s.threads[t := GetSleeping]));
  }

  lemma OneSleeps() returns (run: seq<(nat, Action<int>)>)
    ensures Normal(run) && Run(Init<int>(3), run) == Some(State([], None, [Idle, GetSleeping, Idle], [], [], []))
  {
    hide Run;
    NoSteps(Init<int>(3));
    run := FallsAsleep(Init<int>(3), [], Init<int>(3), 1);
    assert Init<int>(3).threads[1 := GetSleeping] == [Idle, GetSleeping, Idle];
  }

  lemma ZeroPushes(before: seq<(nat, Action<int>)>) returns (run: seq<(nat, Action<int>)>)
    requires Normal(before)
    requires Run(Init<int>(3), before) == Some(State([], None, [Idle, GetSleeping, Idle], [], [], []))
    ensures Normal(run) && Run(Init<int>(3), run) == Some(State([7], None, [Idle, GetWaking, Idle], [7], [], []))
  {
    hide Run;
    var init := Init<int>(3);
    var r := State([], None, [PushLocking(7), GetSleeping, Idle], [], [], []);
    run := Then(init, before, State([], None, [Idle, GetSleeping, Idle], [], [], []), 0, Push(7), r);
    var s := State([], Some(0), [PushLocked(7), GetSleeping, Idle], [], [], []);
    run := Then(init, run, r, 0, GoOn, s);
    r := State([7], Some(0), [PushUnlocking, GetSleeping, Idle], [7], [], []);
    run := Then(init, run, s, 0, GoOn, r);
    s := State([7], None, [PushBroadcasting, GetSleeping, Idle], [7], [], []);
    run := Then(init, run, r, 0, GoOn, s);
    r := State([7], None, [Idle, GetWaking, Idle], [7], [], []);
    run := Then(init, run, s, 0, GoOn, r);
  }

  /** A whole Get of a thread that finds a task and the mutex free. */
  lemma TakesOne<T>(init: State<T>, before: seq<(nat, Action<T>)>, s: State<T>, t: nat)
    returns (run: seq<(nat, Action<T>)>)
    requires Normal(before) && Run(init, before) == Some(s)
    requires t < |s.threads| && s.threads[t].Idle? && s.owner.None? && s.queue != []
    ensures Normal(run)
    ensures Run(init, run) == Some(s.(queue := s.queue[1..], popped := s.popped + [s.queue[0]],
                                      returned := s.returned + [s.queue[0]]))
  {
    hide Run;
    var a := s.(threads := s.threads[t := GetLocking]);
    run := Then(init, before, s, t, Get, a);
    var b := s.(owner := Some(t), threads := s.threads[t := GetTesting]);
    Retargeted(s.threads, t, GetLocking, GetTesting);
    run := Then(init, run, a, t, GoOn, b);
    var c := b.(threads := s.threads[t := GetTaking]);
    Retargeted(s.threads, t, GetTesting, GetTaking);
    run := Then(init, run, b, t, GoOn, c);
    run := TakesAndReleases(init, run, c, t);
    Retargeted(s.threads, t, GetTaking, Idle);
    assert s.threads[t := Idle] == s.threads;
  }

  lemma TakesAndReleases<T>(init: State<T>, before: seq<(nat, Action<T>)>, s: State<T>, t: nat)
    returns (run: seq<(nat, Action<T>)>)
    requires Normal(before) && Run(init, before) == Some(s)
    requires t < |s.threads| && s.threads[t].GetTaking? && s.owner == Some(t) && s.queue != []
    ensures Normal(run)
    ensures Run(init, run) == Some(s.(queue := s.queue[1..], popped := s.popped + [s.queue[0]], owner := None,
                                      returned := s.returned + [s.queue[0]], threads := s.threads[t := Idle]))
  {
    hide Run;
    var task := s.queue[0];
    var a := s.(queue := s.queue[1..], popped := s.popped + [task],
      threads := s.threads[t := GetUnlocking(Some(task))]);
    run := Then(init, before, s, t, GoOn, a);
    var b := a.(owner := None, returned := s.returned + [task], threads := s.threads[t := Idle]);
    Retargeted(s.threads, t, GetUnlocking(Some(task)), Idle);
    run := Then(init, run, a, t, GoOn, b);
  }

  /** Get tests the queue only once. Woken by a broadcast for a task that another thread takes first, it comes back
      without one, although nothing failed. */
  lemma WokenForNothing() returns (run: seq<(nat, Action<int>)>)
    ensures Normal(run)
    ensures Run(Init<int>(3), run) == Some(State([], Some(1), [Idle, GetUnlocking(None), Idle], [7], [7], [7]))
  {
    hide Run;
    var init := Init<int>(3);
    run := OneSleeps();
    run := ZeroPushes(run);
    var s := State([7], None, [Idle, GetWaking, Idle], [7], [], []);
    run := TakesOne(init, run, s, 2);
    SevenTaken(s.threads);
    s := State([], None, [Idle, GetWaking, Idle], [7], [7], [7]);
    var r := State([], Some(1), [Idle, GetTaking, Idle], [7], [7], [7]);
    run := Then(init, run, s, 1, GoOn, r);
    s := State([], Some(1), [Idle, GetUnlocking(None), Idle], [7], [7], [7]);
    run := Then(init, run, r, 1, GoOn, s);
  }

  lemma SevenTaken(threads: seq<Phase<int>>)
    ensures var s := State([7], None, threads, [7], [], []);
      s.(queue := s.queue[1..], popped := s.popped + [s.queue[0]], returned := s.returned + [s.queue[0]])
      == State([], None, threads, [7], [7], [7])
  {
  }

  lemma PushesFirst() returns (run: seq<(nat, Action<int>)>)
    ensures Normal(run) && Run(Init<int>(2), run) == Some(State([7], None, [PushBroadcasting, Idle], [7], [], []))
  {
    hide Run;
    var init := Init<int>(2);
    assert init.threads == [Idle, Idle];
    NoSteps(init);
    var r := State([], None, [PushLocking(7), Idle], [], [], []);
    run := Then(init, [], init, 0, Push(7), r);
    var s := State([], Some(0), [PushLocked(7), Idle], [], [], []);
    run := Then(init, run, r, 0, GoOn, s);
    r := State([7], Some(0), [PushUnlocking, Idle], [7], [], []);
    run := Then(init, run, s, 0, GoOn, r);
    s := State([7], None, [PushBroadcasting, Idle], [7], [], []);
    run := Then(init, run, r, 0, GoOn, s);
  }

  /** One pusher and one getter are enough: the getter takes the task and sleeps again before the pusher comes to its
      broadcast, which wakes it for nothing. */
  lemma WokenTooLate() returns (run: seq<(nat, Action<int>)>)
    ensures Normal(run)
    ensures Run(Init<int>(2), run) == Some(State([], Some(1), [Idle, GetUnlocking(None)], [7], [7], [7]))
  {
    hide Run;
    var init := Init<int>(2);
    run := PushesFirst();
    var s := State([7], None, [PushBroadcasting, Idle], [7], [], []);
    run := TakesOne(init, run, s, 1);
    SevenTaken(s.threads);
    s := State([], None, [PushBroadcasting, Idle], [7], [7], [7]);
    run := FallsAsleep(init, run, s, 1);
    var r := State([], None, [PushBroadcasting, GetSleeping], [7], [7], [7]);
    assert s.threads[1 := GetSleeping] == r.threads;
    s := State([], None, [Idle, GetWaking], [7], [7], [7]);
    run := Then(init, run, r, 0, GoOn, s);
    r := State([], Some(1), [Idle, GetTaking], [7], [7], [7]);
    run := Then(init, run, s, 1, GoOn, r);
    s := State([], Some(1), [Idle, GetUnlocking(None)], [7], [7], [7]);
    run := Then(init, run, r, 1, GoOn, s);
  }
}
