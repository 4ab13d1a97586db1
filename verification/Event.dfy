/**
 * The POSIX event: a flag under a mutex with a condition variable, as steps of any number of
 * threads. Waking up may be spurious, and a timed wait may time out at any moment.
 */
module Event {
  /** Where a thread is. `failed` is the error a timed wait came back with. */
  datatype Pc =
    | Outside
    | WantSet | Setting | SetMarked
    | WantReset | Resetting
    | WantWait(timed: bool)
    | Testing(timed: bool, failed: bool)
    | Asleep(timed: bool)
    | Woken(timed: bool, failed: bool)
    | Leaving

  datatype Owner = Nobody | Thread(id: nat)

  /** What the calls did, in the order in which it was done; a wait succeeds or fails. */
  datatype Action = DidSet | DidReset | DidWait | DidFail

  datatype State = State(manualReset: bool, initially: bool, signalled: bool, owner: Owner, threads: map<nat, Pc>,
                         log: seq<Action>)

  datatype Step =
    | CallSet(t: nat) | CallReset(t: nat) | CallWait(t: nat, timed: bool)
    | Acquire(t: nat) | Mark(t: nat) | Broadcast(t: nat) | Clear(t: nat) | Test(t: nat) | Release(t: nat)
    | WakeUp(t: nat) | TimeOut(t: nat)

  function At(s: State, t: nat): Pc {
    if t in s.threads then s.threads[t] else Outside
  }

  function Go(s: State, t: nat, pc: Pc): State {
    s.(threads := s.threads[t := pc])
  }

  /** The place a thread gets to when it takes the mutex. */
  function Inside(pc: Pc): Pc
    requires pc.WantSet? || pc.WantReset? || pc.WantWait? || pc.Woken?
  {
    match pc
    case WantSet => Setting
    case WantReset => Resetting
    case WantWait(timed) => Testing(timed, false)
    case Woken(timed, failed) => Testing(timed, failed)
  }

  /** One step of one thread; a step the thread is not ready for changes nothing. */
  function Next(s: State, step: Step): State {
    var pc := At(s, step.t);
    match step
    case CallSet(t) => if pc.Outside? then Go(s, t, WantSet) else s
    case CallReset(t) => if pc.Outside? then Go(s, t, WantReset) else s
    case CallWait(t, timed) => if pc.Outside? then Go(s, t, WantWait(timed)) else s
    case Acquire(t) =>
      if s.owner.Nobody? && (pc.WantSet? || pc.WantReset? || pc.WantWait? || pc.Woken?)
      then Go(s, t, Inside(pc)).(owner := Thread(t)) else s
    case Mark(t) =>
      if pc.Setting? then Go(s, t, SetMarked).(signalled := true, log := s.log + [DidSet]) else s
    case Broadcast(t) =>
      if pc.SetMarked? then Go(s.(threads := WakeAll(s.threads)), t, Leaving) else s
    case Clear(t) =>
      if pc.Resetting? then Go(s, t, Leaving).(signalled := false, log := s.log + [DidReset]) else s
    case Test(t) =>
      if !pc.Testing? then s
      else if !s.signalled && !pc.failed then Go(s, t, Asleep(pc.timed)).(owner := Nobody)
      else if pc.failed then Go(s, t, Leaving).(log := s.log + [DidFail])
      else Go(s, t, Leaving).(signalled := s.manualReset, log := s.log + [DidWait])
    case Release(t) =>
      if pc.Leaving? then Go(s, t, Outside).(owner := Nobody) else s
    case WakeUp(t) =>
      if pc.Asleep? then Go(s, t, Woken(pc.timed, false)) else s
    case TimeOut(t) =>
      if pc.Asleep? && pc.timed then Go(s, t, Woken(true, true)) else s
  }

  function WakeAll(threads: map<nat, Pc>): map<nat, Pc> {
    map t | t in threads :: if threads[t].Asleep? then Woken(threads[t].timed, false) else threads[t]
  }

  function Run(s: State, steps: seq<Step>): State {
    if steps == [] then s else Next(Run(s, steps[..|steps| - 1]), steps[|steps| - 1])
  }

  function Init(manualReset: bool, initially: bool): State {
    State(manualReset, initially, initially, Nobody, map[], [])
  }

  predicate InCriticalSection(pc: Pc) {
    pc.Setting? || pc.SetMarked? || pc.Resetting? || pc.Testing? || pc.Leaving?
  }

  /** At most one thread is between taking and giving back the mutex, and it is the owner. */
  ghost predicate MutualExclusion(s: State) {
    && (forall t | t in s.threads && InCriticalSection(s.threads[t]) :: s.owner == Thread(t))
    && (s.owner.Thread? ==> InCriticalSection(At(s, s.owner.id)))
  }

  /** While the flag is up nobody sleeps, except until the setter that just raised it has broadcast. */
  ghost predicate NoSleeper(s: State) {
    s.signalled && (s.owner.Nobody? || !At(s, s.owner.id).SetMarked?) ==>
      forall t | t in s.threads :: !s.threads[t].Asleep?
  }

  /** The flag after these actions, had each been one indivisible operation. */
  function FlagAfter(manualReset: bool, initially: bool, log: seq<Action>): bool {
    if log == [] then initially
    else
      match log[|log| - 1]
      case DidSet => true
      case DidReset => false
      case DidWait => manualReset
      case DidFail => FlagAfter(manualReset, initially, log[..|log| - 1])
  }

  /** A wait succeeds only while the flag is up. */
  predicate Legal(manualReset: bool, initially: bool, log: seq<Action>) {
    log == [] ||
    var before := log[..|log| - 1];
    && Legal(manualReset, initially, before)
    && (log[|log| - 1].DidWait? ==> FlagAfter(manualReset, initially, before))
  }

  ghost predicate Invariant(s: State) {
    && MutualExclusion(s)
    && NoSleeper(s)
    && Legal(s.manualReset, s.initially, s.log)
    && FlagAfter(s.manualReset, s.initially, s.log) == s.signalled
  }

  lemma MutexStep(s: State, step: Step)
    requires MutualExclusion(s)
    ensures MutualExclusion(Next(s, step))
  {
  }

  lemma SleeperStep(s: State, step: Step)
    requires MutualExclusion(s) && NoSleeper(s)
    ensures NoSleeper(Next(s, step))
  {
  }

  lemma FlagStep(s: State, step: Step)
    requires Legal(s.manualReset, s.initially, s.log) && FlagAfter(s.manualReset, s.initially, s.log) == s.signalled
    ensures var n := Next(s, step);
            Legal(n.manualReset, n.initially, n.log) && FlagAfter(n.manualReset, n.initially, n.log) == n.signalled
  {
    hide Legal, FlagAfter, WakeAll, Inside;
    OneAction(s.manualReset, s.initially, s.log, DidSet);
    OneAction(s.manualReset, s.initially, s.log, DidReset);
    OneAction(s.manualReset, s.initially, s.log, DidWait);
    OneAction(s.manualReset, s.initially, s.log, DidFail);
  }

  lemma OneAction(manualReset: bool, initially: bool, log: seq<Action>, a: Action)
    requires Legal(manualReset, initially, log)
    ensures (a.DidWait? ==> FlagAfter(manualReset, initially, log)) ==> Legal(manualReset, initially, log + [a])
    ensures FlagAfter(manualReset, initially, log + [a])
         == if a.DidFail? then FlagAfter(manualReset, initially, log) else a.DidSet? || (a.DidWait? && manualReset)
  {
    assert (log + [a])[..|log|] == log;
  }

  /**
   * Every interleaving: one thread at a time holds the mutex, the operations take effect like
   * indivisible ones, and nobody is left asleep while the flag is up and the mutex is free.
   */
  lemma {:induction false} EveryRun(manualReset: bool, initially: bool, steps: seq<Step>)
    ensures Invariant(Run(Init(manualReset, initially), steps))
    decreases |steps|
  {
    hide Next, MutualExclusion, NoSleeper, Legal, FlagAfter;
    if steps == [] {
      InitIsFine(manualReset, initially);
    } else {
      var s, step := Run(Init(manualReset, initially), steps[..|steps| - 1]), steps[|steps| - 1];
      EveryRun(manualReset, initially, steps[..|steps| - 1]);
      MutexStep(s, step);
      SleeperStep(s, step);
      FlagStep(s, step);
    }
  }

  lemma InitIsFine(manualReset: bool, initially: bool)
    ensures Invariant(Init(manualReset, initially))
  {
  }

  lemma StepKeepsSettings(s: State, step: Step)
    ensures Next(s, step).manualReset == s.manualReset && Next(s, step).initially == s.initially
  {
    hide WakeAll, Inside;
  }

  lemma {:induction false} RunKeepsSettings(s: State, steps: seq<Step>)
    ensures Run(s, steps).manualReset == s.manualReset && Run(s, steps).initially == s.initially
    decreases |steps|
  {
    hide Next;
    if steps != [] {
      RunKeepsSettings(s, steps[..|steps| - 1]);
      StepKeepsSettings(Run(s, steps[..|steps| - 1]), steps[|steps| - 1]);
    }
  }

  /** The thread's wait is going to return false. */
  predicate Failed(pc: Pc) {
    (pc.Woken? || pc.Testing?) && pc.failed
  }

  /** Only its own timeout fails a wait, and it does: neither a broadcast nor a spurious wake-up nor another thread. */
  lemma FailsOnlyByTimeout(s: State, step: Step, t: nat)
    ensures Failed(At(Next(s, step), t)) && !Failed(At(s, t)) <==> step == TimeOut(t) && At(s, t) == Asleep(true)
  {
  }

  /** In every run a wait without a time limit does not fail. */
  lemma {:induction false} UntimedWaitsDoNotFail(manualReset: bool, initially: bool, steps: seq<Step>, t: nat)
    ensures var pc := At(Run(Init(manualReset, initially), steps), t); Failed(pc) ==> pc.timed
    decreases |steps|
  {
    hide Next;
    if steps != [] {
      var s, step := Run(Init(manualReset, initially), steps[..|steps| - 1]), steps[|steps| - 1];
      UntimedWaitsDoNotFail(manualReset, initially, steps[..|steps| - 1], t);
      FailureIsTimed(s, step, t);
    }
  }

  lemma FailureIsTimed(s: State, step: Step, t: nat)
    requires Failed(At(s, t)) ==> At(s, t).timed
    ensures Failed(At(Next(s, step), t)) ==> At(Next(s, step), t).timed
  {
  }

  function Count(log: seq<Action>, a: Action): nat {
    if log == [] then 0 else Count(log[..|log| - 1], a) + if log[|log| - 1] == a then 1 else 0
  }

  /** Waits on an auto-reset flag use up sets one for one; a flag that is up is a set not used yet. */
  lemma {:induction false} WaitsUseUpSets(initially: bool, log: seq<Action>)
    requires Legal(false, initially, log)
    ensures Count(log, DidWait) + (if FlagAfter(false, initially, log) then 1 else 0)
            <= Count(log, DidSet) + (if initially then 1 else 0)
    decreases |log|
  {
    if log != [] {
      WaitsUseUpSets(initially, log[..|log| - 1]);
    }
  }

  // --- calls and what they did ----------------------------------------------------------------------

  datatype Call = Sets | Resets | Waits

  /** A thread that made such a call and has not done it yet. */
  predicate Busy(pc: Pc, call: Call) {
    match call
    case Sets => pc.WantSet? || pc.Setting?
    case Resets => pc.WantReset? || pc.Resetting?
    case Waits => pc.WantWait? || pc.Testing? || pc.Asleep? || pc.Woken?
  }

  function Pending(s: State, call: Call): set<nat> {
    set t | t in s.threads && Busy(s.threads[t], call)
  }

  function Done(log: seq<Action>, call: Call): nat {
    match call
    case Sets => Count(log, DidSet)
    case Resets => Count(log, DidReset)
    case Waits => Count(log, DidWait) + Count(log, DidFail)
  }

  /** The step is such a call by a thread that is free to make it. */
  predicate IsCall(s: State, step: Step, call: Call) {
    && At(s, step.t).Outside?
    && match call
       case Sets => step.CallSet?
       case Resets => step.CallReset?
       case Waits => step.CallWait?
  }

  /** How many such calls were made. */
  function Calls(s: State, steps: seq<Step>, call: Call): nat {
    if steps == [] then 0
    else
      var before := steps[..|steps| - 1];
      Calls(s, before, call) + if IsCall(Run(s, before), steps[|steps| - 1], call) then 1 else 0
  }

  /** Besides its own place a step changes only, with a broadcast, that of the sleepers. */
  lemma ThreadsStep(s: State, step: Step)
    ensures var n, t := Next(s, step), step.t;
            n.threads == s.threads || n.threads == s.threads[t := At(n, t)] || n.threads == WakeAll(s.threads)[t := At(n, t)]
  {
    hide WakeAll, Inside;
  }

  lemma PendingStep(s: State, step: Step, call: Call)
    ensures var n, t := Next(s, step), step.t;
            Pending(n, call) == if Busy(At(n, t), call) then Pending(s, call) + {t} else Pending(s, call) - {t}
  {
    ThreadsStep(s, step);
    hide Next, Inside;
  }

  /** The thread that moves: a call makes it busy, and doing what was called for makes it free again. */
  lemma OwnStep(s: State, step: Step, call: Call)
    ensures var n, t := Next(s, step), step.t;
            Done(n.log, call) + (if Busy(At(n, t), call) then 1 else 0)
            == Done(s.log, call) + (if Busy(At(s, t), call) then 1 else 0) + (if IsCall(s, step, call) then 1 else 0)
  {
    hide Count, WakeAll, Done;
    match call
    case Sets => DoneAppends(s.log, call);
    case Resets => DoneAppends(s.log, call);
    case Waits => DoneAppends(s.log, call);
  }

  lemma DoneAppends(log: seq<Action>, call: Call)
    ensures forall a :: Done(log + [a], call) == Done(log, call) + if Does(a, call) then 1 else 0
  {
    hide Done, Does;
    forall a ensures Done(log + [a], call) == Done(log, call) + if Does(a, call) then 1 else 0 {
      DoneAppend(log, a, call);
    }
  }

  lemma DoneAppend(log: seq<Action>, a: Action, call: Call)
    ensures Done(log + [a], call) == Done(log, call) + if Does(a, call) then 1 else 0
  {
    hide Count;
    CountAppend(log, a);
  }

  predicate Does(a: Action, call: Call) {
    match call
    case Sets => a.DidSet?
    case Resets => a.DidReset?
    case Waits => a.DidWait? || a.DidFail?
  }

  /** What is done was called for: a step that makes no call moves one from pending to done or leaves both. */
  lemma CallsStep(s: State, step: Step, call: Call)
    ensures var n := Next(s, step);
            Done(n.log, call) + |Pending(n, call)|
            == Done(s.log, call) + |Pending(s, call)| + if IsCall(s, step, call) then 1 else 0
  {
    assert step.t in Pending(s, call) <==> Busy(At(s, step.t), call);
    PendingStep(s, step, call);
    OwnStep(s, step, call);
    hide Next, Done, Busy, IsCall;
  }

  lemma CountAppend(log: seq<Action>, a: Action)
    ensures forall b :: Count(log + [a], b) == Count(log, b) + if a == b then 1 else 0
  {
    assert (log + [a])[..|log|] == log;
  }

  /** In every run each call is pending or done, once, as what it was: a set sets, a reset resets, a wait succeeds or fails. */
  lemma {:induction false} CallsAreDone(manualReset: bool, initially: bool, steps: seq<Step>, call: Call)
    ensures var s := Run(Init(manualReset, initially), steps);
            Calls(Init(manualReset, initially), steps, call) == Done(s.log, call) + |Pending(s, call)|
    decreases |steps|
  {
    hide Next, IsCall;
    if steps != [] {
      CallsAreDone(manualReset, initially, steps[..|steps| - 1], call);
      CallsStep(Run(Init(manualReset, initially), steps[..|steps| - 1]), steps[|steps| - 1], call);
    }
  }

  function SetSteps(t: nat): seq<Step> { [CallSet(t), Acquire(t), Mark(t), Broadcast(t), Release(t)] }

  function ResetSteps(t: nat): seq<Step> { [CallReset(t), Acquire(t), Clear(t), Release(t)] }

  function WaitSteps(t: nat, timed: bool): seq<Step> { [CallWait(t, timed), Acquire(t), Test(t), Release(t)] }

  /** Going on with a wait after waking up. */
  function ResumeSteps(t: nat): seq<Step> { [Acquire(t), Test(t), Release(t)] }

  lemma {:induction false} RunFront(s: State, steps: seq<Step>)
    requires steps != []
    ensures Run(s, steps) == Run(Next(s, steps[0]), steps[1..])
    decreases |steps|
  {
    hide Next;
    if |steps| == 1 {
      assert steps[..0] == [] && steps[1..] == [];
    } else {
      RunFront(s, steps[..|steps| - 1]);
      assert steps[..|steps| - 1][1..] == steps[1..][..|steps[1..]| - 1];
    }
  }

  lemma RunThree(s: State, a: Step, b: Step, c: Step)
    ensures Run(s, [a, b, c]) == Next(Next(Next(s, a), b), c)
  {
    hide Next;
    assert [a, b, c][..2] == [a, b] && [a, b][..1] == [a] && [a][..0] == [];
    assert Run(s, [a]) == Next(s, a);
    assert Run(s, [a, b]) == Next(Run(s, [a]), b);
    assert Run(s, [a, b, c]) == Next(Run(s, [a, b]), c);
  }

  lemma RunFour(s: State, a: Step, b: Step, c: Step, d: Step)
    ensures Run(s, [a, b, c, d]) == Next(Next(Next(Next(s, a), b), c), d)
  {
    hide Next;
    RunThree(s, a, b, c);
    assert [a, b, c, d][..3] == [a, b, c];
  }

  lemma SetRuns(s: State, t: nat)
    requires s.owner.Nobody? && At(s, t).Outside?
    ensures var marked := s.threads[t := WantSet][t := Setting][t := SetMarked];
            Run(s, SetSteps(t)) ==
            State(s.manualReset, s.initially, true, Nobody, WakeAll(marked)[t := Leaving][t := Outside], s.log + [DidSet])
  {
    RunFront(s, SetSteps(t));
    assert SetSteps(t)[1..] == [Acquire(t), Mark(t), Broadcast(t), Release(t)];
    var called := Next(s, CallSet(t));
    RunFour(called, Acquire(t), Mark(t), Broadcast(t), Release(t));
    hide Run, WakeAll;
    assert called == Go(s, t, WantSet);
    var inside := Next(called, Acquire(t));
    assert inside == Go(called, t, Setting).(owner := Thread(t));
    var marked := Next(inside, Mark(t));
    assert marked == Go(inside, t, SetMarked).(signalled := true, log := s.log + [DidSet]);
    var told := Next(marked, Broadcast(t));
    assert told == Go(marked.(threads := WakeAll(marked.threads)), t, Leaving);
    assert Next(told, Release(t)) == Go(told, t, Outside).(owner := Nobody);
  }

  /** A whole Set by a free thread while nobody has the mutex raises the flag and leaves nobody asleep. */
  lemma WholeSet(s: State, t: nat)
    requires s.owner.Nobody? && At(s, t).Outside?
    ensures var n := Run(s, SetSteps(t));
            && n.signalled && n.log == s.log + [DidSet] && n.owner.Nobody? && At(n, t).Outside?
            && forall u | u != t :: At(n, u) == if At(s, u).Asleep? then Woken(At(s, u).timed, false) else At(s, u)
  {
    SetRuns(s, t);
    hide Run, SetSteps, Next;
  }

  /** A whole Reset takes the flag down. */
  lemma WholeReset(s: State, t: nat)
    requires s.owner.Nobody? && At(s, t).Outside?
    ensures var n := Run(s, ResetSteps(t));
            && !n.signalled && n.log == s.log + [DidReset] && n.owner.Nobody? && At(n, t).Outside?
            && forall u | u != t :: At(n, u) == At(s, u)
  {
    RunFour(s, CallReset(t), Acquire(t), Clear(t), Release(t));
    hide Run, WakeAll;
  }

  /** A whole Wait succeeds at once exactly when the flag is up, and uses it up unless it is reset by hand; otherwise it sleeps. */
  lemma WholeWait(s: State, t: nat, timed: bool)
    requires s.owner.Nobody? && At(s, t).Outside?
    ensures var n := Run(s, WaitSteps(t, timed));
            && n.owner.Nobody? && n.signalled == (s.signalled && s.manualReset)
            && (s.signalled ==> n.log == s.log + [DidWait] && At(n, t).Outside?)
            && (!s.signalled ==> n.log == s.log && At(n, t) == Asleep(timed))
            && forall u | u != t :: At(n, u) == At(s, u)
  {
    RunFour(s, CallWait(t, timed), Acquire(t), Test(t), Release(t));
    hide Run, WakeAll;
    var inside := Next(Next(s, CallWait(t, timed)), Acquire(t));
    assert inside == Go(Go(s, t, WantWait(timed)), t, Testing(timed, false)).(owner := Thread(t));
  }

  /** A sleeper whose time is up fails, and leaves the flag as it is. */
  lemma WholeTimeout(s: State, t: nat)
    requires s.owner.Nobody? && At(s, t) == Asleep(true)
    ensures var n := Run(s, [TimeOut(t)] + ResumeSteps(t));
            n.owner.Nobody? && n.signalled == s.signalled && n.log == s.log + [DidFail] && At(n, t).Outside?
  {
    var steps := [TimeOut(t)] + ResumeSteps(t);
    RunFront(s, steps);
    assert steps[1..] == ResumeSteps(t);
    WholeResume(Next(s, TimeOut(t)), t);
    hide Run, WakeAll, ResumeSteps;
  }

  /** A sleeper that is woken goes on: it succeeds while the flag is up and sleeps again while it is down; timed out, it fails. */
  lemma WholeResume(s: State, t: nat)
    requires s.owner.Nobody? && At(s, t).Woken?
    ensures var n, failed := Run(s, ResumeSteps(t)), At(s, t).failed;
            && n.owner.Nobody? && n.signalled == (s.signalled && (failed || s.manualReset))
            && (failed ==> n.log == s.log + [DidFail] && At(n, t).Outside?)
            && (!failed && s.signalled ==> n.log == s.log + [DidWait] && At(n, t).Outside?)
            && (!failed && !s.signalled ==> n.log == s.log && At(n, t) == Asleep(At(s, t).timed))
  {
    RunThree(s, Acquire(t), Test(t), Release(t));
    hide Run, WakeAll;
  }

  /**
   * An auto-reset event: successful waits never outnumber the calls of Set plus the initial signal; and
   * when the mutex is free and the event is signalled, no waiter is asleep.
   */
  lemma AutoResetEvent(initially: bool, steps: seq<Step>)
    ensures var s := Run(Init(false, initially), steps);
            && Count(s.log, DidWait) + (if s.signalled then 1 else 0)
               <= Calls(Init(false, initially), steps, Sets) + (if initially then 1 else 0)
            && (s.owner.Nobody? && s.signalled ==> forall t | t in s.threads :: !s.threads[t].Asleep?)
  {
    EveryRun(false, initially, steps);
    RunKeepsSettings(Init(false, initially), steps);
    WaitsUseUpSets(initially, Run(Init(false, initially), steps).log);
    CallsAreDone(false, initially, steps, Sets);
    hide Run, Legal, Calls;
  }
}
