/**
 What the main-thread protocol guarantees in every interleaving of any number of threads.
 */
module MainThreadTheorems {
  import opened Wrappers
  import opened MainThreadJobs
  import opened MainThreadInvariant

  lemma {:induction false} RunKeepsInv(s: State, schedule: seq<Event>)
    requires Inv(s) && Valid(s, schedule)
    ensures Inv(Run(s, schedule))
    decreases |schedule|
  {
    if schedule != [] {
      StepKeepsInv(s, schedule[0]);
      RunKeepsInv(Apply(s, schedule[0]), schedule[1..]);
    }
  }

  lemma InitInv(s: State)
    requires Init(s)
    ensures Inv(s)
  {
  }

  ghost predicate Reachable(s: State) {
    exists s0, schedule :: Init(s0) && Valid(s0, schedule) && Run(s0, schedule) == s
  }

  lemma ReachableInv(s: State)
    requires Reachable(s)
    ensures Inv(s)
  {
    var s0, schedule :| Init(s0) && Valid(s0, schedule) && Run(s0, schedule) == s;
    InitInv(s0);
    RunKeepsInv(s0, schedule);
  }

  /** No thread ever uses a deleted job. */
  lemma NoUseAfterDelete(s: State, t: ThreadId, j: JobId)
    requires Reachable(s) && j in Touches(s, t)
    ensures j < |s.jobs| && s.jobs[j].deletions == 0
  {
    ReachableInv(s);
    TopFacts(s, t);
    TouchedAlive(s, t, j);
  }

  lemma SetJobCommutes(jobs: seq<Job>, j: JobId, other: Job, k: JobId, job: Job)
    requires j < |jobs| && j != k
    ensures SetJob(jobs[j := other], k, job) == SetJob(jobs, k, job)[j := other]
  {
  }

  /** The state with another job in the place of job j. */
  function WithJob(s: State, j: JobId, other: Job): State {
    s.(jobs := SetJob(s.jobs, j, other))
  }

  lemma InvokeIgnoresOthers(s: State, t: ThreadId, f: Frame, j: JobId, other: Job)
    requires t < |s.stacks| && s.stacks[t] != [] && f.Invoke? && j < |s.jobs|
    requires f.pc in {InvCall, InvSignal, InvWait, InvRead, InvDelete} ==> f.job != j
    ensures StepInvoke(WithJob(s, j, other), t, f) == WithJob(StepInvoke(s, t, f), j, other)
  {
    if f.job != j {
      forall job
        ensures SetJob(s.jobs[j := other], f.job, job) == SetJob(s.jobs, f.job, job)[j := other]
      {
        SetJobCommutes(s.jobs, j, other, f.job, job);
      }
    }
  }

  lemma HandlerIgnoresOthers(s: State, t: ThreadId, f: Frame, j: JobId, other: Job)
    requires t < |s.stacks| && s.stacks[t] != [] && f.Handler? && j < |s.jobs|
    requires f.hpc.HNext? && f.next < |f.batch| ==> f.batch[f.next] != j
    requires f.hpc.HSignal? || ((f.hpc.HPrint? || f.hpc.HCleanup?) && f.asynchronous) ==> Current(f) != j
    ensures StepHandler(WithJob(s, j, other), t, f) == WithJob(StepHandler(s, t, f), j, other)
  {
    var k := if f.hpc.HNext? && f.next < |f.batch| then f.batch[f.next] else Current(f);
    if k != j {
      forall job
        ensures SetJob(s.jobs[j := other], k, job) == SetJob(s.jobs, k, job)[j := other]
      {
        SetJobCommutes(s.jobs, j, other, k, job);
      }
    }
  }

  lemma FinishIgnoresOthers(s: State, t: ThreadId, f: Frame, outcome: CallOutcome, j: JobId, other: Job)
    requires t < |s.stacks| && s.stacks[t] != [] && j < |s.jobs|
    requires (if f.Invoke? then f.job else Current(f)) != j
    ensures StepFinish(WithJob(s, j, other), t, f, outcome) == WithJob(StepFinish(s, t, f, outcome), j, other)
  {
    var k := if f.Invoke? then f.job else Current(f);
    SetJobCommutes(s.jobs, j, other, k, Finish(JobAt(s, k), outcome));
  }

  lemma BeginIgnoresOthers(s: State, t: ThreadId, callee: MethodId, synchronous: bool, j: JobId, other: Job)
    requires t < |s.stacks| && j < |s.jobs|
    ensures Begin(WithJob(s, j, other), t, callee, synchronous) == WithJob(Begin(s, t, callee, synchronous), j, other)
  {
    var job := NewJob(callee, synchronous, t);
    forall added
      ensures s.jobs[j := other] + [added] == (s.jobs + [added])[j := other]
    {
    }
  }

  /** Touches names all jobs that a step uses: whatever another job is like, the step is enabled or not as before, does the
      same to everything else, and leaves that job alone. */
  lemma StepIgnoresOthers(s: State, ev: Event, j: JobId, other: Job)
    requires j < |s.jobs| && j !in Touches(s, ev.thread)
    ensures Enabled(WithJob(s, j, other), ev) <==> Enabled(s, ev)
    ensures Enabled(s, ev) ==> Apply(WithJob(s, j, other), ev) == WithJob(Apply(s, ev), j, other)
  {
    if Enabled(s, ev) {
      var t := ev.thread;
      match ev.action
      case BeginInvoke(m, synchronous) => BeginIgnoresOthers(s, t, m, synchronous, j, other);
      case BeginHandler =>
      case FinishCall(outcome) => FinishIgnoresOthers(s, t, Top(s.stacks[t]), outcome, j, other);
      case Continue =>
        var f := Top(s.stacks[t]);
        if f.Invoke? {
          InvokeIgnoresOthers(s, t, f, j, other);
        } else {
          HandlerIgnoresOthers(s, t, f, j, other);
        }
    }
  }

  /** Each job is deleted at most once: by its invoker if synchronous, else by the handler;
      and only after its method has run, which happens at most once. */
  lemma DeletedByOwner(s: State, j: JobId)
    requires Reachable(s) && j < |s.jobs|
    ensures s.jobs[j].started <= 1
    ensures s.jobs[j].deletions <= 1
    ensures s.jobs[j].deletions == 1 ==> s.jobs[j].outcome.Some?
    ensures s.jobs[j].deletions == 1 ==>
      s.jobs[j].deletedBy == Some(if s.jobs[j].synchronous then s.jobs[j].creator else MAIN)
  {
    ReachableInv(s);
    assert JobOk(s.jobs[j]);
  }

  /** Every call has returned and nothing is queued or being handled. */
  predicate Quiescent(s: State) {
    s.queue == [] && forall t :: 0 <= t < |s.stacks| ==> s.stacks[t] == []
  }

  lemma AtRestFreed(s: State, j: JobId)
    requires Inv(s) && Quiescent(s) && j < |s.jobs|
    ensures s.jobs[j].deletions == 1 && s.jobs[j].started == 1
  {
    assert JobOk(s.jobs[j]);
    assert !HasFrame(s, j);
    if j in s.enqueued {
      var i :| 0 <= i < |s.enqueued| && s.enqueued[i] == j;
      assert Done(s.jobs[s.enqueued[i]]);
    }
  }

  /** When the system is at rest every job ever allocated has run once and been freed once; this is possible
      only if every asynchronous method has ended with a value or an exception that holds one. */
  lemma AtRestAllFreed(s: State, j: JobId)
    requires Reachable(s) && Quiescent(s) && j < |s.jobs|
    ensures s.jobs[j].deletions == 1 && s.jobs[j].started == 1 && !AsyncEmpty(s, j)
  {
    ReachableInv(s);
    ReachableEmptyOk(s);
    AtRestFreed(s, j);
  }

  // ---------------------------------------------------------------- when the handler fails

  /** An asynchronous method has ended with neither a value nor an exception value. */
  predicate AsyncEmpty(s: State, j: JobId) {
    j < |s.jobs| && !s.jobs[j].synchronous && s.jobs[j].outcome.Some? && s.jobs[j].outcome.value.Empty()
  }

  /** The handler has executed job j and not deleted it: it is on its way to PrintException, or has failed there. */
  predicate StuckOn(s: State, j: JobId) {
    && HandlerFrame(s).Some? && HandlerFrame(s).value.hpc in {HSignal, HPrint, HFailed}
    && Current(HandlerFrame(s).value) == j && j < |s.jobs| && s.jobs[j].Alive()
  }

  ghost predicate EmptyOk(s: State) {
    forall j :: 0 <= j < |s.jobs| && AsyncEmpty(s, j) ==> StuckOn(s, j)
  }

  /** Only the handler can finish an asynchronous call. */
  lemma AsyncFinishes(s: State, ev: Event, j: JobId)
    requires TopOk(s, ev.thread) && Enabled(s, ev) && AsyncEmpty(Apply(s, ev), j) && !AsyncEmpty(s, j)
    ensures StuckOn(Apply(s, ev), j)
  {
    JobFootprint(s, ev);
    if j < |s.jobs| && j in Touches(s, ev.thread) {
      TouchedSteps(s, ev, j);
    }
  }

  /** The handler does not get past such a job. */
  lemma HandlerSticks(s: State, ev: Event, j: JobId)
    requires TopOk(s, ev.thread) && Enabled(s, ev) && HandlerMoves(s, ev)
    requires AsyncEmpty(s, j) && StuckOn(s, j) && JobOk(s.jobs[j])
    ensures StuckOn(Apply(s, ev), j)
  {
  }

  lemma StepKeepsEmptyOk(s: State, ev: Event)
    requires Inv(s) && Enabled(s, ev) && EmptyOk(s)
    ensures EmptyOk(Apply(s, ev))
  {
    var s' := Apply(s, ev);
    TopFacts(s, ev.thread);
    forall j | 0 <= j < |s'.jobs| && AsyncEmpty(s', j)
      ensures StuckOn(s', j)
    {
      if !AsyncEmpty(s, j) {
        AsyncFinishes(s, ev, j);
      } else if HandlerMoves(s, ev) {
        HandlerSticks(s, ev, j);
      } else {
        assert s.enqueued[|s.handled| - 1] == j && JobOk(s.jobs[j]);
        CurrentUndisturbed(s, ev, j);
        HandlerFrameStays(s, ev);
      }
    }
  }

  lemma {:induction false} RunKeepsEmptyOk(s: State, schedule: seq<Event>)
    requires Inv(s) && Valid(s, schedule) && EmptyOk(s)
    ensures EmptyOk(Run(s, schedule))
    decreases |schedule|
  {
    if schedule != [] {
      StepKeepsInv(s, schedule[0]);
      StepKeepsEmptyOk(s, schedule[0]);
      RunKeepsEmptyOk(Apply(s, schedule[0]), schedule[1..]);
    }
  }

  lemma ReachableEmptyOk(s: State)
    requires Reachable(s)
    ensures EmptyOk(s)
  {
    var s0, schedule :| Init(s0) && Valid(s0, schedule) && Run(s0, schedule) == s;
    InitInv(s0);
    RunKeepsEmptyOk(s0, schedule);
  }

  /** The handler has been left by an exception; the main thread takes no further step. */
  predicate Failed(s: State) {
    HandlerFrame(s).Some? && HandlerFrame(s).value.hpc.HFailed?
  }

  /** Unless the handler is just about to print it, it has failed if and only if some asynchronous method has
      ended with neither a value nor an exception value; that job is then not freed. */
  lemma FailsOnEmptyOutcome(s: State)
    requires Reachable(s)
    requires HandlerFrame(s).Some? ==> !(HandlerFrame(s).value.hpc in {HSignal, HPrint})
    ensures Failed(s) <==> exists j :: AsyncEmpty(s, j)
    ensures forall j: JobId | j < |s.jobs| :: AsyncEmpty(s, j) ==> s.jobs[j].deletions == 0
  {
    ReachableInv(s);
    ReachableEmptyOk(s);
    if Failed(s) {
      assert AsyncEmpty(s, Current(HandlerFrame(s).value));
    }
  }

  lemma FailedStep(s: State, ev: Event)
    requires TopOk(s, ev.thread) && Enabled(s, ev) && Failed(s)
    ensures Failed(Apply(s, ev)) && Apply(s, ev).handled == s.handled && HandlerFrame(Apply(s, ev)) == HandlerFrame(s)
  {
  }

  /** A failure is for good: whatever the other threads do, no job is ever started again, so neither the rest of
      the batch nor anything pushed later is. */
  lemma {:induction false} FailedForGood(s: State, schedule: seq<Event>)
    requires Inv(s) && Failed(s) && Valid(s, schedule)
    ensures Failed(Run(s, schedule)) && Run(s, schedule).handled == s.handled
    ensures HandlerFrame(Run(s, schedule)) == HandlerFrame(s)
    decreases |schedule|
  {
    if schedule != [] {
      TopFacts(s, schedule[0].thread);
      FailedStep(s, schedule[0]);
      StepKeepsInv(s, schedule[0]);
      FailedForGood(Apply(s, schedule[0]), schedule[1..]);
    }
  }

  /** The handler starts the pushed jobs in exactly the order in which they were pushed, across
      all batches and including those pushed by running jobs; none is started twice. */
  lemma StartedInPushOrder(s: State)
    requires Reachable(s)
    ensures s.handled <= s.enqueued
    ensures forall i, k :: 0 <= i < k < |s.handled| ==> s.handled[i] != s.handled[k]
    ensures forall i :: 0 <= i < |s.enqueued| ==>
      s.enqueued[i] < |s.jobs| && (s.jobs[s.enqueued[i]].started == if i < |s.handled| then 1 else 0)
  {
    ReachableInv(s);
    forall i | 0 <= i < |s.enqueued|
      ensures s.enqueued[i] < |s.jobs|
      ensures s.jobs[s.enqueued[i]].started == if i < |s.handled| then 1 else 0
    {
      assert JobOk(s.jobs[s.enqueued[i]]);
      if i == |s.handled| - 1 && Working(s) {
        assert s.enqueued[i] == Current(HandlerFrame(s).value);
      } else if i < |s.handled| {
        assert Done(s.jobs[s.enqueued[i]]);
      }
    }
  }

  /** The push log and the start log only grow, so "before" in a log means before in time. */
  lemma {:induction false} LogsOnlyGrow(s: State, schedule: seq<Event>)
    requires Inv(s) && Valid(s, schedule)
    ensures s.enqueued <= Run(s, schedule).enqueued && s.handled <= Run(s, schedule).handled
    decreases |schedule|
  {
    if schedule != [] {
      var ev := schedule[0];
      StepKeepsInv(s, ev);
      TopFacts(s, ev.thread);
      EnqueuedGrows(s, ev);
      OneStepGrows(s, ev);
      LogsOnlyGrow(Apply(s, ev), schedule[1..]);
    }
  }

  lemma OneStepGrows(s: State, ev: Event)
    requires Enabled(s, ev)
    ensures s.handled <= Apply(s, ev).handled
  {
  }

  /** The job whose method the thread is running. */
  function Running(s: State, t: ThreadId): Option<JobId> {
    if t >= |s.stacks| || s.stacks[t] == [] || !Top(s.stacks[t]).Calling() then None
    else
      match Top(s.stacks[t])
      case Invoke(j, _, _, _, _, _) => Some(j)
      case Handler(_, _, _, _) => Some(Current(Top(s.stacks[t])))
  }

  lemma OutcomeStep(s: State, ev: Event, j: JobId)
    requires TopOk(s, ev.thread) && Enabled(s, ev) && j < |Apply(s, ev).jobs|
    ensures var outcome := Apply(s, ev).jobs[j].outcome;
      || outcome == (if j < |s.jobs| then s.jobs[j].outcome else None)
      || (ev.action.FinishCall? && outcome == Some(ev.action.outcome) && Running(s, ev.thread) == Some(j))
  {
    JobFootprint(s, ev);
  }

  /** The outcome recorded in a job is how its method ended: with the step in which some thread, running that job, left
      the method. */
  lemma {:induction false} OutcomeOfRun(s: State, schedule: seq<Event>, j: JobId, outcome: CallOutcome) returns (n: nat)
    requires Inv(s) && Valid(s, schedule) && j < |Run(s, schedule).jobs| && Run(s, schedule).jobs[j].outcome == Some(outcome)
    requires j < |s.jobs| ==> s.jobs[j].outcome.None?
    ensures n < |schedule| && Valid(s, schedule[..n])
    ensures schedule[n].action == FinishCall(outcome) && Running(Run(s, schedule[..n]), schedule[n].thread) == Some(j)
    decreases |schedule|
  {
    var ev, s' := schedule[0], Apply(s, schedule[0]);
    StepKeepsInv(s, ev);
    if j < |s'.jobs| && s'.jobs[j].outcome.Some? {
      OutcomeStays(s', schedule[1..], j);
      FirstOutcome(s, ev, j);
      assert schedule[..0] == [];
      n := 0;
    } else {
      n := OutcomeOfRun(s', schedule[1..], j, outcome);
      PrefixOfRun(s, schedule, n);
      n := n + 1;
    }
  }

  lemma FirstOutcome(s: State, ev: Event, j: JobId)
    requires Inv(s) && Enabled(s, ev) && j < |Apply(s, ev).jobs| && Apply(s, ev).jobs[j].outcome.Some?
    requires j < |s.jobs| ==> s.jobs[j].outcome.None?
    ensures ev.action.FinishCall? && Apply(s, ev).jobs[j].outcome == Some(ev.action.outcome) && Running(s, ev.thread) == Some(j)
  {
    TopFacts(s, ev.thread);
    OutcomeStep(s, ev, j);
  }

  lemma PrefixOfRun(s: State, schedule: seq<Event>, n: nat)
    requires Valid(s, schedule) && n < |schedule| && Valid(Apply(s, schedule[0]), schedule[1..][..n])
    ensures Valid(s, schedule[..n + 1]) && Run(s, schedule[..n + 1]) == Run(Apply(s, schedule[0]), schedule[1..][..n])
  {
    assert schedule[..n + 1][0] == schedule[0] && schedule[..n + 1][1..] == schedule[1..][..n];
  }

  lemma OutcomeStaysStep(s: State, ev: Event, j: JobId)
    requires Inv(s) && Enabled(s, ev) && j < |s.jobs| && s.jobs[j].outcome.Some?
    ensures j < |Apply(s, ev).jobs| && Apply(s, ev).jobs[j].outcome == s.jobs[j].outcome
  {
    TopFacts(s, ev.thread);
    JobsStep(s, ev, j);
    assert JobOk(s.jobs[j]);
  }

  lemma {:induction false} OutcomeStays(s: State, schedule: seq<Event>, j: JobId)
    requires Inv(s) && Valid(s, schedule) && j < |s.jobs| && s.jobs[j].outcome.Some?
    ensures j < |Run(s, schedule).jobs| && Run(s, schedule).jobs[j].outcome == s.jobs[j].outcome
    decreases |schedule|
  {
    if schedule != [] {
      StepKeepsInv(s, schedule[0]);
      OutcomeStaysStep(s, schedule[0], j);
      OutcomeStays(Apply(s, schedule[0]), schedule[1..], j);
    }
  }

  /** What a synchronous caller gets is what its method did in the run: some thread left the method of the caller's job with a
      value, which is returned, or with an exception, which is thrown, or with a null reference, for which an exception
      without a value is thrown. */
  lemma ResultOfRun(s0: State, schedule: seq<Event>, i: nat) returns (n: nat)
    requires Init(s0) && Valid(s0, schedule) && i < |Run(s0, schedule).completed| && Run(s0, schedule).completed[i].synchronous
    ensures n < |schedule| && Valid(s0, schedule[..n]) && schedule[n].action.FinishCall?
    ensures var c := Run(s0, schedule).completed[i];
      && Running(Run(s0, schedule[..n]), schedule[n].thread) == Some(c.job)
      && c.result == match schedule[n].action.outcome
                     case Value(v) => ReturnValue(v)
                     case NullReference => Throw(None)
                     case Exception(e) => Throw(e)
  {
    var s := Run(s0, schedule);
    InitInv(s0);
    CallerSeesOwnResult(s, i);
    n := OutcomeOfRun(s0, schedule, s.completed[i].job, s.jobs[s.completed[i].job].outcome.value);
  }

  /** A finished call saw the result of its own method: a synchronous one its value or its
      exception, an asynchronous one Undefined. */
  lemma CallerSeesOwnResult(s: State, i: nat)
    requires Reachable(s) && i < |s.completed|
    ensures var c := s.completed[i];
      && c.job < |s.jobs|
      && var job := s.jobs[c.job];
      && job.callee == c.callee && job.creator == c.thread
      && (c.synchronous ==>
            && job.started == 1 && job.outcome.Some?
            && match job.outcome.value
               case Value(v) => c.result == ReturnValue(v)
               case NullReference => c.result == Throw(None)
               case Exception(e) => c.result == Throw(e))
      && (!c.synchronous ==> c.result == ReturnUndefined && c.job in s.enqueued)
  {
    ReachableInv(s);
    var c := s.completed[i];
    assert CompletedOk(c, s.jobs[c.job], c.job in s.enqueued);
    assert JobOk(s.jobs[c.job]);
  }

  /** Nobody runs a method or waits for a result while holding the queue mutex. */
  lemma MutexHeldBriefly(s: State, t: ThreadId)
    requires Reachable(s) && s.mutex == Some(t)
    ensures t < |s.stacks| && s.stacks[t] != []
    ensures !Top(s.stacks[t]).Calling() && !(Top(s.stacks[t]).Invoke? && Top(s.stacks[t]).pc.InvWait?)
    ensures Enabled(s, Event(t, Continue))
  {
    ReachableInv(s);
    assert Holds(s, t);
  }

  /** Only the main thread runs methods, and a synchronous call made on it never blocks. */
  lemma MainNeverWaits(s: State, t: ThreadId)
    requires Reachable(s) && t < |s.stacks| && s.stacks[t] != []
    ensures Top(s.stacks[t]).Calling() ==> t == MAIN
    ensures t == MAIN && Top(s.stacks[t]).Invoke? && Top(s.stacks[t]).pc.InvWait? ==> Enabled(s, Event(t, Continue))
    ensures t == MAIN && Top(s.stacks[t]).Invoke? && Top(s.stacks[t]).synchronous ==> !(Top(s.stacks[t]).pc in {InvLock, InvPush})
  {
    ReachableInv(s);
    TopFacts(s, t);
  }

  /** Win32: a queued job is never forgotten.  A tickle message is pending, or the handler has
      taken one and has not yet emptied the queue, or some thread that pushed is about to post. */
  lemma NoLostWakeup(s: State)
    requires Reachable(s) && s.platform.Win32? && s.queue != []
    ensures || s.tickles > 0
            || AboutToSwap(s)
            || exists t :: 0 <= t < |s.stacks| && s.stacks[t] != [] && BeforePost(Top(s.stacks[t]))
  {
    ReachableInv(s);
  }

  // ---------------------------------------------------------------- every call returns

  /** A step the system owes: not a new call, and not an idle poll of the Linux timer. */
  predicate Owed(s: State, ev: Event) {
    && Enabled(s, ev)
    && !ev.action.BeginInvoke?
    && (ev.action.BeginHandler? && s.platform.Linux? ==> s.queue != [])
  }

  function FrameWork(f: Frame): nat {
    match f
    case Invoke(_, _, _, pc, _, _) =>
      (match pc
       case InvLock => 23 case InvPush => 22 case InvUnlock => 11
       case InvCall => 12 case InvSignal => 11
       case InvPost => 10 case InvCheck => 4
       case InvWait => 3 case InvRead => 2 case InvDelete => 1)
    case Handler(batch, next, _, pc) =>
      var rest := if next <= |batch| then 5 * (|batch| - next) else 0;
      (match pc
       case HLock => 4 case HSwap => 3 case HUnlock => 2 + rest
       case HNext => 1 + rest case HCall => 5 + rest case HSignal => 4 + rest
       case HPrint => 3 + rest case HCleanup => 2 + rest case HFailed => 0)
  }

  function StackWork(st: Stack): nat {
    if st == [] then 0 else FrameWork(Top(st)) + StackWork(Pop(st))
  }

  function TotalWork(stacks: seq<Stack>): nat {
    if stacks == [] then 0 else TotalWork(stacks[..|stacks| - 1]) + StackWork(stacks[|stacks| - 1])
  }

  predicate AboutToSwap(s: State) {
    HandlerFrame(s).Some? && HandlerFrame(s).value.hpc in {HLock, HSwap}
  }

  /** An upper bound on the steps still owed. */
  function Work(s: State): nat {
    TotalWork(s.stacks) + 5 * s.tickles + (if AboutToSwap(s) then 5 else 10) * |s.queue|
  }

  lemma {:induction false} TotalWorkUpdate(stacks: seq<Stack>, t: nat, st: Stack)
    requires t < |stacks|
    ensures TotalWork(stacks[t := st]) == TotalWork(stacks) - StackWork(stacks[t]) + StackWork(st)
  {
    var n := |stacks| - 1;
    if t == n {
      assert stacks[t := st][..n] == stacks[..n];
    } else {
      TotalWorkUpdate(stacks[..n], t, st);
      assert stacks[t := st][..n] == stacks[..n][t := st];
    }
  }

  lemma SetTopWork(st: Stack, f: Frame)
    requires st != []
    ensures StackWork(SetTop(st, f)) == StackWork(st) - FrameWork(Top(st)) + FrameWork(f)
  {
    assert Pop(SetTop(st, f)) == Pop(st);
  }

  /** How many steps a frame-replacing step saves on the stack, against what it adds elsewhere. */
  lemma ReplaceWork(s: State, t: ThreadId, f: Frame)
    requires t < |s.stacks| && s.stacks[t] != []
    ensures TotalWork(s.stacks[t := SetTop(s.stacks[t], f)])
         == TotalWork(s.stacks) - FrameWork(Top(s.stacks[t])) + FrameWork(f)
  {
    SetTopWork(s.stacks[t], f);
    TotalWorkUpdate(s.stacks, t, SetTop(s.stacks[t], f));
  }

  lemma PopWork(s: State, t: ThreadId)
    requires t < |s.stacks| && s.stacks[t] != []
    ensures TotalWork(s.stacks[t := Pop(s.stacks[t])]) == TotalWork(s.stacks) - FrameWork(Top(s.stacks[t]))
  {
    TotalWorkUpdate(s.stacks, t, Pop(s.stacks[t]));
  }

  /** The step trades the frame's own work for at most a queued job or a tickle message. */
  lemma InvokeFrameWorks(s: State, t: ThreadId)
    requires Enabled(s, Event(t, Continue)) && Top(s.stacks[t]).Invoke?
    ensures var f := Top(s.stacks[t]); var s' := StepInvoke(s, t, f);
      && |s'.queue| <= |s.queue| + 1
      && |s'.queue| >= |s.queue|
      && (s'.stacks == s.stacks[t := Pop(s.stacks[t])]
          || (s'.stacks[t] != [] && s'.stacks == s.stacks[t := SetTop(s.stacks[t], Top(s'.stacks[t]))]))
      && (if s'.stacks == s.stacks[t := Pop(s.stacks[t])] then 0 else FrameWork(Top(s'.stacks[t])))
         + 5 * (s'.tickles - s.tickles) + 10 * (|s'.queue| - |s.queue|) < FrameWork(f)
  {
  }

  lemma InvokeStepWorks(s: State, t: ThreadId)
    requires TopOk(s, t) && Enabled(s, Event(t, Continue)) && Top(s.stacks[t]).Invoke?
    ensures Work(StepInvoke(s, t, Top(s.stacks[t]))) < Work(s)
  {
    var s' := StepInvoke(s, t, Top(s.stacks[t]));
    InvokeFrameWorks(s, t);
    HandlerFrameStays(s, Event(t, Continue));
    if s'.stacks == s.stacks[t := Pop(s.stacks[t])] {
      PopWork(s, t);
    } else {
      ReplaceWork(s, t, Top(s'.stacks[t]));
    }
  }

  lemma HandlerStepWorks(s: State, t: ThreadId)
    requires TopOk(s, t) && Enabled(s, Event(t, Continue)) && Top(s.stacks[t]).Handler?
    ensures Work(StepHandler(s, t, Top(s.stacks[t]))) < Work(s)
  {
    var f, s' := Top(s.stacks[t]), StepHandler(s, t, Top(s.stacks[t]));
    if f.hpc.HNext? && f.next >= |f.batch| {
      PopWork(s, t);
    } else {
      ReplaceWork(s, t, Top(s'.stacks[t]));
    }
  }

  lemma FinishWorks(s: State, t: ThreadId, outcome: CallOutcome)
    requires TopOk(s, t) && Enabled(s, Event(t, FinishCall(outcome)))
    ensures Work(StepFinish(s, t, Top(s.stacks[t]), outcome)) < Work(s)
  {
    var s' := StepFinish(s, t, Top(s.stacks[t]), outcome);
    assert AboutToSwap(s') == AboutToSwap(s);
    ReplaceWork(s, t, Top(s'.stacks[t]));
  }

  lemma BeginHandlerWorks(s: State)
    requires TopOk(s, MAIN) && Owed(s, Event(MAIN, BeginHandler))
    ensures Work(Apply(s, Event(MAIN, BeginHandler))) < Work(s)
  {
    TotalWorkUpdate(s.stacks, MAIN, [Handler([], 0, false, HLock)]);
    assert StackWork([Handler([], 0, false, HLock)]) == 4 + StackWork([]);
  }

  lemma OwedStepWorks(s: State, ev: Event)
    requires Inv(s) && Owed(s, ev)
    ensures Work(Apply(s, ev)) < Work(s)
  {
    TopFacts(s, ev.thread);
    match ev.action
    case BeginHandler => BeginHandlerWorks(s);
    case FinishCall(outcome) => FinishWorks(s, ev.thread, outcome);
    case Continue =>
      if Top(s.stacks[ev.thread]).Invoke? {
        InvokeStepWorks(s, ev.thread);
      } else {
        HandlerStepWorks(s, ev.thread);
      }
  }

  /** As long as the handler has not failed and a call is unfinished or a job is queued, some owed step can be taken: there is no
      deadlock, and on Win32 no wake-up is lost. */
  lemma SomethingOwed(s: State) returns (ev: Event)
    requires Inv(s) && !Quiescent(s) && !Failed(s)
    ensures Owed(s, ev)
  {
    if s.mutex.Some? {
      assert Holds(s, s.mutex.value);
      return Event(s.mutex.value, Continue);
    }
    if s.stacks[MAIN] != [] {
      TopFacts(s, MAIN);
      return Event(MAIN, if Top(s.stacks[MAIN]).Calling() then FinishCall(NullReference) else Continue);
    }
    if t :| 0 <= t < |s.stacks| && s.stacks[t] != [] && !WaitsInVain(s, t) {
      TopFacts(s, t);
      return Event(t, Continue);
    }
    assert s.queue != [] by {
      if s.queue == [] {
        var t :| 0 <= t < |s.stacks| && s.stacks[t] != [];
        WaitersJobQueued(s, t);
      }
    }
    ev := Event(MAIN, BeginHandler);
  }

  predicate WaitsInVain(s: State, t: ThreadId)
    requires t < |s.stacks| && s.stacks[t] != []
  {
    var f := Top(s.stacks[t]);
    f.Invoke? && f.pc.InvWait? && JobAt(s, f.job).semaphore == 0
  }

  lemma WaitersJobQueued(s: State, t: ThreadId)
    requires Inv(s) && t < |s.stacks| && s.stacks[t] != [] && WaitsInVain(s, t) && s.stacks[MAIN] == []
    ensures s.queue != []
  {
    TopFacts(s, t);
    var j := Top(s.stacks[t]).job;
    var i :| 0 <= i < |s.enqueued| && s.enqueued[i] == j;
    StartedAreDone(s, i);
  }

  /** While the handler does not run, whatever it has started is done. */
  lemma StartedAreDone(s: State, i: nat)
    requires Inv(s) && i < |s.enqueued| && s.stacks[MAIN] == []
    ensures s.enqueued[i] < |s.jobs| && (i < |s.handled| ==> Done(s.jobs[s.enqueued[i]]))
  {
  }

  /** Every step of the schedule is owed. */
  ghost predicate OnlyOwed(s: State, schedule: seq<Event>)
    requires Valid(s, schedule)
    decreases |schedule|
  {
    schedule == [] || (Owed(s, schedule[0]) && OnlyOwed(Apply(s, schedule[0]), schedule[1..]))
  }

  lemma {:induction false} OwedStepsRunOut(s: State, schedule: seq<Event>)
    requires Inv(s) && Valid(s, schedule) && OnlyOwed(s, schedule)
    ensures |schedule| + Work(Run(s, schedule)) <= Work(s)
    decreases |schedule|
  {
    if schedule != [] {
      OwedStepWorks(s, schedule[0]);
      StepKeepsInv(s, schedule[0]);
      OwedStepsRunOut(Apply(s, schedule[0]), schedule[1..]);
    }
  }

  lemma {:induction false} RunExtends(s: State, schedule: seq<Event>, ev: Event)
    requires Valid(s, schedule) && Enabled(Run(s, schedule), ev)
    ensures Valid(s, schedule + [ev]) && Run(s, schedule + [ev]) == Apply(Run(s, schedule), ev)
    decreases |schedule|
  {
    if schedule != [] {
      assert (schedule + [ev])[1..] == schedule[1..] + [ev];
      RunExtends(Apply(s, schedule[0]), schedule[1..], ev);
    }
  }

  lemma Steps(s: State, ev: Event) returns (s': State)
    requires Reachable(s) && Enabled(s, ev)
    ensures s' == Apply(s, ev) && Reachable(s')
  {
    var s0, schedule :| Init(s0) && Valid(s0, schedule) && Run(s0, schedule) == s;
    RunExtends(s0, schedule, ev);
    return Apply(s, ev);
  }

  lemma {:induction false} ReachableRun(s: State, schedule: seq<Event>)
    requires Reachable(s) && Valid(s, schedule)
    ensures Reachable(Run(s, schedule))
    decreases |schedule|
  {
    if schedule != [] {
      var s' := Steps(s, schedule[0]);
      ReachableRun(s', schedule[1..]);
    }
  }

  /** No owed step is left. */
  ghost predicate Over(s: State) {
    forall ev :: !Owed(s, ev)
  }

  predicate AllDone(s: State) {
    && Quiescent(s) && s.handled == s.enqueued
    && forall j :: 0 <= j < |s.jobs| ==> s.jobs[j].deletions == 1 && s.jobs[j].started == 1
  }

  lemma OverAllDone(s: State)
    requires Reachable(s) && Over(s) && !Failed(s)
    ensures AllDone(s)
  {
    ReachableInv(s);
    if !Quiescent(s) {
      var ev := SomethingOwed(s);
    }
    forall j | 0 <= j < |s.jobs|
      ensures s.jobs[j].deletions == 1 && s.jobs[j].started == 1
    {
      AtRestAllFreed(s, j);
    }
    assert Pending(s) == [];
  }

  /** Every call returns.  From any reachable state, if no new call is made, the scheduler can take
      only boundedly many further steps, in whatever order; and when it can take no more, then, if and only if
      no asynchronous method has ended with neither a value nor an exception value, all calls have returned, every job pushed has been
      handled, and every job has been freed exactly once. */
  lemma EveryCallReturns(s: State, schedule: seq<Event>)
    requires Reachable(s) && Valid(s, schedule) && OnlyOwed(s, schedule)
    ensures |schedule| <= Work(s)
    ensures var s' := Run(s, schedule); Over(s') ==> (AllDone(s') <==> forall j :: !AsyncEmpty(s', j))
  {
    ReachableInv(s);
    OwedStepsRunOut(s, schedule);
    ReachableRun(s, schedule);
    var s' := Run(s, schedule);
    if Over(s') {
      if Failed(s') {
        FailsOnEmptyOutcome(s');
      } else {
        OverAllDone(s');
        FailsOnEmptyOutcome(s');
      }
    }
  }

  // ---------------------------------------------------------------- why the flag is read first

  predicate HandlerAfterExecute(s: State, j: JobId) {
    |s.stacks| > 0 && s.stacks[MAIN] != [] && Top(s.stacks[MAIN]).Handler?
    && Top(s.stacks[MAIN]).hpc.HPrint? && Current(Top(s.stacks[MAIN])) == j
  }

  function Caller(pc: InvokePc): Stack { [Invoke(0, 7, true, pc, None, None)] }

  predicate TwoStacks(s: State, main: Stack, other: Stack) {
    |s.stacks| == 2 && s.stacks[0] == main && s.stacks[1] == other
  }

  /** A synchronous caller that has taken the mutex... */
  lemma CallerLocks() returns (s: State)
    ensures Reachable(s) && TwoStacks(s, [], Caller(InvPush))
    ensures s == State(Linux, s.stacks, Some(1), [], [NewJob(7, true, 1)], 0, [], [], [])
  {
    s := State(Linux, [[], []], None, [], [], 0, [], [], []);
    assert Valid(s, []) && Run(s, []) == s;
    s := Steps(s, Event(1, BeginInvoke(7, true)));
    assert TwoStacks(s, [], Caller(InvLock));
    s := Steps(s, Event(1, Continue));
  }

  /** ... then pushed its job, and now waits. */
  lemma CallerWaits() returns (s: State)
    ensures Reachable(s) && TwoStacks(s, [], Caller(InvWait))
    ensures s == State(Linux, s.stacks, None, [0], [NewJob(7, true, 1)], 0, [0], [], [])
  {
    s := CallerLocks();
    s := Steps(s, Event(1, Continue));
    assert TwoStacks(s, [], Caller(InvUnlock));
    s := Steps(s, Event(1, Continue));
    assert TwoStacks(s, [], Caller(InvCheck));
    s := Steps(s, Event(1, Continue));
  }

  /** The handler has swapped the queue out... */
  lemma HandlerSwaps() returns (s: State)
    ensures Reachable(s) && TwoStacks(s, [Handler([0], 0, false, HNext)], Caller(InvWait))
    ensures s == State(Linux, s.stacks, None, [], [NewJob(7, true, 1)], 0, [0], [], [])
  {
    s := CallerWaits();
    s := Steps(s, Event(0, BeginHandler));
    s := Steps(s, Event(0, Continue));
    assert TwoStacks(s, [Handler([], 0, false, HSwap)], Caller(InvWait));
    s := Steps(s, Event(0, Continue));
    s := Steps(s, Event(0, Continue));
  }

  /** ... and has executed the job: it stands right behind Execute. */
  lemma HandlerExecutes() returns (s: State)
    ensures Reachable(s)
    ensures TwoStacks(s, [Handler([0], 1, false, HPrint)], Caller(InvWait))
    ensures s.jobs == [Signal(Finish(Start(NewJob(7, true, 1)), Value(3)))]
  {
    s := HandlerSwaps();
    s := Steps(s, Event(0, Continue));
    assert TwoStacks(s, [Handler([0], 1, false, HCall)], Caller(InvWait));
    s := Steps(s, Event(0, FinishCall(Value(3))));
    assert TwoStacks(s, [Handler([0], 1, false, HSignal)], Caller(InvWait));
    s := Steps(s, Event(0, Continue));
  }

  /** Reading IsSynchronous after Execute would be wrong: a state is reachable in which the handler is
      right behind Execute and the job it has just executed is already deleted. */
  lemma FlagMustBeReadBeforeExecute()
    ensures exists s: State, j: JobId :: Reachable(s) && HandlerAfterExecute(s, j) && j < |s.jobs| && s.jobs[j].deletions == 1
  {
    var s := HandlerExecutes();
    s := Steps(s, Event(1, Continue));
    s := Steps(s, Event(1, Continue));
    s := Steps(s, Event(1, Continue));
    assert HandlerAfterExecute(s, 0) && s.jobs[0].deletions == 1;
  }

  // ---------------------------------------------------------------- a run that fails

  /** Thread 1 has made an asynchronous call and pushed its job... */
  lemma AsyncPushed() returns (s: State)
    ensures Reachable(s) && TwoStacks(s, [], [Invoke(0, 7, false, InvUnlock, None, None)])
    ensures s == State(Linux, s.stacks, Some(1), [0], [NewJob(7, false, 1)], 0, [0], [], [])
  {
    s := State(Linux, [[], []], None, [], [], 0, [], [], []);
    assert Valid(s, []) && Run(s, []) == s;
    s := Steps(s, Event(1, BeginInvoke(7, false)));
    assert TwoStacks(s, [], [Invoke(0, 7, false, InvLock, None, None)]);
    s := Steps(s, Event(1, Continue));
    s := Steps(s, Event(1, Continue));
  }

  /** ... and has returned from it; the handler has started the job. */
  lemma AsyncQueued() returns (s: State)
    ensures Reachable(s) && TwoStacks(s, [], [])
    ensures s == State(Linux, s.stacks, None, [0], [NewJob(7, false, 1)], 0, [0], [], s.completed)
  {
    s := AsyncPushed();
    s := Steps(s, Event(1, Continue));
    assert TwoStacks(s, [], [Invoke(0, 7, false, InvCheck, None, None)]);
    s := Steps(s, Event(1, Continue));
  }

  lemma AsyncStarted() returns (s: State)
    ensures Reachable(s) && TwoStacks(s, [Handler([0], 1, true, HCall)], [])
    ensures s.platform == Linux && s.jobs == [Start(NewJob(7, false, 1))]
  {
    s := AsyncQueued();
    s := Steps(s, Event(0, BeginHandler));
    s := Steps(s, Event(0, Continue));
    assert TwoStacks(s, [Handler([], 0, false, HSwap)], []);
    s := Steps(s, Event(0, Continue));
    s := Steps(s, Event(0, Continue));
    assert TwoStacks(s, [Handler([0], 0, false, HNext)], []);
    s := Steps(s, Event(0, Continue));
  }

  /** One asynchronous method that returns a null reference: the handler fails and the job is not freed. */
  lemma NullReferenceFailsHandler()
    ensures exists s: State :: Reachable(s) && Failed(s) && AsyncEmpty(s, 0) && s.jobs[0].deletions == 0
  {
    var s := AsyncStarted();
    s := Steps(s, Event(0, FinishCall(NullReference)));
    assert TwoStacks(s, [Handler([0], 1, true, HSignal)], []);
    s := Steps(s, Event(0, Continue));
    s := Steps(s, Event(0, Continue));
    assert Failed(s) && AsyncEmpty(s, 0) && s.jobs[0].deletions == 0;
  }

  /** The same without any asynchronous null reference: the asynchronous method makes a synchronous call of its own, which
      returns one... */
  lemma NestedReturns() returns (s: State)
    ensures Reachable(s) && TwoStacks(s, [Handler([0], 1, true, HCall), Invoke(1, 8, true, InvCheck, None, None)], [])
    ensures s.platform == Linux && |s.jobs| == 2 && s.jobs[0] == Start(NewJob(7, false, 1))
    ensures s.jobs[1] == Signal(Finish(Start(NewJob(8, true, 0)), NullReference))
  {
    s := AsyncStarted();
    s := Steps(s, Event(0, BeginInvoke(8, true)));
    assert TwoStacks(s, [Handler([0], 1, true, HCall), Invoke(1, 8, true, InvCall, None, None)], []);
    s := Steps(s, Event(0, FinishCall(NullReference)));
    assert TwoStacks(s, [Handler([0], 1, true, HCall), Invoke(1, 8, true, InvSignal, None, None)], []);
    s := Steps(s, Event(0, Continue));
  }

  /** ... so the call throws an exception without a value... */
  lemma NestedThrows() returns (s: State)
    ensures Reachable(s) && TwoStacks(s, [Handler([0], 1, true, HCall)], [])
    ensures |s.jobs| == 2 && s.jobs[0] == Start(NewJob(7, false, 1)) && s.jobs[1].synchronous
    ensures s.completed != [] && s.completed[|s.completed| - 1] == Completed(MAIN, 1, 8, true, Throw(None))
  {
    s := NestedReturns();
    s := Steps(s, Event(0, Continue));
    assert TwoStacks(s, [Handler([0], 1, true, HCall), Invoke(1, 8, true, InvWait, None, None)], []);
    s := Steps(s, Event(0, Continue));
    assert TwoStacks(s, [Handler([0], 1, true, HCall), Invoke(1, 8, true, InvRead, None, None)], []);
    s := Steps(s, Event(0, Continue));
    assert TwoStacks(s, [Handler([0], 1, true, HCall), Invoke(1, 8, true, InvDelete, None, None)], []);
    s := Steps(s, Event(0, Continue));
  }

  lemma NestedLetThrough() returns (s: State)
    ensures Reachable(s) && TwoStacks(s, [Handler([0], 1, true, HSignal)], [])
    ensures |s.jobs| == 2 && s.jobs[0] == Finish(Start(NewJob(7, false, 1)), Exception(None)) && s.jobs[1].synchronous
  {
    s := NestedThrows();
    s := Steps(s, Event(0, FinishCall(Exception(None))));
  }

  predicate AsyncReturnedNull(s: State, j: JobId) {
    j < |s.jobs| && !s.jobs[j].synchronous && s.jobs[j].outcome == Some(NullReference)
  }

  /** ... which the asynchronous method lets through: the handler fails although no asynchronous method has returned
      a null reference. */
  lemma NestedNullFailsHandler()
    ensures exists s: State ::
      Reachable(s) && Failed(s) && AsyncEmpty(s, 0) && s.jobs[0].deletions == 0 && forall j :: !AsyncReturnedNull(s, j)
  {
    var s := NestedLetThrough();
    s := Steps(s, Event(0, Continue));
    assert TwoStacks(s, [Handler([0], 1, true, HPrint)], []);
    s := Steps(s, Event(0, Continue));
    assert Failed(s) && AsyncEmpty(s, 0) && s.jobs[0].deletions == 0 && forall j :: !AsyncReturnedNull(s, j);
  }

  // ---------------------------------------------------------------- where exceptions without a value come from

  /** A method throws an exception without a value only if a call made by its thread has thrown one to it. */
  predicate PassedOn(s: State, ev: Event) {
    ev.action == FinishCall(Exception(None)) ==>
      exists i :: 0 <= i < |s.completed| && s.completed[i].thread == ev.thread && s.completed[i].result == Throw(None)
  }

  /** No method makes up an exception without a value, and none returns a null reference. */
  ghost predicate NoneMadeUp(s: State, schedule: seq<Event>)
    requires Valid(s, schedule)
    decreases |schedule|
  {
    if schedule == [] then true else
    && PassedOn(s, schedule[0]) && schedule[0].action != FinishCall(NullReference)
    && NoneMadeUp(Apply(s, schedule[0]), schedule[1..])
  }

  predicate NoneEmpty(s: State) {
    forall j :: 0 <= j < |s.jobs| ==> s.jobs[j].outcome.Some? ==> !s.jobs[j].outcome.value.Empty()
  }

  lemma NoneThrown(s: State)
    requires Inv(s) && NoneEmpty(s)
    ensures forall i :: 0 <= i < |s.completed| ==> s.completed[i].result != Throw(None)
  {
    forall i | 0 <= i < |s.completed|
      ensures s.completed[i].result != Throw(None)
    {
      assert CompletedOk(s.completed[i], s.jobs[s.completed[i].job], s.completed[i].job in s.enqueued);
    }
  }

  lemma StepKeepsNoneEmpty(s: State, ev: Event)
    requires Inv(s) && Enabled(s, ev) && NoneEmpty(s) && PassedOn(s, ev) && ev.action != FinishCall(NullReference)
    ensures NoneEmpty(Apply(s, ev))
  {
    TopFacts(s, ev.thread);
    NoneThrown(s);
    forall j | 0 <= j < |Apply(s, ev).jobs| && Apply(s, ev).jobs[j].outcome.Some?
      ensures !Apply(s, ev).jobs[j].outcome.value.Empty()
    {
      OutcomeStep(s, ev, j);
    }
  }

  lemma {:induction false} RunKeepsNoneEmpty(s: State, schedule: seq<Event>)
    requires Inv(s) && Valid(s, schedule) && NoneEmpty(s) && NoneMadeUp(s, schedule)
    ensures NoneEmpty(Run(s, schedule))
    decreases |schedule|
  {
    if schedule != [] {
      StepKeepsInv(s, schedule[0]);
      StepKeepsNoneEmpty(s, schedule[0]);
      RunKeepsNoneEmpty(Apply(s, schedule[0]), schedule[1..]);
    }
  }

  lemma FailedAtEmpty(s: State)
    requires Inv(s)
    ensures Failed(s) ==> AsyncEmpty(s, Current(HandlerFrame(s).value))
  {
  }

  /** Behind every failure there is a null reference: if methods only pass on exceptions without a value that a call of
      theirs has thrown, and no method, synchronous or not, returns a null reference, the handler never fails. */
  lemma NoNullNoFailure(s0: State, schedule: seq<Event>)
    requires Init(s0) && Valid(s0, schedule) && NoneMadeUp(s0, schedule)
    ensures !Failed(Run(s0, schedule))
  {
    InitInv(s0);
    RunKeepsNoneEmpty(s0, schedule);
    var s := Run(s0, schedule);
    ReachableInv(s);
    FailedAtEmpty(s);
  }
}
