/**
 The inductive invariant of the main-thread protocol: who may touch a job at each point,
 where every pushed job is, who holds the mutex, and why a queued job will be noticed.
 */
module MainThreadInvariant {
  import opened Wrappers
  import opened MainThreadJobs

  function ValueOf(outcome: Option<CallOutcome>): Option<Value> {
    match outcome case Some(Value(v)) => Some(v) case _ => None
  }

  function ExceptionOf(outcome: Option<CallOutcome>): Option<Value> {
    match outcome case Some(Exception(e)) => e case _ => None
  }

  predicate JobOk(job: Job) {
    && job.started <= 1
    && (job.outcome.Some? ==> job.started == 1)
    && job.returnValue == ValueOf(job.outcome)
    && job.exception == ExceptionOf(job.outcome)
    && job.semaphore <= job.signals <= 1
    && (job.signals == 1 ==> job.synchronous && job.outcome.Some?)
    && job.deletions <= 1
    && (job.deletions == 0 ==> job.deletedBy == None)
    && (job.deletions == 1 ==>
          job.outcome.Some? && job.deletedBy == Some(if job.synchronous then job.creator else MAIN))
  }

  predicate Fresh(job: Job) {
    job.Alive() && job.started == 0 && job.outcome.None? && job.signals == 0 && job.semaphore == 0
  }

  predicate Done(job: Job) {
    job.outcome.Some? && if job.synchronous then job.signals == 1 else !job.Alive()
  }

  /** What an activation of InvokeMethodOnMainThread may rely on at each point;
      `queued` says whether its job was ever pushed. */
  predicate InvokeOk(platform: Platform, t: ThreadId, f: Frame, job: Job, queued: bool)
    requires f.Invoke?
  {
    var inPlace := t == MAIN && f.synchronous;
    && job.creator == t && job.callee == f.callee && job.synchronous == f.synchronous
    && match f.pc
       case InvLock => !inPlace && !queued && Fresh(job)
       case InvPush => !inPlace && !queued && Fresh(job)
       case InvUnlock => !inPlace && queued && (f.synchronous ==> job.Alive() && job.semaphore == job.signals)
       case InvCall => inPlace && !queued && job.Alive() && job.started == 1 && job.outcome.None? && job.signals == 0
       case InvSignal => inPlace && !queued && job.Alive() && job.outcome.Some? && job.signals == 0
       case InvPost => AtPostOrCheck(platform, t, f, job, queued) && platform.Win32?
       case InvCheck => AtPostOrCheck(platform, t, f, job, queued)
       case InvWait => AtPostOrCheck(platform, t, f, job, queued) && f.synchronous
       case InvRead => f.synchronous && job.Alive() && job.signals == 1 && job.semaphore == 0 && queued == !inPlace
       case InvDelete =>
         && f.synchronous && job.Alive() && job.signals == 1 && job.semaphore == 0 && queued == !inPlace
         && f.result == job.returnValue && f.exception == job.exception
  }

  predicate AtPostOrCheck(platform: Platform, t: ThreadId, f: Frame, job: Job, queued: bool)
    requires f.Invoke?
  {
    var inPlace := t == MAIN && f.synchronous;
    && queued == !inPlace
    && (f.synchronous ==> job.Alive() && job.semaphore == job.signals)
    && (inPlace ==> job.signals == 1)
  }

  ghost predicate FramesOk(s: State) {
    && |s.stacks| > 0
    && (forall t, d :: 0 <= t < |s.stacks| && 0 <= d < |s.stacks[t]| && s.stacks[t][d].Invoke? ==>
          && s.stacks[t][d].job < |s.jobs|
          && InvokeOk(s.platform, t, s.stacks[t][d], s.jobs[s.stacks[t][d].job], s.stacks[t][d].job in s.enqueued))
    && (forall t, d :: 0 <= t < |s.stacks| && 0 <= d < |s.stacks[t]| ==>
          ShapeOk(t, d, |s.stacks[t]|, s.stacks[t][d]))
    && (forall t, d, e | 0 <= t < |s.stacks| && 0 <= d < e < |s.stacks[t]| ::
          s.stacks[t][d].Invoke? && s.stacks[t][e].Invoke? ==> s.stacks[t][d].job != s.stacks[t][e].job)
  }

  /** Only the main thread runs methods; all frames below its innermost one are running one. */
  predicate ShapeOk(t: ThreadId, d: nat, depth: nat, f: Frame) {
    && (d < depth - 1 ==> t == MAIN && f.Calling())
    && (f.Handler? ==> t == MAIN && d == 0)
  }

  predicate Holds(s: State, t: ThreadId) {
    t < |s.stacks| && s.stacks[t] != [] && Top(s.stacks[t]).Locked()
  }

  ghost predicate MutexOk(s: State) {
    && (s.mutex.Some? ==> s.mutex.value < |s.stacks|)
    && (forall t :: 0 <= t < |s.stacks| ==> (Holds(s, t) <==> s.mutex == Some(t)))
  }

  /** The handler activation at the bottom of the main stack, if there is one. */
  function HandlerFrame(s: State): Option<Frame> {
    if |s.stacks| > MAIN && s.stacks[MAIN] != [] && s.stacks[MAIN][0].Handler? then Some(s.stacks[MAIN][0]) else None
  }

  /** Jobs swapped out of the queue and not started yet. */
  function Pending(s: State): seq<JobId> {
    match HandlerFrame(s)
    case None => []
    case Some(f) => if f.next <= |f.batch| then f.batch[f.next..] else []
  }

  predicate Working(s: State) {
    HandlerFrame(s).Some? && HandlerFrame(s).value.hpc in {HCall, HSignal, HPrint, HCleanup, HFailed}
  }

  ghost predicate HandlerOk(s: State) {
    match HandlerFrame(s)
    case None => true
    case Some(f) =>
      && f.next <= |f.batch|
      && (f.hpc in {HLock, HSwap} ==> f.batch == [])
      && (f.hpc.HUnlock? ==> f.next == 0)
      && (Working(s) ==>
            && f.next > 0 && s.handled != []
            && s.handled[|s.handled| - 1] == Current(f)
            && Current(f) < |s.jobs|
            && var job := s.jobs[Current(f)];
            && f.asynchronous == !job.synchronous
            && (f.hpc.HCall? ==> job.Alive() && job.started == 1 && job.outcome.None? && job.signals == 0)
            && (f.hpc.HSignal? ==> job.Alive() && job.outcome.Some? && job.signals == 0)
            && (f.hpc in {HPrint, HCleanup} ==>
                  job.outcome.Some? && if job.synchronous then job.signals == 1 else job.Alive())
            && (f.hpc.HFailed? ==> !job.synchronous && job.Alive() && job.outcome.Some? && job.outcome.value.Empty()))
  }

  /** The queue order: everything ever pushed is, in this order, started, swapped out, or queued. */
  ghost predicate OrderOk(s: State) {
    && s.enqueued == s.handled + Pending(s) + s.queue
    && (forall i, k :: 0 <= i < k < |s.enqueued| ==> s.enqueued[i] != s.enqueued[k])
    && (forall i :: 0 <= i < |s.enqueued| ==> s.enqueued[i] < |s.jobs|)
  }

  predicate InPlace(job: Job) { job.creator == MAIN && job.synchronous }

  ghost predicate QueuedOk(s: State) {
    && (forall i :: 0 <= i < |s.enqueued| && s.enqueued[i] < |s.jobs| ==> !InPlace(s.jobs[s.enqueued[i]]))
    && (forall i :: |s.handled| <= i < |s.enqueued| && s.enqueued[i] < |s.jobs| ==> Fresh(s.jobs[s.enqueued[i]]))
    && (forall i | 0 <= i < |s.handled| && i < |s.enqueued| && s.enqueued[i] < |s.jobs| ::
          (i == |s.handled| - 1 ==> !Working(s)) ==> Done(s.jobs[s.enqueued[i]]))
  }

  ghost predicate HasFrame(s: State, j: JobId)
    requires j < |s.jobs|
  {
    exists d :: s.jobs[j].creator < |s.stacks| && 0 <= d < |s.stacks[s.jobs[j].creator]| &&
                s.stacks[s.jobs[j].creator][d].Invoke? && s.stacks[s.jobs[j].creator][d].job == j
  }

  /** No leak: a live job still belongs to its invoker or, once pushed, to the handler. */
  ghost predicate OwnedOk(s: State) {
    forall j :: 0 <= j < |s.jobs| && s.jobs[j].Alive() && (s.jobs[j].synchronous || j !in s.enqueued) ==> HasFrame(s, j)
  }

  /** The result a synchronous caller must see. */
  function ResultOf(outcome: CallOutcome): InvokeResult {
    match outcome
    case Value(v) => ReturnValue(v)
    case NullReference => Throw(None)
    case Exception(e) => Throw(e)
  }

  predicate CompletedOk(c: Completed, job: Job, queued: bool) {
    && c.thread == job.creator && c.callee == job.callee && c.synchronous == job.synchronous
    && (c.synchronous ==> job.deletions == 1 && job.outcome.Some? && c.result == ResultOf(job.outcome.value))
    && (!c.synchronous ==> queued && c.result == ReturnUndefined)
  }

  ghost predicate ResultsOk(s: State) {
    forall i :: 0 <= i < |s.completed| ==>
      && s.completed[i].job < |s.jobs|
      && CompletedOk(s.completed[i], s.jobs[s.completed[i].job], s.completed[i].job in s.enqueued)
  }

  predicate BeforePost(f: Frame) { f.Invoke? && (f.pc.InvUnlock? || f.pc.InvPost?) }

  /** Win32: a non-empty queue is on its way to being drained. */
  ghost predicate WakeupOk(s: State) {
    s.platform.Win32? && s.queue != [] ==>
      || s.tickles > 0
      || (HandlerFrame(s).Some? && HandlerFrame(s).value.hpc in {HLock, HSwap})
      || exists t :: 0 <= t < |s.stacks| && s.stacks[t] != [] && BeforePost(Top(s.stacks[t]))
  }

  ghost predicate Inv(s: State) {
    && FramesOk(s) && MutexOk(s) && HandlerOk(s) && OrderOk(s) && QueuedOk(s)
    && OwnedOk(s) && ResultsOk(s) && WakeupOk(s)
    && (forall j :: 0 <= j < |s.jobs| ==> JobOk(s.jobs[j]))
  }

  // ---------------------------------------------------------------- every step keeps the invariant

  /** What the invariant says about the innermost frame of one thread. */
  ghost predicate TopOk(s: State, t: ThreadId) {
    && 0 < |s.stacks| && t < |s.stacks|
    && (s.stacks[t] != [] ==>
          var f := Top(s.stacks[t]);
          && (f.Calling() ==> t == MAIN)
          && (|s.stacks[t]| > 1 ==> t == MAIN && Top(Pop(s.stacks[t])).Calling())
          && (f.Invoke? ==>
                && f.job < |s.jobs| && JobOk(s.jobs[f.job])
                && InvokeOk(s.platform, t, f, s.jobs[f.job], f.job in s.enqueued))
          && (f.Handler? ==>
                && t == MAIN && s.stacks[t] == [f]
                && HandlerOk(s)
                && (f.hpc.HNext? && f.next < |f.batch| ==>
                      && f.batch[f.next] < |s.jobs|
                      && |s.handled| < |s.enqueued| && s.enqueued[|s.handled|] == f.batch[f.next]
                      && Fresh(s.jobs[f.batch[f.next]]))))
  }

  lemma TopFacts(s: State, t: ThreadId)
    requires Inv(s) && t < |s.stacks|
    ensures TopOk(s, t)
  {
    if s.stacks[t] != [] {
      var n := |s.stacks[t]|;
      var f := s.stacks[t][n - 1];
      assert ShapeOk(t, n - 1, n, f);
      if n > 1 {
        assert ShapeOk(t, n - 2, n, s.stacks[t][n - 2]);
      }
      if f.Invoke? {
        assert InvokeOk(s.platform, t, f, s.jobs[f.job], f.job in s.enqueued);
      } else if f.hpc.HNext? && f.next < |f.batch| {
        assert Pending(s)[0] == f.batch[f.next];
        assert s.enqueued[|s.handled|] == f.batch[f.next];
      }
    }
  }

  /** A step touches only live jobs: memory safety of the protocol. */
  lemma TouchedAlive(s: State, t: ThreadId, j: JobId)
    requires TopOk(s, t) && j in Touches(s, t)
    ensures j < |s.jobs| && s.jobs[j].Alive()
  {
  }

  /** A step changes at most the jobs it touches... */
  lemma JobFootprint(s: State, ev: Event)
    requires Enabled(s, ev)
    ensures var s' := Apply(s, ev);
      && |s.jobs| <= |s'.jobs|
      && (forall j :: 0 <= j < |s.jobs| && j !in Touches(s, ev.thread) ==> s'.jobs[j] == s.jobs[j])
  {
  }

  /** Everything but thread `t`'s own stack is as it was. */
  ghost predicate OthersSame(s: State, s': State, t: ThreadId) {
    && t < |s.stacks| && |s'.stacks| == |s.stacks|
    && forall u :: 0 <= u < |s.stacks| && u != t ==> s'.stacks[u] == s.stacks[u]
  }

  /** ... and no stack but its own. */
  lemma StackFootprint(s: State, ev: Event)
    requires Enabled(s, ev)
    ensures var s' := Apply(s, ev);
      && s'.platform == s.platform
      && OthersSame(s, s', ev.thread)
      && (|s'.stacks[ev.thread]| > |s.stacks[ev.thread]| ==> ev.action.BeginInvoke? || s.stacks[ev.thread] == [])
  {
  }

  /** What a step may do to one job. */
  ghost predicate JobStep(job: Job, job': Job) {
    || job' == job
    || (job.started == 0 && job' == Start(job))
    || (job.started == 1 && job.outcome.None? && exists o :: job' == Finish(job, o))
    || (job.outcome.Some? && job.signals == 0 && job' == Signal(job))
    || (job.semaphore > 0 && job' == job.(semaphore := job.semaphore - 1))
    || (job.Alive() && job.outcome.Some? && job' == Delete(job, if job.synchronous then job.creator else MAIN))
  }

  lemma TouchedSteps(s: State, ev: Event, j: JobId)
    requires TopOk(s, ev.thread) && Enabled(s, ev) && j in Touches(s, ev.thread) && j < |s.jobs|
    ensures j < |Apply(s, ev).jobs| && JobStep(s.jobs[j], Apply(s, ev).jobs[j])
  {
    if ev.action.FinishCall? {
      assert Apply(s, ev).jobs[j] == Finish(s.jobs[j], ev.action.outcome);
    }
  }

  lemma JobStepKeepsOk(job: Job, job': Job)
    requires JobOk(job) && JobStep(job, job')
    ensures JobOk(job')
  {
  }

  lemma NewJobsOk(s: State, ev: Event)
    requires Enabled(s, ev)
    ensures forall j :: |s.jobs| <= j < |Apply(s, ev).jobs| ==> JobOk(Apply(s, ev).jobs[j])
  {
  }

  lemma StepKeepsJobs(s: State, ev: Event)
    requires TopOk(s, ev.thread) && Enabled(s, ev)
    requires forall j :: 0 <= j < |s.jobs| ==> JobOk(s.jobs[j])
    ensures var s' := Apply(s, ev); forall j :: 0 <= j < |s'.jobs| ==> JobOk(s'.jobs[j])
  {
    var s' := Apply(s, ev);
    JobFootprint(s, ev);
    NewJobsOk(s, ev);
    forall j | 0 <= j < |s.jobs|
      ensures JobOk(s'.jobs[j])
    {
      if j in Touches(s, ev.thread) {
        TouchedSteps(s, ev, j);
      }
      JobStepKeepsOk(s.jobs[j], s'.jobs[j]);
    }
  }

  /** How thread t moves the mutex: it can only take it when it is free, and release it when it holds it. */
  predicate MutexMove(s: State, s': State, t: ThreadId) {
    && (Holds(s', t) <==> s'.mutex == Some(t))
    && (s'.mutex == s.mutex || (s.mutex.None? && s'.mutex == Some(t)) || (s.mutex == Some(t) && s'.mutex.None?))
  }

  lemma InvokeMovesMutex(s: State, t: ThreadId)
    requires TopOk(s, t) && Enabled(s, Event(t, Continue)) && Top(s.stacks[t]).Invoke?
    requires Holds(s, t) <==> s.mutex == Some(t)
    ensures MutexMove(s, StepInvoke(s, t, Top(s.stacks[t])), t)
  {
  }

  lemma HandlerMovesMutex(s: State, t: ThreadId)
    requires TopOk(s, t) && Enabled(s, Event(t, Continue)) && Top(s.stacks[t]).Handler?
    requires Holds(s, t) <==> s.mutex == Some(t)
    ensures MutexMove(s, StepHandler(s, t, Top(s.stacks[t])), t)
  {
  }

  lemma MutexMoves(s: State, ev: Event)
    requires TopOk(s, ev.thread) && Enabled(s, ev)
    requires Holds(s, ev.thread) <==> s.mutex == Some(ev.thread)
    ensures MutexMove(s, Apply(s, ev), ev.thread)
  {
    if ev.action.Continue? {
      if Top(s.stacks[ev.thread]).Invoke? {
        InvokeMovesMutex(s, ev.thread);
      } else {
        HandlerMovesMutex(s, ev.thread);
      }
    }
  }

  lemma StepKeepsMutex(s: State, ev: Event)
    requires TopOk(s, ev.thread) && MutexOk(s) && Enabled(s, ev)
    ensures MutexOk(Apply(s, ev))
  {
    var s' := Apply(s, ev);
    assert Holds(s, ev.thread) <==> s.mutex == Some(ev.thread);
    MutexMoves(s, ev);
    StackFootprint(s, ev);
    forall t | 0 <= t < |s'.stacks|
      ensures Holds(s', t) <==> s'.mutex == Some(t)
    {
      assert Holds(s, t) <==> s.mutex == Some(t);
    }
  }

  /** Only the push step extends the queue, with a job never pushed before. */
  lemma EnqueuedGrows(s: State, ev: Event)
    requires TopOk(s, ev.thread) && Enabled(s, ev)
    ensures var s' := Apply(s, ev);
      || s'.enqueued == s.enqueued
      || (&& s.stacks[ev.thread] != [] && Top(s.stacks[ev.thread]).Invoke?
          && var j := Top(s.stacks[ev.thread]).job;
          && j < |s.jobs| && j !in s.enqueued && Fresh(s.jobs[j]) && !InPlace(s.jobs[j])
          && s' == WithTop(s.(queue := s.queue + [j], enqueued := s.enqueued + [j]), ev.thread,
                           Top(s.stacks[ev.thread]).(pc := InvUnlock)))
  {
  }

  lemma CompletedGrows(s: State, ev: Event)
    requires TopOk(s, ev.thread) && Enabled(s, ev)
    ensures var s' := Apply(s, ev);
      || s'.completed == s.completed
      || (&& |s'.completed| == |s.completed| + 1 && s'.completed[..|s.completed|] == s.completed
          && var c := s'.completed[|s.completed|];
          && c.job < |s'.jobs| && CompletedOk(c, s'.jobs[c.job], c.job in s'.enqueued))
  {
  }

  lemma StepKeepsResults(s: State, ev: Event)
    requires TopOk(s, ev.thread) && Enabled(s, ev) && ResultsOk(s)
    ensures ResultsOk(Apply(s, ev))
  {
    var s' := Apply(s, ev);
    JobFootprint(s, ev);
    EnqueuedGrows(s, ev);
    CompletedGrows(s, ev);
    forall i | 0 <= i < |s.completed|
      ensures s'.completed[i].job < |s'.jobs|
      ensures CompletedOk(s'.completed[i], s'.jobs[s'.completed[i].job], s'.completed[i].job in s'.enqueued)
    {
      var j := s.completed[i].job;
      assert s'.completed[i] == s.completed[i];
      assert CompletedOk(s.completed[i], s.jobs[j], j in s.enqueued);
      if j in Touches(s, ev.thread) {
        TouchedAlive(s, ev.thread, j);
        TouchedSteps(s, ev, j);
      }
    }
  }

  /** How a step changes the stepping thread's own stack: it drops, replaces or adds the innermost frame. */
  ghost predicate StackStep(s: State, s': State, t: ThreadId)
    requires t < |s.stacks| && t < |s'.stacks|
  {
    Popped(s, s', t) || Replaced(s, s', t) || Pushed(s, s', t)
  }

  predicate Popped(s: State, s': State, t: ThreadId)
    requires t < |s.stacks| && t < |s'.stacks|
  {
    var st := s.stacks[t];
    && st != [] && s'.stacks[t] == Pop(st)
    && (Top(st).Invoke? && Top(st).job < |s'.jobs| ==>
          var job := s'.jobs[Top(st).job];
          if job.synchronous then !job.Alive() else Top(st).job in s'.enqueued)
  }

  ghost predicate Replaced(s: State, s': State, t: ThreadId)
    requires t < |s.stacks| && t < |s'.stacks|
  {
    var st, st' := s.stacks[t], s'.stacks[t];
    && st != [] && st' != [] && st' == SetTop(st, Top(st'))
    && Top(st').Invoke? == Top(st).Invoke? && (Top(st).Invoke? ==> Top(st').job == Top(st).job)
    && (Top(st').Handler? ==> t == MAIN && |st'| == 1)
    && NewTopOk(s', t)
  }

  ghost predicate Pushed(s: State, s': State, t: ThreadId)
    requires t < |s.stacks| && t < |s'.stacks|
  {
    var st, st' := s.stacks[t], s'.stacks[t];
    && st' != [] && st' == st + [Top(st')] && (st != [] ==> t == MAIN && Top(st).Calling())
    && (Top(st').Handler? ==> t == MAIN && st == [] && s'.jobs == s.jobs)
    && (Top(st').Invoke? ==> Top(st').job == |s.jobs| && |s'.jobs| == |s.jobs| + 1)
    && NewTopOk(s', t)
  }

  ghost predicate NewTopOk(s: State, t: ThreadId)
    requires t < |s.stacks| && s.stacks[t] != []
  {
    var f := Top(s.stacks[t]);
    f.Invoke? ==>
      && f.job < |s.jobs|
      && InvokeOk(s.platform, t, f, s.jobs[f.job], f.job in s.enqueued)
  }

  lemma InvokeStackSteps(s: State, t: ThreadId)
    requires TopOk(s, t) && Enabled(s, Event(t, Continue)) && Top(s.stacks[t]).Invoke?
    ensures var s' := StepInvoke(s, t, Top(s.stacks[t])); |s'.stacks| == |s.stacks| && StackStep(s, s', t)
  {
    var s', f := StepInvoke(s, t, Top(s.stacks[t])), Top(s.stacks[t]);
    if !(f.pc.InvCheck? && !f.synchronous) && !f.pc.InvDelete? {
      assert s'.stacks[t] == SetTop(s.stacks[t], Top(s'.stacks[t]));
    }
  }

  lemma HandlerStackSteps(s: State, t: ThreadId)
    requires TopOk(s, t) && Enabled(s, Event(t, Continue)) && Top(s.stacks[t]).Handler?
    ensures var s' := StepHandler(s, t, Top(s.stacks[t])); |s'.stacks| == |s.stacks| && StackStep(s, s', t)
  {
  }

  lemma OwnStackSteps(s: State, ev: Event)
    requires TopOk(s, ev.thread) && Enabled(s, ev) && (forall i :: 0 <= i < |s.enqueued| ==> s.enqueued[i] < |s.jobs|)
    ensures |Apply(s, ev).stacks| == |s.stacks| && StackStep(s, Apply(s, ev), ev.thread)
  {
    var t, s' := ev.thread, Apply(s, ev);
    match ev.action
    case Continue =>
      if Top(s.stacks[t]).Invoke? {
        InvokeStackSteps(s, t);
      } else {
        HandlerStackSteps(s, t);
      }
    case BeginInvoke(_, _) =>
      assert s'.stacks[t] == s.stacks[t] + [Top(s'.stacks[t])];
    case _ =>
  }

  /** A step of thread `ev.thread` does not disturb any other activation. */
  lemma OtherFrameStays(s: State, ev: Event, t: ThreadId, d: nat)
    requires TopOk(s, ev.thread) && Enabled(s, ev) && FramesOk(s) && t < |s.stacks| && d < |s.stacks[t]|
    requires s.stacks[t][d].Invoke? && (t == ev.thread ==> d < |s.stacks[t]| - 1 || ev.action.BeginInvoke?)
    ensures var s' := Apply(s, ev); var f := s.stacks[t][d];
      f.job < |s'.jobs| && InvokeOk(s'.platform, t, f, s'.jobs[f.job], f.job in s'.enqueued)
  {
    var s', f := Apply(s, ev), s.stacks[t][d];
    assert InvokeOk(s.platform, t, f, s.jobs[f.job], f.job in s.enqueued);
    JobFootprint(s, ev);
    StackFootprint(s, ev);
    EnqueuedGrows(s, ev);
    if !ev.action.BeginInvoke? && s.stacks[ev.thread] != [] && Top(s.stacks[ev.thread]).Invoke? {
      assert f.job != Top(s.stacks[ev.thread]).job;
    }
  }

  /** The frames of `s` that a step of `t` leaves in place are still fine in `s'`. */
  ghost predicate OtherFramesOk(s: State, s': State, t: ThreadId)
    requires OthersSame(s, s', t)
  {
    forall u, d | 0 <= u < |s.stacks| && 0 <= d < |s.stacks[u]| ::
      s.stacks[u][d].Invoke? && (u == t ==> d < |s.stacks[u]| - 1 || |s'.stacks[t]| > |s.stacks[t]|) ==>
        && s.stacks[u][d].job < |s'.jobs|
        && InvokeOk(s'.platform, u, s.stacks[u][d], s'.jobs[s.stacks[u][d].job], s.stacks[u][d].job in s'.enqueued)
  }

  lemma FramesAssemble(s: State, s': State, t: ThreadId)
    requires FramesOk(s) && OthersSame(s, s', t) && StackStep(s, s', t) && OtherFramesOk(s, s', t)
    ensures FramesOk(s')
  {
    forall u, d | 0 <= u < |s'.stacks| && 0 <= d < |s'.stacks[u]|
      ensures s'.stacks[u][d].Invoke? ==>
        && s'.stacks[u][d].job < |s'.jobs|
        && InvokeOk(s'.platform, u, s'.stacks[u][d], s'.jobs[s'.stacks[u][d].job], s'.stacks[u][d].job in s'.enqueued)
      ensures ShapeOk(u, d, |s'.stacks[u]|, s'.stacks[u][d])
    {
      if d < |s.stacks[u]| {
        assert ShapeOk(u, d, |s.stacks[u]|, s.stacks[u][d]);
      }
      if u == t && d == |s'.stacks[u]| - 1 && !Popped(s, s', t) {
        assert NewTopOk(s', t) && s'.stacks[u][d] == Top(s'.stacks[t]);
      } else if u == t && d == |s.stacks[u]| - 1 {
        assert Pushed(s, s', t) && s'.stacks[u][d] == Top(s.stacks[t]);
      } else {
        assert s'.stacks[u][d] == s.stacks[u][d];
      }
    }
    forall u, d, e | 0 <= u < |s'.stacks| && 0 <= d < e < |s'.stacks[u]|
      ensures s'.stacks[u][d].Invoke? && s'.stacks[u][e].Invoke? ==> s'.stacks[u][d].job != s'.stacks[u][e].job
    {
      assert s'.stacks[u][d] == s.stacks[u][d];
    }
  }

  lemma StepKeepsFrames(s: State, ev: Event)
    requires TopOk(s, ev.thread) && Enabled(s, ev) && FramesOk(s)
    requires forall i :: 0 <= i < |s.enqueued| ==> s.enqueued[i] < |s.jobs|
    ensures FramesOk(Apply(s, ev))
  {
    var s', t := Apply(s, ev), ev.thread;
    OwnStackSteps(s, ev);
    StackFootprint(s, ev);
    forall u, d | 0 <= u < |s.stacks| && 0 <= d < |s.stacks[u]| && s.stacks[u][d].Invoke?
                  && (u == t ==> d < |s.stacks[u]| - 1 || |s'.stacks[t]| > |s.stacks[t]|)
      ensures s.stacks[u][d].job < |s'.jobs|
      ensures InvokeOk(s'.platform, u, s.stacks[u][d], s'.jobs[s.stacks[u][d].job], s.stacks[u][d].job in s'.enqueued)
    {
      OtherFrameStays(s, ev, u, d);
    }
    FramesAssemble(s, s', t);
  }

  /** A live job keeps its owner's frame: the frame that goes away has deleted or handed over its job. */
  lemma OwnerStays(s: State, s': State, t: ThreadId, j: JobId)
    requires OthersSame(s, s', t) && StackStep(s, s', t)
    requires j < |s.jobs| && j < |s'.jobs| && s'.jobs[j].creator == s.jobs[j].creator && HasFrame(s, j)
    requires s'.jobs[j].Alive() && (s'.jobs[j].synchronous || j !in s'.enqueued)
    ensures HasFrame(s', j)
  {
    var u := s.jobs[j].creator;
    var d :| u < |s.stacks| && 0 <= d < |s.stacks[u]| && s.stacks[u][d].Invoke? && s.stacks[u][d].job == j;
    assert s'.stacks[u][d].Invoke? && s'.stacks[u][d].job == j;
  }

  lemma WasOwned(s: State, ev: Event, j: JobId)
    requires TopOk(s, ev.thread) && Enabled(s, ev) && OwnedOk(s)
    requires forall i :: 0 <= i < |s.enqueued| ==> s.enqueued[i] < |s.jobs|
    requires j < |s.jobs| && |s.jobs| <= |Apply(s, ev).jobs|
    requires var s' := Apply(s, ev); s'.jobs[j].Alive() && (s'.jobs[j].synchronous || j !in s'.enqueued)
    ensures HasFrame(s, j) && Apply(s, ev).jobs[j].creator == s.jobs[j].creator
  {
    JobsStep(s, ev, j);
    JobFootprint(s, ev);
  }

  lemma StepKeepsOwned(s: State, ev: Event)
    requires TopOk(s, ev.thread) && Enabled(s, ev) && OwnedOk(s)
    requires forall i :: 0 <= i < |s.enqueued| ==> s.enqueued[i] < |s.jobs|
    ensures OwnedOk(Apply(s, ev))
  {
    var s', t := Apply(s, ev), ev.thread;
    OwnStackSteps(s, ev);
    StackFootprint(s, ev);
    JobFootprint(s, ev);
    forall j | 0 <= j < |s'.jobs| && s'.jobs[j].Alive() && (s'.jobs[j].synchronous || j !in s'.enqueued)
      ensures HasFrame(s', j)
    {
      if j < |s.jobs| {
        WasOwned(s, ev, j);
        OwnerStays(s, s', t, j);
      } else {
        NewJobHasFrame(s, ev);
      }
    }
  }

  lemma NewJobHasFrame(s: State, ev: Event)
    requires Enabled(s, ev) && |Apply(s, ev).jobs| > |s.jobs|
    ensures |Apply(s, ev).jobs| == |s.jobs| + 1 && HasFrame(Apply(s, ev), |s.jobs|)
  {
    var s', j := Apply(s, ev), |s.jobs|;
    assert s'.jobs[j].creator == ev.thread;
    var f := s'.stacks[ev.thread][|s.stacks[ev.thread]|];
    assert f.Invoke? && f.job == j;
  }

  lemma JobsStep(s: State, ev: Event, j: JobId)
    requires TopOk(s, ev.thread) && Enabled(s, ev) && j < |s.jobs|
    ensures var s' := Apply(s, ev); j < |s'.jobs| && JobStep(s.jobs[j], s'.jobs[j]) && s.enqueued <= s'.enqueued
  {
    JobFootprint(s, ev);
    EnqueuedGrows(s, ev);
    if j in Touches(s, ev.thread) {
      TouchedSteps(s, ev, j);
    }
  }

  lemma StepKeepsWakeup(s: State, ev: Event)
    requires TopOk(s, ev.thread) && Enabled(s, ev) && WakeupOk(s)
    ensures WakeupOk(Apply(s, ev))
  {
    var s', own := Apply(s, ev), ev.thread;
    StackFootprint(s, ev);
    EnqueuedGrows(s, ev);
    if s'.platform.Win32? && s'.queue != [] {
      if s'.enqueued == s.enqueued {
        if t :| 0 <= t < |s.stacks| && s.stacks[t] != [] && BeforePost(Top(s.stacks[t])) {
          assert t != own ==> s'.stacks[t] == s.stacks[t];
          assert s'.tickles > 0 || BeforePost(Top(s'.stacks[t]));
        }
      } else {
        assert BeforePost(Top(s'.stacks[own]));
      }
    }
  }

  /** The main thread's handler takes its next step (as opposed to any other step in the system). */
  predicate HandlerMoves(s: State, ev: Event)
    requires Enabled(s, ev)
  {
    ev.action.BeginHandler? ||
    ((ev.action.Continue? || ev.action.FinishCall?) && Top(s.stacks[ev.thread]).Handler?)
  }

  lemma HandlerFrameStays(s: State, ev: Event)
    requires TopOk(s, ev.thread) && Enabled(s, ev) && !HandlerMoves(s, ev)
    ensures var s' := Apply(s, ev); HandlerFrame(s') == HandlerFrame(s) && s'.handled == s.handled
  {
  }

  /** The handler either swaps the queue out, or starts its first pending job, or moves no job. */
  lemma HandlerMovesQueue(s: State, ev: Event)
    requires TopOk(s, ev.thread) && Enabled(s, ev) && HandlerMoves(s, ev)
    ensures var s' := Apply(s, ev);
      && s'.enqueued == s.enqueued && |s'.jobs| == |s.jobs|
      && ((s'.handled == s.handled && Pending(s') == Pending(s) && s'.queue == s.queue)
          || (s'.handled == s.handled && Pending(s) == [] && Pending(s') == s.queue && s'.queue == [])
          || (Pending(s) != [] && s'.handled == s.handled + [Pending(s)[0]]
              && Pending(s') == Pending(s)[1..] && s'.queue == s.queue))
  {
  }

  lemma HeadMoves(handled: seq<JobId>, pending: seq<JobId>)
    requires pending != []
    ensures handled + [pending[0]] + pending[1..] == handled + pending
  {
    assert pending == [pending[0]] + pending[1..];
  }

  lemma HandlerMoveKeepsOrder(s: State, ev: Event)
    requires TopOk(s, ev.thread) && Enabled(s, ev) && OrderOk(s) && HandlerMoves(s, ev)
    ensures OrderOk(Apply(s, ev))
  {
    HandlerMovesQueue(s, ev);
    if Pending(s) != [] {
      HeadMoves(s.handled, Pending(s));
    }
  }

  lemma StepKeepsOrder(s: State, ev: Event)
    requires TopOk(s, ev.thread) && Enabled(s, ev) && OrderOk(s)
    ensures OrderOk(Apply(s, ev))
  {
    if HandlerMoves(s, ev) {
      HandlerMoveKeepsOrder(s, ev);
    } else {
      HandlerFrameStays(s, ev);
      EnqueuedGrows(s, ev);
      QueueStays(s, ev);
    }
  }

  lemma QueueStays(s: State, ev: Event)
    requires Enabled(s, ev) && !HandlerMoves(s, ev)
    ensures var s' := Apply(s, ev);
      |s'.jobs| >= |s.jobs| && (s'.enqueued == s.enqueued ==> s'.queue == s.queue)
  {
  }

  /** The handler's step that takes up the next job of its batch. */
  predicate HandlerStarts(s: State, ev: Event)
    requires Enabled(s, ev)
  {
    ev.action.Continue? && Top(s.stacks[ev.thread]).Handler? && Top(s.stacks[ev.thread]).hpc.HNext?
  }

  lemma StartKeepsHandler(s: State, ev: Event)
    requires TopOk(s, ev.thread) && Enabled(s, ev) && HandlerStarts(s, ev)
    ensures HandlerOk(Apply(s, ev))
  {
  }

  lemma HandlerMoveKeepsHandler(s: State, ev: Event)
    requires TopOk(s, ev.thread) && Enabled(s, ev) && HandlerMoves(s, ev) && !HandlerStarts(s, ev)
    requires Working(s) ==> JobOk(JobAt(s, Current(HandlerFrame(s).value)))
    ensures HandlerOk(Apply(s, ev))
  {
  }

  /** No step of anyone else disturbs the job the handler is executing... */
  lemma CurrentUndisturbed(s: State, ev: Event, j: JobId)
    requires TopOk(s, ev.thread) && Enabled(s, ev) && !HandlerMoves(s, ev)
    requires j < |s.jobs| && JobOk(s.jobs[j]) && j in s.enqueued && s.jobs[j].signals == 0
    ensures j < |Apply(s, ev).jobs| && Apply(s, ev).jobs[j] == s.jobs[j]
  {
    JobFootprint(s, ev);
  }

  lemma StepKeepsHandler(s: State, ev: Event)
    requires TopOk(s, ev.thread) && Enabled(s, ev) && HandlerOk(s) && OrderOk(s)
    requires forall j :: 0 <= j < |s.jobs| ==> JobOk(s.jobs[j])
    ensures HandlerOk(Apply(s, ev))
  {
    if HandlerStarts(s, ev) {
      StartKeepsHandler(s, ev);
    } else if HandlerMoves(s, ev) {
      HandlerMoveKeepsHandler(s, ev);
    } else {
      HandlerFrameStays(s, ev);
      if Working(s) {
        var j := Current(HandlerFrame(s).value);
        assert s.enqueued[|s.handled| - 1] == j;
        JobsStep(s, ev, j);
        if s.jobs[j].signals == 0 {
          CurrentUndisturbed(s, ev, j);
        }
      }
    }
  }

  /** ... nor a job that waits in the queue. */
  lemma FreshUndisturbed(s: State, ev: Event, i: nat)
    requires TopOk(s, ev.thread) && Enabled(s, ev) && QueuedOk(s) && OrderOk(s) && HandlerOk(s)
    requires |s.handled| <= i < |s.enqueued|
    requires HandlerMoves(s, ev) && Apply(s, ev).handled != s.handled ==> i > |s.handled|
    ensures var j := s.enqueued[i];
      j < |s.jobs| && j < |Apply(s, ev).jobs| && Apply(s, ev).jobs[j] == s.jobs[j] && Fresh(s.jobs[j])
  {
    var j := s.enqueued[i];
    JobFootprint(s, ev);
  }

  lemma DoneStays(job: Job, job': Job)
    requires Done(job) && JobStep(job, job')
    ensures Done(job')
  {
  }

  /** When the handler has finished with a job, the job is done. */
  lemma HandlerFinishes(s: State, ev: Event)
    requires TopOk(s, ev.thread) && Enabled(s, ev) && HandlerMoves(s, ev) && OrderOk(s)
    requires Working(s) && !Working(Apply(s, ev)) && s.handled != []
    ensures var s' := Apply(s, ev); var j := s.enqueued[|s.handled| - 1];
      s'.handled == s.handled && s'.enqueued == s.enqueued && j < |s'.jobs| && Done(s'.jobs[j])
  {
    assert s.enqueued[|s.handled| - 1] == s.handled[|s.handled| - 1];
  }

  lemma HandledGrows(s: State, ev: Event)
    requires TopOk(s, ev.thread) && Enabled(s, ev)
    ensures var s' := Apply(s, ev);
      s'.handled == s.handled ||
      (HandlerMoves(s, ev) && |s'.handled| == |s.handled| + 1 && Working(s') && !Working(s))
  {
  }

  /** The i-th push after a step: waiting, being executed, or done. */
  lemma QueuedStays(s: State, ev: Event, i: nat)
    requires TopOk(s, ev.thread) && Enabled(s, ev) && QueuedOk(s) && OrderOk(s) && HandlerOk(s) && i < |s.enqueued|
    requires var s' := Apply(s, ev);
      s'.handled == s.handled || (HandlerMoves(s, ev) && |s'.handled| == |s.handled| + 1 && Working(s') && !Working(s))
    ensures var s' := Apply(s, ev); var j := s.enqueued[i];
      && j < |s.jobs| && j < |s'.jobs| && JobStep(s.jobs[j], s'.jobs[j])
      && (i >= |s'.handled| ==> Fresh(s'.jobs[j]))
      && (i < |s'.handled| && (i == |s'.handled| - 1 ==> !Working(s')) ==> Done(s'.jobs[j]))
  {
    var s', j := Apply(s, ev), s.enqueued[i];
    JobsStep(s, ev, j);
    if i >= |s'.handled| {
      FreshUndisturbed(s, ev, i);
    } else if i == |s'.handled| - 1 && !Working(s') && Working(s) {
      if HandlerMoves(s, ev) {
        HandlerFinishes(s, ev);
      } else {
        HandlerFrameStays(s, ev);
      }
    } else if i == |s'.handled| - 1 ==> !Working(s') {
      assert Done(s.jobs[j]);
      DoneStays(s.jobs[j], s'.jobs[j]);
    }
  }

  lemma StepKeepsQueued(s: State, ev: Event)
    requires TopOk(s, ev.thread) && Enabled(s, ev) && QueuedOk(s) && OrderOk(s) && HandlerOk(s)
    ensures QueuedOk(Apply(s, ev))
  {
    var s' := Apply(s, ev);
    EnqueuedGrows(s, ev);
    HandledGrows(s, ev);
    forall i | 0 <= i < |s.enqueued|
      ensures s'.enqueued[i] == s.enqueued[i] && s'.enqueued[i] < |s'.jobs|
      ensures !InPlace(s'.jobs[s'.enqueued[i]])
      ensures i >= |s'.handled| ==> Fresh(s'.jobs[s'.enqueued[i]])
      ensures i < |s'.handled| && (i == |s'.handled| - 1 ==> !Working(s')) ==> Done(s'.jobs[s'.enqueued[i]])
    {
      QueuedStays(s, ev, i);
    }
  }

  /** Every step of every thread keeps the invariant. */
  lemma StepKeepsInv(s: State, ev: Event)
    requires Inv(s) && Enabled(s, ev)
    ensures Inv(Apply(s, ev))
  {
    TopFacts(s, ev.thread);
    StepKeepsFrames(s, ev);
    StepKeepsMutex(s, ev);
    StepKeepsHandler(s, ev);
    StepKeepsOrder(s, ev);
    StepKeepsQueued(s, ev);
    StepKeepsOwned(s, ev);
    StepKeepsResults(s, ev);
    StepKeepsWakeup(s, ev);
    StepKeepsJobs(s, ev);
  }
}
