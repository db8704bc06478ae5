/**
 The main-thread invocation protocol: any number of threads hand method calls to the
 main thread through a mutex-protected job queue.

 The protocol is a step relation.  A state holds one call stack per thread; a frame is an
 activation of InvokeMethodOnMainThread or of the queue handler, stopped at one of the
 points where another thread may run.  The Linux and the Win32 host share the protocol;
 Win32 additionally posts a tickle message after every call and runs its handler only
 when it has taken such a message.
 */
module MainThreadJobs {
  import opened Wrappers

  type ThreadId = nat
  type JobId = nat
  type Value = int
  type MethodId = int

  const MAIN: ThreadId := 0

  datatype Platform = Linux | Win32

  /** What calling a bound method does: a value, a null reference, or a thrown exception, which may hold no value: a
      caller of InvokeMethodOnMainThread whose method returned a null reference gets such an exception. */
  datatype CallOutcome = Value(v: Value) | NullReference | Exception(e: Option<Value>) {
    /** Neither a value nor an exception value. */
    predicate Empty() { NullReference? || (Exception? && e.None?) }
  }

  /** What a caller of InvokeMethodOnMainThread observes. */
  datatype InvokeResult = ReturnUndefined | ReturnValue(v: Value) | Throw(e: Option<Value>)

  /** The C++ job object.  The fields from `creator` on are history: they record what
      happened to the object and are read by no step. */
  datatype Job = Job(
    callee: MethodId, synchronous: bool,
    returnValue: Option<Value>, exception: Option<Value>, semaphore: nat,
    creator: ThreadId, started: nat, outcome: Option<CallOutcome>, signals: nat,
    deletions: nat, deletedBy: Option<ThreadId>)
  {
    predicate Alive() { deletions == 0 }

    /** Neither a value nor an exception value: PrintException dereferences a null value. */
    predicate Unprintable() { returnValue.None? && exception.None? }
  }

  function NewJob(callee: MethodId, synchronous: bool, creator: ThreadId): Job {
    Job(callee, synchronous, None, None, 0, creator, 0, None, 0, 0, None)
  }

  function Start(job: Job): Job { job.(started := job.started + 1) }

  /** The try/catch of Execute. */
  function Finish(job: Job, outcome: CallOutcome): Job {
    match outcome
    case Value(v) => job.(returnValue := Some(v), outcome := Some(outcome))
    case NullReference => job.(returnValue := None, outcome := Some(outcome))
    case Exception(e) => job.(exception := e, outcome := Some(outcome))
  }

  /** The tail of Execute: only a synchronous job sets its semaphore. */
  function Signal(job: Job): Job {
    if job.synchronous then job.(semaphore := job.semaphore + 1, signals := job.signals + 1) else job
  }

  function Delete(job: Job, t: ThreadId): Job {
    job.(deletions := job.deletions + 1, deletedBy := Some(t))
  }

  datatype InvokePc =
    | InvLock | InvPush | InvUnlock   // enqueue under the mutex
    | InvCall | InvSignal             // Execute in place, on the main thread
    | InvPost                         // Win32: post the tickle message
    | InvCheck                        // if (!synchronous) return
    | InvWait | InvRead | InvDelete   // Wait, GetResult/GetException, delete

  datatype HandlerPc =
    | HLock | HSwap | HUnlock         // take the queue under the mutex
    | HNext | HCall | HSignal         // read IsSynchronous, Execute
    | HPrint | HCleanup               // if (asynchronous): PrintException, delete
    | HFailed                         // PrintException has left the handler by an exception

  datatype Frame =
    | Invoke(job: JobId, callee: MethodId, synchronous: bool, pc: InvokePc,
             result: Option<Value>, exception: Option<Value>)
    | Handler(batch: seq<JobId>, next: nat, asynchronous: bool, hpc: HandlerPc)
  {
    predicate Calling() { (Invoke? && pc.InvCall?) || (Handler? && hpc.HCall?) }

    predicate Locked() {
      (Invoke? && (pc.InvPush? || pc.InvUnlock?)) || (Handler? && (hpc.HSwap? || hpc.HUnlock?))
    }
  }

  type Stack = seq<Frame>

  /** One finished call of InvokeMethodOnMainThread. */
  datatype Completed = Completed(
    thread: ThreadId, job: JobId, callee: MethodId, synchronous: bool, result: InvokeResult)

  /** `enqueued`, `handled` and `completed` are history. */
  datatype State = State(
    platform: Platform, stacks: seq<Stack>, mutex: Option<ThreadId>, queue: seq<JobId>,
    jobs: seq<Job>, tickles: nat,
    enqueued: seq<JobId>, handled: seq<JobId>, completed: seq<Completed>)

  datatype Action =
    | BeginInvoke(callee: MethodId, synchronous: bool)  // some code on the thread calls InvokeMethodOnMainThread
    | BeginHandler                                      // timer fires / tickle message is taken
    | FinishCall(outcome: CallOutcome)                  // the running method returns or throws
    | Continue                                          // the next statement of the innermost frame

  datatype Event = Event(thread: ThreadId, action: Action)

  predicate Init(s: State) {
    && |s.stacks| > 0
    && (forall t :: 0 <= t < |s.stacks| ==> s.stacks[t] == [])
    && s == State(s.platform, s.stacks, None, [], [], 0, [], [], [])
  }

  // ---------------------------------------------------------------- steps

  function Top(st: Stack): Frame
    requires st != []
  {
    st[|st| - 1]
  }

  function SetTop(st: Stack, f: Frame): Stack
    requires st != []
  {
    st[|st| - 1 := f]
  }

  function Pop(st: Stack): Stack
    requires st != []
  {
    st[..|st| - 1]
  }

  /** A dangling id reads as an already deleted job. */
  function JobAt(s: State, j: JobId): Job {
    if j < |s.jobs| then s.jobs[j] else Delete(NewJob(0, false, 0), 0)
  }

  function SetJob(jobs: seq<Job>, j: JobId, job: Job): seq<Job> {
    if j < |jobs| then jobs[j := job] else jobs
  }

  /** The job the handler is working on. */
  function Current(f: Frame): JobId
    requires f.Handler?
  {
    if 0 < f.next <= |f.batch| then f.batch[f.next - 1] else 0
  }

  predicate Enabled(s: State, ev: Event) {
    ev.thread < |s.stacks| &&
    var st := s.stacks[ev.thread];
    match ev.action
    case BeginInvoke(_, _) => st == [] || Top(st).Calling()
    case BeginHandler => ev.thread == MAIN && st == [] && (s.platform.Win32? ==> s.tickles > 0)
    case FinishCall(_) => st != [] && Top(st).Calling()
    case Continue =>
      && st != []
      && var f := Top(st);
      && !f.Calling() && !(f.Handler? && f.hpc.HFailed?)
      && ((f.Invoke? && f.pc.InvLock?) || (f.Handler? && f.hpc.HLock?) ==> s.mutex.None?)
      && (f.Invoke? && f.pc.InvWait? ==> JobAt(s, f.job).semaphore > 0)
  }

  function WithTop(s: State, t: ThreadId, f: Frame): State
    requires t < |s.stacks| && s.stacks[t] != []
  {
    s.(stacks := s.stacks[t := SetTop(s.stacks[t], f)])
  }

  function Return(s: State, t: ThreadId, f: Frame, result: InvokeResult): State
    requires t < |s.stacks| && s.stacks[t] != [] && f.Invoke?
  {
    s.(stacks := s.stacks[t := Pop(s.stacks[t])],
       completed := s.completed + [Completed(t, f.job, f.callee, f.synchronous, result)])
  }

  function Begin(s: State, t: ThreadId, callee: MethodId, synchronous: bool): State
    requires t < |s.stacks|
  {
    var inPlace := t == MAIN && synchronous;
    var job := NewJob(callee, synchronous, t);
    var f := Invoke(|s.jobs|, callee, synchronous, if inPlace then InvCall else InvLock, None, None);
    s.(jobs := s.jobs + [if inPlace then Start(job) else job],
       stacks := s.stacks[t := s.stacks[t] + [f]])
  }

  function AfterEnqueue(platform: Platform): InvokePc {
    if platform.Win32? then InvPost else InvCheck
  }

  function StepInvoke(s: State, t: ThreadId, f: Frame): State
    requires t < |s.stacks| && s.stacks[t] != [] && f.Invoke?
  {
    match f.pc
    case InvLock => WithTop(s.(mutex := Some(t)), t, f.(pc := InvPush))
    case InvPush =>
      WithTop(s.(queue := s.queue + [f.job], enqueued := s.enqueued + [f.job]), t, f.(pc := InvUnlock))
    case InvUnlock => WithTop(s.(mutex := None), t, f.(pc := AfterEnqueue(s.platform)))
    case InvCall => s
    case InvSignal =>
      WithTop(s.(jobs := SetJob(s.jobs, f.job, Signal(JobAt(s, f.job)))), t, f.(pc := AfterEnqueue(s.platform)))
    case InvPost => WithTop(s.(tickles := s.tickles + 1), t, f.(pc := InvCheck))
    case InvCheck =>
      if f.synchronous then WithTop(s, t, f.(pc := InvWait)) else Return(s, t, f, ReturnUndefined)
    case InvWait =>
      var job := JobAt(s, f.job);
      WithTop(s.(jobs := SetJob(s.jobs, f.job, job.(semaphore := if job.semaphore > 0 then job.semaphore - 1 else 0))),
              t, f.(pc := InvRead))
    case InvRead =>
      var job := JobAt(s, f.job);
      WithTop(s, t, f.(pc := InvDelete, result := job.returnValue, exception := job.exception))
    case InvDelete =>
      var s' := s.(jobs := SetJob(s.jobs, f.job, Delete(JobAt(s, f.job), t)));
      Return(s', t, f, if f.result.Some? then ReturnValue(f.result.value) else Throw(f.exception))
  }

  function StepHandler(s: State, t: ThreadId, f: Frame): State
    requires t < |s.stacks| && s.stacks[t] != [] && f.Handler?
  {
    match f.hpc
    case HLock => WithTop(s.(mutex := Some(t)), t, f.(hpc := HSwap))
    case HSwap => WithTop(s.(queue := []), t, f.(batch := s.queue, next := 0, hpc := HUnlock))
    case HUnlock => WithTop(s.(mutex := None), t, f.(hpc := HNext))
    case HNext =>
      if f.next < |f.batch| then
        var j := f.batch[f.next];
        WithTop(s.(jobs := SetJob(s.jobs, j, Start(JobAt(s, j))), handled := s.handled + [j]), t,
                f.(next := f.next + 1, asynchronous := !JobAt(s, j).synchronous, hpc := HCall))
      else
        s.(stacks := s.stacks[t := Pop(s.stacks[t])])
    case HCall => s
    case HSignal =>
      WithTop(s.(jobs := SetJob(s.jobs, Current(f), Signal(JobAt(s, Current(f))))), t, f.(hpc := HPrint))
    case HPrint =>
      WithTop(s, t, f.(hpc := if f.asynchronous && JobAt(s, Current(f)).Unprintable() then HFailed else HCleanup))
    case HCleanup =>
      WithTop(if f.asynchronous then s.(jobs := SetJob(s.jobs, Current(f), Delete(JobAt(s, Current(f)), t))) else s,
              t, f.(hpc := HNext))
    case HFailed => s
  }

  function StepFinish(s: State, t: ThreadId, f: Frame, outcome: CallOutcome): State
    requires t < |s.stacks| && s.stacks[t] != []
  {
    match f
    case Invoke(j, _, _, _, _, _) =>
      WithTop(s.(jobs := SetJob(s.jobs, j, Finish(JobAt(s, j), outcome))), t, f.(pc := InvSignal))
    case Handler(_, _, _, _) =>
      WithTop(s.(jobs := SetJob(s.jobs, Current(f), Finish(JobAt(s, Current(f)), outcome))), t, f.(hpc := HSignal))
  }

  function Apply(s: State, ev: Event): State
    requires Enabled(s, ev)
  {
    var t := ev.thread;
    match ev.action
    case BeginInvoke(m, synchronous) => Begin(s, t, m, synchronous)
    case BeginHandler =>
      s.(stacks := s.stacks[t := [Handler([], 0, false, HLock)]],
         tickles := if s.platform.Win32? then s.tickles - 1 else s.tickles)
    case FinishCall(outcome) => StepFinish(s, t, Top(s.stacks[t]), outcome)
    case Continue =>
      var f := Top(s.stacks[t]);
      if f.Invoke? then StepInvoke(s, t, f) else StepHandler(s, t, f)
  }

  /** The jobs whose memory the thread uses in its next step, while it waits, and while a
      method runs inside Execute. */
  function Touches(s: State, t: ThreadId): set<JobId> {
    if t >= |s.stacks| || s.stacks[t] == [] then {} else
    match Top(s.stacks[t])
    case Invoke(j, _, _, pc, _, _) =>
      if pc in {InvCall, InvSignal, InvWait, InvRead, InvDelete} then {j} else {}
    case Handler(batch, next, asynchronous, pc) =>
      if pc.HNext? then (if next < |batch| then {batch[next]} else {})
      else if pc.HCall? || pc.HSignal? || ((pc.HPrint? || pc.HCleanup?) && asynchronous) then {Current(Top(s.stacks[t]))}
      else {}
  }

  /** A schedule is an interleaving: any thread may take the next step it can take. */
  ghost predicate Valid(s: State, schedule: seq<Event>)
    decreases |schedule|
  {
    schedule == [] || (Enabled(s, schedule[0]) && Valid(Apply(s, schedule[0]), schedule[1..]))
  }

  ghost function Run(s: State, schedule: seq<Event>): State
    requires Valid(s, schedule)
    decreases |schedule|
  {
    if schedule == [] then s else Run(Apply(s, schedule[0]), schedule[1..])
  }
}
