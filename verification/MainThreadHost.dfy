/**
 The same protocol as code: the job object, and the host's two functions as they run on the main thread.
 The state machine gives the interleavings; here every step of the code is tied to its step functions.
 A job may be used only while it has not been deleted.
 */
module MainThreadHost {
  import opened Wrappers
  import opened MainThreadJobs
  import opened MainThreadInvariant

  /** LinuxJob and Win32Job.  The ghost fields record the job's history. */
  class NativeJob {
    const callee: MethodId
    const synchronous: bool
    var returnValue: Option<Value>
    var exception: Option<Value>
    var semaphore: nat
    ghost const creator: ThreadId
    ghost var started: nat
    ghost var outcome: Option<CallOutcome>
    ghost var signals: nat
    ghost var deletions: nat
    ghost var deletedBy: Option<ThreadId>

    ghost function AsJob(): Job
      reads this
    {
      Job(callee, synchronous, returnValue, exception, semaphore, creator, started, outcome, signals, deletions, deletedBy)
    }

    constructor (callee: MethodId, synchronous: bool, ghost creator: ThreadId)
      ensures AsJob() == NewJob(callee, synchronous, creator)
    {
      this.callee, this.synchronous, this.creator := callee, synchronous, creator;
      returnValue, exception, semaphore := None, None, 0;
      started, outcome, signals, deletions, deletedBy := 0, None, 0, 0, None;
    }

    /** `effect` is what the method does when it is called. */
    method Execute(effect: CallOutcome)
      requires AsJob().Alive()
      modifies this
      ensures AsJob() == Signal(Finish(Start(old(AsJob())), effect))
    {
      started, outcome := started + 1, Some(effect);
      match effect {
        case Value(v) => returnValue := Some(v);
        case NullReference => returnValue := None;
        case Exception(e) => exception := e;
      }
      if synchronous {
        semaphore, signals := semaphore + 1, signals + 1;
      }
    }

    /** Returns once the semaphore is set. */
    method Wait()
      requires AsJob().Alive() && (synchronous ==> semaphore > 0)
      modifies this`semaphore
      ensures semaphore == if synchronous then old(semaphore) - 1 else old(semaphore)
    {
      if synchronous {
        semaphore := semaphore - 1;
      }
    }

    method IsSynchronous() returns (r: bool)
      requires AsJob().Alive()
      ensures r == AsJob().synchronous
    {
      r := synchronous;
    }

    method GetResult() returns (r: Option<Value>)
      requires AsJob().Alive()
      ensures r == AsJob().returnValue
    {
      r := returnValue;
    }

    method GetException() returns (r: Option<Value>)
      requires AsJob().Alive()
      ensures r == AsJob().exception
    {
      r := exception;
    }

    /** Returns false where the code dereferences a null value. */
    method PrintException() returns (ok: bool)
      requires AsJob().Alive()
      ensures ok == !AsJob().Unprintable()
    {
      ok := returnValue.Some? || exception.Some?;
    }

    /** The delete expression. */
    ghost method Free(t: ThreadId)
      requires AsJob().Alive()
      modifies this
      ensures AsJob() == Delete(old(AsJob()), t)
    {
      deletions, deletedBy := deletions + 1, Some(t);
    }
  }

  datatype Arrival = Arrival(callee: MethodId, synchronous: bool, thread: ThreadId)

  /** What running a method does: how it ends, and the calls it puts in the queue meanwhile. */
  datatype Effect = Effect(outcome: CallOutcome, posts: seq<Arrival>)

  function Arrivals(effects: nat -> Effect, n: nat): seq<Arrival> {
    if n == 0 then [] else Arrivals(effects, n - 1) + effects(n - 1).posts
  }

  /** A job after Execute. */
  function Executed(job: Job, outcome: CallOutcome): Job { Signal(Finish(Start(job), outcome)) }

  /** Whether the handler fails at a job. */
  predicate Fails(job: Job, outcome: CallOutcome) {
    !job.synchronous && Executed(job, outcome).Unprintable()
  }

  /** A job after the handler is through with it, or has failed at it. */
  function Handled(job: Job, outcome: CallOutcome): Job {
    if job.synchronous || Fails(job, outcome) then Executed(job, outcome) else Delete(Executed(job, outcome), MAIN)
  }

  /** The handler fails exactly at an asynchronous job that ends with neither a value nor an exception value, and then
      leaves the job behind.  Otherwise it
      frees exactly the asynchronous jobs; a synchronous one is left signalled, with its method's result, for its
      caller. */
  lemma HandledIsDone(job: Job, outcome: CallOutcome)
    requires Fresh(job) && job.returnValue.None? && job.exception.None?
    ensures Fails(job, outcome) <==> !job.synchronous && outcome.Empty()
    ensures Done(Handled(job, outcome)) <==> !Fails(job, outcome)
    ensures Handled(job, outcome).started == 1
    ensures Handled(job, outcome).deletions == if job.synchronous || outcome.Empty() then 0 else 1
    ensures job.synchronous ==>
      ReadResult(Handled(job, outcome)) == match outcome
                                           case Value(v) => ReturnValue(v)
                                           case NullReference => Throw(None)
                                           case Exception(e) => Throw(e)
  {
  }

  /** What a caller makes of a finished job. */
  function ReadResult(job: Job): InvokeResult {
    if job.returnValue.Some? then ReturnValue(job.returnValue.value) else Throw(job.exception)
  }

  class Host {
    const platform: Platform
    var jobs: seq<NativeJob>
    var tickles: nat

    constructor (platform: Platform)
      ensures this.platform == platform && jobs == [] && tickles == 0
    {
      this.platform := platform;
      jobs, tickles := [], 0;
    }

    /** The jobs in the queue are different live objects, none of them started. */
    ghost predicate Valid()
      reads this, jobs
    {
      && Distinct(jobs)
      && forall i :: 0 <= i < |jobs| ==> Waiting(jobs[i])
    }

    /** None of these jobs is in the queue. */
    ghost predicate NoneOf(batch: seq<NativeJob>)
      reads this
    {
      forall k :: 0 <= k < |batch| ==> batch[k] !in jobs
    }

    method PostTickle()
      modifies this`tickles
      ensures tickles == old(tickles) + if platform.Win32? then 1 else 0
    {
      if platform.Win32? {
        tickles := tickles + 1;
      }
    }

    /** The part under the mutex. */
    method Enqueue(job: NativeJob)
      requires Valid() && Waiting(job) && job !in jobs
      modifies this`jobs
      ensures Valid() && jobs == old(jobs) + [job]
    {
      jobs := jobs + [job];
    }

    /** InvokeMethodOnMainThread called on the main thread: a synchronous call runs in place, returns what its
        method returned or throws what it threw, and leaves no job; an asynchronous one goes into the queue. */
    method InvokeOnMainThread(callee: MethodId, synchronous: bool, outcome: CallOutcome) returns (r: InvokeResult, ghost job: NativeJob)
      requires Valid()
      modifies this`jobs, this`tickles
      ensures Valid() && fresh(job) && tickles == old(tickles) + if platform.Win32? then 1 else 0
      ensures synchronous ==>
        r == match outcome case Value(v) => ReturnValue(v) case NullReference => Throw(None) case Exception(e) => Throw(e)
      ensures synchronous ==> jobs == old(jobs) && job.AsJob().deletedBy == Some(MAIN)
      ensures synchronous ==> job.deletions == 1 && job.started == 1
      ensures !synchronous ==> r == ReturnUndefined && jobs == old(jobs) + [job]
      ensures !synchronous ==> job.AsJob() == NewJob(callee, false, MAIN)
    {
      var newJob := new NativeJob(callee, synchronous, MAIN);
      job := newJob;
      if synchronous {
        newJob.Execute(outcome);
      } else {
        Enqueue(newJob);
      }
      PostTickle();
      if !synchronous {
        return ReturnUndefined, job;
      }
      newJob.Wait();
      var result := newJob.GetResult();
      var e := newJob.GetException();
      newJob.Free(MAIN);
      r := if result.Some? then ReturnValue(result.value) else Throw(e);
    }

    /** While a method runs, calls arrive in the queue: from the method itself or from other threads. */
    method Receive(calls: seq<Arrival>) returns (ghost added: seq<NativeJob>)
      requires Valid()
      modifies this`jobs
      ensures Valid() && jobs == old(jobs) + added && fresh(added) && AreCalls(added, calls)
    {
      added := [];
      for i := 0 to |calls|
        invariant Valid() && jobs == old(jobs) + added && fresh(added) && AreCalls(added, calls[..i])
      {
        var job := new NativeJob(calls[i].callee, calls[i].synchronous, calls[i].thread);
        Enqueue(job);
        added := added + [job];
      }
      assert calls[..|calls|] == calls;
    }

    /** The body of the handler's loop. */
    method HandleOne(job: NativeJob, effect: Effect) returns (ok: bool, ghost added: seq<NativeJob>)
      requires Valid() && job.AsJob().Alive() && job !in jobs
      modifies this`jobs, job
      ensures ok == !Fails(old(job.AsJob()), effect.outcome)
      ensures job.AsJob() == Handled(old(job.AsJob()), effect.outcome)
      ensures Valid() && jobs == old(jobs) + added && fresh(added) && AreCalls(added, effect.posts)
    {
      // a caller that waits may delete the job as soon as Execute signals it
      var isSynchronous := job.IsSynchronous();
      var asynchronous := !isSynchronous;
      job.Execute(effect.outcome);
      added := Receive(effect.posts);
      ok := true;
      if asynchronous {
        ok := job.PrintException();
        if ok {
          job.Free(MAIN);
        }
      }
    }

    /** main_thread_job_handler and InvokeMethods: the queue is taken as it is, and its jobs are executed once, in
        order, all of them unless the handler fails; what arrives meanwhile is left for the next time.  Returns
        how many jobs were executed, and whether the handler has come to its end. */
    method HandleJobs(effects: nat -> Effect) returns (executed: nat, ok: bool)
      requires Valid()
      modifies this`jobs, jobs
      ensures executed <= |old(jobs)| && (ok ==> executed == |old(jobs)|)
      ensures ok <==> NoneEmpty(old(jobs), effects, |old(jobs)|)
      ensures !ok ==> executed > 0 && NoneEmpty(old(jobs), effects, executed - 1)
      ensures !ok ==> IsEmpty(old(jobs)[executed - 1], effects(executed - 1))
      ensures Partly(old(jobs), old(Values(jobs)), effects, executed)
      ensures Valid() && NoneOf(old(jobs)) && AreCalls(jobs, Arrivals(effects, executed))
    {
      var batch := jobs;
      ghost var before := Values(batch);
      FailsIfEmpty(batch, before, effects);
      jobs := [];
      executed, ok := HandleBatch(batch, effects, before);
      SurvivedEmpty(batch, before, effects, executed, ok);
    }

    /** The handler after i jobs of its batch: those are handled and the others not touched, and the queue holds
        what has arrived meanwhile. */
    ghost predicate Handling(batch: seq<NativeJob>, i: nat, effects: nat -> Effect, before: seq<Job>)
      reads this, jobs, batch
    {
      && i <= |batch| && Valid() && NoneOf(batch) && AreCalls(jobs, Arrivals(effects, i))
      && Partly(batch, before, effects, i)
    }

    /** The handler's loop over the jobs it has taken; `before` is what they are now. */
    method HandleBatch(batch: seq<NativeJob>, effects: nat -> Effect, ghost before: seq<Job>)
      returns (executed: nat, ok: bool)
      requires Distinct(batch) && AllAlive(before) && Handling(batch, 0, effects, before)
      modifies this`jobs, batch
      ensures Handling(batch, executed, effects, before)
      ensures ok ==> executed == |batch|
      ensures Survived(before, effects, executed, ok)
    {
      executed, ok := 0, true;
      while ok && executed < |batch|
        invariant Handling(batch, executed, effects, before) && Survived(before, effects, executed, ok)
      {
        ok := HandleNext(batch, executed, effects, before);
        SurvivedNext(before, effects, executed, ok);
        executed := executed + 1;
      }
    }

    method HandleNext(batch: seq<NativeJob>, i: nat, effects: nat -> Effect, ghost before: seq<Job>) returns (ok: bool)
      requires i < |batch| && Distinct(batch) && AllAlive(before) && Handling(batch, i, effects, before)
      modifies this`jobs, batch[i]
      ensures Handling(batch, i + 1, effects, before) && ok == !Fails(before[i], effects(i).outcome)
    {
      assert IsJob(batch[i], before[i]);
      ghost var calls := Arrivals(effects, i);
      ghost var added;
      ok, added := HandleOne(batch[i], effects(i));
      assert AreCalls(jobs, calls + effects(i).posts);
    }
  }

  /** After n jobs the handler goes on if it has failed at none; otherwise the last is the first it failed at. */
  ghost predicate Survived(before: seq<Job>, effects: nat -> Effect, n: nat, ok: bool) {
    if ok then NoFailure(before, effects, n)
    else 0 < n <= |before| && NoFailure(before, effects, n - 1) && Fails(before[n - 1], effects(n - 1).outcome)
  }

  /** An asynchronous job whose method ends with neither a value nor an exception value. */
  predicate IsEmpty(job: NativeJob, effect: Effect) { !job.synchronous && effect.outcome.Empty() }

  ghost predicate NoneEmpty(batch: seq<NativeJob>, effects: nat -> Effect, n: nat)
    requires n <= |batch|
  {
    forall i :: 0 <= i < n ==> !IsEmpty(batch[i], effects(i))
  }

  ghost predicate FailIfEmpty(batch: seq<NativeJob>, before: seq<Job>, effects: nat -> Effect) {
    |before| == |batch| && forall i :: 0 <= i < |batch| ==> (Fails(before[i], effects(i).outcome) <==> IsEmpty(batch[i], effects(i)))
  }

  lemma FailsIfEmpty(batch: seq<NativeJob>, before: seq<Job>, effects: nat -> Effect)
    requires before == Values(batch) && forall i :: 0 <= i < |batch| ==> Waiting(batch[i])
    ensures FailIfEmpty(batch, before, effects) && AllAlive(before)
  {
    forall i | 0 <= i < |batch|
      ensures before[i].Alive() && (Fails(before[i], effects(i).outcome) <==> IsEmpty(batch[i], effects(i)))
    {
      assert Waiting(batch[i]) && IsJob(batch[i], before[i]);
      HandledIsDone(before[i], effects(i).outcome);
    }
  }

  lemma SurvivedEmpty(batch: seq<NativeJob>, before: seq<Job>, effects: nat -> Effect, n: nat, ok: bool)
    requires FailIfEmpty(batch, before, effects) && Survived(before, effects, n, ok)
    requires n <= |batch| && (ok ==> n == |batch|)
    ensures ok <==> NoneEmpty(batch, effects, |batch|)
    ensures !ok ==> n > 0 && NoneEmpty(batch, effects, n - 1) && IsEmpty(batch[n - 1], effects(n - 1))
  {
  }

  /** The jobs as they are now. */
  ghost function Values(batch: seq<NativeJob>): (r: seq<Job>)
    reads batch
    ensures |r| == |batch| && forall i :: 0 <= i < |batch| ==> IsJob(batch[i], r[i])
  {
    seq(|batch|, i requires 0 <= i < |batch| reads batch => batch[i].AsJob())
  }

  lemma SurvivedNext(before: seq<Job>, effects: nat -> Effect, n: nat, ok: bool)
    requires n < |before| && Survived(before, effects, n, true) && ok == !Fails(before[n], effects(n).outcome)
    ensures Survived(before, effects, n + 1, ok)
  {
  }

  /** The handler fails at none of the first n jobs. */
  ghost predicate NoFailure(before: seq<Job>, effects: nat -> Effect, n: nat) {
    forall k :: 0 <= k < n && k < |before| ==> !Fails(before[k], effects(k).outcome)
  }

  ghost predicate AllAlive(jobs: seq<Job>) {
    forall k :: 0 <= k < |jobs| ==> jobs[k].Alive()
  }

  /** The first i jobs have been handled, the others not touched. */
  ghost predicate Partly(batch: seq<NativeJob>, before: seq<Job>, effects: nat -> Effect, i: nat)
    reads batch
  {
    |before| == |batch| && forall k :: 0 <= k < |batch| ==>
      IsJob(batch[k], if k < i then Handled(before[k], effects(k).outcome) else before[k])
  }

  ghost predicate IsJob(job: NativeJob, value: Job)
    reads job
  {
    job.AsJob() == value
  }

  ghost predicate AreCalls(jobs: seq<NativeJob>, calls: seq<Arrival>) {
    |jobs| == |calls| && forall i :: 0 <= i < |jobs| ==> IsCall(jobs[i], calls[i])
  }

  ghost predicate Waiting(job: NativeJob)
    reads job
  {
    Fresh(job.AsJob()) && job.returnValue.None? && job.exception.None?
  }

  ghost predicate IsCall(job: NativeJob, call: Arrival) {
    job.callee == call.callee && job.synchronous == call.synchronous && job.creator == call.thread
  }
}
