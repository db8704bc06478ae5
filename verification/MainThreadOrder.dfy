/** The queue keeps the calls of each thread in the order in which the thread made them. */
module MainThreadOrder {
  import opened Wrappers
  import opened MainThreadJobs
  import opened MainThreadInvariant
  import opened MainThreadTheorems

  /** The thread has made a call and not yet pushed its job. */
  predicate AboutToPush(s: State, t: ThreadId) {
    t < |s.stacks| && s.stacks[t] != [] && Top(s.stacks[t]).Invoke? && Top(s.stacks[t]).pc in {InvLock, InvPush}
  }

  predicate SameThread(s: State, j: JobId, k: JobId) {
    j < |s.jobs| && k < |s.jobs| && s.jobs[j].creator == s.jobs[k].creator
  }

  /** Job ids number the calls in the order they were made; what the thread of job j has pushed was called earlier. */
  ghost predicate PushedEarlier(s: State, j: JobId) {
    forall i :: 0 <= i < |s.enqueued| && SameThread(s, s.enqueued[i], j) ==> s.enqueued[i] < j
  }

  ghost predicate ThreadOrder(s: State) {
    && (forall i, k :: 0 <= i < k < |s.enqueued| && SameThread(s, s.enqueued[i], s.enqueued[k]) ==> s.enqueued[i] < s.enqueued[k])
    && (forall t: ThreadId :: AboutToPush(s, t) ==> PushedEarlier(s, Top(s.stacks[t]).job))
  }

  /** Nothing gets lost: a call that goes through the queue is in it or on its way there. */
  ghost predicate NoGaps(s: State) {
    forall j :: 0 <= j < |s.jobs| && !InPlace(s.jobs[j]) && j !in s.enqueued ==>
      AboutToPush(s, s.jobs[j].creator) && Top(s.stacks[s.jobs[j].creator]).job == j
  }

  /** Where a thread that is about to push comes from. */
  lemma AboutComesFrom(s: State, ev: Event)
    requires TopOk(s, ev.thread) && Enabled(s, ev) && AboutToPush(Apply(s, ev), ev.thread)
    ensures var j := Top(Apply(s, ev).stacks[ev.thread]).job;
      (AboutToPush(s, ev.thread) && Top(s.stacks[ev.thread]).job == j)
      || (|Apply(s, ev).jobs| == |s.jobs| + 1 && j == |s.jobs|)
  {
  }

  /** A thread about to push stays so until it has pushed that job. */
  lemma AboutGoesTo(s: State, ev: Event)
    requires TopOk(s, ev.thread) && Enabled(s, ev) && AboutToPush(s, ev.thread)
    ensures var s', j := Apply(s, ev), Top(s.stacks[ev.thread]).job;
      && |s'.jobs| == |s.jobs|
      && ((AboutToPush(s', ev.thread) && Top(s'.stacks[ev.thread]).job == j) || s'.enqueued == s.enqueued + [j])
  {
  }

  /** Only the thread about to push can extend the queue, and only with its job. */
  lemma PushComesFrom(s: State, ev: Event)
    requires TopOk(s, ev.thread) && Enabled(s, ev)
    ensures var s' := Apply(s, ev);
      || s'.enqueued == s.enqueued
      || (&& AboutToPush(s, ev.thread) && s'.enqueued == s.enqueued + [Top(s.stacks[ev.thread]).job]
          && !AboutToPush(s', ev.thread))
  {
  }

  lemma NewJobOfThread(s: State, ev: Event)
    requires Enabled(s, ev) && |Apply(s, ev).jobs| > |s.jobs|
    ensures var s' := Apply(s, ev);
      && |s'.jobs| == |s.jobs| + 1 && s'.jobs[|s.jobs|].creator == ev.thread && s'.enqueued == s.enqueued
      && ev.action.BeginInvoke? && Call(s'.jobs[|s.jobs|].callee, s'.jobs[|s.jobs|].synchronous) == CallOf(ev.action)
      && (!InPlace(s'.jobs[|s.jobs|]) ==> AboutToPush(s', ev.thread) && Top(s'.stacks[ev.thread]).job == |s.jobs|)
  {
  }

  predicate SameCall(job: Job, job': Job) {
    job'.creator == job.creator && job'.synchronous == job.synchronous && job'.callee == job.callee
  }

  lemma JobsKeepThreads(s: State, ev: Event)
    requires TopOk(s, ev.thread) && Enabled(s, ev)
    ensures var s' := Apply(s, ev);
      && |s.jobs| <= |s'.jobs| && s.enqueued <= s'.enqueued
      && forall j :: 0 <= j < |s.jobs| ==> SameCall(s.jobs[j], s'.jobs[j])
  {
    JobFootprint(s, ev);
    EnqueuedGrows(s, ev);
    forall j | 0 <= j < |s.jobs|
      ensures SameCall(s.jobs[j], Apply(s, ev).jobs[j])
    {
      JobsStep(s, ev, j);
    }
  }

  /** The job a thread is about to push is its own. */
  lemma OwnJob(s: State, t: ThreadId)
    requires Inv(s) && AboutToPush(s, t)
    ensures Top(s.stacks[t]).job < |s.jobs| && s.jobs[Top(s.stacks[t]).job].creator == t
  {
    TopFacts(s, t);
  }

  lemma StepKeepsNoGaps(s: State, ev: Event)
    requires Inv(s) && Enabled(s, ev) && NoGaps(s)
    ensures NoGaps(Apply(s, ev))
  {
    var s' := Apply(s, ev);
    TopFacts(s, ev.thread);
    JobsKeepThreads(s, ev);
    StackFootprint(s, ev);
    PushComesFrom(s, ev);
    forall j | 0 <= j < |s'.jobs| && !InPlace(s'.jobs[j]) && j !in s'.enqueued
      ensures AboutToPush(s', s'.jobs[j].creator) && Top(s'.stacks[s'.jobs[j].creator]).job == j
    {
      if j < |s.jobs| {
        assert AboutToPush(s, s.jobs[j].creator);
        if s.jobs[j].creator == ev.thread {
          AboutGoesTo(s, ev);
        }
      } else {
        NewJobOfThread(s, ev);
      }
    }
  }

  /** What a step of thread t does to calls and queue. */
  ghost predicate Moves(s: State, s': State, t: ThreadId) {
    && OthersSame(s, s', t) && |s.jobs| <= |s'.jobs|
    && (forall j :: 0 <= j < |s.jobs| ==> s'.jobs[j].creator == s.jobs[j].creator)
    && (forall i :: 0 <= i < |s.enqueued| ==> s.enqueued[i] < |s.jobs|)
    && (forall u: ThreadId :: AboutToPush(s, u) ==>
          Top(s.stacks[u]).job < |s.jobs| && s.jobs[Top(s.stacks[u]).job].creator == u)
    && (s'.enqueued == s.enqueued ||
        (AboutToPush(s, t) && !AboutToPush(s', t) && s'.enqueued == s.enqueued + [Top(s.stacks[t]).job]))
    && (AboutToPush(s', t) ==>
          || (AboutToPush(s, t) && Top(s.stacks[t]).job == Top(s'.stacks[t]).job)
          || Top(s'.stacks[t]).job == |s.jobs|)
  }

  lemma StepMoves(s: State, ev: Event)
    requires Inv(s) && Enabled(s, ev)
    ensures Moves(s, Apply(s, ev), ev.thread)
  {
    TopFacts(s, ev.thread);
    JobsKeepThreads(s, ev);
    StackFootprint(s, ev);
    PushComesFrom(s, ev);
    if AboutToPush(Apply(s, ev), ev.thread) {
      AboutComesFrom(s, ev);
    }
    forall u: ThreadId | AboutToPush(s, u)
      ensures Top(s.stacks[u]).job < |s.jobs| && s.jobs[Top(s.stacks[u]).job].creator == u
    {
      OwnJob(s, u);
    }
  }

  lemma MovesKeepPushedEarlier(s: State, s': State, t: ThreadId, u: ThreadId)
    requires Moves(s, s', t) && ThreadOrder(s) && AboutToPush(s', u)
    ensures PushedEarlier(s', Top(s'.stacks[u]).job)
  {
    if u != t {
      assert AboutToPush(s, u);
    }
    if AboutToPush(s, u) {
      assert PushedEarlier(s, Top(s.stacks[u]).job);
    }
  }

  lemma MovesKeepThreadOrder(s: State, s': State, t: ThreadId)
    requires Moves(s, s', t) && ThreadOrder(s)
    ensures ThreadOrder(s')
  {
    if s'.enqueued != s.enqueued {
      assert PushedEarlier(s, Top(s.stacks[t]).job);
    }
    forall u: ThreadId | AboutToPush(s', u)
      ensures PushedEarlier(s', Top(s'.stacks[u]).job)
    {
      MovesKeepPushedEarlier(s, s', t, u);
    }
    forall i, k | 0 <= i < k < |s'.enqueued| && SameThread(s', s'.enqueued[i], s'.enqueued[k])
      ensures s'.enqueued[i] < s'.enqueued[k]
    {
      assert s'.enqueued[i] == s.enqueued[i];
      assert k < |s.enqueued| ==> SameThread(s, s.enqueued[i], s.enqueued[k]);
    }
  }

  lemma {:induction false} RunKeepsOrder(s: State, schedule: seq<Event>)
    requires Inv(s) && Valid(s, schedule) && ThreadOrder(s) && NoGaps(s)
    ensures ThreadOrder(Run(s, schedule)) && NoGaps(Run(s, schedule))
    decreases |schedule|
  {
    if schedule != [] {
      StepKeepsInv(s, schedule[0]);
      StepMoves(s, schedule[0]);
      MovesKeepThreadOrder(s, Apply(s, schedule[0]), schedule[0].thread);
      StepKeepsNoGaps(s, schedule[0]);
      RunKeepsOrder(Apply(s, schedule[0]), schedule[1..]);
    }
  }

  lemma ReachableOrder(s: State)
    requires Reachable(s)
    ensures ThreadOrder(s) && NoGaps(s)
  {
    var s0, schedule :| Init(s0) && Valid(s0, schedule) && Run(s0, schedule) == s;
    InitInv(s0);
    RunKeepsOrder(s0, schedule);
  }

  /** When a queued call is executed, every earlier queued call of the same thread has been executed before it. */
  lemma EarlierCallsFirst(s: State, j: JobId, k: JobId, b: nat) returns (a: nat)
    requires Reachable(s) && j < k && SameThread(s, j, k) && !InPlace(s.jobs[j])
    requires b < |s.handled| && s.handled[b] == k
    ensures a < b && s.handled[a] == j
  {
    ReachableInv(s);
    ReachableOrder(s);
    StartedInPushOrder(s);
    assert s.enqueued[b] == k && SameThread(s, s.enqueued[b], j);
    assert j !in s.enqueued ==> PushedEarlier(s, j);
    a :| 0 <= a < |s.enqueued| && s.enqueued[a] == j;
    assert SameThread(s, s.enqueued[b], s.enqueued[a]);
  }

  // ---------------------------------------------------------------- the calls of one thread

  datatype Call = Call(callee: MethodId, synchronous: bool)

  function CallOf(action: Action): Call
    requires action.BeginInvoke?
  {
    Call(action.callee, action.synchronous)
  }

  /** The calls of a thread in a schedule, in order. */
  function CallsMade(schedule: seq<Event>, t: ThreadId): seq<Call> {
    if schedule == [] then []
    else
      (if schedule[0].thread == t && schedule[0].action.BeginInvoke? then [CallOf(schedule[0].action)] else [])
      + CallsMade(schedule[1..], t)
  }

  /** Each begin of a call on the thread counts, with its own method and its own flag, and nothing else does. */
  lemma {:induction false} CallsMadeAre(before: seq<Event>, ev: Event, t: ThreadId)
    ensures CallsMade([], t) == []
    ensures CallsMade(before + [ev], t) == CallsMade(before, t) +
      match ev.action
      case BeginInvoke(callee, synchronous) => (if ev.thread == t then [Call(callee, synchronous)] else [])
      case _ => []
    decreases |before|
  {
    if before == [] {
      assert before + [ev] == [ev] && [ev][1..] == [];
    } else {
      assert (before + [ev])[1..] == before[1..] + [ev];
      CallsMadeAre(before[1..], ev, t);
    }
  }

  /** The ids of the jobs a thread has made, in order. */
  function JobsOf(jobs: seq<Job>, t: ThreadId): seq<JobId> {
    if jobs == [] then []
    else
      var n := |jobs| - 1;
      JobsOf(jobs[..n], t) + if jobs[n].creator == t then [n] else []
  }

  function CallsOf(jobs: seq<Job>, t: ThreadId): seq<Call> {
    if jobs == [] then []
    else
      var n := |jobs| - 1;
      CallsOf(jobs[..n], t) + if jobs[n].creator == t then [Call(jobs[n].callee, jobs[n].synchronous)] else []
  }

  lemma {:induction false} JobsAreCalls(jobs: seq<Job>, t: ThreadId)
    ensures var ids, calls := JobsOf(jobs, t), CallsOf(jobs, t);
      && |ids| == |calls|
      && (forall i :: 0 <= i < |ids| ==> ids[i] < |jobs| && jobs[ids[i]].creator == t)
      && (forall i :: 0 <= i < |ids| ==> calls[i] == Call(jobs[ids[i]].callee, jobs[ids[i]].synchronous))
      && (forall i, k :: 0 <= i < k < |ids| ==> ids[i] < ids[k])
  {
    if jobs != [] {
      JobsAreCalls(jobs[..|jobs| - 1], t);
    }
  }

  lemma {:induction false} CallsStay(jobs: seq<Job>, jobs': seq<Job>, t: ThreadId)
    requires |jobs| == |jobs'| && forall j :: 0 <= j < |jobs| ==> SameCall(jobs[j], jobs'[j])
    ensures CallsOf(jobs', t) == CallsOf(jobs, t)
  {
    if jobs != [] {
      CallsStay(jobs[..|jobs| - 1], jobs'[..|jobs| - 1], t);
    }
  }

  lemma StepMakesCall(s: State, ev: Event, t: ThreadId)
    requires Inv(s) && Enabled(s, ev)
    ensures CallsOf(Apply(s, ev).jobs, t) == CallsOf(s.jobs, t) + CallsMade([ev], t)
  {
    var jobs, jobs' := s.jobs, Apply(s, ev).jobs;
    TopFacts(s, ev.thread);
    JobsKeepThreads(s, ev);
    CallsStay(jobs, jobs'[..|jobs|], t);
    OneCallMade(ev, t);
    NoNewJob(s, ev);
    if |jobs'| > |jobs| {
      NewJobOfThread(s, ev);
      CallsOfOneMore(jobs', t);
    } else {
      assert jobs'[..|jobs|] == jobs';
    }
  }

  lemma OneCallMade(ev: Event, t: ThreadId)
    ensures CallsMade([ev], t) == if ev.thread == t && ev.action.BeginInvoke? then [CallOf(ev.action)] else []
  {
    assert [ev][1..] == [];
  }

  lemma CallsOfOneMore(jobs: seq<Job>, t: ThreadId)
    requires jobs != []
    ensures var n := |jobs| - 1;
      CallsOf(jobs, t) == CallsOf(jobs[..n], t) + if jobs[n].creator == t then [Call(jobs[n].callee, jobs[n].synchronous)] else []
  {
  }

  lemma NoNewJob(s: State, ev: Event)
    requires Enabled(s, ev)
    ensures ev.action.BeginInvoke? <==> |Apply(s, ev).jobs| > |s.jobs|
  {
  }

  lemma CallsMadeCons(schedule: seq<Event>, t: ThreadId, before: seq<Call>)
    requires schedule != []
    ensures before + CallsMade(schedule, t) == before + CallsMade([schedule[0]], t) + CallsMade(schedule[1..], t)
  {
    assert [schedule[0]][1..] == [];
  }

  /** The jobs of a thread are exactly the calls it has made, in the order in which it made them. */
  lemma {:induction false} RunMakesCalls(s: State, schedule: seq<Event>, t: ThreadId)
    requires Inv(s) && Valid(s, schedule)
    ensures CallsOf(Run(s, schedule).jobs, t) == CallsOf(s.jobs, t) + CallsMade(schedule, t)
    decreases |schedule|
  {
    if schedule != [] {
      var s' := Apply(s, schedule[0]);
      StepKeepsInv(s, schedule[0]);
      StepMakesCall(s, schedule[0], t);
      RunMakesCalls(s', schedule[1..], t);
      CallsMadeCons(schedule, t, CallsOf(s.jobs, t));
    }
  }

  /** The job of the i-th call of a thread; none if there are fewer calls. */
  function NthJob(s: State, t: ThreadId, i: nat): Option<JobId> {
    if i < |JobsOf(s.jobs, t)| then Some(JobsOf(s.jobs, t)[i]) else None
  }

  /** The i-th call of a thread in a run has a job, made by that thread for that call. */
  lemma CallHasJob(s0: State, schedule: seq<Event>, t: ThreadId, i: nat, s: State)
    requires Init(s0) && Valid(s0, schedule) && s == Run(s0, schedule) && i < |CallsMade(schedule, t)|
    ensures NthJob(s, t, i).Some? && NthJob(s, t, i).value < |s.jobs|
    ensures var job := s.jobs[NthJob(s, t, i).value];
      job.creator == t && Call(job.callee, job.synchronous) == CallsMade(schedule, t)[i]
    ensures forall k :: 0 <= k < i ==> NthJob(s, t, k).Some? && NthJob(s, t, k).value < NthJob(s, t, i).value
  {
    InitInv(s0);
    RunMakesCalls(s0, schedule, t);
    JobsAreCalls(s.jobs, t);
  }
}
