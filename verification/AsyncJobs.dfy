/** AsyncJob: a piece of work with progress, completion and error callbacks on the main thread. */
module AsyncJobs {
  import opened Wrappers
  import opened MainThreadJobs
  import opened MainThreadOrder

  datatype Kind = PROGRESS | COMPLETED | ERROR

  /** One asynchronous call of InvokeMethodOnMainThread for a callback. */
  datatype Post = Post(kind: Kind, callback: MethodId)

  /** What the work may do to its own job while it runs. */
  datatype Step =
    | SetProgressTo(progress: real, callbacks: bool)
    | CancelJob
    | AddCallback(kind: Kind, callback: MethodId)

  /** The work returns or throws a ValueException. */
  datatype Ending = Returns(v: Value) | Throws(e: Option<Value>)

  function Clamp(p: real): (r: real)
    ensures 0.0 <= r <= 1.0 && (0.0 <= p <= 1.0 ==> r == p)
  {
    if p < 0.0 then 0.0 else if p > 1.0 then 1.0 else p
  }

  function Posts(kind: Kind, callbacks: seq<MethodId>): (r: seq<Post>)
    ensures |r| == |callbacks| && forall i :: 0 <= i < |r| ==> r[i] == Post(kind, callbacks[i])
  {
    seq(|callbacks|, i requires 0 <= i < |callbacks| => Post(kind, callbacks[i]))
  }

  /** The callbacks of one kind that the work adds. */
  function AddedBy(work: seq<Step>, kind: Kind): seq<MethodId> {
    if work == [] then []
    else (if work[0].AddCallback? && work[0].kind == kind then [work[0].callback] else []) + AddedBy(work[1..], kind)
  }

  /** What is posted while the work runs: for each reported progress every callback registered by then. */
  function ProgressPosts(work: seq<Step>, registered: seq<MethodId>): seq<Post> {
    if work == [] then []
    else
      match work[0]
      case SetProgressTo(_, callbacks) => (if callbacks then Posts(PROGRESS, registered) else []) + ProgressPosts(work[1..], registered)
      case CancelJob => ProgressPosts(work[1..], registered)
      case AddCallback(kind, callback) => ProgressPosts(work[1..], if kind.PROGRESS? then registered + [callback] else registered)
  }

  /** The last progress set, or the one before. */
  function LastProgress(work: seq<Step>, before: real): (r: real)
    ensures 0.0 <= before <= 1.0 ==> 0.0 <= r <= 1.0
  {
    if work == [] then before
    else LastProgress(work[1..], if work[0].SetProgressTo? then Clamp(work[0].progress) else before)
  }

  lemma {:induction false} ProgressPostsOnly(work: seq<Step>, registered: seq<MethodId>)
    ensures forall i :: 0 <= i < |ProgressPosts(work, registered)| ==> ProgressPosts(work, registered)[i].kind.PROGRESS?
  {
    if work != [] {
      ProgressPostsOnly(work[1..], registered);
      if work[0].AddCallback? {
        ProgressPostsOnly(work[1..], registered + [work[0].callback]);
      }
    }
  }

  /** At each report every progress callback registered by then is posted, in order, and nothing else is posted while the
      work runs. */
  lemma {:induction false} ProgressPostsNext(work: seq<Step>, step: Step, registered: seq<MethodId>)
    ensures ProgressPosts([], registered) == []
    ensures ProgressPosts(work + [step], registered) == ProgressPosts(work, registered) +
      match step
      case SetProgressTo(_, callbacks) => (if callbacks then Posts(PROGRESS, registered + AddedBy(work, PROGRESS)) else [])
      case _ => []
    decreases |work|
  {
    if work == [] {
      assert work + [step] == [step] && [step][1..] == [] && registered + [] == registered;
    } else {
      var rest := work[1..];
      assert (work + [step])[1..] == rest + [step];
      if work[0].AddCallback? && work[0].kind.PROGRESS? {
        ProgressPostsNext(rest, step, registered + [work[0].callback]);
        assert registered + [work[0].callback] + AddedBy(rest, PROGRESS) == registered + AddedBy(work, PROGRESS);
      } else {
        ProgressPostsNext(rest, step, registered);
        assert AddedBy(work, PROGRESS) == AddedBy(rest, PROGRESS);
      }
    }
  }

  /** The last report decides the progress; the callbacks of a kind are those added for it, in order. */
  lemma {:induction false} WorkNext(work: seq<Step>, step: Step, before: real, kind: Kind)
    ensures LastProgress([], before) == before && AddedBy([], kind) == []
    ensures match step
      case SetProgressTo(p, _) =>
        LastProgress(work + [step], before) == if p < 0.0 then 0.0 else if p > 1.0 then 1.0 else p
      case _ => LastProgress(work + [step], before) == LastProgress(work, before)
    ensures match step
      case AddCallback(k, callback) =>
        AddedBy(work + [step], kind) == AddedBy(work, kind) + if k == kind then [callback] else []
      case _ => AddedBy(work + [step], kind) == AddedBy(work, kind)
    decreases |work|
  {
    if work == [] {
      assert work + [step] == [step] && [step][1..] == [];
    } else {
      assert (work + [step])[1..] == work[1..] + [step];
      WorkNext(work[1..], step, if work[0].SetProgressTo? then Clamp(work[0].progress) else before, kind);
    }
  }

  lemma FirstStep(step: Step, rest: seq<Step>, work: seq<Step>, registered: seq<MethodId>)
    requires work == [step] + rest
    ensures match step
      case SetProgressTo(_, callbacks) =>
        ProgressPosts(work, registered) == (if callbacks then Posts(PROGRESS, registered) else []) + ProgressPosts(rest, registered)
      case CancelJob => ProgressPosts(work, registered) == ProgressPosts(rest, registered)
      case AddCallback(kind, callback) =>
        ProgressPosts(work, registered) == ProgressPosts(rest, if kind.PROGRESS? then registered + [callback] else registered)
    ensures forall kind ::
      AddedBy(work, kind) == (if step.AddCallback? && step.kind == kind then [step.callback] else []) + AddedBy(rest, kind)
    ensures forall before ::
      LastProgress(work, before) == LastProgress(rest, if step.SetProgressTo? then Clamp(step.progress) else before)
  {
    assert work[1..] == rest;
  }

  class AsyncJob {
    var progress: real
    var completed: bool
    var hadError: bool
    var cancelled: bool
    var result: Option<Value>
    var progressCallbacks: seq<MethodId>
    var completedCallbacks: seq<MethodId>
    var errorCallbacks: seq<MethodId>
    /** The calls handed to the host so far. */
    var posted: seq<Post>

    ghost predicate Valid()
      reads this
    {
      0.0 <= progress <= 1.0 && !(completed && hadError) && (hadError ==> result.None?)
    }

    function Registered(kind: Kind): seq<MethodId>
      reads this
    {
      match kind case PROGRESS => progressCallbacks case COMPLETED => completedCallbacks case ERROR => errorCallbacks
    }

    constructor ()
      ensures Valid() && progress == 0.0 && !completed && !hadError && !cancelled && result.None?
      ensures posted == [] && forall kind :: Registered(kind) == []
    {
      completed, hadError, cancelled, result := false, false, false, None;
      progressCallbacks, completedCallbacks, errorCallbacks, posted := [], [], [], [];
      progress := 0.0;
      new;
      SetProgress(0.0, false);
    }

    method DoCallback(kind: Kind, callback: MethodId)
      modifies this`posted
      ensures posted == old(posted) + [Post(kind, callback)]
    {
      posted := posted + [Post(kind, callback)];
    }

    /** The loops over the callback lists. */
    method DoCallbacks(kind: Kind)
      modifies this`posted
      ensures posted == old(posted) + Posts(kind, Registered(kind))
    {
      var callbacks := Registered(kind);
      for i := 0 to |callbacks|
        invariant posted == old(posted) + Posts(kind, callbacks)[..i]
      {
        DoCallback(kind, callbacks[i]);
      }
    }

    method AddCallback(kind: Kind, callback: MethodId)
      modifies this`progressCallbacks, this`completedCallbacks, this`errorCallbacks
      ensures forall k :: Registered(k) == if k == kind then old(Registered(k)) + [callback] else old(Registered(k))
    {
      match kind
      case PROGRESS => progressCallbacks := progressCallbacks + [callback];
      case COMPLETED => completedCallbacks := completedCallbacks + [callback];
      case ERROR => errorCallbacks := errorCallbacks + [callback];
    }

    method Cancel()
      modifies this`cancelled
      ensures cancelled
    {
      cancelled := true;
    }

    method SetProgress(p: real, callbacks: bool)
      modifies this`progress, this`posted
      ensures (p < 0.0 ==> progress == 0.0) && (p > 1.0 ==> progress == 1.0) && (0.0 <= p <= 1.0 ==> progress == p)
      ensures progress == Clamp(p)
      ensures posted == old(posted) + if callbacks then Posts(PROGRESS, progressCallbacks) else []
    {
      var q := p;
      if q < 0.0 {
        q := 0.0;
      } else if q > 1.0 {
        q := 1.0;
      }
      progress := q;
      if callbacks {
        DoCallbacks(PROGRESS);
      }
    }

    method Error(e: Option<Value>)
      modifies this`hadError, this`posted
      ensures hadError && posted == old(posted) + Posts(ERROR, errorCallbacks)
    {
      hadError := true;
      DoCallbacks(ERROR);
    }

    /** The work itself, as far as it concerns the job. */
    method Work(work: seq<Step>)
      requires Valid()
      modifies this`progress, this`posted, this`cancelled
      modifies this`progressCallbacks, this`completedCallbacks, this`errorCallbacks
      ensures Valid() && progress == LastProgress(work, old(progress))
      ensures posted == old(posted) + ProgressPosts(work, old(progressCallbacks))
      ensures forall kind :: Registered(kind) == old(Registered(kind)) + AddedBy(work, kind)
      ensures cancelled == (old(cancelled) || CancelJob in work)
    {
      var left := work;
      while left != []
        invariant Valid() && LastProgress(left, progress) == LastProgress(work, old(progress))
        invariant posted + ProgressPosts(left, progressCallbacks) == old(posted) + ProgressPosts(work, old(progressCallbacks))
        invariant forall kind :: Registered(kind) + AddedBy(left, kind) == old(Registered(kind)) + AddedBy(work, kind)
        invariant (cancelled || CancelJob in left) == (old(cancelled) || CancelJob in work)
        decreases |left|
      {
        WorkStep(left[0], left[1..], left);
        left := left[1..];
      }
    }

    /** One step of the work; `rest` is the work behind it. */
    method WorkStep(step: Step, ghost rest: seq<Step>, ghost work: seq<Step>)
      requires Valid() && work == [step] + rest
      modifies this`progress, this`posted, this`cancelled
      modifies this`progressCallbacks, this`completedCallbacks, this`errorCallbacks
      ensures Valid() && LastProgress(rest, progress) == LastProgress(work, old(progress))
      ensures posted + ProgressPosts(rest, progressCallbacks) == old(posted) + ProgressPosts(work, old(progressCallbacks))
      ensures forall kind :: Registered(kind) + AddedBy(rest, kind) == old(Registered(kind)) + AddedBy(work, kind)
      ensures cancelled == (old(cancelled) || step == CancelJob)
    {
      FirstStep(step, rest, work, progressCallbacks);
      match step
      case SetProgressTo(p, callbacks) =>
        SetProgress(p, callbacks);
      case CancelJob =>
        Cancel();
      case AddCallback(kind, callback) =>
        AddCallback(kind, callback);
        assert progressCallbacks == Registered(PROGRESS);
    }

    method Execute(work: seq<Step>, ending: Ending) returns (r: Option<Value>)
      requires Valid() && !completed && !hadError && result.None?
      modifies this`progress, this`posted, this`cancelled, this`hadError
      modifies this`progressCallbacks, this`completedCallbacks, this`errorCallbacks
      ensures Valid() && progress == LastProgress(work, old(progress))
      ensures hadError == ending.Throws? && r == (if ending.Returns? then Some(ending.v) else None)
      ensures forall kind :: Registered(kind) == old(Registered(kind)) + AddedBy(work, kind)
      ensures posted == old(posted) + ProgressPosts(work, old(progressCallbacks))
                        + if ending.Throws? then Posts(ERROR, Registered(ERROR)) else []
    {
      Work(work);
      match ending
      case Returns(v) =>
        r := Some(v);
      case Throws(e) =>
        Error(e);
        r := None;
    }

    method Run(work: seq<Step>, ending: Ending)
      requires Valid() && !completed && !hadError && result.None?
      modifies this
      ensures Valid() && progress == LastProgress(work, old(progress))
      ensures completed == ending.Returns? && hadError == ending.Throws?
      ensures result == if ending.Returns? then Some(ending.v) else None
      ensures forall kind :: Registered(kind) == old(Registered(kind)) + AddedBy(work, kind)
      ensures posted == old(posted) + RunPosts(work, ending, old(progressCallbacks), Registered(COMPLETED), Registered(ERROR))
    {
      var r := Execute(work, ending);
      ghost var mid, progress := posted, old(progressCallbacks);
      result := r;
      if !hadError {
        Complete();
      }
      PostedByRun(old(posted), mid, posted, work, ending, progress, completedCallbacks, errorCallbacks);
    }

    method Complete()
      modifies this`completed, this`posted
      ensures completed && posted == old(posted) + Posts(COMPLETED, completedCallbacks)
    {
      completed := true;
      DoCallbacks(COMPLETED);
    }
  }

  /** Everything a run posts: progress, then either the completed or the error callbacks, each once and in order. */
  function RunPosts(work: seq<Step>, ending: Ending, progress: seq<MethodId>, completed: seq<MethodId>, errors: seq<MethodId>): seq<Post> {
    ProgressPosts(work, progress) + if ending.Returns? then Posts(COMPLETED, completed) else Posts(ERROR, errors)
  }

  /** Behind the progress posts, one post for each callback of the ending, in order. */
  lemma RunPostsEnd(work: seq<Step>, ending: Ending, progress: seq<MethodId>, completed: seq<MethodId>, errors: seq<MethodId>,
                    posts: seq<Post>, n: nat, i: nat)
    requires posts == RunPosts(work, ending, progress, completed, errors) && n == |ProgressPosts(work, progress)|
    ensures |posts| == n + |if ending.Returns? then completed else errors| && posts[..n] == ProgressPosts(work, progress)
    ensures ending.Returns? && i < |completed| ==> posts[n + i] == Post(COMPLETED, completed[i])
    ensures ending.Throws? && i < |errors| ==> posts[n + i] == Post(ERROR, errors[i])
  {
    var last := if ending.Returns? then Posts(COMPLETED, completed) else Posts(ERROR, errors);
    assert posts == ProgressPosts(work, progress) + last;
  }

  lemma PostedByRun(before: seq<Post>, mid: seq<Post>, after: seq<Post>, work: seq<Step>, ending: Ending,
                    progress: seq<MethodId>, completed: seq<MethodId>, errors: seq<MethodId>)
    requires mid == before + ProgressPosts(work, progress) + if ending.Throws? then Posts(ERROR, errors) else []
    requires after == mid + if ending.Throws? then [] else Posts(COMPLETED, completed)
    ensures after == before + RunPosts(work, ending, progress, completed, errors)
  {
  }

  /** Exactly one of the two final lists is posted, and only behind all progress. */
  lemma OneFinalList(work: seq<Step>, ending: Ending, progress: seq<MethodId>, completed: seq<MethodId>, errors: seq<MethodId>, posts: seq<Post>)
    requires posts == RunPosts(work, ending, progress, completed, errors)
    ensures forall i :: 0 <= i < |posts| ==> posts[i].kind != if ending.Returns? then ERROR else COMPLETED
    ensures forall i, k :: 0 <= i < k < |posts| && posts[k].kind.PROGRESS? ==> posts[i].kind.PROGRESS?
  {
    ProgressPostsOnly(work, progress);
  }

  /** The calls made for the posts are among the thread's calls, in the order of the posts, at these positions. */
  ghost predicate MadeAt(calls: seq<Call>, posts: seq<Post>, at: seq<nat>) {
    && |at| == |posts|
    && (forall i :: 0 <= i < |at| ==> at[i] < |calls| && calls[at[i]] == Call(posts[i].callback, false))
    && (forall i, k :: 0 <= i < k < |at| ==> at[i] < at[k])
  }

  /** In any run in which the thread of the job makes these posts, with whatever other calls before, between and behind
      them: on the main thread every earlier-posted progress callback runs before any completed or error callback. */
  lemma ProgressRunsFirst(s0: State, schedule: seq<Event>, t: ThreadId, work: seq<Step>, ending: Ending, progress: seq<MethodId>,
                          completed: seq<MethodId>, errors: seq<MethodId>, posts: seq<Post>, at: seq<nat>,
                          p: nat, f: nat, b: nat) returns (a: nat)
    requires Init(s0) && Valid(s0, schedule)
    requires posts <= RunPosts(work, ending, progress, completed, errors)
    requires MadeAt(CallsMade(schedule, t), posts, at)
    requires p < |posts| && f < |posts| && posts[p].kind.PROGRESS? && !posts[f].kind.PROGRESS?
    requires var s := Run(s0, schedule); b < |s.handled| && Some(s.handled[b]) == NthJob(s, t, at[f])
    ensures var s := Run(s0, schedule); a < b && Some(s.handled[a]) == NthJob(s, t, at[p])
  {
    var s := Run(s0, schedule);
    OneFinalList(work, ending, progress, completed, errors, RunPosts(work, ending, progress, completed, errors));
    CallHasJob(s0, schedule, t, at[p], s);
    CallHasJob(s0, schedule, t, at[f], s);
    a := EarlierCallsFirst(s, NthJob(s, t, at[p]).value, NthJob(s, t, at[f]).value, b);
  }
}
