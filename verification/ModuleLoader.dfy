/**
 The module loader of the host.  Loading a module may register a module provider, which may
 recognise files rejected earlier, so loading is a fixpoint scan; the autoScan flag decides
 whether registering a provider starts a new scan.
 */
module ModuleLoader {
  import opened Wrappers

  type ProviderRef = nat
  type ModuleId = nat

  /** The null provider pointer, and the host itself, which provides native modules. */
  const NULL_PROVIDER: ProviderRef := 0
  const HOST_PROVIDER: ProviderRef := 1

  /** What code running inside Initialize or Start may ask of the host. */
  datatype Command = AddProvider(provider: ProviderRef) | RemoveProvider(provider: ProviderRef)

  /** The providers and modules, which are not part of the host.  IsModule is a fixed predicate;
      everything else may differ from module to module and from call to call. */
  datatype World = World(
    suffix: string,
    isModule: (ProviderRef, string) -> bool,
    createFails: (ProviderRef, string, nat) -> bool,
    modulePath: ModuleId -> string,
    moduleName: ModuleId -> string,
    moduleVersion: ModuleId -> string,
    initCommands: ModuleId -> seq<Command>,
    initThrows: ModuleId -> bool,
    startCommands: (ModuleId, nat) -> seq<Command>)
  {
    /** Host::IsModule for the host itself, the provider's own IsModule otherwise. */
    predicate Recognises(p: ProviderRef, file: string) {
      if p == HOST_PROVIDER
      then |file| > |suffix| && file[|file| - |suffix|..] == suffix
      else isModule(p, file)
    }
  }

  datatype LifeEvent =
    | Initialised(m: ModuleId) | InitFailed(m: ModuleId)
    | Started(m: ModuleId) | Stopped(m: ModuleId) | Unloaded(m: ModuleId)

  datatype DirEntry = DirEntry(path: string, visibleFile: bool)

  /** A module in the list of components in use by the application. */
  datatype InUse = InUse(name: string, version: string, path: string)

  /** A call of LoadModule that has got past no guard yet; `fails` says whether the creation of the module fails. */
  datatype LoadCall = LoadCall(file: string, fails: bool)

  /** How often Start was called on m. */
  function StartCount(log: seq<LifeEvent>, m: ModuleId): nat {
    if log == [] then 0
    else StartCount(log[..|log| - 1], m) + if log[|log| - 1] == Started(m) then 1 else 0
  }

  lemma StartCountAppend(log: seq<LifeEvent>, e: LifeEvent, m: ModuleId)
    ensures StartCount(log + [e], m) == StartCount(log, m) + if e == Started(m) then 1 else 0
  {
    assert (log + [e])[..|log|] == log;
  }

  function Range(lo: nat, hi: nat): (r: seq<nat>)
    requires lo <= hi
    ensures |r| == hi - lo && forall i :: 0 <= i < |r| ==> r[i] == lo + i
  {
    seq(hi - lo, i requires 0 <= i < hi - lo => lo + i)
  }

  function SetOf(s: seq<ModuleId>): set<ModuleId> {
    set m | m in s
  }

  function WithoutFirst(s: seq<ProviderRef>, x: ProviderRef): seq<ProviderRef> {
    if s == [] then [] else if s[0] == x then s[1..] else [s[0]] + WithoutFirst(s[1..], x)
  }

  lemma {:induction false} WithoutFirstAt(s: seq<ProviderRef>, i: nat)
    requires i < |s| && s[i] !in s[..i]
    ensures WithoutFirst(s, s[i]) == s[..i] + s[i + 1..]
  {
    if i > 0 {
      assert s[1..][..i - 1] == s[1..i] && s[..i] == [s[0]] + s[1..i];
      WithoutFirstAt(s[1..], i - 1);
    }
  }

  lemma {:induction false} WithoutFirstAbsent(s: seq<ProviderRef>, x: ProviderRef)
    requires x !in s
    ensures WithoutFirst(s, x) == s
  {
    if s != [] {
      WithoutFirstAbsent(s[1..], x);
    }
  }

  lemma WithoutFirstSubset(s: seq<ProviderRef>, x: ProviderRef)
    ensures forall p :: p in WithoutFirst(s, x) ==> p in s
  {
  }

  /** The part of the host's state that loading changes. */
  datatype Snapshot = Snapshot(
    loaded: seq<ModuleId>, invalid: seq<string>, next: ModuleId, log: seq<LifeEvent>, tried: seq<string>,
    calls: seq<LoadCall>)

  /** From `a` to `b` the lists only grew, exactly the modules in `starts` were started, once each,
      every file that left the invalid list was tried exactly once, and the files tried were those handed to LoadModule. */
  ghost predicate Progress(a: Snapshot, b: Snapshot, starts: set<ModuleId>) {
    && a.next <= b.next && a.loaded <= b.loaded && a.log <= b.log && a.tried <= b.tried
    && (forall m :: StartCount(b.log, m) == StartCount(a.log, m) + if m in starts then 1 else 0)
    && Conserved(a, b)
  }

  ghost predicate Conserved(a: Snapshot, b: Snapshot)
    requires a.tried <= b.tried
  {
    && multiset(a.invalid) == multiset(b.invalid) + multiset(b.tried[|a.tried|..])
    && Files(b.calls) == Files(a.calls) + b.tried[|a.tried|..]
  }

  /** The files handed to LoadModule. */
  function Files(calls: seq<LoadCall>): seq<string> {
    seq(|calls|, i requires 0 <= i < |calls| => calls[i].file)
  }

  lemma FilesAppend(calls: seq<LoadCall>, c: LoadCall)
    ensures Files([]) == [] && Files(calls + [c]) == Files(calls) + [c.file]
  {
  }

  /** The visible files among the entries, in order: the native modules, or the others. */
  function VisibleFiles(world: World, entries: seq<DirEntry>, native: bool): seq<string> {
    if entries == [] then []
    else
      var e := entries[|entries| - 1];
      VisibleFiles(world, entries[..|entries| - 1], native)
      + if e.visibleFile && world.Recognises(HOST_PROVIDER, e.path) == native then [e.path] else []
  }

  /** Joining the directories loses and adds no entry. */
  lemma EntriesNext(dirs: seq<seq<DirEntry>>, dir: seq<DirEntry>)
    ensures Entries([]) == [] && Entries(dirs + [dir]) == Entries(dirs) + dir
  {
    assert (dirs + [dir])[..|dirs|] == dirs;
  }

  /** The host recognises exactly the files whose name ends in its suffix and has something in front of it. */
  lemma NativeModules(world: World, stem: string, ending: string)
    ensures world.Recognises(HOST_PROVIDER, stem + world.suffix) <==> stem != ""
    ensures |ending| == |world.suffix| && ending != world.suffix ==> !world.Recognises(HOST_PROVIDER, stem + ending)
    ensures |stem| < |world.suffix| ==> !world.Recognises(HOST_PROVIDER, stem)
  {
    assert (stem + world.suffix)[|stem|..] == world.suffix;
    assert (stem + ending)[|stem|..] == ending;
  }

  /** Which of the visible files come next. */
  lemma VisibleNext(world: World, before: seq<DirEntry>, e: DirEntry, native: bool)
    ensures VisibleFiles(world, before + [e], native) == VisibleFiles(world, before, native)
      + if e.visibleFile && world.Recognises(HOST_PROVIDER, e.path) == native then [e.path] else []
    ensures !(e.visibleFile && world.Recognises(HOST_PROVIDER, e.path) == native) ==>
      VisibleFiles(world, before + [e], native) == VisibleFiles(world, before, native)
  {
    assert (before + [e])[..|before|] == before;
  }

  /** The entries of all directories of the module path. */
  function Entries(dirs: seq<seq<DirEntry>>): seq<DirEntry> {
    if dirs == [] then [] else Entries(dirs[..|dirs| - 1]) + dirs[|dirs| - 1]
  }

  /** The list of rejected files with further ones added, each once. */
  function WithFiles(invalid: seq<string>, files: seq<string>): seq<string> {
    if files == [] then invalid
    else
      var before := WithFiles(invalid, files[..|files| - 1]);
      if files[|files| - 1] in before then before else before + [files[|files| - 1]]
  }

  lemma {:induction false} WithFilesHas(invalid: seq<string>, files: seq<string>)
    ensures forall f :: f in WithFiles(invalid, files) <==> f in invalid || f in files
    ensures Distinct(invalid) ==> Distinct(WithFiles(invalid, files))
    decreases |files|
  {
    if files != [] {
      var n := |files| - 1;
      WithFilesHas(invalid, files[..n]);
      assert files == files[..n] + [files[n]];
    }
  }

  lemma WithOneMore(invalid: seq<string>, files: seq<string>, f: string)
    ensures WithFiles(invalid, files + [f]) ==
      var before := WithFiles(invalid, files); if f in before then before else before + [f]
  {
    assert (files + [f])[..|files|] == files;
  }

  /** The modules created between two moments. */
  ghost function Created(a: Snapshot, b: Snapshot): set<ModuleId> {
    SetOf(if a.next <= b.next then Range(a.next, b.next) else [])
  }

  lemma InCreated(a: Snapshot, b: Snapshot, m: ModuleId)
    ensures m in Created(a, b) <==> a.next <= m < b.next
  {
    if a.next <= m < b.next {
      assert Range(a.next, b.next)[m - a.next] == m;
    }
  }

  /** What completed scanning does: it starts every module it creates, exactly once, and no other. */
  ghost predicate Grew(a: Snapshot, b: Snapshot) {
    Progress(a, b, Created(a, b))
  }

  ghost predicate RecognisedByNone(world: World, providers: seq<ProviderRef>, file: string) {
    forall p :: p in providers && p != NULL_PROVIDER ==> !world.Recognises(p, file)
  }

  /** No provider recognises any of the first n files. */
  ghost predicate Unrecognised(world: World, providers: seq<ProviderRef>, files: seq<string>, n: nat)
    requires n <= |files|
  {
    forall k :: 0 <= k < n ==> RecognisedByNone(world, providers, files[k])
  }

  /** The scan's loop has come to position i of the list. */
  ghost predicate Scanned(world: World, first: Snapshot, now: Snapshot, providers: seq<ProviderRef>, i: nat, modules: seq<ModuleId>) {
    && i <= |now.invalid| && Progress(first, now, {})
    && modules == Range(first.next, now.next) && |modules| <= |now.tried| - |first.tried|
    && (modules == [] ==> Unrecognised(world, providers, now.invalid, i))
  }

  /** One recognised file later. */
  lemma ScannedRecognised(world: World, first: Snapshot, a: Snapshot, b: Snapshot, before: seq<ProviderRef>, after: seq<ProviderRef>,
                          i: nat, modules: seq<ModuleId>)
    requires Scanned(world, first, a, before, i, modules) && i < |a.invalid| && Progress(a, b, {})
    requires b.tried == a.tried + [a.invalid[i]] && b.invalid == a.invalid[..i] + a.invalid[i + 1..]
    requires (b.next == a.next && before == after) || b.next == a.next + 1
    ensures Scanned(world, first, b, after, i, if b.next == a.next then modules else modules + [a.next])
  {
    ProgressTrans(first, a, b, {}, {});
    UnrecognisedWithout(world, before, a.invalid, i);
  }

  lemma UnrecognisedNext(world: World, providers: seq<ProviderRef>, files: seq<string>, n: nat)
    requires n < |files| && RecognisedByNone(world, providers, files[n])
    ensures Unrecognised(world, providers, files, n) <==> Unrecognised(world, providers, files, n + 1)
  {
  }

  lemma UnrecognisedWithout(world: World, providers: seq<ProviderRef>, files: seq<string>, n: nat)
    requires n < |files|
    ensures Unrecognised(world, providers, files, n) <==> Unrecognised(world, providers, files[..n] + files[n + 1..], n)
  {
    assert forall k :: 0 <= k < n ==> files[k] == (files[..n] + files[n + 1..])[k];
  }

  lemma ProgressTrans(a: Snapshot, b: Snapshot, c: Snapshot, s: set<ModuleId>, t: set<ModuleId>)
    requires Progress(a, b, s) && Progress(b, c, t) && s !! t
    ensures Progress(a, c, s + t)
  {
    assert c.tried[|a.tried|..] == b.tried[|a.tried|..] + c.tried[|b.tried|..];
  }

  /** What a list without repetition is made up of has no repetition either. */
  lemma DistinctPart(all: seq<string>, rest: seq<string>, part: seq<string>)
    requires Distinct(all) && multiset(all) == multiset(rest) + multiset(part)
    ensures Distinct(part)
  {
    forall i, k | 0 <= i < k < |part|
      ensures part[i] != part[k]
    {
      DistinctOnce(all, part[i]);
      assert part == part[..k] + [part[k]] + part[k + 1..];
      assert part[i] in part[..k];
    }
  }

  lemma {:induction false} DistinctOnce(s: seq<string>, x: string)
    requires Distinct(s)
    ensures multiset(s)[x] <= 1
  {
    if s != [] {
      var n := |s| - 1;
      assert s == s[..n] + [s[n]];
      DistinctOnce(s[..n], x);
      if s[n] == x {
        assert x !in s[..n];
      }
    }
  }

  lemma GrewRefl(a: Snapshot)
    ensures Grew(a, a) && Progress(a, a, {}) && Created(a, a) == {}
  {
    assert a.tried[|a.tried|..] == [];
  }

  lemma CreatedSplits(a: Snapshot, b: Snapshot, c: Snapshot)
    requires a.next <= b.next <= c.next
    ensures Created(a, c) == Created(a, b) + Created(b, c) && Created(a, b) !! Created(b, c)
  {
    assert Range(a.next, c.next) == Range(a.next, b.next) + Range(b.next, c.next);
  }

  lemma GrewTrans(a: Snapshot, b: Snapshot, c: Snapshot)
    requires Grew(a, b) && Grew(b, c)
    ensures Grew(a, c)
  {
    CreatedSplits(a, b, c);
    ProgressTrans(a, b, c, Created(a, b), Created(b, c));
  }

  lemma ConservedShrinks(a: Snapshot, b: Snapshot)
    requires a.tried <= b.tried && Conserved(a, b)
    ensures |b.invalid| + |b.tried| - |a.tried| == |a.invalid|
  {
    assert |multiset(a.invalid)| == |a.invalid|;
    assert |multiset(b.invalid)| == |b.invalid|;
    assert |multiset(b.tried[|a.tried|..])| == |b.tried| - |a.tried|;
  }

  lemma StartOne(a: Snapshot, m: ModuleId)
    ensures Progress(a, a.(log := a.log + [Started(m)]), {m})
  {
    forall k
      ensures StartCount(a.log + [Started(m)], k) == StartCount(a.log, k) + if k in {m} then 1 else 0
    {
      StartCountAppend(a.log, Started(m), k);
    }
    assert a.tried[|a.tried|..] == [];
  }

  /** One file is tried and leaves the list; a creation leaves at most one non-Start event. */
  lemma TryOne(a: Snapshot, b: Snapshot, i: nat, c: LoadCall)
    requires i < |a.invalid| && b.invalid == a.invalid[..i] + a.invalid[i + 1..] && b.tried == a.tried + [a.invalid[i]]
    requires a.next <= b.next && a.loaded <= b.loaded && b.calls == a.calls + [c] && c.file == a.invalid[i]
    requires b.log == a.log || (|b.log| > 0 && !b.log[|b.log| - 1].Started? && b.log == a.log + [b.log[|b.log| - 1]])
    ensures Progress(a, b, {})
  {
    assert a.invalid == a.invalid[..i] + [a.invalid[i]] + a.invalid[i + 1..];
    assert b.tried[|a.tried|..] == [a.invalid[i]];
    FilesAppend(a.calls, c);
    if b.log != a.log {
      forall m
        ensures StartCount(b.log, m) == StartCount(a.log, m)
      {
        StartCountAppend(a.log, b.log[|b.log| - 1], m);
      }
    }
  }

  /** The consistency of the module lists and the life-cycle log: the loaded modules are those created
      whose Initialize did not throw, in order, and Initialize of each comes before its first Start. */
  ghost predicate Consistent(world: World, s: Snapshot) {
    && Distinct(s.invalid)
    && (forall i, k :: 0 <= i < k < |s.loaded| ==> s.loaded[i] < s.loaded[k])
    && (forall m: ModuleId :: m in s.loaded <==> m < s.next && !world.initThrows(m))
    && (forall i :: 0 <= i < |s.log| ==> s.log[i].m < s.next)
    && (forall m: ModuleId :: m < s.next && !world.initThrows(m) ==> Initialised(m) in s.log)
    && InitialisedFirst(world, s.log)
  }

  /** Every Start of a module follows its Initialize, unless its Initialize threw. */
  ghost predicate InitialisedFirst(world: World, log: seq<LifeEvent>) {
    forall i :: 0 <= i < |log| && log[i].Started? && !world.initThrows(log[i].m) ==> Initialised(log[i].m) in log[..i]
  }

  /** Creating a module keeps the lists consistent. */
  lemma CreateKeepsConsistent(world: World, a: Snapshot, b: Snapshot)
    requires Consistent(world, a)
    requires b == (if world.initThrows(a.next)
                   then a.(next := a.next + 1, log := a.log + [InitFailed(a.next)])
                   else a.(next := a.next + 1, loaded := a.loaded + [a.next], log := a.log + [Initialised(a.next)]))
                  .(calls := b.calls)
    ensures Consistent(world, b)
  {
    forall i | 0 <= i < |b.log| && b.log[i].Started? && !world.initThrows(b.log[i].m)
      ensures Initialised(b.log[i].m) in b.log[..i]
    {
      assert b.log[i] == a.log[i] && b.log[..i] == a.log[..i];
    }
    forall i, k | 0 <= i < k < |b.loaded|
      ensures b.loaded[i] < b.loaded[k]
    {
      assert b.loaded[i] in a.loaded;
    }
    forall m: ModuleId
      ensures m in b.loaded <==> m < b.next && !world.initThrows(m)
      ensures m < b.next && !world.initThrows(m) ==> Initialised(m) in b.log
    {
      assert m in a.loaded <==> m < a.next && !world.initThrows(m);
    }
  }

  // ---------------------------------------------------------------- which file a module came from

  /** The loaded modules, and the file each module ever created came from. */
  datatype Loaded = Loaded(modules: seq<ModuleId>, files: seq<string>) {
    ghost predicate Valid() { forall i :: 0 <= i < |modules| ==> modules[i] < |files| }

    /** Some loaded module came from the file. */
    ghost predicate From(file: string)
      requires Valid()
    {
      exists i :: 0 <= i < |modules| && files[modules[i]] == file
    }

    /** What the guard against loading twice is for: no two loaded modules came from one file. */
    ghost predicate OncePerFile()
      requires Valid()
    {
      forall i, k :: 0 <= i < k < |modules| ==> files[modules[i]] != files[modules[k]]
    }
  }

  /** Some loaded module reports the path: what the guard looks at. */
  ghost predicate Reported(world: World, modules: seq<ModuleId>, path: string) {
    exists i :: 0 <= i < |modules| && world.modulePath(modules[i]) == path
  }

  /** Nothing joins the loaded modules: the guard holds, or creation fails, or Initialize throws. */
  ghost predicate IsStopped(world: World, l: Loaded, c: LoadCall) {
    Reported(world, l.modules, c.file) || c.fails || world.initThrows(|l.files|)
  }

  /** One call of LoadModule. */
  ghost function Load(world: World, l: Loaded, c: LoadCall): (r: Loaded)
    requires l.Valid()
    ensures r.Valid()
  {
    if Reported(world, l.modules, c.file) || c.fails then l
    else if world.initThrows(|l.files|) then Loaded(l.modules, l.files + [c.file])
    else Loaded(l.modules + [|l.files|], l.files + [c.file])
  }

  /** All calls of LoadModule in a run, one after the other. */
  ghost function LoadAll(world: World, calls: seq<LoadCall>): (r: Loaded)
    ensures r.Valid()
  {
    if calls == [] then Loaded([], []) else Load(world, LoadAll(world, calls[..|calls| - 1]), calls[|calls| - 1])
  }

  lemma LoadOneMore(world: World, calls: seq<LoadCall>, c: LoadCall)
    ensures LoadAll(world, calls + [c]) == Load(world, LoadAll(world, calls), c)
  {
    assert (calls + [c])[..|calls|] == calls;
  }

  /** Loading a file from which a loaded module came does no harm exactly if some loaded module reports the path of
      the file, or nothing comes of the load anyway. */
  lemma SecondLoad(world: World, l: Loaded, c: LoadCall)
    requires l.Valid()
    ensures Load(world, l, c).OncePerFile() <==> l.OncePerFile() && (l.From(c.file) ==> IsStopped(world, l, c))
  {
    var r, n := Load(world, l, c), |l.modules|;
    assert forall i :: 0 <= i < n ==> r.modules[i] == l.modules[i] && r.files[r.modules[i]] == l.files[l.modules[i]];
    if r.OncePerFile() {
      forall i, k | 0 <= i < k < n
        ensures l.files[l.modules[i]] != l.files[l.modules[k]]
      {
        assert r.files[r.modules[i]] != r.files[r.modules[k]];
      }
    }
    if !IsStopped(world, l, c) {
      assert r.modules[n] == |l.files| && r.files[r.modules[n]] == c.file;
      assert r.OncePerFile() ==> forall i :: 0 <= i < n ==> r.files[r.modules[i]] != r.files[r.modules[n]];
    }
  }

  /** Over a whole run: no file is loaded twice if and only if every call for a file already loaded was stopped. */
  lemma {:induction false} OncePerFileInRun(world: World, calls: seq<LoadCall>)
    ensures LoadAll(world, calls).OncePerFile() <==>
      forall i :: 0 <= i < |calls| ==> SafeCall(world, calls, i)
  {
    if calls != [] {
      var n := |calls| - 1;
      var before := calls[..n];
      OncePerFileInRun(world, before);
      SecondLoad(world, LoadAll(world, before), calls[n]);
      forall i | 0 <= i < n
        ensures SafeCall(world, calls, i) <==> SafeCall(world, before, i)
      {
        assert before[..i] == calls[..i];
      }
      assert SafeCall(world, calls, n) <==>
        (LoadAll(world, before).From(calls[n].file) ==> IsStopped(world, LoadAll(world, before), calls[n]));
      assert LoadAll(world, calls).OncePerFile() <==> LoadAll(world, before).OncePerFile() && SafeCall(world, calls, n);
    }
  }

  /** If a module came from that file when the i-th call was made, the call was stopped. */
  ghost predicate SafeCall(world: World, calls: seq<LoadCall>, i: nat)
    requires i < |calls|
  {
    var l := LoadAll(world, calls[..i]);
    l.From(calls[i].file) ==> IsStopped(world, l, calls[i])
  }

  /** If every loaded module reports the file it came from, no file is loaded twice. */
  lemma {:induction false} HonestOncePerFile(world: World, calls: seq<LoadCall>)
    requires var l := LoadAll(world, calls); forall i :: 0 <= i < |l.modules| ==> world.modulePath(l.modules[i]) == l.files[l.modules[i]]
    ensures LoadAll(world, calls).OncePerFile()
  {
    if calls != [] {
      var n := |calls| - 1;
      var l, r := LoadAll(world, calls[..n]), LoadAll(world, calls);
      assert forall i :: 0 <= i < |l.modules| ==> r.modules[i] == l.modules[i] && r.files[r.modules[i]] == l.files[l.modules[i]];
      HonestOncePerFile(world, calls[..n]);
      SecondLoad(world, l, calls[n]);
    }
  }

  /** The loaded modules are those that the calls of LoadModule have left. */
  ghost predicate CallsOk(world: World, s: Snapshot) {
    LoadAll(world, s.calls).modules == s.loaded && |LoadAll(world, s.calls).files| == s.next
  }

  /** What a call of LoadModule makes of the lists. */
  ghost function AfterLoad(world: World, a: Snapshot, c: LoadCall): Snapshot {
    var b := a.(calls := a.calls + [c]);
    if Reported(world, a.loaded, c.file) || c.fails then b
    else if world.initThrows(a.next) then b.(next := a.next + 1, log := a.log + [InitFailed(a.next)])
    else b.(next := a.next + 1, loaded := a.loaded + [a.next], log := a.log + [Initialised(a.next)])
  }

  lemma LoadKeepsConsistent(world: World, a: Snapshot, c: LoadCall)
    requires Consistent(world, a) && CallsOk(world, a)
    ensures Consistent(world, AfterLoad(world, a, c)) && CallsOk(world, AfterLoad(world, a, c))
  {
    LoadOneMore(world, a.calls, c);
    if !Reported(world, a.loaded, c.file) && !c.fails {
      CreateKeepsConsistent(world, a, AfterLoad(world, a, c));
    }
  }

  lemma StartKeepsConsistent(world: World, a: Snapshot, m: ModuleId)
    requires Consistent(world, a) && m < a.next
    ensures Consistent(world, a.(log := a.log + [Started(m)]))
  {
    var log := a.log + [Started(m)];
    forall i | 0 <= i < |log| && log[i].Started? && !world.initThrows(log[i].m)
      ensures Initialised(log[i].m) in log[..i]
    {
      if i < |a.log| {
        assert log[i] == a.log[i] && log[..i] == a.log[..i];
      } else {
        assert log[..i] == a.log;
      }
    }
  }

  /** A file that has been tried leaves the list of rejected files. */
  lemma TryKeepsCore(world: World, before: Snapshot, loaded: Snapshot, after: Snapshot, i: nat, c: LoadCall)
    requires Consistent(world, loaded) && CallsOk(world, loaded) && i < |before.invalid|
    requires loaded.invalid == before.invalid && loaded.tried == before.tried
    requires loaded.calls == before.calls + [c] && c.file == before.invalid[i]
    requires after == loaded.(invalid := before.invalid[..i] + before.invalid[i + 1..], tried := before.tried + [before.invalid[i]])
    requires before.next <= loaded.next && before.loaded <= loaded.loaded
    requires loaded.log == before.log
          || (|loaded.log| > 0 && !loaded.log[|loaded.log| - 1].Started? && loaded.log == before.log + [loaded.log[|loaded.log| - 1]])
    ensures Consistent(world, after) && CallsOk(world, after) && Progress(before, after, {})
  {
    TryOne(before, after, i, c);
  }

  /** The modules were started in this order, and nothing else happened. */
  ghost predicate InOrder(before: seq<LifeEvent>, modules: seq<ModuleId>, after: seq<LifeEvent>) {
    before <= after && |after| == |before| + |modules|
    && forall i :: 0 <= i < |modules| ==> after[|before| + i] == Started(modules[i])
  }

  lemma StartedNext(before: seq<LifeEvent>, modules: seq<ModuleId>, i: nat, mid: seq<LifeEvent>, after: seq<LifeEvent>)
    requires i < |modules|
    ensures InOrder(before, modules[..i], mid) && after == mid + [Started(modules[i])] ==> InOrder(before, modules[..i + 1], after)
  {
    assert modules[..i + 1] == modules[..i] + [modules[i]];
  }

  lemma StartThenGrow(a: Snapshot, mid: Snapshot, b: Snapshot, m: ModuleId)
    requires Progress(a, mid, {m}) && mid.next == a.next && m < a.next && Grew(mid, b)
    ensures Progress(a, b, {m} + Created(a, b))
  {
    assert Created(mid, b) == Created(a, b);
    ProgressTrans(a, mid, b, {m}, Created(a, b));
  }

  lemma StartAnother(a: Snapshot, mid: Snapshot, b: Snapshot, modules: seq<ModuleId>, i: nat)
    requires i < |modules| && Distinct(modules) && forall k :: 0 <= k < |modules| ==> modules[k] < a.next
    requires Progress(a, mid, SetOf(modules[..i]) + Created(a, mid))
    requires Progress(mid, b, {modules[i]} + Created(mid, b))
    ensures Progress(a, b, SetOf(modules[..i + 1]) + Created(a, b))
    ensures |b.invalid| <= |mid.invalid|
  {
    ProgressTrans(a, mid, b, SetOf(modules[..i]) + Created(a, mid), {modules[i]} + Created(mid, b));
    CreatedSplits(a, mid, b);
    assert modules[..i + 1] == modules[..i] + [modules[i]];
    assert SetOf(modules[..i]) + Created(a, mid) + ({modules[i]} + Created(mid, b))
        == SetOf(modules[..i + 1]) + Created(a, b);
    ConservedShrinks(mid, b);
  }

  /** The scan loop loads, then the loaded modules are started, then the scan starts over. */
  lemma ScanRounds(first: Snapshot, scanned: Snapshot, started: Snapshot, last: Snapshot)
    requires Progress(first, scanned, {}) && Grew(started, last)
    requires Progress(scanned, started, Created(first, scanned)) && started.next == scanned.next
    ensures Grew(first, last)
  {
    ProgressTrans(first, scanned, started, {}, Created(first, scanned));
    CreatedSplits(first, started, last);
    assert Created(first, started) == {} + Created(first, scanned);
    ProgressTrans(first, started, last, Created(first, started), Created(started, last));
  }

  lemma GrewShrinks(a: Snapshot, b: Snapshot)
    requires Grew(a, b)
    ensures |b.invalid| <= |a.invalid|
  {
    ConservedShrinks(a, b);
  }

  class Host {
    const world: World
    var loadedModules: seq<ModuleId>
    var providers: seq<ProviderRef>
    var invalidFiles: seq<string>
    var autoScan: bool
    // history: ids handed out, calls of CreateModule, life-cycle calls, files handed to LoadModule by scans,
    // calls of LoadModule
    var nextModule: ModuleId
    var attempts: nat
    var log: seq<LifeEvent>
    var tried: seq<string>
    ghost var calls: seq<LoadCall>
    /** The list of components in use by the application. */
    var components: seq<InUse>

    ghost function Now(): Snapshot
      reads this
    {
      Snapshot(loadedModules, invalidFiles, nextModule, log, tried, calls)
    }

    ghost predicate Core()
      reads this
    {
      Consistent(world, Now()) && CallsOk(world, Now())
    }

    /** No rejected file is recognised by any registered provider. */
    ghost predicate Settled()
      reads this
    {
      forall f, p :: f in invalidFiles && p in providers && p != NULL_PROVIDER ==> !world.Recognises(p, f)
    }

    /** The host's invariant between calls: while automatic scanning is on, nothing is left to load. */
    ghost predicate Valid()
      reads this
    {
      Core() && (autoScan ==> Settled())
    }

    ghost function Budget(): nat
      reads this
    {
      if autoScan then |invalidFiles| + 1 else 0
    }

    constructor (world: World)
      ensures Valid() && this.world == world && !autoScan
      ensures loadedModules == [] && providers == [] && invalidFiles == [] && nextModule == 0 && log == [] && tried == []
      ensures calls == [] && components == []
    {
      this.world := world;
      loadedModules, providers, invalidFiles, autoScan := [], [], [], false;
      nextModule, attempts, log, tried, calls, components := 0, 0, [], [], [], [];
    }

    /** provider is the first registered one that recognises the file. */
    ghost predicate FirstToRecognise(provider: ProviderRef, file: string)
      reads this
    {
      exists i ::
        && 0 <= i < |providers| && providers[i] == provider && world.Recognises(provider, file)
        && forall k :: 0 <= k < i && providers[k] != NULL_PROVIDER ==> !world.Recognises(providers[k], file)
    }

    method FindModuleProvider(file: string) returns (provider: ProviderRef)
      ensures provider == NULL_PROVIDER ==> forall p :: p in providers && p != NULL_PROVIDER ==> !world.Recognises(p, file)
      ensures provider != NULL_PROVIDER ==> FirstToRecognise(provider, file)
    {
      for i := 0 to |providers|
        invariant forall k :: 0 <= k < i && providers[k] != NULL_PROVIDER ==> !world.Recognises(providers[k], file)
      {
        if providers[i] != NULL_PROVIDER && world.Recognises(providers[i], file) {
          return providers[i];
        }
      }
      return NULL_PROVIDER;
    }

    method AddModuleProvider(provider: ProviderRef)
      requires Valid()
      modifies this
      ensures Valid() && autoScan == old(autoScan) && Grew(old(Now()), Now())
      ensures !old(autoScan) ==> Now() == old(Now()) && components == old(components) && providers == old(providers) + [provider]
      decreases Budget(), 1
    {
      providers := providers + [provider];
      if autoScan {
        ScanInvalidModuleFiles();
      }
    }

    method RemoveModuleProvider(provider: ProviderRef)
      requires Valid()
      modifies this`providers
      ensures Valid()
      ensures providers == WithoutFirst(old(providers), provider)
    {
      WithoutFirstSubset(providers, provider);
      for i := 0 to |providers|
        invariant providers == old(providers)
        invariant provider !in providers[..i]
      {
        if providers[i] == provider {
          WithoutFirstAt(providers, i);
          providers := providers[..i] + providers[i + 1..];
          return;
        }
      }
      WithoutFirstAbsent(providers, provider);
    }

    method RunCommand(command: Command)
      requires Valid()
      modifies this
      ensures Valid() && autoScan == old(autoScan) && Grew(old(Now()), Now())
      ensures !old(autoScan) ==> Now() == old(Now()) && components == old(components)
      decreases Budget(), 2
    {
      GrewRefl(Now());
      match command
      case AddProvider(p) => AddModuleProvider(p);
      case RemoveProvider(p) => RemoveModuleProvider(p);
    }

    /** Module code running inside the host. */
    method RunCommands(commands: seq<Command>)
      requires Valid()
      modifies this
      ensures Valid() && autoScan == old(autoScan) && Grew(old(Now()), Now())
      ensures !old(autoScan) ==> Now() == old(Now()) && components == old(components)
      decreases Budget(), 3
    {
      GrewRefl(Now());
      for i := 0 to |commands|
        invariant Valid() && autoScan == old(autoScan) && Grew(old(Now()), Now()) && Budget() <= old(Budget())
        invariant !old(autoScan) ==> Now() == old(Now()) && components == old(components)
      {
        ghost var before := Now();
        RunCommand(commands[i]);
        GrewTrans(old(Now()), before, Now());
        GrewShrinks(before, Now());
      }
    }

    method GetModuleByPath(path: string) returns (m: Option<ModuleId>)
      ensures m.Some? <==> Reported(world, loadedModules, path)
      ensures m.Some? ==> m.value in loadedModules && world.modulePath(m.value) == path
    {
      for i := 0 to |loadedModules|
        invariant forall k :: 0 <= k < i ==> world.modulePath(loadedModules[k]) != path
      {
        if world.modulePath(loadedModules[i]) == path {
          return Some(loadedModules[i]);
        }
      }
      return None;
    }

    /** Application::UsingModule. */
    method UsingModule(name: string, version: string, path: string)
      modifies this`components
      ensures components == Using(old(components), name, version, path)
    {
      ghost var before := components;
      for i := 0 to |components|
        invariant components == before && forall k :: 0 <= k < i ==> before[k].name != name
      {
        if components[i].name == name {
          UsingAt(before, name, version, path, i);
          components := components[i := components[i].(version := version)];
          return;
        }
      }
      UsingNew(before, name, version, path);
      components := components + [InUse(name, version, path)];
    }

    /** A failed creation leaves no trace; a created module is returned even if its Initialize throws,
        but then it does not join the loaded modules.  The guard against loading twice looks at the paths the loaded
        modules report. */
    method LoadModule(path: string, provider: ProviderRef) returns (m: Option<ModuleId>)
      requires Core() && !autoScan
      modifies this
      ensures Core() && !autoScan && invalidFiles == old(invalidFiles) && tried == old(tried)
      ensures calls == old(calls) + [LoadCall(path, world.createFails(provider, path, old(attempts)))]
      ensures m.None? <==> Reported(world, old(loadedModules), path) || world.createFails(provider, path, old(attempts))
      ensures m.None? ==> Now() == old(Now()).(calls := calls) && providers == old(providers) && components == old(components)
      ensures m.Some? ==> m.value == old(nextModule) && nextModule == m.value + 1
      ensures m.Some? && world.initThrows(m.value) ==>
        loadedModules == old(loadedModules) && log == old(log) + [InitFailed(m.value)] && components == old(components)
      ensures m.Some? && !world.initThrows(m.value) ==>
        && loadedModules == old(loadedModules) + [m.value] && log == old(log) + [Initialised(m.value)]
        && components == Using(old(components), world.moduleName(m.value), world.moduleVersion(m.value), path)
      decreases 0, 6
    {
      ghost var call, before := LoadCall(path, world.createFails(provider, path, attempts)), Now();
      LoadKeepsConsistent(world, before, call);
      var known := GetModuleByPath(path);
      if known.Some? {
        calls := calls + [call];
        return None;
      }
      m := TryLoad(path, provider, call);
    }

    /** The part of LoadModule behind the guard. */
    method TryLoad(path: string, provider: ProviderRef, ghost call: LoadCall) returns (m: Option<ModuleId>)
      requires Core() && !autoScan && !Reported(world, loadedModules, path)
      requires call == LoadCall(path, world.createFails(provider, path, attempts))
      modifies this
      ensures !autoScan && Now() == old(AfterLoad(world, Now(), call))
      ensures m == if call.fails then None else Some(old(nextModule))
      ensures call.fails ==> providers == old(providers) && components == old(components)
      ensures !call.fails ==> components == old(if world.initThrows(nextModule) then components
        else Using(components, world.moduleName(nextModule), world.moduleVersion(nextModule), path))
      decreases 0, 5
    {
      ghost var after := AfterLoad(world, Now(), call);
      attempts := attempts + 1;
      if world.createFails(provider, path, attempts - 1) {
        calls := calls + [call];
        return None;
      }
      m := Some(nextModule);
      InitialiseModule(path, call);
      calls := calls + [call];
      assert Now() == after;
    }

    /** The part of LoadModule behind the creation of the module. */
    method InitialiseModule(path: string, ghost call: LoadCall)
      requires Core() && !autoScan && !call.fails && !Reported(world, loadedModules, call.file)
      modifies this
      ensures !autoScan && Now() == old(AfterLoad(world, Now(), call)).(calls := old(calls))
      ensures components == old(if world.initThrows(nextModule) then components
        else Using(components, world.moduleName(nextModule), world.moduleVersion(nextModule), path))
      decreases 0, 4
    {
      var id := nextModule;
      RunCommands(world.initCommands(id));
      nextModule := id + 1;
      if world.initThrows(id) {
        log := log + [InitFailed(id)];
      } else {
        loadedModules := loadedModules + [id];
        log := log + [Initialised(id)];
        UsingModule(world.moduleName(id), world.moduleVersion(id), path);
      }
    }

    method StartModule(m: ModuleId)
      requires Valid() && m < nextModule
      modifies this
      ensures Valid() && autoScan == old(autoScan)
      ensures Progress(old(Now()), Now(), {m} + Created(old(Now()), Now()))
      ensures !old(autoScan) ==> Now() == old(Now()).(log := log) && log == old(log) + [Started(m)]
      decreases Budget(), 4
    {
      ghost var before := Now();
      var commands := world.startCommands(m, |log|);
      log := log + [Started(m)];
      ghost var mid := Now();
      StartOne(before, m);
      StartKeepsConsistent(world, before, m);
      RunCommands(commands);
      StartThenGrow(before, mid, Now(), m);
    }

    method StartModules(modules: seq<ModuleId>)
      requires Valid() && Distinct(modules) && forall i :: 0 <= i < |modules| ==> modules[i] < nextModule
      modifies this
      ensures Valid() && autoScan == old(autoScan)
      ensures Progress(old(Now()), Now(), SetOf(modules) + Created(old(Now()), Now()))
      ensures !old(autoScan) ==> Now() == old(Now()).(log := log) && InOrder(old(log), modules, log)
      decreases Budget(), 5
    {
      GrewRefl(Now());
      for i := 0 to |modules|
        invariant Valid() && autoScan == old(autoScan) && Budget() <= old(Budget()) && old(nextModule) <= nextModule
        invariant Progress(old(Now()), Now(), SetOf(modules[..i]) + Created(old(Now()), Now()))
        invariant !old(autoScan) ==> Now() == old(Now()).(log := log) && InOrder(old(log), modules[..i], log)
      {
        ghost var before := Now();
        StartModule(modules[i]);
        StartedNext(old(log), modules, i, before.log, log);
        StartAnother(old(Now()), before, Now(), modules, i);
      }
      assert modules[..|modules|] == modules;
    }

    /** The scan's treatment of one rejected file: if a provider recognises it, it is tried, and it
        leaves the list even if loading fails. */
    method TryInvalidFile(i: nat) returns (recognised: bool, m: Option<ModuleId>)
      requires Core() && !autoScan && i < |invalidFiles|
      modifies this
      ensures Core() && !autoScan && Progress(old(Now()), Now(), {})
      ensures !recognised ==> m.None? && Now() == old(Now()) && providers == old(providers)
      ensures !recognised ==> RecognisedByNone(world, providers, invalidFiles[i])
      ensures recognised ==> tried == old(tried) + [old(invalidFiles)[i]]
      ensures recognised ==> invalidFiles == old(invalidFiles)[..i] + old(invalidFiles)[i + 1..]
      ensures m.None? ==> nextModule == old(nextModule) && providers == old(providers)
      ensures m.Some? ==> m.value == old(nextModule) && nextModule == old(nextModule) + 1
      decreases 0, 7
    {
      ghost var before := Now();
      GrewRefl(before);
      var path := invalidFiles[i];
      var provider := FindModuleProvider(path);
      if provider == NULL_PROVIDER {
        return false, None;
      }
      m := LoadModule(path, provider);
      recognised := true;
      ghost var loaded := Now();
      tried := tried + [path];
      invalidFiles := invalidFiles[..i] + invalidFiles[i + 1..];
      TryKeepsCore(world, before, loaded, Now(), i, calls[|calls| - 1]);
    }

    /** The scan's loop when it has come to position i of the list. */
    ghost predicate Scanning(first: Snapshot, i: nat, modulesLoaded: seq<ModuleId>)
      reads this
    {
      Core() && !autoScan && Scanned(world, first, Now(), providers, i, modulesLoaded)
    }

    /** One round of the scan's loop. */
    method ScanOne(ghost first: Snapshot, i: nat, modulesLoaded: seq<ModuleId>) returns (next: nat, modules: seq<ModuleId>)
      requires Scanning(first, i, modulesLoaded) && i < |invalidFiles|
      modifies this
      ensures Scanning(first, next, modules) && |invalidFiles| - next < |old(invalidFiles)| - i
      decreases 0, 8
    {
      ghost var before := Now();
      next, modules := i, modulesLoaded;
      var recognised, m := TryInvalidFile(i);
      if m.Some? {
        modules := modules + [m.value];
      }
      if !recognised {
        next := i + 1;
        UnrecognisedNext(world, providers, invalidFiles, i);
      } else {
        ScannedRecognised(world, first, before, Now(), old(providers), providers, i, modulesLoaded);
      }
    }

    /** The scan's loop over the rejected files. */
    method TryInvalidFiles() returns (modulesLoaded: seq<ModuleId>)
      requires Core() && !autoScan
      modifies this
      ensures Scanning(old(Now()), |invalidFiles|, modulesLoaded)
      decreases 0, 9
    {
      modulesLoaded := [];
      ghost var first := Now();
      GrewRefl(first);
      var i: nat := 0;
      while i < |invalidFiles|
        invariant Scanning(first, i, modulesLoaded)
        decreases |invalidFiles| - i
      {
        i, modulesLoaded := ScanOne(first, i, modulesLoaded);
      }
    }

    method ScanInvalidModuleFiles()
      requires Core()
      modifies this
      ensures Valid() && autoScan && Grew(old(Now()), Now())
      decreases |invalidFiles| + 1, 0
    {
      autoScan := false;
      ghost var first := Now();
      var modulesLoaded := TryInvalidFiles();
      ConservedShrinks(first, Now());
      if |modulesLoaded| > 0 {
        ghost var scanned := Now();
        StartModules(modulesLoaded);
        ghost var started := Now();
        GrewRefl(started);
        assert SetOf(modulesLoaded) + Created(scanned, started) == Created(first, scanned);
        ScanInvalidModuleFiles();
        ScanRounds(first, scanned, started, Now());
      } else {
        assert Created(first, Now()) == {};
      }
      autoScan := true;
    }

    method AddInvalidModuleFile(path: string)
      requires Core() && !autoScan
      modifies this`invalidFiles
      ensures Core()
      ensures invalidFiles == if path in old(invalidFiles) then old(invalidFiles) else old(invalidFiles) + [path]
    {
      if path !in invalidFiles {
        invalidFiles := invalidFiles + [path];
      }
    }

    /** What looking through directory entries has done: the native modules were handed to LoadModule in order, the
        other visible files added to the rejected ones, and nothing was started. */
    ghost predicate Found(first: Snapshot, entries: seq<DirEntry>)
      reads this
    {
      && Core() && !autoScan && first.next <= nextModule && tried == first.tried
      && Files(calls) == Files(first.calls) + VisibleFiles(world, entries, true)
      && invalidFiles == WithFiles(first.invalid, VisibleFiles(world, entries, false))
      && forall m :: StartCount(log, m) == StartCount(first.log, m)
    }

    /** One entry of a directory. */
    method FindOne(entry: DirEntry, ghost first: Snapshot, ghost before: seq<DirEntry>, ghost entries: seq<DirEntry>)
      requires Found(first, before) && entries == before + [entry]
      modifies this
      ensures Found(first, entries)
    {
      VisibleNext(world, before, entry, true);
      VisibleNext(world, before, entry, false);
      if entry.visibleFile {
        if world.Recognises(HOST_PROVIDER, entry.path) {
          ghost var log0, calls0 := log, calls;
          var _ := LoadModule(entry.path, HOST_PROVIDER);
          NoStart(log0, log);
          FilesAppend(calls0, calls[|calls| - 1]);
        } else {
          WithOneMore(first.invalid, VisibleFiles(world, before, false), entry.path);
          AddInvalidModuleFile(entry.path);
        }
      }
    }

    /** One directory of the module path: native modules are loaded, other visible files remembered. */
    method FindBasicModules(entries: seq<DirEntry>, ghost first: Snapshot, ghost before: seq<DirEntry>)
      requires Found(first, before)
      modifies this
      ensures Found(first, before + entries)
    {
      assert before + entries[..0] == before;
      for i := 0 to |entries|
        invariant Found(first, before + entries[..i])
      {
        assert before + entries[..i + 1] == before + entries[..i] + [entries[i]];
        FindOne(entries[i], first, before + entries[..i], before + entries[..i + 1]);
      }
      assert entries[..|entries|] == entries;
    }

    /** The loop over the module path. */
    method FindAllBasicModules(dirs: seq<seq<DirEntry>>)
      requires Core() && !autoScan
      modifies this
      ensures Found(old(Now()), Entries(dirs))
    {
      ghost var first := Now();
      for i := 0 to |dirs|
        invariant Found(first, Entries(dirs[..i]))
      {
        assert dirs[..i + 1][..i] == dirs[..i];
        FindBasicModules(dirs[i], first, Entries(dirs[..i]));
      }
      assert dirs[..|dirs|] == dirs;
    }

    /** The start-up of all modules.  Modules with an id below `basic` came from the module path, those
        below `scanned` from the explicit scan, the others from scans triggered while modules started. */
    method LoadModules(dirs: seq<seq<DirEntry>>) returns (ghost basic: ModuleId, ghost scanned: ModuleId)
      requires Core() && !autoScan
      modifies this
      ensures Valid() && autoScan && AllStarted(Now())
      ensures StartedUp(world, old(Now()), Now(), basic, scanned) && FilesHandled(world, Entries(dirs), old(Now()), Now())
    {
      ghost var first := Now();
      FindAllBasicModules(dirs);
      ghost var found := Now();
      basic := nextModule;
      ScanInvalidModuleFiles();
      ghost var swept := Now();
      scanned := nextModule;
      assert forall i :: 0 <= i < |loadedModules| ==> loadedModules[i] in loadedModules;
      StartModules(loadedModules);
      autoScan := true;
      StartupDone(world, first, found, swept, Now());
      StartupHandles(world, Entries(dirs), first, found, swept, Now(), SetOf(swept.loaded) + Created(swept, Now()));
    }

    /** Unloads the module and erases it from the loaded modules and, by the path it reports, from the components
        in use. */
    method UnregisterModule(m: ModuleId)
      modifies this`loadedModules, this`log, this`components
      ensures log == old(log) + [Unloaded(m)] && loadedModules == Without(old(loadedModules), m)
      ensures components == NotAt(old(components), world.modulePath(m))
    {
      log := log + [Unloaded(m)];
      EraseModule(m);
      EraseComponents(world.modulePath(m));
    }

    method EraseModule(m: ModuleId)
      modifies this`loadedModules
      ensures loadedModules == Without(old(loadedModules), m)
    {
      var j := 0;
      while j < |loadedModules|
        invariant j <= |loadedModules|
        invariant loadedModules[..j] + Without(loadedModules[j..], m) == Without(old(loadedModules), m)
        invariant m !in loadedModules[..j]
        decreases |loadedModules| - j
      {
        assert loadedModules[j..] == [loadedModules[j]] + loadedModules[j + 1..];
        if loadedModules[j] == m {
          loadedModules := loadedModules[..j] + loadedModules[j + 1..];
        } else {
          j := j + 1;
        }
      }
      assert loadedModules[..j] == loadedModules && loadedModules[j..] == [];
    }

    method EraseComponents(path: string)
      modifies this`components
      ensures components == NotAt(old(components), path)
    {
      var i := 0;
      while i < |components|
        invariant i <= |components|
        invariant components[..i] + NotAt(components[i..], path) == NotAt(old(components), path)
        decreases |components| - i
      {
        assert components[i..] == [components[i]] + components[i + 1..];
        if components[i].path == path {
          components := components[..i] + components[i + 1..];
        } else {
          i := i + 1;
        }
      }
      assert components[..i] == components && components[i..] == [];
    }

    method UnloadModules()
      requires Distinct(loadedModules)
      modifies this`loadedModules, this`log, this`components
      ensures loadedModules == []
      ensures ShutDown(old(log), old(loadedModules), log)
      ensures LeftInUse(world, old(loadedModules), old(components), components)
    {
      ghost var before, modules := log, loadedModules;
      StopAll();
      UnloadAll();
      StopsThenUnloads(before, modules, log);
    }

    method StopAll()
      modifies this`log
      ensures log == old(log) + Stops(loadedModules)
    {
      for i := 0 to |loadedModules|
        invariant log == old(log) + Stops(loadedModules)[..i]
      {
        log := log + [Stopped(loadedModules[i])];
      }
    }

    method UnloadAll()
      requires Distinct(loadedModules)
      modifies this`loadedModules, this`log, this`components
      ensures loadedModules == []
      ensures log == old(log) + Unloads(old(loadedModules))
      ensures LeftInUse(world, old(loadedModules), old(components), components)
    {
      ghost var k, all, was := 0, loadedModules, components;
      while |loadedModules| > 0
        invariant k <= |all| && loadedModules == all[k..]
        invariant log == old(log) + Unloads(all)[..k]
        invariant LeftInUse(world, all[..k], was, components)
        decreases |loadedModules|
      {
        WithoutHead(loadedModules);
        LeftWithoutNext(world, all, k, was, components);
        UnregisterModule(loadedModules[0]);
        k := k + 1;
      }
      assert all[..k] == all;
    }

    method UnloadModuleProviders()
      requires Valid()
      modifies this`providers
      ensures Valid() && providers == []
    {
      while |providers| > 0
        invariant Valid()
        decreases |providers|
      {
        RemoveModuleProvider(providers[0]);
      }
    }

    /** A host run up to shutdown. */
    method RunUntilExit(dirs: seq<seq<DirEntry>>, activity: seq<Command>)
      requires Valid() && !autoScan && Now() == Snapshot([], [], 0, [], [], [])
      modifies this
      ensures Valid() && AllStarted(Now()) && FilesHandled(world, Entries(dirs), Snapshot([], [], 0, [], [], []), Now())
    {
      AddModuleProvider(HOST_PROVIDER);
      ghost var first := Now();
      ghost var _, _ := LoadModules(dirs);
      ghost var up := Now();
      RunCommands(activity);
      AllStartedStays(world, up, Now());
      HandledStays(world, Entries(dirs), first, up, Now(), Created(up, Now()));
    }

    /** A whole host run.  `running` is the life-cycle log up to shutdown, `loaded` the modules then loaded:
        each was initialised before it was first started and was started at least once; at shutdown every
        one is stopped before any is unloaded, and nothing stays loaded.  Of the visible files the native modules were
        handed to LoadModule first, in order, and each other one either once later on or never, and then it is still
        rejected.  No file is loaded twice exactly if every call for a file already loaded was stopped. */
    method Run(dirs: seq<seq<DirEntry>>, activity: seq<Command>)
      returns (ghost running: seq<LifeEvent>, ghost loaded: seq<ModuleId>)
      requires Valid() && !autoScan && Now() == Snapshot([], [], 0, [], [], [])
      modifies this
      ensures loadedModules == [] && providers == []
      ensures ShutDown(running, loaded, log) && Distinct(loaded)
      ensures forall m: ModuleId :: m in loaded <==> m < nextModule && !world.initThrows(m)
      ensures forall m :: m in loaded ==> StartCount(running, m) >= 1
      ensures InitialisedFirst(world, running)
      ensures Files(calls) == VisibleFiles(world, Entries(dirs), true) + tried && Distinct(tried + invalidFiles)
      ensures forall f :: f in tried || f in invalidFiles <==> f in VisibleFiles(world, Entries(dirs), false)
      ensures loaded == LoadAll(world, calls).modules
      ensures LoadAll(world, calls).OncePerFile() <==> forall i :: 0 <= i < |calls| ==> SafeCall(world, calls, i)
    {
      RunUntilExit(dirs, activity);
      running, loaded := log, loadedModules;
      HandledOnce(world, Entries(dirs), Now());
      OncePerFileInRun(world, calls);
      UnloadModuleProviders();
      UnloadModules();
    }
  }

  /** A world of modules that all report the same path, whose creation never fails, whose Initialize throws or not, and
      which do nothing. */
  function PlainWorld(path: string, throws: bool): World {
    World(".so", (p, f) => p == 2, (p, f, n) => false, m => path, m => "module", m => "1", m => [], m => throws, (m, n) => [])
  }

  /** In such a world every file loads that has not the reported path. */
  method LoadPlain(h: Host, path: string, provider: ProviderRef, throws: bool)
    requires h.Core() && !h.autoScan && h.world == PlainWorld("dir", throws) && path != "dir"
    modifies h
    ensures h.Core() && !h.autoScan && h.nextModule == old(h.nextModule) + 1
    ensures h.loadedModules == old(h.loadedModules) + if throws then [] else [old(h.nextModule)]
    ensures h.log == old(h.log) + [if throws then InitFailed(old(h.nextModule)) else Initialised(old(h.nextModule))]
    ensures LoadAll(h.world, h.calls).files == old(LoadAll(h.world, h.calls).files) + [path]
  {
    ghost var before := h.calls;
    LoadOneMore(h.world, before, LoadCall(path, false));
    assert !Reported(h.world, h.loadedModules, path);
    var m := h.LoadModule(path, provider);
  }

  /** Native modules report the directory they are in, not their file: the guard does not hold, and one file is
      loaded twice. */
  method FileLoadedTwice() returns (h: Host)
    ensures h.loadedModules == [0, 1] && LoadAll(h.world, h.calls) == Loaded([0, 1], ["dir/a.so", "dir/a.so"])
    ensures !LoadAll(h.world, h.calls).OncePerFile()
  {
    h := new Host(PlainWorld("dir", false));
    LoadPlain(h, "dir/a.so", HOST_PROVIDER, false);
    LoadPlain(h, "dir/a.so", HOST_PROVIDER, false);
    ghost var l := LoadAll(h.world, h.calls);
    assert l.files[l.modules[0]] == l.files[l.modules[1]];
  }

  method HostWithProvider(throws: bool) returns (h: Host)
    ensures fresh(h) && h.Valid() && !h.autoScan && h.world == PlainWorld("dir", throws) && h.providers == [2]
    ensures h.Now() == Snapshot([], [], 0, [], [], [])
  {
    h := new Host(PlainWorld("dir", throws));
    h.AddModuleProvider(2);
  }

  /** A host with a second provider and one rejected file, which it recognises. */
  method RejectedFile(throws: bool) returns (h: Host)
    ensures fresh(h) && h.Core() && !h.autoScan && h.world == PlainWorld("dir", throws) && h.providers == [2]
    ensures h.Now() == Snapshot([], ["a.js"], 0, [], [], [])
  {
    h := HostWithProvider(throws);
    h.AddInvalidModuleFile("a.js");
  }

  /** The file is loaded. */
  method LoadRejected(throws: bool) returns (h: Host)
    ensures fresh(h) && h.Core() && !h.autoScan && h.nextModule == 1
    ensures h.loadedModules == (if throws then [] else [0]) && h.log == [if throws then InitFailed(0) else Initialised(0)]
  {
    h := RejectedFile(throws);
    var provider := h.FindModuleProvider("a.js");
    assert provider != NULL_PROVIDER by {
      assert 2 in h.providers && h.world.Recognises(2, "a.js");
    }
    LoadPlain(h, "a.js", provider, throws);
  }

  /** The statements of LoadModules, on one rejected file: the module is started behind the scan's loop and again
      with all loaded modules. */
  method ModuleStartedTwice() returns (h: Host)
    ensures h.loadedModules == [0] && StartCount(h.log, 0) == 2
  {
    h := LoadRejected(false);
    StartCountAppend([], Initialised(0), 0);
    assert h.log == [] + [Initialised(0)];
    h.StartModules([0]);
    h.StartModules(h.loadedModules);
  }

  /** The same with an Initialize that throws: the module is not among the loaded ones, but started behind the scan's
      loop. */
  method FailedModuleStarted() returns (h: Host)
    ensures h.loadedModules == [] && InitFailed(0) in h.log && StartCount(h.log, 0) == 1
  {
    h := LoadRejected(true);
    StartCountAppend([], InitFailed(0), 0);
    ghost var before := h.log;
    assert before == [] + [InitFailed(0)] && before[0] == InitFailed(0);
    h.StartModules([0]);
    assert before <= h.log;
  }

  /** What has become of the files found at start-up: the native modules were handed to LoadModule, then one after the
      other those files that scans have tried; the other visible files, and those rejected before, each once, make up
      what was tried and what is still rejected. */
  ghost predicate FilesHandled(world: World, entries: seq<DirEntry>, a: Snapshot, b: Snapshot) {
    && a.tried <= b.tried
    && Files(b.calls) == Files(a.calls) + VisibleFiles(world, entries, true) + b.tried[|a.tried|..]
    && multiset(WithFiles(a.invalid, VisibleFiles(world, entries, false))) == multiset(b.invalid) + multiset(b.tried[|a.tried|..])
  }

  /** Later scans keep it so. */
  lemma HandledStays(world: World, entries: seq<DirEntry>, a: Snapshot, b: Snapshot, c: Snapshot, s: set<ModuleId>)
    requires FilesHandled(world, entries, a, b) && Progress(b, c, s)
    ensures FilesHandled(world, entries, a, c)
  {
    var mid, late := b.tried[|a.tried|..], c.tried[|b.tried|..];
    var front := Files(a.calls) + VisibleFiles(world, entries, true);
    assert c.tried[|a.tried|..] == mid + late;
    assert front + (mid + late) == front + mid + late;
  }

  lemma StartupHandles(world: World, entries: seq<DirEntry>, first: Snapshot, found: Snapshot, swept: Snapshot, last: Snapshot,
                       s: set<ModuleId>)
    requires found.tried == first.tried && found.invalid == WithFiles(first.invalid, VisibleFiles(world, entries, false))
    requires Files(found.calls) == Files(first.calls) + VisibleFiles(world, entries, true)
    requires Grew(found, swept) && Progress(swept, last, s)
    ensures FilesHandled(world, entries, first, last)
  {
    assert found.tried[|first.tried|..] == [];
    HandledStays(world, entries, first, found, swept, Created(found, swept));
    HandledStays(world, entries, first, swept, last, s);
  }

  /** In a host run the files tried and those still rejected are, without repetition, the visible files that are no
      native modules. */
  lemma HandledOnce(world: World, entries: seq<DirEntry>, b: Snapshot)
    requires FilesHandled(world, entries, Snapshot([], [], 0, [], [], []), b)
    ensures Files(b.calls) == VisibleFiles(world, entries, true) + b.tried && Distinct(b.tried + b.invalid)
    ensures forall f :: f in b.tried || f in b.invalid <==> f in VisibleFiles(world, entries, false)
  {
    var rejected := WithFiles([], VisibleFiles(world, entries, false));
    assert b.tried[0..] == b.tried;
    WithFilesHas([], VisibleFiles(world, entries, false));
    assert multiset(rejected) == multiset([]) + multiset(b.tried + b.invalid);
    DistinctPart(rejected, [], b.tried + b.invalid);
    forall f
      ensures f in b.tried || f in b.invalid <==> f in rejected
    {
      assert f in rejected <==> f in multiset(rejected);
      assert f in multiset(b.tried) || f in multiset(b.invalid) <==> f in multiset(b.invalid) + multiset(b.tried);
    }
  }

  /** The list of components in use after a module has been loaded: a component of that name gets the version, or a
      new one is added. */
  function Using(cs: seq<InUse>, name: string, version: string, path: string): seq<InUse> {
    if cs == [] then [InUse(name, version, path)]
    else if cs[0].name == name then [cs[0].(version := version)] + cs[1..]
    else [cs[0]] + Using(cs[1..], name, version, path)
  }

  lemma {:induction false} UsingAt(cs: seq<InUse>, name: string, version: string, path: string, i: nat)
    requires i < |cs| && cs[i].name == name && forall k :: 0 <= k < i ==> cs[k].name != name
    ensures Using(cs, name, version, path) == cs[i := cs[i].(version := version)]
  {
    if i > 0 {
      UsingAt(cs[1..], name, version, path, i - 1);
    }
  }

  lemma {:induction false} UsingNew(cs: seq<InUse>, name: string, version: string, path: string)
    requires forall k :: 0 <= k < |cs| ==> cs[k].name != name
    ensures Using(cs, name, version, path) == cs + [InUse(name, version, path)]
  {
    if cs != [] {
      UsingNew(cs[1..], name, version, path);
    }
  }

  function NotAt(cs: seq<InUse>, path: string): seq<InUse> {
    if cs == [] then [] else (if cs[0].path == path then [] else [cs[0]]) + NotAt(cs[1..], path)
  }

  /** All components at the path go, and all others stay in order. */
  lemma {:induction false} NotAtConcat(a: seq<InUse>, b: seq<InUse>, path: string, c: InUse)
    ensures NotAt(a + b, path) == NotAt(a, path) + NotAt(b, path) && NotAt([c], path) == if c.path == path then [] else [c]
  {
    if a == [] {
      assert a + b == b;
    } else {
      assert (a + b)[1..] == a[1..] + b;
      NotAtConcat(a[1..], b, path, c);
    }
  }

  lemma {:induction false} NotAtKeeps(cs: seq<InUse>, path: string)
    ensures forall c :: c in NotAt(cs, path) <==> c in cs && c.path != path
  {
    if cs != [] {
      NotAtKeeps(cs[1..], path);
    }
  }

  /** Every loaded module has been started. */
  ghost predicate AllStarted(s: Snapshot) {
    forall m :: m in s.loaded ==> StartCount(s.log, m) >= 1
  }

  lemma AllStartedStays(world: World, a: Snapshot, b: Snapshot)
    requires AllStarted(a) && Grew(a, b) && Consistent(world, a) && Consistent(world, b)
    ensures AllStarted(b)
  {
    forall m | m in b.loaded
      ensures StartCount(b.log, m) >= 1
    {
      InCreated(a, b, m);
      assert m < b.next && !world.initThrows(m);
      assert m in a.loaded <==> m < a.next;
    }
  }

  lemma NoStart(a: seq<LifeEvent>, b: seq<LifeEvent>)
    requires b == a || (|b| > 0 && !b[|b| - 1].Started? && b == a + [b[|b| - 1]])
    ensures forall m :: StartCount(b, m) == StartCount(a, m)
  {
    if b != a {
      forall m
        ensures StartCount(b, m) == StartCount(a, m)
      {
        StartCountAppend(a, b[|b| - 1], m);
      }
    }
  }

  lemma {:induction false} NotYetStarted(log: seq<LifeEvent>, m: ModuleId)
    requires forall i :: 0 <= i < |log| ==> log[i].m < m
    ensures StartCount(log, m) == 0
  {
    if log != [] {
      NotYetStarted(log[..|log| - 1], m);
    }
  }

  /** How often Start was called on m by start-up as a whole. */
  ghost function StartupStarts(world: World, basic: ModuleId, scanned: ModuleId, m: ModuleId): nat {
    (if m < scanned && !world.initThrows(m) then 1 else 0) + (if basic <= m then 1 else 0)
  }

  /** Which modules start-up starts exactly once: one that did not fail to initialise unless the explicit scan
      loaded it, one of the scan that failed, and any loaded later. */
  lemma StartedOnce(world: World, basic: ModuleId, scanned: ModuleId, m: ModuleId)
    requires basic <= scanned
    ensures StartupStarts(world, basic, scanned, m) == 1 <==>
      if m < basic then !world.initThrows(m) else m < scanned ==> world.initThrows(m)
    ensures StartupStarts(world, basic, scanned, m) == 2 <==> basic <= m < scanned && !world.initThrows(m)
  {
  }

  /** The phases of start-up added up. */
  lemma StartCounts(world: World, first: Snapshot, found: Snapshot, swept: Snapshot, last: Snapshot)
    requires Consistent(world, first) && Consistent(world, swept) && Consistent(world, last)
    requires first.next <= found.next && forall m :: StartCount(found.log, m) == StartCount(first.log, m)
    requires Grew(found, swept) && Progress(swept, last, SetOf(swept.loaded) + Created(swept, last))
    ensures AllStarted(last)
    ensures forall m :: first.next <= m < last.next ==>
      StartCount(last.log, m) == StartupStarts(world, found.next, swept.next, m)
  {
    forall m: ModuleId | m < last.next
      ensures m >= first.next ==> StartCount(last.log, m) == StartupStarts(world, found.next, swept.next, m)
      ensures m in last.loaded ==> StartCount(last.log, m) >= 1
    {
      InCreated(found, swept, m);
      InCreated(swept, last, m);
      assert m in swept.loaded <==> m < swept.next && !world.initThrows(m);
      assert m in last.loaded <==> m < last.next && !world.initThrows(m);
      if m >= first.next {
        NotYetStarted(first.log, m);
      }
    }
  }

  /** How often start-up has started each module that it has created. */
  ghost predicate StartedUp(world: World, first: Snapshot, last: Snapshot, basic: ModuleId, scanned: ModuleId) {
    && first.next <= basic <= scanned <= last.next
    && forall m :: first.next <= m < last.next ==> StartCount(last.log, m) == StartupStarts(world, basic, scanned, m)
  }

  /** What start-up has done when it is through. */
  lemma StartupDone(world: World, first: Snapshot, found: Snapshot, swept: Snapshot, last: Snapshot)
    requires Consistent(world, first) && Consistent(world, swept) && Consistent(world, last)
    requires first.next <= found.next && forall m :: StartCount(found.log, m) == StartCount(first.log, m)
    requires Grew(found, swept) && Progress(swept, last, SetOf(swept.loaded) + Created(swept, last))
    ensures AllStarted(last) && StartedUp(world, first, last, found.next, swept.next)
  {
    StartCounts(world, first, found, swept, last);
  }

  /** The components left in use are those at paths that none of the modules reports. */
  ghost predicate LeftInUse(world: World, modules: seq<ModuleId>, before: seq<InUse>, after: seq<InUse>) {
    forall c :: c in after <==> c in before && !Reported(world, modules, c.path)
  }

  lemma LeftWithoutNext(world: World, all: seq<ModuleId>, k: nat, before: seq<InUse>, now: seq<InUse>)
    requires k < |all| && LeftInUse(world, all[..k], before, now)
    ensures LeftInUse(world, all[..k + 1], before, NotAt(now, world.modulePath(all[k])))
  {
    NotAtKeeps(now, world.modulePath(all[k]));
    assert all[..k + 1] == all[..k] + [all[k]];
    forall path
      ensures Reported(world, all[..k + 1], path) <==> Reported(world, all[..k], path) || world.modulePath(all[k]) == path
    {
      if Reported(world, all[..k], path) {
        var i :| 0 <= i < k && world.modulePath(all[i]) == path;
        assert all[..k + 1][i] == all[i];
      }
      if world.modulePath(all[k]) == path {
        assert all[..k + 1][k] == all[k];
      }
    }
  }

  /** First every module is stopped, then every module is unloaded, both in load order, and nothing else happens. */
  ghost predicate ShutDown(before: seq<LifeEvent>, modules: seq<ModuleId>, after: seq<LifeEvent>) {
    var n := |modules|;
    && before <= after && |after| == |before| + 2 * n
    && forall i :: 0 <= i < n ==>
         after[|before| + i] == Stopped(modules[i]) && after[|before| + n + i] == Unloaded(modules[i])
  }

  lemma StopsThenUnloads(before: seq<LifeEvent>, modules: seq<ModuleId>, after: seq<LifeEvent>)
    requires after == before + Stops(modules) + Unloads(modules)
    ensures ShutDown(before, modules, after)
  {
  }

  function Stops(modules: seq<ModuleId>): seq<LifeEvent> {
    seq(|modules|, i requires 0 <= i < |modules| => Stopped(modules[i]))
  }

  function Unloads(modules: seq<ModuleId>): seq<LifeEvent> {
    seq(|modules|, i requires 0 <= i < |modules| => Unloaded(modules[i]))
  }

  function Without(s: seq<ModuleId>, x: ModuleId): seq<ModuleId> {
    if s == [] then [] else (if s[0] == x then [] else [s[0]]) + Without(s[1..], x)
  }

  /** All occurrences go, and all other modules stay in order. */
  lemma {:induction false} WithoutConcat(a: seq<ModuleId>, b: seq<ModuleId>, x: ModuleId, y: ModuleId)
    ensures Without(a + b, x) == Without(a, x) + Without(b, x) && Without([y], x) == if x == y then [] else [y]
  {
    if a == [] {
      assert a + b == b;
    } else {
      assert (a + b)[1..] == a[1..] + b;
      WithoutConcat(a[1..], b, x, y);
    }
  }

  lemma {:induction false} WithoutAbsent(s: seq<ModuleId>, x: ModuleId)
    requires x !in s
    ensures Without(s, x) == s
  {
    if s != [] {
      WithoutAbsent(s[1..], x);
    }
  }

  lemma WithoutHead(s: seq<ModuleId>)
    requires s != [] && s[0] !in s[1..]
    ensures Without(s, s[0]) == s[1..]
  {
    WithoutAbsent(s[1..], s[0]);
  }
}
