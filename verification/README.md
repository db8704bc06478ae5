# Kroll core: a verified model

This project models the parts of the Kroll microkernel whose correctness does not depend on the script engines and
window systems around it, and proves what they are for.  One module stands for one source file or one component.

| files | what they model |
|---|---|
| `MainThreadJobs`, `MainThreadInvariant`, `MainThreadTheorems`, `MainThreadOrder` | The invocation of methods on the main thread, on Linux and Win32, as a step relation: a stack of program counters for each thread, the job queue, its mutex, semaphores, tickle messages, and the life of every job. `MainThreadInvariant` proves the inductive invariant, the others the results over all interleavings. |
| `MainThreadHost` | The same protocol as code: the job class and the host functions as they run on the main thread, tied to the step functions. |
| `ModuleLoader` | The module loader with its fixpoint scan and the life cycle of modules over a whole run. |
| `Decimal`, `BoundList` | A list stored as decimal-named properties and a length. |
| `Namespaces` | `SetNS` and `GetNS` on a graph of objects. |
| `Strings` | `Tokenize`, `Trim` and searching, used by most others. |
| `Versions`, `Components` | Version order, sorting of installed components, dependency resolution. |
| `Unicode` | UTF-16 and UTF-8 conversion; the ICU macros are defined from sections 2.1 and 2.2 of RFC 2781 and sections 3 and 4 of RFC 3629. |
| `Urls` | Percent-encoding (section 2.1 of RFC 3986) and file URLs. |
| `Manifest`, `ManifestApplication` | The manifest printer and reader, and what an application takes from a manifest. |
| `Events` | Listener registration and event dispatch. |
| `Blobs` | Splitting and concatenating blobs. |
| `AsyncJobs` | Jobs with progress, completion and error callbacks, on top of the main-thread queue. |
| `Wrappers` | The option type, and lists without repetition. |

`dafny verify dfyconfig.toml` checks the whole project.

Classes follow the source where it updates objects in place; each of their methods is specified by a function of the
old state, and the results are proved about those functions.  Code the model does not contain enters as a parameter that
may be anything: what called methods return or throw (`CallOutcome`), what module code and callbacks do
(`World`, `Behaviour`, `Effect`), what the work of a job does (`Step`, `Ending`), what is found on disk, and how many bytes ICU skips
at malformed UTF-8 (`Recovery`).

## Where the code differs from what it or its documentation says

- A dependency with the requirement `<=` is read from the manifest but never met by an installed component
  (api/utils/application.cpp:353-357); `Components.LteIgnored` gives the exact condition and `Components.LteMissed` an input.
- `KList::IsInt` accepts the empty name (api/binding/klist.cpp:63-71), so setting the property with the empty name writes index 0
  (`BoundList.EmptyNameWritesIndexZero`).
- The sort is commented as choosing always the latest version of a component (api/utils/boot_utils.cpp:59-61), but version
  parts are compared as texts (api/utils/boot_utils.cpp:220), so 1.10 is older than 1.9 (`Versions.TenBeforeNine`).
- Removing an element other than the last leaves the property of the old last index behind
  (api/binding/static_bound_list.cpp:44-49); `BoundList.StaticBoundList.Remove` and `SetAt` say exactly when this shows.
- `EventListener::Matches` compares the event name with itself (api/binding/k_event_object.cpp:206); removal ignores the name.
  `Events.RemovalUnderName` and `Events.RemovalById` say exactly when removal does what it is for; the id zero without a
  callback removes every listener.  Dispatch copies pointers to listeners: `Events.SoundDispatch` says exactly when it
  uses none that a callback has deleted.
- Modules loaded by the explicit scan of `LoadModules` are started twice (api/host.cpp:552 and 626). A module whose `Initialize`
  throws is still started by a scan (`ModuleLoader.FailedModuleStarted`).  `ModuleLoader.StartedOnce` says which modules are started
  exactly once.
- `PrintException` dereferences the value of the exception of an asynchronous job without a result
  (host/linux/linux_job.cpp:74-81). There is none if its method returned a null reference, and none if it let an exception
  without a value through, as a nested synchronous call throws whose method returned a null reference
  (host/linux/host.cpp:121-128). The null pointer exception leaves the handler. `MainThreadTheorems.FailsOnEmptyOutcome` and
  `EveryCallReturns` give the exact condition, `NullReferenceFailsHandler` and `NestedNullFailsHandler` inputs.
- The comment on the table of safe characters says that only alphanumeric characters are safe; the table also has the
  full stop and the underscore (api/utils/url_utils.cpp:41-64).
- `Blob::Split` says it follows ECMA-262 but skips one character for each separator, however long the separator is
  (api/binding/blob.cpp:319).
- The operator of a manifest dependency is looked for anywhere in the value, but the version starts behind as many characters
  from the front (api/utils/boot_utils.cpp:292-323); `ManifestApplication.DependencyRoundTrip` gives the exact condition for
  each operator and `TornVersion` an input.
- `SetNS` steps through methods and lists and `GetNS` does not (api/binding/kobject.cpp:272-321), and on a ring of objects a write may
  change the way to it; `Namespaces.GetAfterSet` gives the exact condition, `MethodHidesValue` and
  `RingHidesValue` inputs.
- The guard against loading a module twice compares the path of the file with the path the module reports
  (api/host.cpp:466), which is its directory for native modules (host/linux/host.cpp:80-81). `ModuleLoader.SecondLoad` and
  `OncePerFileInRun` say exactly when a file is loaded twice, `FileLoadedTwice` shows a run.

## Model

| member | source | states |
|---|---|---|
| MainThreadInvariant.TopFacts | host/linux/host.cpp:94-163 | At every program point of an invocation or of the handler, the invariant fixes what the thread may rely on: whether its job is queued, live, started and signalled |
| MainThreadInvariant.TouchedSteps | host/linux/linux_job.cpp:26-57 | Whatever a step does to a job it uses is one of: start it, record its one outcome, signal it once, take the signal, delete it once as its owner |
| MainThreadInvariant.MutexMoves | host/linux/host.cpp:106-108 | A step takes the queue mutex only when it is free and releases it only when its own thread holds it |
| MainThreadInvariant.EnqueuedGrows | host/linux/host.cpp:106-107 | Only the push statement extends the queue, by one job never pushed before and not started |
| MainThreadInvariant.HandlerMovesQueue | host/linux/host.cpp:137-149 | The handler either swaps the whole queue out, or starts the first job swapped out, or moves no job |
| MainThreadInvariant.StepKeepsFrames | host/linux/host.cpp:94-163 | Every step of every thread keeps all activations consistent with their jobs, including those of other threads |
| MainThreadInvariant.StepKeepsOrder | host/linux/host.cpp:106-149 | What was pushed is at all times, in push order: started, then swapped out, then still queued |
| MainThreadInvariant.StepKeepsQueued | host/linux/host.cpp:145-160 | A job not yet started is untouched; one the handler has passed is done: signalled if synchronous, deleted if not |
| MainThreadInvariant.StepKeepsOwned | host/linux/host.cpp:110-160 | No leak: a live job belongs to an activation of its invoker or, once pushed and asynchronous, to the handler |
| MainThreadInvariant.StepKeepsResults | host/linux/host.cpp:120-128 | Every finished call has seen the outcome of its own job |
| MainThreadInvariant.StepKeepsWakeup | host/win32/host.cpp:121-172 | A push keeps the wake-up condition of the Win32 queue |
| MainThreadInvariant.StepKeepsInv | host/linux/host.cpp:94-163 | Every step of every thread, on both platforms, keeps the whole invariant |
| MainThreadTheorems.NoUseAfterDelete | host/linux/host.cpp:145-160 | In every reachable state, a job that some thread uses in its next step, waits on, or runs, has not been deleted |
| MainThreadTheorems.DeletedByOwner | host/linux/host.cpp:110-160 | Each job is started and deleted at most once, deleted only after it finished, and by its owner: a synchronous one by its invoker, an asynchronous one by the main thread |
| MainThreadTheorems.AtRestAllFreed | host/linux/host.cpp:94-163 | Once the queue is drained and all calls have returned, every job ever made was started exactly once and deleted exactly once; this state is reached only if every asynchronous method has ended with a value or an exception that holds one |
| MainThreadTheorems.StartedInPushOrder | host/linux/host.cpp:106-160 | Queued jobs are started exactly in the order they were pushed, across batches, each once |
| MainThreadTheorems.CallerSeesOwnResult | host/linux/host.cpp:110-128 | A synchronous call returns the value of its own method, throws its exception, or throws an exception without a value for a null reference; an asynchronous one returns Undefined and its job is queued |
| MainThreadTheorems.ResultOfRun | host/linux/host.cpp:110-128 | In every run, what a synchronous caller gets is how some thread, running the job of that call, left its method: the value returned, the exception thrown, an exception without a value for a null reference |
| MainThreadTheorems.StepIgnoresOthers | host/linux/host.cpp:94-163 | Every job whose memory a step uses is counted as used: whatever any other job is like, the step does the same and leaves that job alone |
| MainThreadTheorems.MutexHeldBriefly | host/linux/host.cpp:106-144 | The thread that holds the mutex is neither running a method nor waiting, and can take its next step |
| MainThreadTheorems.MainNeverWaits | host/linux/host.cpp:100-118 | Only the main thread runs methods; its own synchronous calls bypass the queue and never block |
| MainThreadTheorems.NoLostWakeup | host/win32/host.cpp:79-97 | While the Win32 queue is not empty, a tickle message is pending, or the main thread has taken one and not yet swapped the queue out, or some invoker is between its push and its post |
| MainThreadTheorems.OwedStepWorks | host/linux/host.cpp:94-163 | Every step that does not start new work lowers a measure of the work left |
| MainThreadTheorems.SomethingOwed | host/linux/host.cpp:94-163 | No deadlock: unless everything is at rest or the handler has failed, some thread can take such a step |
| MainThreadTheorems.EveryCallReturns | host/linux/host.cpp:94-163 | From every reachable state, schedules that start no new calls are bounded in length; one that cannot be prolonged has returned every call, executed every queued job and freed every job if and only if no asynchronous method has ended with neither a value nor an exception value |
| MainThreadTheorems.StepKeepsEmptyOk | host/linux/linux_job.cpp:74-81 | The handler never gets past the PrintException of an asynchronous job that has neither a value nor an exception value |
| MainThreadTheorems.FailsOnEmptyOutcome | host/linux/host.cpp:155-159 | Unless it is just about to print it, the handler has failed if and only if some asynchronous method has ended with neither a value nor an exception value: a null reference, or an exception without a value; that job is not deleted |
| MainThreadTheorems.FailedForGood | host/linux/host.cpp:149-160 | After a failure no job is ever started again, neither the rest of the batch nor anything pushed later |
| MainThreadTheorems.NullReferenceFailsHandler | host/linux/linux_job.cpp:74-81 | A reachable state in which one asynchronous method has returned a null reference, the handler has failed and the job is not freed |
| MainThreadTheorems.NestedNullFailsHandler | host/linux/host.cpp:121-128 | A reachable state in which the handler has failed although no asynchronous method returned a null reference: a synchronous call inside one did, and its caller let the exception without a value through |
| MainThreadTheorems.NoNullNoFailure | host/linux/host.cpp:121-160 | In every run in which methods throw an exception without a value only if a call of their thread has thrown one, and no method, synchronous or not, returns a null reference, the handler never fails |
| MainThreadTheorems.LogsOnlyGrow | host/linux/host.cpp:106-153 | Along every schedule the logs of pushes and starts only grow, so earlier in a log means earlier in time |
| MainThreadTheorems.FlagMustBeReadBeforeExecute | host/linux/host.cpp:151-158 | A reachable state in which the handler is behind Execute and the job is already deleted: reading IsSynchronous there would touch freed memory |
| MainThreadOrder.MovesKeepThreadOrder | host/linux/host.cpp:94-108 | Every step keeps the jobs of each thread in the queue in the order of its calls |
| MainThreadOrder.StepKeepsNoGaps | host/linux/host.cpp:94-108 | A call that goes through the queue is in it, or its thread is just about to push it |
| MainThreadOrder.EarlierCallsFirst | host/linux/host.cpp:94-160 | When a queued call is executed, every earlier queued call of the same thread has been executed before it |
| MainThreadOrder.RunMakesCalls | host/linux/host.cpp:94-108 | In every run the jobs of a thread are exactly the calls it has made, in the order in which it made them |
| MainThreadOrder.CallsMadeAre | host/linux/host.cpp:94-108 | The calls of a thread in a schedule are its beginnings of calls, each with its own method and flag, in order, and nothing else |
| MainThreadHost.NativeJob.Execute | host/linux/linux_job.cpp:32-57 | Execute has exactly the effect of the three steps start, finish and signal on the job, whatever the method does |
| MainThreadHost.NativeJob.Wait | host/win32/win32_job.cpp:30-34 | Wait consumes one signal of a synchronous job and does nothing for an asynchronous one |
| MainThreadHost.NativeJob.PrintException | host/linux/linux_job.cpp:74-82 | Fails exactly if the job has neither a value nor an exception value |
| MainThreadHost.HandledIsDone | host/linux/host.cpp:151-159 | The handler fails exactly at an asynchronous job that ends with neither a value nor an exception value, and leaves it behind; otherwise an asynchronous job is freed once, and a synchronous one is live, signalled and readable as its own method outcome |
| MainThreadHost.Host.InvokeOnMainThread | host/win32/host.cpp:121-159 | Called on the main thread: a synchronous call returns or throws what its method does and frees its job, an asynchronous one appends a new job; on Win32 one tickle is posted either way |
| MainThreadHost.Host.HandleOne | host/linux/host.cpp:149-159 | One round of the handler: the job is used only while it is live, printed if asynchronous, and then freed unless printing fails |
| MainThreadHost.Host.HandleJobs | host/linux/host.cpp:131-163 | The handler executes the jobs of the queue it found in order, each once, up to and including the first asynchronous one that ends with neither a value nor an exception value; it comes to its end exactly if there is none; the queue then holds exactly what arrived meanwhile |
| ModuleLoader.Host.FindModuleProvider | api/host.cpp:296-312 | The first registered non-null provider that recognises the file, or none if no provider does |
| ModuleLoader.Host.AddModuleProvider | api/host.cpp:285-294 | With automatic scanning on, registering a provider leaves no rejected file recognised by any provider, starts every module it created exactly once and no other; with scanning off it only registers |
| ModuleLoader.Host.RemoveModuleProvider | api/host.cpp:314-325 | Removes the first occurrence of the provider and keeps the invariant |
| ModuleLoader.Host.RunCommands | api/host.cpp:285-325 | Code running inside Initialize or Start may register and remove providers; the invariant holds throughout, and with scanning off nothing is loaded |
| ModuleLoader.Host.LoadModule | api/host.cpp:461-515 | Null exactly if a loaded module reports that path or creation fails; a module whose Initialize throws is returned but does not join the loaded modules; one that joins them is put in the list of components in use |
| ModuleLoader.SecondLoad | api/host.cpp:465-471 | A load keeps the rule that no file is loaded twice if and only if no loaded module came from the file, or some loaded module reports its path, or creation or Initialize fails |
| ModuleLoader.OncePerFileInRun | api/host.cpp:461-515 | Over all calls of a run: no file is loaded twice if and only if each call for a file already loaded was stopped in one of these ways |
| ModuleLoader.HonestOncePerFile | api/host.cpp:465-471 | If every loaded module reports the file it came from, no file is loaded twice |
| ModuleLoader.FileLoadedTwice | host/linux/host.cpp:80-81 | A concrete run in which modules report their directory and one file is loaded twice |
| ModuleLoader.Host.UsingModule | api/utils/application.cpp:393-411 | A component of that name gets the version, else a new component is added |
| ModuleLoader.Host.GetModuleByPath | api/host.cpp:648-659 | None exactly if no loaded module has the path |
| ModuleLoader.Host.StartModules | api/host.cpp:636-646 | Starts exactly the given modules once each, plus each module loaded meanwhile exactly once; with scanning off nothing but these starts happens, in list order |
| ModuleLoader.Host.TryInvalidFile | api/host.cpp:601-624 | A recognised file leaves the list even if loading it fails; an unrecognised one stays and nothing changes |
| ModuleLoader.Host.TryInvalidFiles | api/host.cpp:598-624 | One scan loop: exactly the files that are tried leave the list, each tried once, and if nothing was loaded no file left is recognised |
| ModuleLoader.Host.ScanInvalidModuleFiles | api/host.cpp:594-634 | Terminates, each round with strictly fewer rejected files; afterwards no rejected file is recognised by any provider, every module created was started once, every file that left was tried once |
| ModuleLoader.Host.AddInvalidModuleFile | api/host.cpp:584-592 | The list of rejected files never holds duplicates |
| ModuleLoader.Host.LoadModules | api/host.cpp:534-557 | Afterwards every loaded module has been started, and how often is exact: modules of the explicit scan twice, all others once, except that one whose Initialize threw is started by a scan only; every visible file was handed to LoadModule at its place, native modules first, or is still rejected |
| ModuleLoader.NativeModules | api/host.cpp:336-343 | The host takes exactly the files whose name ends in its suffix with something in front of it |
| ModuleLoader.VisibleNext | api/host.cpp:559-582 | Which files are looked at: those that are no directory and not hidden, in order, split into native modules and others |
| ModuleLoader.EntriesNext | api/host.cpp:541-544 | All directories of the module path are looked through, in order |
| ModuleLoader.Host.UnregisterModule | api/host.cpp:674-706 | Unloads the module, removes every occurrence of it, and removes every component in use at the path it reports |
| ModuleLoader.WithoutConcat | api/host.cpp:681-692 | Every occurrence of the module goes, and all other modules stay in order |
| ModuleLoader.NotAtConcat | api/host.cpp:694-705 | Every component at the path goes, and all others stay in order |
| ModuleLoader.Host.UnloadModules | api/host.cpp:517-532 | The log grows by two events for each module: Stop of every module in load order, then Unload of every module in load order; the list is empty; the components left in use are those at paths no module reported |
| ModuleLoader.Host.Run | api/host.cpp:727-780 | A whole host run: each loaded module was initialised before its first Start and started at least once; every visible file was handed to LoadModule, native modules first and in order, others at most once, or is still rejected; no file is loaded twice exactly if every repeated call was stopped; at shutdown all are stopped, then all unloaded, and nothing stays loaded |
| ModuleLoader.HandledOnce | api/host.cpp:534-634 | Over a run the files that scans have tried and those still rejected are, without repetition, the visible files that are no native modules; the files handed to LoadModule are the native modules, then the tried ones |
| ModuleLoader.HandledStays | api/host.cpp:594-634 | Later scans keep that account |
| ModuleLoader.StartedOnce | api/host.cpp:534-557 | Which modules start-up starts exactly once, and which twice |
| ModuleLoader.ModuleStartedTwice | api/host.cpp:619-626 | The statements of start-up on one rejected file start its module twice |
| ModuleLoader.FailedModuleStarted | api/host.cpp:608-626 | A module whose Initialize throws is started by the scan that loaded it |
| ModuleLoader.ScanRounds | api/host.cpp:594-634 | A scan loop, the starts after it and the next scan together start each new module once and try each file once |
| ModuleLoader.StartCounts | api/host.cpp:534-557 | How often each module is started by the phases of start-up together |
| ModuleLoader.CreateKeepsConsistent | api/host.cpp:461-515 | The loaded modules are always exactly the created ones whose Initialize did not throw, in order, and Initialize precedes Start |
| Decimal.NumberOfPrinted | api/binding/klist.cpp:56-61 | Reading a printed index gives the index, and printed indices have no superfluous zeros |
| Decimal.PrintInjective | api/binding/klist.cpp:56-61 | Different indices have different names |
| Decimal.PrintedDigits | api/binding/klist.cpp:56-61 | The last character is the last decimal digit, before it stands the rest printed |
| Decimal.NumberOfDigits | api/binding/static_bound_list.cpp:70-81 | One more digit makes ten times the number and the digit |
| Decimal.CanonicalIffPrinted | api/binding/klist.cpp:56-71 | A name is a printed index exactly if it is non-empty, all digits and without leading zero |
| BoundList.IsInt | api/binding/klist.cpp:63-71 | True exactly if all characters are digits, so also for the empty name |
| BoundList.StaticBoundObject.Set | api/binding/static_bound_object.cpp:41-49 | Writes one property and no other |
| BoundList.StaticBoundObject.UnSet | api/binding/static_bound_object.cpp:51-69 | Removes one property and no other |
| BoundList.StaticBoundObject.GetPropertyNames | api/binding/static_bound_object.cpp:71-86 | Every property name exactly once, in the order of the map |
| BoundList.StaticBoundList.Append | api/binding/static_bound_list.cpp:25-30 | Appends to the sequence the list stands for |
| BoundList.StaticBoundList.SetAt | api/binding/static_bound_list.cpp:32-38 | Updates an element; beyond the end the gap reads as Undefined exactly if no property was left behind there |
| BoundList.StaticBoundList.Remove | api/binding/static_bound_list.cpp:40-56 | Deletes with shift; out of range nothing changes; afterwards no stale property exists exactly if the last element was removed or it was not stored |
| BoundList.StaticBoundList.Set | api/binding/static_bound_list.cpp:70-81 | A digit name below 2^31 writes that index; the value can be read back under the same name exactly if the name is canonical, no digit name, or already read as that value |
| BoundList.StaticBoundList.GetIsAt | api/binding/static_bound_list.cpp:63-86 | For canonical names Get and At agree |
| BoundList.StaticBoundList.ResizeTo | api/binding/klist.cpp:14-30 | Truncates, or fills up with Undefined, or does nothing |
| BoundList.StaticBoundList.Perform | api/binding/static_bound_list.cpp:25-86 | Any sequence of Append, SetAt up to the end, Remove and ResizeTo acts as on a plain sequence |
| BoundList.OperationsByIndex | api/binding/static_bound_list.cpp:25-56 | What the operations on a plain sequence are, index by index |
| BoundList.ApplyInOrder | api/binding/static_bound_list.cpp:25-56 | A sequence of operations is applied in order |
| BoundList.EmptyNameWritesIndexZero | api/binding/klist.cpp:63-71 | A concrete run in which setting the empty name writes index 0 and cannot be read back |
| BoundList.StaleElementReappears | api/binding/static_bound_list.cpp:44-49 | A concrete run in which a write past the end brings a deleted element back |
| Namespaces.BoundObject.SetNS | api/binding/kobject.cpp:252-291 | On any graph of objects: succeeds exactly if everything on the way is undefined or an object of some kind; on failure nothing changed; on success the whole new graph is given: one old property changed, the first undefined one of the path or the last, with a chain of new objects for the segments behind it and the value at its end |
| Namespaces.BoundObject.GetNS | api/binding/kobject.cpp:293-322 | The value reached by stepping through proper objects only, Undefined if that is not possible |
| Namespaces.WriteFrame | api/binding/kobject.cpp:252-291 | On any graph, a write changes no path that does not read the written property |
| Namespaces.SetOnTree | api/binding/kobject.cpp:252-291 | On a tree: undefined intermediates became objects, and every path that neither is a prefix of the name nor extends it reads as before |
| Namespaces.OnePath | api/binding/kobject.cpp:252-291 | In a tree there is only one path to an object |
| Namespaces.Blocked | api/binding/kobject.cpp:272-278 | A value that is no object can stop SetNS only before anything was created |
| Namespaces.SegmentsAreTokens | api/binding/kobject.cpp:254-303 | SetNS and GetNS split a name the same way exactly if it has no empty segment |
| Namespaces.SegmentsJoin | api/binding/kobject.cpp:293-319 | The segments GetNS looks up are what stands between the dots of the name, empty ones included |
| Namespaces.GetAfterSet | api/binding/kobject.cpp:252-322 | For such names, on any graph, GetNS returns the value just set if and only if there were only proper objects or undefined values on the way and no earlier step reads the written property, or the value is Undefined; the remaining case is OverwrittenOnTheWay |
| Namespaces.OverwrittenOnTheWay | api/binding/kobject.cpp:252-322 | If the value is an object and an earlier step of the name reads the written property (a ring of objects), GetNS goes on from the new value as if from the root of the rest of the name |
| Namespaces.RingHidesValue | api/binding/kobject.cpp:252-322 | An object that holds itself: a scalar set under k.k is not found by GetNS |
| Namespaces.MethodHidesValue | api/binding/kobject.cpp:272-310 | A method or a list on the way: SetNS writes into it, and GetNS does not find the value |
| Namespaces.MethodOnTheWay | api/binding/kobject.cpp:272-310 | The same as a run on real objects: SetNS succeeds, the value is in the method or list, GetNS answers Undefined |
| Namespaces.GraftKeepsClosed | api/binding/kobject.cpp:252-291 | SetNS keeps the graph free of references to objects outside it, so further calls apply |
| Strings.Tokenize | api/utils/file_utils.cpp:169-199 | Appends the maximal delimiter-free stretches in order, skipping those already listed if asked to |
| Strings.AddAllNext | api/utils/file_utils.cpp:185-195 | Each token goes to the end of the list, unless it is there already and such tokens are to be skipped |
| Strings.TokensClean | api/utils/file_utils.cpp:169-199 | Tokens are non-empty and free of delimiters |
| Strings.TokensOfJoin | api/utils/file_utils.cpp:169-199 | Tokenizing undoes joining, with any separator made of delimiters |
| Strings.TokensAreLayout | api/utils/file_utils.cpp:169-199 | For all delimiters: a list is what tokenizing yields if and only if the text consists of its parts, all non-empty and free of delimiters, with delimiters between any two and delimiters alone around them |
| Strings.TokensKeepTheRest | api/utils/file_utils.cpp:169-199 | Nothing but delimiters is lost: the tokens one behind the other are the text without its delimiters |
| Strings.Trim | api/utils/file_utils.cpp:201-223 | Removes the spaces at both ends |
| Strings.TrimmedOfPadded | api/utils/file_utils.cpp:201-223 | Whatever number of spaces is put around a text with none at its ends, trimming gives back the text |
| Strings.TrimsCommute | api/utils/file_utils.cpp:201-223 | It does not matter which end is trimmed first |
| Strings.TrimmedClean | api/utils/file_utils.cpp:201-223 | Nothing is left to trim |
| Versions.CompareVersions | api/utils/boot_utils.cpp:200-231 | Negative exactly if the first version is older, positive exactly if the second is: the loop decides by the first differing part, else by the number of parts |
| Versions.VersionPreorder | api/utils/boot_utils.cpp:200-231 | By sign a total preorder on all strings: reflexive, antisymmetric, transitive |
| Versions.SameRank | api/utils/boot_utils.cpp:200-231 | Two versions rank equal exactly if both or neither is empty and their parts are the same |
| Versions.StrictWeakOrder | api/utils/boot_utils.cpp:233-236 | The comparator given to stable_sort is a strict weak order |
| Versions.OlderIsOrder | api/utils/boot_utils.cpp:200-231 | The sign says which is older: an empty version, or the one whose parts run out first or have the smaller text at the first difference, compared character by character |
| Versions.SecondPartDecides | api/utils/boot_utils.cpp:214-223 | Behind an equal first part the smaller text of the second part is the older version |
| Versions.TenBeforeNine | api/utils/boot_utils.cpp:218-222 | 1.10 is older than 1.9 |
| Components.AddToComponentVector | api/utils/boot_utils.cpp:25-40 | Appends unless a component of that type and path is there |
| Components.GetInstalledComponents | api/utils/boot_utils.cpp:42-68 | What was found, without repetitions, stably sorted: no component is older than one behind it |
| Components.StableSortSorts | api/utils/boot_utils.cpp:59-65 | The sort orders newest first and permutes |
| Components.StableSortNewestFirst | api/utils/boot_utils.cpp:59-65 | In the sorted list no version is older than one behind it |
| Components.OfRankNext | api/utils/boot_utils.cpp:59-65 | Components are of one rank if neither is older than the other |
| Components.CollectedNext | api/utils/boot_utils.cpp:25-40 | A component found is added at the end unless one of its type and path is there |
| Components.StableSortStable | api/utils/boot_utils.cpp:59-65 | Components of equal rank keep their order |
| Components.CollectedDistinct | api/utils/boot_utils.cpp:25-40 | No two collected components have the same type and path |
| Components.ResolveDependency | api/utils/application.cpp:342-364 | The first acceptable component; none exactly if no component is acceptable |
| Components.SuitsIsAcceptable | api/utils/application.cpp:342-364 | What suits a dependency: its type and name, and either bundled or of a version that is the same rank, newer, not older, or older as required; nothing suits <= |
| Components.ResolvedOne | api/utils/application.cpp:188-225 | One dependency gives the first component that suits, in the list of its type, or is unresolved exactly if none suits |
| Components.ResolvedConcat | api/utils/application.cpp:188-225 | Dependencies are resolved independently and in order |
| Components.BundledWins | api/utils/application.cpp:351-360 | A bundled component of the type and name always wins whatever its version, the first one |
| Components.NewestInstalled | api/utils/application.cpp:342-391 | Otherwise the newest installed component that meets the requirement wins, ties going to the earlier one; none exactly if none meets it |
| Components.FirstOfSortedIsBest | api/utils/boot_utils.cpp:59-65 | The first match in the sorted list is the best match of the unsorted one |
| Components.LteIgnored | api/utils/application.cpp:353-357 | Installed components: the search does what the manifest states if and only if the requirement is not <= or no installed component meets it; a <= requirement is never met |
| Components.LteMissed | api/utils/application.cpp:353-357 | A <= dependency misses an installed component of the very version it names |
| ManifestApplication.Application.ResolveDependencies | api/utils/application.cpp:188-225 | Fills modules, SDKs and runtime with what the dependencies resolve to, in order, and returns the unresolved ones |
| Components.ExactResolves | api/utils/application.cpp:342-391 | A requirement for exactly one version is answered by the first bundled component of the type and name, else by the installed one of equal rank that was found first |
| ManifestApplication.ManifestResolves | api/utils/application.cpp:188-225 | From the build script to the components: each sdk, runtime and module line of a generated manifest whose version is plain is resolved to the first bundled component of its type and name, else to the first found installed one of equal rank |
| ManifestApplication.ResolvedAreMeant | api/utils/application.cpp:188-225 | The lists of modules, SDKs and runtimes are those components, in the order of the lines |
| Components.Accounted | api/utils/application.cpp:188-225 | Each dependency read from a manifest is counted exactly once, as unresolved or resolved |
| Components.UnresolvedHaveNone | api/utils/application.cpp:188-225 | The unresolved dependencies are exactly those for which no component is acceptable |
| Unicode.ReadUnicodeCharacter16 | api/win32/string_util_icu.cpp:46-66 | Reads one character or one minimal bad unit sequence and stops at its last unit |
| Unicode.ReadUnicodeCharacter8 | api/win32/string_util_icu.cpp:28-43 | The same for UTF-8, whatever ICU skips at malformed bytes |
| Unicode.WriteUnicodeCharacter8 | api/win32/string_util_icu.cpp:83-99 | Appends exactly the UTF-8 encoding; the padding of the buffer is gone |
| Unicode.WriteUnicodeCharacter16 | api/win32/string_util_icu.cpp:102-112 | Appends exactly the UTF-16 encoding |
| Unicode.SurrogatePair | api/win32/string_util_icu.cpp:102-112 | UTF-16 in numbers: which values have a pair, in which ranges its halves are, and what they carry |
| Unicode.Utf8Bytes | api/win32/string_util_icu.cpp:83-99 | UTF-8 in numbers: how many bytes, in which ranges, and what they carry |
| Unicode.Examples | api/win32/string_util_icu.cpp:83-112 | The encodings of two characters, unit by unit |
| Unicode.NoncharactersAre | api/win32/string_util_icu.cpp:28-66 | Which values are taken for no characters |
| Unicode.WideToUTF8 | api/win32/string_util_icu.cpp:128-143 | Success exactly if every piece read is a character; the output encodes exactly the characters, in order |
| Unicode.UTF8ToWide | api/win32/string_util_icu.cpp:128-143 | The same in the other direction |
| Unicode.DecodedIsEncoded | api/win32/string_util_icu.cpp:28-43 | A sequence accepted as well-formed UTF-8 is the encoding of its value |
| Unicode.EncodedIsDecoded | api/win32/string_util_icu.cpp:83-99 | The UTF-8 encoding of a scalar value is read back as it |
| Unicode.ParseDivides | api/win32/string_util_icu.cpp:46-66 | Reading UTF-16 divides the text into characters and minimal bad units without tearing a surrogate pair |
| Unicode.DivisionIsUnique | api/win32/string_util_icu.cpp:46-66 | There is only one such division |
| Unicode.WideRoundTrip | api/win32/string_util_icu.cpp:180-218 | To UTF-8 and back gives the characters of the input without the bad units, and the input itself if the first conversion reports success |
| Unicode.Utf8RoundTrip | api/win32/string_util_icu.cpp:180-218 | From UTF-8 to UTF-16 and back likewise |
| Unicode.SuccessMeansWellFormed | api/win32/string_util_icu.cpp:128-143 | A conversion succeeds exactly on the encodings of character sequences |
| Urls.EncodeURIComponent | api/utils/url_utils.cpp:66-92 | Computes the percent-encoding; no write leaves the buffer of three bytes a character |
| Urls.EncodedOctet | api/utils/url_utils.cpp:41-92 | Letters, digits, full stop and underscore stay; any other octet becomes a percent sign and two hexadecimal digits in capitals |
| Urls.EncodedNext | api/utils/url_utils.cpp:66-92 | Octets are encoded one by one, in order |
| Urls.DecodeURIComponent | api/utils/url_utils.cpp:94-134 | Computes the decoding; no write leaves the buffer of the size of the source |
| Urls.HexDigits | api/utils/url_utils.cpp:11-38 | The hexadecimal digits are 0-9, A-F and a-f, with their values, and nothing else |
| Urls.EscapeDecoded | api/utils/url_utils.cpp:108-121 | A percent sign with two hexadecimal digits behind it becomes one octet |
| Urls.OtherDecoded | api/utils/url_utils.cpp:121-129 | Any other character stays, also a percent sign without two digits behind it |
| Urls.DecodeEncode | api/utils/url_utils.cpp:66-134 | Decoding undoes encoding for every byte string |
| Urls.EncodedIsClean | api/utils/url_utils.cpp:41-92 | Encoded text consists of safe characters and percent signs, so it holds no URL delimiter |
| Urls.PathToFileURL | api/utils/url_utils.cpp:158-188 | The authority, then one slash and the encoded piece for each piece of the path |
| Urls.PiecesAreTokens | api/utils/url_utils.cpp:160-176 | On Windows both kinds of slashes separate the pieces of the path, elsewhere the forward slash alone |
| Urls.URLPieces | api/utils/url_utils.cpp:176-188 | Each piece of the URL stands behind its own slash, encoded, the first one on Windows as it is |
| Urls.FileURLRoundTrip | api/utils/url_utils.cpp:158-188 | Splitting the path of the URL at slashes and decoding gives back the pieces of the original path; on Windows the drive letter stays as it is |
| Manifest.GenerateManifest | site_scons/kroll.py:274-292 | The text of the header lines, the sdk and runtime lines and the listed modules, in order |
| Manifest.ManifestText | site_scons/kroll.py:274-292 | The text written out: the three required lines, the optional ones, sdk and runtime, then the modules |
| Manifest.WhichModules | site_scons/kroll.py:285-291 | A module has a line if and only if it is included, or nothing is said about that, and it is not excluded; in order |
| Manifest.ReadManifestFile | api/utils/boot_utils.cpp:238-274 | The entries of all lines in order, none for a file that cannot be opened |
| Manifest.ReadLine | api/utils/boot_utils.cpp:255-270 | The entry of one line, or nothing for a line whose first colon is at its start or end |
| Manifest.LinesJoin | api/utils/boot_utils.cpp:253-257 | The lines hold no line break, and joined with line breaks they are the text |
| Manifest.EntryOfLine | api/utils/boot_utils.cpp:257-270 | No entry for an empty line and for one whose first colon is at its start or end; the line twice without a colon; else what stands before and behind the first colon |
| Manifest.ReadWhatWasPrinted | api/utils/boot_utils.cpp:238-274 | Reading printed lines gives back, in order, every line whose key and value are not blank, without the spaces around them; values may hold colons |
| Manifest.WrittenComesBack | api/utils/boot_utils.cpp:238-274 | Exactly the written pairs come back if and only if no key or value is blank or has spaces around it |
| Manifest.EntryOfBody | api/utils/boot_utils.cpp:255-270 | The same for one line |
| ManifestApplication.DependencyRoundTrip | api/utils/boot_utils.cpp:287-343 | For each of the five operators the exact condition under which it is recovered together with the version behind it |
| ManifestApplication.BareVersion | api/utils/boot_utils.cpp:316-324 | A version on its own asks for that version if and only if it has none of the three signs |
| ManifestApplication.FiveOperators | api/utils/boot_utils.cpp:287-324 | Each of the five operators in front of a version without signs, and none, gives its requirement and that version |
| ManifestApplication.DependencyKinds | api/utils/boot_utils.cpp:326-341 | RUNTIME exactly for the key runtime, SDK exactly for sdk, MOBILESDK exactly for mobilesdk, MODULE for every other key; the key is the name |
| ManifestApplication.TornVersion | api/utils/boot_utils.cpp:302-324 | A version with a sign inside: its first character is taken for the operator |
| ManifestApplication.Application.NewApplication | api/utils/application.cpp:26-102 | Null exactly if there is no entry; otherwise each of the nine header fields is the last value given for its key, or its default, and each other entry is one dependency, in order |
| ManifestApplication.AbsorbedIsNext | api/utils/application.cpp:41-100 | Taking entries one by one amounts to the last value for each key |
| ManifestApplication.ManifestComesBack | site_scons/kroll.py:274-292 | Reading a generated manifest of clean fields yields exactly the written pairs |
| ManifestApplication.ApplicationIsRecovered | api/utils/application.cpp:26-102 | An application that reads a generated manifest has the header fields of the build and one dependency for each sdk, runtime and module line, in order |
| ManifestApplication.RuntimeDependencies | api/utils/application.cpp:26-102 | The runtime line of a generated manifest becomes a dependency on a RUNTIME, its sdk line one on an SDK |
| ManifestApplication.DependenciesNext | api/utils/application.cpp:92-100 | Keys that start with a hash sign give no dependency, all others one each |
| ManifestApplication.PlainDependencies | api/utils/boot_utils.cpp:287-343 | One dependency for each line, which asks for exactly the written version if and only if that has none of the signs |
| Events.EventObjects.AddEventListener | api/binding/k_event_object.cpp:90-98 | Appends one listener to that object; its id is one more than every id handed out before |
| Events.EventObjects.AddEventListenerForAllEvents | api/binding/k_event_object.cpp:100-107 | The same for a listener that hears every event |
| Events.EventObjects.NewObject | api/binding/k_event_object.cpp:15-41 | A new object has no listeners, and all others keep theirs |
| Events.EventObjects.DeleteObject | api/binding/k_event_object.cpp:43-57 | The listeners of the object go with it, and all others keep theirs |
| Events.AddKeepsIds | api/binding/k_event_object.h:15-18 | Ids rise along each list and are unique across objects; adding leaves every listener in its place |
| Events.AfterKeepsIds | api/binding/k_event_object.cpp:127-152 | Whatever callbacks add and remove during a dispatch, ids stay unique and are never given again |
| Events.EventObjects.RemoveEventListener | api/binding/k_event_object.cpp:69-88 | Removes exactly the matching listeners, keeps the others in order, and keeps ids unique |
| Events.EraseMatching | api/binding/k_event_object.cpp:74-87 | Erasing while walking the vector leaves exactly the listeners that do not match |
| Events.WithoutId | api/binding/k_event_object.cpp:203-210 | A non-zero id removes that one listener and no other |
| Events.RemovalById | api/binding/k_event_object.cpp:203-210 | Removal by id removes exactly the listener of that id if and only if the id is not zero; the id zero removes all |
| Events.RemovalUnderName | api/binding/k_event_object.cpp:203-210 | Removal under a name leaves the listeners of other names alone if and only if every listener that matches otherwise has that name |
| Events.BothNamesRemoved | api/binding/k_event_object.cpp:203-210 | One callback registered under two names is removed under both when it is removed under one |
| Events.WithoutKeepsTheRest | api/binding/k_event_object.cpp:203-210 | What stays are exactly the listeners that do not match, in order |
| Events.EventObjects.TellListeners | api/binding/k_event_object.cpp:129-146 | Delivers to the copied list in registration order, leaving right after a listener behind which the event is stopped |
| Events.EventObjects.FireEvent | api/binding/k_event_object.cpp:127-152 | Delivers to the object, then to the root unless stopped or already there; the answer is the negation of preventedDefault; also whether every listener looked at still existed |
| Events.FreshEvent | api/binding/k_event_object.cpp:127-152 | A new event reaches its audience in order up to the first listener that stops it; it ends up stopped exactly if the last delivery stopped it, prevented exactly if some delivery prevented it |
| Events.HeardUntilStopped | api/binding/k_event_object.cpp:138-146 | Within one object: a prefix of the hearing listeners, cut only behind one that stops the event |
| Events.FlagsTell | api/binding/event.cpp:64-73 | The flags say exactly whether some callback raised them; stopping also prevents |
| Events.SoundDispatch | api/binding/k_event_object.cpp:129-146 | The copied list holds pointers: a dispatch looks only at listeners that still exist if and only if no callback it has told removes one of the object that it has yet to look at |
| Events.SelfRemovalIsSound | api/binding/k_event_object.cpp:129-146 | Callbacks may always remove the listener just being told |
| Events.RemovingTheNextIsUnsound | api/binding/k_event_object.cpp:129-146 | A callback that removes the next listener makes the dispatch use a deleted one |
| Events.ToldOnce | api/binding/k_event_object.cpp:127-152 | No listener is told twice about one event |
| Events.HearingAre | api/binding/k_event_object.cpp:182-188 | An event is heard by exactly the listeners registered under its name or for all events |
| Events.WhoHears | api/binding/k_event_object.cpp:182-188 | The same with order and number: one listener more is told last, if it hears the event |
| Events.NewListenerInAudience | api/binding/k_event_object.cpp:90-107 | A listener just added for all events is in the audience of every event of its object; one added under a name in that of the events of that name only |
| Events.RootHearsToo | api/binding/k_event_object.cpp:148-151 | Behind the listeners of the object the audience has those of the root, but not twice if the object is the root |
| Events.HeardIfStopped | api/binding/k_event_object.cpp:138-146 | An event that is stopped already is told to the first listener only, if that hears it |
| Events.PerformInOrder | api/binding/k_event_object.cpp:69-107 | What a callback adds and removes takes effect in order |
| Blobs.Split | api/binding/blob.cpp:268-330 | The pieces of the text up to the first NUL, the first limit many of them; without arguments or for an empty blob the text itself |
| Blobs.JoinUndoesSplit | api/binding/blob.cpp:307-329 | Joining the pieces with the separator gives back the text if and only if the separator is at most one character long or does not occur |
| Blobs.TwoCharacterSeparator | api/binding/blob.cpp:319-319 | With a separator of two characters the second one stays at the front of the next piece |
| Blobs.JoinWithFirst | api/binding/blob.cpp:319-319 | Joining with the first character of the separator always gives back the text: one character is skipped however long the separator is |
| Blobs.PiecesAreFree | api/binding/blob.cpp:307-329 | No piece holds the separator; without one all pieces are single characters |
| Blobs.SplitUndoesJoin | api/binding/blob.cpp:307-329 | Splitting undoes joining for a one-character separator |
| Blobs.Blob.Concat | api/binding/blob.cpp:449-480 | The contents of all blobs in order, with the sum of their lengths; without blobs the very same blob; no write leaves the buffer |
| Blobs.ConcatArguments | api/binding/blob.cpp:482-503 | Blobs and strings are added in order, anything else is skipped |
| Blobs.AddedConcat | api/binding/blob.cpp:482-503 | Arguments add in order |
| Blobs.AddedOne | api/binding/blob.cpp:482-503 | A blob adds its contents, a string itself, anything else nothing |
| Blobs.GluedIsJoin | api/binding/blob.cpp:449-480 | Concatenating is joining with nothing in between |
| Blobs.GlobBlobs | api/binding/blob.cpp:506-511 | The contents of all blobs in order in a new blob |
| Blobs.Blob.WithCopy | api/binding/blob.cpp:48-63 | A new blob with these contents |
| AsyncJobs.AsyncJob.SetProgress | api/async_job.cpp:125-150 | Progress is clamped to [0,1]; with callbacks, one post for each progress callback in order |
| AsyncJobs.AsyncJob.Execute | api/async_job.cpp:94-105 | A return gives the value; a ValueException sets hadError and posts each error callback in order |
| AsyncJobs.AsyncJob.Run | api/async_job.cpp:74-92 | Progress stays in [0,1], completed and hadError are never both set, each ends up set exactly in its own case, and what is posted is exact |
| AsyncJobs.OneFinalList | api/async_job.cpp:74-162 | Exactly one of the completed and error lists is posted, behind all progress posts |
| AsyncJobs.ProgressPostsNext | api/async_job.cpp:125-150 | Each report posts every progress callback registered by then, in order; nothing else is posted while the work runs |
| AsyncJobs.WorkNext | api/async_job.cpp:125-180 | The last report, clamped, is the progress; the callbacks of a kind are those added for it, in order |
| AsyncJobs.RunPostsEnd | api/async_job.cpp:74-162 | Behind the progress posts stands one post for each callback of the ending, in order |
| AsyncJobs.ProgressRunsFirst | api/async_job.cpp:117-150 | In every run in which the thread of a job makes the calls that its posts make, between whatever other calls: on the main thread every earlier-posted progress callback runs before any completed or error callback |

## Left out

- Operating system primitives: lock, unlock, push, swap, wait, set and posting a message are atomic steps that succeed; in particular `PostThreadMessage` does not fail and the host thread exists before the first call.
- The main-thread handler is not re-entered by a nested event loop inside a called method.
- Logging: what `PrintException` prints, and all other output.
- Exceptions other than those a job catches, arguments of calls, and reference counting outside the job protocol.
- MainThreadHost.Host.InvokeOnMainThread: only the activation on the main thread; calls from other threads, with their waiting, are in the state machine.
- Module loader: `IsModule` is a fixed predicate, a failed creation registers nothing, `Start`, `Stop` and `Unload` do not throw, `Stop` and `Unload` load nothing, and providers are registered and removed on one thread at a time (the recursive mutex is not modelled).
- ModuleLoader.Host.LoadModule: copying the resources of a module and reading its own manifest; names and versions of modules are fixed; an Initialize that throws an exception without a value, which the catch dereferences (api/host.cpp:492), so that it leaves LoadModule and the scan.
- Host start-up and shutdown other than modules: command line, profiling, logging, exceptions in the main loop.
- BoundList.StaticBoundList.Set: digit names of 2^31 and above, for which `atoi` is undefined; list lengths do not wrap around.
- `Bound` and `Unbound` hooks and the locks of bound objects.
- Namespaces.BoundObject.SetNS: names without any segment, for which the code runs past the end of an empty vector; objects other than static bound objects.
- Versions.CompareVersions: by sign only, as all callers use it.
- Scanning directories for components, the override argument, installing missing dependencies, application arguments.
- `std::stable_sort` is given by an insertion sort that is proved sorted, stable and a permutation.
- Code-page, ASCII and 32-bit wide character conversions; texts of 2^31 units and more; reserving output space.
- `FileURLToPath`, `NormalizeURL` and the app and ti schemes.
- Joining file paths: the joined image path of an application is a parameter.
- Events: deleting objects and firing further events inside a callback; wrap-around of listener ids; delivery uses one thread.
- Blobs: int overflow of lengths; the other string methods of blobs.
- AsyncJobs.AsyncJob.Run: one run for each job; work that throws anything but a `ValueException`; callbacks added by other threads during the run; subclasses that override the hooks; progress is a real number.
- The JavaScript, Python, Ruby and PHP modules, the user interface, networking, processes, crash reports, accessor and profiling wrappers.
