# A verified model of the messenger's core

This project models, in Dafny, the parts of a desktop messenger where ownership,
queues and persistent lists are kept by hand, and proves what those parts promise
over every input and every run. One module stands for one component.

- `RefCounting`, `ValueGraph`, `GraphRuns`: the reference-counted graph of values, collections,
  arrays, streams and header lists that every message between the GUI and the core
  is made of, with the `ifptr` variables and the `coll_helper` setters. The heap is
  a sequence of cells; an object's count must equal the slots, the owning `ifptr`
  variables and the plain references that hold it. What a release and its cascade
  of destructors leave is defined apart from any code, as the largest set of objects
  that support each other from outside, and every operation is proved to leave
  exactly that set. In an acyclic graph it is the set of reachable objects. Over whole
  runs, nothing leaks unless a store closes a cycle.
- `TaskQueue`, `RequestEngine`, `MultiHandler`: the engine that runs HTTP requests
  over one libcurl multi handle. A run is any interleaving of what callers do
  (submit, raise, limit, stop, cancel) and what the service thread does (admit, read
  messages, sweep stopped requests, reset sockets). Libcurl, the request contexts and
  the sockets are a `World` that answers each step as it likes.
- `Text`, `Sorting`, `JsonSort`, `JsonCanonical`: sorting JSON object members by name, and
  exactly when that is a canonical form that keeps lookups.
- `StringUtils`, `Brackets`: split and join as inverses, and the bracket scanner
  against a grammar of balanced words.
- `Scheduler`: the timer list and the rate at which a repeating timer fires.
- `SearchPatterns`, `SearchHistory`: the most recent search patterns per contact
  against an ideal unbounded list, and their files.
- `Decimal`, `Versions`, `Dictionaries`: orders on strings that must agree with
  numbers and dates, and the registry of zstd dictionaries.
- `FeedbackLog`, `LogRetention`: the tail of the logs sent with feedback, and the
  loop that removes old logs.
- `Callbacks`: the GUI's table of callbacks waiting for replies.
- `Sequences`: options, and permutations of lists, for all of them.

## What the code does not keep

Some promises fail on some inputs. The model keeps the code as it is; each failure
has a failing input or family, and the exact condition under which the promise holds.

- A cycle of slots is never freed: `CycleLeaks`, `KeptIsAnchored`, `KeptIsReachableIff`. A store
  closes one exactly when its content leads to its container: `StoreAcyclicIff`,
  `RunAcyclicIff`.
- The setters release the old content before they count the new. Storing again a
  value that only the replaced entry holds uses freed memory:
  `StoringTheSameEntryFaults`, `StoringTheSameObjectFaults`, `StoreIsSafeIff`.
- The key sort passes over arrays nested directly in arrays, so there the form is
  not canonical (`UncoveredDiffers`, `CanonicalIff`); with repeated names
  it may change lookups (`RepeatedNameIsSafeIff`).
- Split drops one trailing delimiter, so it undoes join only for token lists that are
  empty or end in a nonempty token (`SplitOfJoinIff`).
- A search pattern with outer blanks or a line break does not survive its file
  (`ParseOfRenderIff`, `SaveAndReload`).
- Contacts that differ only in `|` against `_` share one file, and each save leaves
  the other behind: `SharedFileIff`, `SavingLeavesOthersIff`,
  `SharedFileLosesPatterns`.
- Extra numbers in dictionary names compare as strings, so that the newest of a day
  may not be taken for the newest: `ReturnedIsGreatestIff`, `TenSortsBeforeNine`.
- The feedback buffer is wrong from three files on, because each chunk is placed by
  the size of the one before it only: `CreateFeedbackLog`, `ThreeFilesFail`.

A raised task does not go to the front of the queue: it goes behind the other tasks
of its own priority. Move assignment of an `ifptr` to itself releases its object and
empties it.

## Assumptions

- Object addresses, tokens, timer ids and sequence numbers are never reused, and
  integers that count do not overflow.
- In the heap an object's cell is freed before its slots are released, while the code
  runs the destructor first. Nobody can tell: its count is zero.
- A task's priority and id are fixed while it waits; a request context stays alive
  until its task is completed; a completion does not reenter the engine.
- A new easy handle or socket is not one already in the tables. Libcurl may close any
  sockets when a transfer is removed.
- A step is one locked section or one action of the service thread.
- The active socket of a transfer and the stop function of a request do not change
  while one step runs.
- Clocks do not go backwards. Nobody posts a message for an object already destroyed.
- The dictionary registry has one writer at a time.
- A pattern file is replaced as a whole or not at all. Different paths are different
  files; a file system that ignores case merges more contacts. Case folding of
  patterns is any function.

## Model

| member | source | states |
|---|---|---|
| RefCounting.KeptIsLargest | corelib/collection.cpp:27-41 | The survivors of a release, defined as a union, are the largest set in which every object is referred to from outside or held by a member of the set. |
| RefCounting.SurvivorsAreKept | corelib/collection.cpp:470-476 | A lawful heap, got from another by deletions in any order, holds only objects of the largest supported set. |
| RefCounting.KeptIsReachableIff | corelib/collection.cpp:394-413 | Releases leave exactly the objects reachable from outside references if and only if no unreachable cycle of slots exists; otherwise such a cycle leaks. |
| RefCounting.AcyclicKeptIsReachable | corelib/collection.cpp:394-413 | In an acyclic graph survival and reachability are the same. |
| RefCounting.KeptIsAnchored | corelib/collection.cpp:394-413 | In any graph, what releases leave is exactly what outside references reach and what a cycle of slots leads to. |
| RefCounting.CycleLeaks | corelib/collection.cpp:181-187 | A value that holds a collection that holds the value: nothing outside refers to either, the law holds, and both live for ever. |
| RefCounting.NothingOutsideNothingLive | corelib/collection.cpp:470-476 | No leak: an acyclic heap that obeys the law and has no outside reference has no live object. |
| RefCounting.AcyclicShrinks | corelib/collection.cpp:470-476 | Deleting and unlinking never create a cycle. |
| RefCounting.ExactKeepsCycles | corelib/collection.cpp:470-476 | A release and its cascade free no cycle and make none. |
| RefCounting.KeptTwice | corelib/collection.cpp:27-41 | Releasing in two steps leaves what releasing all the references at once leaves. |
| RefCounting.HolderChain | corelib/collection.cpp:394-413 | An object that survives although unreachable has an arbitrarily long chain of surviving holders, hence a cycle. |
| ValueGraph.StoreThenLookup | corelib/collection.cpp:442-468 | After a store the name finds the new value, every other name finds what it found before, and names stay unique. |
| ValueGraph.ReleaseIsReachability | corelib/collection.cpp:394-413 | What a release leaves of an acyclic graph is acyclic and consists of exactly the objects reachable from the other references. |
| ValueGraph.StoreIsSafeIff | corelib/collection.cpp:181-187 | The release-before-addref order: a store touches no freed memory if and only if, with the old slot gone, container and argument are each reachable or held by a cycle; in an acyclic graph, if and only if the argument is reachable; always when the caller owns a reference to it. |
| ValueGraph.StoringTheSameObjectFaults | corelib/collection.cpp:181-187 | The failing input of a value setter: a value that alone holds a collection is given that collection again, which frees it before its addref. The heap obeys the law before. |
| ValueGraph.StoringTheSameEntryFaults | corelib/collection.cpp:442-453 | The failing input of `set_value`: an entry that alone holds a value is set to that value again, which frees it before its addref. The heap obeys the law before. |
| ValueGraph.StoredIsExact | corelib/collection.cpp:442-453 | A store with its release leaves exactly what is supported in the heap with the new content, as if the content had changed at once. |
| ValueGraph.StoreAcyclicIff | corelib/collection.cpp:442-453 | A store in an acyclic graph, whatever entry it replaces and whatever its release frees, leaves it acyclic if and only if the new content does not lead to the container once the old slot is gone. |
| ValueGraph.OwnedStoreSucceeds | corelib/collection.cpp:442-453 | A caller that owns the argument and can reach the container always stores successfully. |
| ValueGraph.ReachableStaysLive | corelib/collection.cpp:27-41 | Whatever an operation deletes, an object still reachable from the references left is not among it. |
| ValueGraph.LowerCount | corelib/collection.cpp:32-41 | Lowering one count keeps the law for all other references, and at zero the object is unreferenced. |
| ValueGraph.FreeSound | corelib/collection.cpp:17-20 | Destroying an unreferenced object turns its slots into references its destructor still owes, and keeps the law. |
| ValueGraph.Graph.constructor | corelib/collection.cpp:397-400 | An empty heap obeys the law. |
| ValueGraph.Graph.Create | corelib/collection.cpp:417-440 | A new object has count 1, owned by the caller, and nothing else changes. |
| ValueGraph.Graph.AddRef | corelib/collection.cpp:22-25 | One more outside reference, counted; no contents change. |
| ValueGraph.Graph.ReleaseRef | corelib/collection.cpp:27-41 | One release inside a cascade: the law holds for the references left, and every supported set survives; terminates because each deletion lowers the number of live objects. |
| ValueGraph.Graph.Delete | corelib/collection.cpp:556-560 | The destructor releases each slot in turn; the law holds for the references left and every supported set survives. |
| ValueGraph.Graph.ReleaseExactly | corelib/collection.cpp:403-413 | A release and its whole cascade leave exactly the supported objects, with unchanged contents. |
| ValueGraph.Graph.Release | corelib/collection.cpp:27-41 | The caller gives up a reference: exactly the objects without other support die; in an acyclic graph, exactly the unreachable ones. Cycles neither arise nor go. |
| ValueGraph.Graph.ClearPayload | corelib/collection.cpp:43-84 | The old content loses one reference and whatever only it kept alive dies. |
| ValueGraph.Graph.SetScalar | corelib/collection.cpp:257-262 | Succeeds exactly when the value survives the release of its old content; then it holds the scalar and nothing else changed. |
| ValueGraph.Graph.SetRef | corelib/collection.cpp:181-244 | Succeeds exactly when value and content survive the release of the old content; then the value holds the content, which is counted, and a cycle arises only if the content leads to the value. |
| ValueGraph.Graph.SetValue | corelib/collection.cpp:442-453 | Succeeds exactly when collection and value survive the release of the replaced entry; then the collection has the new entry, exactly the supported objects live, and a cycle arises only if the value leads to the collection. |
| ValueGraph.Graph.PushBack | corelib/collection.cpp:579-583 | The value is appended and counted; nothing dies; a cycle arises only if the value leads to the array. |
| ValueGraph.Graph.Adopt | corelib/ifptr.h:53-57 | An owning handle takes over the caller's reference without counting; a borrowing one takes nothing. |
| ValueGraph.Graph.ReleaseOwned | corelib/ifptr.h:30-36 | A handle gives up what it owns and exactly the objects without other support die. |
| ValueGraph.Graph.ShareInto | corelib/ifptr.h:38-44 | A handle that copies pointer and flag adds its own reference; no object lives or dies. |
| ValueGraph.Graph.CopyConstruct | corelib/ifptr.h:59-64 | A copy shares the object: nothing dies, one more owning handle. |
| ValueGraph.Graph.Assign | corelib/ifptr.h:109-117 | The old object is given up and the new one shared; self-assignment changes nothing; exactly the unsupported objects die. |
| ValueGraph.Graph.MoveConstruct | corelib/ifptr.h:66-72 | The reference moves: the total of references is unchanged and the source is empty. |
| ValueGraph.Graph.MoveAssign | corelib/ifptr.h:119-130 | The target gives up its object and takes the source's reference; a self-move gives up the reference and empties the handle. |
| ValueGraph.Graph.Detach | corelib/ifptr.h:79-87 | An owned reference goes back to the caller, total unchanged. |
| ValueGraph.Graph.Destruct | corelib/ifptr.h:74-77 | The handle is gone and exactly the objects without other support die. |
| ValueGraph.Graph.SetValueAs | corelib/collection_helper.h:59-64 | Create, fill, store, drop the local handle: the new value has count 1, held by the collection alone; no reference is left behind; exactly the objects supported in the heap with the new entry are alive; a cycle arises if and only if the content leads to the collection. |
| ValueGraph.HelperDone | corelib/collection_helper.h:222-227 | The store of a helper put together with the destruction of its local handle has the promised outcome. |
| GraphRuns.Perform | corelib/collection.cpp:17-84 | Each operation of the heap is a step of a run with the outcome stated; a store is reported as faulting exactly when its own release freed what it goes on to use. |
| GraphRuns.StepAcyclicIff | corelib/collection.cpp:442-453 | From an acyclic graph a step, known only by what is stored and what survives, leads to one exactly when it is not a store whose content leads to its container. |
| GraphRuns.Begin | corelib/collection.cpp:397-400 | A new heap is a run of no operation. |
| GraphRuns.Execute | corelib/collection.cpp:17-84 | Executing a legal operation on a heap reached by a run either faults exactly as stated or extends the run by one step, and the conservation law holds after it: so it holds in every reachable state. |
| GraphRuns.RunAcyclicIff | corelib/collection.cpp:442-453 | The graph stays acyclic throughout a run if and only if no store of the run closes a cycle. |
| GraphRuns.NothingLeaks | corelib/collection.cpp:394-413 | No leak over any run without a fault: if no store closed a cycle, the live objects are exactly those outside references can reach, and without outside references there is none. |
| TaskQueue.InsertIsFair | core/curl_multi_handler.cpp:675-692 | Insertion keeps the queue sorted and a permutation with one more task, last in its own priority class; no other class changes. |
| TaskQueue.SortedByClasses | core/curl_multi_handler.cpp:675-692 | Two sorted queues with the same order inside every class are equal: sortedness and fairness fix the queue completely. |
| TaskQueue.RaiseKeepsOrder | core/curl_multi_handler.cpp:448-474 | Raising keeps a sorted permutation and the order of all other tasks, and puts the raised task last in its own class. |
| RequestEngine.SubmitTracked | core/curl_multi_handler.cpp:422-435 | A submitted task enters the queue and every accepted task is still in exactly one of queue, running table and completed. |
| RequestEngine.StartTracked | core/curl_multi_handler.cpp:649-661 | So does the step from the queue to the running table. |
| RequestEngine.FinishTracked | core/curl_handler.cpp:122-146 | So does the step from the running table to completed, with one delivery. |
| RequestEngine.CompletionCode | core/curl_handler.cpp:171-186 | Curl's result decides: success for OK alone, cancelled for the abort alone, resolve failure for an unresolved host or a timeout while resolving, failed for all else. |
| RequestEngine.FinishCode | core/curl_handler.cpp:122-146 | A stopped request is cancelled whatever curl says; only of the others does the result decide. |
| RequestEngine.SocketsConserved | core/curl_multi_handler.cpp:339-370 | In every disciplined history sockets opened equal sockets closed plus sockets open. |
| MultiHandler.Engine.AddTaskToQueue | core/curl_multi_handler.cpp:675-696 | The scan over the queue computes the insertion. |
| MultiHandler.Engine.Submit | core/curl_multi_handler.cpp:422-446 | After a stop the task is completed as cancelled at once, otherwise it waits; all invariants hold. |
| MultiHandler.Engine.FindById | core/curl_multi_handler.cpp:451-453 | The first waiting task with the id, or the end. |
| MultiHandler.Engine.RaiseTask | core/curl_multi_handler.cpp:448-474 | Find, erase and reinsert compute the raise; nothing else changes. |
| MultiHandler.Engine.SetMaxParallelPacketsCount | core/curl_multi_handler.cpp:640-643 | The limit changes, and running ordinary tasks stay within the largest limit so far. |
| MultiHandler.Engine.OpenSocket | core/curl_multi_handler.cpp:339-350 | A fresh socket enters the map with no timeouts. |
| MultiHandler.Engine.CloseSocket | core/curl_multi_handler.cpp:361-370 | Only a mapped socket is closed, so none is closed twice. |
| MultiHandler.Engine.OnSocketOk | core/curl_multi_handler.cpp:229-240 | A success clears the timeouts of a mapped socket. |
| MultiHandler.Engine.OnSocketTimedOut | core/curl_multi_handler.cpp:242-277 | Below the third timeout only the counter grows; at the third every task on the socket is completed as cancelled, no running task is left on it, and exactly it and the sockets curl drops for those tasks leave the map. |
| MultiHandler.Engine.Finish | core/curl_handler.cpp:122-146 | The task leaves the table with one delivery: cancelled exactly if its request was stopped or curl aborted, of the others success exactly for OK, resolve failure exactly for an unresolved host or a timeout with the resolve flag, failed for the rest. |
| MultiHandler.AdmissionCode | core/curl_handler.cpp:53-120 | A task that does not start is cancelled exactly if a check found its request stopped, and failed otherwise. |
| MultiHandler.Engine.CompleteTransfer | core/curl_multi_handler.cpp:320-333 | A finished transfer completes its own task, then a timeout or a success is booked on its socket. |
| MultiHandler.Engine.CheckMultiInfo | core/curl_multi_handler.cpp:305-337 | The tables afterwards are those of the messages read one by one, each completing its task and judging its socket; every transfer reported done that was running is completed, and each delivery is explained by a message or a killed socket. |
| MultiHandler.BatchIsExplained | core/curl_multi_handler.cpp:312-336 | Messages read one by one have the outcome of the whole batch: which tasks left, and why each delivery happened. |
| MultiHandler.Engine.AdmitTasks | core/curl_multi_handler.cpp:647-670 | Tasks leave from the front in priority order; it stops only on an empty queue or at the limit with every waiting task of priority above 2; each admitted task runs or was completed with the reason. |
| MultiHandler.Engine.AdmitFront | core/curl_handler.cpp:53-120 | The front task runs, or is completed once: as cancelled if it was stopped at either check, as failed otherwise. |
| MultiHandler.Engine.AddTask | core/curl_multi_handler.cpp:645-673 | Admission followed by the reading of messages, with both promises. |
| MultiHandler.Engine.ProcessStoppedTasks | core/curl_multi_handler.cpp:719-737 | Exactly the stopped tasks leave the table, each completed as cancelled, and exactly the sockets curl drops for them leave the map. |
| MultiHandler.Engine.CancelTasks | core/curl_multi_handler.cpp:698-717 | Queue, running table and socket map are empty, everything new was completed as cancelled, and every task ever accepted has been completed exactly once. |
| MultiHandler.Engine.ResetSockets | core/curl_multi_handler.cpp:739-762 | All sockets are closed; only tasks on mapped sockets fail, each as curl's code for a lost network or for an abort tells; a task still running was on no mapped socket, or curl closed its socket with a task that failed. |
| MultiHandler.Perform | core/curl_multi_handler.cpp:476-637 | Each step does its work and nothing else: a request puts one new task with its id and priority into the queue, last in its class, or cancels it in a stopped engine; a raise moves the first task of its id; an admission takes tasks from the front and leaves only tasks above priority 2, at the limit; messages are read in turn; a sweep cancels the stopped tasks; sockets enter, leave or are all dropped. Every invariant holds, and a task is delivered exactly in the step in which it leaves queue and table for good. |
| MultiHandler.Run | core/curl_multi_handler.cpp:476-637 | Any interleaving of steps from an empty engine goes through states each made by its step from the one before; tasks accepted are requests made; the engine is stopped exactly after a stop; every task waits, runs or was completed, once; sockets opened are those closed and those in the table; after a cancel every task was completed exactly once. |
| MultiHandler.RunCounts | core/curl_multi_handler.cpp:422-446 | In every run the tasks numbered are the requests made, and the engine is stopped if and only if a stop was among the steps. |
| Text.LessTotal | common.shared/json_helper.cpp:8-11 | Byte order on names is total. |
| Text.LessTransitive | common.shared/json_helper.cpp:8-11 | And transitive. |
| Sorting.StdSort | common.shared/json_helper.cpp:13 | What the sort promises: some sorted permutation, nothing about equal names. |
| Sorting.UniqueKeysPermute | common.shared/json_helper.cpp:13 | Permuting members with unique names leaves them unique. |
| JsonSort.SortIsUnique | common.shared/json_helper.cpp:13 | With unique names there is only one sorted permutation, so the unstable sort is a function. |
| JsonSort.SortKeys | common.shared/json_helper.cpp:6-30 | The members come out as some sorted permutation with each value sorted in turn, repeated names or not; without repeated names as the canonical form. |
| JsonSort.SortValue | common.shared/json_helper.cpp:15-29 | The treatment of one member, repeated names or not: objects and the objects directly in arrays are sorted, nothing deeper in nested arrays. |
| JsonSort.SortsToIsCanon | common.shared/json_helper.cpp:6-30 | Without repeated names at any level the sort has one possible result, the canonical form. |
| JsonSort.SortKeepsNames | common.shared/json_helper.cpp:13 | The names of an object come out as they went in, with their repetitions. |
| JsonSort.SortCommutes | common.shared/json_helper.cpp:13-29 | Sorting before recursing gives what sorting after it would. |
| JsonSort.SortKeepsLookups | common.shared/json_unserialize_helpers.h:37-136 | No typed lookup on any path of names and positions changes when keys are sorted. |
| JsonSort.FindIsFirst | common.shared/json_unserialize_helpers.h:42-43 | The member a lookup finds is the first of that name. |
| JsonSort.ReadIsTheNode | common.shared/json_unserialize_helpers.h:37-136 | What a typed reading yields is the node itself, except that a number read as a truth value yields whether it is not zero. |
| JsonSort.ReadByType | common.shared/json_unserialize_helpers.h:48-131 | Strings, doubles and truth values are read as their own type and as no other. |
| JsonSort.ReadOfInt | common.shared/json_unserialize_helpers.h:37-131 | An integer is read as an integer type exactly when the type can hold it, as a truth value exactly when 32 bits can, and never as another type. |
| JsonSort.GetValueReadsTheMember | common.shared/json_unserialize_helpers.h:37-136 | In an object with unique names a typed lookup of a name is the typed reading of its member. |
| JsonSort.FindInCanon | common.shared/json_unserialize_helpers.h:42-43 | A name finds in the sorted object the canonical form of what it found before. |
| JsonSort.RepeatedNameIsSafeIff | common.shared/json_unserialize_helpers.h:42-43 | With repeated names, every sort keeps a lookup if and only if all members of that name have the same value. |
| JsonCanonical.CanonIdempotent | common.shared/json_helper.cpp:6-30 | Sorting twice is sorting once. |
| JsonCanonical.CanonEqualIsSame | common.shared/json_helper.cpp:6-30 | Equal canonical forms come only from documents with the same members at every level, which without repeated names is a difference in member order alone. |
| JsonCanonical.SameIsCanonEqual | common.shared/json_helper.cpp:6-30 | Documents that differ in member order alone get the same form, where nothing reorderable lies in a nested array. |
| JsonCanonical.CanonEqualIff | common.shared/json_helper.cpp:6-30 | Both directions together. |
| JsonCanonical.UncoveredDiffers | common.shared/json_helper.cpp:21-27 | Otherwise there is a reordering that sorting does not undo: the failing document, built. |
| JsonCanonical.CanonicalIff | common.shared/json_helper.cpp:6-30 | The form is canonical for a document if and only if no array nested directly in an array contains an object of two or more members. |
| StringUtils.SplitIf | common.shared/string_utils.h:108-131 | The loop outputs the tokens between delimiters, with compression the nonempty ones among them. |
| StringUtils.NonEmptyCount | common.shared/string_utils.h:108-131 | Compression drops the empty tokens and keeps every other as often as it was. |
| StringUtils.Join | common.shared/string_utils.h:40-57 | The loop computes the tokens with separators between. |
| StringUtils.JoinOfSplit | common.shared/string_utils.h:135-138 | join(split(s)) is s less one trailing delimiter. |
| StringUtils.SplitIsFree | common.shared/string_utils.h:135-138 | No token contains the delimiter. |
| StringUtils.SplitOfJoin | common.shared/string_utils.h:135-138 | split(join(ts)) is ts for delimiter-free tokens ending in a nonempty one. |
| StringUtils.SplitOfJoinIff | common.shared/string_utils.h:135-138 | And only for those. |
| Brackets.CompletableIffNonNegative | common.shared/string_utils.h:173-180 | A word over one bracket kind extends to a derivable balanced word if and only if no prefix closes more than it opens. |
| Brackets.Derive | common.shared/string_utils.h:173-180 | Counting suffices: a word that never goes below zero and ends at zero has a derivation in the grammar of balanced words. |
| Brackets.CompletablePrefix | common.shared/string_utils.h:181-195 | Prefixes of completable strings are completable, for all kinds at once. |
| Brackets.CountCharacter | common.shared/string_utils.h:183-194 | One character keeps the counters equal to the open brackets of each kind, or is a closer that matches nothing. |
| Brackets.IndexIn | common.shared/string_utils.h:183-194 | The first position of a character, or the length if it does not occur. |
| Brackets.BracketsMismatch | common.shared/string_utils.h:145-201 | For equally long bracket sets, even with repetitions or overlaps, the result is the end of the longest prefix in which every kind of bracket can still be closed; for sets without repetition or overlap it is the end of the longest text no prefix of which has more closing than opening brackets of a kind; for sets of different length it is the end of the text. |
| Brackets.NonNegativeIsAhead | common.shared/string_utils.h:173-195 | For sets without repetition or overlap, every kind can be closed if and only if in every prefix each kind has at most as many closing brackets as opening ones. |
| Scheduler.TimerList.OnTick | core/scheduler.cpp:28-47 | The loop with its splices posts every due timer once at the tick's time, updates it, and drops it if single-shot. |
| Scheduler.TimerList.PushTimer | core/scheduler.cpp:70-90 | A new timer with a fresh id, its timeout unchanged, at the end of the list, last run at its creation. |
| Scheduler.TimerList.StopTimer | core/scheduler.cpp:102-111 | The first timer of the id is taken out. |
| Scheduler.RunNumbered | core/scheduler.cpp:64-68 | In every run ids in the list are distinct and already handed out. |
| Scheduler.StoppedNeverPosts | core/scheduler.cpp:102-111 | A stopped id never posts again in any continuation. |
| Scheduler.RepeatingTimerFires | core/scheduler.cpp:32-46 | In any run that does not stop it, a repeating timer posts exactly at the times fixed by its start, its timeout and the ticks, whatever the other timers do. |
| Scheduler.FiresSpaced | core/scheduler.cpp:34-37 | With ticks at most d apart, consecutive posts are at least the timeout and less than timeout plus d apart. |
| Scheduler.RepeatingTimerRate | core/scheduler.cpp:32-46 | After n posts the time elapsed at the latest tick is at least n timeouts and less than n + 1 times timeout plus d. |
| Scheduler.PostsAtRate | core/scheduler.cpp:32-46 | The same bounds for the posts recorded in any run that does not stop the timer, among any other timers. |
| Scheduler.SingleShotPostsOnce | core/scheduler.cpp:97-100 | A single-shot timer posts at most once in any run. |
| Scheduler.SingleShotPosts | core/scheduler.cpp:28-47 | In any run that does not stop it, a single-shot timer posts exactly at the first tick that comes at least its timeout after its push and is gone then; without such a tick it does not post and waits. |
| SearchPatterns.StoredIsPrefixOfIdeal | core/search_pattern_history.cpp:158-189 | For every run of adds and removes the stored list is a prefix of the unbounded most-recently-used list, at most 10 long, and free of case-insensitive repeats. |
| SearchPatterns.AddsKeepTheMostRecent | core/search_pattern_history.cpp:158-170 | With adds only it is exactly the first 10 of that list. |
| SearchPatterns.RemovedAre | core/search_pattern_history.cpp:172-183 | A removal takes out every form of the pattern and leaves each other pattern as often as it was, in the old order. |
| SearchPatterns.AddedIs | core/search_pattern_history.cpp:158-170 | An added pattern comes first, then what its removal leaves, cut at ten; an empty one changes nothing. |
| SearchPatterns.TrimIs | core/search_pattern_history.cpp:137-156 | Trimming cuts exactly the white space at both ends. |
| SearchPatterns.ReadLine | core/tools/binary_stream_reader.cpp:16-38 | Reads up to the next newline, dropping carriage returns, and moves past it. |
| SearchPatterns.Load | core/search_pattern_history.cpp:137-156 | Loading yields the first 10 trimmed nonempty lines. |
| SearchPatterns.ParseOfRenderIff | core/search_pattern_history.cpp:126-156 | Writing and reading back gives the same list if and only if every pattern is trimmed, nonempty and on one line. |
| SearchHistory.SharedFileIff | core/search_pattern_history.cpp:99-105 | Two contacts share a path if and only if they have the same length and differ at most in a vertical bar against an underscore. |
| SearchHistory.SavingLeavesOthersIff | core/search_pattern_history.cpp:126-135 | Saving one contact, whatever its patterns, never changes what another would load, if and only if their files differ. |
| SearchHistory.SharedFileLosesPatterns | core/search_pattern_history.cpp:99-135 | The failing history, for any two contacts with one file: after both were edited and saved, the first needs no save while its file holds the list of the second. |
| SearchHistory.History.constructor | core/search_pattern_history.cpp:11-14 | Nothing in memory; every contact, with its own file or not, shows what its file says. |
| SearchHistory.History.GetContact | core/search_pattern_history.cpp:107-117 | Loading on first use changes nothing visible. |
| SearchHistory.History.AddPattern | core/search_pattern_history.cpp:158-170 | The contact shows the new pattern first without its repeats; no other contact changes; a clean contact no other has overwritten still matches its file. |
| SearchHistory.History.RemovePattern | core/search_pattern_history.cpp:172-183 | The pattern is gone; the contact is marked only if something was removed. |
| SearchHistory.History.FreeDialog | core/search_pattern_history.cpp:74-85 | Dropping a clean contact with one-line trimmed patterns, whose file no other contact wrote since, is invisible; any contact falls back to its file. |
| SearchHistory.History.Save | core/search_pattern_history.cpp:126-135 | A save clears the mark and writes the list exactly when it was marked and the file can be written; it changes nothing visible of contacts in memory or with other files, and leaves behind exactly the contacts in memory that share the file. |
| SearchHistory.History.SaveAll | core/search_pattern_history.cpp:87-97 | Every contact in memory whose file can be written is clean and shows what it did; only contacts that share a file with another in memory can be left behind. |
| SearchHistory.SaveAndReload | core/search_pattern_history.cpp:74-97 | Save, drop and reload shows the same patterns if and only if each of them is trimmed, nonempty and on one line, when the list had to be saved or no other contact wrote its file; otherwise it shows what the file says. |
| Decimal.NumeralValue | common.shared/version_info.h:47-60 | Printed numbers have no leading zero and the value they print. |
| Versions.PatchOrder | common.shared/patch_version.h:88-94 | A strict total order. |
| Versions.PatchLessIsNumeric | common.shared/patch_version.h:62-94 | On decimal strings without leading zeros it is the numeric order, and equality is numeric equality. |
| Versions.VersionLessIsNumeric | common.shared/version_info.h:31-40 | The comparison is lexicographic: it is the order of one number built from the three. |
| Versions.StoiOfIntString | common.shared/version_info.h:111-117 | Reading a printed 32-bit number gives it back, negative ones included. |
| Versions.LoadOfGetVersion | common.shared/version_info.h:98-117 | Loading a printed version gives the version. |
| Versions.StoiReads | common.shared/version_info.h:111-117 | Blanks, an optional sign and digits are read as their number whatever follows; a number that does not fit 32 bits is none. |
| Versions.LoadIgnoresTheRest | common.shared/version_info.h:98-117 | Further words behind the third change nothing. |
| Dictionaries.TimestampOfName | core/zstd_helper.cpp:84-100 | A name prefix-DDMMYYN.zdict gets the timestamp YYMMDDN. |
| Dictionaries.MadeIs | core/zstd_helper.cpp:70-82 | An external dictionary is named by what follows the last slash of its path, an internal one by the path itself; its timestamp is that of its name. |
| Dictionaries.KindOfIs | core/zstd_helper.cpp:160-168 | A name is of the kind whose prefix occurs in it, the request prefix before the response prefix. |
| Dictionaries.KindOfName | core/zstd_helper.cpp:160-168 | Well-formed request names are requests and well-formed response names are responses. |
| Dictionaries.TimestampOrderIsDateOrder | core/zstd_helper.cpp:94-98 | String order of timestamps is the order of dates, then of the extra parts as strings. |
| Dictionaries.ExtraNumberOrderIff | core/zstd_helper.cpp:84-98 | When extra numbers, absent ones and leading zeros included, compare like strings: always at equal length; against a longer one without leading zero exactly when the shorter does not exceed its leading digits; against one with leading zeros under a like condition on the two values. |
| Dictionaries.NewestHasLatestDate | core/zstd_helper.cpp:198-212 | The dictionary returned as the last has the greatest date of all well-formed names in the list, and of that day the greatest extra number among those with as many digits. |
| Dictionaries.GreatestIsNewestIff | core/zstd_helper.cpp:198-212 | In a list of names without leading zeros, the one with the greatest date and extra number has the greatest timestamp if and only if no name of its day has fewer digits and a value above its leading digits. |
| Dictionaries.ReturnedIsGreatestIff | core/zstd_helper.cpp:198-212 | The dictionary returned as the last has the greatest date and extra number of its list under exactly that condition. |
| Dictionaries.TenSortsBeforeNine | core/zstd_helper.cpp:198-212 | So of the ninth and the tenth dictionary of the latest day the ninth is returned. |
| Dictionaries.Settled | core/zstd_helper.cpp:302-303 | Sorting a nonempty list of unique names keeps its names and makes it good. |
| Dictionaries.Registry.constructor | core/zstd_helper.cpp:104-110 | The lists of a new registry are good and hold the built-in dictionaries, with the timestamps of their names. |
| Dictionaries.Registry.InitDicts | core/zstd_helper.cpp:248-314 | Both lists are sorted by the timestamps of their names, name-unique and nonempty, and hold the built-in dictionary and one made from a file for every other name among the files of their kind, nothing else. |
| Dictionaries.Registry.GetDictInfo | core/zstd_helper.cpp:350-366 | Finds the dictionary of that name in the list of its kind, or none. |
| Dictionaries.Registry.AddDict | core/zstd_helper.cpp:160-168 | Succeeds exactly for a new name of either kind; then the name is found and nothing else changed; otherwise nothing changes. |
| Dictionaries.Registry.AddDictCommon | core/zstd_helper.cpp:368-397 | A new name is added to a list that stays good; a repeat changes nothing. |
| Dictionaries.Registry.GetLastRequestDict | core/zstd_helper.cpp:198-204 | The name returned is in the list and no name in the list has a greater timestamp. |
| Dictionaries.Registry.GetLastResponseDict | core/zstd_helper.cpp:206-212 | The name returned is in the list and no name in the list has a greater timestamp. |
| FeedbackLog.CollectChunks | core/utils.cpp:622-669 | Put oldest first, the chunks are the last bytes, up to the limit, of all existing files in order; how many chunks there are. |
| FeedbackLog.Assemble | core/utils.cpp:669-681 | The copy loop builds the concatenation for at most two chunks; with more, the last byte of the buffer stays zero. |
| FeedbackLog.CreateFeedbackLog | core/utils.cpp:616-681 | The buffer is the tail of the logs when at most two files were needed; otherwise its last byte is zero, so that for logs without zero bytes it is right if and only if at most two were. |
| FeedbackLog.ThreeFilesFail | core/utils.cpp:672-681 | A failing input: three files of one byte each, all of them wanted. |
| LogRetention.CleanLogs | core/network_log.cpp:149-166 | The loop keeps a file exactly when it exists and the sizes of the existing files newer than it add up to at most the limit. |
| LogRetention.SurvivorsStay | core/network_log.cpp:149-166 | The survivors are exactly the existing files whose newer existing files have sizes that add up to at most the limit. |
| LogRetention.SurvivorsAreNewest | core/network_log.cpp:149-166 | The survivors are the newest files, and their total is at most the limit plus the oldest survivor. |
| LogRetention.RemovedAreOlder | core/network_log.cpp:149-166 | Every file that stays has a higher index than every file that is removed. |
| Callbacks.Dispatcher.constructor | gui/core_dispatcher.cpp:268 | An empty table whose last sweep is now. |
| Callbacks.Dispatcher.PostMessage | gui/core_dispatcher.cpp:1639-1671 | A callback is stored under a new number with its date and object, whatever was posted before; a post without one stores nothing. |
| Callbacks.Dispatcher.ExecuteCallback | gui/core_dispatcher.cpp:1187-1199 | Only a callback stored under a positive number runs, and it is out of the table first. |
| Callbacks.Dispatcher.CleanupCallbacks | gui/core_dispatcher.cpp:1201-1232 | The erasing loop drops exactly the callbacks older than 60 seconds, at most every 30 seconds. |
| Callbacks.Dispatcher.OnDestroyed | gui/core_dispatcher.cpp:1653-1667 | The erasing loop drops exactly the callbacks of the object. |
| Callbacks.RunValid | gui/core_dispatcher.cpp:1187-1232 | In every run each registered callback waits or has exactly one fate that fits it: its own run, expiry over age, or a destroyed object; fates never change. |
| Callbacks.RunsAtMostOnce | gui/core_dispatcher.cpp:1187-1199 | No sequence number runs twice in any run. |
| Callbacks.StartedRun | gui/core_dispatcher.cpp:1187-1232 | In any run of a new dispatcher everything ever registered waits or has its one fate, and the callbacks that ran are distinct and exactly those with that fate. |
| Callbacks.DestroyedNeverRuns | gui/core_dispatcher.cpp:1653-1667 | After an object is destroyed none of its callbacks ever runs. |
| Callbacks.SweptIsRecent | gui/core_dispatcher.cpp:1741-1746 | Just after every received event each waiting callback was registered less than 90 seconds before. |
| Callbacks.ReplyInTimeRuns | gui/core_dispatcher.cpp:1741-1746 | The first reply within 60 seconds always runs the callback while its object lives, and a second one changes nothing. |
| Callbacks.SparedStays | gui/core_dispatcher.cpp:1639-1671 | A stored callback stays stored through any events without its reply, its object's destruction or a sweep more than 60 seconds after its post. |
| Callbacks.PostAndReply | gui/core_dispatcher.cpp:1639-1671 | A callback posted at a dispatcher in any state, followed by any such events and then its reply, is run by it. |

## Left out

- `RefCounting`, `ValueGraph`, `GraphRuns`: the int32 width of the counts and their atomicity; what happens after a use of freed memory, which the model only reports; the order of map entries, the cursor of `first` and `next`; `log`, the getters of scalars and the bytes of streams and headers, which move no reference.
- ValueGraph.Graph.ClearPayload: the type tag left behind by `clear` is not modelled, because every caller overwrites it or is the destructor.
- MultiHandler.Engine.AdmitFront: does not track the easy handle that the code leaves unreleased when a task is stopped between its two checks, because handles are only names here.
- MultiHandler.Engine.Finish: does not model an expired request context, which the code completes as a failed start; the context is assumed to live.
- MultiHandler.Run: no liveness: wake-ups lost between caller and service thread, tasks submitted in the instant of a stop, and the end of the service thread are not modelled.
- The counter of bad writes on a socket, which exists on one platform only.
- JsonSort.SortKeys: works on values, because the source sorts members through references into one document and no two of those references overlap; sorting in place and memory of the document are not captured.
- Double values are opaque: no rounding, printing or parsing of floating point.
- StringUtils.SplitIf: stands for character types of any width; writing through an output iterator is a sequence that grows.
- Brackets.BracketsMismatch: the choice between stack and heap for the counters and the width of `size_t`.
- SearchHistory.History.FreeDialog: the asynchronous executor that orders these calls; each call is one step.
- Dictionaries.Registry.InitDicts: the walk over the directory; the files found are a parameter. Swapping shared lists under a lock is one assignment.
- LogRetention.CleanLogs: matching file names and reading their indices; the files come ordered by index. A file that cannot be removed or measured is not modelled.
- FeedbackLog.CreateFeedbackLog: choosing the archive path, the temporary copy and the zip file.
- Versions.LoadOfGetVersion: for text that is not a version the code throws or reads past the end; the model only says that nothing is loaded.
- Callbacks.RunValid: the handlers of named messages and the parameters passed to callbacks.
- HTTP settings and headers, proxies, statistics, message dispatch, enumerations and platform code: tables and plumbing with no hard property.
- The thread pool, the archive of messages and the serialized tag-length-value format are not part of this model.
