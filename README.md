# Deferred task scheduler, modelled in Dafny

This project models `TTaskScheduler`, a single-threaded deferred task scheduler, together with the two helpers it builds on:
- `dts::Any`, a type-erased single-value slot;
- `dts::Tuple`, a head/tail heterogeneous tuple.

A client registers tasks with `add(callable, args...)`. An argument is either a plain value or a `FutureResult<T>` handle on another task's result.

`add` does the following:
- assigns the next sequential id;
- records an edge from the new id to every future's target;
- runs a depth-first cycle search from the new id;
- on a cycle, erases the new graph entry and fails, leaving the task list and the edge relation unchanged (the search may leave empty entries behind).

`getResult<T>(id)` forces a task:
- it executes the task if it has not been executed yet;
- each future argument is resolved by a recursive `getResult` on its target;
- the result is memoised in an `Any` slot and then extracted as `T`.

`executeAll()` forces every task in id order.

The model has eight modules, one file each:
- `Values` (values.dfy): the tagged values (`int`, `bool`, `string`), the error kinds and the `Option`/`Result` wrappers.
- `AnyStore` (any.dfy): `Any` as a class with one optional tagged value, and `AnyCast`.
- `Tuples` (tuple.dfy): the tuple as a cons datatype, with `Get`, `TupleSize`, `MakeTuple` and `MakeIndexSequence`.
- `Graphs` (graphs.dfy): paths, cycles, lassos and reachability over `map<nat, set<nat>>`, and the facts the DFS proof needs.
- `Tasks` (tasks.dfy): arguments, futures, task definitions, the dependency graph of the registered definitions, and `Eval`, which is the reference meaning of forcing a task without memoisation.
- `Scheduler` (scheduler.dfy): the `TaskScheduler` class. Its fields are `tasks` and `graph`, plus two ghost fields:
  - `defs`, the registered definitions;
  - `calls`, how often each callable has run.

  The methods follow the C++ control flow. The class invariant `Valid` says:
  - the stored edges are those of the definitions;
  - the graph is acyclic;
  - a result slot is filled exactly when its task is executed;
  - every stored result equals `Eval`;
  - every task an executed task depends on is executed too.
- `Scenarios` (scenarios.dfy): the repository's integer, `Any` and `Tuple` tests, rebuilt as clients whose expected values are proved.
- `Findings` (findings.dfy): dependency recording as the code is written (see "## Findings").

These are the main results:
- `Add` accepts exactly when the dependency graph stays acyclic.
- `GetResult` returns the cast of `Eval`.
- No callable runs more than once per call, and none runs again once its task has executed; a callable that threw is invoked again by the next call that forces its task.
- A failing callable leaves its task unexecuted.
- `ExecuteAll` succeeds exactly when every task evaluates. Then every task is executed; each task not executed before the call ran its callable exactly once, and no other callable ran.
- Forcing a task that evaluates leaves it and every task it reaches executed (`GetResult`, `Execute`, `ResolveArg`).

Termination of the recursive forcing is proved by the set of ids reachable in the acyclic graph, which shrinks along every edge. This holds even for futures that name ids registered later.

Such pending-id futures cannot sneak a cycle past a search that starts only at the new id:
- `ExtendAcyclic` proves that the search from the new id finds a cycle exactly when the whole new graph has one.
- `ForwardFutureAndRejectedCycle` shows a cycle through a pending id being rejected.

A callable is a function from the resolved argument list to a `Result`. An `Err(Thrown(..))` stands for an exception. The `Any` slot and the `Tuple` keep the C++ structure. Inside the scheduler, `task_result_` is the `Option<Value>` that `Any` holds, and the stored argument tuple is a sequence (`Tuples.SpreadInOrder` connects the two readings).

`ResolveArg`'s future overload is modelled as resolving through `getResult`. In the code as written, every stored future reaches the plain overload instead: `TaskImplementation` stores `std::decay_t<Args>`, so the future `Execute` reads from the argument tuple is never `const`, and `ResolveArg(const FutureResult<T>&)` is never selected. The plain overload passes the handle through, and the callable receives it converted by `operator T()`, which calls the same `get()`. The result is the same.

## Model

| member | source | states |
|---|---|---|
| AnyStore.AnyCast | lib/hlprs_std/any.h:119-126 | succeeds exactly when the slot holds a value of the requested type, and then returns that value; otherwise fails with `BadCast` (an empty slot included); it only reads the slot |
| AnyStore.Any.constructor | lib/hlprs_std/any.h:8 | a default-constructed store holds nothing |
| AnyStore.Any.FromValue | lib/hlprs_std/any.h:44-47 | constructing from a value holds exactly that value |
| AnyStore.Any.Copy | lib/hlprs_std/any.h:10-12 | a copy holds what the source holds, and the source is unchanged |
| AnyStore.Any.Move | lib/hlprs_std/any.h:23-27 | the new store takes over the source's content and the source is left empty |
| AnyStore.Any.CopyAssign | lib/hlprs_std/any.h:14-21 | copy assignment makes the content equal to the source's, leaves a distinct source unchanged, and self-assignment changes nothing |
| AnyStore.Any.MoveAssign | lib/hlprs_std/any.h:29-37 | move assignment transfers the content and empties a distinct source; self-assignment keeps the content |
| AnyStore.Any.Assign | lib/hlprs_std/any.h:49-53 | assigning a value replaces the content with it |
| AnyStore.Any.Reset | lib/hlprs_std/any.h:56-58 | after `Reset` nothing is held |
| AnyStore.Any.Contains | lib/hlprs_std/any.h:60-63 | true exactly when `AnyCast` at that type would succeed |
| AnyStore.Any.Swap | lib/hlprs_std/any.h:65-67 | the two stores exchange their contents |
| AnyStore.Any.Emplace | lib/hlprs_std/any.h:69-73 | the content becomes the `T` built from the arguments, so afterwards the store contains a `T` |
| Tuples.Size | lib/hlprs_std/tuple.h:167-175 | `TupleSize`: 0 for the empty tuple, else 1 plus the tail's size; it is 0 exactly for the empty tuple |
| Tuples.Get | lib/hlprs_std/tuple.h:127-154 | `Get<Index>`: the head at 0, else `Get<Index - 1>` of the tail, defined for an index below the size; the result is one of the tuple's elements (its position is given by `GetIsElement`) |
| Tuples.Elements | lib/hlprs_std/tuple.h:79-124 | the front-to-back element sequence of a head/tail tuple, as long as `TupleSize` says |
| Tuples.GetIsElement | lib/hlprs_std/tuple.h:127-154 | `Get<i>` (head at 0, else `Get<i-1>` of the tail) is element `i` of the sequence |
| Tuples.MakeTuple | lib/hlprs_std/tuple.h:157-160 | `MakeTuple(x0..xn)` has as many elements as arguments |
| Tuples.GetMakeTuple | lib/hlprs_std/tuple.h:84-87 | `Get<i>(MakeTuple(x0..xn))` is `xi` |
| Tuples.ElementsOfMakeTuple | lib/hlprs_std/tuple.h:157-160 | the elements of `MakeTuple(xs)` are `xs`, in order |
| Tuples.MakeTupleOfElements | lib/hlprs_std/tuple.h:79-87 | every tuple is `MakeTuple` of its elements |
| Tuples.Set | lib/hlprs_std/tuple.h:128-134 | writing through `Get<i>` keeps the tuple's size |
| Tuples.SetGet | lib/hlprs_std/tuple.h:128-134 | after writing `v` through `Get<i>`, element `i` is `v` and every other element is unchanged |
| Tuples.MakeIndexSequenceImpl | lib/hlprs_std/tuple.h:182-189 | the recursion yields `0 .. N-1` followed by the indices already accumulated |
| Tuples.MakeIndexSequence | lib/hlprs_std/tuple.h:192-193 | `MakeIndexSequence<N>` is `0, 1, ..., N-1` |
| Tuples.SpreadInOrder | lib/hlprs_std/tuple.h:182-193 | `Get` over `MakeIndexSequence<TupleSize>` hands the callable its arguments in their original order |
| Tuples.Assign | lib/hlprs_std/tuple.h:95-117 | memberwise copy/move assignment (tail then head, and the one-element form at lines 52-70) carries over every element; self-assignment leaves the tuple as it was |
| Graphs.ExtendAcyclic | lib/scheduler.h:69-74 | when the graph was acyclic and only the new id's edges are added, a cycle is reachable from the new id exactly when the new graph has a cycle anywhere |
| Graphs.NoLassoFromFinished | lib/scheduler.h:190-192 | a fully explored (visited, off-path) node reaches no cycle, so returning false for it is sound |
| Graphs.FinishNode | lib/scheduler.h:197-204 | a node all of whose successors are fully explored is fully explored once it leaves the path |
| Tasks.DefGraphExtend | lib/scheduler.h:66-69 | registering a definition gives the new id exactly its futures' targets as edges and leaves every other id's edges alone |
| Tasks.PrefixFailure | lib/scheduler.h:126-133 | the first argument whose resolution fails decides the failure of the whole argument list |
| Tasks.EvalExtend | lib/scheduler.h:76 | appending a task never changes the result of a task that already evaluated successfully |
| Tasks.BackwardFuturesAcyclic | lib/scheduler.h:53-78 | when every future names an earlier task, the dependency graph is acyclic, so no such `add` is rejected |
| Scheduler.AddDependencies | lib/scheduler.h:160-176 | the dependency set is exactly the set of future targets; plain arguments contribute nothing |
| Scheduler.TaskScheduler.constructor | lib/scheduler.h:24 | a new scheduler has no tasks and no edges, and satisfies the invariant |
| Scheduler.TaskScheduler.Add | lib/scheduler.h:53-78 | the invariant is kept; succeeds exactly when the graph with the new edges is acyclic; on success returns the old task count and appends exactly one unexecuted task with exactly its futures' targets as edges; on a cycle fails with `CycleDetected` and leaves tasks and edges unchanged |
| Scheduler.TaskScheduler.Link | lib/scheduler.h:69-74 | stores the new entry, reports a cycle exactly when the extended graph is not acyclic, and erases the entry again on a cycle |
| Scheduler.TaskScheduler.GetFutureResult | lib/scheduler.h:80-83 | a handle on exactly the given id, at the given type, that contributes exactly the edge to that id |
| Scheduler.TaskScheduler.GetResult | lib/scheduler.h:85-95 | the result is `Eval` cast to the requested type (`OutOfRange` for an unknown id, `BadCast` on a type mismatch, a callable's failure propagated); on success the task and every task it reaches are executed; on an executed task nothing changes; only tasks the id reaches are touched, no callable runs twice, and on success each newly executed task ran exactly once |
| Scheduler.TaskScheduler.ResolveFuture | lib/scheduler.h:247-253 | `get()`/`operator T()` is `getResult` on the handle's id and type, with the same guarantees: on success the target and every task it reaches are executed, and on an executed target nothing changes |
| Scheduler.TaskScheduler.ExecuteAll | lib/scheduler.h:97-103 | succeeds exactly when every task evaluates; then every task is executed, each task not executed before the call ran its callable exactly once, and no other callable ran; on failure the error is that of the first task `k`, in id order, that fails; tasks before `k` are then executed, and no task outside the scopes of tasks `0..k` was touched |
| Scheduler.TaskScheduler.Execute | lib/scheduler.h:123-136 | a no-op on an executed task; otherwise succeeds exactly when `Eval` does, marks the task executed exactly on success, and touches only the tasks it reaches; on success every task it reaches is executed too |
| Scheduler.TaskScheduler.Run | lib/scheduler.h:126-135 | resolving the arguments and calling the callable on an unexecuted task agrees with `Eval`; the task ends executed exactly on success, and then every task it reaches is executed too |
| Scheduler.TaskScheduler.Invoke | lib/scheduler.h:132-135 | the callable runs once; the result is stored and `executed` set only when it returns normally; a throwing callable leaves the task unexecuted |
| Scheduler.TaskScheduler.ResolveArgs | lib/scheduler.h:126-131 | resolving the stored arguments left to right yields exactly their evaluation, the first failure winning, and touches only tasks the owner reaches; on success every future's target and every task it reaches are executed |
| Scheduler.TaskScheduler.ResolveArg | lib/scheduler.h:150-158 | a plain value passes through unchanged; a future becomes `getResult` on its target, which on success leaves the target and every task it reaches executed |
| Scheduler.TaskScheduler.DetectCycle | lib/scheduler.h:178-182 | reports a cycle exactly when one is reachable from the start id; the graph gains at most empty entries |
| Scheduler.TaskScheduler.Dfs | lib/scheduler.h:184-205 | a true answer comes with a walk from the search root that returns to a node already on it; on false the path set is restored and the node and everything newly visited are fully explored |
| Scenarios.Register | lib/scheduler.h:58-77 | registering definitions whose futures name earlier tasks accepts every one, with ids 0, 1, 2, ... and nothing executed |
| Scenarios.ExecuteAndCollect | lib/scheduler.h:97-103 | after `executeAll`, reading every id returns its evaluated value, and each callable ran exactly once however many reads follow |
| Scenarios.BasicTaskExecution | tests/gtests.cpp:34-44 | the results are 5 and 20 |
| Scenarios.GetResultErrors | lib/scheduler.h:90-94 | an unregistered id fails with `OutOfRange`, a wrong type with `BadCast` |
| Scenarios.MoreThanTwoArguments | tests/gtests.cpp:84-92 | the result is 10 |
| Scenarios.MixedFuturesAndValues | tests/gtests.cpp:95-108 | the results are 10, 8 and 28, each callable invoked once |
| Scenarios.MemberFunctionViaNonConstRef | tests/gtests.cpp:112-126 | the result is 10 and `factor` ends at 3 |
| Scenarios.MemberFunctionViaConstRef | tests/gtests.cpp:129-142 | the result is 12 |
| Scenarios.ForwardFuturesAcyclic | lib/scheduler.h:80-83 | futures that all name later ids give an acyclic graph |
| Scenarios.RejectThenAdd | lib/scheduler.h:71-77 | a rejected `add` followed by an accepted one gives the accepted task the id the rejected one would have had |
| Scenarios.RegisterForward | lib/scheduler.h:58-77 | a future to a pending id is accepted, the registration closing the cycle through it is rejected, and the next `add` gets id 1 |
| Scenarios.ForceUntried | lib/scheduler.h:85-95 | `getResult` on a scheduler on which nothing has run: on success the task and every task it reaches are executed, each having run its callable exactly once |
| Scenarios.ForwardFutureAndRejectedCycle | lib/scheduler.h:85-95 | forcing the task with the forward future yields 3 and forces the later task too: both tasks are executed and each callable ran once |
| Scenarios.StoreAndRetrieveValue | tests/any_tests.cpp:14-25 | 42 and then "Hello" are read back at their types |
| Scenarios.InvalidCastThrowsException | tests/any_tests.cpp:28-32 | casting a held int to another type fails with `BadCast` |
| Scenarios.CopyConstructionAndAssignment | tests/any_tests.cpp:35-58 | the copy-constructed and the copy-assigned store both read back 42 |
| Scenarios.MoveConstruction | tests/any_tests.cpp:44-49 | the moved-to store reads back "Hello" and the source holds nothing |
| Scenarios.BasicTupleFunctionality | tests/tuple_tests.cpp:14-29 | elements 0 and 2 read 52 and the string, the size is 3, and after writing 100 through `Get<0>` element 0 is 100 and element 2 is unchanged |
| Findings.RecordedAsWritten | lib/scheduler.h:160-176 | what `add` records as written: only the targets of const-qualified futures, a subset of the intended set |
| Findings.AllConstRecordsAll | lib/scheduler.h:164-167 | when every future is const-qualified, the as-written set equals the intended set |
| Findings.AsWrittenAcceptsCycle | lib/scheduler.h:66-74 | two tasks taking each other's futures as temporaries record no edges, so the search finds no cycle, although the futures form one |

## Left out

- `lib/hlprs_std/invoke.h` and `lib/hlprs_std/apply.h`: call-shape dispatch (free function, member pointer on a value, pointer or `reference_wrapper`, data member) and index-sequence spreading. A callable is a function of the resolved argument list. The receiver object of a member-function task is folded into the callable.
- Floating-point values and the float test scenarios (`TaskWithMultipleDependencies`, `TaskWithMemberFunction`, `ApplyWithTuple`). `InvalidCastThrowsException` and `BasicTupleFunctionality` use a boolean in place of the float; `StoreAndRetrieveValue` omits its float step.
- Integer width: values and ids are unbounded integers. `size_t` and `int` overflow are not modelled.
- Side effects of callables: only the number of invocations is kept, in the ghost `calls` counter. `MemberFunctionViaNonConstRef` reads `factor` as 2 plus that count.
- Callables are deterministic functions of their arguments (`Tasks.Callable`). A callable that threw therefore throws again on every retry, so the retry that `Execute` allows after an exception (lib/scheduler.h:132-135) never succeeds in the model. Likewise a callable with a `factor++`-style side effect returns the same value on every run.
- Argument resolution order: C++ leaves the order in which the `ResolveArg` calls of one pack expansion run unspecified. The model resolves left to right, and the first failure wins.
- C++ overload ranking for futures: the scheduler model records an edge for every future argument, as intended. The as-written behaviour is in `Findings` (see "## Findings").
- `Any` pointer defects:
  - `content_` is uninitialised after default construction;
  - the old holder leaks in the assignments;
  - `Reset` deletes without clearing, leaving a dangling pointer.

  The slot is an `Option<Value>`, `Reset` empties it, and no undefined behaviour is modelled.
- `AnyCast` returns a reference through which the held value could be changed. The model returns the value.
- `Tuple`'s multi-element copy constructor names the nonexistent member `other.tuple`, so it is not modelled. Neither is the moved-from state of tuple moves.
- The scheduler's move constructor, move assignment and destructor, `unique_ptr` ownership, the unused `task_id_` field, and the raw scheduler pointer inside `FutureResult`. A future is an id and a type tag.
- Compile-time checks: the `static_assert` against `void` results, and `void`-returning callables.
- Re-entrant forcing of a task that is mid-execution cannot occur, because the graph is acyclic. No model of the call stack is kept.
- Structure only: `Run`, `Invoke`, `ResolveArgs` and `Link` are pieces of `Execute` and `add` split out for the proofs, with no C++ functions of their own.

## Findings

| source | as written | input that shows it | evidently intended | confidence | as-written member | corrected member |
|---|---|---|---|---|---|---|
| lib/scheduler.h:67 | `AddDependencies(deps, args...)` passes the arguments as lvalues. For a `FutureResult<T>` whose deduced type is not `const`, overload ranking picks the forwarding `AddDependency(T&&)` (lines 160-162), which records nothing. Only a const-qualified future reaches the recording overload (lines 164-167). | `add(f, getFutureResult<int>(1))` then `add(g, getFutureResult<int>(0))`: both futures are temporaries, so no edge is recorded and both `add`s are accepted. Forcing either task would then recurse without end. | every future argument records an edge to its target, so the second `add` is rejected | medium; follows from C++ overload resolution; not executed | Findings.AsWrittenAcceptsCycle | Scheduler.AddDependencies |
