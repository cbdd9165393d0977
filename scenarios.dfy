/**
 * The repository's test scenarios, rebuilt as clients of the model. Each
 * method allocates its own scheduler (or store) and states the values the
 * tests expect; the proofs follow from the contracts of the scheduler's
 * operations alone. Floating-point scenarios are not part of this model.
 */
module Scenarios {
  import opened Values
  import opened Graphs
  import opened Tasks
  import opened Scheduler
  import opened Tuples
  import AnyStore

  /** `[](int a, int b) { return a + b; }` */
  function Plus(vs: seq<Value>): Result<Value>
  {
    if |vs| == 2 && vs[0].IntV? && vs[1].IntV? then Ok(IntV(vs[0].i + vs[1].i)) else Err(BadCast)
  }

  /** `[](int a, int b) { return a * b; }` */
  function Times(vs: seq<Value>): Result<Value>
  {
    if |vs| == 2 && vs[0].IntV? && vs[1].IntV? then Ok(IntV(vs[0].i * vs[1].i)) else Err(BadCast)
  }

  /** `[](int x) { return x * 2; }` */
  function Double(vs: seq<Value>): Result<Value>
  {
    if |vs| == 1 && vs[0].IntV? then Ok(IntV(vs[0].i * 2)) else Err(BadCast)
  }

  /** `[](int x) { return x + 1; }` */
  function Succ1(vs: seq<Value>): Result<Value>
  {
    if |vs| == 1 && vs[0].IntV? then Ok(IntV(vs[0].i + 1)) else Err(BadCast)
  }

  /** `[](int a, int b, int c) { return a + b + c; }` */
  function Plus3(vs: seq<Value>): Result<Value>
  {
    if |vs| == 3 && vs[0].IntV? && vs[1].IntV? && vs[2].IntV? then Ok(IntV(vs[0].i + vs[1].i + vs[2].i))
    else Err(BadCast)
  }

  /** `[](int a, int b, int c, int d) { return a + b + c + d; }` */
  function Plus4(vs: seq<Value>): Result<Value>
  {
    if |vs| == 4 && vs[0].IntV? && vs[1].IntV? && vs[2].IntV? && vs[3].IntV?
    then Ok(IntV(vs[0].i + vs[1].i + vs[2].i + vs[3].i))
    else Err(BadCast)
  }

  /**
   * `TestClass::mul` bound to `std::ref(obj)` with `factor == 2`: on its
   * first (and only) invocation it returns `a * 2`; each invocation
   * increments `obj.factor`, so the field equals 2 plus the invocation count.
   */
  function MulByFactor(vs: seq<Value>): Result<Value>
  {
    if |vs| == 1 && vs[0].IntV? then Ok(IntV(vs[0].i * 2)) else Err(BadCast)
  }

  /** `TestClass::sum` bound to `std::cref(obj)` with `base == 3`. */
  function SumWithBase(vs: seq<Value>): Result<Value>
  {
    if |vs| == 2 && vs[0].IntV? && vs[1].IntV? then Ok(IntV(vs[0].i + vs[1].i + 3)) else Err(BadCast)
  }

  /** Every future names an earlier task. */
  ghost predicate Backward(defs: seq<TaskDef>)
  {
    forall k, a :: 0 <= k < |defs| && a in defs[k].args && a.Fut? ==> a.f.id < k
  }

  /** Every prefix of a backward list is backward, hence acyclic. */
  lemma BackwardPrefix(defs: seq<TaskDef>, n: nat)
    requires Backward(defs) && n <= |defs|
    ensures Acyclic(DefGraph(defs[..n]))
  {
    var p := defs[..n];
    forall k, a | 0 <= k < |p| && a in p[k].args && a.Fut?
      ensures a.f.id < k
    {
      assert p[k] == defs[k];
    }
    BackwardFuturesAcyclic(p);
  }

  /** Registering `defs[n]` after `defs[..n]` gives `defs[..n + 1]`. */
  lemma PrefixAppend(defs: seq<TaskDef>, n: nat)
    requires n < |defs|
    ensures defs[..n] + [TaskDef(defs[n].callable, defs[n].args)] == defs[..n + 1]
  {
    assert TaskDef(defs[n].callable, defs[n].args) == defs[n];
  }

  /** No task in `t` has been executed, and no callable counted in `c` has run. */
  ghost predicate NoneRun(t: seq<Task>, c: seq<nat>)
  {
    |c| == |t| && forall k :: 0 <= k < |t| ==> !t[k].executed && c[k] == 0
  }

  /** Appending a task that has not been executed, with no run counted, keeps `NoneRun`. */
  lemma NoneRunAppend(t: seq<Task>, c: seq<nat>, d: TaskDef)
    requires NoneRun(t, c)
    ensures NoneRun(t + [Task(d, false, None)], c + [0])
  {
  }

  /** No task of `s` has been executed and no callable has run. */
  ghost predicate Untried(s: TaskScheduler)
    reads s
  {
    NoneRun(s.tasks, s.calls)
  }

  /** Registering `defs[n]` on a scheduler holding `defs[..n]` is accepted and appends one fresh task. */
  method RegisterNext(s: TaskScheduler, defs: seq<TaskDef>, n: nat)
    requires Backward(defs) && n < |defs|
    requires s.Valid() && s.defs == defs[..n]
    modifies s
    ensures s.Valid() && s.defs == defs[..n + 1]
    ensures s.tasks == old(s.tasks) + [Task(defs[n], false, None)] && s.calls == old(s.calls) + [0]
    ensures old(Untried(s)) ==> Untried(s)
  {
    BackwardPrefix(defs, n + 1);
    PrefixAppend(defs, n);
    ghost var t0, c0 := s.tasks, s.calls;
    var id := s.Add(defs[n].callable, defs[n].args);
    if NoneRun(t0, c0) {
      NoneRunAppend(t0, c0, defs[n]);
    }
  }

  /**
   * A client that registers `defs` in order on a new scheduler: with every
   * future naming an earlier task, no `add` is rejected and the ids come
   * out as 0, 1, 2, ...
   */
  method Register(defs: seq<TaskDef>) returns (s: TaskScheduler)
    requires Backward(defs)
    ensures fresh(s) && s.Valid() && s.defs == defs && |s.calls| == |defs|
    ensures forall k :: 0 <= k < |defs| ==> !s.tasks[k].executed && s.calls[k] == 0
  {
    s := new TaskScheduler();
    var n := 0;
    while n < |defs|
      invariant 0 <= n <= |defs|
      invariant fresh(s) && s.Valid() && s.defs == defs[..n] && Untried(s)
    {
      RegisterNext(s, defs, n);
      n := n + 1;
    }
    assert defs[..n] == defs;
  }

  /**
   * The tests' usual client: register `defs`, `executeAll`, then
   * `getResult` every id at the type of its expected value. When every task
   * evaluates to its expected value, each read returns it, and each
   * callable has run exactly once however many reads follow.
   */
  method ExecuteAndCollect(defs: seq<TaskDef>, expected: seq<Value>) returns (rs: seq<Result<Value>>, ghost runs: seq<nat>)
    requires Backward(defs) && Acyclic(DefGraph(defs)) && |expected| == |defs|
    requires forall k :: 0 <= k < |defs| ==> Eval(defs, k) == Ok(expected[k])
    ensures |rs| == |defs| && forall k :: 0 <= k < |defs| ==> rs[k] == Ok(expected[k])
    ensures |runs| == |defs| && forall k :: 0 <= k < |defs| ==> runs[k] == 1
  {
    var s := Register(defs);
    ghost var t0, c0 := s.tasks, s.calls;
    var e := s.ExecuteAll();
    ghost var t1, c1 := s.tasks, s.calls;
    assert e.Pass?;
    forall j | 0 <= j < |defs|
      ensures t1[j].executed && c1[j] == 1
    {
      assert t1[j].executed && !t0[j].executed;
    }
    rs := [];
    var k := 0;
    while k < |defs|
      invariant 0 <= k <= |defs|
      invariant s.Valid() && s.defs == defs && s.tasks == t1 && s.calls == c1
      invariant forall j :: 0 <= j < |defs| ==> t1[j].executed && c1[j] == 1
      invariant |rs| == k && forall j {:trigger rs[j]} :: 0 <= j < k ==> rs[j] == Ok(expected[j])
    {
      var r := s.GetResult(k, TypeOf(expected[k]));
      assert r == Ok(expected[k]);
      ghost var rs0 := rs;
      rs := rs + [r];
      forall j | 0 <= j < k + 1
        ensures rs[j] == Ok(expected[j])
      {
        if j < k {
          assert rs[j] == rs0[j];
        }
      }
      k := k + 1;
    }
    runs := s.calls;
  }

  /** The definitions `BasicTaskExecution` registers. */
  function BasicDefs(): seq<TaskDef>
  {
    [TaskDef(Plus, [Plain(IntV(2)), Plain(IntV(3))]),
     TaskDef(Times, [Plain(IntV(4)), Fut(FutureResult(0, IntT))])]
  }

  lemma BasicMeaning()
    ensures Backward(BasicDefs()) && Acyclic(DefGraph(BasicDefs()))
    ensures Eval(BasicDefs(), 0) == Ok(IntV(5)) && Eval(BasicDefs(), 1) == Ok(IntV(20))
  {
    var defs := BasicDefs();
    BackwardFuturesAcyclic(defs);
    EvalArgsOk(defs, 0, defs[0].args, [IntV(2), IntV(3)]);
    assert Eval(defs, 0) == Ok(IntV(5));
    EvalArgsOk(defs, 1, defs[1].args, [IntV(4), IntV(5)]);
  }

  /** `BasicTaskExecution`: `2 + 3`, then `4 * future(id1)`. */
  method BasicTaskExecution() returns (r1: Result<Value>, r2: Result<Value>)
    ensures r1 == Ok(IntV(5)) && r2 == Ok(IntV(20))
  {
    BasicMeaning();
    var rs, runs := ExecuteAndCollect(BasicDefs(), [IntV(5), IntV(20)]);
    r1, r2 := rs[0], rs[1];
  }

  /** `getResult` on an unregistered id, and at a type the task does not produce. */
  method GetResultErrors() returns (unknown: Result<Value>, mistyped: Result<Value>)
    ensures unknown == Err(OutOfRange) && mistyped == Err(BadCast)
  {
    BasicMeaning();
    var s := Register(BasicDefs());
    unknown := s.GetResult(2, IntT);
    mistyped := s.GetResult(0, StrT);
  }

  /** The definition `MoreThanTwoArguments` registers. */
  function FourArgumentDefs(): seq<TaskDef>
  {
    [TaskDef(Plus4, [Plain(IntV(1)), Plain(IntV(2)), Plain(IntV(3)), Plain(IntV(4))])]
  }

  lemma FourArgumentMeaning()
    ensures Backward(FourArgumentDefs()) && Acyclic(DefGraph(FourArgumentDefs()))
    ensures Eval(FourArgumentDefs(), 0) == Ok(IntV(10))
  {
    var defs := FourArgumentDefs();
    BackwardFuturesAcyclic(defs);
    EvalArgsOk(defs, 0, defs[0].args, [IntV(1), IntV(2), IntV(3), IntV(4)]);
  }

  /** `MoreThanTwoArguments`: `1 + 2 + 3 + 4`. */
  method MoreThanTwoArguments() returns (r: Result<Value>)
    ensures r == Ok(IntV(10))
  {
    FourArgumentMeaning();
    var rs, runs := ExecuteAndCollect(FourArgumentDefs(), [IntV(10)]);
    r := rs[0];
  }

  /** The definitions `MixedFuturesAndValues` registers. */
  function MixedDefs(): seq<TaskDef>
  {
    [TaskDef(Double, [Plain(IntV(5))]),
     TaskDef(Succ1, [Plain(IntV(7))]),
     TaskDef(Plus3, [Fut(FutureResult(0, IntT)), Plain(IntV(10)), Fut(FutureResult(1, IntT))])]
  }

  lemma MixedSources()
    ensures Backward(MixedDefs()) && Acyclic(DefGraph(MixedDefs()))
    ensures Eval(MixedDefs(), 0) == Ok(IntV(10)) && Eval(MixedDefs(), 1) == Ok(IntV(8))
  {
    var defs := MixedDefs();
    BackwardFuturesAcyclic(defs);
    EvalArgsOk(defs, 0, defs[0].args, [IntV(5)]);
    EvalArgsOk(defs, 1, defs[1].args, [IntV(7)]);
  }

  lemma MixedMeaning()
    ensures Backward(MixedDefs()) && Acyclic(DefGraph(MixedDefs()))
    ensures Eval(MixedDefs(), 0) == Ok(IntV(10)) && Eval(MixedDefs(), 1) == Ok(IntV(8))
    ensures Eval(MixedDefs(), 2) == Ok(IntV(28))
  {
    MixedSources();
    var defs := MixedDefs();
    var args := defs[2].args;
    assert EvalArg(defs, 2, args[0]) == Ok(IntV(10)) && EvalArg(defs, 2, args[2]) == Ok(IntV(8));
    EvalArgsOk(defs, 2, args, [IntV(10), IntV(10), IntV(8)]);
  }

  /**
   * `MixedFuturesAndValues`: `5 * 2`, `7 + 1`, then their sum plus 10;
   * each callable runs exactly once.
   */
  method MixedFuturesAndValues() returns (r1: Result<Value>, r2: Result<Value>, r3: Result<Value>, ghost runs: seq<nat>)
    ensures r1 == Ok(IntV(10)) && r2 == Ok(IntV(8)) && r3 == Ok(IntV(28))
    ensures runs == [1, 1, 1]
  {
    MixedMeaning();
    var rs;
    rs, runs := ExecuteAndCollect(MixedDefs(), [IntV(10), IntV(8), IntV(28)]);
    r1, r2, r3 := rs[0], rs[1], rs[2];
  }

  /** The definition `MemberFunctionViaNonConstRef` registers. */
  function NonConstRefDefs(): seq<TaskDef>
  {
    [TaskDef(MulByFactor, [Plain(IntV(5))])]
  }

  lemma NonConstRefMeaning()
    ensures Backward(NonConstRefDefs()) && Acyclic(DefGraph(NonConstRefDefs()))
    ensures Eval(NonConstRefDefs(), 0) == Ok(IntV(10))
  {
    var defs := NonConstRefDefs();
    BackwardFuturesAcyclic(defs);
    EvalArgsOk(defs, 0, defs[0].args, [IntV(5)]);
  }

  /**
   * `MemberFunctionViaNonConstRef`: `mul(5)` on an object with `factor == 2`
   * returns 10, and `obj.factor`, 2 plus the number of invocations, is 3
   * after `executeAll` and a `getResult`.
   */
  method MemberFunctionViaNonConstRef() returns (r: Result<Value>, ghost factor: nat)
    ensures r == Ok(IntV(10)) && factor == 3
  {
    NonConstRefMeaning();
    var rs, runs := ExecuteAndCollect(NonConstRefDefs(), [IntV(10)]);
    r := rs[0];
    factor := 2 + runs[0];
  }

  /** The definition `MemberFunctionViaConstRef` registers. */
  function ConstRefDefs(): seq<TaskDef>
  {
    [TaskDef(SumWithBase, [Plain(IntV(4)), Plain(IntV(5))])]
  }

  lemma ConstRefMeaning()
    ensures Backward(ConstRefDefs()) && Acyclic(DefGraph(ConstRefDefs()))
    ensures Eval(ConstRefDefs(), 0) == Ok(IntV(12))
  {
    var defs := ConstRefDefs();
    BackwardFuturesAcyclic(defs);
    EvalArgsOk(defs, 0, defs[0].args, [IntV(4), IntV(5)]);
  }

  /** `MemberFunctionViaConstRef`: `sum(4, 5)` with `base == 3`. */
  method MemberFunctionViaConstRef() returns (r: Result<Value>)
    ensures r == Ok(IntV(12))
  {
    ConstRefMeaning();
    var rs, runs := ExecuteAndCollect(ConstRefDefs(), [IntV(12)]);
    r := rs[0];
  }

  /** Task 0 takes a future of the not yet registered task 1. */
  function ForwardDef(): TaskDef
  {
    TaskDef(Succ1, [Fut(FutureResult(1, IntT))])
  }

  /** Task 1 after the rejected registration: `1 + 1`. */
  function ForwardDefs(): seq<TaskDef>
  {
    [ForwardDef(), TaskDef(Succ1, [Plain(IntV(1))])]
  }

  /** The registration the scheduler must reject: task 1 taking a future of task 0. */
  function ClosingDef(): TaskDef
  {
    TaskDef(Succ1, [Fut(FutureResult(0, IntT))])
  }

  /** Every future of `defs` names a later id. */
  lemma ForwardFuturesAcyclic(defs: seq<TaskDef>)
    requires forall k, a :: 0 <= k < |defs| && a in defs[k].args && a.Fut? ==> a.f.id > k
    ensures Acyclic(DefGraph(defs))
  {
    var g := DefGraph(defs);
    forall x: nat, y: nat | y in Succ(g, x)
      ensures -(y as int) < -(x as int)
    {
      var a :| a in defs[x].args && a.Fut? && a.f.id == y;
    }
    RankedIsAcyclic(g, x => -(x as int));
  }

  lemma ForwardMeaning()
    ensures Acyclic(DefGraph([ForwardDef()]))
    ensures !Acyclic(DefGraph([ForwardDef(), ClosingDef()]))
    ensures Acyclic(DefGraph(ForwardDefs()))
    ensures Eval(ForwardDefs(), 0) == Ok(IntV(3))
  {
    ForwardFuturesAcyclic([ForwardDef()]);
    var g := DefGraph([ForwardDef(), ClosingDef()]);
    assert 1 in Succ(g, 0) && 0 in Succ(g, 1);
    assert IsPath(g, [0, 1, 0]);
    var defs := ForwardDefs();
    ForwardFuturesAcyclic(defs);
    EvalArgsOk(defs, 1, defs[1].args, [IntV(1)]);
    assert Eval(defs, 1) == Ok(IntV(2));
    EvalArgsOk(defs, 0, defs[0].args, [IntV(2)]);
  }

  /** Task 0 of `ForwardDefs` reaches task 1, through its future. */
  lemma ForwardScope()
    ensures Acyclic(DefGraph(ForwardDefs()))
    ensures 0 in Scope(ForwardDefs(), 0) && 1 in Scope(ForwardDefs(), 0)
  {
    var defs := ForwardDefs();
    ForwardFuturesAcyclic(defs);
    assert defs[0].args[0] in defs[0].args;
    ReachShrinks(DefGraph(defs), 0, 1);
  }

  /**
   * `getResult` on a scheduler on which nothing has run yet: when the task
   * evaluates, it and every task it reaches end executed, and each of their
   * callables ran exactly once.
   */
  method ForceUntried(s: TaskScheduler, id: nat, t: Tag) returns (r: Result<Value>)
    requires s.Valid() && Untried(s) && Eval(s.defs, id).Ok?
    modifies s
    ensures s.Valid() && s.defs == old(s.defs) && |s.calls| == |s.tasks|
    ensures r == CastResult(Eval(s.defs, id), t)
    ensures forall j :: j in Scope(s.defs, id) ==> j < |s.tasks| && s.tasks[j].executed && s.calls[j] == 1
  {
    r := s.GetResult(id, t);
    forall j | j in Scope(s.defs, id)
      ensures j < |s.tasks| && s.tasks[j].executed && s.calls[j] == 1
    {
      assert s.tasks[j].executed;
    }
  }

  /**
   * A rejected `add` leaves the scheduler as it was, so the next accepted
   * `add` receives the id the rejected one would have had.
   */
  method RejectThenAdd(s: TaskScheduler, bad: TaskDef, good: TaskDef) returns (rejected: Result<nat>, accepted: Result<nat>)
    requires s.Valid()
    requires !Acyclic(DefGraph(s.defs + [bad])) && Acyclic(DefGraph(s.defs + [good]))
    modifies s
    ensures rejected == Err(CycleDetected) && accepted == Ok(old(|s.tasks|))
    ensures s.Valid() && s.defs == old(s.defs) + [good]
    ensures s.tasks == old(s.tasks) + [Task(good, false, None)] && s.calls == old(s.calls) + [0]
  {
    assert TaskDef(bad.callable, bad.args) == bad && TaskDef(good.callable, good.args) == good;
    rejected := s.Add(bad.callable, bad.args);
    accepted := s.Add(good.callable, good.args);
  }

  /** An accepted `add` on a scheduler on which nothing has run appends a task that has not run either. */
  method AddUntried(s: TaskScheduler, d: TaskDef) returns (r: Result<nat>)
    requires s.Valid() && Untried(s) && Acyclic(DefGraph(s.defs + [d]))
    modifies s
    ensures s.Valid() && Untried(s) && s.defs == old(s.defs) + [d] && r == Ok(old(|s.tasks|))
  {
    assert TaskDef(d.callable, d.args) == d;
    ghost var t0, c0 := s.tasks, s.calls;
    r := s.Add(d.callable, d.args);
    NoneRunAppend(t0, c0, d);
  }

  /**
   * A future may name an id that is registered later. An `add` that would
   * close a cycle is rejected and rolled back, so the next `add` gets the
   * same id.
   */
  method RegisterForward() returns (s: TaskScheduler, first: Result<nat>, rejected: Result<nat>, third: Result<nat>)
    ensures fresh(s) && s.Valid() && s.defs == ForwardDefs()
    ensures Untried(s)
    ensures first == Ok(0) && rejected == Err(CycleDetected) && third == Ok(1)
  {
    ForwardMeaning();
    var d0, d1, d2 := ForwardDef(), ClosingDef(), ForwardDefs()[1];
    assert TaskDef(d0.callable, d0.args) == d0 && [] + [d0] == [d0];
    assert [d0] + [d1] == [ForwardDef(), ClosingDef()] && [d0] + [d2] == ForwardDefs();
    s := new TaskScheduler();
    first := AddUntried(s, d0);
    ghost var t0, c0 := s.tasks, s.calls;
    rejected, third := RejectThenAdd(s, d1, d2);
    NoneRunAppend(t0, c0, d2);
  }

  /**
   * `getResult<int>(0)` on a two-task scheduler on which nothing has run,
   * where task 0 evaluates to `v` and depends on task 1: task 1 is forced
   * along with it and each callable runs once.
   */
  method ForceDependent(s: TaskScheduler, v: int) returns (r: Result<Value>, depForced: bool, ghost runs: seq<nat>)
    requires s.Valid() && Untried(s) && |s.tasks| == 2
    requires Eval(s.defs, 0) == Ok(IntV(v)) && 1 in Scope(s.defs, 0)
    modifies s
    ensures r == Ok(IntV(v))
    ensures depForced && runs == [1, 1]
  {
    assert 0 in Scope(s.defs, 0);
    r := ForceUntried(s, 0, IntT);
    depForced := s.tasks[1].executed;
    runs := s.calls;
  }

  /**
   * `RegisterForward`, then `getResult<int>(0)`, which forces the later
   * task 1 first: `(1 + 1) + 1`. Afterwards task 1 is executed too, and
   * each of the two callables ran once.
   */
  method ForwardFutureAndRejectedCycle()
    returns (first: Result<nat>, rejected: Result<nat>, third: Result<nat>, r: Result<Value>,
             laterForced: bool, ghost runs: seq<nat>)
    ensures first == Ok(0) && rejected == Err(CycleDetected) && third == Ok(1)
    ensures r == Ok(IntV(3))
    ensures laterForced && runs == [1, 1]
  {
    var s;
    s, first, rejected, third := RegisterForward();
    ForwardMeaning();
    ForwardScope();
    r, laterForced, runs := ForceDependent(s, 3);
  }

  /** `StoreAndRetrieveValue` (integer and string steps): assign, then cast back. */
  method StoreAndRetrieveValue() returns (a: Result<Value>, b: Result<Value>)
    ensures a == Ok(IntV(42)) && b == Ok(StrV("Hello"))
  {
    var any := new AnyStore.Any();
    any.Assign(IntV(42));
    a := AnyStore.AnyCast(any.content, IntT);
    any.Assign(StrV("Hello"));
    b := AnyStore.AnyCast(any.content, StrT);
  }

  /** `InvalidCastThrowsException`, with a boolean in place of the float cast. */
  method InvalidCastThrowsException() returns (r: Result<Value>)
    ensures r == Err(BadCast)
  {
    var any := new AnyStore.Any.FromValue(IntV(42));
    r := AnyStore.AnyCast(any.content, BoolT);
  }

  /** `CopyConstruction` and `CopyAssignment`: the copy holds an equal value. */
  method CopyConstructionAndAssignment() returns (constructed: Result<Value>, copied: Result<Value>)
    ensures constructed == Ok(IntV(42)) && copied == Ok(IntV(42))
  {
    var any1 := new AnyStore.Any.FromValue(IntV(42));
    var any2 := new AnyStore.Any.Copy(any1);
    constructed := AnyStore.AnyCast(any2.content, IntT);
    var any3 := new AnyStore.Any();
    any3.CopyAssign(any1);
    copied := AnyStore.AnyCast(any3.content, IntT);
  }

  /** `MoveConstruction`: the new store holds the string; the source is left empty. */
  method MoveConstruction() returns (r: Result<Value>, sourceHolds: bool)
    ensures r == Ok(StrV("Hello")) && !sourceHolds
  {
    var any1 := new AnyStore.Any.FromValue(StrV("Hello"));
    var any2 := new AnyStore.Any.Move(any1);
    r := AnyStore.AnyCast(any2.content, StrT);
    sourceHolds := any1.Contains(StrT);
  }

  /**
   * `BasicTupleFunctionality` and `TupleSize`, with a boolean in place of
   * the float element: positional reads, the size, and a write through `Get<0>`.
   */
  method BasicTupleFunctionality() returns (first: Value, last: Value, size: nat, written: Value, kept: Value)
    ensures first == IntV(52) && last == StrV("aaaaaaaaaaaaaaaaaaa") && size == 3
    ensures written == IntV(100) && kept == StrV("aaaaaaaaaaaaaaaaaaa")
  {
    var t := MakeTuple([IntV(52), BoolV(true), StrV("aaaaaaaaaaaaaaaaaaa")]);
    first := Get(t, 0);
    last := Get(t, 2);
    size := Size(t);
    var u := Set(t, 0, IntV(100));
    written := Get(u, 0);
    kept := Get(u, 2);
  }
}
