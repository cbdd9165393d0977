/**
 * A registered task and the reference meaning of forcing it.
 *
 * A task is a callable together with its stored arguments; an argument is
 * either a plain value or a future naming another task id and the type the
 * result is expected to have. The dependency graph of a list of task
 * definitions has an edge from each task to the target of each of its
 * futures. `Eval` is what forcing a task means when nothing is memoised:
 * resolve the arguments left to right (futures by evaluating their target
 * and casting the result), then call the callable; the first failure wins.
 * The scheduler is proved to compute exactly `Eval`, whatever has already
 * been executed.
 */
module Tasks {
  import opened Values
  import opened Graphs
  import AnyStore

  /** `FutureResult<T>`: a handle on the result of task `id`, to be read as a `tag`. */
  datatype Future = FutureResult(id: nat, tag: Tag)

  /** A stored argument: a plain value, or a future. */
  datatype Arg = Plain(v: Value) | Fut(f: Future)

  /** A task's callable, applied to its resolved arguments in order; it may throw. */
  type Callable = seq<Value> -> Result<Value>

  /** What `add` registers: the callable and its (possibly unresolved) arguments. */
  datatype TaskDef = TaskDef(callable: Callable, args: seq<Arg>)

  /** A task with its `executed` flag and its result slot `task_result_`. */
  datatype Task = Task(def: TaskDef, executed: bool, result: Option<Value>)

  /** The ids named by the futures among `args`: the dependency set recorded for them. */
  function FutureIds(args: seq<Arg>): set<nat>
  {
    set a | a in args && a.Fut? :: a.f.id
  }

  /** The dependency graph of the registered definitions. */
  function DefGraph(defs: seq<TaskDef>): Graph
  {
    map k | 0 <= k < |defs| :: FutureIds(defs[k].args)
  }

  /** Every future among `args` names an id in `deps`. */
  ghost predicate FuturesWithin(args: seq<Arg>, deps: set<nat>)
  {
    forall a :: a in args && a.Fut? ==> a.f.id in deps
  }

  /** `getResult<T>` on an evaluation: the evaluation's failure, or the value cast to `t`. */
  function CastResult(r: Result<Value>, t: Tag): Result<Value>
  {
    match r
    case Err(e) => Err(e)
    case Ok(v) => AnyStore.AnyCast(Some(v), t)
  }

  /** The meaning of forcing task `i`: `OutOfRange` for an unregistered id. */
  ghost function Eval(defs: seq<TaskDef>, i: nat): (r: Result<Value>)
    requires Acyclic(DefGraph(defs))
    decreases Reach(DefGraph(defs), i), 1
  {
    if i >= |defs| then Err(OutOfRange)
    else
      match EvalArgs(defs, i, defs[i].args)
      case Err(e) => Err(e)
      case Ok(vs) => defs[i].callable(vs)
  }

  /** Resolving the arguments of task `i`, left to right; the first failure wins. */
  ghost function EvalArgs(defs: seq<TaskDef>, i: nat, args: seq<Arg>): (r: Result<seq<Value>>)
    requires Acyclic(DefGraph(defs)) && i < |defs|
    requires FuturesWithin(args, Succ(DefGraph(defs), i))
    decreases Reach(DefGraph(defs), i), 0, |args|
  {
    if args == [] then Ok([])
    else
      var front := args[..|args| - 1];
      assert forall a :: a in front ==> a in args;
      match EvalArgs(defs, i, front)
      case Err(e) => Err(e)
      case Ok(vs) =>
        match EvalArg(defs, i, args[|args| - 1])
        case Err(e) => Err(e)
        case Ok(v) => Ok(vs + [v])
  }

  /** `ResolveArg`: a plain value passes through; a future is `getResult` on its target. */
  ghost function EvalArg(defs: seq<TaskDef>, i: nat, a: Arg): (r: Result<Value>)
    requires Acyclic(DefGraph(defs)) && i < |defs|
    requires a.Fut? ==> a.f.id in Succ(DefGraph(defs), i)
    decreases Reach(DefGraph(defs), i), 0, 0
  {
    match a
    case Plain(v) => Ok(v)
    case Fut(f) =>
      ReachShrinks(DefGraph(defs), i, f.id);
      CastResult(Eval(defs, f.id), f.tag)
  }

  /** The ids whose tasks forcing `i` may execute: `i` and everything it reaches. */
  ghost function Scope(defs: seq<TaskDef>, i: nat): set<nat>
  {
    Reach(DefGraph(defs), i) + {i}
  }

  /** When every argument resolves, the argument list resolves to their values, in order. */
  lemma {:induction false} EvalArgsOk(defs: seq<TaskDef>, i: nat, args: seq<Arg>, vs: seq<Value>)
    requires Acyclic(DefGraph(defs)) && i < |defs|
    requires FuturesWithin(args, Succ(DefGraph(defs), i))
    requires |vs| == |args|
    requires forall k :: 0 <= k < |args| ==> EvalArg(defs, i, args[k]) == Ok(vs[k])
    ensures EvalArgs(defs, i, args) == Ok(vs)
    decreases |args|
  {
    if args != [] {
      var n := |args| - 1;
      var front := args[..n];
      assert forall a :: a in front ==> a in args;
      forall k | 0 <= k < |front|
        ensures EvalArg(defs, i, front[k]) == Ok(vs[..n][k])
      {
        assert front[k] == args[k];
      }
      EvalArgsOk(defs, i, front, vs[..n]);
      assert vs[..n] + [vs[n]] == vs;
    }
  }

  /** A failure in a prefix of the arguments is the failure of the whole list. */
  lemma {:induction false} PrefixFailure(defs: seq<TaskDef>, i: nat, args: seq<Arg>, k: nat)
    requires Acyclic(DefGraph(defs)) && i < |defs|
    requires FuturesWithin(args, Succ(DefGraph(defs), i))
    requires k <= |args|
    requires EvalArgs(defs, i, args[..k]).Err?
    ensures EvalArgs(defs, i, args) == EvalArgs(defs, i, args[..k])
    decreases |args|
  {
    if k < |args| {
      var front := args[..|args| - 1];
      assert front[..k] == args[..k];
      PrefixFailure(defs, i, front, k);
    } else {
      assert args[..k] == args;
    }
  }

  /** Resolving one more argument extends the resolved prefix. */
  lemma PrefixStep(defs: seq<TaskDef>, i: nat, args: seq<Arg>, k: nat)
    requires Acyclic(DefGraph(defs)) && i < |defs|
    requires FuturesWithin(args, Succ(DefGraph(defs), i))
    requires k < |args|
    ensures args[k].Fut? ==> args[k].f.id in Succ(DefGraph(defs), i)
    ensures EvalArgs(defs, i, args[..k + 1]) ==
      match EvalArgs(defs, i, args[..k])
      case Err(e) => Err(e)
      case Ok(vs) =>
        match EvalArg(defs, i, args[k])
        case Err(e) => Err(e)
        case Ok(v) => Ok(vs + [v])
  {
    assert args[k] in args;
    assert args[..k + 1][..k] == args[..k];
    assert args[..k + 1][k] == args[k];
  }

  /**
   * When every future names an earlier task (the usual way of building a
   * pipeline, future after task), the dependency graph has no cycle.
   */
  lemma BackwardFuturesAcyclic(defs: seq<TaskDef>)
    requires forall k, a :: 0 <= k < |defs| && a in defs[k].args && a.Fut? ==> a.f.id < k
    ensures Acyclic(DefGraph(defs))
  {
    var g := DefGraph(defs);
    forall x: nat, y: nat | y in Succ(g, x)
      ensures y < x
    {
      var a :| a in defs[x].args && a.Fut? && a.f.id == y;
    }
    RankedIsAcyclic(g, x => x);
  }

  /** Registering a definition adds exactly the new id's edges, to the targets of its futures. */
  lemma DefGraphExtend(defs: seq<TaskDef>, d: TaskDef)
    ensures Succ(DefGraph(defs), |defs|) == {}
    ensures Succ(DefGraph(defs + [d]), |defs|) == FutureIds(d.args)
    ensures forall x: nat :: x != |defs| ==> Succ(DefGraph(defs + [d]), x) == Succ(DefGraph(defs), x)
  {
    forall x: nat | x != |defs|
      ensures Succ(DefGraph(defs + [d]), x) == Succ(DefGraph(defs), x)
    {
      if x < |defs| {
        assert (defs + [d])[x] == defs[x];
      }
    }
  }

  /**
   * Registering one more task does not change the meaning of any task
   * that evaluated successfully before: a successful evaluation never
   * touched the then-unregistered new id.
   */
  lemma {:induction false} EvalExtend(defs: seq<TaskDef>, d: TaskDef, k: nat)
    requires Acyclic(DefGraph(defs)) && Acyclic(DefGraph(defs + [d]))
    requires Eval(defs, k).Ok?
    ensures Eval(defs + [d], k) == Eval(defs, k)
    decreases Reach(DefGraph(defs), k), 1
  {
    var defs' := defs + [d];
    assert defs'[k] == defs[k];
    assert Succ(DefGraph(defs'), k) == Succ(DefGraph(defs), k);
    EvalArgsExtend(defs, d, k, defs[k].args);
  }

  lemma {:induction false} EvalArgsExtend(defs: seq<TaskDef>, d: TaskDef, k: nat, args: seq<Arg>)
    requires Acyclic(DefGraph(defs)) && Acyclic(DefGraph(defs + [d]))
    requires k < |defs| && Succ(DefGraph(defs + [d]), k) == Succ(DefGraph(defs), k)
    requires FuturesWithin(args, Succ(DefGraph(defs), k))
    requires EvalArgs(defs, k, args).Ok?
    ensures EvalArgs(defs + [d], k, args) == EvalArgs(defs, k, args)
    decreases Reach(DefGraph(defs), k), 0, |args|
  {
    if args != [] {
      var front := args[..|args| - 1];
      assert forall a :: a in front ==> a in args;
      EvalArgsExtend(defs, d, k, front);
      var a := args[|args| - 1];
      assert a in args;
      match a
      case Plain(_) =>
      case Fut(f) =>
        ReachShrinks(DefGraph(defs), k, f.id);
        EvalExtend(defs, d, f.id);
    }
  }
}
