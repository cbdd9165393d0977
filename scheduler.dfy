/**
 * `TTaskScheduler`: registers tasks, rejects a registration that would
 * close a dependency cycle, and forces tasks on demand, executing each at
 * most once and memoising its result.
 *
 * State: `tasks` is `tasks_` (a task's id is its index), `graph` is
 * `dependency_graph_`. Two ghost fields record what the C++ object does
 * not spell out: `defs`, the registered definitions (the part of every
 * task that never changes), and `calls`, how many times each task's
 * callable has been invoked. `Valid` ties them together: the stored edges
 * are those of the definitions, the graph is acyclic, a task's result
 * slot is filled exactly when it is executed, an executed task holds
 * the value `Eval` gives it, and the tasks it depends on are executed too.
 */
module Scheduler {
  import opened Values
  import opened Graphs
  import opened Tasks
  import AnyStore

  /**
   * What a call that forces tasks may do to the task list and the
   * invocation counts: definitions never change, executed tasks are left
   * alone (no callable runs twice), and each callable runs at most once.
   */
  ghost predicate Advanced(t0: seq<Task>, c0: seq<nat>, t1: seq<Task>, c1: seq<nat>)
  {
    && |t1| == |t0| && |c0| == |t0| && |c1| == |t0|
    && forall k {:trigger t1[k]} :: 0 <= k < |t0| ==>
         && t1[k].def == t0[k].def
         && (t0[k].executed ==> t1[k] == t0[k] && c1[k] == c0[k])
         && c1[k] <= c0[k] + 1
  }

  /** `k` lies outside the set `s` of ids a call may change. */
  ghost predicate Outside(s: set<nat>, k: nat)
  {
    k !in s
  }

  /** Nothing outside `s` changed. */
  ghost predicate Untouched(t0: seq<Task>, c0: seq<nat>, t1: seq<Task>, c1: seq<nat>, s: set<nat>)
  {
    && |t1| == |t0| && |c0| == |t0| && |c1| == |t0|
    && forall k: nat {:trigger Outside(s, k)} :: k < |t0| && Outside(s, k) ==> t1[k] == t0[k] && c1[k] == c0[k]
  }

  /** The ids forcing tasks `0 .. n-1` in turn may execute: their scopes together. */
  ghost function Forced(defs: seq<TaskDef>, n: nat): set<nat>
  {
    set m, j | 0 <= m < n && j in Scope(defs, m) :: j
  }

  /** Forcing one more task adds that task's scope. */
  lemma ForcedGrows(defs: seq<TaskDef>, n: nat)
    ensures Forced(defs, n) <= Forced(defs, n + 1)
    ensures Scope(defs, n) <= Forced(defs, n + 1)
  {
    forall j | j in Scope(defs, n)
      ensures j in Forced(defs, n + 1)
    {
      assert 0 <= n < n + 1 && j in Scope(defs, n);
    }
  }

  /** On success: exactly the newly executed tasks had their callable invoked, once each. */
  ghost predicate RanOnce(t0: seq<Task>, c0: seq<nat>, t1: seq<Task>, c1: seq<nat>)
  {
    && |t1| == |t0| && |c0| == |t0| && |c1| == |t0|
    && forall k {:trigger t1[k]} :: 0 <= k < |t0| ==>
         && (t0[k].executed ==> t1[k].executed)
         && c1[k] == c0[k] + (if t1[k].executed && !t0[k].executed then 1 else 0)
  }

  /** A successful step followed by any step is again a step; two successes make a success. */
  lemma Compose(t0: seq<Task>, c0: seq<nat>, t1: seq<Task>, c1: seq<nat>, t2: seq<Task>, c2: seq<nat>)
    requires Advanced(t0, c0, t1, c1) && RanOnce(t0, c0, t1, c1)
    requires Advanced(t1, c1, t2, c2)
    ensures Advanced(t0, c0, t2, c2)
    ensures RanOnce(t1, c1, t2, c2) ==> RanOnce(t0, c0, t2, c2)
  {
  }

  /** Two steps confined to `s1` and to `s2 <= s1` are together confined to `s1`. */
  lemma ComposeUntouched(t0: seq<Task>, c0: seq<nat>, t1: seq<Task>, c1: seq<nat>, t2: seq<Task>, c2: seq<nat>,
                         s1: set<nat>, s2: set<nat>)
    requires Untouched(t0, c0, t1, c1, s1) && Untouched(t1, c1, t2, c2, s2) && s2 <= s1
    ensures Untouched(t0, c0, t2, c2, s1)
  {
    forall k: nat | k < |t0| && Outside(s1, k)
      ensures t2[k] == t0[k] && c2[k] == c0[k]
    {
      assert Outside(s2, k);
    }
  }

  /** A step confined to `s1` is confined to any larger set. */
  lemma UntouchedWiden(t0: seq<Task>, c0: seq<nat>, t1: seq<Task>, c1: seq<nat>, s1: set<nat>, s2: set<nat>)
    requires Untouched(t0, c0, t1, c1, s1) && s1 <= s2
    ensures Untouched(t0, c0, t1, c1, s2)
  {
    forall k: nat | k < |t0| && Outside(s2, k)
      ensures t1[k] == t0[k] && c1[k] == c0[k]
    {
      assert Outside(s1, k);
    }
  }

  /**
   * The task list agrees with the definitions: same definitions in the same
   * order, a result slot that is filled exactly when the task is executed,
   * in that case filled with the value `Eval` gives the task, and the
   * tasks an executed task depends on are executed too (a task is only
   * executed after its futures were forced).
   */
  ghost predicate Consistent(defs: seq<TaskDef>, t: seq<Task>)
    requires Acyclic(DefGraph(defs))
  {
    && |t| == |defs|
    && (forall k :: 0 <= k < |t| ==> t[k].def == defs[k])
    && (forall k :: 0 <= k < |t| ==> (t[k].executed <==> t[k].result.Some?))
    && (forall k :: 0 <= k < |t| && t[k].executed ==> Eval(defs, k) == Ok(t[k].result.value))
    && DepsExecuted(defs, t)
  }

  /** Every dependency of an executed task is a registered, executed task. */
  ghost predicate DepsExecuted(defs: seq<TaskDef>, t: seq<Task>)
  {
    forall k :: 0 <= k < |t| && t[k].executed ==>
      forall d {:trigger d in Succ(DefGraph(defs), k)} :: d in Succ(DefGraph(defs), k) ==> d < |t| && t[d].executed
  }

  /** Every id in `ids` names a registered, executed task. */
  ghost predicate AllExecuted(t: seq<Task>, ids: set<nat>)
  {
    forall j {:trigger j in ids} :: j in ids ==> j < |t| && t[j].executed
  }

  /** A step that leaves executed tasks alone keeps them executed. */
  lemma KeepExecuted(t0: seq<Task>, c0: seq<nat>, t1: seq<Task>, c1: seq<nat>, ids: set<nat>)
    requires Advanced(t0, c0, t1, c1) && AllExecuted(t0, ids)
    ensures AllExecuted(t1, ids)
  {
    forall j | j in ids
      ensures j < |t1| && t1[j].executed
    {
      assert t0[j].executed;
    }
  }

  /** Once the target of argument `k` is executed too, the targets of `args[..k + 1]` are. */
  lemma ExecutedPrefix(t: seq<Task>, args: seq<Arg>, k: nat)
    requires k < |args| && AllExecuted(t, FutureIds(args[..k]))
    requires args[k].Fut? ==> args[k].f.id < |t| && t[args[k].f.id].executed
    ensures AllExecuted(t, FutureIds(args[..k + 1]))
  {
    forall j | j in FutureIds(args[..k + 1])
      ensures j < |t| && t[j].executed
    {
      var a :| a in args[..k + 1] && a.Fut? && a.f.id == j;
      var n :| 0 <= n <= k && args[n] == a;
      if n < k {
        assert args[..k][n] == a;
        assert j in FutureIds(args[..k]);
      }
    }
  }

  /** Every task an executed task reaches is executed: `i` and its whole scope were forced. */
  lemma ScopeExecuted(defs: seq<TaskDef>, t: seq<Task>, i: nat)
    requires Acyclic(DefGraph(defs)) && Consistent(defs, t)
    requires i < |t| && t[i].executed
    ensures AllExecuted(t, Scope(defs, i))
  {
    var g := DefGraph(defs);
    forall j | j in Reach(g, i)
      ensures j < |t| && t[j].executed
    {
      var p :| IsPath(g, p) && |p| >= 2 && p[0] == i && p[|p| - 1] == j;
      PathExecuted(defs, t, p, |p| - 1);
    }
  }

  /** Along a walk that starts at an executed task, every task is executed. */
  lemma {:induction false} PathExecuted(defs: seq<TaskDef>, t: seq<Task>, p: seq<nat>, k: nat)
    requires DepsExecuted(defs, t)
    requires IsPath(DefGraph(defs), p) && k < |p| && p[0] < |t| && t[p[0]].executed
    ensures p[k] < |t| && t[p[k]].executed
    decreases k
  {
    if k > 0 {
      PathExecuted(defs, t, p, k - 1);
      var x, y := p[k - 1], p[k];
      assert y in Succ(DefGraph(defs), x);
      assert 0 <= x < |t| && t[x].executed;
    }
  }

  /**
   * Appending an unexecuted task for a new definition keeps the list
   * consistent: results already recorded keep their meaning.
   */
  lemma ConsistentExtend(defs: seq<TaskDef>, t: seq<Task>, d: TaskDef)
    requires Acyclic(DefGraph(defs)) && Acyclic(DefGraph(defs + [d]))
    requires Consistent(defs, t)
    ensures Consistent(defs + [d], t + [Task(d, false, None)])
  {
    var t' := t + [Task(d, false, None)];
    DefGraphExtend(defs, d);
    assert DepsExecuted(defs, t);
    forall k, e | 0 <= k < |t'| && t'[k].executed && e in Succ(DefGraph(defs + [d]), k)
      ensures e < |t'| && t'[e].executed
    {
      assert t'[k] == t[k] && e in Succ(DefGraph(defs), k);
      assert t'[e] == t[e];
    }
    forall k | 0 <= k < |t'| && t'[k].executed
      ensures Eval(defs + [d], k) == Ok(t'[k].result.value)
    {
      EvalExtend(defs, d, k);
    }
  }

  /** Tasks recorded as executed are tasks whose evaluation succeeds. */
  lemma ExecutedEvalOk(defs: seq<TaskDef>, t: seq<Task>, n: nat)
    requires Acyclic(DefGraph(defs)) && Consistent(defs, t)
    requires n <= |t| && forall j :: 0 <= j < n ==> t[j].executed
    ensures forall j :: 0 <= j < n ==> Eval(defs, j).Ok?
  {
  }

  /**
   * Marking a task executed with the value `Eval` gives it, once its
   * dependencies are executed, keeps the list consistent.
   */
  lemma Record(defs: seq<TaskDef>, t: seq<Task>, i: nat, v: Value)
    requires Acyclic(DefGraph(defs)) && Consistent(defs, t)
    requires i < |t| && Eval(defs, i) == Ok(v)
    requires AllExecuted(t, Succ(DefGraph(defs), i))
    ensures Consistent(defs, t[i := Task(t[i].def, true, Some(v))])
  {
    var t' := t[i := Task(t[i].def, true, Some(v))];
    forall k, d | 0 <= k < |t'| && t'[k].executed && d in Succ(DefGraph(defs), k)
      ensures d < |t'| && t'[d].executed
    {
      if k != i {
        assert t'[k] == t[k];
      } else {
        assert d < |t| && t[d].executed;
      }
    }
  }

  /**
   * After the arguments of a not yet executed task `i` were resolved
   * (touching only `s`, which excludes `i`), running its callable once
   * and recording the result is a successful step confined to `s + {i}`.
   */
  lemma RecordRun(t0: seq<Task>, c0: seq<nat>, t1: seq<Task>, c1: seq<nat>, s: set<nat>, i: nat, v: Value)
    requires Advanced(t0, c0, t1, c1) && RanOnce(t0, c0, t1, c1) && Untouched(t0, c0, t1, c1, s)
    requires i < |t0| && i !in s && !t0[i].executed
    ensures Advanced(t0, c0, t1[i := Task(t1[i].def, true, Some(v))], c1[i := c1[i] + 1])
    ensures RanOnce(t0, c0, t1[i := Task(t1[i].def, true, Some(v))], c1[i := c1[i] + 1])
    ensures Untouched(t0, c0, t1[i := Task(t1[i].def, true, Some(v))], c1[i := c1[i] + 1], s + {i})
  {
    var t2, c2 := t1[i := Task(t1[i].def, true, Some(v))], c1[i := c1[i] + 1];
    assert Outside(s, i);
    forall k | 0 <= k < |t0|
      ensures t2[k].def == t0[k].def && c2[k] <= c0[k] + 1
      ensures t0[k].executed ==> t2[k] == t0[k] && c2[k] == c0[k]
      ensures c2[k] == c0[k] + (if t2[k].executed && !t0[k].executed then 1 else 0)
    {
      assert t1[k].def == t0[k].def;
    }
    forall k: nat | k < |t0| && Outside(s + {i}, k)
      ensures t2[k] == t0[k] && c2[k] == c0[k]
    {
      assert Outside(s, k);
    }
  }

  /** Running the callable of `i` once, when it then throws, is a step confined to `s + {i}`. */
  lemma RecordFailure(t0: seq<Task>, c0: seq<nat>, t1: seq<Task>, c1: seq<nat>, s: set<nat>, i: nat)
    requires Advanced(t0, c0, t1, c1) && Untouched(t0, c0, t1, c1, s)
    requires i < |t0| && i !in s && !t0[i].executed
    ensures Advanced(t0, c0, t1, c1[i := c1[i] + 1])
    ensures Untouched(t0, c0, t1, c1[i := c1[i] + 1], s + {i})
  {
    var c2 := c1[i := c1[i] + 1];
    assert Outside(s, i);
    forall k | 0 <= k < |t0|
      ensures t1[k].def == t0[k].def && c2[k] <= c0[k] + 1
      ensures t0[k].executed ==> t1[k] == t0[k] && c2[k] == c0[k]
    {
      assert t1[k].def == t0[k].def;
    }
    forall k: nat | k < |t0| && Outside(s + {i}, k)
      ensures t1[k] == t0[k] && c2[k] == c0[k]
    {
      assert Outside(s, k);
    }
  }

  /** `AddDependencies`/`AddDependency`: collects the target id of every future argument. */
  method AddDependencies(args: seq<Arg>) returns (deps: set<nat>)
    ensures deps == FutureIds(args)
  {
    deps := {};
    var k := 0;
    while k < |args|
      invariant 0 <= k <= |args|
      invariant deps == FutureIds(args[..k])
    {
      assert args[..k + 1] == args[..k] + [args[k]];
      match args[k] {
        case Plain(_) =>
        case Fut(f) =>
          deps := deps + {f.id};
      }
      k := k + 1;
    }
    assert args[..k] == args;
  }

  class TaskScheduler {
    var tasks: seq<Task>
    var graph: Graph
    ghost var defs: seq<TaskDef>
    ghost var calls: seq<nat>

    ghost predicate Valid()
      reads this
    {
      && |calls| == |tasks|
      && SameEdges(graph, DefGraph(defs))
      && Acyclic(DefGraph(defs))
      && Consistent(defs, tasks)
    }

    /** `TTaskScheduler()`: no tasks, no dependencies. */
    constructor ()
      ensures Valid() && tasks == [] && graph == map[] && defs == [] && calls == []
    {
      tasks := [];
      graph := map[];
      defs := [];
      calls := [];
      assert DefGraph([]) == map[];
      RankedIsAcyclic(map[], x => 0);
    }

    /**
     * `add(callable, args...)`: the new id is the current task count. The
     * new task's dependency set is the set of its futures' targets; if the
     * graph with that entry has a cycle, the entry is erased again and the
     * call throws, leaving the tasks and the edges as they were (the next
     * `add` then gets the same id). Otherwise exactly one unexecuted task
     * is appended.
     */
    method Add(callable: Callable, args: seq<Arg>) returns (r: Result<nat>)
      requires Valid()
      modifies this
      ensures Valid()
      ensures r.Ok? <==> Acyclic(DefGraph(old(defs) + [TaskDef(callable, args)]))
      ensures r.Ok? ==>
        && r.value == old(|tasks|)
        && tasks == old(tasks) + [Task(TaskDef(callable, args), false, None)]
        && defs == old(defs) + [TaskDef(callable, args)]
        && calls == old(calls) + [0]
        && Succ(graph, r.value) == FutureIds(args)
        && (forall x :: x != r.value ==> Succ(graph, x) == Succ(old(graph), x))
      ensures r.Err? ==>
        && r.error == CycleDetected
        && tasks == old(tasks) && defs == old(defs) && calls == old(calls)
        && SameEdges(graph, old(graph))
    {
      var newId := |tasks|;
      var def := TaskDef(callable, args);
      var deps := AddDependencies(args);
      DefGraphExtend(defs, def);
      var cycle := Link(newId, deps, DefGraph(defs), DefGraph(defs + [def]));
      if cycle {
        return Err(CycleDetected);
      }
      ConsistentExtend(defs, tasks, def);
      tasks := tasks + [Task(def, false, None)];
      defs := defs + [def];
      calls := calls + [0];
      r := Ok(newId);
    }

    /**
     * The part of `add` that works on the graph: store the dependency set of
     * the new id (which had no edges), search for a cycle from it, and erase
     * the entry again if one is found. A cycle is found exactly when the
     * graph with the new edges is not acyclic.
     */
    method Link(newId: nat, deps: set<nat>, ghost g0: Graph, ghost g1: Graph) returns (cycle: bool)
      requires SameEdges(graph, g0) && Acyclic(g0) && Succ(g0, newId) == {}
      requires Succ(g1, newId) == deps
      requires forall x: nat :: x != newId ==> Succ(g1, x) == Succ(g0, x)
      modifies this`graph
      ensures cycle <==> !Acyclic(g1)
      ensures cycle ==> SameEdges(graph, old(graph))
      ensures !cycle ==> SameEdges(graph, g1)
    {
      ghost var graph0 := graph;
      graph := graph[newId := deps];
      assert SameEdges(graph, g1);
      ExtendAcyclic(g0, g1, newId);
      cycle := DetectCycle(newId, g1);
      if cycle {
        graph := graph - {newId};
        assert forall x :: Succ(graph, x) == Succ(graph0, x);
      }
    }

    /**
     * `getFutureResult<T>(id)`: a handle on task `id`, read as `t`. The id
     * is not checked and nothing is recorded: once passed to `add`, the
     * handle contributes exactly the edge to `id`.
     */
    function GetFutureResult(id: nat, t: Tag): (f: Future)
      ensures FutureIds([Fut(f)]) == {id} && f.tag == t
    {
      FutureResult(id, t)
    }

    /**
     * `getResult<T>(id)`: `OutOfRange` for an unregistered id; otherwise
     * the task is executed if it has not been, and its stored value is
     * extracted as `t` (`BadCast` on a type mismatch). The result is that of
     * the unmemoised evaluation `Eval`; a second call on an executed task
     * changes nothing and invokes no callable.
     */
    method GetResult(id: nat, t: Tag) returns (r: Result<Value>)
      requires Valid()
      modifies this
      ensures Valid() && defs == old(defs) && graph == old(graph)
      ensures r == CastResult(Eval(defs, id), t)
      ensures id < |tasks| && Eval(defs, id).Ok? ==> tasks[id].executed
      ensures Eval(defs, id).Ok? ==> AllExecuted(tasks, Scope(defs, id))
      ensures old(id < |tasks| && tasks[id].executed) ==> tasks == old(tasks) && calls == old(calls)
      ensures Advanced(old(tasks), old(calls), tasks, calls)
      ensures Untouched(old(tasks), old(calls), tasks, calls, Scope(defs, id))
      ensures Eval(defs, id).Ok? ==> RanOnce(old(tasks), old(calls), tasks, calls)
      decreases Reach(DefGraph(defs), id), 2, 0
    {
      if id >= |tasks| {
        return Err(OutOfRange);
      }
      if !tasks[id].executed {
        var o := Execute(id);
        if o.Fail? {
          return Err(o.error);
        }
      }
      ScopeExecuted(defs, tasks, id);
      r := AnyStore.AnyCast(tasks[id].result, t);
    }

    /** `FutureResult<T>::get()` and `operator T()`: `getResult<T>` on the handle's id. */
    method ResolveFuture(f: Future) returns (r: Result<Value>)
      requires Valid()
      modifies this
      ensures Valid() && defs == old(defs) && graph == old(graph)
      ensures r == CastResult(Eval(defs, f.id), f.tag)
      ensures f.id < |tasks| && Eval(defs, f.id).Ok? ==> tasks[f.id].executed
      ensures Eval(defs, f.id).Ok? ==> AllExecuted(tasks, Scope(defs, f.id))
      ensures old(f.id < |tasks| && tasks[f.id].executed) ==> tasks == old(tasks) && calls == old(calls)
      ensures Advanced(old(tasks), old(calls), tasks, calls)
      ensures Untouched(old(tasks), old(calls), tasks, calls, Scope(defs, f.id))
      ensures Eval(defs, f.id).Ok? ==> RanOnce(old(tasks), old(calls), tasks, calls)
      decreases Reach(DefGraph(defs), f.id), 3, 0
    {
      r := GetResult(f.id, f.tag);
    }

    /**
     * `executeAll()`: executes every unexecuted task in id order, stopping
     * at the first failure. On success every task is executed and every
     * callable that had not run has run exactly once; the failure reported
     * is that of the lowest id `k` whose evaluation fails, the tasks before
     * `k` are left executed, and nothing outside what forcing `0 .. k`
     * reaches has been touched.
     */
    method ExecuteAll() returns (r: Outcome)
      requires Valid()
      modifies this
      ensures Valid() && defs == old(defs) && graph == old(graph)
      ensures Advanced(old(tasks), old(calls), tasks, calls)
      ensures r.Pass? <==> forall k :: 0 <= k < |tasks| ==> Eval(defs, k).Ok?
      ensures r.Pass? ==> (forall k :: 0 <= k < |tasks| ==> tasks[k].executed)
      ensures r.Pass? ==> RanOnce(old(tasks), old(calls), tasks, calls)
      ensures r.Fail? ==> exists k :: 0 <= k < |tasks| && Eval(defs, k) == Err(r.error)
                                        && (forall j :: 0 <= j < k ==> Eval(defs, j).Ok? && tasks[j].executed)
                                        && Untouched(old(tasks), old(calls), tasks, calls, Forced(defs, k + 1))
    {
      ghost var t0, c0 := tasks, calls;
      var n := |tasks|;
      var idx := 0;
      while idx < n
        invariant 0 <= idx <= n == |tasks|
        invariant Valid() && defs == old(defs) && graph == old(graph)
        invariant forall j :: 0 <= j < idx ==> tasks[j].executed
        invariant Advanced(t0, c0, tasks, calls) && RanOnce(t0, c0, tasks, calls)
        invariant Untouched(t0, c0, tasks, calls, Forced(defs, idx))
      {
        ForcedGrows(defs, idx);
        UntouchedWiden(t0, c0, tasks, calls, Forced(defs, idx), Forced(defs, idx + 1));
        if !tasks[idx].executed {
          ghost var t1, c1 := tasks, calls;
          var o := Execute(idx);
          Compose(t0, c0, t1, c1, tasks, calls);
          UntouchedWiden(t1, c1, tasks, calls, Scope(defs, idx), Forced(defs, idx + 1));
          ComposeUntouched(t0, c0, t1, c1, tasks, calls, Forced(defs, idx + 1), Forced(defs, idx + 1));
          if o.Fail? {
            ExecutedEvalOk(defs, tasks, idx);
            return Fail(o.error);
          }
        }
        idx := idx + 1;
      }
      ExecutedEvalOk(defs, tasks, n);
      r := Pass;
    }

    /**
     * `TaskImplementation::Execute()`: a no-op once executed. Otherwise the
     * arguments are resolved left to right (`ResolveArg`: plain values
     * unchanged, futures through `getResult`, which forces their targets),
     * the callable is invoked on them, the result is stored, and only then
     * is `executed` set; a failure while resolving or in the callable leaves
     * the task unexecuted.
     */
    method Execute(i: nat) returns (r: Outcome)
      requires Valid() && i < |tasks|
      modifies this
      ensures Valid() && defs == old(defs) && graph == old(graph)
      ensures r.Pass? <==> Eval(defs, i).Ok?
      ensures r.Fail? ==> Eval(defs, i) == Err(r.error)
      ensures r.Pass? <==> tasks[i].executed
      ensures r.Pass? ==> AllExecuted(tasks, Scope(defs, i))
      ensures old(tasks[i].executed) ==> tasks == old(tasks) && calls == old(calls)
      ensures Advanced(old(tasks), old(calls), tasks, calls)
      ensures Untouched(old(tasks), old(calls), tasks, calls, Scope(defs, i))
      ensures r.Pass? ==> RanOnce(old(tasks), old(calls), tasks, calls)
      decreases Reach(DefGraph(defs), i), 1, 1
    {
      if tasks[i].executed {
        ScopeExecuted(defs, tasks, i);
        return Pass;
      }
      r := Run(i);
    }

    /** The work `Execute` does for a task that has not been executed yet. */
    method Run(i: nat) returns (r: Outcome)
      requires Valid() && i < |tasks| && !tasks[i].executed
      modifies this
      ensures Valid() && defs == old(defs) && graph == old(graph)
      ensures r.Pass? <==> Eval(defs, i).Ok?
      ensures r.Fail? ==> Eval(defs, i) == Err(r.error)
      ensures r.Pass? <==> tasks[i].executed
      ensures r.Pass? ==> AllExecuted(tasks, Scope(defs, i))
      ensures Advanced(old(tasks), old(calls), tasks, calls)
      ensures Untouched(old(tasks), old(calls), tasks, calls, Scope(defs, i))
      ensures r.Pass? ==> RanOnce(old(tasks), old(calls), tasks, calls)
      decreases Reach(DefGraph(defs), i), 1, 0
    {
      ghost var t0, c0 := tasks, calls;
      ghost var g := DefGraph(defs);
      NotSelfReach(g, i);
      var def := tasks[i].def;
      assert Succ(g, i) == FutureIds(def.args);
      var resolved := ResolveArgs(i, def.args);
      if resolved.Err? {
        UntouchedWiden(t0, c0, tasks, calls, Reach(g, i), Scope(defs, i));
        return Fail(resolved.error);
      }
      assert Outside(Reach(g, i), i);
      var vals := resolved.value;
      assert Eval(defs, i) == def.callable(vals);
      ghost var t1, c1 := tasks, calls;
      r := Invoke(i, vals);
      if r.Fail? {
        RecordFailure(t0, c0, t1, c1, Reach(g, i), i);
      } else {
        RecordRun(t0, c0, t1, c1, Reach(g, i), i, Eval(defs, i).value);
        ScopeExecuted(defs, tasks, i);
      }
    }

    /**
     * The last step of `Execute`: `task_result_ = Apply(function_, args)`,
     * then `executed = true`. The callable is invoked once, whatever it
     * does; when it throws, nothing is stored and the task stays unexecuted.
     */
    method Invoke(i: nat, vals: seq<Value>) returns (r: Outcome)
      requires Valid() && i < |tasks| && !tasks[i].executed
      requires Eval(defs, i) == tasks[i].def.callable(vals)
      requires AllExecuted(tasks, Succ(DefGraph(defs), i))
      modifies this
      ensures Valid() && defs == old(defs) && graph == old(graph)
      ensures r.Pass? <==> Eval(defs, i).Ok?
      ensures r.Fail? ==> Eval(defs, i) == Err(r.error)
      ensures calls == old(calls)[i := old(calls)[i] + 1]
      ensures r.Pass? ==> tasks == old(tasks)[i := Task(old(tasks)[i].def, true, Some(Eval(defs, i).value))]
      ensures r.Fail? ==> tasks == old(tasks)
    {
      var res := tasks[i].def.callable(vals);
      calls := calls[i := calls[i] + 1];
      if res.Err? {
        return Fail(res.error);
      }
      Record(defs, tasks, i, res.value);
      tasks := tasks[i := Task(tasks[i].def, true, Some(res.value))];
      r := Pass;
    }

    /**
     * The argument tuple `Execute` builds, `MakeTuple(ResolveArg(args)...)`:
     * the arguments of task `i` resolved left to right, stopping at the first
     * failure. Only tasks reachable from `i` can be executed on the way.
     */
    method ResolveArgs(ghost i: nat, args: seq<Arg>) returns (r: Result<seq<Value>>)
      requires Valid() && i < |tasks|
      requires FuturesWithin(args, Succ(DefGraph(defs), i))
      modifies this
      ensures Valid() && defs == old(defs) && graph == old(graph)
      ensures r == EvalArgs(defs, i, args)
      ensures r.Ok? ==> AllExecuted(tasks, FutureIds(args))
      ensures r.Ok? ==> forall a :: a in args && a.Fut? ==> AllExecuted(tasks, Scope(defs, a.f.id))
      ensures Advanced(old(tasks), old(calls), tasks, calls)
      ensures Untouched(old(tasks), old(calls), tasks, calls, Reach(DefGraph(defs), i))
      ensures r.Ok? ==> RanOnce(old(tasks), old(calls), tasks, calls)
      decreases Reach(DefGraph(defs), i), 0, 1
    {
      ghost var t0, c0 := tasks, calls;
      ghost var g := DefGraph(defs);
      var vals: seq<Value> := [];
      var k := 0;
      while k < |args|
        invariant 0 <= k <= |args|
        invariant Valid() && defs == old(defs) && graph == old(graph)
        invariant EvalArgs(defs, i, args[..k]) == Ok(vals)
        invariant Advanced(t0, c0, tasks, calls) && RanOnce(t0, c0, tasks, calls)
        invariant Untouched(t0, c0, tasks, calls, Reach(g, i))
        invariant AllExecuted(tasks, FutureIds(args[..k]))
      {
        PrefixStep(defs, i, args, k);
        ghost var t1, c1 := tasks, calls;
        var rr := ResolveArg(i, args[k]);
        Compose(t0, c0, t1, c1, tasks, calls);
        ComposeUntouched(t0, c0, t1, c1, tasks, calls, Reach(g, i), Reach(g, i));
        if rr.Err? {
          PrefixFailure(defs, i, args, k + 1);
          return Err(rr.error);
        }
        KeepExecuted(t1, c1, tasks, calls, FutureIds(args[..k]));
        if args[k].Fut? {
          assert args[k].f.id in Scope(defs, args[k].f.id);
        }
        ExecutedPrefix(tasks, args, k);
        vals := vals + [rr.value];
        k := k + 1;
      }
      assert args[..k] == args;
      forall a | a in args && a.Fut?
        ensures AllExecuted(tasks, Scope(defs, a.f.id))
      {
        assert a.f.id in FutureIds(args);
        ScopeExecuted(defs, tasks, a.f.id);
      }
      r := Ok(vals);
    }

    /**
     * `ResolveArg`, for an argument of task `i`: a plain value as it is, a
     * future through `FutureResult::get`, which may execute its target and
     * the tasks that one depends on, all of them reachable from `i`.
     */
    method ResolveArg(ghost i: nat, a: Arg) returns (r: Result<Value>)
      requires Valid() && i < |tasks|
      requires a.Fut? ==> a.f.id in Succ(DefGraph(defs), i)
      modifies this
      ensures Valid() && defs == old(defs) && graph == old(graph)
      ensures r == EvalArg(defs, i, a)
      ensures r.Ok? && a.Fut? ==> AllExecuted(tasks, Scope(defs, a.f.id))
      ensures Advanced(old(tasks), old(calls), tasks, calls)
      ensures Untouched(old(tasks), old(calls), tasks, calls, Reach(DefGraph(defs), i))
      ensures r.Ok? ==> RanOnce(old(tasks), old(calls), tasks, calls)
      decreases Reach(DefGraph(defs), i), 0, 0
    {
      match a
      case Plain(v) =>
        r := Ok(v);
      case Fut(f) =>
        ReachShrinks(DefGraph(defs), i, f.id);
        r := ResolveFuture(f);
        ComposeUntouched(old(tasks), old(calls), old(tasks), old(calls), tasks, calls,
                         Reach(DefGraph(defs), i), Scope(defs, f.id));
    }

    /**
     * `DetectCycle(start)`: a depth-first search from `start` with empty
     * `visited` and on-path sets. It reports a cycle exactly when one can be
     * reached from `start` in `e`, the edge relation `graph` denotes; the
     * search may add empty entries to `graph` (`operator[]`) but changes no edge.
     */
    method DetectCycle(start: nat, ghost e: Graph) returns (cycle: bool)
      requires SameEdges(graph, e)
      modifies this`graph
      ensures SameEdges(graph, e) && GrowsByEmpty(old(graph), graph)
      ensures cycle <==> ReachesCycle(e, start)
    {
      ghost var universe := Targets(e) + {start};
      TargetsClosed(e, start);
      var visited, nodes;
      ghost var lasso;
      cycle, visited, nodes, lasso := Dfs(start, {}, {}, e, universe, []);
      if !cycle {
        NoLassoFromFinished(e, visited - nodes, start);
      }
    }

    /**
     * `DFS(node, visited, nodes)`: true at once if `node` is on the current
     * path (`nodes`), false at once if it was visited before; otherwise
     * `node` is marked visited and put on the path, its dependencies are
     * searched in turn (stopping at the first cycle), and it is taken off
     * the path. The ghost `stack` is the current path in order; `universe`
     * bounds the ids the search can meet.
     *
     * When a cycle is found, `lasso` witnesses a walk from the search root
     * into a cycle. When none is found, the path is as it was, `node` is
     * finished, and the finished ids are closed under edges and lie on no cycle.
     */
    method Dfs(node: nat, visited: set<nat>, nodes: set<nat>,
               ghost e: Graph, ghost universe: set<nat>, ghost stack: seq<nat>)
      returns (cycle: bool, visitedOut: set<nat>, nodesOut: set<nat>, ghost lasso: seq<nat>)
      requires SameEdges(graph, e)
      requires node in universe && Closed(e, universe)
      requires nodes <= visited <= universe
      requires IsPath(e, stack + [node]) && forall x :: x in nodes <==> x in stack
      requires Finished(e, visited - nodes)
      modifies this`graph
      ensures SameEdges(graph, e) && GrowsByEmpty(old(graph), graph)
      ensures cycle ==> IsLasso(e, (stack + [node])[0], lasso)
      ensures !cycle ==> nodesOut == nodes && visited <= visitedOut <= universe
      ensures !cycle ==> node in visitedOut - nodesOut && Finished(e, visitedOut - nodesOut)
      decreases universe - visited
    {
      if node in nodes {
        return true, visited, nodes, stack + [node];
      }
      if node in visited {
        return false, visited, nodes, [];
      }
      var vis := visited + {node};
      var path := nodes + {node};
      if node !in graph {
        graph := graph[node := {}];
      }
      var deps := graph[node];
      assert deps == Succ(e, node);
      var remaining := deps;
      while remaining != {}
        invariant remaining <= deps
        invariant SameEdges(graph, e) && GrowsByEmpty(old(graph), graph)
        invariant path == nodes + {node} && visited + {node} <= vis <= universe
        invariant Finished(e, vis - path)
        invariant deps - remaining <= vis - path
        decreases remaining
      {
        var dep :| dep in remaining;
        remaining := remaining - {dep};
        PathExtend(e, stack + [node], dep);
        assert stack + [node] + [dep] == (stack + [node]) + [dep];
        ghost var done := vis - path;
        assert deps - remaining <= done + {dep};
        var found;
        ghost var sub;
        found, vis, path, sub := Dfs(dep, vis, path, e, universe, stack + [node]);
        if found {
          assert (stack + [node] + [dep])[0] == (stack + [node])[0];
          return true, vis, path, sub;
        }
        assert done + {dep} <= vis - path;
      }
      FinishNode(e, vis - path, node);
      assert vis - nodes == (vis - path) + {node};
      path := path - {node};
      return false, vis, path, [];
    }
  }
}
