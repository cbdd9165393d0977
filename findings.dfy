/**
 * Dependency recording as `add` is written. Inside `add` the named
 * arguments are always lvalues, and `AddDependencies` hands each on as an
 * lvalue of its deduced type. For a `FutureResult<T>` whose deduced type is
 * not `const`, overload ranking then prefers the forwarding
 * `AddDependency(T&&)`, which records nothing, over
 * `AddDependency(const FutureResult<T>&)`; only a const-qualified future
 * (a `const` lvalue, or a `const` rvalue) is recorded. A future passed as a
 * plain temporary, as every test passes them, leaves no edge, so
 * `DetectCycle` never sees the cycle it exists to reject. The scheduler
 * model records every future, as evidently intended
 * (`Scheduler.AddDependencies`).
 */
module Findings {
  import opened Values
  import opened Graphs
  import opened Tasks

  /**
   * The deduced type of an argument of `add`: const-qualified, or not (a
   * plain temporary, a mutable variable).
   */
  datatype Passing = ConstQualified | NonConst

  /**
   * The dependency set `add` records as written: the targets of the
   * const-qualified futures. It is never more than the intended set.
   */
  function RecordedAsWritten(args: seq<Arg>, passing: seq<Passing>): (deps: set<nat>)
    requires |passing| == |args|
    ensures deps <= FutureIds(args)
    ensures forall k :: 0 <= k < |args| && args[k].Fut? && passing[k] == ConstQualified ==> args[k].f.id in deps
  {
    set k | 0 <= k < |args| && args[k].Fut? && passing[k] == ConstQualified :: args[k].f.id
  }

  /** When every future is const-qualified, what is recorded is the intended set. */
  lemma AllConstRecordsAll(args: seq<Arg>, passing: seq<Passing>)
    requires |passing| == |args|
    requires forall k :: 0 <= k < |args| ==> passing[k] == ConstQualified
    ensures RecordedAsWritten(args, passing) == FutureIds(args)
  {
    forall id | id in FutureIds(args)
      ensures id in RecordedAsWritten(args, passing)
    {
      var a :| a in args && a.Fut? && a.f.id == id;
      var k :| 0 <= k < |args| && args[k] == a;
    }
  }

  /** A graph without edges has no cycle. */
  lemma NoEdgesAcyclic(g: Graph)
    requires forall x :: Succ(g, x) == {}
    ensures Acyclic(g)
  {
    RankedIsAcyclic(g, x => 0);
  }

  /**
   * Two tasks taking each other's futures as temporaries: as written, both
   * recorded sets are empty, so the graph `DetectCycle` searches after the
   * second `add` has no cycle and the `add` is accepted, although the two
   * futures form the cycle 0 -> 1 -> 0, on which forcing either task
   * recurses without end.
   */
  lemma AsWrittenAcceptsCycle(c0: Callable, c1: Callable)
    ensures var a0, a1 := [Fut(FutureResult(1, IntT))], [Fut(FutureResult(0, IntT))];
      var recorded := map[0 := RecordedAsWritten(a0, [NonConst]), 1 := RecordedAsWritten(a1, [NonConst])];
      && recorded == map[0 := {}, 1 := {}]
      && !ReachesCycle(recorded, 1)
      && !Acyclic(DefGraph([TaskDef(c0, a0), TaskDef(c1, a1)]))
  {
    var a0, a1 := [Fut(FutureResult(1, IntT))], [Fut(FutureResult(0, IntT))];
    var recorded := map[0 := RecordedAsWritten(a0, [NonConst]), 1 := RecordedAsWritten(a1, [NonConst])];
    assert RecordedAsWritten(a0, [NonConst]) == {};
    assert RecordedAsWritten(a1, [NonConst]) == {};
    NoEdgesAcyclic(recorded);
    if ReachesCycle(recorded, 1) {
      var p :| IsLasso(recorded, 1, p);
      LassoCycle(recorded, 1, p);
    }
    var g := DefGraph([TaskDef(c0, a0), TaskDef(c1, a1)]);
    assert a0[0] in a0 && a1[0] in a1;
    assert 1 in Succ(g, 0) && 0 in Succ(g, 1);
    assert IsPath(g, [0, 1, 0]);
  }
}
