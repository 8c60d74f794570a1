/**
 What the traversal guarantees. For one call of `Collect` (or of the task
 loop `CollectChildren`) starting from state `st` and ending in `st'`:
 the names visited during the call are each dispatched once and are never
 runtime names; the dependency set grows by exactly the dependency sets of
 the classes visited during the call; a resolved call leaves every class
 it visited fetched and every dependency of it accounted for; a failed
 call visited a class it could not fetch; and everything visited is
 reachable from the name the call started from.

 Each property is proved by a pair of lemmas that follow the mutual
 recursion of `Collect` and `CollectChildren`, with the same measure.
 */
module TraversalFacts {
  import opened TypeNames
  import opened ArchiveStore
  import opened ReferenceExtractor
  import opened Traversal
  import opened TraversalSteps

  // ---------------------------------------------------------------------
  // Dispatch: every name at most once, and never a runtime name
  // ---------------------------------------------------------------------

  /**
   `st2` comes from `st` by dispatching new names: the visited set only
   grows, the log only grows at its end, and what it gains lists each name
   that entered the visited set exactly once; none of those is a runtime
   name.
   */
  ghost predicate Extends(st: State, st2: State) {
    && st.visited <= st2.visited
    && st.log <= st2.log
    && NoDuplicates(st2.log[|st.log|..])
    && (forall v :: v in st2.log[|st.log|..] <==> v in st2.visited && v !in st.visited)
    && (forall v :: v in st2.visited && v !in st.visited ==> !IsJdkClass(v))
  }

  lemma ExtendsRefl(st: State)
    ensures Extends(st, st)
  {
    assert st.log[|st.log|..] == [];
  }

  lemma {:induction false} ExtendsTrans(a: State, b: State, c: State)
    requires Extends(a, b) && Extends(b, c)
    ensures Extends(a, c)
  {
    var first, second := b.log[|a.log|..], c.log[|b.log|..];
    assert c.log[|a.log|..] == first + second;
    forall i, j | 0 <= i < j < |first + second|
      ensures (first + second)[i] != (first + second)[j]
    {
      if i < |first| && j >= |first| {
        assert (first + second)[i] in first;
        assert (first + second)[j] in second;
      }
    }
  }

  /** Entering a new name that is not a runtime name dispatches just that name. */
  lemma EnteringExtends(env: Env, name: string, st: State)
    requires name !in st.visited && !IsJdkClass(name)
    ensures Extends(st, Entered(env, name, st))
  {
    assert Entered(env, name, st).log[|st.log|..] == [name];
  }

  /** The name of a call is visited after it, unless it is a runtime name. */
  ghost predicate Settled(className: string, st: State) {
    RemoveArrayPrefix(className) in st.visited || IsJdkClass(RemoveArrayPrefix(className))
  }

  /** `Collect` only dispatches names not yet visited, each once, and never a runtime name. */
  lemma {:induction false} CollectDispatchesOnce(env: Env, className: string, st: State)
    ensures Extends(st, Collect(env, className, st).1)
    ensures Settled(className, Collect(env, className, st).1)
    decreases VisitableNames(env) + {RemoveArrayPrefix(className)} - st.visited, 0, 1
  {
    var name := RemoveArrayPrefix(className);
    if name in st.visited || IsJdkClass(name) {
      ExtendsRefl(st);
    } else {
      FreshDispatchesOnce(env, className, st);
    }
  }

  /** The case of `CollectDispatchesOnce` where the name is new. */
  lemma {:induction false} FreshDispatchesOnce(env: Env, className: string, st: State)
    requires RemoveArrayPrefix(className) !in st.visited && !IsJdkClass(RemoveArrayPrefix(className))
    ensures Extends(st, Collect(env, className, st).1)
    ensures Settled(className, Collect(env, className, st).1)
    decreases VisitableNames(env) + {RemoveArrayPrefix(className)} - st.visited, 0, 0
  {
    var name := RemoveArrayPrefix(className);
    var entered := Entered(env, name, st);
    EnteringExtends(env, name, st);
    if Resolves(env, name) {
      FetchedUnfolds(env, className, st);
      MarkingShrinks(VisitableNames(env), name, st.visited);
      ChildrenDispatchOnce(env, TasksOf(env, name, entered.visited), entered);
      ExtendsTrans(st, entered, Collect(env, className, st).1);
    } else {
      UnresolvedUnfolds(env, className, st);
    }
  }

  /** The task loop only dispatches names not yet visited, each once, and never a runtime name. */
  lemma {:induction false} ChildrenDispatchOnce(env: Env, tasks: seq<string>, st: State)
    requires forall t :: t in tasks ==> t in ArchiveDependencies(env)
    ensures Extends(st, CollectChildren(env, tasks, st).1)
    decreases VisitableNames(env) - st.visited, 1, |tasks|
  {
    if |tasks| == 0 {
      ExtendsRefl(st);
    } else {
      FirstTaskMeasure(env, tasks, st);
      ChildrenUnfolds(env, tasks, st);
      CollectDispatchesOnce(env, tasks[0], st);
      var child := Collect(env, tasks[0], st).1;
      if Collect(env, tasks[0], st).0 == Resolved {
        ChildrenDispatchOnce(env, tasks[1..], child);
        ExtendsTrans(st, child, CollectChildren(env, tasks[1..], child).1);
      }
    }
  }

  // ---------------------------------------------------------------------
  // The dependency set: the union of the visited classes' dependencies
  // ---------------------------------------------------------------------

  /** The union of the dependency sets of the classes in `names`. */
  ghost function DepsOfAll(env: Env, names: set<string>): set<string> {
    set v, d | v in names && d in DirectOf(env, v) :: d
  }

  lemma DepsOfAllSplit(env: Env, a: set<string>, b: set<string>)
    ensures DepsOfAll(env, a + b) == DepsOfAll(env, a) + DepsOfAll(env, b)
    ensures DepsOfAll(env, {}) == {}
  {
    forall d | d in DepsOfAll(env, a + b) ensures d in DepsOfAll(env, a) + DepsOfAll(env, b) {
      var v :| v in a + b && d in DirectOf(env, v);
    }
  }

  /** From `st` to `st2` the dependency set gained exactly the dependency sets of the classes visited in between. */
  ghost predicate Gathered(env: Env, st: State, st2: State) {
    st2.deps == st.deps + DepsOfAll(env, st2.visited - st.visited)
  }

  /** Two gathering steps in a row make one. */
  lemma GatherChain(env: Env, st0: State, st1: State, st2: State)
    requires st0.visited <= st1.visited <= st2.visited
    requires Gathered(env, st0, st1) && Gathered(env, st1, st2)
    ensures Gathered(env, st0, st2)
  {
    var v0, v1, v2 := st0.visited, st1.visited, st2.visited;
    assert v2 - v0 == (v1 - v0) + (v2 - v1);
    DepsOfAllSplit(env, v1 - v0, v2 - v1);
  }

  /** Visiting one new class adds its dependency set. */
  lemma GatherOne(env: Env, name: string, st0: State, st1: State)
    requires name !in st0.visited && st1.visited == st0.visited + {name}
    requires st1.deps == st0.deps + DirectOf(env, name)
    ensures Gathered(env, st0, st1)
  {
    assert st1.visited - st0.visited == {name};
  }

  /**
   After a call of `Collect`, the dependency set is its initial value plus
   the dependency sets of exactly the classes visited during the call.
   */
  lemma {:induction false} CollectGathersDependencies(env: Env, className: string, st: State)
    ensures Gathered(env, st, Collect(env, className, st).1)
    decreases VisitableNames(env) + {RemoveArrayPrefix(className)} - st.visited, 0, 1
  {
    var name := RemoveArrayPrefix(className);
    if name in st.visited || IsJdkClass(name) {
      assert Collect(env, className, st).1.visited - st.visited == {};
      DepsOfAllSplit(env, {}, {});
    } else {
      FreshGathersDependencies(env, className, st);
    }
  }

  /** The case of `CollectGathersDependencies` where the name is new. */
  lemma {:induction false} FreshGathersDependencies(env: Env, className: string, st: State)
    requires RemoveArrayPrefix(className) !in st.visited && !IsJdkClass(RemoveArrayPrefix(className))
    ensures Gathered(env, st, Collect(env, className, st).1)
    decreases VisitableNames(env) + {RemoveArrayPrefix(className)} - st.visited, 0, 0
  {
    var name := RemoveArrayPrefix(className);
    var entered := Entered(env, name, st);
    GatherOne(env, name, st, entered);
    if Resolves(env, name) {
      FetchedUnfolds(env, className, st);
      MarkingShrinks(VisitableNames(env), name, st.visited);
      ChildrenGatherDependencies(env, TasksOf(env, name, entered.visited), entered);
      GatherChain(env, st, entered, Collect(env, className, st).1);
    } else {
      UnresolvedUnfolds(env, className, st);
    }
  }

  /** The task loop adds the dependency sets of exactly the classes it visited. */
  lemma {:induction false} ChildrenGatherDependencies(env: Env, tasks: seq<string>, st: State)
    requires forall t :: t in tasks ==> t in ArchiveDependencies(env)
    ensures Gathered(env, st, CollectChildren(env, tasks, st).1)
    decreases VisitableNames(env) - st.visited, 1, |tasks|
  {
    if |tasks| == 0 {
      assert CollectChildren(env, tasks, st).1.visited - st.visited == {};
      DepsOfAllSplit(env, {}, {});
    } else {
      FirstTaskMeasure(env, tasks, st);
      ChildrenUnfolds(env, tasks, st);
      CollectGathersDependencies(env, tasks[0], st);
      var child := Collect(env, tasks[0], st).1;
      if Collect(env, tasks[0], st).0 == Resolved {
        ChildrenGatherDependencies(env, tasks[1..], child);
        GatherChain(env, st, child, CollectChildren(env, tasks[1..], child).1);
      }
    }
  }
}
