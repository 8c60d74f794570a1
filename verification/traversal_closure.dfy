/**
 What a traversal has seen when it ends. A resolved call leaves every
 class it visited fetched and each of its dependencies accounted for; a
 call that does not resolve visited a class that could not be fetched;
 and every class a call visited can be reached from the name it started
 from, one dependency at a time.
 */
module TraversalClosure {
  import opened TypeNames
  import opened ArchiveStore
  import opened ReferenceExtractor
  import opened Traversal
  import opened TraversalSteps
  import opened TraversalFacts

  // ---------------------------------------------------------------------
  // Closure: a resolved call fetched everything it visited
  // ---------------------------------------------------------------------

  /**
   Dependency `d` needs no more work given `visited`: it is visited under
   its own spelling (so the task loop skipped it), or its normalised name
   is visited, or that name is a runtime name.
   */
  ghost predicate Covered(d: string, visited: set<string>) {
    d in visited || RemoveArrayPrefix(d) in visited || IsJdkClass(RemoveArrayPrefix(d))
  }

  /** Every class in `names` resolves, and every dependency of it is covered by `visited`. */
  ghost predicate ClosedOver(env: Env, names: set<string>, visited: set<string>) {
    forall v :: v in names ==> Resolves(env, v) && forall d :: d in DirectOf(env, v) ==> Covered(d, visited)
  }

  /** Covering survives a growing visited set. */
  lemma ClosedOverGrows(env: Env, names: set<string>, visited: set<string>, later: set<string>)
    requires ClosedOver(env, names, visited) && visited <= later
    ensures ClosedOver(env, names, later)
  {
  }

  /** Closure of two visiting steps in a row. */
  lemma ClosedOverChain(env: Env, v0: set<string>, v1: set<string>, v2: set<string>)
    requires v0 <= v1 <= v2
    requires ClosedOver(env, v1 - v0, v2) && ClosedOver(env, v2 - v1, v2)
    ensures ClosedOver(env, v2 - v0, v2)
  {
    assert v2 - v0 == (v1 - v0) + (v2 - v1);
  }

  /**
   A class that resolves, entered into `visited`, is closed over any later
   visited set in which each of its tasks is settled: a dependency that
   made no task was already visited under its own spelling.
   */
  lemma EnteredCloses(env: Env, name: string, visited: set<string>, final: State)
    requires name !in visited && Resolves(env, name)
    requires visited + {name} <= final.visited
    requires forall t :: t in TasksOf(env, name, visited + {name}) ==> Settled(t, final)
    ensures ClosedOver(env, (visited + {name}) - visited, final.visited)
  {
    assert (visited + {name}) - visited == {name};
    forall d | d in DirectOf(env, name) ensures Covered(d, final.visited) {
      if d !in visited + {name} {
        assert d in TasksOf(env, name, visited + {name});
      }
    }
  }

  /** A resolved `Collect` fetched every class it visited, and each of their dependencies is covered. */
  lemma {:induction false} CollectCloses(env: Env, className: string, st: State)
    ensures var res := Collect(env, className, st);
            res.0 == Resolved ==> ClosedOver(env, res.1.visited - st.visited, res.1.visited)
    decreases VisitableNames(env) + {RemoveArrayPrefix(className)} - st.visited, 0, 1
  {
    var name := RemoveArrayPrefix(className);
    if name in st.visited || IsJdkClass(name) {
      assert Collect(env, className, st).1.visited - st.visited == {};
    } else if Resolves(env, name) {
      FetchedCloses(env, className, st);
    } else {
      UnresolvedUnfolds(env, className, st);
    }
  }

  /** The case of `CollectCloses` where the name is new and resolves. */
  lemma {:induction false} FetchedCloses(env: Env, className: string, st: State)
    requires RemoveArrayPrefix(className) !in st.visited && !IsJdkClass(RemoveArrayPrefix(className))
    requires Resolves(env, RemoveArrayPrefix(className))
    ensures var res := Collect(env, className, st);
            res.0 == Resolved ==> ClosedOver(env, res.1.visited - st.visited, res.1.visited)
    decreases VisitableNames(env) + {RemoveArrayPrefix(className)} - st.visited, 0, 0
  {
    var name := RemoveArrayPrefix(className);
    var entered := Entered(env, name, st);
    var tasks := TasksOf(env, name, entered.visited);
    FetchedUnfolds(env, className, st);
    MarkingShrinks(VisitableNames(env), name, st.visited);
    ChildrenClose(env, tasks, entered);
    var res := Collect(env, className, st);
    if res.0 == Resolved {
      EnteredCloses(env, name, st.visited, res.1);
      ClosedOverChain(env, st.visited, entered.visited, res.1.visited);
    }
  }

  /** A task loop that ends with true fetched every class it visited and settled every task. */
  lemma {:induction false} ChildrenClose(env: Env, tasks: seq<string>, st: State)
    requires forall t :: t in tasks ==> t in ArchiveDependencies(env)
    ensures var res := CollectChildren(env, tasks, st);
            res.0 ==> ClosedOver(env, res.1.visited - st.visited, res.1.visited)
    ensures var res := CollectChildren(env, tasks, st);
            res.0 ==> forall t :: t in tasks ==> Settled(t, res.1)
    decreases VisitableNames(env) - st.visited, 1, |tasks|
  {
    if |tasks| == 0 {
      assert CollectChildren(env, tasks, st).1.visited - st.visited == {};
    } else {
      FirstTaskMeasure(env, tasks, st);
      ChildrenUnfolds(env, tasks, st);
      var child := Collect(env, tasks[0], st);
      if child.0 == Resolved {
        CollectCloses(env, tasks[0], st);
        CollectDispatchesOnce(env, tasks[0], st);
        ChildrenClose(env, tasks[1..], child.1);
        var res := CollectChildren(env, tasks[1..], child.1);
        if res.0 {
          ClosedOverGrows(env, child.1.visited - st.visited, child.1.visited, res.1.visited);
          ClosedOverChain(env, st.visited, child.1.visited, res.1.visited);
          forall t | t in tasks ensures Settled(t, res.1) {
            if t != tasks[0] {
              assert t in tasks[1..];
            }
          }
        }
      }
    }
  }

  // ---------------------------------------------------------------------
  // Failure: a call that does not resolve visited a class it could not fetch
  // ---------------------------------------------------------------------

  /** Some class in `names` cannot be fetched or parsed. */
  ghost predicate HasUnresolved(env: Env, names: set<string>) {
    exists v :: v in names && !Resolves(env, v)
  }

  /** A `Collect` that does not resolve visited a class that does not resolve. */
  lemma {:induction false} CollectFailureWitness(env: Env, className: string, st: State)
    ensures var res := Collect(env, className, st);
            res.0 != Resolved ==> HasUnresolved(env, res.1.visited - st.visited)
    decreases VisitableNames(env) + {RemoveArrayPrefix(className)} - st.visited, 0, 1
  {
    var name := RemoveArrayPrefix(className);
    if name in st.visited || IsJdkClass(name) {
    } else if Resolves(env, name) {
      FetchedFailureWitness(env, className, st);
    } else {
      UnresolvedUnfolds(env, className, st);
      assert name in Collect(env, className, st).1.visited - st.visited;
    }
  }

  /** The case of `CollectFailureWitness` where the name is new and resolves. */
  lemma {:induction false} FetchedFailureWitness(env: Env, className: string, st: State)
    requires RemoveArrayPrefix(className) !in st.visited && !IsJdkClass(RemoveArrayPrefix(className))
    requires Resolves(env, RemoveArrayPrefix(className))
    ensures var res := Collect(env, className, st);
            res.0 != Resolved ==> HasUnresolved(env, res.1.visited - st.visited)
    decreases VisitableNames(env) + {RemoveArrayPrefix(className)} - st.visited, 0, 0
  {
    var name := RemoveArrayPrefix(className);
    var entered := Entered(env, name, st);
    FetchedUnfolds(env, className, st);
    MarkingShrinks(VisitableNames(env), name, st.visited);
    ChildrenFailureWitness(env, TasksOf(env, name, entered.visited), entered);
    var res := Collect(env, className, st);
    if res.0 != Resolved {
      var v :| v in res.1.visited - entered.visited && !Resolves(env, v);
      assert v in res.1.visited - st.visited;
    }
  }

  /** A task loop that ends with false visited a class that does not resolve. */
  lemma {:induction false} ChildrenFailureWitness(env: Env, tasks: seq<string>, st: State)
    requires forall t :: t in tasks ==> t in ArchiveDependencies(env)
    ensures var res := CollectChildren(env, tasks, st);
            !res.0 ==> HasUnresolved(env, res.1.visited - st.visited)
    decreases VisitableNames(env) - st.visited, 1, |tasks|
  {
    if |tasks| > 0 {
      FirstTaskMeasure(env, tasks, st);
      ChildrenUnfolds(env, tasks, st);
      CollectFailureWitness(env, tasks[0], st);
      var child := Collect(env, tasks[0], st);
      if child.0 == Resolved {
        ChildrenFailureWitness(env, tasks[1..], child.1);
        var res := CollectChildren(env, tasks[1..], child.1);
        if !res.0 {
          var v :| v in res.1.visited - child.1.visited && !Resolves(env, v);
          assert v in res.1.visited - st.visited;
        }
      }
    }
  }

  // ---------------------------------------------------------------------
  // Reachability: everything visited is reached through dependencies
  // ---------------------------------------------------------------------

  /**
   One edge of the dependency graph: `u` is not a runtime name, and one
   of its dependencies normalises to `w` (the name the task for that
   dependency would visit).
   */
  ghost predicate Step(env: Env, u: string, w: string) {
    !IsJdkClass(u) && exists d :: d in DirectOf(env, u) && RemoveArrayPrefix(d) == w
  }

  /** `p` is a walk from `a` to `b`: it starts at `a`, ends at `b`, and each name is a step from the one before. */
  ghost predicate WalkBetween(env: Env, p: seq<string>, a: string, b: string)
    decreases |p|
  {
    && |p| > 0
    && p[0] == a
    && if |p| == 1 then a == b else Step(env, a, p[1]) && WalkBetween(env, p[1..], p[1], b)
  }

  /** Some walk leads from `a` to `b`. */
  ghost predicate Reachable(env: Env, a: string, b: string) {
    exists p :: WalkBetween(env, p, a, b)
  }

  /** A step followed by a walk is a walk. */
  lemma StepThenReachable(env: Env, a: string, b: string, c: string)
    requires Step(env, a, b) && Reachable(env, b, c)
    ensures Reachable(env, a, c)
  {
    var p :| WalkBetween(env, p, b, c);
    var q := [a] + p;
    assert q[1..] == p;
    assert WalkBetween(env, q, a, c);
  }

  /** Every name is reachable from itself, by the walk of length one. */
  lemma ReachableRefl(env: Env, a: string)
    ensures Reachable(env, a, a)
  {
    assert WalkBetween(env, [a], a, a);
  }

  /** Every name in `names` is reachable from `a`. */
  ghost predicate AllReachedFrom(env: Env, a: string, names: set<string>) {
    forall v :: v in names ==> Reachable(env, a, v)
  }

  /** Every name in `names` is reachable from the normalised name of some task in `tasks`. */
  ghost predicate AllReachedFromTasks(env: Env, tasks: seq<string>, names: set<string>) {
    forall v :: v in names ==> exists t :: t in tasks && Reachable(env, RemoveArrayPrefix(t), v)
  }

  /** What the first task reached and what the rest of the loop reached together are reached from the loop's tasks. */
  lemma ReachedFromTasksChain(env: Env, tasks: seq<string>, v0: set<string>, v1: set<string>, v2: set<string>)
    requires |tasks| > 0 && v0 <= v1 <= v2
    requires AllReachedFrom(env, RemoveArrayPrefix(tasks[0]), v1 - v0)
    requires AllReachedFromTasks(env, tasks[1..], v2 - v1)
    ensures AllReachedFromTasks(env, tasks, v2 - v0)
  {
    forall v | v in v2 - v0 ensures exists t :: t in tasks && Reachable(env, RemoveArrayPrefix(t), v) {
      if v in v1 {
        assert v in v1 - v0;
        assert tasks[0] in tasks;
      } else {
        assert v in v2 - v1;
        var t :| t in tasks[1..] && Reachable(env, RemoveArrayPrefix(t), v);
        assert t in tasks;
      }
    }
  }

  /** What the tasks of a class reach, together with the class itself, is reached from the class. */
  lemma ReachedThroughTasks(env: Env, name: string, visited: set<string>, final: set<string>)
    requires name !in visited && !IsJdkClass(name) && visited + {name} <= final
    requires AllReachedFromTasks(env, TasksOf(env, name, visited + {name}), final - (visited + {name}))
    ensures AllReachedFrom(env, name, final - visited)
  {
    forall v | v in final - visited ensures Reachable(env, name, v) {
      if v == name {
        ReachableRefl(env, name);
      } else {
        assert v in final - (visited + {name});
        var t :| t in TasksOf(env, name, visited + {name}) && Reachable(env, RemoveArrayPrefix(t), v);
        assert Step(env, name, RemoveArrayPrefix(t));
        StepThenReachable(env, name, RemoveArrayPrefix(t), v);
      }
    }
  }

  /** Every class a `Collect` visits is reachable from the normalised name it started from. */
  lemma {:induction false} CollectReaches(env: Env, className: string, st: State)
    ensures AllReachedFrom(env, RemoveArrayPrefix(className), Collect(env, className, st).1.visited - st.visited)
    decreases VisitableNames(env) + {RemoveArrayPrefix(className)} - st.visited, 0, 1
  {
    var name := RemoveArrayPrefix(className);
    if name in st.visited || IsJdkClass(name) {
      assert Collect(env, className, st).1.visited - st.visited == {};
    } else if Resolves(env, name) {
      FetchedReaches(env, className, st);
    } else {
      UnresolvedUnfolds(env, className, st);
      assert Collect(env, className, st).1.visited - st.visited == {name};
      ReachableRefl(env, name);
    }
  }

  /** The case of `CollectReaches` where the name is new and resolves. */
  lemma {:induction false} FetchedReaches(env: Env, className: string, st: State)
    requires RemoveArrayPrefix(className) !in st.visited && !IsJdkClass(RemoveArrayPrefix(className))
    requires Resolves(env, RemoveArrayPrefix(className))
    ensures AllReachedFrom(env, RemoveArrayPrefix(className), Collect(env, className, st).1.visited - st.visited)
    decreases VisitableNames(env) + {RemoveArrayPrefix(className)} - st.visited, 0, 0
  {
    var name := RemoveArrayPrefix(className);
    var entered := Entered(env, name, st);
    FetchedUnfolds(env, className, st);
    MarkingShrinks(VisitableNames(env), name, st.visited);
    ChildrenReach(env, TasksOf(env, name, entered.visited), entered);
    ReachedThroughTasks(env, name, st.visited, Collect(env, className, st).1.visited);
  }

  /** Every class a task loop visits is reachable from the normalised name of one of its tasks. */
  lemma {:induction false} ChildrenReach(env: Env, tasks: seq<string>, st: State)
    requires forall t :: t in tasks ==> t in ArchiveDependencies(env)
    ensures AllReachedFromTasks(env, tasks, CollectChildren(env, tasks, st).1.visited - st.visited)
    decreases VisitableNames(env) - st.visited, 1, |tasks|
  {
    if |tasks| == 0 {
      assert CollectChildren(env, tasks, st).1.visited - st.visited == {};
    } else {
      FirstTaskMeasure(env, tasks, st);
      ChildrenUnfolds(env, tasks, st);
      CollectReaches(env, tasks[0], st);
      var child := Collect(env, tasks[0], st);
      if child.0 == Resolved {
        ChildrenReach(env, tasks[1..], child.1);
        ReachedFromTasksChain(env, tasks, st.visited, child.1.visited, CollectChildren(env, tasks, st).1.visited);
      } else {
        assert child.1.visited - child.1.visited == {};
        ReachedFromTasksChain(env, tasks, st.visited, child.1.visited, child.1.visited);
      }
    }
  }
}
