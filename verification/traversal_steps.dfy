/**
 One step of the traversal at a time. Each lemma here unfolds `Collect`
 or `CollectChildren` once, for one kind of call, and states the result
 in terms of the state a new class enters with and the tasks it creates.
 The inductive proofs about the traversal go through these steps.
 */
module TraversalSteps {
  import opened TypeNames
  import opened ArchiveStore
  import opened ReferenceExtractor
  import opened Traversal

  /** The state right after a new class is marked visited and its dependency set merged. */
  ghost function Entered(env: Env, name: string, st: State): (r: State)
    ensures r.visited == st.visited + {name} && r.log == st.log + [name]
    ensures r.deps == st.deps + DirectOf(env, name)
  {
    st.(visited := st.visited + {name}, log := st.log + [name], deps := st.deps + DirectOf(env, name))
  }

  /** The tasks a fetched class creates: its dependencies not yet in `visited`, none for a class that does not resolve. */
  ghost function TasksOf(env: Env, name: string, visited: set<string>): (r: seq<string>)
    ensures forall t :: t in r <==> t in DirectOf(env, name) && t !in visited
  {
    match GetClassDependencies(env, name)
    case Deps(direct) => Unvisited(direct, visited)
    case _ => []
  }

  /** A class whose dependencies are all visited creates no tasks. */
  lemma NoTasksWhenAllVisited(env: Env, name: string, visited: set<string>)
    requires forall d :: d in DirectOf(env, name) ==> d in visited
    ensures TasksOf(env, name, visited) == []
  {
    if Resolves(env, name) {
      var direct := GetClassDependencies(env, name).direct;
      assert forall d :: d in direct ==> d in DirectOf(env, name);
    }
  }

  /** A name in the visited set, or a runtime name, is done at once: nothing is visited or merged. */
  lemma SettledNameIsNoOp(env: Env, className: string, st: State)
    ensures Collect(env, className, st) == (Resolved, st) <==>
            RemoveArrayPrefix(className) in st.visited || IsJdkClass(RemoveArrayPrefix(className))
  {
    var name := RemoveArrayPrefix(className);
    if !(name in st.visited || IsJdkClass(name)) {
      if Resolves(env, name) {
        FetchedUnfolds(env, className, st);
      } else {
        UnresolvedUnfolds(env, className, st);
      }
      assert name in Collect(env, className, st).1.visited;
    }
  }

  /**
   A new class that cannot be fetched or parsed is marked visited and
   fails; only an unreadable archive turns the failure into an I/O error.
   */
  lemma UnresolvedUnfolds(env: Env, className: string, st: State)
    requires RemoveArrayPrefix(className) !in st.visited && !IsJdkClass(RemoveArrayPrefix(className))
    requires !Resolves(env, RemoveArrayPrefix(className))
    ensures var name := RemoveArrayPrefix(className);
            var outcome := if GetClassDependencies(env, name) == ArchiveFault then ArchiveError else Failed;
            Collect(env, className, st) == (outcome, Entered(env, name, st))
  {
    var name := RemoveArrayPrefix(className);
    EnteredUnresolved(env, name, st);
  }

  /** A class that does not resolve enters with no dependencies: only the visited set and the log change. */
  lemma EnteredUnresolved(env: Env, name: string, st: State)
    requires !Resolves(env, name)
    ensures Entered(env, name, st) == st.(visited := st.visited + {name}, log := st.log + [name])
  {
    assert DirectOf(env, name) == {};
    assert st.deps + {} == st.deps;
  }

  /** The tasks of a class are dependency names stored in the archives. */
  lemma TasksInArchives(env: Env, name: string, visited: set<string>)
    ensures forall t :: t in TasksOf(env, name, visited) ==> t in ArchiveDependencies(env)
  {
    if Resolves(env, name) {
      var direct := GetClassDependencies(env, name).direct;
      assert forall t :: t in TasksOf(env, name, visited) ==> t in direct;
    }
  }

  /** The dependency set of a class that resolves holds exactly the names its extractor produced. */
  lemma DirectOfFetched(env: Env, name: string)
    requires Resolves(env, name)
    ensures DirectOf(env, name) == set d | d in GetClassDependencies(env, name).direct
  {
  }

  /**
   A new class that resolves enters the visited set with its dependency
   set merged, and the task loop runs on the tasks it creates; the class
   resolves exactly when every task does.
   */
  lemma FetchedUnfolds(env: Env, className: string, st: State)
    requires RemoveArrayPrefix(className) !in st.visited && !IsJdkClass(RemoveArrayPrefix(className))
    requires Resolves(env, RemoveArrayPrefix(className))
    ensures var name := RemoveArrayPrefix(className);
            forall t :: t in TasksOf(env, name, st.visited + {name}) ==> t in ArchiveDependencies(env)
    ensures var name := RemoveArrayPrefix(className);
            var children := CollectChildren(env, TasksOf(env, name, st.visited + {name}), Entered(env, name, st));
            Collect(env, className, st) == (if children.0 then Resolved else Failed, children.1)
  {
    var name := RemoveArrayPrefix(className);
    TasksInArchives(env, name, st.visited + {name});
    DirectOfFetched(env, name);
  }

  /** The first task runs; the loop goes on with the rest only when it resolved. */
  lemma ChildrenUnfolds(env: Env, tasks: seq<string>, st: State)
    requires |tasks| > 0
    requires forall t :: t in tasks ==> t in ArchiveDependencies(env)
    ensures var child := Collect(env, tasks[0], st);
            CollectChildren(env, tasks, st) ==
              if child.0 == Resolved then CollectChildren(env, tasks[1..], child.1) else (false, child.1)
  {
  }

  /** Marking a new name visited strictly shrinks the termination measure. */
  lemma MarkingShrinks(names: set<string>, name: string, visited: set<string>)
    requires name !in visited
    ensures names - (visited + {name}) < names + {name} - visited
  {
    assert name in names + {name} - visited;
  }

  /** The first task's name is one the measure counts, and the measure does not grow as the task runs. */
  lemma FirstTaskMeasure(env: Env, tasks: seq<string>, st: State)
    requires |tasks| > 0
    requires forall t :: t in tasks ==> t in ArchiveDependencies(env)
    ensures VisitableNames(env) + {RemoveArrayPrefix(tasks[0])} - st.visited == VisitableNames(env) - st.visited
    ensures var later := Collect(env, tasks[0], st).1.visited;
            VisitableNames(env) - later == VisitableNames(env) - st.visited ||
            VisitableNames(env) - later < VisitableNames(env) - st.visited
  {
    assert RemoveArrayPrefix(tasks[0]) in VisitableNames(env);
    AddingKnownName(VisitableNames(env), RemoveArrayPrefix(tasks[0]), st.visited);
    GrowingVisited(VisitableNames(env), st.visited, Collect(env, tasks[0], st).1.visited);
  }
}
