/**
 What `checkDependencies` answers, in terms of the dependency graph of
 the classpath. A class "resolves" when its bytes are found and parse;
 the graph's edges lead from a class to the normalised names of its
 dependencies.

 - The answer is true whenever every non-runtime class reachable from the
   entry class resolves (completeness, for every classpath).
 - Conversely a true answer means every such class resolves, provided
   every dependency name stored in the archives is already in normal form
   (soundness). Without that proviso the task loop can skip a name, because
   it tests a dependency against the visited set before normalising it.
 - An I/O error reaches the caller only from the entry class's own lookup.
 - After a run, the log lists every visited class once, no visited class
   and no collected dependency is a runtime name, and the dependency set is
   the union of the visited classes' dependency sets.
 */
module Verdicts {
  import opened TypeNames
  import opened ArchiveStore
  import opened ReferenceExtractor
  import opened Traversal
  import opened TraversalSteps
  import opened TraversalFacts
  import opened TraversalClosure

  /** Every non-runtime class reachable from the entry class resolves. */
  ghost predicate AllReachableResolve(env: Env, mainClassName: string) {
    forall v :: Reachable(env, RemoveArrayPrefix(mainClassName), v) && !IsJdkClass(v) ==> Resolves(env, v)
  }

  /** Every dependency name stored in the archives is left unchanged by normalisation. */
  ghost predicate StableNames(env: Env) {
    forall d :: d in ArchiveDependencies(env) ==> RemoveArrayPrefix(d) == d
  }

  /** The entry class resolving every reachable class gives a true answer. */
  lemma VerdictComplete(env: Env, mainClassName: string)
    requires AllReachableResolve(env, mainClassName)
    ensures CheckDependencies(env, mainClassName) == Verdict(true)
  {
    CollectFailureWitness(env, mainClassName, Initial);
    CollectReaches(env, mainClassName, Initial);
    CollectDispatchesOnce(env, mainClassName, Initial);
  }

  /** A walk that starts in a visited set closed over itself stays in it, up to a runtime name. */
  lemma {:induction false} WalkStaysVisited(env: Env, p: seq<string>, a: string, b: string, visited: set<string>)
    requires StableNames(env)
    requires WalkBetween(env, p, a, b) && a in visited && !IsJdkClass(b)
    requires ClosedOver(env, visited, visited)
    ensures b in visited
    decreases |p|
  {
    if |p| > 1 {
      var next := p[1];
      var d :| d in DirectOf(env, a) && RemoveArrayPrefix(d) == next;
      assert d in ArchiveDependencies(env);
      assert Covered(d, visited);
      if |p[1..]| > 1 {
        assert Step(env, next, p[1..][1]);
      }
      WalkStaysVisited(env, p[1..], next, b, visited);
    }
  }

  /** Under stable names, a true answer means every non-runtime class reachable from the entry class resolves. */
  lemma VerdictSound(env: Env, mainClassName: string)
    requires StableNames(env)
    requires CheckDependencies(env, mainClassName) == Verdict(true)
    ensures AllReachableResolve(env, mainClassName)
  {
    var final := Collect(env, mainClassName, Initial).1;
    var start := RemoveArrayPrefix(mainClassName);
    CollectCloses(env, mainClassName, Initial);
    CollectDispatchesOnce(env, mainClassName, Initial);
    assert final.visited - Initial.visited == final.visited;
    forall v | Reachable(env, start, v) && !IsJdkClass(v) ensures Resolves(env, v) {
      var p :| WalkBetween(env, p, start, v);
      if |p| > 1 {
        assert Step(env, start, p[1]);
      }
      WalkStaysVisited(env, p, start, v, final.visited);
    }
  }

  /** Under stable names the answer is true exactly when every non-runtime class reachable from the entry class resolves. */
  lemma VerdictCharacterised(env: Env, mainClassName: string)
    requires StableNames(env)
    ensures CheckDependencies(env, mainClassName) == Verdict(true) <==> AllReachableResolve(env, mainClassName)
  {
    if AllReachableResolve(env, mainClassName) {
      VerdictComplete(env, mainClassName);
    }
    if CheckDependencies(env, mainClassName) == Verdict(true) {
      VerdictSound(env, mainClassName);
    }
  }

  /**
   A call ends in an I/O error exactly when its own name is new, not a
   runtime name, and its lookup reaches an unreadable archive: an error
   below it is turned into a plain failure by the task loop.
   */
  lemma ArchiveErrorIsOwnLookup(env: Env, className: string, st: State)
    ensures Collect(env, className, st).0 == ArchiveError <==>
            && RemoveArrayPrefix(className) !in st.visited
            && !IsJdkClass(RemoveArrayPrefix(className))
            && GetClassBytes(RemoveArrayPrefix(className), env.archives) == ArchiveUnreadable
  {
    var name := RemoveArrayPrefix(className);
    if name !in st.visited && !IsJdkClass(name) {
      if Resolves(env, name) {
        FetchedUnfolds(env, className, st);
      } else {
        UnresolvedUnfolds(env, className, st);
      }
    }
  }

  /** `checkDependencies` throws only when the entry class's own lookup meets an unreadable archive. */
  lemma IoErrorOnlyFromEntry(env: Env, mainClassName: string)
    ensures CheckDependencies(env, mainClassName) == IoError <==>
            !IsJdkClass(RemoveArrayPrefix(mainClassName)) &&
            GetClassBytes(RemoveArrayPrefix(mainClassName), env.archives) == ArchiveUnreadable
  {
    ArchiveErrorIsOwnLookup(env, mainClassName, Initial);
  }

  /** Every name in the dependency set of some class is a stored dependency name, and never a runtime name. */
  lemma DepsOfAllStored(env: Env, names: set<string>)
    ensures forall d :: d in DepsOfAll(env, names) ==> !IsJdkClass(d) && d in ArchiveDependencies(env)
  {
    forall d | d in DepsOfAll(env, names) ensures !IsJdkClass(d) && d in ArchiveDependencies(env) {
      var v :| v in names && d in DirectOf(env, v);
      var direct := GetClassDependencies(env, v).direct;
      assert d in direct;
    }
  }

  /** After a run from empty sets the log lists each visited class exactly once, and none is a runtime name. */
  lemma RunLog(env: Env, mainClassName: string)
    ensures var final := Collect(env, mainClassName, Initial).1;
            && NoDuplicates(final.log)
            && (forall v :: v in final.log <==> v in final.visited)
            && (forall v :: v in final.visited ==> !IsJdkClass(v))
  {
    var final := Collect(env, mainClassName, Initial).1;
    CollectDispatchesOnce(env, mainClassName, Initial);
    assert final.log[|Initial.log|..] == final.log;
  }

  /** After a run from empty sets the dependency set is the union of the visited classes' dependency sets. */
  lemma RunDependencies(env: Env, mainClassName: string)
    ensures var final := Collect(env, mainClassName, Initial).1;
            final.deps == DepsOfAll(env, final.visited)
  {
    var final := Collect(env, mainClassName, Initial).1;
    CollectGathersDependencies(env, mainClassName, Initial);
    assert final.visited - Initial.visited == final.visited;
  }

  /**
   After a run from empty sets: the log lists each visited class exactly
   once; no visited class and no collected dependency is a runtime name;
   every collected dependency comes from a class in the archives; and the
   dependency set is exactly the union of the visited classes' dependency
   sets.
   */
  lemma RunInvariants(env: Env, mainClassName: string)
    ensures var final := Collect(env, mainClassName, Initial).1;
            && NoDuplicates(final.log)
            && (forall v :: v in final.log <==> v in final.visited)
            && (forall v :: v in final.visited ==> !IsJdkClass(v))
            && final.deps == DepsOfAll(env, final.visited)
            && (forall d :: d in final.deps ==> !IsJdkClass(d) && d in ArchiveDependencies(env))
  {
    var final := Collect(env, mainClassName, Initial).1;
    RunLog(env, mainClassName);
    RunDependencies(env, mainClassName);
    DepsOfAllStored(env, final.visited);
  }
}
