/**
 A classpath that shows why the soundness theorem needs its proviso that
 stored dependency names are in normal form.

 Take a class name `x` of the default package that does not start with
 'L' or '[', does not end in ';' and is not a runtime name. The classpath
 holds one class, named `L` + `x`, whose code names the type `LL` + `x`.
 Normalising `LL` + `x` gives `L` + `x`, the class's own name; normalising
 `L` + `x` once more gives `x`, which no archive holds.
 */
module Scenarios {
  import opened TypeNames
  import opened ArchiveStore
  import opened ReferenceExtractor
  import opened Traversal
  import opened TraversalSteps
  import opened TraversalClosure
  import opened Verdicts

  /** The names the scenario works for. */
  predicate PlainName(x: string) {
    && |x| > 0
    && !StartsWith(x, "[") && !StartsWith(x, "L") && !EndsWith(x, ";")
    && '/' !in x && '.' !in x
    && !IsJdkClass(x)
  }

  /** The classpath of the scenario: one archive with one class, `L` + `x`. */
  function SkippedNameEnv(x: string): Env {
    Env([Readable(map[ClassFilePath("L" + x) := []])], (b: Bytes) => Parsed([TypeInsn("LL" + x)]))
  }

  /** The class `L` + `x` is found; the class `x` is not. */
  lemma SkippedNameLookups(x: string)
    requires PlainName(x)
    ensures GetClassBytes("L" + x, SkippedNameEnv(x).archives) == Found([])
    ensures GetClassBytes(x, SkippedNameEnv(x).archives) == NotFound
  {
    assert |ClassFilePath(x)| != |ClassFilePath("L" + x)|;
  }

  /** Code naming `LL` + `x` has the one dependency `L` + `x`. */
  lemma SkippedNameCode(x: string)
    requires PlainName(x)
    ensures DirectDependencies([TypeInsn("LL" + x)]) == ["L" + x]
  {
    ReplaceAbsent("LL" + x, '/', '.');
    RemoveArrayPrefixNotIdempotent(x);
    LeadingLNotJdk(x);
    SingleTypeInsn("LL" + x);
  }

  /** The class `L` + `x` depends on itself under its own spelling; the class `x` does not resolve. */
  lemma SkippedNameFetches(x: string)
    requires PlainName(x)
    ensures GetClassDependencies(SkippedNameEnv(x), "L" + x) == Deps(["L" + x])
    ensures !Resolves(SkippedNameEnv(x), x)
  {
    SkippedNameLookups(x);
    SkippedNameCode(x);
  }

  /** Once `L` + `x` is visited, its one dependency makes no task. */
  lemma SkippedNameTasks(x: string)
    requires PlainName(x)
    ensures TasksOf(SkippedNameEnv(x), "L" + x, Initial.visited + {"L" + x}) == []
  {
    var lx := "L" + x;
    SkippedNameDirect(x);
    NoTasksWhenAllVisited(SkippedNameEnv(x), lx, Initial.visited + {lx});
  }

  /** The dependency set of `L` + `x` is `L` + `x` alone. */
  lemma SkippedNameDirect(x: string)
    requires PlainName(x)
    ensures DirectOf(SkippedNameEnv(x), "L" + x) == {"L" + x}
  {
    SkippedNameFetches(x);
  }

  /** Starting from `LL` + `x`, the checker visits `L` + `x`, skips its one dependency and answers true. */
  lemma SkippedNameVerdict(x: string)
    requires PlainName(x)
    ensures CheckDependencies(SkippedNameEnv(x), "LL" + x) == Verdict(true)
  {
    var env := SkippedNameEnv(x);
    var lx := "L" + x;
    RemoveArrayPrefixNotIdempotent(x);
    SkippedNameFetches(x);
    LeadingLNotJdk(x);
    SkippedNameTasks(x);
    FetchedUnfolds(env, "LL" + x, Initial);
  }

  /** The class `x` is one step from the entry class. */
  lemma SkippedNameReach(x: string)
    requires PlainName(x)
    ensures Reachable(SkippedNameEnv(x), RemoveArrayPrefix("LL" + x), x)
  {
    var env := SkippedNameEnv(x);
    var lx := "L" + x;
    RemoveArrayPrefixNotIdempotent(x);
    SkippedNameFetches(x);
    LeadingLNotJdk(x);
    assert lx in DirectOf(env, lx);
    assert Step(env, lx, x);
    ReachableRefl(env, x);
    StepThenReachable(env, lx, x, x);
  }

  /** The stored dependency `L` + `x` is not in normal form. */
  lemma SkippedNameUnstable(x: string)
    requires PlainName(x)
    ensures !StableNames(SkippedNameEnv(x))
  {
    var env := SkippedNameEnv(x);
    var lx := "L" + x;
    RemoveArrayPrefixNotIdempotent(x);
    SkippedNameFetches(x);
    assert lx in ArchiveDependencies(env) by {
      assert env.archives[0].Readable? && ClassFilePath(lx) in env.archives[0].entries;
    }
  }

  /**
   Starting from `LL` + `x`, the checker answers true although the class
   `x`, reachable from the entry class, cannot be found: the dependency
   `L` + `x` is skipped because it is in the visited set under that
   spelling, and its normalised name `x` is never visited. The stored
   dependency `L` + `x` is not in normal form, so the soundness theorem
   does not apply.
   */
  lemma SkippedNormalisedName(x: string)
    requires PlainName(x)
    ensures CheckDependencies(SkippedNameEnv(x), "LL" + x) == Verdict(true)
    ensures Reachable(SkippedNameEnv(x), RemoveArrayPrefix("LL" + x), x)
    ensures !IsJdkClass(x) && !Resolves(SkippedNameEnv(x), x)
    ensures !AllReachableResolve(SkippedNameEnv(x), "LL" + x)
    ensures !StableNames(SkippedNameEnv(x))
  {
    SkippedNameVerdict(x);
    SkippedNameReach(x);
    SkippedNameUnstable(x);
    SkippedNameFetches(x);
  }
}
