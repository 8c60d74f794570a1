/**
 A classpath on which the checker answers false although every class the
 extractor names is on the classpath.

 Take two different class names `e` and `x` of the default package, each
 not starting with 'L' or '[', not ending in ';' and not a runtime name.
 The classpath holds the class `e`, whose code names the array type
 `[LLx;`, and the class `L` + `x`, whose code names nothing. The extractor
 turns `[LLx;` into the dependency `L` + `x`, which is on the classpath.
 The child call normalises that name again, into `x`, looks `x` up, and
 does not find it.

 Completeness is stated over the graph of re-normalised names, where `x`
 is reachable from `e`, so it is not contradicted. On the names the
 extractor returns, though, completeness holds only under the same
 proviso as soundness: the stored names are in normal form.
 */
module FalseNegative {
  import opened TypeNames
  import opened ArchiveStore
  import opened ReferenceExtractor
  import opened Traversal
  import opened TraversalSteps
  import opened TraversalClosure
  import opened Verdicts
  import opened Scenarios

  /** The operand in the code of `e`: a one-dimensional array of `L` + `x`. */
  function LostOperand(x: string): string {
    ArrayDescriptor("L" + x, 1)
  }

  /** The classpath: one archive holding `e` (bytes `[0]`) and `L` + `x` (bytes `[1]`). */
  function LostNameEnv(e: string, x: string): Env {
    Env([Readable(map[ClassFilePath(e) := [0], ClassFilePath("L" + x) := [1]])],
        (b: Bytes) => if b == [0] then Parsed([TypeInsn(LostOperand(x))]) else Parsed([]))
  }

  /** Two different names with no '.' have different entry paths. */
  lemma PathsDiffer(a: string, b: string)
    requires '.' !in a && '.' !in b && a != b
    ensures ClassFilePath(a) != ClassFilePath(b)
  {
    if |a| == |b| {
      var i :| 0 <= i < |a| && a[i] != b[i];
      assert ClassFilePath(a)[i] == a[i] && ClassFilePath(b)[i] == b[i];
    }
  }

  /** The first character of a plain name is neither 'L' nor '.'. */
  lemma PlainHead(x: string)
    requires PlainName(x)
    ensures x[0] != 'L' && x[0] != '.'
  {
    assert x[..1][0] == x[0];
  }

  /** `e` and `L` + `x` are found; `x` is not. */
  lemma LostNameLookups(e: string, x: string)
    requires PlainName(e) && PlainName(x) && e != x
    ensures GetClassBytes(e, LostNameEnv(e, x).archives) == Found([0])
    ensures GetClassBytes("L" + x, LostNameEnv(e, x).archives) == Found([1])
    ensures GetClassBytes(x, LostNameEnv(e, x).archives) == NotFound
  {
    var lx := "L" + x;
    PlainHead(e);
    assert ClassFilePath(e)[0] != ClassFilePath(lx)[0];
    PathsDiffer(e, x);
    assert |ClassFilePath(x)| != |ClassFilePath(lx)|;
  }

  /** The code of `e` has the one dependency `L` + `x`; empty code has none. */
  lemma LostNameCode(x: string)
    requires PlainName(x)
    ensures DirectDependencies([TypeInsn(LostOperand(x))]) == ["L" + x]
    ensures DirectDependencies([]) == []
  {
    var lx := "L" + x;
    DescriptorOperandYieldsClassName(lx, 1);
    ReplaceAbsent(lx, '/', '.');
    LeadingLNotJdk(x);
    SingleTypeInsn(LostOperand(x));
  }

  /** Both stored classes resolve: `e` depends on `L` + `x`, which depends on nothing; `x` does not resolve. */
  lemma LostNameFetches(e: string, x: string)
    requires PlainName(e) && PlainName(x) && e != x
    ensures GetClassDependencies(LostNameEnv(e, x), e) == Deps(["L" + x])
    ensures GetClassDependencies(LostNameEnv(e, x), "L" + x) == Deps([])
    ensures GetClassDependencies(LostNameEnv(e, x), x) == Missing
  {
    LostNameLookups(e, x);
    LostNameCode(x);
  }

  /** The dependency sets of the two stored classes. */
  lemma LostNameDirect(e: string, x: string)
    requires PlainName(e) && PlainName(x) && e != x
    ensures Resolves(LostNameEnv(e, x), e) && DirectOf(LostNameEnv(e, x), e) == {"L" + x}
    ensures Resolves(LostNameEnv(e, x), "L" + x) && DirectOf(LostNameEnv(e, x), "L" + x) == {}
    ensures !Resolves(LostNameEnv(e, x), x)
  {
    LostEntryDirect(e, x);
    LostTargetDirect(e, x);
    LostNameFetches(e, x);
  }

  /** The dependency set of `e` is `L` + `x` alone. */
  lemma LostEntryDirect(e: string, x: string)
    requires PlainName(e) && PlainName(x) && e != x
    ensures DirectOf(LostNameEnv(e, x), e) == {"L" + x}
  {
    LostNameFetches(e, x);
  }

  /** The dependency set of `L` + `x` is empty. */
  lemma LostTargetDirect(e: string, x: string)
    requires PlainName(e) && PlainName(x) && e != x
    ensures DirectOf(LostNameEnv(e, x), "L" + x) == {}
  {
    LostNameFetches(e, x);
  }

  /** The child call for `L` + `x` looks up `x` and fails. */
  lemma LostChildFails(e: string, x: string, st: State)
    requires PlainName(e) && PlainName(x) && e != x
    requires x !in st.visited
    ensures Collect(LostNameEnv(e, x), "L" + x, st).0 == Failed
  {
    var env := LostNameEnv(e, x);
    LeadingLDropped(x);
    LostNameFetches(e, x);
    UnresolvedUnfolds(env, "L" + x, st);
  }

  /** Starting from `e`, the one task `L` + `x` fails, so the answer is false. */
  lemma LostNameVerdict(e: string, x: string)
    requires PlainName(e) && PlainName(x) && e != x
    ensures CheckDependencies(LostNameEnv(e, x), e) == Verdict(false)
  {
    var env := LostNameEnv(e, x);
    var lx := "L" + x;
    RemoveArrayPrefixUndecorated(e);
    LostNameFetches(e, x);
    FetchedUnfolds(env, e, Initial);
    var tasks := TasksOf(env, e, {e});
    assert tasks == [lx] by {
      PlainHead(e);
      assert lx != e;
      assert tasks == Unvisited([lx], {e});
    }
    var st := Entered(env, e, Initial);
    ChildrenUnfolds(env, tasks, st);
    LostChildFails(e, x, st);
  }

  /** The stored dependency `L` + `x` is not in normal form. */
  lemma LostNameUnstable(e: string, x: string)
    requires PlainName(e) && PlainName(x) && e != x
    ensures !StableNames(LostNameEnv(e, x))
  {
    var env := LostNameEnv(e, x);
    var lx := "L" + x;
    LeadingLDropped(x);
    LostNameFetches(e, x);
    LostNameLookups(e, x);
    assert lx in ArchiveDependencies(env) by {
      assert env.archives[0].Readable? && ClassFilePath(e) in env.archives[0].entries;
      assert env.parse(env.archives[0].entries[ClassFilePath(e)]).code == [TypeInsn(LostOperand(x))];
      LostNameCode(x);
    }
    assert |lx| != |x|;
  }

  /** In the graph of re-normalised names, `x` is one step from `e`. */
  lemma LostNameReach(e: string, x: string)
    requires PlainName(e) && PlainName(x) && e != x
    ensures Reachable(LostNameEnv(e, x), RemoveArrayPrefix(e), x)
  {
    var env := LostNameEnv(e, x);
    RemoveArrayPrefixUndecorated(e);
    LeadingLDropped(x);
    LostNameDirect(e, x);
    assert "L" + x in DirectOf(env, e);
    assert Step(env, e, x);
    ReachableRefl(env, x);
    StepThenReachable(env, e, x, x);
  }

  /**
   Starting from `e`, the checker answers false although `e` and the one
   class its code names, `L` + `x`, both resolve and `L` + `x` names
   nothing. The missing class `x` exists only as the re-normalised form
   of a stored name that is not in normal form.
   */
  lemma LostRenormalisedName(e: string, x: string)
    requires PlainName(e) && PlainName(x) && e != x
    ensures CheckDependencies(LostNameEnv(e, x), e) == Verdict(false)
    ensures Resolves(LostNameEnv(e, x), e) && DirectOf(LostNameEnv(e, x), e) == {"L" + x}
    ensures Resolves(LostNameEnv(e, x), "L" + x) && DirectOf(LostNameEnv(e, x), "L" + x) == {}
    ensures Reachable(LostNameEnv(e, x), RemoveArrayPrefix(e), x) && !Resolves(LostNameEnv(e, x), x)
    ensures !StableNames(LostNameEnv(e, x))
  {
    LostNameVerdict(e, x);
    LostNameDirect(e, x);
    LostNameReach(e, x);
    LostNameUnstable(e, x);
  }
}
