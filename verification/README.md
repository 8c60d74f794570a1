# ClassPathDependencyChecker in Dafny

A model of the class-path dependency checker: given the name of an entry
class and an ordered list of JAR archives, `checkDependencies` answers
whether every class the entry class transitively refers to can be found in
the archives, ignoring the classes of the Java runtime. The model covers
every method of `ClassPathDependencyChecker` except `main`, with class-file
parsing and JAR reading as parameters:

- `removeArrayPrefix`, `isJdkClass` and `isPrimitiveType` (module
  `TypeNames`, file `type_names.dfy`): type-name normalisation and the
  runtime filter, as string functions.
- `getClassBytes` (module `ArchiveStore`, `archive_store.dfy`): an archive
  is either readable, with its entries as a map from entry path to bytes,
  or unreadable (opening it raises `IOException`). Lookup is first-match
  over the ordered list.
- `getClassDependencies` and its `addDependencyIfNotJdk` mapping (module
  `ReferenceExtractor`, `reference_extractor.dfy`): a parsed class is the
  list of its method-call, type and field instructions. Each operand is
  turned into a dependency name by replacing '/' with '.' and normalising,
  unless the filter excludes the result.
- `collectAllDependencies` and `checkDependencies` (module `Traversal`,
  `traversal.dfy`): the traversal, run sequentially. The visited set, the
  dependency set and a log of the order in which names entered the visited
  set are threaded through the calls as one state. A node's tasks run in
  order, and the first one that does not resolve makes the node fail.
  Termination is proved with the set of unvisited names that the archives'
  contents can produce as the measure, so reference cycles terminate.

The proofs are split into:
- `TraversalSteps` (`traversal_steps.dfy`): one unfolding step of the
  traversal at a time.
- `TraversalFacts` (`traversal_facts.dfy`): dispatch-once and
  dependency-set invariants.
- `TraversalClosure` (`traversal_closure.dfy`): what a resolved or failed
  call leaves behind, and reachability.
- `Verdicts` (`verdicts.dfy`): what the final answer means.
- `Scenarios` (`scenarios.dfy`): a family of classpaths on which the
  answer is true although a reachable class is missing.
- `FalseNegative` (`false_negative.dfy`): a family of classpaths on which
  the answer is false although every class the extractor names is found.

Three behaviours of the Java code are easy to miss; the model reproduces
each of them as written:

- A class that calls its own methods or reads its own fields lists its own
  name among its dependencies. The operand is the class itself, and nothing
  removes it.
- An archive that cannot be opened reaches the caller as an I/O error only
  when it is met by the entry class's own lookup. Below the entry class the
  error is raised inside a task and turned into `false`.
- `removeArrayPrefix` strips one leading 'L' from any name, not only from
  descriptors. The task loop tests a dependency against the visited set
  before the child call normalises it a second time. So a dependency
  spelled with a leading 'L' can be skipped while its normalised name is
  never visited. The soundness direction of the verdict therefore needs the
  proviso `StableNames`: every stored dependency name is a fixed point of
  normalisation. `Scenarios.SkippedNormalisedName` shows the proviso
  cannot be dropped.
  "Reachable" in the verdict theorems follows re-normalised names: a class
  steps to `removeArrayPrefix(d)` for each of its dependencies `d`, which
  is the name the child call looks up. Over that graph completeness needs
  no proviso. Over the names `getClassDependencies` actually returns, it
  needs `StableNames` as well. `FalseNegative.LostRenormalisedName` gives a
  classpath where every returned name resolves and the answer is still
  false: the dependency `Lx` is found, but the child call looks up `x`.

I/O, class-file parsing and the thread pool are outside the model:
- Class bytes are parsed by a function given as a parameter (`Env.parse`).
- Archives are values.
- Sibling tasks run one after the other.

## Model

| member | source | states |
|---|---|---|
| TypeNames.StripArrayDims | src/main/java/dependency_checker/ClassPathDependencyChecker.java:135-137 | the loop leaves a suffix of the input that does not start with '[', and everything it cut off was '[' |
| TypeNames.RemoveArrayPrefix | src/main/java/dependency_checker/ClassPathDependencyChecker.java:134-145 | the normalised name is never longer than the input |
| TypeNames.RemoveArrayPrefixIsSubstring | src/main/java/dependency_checker/ClassPathDependencyChecker.java:134-145 | the normalised name is a contiguous block of the input: only decorations at its two ends are cut |
| TypeNames.RemoveArrayPrefixUndecorated | src/main/java/dependency_checker/ClassPathDependencyChecker.java:134-145 | a name that starts with neither '[' nor 'L' and does not end in ';' comes back unchanged |
| TypeNames.StripArrayDimsOfRun | src/main/java/dependency_checker/ClassPathDependencyChecker.java:135-137 | stripping any number of leading '[' returns exactly what followed them |
| TypeNames.DescriptorRoundTrip | src/main/java/dependency_checker/ClassPathDependencyChecker.java:134-145 | normalisation inverts the field-descriptor spelling `[`…`[L`name`;` of an object type or an array of it, for every name and every number of dimensions |
| TypeNames.PrimitiveArrayIsJdk | src/main/java/dependency_checker/ClassPathDependencyChecker.java:134-145 | an array of a primitive type normalises to the primitive's letter, which the runtime filter excludes |
| TypeNames.LeadingLDropped | src/main/java/dependency_checker/ClassPathDependencyChecker.java:138-140 | one leading 'L' is removed from every name not ending in ';', whatever follows it |
| TypeNames.LeadingLNotJdk | src/main/java/dependency_checker/ClassPathDependencyChecker.java:183-189 | a name of two or more characters starting with 'L' is never a runtime name |
| TypeNames.RemoveArrayPrefixNotIdempotent | src/main/java/dependency_checker/ClassPathDependencyChecker.java:134-145 | normalisation is not idempotent: `LL`+x becomes `L`+x, and normalising again gives x |
| TypeNames.PlainNameLosesLeadingL | src/main/java/dependency_checker/ClassPathDependencyChecker.java:138-140 | a plain class name that begins with 'L' loses that letter (`Launcher` becomes `auncher`) |
| TypeNames.IsPrimitiveType | src/main/java/dependency_checker/ClassPathDependencyChecker.java:197-199 | a name is a primitive token exactly when it is one of the eight one-letter strings Z, B, C, S, I, F, D, J |
| TypeNames.StartsWithRootDot | src/main/java/dependency_checker/ClassPathDependencyChecker.java:184-187 | for a root without a dot, starting with root + "." is the same as having root as top-level package |
| TypeNames.IsJdkClass | src/main/java/dependency_checker/ClassPathDependencyChecker.java:183-189 | the runtime filter: the four prefix tests and the primitive test of `isJdkClass`; `JdkIffReservedRoot` proves it equal to "top-level package java, javax, jdk or sun, or a primitive token" |
| TypeNames.JdkIffReservedRoot | src/main/java/dependency_checker/ClassPathDependencyChecker.java:183-189 | the runtime filter holds exactly when the name's top-level package is java, javax, jdk or sun, or the name is a primitive token |
| TypeNames.JdkFilterExamples | src/main/java/dependency_checker/ClassPathDependencyChecker.java:183-199 | V, L and other letters outside ZBCSIFDJ, `java` alone and `javafx.Stage` are not runtime names; I and `java.lang.String` are |
| ArchiveStore.ClassFilePath | src/main/java/dependency_checker/ClassPathDependencyChecker.java:156 | the entry path has every '.' of the class name turned into '/', all other characters kept in place, and ends in `.class` |
| ArchiveStore.SearchFrom | src/main/java/dependency_checker/ClassPathDependencyChecker.java:157-174 | the search finds bytes exactly when some archive holds the path with only readable non-holders before it, and then returns that archive's bytes. It reports not found exactly when every remaining archive opens and lacks the path. It reports an I/O error exactly when an unreadable archive comes before any holder |
| ArchiveStore.GetClassBytes | src/main/java/dependency_checker/ClassPathDependencyChecker.java:155-175 | first-match lookup over the whole list: bytes of the first holder; not found (null) exactly when every archive opens and none holds the path; I/O error exactly when an unreadable archive is reached first |
| ArchiveStore.FoundComesFromAnArchive | src/main/java/dependency_checker/ClassPathDependencyChecker.java:159-169 | found bytes are the bytes stored at the class's path in one of the archives |
| ArchiveStore.LookupIgnoresOrder | src/main/java/dependency_checker/ClassPathDependencyChecker.java:157-174 | when every archive opens and all holders of the path agree on its bytes, any ordering of the same archives gives the same answer |
| ReferenceExtractor.OperandsOf | src/main/java/dependency_checker/ClassPathDependencyChecker.java:100-113 | the operands the visitor passes on are exactly the method owners, type operands, field owners and field descriptors of the instructions |
| ReferenceExtractor.Normalize | src/main/java/dependency_checker/ClassPathDependencyChecker.java:116-117 | an operand's dependency name: '/' replaced by '.', then `removeArrayPrefix`; `DescriptorOperandYieldsClassName` proves it turns any object or array descriptor into the dotted class name |
| ReferenceExtractor.NamedByCons | src/main/java/dependency_checker/ClassPathDependencyChecker.java:115-121 | the names a list of operands yields are those of its first operand plus those of the rest |
| ReferenceExtractor.AddDependencyIfNotJdk | src/main/java/dependency_checker/ClassPathDependencyChecker.java:115-121 | the set gains the operand's normalised name exactly when the filter keeps it, loses nothing, and never holds a name twice |
| ReferenceExtractor.AddAll | src/main/java/dependency_checker/ClassPathDependencyChecker.java:100-121 | after all operands the set holds its old names plus the normalised name of every operand that the filter keeps, and nothing else, without repeats |
| ReferenceExtractor.DirectDependencies | src/main/java/dependency_checker/ClassPathDependencyChecker.java:86-125 | a name is a dependency exactly when it normalises some operand of the code and is not a runtime name; no name is listed twice |
| ReferenceExtractor.DependenciesExcludeJdk | src/main/java/dependency_checker/ClassPathDependencyChecker.java:118-120 | the dependencies never contain a runtime name or primitive token |
| ReferenceExtractor.OperandYieldsDependency | src/main/java/dependency_checker/ClassPathDependencyChecker.java:100-121 | every operand of every instruction whose normalised name passes the filter is among the dependencies |
| ReferenceExtractor.DependenciesIgnoreOrder | src/main/java/dependency_checker/ClassPathDependencyChecker.java:100-121 | code with the same multiset of operands, in any order and spread over any instructions, yields the same dependency set |
| ReferenceExtractor.SingleTypeInsn | src/main/java/dependency_checker/ClassPathDependencyChecker.java:105-107 | a class whose code is one type instruction depends on the operand's normalised name alone, or on nothing if the filter drops it |
| ReferenceExtractor.OwnFieldAccessIsADependency | src/main/java/dependency_checker/ClassPathDependencyChecker.java:110-113 | a class reading its own field lists its own dotted name as a dependency, for every undecorated non-runtime name |
| ReferenceExtractor.DescriptorOperandYieldsClassName | src/main/java/dependency_checker/ClassPathDependencyChecker.java:110-117 | a field descriptor of an object type, or of an array of it, yields the dotted class name |
| Traversal.GetClassDependencies | src/main/java/dependency_checker/ClassPathDependencyChecker.java:86-125 | the fetch fails with an I/O error exactly when the lookup does, and is null exactly when the class is not found; it yields a dependency list exactly when the bytes are found and parse, and that list is the extractor's result on the parsed code; every fetched name is a stored dependency name, none a runtime name, none twice |
| Traversal.Unvisited | src/main/java/dependency_checker/ClassPathDependencyChecker.java:59-64 | the tasks are exactly the dependencies not yet visited, and there are none exactly when every dependency is visited |
| Traversal.CheckDependencies | src/main/java/dependency_checker/ClassPathDependencyChecker.java:28-37 | the entry point: a run from empty visited and dependency sets; `Verdicts.VerdictComplete` proves it answers true whenever every non-runtime class reachable through re-normalised names resolves, `Verdicts.VerdictSound` that a true answer means they all do (under stable names), and `Verdicts.IoErrorOnlyFromEntry` that an I/O error escapes only from the entry class's own lookup |
| Traversal.Collect | src/main/java/dependency_checker/ClassPathDependencyChecker.java:48-76 | the visited set only grows, and the recursion terminates on every classpath, cycles included |
| Traversal.CollectChildren | src/main/java/dependency_checker/ClassPathDependencyChecker.java:66-75 | the visited set only grows through the task loop |
| TraversalSteps.TasksOf | src/main/java/dependency_checker/ClassPathDependencyChecker.java:59-64 | a class's tasks are exactly its dependencies not in the visited set |
| TraversalSteps.NoTasksWhenAllVisited | src/main/java/dependency_checker/ClassPathDependencyChecker.java:59-64 | a class whose dependencies are all visited creates no task |
| TraversalSteps.SettledNameIsNoOp | src/main/java/dependency_checker/ClassPathDependencyChecker.java:49-53 | a call returns true with the state untouched exactly when its normalised name is already visited or is a runtime name |
| TraversalFacts.CollectDispatchesOnce | src/main/java/dependency_checker/ClassPathDependencyChecker.java:51-54 | during a call each name enters the visited set at most once, the log lists exactly the names that entered, none of them is a runtime name, and the call's own name is settled afterwards |
| TraversalFacts.ChildrenDispatchOnce | src/main/java/dependency_checker/ClassPathDependencyChecker.java:59-71 | the same for the task loop |
| TraversalFacts.CollectGathersDependencies | src/main/java/dependency_checker/ClassPathDependencyChecker.java:56-57 | after a call the dependency set is its initial value plus the dependency sets of exactly the classes visited during the call |
| TraversalFacts.ChildrenGatherDependencies | src/main/java/dependency_checker/ClassPathDependencyChecker.java:56-71 | the same for the task loop |
| TraversalClosure.CollectCloses | src/main/java/dependency_checker/ClassPathDependencyChecker.java:48-76 | a call that returns true leaves every class it visited fetched, with each of its dependencies visited, normalised-visited or a runtime name |
| TraversalClosure.ChildrenClose | src/main/java/dependency_checker/ClassPathDependencyChecker.java:66-75 | a task loop that returns true leaves the classes it visited closed as above and every task's name settled |
| TraversalClosure.CollectFailureWitness | src/main/java/dependency_checker/ClassPathDependencyChecker.java:66-74 | a call that does not return true visited some class that cannot be fetched |
| TraversalClosure.ChildrenFailureWitness | src/main/java/dependency_checker/ClassPathDependencyChecker.java:67-70 | the same for the task loop |
| TraversalClosure.CollectReaches | src/main/java/dependency_checker/ClassPathDependencyChecker.java:48-76 | every class a call visits is reachable from the call's normalised name through normalised dependencies |
| TraversalClosure.ChildrenReach | src/main/java/dependency_checker/ClassPathDependencyChecker.java:59-71 | every class the task loop visits is reachable from one of its tasks |
| TraversalClosure.StepThenReachable | src/main/java/dependency_checker/ClassPathDependencyChecker.java:59-62 | reachability extends backwards along one dependency edge |
| Verdicts.VerdictComplete | src/main/java/dependency_checker/ClassPathDependencyChecker.java:28-37 | if every non-runtime class reachable from the entry class through re-normalised names resolves, the answer is true, on every classpath; over the names the extractor returns the same needs stable names (see `FalseNegative.LostRenormalisedName`) |
| Verdicts.WalkStaysVisited | src/main/java/dependency_checker/ClassPathDependencyChecker.java:59-64 | under stable names, a walk from a visited class through a closed visited set ends in a visited class or a runtime name |
| Verdicts.VerdictSound | src/main/java/dependency_checker/ClassPathDependencyChecker.java:28-37 | under stable names, a true answer means every non-runtime class reachable from the entry class resolves |
| Verdicts.VerdictCharacterised | src/main/java/dependency_checker/ClassPathDependencyChecker.java:28-76 | under stable names the answer is true exactly when every non-runtime class reachable from the entry class resolves |
| Verdicts.ArchiveErrorIsOwnLookup | src/main/java/dependency_checker/ClassPathDependencyChecker.java:56 | a call ends in an I/O error exactly when its name is new, not a runtime name, and its own lookup meets an unreadable archive |
| Verdicts.IoErrorOnlyFromEntry | src/main/java/dependency_checker/ClassPathDependencyChecker.java:28-37 | `checkDependencies` throws exactly when the entry class's own lookup meets an unreadable archive |
| Verdicts.RunLog | src/main/java/dependency_checker/ClassPathDependencyChecker.java:29-33 | after a run the log lists each visited class exactly once and no visited class is a runtime name |
| Verdicts.RunDependencies | src/main/java/dependency_checker/ClassPathDependencyChecker.java:29-57 | after a run the dependency set is the union of the visited classes' dependency sets |
| Verdicts.RunInvariants | src/main/java/dependency_checker/ClassPathDependencyChecker.java:28-76 | both of the above, and every collected dependency is a stored, non-runtime name |
| Scenarios.SkippedNameLookups | src/main/java/dependency_checker/ClassPathDependencyChecker.java:155-175 | in the scenario's classpath `L`+x is found and x is not |
| Scenarios.SkippedNameCode | src/main/java/dependency_checker/ClassPathDependencyChecker.java:115-121 | the operand `LL`+x yields the one dependency `L`+x |
| Scenarios.SkippedNameFetches | src/main/java/dependency_checker/ClassPathDependencyChecker.java:86-92 | the class `L`+x depends on `L`+x, and x does not resolve |
| Scenarios.SkippedNameTasks | src/main/java/dependency_checker/ClassPathDependencyChecker.java:59-64 | once `L`+x is visited its one dependency makes no task |
| Scenarios.SkippedNameVerdict | src/main/java/dependency_checker/ClassPathDependencyChecker.java:28-76 | starting from `LL`+x the answer is true |
| Scenarios.SkippedNameReach | src/main/java/dependency_checker/ClassPathDependencyChecker.java:59-62 | x is reachable from the entry class |
| Scenarios.SkippedNameUnstable | src/main/java/dependency_checker/ClassPathDependencyChecker.java:117 | the stored dependency `L`+x is not in normal form |
| Scenarios.SkippedNormalisedName | src/main/java/dependency_checker/ClassPathDependencyChecker.java:48-76 | for every plain name x, a classpath where the answer is true although the reachable non-runtime class x does not resolve; it breaks the stable-names proviso, so the proviso of `VerdictSound` cannot be dropped |
| FalseNegative.PathsDiffer | src/main/java/dependency_checker/ClassPathDependencyChecker.java:156 | two different class names without '.' have different entry paths |
| FalseNegative.LostNameLookups | src/main/java/dependency_checker/ClassPathDependencyChecker.java:155-175 | in the scenario's classpath e and `L`+x are found and x is not |
| FalseNegative.LostNameCode | src/main/java/dependency_checker/ClassPathDependencyChecker.java:100-121 | the operand `[LLx;` yields the one dependency `L`+x, and empty code yields none |
| FalseNegative.LostNameFetches | src/main/java/dependency_checker/ClassPathDependencyChecker.java:86-92 | e depends on `L`+x, `L`+x depends on nothing, x is missing |
| FalseNegative.LostNameDirect | src/main/java/dependency_checker/ClassPathDependencyChecker.java:86-92 | e and `L`+x resolve, with dependency sets {`L`+x} and {}; x does not resolve |
| FalseNegative.LostChildFails | src/main/java/dependency_checker/ClassPathDependencyChecker.java:49-57 | the child call for `L`+x normalises it to x, finds nothing and fails |
| FalseNegative.LostNameVerdict | src/main/java/dependency_checker/ClassPathDependencyChecker.java:28-76 | starting from e the answer is false |
| FalseNegative.LostNameUnstable | src/main/java/dependency_checker/ClassPathDependencyChecker.java:116-117 | the stored dependency `L`+x is not in normal form |
| FalseNegative.LostNameReach | src/main/java/dependency_checker/ClassPathDependencyChecker.java:49 | x is reachable from e through re-normalised names |
| FalseNegative.LostRenormalisedName | src/main/java/dependency_checker/ClassPathDependencyChecker.java:28-76 | for all different plain names e and x, a classpath where every class the extractor names resolves and the answer is still false; it breaks the stable-names proviso, and x is reachable and missing in the graph `VerdictComplete` uses |

## Left out

- Class-file parsing (lines 94-124, the ASM `ClassReader` and visitor plumbing) is a parameter `parse` of the classpath. Its result is either the list of instructions the visitor listens to, or `Malformed` for bytes the reader rejects.
- Reading JAR files and copying entry streams (lines 158-170) is I/O. Archives are values: a map from entry path to bytes, or unreadable.
- The thread pool, `invokeAll`, `Future.get` and `shutdown` (lines 18, 35, 66-74) are concurrency. Tasks run one after the other in the order the extractor produced the dependencies. The visited-set check and insert is atomic. The unsynchronised `HashSet` race across threads is not modelled.
- `InterruptedException` and `ExecutionException` (lines 72-73) are not modelled. A task that fails in any way is a `false` result, which is what the catch yields.
- `invokeAll` runs every task of a node before the results are read. The model stops at the first task that does not return true. The verdict of the node is the same, but the final visited and dependency sets can be smaller in the model.
- A missing or unparsable entry class: in the code, `addAll(null)` at line 57 throws a `NullPointerException`, or the class reader throws. Both escape `checkDependencies`. The model answers `false`, as it does for the same case below the entry class, where the exception becomes `false`.
- The order of a `HashSet`'s iteration is not modelled. The dependency set is a list in order of first insertion, which fixes the task order. `DependenciesIgnoreOrder` states that the set itself does not depend on the order of the operands.
- The `main` method (lines 201-219) is argument handling and console output.
- Verdicts.VerdictComplete: stated over the graph of re-normalised names, which is the graph the traversal walks. The comment on `checkDependencies` promises true whenever the classes the program extracts are all present; that holds only under `StableNames`, and `FalseNegative.LostRenormalisedName` shows a classpath where it fails.
- Verdicts.VerdictCharacterised: the if-and-only-if holds only under `StableNames`, for the same reason as the line below: the code tests a dependency against the visited set before normalising it again. `Scenarios.SkippedNormalisedName` shows a classpath where the unqualified equivalence fails.
- Verdicts.VerdictSound: holds only under `StableNames`, because the code tests a dependency against the visited set before normalising it again. `Scenarios.SkippedNormalisedName` shows a classpath where the unqualified promise fails.
- ArchiveStore.LookupIgnoresOrder: assumes every archive opens and all holders of a path agree on its bytes. Otherwise the first match differs, or an unreadable archive is met first, depending on order.
