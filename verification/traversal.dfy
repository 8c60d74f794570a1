/**
 The traversal engine (`checkDependencies` / `collectAllDependencies`),
 run sequentially: a node's children are visited one after the other, in
 the order the extractor first produced them, and the first child that
 does not resolve makes its parent fail without visiting the rest.

 The visited set and the dependency set are threaded through the calls as
 one `State`; `log` records the names in the order they entered the
 visited set, which is what "dispatched" means below.
 */
module Traversal {
  import opened TypeNames
  import opened ArchiveStore
  import opened ReferenceExtractor

  /** The classpath: the archives in search order, and how class bytes parse into instructions. */
  datatype Env = Env(archives: seq<Archive>, parse: Bytes -> ParseResult)

  datatype State = State(visited: set<string>, deps: set<string>, log: seq<string>)

  /** How one call of `collectAllDependencies` ends. */
  datatype Outcome =
    | Resolved      // returned true
    | Failed        // returned false, or its task failed with a non-I/O exception
    | ArchiveError  // an archive could not be opened: `IOException`

  /** The answer of `checkDependencies`: a boolean, or the `IOException` it throws. */
  datatype Answer = Verdict(allFound: bool) | IoError

  /** What `getClassDependencies` gives for a class. */
  datatype Fetch =
    | Deps(direct: seq<string>)  // the class's dependency set
    | Missing                    // null: no archive holds the class
    | Unparsable                 // the class reader rejected the bytes
    | ArchiveFault               // an archive could not be opened

  /**
   Every dependency name of every class stored in a readable archive. The
   names a traversal can visit are among these (normalised), plus its
   entry class; this bounds the recursion.
   */
  ghost function ArchiveDependencies(env: Env): set<string> {
    set i, p, d | 0 <= i < |env.archives| && env.archives[i].Readable? && p in env.archives[i].entries
                  && env.parse(env.archives[i].entries[p]).Parsed?
                  && d in DirectDependencies(env.parse(env.archives[i].entries[p]).code) :: d
  }

  /** The names a traversal can visit besides its entry class: the normalised forms of `ArchiveDependencies(env)`. */
  ghost function VisitableNames(env: Env): set<string> {
    set d | d in ArchiveDependencies(env) :: RemoveArrayPrefix(d)
  }

  /**
   `getClassDependencies`: look the class up and extract its dependencies.
   Whatever it returns for a found class is drawn from the archives' contents
   and contains no runtime name.
   */
  function GetClassDependencies(env: Env, className: string): (r: Fetch)
    ensures r.Deps? ==> forall d :: d in r.direct ==> d in ArchiveDependencies(env) && !IsJdkClass(d)
    ensures r.Deps? ==> NoDuplicates(r.direct)
    ensures r == ArchiveFault <==> GetClassBytes(className, env.archives) == ArchiveUnreadable
    ensures r == Missing <==> GetClassBytes(className, env.archives) == NotFound
    ensures r.Deps? <==> GetClassBytes(className, env.archives).Found? &&
                         env.parse(GetClassBytes(className, env.archives).bytes).Parsed?
    ensures r.Deps? ==> r.direct == DirectDependencies(env.parse(GetClassBytes(className, env.archives).bytes).code)
  {
    match GetClassBytes(className, env.archives)
    case ArchiveUnreadable => ArchiveFault
    case NotFound => Missing
    case Found(bytes) =>
      match env.parse(bytes)
      case Malformed => Unparsable
      case Parsed(code) =>
        FoundComesFromAnArchive(className, env.archives);
        var direct := DirectDependencies(code);
        assert forall d :: d in direct ==> d in ArchiveDependencies(env);
        Deps(direct)
  }

  /** The class can be fetched and parsed, so the traversal can go on from it. */
  predicate Resolves(env: Env, className: string) {
    GetClassDependencies(env, className).Deps?
  }

  /** The dependency set of a class, empty when it cannot be fetched. */
  function DirectOf(env: Env, className: string): set<string> {
    match GetClassDependencies(env, className)
    case Deps(direct) => set d | d in direct
    case _ => {}
  }

  /** The dependencies of `deps` that the visited set does not yet hold: the tasks the loop creates. */
  function Unvisited(deps: seq<string>, visited: set<string>): (r: seq<string>)
    ensures forall d :: d in r <==> d in deps && d !in visited
    ensures r == [] <==> forall d :: d in deps ==> d in visited
  {
    if |deps| == 0 then []
    else (if deps[0] in visited then [] else [deps[0]]) + Unvisited(deps[1..], visited)
  }

  /**
   `collectAllDependencies` for one name. The name is normalised; a
   visited or runtime name is done at once; otherwise the name is marked
   visited, its dependencies are fetched and merged into the dependency
   set, and the unvisited ones are explored in turn.
   */
  function Collect(env: Env, className: string, st: State): (res: (Outcome, State))
    ensures st.visited <= res.1.visited
    decreases VisitableNames(env) + {RemoveArrayPrefix(className)} - st.visited, 0, 0
  {
    var name := RemoveArrayPrefix(className);
    if name in st.visited || IsJdkClass(name) then (Resolved, st)
    else
      var marked := st.(visited := st.visited + {name}, log := st.log + [name]);
      match GetClassDependencies(env, name)
      case ArchiveFault => (ArchiveError, marked)
      case Missing => (Failed, marked)
      case Unparsable => (Failed, marked)
      case Deps(direct) =>
        var merged := marked.(deps := marked.deps + (set d | d in direct));
        var tasks := Unvisited(direct, merged.visited);
        var children := CollectChildren(env, tasks, merged);
        (if children.0 then Resolved else Failed, children.1)
  }

  /**
   The tasks of one node, run in order: true when every child resolves;
   false at the first child that does not, whatever the reason.
   */
  function CollectChildren(env: Env, tasks: seq<string>, st: State): (res: (bool, State))
    requires forall t :: t in tasks ==> t in ArchiveDependencies(env)
    ensures st.visited <= res.1.visited
    decreases VisitableNames(env) - st.visited, 1, |tasks|
  {
    if |tasks| == 0 then (true, st)
    else
      var first := RemoveArrayPrefix(tasks[0]);
      assert first in VisitableNames(env);
      AddingKnownName(VisitableNames(env), first, st.visited);
      var child := Collect(env, tasks[0], st);
      GrowingVisited(VisitableNames(env), st.visited, child.1.visited);
      if child.0 != Resolved then (false, child.1)
      else CollectChildren(env, tasks[1..], child.1)
  }

  /** Adding a name the measure already counts leaves the termination measure as it is. */
  lemma AddingKnownName(names: set<string>, first: string, visited: set<string>)
    requires first in names
    ensures names + {first} - visited == names - visited
  {
  }

  /** The termination measure does not grow when the visited set grows. */
  lemma GrowingVisited(names: set<string>, visited: set<string>, later: set<string>)
    requires visited <= later
    ensures names - later <= names - visited
    ensures names - later == names - visited || names - later < names - visited
  {
  }

  /** The empty visited and dependency sets a top-level call starts from. */
  const Initial: State := State({}, {}, [])

  /**
   `checkDependencies`: traverse from the entry class. An `IOException`
   from the entry class's own lookup reaches the caller; every other
   failure is a `false` verdict.
   */
  function CheckDependencies(env: Env, mainClassName: string): Answer {
    match Collect(env, mainClassName, Initial).0
    case Resolved => Verdict(true)
    case Failed => Verdict(false)
    case ArchiveError => IoError
  }
}
