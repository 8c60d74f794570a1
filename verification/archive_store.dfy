/**
 The archive store (`getClassBytes`): given a class name and an ordered
 list of archives, return the bytes of the first entry found under the
 class-file path derived from the name.

 An archive is either readable, with its entries as a map from entry path
 to bytes, or unreadable; opening an unreadable archive is what raises
 `IOException` in `getClassBytes`, and the search reaches it only when no
 earlier archive held the entry.
 */
module ArchiveStore {
  import opened TypeNames

  type Byte = bv8
  type Bytes = seq<Byte>

  datatype Archive = Readable(entries: map<string, Bytes>) | Unreadable

  /** The outcome of one lookup: the entry's bytes, "not found" (`getClassBytes` returns null), or an I/O error. */
  datatype Lookup = Found(bytes: Bytes) | NotFound | ArchiveUnreadable

  /** The entry path of a class: its name with '.' turned into '/', followed by `.class`. */
  function ClassFilePath(className: string): (path: string)
    ensures |path| == |className| + 6
    ensures path[|className|..] == ".class"
    ensures forall i :: 0 <= i < |className| ==>
      path[i] == (if className[i] == '.' then '/' else className[i])
  {
    ReplaceChar(className, '.', '/') + ".class"
  }

  /** The archive opens and has an entry at `path`. */
  predicate Holds(a: Archive, path: string) {
    a.Readable? && path in a.entries
  }

  /** The archive opens and has no entry at `path`: the search moves on past it. */
  predicate Passes(a: Archive, path: string) {
    a.Readable? && path !in a.entries
  }

  /** Every archive with index in `[from, upto)` is passed over for `path`. */
  predicate ClearBetween(archives: seq<Archive>, path: string, from: nat, upto: nat)
    requires from <= upto <= |archives|
  {
    forall m :: from <= m < upto ==> Passes(archives[m], path)
  }

  /** Archive `j` is the first one from index `from` on that holds `path`. */
  predicate FirstHolder(archives: seq<Archive>, path: string, from: nat, j: int) {
    && from <= j < |archives|
    && Holds(archives[j], path)
    && ClearBetween(archives, path, from, j)
  }

  /** Archive `j` is unreadable and reached by the search from index `from`. */
  predicate FirstFault(archives: seq<Archive>, path: string, from: nat, j: int) {
    && from <= j < |archives|
    && archives[j].Unreadable?
    && ClearBetween(archives, path, from, j)
  }

  /** Once archive `from` is passed over, the search from `from` and the search from `next` (its successor) hit the same archives. */
  lemma SkipPassedArchive(archives: seq<Archive>, path: string, from: nat, next: nat)
    requires next == from + 1 <= |archives| && Passes(archives[from], path)
    ensures (exists j :: FirstHolder(archives, path, from, j)) <==> (exists j :: FirstHolder(archives, path, next, j))
    ensures forall j :: FirstHolder(archives, path, from, j) <==> FirstHolder(archives, path, next, j)
    ensures (exists j :: FirstFault(archives, path, from, j)) <==> (exists j :: FirstFault(archives, path, next, j))
    ensures ClearBetween(archives, path, from, |archives|) <==> ClearBetween(archives, path, next, |archives|)
  {
    forall j | next <= j <= |archives|
      ensures ClearBetween(archives, path, from, j) <==> ClearBetween(archives, path, next, j)
    {
      if ClearBetween(archives, path, next, j) {
        forall m | from <= m < j ensures Passes(archives[m], path) {
          if m > from {
            assert next <= m < j;
          }
        }
      }
    }
    if j :| FirstHolder(archives, path, from, j) {
      assert FirstHolder(archives, path, next, j);
    }
    if j :| FirstHolder(archives, path, next, j) {
      assert FirstHolder(archives, path, from, j);
    }
    if j :| FirstFault(archives, path, from, j) {
      assert FirstFault(archives, path, next, j);
    }
    if j :| FirstFault(archives, path, next, j) {
      assert FirstFault(archives, path, from, j);
    }
  }

  /** The loop over archives of `getClassBytes`, from index `from` on. */
  function SearchFrom(archives: seq<Archive>, path: string, from: nat): (r: Lookup)
    requires from <= |archives|
    ensures r.Found? <==> exists j :: FirstHolder(archives, path, from, j)
    ensures forall j :: FirstHolder(archives, path, from, j) ==> r == Found(archives[j].entries[path])
    ensures r == NotFound <==> ClearBetween(archives, path, from, |archives|)
    ensures r == ArchiveUnreadable <==> exists j :: FirstFault(archives, path, from, j)
    decreases |archives| - from
  {
    if from == |archives| then NotFound
    else match archives[from]
      case Unreadable =>
        assert FirstFault(archives, path, from, from);
        ArchiveUnreadable
      case Readable(entries) =>
        if path in entries then
          assert FirstHolder(archives, path, from, from);
          Found(entries[path])
        else
          SkipPassedArchive(archives, path, from, from + 1);
          SearchFrom(archives, path, from + 1)
  }

  /**
   `getClassBytes`: the bytes of the entry at the class's path in the first
   archive, in list order, that holds it; "not found" exactly when every
   archive opens and none holds it; an I/O error exactly when an unreadable
   archive comes before any archive that holds it.
   */
  function GetClassBytes(className: string, archives: seq<Archive>): (r: Lookup)
    ensures r.Found? <==> exists j :: FirstHolder(archives, ClassFilePath(className), 0, j)
    ensures forall j :: FirstHolder(archives, ClassFilePath(className), 0, j) ==>
      r == Found(archives[j].entries[ClassFilePath(className)])
    ensures r == NotFound <==>
      forall j :: 0 <= j < |archives| ==> Passes(archives[j], ClassFilePath(className))
    ensures r == ArchiveUnreadable <==> exists j :: FirstFault(archives, ClassFilePath(className), 0, j)
  {
    SearchFrom(archives, ClassFilePath(className), 0)
  }

  /** A found class's bytes are the bytes stored at its path in one of the archives. */
  lemma FoundComesFromAnArchive(className: string, archives: seq<Archive>)
    requires GetClassBytes(className, archives).Found?
    ensures exists j :: 0 <= j < |archives| && Holds(archives[j], ClassFilePath(className)) &&
                        archives[j].entries[ClassFilePath(className)] == GetClassBytes(className, archives).bytes
  {
    var j :| FirstHolder(archives, ClassFilePath(className), 0, j);
  }

  /**
   When every archive opens and every archive that holds the class's path
   holds the same bytes there, the order of the archives does not matter:
   any list of the same archives gives the same answer.
   */
  lemma {:induction false} LookupIgnoresOrder(className: string, a1: seq<Archive>, a2: seq<Archive>)
    requires forall a :: a in a1 <==> a in a2
    requires forall a :: a in a1 ==> a.Readable?
    requires forall a, b :: a in a1 && b in a1 && Holds(a, ClassFilePath(className)) && Holds(b, ClassFilePath(className))
                           ==> a.entries[ClassFilePath(className)] == b.entries[ClassFilePath(className)]
    ensures GetClassBytes(className, a1) == GetClassBytes(className, a2)
  {
    var path := ClassFilePath(className);
    var r1 := GetClassBytes(className, a1);
    var r2 := GetClassBytes(className, a2);
    forall j | 0 <= j < |a1| ensures a1[j].Readable? {
      assert a1[j] in a1;
    }
    forall k | 0 <= k < |a2| ensures a2[k].Readable? && a2[k] in a1 {
      assert a2[k] in a2;
    }
    assert r1 != ArchiveUnreadable && r2 != ArchiveUnreadable;
    if exists j :: 0 <= j < |a1| && Holds(a1[j], path) {
      var j :| 0 <= j < |a1| && Holds(a1[j], path);
      assert a1[j] in a2;
      var k :| 0 <= k < |a2| && a2[k] == a1[j];
      assert !Passes(a1[j], path) && !Passes(a2[k], path);
      assert r1.Found? && r2.Found?;
      var j1 :| FirstHolder(a1, path, 0, j1);
      var k2 :| FirstHolder(a2, path, 0, k2);
      assert a1[j1] in a1 && a2[k2] in a1;
    } else {
      assert r1 == NotFound;
      forall k | 0 <= k < |a2| ensures Passes(a2[k], path) {
        var j :| 0 <= j < |a1| && a1[j] == a2[k];
      }
    }
  }
}
