/**
 Type-name handling of the dependency checker: the string predicates the
 checker uses (`startsWith`, `endsWith`, `replace`), the normalisation that
 strips array and object decorations from a type name, and the filter that
 classifies a name as belonging to the Java runtime (or as a primitive token).
 */
module TypeNames {

  /** True iff `s` begins with `prefix` (Java's `String.startsWith`). */
  predicate StartsWith(s: string, prefix: string) {
    |prefix| <= |s| && s[..|prefix|] == prefix
  }

  /** True iff `s` ends with `suffix` (Java's `String.endsWith`). */
  predicate EndsWith(s: string, suffix: string) {
    |suffix| <= |s| && s[|s| - |suffix|..] == suffix
  }

  /** `n` copies of `c`. */
  function Repeat(c: char, n: nat): (r: string)
    ensures |r| == n
    ensures forall i :: 0 <= i < n ==> r[i] == c
  {
    if n == 0 then [] else [c] + Repeat(c, n - 1)
  }

  /** Every occurrence of `from` in `s` replaced by `to` (Java's `String.replace(char, char)`). */
  function ReplaceChar(s: string, from: char, to: char): (r: string)
    ensures |r| == |s|
    ensures forall i :: 0 <= i < |s| ==> r[i] == (if s[i] == from then to else s[i])
  {
    if |s| == 0 then []
    else [if s[0] == from then to else s[0]] + ReplaceChar(s[1..], from, to)
  }

  /** Replacing a character that does not occur changes nothing. */
  lemma ReplaceAbsent(s: string, from: char, to: char)
    requires from !in s
    ensures ReplaceChar(s, from, to) == s
  {
  }

  /** `r` occurs in `s` as a contiguous block starting at index `lo`. */
  predicate OccursAt(r: string, s: string, lo: int) {
    0 <= lo && lo + |r| <= |s| && s[lo..lo + |r|] == r
  }

  /** `r` is a contiguous substring of `s`. */
  ghost predicate IsSubstring(r: string, s: string) {
    exists lo :: OccursAt(r, s, lo)
  }

  /**
   The first step of `removeArrayPrefix`: drop every leading '['. The
   result is the suffix of `s` that follows a run of '[' and does not start
   with another one.
   */
  function StripArrayDims(s: string): (r: string)
    ensures |r| <= |s| && r == s[|s| - |r|..]
    ensures forall i :: 0 <= i < |s| - |r| ==> s[i] == '['
    ensures !StartsWith(r, "[")
    decreases |s|
  {
    if StartsWith(s, "[") then StripArrayDims(s[1..]) else s
  }

  /** `s` without its first character when that is `c`; otherwise `s`. */
  function DropLeading(s: string, c: char): (r: string)
    ensures r == if StartsWith(s, [c]) then s[1..] else s
  {
    if |s| > 0 && s[0] == c then s[1..] else s
  }

  /** `s` without its last character when that is `c`; otherwise `s`. */
  function DropTrailing(s: string, c: char): (r: string)
    ensures r == if EndsWith(s, [c]) then s[..|s| - 1] else s
  {
    if |s| > 0 && s[|s| - 1] == c then s[..|s| - 1] else s
  }

  /**
   `removeArrayPrefix`: strip every leading '[', then at most one leading
   'L', then at most one trailing ';'.
   */
  function RemoveArrayPrefix(typeName: string): (r: string)
    ensures |r| <= |typeName|
  {
    DropTrailing(DropLeading(StripArrayDims(typeName), 'L'), ';')
  }

  /** The normalised name is a block of the input: only decorations at its two ends are cut. */
  lemma RemoveArrayPrefixIsSubstring(typeName: string)
    ensures IsSubstring(RemoveArrayPrefix(typeName), typeName)
  {
    var noDims := StripArrayDims(typeName);
    var noL := DropLeading(noDims, 'L');
    DropLeadingIsSuffix(noDims, 'L');
    SuffixOfSuffix(typeName, noDims, noL);
    DropTrailingIsPrefix(noL, ';');
    BlockOfSuffix(typeName, noL, DropTrailing(noL, ';'));
  }

  lemma DropLeadingIsSuffix(s: string, c: char)
    ensures |DropLeading(s, c)| <= |s| && DropLeading(s, c) == s[|s| - |DropLeading(s, c)|..]
  {
  }

  lemma DropTrailingIsPrefix(s: string, c: char)
    ensures |DropTrailing(s, c)| <= |s| && DropTrailing(s, c) == s[..|DropTrailing(s, c)|]
  {
  }

  /** A suffix of a suffix of `t` is a suffix of `t`. */
  lemma SuffixOfSuffix(t: string, a: string, b: string)
    requires |a| <= |t| && a == t[|t| - |a|..]
    requires |b| <= |a| && b == a[|a| - |b|..]
    ensures b == t[|t| - |b|..]
  {
  }

  /** A prefix `b` of a suffix `a` of `t` occurs in `t` where `a` starts. */
  lemma BlockOfSuffix(t: string, a: string, b: string)
    requires |a| <= |t| && a == t[|t| - |a|..]
    requires |b| <= |a| && b == a[..|b|]
    ensures IsSubstring(b, t)
  {
    var lo := |t| - |a|;
    assert t[lo..][..|b|] == t[lo..lo + |b|];
    assert OccursAt(b, t, lo);
  }

  /** The one-character descriptors of the primitive types, as spelled in `isPrimitiveType`. */
  const PrimitiveCodes: string := "ZBCSIFDJ"

  /** The names `isPrimitiveType` accepts, listed one by one. */
  const PrimitiveTokens: set<string> := {"Z", "B", "C", "S", "I", "F", "D", "J"}

  /**
   `isPrimitiveType`: a one-character name whose character is one of
   `ZBCSIFDJ`. `V` (void) is not among them.
   */
  function IsPrimitiveType(internalName: string): (r: bool)
    ensures r <==> internalName in PrimitiveTokens
  {
    if |internalName| == 1 then
      var c := internalName[0];
      assert internalName == [c];
      c in PrimitiveCodes
    else
      assert forall t :: t in PrimitiveTokens ==> |t| == 1;
      false
  }

  /** The package roots whose classes the checker treats as part of the runtime. */
  const JdkRoots: set<string> := {"java", "javax", "jdk", "sun"}

  /** `isJdkClass`: one of the four reserved prefixes, or a primitive token. */
  predicate IsJdkClass(className: string) {
    || StartsWith(className, "java.")
    || StartsWith(className, "javax.")
    || StartsWith(className, "jdk.")
    || StartsWith(className, "sun.")
    || IsPrimitiveType(className)
  }

  /**
   The text of `n` before its first '.', or all of `n` when it has no '.'.
   For a qualified class name this is its top-level package.
   */
  function LeadingSegment(n: string): (r: string)
    ensures |r| <= |n| && r == n[..|r|]
    ensures '.' !in r
    ensures |r| < |n| ==> n[|r|] == '.'
  {
    if |n| == 0 || n[0] == '.' then [] else [n[0]] + LeadingSegment(n[1..])
  }

  /** True iff `n` contains a '.' and the text before the first one is `root`. */
  predicate HasTopLevelPackage(n: string, root: string) {
    var seg := LeadingSegment(n);
    |seg| < |n| && seg == root
  }

  /**
   The field-descriptor spelling of an object type with `dims` array
   dimensions, as in section 4.3.2 of the Java Virtual Machine
   Specification: `dims` times '[', then 'L', the name, and ';'.
   */
  function ArrayDescriptor(name: string, dims: nat): string {
    Repeat('[', dims) + "L" + name + ";"
  }

  /** A name that starts with none of '[' and 'L' and does not end in ';' comes back unchanged. */
  lemma RemoveArrayPrefixUndecorated(s: string)
    requires !StartsWith(s, "[") && !StartsWith(s, "L") && !EndsWith(s, ";")
    ensures RemoveArrayPrefix(s) == s
  {
  }

  /** A run of '[' in front of `rest`, with its first bracket taken off, is one bracket shorter. */
  lemma RunTail(rest: string, dims: nat)
    requires dims > 0
    ensures StartsWith(Repeat('[', dims) + rest, "[")
    ensures (Repeat('[', dims) + rest)[1..] == Repeat('[', dims - 1) + rest
  {
    var s := Repeat('[', dims) + rest;
    assert s[..1] == "[";
    assert Repeat('[', dims) == "[" + Repeat('[', dims - 1);
  }

  /** Stripping a run of '[' returns exactly what followed the run. */
  lemma {:induction false} StripArrayDimsOfRun(rest: string, dims: nat)
    requires !StartsWith(rest, "[")
    ensures StripArrayDims(Repeat('[', dims) + rest) == rest
  {
    if dims > 0 {
      RunTail(rest, dims);
      StripArrayDimsOfRun(rest, dims - 1);
    } else {
      assert Repeat('[', dims) + rest == rest;
    }
  }

  /** Normalisation inverts the descriptor spelling of an (array of) object type, for every name. */
  lemma {:induction false} DescriptorRoundTrip(name: string, dims: nat)
    ensures RemoveArrayPrefix(ArrayDescriptor(name, dims)) == name
  {
    var tail := "L" + name + ";";
    assert ArrayDescriptor(name, dims) == Repeat('[', dims) + tail;
    assert !StartsWith(tail, "[") by { assert tail[..1] == "L"; }
    StripArrayDimsOfRun(tail, dims);
    DescriptorTail(name);
  }

  /** Dropping the 'L' and the ';' of `L` + name + `;` leaves the name. */
  lemma DescriptorTail(name: string)
    ensures DropTrailing(DropLeading("L" + name + ";", 'L'), ';') == name
  {
    var tail := "L" + name + ";";
    assert tail[..1] == "L";
    assert tail[1..] == name + ";";
    var semi := name + ";";
    assert semi[|semi| - 1..] == ";";
    assert semi[..|semi| - 1] == name;
  }

  /**
   An array of a primitive type normalises to the primitive's one-letter
   token, which the runtime filter excludes.
   */
  lemma {:induction false} PrimitiveArrayIsJdk(code: char, dims: nat)
    requires code in PrimitiveCodes
    ensures RemoveArrayPrefix(Repeat('[', dims) + [code]) == [code]
    ensures IsJdkClass([code])
  {
    assert [code][..1] == [code];
    StripArrayDimsOfRun([code], dims);
    assert code != 'L' && code != ';';
  }

  /** One leading 'L' is dropped from any name that does not end in ';', whatever follows it. */
  lemma LeadingLDropped(rest: string)
    requires !EndsWith(rest, ";")
    ensures RemoveArrayPrefix("L" + rest) == rest
  {
    var s := "L" + rest;
    assert s[..1] == "L";
    assert s[1..] == rest;
  }

  /** A name of two or more characters that starts with 'L' is never a runtime name. */
  lemma LeadingLNotJdk(rest: string)
    requires |rest| > 0
    ensures !IsJdkClass("L" + rest)
  {
    var s := "L" + rest;
    assert s[0] == 'L';
  }

  /** `removeArrayPrefix` is not idempotent: each application strips one more 'L'. */
  lemma RemoveArrayPrefixNotIdempotent(x: string)
    requires !EndsWith(x, ";")
    ensures RemoveArrayPrefix("LL" + x) == "L" + x
    ensures RemoveArrayPrefix(RemoveArrayPrefix("LL" + x)) == x
    ensures RemoveArrayPrefix(RemoveArrayPrefix("LL" + x)) != RemoveArrayPrefix("LL" + x)
  {
    assert "LL" + x == "L" + ("L" + x);
    var lx := "L" + x;
    if |x| > 0 {
      assert lx[|lx| - 1..] == x[|x| - 1..];
    } else {
      assert lx[|lx| - 1..] == "L";
    }
    LeadingLDropped(lx);
    LeadingLDropped(x);
  }

  /**
   The leading 'L' is stripped from plain names too: a class in the
   default package whose name begins with 'L' loses its first letter.
   */
  lemma PlainNameLosesLeadingL()
    ensures RemoveArrayPrefix("Launcher") == "auncher"
  {
    assert "Launcher"[..1] == "L";
    assert "Launcher"[1..] == "auncher";
  }

  /** For a dot-free `root`, starting with `root + "."` means having `root` as top-level package. */
  lemma StartsWithRootDot(n: string, root: string)
    requires '.' !in root
    ensures StartsWith(n, root + ".") <==> HasTopLevelPackage(n, root)
  {
    var seg := LeadingSegment(n);
    if StartsWith(n, root + ".") {
      assert n[|root|] == (root + ".")[|root|] == '.';
      assert n[..|root|] == (root + ".")[..|root|] == root;
      if |seg| < |root| {
        assert false;
      } else if |seg| > |root| {
        assert false;
      }
    }
    if HasTopLevelPackage(n, root) {
      assert n[..|root| + 1] == root + ".";
    }
  }

  /**
   The runtime filter, restated: a name is excluded exactly when its
   top-level package is `java`, `javax`, `jdk` or `sun`, or it is one of
   the eight primitive tokens.
   */
  lemma JdkIffReservedRoot(n: string)
    ensures IsJdkClass(n) <==>
      (|LeadingSegment(n)| < |n| && LeadingSegment(n) in JdkRoots) || n in PrimitiveTokens
  {
    ReservedPrefixes(n);
    ReservedRoots(n);
  }

  /** The four prefixes of `isJdkClass` are the four roots followed by '.'. */
  lemma ReservedPrefixes(n: string)
    ensures StartsWith(n, "java.") <==> HasTopLevelPackage(n, "java")
    ensures StartsWith(n, "javax.") <==> HasTopLevelPackage(n, "javax")
    ensures StartsWith(n, "jdk.") <==> HasTopLevelPackage(n, "jdk")
    ensures StartsWith(n, "sun.") <==> HasTopLevelPackage(n, "sun")
  {
    StartsWithRootDot(n, "java");
    StartsWithRootDot(n, "javax");
    StartsWithRootDot(n, "jdk");
    StartsWithRootDot(n, "sun");
    assert "java" + "." == "java.";
    assert "javax" + "." == "javax.";
    assert "jdk" + "." == "jdk.";
    assert "sun" + "." == "sun.";
  }

  /** Having a top-level package in `JdkRoots` is having one of the four roots as top-level package. */
  lemma ReservedRoots(n: string)
    ensures (|LeadingSegment(n)| < |n| && LeadingSegment(n) in JdkRoots) <==>
      HasTopLevelPackage(n, "java") || HasTopLevelPackage(n, "javax") ||
      HasTopLevelPackage(n, "jdk") || HasTopLevelPackage(n, "sun")
  {
  }

  /** `V` (void) and other single letters outside `ZBCSIFDJ` are not runtime names; `java.lang.String` is. */
  lemma JdkFilterExamples()
    ensures !IsJdkClass("V") && !IsJdkClass("L") && !IsJdkClass("X")
    ensures IsJdkClass("I") && IsJdkClass("java.lang.String")
    ensures !IsJdkClass("javafx.Stage") && !IsJdkClass("java")
  {
    assert "java.lang.String"[..5] == "java.";
    assert "javafx.Stage"[..5][4] == 'f';
    assert "javafx.Stage"[..6][5] == 'x';
    assert "javafx.Stage"[..4][2] == 'v';
  }
}
