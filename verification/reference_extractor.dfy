/**
 The reference extractor (`getClassDependencies` without the class-file
 parser): a compiled class is given as the list of its method-body
 instructions that carry type operands, and each operand is turned into a
 dependency name the way `addDependencyIfNotJdk` does it.
 */
module ReferenceExtractor {
  import opened TypeNames

  /**
   The three instruction kinds the method visitor listens to: a method
   call (its owner), a type instruction (`NEW`, `ANEWARRAY`, `CHECKCAST`,
   `INSTANCEOF`; its operand) and a field access (its owner and its
   descriptor). Names are in internal form, with '/' between packages.
   */
  datatype Insn =
    | MethodInsn(owner: string)
    | TypeInsn(operand: string)
    | FieldInsn(owner: string, descriptor: string)

  /** What parsing the bytes of a class yields: its instructions, or a parse failure. */
  datatype ParseResult = Parsed(code: seq<Insn>) | Malformed

  /** The operands of one instruction, in the order the visitor passes them on. */
  function InsnOperands(insn: Insn): seq<string> {
    match insn
    case MethodInsn(owner) => [owner]
    case TypeInsn(operand) => [operand]
    case FieldInsn(owner, descriptor) => [owner, descriptor]
  }

  /** The operands of a whole instruction list, instruction by instruction. */
  function OperandsOf(code: seq<Insn>): (ops: seq<string>)
    ensures forall o :: o in ops <==> exists i :: 0 <= i < |code| && o in InsnOperands(code[i])
  {
    if |code| == 0 then []
    else
      var ops := InsnOperands(code[0]) + OperandsOf(code[1..]);
      assert forall i :: 1 <= i < |code| ==> code[i] == code[1..][i - 1];
      ops
  }

  /** The dependency name of an operand: '/' becomes '.', then array and object decorations go. */
  function Normalize(internalName: string): string {
    RemoveArrayPrefix(ReplaceChar(internalName, '/', '.'))
  }

  /** `d` is the normalised form of some operand in `ops`. */
  ghost predicate NamedBy(ops: seq<string>, d: string) {
    exists k :: 0 <= k < |ops| && Normalize(ops[k]) == d
  }

  /** The names an operand list yields are those of its first operand and those of the rest. */
  lemma NamedByCons(ops: seq<string>)
    requires |ops| > 0
    ensures forall d :: NamedBy(ops, d) <==> d == Normalize(ops[0]) || NamedBy(ops[1..], d)
  {
    NamedByHeadOrTail(ops);
    NamedByTail(ops);
    assert NamedBy(ops, Normalize(ops[0]));
  }

  /** A name the list yields comes from its first operand or from the rest. */
  lemma NamedByHeadOrTail(ops: seq<string>)
    requires |ops| > 0
    ensures forall d :: NamedBy(ops, d) ==> d == Normalize(ops[0]) || NamedBy(ops[1..], d)
  {
    forall d | NamedBy(ops, d) ensures d == Normalize(ops[0]) || NamedBy(ops[1..], d) {
      var k :| 0 <= k < |ops| && Normalize(ops[k]) == d;
      if k > 0 {
        assert ops[1..][k - 1] == ops[k];
      }
    }
  }

  /** A name the rest of the list yields, the whole list yields. */
  lemma NamedByTail(ops: seq<string>)
    requires |ops| > 0
    ensures forall d :: NamedBy(ops[1..], d) ==> NamedBy(ops, d)
  {
    forall d | NamedBy(ops[1..], d) ensures NamedBy(ops, d) {
      var k :| 0 <= k < |ops[1..]| && Normalize(ops[1..][k]) == d;
      assert ops[k + 1] == ops[1..][k];
    }
  }

  /** No element occurs twice. */
  predicate NoDuplicates(s: seq<string>) {
    forall i, j :: 0 <= i < j < |s| ==> s[i] != s[j]
  }

  /**
   `addDependencyIfNotJdk`: add the operand's normalised name unless the
   runtime filter excludes it. The dependency set is kept as a list without
   repeats, in order of first insertion.
   */
  function AddDependencyIfNotJdk(deps: seq<string>, internalName: string): (r: seq<string>)
    requires NoDuplicates(deps)
    ensures NoDuplicates(r)
    ensures deps <= r
    ensures forall d :: d in r <==> d in deps || (d == Normalize(internalName) && !IsJdkClass(d))
  {
    var d := Normalize(internalName);
    if IsJdkClass(d) || d in deps then deps else deps + [d]
  }

  /** `addDependencyIfNotJdk` applied to each operand of `ops` in turn. */
  function AddAll(deps: seq<string>, ops: seq<string>): (r: seq<string>)
    requires NoDuplicates(deps)
    ensures NoDuplicates(r)
    ensures deps <= r
    ensures forall d :: d in r <==> d in deps || (NamedBy(ops, d) && !IsJdkClass(d))
    decreases |ops|
  {
    if |ops| == 0 then deps
    else
      NamedByCons(ops);
      AddAll(AddDependencyIfNotJdk(deps, ops[0]), ops[1..])
  }

  /**
   The dependencies of a class: the normalised form of every method-call
   owner, type operand, field owner and field descriptor in its code, minus
   the names the runtime filter excludes, each once.
   */
  function DirectDependencies(code: seq<Insn>): (r: seq<string>)
    ensures NoDuplicates(r)
    ensures forall d :: d in r <==> NamedBy(OperandsOf(code), d) && !IsJdkClass(d)
  {
    AddAll([], OperandsOf(code))
  }

  /** The dependency set never holds a runtime name or a primitive token. */
  lemma DependenciesExcludeJdk(code: seq<Insn>)
    ensures forall d :: d in DirectDependencies(code) ==> !IsJdkClass(d)
  {
  }

  /** A normalised operand that the filter keeps is always among the dependencies. */
  lemma {:induction false} OperandYieldsDependency(code: seq<Insn>, i: int, o: string)
    requires 0 <= i < |code| && o in InsnOperands(code[i])
    requires !IsJdkClass(Normalize(o))
    ensures Normalize(o) in DirectDependencies(code)
  {
    var ops := OperandsOf(code);
    assert o in ops;
    var k :| 0 <= k < |ops| && ops[k] == o;
    assert NamedBy(ops, Normalize(o));
  }

  /**
   The dependency set depends only on the multiset of operands, not on the
   order of the instructions or on which instruction carried an operand.
   */
  lemma {:induction false} DependenciesIgnoreOrder(a: seq<Insn>, b: seq<Insn>)
    requires multiset(OperandsOf(a)) == multiset(OperandsOf(b))
    ensures forall d :: d in DirectDependencies(a) <==> d in DirectDependencies(b)
  {
    SameOperandsSameNames(OperandsOf(a), OperandsOf(b));
  }

  /** Operand lists with the same multiset of operands yield the same names. */
  lemma SameOperandsSameNames(oa: seq<string>, ob: seq<string>)
    requires multiset(oa) == multiset(ob)
    ensures forall d :: NamedBy(oa, d) <==> NamedBy(ob, d)
  {
    forall d | NamedBy(oa, d) ensures NamedBy(ob, d) {
      var k :| 0 <= k < |oa| && Normalize(oa[k]) == d;
      assert oa[k] in multiset(ob);
      var m :| 0 <= m < |ob| && ob[m] == oa[k];
    }
    forall d | NamedBy(ob, d) ensures NamedBy(oa, d) {
      var k :| 0 <= k < |ob| && Normalize(ob[k]) == d;
      assert ob[k] in multiset(oa);
      var m :| 0 <= m < |oa| && oa[m] == ob[k];
    }
  }

  /** The code of a class with one type instruction depends on the operand's normalised name alone, unless the filter drops it. */
  lemma SingleTypeInsn(operand: string)
    ensures DirectDependencies([TypeInsn(operand)]) ==
            if IsJdkClass(Normalize(operand)) then [] else [Normalize(operand)]
  {
    var code := [TypeInsn(operand)];
    assert code[1..] == [];
    assert OperandsOf(code[1..]) == [];
    assert InsnOperands(code[0]) == [operand];
    var ops := OperandsOf(code);
    assert ops == [operand] + [];
    assert ops[1..] == [];
    assert AddAll([], ops) == AddAll(AddDependencyIfNotJdk([], operand), []);
  }

  /**
   A class that reads one of its own fields lists itself as a dependency:
   the field owner is the class's own internal name, and normalising it
   gives back the class's dotted name whenever that name is not a runtime
   name and carries none of the decorations normalisation strips.
   */
  lemma OwnFieldAccessIsADependency(internalName: string, descriptor: string)
    requires |internalName| > 0
    requires internalName[0] != '[' && internalName[0] != 'L' && internalName[|internalName| - 1] != ';'
    requires !IsJdkClass(ReplaceChar(internalName, '/', '.'))
    ensures ReplaceChar(internalName, '/', '.') in DirectDependencies([FieldInsn(internalName, descriptor)])
  {
    UndecoratedOperand(internalName);
    OperandYieldsDependency([FieldInsn(internalName, descriptor)], 0, internalName);
  }

  /** An operand with no leading '[' or 'L' and no trailing ';' normalises to its dotted spelling. */
  lemma UndecoratedOperand(internalName: string)
    requires |internalName| > 0
    requires internalName[0] != '[' && internalName[0] != 'L' && internalName[|internalName| - 1] != ';'
    ensures Normalize(internalName) == ReplaceChar(internalName, '/', '.')
  {
    var dotted := ReplaceChar(internalName, '/', '.');
    var last := |dotted| - 1;
    assert dotted[0] != '[' && dotted[0] != 'L' && dotted[last] != ';';
    assert !StartsWith(dotted, "[") && !StartsWith(dotted, "L") by {
      assert dotted[..1][0] == dotted[0];
    }
    assert !EndsWith(dotted, ";") by {
      assert dotted[last..][0] == dotted[last];
    }
    RemoveArrayPrefixUndecorated(dotted);
  }

  /**
   An operand spelled as a field descriptor of an object type, or of an
   array of it with any number of dimensions, yields the dotted class name.
   */
  lemma {:induction false} DescriptorOperandYieldsClassName(internalName: string, dims: nat)
    ensures Normalize(ArrayDescriptor(internalName, dims)) == ReplaceChar(internalName, '/', '.')
  {
    var dotted := ReplaceChar(internalName, '/', '.');
    assert ReplaceChar(ArrayDescriptor(internalName, dims), '/', '.') == ArrayDescriptor(dotted, dims);
    DescriptorRoundTrip(dotted, dims);
  }
}
