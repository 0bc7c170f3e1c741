/** What the link passes accept: exactly the relocations they can carry out. */
module LinkChecks {
  import opened Words
  import opened Fusion
  import opened Layout
  import opened Simulation
  import opened OpWords
  import opened Transcoder
  import opened Linking

  /** The number of the op formed at byte address a. */
  function CodeAt(p: Prog, a: Word): nat {
    OpCode(Step(p, InsnOf(a)).op)
  }

  /** All three places have map entries, an auipc stands at the first, and at the second an op
      with a low 16-bit immediate, a store where one is called for. */
  ghost predicate FixAccepted(p: Prog, f: Fixup) {
    && HasEntry(p, f.hi) && HasEntry(p, f.lo) && HasEntry(p, f.sym)
    && CodeAt(p, f.hi) == 44 && Imm16Low(CodeAt(p, f.lo)) && (f.loIsStore ==> CodeAt(p, f.lo) == 34)
  }

  /** The data auipc named, if it still stands as one, forms a constant in reach. */
  ghost predicate RefAccepted(p: Prog, r: DataRef) {
    var i := InsnOf(r.off);
    Asks(p, r) && CodeAt(p, r.off) == 44 ==> ConstantOf(i, Step(p, i).op).Some?
  }

  /** A relocated op keeps its number. */
  lemma FixedCode(p: Prog, i: nat, op: Op)
    requires FixedOp(p, i) == Some(op)
    ensures OpCode(op) == OpCode(Step(p, i).op)
  {
    hide Step;
  }

  lemma HeadNumber(p: Prog, ops: seq<Word>, a: Word)
    requires Staged(p, ops, {}) && HasEntry(p, a) && !D(p, InsnOf(a)).Nop?
    ensures FieldOp(WordIn(ops, OpAt(p.plan, InsnOf(a)))) == CodeAt(p, a)
  {
    hide Step, FixedOp, FieldOp, HeadHolds, OpCode;
    var op := HeadCode(p, ops, {}, InsnOf(a));
    FixedCode(p, InsnOf(a), op);
  }

  lemma CanPatchIs(p: Prog, ops: seq<Word>, m: seq<Word>, f: Fixup)
    requires Staged(p, ops, {}) && MapFits(p, m, ops) && Sited(p.code, f)
    ensures CanPatch(ops, m, f) <==> FixAccepted(p, f)
  {
    hide FieldOp, HasEntry, MapFits, CodeAt, Step, StageOp, HeadIs, WordIn, Imm16Low, MapAt;
    EntryIs(p, m, ops, f.hi);
    EntryIs(p, m, ops, f.lo);
    EntryIs(p, m, ops, f.sym);
    if HasEntry(p, f.hi) { HeadNumber(p, ops, f.hi); }
    if HasEntry(p, f.lo) { HeadNumber(p, ops, f.lo); }
  }

  /** What is accepted depends on the code, its targets and the layout alone. */
  lemma AcceptedShared(p: Prog, q: Prog, f: Fixup)
    requires Alike(p, q)
    ensures FixAccepted(p, f) <==> FixAccepted(q, f)
  {
    hide Step, OpCode;
    StepShared(p, q, InsnOf(f.hi));
    StepShared(p, q, InsnOf(f.lo));
  }

  /** Without a code fixup only an auipc can lack a final op. */
  lemma BareIsFinal(p: Prog, i: nat)
    requires i !in p.fix
    ensures FinalOp(p, i) == if OpCode(Step(p, i).op) == 44 then ConstantOf(i, Step(p, i).op) else Some(Step(p, i).op)
  {
    hide Step, DataConstant;
    CodeTells(Step(p, i).op);
  }

  lemma ResolveOneSome(p: Prog, ops: seq<Word>, done: set<nat>, m: seq<Word>, r: DataRef)
    requires Staged(p, ops, done) && MapFits(p, m, ops) && DataSited(p, r)
    ensures ResolveOne(ops, m, 4 * |p.code|, r).Some? <==> RefAccepted(p, r)
  {
    hide Step, FieldOp, ConstantAt, ConstantOp, StageOp, WordIn, HeadHolds, MapFits;
    EntryIs(p, m, ops, r.off);
    if Asks(p, r) {
      FoundIsFinal(p, ops, done, r);
    }
    BareIsFinal(p, InsnOf(r.off));
  }

  /** The data pass refuses exactly when some auipc forms a constant out of reach. */
  lemma {:induction false} ResolveAllSome(p: Prog, ops: seq<Word>, done: set<nat>, m: seq<Word>, refs: seq<DataRef>)
    requires Staged(p, ops, done) && MapFits(p, m, ops) && forall r :: r in refs ==> DataSited(p, r)
    ensures ResolveAll(ops, m, 4 * |p.code|, refs).Some? <==> forall r :: r in refs ==> RefAccepted(p, r)
    decreases |refs|
  {
    hide Staged, ResolveOne, MapFits, RefAccepted, DataSited, DoneWith;
    if refs != [] {
      ResolveOneSome(p, ops, done, m, refs[0]);
      if RefAccepted(p, refs[0]) {
        var ops1 := ResolveOne(ops, m, 4 * |p.code|, refs[0]).value;
        ResolveOneIs(p, ops, done, m, refs[0], ops1);
        ResolveAllSome(p, ops1, DoneWith(p, done, refs[0]), m, refs[1..]);
        assert forall r :: r in refs <==> r == refs[0] || r in refs[1..];
      }
    }
  }
}
