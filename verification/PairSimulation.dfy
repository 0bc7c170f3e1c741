/** The fused pairs and triples replay the instructions they replaced, whatever registers
    the matcher lets coincide. */
module PairSimulation {
  import opened Words
  import opened Isa
  import opened Machines
  import opened BulkOps
  import opened Fusion
  import opened Layout
  import opened SourceMachine
  import opened Evaluator
  import opened Simulation

  /** The unit at i has w instructions, and the next unit's op stands k words after its own. */
  ghost predicate UnitAt(p: Prog, i: nat, w: nat, k: nat) {
    && i < |p.plan.width| && p.plan.width[i] == w && i + w <= |p.code|
    && Head(p.plan, i + w) && OpAt(p.plan, i + w) == OpAt(p.plan, i) + k
  }

  /** The unit at i has one op word and runs the instruction d. */
  ghost predicate Lone(p: Prog, i: nat, d: Insn) {
    UnitAt(p, i, 1, 1) && Cur(p, i) == d && Fold(d) == d
  }

  /** The unit at i has k op words and runs the instructions a and b. */
  ghost predicate Pair(p: Prog, i: nat, k: nat, a: Insn, b: Insn) {
    UnitAt(p, i, 2, k) && Cur(p, i) == a && Cur(p, i + 1) == b && Fold(a) == a && Fold(b) == b && Encodable(a)
  }

  /** Instructions that go on past the unit as its op does: nothing more to show. */
  lemma Passed<H>(p: Prog, env: Env<H>, op: Op, i: nat, w: nat, k: nat, m: Machine<H>)
    requires UnitAt(p, i, w, k) && PassesAs(p, env, op, i, w, k, m)
    ensures RunsAs(p, env, op, i, m)
  {
    hide SrcRun, Exec;
  }

  ghost predicate PassesAs<H>(p: Prog, env: Env<H>, op: Op, i: nat, w: nat, k: nat, m: Machine<H>) {
    Ready(m.mem) &&
    var e := Exec(env, op, OpAt(p.plan, i), m);
    SrcRun(p, env, w, i, m) == Ahead(i, w, e.m) && e.flow == Fall(OpAt(p.plan, i) + k)
  }

  /** A shift and an add that consumes it. */
  lemma ShaddAgrees<H>(p: Prog, env: Env<H>, i: nat, m: Machine<H>, a: Insn, b: Insn, op: Op)
    requires Pair(p, i, WordCount(op), a, b) && PairOp(a, b) == Some(op) && op.Shadd? && Ready(m.mem)
    ensures RunsAs(p, env, op, i, m)
  {
    hide SrcRun, Cur, Bulk, Land, Goto, DoStore, Taken, DoPrologue, DoEpilogue;
    Run2(p, env, i, m);
    var m1 := m.(x := m.x[a.rd := ShiftLeft(m.x[a.rs1], a.imm)]);
    assert SrcStep(p, env, i, m) == Onward(i, m1);
    assert m1.x[op.rs1] == m.x[op.rs1];
    Passed(p, env, op, i, 2, 1, m);
  }

  /** An add and a word load through it. */
  lemma LwxAgrees<H>(p: Prog, env: Env<H>, i: nat, m: Machine<H>, a: Insn, b: Insn, op: Op)
    requires Pair(p, i, WordCount(op), a, b) && PairOp(a, b) == Some(op) && op.Lwx? && Ready(m.mem)
    ensures RunsAs(p, env, op, i, m)
  {
    hide SrcRun, Cur, Wrap, Bulk, Land, Goto, Taken, DoPrologue, DoEpilogue;
    Run2(p, env, i, m);
    var sum := m.x[a.rs1] as int + m.x[a.rs2] as int;
    var m1 := m.(x := m.x[a.rd := Wrap(sum)]);
    assert SrcStep(p, env, i, m) == Onward(i, m1);
    WrapAdd(sum, b.imm);
    var m2 := DoLwx(env, m, op.rd, op.rs1, op.rs2, op.off);
    assert m1.x[a.rd := m2.x[a.rd]] == m.x[a.rd := m2.x[a.rd]];
    Passed(p, env, op, i, 2, 1, m);
  }

  /** Two word loads, the second through the first. */
  lemma TwoLoads<H>(p: Prog, env: Env<H>, i: nat, m: Machine<H>, t: Reg, rs1: Reg, o1: Word, o2: Word, m2: Machine<H>)
    requires LoadsTwice(p, i, t, rs1, o1, o2) && m2 == DoLwlw(env, m, t, rs1, o1, o2)
    ensures TwoLead(p, env, i, m, m2)
  {
    hide SrcRun, Cur, Wrap, Bulk, Land, Goto, DoStore, Taken;
    Run2(p, env, i, m);
    var m1 := LoadInto(env, m, LW, t, Wrap(m.x[rs1] + o1));
    assert SrcStep(p, env, i, m) == Onward(i, m1);
    assert m1.x[t := m2.x[t]] == m.x[t := m2.x[t]];
  }

  ghost predicate TwoLead<H>(p: Prog, env: Env<H>, i: nat, m: Machine<H>, m': Machine<H>) {
    SrcRun(p, env, 2, i, m) == Ahead(i, 2, m')
  }

  predicate LoadsTwice(p: Prog, i: nat, t: Reg, rs1: Reg, o1: Word, o2: Word) {
    i + 1 < |p.code| && t != 0 && Cur(p, i) == Load(LW, t, rs1, o1) && Cur(p, i + 1) == Load(LW, t, t, o2)
  }

  lemma LwlwAgrees<H>(p: Prog, env: Env<H>, i: nat, m: Machine<H>, a: Insn, b: Insn, op: Op)
    requires Pair(p, i, WordCount(op), a, b) && PairOp(a, b) == Some(op) && op.Lwlw? && Ready(m.mem)
    ensures RunsAs(p, env, op, i, m)
  {
    hide SrcRun, SrcStep, DoLwlw, Cur, ExecOne, DoPrologue, DoEpilogue;
    TwoLoads(p, env, i, m, op.rd, op.rs1, op.o1, op.o2, DoLwlw(env, m, op.rd, op.rs1, op.o1, op.o2));
    Passed(p, env, op, i, 2, 1, m);
  }

  /** The word copy, also when the store base is the register just loaded. */
  lemma LwswAgrees<H>(p: Prog, env: Env<H>, i: nat, m: Machine<H>, a: Insn, b: Insn, op: Op)
    requires Pair(p, i, WordCount(op), a, b) && PairOp(a, b) == Some(op) && op.Lwsw? && Ready(m.mem)
    ensures RunsAs(p, env, op, i, m)
  {
    hide SrcRun, Cur, Wrap, Bulk, Land, Goto, Taken, DoPrologue, DoEpilogue;
    Run2(p, env, i, m);
    var m1 := LoadInto(env, m, LW, a.rd, Wrap(m.x[a.rs1] + a.imm));
    assert SrcStep(p, env, i, m) == Onward(i, m1);
    assert SrcStep(p, env, i + 1, m1) == Ahead(i, 2, DoLwsw(env, m, op.rd, op.rs1, op.rs2, op.o1, op.o2));
    Passed(p, env, op, i, 2, 1, m);
  }

  /** The registers compared are t and x0, in either order. */
  predicate AgainstZero(t: Reg, r1: Reg, r2: Reg) {
    t != 0 && ((r1 == t && r2 == 0) || (r2 == t && r1 == 0))
  }

  /** The load-and-branch pair; its load may carry a relocation. */
  lemma LoadBzAgrees<H>(p: Prog, env: Env<H>, i: nat, m: Machine<H>, k: LoadKind, t: Reg, rs1: Reg, off: Word,
                        c: Cond, r1: Reg, r2: Reg, target: Word, op: Op)
    requires op == LoadBz(k == LBU, t, rs1, off, target, c == BEQ) && Ready(m.mem) && m.Valid()
    requires Pair(p, i, WordCount(op), Load(k, t, rs1, off), Branch(c, r1, r2, target))
    requires AgainstZero(t, r1, r2) && (c == BEQ || c == BNE) && (k == LW || k == LBU) && Resolves(p, target)
    ensures RunsAs(p, env, Placed(p, op, OpAt(p.plan, i)), i, m)
  {
    hide SrcRun, Cur, Wrap, Bulk, Land, Goto, Agrees, DoPrologue, DoEpilogue;
    Run2(p, env, i, m);
    var m1 := LoadInto(env, m, k, t, Wrap(m.x[rs1] + off));
    assert SrcStep(p, env, i, m) == Onward(i, m1);
    assert m1.x[0] == 0;
    var e := Exec(env, Placed(p, op, OpAt(p.plan, i)), OpAt(p.plan, i), m);
    if (m1.x[t] == 0) == (c == BEQ) {
      GotoLands(p, i, target, OpAt(p.plan, i), m1, e);
    } else {
      Passed(p, env, Placed(p, op, OpAt(p.plan, i)), i, 2, 2, m);
    }
  }

  // ---- the virtual call ----

  /** The word a virtual call loads from the vtable slot. */
  function SlotValue<H>(env: Env<H>, m: Machine<H>, rs1: Reg, o1: Word, o2: Word): Word {
    DoLwlw(env, m, 1, rs1, o1, o2).x[1]
  }

  /** The fused call leaves the jump target in its register with bit 0 cleared, so it
      matches the sequence only for an even slot, or when the link overwrites the register. */
  predicate CleanSlot<H>(env: Env<H>, m: Machine<H>, rd: Reg, rs1: Reg, o1: Word, o2: Word) {
    rd == 1 || SlotValue(env, m, rs1, o1, o2) % 2 == 0
  }

  /** An indirect jump: where it lands, with its link. */
  lemma JumpAndLink<H>(p: Prog, env: Env<H>, i: nat, m: Machine<H>, rd: Reg, rs1: Reg, imm: Word)
    requires i < |p.code| && Cur(p, i) == Jalr(rd, rs1, imm)
    ensures SrcStep(p, env, i, m) == Jumped(p, i, m, rd, rs1, imm)
  {
    hide Wrap, ClearBit0, Alu, Bulk, Cur, DoLoad, DoStore;
  }

  /** The unit at i has one op word and calls through the table entry loaded into t. */
  ghost predicate CallsThrough(p: Prog, i: nat, t: Reg, rs1: Reg, o1: Word, o2: Word) {
    UnitAt(p, i, 3, 1) && LoadsTwice(p, i, t, rs1, o1, o2) && Cur(p, i + 2) == Jalr(1, t, 0)
  }

  /** The virtual call agrees with its three instructions exactly when its slot is clean. */
  lemma VcallAgreesIff<H>(p: Prog, env: Env<H>, i: nat, m: Machine<H>, t: Reg, rs1: Reg, o1: Word, o2: Word)
    requires CallsThrough(p, i, t, rs1, o1, o2) && Ready(m.mem)
    requires !UnitRun(p, env, i, m).Wild?
    ensures RunsAs(p, env, Vcall(t, rs1, o1, o2), i, m) <==> CleanSlot(env, m, t, rs1, o1, o2)
  {
    hide SrcStep, ClearBit0, Wrap, DoLwlw, Cur, ExecOne, DoPrologue, DoEpilogue;
    var m2 := DoLwlw(env, m, t, rs1, o1, o2);
    TwoLoads(p, env, i, m, t, rs1, o1, o2, m2);
    SrcRunSplit(p, env, 2, 1, i, m);
    Run1(p, env, i + 2, m2);
    var v := m2.x[t];
    WrapWord(v);
    JumpAndLink(p, env, i + 2, m2, 1, t, 0);
    SlotLoaded(env, m, t, rs1, o1, o2);
    var link := Rho(p, i + 3);
    Even(v);
    var src, e := m2.x[1 := link], m2.x[t := ClearBit0(v)][1 := link];
    assert t != 1 ==> src[t] == v && e[t] == ClearBit0(v);
    if CleanSlot(env, m, t, rs1, o1, o2) { assert src == e; }
  }

  lemma SlotLoaded<H>(env: Env<H>, m: Machine<H>, t: Reg, rs1: Reg, o1: Word, o2: Word)
    ensures DoLwlw(env, m, t, rs1, o1, o2).x[t] == SlotValue(env, m, rs1, o1, o2)
  {
    hide ReadWord, Wrap;
  }

  lemma Even(v: Word)
    ensures ClearBit0(v) == v <==> v % 2 == 0
  {
  }
}
