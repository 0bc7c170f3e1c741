/** Single instructions, dropped nops and load-immediates agree with the source machine. */
module SingleSimulation {
  import opened Words
  import opened Isa
  import opened Machines
  import opened BulkOps
  import opened Fusion
  import opened Layout
  import opened SourceMachine
  import opened Evaluator
  import opened Simulation
  import opened PairSimulation

  /** A dropped instruction changes nothing and takes no op word. */
  lemma NopStutters<H>(p: Prog, env: Env<H>, i: nat, m: Machine<H>)
    requires i < |p.code| && D(p, i).Nop? && i !in p.fix
    ensures SrcStep(p, env, i, m) == Onward(i, m)
  {
    hide Bulk, Land, Goto, DoStore, DoLoad, Alu, Taken;
  }

  predicate Sequential(d: Insn) {
    d.RegReg? || d.RegImm? || d.Load? || d.Store? || d.Lui? || d.Memop?
  }

  lemma SequentialAgrees<H>(p: Prog, env: Env<H>, i: nat, m: Machine<H>, d: Insn)
    requires Lone(p, i, d) && Sequential(d) && Ready(m.mem)
    ensures RunsAs(p, env, One(d), i, m)
  {
    hide Bulk, Land, Goto, DoStore, LoadInto, Alu, Taken, Cur, Wrap, DoPrologue, DoEpilogue, SrcRun;
    Run1(p, env, i, m);
    Passed(p, env, One(d), i, 1, 1, m);
  }

  lemma CodeAuipcAgrees<H>(p: Prog, env: Env<H>, i: nat, m: Machine<H>, rd: Reg, u: Word)
    requires Lone(p, i, Auipc(rd, u)) && i in p.fix && Ready(m.mem)
    ensures RunsAs(p, env, One(Auipc(rd, u)), i, m)
  {
    hide Bulk, Land, Goto, DoStore, LoadInto, Alu, Taken, Cur, DoPrologue, DoEpilogue, SrcRun;
    Run1(p, env, i, m);
    WrapAdd(4 * OpAt(p.plan, i), u * 0x1000);
    Passed(p, env, One(Auipc(rd, u)), i, 1, 1, m);
  }

  /** The op at i has not drifted from its instruction. */
  predicate Undrifted(p: Prog, i: nat) {
    Rho(p, i) == Wrap(4 * i)
  }

  /** An auipc left without a relocation is right exactly where no op has drifted from its
      instruction. */
  lemma BareAuipcIff<H>(p: Prog, env: Env<H>, i: nat, m: Machine<H>, rd: Reg, u: Word)
    requires Lone(p, i, Auipc(rd, u)) && i !in p.fix && Ready(m.mem)
    ensures RunsAs(p, env, One(Auipc(rd, u)), i, m) <==> Undrifted(p, i)
  {
    hide Bulk, Land, Goto, DoStore, LoadInto, Alu, Taken, Cur, DoPrologue, DoEpilogue, SrcRun;
    Run1(p, env, i, m);
    AddedBack(4 * OpAt(p.plan, i), 4 * i, u * 0x1000);
    assert m.x[rd := AuipcValue(i, u)][rd] == AuipcValue(i, u);
  }

  lemma AddedBack(a: int, b: int, c: int)
    ensures Wrap(a + c) == Wrap(b + c) <==> Wrap(a) == Wrap(b)
  {
    WrapAdd(a, c);
    WrapAdd(b, c);
    WrapAdd(a + c, -c);
    WrapAdd(b + c, -c);
  }

  lemma BranchAgrees<H>(p: Prog, env: Env<H>, i: nat, m: Machine<H>, c: Cond, rs1: Reg, rs2: Reg, t: Word, op: Op)
    requires op == One(Branch(c, rs1, rs2, t)) && Lone(p, i, Branch(c, rs1, rs2, t)) && Resolves(p, t) && Ready(m.mem)
    ensures RunsAs(p, env, Placed(p, op, OpAt(p.plan, i)), i, m)
  {
    hide Bulk, Land, Goto, DoStore, LoadInto, Alu, Taken, Cur, Wrap, DoPrologue, DoEpilogue, SrcRun, Agrees;
    Run1(p, env, i, m);
    var e := Exec(env, Placed(p, op, OpAt(p.plan, i)), OpAt(p.plan, i), m);
    if Taken(c, m.x[rs1], m.x[rs2]) {
      GotoLands(p, i, t, OpAt(p.plan, i), m, e);
    } else {
      Passed(p, env, Placed(p, op, OpAt(p.plan, i)), i, 1, 1, m);
    }
  }

  lemma JalAgrees<H>(p: Prog, env: Env<H>, i: nat, m: Machine<H>, rd: Reg, t: Word, op: Op)
    requires op == One(Jal(rd, t)) && Lone(p, i, Jal(rd, t)) && Resolves(p, t) && Ready(m.mem)
    ensures RunsAs(p, env, Placed(p, op, OpAt(p.plan, i)), i, m)
  {
    hide Bulk, Land, Goto, DoStore, LoadInto, Alu, Taken, Cur, Wrap, DoPrologue, DoEpilogue, SrcRun, Agrees;
    Run1(p, env, i, m);
    var e := Exec(env, Placed(p, op, OpAt(p.plan, i)), OpAt(p.plan, i), m);
    GotoLands(p, i, t, OpAt(p.plan, i), SetReg(m, rd, Rho(p, i + 1)), e);
  }

  lemma JalrAgrees<H>(p: Prog, env: Env<H>, i: nat, m: Machine<H>, rd: Reg, rs1: Reg, imm: Word)
    requires Lone(p, i, Jalr(rd, rs1, imm)) && Ready(m.mem)
    ensures RunsAs(p, env, One(Jalr(rd, rs1, imm)), i, m)
  {
    hide ClearBit0, Alu, SrcStep, Cur, Wrap, DoPrologue, DoEpilogue, SrcRun;
    JumpAndLink(p, env, i, m, rd, rs1, imm);
    Run1(p, env, i, m);
  }

  lemma TrapAgrees<H>(p: Prog, env: Env<H>, i: nat, m: Machine<H>, d: Insn)
    requires Lone(p, i, d) && (d.Ecall? || d.Ebreak? || d.Illegal?) && Ready(m.mem)
    ensures RunsAs(p, env, One(d), i, m)
  {
    hide Bulk, Land, Goto, DoStore, LoadInto, Alu, Taken, Cur, Wrap, DoPrologue, DoEpilogue, SrcRun;
    Run1(p, env, i, m);
  }

  // ---- load-immediates ----

  /** What a load-immediate op leaves in its register. */
  function LiValue(op: Op): Word {
    match op
    case LiLo(_, v) => SignExtend(v, 0x10_0000)
    case LiHi(_, v) => Wrap(SignExtend(v, 0x10_0000) + 0x8000_0000)
    case _ => 0
  }

  lemma NearZeroLoads(v: Word)
    requires NearZero(v)
    ensures SignExtend(v % 0x20_0000, 0x10_0000) == v
  {
    WrapNear(v % 0x20_0000 - 0x20_0000);
  }

  /** A load-immediate loads back exactly the constant it was made from. */
  lemma LiLoads(rd: Reg, v: Word)
    ensures NearZero(v) ==> LiValue(LiLoOf(rd, v)) == v
    ensures NearHalf(v) ==> LiValue(LiHiOf(rd, v)) == v
  {
    if NearZero(v) {
      NearZeroLoads(v);
    }
    if NearHalf(v) {
      NearZeroLoads(Wrap(v - 0x8000_0000));
      WrapNear(v - 0x8000_0000);
      WrapAdd(v - 0x8000_0000, 0x8000_0000);
    }
  }

  predicate IsLi(op: Op, rd: Reg, v: Word) {
    (op.LiLo? && op.rd == rd && LiValue(op) == v) || (op.LiHi? && op.rd == rd && LiValue(op) == v)
  }

  /** A lone data auipc as a load-immediate. */
  lemma LiAgrees<H>(p: Prog, env: Env<H>, i: nat, m: Machine<H>, rd: Reg, u: Word, op: Op)
    requires Lone(p, i, Auipc(rd, u)) && i !in p.fix && IsLi(op, rd, AuipcValue(i, u)) && Ready(m.mem)
    ensures RunsAs(p, env, op, i, m)
  {
    hide Bulk, Land, Goto, DoStore, LoadInto, Alu, Taken, Cur, AuipcValue, SignExtend, Wrap, DoPrologue, DoEpilogue, SrcRun;
    Run1(p, env, i, m);
    Passed(p, env, op, i, 1, 1, m);
  }

  /** auipc then addi into the same register, as one load-immediate. */
  lemma LaAgrees<H>(p: Prog, env: Env<H>, i: nat, m: Machine<H>, rd: Reg, u: Word, imm: Word, op: Op)
    requires Pair(p, i, WordCount(op), Auipc(rd, u), RegImm(Add, rd, rd, imm)) && i !in p.fix
    requires IsLi(op, rd, LaValue(i, u, imm)) && Ready(m.mem)
    ensures RunsAs(p, env, op, i, m)
  {
    hide Bulk, Land, Goto, DoStore, LoadInto, Taken, Cur, AuipcValue, SignExtend, Wrap, DoPrologue, DoEpilogue, SrcRun;
    Run2(p, env, i, m);
    var m1 := m.(x := m.x[rd := AuipcValue(i, u)]);
    assert SrcStep(p, env, i, m) == Onward(i, m1);
    var v := LaValue(i, u, imm);
    assert m1.x[rd := v] == m.x[rd := v];
    Passed(p, env, op, i, 2, 1, m);
  }
}
