/** The source RV32IM machine, with code addresses renumbered: an instruction's address is
    4 times the op index the map gives it. */
module SourceMachine {
  import opened Words
  import opened Isa
  import opened Machines
  import opened BulkOps
  import opened Fusion
  import opened Layout

  /** The plan records, for every instruction, the unit that starts there. */
  ghost predicate Planned(p: Prog) {
    && p.Valid()
    && |p.plan.width| == |p.code|
    && forall i {:trigger Step(p, i)} :: 0 <= i < |p.code| ==>
        p.plan.width[i] == Step(p, i).width && p.plan.words[i] == WordCount(Step(p, i).op)
  }

  /** The renumbered address of instruction i. */
  function Rho(p: Prog, i: nat): Word {
    Wrap(4 * OpAt(p.plan, i))
  }

  /** The instruction a code relocation leaves: its immediate replaced. */
  function WithImm(d: Insn, v: Word): Option<Insn> {
    match d
    case RegImm(op, rd, rs1, _) => Some(RegImm(op, rd, rs1, v))
    case Load(k, rd, rs1, _) => Some(Load(k, rd, rs1, v))
    case Store(k, rs2, rs1, _) => Some(Store(k, rs2, rs1, v))
    case Jalr(rd, rs1, _) => Some(Jalr(rd, rs1, v))
    case Auipc(rd, _) => Some(Auipc(rd, v))
    case _ => None
  }

  /** Instruction i as the source machine runs it, code relocations applied. */
  function Cur(p: Prog, i: nat): Insn {
    if i >= |p.code| then Illegal
    else if i in p.fix then
      match WithImm(p.code[i], p.fix[i])
      case Some(d) => d
      case None => p.code[i]
    else p.code[i]
  }

  /** Where an indirect jump to address t lands: a unit head with that renumbered address. */
  ghost predicate LandsAt(p: Prog, t: Word, j: nat) {
    Head(p.plan, j) && 4 * OpAt(p.plan, j) == t
  }

  ghost function Land(p: Prog, t: Word): (r: Option<nat>)
    ensures r.Some? ==> LandsAt(p, t, r.value)
    ensures r.None? ==> forall j :: !LandsAt(p, t, j)
  {
    if exists j :: LandsAt(p, t, j) then
      var j :| LandsAt(p, t, j); Some(j)
    else None
  }

  /** Next: the machine goes on at instruction `at`. Stopped: a handler ended the run at
      that instruction. Wild: control left the program the transcoder was told about. */
  datatype Outcome<H> = Next(at: nat, m: Machine<H>) | Stopped(at: nat, m: Machine<H>) | Wild

  /** The machine goes on at the next instruction. */
  function Onward<H>(i: nat, m: Machine<H>): Outcome<H> {
    Next(i + 1, m)
  }

  /** The machine goes on n instructions further. */
  function Ahead<H>(i: nat, n: nat, m: Machine<H>): Outcome<H> {
    Next(i + n, m)
  }

  function Goto<H>(p: Prog, target: Word, m: Machine<H>): Outcome<H> {
    if target % 4 == 0 && target / 4 < |p.code| then Next(target / 4, m) else Wild
  }

  function Trapped<H>(i: nat, r: (Machine<H>, bool)): Outcome<H> {
    if r.1 then Stopped(i, r.0) else Onward(i, r.0)
  }

  /** An auipc reads its renumbered address when a code relocation applies to it, and its
      true address when it forms a data constant. */
  function AuipcReads(p: Prog, i: nat, uimm: Word): Word {
    if i in p.fix then Wrap(Rho(p, i) + uimm * 0x1000) else AuipcValue(i, uimm)
  }

  /** An indirect jump from i, its link written once the target is known. */
  ghost function Jumped<H>(p: Prog, i: nat, m: Machine<H>, rd: Reg, rs1: Reg, imm: Word): Outcome<H> {
    match Land(p, ClearBit0(Wrap(m.x[rs1] + imm)))
    case Some(j) => Next(j, SetReg(m, rd, Rho(p, i + 1)))
    case None => Wild
  }

  /** One source instruction. */
  ghost function SrcStep<H>(p: Prog, env: Env<H>, i: nat, m: Machine<H>): Outcome<H> {
    if i >= |p.code| then Wild
    else
      match Cur(p, i)
      case RegReg(op, rd, rs1, rs2) => Onward(i, SetReg(m, rd, Alu(op, m.x[rs1], m.x[rs2])))
      case RegImm(op, rd, rs1, imm) => Onward(i, SetReg(m, rd, Alu(op, m.x[rs1], imm)))
      case Load(k, rd, rs1, imm) => Onward(i, DoLoad(env, m, k, rd, Wrap(m.x[rs1] + imm)))
      case Store(k, rs2, rs1, imm) => Onward(i, DoStore(env, m, k, Wrap(m.x[rs1] + imm), m.x[rs2]))
      case Branch(c, rs1, rs2, target) =>
        if Taken(c, m.x[rs1], m.x[rs2]) then Goto(p, target, m) else Onward(i, m)
      case Jal(rd, target) => Goto(p, target, SetReg(m, rd, Rho(p, i + 1)))
      case Jalr(rd, rs1, imm) => Jumped(p, i, m, rd, rs1, imm)
      case Lui(rd, uimm) => Onward(i, SetReg(m, rd, Wrap(uimm * 0x1000)))
      case Auipc(rd, uimm) => Onward(i, SetReg(m, rd, AuipcReads(p, i, uimm)))
      case Memop(f3, rd, rs1, rs2) => Onward(i, Bulk(env, m, f3, rd, rs1, rs2).0)
      case Nop => Onward(i, m)
      case Ecall => Trapped(i, env.ecall(m, Rho(p, i)))
      case Ebreak => Trapped(i, env.ebreak(m, Rho(p, i)))
      case Illegal => Trapped(i, env.illegal(m, Rho(p, i)))
  }

  /** One more instruction, unless the run is over. */
  ghost function Then<H>(p: Prog, env: Env<H>, o: Outcome<H>): Outcome<H> {
    match o
    case Next(j, m) => SrcStep(p, env, j, m)
    case _ => o
  }

  /** Up to n source instructions; a stop or a wild jump ends the run. */
  ghost function SrcRun<H>(p: Prog, env: Env<H>, n: nat, i: nat, m: Machine<H>): Outcome<H> {
    if n == 0 then Next(i, m)
    else
      match SrcStep(p, env, i, m)
      case Next(j, m') => SrcRun(p, env, n - 1, j, m')
      case Stopped(j, m') => Stopped(j, m')
      case Wild => Wild
  }

  /** Up to n more instructions. */
  ghost function RunFrom<H>(p: Prog, env: Env<H>, n: nat, o: Outcome<H>): Outcome<H> {
    match o
    case Next(j, m) => SrcRun(p, env, n, j, m)
    case _ => o
  }

  /** Runs compose. */
  lemma {:induction false} SrcRunSplit<H>(p: Prog, env: Env<H>, a: nat, b: nat, i: nat, m: Machine<H>)
    ensures SrcRun(p, env, a + b, i, m) == RunFrom(p, env, b, SrcRun(p, env, a, i, m))
  {
    hide SrcStep;
    if a > 0 {
      match SrcStep(p, env, i, m)
      case Next(j, m') => SrcRunSplit(p, env, a - 1, b, j, m');
      case _ =>
    }
  }

  lemma Run1<H>(p: Prog, env: Env<H>, i: nat, m: Machine<H>)
    ensures SrcRun(p, env, 0, i, m) == Next(i, m) && SrcRun(p, env, 1, i, m) == SrcStep(p, env, i, m)
  {
    hide SrcStep;
  }

  lemma Run2<H>(p: Prog, env: Env<H>, i: nat, m: Machine<H>)
    ensures SrcRun(p, env, 2, i, m) == Then(p, env, SrcStep(p, env, i, m))
  {
    hide SrcStep;
    match SrcStep(p, env, i, m)
    case Next(j, m1) => Run1(p, env, j, m1);
    case _ =>
  }
}
