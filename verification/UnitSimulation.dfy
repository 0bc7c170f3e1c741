/** One unit, whatever its shape: its final op agrees with the instructions it covers. */
module UnitSimulation {
  import opened Words
  import opened Isa
  import opened Machines
  import opened Fusion
  import opened Layout
  import opened SourceMachine
  import opened Evaluator
  import opened Simulation
  import opened PairSimulation
  import opened SingleSimulation
  import opened FrameSimulation
  import opened FrameAgreement
  import opened FrameOps

  /** The instructions a fused prologue at i saves with. */
  function SavingRun(p: Prog, i: nat): seq<Insn> {
    Run(p, i + 1, Width(p, i) - 1)
  }

  /** The instructions a fused epilogue at i restores with. */
  function RestoringRun(p: Prog, i: nat): seq<Insn> {
    if Width(p, i) < 2 then [] else Run(p, i, Width(p, i) - 2)
  }

  /** What has to hold of the machine when control reaches a unit: a fused frame is safe to
      reorder and a virtual call's slot is clean. Other units need nothing. */
  predicate UnitSafe<H>(p: Prog, env: Env<H>, i: nat, m: Machine<H>) {
    match Step(p, i).op
    case Prologue(_, frame) => SavesFree(m.mem, SavingRun(p, i), Wrap(Sp(m) - frame))
    case Epilogue(_, _) => RestoresFree(m.mem, RestoringRun(p, i), Sp(m))
    case Vcall(rd, rs1, o1, o2) => CleanSlot(env, m, rd, rs1, o1, o2)
    case _ => true
  }

  /** The final op of the unit at i, as the evaluator will see it. */
  function OpOf(p: Prog, i: nat): Op {
    match FinalOp(p, i)
    case Some(op) => Placed(p, op, OpAt(p.plan, i))
    case None => One(Nop)
  }

  /** The unit u stands at i, ready to be run: nothing behind its head is relocated, what runs
      at its head has a decoder's fields, and its direct targets resolve. */
  ghost predicate Formed(p: Prog, i: nat, u: Unit) {
    && i < |p.code| && i + u.width <= |p.code| && Step(p, i) == u && UnitAt(p, i, u.width, WordCount(u.op))
    && FinalOp(p, i).Some? && Encodable(Cur(p, i))
    && (forall q :: i < q < i + u.width ==> q !in p.fix)
    && (forall q, t: Word :: i <= q < i + u.width && DirectTarget(p.code[q], t) ==> Resolves(p, t))
  }

  /** Every head of an accepted program is. */
  lemma HeadsFormed(p: Prog, i: nat)
    requires Accepted(p) && i < |p.code| && Head(p.plan, i)
    ensures Formed(p, i, Step(p, i))
  {
    hide TryPrologue, TryEpilogue, TryLa, TryPair, Encodable, TargetNear;
    var u := Step(p, i);
    assert p.plan.width[i] == u.width && FinalOp(p, i).Some?;
    AfterUnit(p.plan, i);
    forall q | i < q < i + u.width
      ensures q !in p.fix
    {
      HiddenIsPlain(p, i, q);
    }
    forall q, t: Word | i <= q < i + u.width && DirectTarget(p.code[q], t)
      ensures Resolves(p, t)
    {
      TargetResolves(p, q, t);
    }
  }

  // ---- frames ----

  ghost predicate IsPrologue(p: Prog, i: nat, u: Unit) {
    u.op.Prologue? && OpOf(p, i) == u.op && SavingRun(p, i) != [] &&
    PrologueAt(p, i, SavingRun(p, i), u.op.frame) && FrameMask(SavingRun(p, i), u.op.frame) == Some(u.op.mask)
  }

  lemma PrologueShape(p: Prog, i: nat, u: Unit)
    requires Formed(p, i, u) && TryPrologue(p, i) == Some(u)
    ensures IsPrologue(p, i, u)
  {
    hide Canonical, Step, TryEpilogue, TryLa, TryPair, Signed;
    var run := SavingRun(p, i);
    forall k | 0 <= k < |run|
      ensures IsSave(run[k]) && Cur(p, i + 1 + k) == run[k]
    {
      assert IsSave(D(p, i + 1 + k));
    }
  }

  ghost predicate IsEpilogue(p: Prog, i: nat, u: Unit) {
    u.op.Epilogue? && OpOf(p, i) == u.op && RestoringRun(p, i) != [] &&
    EpilogueAt(p, i, RestoringRun(p, i), u.op.frame) && FrameMask(RestoringRun(p, i), u.op.frame) == Some(u.op.mask)
  }

  lemma EpilogueShape(p: Prog, i: nat, u: Unit)
    requires Formed(p, i, u) && TryPrologue(p, i).None? && TryEpilogue(p, i) == Some(u)
    ensures IsEpilogue(p, i, u)
  {
    hide Canonical, TryPrologue, TryLa, TryPair, Signed;
    var run := RestoringRun(p, i);
    forall k | 0 <= k < |run|
      ensures IsRestore(run[k]) && Cur(p, i + k) == run[k]
    {
      assert IsRestore(D(p, i + k));
    }
  }

  lemma FrameUnit<H(!new)>(p: Prog, env: Env<H>, i: nat, m: Machine<H>, u: Unit)
    requires Step(p, i) == u && (IsPrologue(p, i, u) || IsEpilogue(p, i, u))
    requires GoodEnv(env) && UnitSafe(p, env, i, m) && Ready(m.mem)
    ensures RunsAs(p, env, OpOf(p, i), i, m)
  {
    hide Step, PrologueAt, EpilogueAt, FrameMask, SavesFree, RestoresFree, GoodEnv, Exec, Wrap, SavingRun, RestoringRun;
    if u.op.Prologue? {
      PrologueAgrees(p, env, i, m, SavingRun(p, i), u.op.frame, u.op.mask);
    } else {
      EpilogueAgrees(p, env, i, m, RestoringRun(p, i), u.op.frame, u.op.mask);
    }
  }

  // ---- the other units ----

  lemma LaUnit<H>(p: Prog, env: Env<H>, i: nat, m: Machine<H>, u: Unit)
    requires Formed(p, i, u) && TryLa(p, i) == Some(u) && Ready(m.mem)
    ensures RunsAs(p, env, OpOf(p, i), i, m)
  {
    hide Step, SrcRun, SrcStep, Exec, Wrap, AuipcValue, LiValue, SignExtend;
    var a, b := D(p, i), D(p, i + 1);
    var v := LaValue(i, a.uimm, b.imm);
    LiLoads(a.rd, v);
    LaAgrees(p, env, i, m, a.rd, a.uimm, b.imm, u.op);
  }

  lemma PairUnit<H>(p: Prog, env: Env<H>, i: nat, m: Machine<H>, u: Unit)
    requires Formed(p, i, u) && TryPair(p, i) == Some(u) && UnitSafe(p, env, i, m) && m.Valid() && Ready(m.mem)
    ensures RunsAs(p, env, OpOf(p, i), i, m)
  {
    hide Step, SrcRun, SrcStep, Exec;
    var a, b := D(p, i), D(p, i + 1);
    match u.op
    case Shadd(_, _, _, _) => ShaddAgrees(p, env, i, m, a, b, u.op);
    case Lwx(_, _, _, _) => LwxAgrees(p, env, i, m, a, b, u.op);
    case Lwlw(_, _, _, _) => LwlwAgrees(p, env, i, m, a, b, u.op);
    case Lwsw(_, _, _, _, _) => LwswAgrees(p, env, i, m, a, b, u.op);
    case Vcall(rd, rs1, o1, o2) =>
      if !UnitRun(p, env, i, m).Wild? {
        VcallAgreesIff(p, env, i, m, rd, rs1, o1, o2);
      }
    case LoadBz(_, _, _, _, _, _) =>
      var off := if i in p.fix then p.fix[i] else a.imm;
      LoadBzAgrees(p, env, i, m, a.lk, a.rd, a.rs1, off, b.cond, b.rs1, b.rs2, b.target, FinalOp(p, i).value);
  }

  /** A plain instruction, its relocation applied if it has one. */
  lemma PlainUnit<H>(p: Prog, env: Env<H>, i: nat, m: Machine<H>, d: Insn)
    requires Lone(p, i, d) && OpOf(p, i) == Placed(p, One(d), OpAt(p.plan, i)) && Ready(m.mem)
    requires !d.Nop? && (d.Auipc? ==> i in p.fix) && forall t: Word :: DirectTarget(d, t) ==> Resolves(p, t)
    ensures RunsAs(p, env, OpOf(p, i), i, m)
  {
    hide SrcRun, SrcStep, Exec, OpOf, Resolves;
    match d
    case Branch(c, rs1, rs2, t) =>
      assert DirectTarget(d, t);
      BranchAgrees(p, env, i, m, c, rs1, rs2, t, One(d));
    case Jal(rd, t) =>
      assert DirectTarget(d, t);
      JalAgrees(p, env, i, m, rd, t, One(d));
    case Jalr(rd, rs1, imm) => JalrAgrees(p, env, i, m, rd, rs1, imm);
    case Auipc(rd, u) => CodeAuipcAgrees(p, env, i, m, rd, u);
    case Ecall => TrapAgrees(p, env, i, m, d);
    case Ebreak => TrapAgrees(p, env, i, m, d);
    case Illegal => TrapAgrees(p, env, i, m, d);
    case _ => SequentialAgrees(p, env, i, m, d);
  }

  lemma SingleUnit<H>(p: Prog, env: Env<H>, i: nat, m: Machine<H>, u: Unit)
    requires Formed(p, i, u) && u == Alone(p, i) && !D(p, i).Nop? && Ready(m.mem)
    ensures RunsAs(p, env, OpOf(p, i), i, m)
  {
    hide Step, SrcRun, SrcStep, Exec, Encodable, Wrap, AuipcValue, SignExtend, LiValue;
    var d := D(p, i);
    if d.Auipc? && i !in p.fix {
      LiLoads(d.rd, AuipcValue(i, d.uimm));
      LiAgrees(p, env, i, m, d.rd, d.uimm, OpOf(p, i));
    } else {
      PlainUnit(p, env, i, m, Cur(p, i));
    }
  }

  /** Every unit that emits an op: the op does what the unit's instructions do. */
  lemma UnitSimulates<H(!new)>(p: Prog, env: Env<H>, i: nat, m: Machine<H>)
    requires Accepted(p) && i < |p.code| && Head(p.plan, i) && !D(p, i).Nop?
    requires GoodEnv(env) && m.Valid() && Ready(m.mem) && UnitSafe(p, env, i, m)
    ensures RunsAs(p, env, OpOf(p, i), i, m)
  {
    hide Accepted, Formed, TryPrologue, TryEpilogue, TryLa, TryPair, IsPrologue, IsEpilogue, RunsAs, UnitSafe, GoodEnv, Ready, OpOf;
    var u := Step(p, i);
    HeadsFormed(p, i);
    if TryPrologue(p, i).Some? {
      PrologueShape(p, i, u);
      FrameUnit(p, env, i, m, u);
    } else if TryEpilogue(p, i).Some? {
      EpilogueShape(p, i, u);
      FrameUnit(p, env, i, m, u);
    } else if TryLa(p, i).Some? {
      LaUnit(p, env, i, m, u);
    } else if TryPair(p, i).Some? {
      PairUnit(p, env, i, m, u);
    } else {
      SingleUnit(p, env, i, m, u);
    }
  }
}
