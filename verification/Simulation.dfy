/** Each unit's op does exactly what the instructions it replaced do. */
module Simulation {
  import opened Words
  import opened Isa
  import opened Machines
  import opened Fusion
  import opened Layout
  import opened SourceMachine
  import opened Evaluator

  // ---- the op stream after the relocation passes ----

  /** The load-immediate of a data constant, when it lies close enough to an anchor. */
  function ConstantOp(rd: Reg, v: Word): Option<Op> {
    if -0x10_0000 < Signed(v) < 0x10_0000 then Some(LiLoOf(rd, v))
    else if -0x10_0000 < Signed(Wrap(v - 0x8000_0000)) < 0x10_0000 then Some(LiHiOf(rd, v))
    else None
  }

  /** A data auipc the transcoder left alone becomes the load-immediate of its own value. */
  function DataConstant(i: nat, rd: Reg, uimm: Word): Option<Op> {
    ConstantOp(rd, AuipcValue(i, uimm))
  }

  /** The op of the unit at i once its relocation, if any, is applied; None when the tool
      refuses the program. */
  function FinalOp(p: Prog, i: nat): Option<Op> {
    var op := Step(p, i).op;
    if i in p.fix then
      match op
      case One(d) =>
        (match WithImm(d, p.fix[i])
         case Some(d') => Some(One(d'))
         case None => None)
      case LoadBz(byte, rd, rs1, _, target, onZero) => Some(LoadBz(byte, rd, rs1, p.fix[i], target, onZero))
      case _ => None
    else if op.One? && op.insn.Auipc? then DataConstant(i, op.insn.rd, op.insn.uimm)
    else Some(op)
  }

  /** Every relocation sits on a unit head, leaves an encodable instruction, and every unit has a final op. */
  ghost predicate Linked(p: Prog) {
    && (forall i :: i in p.fix ==> i < |p.code| && Head(p.plan, i) && !D(p, i).Nop? && Encodable(Cur(p, i)))
    && (forall i {:trigger FinalOp(p, i)} :: 0 <= i < |p.code| && Head(p.plan, i) ==> FinalOp(p, i).Some?)
  }

  predicate DirectTarget(d: Insn, t: Word) {
    (d.Branch? || d.Jal?) && d.target == t
  }

  /** Every direct branch and jump destination in the window is marked. */
  ghost predicate Marked(p: Prog) {
    forall i, t: Word :: 0 <= i < |p.code| && DirectTarget(p.code[i], t) && t / 4 < |p.code| ==> Hot(p, t / 4)
  }

  /** The target is within `bound` bytes of instruction i, as its encoding implies. */
  predicate Near(i: nat, t: Word, bound: int) {
    -bound <= Signed(Wrap(t - 4 * i)) < bound
  }

  /** Branches reach 13 bits of displacement, jumps 21. */
  predicate TargetNear(i: nat, d: Insn) {
    match d
    case Branch(_, _, _, t) => Near(i, t, 0x1000)
    case Jal(_, t) => Near(i, t, 0x10_0000)
    case _ => true
  }

  /** The transcoder's contract with its input. */
  ghost predicate Accepted(p: Prog) {
    && (forall i :: 0 <= i < |p.code| ==> TargetNear(i, p.code[i]))
    && Planned(p)
    && Marked(p)
    && Linked(p)
    && (forall i :: 0 <= i < |p.code| ==> p.code[i].Memop? ==> p.code[i].rd != 0)
  }

  /** A target byte address as the op index the map gives it; the op's own index when the
      map has no entry for it. */
  function OpTarget(p: Prog, t: Word, at: nat): nat {
    if t / 2 % 2 == 0 && t / 4 < |p.code| && Head(p.plan, t / 4) then OpAt(p.plan, t / 4) else at
  }

  /** An op placed at index `at`: its target, if it has one, as an op index. */
  function Placed(p: Prog, op: Op, at: nat): Op {
    match op
    case One(Branch(c, rs1, rs2, t)) => One(Branch(c, rs1, rs2, Wrap(OpTarget(p, t, at))))
    case One(Jal(rd, t)) => One(Jal(rd, Wrap(OpTarget(p, t, at))))
    case LoadBz(byte, rd, rs1, off, t, onZero) => LoadBz(byte, rd, rs1, off, Wrap(OpTarget(p, t, at)), onZero)
    case _ => op
  }

  /** Control at op address `next` corresponds to the source being at the head j. */
  predicate Lands(p: Prog, flow: Flow, j: nat) {
    Head(p.plan, j) &&
    match flow
    case Fall(q) => q == OpAt(p.plan, j)
    case Jump(q) => q == OpAt(p.plan, j)
    case Resume(q) => q == OpAt(p.plan, j)
    case JumpReg(t) => t == 4 * OpAt(p.plan, j)
    case Halt => false
  }

  /** The op's effect is the source outcome: same registers, memory and host state, and
      corresponding places to go on. A wild source run promises nothing. */
  ghost predicate Agrees<H>(p: Prog, src: Outcome<H>, e: Effect<H>, i: nat) {
    match src
    case Next(j, m) => e.m == m && Lands(p, e.flow, j)
    case Stopped(j, m) => e.m == m && e.flow.Halt? && j == i
    case Wild => true
  }

  /** The outcome of the instructions of the unit at i. */
  ghost function UnitRun<H>(p: Prog, env: Env<H>, i: nat, m: Machine<H>): Outcome<H> {
    if i < |p.plan.width| then SrcRun(p, env, p.plan.width[i], i, m) else Wild
  }

  /** They go on to the next unit with m'. */
  ghost predicate UnitLeaves<H>(p: Prog, env: Env<H>, i: nat, m: Machine<H>, m': Machine<H>) {
    i < |p.plan.width| && UnitRun(p, env, i, m) == Ahead(i, p.plan.width[i], m')
  }

  /** They do what `op` does at the unit's map entry. */
  ghost predicate RunsAs<H>(p: Prog, env: Env<H>, op: Op, i: nat, m: Machine<H>) {
    Ready(m.mem) && Agrees(p, UnitRun(p, env, i, m), Exec(env, op, OpAt(p.plan, i), m), i)
  }

  /** Instruction q is in the unit headed by i, behind the head. */
  predicate Hidden(pl: Plan, i: nat, q: nat) {
    i < |pl.width| && Head(pl, i) && i < q < i + pl.width[i]
  }

  lemma HiddenIsNotHead(pl: Plan, i: nat, q: nat)
    requires Hidden(pl, i, q)
    ensures !Head(pl, q)
  {
    if Head(pl, q) {
      ReachBetween(pl, 0, i, q);
      ReachForward(pl, i + pl.width[i], q);
    }
  }

  /** Instructions behind a head run as decoded: no relocation touches them. */
  lemma HiddenIsPlain(p: Prog, i: nat, q: nat)
    requires Accepted(p) && Hidden(p.plan, i, q)
    ensures q !in p.fix
  {
    HiddenIsNotHead(p.plan, i, q);
  }

  /** A possible jump target always heads a unit. */
  lemma TargetHeads(p: Prog, q: nat)
    requires Planned(p) && Hot(p, q)
    ensures Head(p.plan, q)
  {
    var pl := p.plan;
    forall h | 0 <= h < q && Reach(pl, 0, h)
      ensures h + pl.width[h] <= q
    {
      assert pl.width[h] == Step(p, h).width;
      if h + Width(p, h) > q {
        InteriorCold(p, h, q);
      }
    }
    ReachExposed(pl, 0, q);
  }

  /** The instruction after a control transfer heads a unit, so return addresses resolve. */
  lemma ReturnSiteHeads(p: Prog, c: nat)
    requires Planned(p) && c < |p.code| && EndsBlock(D(p, c))
    ensures Head(p.plan, c + 1)
  {
    var pl := p.plan;
    forall h | 0 <= h < c + 1 && Reach(pl, 0, h)
      ensures h + pl.width[h] <= c + 1
    {
      assert pl.width[h] == Step(p, h).width;
      if h + Width(p, h) > c + 1 {
        TransferLast(p, h, c);
      }
    }
    ReachExposed(pl, 0, c + 1);
  }

  /** The next unit's op index and renumbered address. */
  lemma AfterUnit(pl: Plan, i: nat)
    requires i < |pl.width| && Head(pl, i)
    ensures Head(pl, i + pl.width[i])
    ensures OpAt(pl, i + pl.width[i]) == OpAt(pl, i) + pl.words[i]
    ensures OpAt(pl, i + pl.width[i]) <= |pl.width|
  {
    NextHead(pl, i);
    OpAtBound(pl, i + pl.width[i]);
  }

  /** If t lies in the window, it heads a unit whose op index fits a word. */
  predicate Resolves(p: Prog, t: Word) {
    t % 4 == 0 && t / 4 < |p.code| ==> Head(p.plan, t / 4) && OpAt(p.plan, t / 4) < 0x1_0000_0000
  }

  /** Every direct target in the window does: it never falls back to the op itself. */
  lemma TargetResolves(p: Prog, i: nat, t: Word)
    requires Accepted(p) && i < |p.code| && DirectTarget(p.code[i], t)
    ensures Resolves(p, t)
  {
    hide Step, FinalOp;
    if t / 4 < |p.code| {
      assert Hot(p, t / 4);
      TargetHeads(p, t / 4);
      OpAtBound(p.plan, t / 4);
    }
  }

  /** A direct jump into the window lands on the op its placed target names. */
  lemma GotoLands<H>(p: Prog, i: nat, t: Word, at: nat, m: Machine<H>, e: Effect<H>)
    requires Resolves(p, t) && e.m == m && e.flow == Jump(Wrap(OpTarget(p, t, at)))
    ensures Agrees(p, Goto(p, t, m), e, i)
  {
    assert t % 4 == 0 ==> t / 2 % 2 == 0;
  }
}
