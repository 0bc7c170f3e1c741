/** What an op charges: the instructions it replaced. */
module FuelCharges {
  import opened Words
  import opened Isa
  import opened Machines
  import opened BulkOps
  import opened Fusion
  import opened Layout
  import opened Simulation
  import opened UnitSimulation
  import opened Frames
  import opened Evaluator

  /** The exact charge of unit i's op: its instructions, except that a load-immediate charges
      one (so a fused address formation charges one for two) and a bulk instruction adds the
      loop it replaced. */
  function UnitCharge<H>(p: Prog, env: Env<H>, i: nat, m: Machine<H>): nat {
    var u := Step(p, i);
    match u.op
    case LiLo(_, _) => 1
    case LiHi(_, _) => 1
    case One(Memop(f3, rd, rs1, rs2)) => Bulk(env, m, f3, rd, rs1, rs2).1 + 1
    case _ => u.width
  }

  /** The op at index q charges n. */
  predicate Charges<H>(env: Env<H>, op: Op, q: nat, m: Machine<H>, n: nat) {
    Ready(m.mem) && Exec(env, op, q, m).charge == n
  }

  /** An op's charge, kind by kind. */
  function OpPrice<H>(env: Env<H>, op: Op, m: Machine<H>): nat {
    match op
    case One(Memop(f3, rd, rs1, rs2)) => Bulk(env, m, f3, rd, rs1, rs2).1 + 1
    case One(_) => 1
    case LiLo(_, _) => 1
    case LiHi(_, _) => 1
    case Prologue(mask, _) => |RanksOf(mask)| + 1
    case Epilogue(mask, _) => |RanksOf(mask)| + 2
    case Vcall(_, _, _, _) => 3
    case _ => 2
  }

  lemma ExecCharges<H>(env: Env<H>, op: Op, q: nat, m: Machine<H>)
    requires Ready(m.mem)
    ensures Charges(env, op, q, m, OpPrice(env, op, m))
  {
    hide Wrap, Alu, Bulk, Taken, DoLoad, DoStore, RanksOf, SaveAll, RestoreAll, ClearBit0, Extend, DoLwlw, LoadInto, DoShadd, DoLwsw;
  }

  /** A frame op's mask names as many registers as its run has instructions. */
  lemma RanksCount(run: seq<Insn>, frame: int, mask: Mask)
    requires FrameMask(run, frame) == Some(mask)
    ensures |RanksOf(mask)| == |run|
  {
    hide FrameMask, RanksOf, Laid;
    CanonicalExact(run, frame);
  }

  lemma FrameCharge<H>(p: Prog, env: Env<H>, i: nat, m: Machine<H>, u: Unit)
    requires Step(p, i) == u && (IsPrologue(p, i, u) || IsEpilogue(p, i, u))
    ensures OpPrice(env, OpOf(p, i), m) == UnitCharge(p, env, i, m)
  {
    hide Step, RanksOf, OpOf, FrameMask, FinalOp, Bulk;
    if u.op.Prologue? {
      RanksCount(SavingRun(p, i), u.op.frame, u.op.mask);
    } else {
      RanksCount(RestoringRun(p, i), u.op.frame, u.op.mask);
    }
  }

  /** Fuel is the instruction count, up to the stated exceptions. */
  lemma ChargeExact<H>(p: Prog, env: Env<H>, i: nat, m: Machine<H>)
    requires Accepted(p) && i < |p.code| && Head(p.plan, i) && Ready(m.mem) && !D(p, i).Nop?
    ensures Charges(env, OpOf(p, i), OpAt(p.plan, i), m, UnitCharge(p, env, i, m))
  {
    hide Accepted, Charges, TryPrologue, TryEpilogue, Bulk, IsPrologue, IsEpilogue, Wrap, Signed;
    HeadsFormed(p, i);
    ExecCharges(env, OpOf(p, i), OpAt(p.plan, i), m);
    if TryPrologue(p, i).Some? {
      PrologueShape(p, i, Step(p, i));
      FrameCharge(p, env, i, m, Step(p, i));
    } else if TryEpilogue(p, i).Some? {
      EpilogueShape(p, i, Step(p, i));
      FrameCharge(p, env, i, m, Step(p, i));
    }
  }

  /** The unit is a fused address formation. */
  predicate FormsAddress(u: Unit) {
    u.width == 2 && (u.op.LiLo? || u.op.LiHi?)
  }

  /** The unit is a bulk instruction that charges for its loop. */
  predicate ChargesLoop<H>(env: Env<H>, m: Machine<H>, u: Unit) {
    match u.op
    case One(Memop(f3, rd, rs1, rs2)) => Bulk(env, m, f3, rd, rs1, rs2).1 > 0
    case _ => false
  }

  /** The exceptions in one place: the charge differs from the width exactly at a fused
      address formation and at a bulk instruction that charges for its loop. */
  lemma ChargeIsWidth<H>(p: Prog, env: Env<H>, i: nat, m: Machine<H>, u: Unit)
    requires u == Step(p, i) && !D(p, i).Nop?
    ensures UnitCharge(p, env, i, m) == u.width <==> !FormsAddress(u) && !ChargesLoop(env, m, u)
  {
    hide Bulk, Wrap, Signed, Canonical;
  }
}
