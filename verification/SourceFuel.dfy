/** The fuel of a source run: what its instructions cost, one by one. */
module SourceFuel {
  import opened Words
  import opened Isa
  import opened Machines
  import opened BulkOps
  import opened Fusion
  import opened Layout
  import opened SourceMachine
  import opened Simulation
  import opened FuelCharges

  /** The second half of an address formation fused into one load-immediate. */
  predicate Completes(p: Prog, q: nat) {
    1 <= q <= |p.code| && Head(p.plan, q - 1) && FormsAddress(Step(p, q - 1))
  }

  /** What one source instruction costs: one, except that a dropped nop and the second half of a
      fused address formation are free, and a bulk instruction also costs the loop it replaced. */
  function InsnFuel<H>(p: Prog, env: Env<H>, q: nat, m: Machine<H>): nat {
    if q >= |p.code| || D(p, q).Nop? || Completes(p, q) then 0
    else
      match D(p, q)
      case Memop(f3, rd, rs1, rs2) => 1 + Bulk(env, m, f3, rd, rs1, rs2).1
      case _ => 1
  }

  /** The fuel of n source instructions. */
  ghost function FuelOf<H>(p: Prog, env: Env<H>, n: nat, i: nat, m: Machine<H>): nat {
    if n == 0 then 0
    else
      InsnFuel(p, env, i, m) +
      match SrcStep(p, env, i, m)
      case Next(j, m') => FuelOf(p, env, n - 1, j, m')
      case _ => 0
  }

  /** The fuel of up to n more instructions. */
  ghost function FuelFrom<H>(p: Prog, env: Env<H>, n: nat, o: Outcome<H>): nat {
    match o
    case Next(j, m) => FuelOf(p, env, n, j, m)
    case _ => 0
  }

  lemma {:induction false} FuelSplit<H>(p: Prog, env: Env<H>, a: nat, b: nat, i: nat, m: Machine<H>)
    ensures FuelOf(p, env, a + b, i, m) == FuelOf(p, env, a, i, m) + FuelFrom(p, env, b, SrcRun(p, env, a, i, m))
  {
    hide SrcStep, InsnFuel;
    if a > 0 {
      match SrcStep(p, env, i, m)
      case Next(j, m') => FuelSplit(p, env, a - 1, b, j, m');
      case _ =>
    }
  }

  lemma FuelOne<H>(p: Prog, env: Env<H>, i: nat, m: Machine<H>)
    ensures FuelOf(p, env, 0, i, m) == 0 && FuelOf(p, env, 1, i, m) == InsnFuel(p, env, i, m)
  {
    hide SrcStep, InsnFuel;
    match SrcStep(p, env, i, m)
    case Next(j, m') => assert FuelOf(p, env, 0, j, m') == 0;
    case _ =>
  }

  /** An instruction that transfers nothing goes on to the next one. */
  lemma GoesOn<H>(p: Prog, env: Env<H>, q: nat, m: Machine<H>) returns (m': Machine<H>)
    requires q < |p.code| && !EndsBlock(D(p, q))
    ensures SrcStep(p, env, q, m) == Onward(q, m')
  {
    hide Bulk, Land, Goto, DoLoad, DoStore, Alu, Taken;
    m' := SrcStep(p, env, q, m).m;
  }

  /** Neither dropped, nor fused away, nor a bulk instruction. */
  predicate Ordinary(p: Prog, q: nat) {
    q < |p.code| && !D(p, q).Nop? && !D(p, q).Memop? && !Completes(p, q)
  }

  /** Ordinary instructions from q on, of which only the last may transfer control. */
  predicate Straight(p: Prog, q: nat, k: nat) {
    && (forall r :: q <= r < q + k ==> Ordinary(p, r))
    && (forall r :: q <= r < q + k - 1 ==> !EndsBlock(D(p, r)))
  }

  lemma {:induction false} OrdinaryFuel<H>(p: Prog, env: Env<H>, q: nat, k: nat, m: Machine<H>)
    requires Straight(p, q, k)
    ensures FuelOf(p, env, k, q, m) == k
    decreases k
  {
    hide SrcStep, Completes, D, SrcRun, EndsBlock, FuelOf;
    FuelOne(p, env, q, m);
    if k > 0 {
      assert Ordinary(p, q) && InsnFuel(p, env, q, m) == 1;
      if k > 1 {
        var m' := GoesOn(p, env, q, m);
        Run1(p, env, q, m);
        FuelSplit(p, env, 1, k - 1, q, m);
        OrdinaryFuel(p, env, q + 1, k - 1, m');
      }
    }
  }

  /** The instructions of a unit, other than the second half of an address formation, are not
      fused away. */
  lemma NotFusedAway(p: Prog, i: nat, q: nat, u: Unit)
    requires Planned(p) && i < |p.code| && Head(p.plan, i) && Step(p, i) == u && i <= q < i + u.width
    requires q > i ==> !FormsAddress(u)
    ensures !Completes(p, q)
  {
    hide Step;
    assert p.plan.width[i] == u.width;
    if Completes(p, q) {
      if q == i {
        assert p.plan.width[q - 1] == Step(p, q - 1).width;
        HiddenIsNotHead(p.plan, q - 1, i);
      } else if q - 1 > i {
        HiddenIsNotHead(p.plan, i, q - 1);
      }
    }
  }

  /** A unit that fuses instructions and is not an address formation has neither dropped nor bulk
      instructions in it. */
  lemma FusedOrdinary(p: Prog, i: nat, q: nat)
    requires Width(p, i) > 1 && !FormsAddress(Step(p, i)) && i <= q < i + Width(p, i)
    ensures !D(p, q).Nop? && !D(p, q).Memop?
  {
    hide Canonical, Signed;
    assert i < q < i + 1 + SaveCount(p, i + 1, RANKS) ==> IsSave(D(p, q));
    assert q < i + RestoreCount(p, i, true, RANKS) ==> IsRestore(D(p, q));
    assert Width(p, i) <= 3 ==> q == i || q == i + 1 || q == i + 2;
  }

  lemma FusedUnitFuel<H>(p: Prog, env: Env<H>, i: nat, m: Machine<H>, u: Unit)
    requires Planned(p) && i < |p.code| && Head(p.plan, i) && Step(p, i) == u && u.width > 1 && !FormsAddress(u)
    ensures FuelOf(p, env, u.width, i, m) == u.width
  {
    hide SrcStep, Step, Completes, FuelOf, D, EndsBlock;
    assert u.width == Width(p, i);
    forall r | i <= r < i + u.width
      ensures Ordinary(p, r) && (r < i + u.width - 1 ==> !EndsBlock(D(p, r)))
    {
      FusedOrdinary(p, i, r);
      NotFusedAway(p, i, r, u);
      if EndsBlock(D(p, r)) { TransferLast(p, i, r); }
    }
    OrdinaryFuel(p, env, i, u.width, m);
  }

  /** An address formation starts with an auipc. */
  lemma AddressParts(p: Prog, i: nat)
    requires i < |p.code| && FormsAddress(Step(p, i))
    ensures D(p, i).Auipc?
  {
    hide Canonical, Signed;
  }

  lemma LaUnitFuel<H>(p: Prog, env: Env<H>, i: nat, m: Machine<H>, u: Unit)
    requires Planned(p) && i < |p.code| && Head(p.plan, i) && Step(p, i) == u && FormsAddress(u)
    ensures FuelOf(p, env, u.width, i, m) == 1
  {
    hide SrcStep, Step, FuelOf, TryPrologue, TryEpilogue, TryPair;
    NotFusedAway(p, i, i, u);
    AddressParts(p, i);
    var m1 := GoesOn(p, env, i, m);
    FuelSplit(p, env, 1, 1, i, m);
    Run1(p, env, i, m);
    FuelOne(p, env, i, m);
    FuelOne(p, env, i + 1, m1);
    assert Completes(p, i + 1);
  }

  /** A unit's instructions cost what its op charges. */
  lemma UnitFuel<H>(p: Prog, env: Env<H>, i: nat, m: Machine<H>, u: Unit)
    requires Planned(p) && i < |p.code| && Head(p.plan, i) && !D(p, i).Nop? && Step(p, i) == u
    ensures FuelOf(p, env, u.width, i, m) == UnitCharge(p, env, i, m)
  {
    hide SrcStep, FuelOf, Bulk, Canonical, Completes, Signed;
    if FormsAddress(u) {
      LaUnitFuel(p, env, i, m, u);
    } else if u.width > 1 {
      FusedUnitFuel(p, env, i, m, u);
    } else {
      NotFusedAway(p, i, i, u);
      FuelOne(p, env, i, m);
    }
  }
}
