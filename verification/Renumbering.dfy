/** The renumbered address space: where code addresses point, and why a program that only
    jumps to addresses it was given never leaves the map. */
module Renumbering {
  import opened Words
  import opened Isa
  import opened Machines
  import opened BulkOps
  import opened Fusion
  import opened Layout
  import opened SourceMachine
  import opened Simulation
  import opened SingleSimulation
  import opened UnitSimulation
  import opened Transcoding
  import opened WholeRuns

  // ---- equal addresses ----

  /** Two heads share an op index only across dropped nops. */
  lemma {:induction false} BetweenEqual(p: Prog, i: nat, j: nat, q: nat)
    requires Planned(p) && Reach(p.plan, i, j) && WordsBetween(p.plan, i, j) == 0 && i <= q < j
    ensures q < |p.code| && D(p, q).Nop?
    decreases q - i
  {
    hide Step;
    NopAlone(p, i);
    assert p.plan.width[i] == Step(p, i).width;
    if q > i {
      BetweenEqual(p, i + 1, j, q);
    }
  }

  /** The machine walks from i to j with nothing changed. */
  ghost predicate Walks<H>(p: Prog, env: Env<H>, i: nat, j: nat, m: Machine<H>) {
    i <= j && SrcRun(p, env, j - i, i, m) == Next(j, m)
  }

  /** From a head over the nops to another with the same op index, nothing happens. */
  lemma {:induction false} CrossNops<H>(p: Prog, env: Env<H>, i: nat, j: nat, m: Machine<H>)
    requires Planned(p) && Linked(p) && Reach(p.plan, i, j) && WordsBetween(p.plan, i, j) == 0
    ensures Walks(p, env, i, j, m)
    decreases j - i
  {
    hide Step, SrcStep, FinalOp;
    ReachForward(p.plan, i, j);
    if i < j {
      BetweenEqual(p, i, j, i);
      NopAlone(p, i);
      assert p.plan.width[i] == Width(p, i);
      NopStutters(p, env, i, m);
      CrossNops(p, env, i + 1, j, m);
    }
  }

  /** The places i and j are one and the same up to nops. */
  ghost predicate SamePlace<H>(p: Prog, env: Env<H>, i: nat, j: nat, m: Machine<H>) {
    Walks(p, env, i, j, m) || Walks(p, env, j, i, m)
  }

  lemma EqualIsSame<H>(p: Prog, env: Env<H>, i: nat, j: nat, m: Machine<H>)
    requires Planned(p) && Linked(p) && Head(p.plan, i) && Head(p.plan, j) && OpAt(p.plan, i) == OpAt(p.plan, j)
    ensures SamePlace(p, env, i, j, m)
  {
    hide Planned, Linked, Walks;
    if i <= j {
      ReachBetween(p.plan, 0, i, j);
      CrossNops(p, env, i, j, m);
    } else {
      ReachBetween(p.plan, 0, j, i);
      CrossNops(p, env, j, i, m);
    }
  }

  /** An indirect jump to t goes to instruction j, up to nops. */
  ghost predicate ComesTo<H>(p: Prog, env: Env<H>, t: Word, j: nat, m: Machine<H>) {
    t % 4 == 0 &&
    match Land(p, t)
    case Some(k) => SamePlace(p, env, j, k, m)
    case None => false
  }

  /** A jump through the renumbered address of a head comes back to that very instruction: the
      renumbering can be inverted, up to nops, on every head. */
  lemma JumpReturns<H>(p: Prog, env: Env<H>, j: nat, m: Machine<H>)
    requires Planned(p) && Linked(p) && Head(p.plan, j)
    ensures ComesTo(p, env, Rho(p, j), j, m)
  {
    hide Step, Linked, SamePlace;
    OpAtBound(p.plan, j);
    assert LandsAt(p, Rho(p, j), j);
    EqualIsSame(p, env, j, Land(p, Rho(p, j)).value, m);
  }

  // ---- known places ----

  /** A place whose address the program may hold: a target the map was told of, or the
      instruction after a call. */
  predicate Known(p: Prog, j: nat) {
    j < |p.code| && (Hot(p, j) || (j >= 1 && EndsBlock(D(p, j - 1))))
  }

  lemma KnownHeads(p: Prog, j: nat)
    requires Planned(p) && Known(p, j)
    ensures Head(p.plan, j)
  {
    hide Step;
    if Hot(p, j) { TargetHeads(p, j); } else { ReturnSiteHeads(p, j - 1); }
  }

  /** The address an indirect jump at j goes to, if there is one there. */
  function JumpAddress<H>(p: Prog, j: nat, m: Machine<H>): Option<Word> {
    match Cur(p, j)
    case Jalr(_, rs1, imm) => Some(ClearBit0(Wrap(m.x[rs1] + imm)))
    case _ => None
  }

  ghost predicate NamesKnown(p: Prog, t: Word) {
    exists k :: Known(p, k) && t == Rho(p, k)
  }

  /** Every link a call leaves names a known place, when the call is not the last instruction. */
  lemma LinkIsKnown(p: Prog, i: nat, j: nat)
    requires Planned(p) && j == i + 1 < |p.code| && (Cur(p, i).Jal? || Cur(p, i).Jalr?)
    ensures NamesKnown(p, Rho(p, j))
  {
    hide Step;
    assert EndsBlock(D(p, i));
    assert Known(p, j);
  }

  /** There is code, and its last instruction is not a dropped nop. */
  predicate Ends(p: Prog) {
    |p.code| > 0 && !D(p, |p.code| - 1).Nop?
  }

  /** The direct transfer at j is taken. */
  predicate TakesDirect<H>(p: Prog, j: nat, m: Machine<H>) {
    match Cur(p, j)
    case Jal(_, _) => true
    case Branch(c, rs1, rs2, _) => Taken(c, m.x[rs1], m.x[rs2])
    case _ => false
  }

  /** The next step goes where the transcoder knows: an indirect jump to a known place, a direct
      transfer that is taken to an aligned target in the window, and past the last instruction
      nothing but a trap that stops. */
  ghost predicate GoesToKnown<H>(p: Prog, env: Env<H>, j: nat, m: Machine<H>) {
    match JumpAddress(p, j, m)
    case Some(t) => NamesKnown(p, t)
    case None =>
      if TakesDirect(p, j, m) then Cur(p, j).target % 4 == 0 && Cur(p, j).target / 4 < |p.code|
      else j + 1 == |p.code| ==> SrcStep(p, env, j, m).Stopped?
  }

  ghost predicate KnownAt<H>(p: Prog, env: Env<H>, i: nat, m: Machine<H>, n: nat) {
    match SrcRun(p, env, n, i, m)
    case Next(j, m') => j < |p.code| ==> GoesToKnown(p, env, j, m')
    case _ => true
  }

  /** The run is still inside the code, or a handler stopped it. */
  predicate StillInside<H>(p: Prog, o: Outcome<H>) {
    match o
    case Next(j, _) => j < |p.code|
    case Stopped(_, _) => true
    case Wild => false
  }

  /** An indirect jump to t goes somewhere inside the code. */
  ghost predicate LandsInside(p: Prog, t: Word) {
    match Land(p, t)
    case Some(j) => j < |p.code|
    case None => false
  }

  /** A landing place chosen among the nops before a known place is still inside the code. */
  lemma NamedLands(p: Prog, t: Word)
    requires Planned(p) && Ends(p) && NamesKnown(p, t)
    ensures LandsInside(p, t)
  {
    hide Step;
    var k :| Known(p, k) && t == Rho(p, k);
    KnownHeads(p, k);
    OpAtBound(p.plan, k);
    assert LandsAt(p, t, k);
    var j := Land(p, t).value;
    ReachForward(p.plan, 0, j);
    if j == |p.code| {
      ReachBetween(p.plan, 0, k, j);
      BetweenEqual(p, k, j, |p.code| - 1);
    }
  }

  lemma StepStaysIn<H>(p: Prog, env: Env<H>, i: nat, m: Machine<H>)
    requires Planned(p) && Ends(p) && i < |p.code| && GoesToKnown(p, env, i, m)
    ensures StillInside(p, SrcStep(p, env, i, m))
  {
    hide Planned, Ends, Land, NamesKnown, Cur, Taken, Bulk, DoLoad, DoStore, Alu, ClearBit0;
    if JumpAddress(p, i, m).Some? {
      NamedLands(p, JumpAddress(p, i, m).value);
    }
  }

  lemma {:induction false} StaysIn<H>(p: Prog, env: Env<H>, i: nat, m: Machine<H>, n: nat)
    requires Planned(p) && Ends(p) && i < |p.code|
    requires forall k: nat :: KnownAt(p, env, i, m, k)
    ensures StillInside(p, SrcRun(p, env, n, i, m))
  {
    hide Planned, Ends, SrcStep, SrcRun, GoesToKnown;
    Run1(p, env, i, m);
    if n > 0 {
      StaysIn(p, env, i, m, n - 1);
      SrcRunSplit(p, env, n - 1, 1, i, m);
      assert KnownAt(p, env, i, m, n - 1);
      match SrcRun(p, env, n - 1, i, m)
      case Next(j, m') =>
        StepStaysIn(p, env, j, m');
        Run1(p, env, j, m');
      case Stopped(_, _) =>
    }
  }

  /** The unit the run has come to, if it is at one, is safe. */
  ghost predicate UnitsSafe<H>(p: Prog, env: Env<H>, i: nat, m: Machine<H>, n: nat) {
    match SrcRun(p, env, n, i, m)
    case Next(j, m') => Head(p.plan, j) ==> UnitSafe(p, env, j, m')
    case _ => true
  }

  /** What a run needs to be safe, in the program's own terms: as far as it gets, taken targets
      in the window, no falling off the end, and indirect jumps only to addresses the transcoder
      was told of or calls left. */
  lemma KnownJumpsAreSafe<H>(p: Prog, env: Env<H>, i: nat, m: Machine<H>)
    requires Planned(p) && Ends(p) && i < |p.code|
    requires forall n: nat :: KnownAt(p, env, i, m, n)
    requires forall n: nat :: UnitsSafe(p, env, i, m, n)
    ensures SafeRun(p, env, i, m)
  {
    hide Planned, SrcRun, UnitSafe, Ends, KnownAt;
    forall n: nat
      ensures SafeAt(p, env, i, m, n)
    {
      StaysIn(p, env, i, m, n);
      assert UnitsSafe(p, env, i, m, n);
    }
  }
}
