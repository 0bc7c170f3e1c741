/** An image under the embedding run loop: every call leaves the guest where its source program is. */
module GuestRuns {
  import opened Words
  import opened Machines
  import opened Fusion
  import opened Layout
  import opened SourceMachine
  import opened Simulation
  import opened UnitSimulation
  import opened Transcoding
  import opened WholeRuns
  import opened SourceFuel
  import opened Batches
  import opened FuelSlices

  lemma StreamFits(p: Prog, ops: seq<Word>)
    requires Planned(p) && Emitted(p, ops)
    ensures Addressable(ops)
  {
    hide Step, OpOf;
    EndIsHead(p.plan);
    OpAtBound(p.plan, |p.code|);
  }

  /** A source place and an engine's resume address name the same op. */
  ghost predicate ResumesAt(p: Prog, pc: Word, j: nat) {
    j < |p.code| && Head(p.plan, j) && pc / 4 == OpAt(p.plan, j)
  }

  /** The engine's call ended where the source machine is after n instructions from i: paused at
      the corresponding instruction or stopped there by a handler, with the same machine; it
      charged what those instructions cost, and something. */
  ghost predicate EndsAtSource<H>(p: Prog, env: Env<H>, i: nat, m: Machine<H>, r: End<H>, n: nat) {
    r.k == FuelOf(p, env, n, i, m) && r.k >= 1 &&
    match SrcRun(p, env, n, i, m)
    case Next(j, m') => r.how.Paused? && r.m == m' && ResumesAt(p, r.pc, j)
    case Stopped(j, m') => r.how.Ended? && r.m == m' && ResumesAt(p, r.pc, j)
    case Wild => false
  }

  /** A batch from q that is not lost charges something. */
  predicate Spends<H>(ops: seq<Word>, env: Env<H>, q: nat, m: Machine<H>, max: nat) {
    var r := Batch(ops, env, q, m, 0, max);
    r.how.Lost? || r.k >= 1
  }

  lemma BatchSpends<H>(p: Prog, ops: seq<Word>, env: Env<H>, q: nat, m: Machine<H>, max: nat)
    requires Accepted(p) && Emitted(p, ops)
    ensures Spends(ops, env, q, m, max)
  {
    hide Emitted, Marked, Linked, Step, Batch, TargetNear;
    StreamFits(p, ops);
    BatchCharges(ops, env, q, m, 0, max, Batch(ops, env, q, m, 0, max));
  }

  lemma PlaceFits(p: Prog, j: nat)
    requires Accepted(p) && j < |p.code| && Head(p.plan, j)
    ensures Wrap(4 * OpAt(p.plan, j)) == 4 * OpAt(p.plan, j)
  {
    hide Step, FinalOp, Marked, Linked, TargetNear;
    OpAtBound(p.plan, j);
  }

  /** One engine call on an image, under any budget: it is never lost and never charges nothing,
      and it ends where the source program does. */
  lemma CallMatchesSource<H(!new)>(p: Prog, ops: seq<Word>, env: Env<H>, i: nat, m: Machine<H>, pc: Word, max: nat) returns (n: nat)
    requires Started(p, ops, env, i, m) && ResumesAt(p, pc, i)
    ensures EndsAtSource(p, env, i, m, Loop(ops, env, pc, m, max), n)
  {
    hide Accepted, Emitted, SafeRun, GoodEnv, FuelOf, SrcRun, OpRun, OpFuel, Batch, Wrap;
    Landed(p, ops, env, i, m);
    var k := BatchIsRun(ops, env, pc / 4, m, 0, max);
    n := Preserves(p, ops, env, i, m, k);
    BatchSpends(p, ops, env, pc / 4, m, max);
    match SrcRun(p, env, n, i, m)
    case Next(j, _) => PlaceFits(p, j);
    case Stopped(j, _) => PlaceFits(p, j);
  }

  lemma StartedFits<H(!new)>(p: Prog, ops: seq<Word>, env: Env<H>, i: nat, m: Machine<H>)
    requires Started(p, ops, env, i, m)
    ensures Addressable(ops)
  {
    hide Emitted, GoodEnv, SafeRun, Marked, Linked, Step, TargetNear;
    StreamFits(p, ops);
  }

  /** An image never sends the evaluator's cursor off its ops. */
  lemma ImageContained<H(!new)>(p: Prog, ops: seq<Word>, env: Env<H>, i: nat, m: Machine<H>, pc: Word)
    requires Started(p, ops, env, i, m) && ResumesAt(p, pc, i)
    ensures Contained(ops, env, pc, m)
  {
    hide Started, Loop, ResumesAt, FuelOf, SrcRun;
    StartedFits(p, ops, env, i, m);
    forall max: nat
      ensures !Loop(ops, env, pc, m, max).how.Lost?
    {
      var n := CallMatchesSource(p, ops, env, i, m, pc, max);
    }
  }

  /** The guest ended where its source program does after n instructions: still running at a
      corresponding place with at least `fuel` used, or stopped by the same handler in the same
      state, its status what the hooks say of the host that handler left; the fuel used is exactly
      what those instructions cost. */
  ghost predicate GuestEnds<H>(p: Prog, env: Env<H>, verdict: H -> Status, i: nat, m: Machine<H>, fuel: nat, r: Ran<H>, n: nat) {
    !r.astray && r.used == FuelOf(p, env, n, i, m) &&
    match SrcRun(p, env, n, i, m)
    case Next(j, m') => r.g.m == m' && ResumesAt(p, r.g.pc, j) && StatusOf(verdict, r.g) == Runnable && r.used >= fuel
    case Stopped(j, m') => r.g.m == m' && ResumesAt(p, r.g.pc, j) && StatusOf(verdict, r.g) == verdict(m'.host) != Runnable
    case Wild => false
  }

  /** A runnable guest of an image, at source instruction i. */
  ghost predicate Embedded<H(!new)>(p: Prog, ops: seq<Word>, env: Env<H>, verdict: H -> Status, i: nat, g: Guest<H>) {
    Started(p, ops, env, i, g.m) && ResumesAt(p, g.pc, i) && !g.trapped && Honest(env, verdict) && Live(verdict, g.m.host)
  }

  lemma EmbeddedRuns<H(!new)>(p: Prog, ops: seq<Word>, env: Env<H>, verdict: H -> Status, i: nat, g: Guest<H>)
    requires Embedded(p, ops, env, verdict, i, g)
    ensures Runs(ops, env, verdict, g)
  {
    hide Started, Contained, Honest;
    ImageContained(p, ops, env, i, g.m, g.pc);
  }

  /** Wherever a safe run comes to a head, its op is inside the stream. */
  lemma PlaceInside<H(!new)>(p: Prog, ops: seq<Word>, env: Env<H>, i: nat, m: Machine<H>, n: nat, j: nat, m': Machine<H>, pc: Word)
    requires Started(p, ops, env, i, m) && SrcRun(p, env, n, i, m) == Next(j, m') && ResumesAt(p, pc, j)
    ensures pc < 4 * |ops|
  {
    hide Accepted, Emitted, SafeRun, GoodEnv, SrcRun;
    SafeLater(p, env, i, m, n, j, m');
    Landed(p, ops, env, j, m');
  }

  lemma SliceMatchesSource<H(!new)>(p: Prog, ops: seq<Word>, env: Env<H>, verdict: H -> Status, i: nat, g: Guest<H>, fuel: nat)
      returns (n: nat)
    requires Embedded(p, ops, env, verdict, i, g) && fuel >= 1
    ensures GuestEnds(p, env, verdict, i, g.m, fuel, RunSlice(ops, env, verdict, g, fuel), n)
  {
    hide Started, Contained, Honest, Loop, RunSlice, SrcRun, FuelOf, ResumesAt;
    EmbeddedRuns(p, ops, env, verdict, i, g);
    SliceIsBatch(ops, env, verdict, g, fuel);
    n := CallMatchesSource(p, ops, env, i, g.m, g.pc, fuel);
    var r := Loop(ops, env, g.pc, g.m, fuel);
    match SrcRun(p, env, n, i, g.m)
    case Next(j, m') =>
      PlaceInside(p, ops, env, i, g.m, n, j, m', r.pc);
      LoopCharges(ops, env, g.pc, g.m, fuel, r);
    case Stopped(_, _) =>
  }

  /** However the fuel is sliced, the guest ends where its source program does. */
  lemma GuestMatchesSource<H(!new)>(p: Prog, ops: seq<Word>, env: Env<H>, verdict: H -> Status, i: nat, g: Guest<H>, slices: seq<nat>)
      returns (n: nat)
    requires Embedded(p, ops, env, verdict, i, g) && Positive(slices)
    ensures GuestEnds(p, env, verdict, i, g.m, Sum(slices), RunSlices(ops, env, verdict, g, slices), n)
  {
    hide Embedded, RunSlice, RunSlices, SrcRun, FuelOf, ResumesAt, Runs;
    EmbeddedRuns(p, ops, env, verdict, i, g);
    var fuel := SlicesAsOne(ops, env, verdict, g, slices);
    n := SliceMatchesSource(p, ops, env, verdict, i, g, fuel);
  }

  /** Before its last straight-line run of ops, from the instruction reached after n of them, the
      guest had used less than its fuel: it goes over by one such run at most. */
  ghost predicate OneRunOver<H>(p: Prog, env: Env<H>, i: nat, m: Machine<H>, fuel: nat, used: nat, n: nat) {
    FuelOf(p, env, n, i, m) < fuel &&
    match SrcRun(p, env, n, i, m)
    case Next(j, m') => exists ops :: Emitted(p, ops) && used == FuelOf(p, env, n, i, m) + StraightFuel(ops, env, OpAt(p.plan, j), m')
    case _ => false
  }

  lemma SliceOverrun<H(!new)>(p: Prog, ops: seq<Word>, env: Env<H>, verdict: H -> Status, i: nat, g: Guest<H>, fuel: nat)
      returns (n: nat)
    requires Embedded(p, ops, env, verdict, i, g) && fuel >= 1
    ensures OneRunOver(p, env, i, g.m, fuel, RunSlice(ops, env, verdict, g, fuel).used, n)
  {
    hide Accepted, Emitted, SafeRun, GoodEnv, RunSlice, SrcRun, FuelOf, StraightFuel, OpRun, OpFuel, Honest;
    EmbeddedRuns(p, ops, env, verdict, i, g);
    var k := SliceOvershoot(ops, env, verdict, g, fuel);
    Landed(p, ops, env, i, g.m);
    n := Preserves(p, ops, env, i, g.m, k);
    assert Emitted(p, ops);
  }
}
