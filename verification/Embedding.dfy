/** The whole way: a program is transcoded, linked and run, and the guest ends where the source
    program does. */
module Embedding {
  import opened Words
  import opened Isa
  import opened Machines
  import opened Harts
  import opened Fusion
  import opened SourceMachine
  import opened Evaluator
  import opened Simulation
  import opened Transcoding
  import opened WholeRuns
  import opened SourceFuel
  import opened Linking
  import opened Images
  import opened Batches
  import opened FuelSlices
  import opened GuestRuns
  import opened PurvaEngine

  /** What is asked of the program and its first machine, in source terms alone. */
  ghost predicate MayRun<H(!new)>(p: Prog, env: Env<H>, m: Machine<H>) {
    && p.code != [] && (forall i :: 0 <= i < |p.code| ==> TargetNear(i, p.code[i]))
    && (forall i :: 0 <= i < |p.code| && p.code[i].Memop? ==> p.code[i].rd != 0)
    && GoodEnv(env) && m.Valid() && Ready(m.mem) && SafeRun(p, env, 0, m)
  }

  /** The guest ended as the source machine did after n instructions: stopped by the same
      handler, its status what the hooks say of the host left there, or still runnable with its
      fuel used up, with the same registers, memory and host; and `used` is what those
      instructions cost. */
  ghost predicate EndsLikeSource<H>(p: Prog, env: Env<H>, verdict: H -> Status, fuel: nat, m0: Machine<H>, status: Status, used: nat,
                                    m: Machine<H>, n: nat) {
    used == FuelOf(p, env, n, 0, m0) &&
    match SrcRun(p, env, n, 0, m0)
    case Next(_, m') => m == m' && status == Runnable && used >= fuel
    case Stopped(_, m') => m == m' && status == verdict(m'.host) != Runnable
    case Wild => false
  }

  /** The guest used its fuel, and over it at most the last straight-line run of its ops. */
  ghost predicate Overran<H>(p: Prog, env: Env<H>, fuel: nat, m0: Machine<H>, used: nat) {
    exists n :: OneRunOver(p, env, 0, m0, fuel, used, n)
  }

  /** What a slice of a fresh guest comes to. */
  ghost predicate SliceEnds<H>(p: Prog, env: Env<H>, verdict: H -> Status, m: Machine<H>, fuel: nat, r: Ran<H>, n: nat) {
    !r.astray && EndsLikeSource(p, env, verdict, fuel, m, StatusOf(verdict, r.g), r.used, r.g.m, n) && Overran(p, env, fuel, m, r.used)
  }

  /** A guest as it is first loaded. */
  function Fresh<H>(m: Machine<H>): Guest<H> {
    Guest(m, 0, false)
  }

  lemma ImageRuns<H(!new)>(p: Prog, ops: seq<Word>, env: Env<H>, verdict: H -> Status, m: Machine<H>, fuel: nat) returns (n: nat)
    requires Planned(p) && Marked(p) && Linked(p) && Emitted(p, ops) && MayRun(p, env, m)
    requires Honest(env, verdict) && Live(verdict, m.host) && fuel >= 1
    ensures Addressable(ops) && SliceEnds(p, env, verdict, m, fuel, RunSlice(ops, env, verdict, Fresh(m), fuel), n)
  {
    hide Step, Linked, Emitted, Marked, SafeRun, GoodEnv, Honest, RunSlice, SrcRun, TargetNear, FuelOf, Live, OneRunOver;
    StreamFits(p, ops);
    n := SliceMatchesSource(p, ops, env, verdict, 0, Fresh(m), fuel);
    var k := SliceOverrun(p, ops, env, verdict, 0, Fresh(m), fuel);
  }

  /** Transcodes, links and runs a program for `fuel`. When the tool does not refuse, the hart is
      left as the source program leaves it. */
  method Embed<H(!new)>(code: seq<Insn>, ext: seq<Word>, fx: seq<Fixup>, refs: seq<DataRef>,
                        hart: Hart<H>, verdict: H -> Status, fuel: nat) returns (ok: bool, status: Status, used: nat)
    requires 4 * |code| <= 0x8000_0000 && (forall i :: 0 <= i < |code| ==> Encodable(code[i]))
    requires Relocates(code, fx, refs) && Covered(code, fx, refs)
    requires hart.Valid() && MayRun(ImageProg(code, ext, fx), hart.env, hart.Snapshot())
    requires Honest(hart.env, verdict) && verdict(hart.host).Runnable? && fuel >= 1
    modifies hart, hart.ram, hart.x
    ensures hart.Valid() && (ok <==> Acceptable(ImageProg(code, ext, fx), fx, refs))
    ensures !ok ==> hart.Snapshot() == old(hart.Snapshot())
    ensures ok ==> exists n ::
              EndsLikeSource(ImageProg(code, ext, fx), hart.env, verdict, fuel, old(hart.Snapshot()), status, used, hart.Snapshot(), n)
    ensures ok ==> Overran(ImageProg(code, ext, fx), hart.env, fuel, old(hart.Snapshot()), used)
  {
    hide Planned, Marked, Linked, Emitted, SafeRun, GoodEnv, Honest, RunSlice, SrcRun, TargetNear;
    hide Relocates, Covered, KeepsShape, FuelOf, Acceptable, Overran;
    ghost var p, m := ImageProg(code, ext, fx), hart.Snapshot();
    var ops, n;
    ok, ops, n := BuildImage(code, ext, fx, refs);
    status, used := Runnable, 0;
    if ok {
      ghost var count := ImageRuns(p, ops[..n], hart.env, verdict, m, fuel);
      var engine := new Engine(hart, ops[..n]);
      used := engine.RunFor(verdict, fuel);
      status := if engine.trapped then Trapped else verdict(hart.host);
      assert EndsLikeSource(p, hart.env, verdict, fuel, m, status, used, hart.Snapshot(), count);
    }
  }
}
