/** A fused prologue or epilogue does what the run of instructions it replaced does. */
module FrameSimulation {
  import opened Words
  import opened Isa
  import opened Machines
  import opened BulkOps
  import opened Fusion
  import opened SourceMachine
  import opened Evaluator
  import opened FrameStores

  // ---- the evaluator's walk as a list of stores or loads ----

  /** The word addresses below a, downward. */
  function DownAddrs(a: Word, n: nat): (s: seq<Word>)
    ensures |s| == n
    decreases n
  {
    if n == 0 then [] else [Wrap(a - 4)] + DownAddrs(Wrap(a - 4), n - 1)
  }

  function DownRels(q: nat, n: nat): (s: seq<nat>)
    requires 4 * n <= q
    ensures |s| == n && forall k :: 0 <= k < n ==> s[k] == q - 4 - 4 * k
    decreases n
  {
    if n == 0 then [] else [q - 4] + DownRels(q - 4, n - 1)
  }

  function RankRegs(ranks: seq<RankNo>): (s: seq<Reg>)
    ensures |s| == |ranks| && forall k :: 0 <= k < |s| ==> s[k] == RankReg(ranks[k])
  {
    if ranks == [] then [] else [RankReg(ranks[0])] + RankRegs(ranks[1..])
  }

  function ValuesOf(x: Regs, regs: seq<Reg>): (s: seq<Word>)
    ensures |s| == |regs| && forall k :: 0 <= k < |s| ==> s[k] == x[regs[k]]
  {
    if regs == [] then [] else [x[regs[0]]] + ValuesOf(x, regs[1..])
  }

  lemma {:induction false} DownAddrAt(a: Word, n: nat, k: nat)
    requires k < n
    ensures DownAddrs(a, n)[k] == Wrap(a - 4 - 4 * k)
    decreases n
  {
    if k > 0 {
      DownAddrAt(Wrap(a - 4), n - 1, k - 1);
      WrapAdd(a - 4, -4 - 4 * (k - 1));
    }
  }

  /** The frame's n slots below `top` are writable. */
  predicate FrameMapped(mem: Mem, top: Word, n: nat) {
    4 * n <= Rel(top, mem.wbase) <= |mem.ram|
  }

  lemma RelDown(top: Word, base: Word, c: nat)
    requires c <= Rel(top, base)
    ensures Rel(Wrap(top - c), base) == Rel(top, base) - c
  {
    WrapNear(top - base);
    WrapNear(top - c);
    WrapNear(Wrap(top - c) - base);
  }

  lemma FrameMappedAt(mem: Mem, top: Word, n: nat)
    requires mem.Valid() && FrameMapped(mem, top, n)
    ensures MappedAt(mem, DownAddrs(top, n), DownRels(Rel(top, mem.wbase), n))
  {
    var q := Rel(top, mem.wbase);
    forall k | 0 <= k < n
      ensures Rel(DownAddrs(top, n)[k], mem.wbase) == DownRels(q, n)[k]
    {
      DownAddrAt(top, n, k);
      RelDown(top, mem.wbase, 4 + 4 * k);
    }
  }

  lemma {:induction false} SlowSaveIsPuts<H>(env: Env<H>, h: H, mem: Mem, x: Regs, ranks: seq<RankNo>, a: Word)
    ensures SlowSave(env, h, mem, x, ranks, a) ==
            Puts(env, h, mem, DownAddrs(a, |ranks|), ValuesOf(x, RankRegs(ranks)))
    decreases |ranks|
  {
    hide Write, Wrap, RankReg;
    if ranks != [] {
      var a' := Wrap(a - 4);
      var (h1, mem1) := WriteWord(env, h, mem, a', x[RankReg(ranks[0])]);
      SlowSaveIsPuts(env, h1, mem1, x, ranks[1..], a');
      assert DownAddrs(a, |ranks|)[1..] == DownAddrs(a', |ranks[1..]|);
      assert ValuesOf(x, RankRegs(ranks))[1..] == ValuesOf(x, RankRegs(ranks[1..]));
    }
  }

  lemma {:induction false} FastSaveIsPut(ram: seq<Byte>, x: Regs, ranks: seq<RankNo>, q: nat)
    requires 4 * |ranks| <= q <= |ram|
    ensures FastSave(ram, x, ranks, q) == PutRam(ram, DownRels(q, |ranks|), ValuesOf(x, RankRegs(ranks)))
    decreases |ranks|
  {
    if ranks != [] {
      FastSaveIsPut(WriteLE(ram, q - 4, 4, x[RankReg(ranks[0])]), x, ranks[1..], q - 4);
      assert DownRels(q, |ranks|)[1..] == DownRels(q - 4, |ranks[1..]|);
      assert ValuesOf(x, RankRegs(ranks))[1..] == ValuesOf(x, RankRegs(ranks[1..]));
    }
  }

  /** The fast path is taken only when the band is writable, and then stores what the
      slow path would. */
  lemma FastAgreesWithSlow<H>(env: Env<H>, h: H, mem: Mem, x: Regs, ranks: seq<RankNo>, top: Word)
    requires Ready(mem) && |ranks| <= RANKS
    ensures SaveAll(env, h, mem, x, ranks, top) == SlowSave(env, h, mem, x, ranks, top)
  {
    if FrameTop(mem, top).Some? {
      var q := FrameTop(mem, top).value;
      SlowSaveIsPuts(env, h, mem, x, ranks, top);
      FastSaveIsPut(mem.ram, x, ranks, q);
      FrameMappedAt(mem, top, |ranks|);
      PutsMapped(env, h, mem, DownAddrs(top, |ranks|), ValuesOf(x, RankRegs(ranks)), DownRels(q, |ranks|));
    }
  }

  /** The engine's one-compare test of an offset against a region of len bytes. */
  predicate BandTest(rel: Word, len: Word) {
    Wrap(rel - SAVE_SPAN) <= Wrap(len - SAVE_SPAN)
  }

  /** The test finds exactly the writable bands, for every offset, if and only if the region
      holds a whole band: below that it lets offsets past the end through. */
  lemma BandTestExact(len: Word)
    ensures (forall rel: Word :: BandTest(rel, len) <==> SAVE_SPAN <= rel <= len) <==> len >= SAVE_SPAN
  {
    WrapNear(len - SAVE_SPAN);
    if len < SAVE_SPAN {
      assert BandTest(2 * SAVE_SPAN, len);
    } else {
      forall rel: Word
        ensures BandTest(rel, len) <==> SAVE_SPAN <= rel <= len
      {
        WrapNear(rel - SAVE_SPAN);
      }
    }
  }

  lemma {:induction false} SlowRestoreIsGets<H>(env: Env<H>, m: Machine<H>, ranks: seq<RankNo>, a: Word)
    ensures SlowRestore(env, m, ranks, a) == Gets(env, m, RankRegs(ranks), DownAddrs(a, |ranks|))
    decreases |ranks|
  {
    hide Read, Wrap, RankReg;
    if ranks != [] {
      var a' := Wrap(a - 4);
      SlowRestoreIsGets(env, GetWord(env, m, RankReg(ranks[0]), a'), ranks[1..], a');
      assert DownAddrs(a, |ranks|)[1..] == DownAddrs(a', |ranks[1..]|);
      assert RankRegs(ranks)[1..] == RankRegs(ranks[1..]);
    }
  }

  lemma {:induction false} FastRestoreIsGet(ram: seq<Byte>, x: Regs, ranks: seq<RankNo>, q: nat)
    requires 4 * |ranks| <= q <= |ram|
    ensures FastRestore(ram, x, ranks, q) == GetRam(ram, x, RankRegs(ranks), DownRels(q, |ranks|))
    decreases |ranks|
  {
    if ranks != [] {
      FastRestoreIsGet(ram, x[RankReg(ranks[0]) := ReadLE(ram, q - 4, 4)], ranks[1..], q - 4);
      assert DownRels(q, |ranks|)[1..] == DownRels(q - 4, |ranks[1..]|);
      assert RankRegs(ranks)[1..] == RankRegs(ranks[1..]);
    }
  }

  lemma FastRestoreAgrees<H>(env: Env<H>, m: Machine<H>, ranks: seq<RankNo>, top: Word)
    requires Ready(m.mem) && |ranks| <= RANKS
    ensures RestoreAll(env, m, ranks, top) == SlowRestore(env, m, ranks, top)
  {
    if FrameTop(m.mem, top).Some? {
      var q := FrameTop(m.mem, top).value;
      SlowRestoreIsGets(env, m, ranks, top);
      FastRestoreIsGet(m.mem.ram, m.x, ranks, q);
      FrameMappedAt(m.mem, top, |ranks|);
      GetsMapped(env, m, RankRegs(ranks), DownAddrs(top, |ranks|), DownRels(q, |ranks|));
    }
  }

  // ---- the source run as a list of stores or loads ----

  function TextAddrs(run: seq<Insn>, base: Word): (s: seq<Word>)
    ensures |s| == |run|
  {
    if run == [] then [] else [Wrap(base + FrameOff(run[0]))] + TextAddrs(run[1..], base)
  }

  lemma {:induction false} TextAddrAt(run: seq<Insn>, base: Word, k: nat)
    requires k < |run|
    ensures TextAddrs(run, base)[k] == Wrap(base + FrameOff(run[k]))
    decreases k
  {
    if k > 0 {
      TextAddrAt(run[1..], base, k - 1);
    }
  }

  predicate AllSaves(run: seq<Insn>) {
    forall k :: 0 <= k < |run| ==> IsSave(run[k])
  }

  predicate AllRestores(run: seq<Insn>) {
    forall k :: 0 <= k < |run| ==> IsRestore(run[k])
  }

  ghost predicate RunsAt(p: Prog, o: nat, run: seq<Insn>) {
    o + |run| <= |p.code| && forall k :: 0 <= k < |run| ==> Cur(p, o + k) == run[k]
  }

  lemma SignedImm(base: Word, imm: Word)
    ensures Wrap(base + Signed(imm)) == Wrap(base + imm)
  {
  }

  function Sp<H>(m: Machine<H>): Word {
    m.x[2]
  }

  /** What a save leaves of memory and host, based at the stack pointer. */
  function Saved<H>(env: Env<H>, m: Machine<H>, d: Insn): Machine<H> {
    var (h, mem) := WriteWord(env, m.host, m.mem, Wrap(m.x[2] + FrameOff(d)), m.x[SavedReg(d)]);
    Machine(m.x, mem, h)
  }

  function Restored<H>(env: Env<H>, m: Machine<H>, d: Insn): Machine<H> {
    GetWord(env, m, SavedReg(d), Wrap(m.x[2] + FrameOff(d)))
  }

  lemma StepSave<H>(p: Prog, env: Env<H>, o: nat, m: Machine<H>, d: Insn)
    requires o < |p.code| && Cur(p, o) == d && IsSave(d)
    ensures SrcStep(p, env, o, m) == Onward(o, Saved(env, m, d))
  {
    hide Bulk, Land, Goto, LoadInto, Alu, Taken, Cur, Write, Wrap, Signed;
    SignedImm(m.x[2], d.imm);
  }

  lemma StepRestore<H>(p: Prog, env: Env<H>, o: nat, m: Machine<H>, d: Insn)
    requires o < |p.code| && Cur(p, o) == d && IsRestore(d)
    ensures SrcStep(p, env, o, m) == Onward(o, Restored(env, m, d)) && SavedReg(d) != 2
  {
    hide Bulk, Land, Goto, DoStore, Alu, Taken, Cur, Read, Wrap, Signed;
    SignedImm(m.x[2], d.imm);
  }

  lemma RunsAtTail(p: Prog, o: nat, run: seq<Insn>)
    requires RunsAt(p, o, run) && run != []
    ensures Cur(p, o) == run[0] && RunsAt(p, o + 1, run[1..])
  {
    hide Cur;
    assert Cur(p, o + 0) == run[0];
    forall k | 0 <= k < |run[1..]|
      ensures Cur(p, o + 1 + k) == run[1..][k]
    {
      assert Cur(p, o + (1 + k)) == run[1 + k];
    }
  }

  /** The run's saves, based at `base`, of the registers x. */
  function SavedAll<H>(env: Env<H>, m: Machine<H>, x: Regs, base: Word, run: seq<Insn>): Machine<H> {
    var (h, mem) := Puts(env, m.host, m.mem, TextAddrs(run, base), ValuesOf(x, RegsOf(run)));
    Machine(m.x, mem, h)
  }

  function RestoredAll<H>(env: Env<H>, m: Machine<H>, run: seq<Insn>): Machine<H> {
    Gets(env, m, RegsOf(run), TextAddrs(run, Sp(m)))
  }

  /** The whole run leaves m'. */
  ghost predicate Leaves<H>(p: Prog, env: Env<H>, o: nat, run: seq<Insn>, m: Machine<H>, m': Machine<H>) {
    SrcRun(p, env, |run|, o, m) == Ahead(o, |run|, m')
  }

  lemma {:induction false} SavesRun<H>(p: Prog, env: Env<H>, o: nat, run: seq<Insn>, m: Machine<H>, sp: Word)
    requires RunsAt(p, o, run) && AllSaves(run) && sp == Sp(m)
    ensures Leaves(p, env, o, run, m, SavedAll(env, m, m.x, sp, run))
    decreases |run|
  {
    hide WriteWord, Wrap, SrcStep, Cur, IsSave;
    if run != [] {
      RunsAtTail(p, o, run);
      StepSave(p, env, o, m, run[0]);
      var m1 := Saved(env, m, run[0]);
      SavesRun(p, env, o + 1, run[1..], m1, sp);
      assert TextAddrs(run, sp)[1..] == TextAddrs(run[1..], sp);
      assert ValuesOf(m.x, RegsOf(run))[1..] == ValuesOf(m.x, RegsOf(run[1..]));
    }
  }

  lemma {:induction false} RestoresRun<H>(p: Prog, env: Env<H>, o: nat, run: seq<Insn>, m: Machine<H>, sp: Word, m': Machine<H>)
    requires RunsAt(p, o, run) && AllRestores(run) && sp == Sp(m) && m' == RestoredAll(env, m, run)
    ensures Leaves(p, env, o, run, m, m') && Sp(m') == sp
    decreases |run|
  {
    hide ReadWord, Wrap, SrcStep, Cur, IsRestore;
    if run != [] {
      RunsAtTail(p, o, run);
      StepRestore(p, env, o, m, run[0]);
      var m1 := Restored(env, m, run[0]);
      assert TextAddrs(run, sp)[1..] == TextAddrs(run[1..], sp);
      assert RegsOf(run)[1..] == RegsOf(run[1..]);
      RestoresRun(p, env, o + 1, run[1..], m1, sp, m');
    }
  }
}
