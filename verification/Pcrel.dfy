/** Address rewriting is exact: a patched auipc and each of its lo12 users form the op-space
    address of the symbol plus the addend, wherever fusion moved them. */
module Pcrel {
  import opened Words
  import opened Isa
  import opened Fusion
  import opened Layout
  import opened SourceMachine
  import opened Linking

  /** The 20-bit field holds hi20 modulo 2^20, so shifted up it is exact modulo 2^32. */
  lemma UpperField(h: int)
    ensures exists k: int :: Low20(Wrap(h)) * 0x1000 == h * 0x1000 + k * 0x1_0000_0000
  {
    var q1, q2 := h / 0x1_0000_0000, Wrap(h) / 0x10_0000;
    WrapMod(h);
    assert Wrap(h) % 0x10_0000 == Wrap(h) - 0x10_0000 * q2;
    var k := -(0x1000 * q1 + q2);
    assert (Wrap(h) % 0x10_0000) * 0x1000 == h * 0x1000 + k * 0x1_0000_0000;
  }

  /** hi20 and lo12 recombine: at the auipc's own op address they give symbol plus addend. */
  lemma SplitRecombines(atHi: nat, atSym: nat, addend: int)
    ensures var d := Delta(atHi, atSym, addend);
            Wrap(Wrap(Wrap(4 * atHi) + Low20(Wrap(Hi20(d))) * 0x1000) + Wrap(Lo12(d))) == Wrap(4 * atSym + addend)
  {
    hide Wrap;
    var d := Delta(atHi, atSym, addend);
    var u := Low20(Wrap(Hi20(d))) * 0x1000;
    UpperField(Hi20(d));
    var k: int :| u == Hi20(d) * 0x1000 + k * 0x1_0000_0000;
    WrapAdd(4 * atHi, u);
    var a := 4 * atHi + Hi20(d) * 0x1000;
    WrapTurns(a, k);
    assert 4 * atHi + u == a + k * 0x1_0000_0000;
    WrapAdd(a, Wrap(Lo12(d)));
    WrapAdd(Lo12(d), a);
    assert a + Lo12(d) == 4 * atSym + addend;
    assert Wrap(Lo12(d)) + a == a + Wrap(Lo12(d));
  }

  /** Two fixups agree wherever they meet: those that share an auipc name one symbol, those
      that share a completing instruction share the auipc, and no auipc completes another. */
  predicate Compatible(f: Fixup, g: Fixup) {
    && (f.hi / 4 == g.hi / 4 ==> f.sym / 4 == g.sym / 4 && f.addend == g.addend)
    && (f.lo / 4 == g.lo / 4 ==> f.hi / 4 == g.hi / 4)
    && f.hi / 4 != g.lo / 4 && g.hi / 4 != f.lo / 4
  }

  ghost predicate Paired(fx: seq<Fixup>) {
    forall f, g :: f in fx && g in fx ==> Compatible(f, g)
  }

  /** f's two immediates are in place. */
  ghost predicate Holds(p: Prog, f: Fixup) {
    && f.hi / 4 in p.fix && p.fix[f.hi / 4] == HiImm(p, f)
    && f.lo / 4 in p.fix && p.fix[f.lo / 4] == LoImm(p, f)
  }

  lemma FixHolds(p: Prog, f: Fixup)
    requires Compatible(f, f)
    ensures Holds(WithFix(p, f), f)
  {
    hide Wrap, Hi20, Lo12, Low20, Delta;
  }

  lemma FixKeepsHolding(p: Prog, f: Fixup, g: Fixup)
    requires Holds(p, f) && Compatible(f, g)
    ensures Holds(WithFix(p, g), f)
  {
    hide Wrap, Hi20, Lo12, Low20, Delta;
    assert FixDelta(WithFix(p, g), f) == FixDelta(p, f);
  }

  lemma {:induction false} LaterFixesKeep(p: Prog, f: Fixup, fx: seq<Fixup>)
    requires Holds(p, f) && forall g :: g in fx ==> Compatible(f, g)
    ensures Holds(WithFixes(p, fx), f)
    decreases |fx|
  {
    hide Holds, WithFix, Compatible;
    if fx != [] {
      FixKeepsHolding(p, f, fx[0]);
      LaterFixesKeep(WithFix(p, fx[0]), f, fx[1..]);
    }
  }

  /** Several users of one auipc do not disturb each other. */
  lemma {:induction false} AllHold(p: Prog, fx: seq<Fixup>, f: Fixup)
    requires Paired(fx) && f in fx
    ensures Holds(WithFixes(p, fx), f)
    decreases |fx|
  {
    hide Holds, WithFix, Compatible;
    if f in fx[1..] {
      AllHold(WithFix(p, fx[0]), fx[1..], f);
    } else {
      FixHolds(p, f);
      LaterFixesKeep(WithFix(p, f), f, fx[1..]);
    }
  }

  /** The immediate the completing instruction runs with. */
  function Completing(d: Insn): Option<Word> {
    match d
    case RegImm(_, _, _, imm) => Some(imm)
    case Load(_, _, _, imm) => Some(imm)
    case Store(_, _, _, imm) => Some(imm)
    case Jalr(_, _, imm) => Some(imm)
    case _ => None
  }

  /** What the auipc at i leaves in its register plus what the instruction at j adds. */
  function Forms(p: Prog, i: nat, j: nat): Option<Word> {
    match Cur(p, i)
    case Auipc(_, u) =>
      (match Completing(Cur(p, j))
       case Some(imm) => Some(Wrap(AuipcReads(p, i, u) + imm))
       case None => None)
    case _ => None
  }

  /** The fixup's sites are an auipc and an instruction that completes an address. */
  predicate Completes(code: seq<Insn>, f: Fixup) {
    f.hi / 4 < |code| && f.lo / 4 < |code| && code[f.hi / 4].Auipc? && Completing(code[f.lo / 4]).Some?
  }

  /** After linking, what the auipc leaves in its register plus what the completing
      instruction adds is the renumbered address of the symbol plus the addend. */
  lemma PcrelExact(p0: Prog, fx: seq<Fixup>, f: Fixup)
    requires Paired(fx) && f in fx && Completes(p0.code, f)
    ensures Forms(WithFixes(p0, fx), InsnOf(f.hi), InsnOf(f.lo)) == Some(Wrap(4 * OpAt(p0.plan, InsnOf(f.sym)) + f.addend))
  {
    hide Wrap, Hi20, Lo12, Low20, Delta, WithFixes, OpAt;
    AllHold(p0, fx, f);
    SplitRecombines(OpAt(p0.plan, InsnOf(f.hi)), OpAt(p0.plan, InsnOf(f.sym)), f.addend);
  }
}
