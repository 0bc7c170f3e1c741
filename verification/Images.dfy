/** From code and relocations to an image the evaluator runs as the source program runs. */
module Images {
  import opened Words
  import opened Isa
  import opened Fusion
  import opened Layout
  import opened SourceMachine
  import opened Simulation
  import opened OpWords
  import opened UnitSimulation
  import opened Transcoding
  import opened Transcoder
  import opened TargetSets
  import opened Linking
  import opened LinkChecks

  /** Pass 2's words are every unit's op, no relocation applied yet. */
  lemma DraftedIsStaged(p: Prog, ops: seq<Word>, cut: seq<Word>)
    requires Planned(p) && p.fix == map[] && Drafted(p, cut) && cut <= ops
    ensures Staged(p, ops, {})
  {
    hide Step, StandsAt, Placed, Packable;
    forall i | 0 <= i < |p.code| && Head(p.plan, i)
      ensures HeadIs(p, ops, i, StageOp(p, i, {}))
    {
      StepPackable(p, i);
      RoomFor(p, i, i + Width(p, i));
      StandsStill(cut, ops, StepOp(p, i), OpAt(p.plan, i), |cut|);
    }
  }

  /** An auipc that pass 2 kept and no code fixup rewrote. */
  predicate Bare(p: Prog, i: nat) {
    i !in p.fix && OpCode(Step(p, i).op) == 44
  }

  /** A head that is not a bare auipc left unresolved holds its final op. */
  lemma StageIsFinal(p: Prog, i: nat, done: set<nat>)
    requires Bare(p, i) ==> i in done
    ensures FinalOp(p, i) == StageOp(p, i, done)
  {
    hide Step, DataConstant;
    if i !in p.fix {
      BareIsFinal(p, i);
    }
  }

  lemma FixEncodable(p: Prog, i: nat, op: Op)
    requires i in p.fix && i < |p.code| && !D(p, i).Nop? && FinalOp(p, i) == Some(op) && Packable(op) && Encodable(p.code[i])
    ensures Encodable(Cur(p, i))
  {
    hide SaveCount, RestoreCount, FrameMask, Run, Hot, Signed;
  }

  /** With every reference resolved, the words are the final ops: nothing is left to link. */
  lemma ResolvedIsEmitted(p: Prog, ops: seq<Word>, done: set<nat>, cut: seq<Word>)
    requires Staged(p, ops, done) && |cut| == OpCount(p.plan) && cut <= ops
    requires forall i: nat {:trigger Bare(p, i)} :: Head(p.plan, i) && Bare(p, i) ==> i in done
    ensures Linked(p) && Emitted(p, cut)
  {
    hide Step, StandsAt, Placed, FinalOp, FixedOp, StageOp, Cur, Packable, Encodable;
    forall i | 0 <= i < |p.code| && Head(p.plan, i)
      ensures FinalOp(p, i).Some? && StandsAt(cut, OpOf(p, i), OpAt(p.plan, i))
      ensures i in p.fix ==> Encodable(Cur(p, i))
    {
      assert Bare(p, i) ==> i in done;
      StageIsFinal(p, i, done);
      var op := FinalOp(p, i).value;
      if i in p.fix {
        FixEncodable(p, i, op);
      }
      PlacedKeeps(p, op, OpAt(p.plan, i));
      RoomFor(p, i, i + Width(p, i));
      StandsStill(ops, cut, OpOf(p, i), OpAt(p.plan, i), |cut|);
    }
  }

  // ---- the tool's passes in order ----

  predicate Sites(f: Fixup, i: nat) {
    InsnOf(f.hi) == i || InsnOf(f.lo) == i
  }

  ghost predicate FixSite(fx: seq<Fixup>, i: nat) {
    exists f :: f in fx && Sites(f, i)
  }

  lemma {:induction false} FixKeys(p: Prog, fx: seq<Fixup>, i: nat)
    ensures i in WithFixes(p, fx).fix <==> i in p.fix || FixSite(fx, i)
    decreases |fx|
  {
    if fx != [] {
      FixKeys(WithFix(p, fx[0]), fx[1..], i);
      assert i in WithFix(p, fx[0]).fix <==> i in p.fix || Sites(fx[0], i);
      assert forall f :: f in fx <==> f == fx[0] || f in fx[1..];
    }
  }

  predicate RefSited(code: seq<Insn>, r: DataRef) {
    r.off % 4 == 0 && r.off / 4 < |code| && !Fold(code[r.off / 4]).Nop?
  }

  /** Every relocation names an instruction in the code that emits an op. */
  ghost predicate Relocates(code: seq<Insn>, fx: seq<Fixup>, refs: seq<DataRef>) {
    (forall f :: f in fx ==> Sited(code, f)) && (forall r :: r in refs ==> RefSited(code, r) && !FixSite(fx, InsnOf(r.off)))
  }

  ghost predicate Refers(refs: seq<DataRef>, len: int, i: nat) {
    exists r :: r in refs && InsnOf(r.off) == i && r.sym >= len
  }

  /** The link kept the relocation of every auipc that does not certainly form data: of code as
      a fixup, of data as a reference. */
  ghost predicate Covered(code: seq<Insn>, fx: seq<Fixup>, refs: seq<DataRef>) {
    forall i :: 0 <= i < |code| && code[i].Auipc? && Single(i, code[i]).One? ==> FixSite(fx, i) || Refers(refs, 4 * |code|, i)
  }

  lemma {:induction false} ReferenceDone(p: Prog, done: set<nat>, refs: seq<DataRef>, i: nat)
    requires Head(p.plan, i) && (i in done || Refers(refs, 4 * |p.code|, i))
    ensures i in DoneAll(p, done, refs)
    decreases |refs|
  {
    if refs != [] {
      assert i !in done ==> exists r :: (r == refs[0] || r in refs[1..]) && InsnOf(r.off) == i && r.sym >= 4 * |p.code|;
      ReferenceDone(p, DoneWith(p, done, refs[0]), refs[1..], i);
    }
  }

  lemma BareInCode(p: Prog, i: nat)
    requires Bare(p, i)
    ensures i < |p.code| && p.code[i].Auipc? && Single(i, p.code[i]).One?
  {
    hide SaveCount, RestoreCount, FrameMask, Run, Hot, Signed;
  }

  lemma MapEntries(m: seq<Word>, pl: Plan, n: nat)
    requires MapOf(m, pl) && OpCount(pl) < n
    ensures Entries(m, n)
  {
    forall k | 0 <= k < |m|
      ensures m[k] == SENTINEL || m[k] < n
    {
      assert m[k] == MapEntry(pl, k);
      if k % 2 == 0 && k / 2 < |pl.width| && Head(pl, k / 2) {
        OpAtBound(pl, k / 2);
      }
    }
  }

  /** What pass 2 hands to the link passes: its words, its map, relocations of its code. */
  ghost predicate Handed(p: Prog, ops: seq<Word>, m: seq<Word>, fx: seq<Fixup>, refs: seq<DataRef>) {
    p.fix == map[] && Staged(p, ops, {}) && MapFits(p, m, ops) && Relocates(p.code, fx, refs)
  }

  /** After the fixups every data reference still names an instruction without one. */
  lemma RefsSited(p: Prog, fx: seq<Fixup>, refs: seq<DataRef>)
    requires p.fix == map[] && Relocates(p.code, fx, refs)
    ensures forall r :: r in refs ==> DataSited(WithFixes(p, fx), r)
  {
    hide FixSite;
    forall r | r in refs
      ensures DataSited(WithFixes(p, fx), r)
    {
      FixKeys(p, fx, InsnOf(r.off));
    }
  }

  /** Fixups keep the words' number, and with it the map's fit. */
  lemma {:induction false} PatchedFits(p: Prog, ops: seq<Word>, m: seq<Word>, fx: seq<Fixup>, ops': seq<Word>)
    requires MapFits(p, m, ops) && PatchAll(ops, m, fx) == Some(ops')
    ensures MapFits(WithFixes(p, fx), m, ops') && |ops'| == |ops|
    decreases |fx|
  {
    hide MapOf, CanPatch, SetLow16, SetLow20, WithFix, Alike;
    if fx == [] {
    } else {
      FixAlike(p, fx[0]);
      assert Alike(p, WithFix(p, fx[0]));
      PatchedFits(WithFix(p, fx[0]), Patch(ops, m, fx[0]), m, fx[1..], ops');
    }
  }

  /** What the passes leave when none refuses. */
  lemma LinkedStream(p0: Prog, ops0: seq<Word>, m: seq<Word>, fx: seq<Fixup>, refs: seq<DataRef>, ops1: seq<Word>, ops2: seq<Word>, cut: seq<Word>)
    requires Handed(p0, ops0, m, fx, refs) && Covered(p0.code, fx, refs)
    requires PatchAll(ops0, m, fx) == Some(ops1) && ResolveAll(ops1, m, 4 * |p0.code|, refs) == Some(ops2)
    requires |cut| == OpCount(p0.plan) && cut <= ops2
    ensures Linked(WithFixes(p0, fx)) && Emitted(WithFixes(p0, fx), cut)
  {
    hide Step, Staged, Linked, Emitted, OpCode, FixSite, Refers, DoneAll, StageOp, Sited, PatchAll, ResolveAll, MapOf, Entries;
    var p := WithFixes(p0, fx);
    PatchAllIs(p0, ops0, m, fx, ops1);
    PatchedFits(p0, ops0, m, fx, ops1);
    RefsSited(p0, fx, refs);
    ResolveAllIs(p, ops1, {}, m, refs, ops2);
    var done := DoneAll(p, {}, refs);
    forall i: nat | Head(p.plan, i) && Bare(p, i)
      ensures i in done
    {
      FixKeys(p0, fx, i);
      BareInCode(p, i);
      ReferenceDone(p, {}, refs, i);
    }
    ResolvedIsEmitted(p, ops2, done, cut);
  }

  /** The relocations the tool accepts: every fixup and every data reference can be carried out. */
  ghost predicate Acceptable(p: Prog, fx: seq<Fixup>, refs: seq<DataRef>) {
    (forall f :: f in fx ==> FixAccepted(p, f)) && (forall r :: r in refs ==> RefAccepted(p, r))
  }

  /** No pass refuses. */
  predicate Passes(ops: seq<Word>, m: seq<Word>, fx: seq<Fixup>, refs: seq<DataRef>, len: int) {
    match PatchAll(ops, m, fx)
    case Some(ops1) => ResolveAll(ops1, m, len, refs).Some?
    case None => false
  }

  /** The passes refuse exactly the others. */
  lemma AcceptedStream(p0: Prog, ops0: seq<Word>, m: seq<Word>, fx: seq<Fixup>, refs: seq<DataRef>)
    requires Handed(p0, ops0, m, fx, refs)
    requires PatchAll(ops0, m, fx).Some? <==> forall f :: f in fx ==> CanPatch(ops0, m, f)
    ensures Acceptable(WithFixes(p0, fx), fx, refs) <==> Passes(ops0, m, fx, refs, 4 * |p0.code|)
  {
    hide Staged, FixSite, CanPatch, Sited, FixAccepted, RefAccepted, PatchAll, ResolveAll, MapFits, RefSited, DataSited;
    var p := WithFixes(p0, fx);
    forall f | f in fx
      ensures CanPatch(ops0, m, f) <==> FixAccepted(p, f)
    {
      CanPatchIs(p0, ops0, m, f);
      AcceptedShared(p0, p, f);
    }
    if PatchAll(ops0, m, fx).Some? {
      var ops1 := PatchAll(ops0, m, fx).value;
      PatchAllIs(p0, ops0, m, fx, ops1);
      PatchedFits(p0, ops0, m, fx, ops1);
      RefsSited(p0, fx, refs);
      ResolveAllSome(p, ops1, {}, m, refs);
    }
  }

  /** The program an image is of: the code, its targets protected, its relocations applied. */
  ghost function ImageProg(code: seq<Insn>, ext: seq<Word>, fx: seq<Fixup>): (p: Prog)
    ensures p.code == code
  {
    WithFixes(Laid(code, Flags(code, ext), map[]), fx)
  }

  lemma AlikeMarked(p: Prog, q: Prog)
    requires Alike(p, q) && Marked(p)
    ensures Marked(q)
  {
    forall i, t: Word | 0 <= i < |q.code| && DirectTarget(q.code[i], t) && t / 4 < |q.code|
      ensures Hot(q, t / 4)
    {
      assert DirectTarget(p.code[i], t);
      assert Hot(p, t / 4);
    }
  }

  /** What pass 2 leaves is what the link passes ask for. */
  lemma HandedOver(p: Prog, ops: seq<Word>, cut: seq<Word>, m: seq<Word>, fx: seq<Fixup>, refs: seq<DataRef>)
    requires Planned(p) && p.fix == map[] && Drafted(p, cut) && cut <= ops && |ops| == |cut| + 2
    requires MapOf(m, p.plan) && Relocates(p.code, fx, refs)
    ensures Handed(p, ops, m, fx, refs)
    ensures forall f :: f in fx ==> InCode(f, m)
    ensures forall r :: r in refs ==> r.off / 2 < |m|
  {
    hide Step, Staged, DraftedUpTo, FixSite, Fold;
    DraftedIsStaged(p, ops, cut);
    MapEntries(m, p.plan, |ops|);
  }

  /** Code, external targets and relocations in; an image out, or a refusal. */
  method BuildImage(code: seq<Insn>, ext: seq<Word>, fx: seq<Fixup>, refs: seq<DataRef>)
      returns (ok: bool, ops: array<Word>, n: nat)
    requires 4 * |code| <= 0x8000_0000 && forall i :: 0 <= i < |code| ==> Encodable(code[i])
    requires Relocates(code, fx, refs) && Covered(code, fx, refs)
    ensures var p := ImageProg(code, ext, fx);
            Planned(p) && Marked(p) && n == OpCount(p.plan) <= ops.Length && (ok ==> Linked(p) && Emitted(p, ops[..n])) &&
            (ok <==> Acceptable(p, fx, refs))
  {
    hide Planned, Linked, Emitted, Drafted, Marked, PatchAll, ResolveAll, Sited, FixSite, Refers, Covered, MapOf, Acceptable, Staged, Entries, PlanOf;
    var map_: array<Word>;
    ops, n, map_ := Transcode(code, ext);
    ghost var p0 := Laid(code, Flags(code, ext), map[]);
    ghost var p := ImageProg(code, ext, fx);
    ghost var ops0, m := ops[..], map_[..];
    assert ops[..n] <= ops0;
    HandedOver(p0, ops0, ops[..n], m, fx, refs);
    AlikePlanned(p0, p);
    AlikeMarked(p0, p);
    ok := ApplyFixups(fx, map_, ops);
    AcceptedStream(p0, ops0, m, fx, refs);
    if ok {
      ghost var ops1 := ops[..];
      ok := ResolveDataAuipc(refs, 4 * |code|, map_, ops);
      if ok {
        LinkedStream(p0, ops0, m, fx, refs, ops1, ops[..], ops[..n]);
      }
    }
  }

}
