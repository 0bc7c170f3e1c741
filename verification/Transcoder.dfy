/** The transcoder as it runs: the fusion scans, the map pass and the emit pass over
    mutable buffers, each proved against the decisions and layout they implement. */
module Transcoder {
  import opened Words
  import opened Isa
  import opened Fusion
  import opened Layout
  import opened SourceMachine
  import opened Simulation
  import opened OpWords
  import opened Transcoding
  import opened TargetSets

  const SENTINEL: Word := 0xffff_ffff

  /** The decisions depend on the code and the target set alone. */
  function Source(code: seq<Insn>, hot: seq<bool>): Prog {
    Prog(code, hot, map[], Sizing([], []))
  }

  /** The code and target set being scanned are those of p. */
  ghost predicate Scans(code: seq<Insn>, targets: Targets, p: Prog)
    reads targets.bits
  {
    targets.Valid() && targets.n == |code| && p.code == code && p.hot == targets.Marks() && 4 * |code| <= 0x8000_0000
  }

  // ---- the fusion scans ----

  method FrameCanonical(regs: array<Reg>, offs: array<int>, cnt: nat, frame: int) returns (r: Option<Mask>)
    requires cnt <= regs.Length && cnt <= offs.Length
    ensures r == Canonical(regs[..cnt], offs[..cnt], frame)
  {
    var prev, mask: Mask, q := -1, NoBits(), 0;
    while q < cnt
      invariant 0 <= q <= cnt && prev >= -1
      invariant CanonFrom(regs[..cnt], offs[..cnt], frame, q, prev, mask) == Canonical(regs[..cnt], offs[..cnt], frame)
    {
      var want := Slot(frame, q);
      var c := 0;
      while c < cnt && offs[c] != want
        invariant 0 <= c <= cnt
        invariant FindOff(offs[..cnt], want, c) == FindOff(offs[..cnt], want, 0)
      {
        c := c + 1;
      }
      assert c == FindOff(offs[..cnt], want, 0);
      if c == cnt { return None; }
      var rk := Rank(regs[c]);
      if rk <= prev { return None; }
      prev, mask, q := rk, mask[rk := true], q + 1;
    }
    return Some(mask);
  }

  /** The first n entries of rs and os are the registers and offsets of the instructions at o. */
  predicate Lists(p: Prog, o: nat, n: nat, rs: seq<Reg>, os: seq<int>) {
    n <= |rs| && n <= |os| && o + n <= |p.code| &&
    forall k :: 0 <= k < n ==> rs[k] == SavedReg(D(p, o + k)) && os[k] == FrameOff(D(p, o + k))
  }

  lemma ListsNothing(p: Prog, o: nat, rs: seq<Reg>, os: seq<int>, n: nat)
    requires o <= |p.code| && n == 0
    ensures Lists(p, o, n, rs, os)
  {
  }

  lemma ListsRun(p: Prog, o: nat, n: nat, rs: seq<Reg>, os: seq<int>)
    requires Lists(p, o, n, rs, os) && n == |rs| == |os|
    ensures o + n <= |p.code| && rs == RegsOf(Run(p, o, n)) && os == OffsOf(Run(p, o, n))
  {
    hide SavedReg, FrameOff, Fold;
  }

  lemma ListsCut(p: Prog, o: nat, n: nat, rs: seq<Reg>, os: seq<int>, rs': seq<Reg>, os': seq<int>)
    requires Lists(p, o, n, rs, os) && rs' <= rs && os' <= os && n == |rs'| == |os'|
    ensures Lists(p, o, n, rs', os')
  {
    hide SavedReg, FrameOff, D;
  }

  lemma ListsMore(p: Prog, o: nat, n: nat, rs: seq<Reg>, os: seq<int>, r: Reg, off: int)
    requires Lists(p, o, n, rs, os) && n < |rs| && n < |os| && o + n < |p.code|
    requires r == SavedReg(D(p, o + n)) && off == FrameOff(D(p, o + n))
    ensures Lists(p, o, n + 1, rs[n := r], os[n := off])
  {
    hide SavedReg, FrameOff, Fold;
  }

  lemma SlotFacts(code: seq<Insn>, targets: Targets, p: Prog, o: nat)
    requires targets.Valid() && Scans(code, targets, p) && o < |code|
    ensures |code| == |p.code| && 4 * o < 0x1_0000_0000
    ensures targets.Marked(o) <==> Hot(p, o)
    ensures D(p, o) == Fold(code[o])
  {
  }

  lemma SaveCountStep(p: Prog, o: nat, k: nat, o': nat, k': nat)
    requires o < |p.code| && o' == o + 1 && k == k' + 1
    ensures SaveCount(p, o, k) == if Hot(p, o) || !IsSave(D(p, o)) then 0 else 1 + SaveCount(p, o', k')
  {
  }

  lemma RestoreCountStep(p: Prog, o: nat, first: bool, k: nat, o': nat, k': nat)
    requires o < |p.code| && o' == o + 1 && k == k' + 1
    ensures RestoreCount(p, o, first, k) ==
            if (!first && Hot(p, o)) || !IsRestore(D(p, o)) then 0 else 1 + RestoreCount(p, o', false, k')
  {
  }

  /** Fills regs and offs from the saves that follow at o. */
  method ScanSaves(code: seq<Insn>, targets: Targets, o: nat, ghost p: Prog, regs: array<Reg>, offs: array<int>) returns (cnt: nat)
    requires targets.Valid() && Scans(code, targets, p) && |p.code| == |code| && o <= |code| && regs.Length == RANKS && offs.Length == RANKS
    requires targets.bits as object != regs && targets.bits as object != offs
    modifies regs, offs
    ensures cnt == SaveCount(p, o, RANKS) && o + cnt <= |code| &&
            regs[..cnt] == RegsOf(Run(p, o, cnt)) && offs[..cnt] == OffsOf(Run(p, o, cnt))
  {
    hide Scans, Lists, SavedReg, FrameOff, IsSave, IsRestore, RegsOf, OffsOf, Run, Hot, D, Fold, SaveCount;
    ListsNothing(p, o, regs[..], offs[..], 0);
    cnt := 0;
    while o + cnt < |code| && cnt < RANKS
      invariant Scans(code, targets, p) && o + cnt <= |code| && cnt <= RANKS
      invariant cnt + SaveCount(p, o + cnt, RANKS - cnt) == SaveCount(p, o, RANKS)
      invariant Lists(p, o, cnt, regs[..], offs[..])
    {
      SlotFacts(code, targets, p, o + cnt);
      var hot := targets.Has(4 * (o + cnt));
      var s := Fold(code[o + cnt]);
      SaveCountStep(p, o + cnt, RANKS - cnt, o + cnt + 1, RANKS - cnt - 1);
      if hot { break; }
      if !IsSave(s) { break; }
      ListsMore(p, o, cnt, regs[..], offs[..], SavedReg(s), FrameOff(s));
      regs[cnt], offs[cnt] := SavedReg(s), FrameOff(s);
      cnt := cnt + 1;
    }
    ListsCut(p, o, cnt, regs[..], offs[..], regs[..cnt], offs[..cnt]);
    ListsRun(p, o, cnt, regs[..cnt], offs[..cnt]);
  }

  method ScanRestores(code: seq<Insn>, targets: Targets, o: nat, ghost p: Prog, regs: array<Reg>, offs: array<int>) returns (cnt: nat)
    requires targets.Valid() && Scans(code, targets, p) && |p.code| == |code| && o <= |code| && regs.Length == RANKS && offs.Length == RANKS
    requires targets.bits as object != regs && targets.bits as object != offs
    modifies regs, offs
    ensures cnt == RestoreCount(p, o, true, RANKS) && o + cnt <= |code| &&
            regs[..cnt] == RegsOf(Run(p, o, cnt)) && offs[..cnt] == OffsOf(Run(p, o, cnt))
  {
    hide Scans, Lists, SavedReg, FrameOff, IsSave, IsRestore, RegsOf, OffsOf, Run, Hot, D, Fold, RestoreCount;
    ListsNothing(p, o, regs[..], offs[..], 0);
    cnt := 0;
    while o + cnt < |code| && cnt < RANKS
      invariant Scans(code, targets, p) && o + cnt <= |code| && cnt <= RANKS
      invariant cnt + RestoreCount(p, o + cnt, cnt == 0, RANKS - cnt) == RestoreCount(p, o, true, RANKS)
      invariant Lists(p, o, cnt, regs[..], offs[..])
    {
      SlotFacts(code, targets, p, o + cnt);
      var hot := targets.Has(4 * (o + cnt));
      var l := Fold(code[o + cnt]);
      RestoreCountStep(p, o + cnt, cnt == 0, RANKS - cnt, o + cnt + 1, RANKS - cnt - 1);
      if cnt != 0 && hot { break; }
      if !IsRestore(l) { break; }
      ListsMore(p, o, cnt, regs[..], offs[..], SavedReg(l), FrameOff(l));
      regs[cnt], offs[cnt] := SavedReg(l), FrameOff(l);
      cnt := cnt + 1;
    }
    ListsCut(p, o, cnt, regs[..], offs[..], regs[..cnt], offs[..cnt]);
    ListsRun(p, o, cnt, regs[..cnt], offs[..cnt]);
  }

  method FusePrologue(code: seq<Insn>, targets: Targets, i: nat, ghost p: Prog) returns (r: Option<Unit>)
    requires Scans(code, targets, p) && i < |code|
    ensures r == TryPrologue(p, i)
  {
    hide SaveCount, Canonical, RegsOf, OffsOf, Run;
    var a := Fold(code[i]);
    if !IsSpAdjust(a) || Signed(a.imm) >= 0 { return None; }
    var frame := -Signed(a.imm);
    if frame > 0x1fff { return None; }
    var regs, offs := new Reg[RANKS](_ => 0), new int[RANKS](_ => 0);
    var cnt := ScanSaves(code, targets, i + 1, p, regs, offs);
    if cnt == 0 { return None; }
    var mask := FrameCanonical(regs, offs, cnt, frame);
    return if mask.None? then None else Some(Unit(1 + cnt, Prologue(mask.value, frame)));
  }

  method FuseEpilogue(code: seq<Insn>, targets: Targets, i: nat, ghost p: Prog) returns (r: Option<Unit>)
    requires targets.Valid() && |p.code| == |code| && Scans(code, targets, p) && i < |code|
    ensures r == TryEpilogue(p, i)
  {
    hide RestoreCount, Canonical, RegsOf, OffsOf, Run, Signed, IsRet, Fold, D, Hot, Scans;
    var regs, offs := new Reg[RANKS](_ => 0), new int[RANKS](_ => 0);
    var cnt := ScanRestores(code, targets, i, p, regs, offs);
    var o := i + cnt;
    if cnt == 0 || o + 2 > |code| { return None; }
    SlotFacts(code, targets, p, o);
    SlotFacts(code, targets, p, o + 1);
    var hot := targets.Has(4 * o);
    if hot { return None; }
    hot := targets.Has(4 * (o + 1));
    if hot { return None; }
    var a := Fold(code[o]);
    if !IsSpAdjust(a) || Signed(a.imm) <= 0 || a.imm > 0x1fff || !IsRet(Fold(code[o + 1])) { return None; }
    var mask := FrameCanonical(regs, offs, cnt, a.imm);
    return if mask.None? then None else Some(Unit(cnt + 2, Epilogue(mask.value, a.imm)));
  }

  method FuseLa(code: seq<Insn>, targets: Targets, i: nat, ghost p: Prog) returns (r: Option<Unit>)
    requires Scans(code, targets, p) && i < |code|
    ensures r == TryLa(p, i)
  {
    if i + 2 > |code| { return None; }
    var hot := targets.Has(4 * (i + 1));
    if hot { return None; }
    var a := Fold(code[i]);
    if !a.Auipc? { return None; }
    var b := Fold(code[i + 1]);
    if !(b.RegImm? && b.op == Add && b.rd == a.rd && b.rs1 == a.rd) { return None; }
    var v := Wrap(AuipcValue(i, a.uimm) + b.imm);
    if v < 4 * |code| { return None; }
    if NearZero(v) { return Some(Unit(2, LiLoOf(a.rd, v))); }
    if NearHalf(v) { return Some(Unit(2, LiHiOf(a.rd, v))); }
    return None;
  }

  method FusePair(code: seq<Insn>, targets: Targets, i: nat, ghost p: Prog) returns (r: Option<Unit>)
    requires Scans(code, targets, p) && i < |code|
    ensures r == TryPair(p, i)
  {
    if i + 2 > |code| { return None; }
    var hot := targets.Has(4 * (i + 1));
    if hot { return None; }
    var a, b := Fold(code[i]), Fold(code[i + 1]);
    if ShaddPair(a, b) {
      return Some(Unit(2, Shadd(a.rd, OtherAddend(b, a.rd).value, a.rs1, a.imm)));
    }
    if LwxPair(a, b) {
      return Some(Unit(2, Lwx(a.rd, a.rs1, a.rs2, b.imm)));
    }
    if LwlwPair(a, b) {
      if i + 3 <= |code| {
        hot := targets.Has(4 * (i + 2));
        if !hot && VcallTail(Fold(code[i + 2]), a.rd) {
          return Some(Unit(3, Vcall(a.rd, a.rs1, a.imm, b.imm)));
        }
      }
      return Some(Unit(2, Lwlw(a.rd, a.rs1, a.imm, b.imm)));
    }
    if LwswPair(a, b) {
      return Some(Unit(2, Lwsw(a.rd, a.rs1, b.rs1, a.imm, b.imm)));
    }
    if BzPair(a, b) {
      return Some(Unit(2, LoadBz(a.lk == LBU, a.rd, a.rs1, a.imm, b.target, b.cond == BEQ)));
    }
    return None;
  }

  /** The unit starting at instruction i: the decision both passes share. */
  method NextUnit(code: seq<Insn>, targets: Targets, i: nat, ghost p: Prog) returns (u: Unit)
    requires Scans(code, targets, p) && i < |code|
    ensures u == Step(p, i)
  {
    hide TryPrologue, TryEpilogue, TryLa, TryPair;
    var r := FusePrologue(code, targets, i, p);
    if r.Some? { return r.value; }
    r := FuseEpilogue(code, targets, i, p);
    if r.Some? { return r.value; }
    r := FuseLa(code, targets, i, p);
    if r.Some? { return r.value; }
    r := FusePair(code, targets, i, p);
    if r.Some? { return r.value; }
    return Unit(1, Single(i, Fold(code[i])));
  }

  // ---- the layout ----

  /** Width and op words of every unit, as the shared decision gives them. */
  ghost function SizesOf(code: seq<Insn>, hot: seq<bool>): Sizing {
    Sizing(seq(|code|, (i: nat) => Width(Source(code, hot), i)), seq(|code|, (i: nat) => WordsAt(Source(code, hot), i)))
  }

  lemma SizesAreValid(code: seq<Insn>, hot: seq<bool>)
    ensures SizesOf(code, hot).Valid()
  {
    hide Step;
    forall i | 0 <= i < |code|
      ensures WordsAt(Source(code, hot), i) <= Width(Source(code, hot), i)
    {
      WordsWithin(Source(code, hot), i);
    }
  }

  ghost function PlanOf(code: seq<Insn>, hot: seq<bool>): Plan {
    SizesAreValid(code, hot);
    SizesOf(code, hot)
  }

  /** The program as transcoded: its layout is the one both passes compute. */
  ghost function Laid(code: seq<Insn>, hot: seq<bool>, fix: map<nat, Word>): Prog {
    Prog(code, hot, fix, PlanOf(code, hot))
  }

  lemma {:induction false} SaveCountShared(p: Prog, q: Prog, o: nat, k: nat)
    requires p.code == q.code && p.hot == q.hot
    ensures SaveCount(p, o, k) == SaveCount(q, o, k)
    decreases k
  {
    if k > 0 {
      SaveCountShared(p, q, o + 1, k - 1);
    }
  }

  lemma {:induction false} RestoreCountShared(p: Prog, q: Prog, o: nat, first: bool, k: nat)
    requires p.code == q.code && p.hot == q.hot
    ensures RestoreCount(p, o, first, k) == RestoreCount(q, o, first, k)
    decreases k
  {
    if k > 0 {
      RestoreCountShared(p, q, o + 1, false, k - 1);
    }
  }

  /** Neither relocations nor the layout change what falls together. */
  lemma StepShared(p: Prog, q: Prog, i: nat)
    requires p.code == q.code && p.hot == q.hot
    ensures Step(p, i) == Step(q, i)
  {
    hide FrameMask, Fold, Signed, IsRet, Single, SaveCount, RestoreCount, PairOp;
    SaveCountShared(p, q, i + 1, RANKS);
    RestoreCountShared(p, q, i, true, RANKS);
    assert Run(p, i + 1, SaveCount(p, i + 1, RANKS)) == Run(q, i + 1, SaveCount(p, i + 1, RANKS));
    assert Run(p, i, RestoreCount(p, i, true, RANKS)) == Run(q, i, RestoreCount(p, i, true, RANKS));
  }

  lemma LaidIsPlanned(code: seq<Insn>, hot: seq<bool>, fix: map<nat, Word>)
    requires Laid(code, hot, fix).Valid()
    ensures Planned(Laid(code, hot, fix))
  {
    hide Step;
    var p := Laid(code, hot, fix);
    forall i | 0 <= i < |code|
      ensures p.plan.width[i] == Step(p, i).width && p.plan.words[i] == WordCount(Step(p, i).op)
    {
      StepShared(p, Source(code, hot), i);
    }
  }

  // ---- pass 1: the map ----

  /** What map[k] holds: the op index of the unit headed at byte 2k, else the sentinel. */
  ghost function MapEntry(pl: Plan, k: nat): nat {
    if k % 2 == 0 && k / 2 < |pl.width| && Head(pl, k / 2) then OpAt(pl, k / 2) else SENTINEL
  }

  ghost predicate MapOf(m: seq<Word>, pl: Plan) {
    |m| == 2 * |pl.width| + 2 && forall k :: 0 <= k < |m| ==> m[k] == MapEntry(pl, k)
  }

  /** The map as filled so far: entries for heads before i, the sentinel elsewhere. */
  ghost predicate MapUpTo(m: seq<Word>, pl: Plan, i: nat) {
    |m| == 2 * |pl.width| + 2 && forall k :: 0 <= k < |m| ==> m[k] == if k < 2 * i then MapEntry(pl, k) else SENTINEL
  }

  /** The entry for the unit at i extends the map to the next unit. */
  lemma MapExtends(m: seq<Word>, m': seq<Word>, pl: Plan, i: nat, next: nat)
    requires i < |pl.width| && Head(pl, i) && MapUpTo(m, pl, i) && next == i + pl.width[i]
    requires |m'| == |m| && forall k :: 0 <= k < |m| ==> m'[k] == if k == 2 * i then OpAt(pl, i) else m[k]
    ensures MapUpTo(m', pl, next)
  {
    forall k | 0 <= k < |m'|
      ensures m'[k] == if k < 2 * next then MapEntry(pl, k) else SENTINEL
    {
      if 2 * i < k < 2 * next && k % 2 == 0 {
        HiddenIsNotHead(pl, i, k / 2);
      }
    }
  }

  /** Places every unit: the map entry at each head is the op words before it, everything
      else is the sentinel, and the returned total is the op count. */
  method BuildMap(code: seq<Insn>, targets: Targets, map_: array<Word>, ghost p: Prog) returns (n: nat)
    requires Scans(code, targets, p) && Planned(p) && map_.Length == 2 * |code| + 2
    requires targets.bits as object != map_
    modifies map_
    ensures MapOf(map_[..], p.plan) && n == OpCount(p.plan)
  {
    hide Step;
    ghost var pl := p.plan;
    var k := 0;
    while k < map_.Length
      invariant 0 <= k <= map_.Length
      invariant forall j :: 0 <= j < k ==> map_[j] == SENTINEL
    {
      map_[k] := SENTINEL;
      k := k + 1;
    }
    var i := 0;
    n := 0;
    while i < |code|
      invariant Scans(code, targets, p) && 0 <= i <= |code|
      invariant Head(pl, i) && n == OpAt(pl, i)
      invariant MapUpTo(map_[..], pl, i)
    {
      var u := NextUnit(code, targets, i, p);
      OpAtBound(pl, i);
      ghost var before := map_[..];
      var entry: Word := n;
      map_[2 * i] := entry;
      MapExtends(before, map_[..], pl, i, i + u.width);
      NextHead(pl, i);
      n := n + WordCount(u.op);
      i := i + u.width;
    }
    assert MapOf(map_[..], pl);
  }

  // ---- pass 2: emission ----

  /** m is the map of p's code, which is `len` bytes long. */
  ghost predicate Mapped(m: seq<Word>, p: Prog, len: nat) {
    |p.plan.width| == |p.code| < 0xffff_ffff && len == 4 * |p.code| && MapOf(m, p.plan)
  }

  /** Resolves a target address through the map; `at` when it has no entry. */
  method TargetWord(map_: array<Word>, len: nat, target: Word, at: nat, ghost p: Prog) returns (tw: nat)
    requires Mapped(map_[..], p, len)
    ensures tw == OpTarget(p, target, at)
  {
    if target >= len { return at; }
    assert map_[target / 2] == map_[..][target / 2] == MapEntry(p.plan, target / 2);
    assert target / 2 / 2 == target / 4;
    tw := map_[target / 2];
    if target / 2 % 2 == 0 && Head(p.plan, target / 4) {
      OpAtBound(p.plan, target / 4);
    }
    if tw == SENTINEL { return at; }
  }

  /** A baked displacement: 4 times the op distance to where the map sends the target. */
  method Displacement(map_: array<Word>, len: nat, target: Word, at: nat, ghost p: Prog) returns (d: Word)
    requires Mapped(map_[..], p, len) && at <= |p.code|
    ensures d == Disp(at, Wrap(OpTarget(p, target, at))) && d % 4 == 0
  {
    var tw := TargetWord(map_, len, target, at, p);
    if target / 2 % 2 == 0 && target / 4 < |p.code| && Head(p.plan, target / 4) {
      OpAtBound(p.plan, target / 4);
    }
    d := Wrap(4 * (tw - at));
    assert d == Disp(at, tw);
  }

  method EmitOne(ops: array<Word>, at: nat, d: Insn, map_: array<Word>, len: nat, ghost p: Prog) returns (next: nat)
    requires Mapped(map_[..], p, len) && at <= |p.code| && ops != map_ && at + WordCount(One(d)) <= ops.Length
    modifies ops
    ensures next == at + WordCount(One(d))
    ensures ops[at..next] == Encode(Placed(p, One(d), at), at)
    ensures forall k :: 0 <= k < ops.Length && !(at <= k < next) ==> ops[k] == old(ops[k])
  {
    hide Pack, Pack21, Low16, Disp, Wrap;
    next := at + 1;
    match d
    case RegReg(op, rd, rs1, rs2) => ops[at] := Pack(AluCode(op), rd, rs1, Low16(rs2, 0));
    case RegImm(op, rd, rs1, imm) => ops[at] := Pack(ImmCode(op), rd, rs1, imm % 0x1_0000);
    case Load(k, rd, rs1, imm) => ops[at] := Pack(LoadCode(k), rd, rs1, imm % 0x1_0000);
    case Store(k, rs2, rs1, imm) => ops[at] := Pack(StoreCode(k), rs2, rs1, imm % 0x1_0000);
    case Branch(c, rs1, rs2, target) =>
      var disp := Displacement(map_, len, target, at, p);
      ops[at] := Pack(CondCode(c), rs1, rs2, disp % 0x1_0000);
    case Jal(rd, target) =>
      var disp := Displacement(map_, len, target, at, p);
      ops[at] := Pack21(41, rd, disp % 0x20_0000);
    case Jalr(rd, rs1, imm) => ops[at] := Pack(42, rd, rs1, imm % 0x1_0000);
    case Lui(rd, uimm) => ops[at] := Pack21(43, rd, uimm % 0x10_0000);
    case Auipc(rd, uimm) => ops[at] := Pack21(44, rd, uimm % 0x10_0000);
    case Memop(f3, rd, rs1, rs2) => ops[at] := Pack(60, rd, rs1, Low16(rs2, f3 % 8));
    case Nop => next := at;
    case Ecall => ops[at] := Pack(46, 0, 0, 0);
    case Ebreak => ops[at] := Pack(47, 0, 0, 0);
    case Illegal => ops[at] := Pack(48, 0, 0, 0);
  }

  /** Appends one op's words at `at`; nothing else changes. */
  method Emit(ops: array<Word>, at: nat, op: Op, map_: array<Word>, len: nat, ghost p: Prog) returns (next: nat)
    requires Mapped(map_[..], p, len) && at <= |p.code| && ops != map_ && at + WordCount(op) <= ops.Length
    modifies ops
    ensures next == at + WordCount(op)
    ensures ops[at..next] == Encode(Placed(p, op, at), at)
    ensures forall k :: 0 <= k < ops.Length && !(at <= k < next) ==> ops[k] == old(ops[k])
  {
    hide Pack, Pack21, Low16, Disp, Wrap, FrameWord;
    next := at + 1;
    match op
    case One(d) => next := EmitOne(ops, at, d, map_, len, p);
    case Prologue(mask, frame) => ops[at] := FrameWord(49, mask, frame);
    case Epilogue(mask, frame) => ops[at] := FrameWord(50, mask, frame);
    case LiLo(rd, v) => ops[at] := Pack21(51, rd, v % 0x20_0000);
    case LiHi(rd, v) => ops[at] := Pack21(52, rd, v % 0x20_0000);
    case Shadd(rd, rs1, rs2, sh) => ops[at] := Pack(53, rd, rs1, Low16(rs2, sh % 32 * 64));
    case Lwx(rd, rs1, rs2, off) => ops[at] := Pack(54, rd, rs1, Low16(rs2, off % 0x800));
    case Lwlw(rd, rs1, o1, o2) => ops[at] := Pack(55, rd, rs1, o1 % 0x100 * 0x100 + o2 % 0x100);
    case Vcall(rd, rs1, o1, o2) => ops[at] := Pack(59, rd, rs1, o1 % 0x100 * 0x100 + o2 % 0x100);
    case Lwsw(rd, rs1, rs2, o1, o2) => ops[at] := Pack(58, rd, rs1, Low16(rs2, (o1 / 4 * 64 + o2 / 4) % 0x800));
    case LoadBz(byte, rd, rs1, off, target, onZero) =>
      var disp := Displacement(map_, len, target, at, p);
      ops[at] := Pack(if byte then 57 else 56, rd, rs1, off % 0x1_0000);
      ops[at + 1] := disp + (if onZero then 1 else 0);
      next := at + 2;
  }

  // ---- the whole transcoder ----

  /** The op of the unit at i as pass 2 emits it, its target resolved. */
  function StepOp(p: Prog, i: nat): Op {
    Placed(p, Step(p, i).op, OpAt(p.plan, i))
  }

  /** The words of every unit before `end` stand at its map entry. */
  ghost predicate DraftedUpTo(p: Prog, ops: seq<Word>, end: nat) {
    forall i :: 0 <= i < end && i < |p.code| && Head(p.plan, i) ==> StandsAt(ops, StepOp(p, i), OpAt(p.plan, i))
  }

  /** The emitted stream: as long as the map says, every unit's words at its map entry. */
  ghost predicate Drafted(p: Prog, ops: seq<Word>) {
    |ops| == OpCount(p.plan) && DraftedUpTo(p, ops, |p.code|)
  }

  predicate SameUpTo(ops: seq<Word>, ops': seq<Word>, end: nat) {
    end <= |ops| && end <= |ops'| && forall k :: 0 <= k < end ==> ops'[k] == ops[k]
  }

  /** Words stay standing while nothing before their end changes. */
  lemma StandsStill(ops: seq<Word>, ops': seq<Word>, op: Op, at: nat, end: nat)
    requires StandsAt(ops, op, at) && at + WordCount(op) <= end && SameUpTo(ops, ops', end)
    ensures StandsAt(ops', op, at)
  {
    hide Encode;
    assert ops'[at..at + WordCount(op)] == ops[at..at + WordCount(op)];
  }

  /** Everything pass 2 needs at the unit it is about to emit. */
  lemma RoomFor(p: Prog, i: nat, next: nat)
    requires Planned(p) && i < |p.code| && Head(p.plan, i) && next == i + Width(p, i)
    ensures OpAt(p.plan, i) <= |p.code| && OpAt(p.plan, i) + WordsAt(p, i) <= OpCount(p.plan)
    ensures Head(p.plan, next) && OpAt(p.plan, next) == OpAt(p.plan, i) + WordsAt(p, i)
    ensures WordCount(StepOp(p, i)) == WordsAt(p, i)
  {
    hide Step;
    assert p.plan.width[i] == Step(p, i).width && p.plan.words[i] == WordCount(Step(p, i).op);
    OpAtBound(p.plan, i);
    NextHead(p.plan, i);
  }

  lemma UnitEndsBefore(p: Prog, j: nat, i: nat)
    requires Planned(p) && j < i && j < |p.code| && Head(p.plan, j) && Head(p.plan, i)
    ensures OpAt(p.plan, j) + WordCount(StepOp(p, j)) <= OpAt(p.plan, i)
  {
    hide Step;
    RoomFor(p, j, j + Width(p, j));
    assert p.plan.width[j] == Width(p, j);
    if i < j + Width(p, j) {
      HiddenIsNotHead(p.plan, j, i);
    }
    MapMonotone(p.plan, j + Width(p, j), i);
  }

  /** Words already emitted stay put while the next unit is appended. */
  lemma DraftExtends(p: Prog, ops: seq<Word>, ops': seq<Word>, i: nat, next: nat)
    requires Planned(p) && i < |p.code| && Head(p.plan, i) && next == i + Width(p, i)
    requires DraftedUpTo(p, ops, i) && StandsAt(ops', StepOp(p, i), OpAt(p.plan, i))
    requires SameUpTo(ops, ops', OpAt(p.plan, i))
    ensures DraftedUpTo(p, ops', next)
  {
    hide Step, Placed, StandsAt, SameUpTo;
    assert p.plan.width[i] == Width(p, i);
    forall j | 0 <= j < next && j < |p.code| && Head(p.plan, j)
      ensures StandsAt(ops', StepOp(p, j), OpAt(p.plan, j))
    {
      if j < i {
        UnitEndsBefore(p, j, i);
        StandsStill(ops, ops', StepOp(p, j), OpAt(p.plan, j), OpAt(p.plan, i));
      } else if j > i {
        HiddenIsNotHead(p.plan, i, j);
      }
    }
  }

  /** Pass 2: the emit cursor is at each head's map entry, and both passes end at n. */
  method EmitAll(code: seq<Insn>, targets: Targets, map_: array<Word>, n: nat, ghost p: Prog) returns (ops: array<Word>)
    requires Scans(code, targets, p) && Planned(p) && targets.bits as object != map_
    requires MapOf(map_[..], p.plan) && n == OpCount(p.plan)
    ensures fresh(ops) && ops.Length == n + 2 && Drafted(p, ops[..n])
  {
    hide Step, Encode, Placed, MapOf;
    ops := new Word[n + 2](_ => 0);
    var i, at := 0, 0;
    while i < |code|
      invariant 0 <= i <= |code| && Head(p.plan, i) && at == OpAt(p.plan, i)
      invariant Scans(code, targets, p) && MapOf(map_[..], p.plan)
      invariant DraftedUpTo(p, ops[..], i)
    {
      var u := NextUnit(code, targets, i, p);
      RoomFor(p, i, i + u.width);
      ghost var before := ops[..];
      var next := Emit(ops, at, u.op, map_, 4 * |code|, p);
      assert ops[..][at..next] == ops[at..next];
      DraftExtends(p, before, ops[..], i, i + u.width);
      at, i := next, i + u.width;
    }
    DraftCut(p, ops[..], ops[..n]);
  }

  lemma DraftCut(p: Prog, ops: seq<Word>, cut: seq<Word>)
    requires Planned(p) && DraftedUpTo(p, ops, |p.code|) && |cut| == OpCount(p.plan) && SameUpTo(ops, cut, |cut|)
    ensures Drafted(p, cut)
  {
    hide Step, Placed, StandsAt, SameUpTo;
    forall i | 0 <= i < |p.code| && Head(p.plan, i)
      ensures StandsAt(cut, StepOp(p, i), OpAt(p.plan, i))
    {
      RoomFor(p, i, i + Width(p, i));
      StandsStill(ops, cut, StepOp(p, i), OpAt(p.plan, i), |cut|);
    }
  }

  /** The three sweeps: the op stream of the program with exactly the direct and external
      targets protected. */
  method Transcode(code: seq<Insn>, ext: seq<Word>) returns (ops: array<Word>, n: nat, map_: array<Word>)
    requires 4 * |code| <= 0x8000_0000 && forall i :: 0 <= i < |code| ==> Encodable(code[i])
    ensures var p := Laid(code, Flags(code, ext), map[]);
            Planned(p) && Marked(p) && n == OpCount(p.plan) && ops.Length == n + 2 && Drafted(p, ops[..n]) &&
            MapOf(map_[..], p.plan)
    ensures fresh(ops) && fresh(map_) && ops != map_
  {
    hide Step;
    var targets := CollectTargets(code, ext);
    ghost var hot := Flags(code, ext);
    assert targets.Marks() == hot;
    ghost var p := Laid(code, hot, map[]);
    LaidIsPlanned(code, hot, map[]);
    CollectedIsMarked(p, ext);
    map_ := new Word[2 * |code| + 2](_ => 0);
    n := BuildMap(code, targets, map_, p);
    ops := EmitAll(code, targets, map_, n, p);
  }
}
