/** The evaluator as it runs: handlers that update registers and memory in place, and the
    budgeted dispatch loop, each proved against its specification. */
module PurvaEngine {
  import opened Words
  import opened Isa
  import opened Machines
  import opened Harts
  import opened BulkOps
  import opened Fusion
  import opened OpWords
  import opened MaskBits
  import opened Transcoding
  import opened Evaluator
  import opened Batches
  import opened FuelSlices

  class Engine<H(!new)> {
    const hart: Hart<H>
    const ops: seq<Word>
    var pc: Word
    var trapped: bool

    ghost predicate Valid()
      reads this, hart
    {
      hart.Valid() && SAVE_SPAN <= hart.ram.Length && 4 * |ops| < 0x1_0000_0000
    }

    constructor (hart: Hart<H>, ops: seq<Word>)
      requires hart.Valid() && SAVE_SPAN <= hart.ram.Length && 4 * |ops| < 0x1_0000_0000
      ensures Valid() && this.hart == hart && this.ops == ops && pc == 0 && !trapped
    {
      this.hart, this.ops := hart, ops;
      pc, trapped := 0, false;
    }

    // ---- the fused frame ops ----

    method SaveBand(mask: Mask, top: nat) returns (cnt: nat)
      requires Valid() && SAVE_SPAN <= top <= hart.ram.Length
      modifies hart.ram
      ensures Valid() && cnt == |RanksOf(mask)|
      ensures hart.ram[..] == FastSave(old(hart.ram[..]), hart.x[..], SetBits(mask, 0), top)
    {
      hide WriteLE, KeepsShape;
      var q, b := top, 0;
      cnt := 0;
      assert mask[0..] == mask;
      while b < RANKS
        invariant 0 <= b <= RANKS && Valid()
        invariant cnt + |SetBits(mask[b..], b)| == |RanksOf(mask)|
        invariant 4 * (RANKS - b) <= q <= hart.ram.Length
        invariant FastSave(hart.ram[..], hart.x[..], SetBits(mask[b..], b), q) == FastSave(old(hart.ram[..]), hart.x[..], SetBits(mask, 0), top)
      {
        assert mask[b..][1..] == mask[b + 1..];
        assert ([b as RankNo] + SetBits(mask[b + 1..], b + 1))[1..] == SetBits(mask[b + 1..], b + 1);
        if mask[b] {
          q := q - 4;
          hart.StoreBytes(q, 4, hart.x[RankReg(b)]);
          cnt := cnt + 1;
        } else {
          assert [] + SetBits(mask[b + 1..], b + 1) == SetBits(mask[b + 1..], b + 1);
        }
        b := b + 1;
      }
    }

    method RestoreBand(mask: Mask, top: nat) returns (cnt: nat)
      requires Valid() && SAVE_SPAN <= top <= hart.ram.Length
      modifies hart.x
      ensures Valid() && cnt == |RanksOf(mask)|
      ensures hart.x[..] == FastRestore(hart.ram[..], old(hart.x[..]), SetBits(mask, 0), top)
    {
      hide ReadLE, KeepsShape;
      var q, b := top, 0;
      cnt := 0;
      assert mask[0..] == mask;
      while b < RANKS
        invariant 0 <= b <= RANKS && Valid()
        invariant cnt + |SetBits(mask[b..], b)| == |RanksOf(mask)|
        invariant 4 * (RANKS - b) <= q <= hart.ram.Length
        invariant FastRestore(hart.ram[..], hart.x[..], SetBits(mask[b..], b), q) == FastRestore(hart.ram[..], old(hart.x[..]), SetBits(mask, 0), top)
      {
        assert mask[b..][1..] == mask[b + 1..];
        assert ([b as RankNo] + SetBits(mask[b + 1..], b + 1))[1..] == SetBits(mask[b + 1..], b + 1);
        if mask[b] {
          q := q - 4;
          var v := hart.LoadBytes(q, 4);
          hart.x[RankReg(b)] := v;
          cnt := cnt + 1;
        } else {
          assert [] + SetBits(mask[b + 1..], b + 1) == SetBits(mask[b + 1..], b + 1);
        }
        b := b + 1;
      }
    }

    /** The cold path: each saved register stored on its own, a miss going to the callback. */
    method SaveSlowly(mask: Mask, top: Word) returns (cnt: nat)
      requires Valid()
      modifies hart`host, hart.ram
      ensures Valid() && cnt == |RanksOf(mask)|
      ensures (hart.host, hart.MemNow()) == old(SlowSave(hart.env, hart.host, hart.MemNow(), hart.x[..], SetBits(mask, 0), top))
    {
      hide KeepsShape, Write, Wrap, MaskOf, SetBits, Trailing, ClearLowest, Pow2;
      var a := top;
      var m: nat := MaskNumber(mask);
      cnt := 0;
      MaskRoundTrip(mask, 0);
      while m != 0
        invariant m < Pow2(RANKS) && Valid()
        invariant cnt + |SetBits(MaskOf(m, RANKS), 0)| == |RanksOf(mask)|
        invariant SlowSave(hart.env, hart.host, hart.MemNow(), hart.x[..], SetBits(MaskOf(m, RANKS), 0), a) ==
                  old(SlowSave(hart.env, hart.host, hart.MemNow(), hart.x[..], SetBits(mask, 0), top))
        decreases m
      {
        NextBit(m);
        var r := Trailing(m);
        m := ClearLowest(m);
        a := Wrap(a as int - 4);
        cnt := cnt + 1;
        hart.MemWrite(a, 4, hart.x[RankReg(r)]);
      }
      NoneLeft(RANKS, 0);
    }

    lemma NextBit(m: nat)
      requires 0 < m < Pow2(RANKS)
      ensures ClearLowest(m) < m && Trailing(m) < RANKS
      ensures var ranks := SetBits(MaskOf(m, RANKS), 0);
              ranks != [] && ranks[0] == Trailing(m) && ranks[1..] == SetBits(MaskOf(ClearLowest(m), RANKS), 0)
    {
      LowestBit(m, RANKS, 0);
    }

    method RestoreSlowly(mask: Mask, top: Word) returns (cnt: nat)
      requires Valid()
      modifies hart`host, hart.ram, hart.x
      ensures Valid() && cnt == |RanksOf(mask)|
      ensures hart.Snapshot() == old(SlowRestore(hart.env, hart.Snapshot(), SetBits(mask, 0), top))
    {
      hide KeepsShape, Read, Wrap, MaskOf, SetBits, Trailing, ClearLowest, Pow2;
      var a := top;
      var m: nat := MaskNumber(mask);
      cnt := 0;
      MaskRoundTrip(mask, 0);
      while m != 0
        invariant m < Pow2(RANKS) && Valid()
        invariant cnt + |SetBits(MaskOf(m, RANKS), 0)| == |RanksOf(mask)|
        invariant SlowRestore(hart.env, hart.Snapshot(), SetBits(MaskOf(m, RANKS), 0), a) ==
                  old(SlowRestore(hart.env, hart.Snapshot(), SetBits(mask, 0), top))
        decreases m
      {
        NextBit(m);
        var r := Trailing(m);
        m := ClearLowest(m);
        a := Wrap(a as int - 4);
        cnt := cnt + 1;
        var v := hart.MemRead(a, 4);
        hart.x[RankReg(r)] := v;
      }
      NoneLeft(RANKS, 0);
    }

    method RunPrologue(mask: Mask, frame: nat, ghost next: nat) returns (charge: nat)
      requires Valid()
      modifies hart`host, hart.ram, hart.x
      ensures Valid()
      ensures DoPrologue(hart.env, old(hart.Snapshot()), mask, frame, next) == Effect(hart.Snapshot(), charge, Fall(next))
    {
      hide KeepsShape, FastSave, SlowSave, SetBits, Wrap;
      var sp0 := hart.x[2];
      var cnt;
      var q := FrameTop(hart.MemNow(), sp0);
      if q.Some? {
        cnt := SaveBand(mask, q.value);
      } else {
        cnt := SaveSlowly(mask, sp0);
      }
      hart.x[2] := Wrap(sp0 - frame);
      charge := cnt + 1;
    }

    method RunEpilogue(mask: Mask, frame: nat) returns (charge: nat, t: Word)
      requires Valid()
      modifies hart`host, hart.ram, hart.x
      ensures Valid()
      ensures DoEpilogue(hart.env, old(hart.Snapshot()), mask, frame) == Effect(hart.Snapshot(), charge, JumpReg(t))
    {
      hide KeepsShape, FastRestore, SlowRestore, SetBits, Wrap;
      var top := Wrap(hart.x[2] + frame);
      var cnt;
      var q := FrameTop(hart.MemNow(), top);
      if q.Some? {
        cnt := RestoreBand(mask, q.value);
      } else {
        cnt := RestoreSlowly(mask, top);
      }
      hart.x[2] := top;
      t := ClearBit0(hart.x[1]);
      charge := cnt + 2;
    }

    // ---- the bulk instruction ----

    method CopyOne(to: Word, from: Word)
      requires Valid()
      modifies hart`host, hart.ram
      ensures Valid() && (hart.host, hart.MemNow()) == old(CopyByte(hart.env, hart.host, hart.MemNow(), to, from))
    {
      hide KeepsShape;
      var src := Tail(hart.MemNow(), from);
      var v: Word;
      if src != [] {
        v := src[0];
      } else {
        v := hart.CallLoad(from);
      }
      var w := Rel(to, hart.wbase);
      if w < hart.ram.Length {
        hart.ram[w] := v % 0x100;
      } else {
        hart.CallStore(to, v);
      }
    }

    /** memmove: both ranges resolved, so every destination byte becomes the old source byte. */
    method MoveBlock(w: nat, src: seq<Byte>, n: nat)
      requires w + n <= hart.ram.Length && n <= |src|
      modifies hart.ram
      ensures hart.ram[..] == old(hart.ram[..])[..w] + src[..n] + old(hart.ram[..])[w + n..]
    {
      forall k | 0 <= k < n {
        hart.ram[w + k] := src[k];
      }
    }

    method CopyRange(to: Word, from: Word, n: nat)
      requires Valid()
      modifies hart`host, hart.ram
      ensures Valid() && (hart.host, hart.MemNow()) == old(Copy(hart.env, hart.host, hart.MemNow(), to, from, n))
    {
      hide KeepsShape, CopyByte, Tail, WritableFrom;
      var src := Tail(hart.MemNow(), from);
      if 0 < WritableFrom(hart.MemNow(), to) && src != [] && n <= WritableFrom(hart.MemNow(), to) && n <= |src| {
        WritableRoom(hart.MemNow(), to, n);
        MoveBlock(Rel(to, hart.wbase), src, n);
      } else {
        var i := 0;
        while i < n
          invariant 0 <= i <= n && Valid()
          invariant CopySteps(hart.env, hart.host, hart.MemNow(), to, from, n, i) == old(CopySteps(hart.env, hart.host, hart.MemNow(), to, from, n, 0))
        {
          var j := CopyIndex(to, from, n, i);
          CopyOne(Wrap(to + j), Wrap(from + j));
          i := i + 1;
        }
      }
    }

    method FillRange(to: Word, v: Word, n: nat)
      requires Valid()
      modifies hart`host, hart.ram
      ensures Valid() && (hart.host, hart.MemNow()) == old(Fill(hart.env, hart.host, hart.MemNow(), to, v, n))
    {
      hide KeepsShape, WritableFrom;
      if 0 < WritableFrom(hart.MemNow(), to) && n <= WritableFrom(hart.MemNow(), to) {
        WritableRoom(hart.MemNow(), to, n);
        MoveBlock(Rel(to, hart.wbase), seq(n, i => v % 0x100), n);
        assert seq(n, i => v % 0x100)[..n] == seq(n, i => v % 0x100);
      } else {
        var i := 0;
        while i < n
          invariant 0 <= i <= n && Valid()
          invariant FillSteps(hart.env, hart.host, hart.MemNow(), to, v, n, i) == old(FillSteps(hart.env, hart.host, hart.MemNow(), to, v, n, 0))
        {
          var w := Rel(Wrap(to + i), hart.wbase);
          if w < hart.ram.Length {
            hart.ram[w] := v % 0x100;
          } else {
            hart.CallStore(Wrap(to + i), v);
          }
          i := i + 1;
        }
      }
    }

    method RunBulk(f3: nat, rd: Reg, rs1: Reg, rs2: Reg) returns (charge: nat)
      requires Valid()
      modifies hart`host, hart.ram, hart.x
      ensures Valid() && (hart.Snapshot(), charge) == old(Bulk(hart.env, hart.Snapshot(), f3, rd, rs1, rs2))
    {
      hide KeepsShape, Copy, Fill, Tail, Wrap;
      var a, b, n := hart.x[rd], hart.x[rs1], hart.x[rs2];
      if f3 == 0 {
        CopyRange(a, b, n);
        charge := n / 4;
      } else if f3 == 1 {
        FillRange(a, b, n);
        charge := n / 4;
      } else if f3 == 2 || f3 == 5 || f3 == 7 {
        var xs, ys := Tail(hart.MemNow(), a), Tail(hart.MemNow(), b);
        var len := Min(Min(if f3 == 5 then 0xffff_ffff else n, |xs|), |ys|);
        var i := FindMismatch(xs, ys, len, f3 != 2);
        hart.x[rd] := Difference(xs, ys, len, i);
        charge := Charge(i, len);
      } else if f3 == 3 {
        var xs := Tail(hart.MemNow(), a);
        var len := Min(n, |xs|);
        var i := FindByte(xs, b % 0x100, len, false);
        hart.x[rd] := if i < len then Wrap(a + i) else 0;
        charge := Charge(i, len);
      } else if f3 == 4 {
        var xs := Tail(hart.MemNow(), a);
        var i := FindByte(xs, 0, |xs|, false);
        hart.x[rd] := Wrap(i);
        charge := i + 1;
      } else if f3 == 6 {
        var xs := Tail(hart.MemNow(), a);
        var i := FindByte(xs, b % 0x100, |xs|, true);
        hart.x[rd] := if i < |xs| && xs[i] == b % 0x100 then Wrap(a + i) else 0;
        charge := Charge(i, |xs|);
      } else {
        charge := 0;
      }
    }

    // ---- the handlers ----

    method RunTrap(d: Insn, q: nat) returns (flow: Flow)
      requires Valid() && (d.Ecall? || d.Ebreak? || d.Illegal?)
      modifies hart`host, hart.ram, hart.x
      ensures Valid() && Effect(hart.Snapshot(), 1, flow) == ExecOne(hart.env, d, q, old(hart.Snapshot()))
    {
      var at := Wrap(4 * q);
      var m := hart.Snapshot();
      assert m.mem.Valid();
      var r := if d.Ecall? then hart.env.ecall(m, at) else if d.Ebreak? then hart.env.ebreak(m, at) else hart.env.illegal(m, at);
      hart.Adopt(r);
      flow := if r.1 then Halt else Resume(q + 1);
    }

    method RunPlain(d: Insn, q: nat) returns (charge: nat, flow: Flow)
      requires Valid()
      modifies hart`host, hart.ram, hart.x
      ensures Valid() && Effect(hart.Snapshot(), charge, flow) == ExecOne(hart.env, d, q, old(hart.Snapshot()))
    {
      hide KeepsShape, Alu, Taken, DoLoad, DoStore, Bulk, Wrap;
      charge, flow := 1, Fall(q + 1);
      match d
      case RegReg(op, rd, rs1, rs2) => hart.x[rd] := Alu(op, hart.x[rs1], hart.x[rs2]);
      case RegImm(op, rd, rs1, imm) => hart.x[rd] := Alu(op, hart.x[rs1], imm);
      case Load(k, rd, rs1, imm) => hart.LoadTo(k, rd, Wrap(hart.x[rs1] + imm));
      case Store(k, rs2, rs1, imm) => hart.StoreFrom(k, Wrap(hart.x[rs1] + imm), hart.x[rs2]);
      case Branch(c, rs1, rs2, target) => if Taken(c, hart.x[rs1], hart.x[rs2]) { flow := Jump(target); }
      case Jal(rd, target) =>
        hart.Put(rd, Wrap(4 * q + 4));
        flow := Jump(target);
      case Jalr(rd, rs1, imm) =>
        var t := ClearBit0(Wrap(hart.x[rs1] + imm));
        hart.Put(rd, Wrap(4 * q + 4));
        flow := JumpReg(t);
      case Lui(rd, uimm) => hart.x[rd] := Wrap(uimm * 0x1000);
      case Auipc(rd, uimm) => hart.x[rd] := Wrap(4 * q + uimm * 0x1000);
      case Memop(f3, rd, rs1, rs2) =>
        var c := RunBulk(f3, rd, rs1, rs2);
        charge := c + 1;
      case Nop =>
      case Ecall => flow := RunTrap(d, q);
      case Ebreak => flow := RunTrap(d, q);
      case Illegal => flow := RunTrap(d, q);
    }

    predicate LoadPair(op: Op) {
      op.Lwx? || op.Lwlw? || op.Vcall? || op.Lwsw? || op.LoadBz?
    }

    method RunDoubleLoad(op: Op, q: nat) returns (charge: nat, flow: Flow)
      requires Valid() && (op.Lwx? || op.Lwlw? || op.Vcall?)
      modifies hart`host, hart.ram, hart.x
      ensures Valid() && Effect(hart.Snapshot(), charge, flow) == Exec(hart.env, op, q, old(hart.Snapshot()))
    {
      hide KeepsShape, Read, Wrap;
      charge, flow := 2, Fall(q + 1);
      match op
      case Lwx(rd, rs1, rs2, off) =>
        var v := hart.MemRead(Wrap(hart.x[rs1] + hart.x[rs2] + off), 4);
        hart.x[rd] := v;
      case Lwlw(rd, rs1, o1, o2) =>
        var v := hart.MemRead(Wrap(hart.x[rs1] + o1), 4);
        v := hart.MemRead(Wrap(v + o2), 4);
        hart.x[rd] := v;
      case Vcall(rd, rs1, o1, o2) =>
        var v := hart.MemRead(Wrap(hart.x[rs1] + o1), 4);
        v := hart.MemRead(Wrap(v + o2), 4);
        var t := ClearBit0(v);
        hart.x[rd] := t;
        hart.x[1] := Wrap(4 * q + 4);
        charge, flow := 3, JumpReg(t);
    }

    /** The ops that replace a load and its neighbours. */
    method RunLoadPair(op: Op, q: nat) returns (charge: nat, flow: Flow)
      requires Valid() && LoadPair(op)
      modifies hart`host, hart.ram, hart.x
      ensures Valid() && Effect(hart.Snapshot(), charge, flow) == Exec(hart.env, op, q, old(hart.Snapshot()))
    {
      hide KeepsShape, Extend, Read, Write, Wrap;
      charge, flow := 2, Fall(q + 1);
      if op.Lwsw? {
        var v := hart.MemRead(Wrap(hart.x[op.rs1] + op.o1), 4);
        hart.x[op.rd] := v;
        hart.MemWrite(Wrap(hart.x[op.rs2] + op.o2), 4, v);
      } else if op.LoadBz? {
        var k := if op.byte then LBU else LW;
        var v := hart.MemRead(Wrap(hart.x[op.rs1] + op.off), LoadSize(k));
        hart.x[op.rd] := Extend(k, v);
        flow := if (hart.x[op.rd] == 0) == op.onZero then Jump(op.target) else Fall(q + 2);
      } else {
        charge, flow := RunDoubleLoad(op, q);
      }
    }

    method RunOp(op: Op, q: nat) returns (charge: nat, flow: Flow)
      requires Valid()
      modifies hart`host, hart.ram, hart.x
      ensures Valid() && Effect(hart.Snapshot(), charge, flow) == Exec(hart.env, op, q, old(hart.Snapshot()))
    {
      hide KeepsShape, ExecOne, DoPrologue, DoEpilogue, Extend, Read, Write, Wrap, ShiftLeft, SignExtend;
      charge, flow := 2, Fall(q + 1);
      match op
      case One(d) => charge, flow := RunPlain(d, q);
      case Prologue(mask, frame) => charge := RunPrologue(mask, frame, q + 1);
      case Epilogue(mask, frame) =>
        var t;
        charge, t := RunEpilogue(mask, frame);
        flow := JumpReg(t);
      case LiLo(rd, v) =>
        hart.x[rd] := SignExtend(v, 0x10_0000);
        charge := 1;
      case LiHi(rd, v) =>
        hart.x[rd] := Wrap(SignExtend(v, 0x10_0000) + 0x8000_0000);
        charge := 1;
      case Shadd(rd, rs1, rs2, sh) => hart.x[rd] := Wrap(hart.x[rs1] + ShiftLeft(hart.x[rs2], sh));
      case _ => charge, flow := RunLoadPair(op, q);
    }

    // ---- the dispatch loop ----

    /** Runs from pc until a jump, return or serviced trap finds the budget spent, an indirect
        jump leaves the code, or a handler stops. Nothing runs when pc is outside the code. */
    method Run(max: nat) returns (k: nat)
      requires Valid() && !Loop(ops, hart.env, pc, hart.Snapshot(), max).how.Lost?
      modifies hart`host, this`pc, hart.ram, hart.x
      ensures Valid()
      ensures var r := old(Loop(ops, hart.env, pc, hart.Snapshot(), max)); k == r.k && pc == r.pc && hart.Snapshot() == r.m
    {
      hide KeepsShape, Exec, OpIn, Wrap;
      if pc >= 4 * |ops| { return 0; }
      ghost var want := Loop(ops, hart.env, pc, hart.Snapshot(), max);
      var q: nat := pc / 4;
      k := 0;
      while true
        invariant Valid() && !want.how.Lost? && Batch(ops, hart.env, q, hart.Snapshot(), k, max) == want
        decreases if k < max then max - k else 0, |ops| - q
      {
        assert q < |ops| && Ready(hart.Snapshot().mem);
        Progress(ops, hart.env, q, hart.Snapshot());
        var charge, flow := RunOp(OpIn(ops, q), q);
        k := k + charge;
        match flow
        case Fall(n) => q := n;
        case Jump(n) =>
          if k >= max { pc := Wrap(4 * n); return; }
          q := n;
        case JumpReg(t) =>
          if t >= 4 * |ops| || k >= max { pc := t; return; }
          q := t / 4;
        case Resume(n) =>
          if k >= max { pc := Wrap(4 * n); return; }
          q := n;
        case Halt =>
          pc := Wrap(4 * q);
          return;
      }
    }

    function GuestNow(): Guest<H>
      requires hart.x.Length == 32
      reads this, hart, hart.x, hart.ram
    {
      Guest(hart.Snapshot(), pc, trapped)
    }

    /** Runs up to `fuel`, in as many batches as it takes, until the guest is finished: a hook
        said so, the pc left the code, or a batch made no progress. */
    method RunFor(verdict: H -> Status, fuel: nat) returns (used: nat)
      requires Valid() && !RunSlice(ops, hart.env, verdict, GuestNow(), fuel).astray
      modifies this, hart, hart.ram, hart.x
      ensures Valid() && old(RunSlice(ops, hart.env, verdict, GuestNow(), fuel)) == Ran(GuestNow(), used, false)
    {
      hide KeepsShape, Loop;
      used := 0;
      if StatusOf(verdict, GuestNow()) != Runnable { return; }
      ghost var want := RunSlice(ops, hart.env, verdict, GuestNow(), fuel);
      while used < fuel
        invariant Valid() && !want.astray && RunLoop(ops, hart.env, verdict, GuestNow(), fuel, used) == want
        decreases fuel - used
      {
        var ran := Run(fuel - used);
        if StatusOf(verdict, GuestNow()) != Runnable {
          used := used + ran;
          return;
        }
        if pc >= 4 * |ops| || ran == 0 {
          trapped := true;
          used := used + ran;
          return;
        }
        used := used + ran;
      }
    }
  }

  lemma WritableRoom(mem: Mem, to: Word, n: nat)
    requires 0 < WritableFrom(mem, to) && n <= WritableFrom(mem, to)
    ensures Rel(to, mem.wbase) + n <= |mem.ram|
  {
  }

  method FindMismatch(xs: seq<Byte>, ys: seq<Byte>, len: nat, str: bool) returns (i: nat)
    requires len <= |xs| && len <= |ys|
    ensures i == Mismatch(xs, ys, len, str, 0)
  {
    i := 0;
    while i < len && xs[i] == ys[i] && !(str && xs[i] == 0)
      invariant 0 <= i <= len
      invariant Mismatch(xs, ys, len, str, i) == Mismatch(xs, ys, len, str, 0)
    {
      i := i + 1;
    }
  }

  method FindByte(xs: seq<Byte>, c: Byte, len: nat, str: bool) returns (i: nat)
    requires len <= |xs|
    ensures i == Seek(xs, c, len, str, 0)
  {
    i := 0;
    while i < len && xs[i] != c && !(str && xs[i] == 0)
      invariant 0 <= i <= len
      invariant Seek(xs, c, len, str, i) == Seek(xs, c, len, str, 0)
    {
      i := i + 1;
    }
  }
}
