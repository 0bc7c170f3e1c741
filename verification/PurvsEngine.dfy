/** The decode-ahead engine as it runs: decoding into a slot buffer, threading over it, and
    recovering a pc when an evaluator stops early. */
module PurvsEngine {
  import opened Words
  import opened Isa
  import opened Machines
  import opened OpWords
  import opened Harts
  import opened Rv32c
  import opened PurvMachine
  import opened PurvsTrace
  import opened PurvsSlots

  const BLOCK_SLOTS := 129

  lemma SlotsAppend(rs: seq<Rec>, r: Rec)
    ensures SlotsOf(rs + [r]) == SlotsOf(rs) + SlotsOf1(r)
    decreases |rs|
  {
    hide HasImm, SlotsOf1;
    if rs == [] {
      assert rs + [r] == [r];
      assert SlotsOf1(r) + SlotsOf([]) == SlotsOf1(r) && SlotsOf([]) + SlotsOf1(r) == SlotsOf1(r);
    } else {
      assert (rs + [r])[1..] == rs[1..] + [r];
      SlotsAppend(rs[1..], r);
      assert SlotsOf1(rs[0]) + (SlotsOf(rs[1..]) + SlotsOf1(r)) == SlotsOf1(rs[0]) + SlotsOf(rs[1..]) + SlotsOf1(r);
    }
  }

  /** The decode loop's test: up to the last address with a whole 4-byte fetch in bounds nothing
      is checked, past it the fetch is checked with care. */
  predicate WindowCheck(code: seq<Byte>, pc: nat) {
    var win := if |code| >= 4 then |code| - 4 else 0;
    pc <= win || (pc < |code| && |code| - pc >= 2 && !(Wide(code, pc) && |code| - pc < 4))
  }

  /** The test is the per-instruction check, except that code shorter than 4 bytes is entered
      at address 0 unchecked. */
  lemma WindowExact(code: seq<Byte>, pc: nat)
    ensures WindowCheck(code, pc) <==> CanFetch(code, pc) || (|code| < 4 && pc == 0)
  {
  }

  class Purvs<H(!new)> {
    const hart: Hart<H>
    const block: array<Slot>
    var pc: Word

    ghost predicate Valid()
      reads this, hart
    {
      hart.Valid() && |hart.rom| >= 4 && block.Length == BLOCK_SLOTS && block as object != hart.x && block as object != hart.ram
    }

    constructor (hart: Hart<H>)
      requires hart.Valid() && |hart.rom| >= 4
      ensures Valid() && this.hart == hart && pc == 0 && fresh(block)
    {
      this.hart := hart;
      block := new Slot[BLOCK_SLOTS](i => Imm(0));
      pc := 0;
    }

    /** Writes a record's head and, if it has one, its immediate; returns the next free slot. */
    method Write(w: nat, r: Rec) returns (next: nat)
      requires w + 2 <= block.Length
      modifies block
      ensures next == w + |SlotsOf1(r)| <= block.Length && block[w..next] == SlotsOf1(r)
      ensures forall k :: 0 <= k < w ==> block[k] == old(block[k])
    {
      hide HasImm;
      block[w] := Head(r.op, r.rd, r.rs1, r.rs2);
      next := w + 1;
      if HasImm(r.op) {
        block[w + 1] := Imm(r.imm);
        next := w + 2;
      }
    }

    /** Loop 1: decodes ahead from `from`, at most `lim` instructions, tracing through jumps. */
    method DecodeRun(from: Word, lim: nat) returns (end: Word, n: nat, insns: nat, last: Rec)
      requires Valid() && lim <= BLOCK_MAX
      modifies block
      ensures var t := TraceFrom(hart.rom, from, lim);
              end == t.end && n == |t.recs| && insns == t.insns && (n > 0 ==> last == t.recs[n - 1]) &&
              |Stream(t.recs)| <= block.Length && block[..|Stream(t.recs)|] == Stream(t.recs)
    {
      hide TraceFrom, DecodeOne, CanFetch, WidthAt, Wrap, HasImm, SlotsOf1, Open, KeepsShape, Terminator, SlotsOf, WindowCheck;
      var code := hart.rom;
      var at: Word, w: nat := from, 0;
      n, insns := 0, 0;
      last := Rec(OP_NOP, 0, 0, 0, 0);
      ghost var rs: seq<Rec> := [];
      OpenStart(code, from);
      assert SlotsOf([]) == [];
      var done := false;
      while insns < lim && !done
        invariant Valid() && n == |rs| <= insns <= lim && w == |SlotsOf(rs)| && block[..w] == SlotsOf(rs)
        invariant n > 0 ==> last == rs[n - 1]
        invariant !done ==> Open(code, from, insns, rs, at)
        invariant done ==> TraceFrom(code, from, lim) == Trace(rs, at, insns)
        decreases lim - insns, !done
      {
        WindowExact(code, at);
        if !WindowCheck(code, at) {
          OpenEnd(code, from, insns, rs, at, lim);
          done := true;
        } else {
          var r, next := DecodeOne(code, at), Wrap(at + WidthAt(code, at));
          if r.op == OP_JAL {
            OpenStep(code, from, insns, rs, at);
            if r.rd != 0 {
              var link := r.(op := OP_LUI, imm := next);
              SlotsAppend(rs, link);
              var w' := Write(w, link);
              Grown(block[..], w, w', rs, link);
              last, w, n := link, w', n + 1;
              rs := rs + [link];
            } else {
              assert rs + [] == rs;
            }
            at, insns := r.imm, insns + 1;
          } else {
            if Terminator(r.op) {
              OpenLast(code, from, insns, rs, at, lim);
              done := true;
            } else {
              OpenStep(code, from, insns, rs, at);
            }
            SlotsAppend(rs, r);
            var w' := Write(w, r);
            Grown(block[..], w, w', rs, r);
            last, w, n := r, w', n + 1;
            rs := rs + [r];
            at, insns := next, insns + 1;
          }
        }
      }
      if !done {
        OpenEnd(code, from, insns, rs, at, lim);
      }
      block[w] := Head(OP_END, 0, 0, 0);
      assert block[..w + 1] == SlotsOf(rs) + [Head(OP_END, 0, 0, 0)];
      end := at;
    }

    /** Loop 2: threads from head to head, striding over immediates, until the sentinel or a trap. */
    method Eval(preset: Word) returns (ran: nat, next: Word)
      requires Valid() && Thread(hart.env, block[..], 0, preset, hart.Snapshot()).Some?
      modifies hart`host, hart.ram, hart.x
      ensures Valid()
      ensures old(Thread(hart.env, block[..], 0, preset, hart.Snapshot())) == Some((ran, next, hart.Snapshot()))
    {
      hide Handle, KeepsShape;
      ghost var want := Thread(hart.env, block[..], 0, preset, hart.Snapshot());
      var d: nat := 0;
      next := preset;
      while true
        invariant Valid() && d <= block.Length && want.Some? && Thread(hart.env, block[..], d, next, hart.Snapshot()) == want
        decreases block.Length - d
      {
        assert d < block.Length && RecAt(block[..], d).Some?;
        var s := block[d];
        if s.op == OP_END { return d, next; }
        if Traps(s.op) { return d + 1, next; }
        if Consumes(s.op) {
          next := RunRecord(Rec(s.op, s.rd, s.rs1, s.rs2, block[d + 1].v), next);
          d := d + 2;
        } else {
          next := RunRecord(Rec(s.op, s.rd, s.rs1, s.rs2, 0), next);
          d := d + 1;
        }
      }
    }

    /** One handler. */
    method RunRecord(r: Rec, at: Word) returns (next: Word)
      requires Valid() && !Traps(r.op) && r.op != OP_END
      modifies hart`host, hart.ram, hart.x
      ensures Valid()
      ensures Handle(hart.env, r, at, old(hart.Snapshot())) == (next, hart.Snapshot())
    {
      hide KeepsShape, Alu, Taken, DoLoad, DoStore, Wrap;
      next := at;
      if r.op <= 9 || 19 <= r.op <= 26 {
        hart.Put(r.rd, Alu(AluOf(r.op), hart.x[r.rs1], hart.x[r.rs2]));
      } else if r.op <= 18 {
        hart.Put(r.rd, Alu(ImmOf(r.op), hart.x[r.rs1], r.imm));
      } else if r.op <= 31 {
        hart.LoadTo(LoadOf(r.op), r.rd, Wrap(hart.x[r.rs1] + r.imm));
      } else if r.op <= 34 {
        hart.StoreFrom(StoreOf(r.op), Wrap(hart.x[r.rs1] + r.imm), hart.x[r.rs2]);
      } else if r.op <= 40 {
        if Taken(CondOf(r.op), hart.x[r.rs1], hart.x[r.rs2]) { next := r.imm; }
      } else if r.op == OP_JAL {
        hart.Put(r.rd, at);
        next := r.imm;
      } else if r.op == OP_JALR {
        var t := ClearBit0(Wrap(hart.x[r.rs1] + r.imm));
        hart.Put(r.rd, at);
        next := t;
      } else if r.op == OP_LUI {
        hart.Put(r.rd, r.imm);
      }
    }

    method CallTrap(op: nat, inst: Word) returns (stop: bool)
      requires Valid() && Traps(op)
      modifies hart`host, hart.ram, hart.x
      ensures Valid()
      ensures var r := CallHandler(hart.env, op, old(hart.Snapshot()), inst); hart.Snapshot() == r.0 && stop == r.1
    {
      var m := hart.Snapshot();
      assert m.mem.Valid();
      var r := CallHandler(hart.env, op, m, inst);
      hart.Adopt(r);
      stop := r.1;
    }

    /** Re-walks raw code from a run's start through `records` emitted records, stepping over
        sequential instructions and following absorbed jumps. */
    method FixupPc(from: Word, records: nat, ghost lim: nat) returns (at: Word, insns: nat)
      requires Valid() && records < |TraceFrom(hart.rom, from, lim).recs|
      ensures insns <= lim && AfterRecord(hart.rom, from, TraceFrom(hart.rom, from, lim).recs, records, at, insns)
    {
      hide TraceFrom, DecodeOne, CanFetch, LeanStep, WidthAt, Wrap, Open, KeepsShape, Terminator;
      var code := hart.rom;
      var recs: nat := 0;
      at, insns := from, 0;
      ghost var rs: seq<Rec> := [];
      ghost var all := TraceFrom(code, from, lim).recs;
      OpenStart(code, from);
      OpenEnd(code, from, 0, rs, at, 0);
      while recs < records
        invariant recs == |rs| <= records && insns <= lim && Open(code, from, insns, rs, at)
        invariant TraceFrom(code, from, insns) == Trace(rs, at, insns)
        invariant recs > 0 && recs == records ==> insns > 0 && |TraceFrom(code, from, insns - 1).recs| == recs - 1
        decreases lim - insns
      {
        OpenMore(code, from, insns, rs, at, lim);
        LeanAgrees(code, at);
        var s := LeanStep(code, at);
        OpenStep(code, from, insns, rs, at);
        ghost var r, next := DecodeOne(code, at), Wrap(at + WidthAt(code, at));
        rs := rs + Contributes(r, next);
        insns := insns + 1;
        if s.jump {
          if s.link { recs := recs + 1; }
          at := s.target;
        } else {
          recs := recs + 1;
          at := Wrap(at + s.width);
        }
        OpenEnd(code, from, insns, rs, at, insns);
      }
      OpenPrefix(code, from, insns, rs, at, lim);
      assert rs == all[..records];
    }

    /** Batches of decode-ahead runs until max instructions, the code's end, or a stopping trap. */
    method Run(max: nat) returns (k: nat)
      requires Valid()
      modifies this`pc, block, hart`host, hart.ram, hart.x
      ensures Valid()
      ensures var r := old(PurvsBatch(hart.env, max, pc, hart.Snapshot()));
              k == r.count && pc == r.pc && hart.Snapshot() == r.m
    {
      hide TraceFrom, EvalAll, Thread, CallHandler, KeepsShape, SlotsOf, PurvsBatch, Stream, NoEnd, Straight;
      ghost var want := PurvsBatch(hart.env, max, pc, hart.Snapshot());
      k := 0;
      while k < max
        invariant Valid() && k <= max && Adds(PurvsBatch(hart.env, max - k, pc, hart.Snapshot()), k) == want
        decreases max - k
      {
        var lim := if max - k < BLOCK_MAX then max - k else BLOCK_MAX;
        ghost var t := TraceFrom(hart.rom, pc, lim);
        ghost var m := hart.Snapshot();
        var runPc := pc;
        BatchUnfolds(hart.env, max - k, pc, m, t);
        var end, n, insns, last := DecodeRun(pc, lim);
        if insns == 0 { break; }
        pc := end;
        if n == 0 {
          NoRecords(hart.env, end, m);
          k := k + insns;
        } else {
          TraceRecords(hart.rom, runPc, lim);
          BlockThreads(hart.env, block[..], t.recs, end, m);
          var ran, next := Eval(end);
          pc := next;
          k := k + insns;
          if Traps(last.op) {
            var stop := CallTrap(last.op, last.imm);
            pc := runPc;
            if stop { break; }
            pc := end;
          }
        }
      }
      BatchSpent(hart.env, pc, hart.Snapshot());
    }
  }

  lemma Grown(s: seq<Slot>, w: nat, w': nat, rs: seq<Rec>, r: Rec)
    requires w <= w' <= |s| && s[..w] == SlotsOf(rs) && s[w..w'] == SlotsOf1(r)
    ensures s[..w'] == SlotsOf(rs) + SlotsOf1(r)
  {
    assert s[..w'] == s[..w] + s[w..w'];
  }

  lemma BatchUnfolds<H>(env: Env<H>, n: nat, pc: Word, m: Machine<H>, t: Trace)
    requires n > 0 && t == TraceFrom(m.mem.rom, pc, if n < BLOCK_MAX then n else BLOCK_MAX)
    ensures PurvsBatch(env, n, pc, m) ==
            if t.insns == 0 then Batch(pc, m, 0, false)
            else
              var r := RunOnce(env, t, pc, m);
              if r.stopped then r else Then(r, PurvsBatch(env, n - t.insns, r.pc, r.m))
  {
    hide TraceFrom, RunOnce;
  }

  lemma BatchSpent<H>(env: Env<H>, pc: Word, m: Machine<H>)
    ensures PurvsBatch(env, 0, pc, m) == Batch(pc, m, 0, false)
  {
  }

  lemma NoRecords<H>(env: Env<H>, pc: Word, m: Machine<H>)
    ensures EvalAll(env, [], pc, m) == (pc, m)
  {
  }

  /** The buffer threads as its records evaluate, and the result reads as completed. */
  lemma BlockThreads<H>(env: Env<H>, s: seq<Slot>, recs: seq<Rec>, pc: Word, m: Machine<H>)
    requires NoEnd(recs) && Straight(recs) && |Stream(recs)| <= |s| && s[..|Stream(recs)|] == Stream(recs)
    ensures var r := Thread(env, s, 0, pc, m);
            r.Some? && r.value.0 >= |recs| && (r.value.1, r.value.2) == EvalAll(env, recs, pc, m)
  {
    hide Thread, EvalAll, SlotsOf;
    var after := s[|Stream(recs)|..];
    assert s == [] + (Stream(recs) + after);
    ThreadVisits(env, [], recs, after, pc, m);
  }
}
