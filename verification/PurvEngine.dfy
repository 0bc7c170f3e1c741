/** The interpreter as it runs: nested loops over windows of instructions that need no bounds check. */
module PurvEngine {
  import opened Words
  import opened Isa
  import opened Machines
  import opened Harts
  import opened Rv32c
  import opened PurvMachine

  class Purv<H(!new)> {
    const hart: Hart<H>
    var pc: Word

    ghost predicate Valid()
      reads this, hart
    {
      hart.Valid()
    }

    constructor (hart: Hart<H>)
      requires hart.Valid()
      ensures Valid() && this.hart == hart && pc == 0
    {
      this.hart := hart;
      pc := 0;
    }

    /** Calls the handler for a trap op and takes over what it left. */
    method CallTrap(op: nat, inst: Word) returns (stop: bool)
      requires Valid() && Traps(op)
      modifies hart`host, hart.ram, hart.x
      ensures Valid()
      ensures var r := CallHandler(hart.env, op, old(hart.Snapshot()), inst); hart.Snapshot() == r.0 && stop == r.1
    {
      var m := hart.Snapshot();
      assert m.mem.Valid();
      var r := CallHandler(hart.env, op, m, inst);
      hart.Adopt(r);
      stop := r.1;
    }

    function ValueHere(o: Operand): Word
      requires Valid()
      reads this, hart, hart.x
    {
      match o
      case FromReg(r) => hart.x[r]
      case Const(v) => v
    }

    /** The action bodies. `left` says control left the straight line. */
    method RunAct(act: Action, at: Word, width: nat, inst: Word) returns (next: Word, stop: bool, left: bool)
      requires Valid()
      modifies hart`host, hart.ram, hart.x
      ensures Valid()
      ensures stop ==> Act(hart.env, act, at, width, inst, old(hart.Snapshot())) == Off(next, hart.Snapshot())
      ensures !stop ==> Act(hart.env, act, at, width, inst, old(hart.Snapshot())) == On(next, hart.Snapshot())
      ensures !stop && !left ==> next == Wrap(at + width)
    {
      hide KeepsShape, Alu, Taken, DoLoad, DoStore, Wrap;
      next, stop, left := Wrap(at + width), false, false;
      var trap := 0;
      match act {
        case DoAlu(f3, f7, rd, a, b) => hart.Put(rd, Alu(AluOfF3(f3, f7), ValueHere(a), ValueHere(b)));
        case DoMul(f3, rd, rs1, rs2) => hart.Put(rd, Alu(MulOfF3(f3), hart.x[rs1], hart.x[rs2]));
        case DoLoadAt(f3, rd, base, imm) =>
          var k := LoadOfF3(f3);
          if k.Some? { hart.LoadTo(k.value, rd, Wrap(hart.x[base] + imm)); } else { trap := OP_ILLEGAL; }
        case DoStoreAt(f3, rs2, base, imm) =>
          var k := StoreOfF3(f3);
          if k.Some? { hart.StoreFrom(k.value, Wrap(hart.x[base] + imm), hart.x[rs2]); } else { trap := OP_ILLEGAL; }
        case DoBranch(f3, ra, cmp, imm) =>
          var c := CondOfF3(f3);
          if c.None? {
            trap := OP_ILLEGAL;
          } else if Taken(c.value, hart.x[ra], ValueHere(cmp)) {
            next, left := Wrap(at + imm), true;
          }
        case DoJal(rd, imm) =>
          hart.Put(rd, next);
          next, left := Wrap(at + imm), true;
        case DoJalr(rd, rs1, imm) =>
          var t := ClearBit0(Wrap(hart.x[rs1] + imm));
          hart.Put(rd, next);
          next, left := t, true;
        case DoLui(rd, imm) => hart.Put(rd, imm);
        case DoAuipc(rd, imm) => hart.Put(rd, Wrap(at + imm));
        case DoNothing =>
        case DoSystem(f3, rd, rs1, imm) =>
          trap := if f3 == 0 && rd == 0 && rs1 == 0 && imm == 0 then OP_ECALL
                  else if f3 == 0 && rd == 0 && rs1 == 0 && imm == 1 then OP_EBREAK else OP_ILLEGAL;
        case DoEbreak => trap := OP_EBREAK;
        case DoIllegal => trap := OP_ILLEGAL;
      }
      if trap != 0 {
        stop := CallTrap(trap, inst);
        if stop { next := at; }
      }
    }

    /** Runs up to max instructions and returns how many: windows are sized from the code length
        so that no fetch inside one needs a check, and control transfers open a new one. */
    method Run(max: nat) returns (k: nat)
      requires Valid()
      modifies this`pc, hart`host, hart.ram, hart.x
      ensures Valid()
      ensures var r := old(Checked(hart.env, max, pc, hart.Snapshot()));
              k == r.count && pc == r.pc && hart.Snapshot() == r.m
    {
      hide KeepsShape, Act, CanFetch, ActionAt, WidthAt, RawAt;
      ghost var want := Checked(hart.env, max, pc, hart.Snapshot());
      var code := hart.rom;
      var at: Word := pc;
      k := 0;
      while k < max
        invariant Valid() && k <= max && Adds(Checked(hart.env, max - k, at, hart.Snapshot()), k) == want
        decreases max - k
      {
        var base: nat := at;
        NoRoom(code, base);
        if base >= |code| || |code| - base < 2 { break; }
        var safe: nat;
        if |code| - base < 4 {
          if Wide(code, base) { break; }
          safe := 1;
        } else {
          safe := (|code| - base) / 4;
        }
        var i: nat := 0;
        ghost var k0 := k;
        while i < safe && k < max
          invariant Valid() && i <= safe && k <= max && Adds(Checked(hart.env, max - k, at, hart.Snapshot()), k) == want
          invariant base <= at <= base + 4 * i && (i == 0 ==> at == base)
          invariant InWindow(code, base, safe) && k == k0 + i
          decreases safe - i
        {
          Fetchable(code, base, at, i, safe);
          k := k + 1;
          var next, stop, left := RunAct(ActionAt(code, at), at, WidthAt(code, at), RawAt(code, at));
          if stop {
            pc := next;
            return;
          }
          at := next;
          if left { break; }
          i := i + 1;
        }
      }
      pc := at;
    }
  }

  /** The window: instructions that certainly fit, or one compressed instruction at the tail. */
  predicate InWindow(code: seq<Byte>, base: nat, safe: nat) {
    base + 4 * safe <= |code| || (safe == 1 && base + 2 <= |code| && !Wide(code, base))
  }

  lemma NoRoom(code: seq<Byte>, base: nat)
    ensures base >= |code| || |code| - base < 2 ==> !CanFetch(code, base)
    ensures base + 2 <= |code| < base + 4 && Wide(code, base) ==> !CanFetch(code, base)
  {
  }

  /** Inside the window every fetch is in range, and the pc only steps forward. */
  lemma Fetchable(code: seq<Byte>, base: nat, at: nat, i: nat, safe: nat)
    requires InWindow(code, base, safe) && base <= at <= base + 4 * i && (i == 0 ==> at == base) && i < safe
    requires |code| < 0x1_0000_0000
    ensures CanFetch(code, at) && at + WidthAt(code, at) <= base + 4 * (i + 1) && at <= at + WidthAt(code, at) < 0x1_0000_0000
    ensures Wrap(at + WidthAt(code, at)) == at + WidthAt(code, at)
  {
  }
}
