/** What the bulk instruction leaves in memory and what it charges. */
module BulkLaws {
  import opened Words
  import opened Isa
  import opened Machines
  import opened BulkOps
  import opened BulkCopies

  // ---- the bytes a pointer reaches ----

  /** The bytes scanned from a are those of the writable region at a and the addresses after it, up to
      that region's end; of the read-only region when a is not writable; and none on a miss. */
  lemma TailSpans(mem: Mem, a: Word, j: nat)
    requires mem.Valid()
    ensures var x := Tail(mem, a);
            (x == [] <==> !Mapped(mem, a)) &&
            (j < |x| && Writable(mem, a) ==> Writable(mem, At(a, j)) && x[j] == ByteAt(mem, At(a, j))) &&
            (j < |x| && !Writable(mem, a) ==> Rel(At(a, j), mem.rbase) < |mem.rom| && x[j] == mem.rom[Rel(At(a, j), mem.rbase)]) &&
            (x != [] ==> Rel(At(a, |x| - 1), if Writable(mem, a) then mem.wbase else mem.rbase) == |if Writable(mem, a) then mem.ram else mem.rom| - 1)
    ensures WritableFrom(mem, a) == if Writable(mem, a) then |Tail(mem, a)| else 0
  {
    hide Rel, At;
    var x := Tail(mem, a);
    if x != [] {
      var base := if Writable(mem, a) then mem.wbase else mem.rbase;
      Offset(a, |x| - 1, base);
      if j < |x| { Offset(a, j, base); }
    }
  }

  // ---- memset ----

  /** Writable bytes at the n addresses from `to` hold b, every other byte what it held. */
  ghost predicate Filled(mem0: Mem, mem: Mem, to: Word, n: nat, b: Byte) {
    && mem0.SameShape(mem)
    && (forall a: Word :: Writable(mem0, a) ==> ByteAt(mem, a) == if Rel(a, to) < n then b else ByteAt(mem0, a))
  }

  ghost predicate AllWritable(mem: Mem, to: Word, n: nat) {
    forall a: Word :: Rel(a, to) < n ==> Writable(mem, a)
  }

  lemma {:induction false} FillStepsLeave<H(!new)>(env: Env<H>, h: H, mem0: Mem, mem: Mem, to: Word, v: Word, n: Word, i: nat)
    requires Quiet(env) && i <= n && Filled(mem0, mem, to, i, v % 0x100)
    ensures var (h', mem') := FillSteps(env, h, mem, to, v, n, i);
            Filled(mem0, mem', to, n, v % 0x100) && (AllWritable(mem0, to, n) ==> h' == h)
    decreases n - i
  {
    hide Rel, Wrap;
    if i < n {
      var a := At(to, i);
      var w := Rel(a, mem.wbase);
      var (h1, mem1) :=
        if w < |mem.ram| then (h, mem.(ram := mem.ram[w := v % 0x100])) else env.store(h, mem, a, v);
      OneFilled(mem0, mem, mem1, to, i, v % 0x100);
      AtRel(to, i);
      FillStepsLeave(env, h1, mem0, mem1, to, v, n, i + 1);
    }
  }

  lemma OneFilled(mem0: Mem, mem: Mem, mem1: Mem, to: Word, i: nat, b: Byte)
    requires i < 0xffff_ffff && Filled(mem0, mem, to, i, b)
    requires var a := At(to, i);
             mem1 == if Writable(mem, a) then mem.(ram := mem.ram[Rel(a, mem.wbase) := b]) else mem
    ensures Filled(mem0, mem1, to, i + 1, b)
  {
    hide Rel, At;
    AtRel(to, i);
    forall a: Word | Writable(mem0, a)
      ensures ByteAt(mem1, a) == if Rel(a, to) < i + 1 then b else ByteAt(mem0, a)
    {
      RelAt(to, a);
      if Writable(mem, At(to, i)) { WroteByte(mem, mem1, At(to, i), a, b); }
    }
  }

  lemma BlockFilled(mem: Mem, to: Word, n: Word, b: Byte)
    requires mem.Valid() && 0 < WritableFrom(mem, to) && n <= WritableFrom(mem, to)
    ensures var w := Rel(to, mem.wbase);
            Filled(mem, mem.(ram := mem.ram[..w] + seq(n, i => b) + mem.ram[w + n..]), to, n, b)
  {
    hide Rel, At;
    var w := Rel(to, mem.wbase);
    var mem' := mem.(ram := mem.ram[..w] + seq(n, i => b) + mem.ram[w + n..]);
    forall a: Word | Writable(mem, a)
      ensures ByteAt(mem', a) == if Rel(a, to) < n then b else ByteAt(mem, a)
    {
      if Rel(a, to) < n {
        RelAt(to, a);
        Offset(to, Rel(a, to), mem.wbase);
      } else {
        Elsewhere(mem, to, n, a);
      }
    }
  }

  /** memset, on either path and wrapping or not: the n addresses from `to` hold the value's low
      byte where they are writable, nothing else changes, and no callback is made when all are. */
  lemma MemsetLeaves<H(!new)>(env: Env<H>, m: Machine<H>, rd: Reg, rs1: Reg, rs2: Reg)
    requires Quiet(env) && m.mem.Valid()
    ensures var (m', charge) := Bulk(env, m, 1, rd, rs1, rs2);
            && Filled(m.mem, m'.mem, m.x[rd], m.x[rs2], m.x[rs1] % 0x100) && m'.x == m.x && charge == m.x[rs2] / 4
            && (AllWritable(m.mem, m.x[rd], m.x[rs2]) ==> m'.host == m.host)
  {
    hide Filled, Rel;
    var to, v, n := m.x[rd], m.x[rs1], m.x[rs2];
    if 0 < WritableFrom(m.mem, to) && n <= WritableFrom(m.mem, to) {
      BlockFilled(m.mem, to, n, v % 0x100);
    } else {
      FilledNone(m.mem, to, v % 0x100);
      FillStepsLeave(env, m.host, m.mem, m.mem, to, v, n, 0);
    }
  }

  lemma FilledNone(mem: Mem, to: Word, b: Byte)
    ensures Filled(mem, mem, to, 0, b)
  {
  }

  // ---- memcpy ----

  /** The copy of CopySimultaneous, with its operands where the instruction has them. */
  lemma MemcpyLeaves<H(!new)>(env: Env<H>, m: Machine<H>, rd: Reg, rs1: Reg, rs2: Reg)
    requires Quiet(env) && m.mem.Valid() && Disjoint(m.mem)
    requires var to, from, n := m.x[rd], m.x[rs1], m.x[rs2]; Blockwise(m.mem, to, from, n) || DirectionRight(to, from, n)
    ensures var (m', charge) := Bulk(env, m, 0, rd, rs1, rs2);
            Simultaneous(m.mem, m'.mem, m.x[rd], m.x[rs1], m.x[rs2]) && m'.x == m.x && charge == m.x[rs2] / 4
  {
    hide Simultaneous, Copy;
    CopySimultaneous(env, m.host, m.mem, m.x[rd], m.x[rs1], m.x[rs2]);
  }
}
