/** The bulk copy is a simultaneous copy, whatever the overlap, exactly when it goes block-wise or
    its ranges are not too far apart for their length. */
module BulkCopies {
  import opened Words
  import opened Machines
  import opened BulkOps

  /** The callbacks answer misses without touching guest memory. */
  ghost predicate Quiet<H(!new)>(env: Env<H>) {
    && (forall h, mem, a :: env.load(h, mem, a).1 == mem)
    && (forall h, mem, a, v :: env.store(h, mem, a, v).1 == mem)
  }

  predicate Mapped(mem: Mem, a: Word) {
    Rel(a, mem.wbase) < |mem.ram| || Rel(a, mem.rbase) < |mem.rom|
  }

  predicate Writable(mem: Mem, a: Word) {
    Rel(a, mem.wbase) < |mem.ram|
  }

  /** The two regions share no address. */
  ghost predicate Disjoint(mem: Mem) {
    forall a: Word :: Writable(mem, a) ==> Rel(a, mem.rbase) >= |mem.rom|
  }

  /** The byte a guest reads at a mapped address. */
  function ByteAt(mem: Mem, a: Word): Byte
    requires Mapped(mem, a)
  {
    if Rel(a, mem.wbase) < |mem.ram| then mem.ram[Rel(a, mem.wbase)] else mem.rom[Rel(a, mem.rbase)]
  }

  /** Reading elsewhere is unaffected by a byte written at `to`. */
  lemma WroteByte(mem: Mem, mem': Mem, to: Word, a: Word, b: Byte)
    requires Writable(mem, to) && mem' == mem.(ram := mem.ram[Rel(to, mem.wbase) := b])
    requires Mapped(mem, a)
    ensures Mapped(mem', a) && ByteAt(mem', a) == if a == to then b else ByteAt(mem, a)
  {
    SameRel(a, to, mem.wbase);
  }

  lemma SameRel(a: Word, b: Word, base: Word)
    ensures Rel(a, base) == Rel(b, base) <==> a == b
  {
    WrapNear(a - base);
    WrapNear(b - base);
  }

  /** One byte moved: the destination takes the source's byte, everything else keeps its own. */
  lemma MovedByte<H(!new)>(env: Env<H>, h: H, mem: Mem, to: Word, from: Word)
    requires Quiet(env)
    ensures var mem' := CopyByte(env, h, mem, to, from).1;
            mem.SameShape(mem') &&
            (Writable(mem, to) && Mapped(mem, from) ==> ByteAt(mem', to) == ByteAt(mem, from)) &&
            (forall a: Word :: a != to && Mapped(mem, a) ==> ByteAt(mem', a) == ByteAt(mem, a))
  {
    var mem' := CopyByte(env, h, mem, to, from).1;
    if Writable(mem, to) {
      var src := Tail(mem, from);
      var (h1, mem1, v) := if src != [] then (h, mem, src[0] as Word) else env.load(h, mem, from);
      assert mem1 == mem;
      assert mem' == mem.(ram := mem.ram[Rel(to, mem.wbase) := v % 0x100]);
      forall a: Word | Mapped(mem, a)
        ensures ByteAt(mem', a) == if a == to then v % 0x100 else ByteAt(mem, a)
      {
        WroteByte(mem, mem', to, a, v % 0x100);
      }
    }
  }

  // ---- what a simultaneous copy is ----

  /** The k-th address from a, modulo 2^32. */
  function At(a: Word, k: int): Word {
    Wrap(a + k)
  }

  lemma AtRel(a: Word, k: int)
    requires 0 <= k < 0x1_0000_0000
    ensures Rel(At(a, k), a) == k
  {
    WrapNear(a + k);
    WrapNear(At(a, k) - a);
  }

  lemma RelAt(a: Word, b: Word)
    ensures At(a, Rel(b, a)) == b
  {
    WrapNear(b - a);
    WrapNear(a + Rel(b, a));
  }

  /** Address a now holds what `source` held, if that was mapped. */
  predicate Copied(mem0: Mem, mem: Mem, a: Word, source: Word)
    requires Mapped(mem, a)
  {
    Mapped(mem0, source) ==> ByteAt(mem, a) == ByteAt(mem0, source)
  }

  /** Every writable destination byte ends as its source byte was, and no other byte changes.
      An address is the k-th of the destination for k = Rel(a, to). */
  ghost predicate Simultaneous(mem0: Mem, mem: Mem, to: Word, from: Word, n: Word) {
    && mem0.SameShape(mem)
    && (forall a: Word :: Rel(a, to) < n && Writable(mem0, a) ==> Copied(mem0, mem, a, At(from, Rel(a, to))))
    && (forall a: Word :: Rel(a, to) >= n && Mapped(mem0, a) ==> ByteAt(mem, a) == ByteAt(mem0, a))
  }

  /** Both ranges resolve: the copy is one block move. */
  predicate Blockwise(mem: Mem, to: Word, from: Word, n: Word) {
    0 < WritableFrom(mem, to) && Tail(mem, from) != [] && n <= WritableFrom(mem, to) && n <= |Tail(mem, from)|
  }

  function Distance(to: Word, from: Word): (d: nat)
    ensures d < 0x1_0000_0000
  {
    if to > from then to - from else from - to
  }

  /** The lengths for which the numeric choice of direction is right. */
  predicate DirectionRight(to: Word, from: Word, n: Word) {
    to == from || n + Distance(to, from) <= 0x1_0000_0000
  }

  // ---- the bytewise path, when the direction is right ----

  /** The indices already moved after i steps: the top i when copying upward, else the bottom i. */
  predicate Done(to: Word, from: Word, n: nat, i: nat, j: nat) {
    if to > from then n - i <= j < n else j < i
  }

  /** Done bytes hold what their sources held, the others are untouched. */
  ghost predicate Halfway(mem0: Mem, mem: Mem, to: Word, from: Word, n: Word, i: nat) {
    && mem0.SameShape(mem)
    && (forall a: Word :: Done(to, from, n, i, Rel(a, to)) && Writable(mem0, a) ==> Copied(mem0, mem, a, At(from, Rel(a, to))))
    && (forall a: Word :: !Done(to, from, n, i, Rel(a, to)) && Mapped(mem0, a) ==> ByteAt(mem, a) == ByteAt(mem0, a))
  }

  lemma {:induction false} StepsMove<H(!new)>(env: Env<H>, h: H, mem0: Mem, mem: Mem, to: Word, from: Word, n: Word, i: nat)
    requires Quiet(env) && i <= n && DirectionRight(to, from, n) && Halfway(mem0, mem, to, from, n, i)
    ensures Halfway(mem0, CopySteps(env, h, mem, to, from, n, i).1, to, from, n, n)
    decreases n - i
  {
    hide Quiet, CopyByte, Wrap, Halfway;
    if i < n {
      var j := CopyIndex(to, from, n, i);
      var (h1, mem1) := CopyByte(env, h, mem, At(to, j), At(from, j));
      MovedByte(env, h, mem, At(to, j), At(from, j));
      OneMore(mem0, mem, mem1, to, from, n, i, j);
      StepsMove(env, h1, mem0, mem1, to, from, n, i + 1);
    }
  }

  /** A source byte is still intact when it is read. */
  lemma SourceIntact(to: Word, from: Word, n: Word, i: nat, j: nat)
    requires i < n && j == CopyIndex(to, from, n, i) && DirectionRight(to, from, n)
    ensures !Done(to, from, n, i, Rel(At(from, j), to))
  {
    WrapNear(from + j);
    WrapNear(At(from, j) - to);
  }

  lemma OneMore(mem0: Mem, mem: Mem, mem1: Mem, to: Word, from: Word, n: Word, i: nat, j: nat)
    requires i < n && j == CopyIndex(to, from, n, i) && DirectionRight(to, from, n)
    requires Halfway(mem0, mem, to, from, n, i) && mem.SameShape(mem1)
    requires Writable(mem, At(to, j)) && Mapped(mem, At(from, j)) ==> ByteAt(mem1, At(to, j)) == ByteAt(mem, At(from, j))
    requires forall a: Word :: a != At(to, j) && Mapped(mem, a) ==> ByteAt(mem1, a) == ByteAt(mem, a)
    ensures Halfway(mem0, mem1, to, from, n, i + 1)
  {
    hide Rel, At;
    SourceIntact(to, from, n, i, j);
    AtRel(to, j);
    assert forall k: nat :: k != j ==> (Done(to, from, n, i + 1, k) <==> Done(to, from, n, i, k));
    forall a: Word | Done(to, from, n, i + 1, Rel(a, to)) && Writable(mem0, a)
      ensures Copied(mem0, mem1, a, At(from, Rel(a, to)))
    {
      RelAt(to, a);
    }
    forall a: Word | !Done(to, from, n, i + 1, Rel(a, to)) && Mapped(mem0, a)
      ensures ByteAt(mem1, a) == ByteAt(mem0, a)
    {
      RelAt(to, a);
      assert !Done(to, from, n, i, Rel(a, to));
    }
  }

  // ---- the block path, wrapping or not ----

  lemma Offset(a: Word, j: nat, base: Word)
    requires Rel(a, base) + j < 0x1_0000_0000
    ensures Rel(At(a, j), base) == Rel(a, base) + j
  {
    WrapNear(a - base);
    WrapNear(a + j);
    WrapNear(At(a, j) - base);
  }

  lemma BlockMove(mem: Mem, to: Word, from: Word, n: Word)
    requires mem.Valid() && Disjoint(mem) && Blockwise(mem, to, from, n)
    ensures var w, src := Rel(to, mem.wbase), Tail(mem, from);
            Simultaneous(mem, mem.(ram := mem.ram[..w] + src[..n] + mem.ram[w + n..]), to, from, n)
  {
    hide Rel, At;
    var w, src := Rel(to, mem.wbase), Tail(mem, from);
    var mem' := mem.(ram := mem.ram[..w] + src[..n] + mem.ram[w + n..]);
    forall a: Word | Rel(a, to) < n && Writable(mem, a)
      ensures Copied(mem, mem', a, At(from, Rel(a, to)))
    {
      RelAt(to, a);
      Offset(to, Rel(a, to), mem.wbase);
      SourceByte(mem, from, Rel(a, to), src);
    }
    forall a: Word | Rel(a, to) >= n && Mapped(mem, a)
      ensures ByteAt(mem', a) == ByteAt(mem, a)
    {
      Elsewhere(mem, to, n, a);
    }
  }

  lemma SourceByte(mem: Mem, from: Word, j: nat, src: seq<Byte>)
    requires mem.Valid() && Disjoint(mem) && src == Tail(mem, from) && j < |src|
    ensures Mapped(mem, At(from, j)) && ByteAt(mem, At(from, j)) == src[j]
  {
    hide Rel, At;
    if Rel(from, mem.wbase) < |mem.ram| {
      Offset(from, j, mem.wbase);
    } else {
      Offset(from, j, mem.rbase);
      assert !Writable(mem, At(from, j));
    }
  }

  lemma Elsewhere(mem: Mem, to: Word, n: nat, a: Word)
    requires Rel(to, mem.wbase) + n <= |mem.ram| < 0x1_0000_0000 && Rel(a, to) >= n
    ensures !(Rel(to, mem.wbase) <= Rel(a, mem.wbase) < Rel(to, mem.wbase) + n)
  {
    WrapNear(a - mem.wbase);
    WrapNear(to - mem.wbase);
    WrapNear(a - to);
  }

  // ---- the theorem ----

  /** memcpy is simultaneous, wrapping or not, whenever it goes block-wise or the direction is right. */
  lemma CopySimultaneous<H(!new)>(env: Env<H>, h: H, mem: Mem, to: Word, from: Word, n: Word)
    requires Quiet(env) && mem.Valid() && Disjoint(mem) && (Blockwise(mem, to, from, n) || DirectionRight(to, from, n))
    ensures Simultaneous(mem, Copy(env, h, mem, to, from, n).1, to, from, n)
  {
    if Blockwise(mem, to, from, n) {
      BlockMove(mem, to, from, n);
    } else {
      hide Rel, At;
      assert Halfway(mem, mem, to, from, n, 0);
      StepsMove(env, h, mem, mem, to, from, n, 0);
      assert Copy(env, h, mem, to, from, n) == CopySteps(env, h, mem, to, from, n, 0);
      forall a: Word
        ensures Done(to, from, n, n, Rel(a, to)) <==> Rel(a, to) < n
      {
      }
    }
  }

  // ---- and when the direction is wrong ----

  /** Addresses not among the destinations still to come keep their byte. */
  lemma {:induction false} StepsSpare<H(!new)>(env: Env<H>, h: H, mem: Mem, to: Word, from: Word, n: Word, i: nat, a: Word)
    requires Quiet(env) && i <= n && Mapped(mem, a) && (Rel(a, to) >= n || Done(to, from, n, i, Rel(a, to)))
    ensures mem.SameShape(CopySteps(env, h, mem, to, from, n, i).1)
    ensures ByteAt(CopySteps(env, h, mem, to, from, n, i).1, a) == ByteAt(mem, a)
    decreases n - i
  {
    hide Quiet, CopyByte, Wrap, ByteAt;
    if i < n {
      var j := CopyIndex(to, from, n, i);
      var (h1, mem1) := CopyByte(env, h, mem, At(to, j), At(from, j));
      MovedByte(env, h, mem, At(to, j), At(from, j));
      AtRel(to, j);
      StepsSpare(env, h1, mem1, to, from, n, i + 1, a);
    }
  }

  /** A byte already written is what step `late` reads, so that step spreads it. */
  lemma {:induction false} LateRead<H(!new)>(env: Env<H>, h: H, mem: Mem, to: Word, from: Word, n: Word, i: nat, late: nat)
    requires Quiet(env) && i <= late < n
    requires var j := CopyIndex(to, from, n, late); var t := At(from, j);
             Mapped(mem, t) && Writable(mem, At(to, j)) && Done(to, from, n, i, Rel(t, to))
    ensures var j := CopyIndex(to, from, n, late); var mem' := CopySteps(env, h, mem, to, from, n, i).1;
            mem.SameShape(mem') && ByteAt(mem', At(to, j)) == ByteAt(mem, At(from, j))
    decreases n - i
  {
    hide Quiet, CopyByte, Wrap, ByteAt, Rel;
    var j := CopyIndex(to, from, n, i);
    var (h1, mem1) := CopyByte(env, h, mem, At(to, j), At(from, j));
    MovedByte(env, h, mem, At(to, j), At(from, j));
    AtRel(to, j);
    assert CopySteps(env, h, mem, to, from, n, i) == CopySteps(env, h1, mem1, to, from, n, i + 1);
    if i < late {
      LateRead(env, h1, mem1, to, from, n, i + 1, late);
    } else {
      StepsSpare(env, h1, mem1, to, from, n, i + 1, At(to, j));
    }
  }

  /** The first address written, its source, and the destination whose source it is. */
  function First(to: Word, from: Word, n: Word): Word
    requires n > 0
  {
    if to > from then At(to, n - 1) else to
  }

  function FirstSource(to: Word, from: Word, n: Word): Word
    requires n > 0
  {
    if to > from then At(from, n - 1) else from
  }

  function Spread(to: Word, from: Word, n: Word): Word
    requires n > 0
  {
    At(First(to, from, n), if to > from then Distance(to, from) as int else -(Distance(to, from) as int))
  }

  /** The step that reads the first byte written, and what it does with it. */
  lemma LateStep(to: Word, from: Word, n: Word)
    requires !DirectionRight(to, from, n)
    ensures var late := 0x1_0000_0000 - Distance(to, from);
            0 < late < n &&
            var j := CopyIndex(to, from, n, late);
            At(from, j) == First(to, from, n) && At(to, j) == Spread(to, from, n) &&
            Rel(Spread(to, from, n), to) == j && At(from, Rel(Spread(to, from, n), to)) == First(to, from, n)
  {
    hide Wrap;
    var late := 0x1_0000_0000 - Distance(to, from);
    var j := CopyIndex(to, from, n, late);
    WrapNear(from + j);
    WrapNear(to + j);
    WrapNear(to + n - 1);
    WrapNear(First(to, from, n) + Distance(to, from));
    WrapNear(First(to, from, n) - Distance(to, from));
    AtRel(to, j);
  }

  /** On any layout: a bytewise copy in the wrong direction smears as soon as the three addresses
      are there and the two bytes differ. */
  lemma Smears<H(!new)>(env: Env<H>, h: H, mem: Mem, to: Word, from: Word, n: Word)
    requires Quiet(env) && mem.Valid() && !DirectionRight(to, from, n) && !Blockwise(mem, to, from, n)
    requires Writable(mem, First(to, from, n)) && Writable(mem, Spread(to, from, n)) && Mapped(mem, FirstSource(to, from, n))
    requires ByteAt(mem, First(to, from, n)) != ByteAt(mem, FirstSource(to, from, n))
    ensures var mem' := Copy(env, h, mem, to, from, n).1;
            mem.SameShape(mem') && ByteAt(mem', Spread(to, from, n)) == ByteAt(mem, FirstSource(to, from, n))
    ensures !Simultaneous(mem, Copy(env, h, mem, to, from, n).1, to, from, n)
  {
    hide Quiet, CopyByte, Wrap, ByteAt, Rel, Spread;
    var late := 0x1_0000_0000 - Distance(to, from);
    LateStep(to, from, n);
    var j := CopyIndex(to, from, n, 0);
    FirstStep(to, from, n);
    var (h1, mem1) := CopyByte(env, h, mem, At(to, j), At(from, j));
    MovedByte(env, h, mem, At(to, j), At(from, j));
    AtRel(to, j);
    assert CopySteps(env, h, mem, to, from, n, 0) == CopySteps(env, h1, mem1, to, from, n, 1);
    LateRead(env, h1, mem1, to, from, n, 1, late);
    assert Copy(env, h, mem, to, from, n) == CopySteps(env, h, mem, to, from, n, 0);
  }

  lemma FirstStep(to: Word, from: Word, n: Word)
    requires n > 0
    ensures var j := CopyIndex(to, from, n, 0); At(to, j) == First(to, from, n) && At(from, j) == FirstSource(to, from, n)
  {
    WrapNear(to);
    WrapNear(from);
  }

  /** The exact condition: a bytewise copy of these ranges is simultaneous on every memory if
      and only if the direction is right for them. */
  lemma BytewiseIff<H(!new)>(env: Env<H>, h: H, to: Word, from: Word, n: Word)
    requires Quiet(env)
    ensures (forall mem: Mem :: mem.Valid() && Disjoint(mem) && !Blockwise(mem, to, from, n) ==>
              Simultaneous(mem, Copy(env, h, mem, to, from, n).1, to, from, n))
            <==> DirectionRight(to, from, n)
  {
    hide Quiet, Simultaneous, Copy, Blockwise, Disjoint;
    if DirectionRight(to, from, n) {
      forall mem: Mem | mem.Valid() && Disjoint(mem) && !Blockwise(mem, to, from, n)
        ensures Simultaneous(mem, Copy(env, h, mem, to, from, n).1, to, from, n)
      {
        CopySimultaneous(env, h, mem, to, from, n);
      }
    } else {
      var mem := SmearMemory(to, from, n);
      Smears(env, h, mem, to, from, n);
    }
  }

  /** A memory on which they smear. */
  lemma SmearMemory(to: Word, from: Word, n: Word) returns (mem: Mem)
    requires !DirectionRight(to, from, n)
    ensures mem.Valid() && Disjoint(mem) && !Blockwise(mem, to, from, n)
    ensures Writable(mem, First(to, from, n)) && Writable(mem, Spread(to, from, n)) && Mapped(mem, FirstSource(to, from, n))
    ensures ByteAt(mem, First(to, from, n)) != ByteAt(mem, FirstSource(to, from, n))
  {
    if Distance(to, from) < 0x8000_0000 {
      mem := NearMemory(to, from, n);
    } else {
      mem := FarMemory(to, from, n);
    }
  }

  /** Ranges less than half the address space apart: one region around the three addresses. */
  lemma NearMemory(to: Word, from: Word, n: Word) returns (mem: Mem)
    requires !DirectionRight(to, from, n) && Distance(to, from) < 0x8000_0000
    ensures mem.Valid() && Disjoint(mem) && !Blockwise(mem, to, from, n)
    ensures Writable(mem, First(to, from, n)) && Writable(mem, Spread(to, from, n)) && Mapped(mem, FirstSource(to, from, n))
    ensures ByteAt(mem, First(to, from, n)) != ByteAt(mem, FirstSource(to, from, n))
  {
    hide Wrap, Rel, At, First, FirstSource, Spread;
    var d := Distance(to, from);
    var base := to;
    if to > from {
      base := FirstSource(to, from, n);
      NearDown(to, from, n);
    } else {
      base := Spread(to, from, n);
      NearUp(to, from, n);
    }
    mem := Mem(base, seq(2 * d + 1, i => if i == d then 1 else 0), 0, []);
  }

  /** Where the three addresses are in the region of NearMemory, which the destination overruns. */
  ghost predicate NearPlaced(to: Word, from: Word, n: Word, base: Word)
    requires n > 0
  {
    var d := Distance(to, from);
    d > 0 && Rel(First(to, from, n), base) == d && Rel(to, base) + n > 2 * d + 1 &&
    {Rel(FirstSource(to, from, n), base) as int, Rel(Spread(to, from, n), base) as int} == {0, 2 * d}
  }

  lemma NearUp(to: Word, from: Word, n: Word)
    requires !DirectionRight(to, from, n) && Distance(to, from) < 0x8000_0000 && to < from
    ensures NearPlaced(to, from, n, Spread(to, from, n))
  {
    var g := Spread(to, from, n);
    WrapNear(to - Distance(to, from));
    WrapNear(to as int - g);
    WrapNear(from as int - g);
  }

  lemma NearDown(to: Word, from: Word, n: Word)
    requires !DirectionRight(to, from, n) && Distance(to, from) < 0x8000_0000 && to > from
    ensures NearPlaced(to, from, n, FirstSource(to, from, n))
  {
    var t, f, g := First(to, from, n), FirstSource(to, from, n), Spread(to, from, n);
    WrapNear(to + n - 1);
    WrapNear(from + n - 1);
    WrapNear(t + Distance(to, from));
    WrapNear(t as int - f);
    WrapNear(g as int - f);
    WrapNear(to as int - f);
  }

  /** Ranges at least half the address space apart: a region from one destination to the other,
      and, unless it is in there, the source byte read-only. */
  lemma FarMemory(to: Word, from: Word, n: Word) returns (mem: Mem)
    requires !DirectionRight(to, from, n) && Distance(to, from) >= 0x8000_0000
    ensures mem.Valid() && Disjoint(mem) && !Blockwise(mem, to, from, n)
    ensures Writable(mem, First(to, from, n)) && Writable(mem, Spread(to, from, n)) && Mapped(mem, FirstSource(to, from, n))
    ensures ByteAt(mem, First(to, from, n)) != ByteAt(mem, FirstSource(to, from, n))
  {
    hide Wrap, Rel, At, First, FirstSource, Spread;
    var c := 0x1_0000_0000 - Distance(to, from);
    var f := FirstSource(to, from, n);
    var base, rel := to, 0;
    if to > from {
      base, rel := Spread(to, from, n), c;
      FarDown(to, from, n);
    } else {
      FarUp(to, from, n);
    }
    mem := Mem(base, seq(c + 1, i => if i == rel then 1 else 0), f, if c == 0x8000_0000 then [] else [0]);
    forall a: Word | Writable(mem, a)
      ensures Rel(a, f) >= |mem.rom|
    {
      if Rel(a, f) == 0 { SameRel(a, f, f); RelSelf(f); }
    }
    RelSelf(f);
  }

  lemma RelSelf(a: Word)
    ensures Rel(a, a) == 0
  {
  }

  /** Where the three addresses are in the region of FarMemory, the first one at `rel`. */
  ghost predicate FarPlaced(to: Word, from: Word, n: Word, base: Word, rel: nat)
    requires n > 0
  {
    var c, f := 0x1_0000_0000 - Distance(to, from), FirstSource(to, from, n);
    1 <= c < n && (rel == 0 || rel == c) && Rel(First(to, from, n), base) == rel && Rel(Spread(to, from, n), base) == c - rel &&
    (if c == 0x8000_0000 then Rel(f, base) == c - rel else Rel(f, base) > c) &&
    (Rel(to, base) > c || Rel(from, base) == c || (from == f && rel == 0))
  }

  lemma FarUp(to: Word, from: Word, n: Word)
    requires !DirectionRight(to, from, n) && Distance(to, from) >= 0x8000_0000 && to < from
    ensures FarPlaced(to, from, n, to, 0)
  {
    WrapNear(to - Distance(to, from));
    WrapNear(Spread(to, from, n) - to);
    WrapNear(from - to);
  }

  lemma FarDown(to: Word, from: Word, n: Word)
    requires !DirectionRight(to, from, n) && Distance(to, from) >= 0x8000_0000 && to > from
    ensures FarPlaced(to, from, n, Spread(to, from, n), 0x1_0000_0000 - Distance(to, from))
  {
    hide Wrap;
    var t: int, g: int, f: int := First(to, from, n), Spread(to, from, n), FirstSource(to, from, n);
    WrapNear(to + n - 1);
    WrapNear(from + n - 1);
    assert t == to + n - 1 - 0x1_0000_0000;
    WrapNear(t + Distance(to, from));
    WrapNear(0);
    WrapNear(t - g);
    WrapNear(f - g);
    WrapNear(to - g);
    WrapNear(from - g);
  }

  /** On the layout of the embedding, whose region surrounds the stack and heap boundary, a copy
      that long between two heap addresses smears below it. */
  lemma BoundarySmears<H(!new)>(env: Env<H>, h: H, n: Word)
    requires Quiet(env) && n >= 0xffff_ff9d
    ensures var base: Word, to: Word, from: Word := 0x7fff_ff80, 0x8000_0000, 0x8000_0064;
            var mem := Mem(base, seq(0x100, i => if i == 0x80 then 1 else 0), 0, []);
            !Simultaneous(mem, Copy(env, h, mem, to, from, n).1, to, from, n)
  {
    hide Copy, Simultaneous;
    var base: Word, to: Word, from: Word := 0x7fff_ff80, 0x8000_0000, 0x8000_0064;
    var mem := Mem(base, seq(0x100, i => if i == 0x80 then 1 else 0), 0, []);
    assert Rel(to, base) == 0x80 && Rel(from, base) == 0xe4 && Spread(to, from, n) == 0x7fff_ff9c;
    Smears(env, h, mem, to, from, n);
  }
}
