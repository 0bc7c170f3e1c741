/** The guest allocator: K&R first fit over guest bytes, headers in guest memory. */
module GuestHeap {
  import opened Words
  import opened HeapShape
  import opened HeapBytes
  import opened HeapUpdates

  // ---- frames ----

  lemma UntouchedTrans(h0: Arena, h1: Arena, h2: Arena, a: set<nat>, b: set<nat>, c: set<nat>)
    requires Untouched(h0, h1, a) && Untouched(h1, h2, b) && a <= c && b <= c
    ensures Untouched(h0, h2, c)
  {
    forall k | 0 <= k < |h0.bytes| && forall x :: x in c ==> !(x <= h0.base + k < x + 8)
      ensures h2.bytes[k] == h0.bytes[k]
    {
      assert forall x :: x in a ==> !(x <= h0.base + k < x + 8);
      assert forall x :: x in b ==> !(x <= h0.base + k < x + 8);
    }
  }

  /** The guest addresses from..to hold what they held. */
  predicate SameBytes(h: Arena, h': Arena, from: int, to: int) {
    h'.base == h.base && |h'.bytes| == |h.bytes| &&
    forall j :: 0 <= j < |h.bytes| && from <= h.base + j < to ==> h'.bytes[j] == h.bytes[j]
  }

  /** Every live block but those named is still live, its payload untouched. */
  predicate LiveKept(h: Arena, bs: seq<Block>, h': Arena, bs': seq<Block>, but: set<nat>) {
    forall k :: 0 <= k < |bs| && !bs[k].free && bs[k].addr !in but ==>
      bs[k] in bs' && SameBytes(h, h', bs[k].addr + 8, bs[k].addr + 8 * bs[k].size)
  }

  /** Outside the arena nothing changes. */
  predicate OutsideKept(h: Arena, h': Arena, brk: nat) {
    SameBytes(h, h', 0, h.basep) && SameBytes(h, h', brk, h.base + |h.bytes|)
  }

  lemma SameBytesTrans(h0: Arena, h1: Arena, h2: Arena, from: int, to: int)
    requires SameBytes(h0, h1, from, to) && SameBytes(h1, h2, from, to)
    ensures SameBytes(h0, h2, from, to)
  {
  }

  lemma LiveKeptTrans(h0: Arena, b0: seq<Block>, h1: Arena, b1: seq<Block>, h2: Arena, b2: seq<Block>, but: set<nat>)
    requires LiveKept(h0, b0, h1, b1, but) && LiveKept(h1, b1, h2, b2, but)
    ensures LiveKept(h0, b0, h2, b2, but)
  {
    forall k | 0 <= k < |b0| && !b0[k].free && b0[k].addr !in but
      ensures b0[k] in b2 && SameBytes(h0, h2, b0[k].addr + 8, b0[k].addr + 8 * b0[k].size)
    {
      var j :| 0 <= j < |b1| && b1[j] == b0[k];
      SameBytesTrans(h0, h1, h2, b0[k].addr + 8, b0[k].addr + 8 * b0[k].size);
    }
  }

  /** Writes inside the extents of given blocks' headers or free space leave a live payload alone. */
  lemma PayloadApart(h: Arena, h': Arena, cells: set<nat>, bs: seq<Block>, lo: nat, hi: nat, k: nat)
    requires Untouched(h, h', cells) && Tiles(bs, lo, hi) && k < |bs| && bs[k].size >= 1
    requires forall c :: c in cells ==>
               c == bs[k].addr || exists j :: 0 <= j < |bs| && j != k && bs[j].addr <= c && c + 8 <= bs[j].addr + Extent(bs[j])
    ensures SameBytes(h, h', bs[k].addr + 8, bs[k].addr + 8 * bs[k].size)
  {
    var from, to := bs[k].addr + 8, bs[k].addr + 8 * bs[k].size;
    forall c | c in cells
      ensures c + 8 <= from || to <= c
    {
      if c != bs[k].addr {
        var j :| 0 <= j < |bs| && j != k && bs[j].addr <= c && c + 8 <= bs[j].addr + Extent(bs[j]);
        if j < k {
          BlocksApart(bs, lo, hi, j, k);
        } else {
          BlocksApart(bs, lo, hi, k, j);
        }
      }
    }
    forall j | 0 <= j < |h.bytes| && from <= h.base + j < to
      ensures h'.bytes[j] == h.bytes[j]
    {
      assert forall c :: c in cells ==> !(c <= h.base + j < c + 8);
    }
  }

  // ---- the search ----

  /** The test that ends the circular search in `free`. */
  predicate Stops(bp: nat, p: nat, nx: nat) {
    (bp > p && bp < nx) || (p >= nx && (bp > p || bp < nx))
  }

  /** The address after position t on the ring. */
  function After(ns: seq<nat>, t: nat): nat
    requires t < |ns|
  {
    if t + 1 < |ns| then ns[t + 1] else ns[0]
  }

  lemma Rising(bs: seq<Block>, lo: nat, hi: nat)
    requires Tiles(bs, lo, hi)
    ensures forall a, b :: 0 <= a < b < |FreeAddrs(bs)| ==> FreeAddrs(bs)[a] < FreeAddrs(bs)[b]
  {
    forall a, b | 0 <= a < b < |FreeAddrs(bs)|
      ensures FreeAddrs(bs)[a] < FreeAddrs(bs)[b]
    {
      FreeRising(bs, lo, hi, a, b);
    }
  }

  /** A block meets the next free one exactly when it joins it. */
  lemma MeetsRight(l: seq<Block>, b: Block, r: seq<Block>, basep: nat, brk: nat)
    requires Shape(l + [b] + r, basep, brk) && l != []
    ensures b.addr + 8 * b.size == First(FreeAddrs(r), basep) <==> JoinsRight(r)
  {
    var bs := l + [b] + r;
    assert bs[|l|] == b && bs[0] == l[0];
    BlocksApart(bs, basep, brk, 0, |l|);
    TilesAround(l, [b], r, basep, brk);
    Tiles1(b, EndOf(l, basep), EndOf([b], EndOf(l, basep)));
    var e := b.addr + 8 * b.size;
    assert Tiles(r, e, brk);
    if JoinsRight(r) {
      FreeRest(r);
    } else if FreeAddrs(r) != [] {
      assert FreeAddrs(r) == FreeAddrs(r[1..]);
      FreeInside(r[1..], e + Extent(r[0]), brk, 0);
    }
  }

  lemma EndsAt(l: seq<Block>, b: Block, r: seq<Block>, lo: nat, hi: nat, i: nat)
    requires Tiles(l + [b] + r, lo, hi) && i < |l|
    ensures if i == |l| - 1 then l[i].addr + Extent(l[i]) == b.addr else l[i].addr + Extent(l[i]) + 8 <= b.addr
    ensures i < |l| - 1 ==> l[i].addr < l[|l| - 1].addr
  {
    var bs := l + [b] + r;
    assert bs[|l|] == b && bs[i] == l[i];
    if i == |l| - 1 {
      Neighbours(bs, lo, hi, i);
    } else {
      assert bs[i + 1] == l[i + 1] && bs[|l| - 1] == l[|l| - 1];
      BlocksApart(bs, lo, hi, i, i + 1);
      BlocksApart(bs, lo, hi, i + 1, |l|);
      BlocksApart(bs, lo, hi, i, |l| - 1);
    }
  }

  lemma {:induction false} Neighbours(bs: seq<Block>, lo: nat, hi: nat, k: nat)
    requires Tiles(bs, lo, hi) && k + 1 < |bs|
    ensures bs[k].addr + Extent(bs[k]) == bs[k + 1].addr
    decreases k
  {
    if k > 0 {
      Neighbours(bs[1..], lo + Extent(bs[0]), hi, k - 1);
    }
  }

  /** A free block below meets bp exactly when it is bp's left neighbour, the anchor apart. */
  lemma MeetsLeft(l: seq<Block>, b: Block, r: seq<Block>, basep: nat, brk: nat, i: nat)
    requires Shape(l + [b] + r, basep, brk) && l != [] && FreeAddrs(l) != []
    requires i < |l| && l[i].free && l[i].addr == FreeAddrs(l)[|FreeAddrs(l)| - 1]
    ensures l[i].addr + 8 * l[i].size == b.addr <==> JoinsLeft(l)
    ensures JoinsLeft(l) ==> i == |l| - 1
  {
    hide Tiles, FreeAddrs, Coalesced;
    var bs := l + [b] + r;
    assert bs[i] == l[i] && bs[0] == l[0];
    EndsAt(l, b, r, basep, brk, i);
    FreeLast(l);
  }

  // ---- what freeing keeps ----

  lemma ReleasedMembers(l: seq<Block>, b: Block, r: seq<Block>)
    ensures forall x :: x in l + [b] + r && !x.free && x != b ==> x in Released(l, b, r)
  {
    var rs, rest := Released(l, b, r), AfterRight(r);
    forall x | x in l + [b] + r && !x.free && x != b
      ensures x in rs
    {
      if x in l {
        var k :| 0 <= k < |l| && l[k] == x;
        if JoinsLeft(l) {
          assert k < |l| - 1 && rs[k] == l[k];
        } else {
          assert rs[k] == l[k];
        }
      } else {
        var k :| 0 <= k < |r| && r[k] == x;
        assert rest[k - (|r| - |rest|)] == x;
        assert rs[|rs| - |r| + k] == x;
      }
    }
  }

  /** Freeing touches no other live block. */
  lemma ReleasedKeepsLive(h: Arena, h': Arena, l: seq<Block>, b: Block, r: seq<Block>, brk: nat, i: nat)
    requires Shape(l + [b] + r, h.basep, brk) && !b.free && i < |l| && l[i].free && Untouched(h, h', {l[i].addr, b.addr})
    ensures LiveKept(h, l + [b] + r, h', Released(l, b, r), {b.addr})
  {
    hide Coalesced, Released;
    var bs := l + [b] + r;
    assert bs[|l|] == b && bs[i] == l[i];
    ReleasedMembers(l, b, r);
    forall k | 0 <= k < |bs| && !bs[k].free && bs[k].addr != b.addr
      ensures bs[k] in Released(l, b, r) && SameBytes(h, h', bs[k].addr + 8, bs[k].addr + 8 * bs[k].size)
    {
      assert k != 0 && k != i && k != |l|;
      PayloadApart(h, h', {l[i].addr, b.addr}, bs, h.basep, brk, k);
    }
  }

  /** Header writes inside the arena change nothing outside it. */
  lemma ArenaOnly(h: Arena, h': Arena, cells: set<nat>, brk: nat)
    requires Untouched(h, h', cells) && forall c :: c in cells ==> h.basep <= c && c + 8 <= brk
    ensures OutsideKept(h, h', brk)
  {
    forall j | 0 <= j < |h.bytes| && (h.base + j < h.basep || brk <= h.base + j)
      ensures h'.bytes[j] == h.bytes[j]
    {
      assert forall c :: c in cells ==> !(c <= h.base + j < c + 8);
    }
  }

  // ---- the allocator ----

  class Allocator {
    const base: nat
    const basep: nat
    const top: nat
    const mem: array<Byte>
    var freep: nat
    var brk: nat
    ghost var blocks: seq<Block>

    ghost function Heap(): Arena
      reads mem
    {
      Arena(base, basep, mem[..])
    }

    /** The heap's shape: one circular address-ordered list through the free blocks, fully
        coalesced, blocks end to end from the anchor to brk, inside guest memory. */
    ghost predicate Valid()
      reads this, mem
    {
      && 0 < basep && base <= basep && basep + 8 <= brk <= top <= base + mem.Length && top < 0x1_0000_0000
      && Shape(blocks, basep, brk) && Holds(Heap(), blocks) && freep in FreeAddrs(blocks)
    }

    /** An empty arena: the anchor alone, linked to itself. */
    constructor (base: nat, basep: nat, top: nat, mem: array<Byte>)
      requires 0 < basep && base <= basep && basep + 8 <= top <= base + mem.Length && top < 0x1_0000_0000
      modifies mem
      ensures Valid() && this.mem == mem && this.base == base && this.basep == basep && this.top == top
      ensures blocks == [Block(basep, 0, true)] && brk == basep + 8
    {
      this.base, this.basep, this.top, this.mem := base, basep, top, mem;
      freep, brk := basep, basep + 8;
      blocks := [Block(basep, 0, true)];
      new;
      SetNext(basep, basep);
      SetSize(basep, 0);
      ChainOne(Heap(), basep, basep);
      FreeOne(Block(basep, 0, true));
      SizesOne(Heap(), Block(basep, 0, true));
      Tiles1(Block(basep, 0, true), basep, basep + 8);
    }

    /** Nothing is lost: anchor, free and live units make up the arena. */
    lemma Conserved()
      requires Valid()
      ensures brk - basep == 8 * (1 + Units(blocks, true) + Units(blocks, false))
    {
      Conservation(blocks, basep, brk);
    }

    method Next(a: nat) returns (v: Word)
      requires Heap().Cell(a)
      ensures v == Heap().Next(a)
    {
      var k := a - base;
      v := mem[k] as int + 0x100 * mem[k + 1] as int + 0x1_0000 * mem[k + 2] as int + 0x100_0000 * mem[k + 3] as int;
    }

    method Size(a: nat) returns (v: Word)
      requires Heap().Cell(a)
      ensures v == Heap().Size(a)
    {
      var k := a - base + 4;
      v := mem[k] as int + 0x100 * mem[k + 1] as int + 0x1_0000 * mem[k + 2] as int + 0x100_0000 * mem[k + 3] as int;
    }

    method SetNext(a: nat, v: Word)
      requires Heap().Cell(a)
      modifies mem
      ensures Untouched(old(Heap()), Heap(), {a}) && Heap().Cell(a)
      ensures Heap().Next(a) == v && Heap().Size(a) == old(Heap().Size(a))
    {
      var k := a - base;
      mem[k], mem[k + 1], mem[k + 2], mem[k + 3] := ByteOf(v, 0), ByteOf(v, 1), ByteOf(v, 2), ByteOf(v, 3);
      BytesMakeWord(v);
    }

    method SetSize(a: nat, v: Word)
      requires Heap().Cell(a)
      modifies mem
      ensures Untouched(old(Heap()), Heap(), {a}) && Heap().Cell(a)
      ensures Heap().Size(a) == v && Heap().Next(a) == old(Heap().Next(a))
    {
      var k := a - base + 4;
      mem[k], mem[k + 1], mem[k + 2], mem[k + 3] := ByteOf(v, 0), ByteOf(v, 1), ByteOf(v, 2), ByteOf(v, 3);
      BytesMakeWord(v);
    }

    /** The circular search: from freep to the free block just below bp, within one lap. */
    method FindBelow(bp: nat, ghost j: nat) returns (p: nat)
      requires Valid()
      requires var ns := FreeAddrs(blocks); j < |ns| && ns[j] < bp && (j + 1 < |ns| ==> bp < ns[j + 1])
      ensures p == FreeAddrs(blocks)[j]
    {
      hide Shape, Coalesced, Tiles, FreeAddrs, Sizes;
      ghost var ns := FreeAddrs(blocks);
      RingFacts();
      p := freep;
      ghost var t :| 0 <= t < |ns| && ns[t] == p;
      while true
        invariant 0 <= t < |ns| && ns[t] == p
        decreases if t <= j then j - t else |ns| - t + j
      {
        ChainAt(Heap(), ns, basep, t);
        assert Stops(bp, ns[t], After(ns, t)) <==> t == j;
        var nx := Next(p);
        if bp > p && bp < nx { break; }
        if p >= nx && (bp > p || bp < nx) { break; }
        p := nx;
        t := if t + 1 < |ns| then t + 1 else 0;
      }
    }

    lemma RingFacts()
      requires Valid()
      ensures var ns := FreeAddrs(blocks);
              ns != [] && ns[0] == basep && Chain(Heap(), ns, basep) && forall a, b :: 0 <= a < b < |ns| ==> ns[a] < ns[b]
    {
      Rising(blocks, basep, brk);
    }

    /** Absorbs the next free block when it starts where bp ends; links bp onward either way. */
    method LinkRight(bp: nat, nx: Word)
      requires Heap().Cell(bp) && bp != nx
      requires bp + 8 * Heap().Size(bp) == nx ==> Heap().Cell(nx) && Heap().Size(bp) + Heap().Size(nx) < 0x1_0000_0000
      modifies mem
      ensures Untouched(old(Heap()), Heap(), {bp}) && Heap().Cell(bp)
      ensures if bp + 8 * old(Heap().Size(bp)) == nx then
                Heap().Size(bp) == old(Heap().Size(bp)) + old(Heap().Size(nx)) && Heap().Next(bp) == old(Heap().Next(nx))
              else Heap().Size(bp) == old(Heap().Size(bp)) && Heap().Next(bp) == nx
    {
      hide ReadLE;
      ghost var h0 := Heap();
      var size := Size(bp);
      if bp + 8 * size as int == nx {
        var more := Size(nx);
        SetSize(bp, size + more);
        CellKept(h0, Heap(), {bp}, nx);
        ghost var h1 := Heap();
        var onward := Next(nx);
        SetNext(bp, onward);
        UntouchedTrans(h0, h1, Heap(), {bp}, {bp}, {bp});
      } else {
        SetNext(bp, nx);
      }
    }

    /** Folds bp into p when p ends where bp starts; links p to bp otherwise. */
    method LinkLeft(p: nat, bp: Word)
      requires Heap().Cell(p) && Heap().Cell(bp) && bp != p
      requires p + 8 * Heap().Size(p) == bp ==> Heap().Size(p) + Heap().Size(bp) < 0x1_0000_0000
      modifies mem
      ensures Untouched(old(Heap()), Heap(), {p}) && Heap().Cell(p)
      ensures if p + 8 * old(Heap().Size(p)) == bp then
                Heap().Size(p) == old(Heap().Size(p)) + old(Heap().Size(bp)) && Heap().Next(p) == old(Heap().Next(bp))
              else Heap().Size(p) == old(Heap().Size(p)) && Heap().Next(p) == bp
    {
      hide ReadLE;
      ghost var h0 := Heap();
      var size := Size(p);
      if p + 8 * size as int == bp {
        var more := Size(bp);
        SetSize(p, size + more);
        CellKept(h0, Heap(), {p}, bp);
        ghost var h1 := Heap();
        var onward := Next(bp);
        SetNext(p, onward);
        UntouchedTrans(h0, h1, Heap(), {p}, {p}, {p});
      } else {
        SetNext(p, bp);
      }
    }

    /** Gives back a live block: the heap keeps its shape, the block and any free neighbour it
        touches become one, and no other live block's payload changes. */
    method Free(ap: nat, ghost i: nat)
      requires Valid() && 0 < i < |blocks| && !blocks[i].free && ap == blocks[i].addr + 8
      modifies this`freep, this`blocks, mem
      ensures Valid()
      ensures blocks == Released(old(blocks)[..i], old(blocks)[i], old(blocks)[i + 1..])
      ensures LiveKept(old(Heap()), old(blocks), Heap(), blocks, {ap - 8})
      ensures OutsideKept(old(Heap()), Heap(), brk) && FreeBelow(old(blocks)[..i], freep)
    {
      hide Shape, Coalesced, Tiles, FreeAddrs, Sizes, Chain, Untouched, ReadLE, LiveKept, Released, SameBytes, Released;
      var bp := ap - 8;
      ghost var l, b, r := blocks[..i], blocks[i], blocks[i + 1..];
      ghost var h0 := Heap();
      assert blocks == l + [b] + r;
      ghost var k := FreeFacts(h0, l, b, r, brk);
      var p := FindBelow(bp, |FreeAddrs(l)| - 1);
      var nx := Next(p);
      LinkRight(bp, nx);
      ghost var h1 := Heap();
      CellKept(h0, h1, {bp}, p);
      LinkLeft(p, bp);
      FreeWritten(h0, h1, Heap(), l, b, r, brk, p, nx);
      ReleasedHolds(h0, Heap(), l, b, r, brk, p);
      ReleasedShape(l, b, r, basep, brk);
      ReleasedKeepsLive(h0, Heap(), l, b, r, brk, k);
      ReleasedFree(l, b, r);
      CellsInArena(h0, Heap(), l, b, r, brk, p);
      freep := p;
      blocks := Released(l, b, r);
      assert p in FreeAddrs(l);
    }

    /** Grows the arena by at least 4096 units and frees the new block into the list; 0 and no
        change when that would pass `top`. */
    method Grow(units: nat) returns (p: nat)
      requires Valid() && 1 <= units && 8 * units < 0x1_0000_0000
      modifies this`freep, this`brk, this`blocks, mem
      ensures Valid()
      ensures p == 0 <==> old(brk) + 32768 > top || old(brk) + 8 * units > top
      ensures p != 0 ==> brk - old(brk) >= 32768 && brk - old(brk) >= 8 * units && (brk - old(brk) > 32768 ==> brk - old(brk) == 8 * units)
      ensures p == 0 ==> brk == old(brk) && blocks == old(blocks) && freep == old(freep) && Heap() == old(Heap())
      ensures p != 0 ==> p == freep && (brk - old(brk)) % 8 == 0 &&
                         blocks == Released(old(blocks), Block(old(brk), (brk - old(brk)) / 8, false), [])
      ensures LiveKept(old(Heap()), old(blocks), Heap(), blocks, {}) && OutsideKept(old(Heap()), Heap(), brk)
    {
      hide Coalesced, Tiles, FreeAddrs, Sizes, Chain, ReadLE, LiveKept, Released;
      ghost var h0 := Heap();
      LiveKeptSame(h0, blocks, {});
      var n := if units < 4096 then 4096 else units;
      if brk + 8 * n > top { return 0; }
      var up := brk;
      ArenaEnd(blocks, basep, brk);
      ghost var was := blocks;
      brk := brk + 8 * n;
      SetSize(up, n);
      GrownShape(was, basep, up, n);
      GrownHolds(h0, Heap(), was, up, n);
      ghost var b := Block(up, n, false);
      GrownKeepsLive(h0, Heap(), was, up, b);
      ArenaOnly(h0, Heap(), {up}, brk);
      blocks := was + [b];
      LiveAround(was, b, []);
      assert was + [b] + [] == was + [b] && FreeAddrs(was) + FreeAddrs([]) == FreeAddrs(was) by {
        NothingFree();
      }
      ghost var h1 := Heap();
      LiveKeptSame(h1, was + [b], {b.addr});
      Free(up + 8, |was|);
      assert (was + [b])[..|was|] == was && (was + [b])[|was| + 1..] == [];
      GrownThenFreed(h0, was, h1, Heap(), blocks, b, up);
      FreeAbove(blocks, basep, brk, freep);
      return freep;
    }

    /** Hands out `units` from the free block at p, whole or off its tail; prev is p's predecessor. */
    method Take(prev: nat, p: nat, units: nat, ghost i: nat) returns (a: nat)
      requires Valid() && 0 < i < |blocks| && blocks[i].free && p == blocks[i].addr && 1 <= units <= blocks[i].size
      requires FreeBelow(blocks[..i], prev)
      modifies this`freep, this`blocks, mem
      ensures Valid() && a == TailOf(old(blocks)[i], units) + 8 && freep == prev
      ensures blocks == Carved(old(blocks)[..i], old(blocks)[i], old(blocks)[i + 1..], units)
      ensures LiveKept(old(Heap()), old(blocks), Heap(), blocks, {}) && OutsideKept(old(Heap()), Heap(), brk)
    {
      hide Coalesced, Tiles, FreeAddrs, Sizes, Chain, ReadLE, LiveKept, Carved, Untouched, Shape, SameBytes, OutsideKept;
      ghost var l, b, r := blocks[..i], blocks[i], blocks[i + 1..];
      ghost var h0 := Heap();
      assert blocks == l + [b] + r;
      TakeFacts(h0, l, b, r, brk, units);
      var size := Size(p);
      if size == units {
        var onward := Next(p);
        SetNext(prev, onward);
        TakenHolds(h0, Heap(), l, b, r, brk, prev);
        TakenKeepsLive(h0, Heap(), l, b, r, brk, prev);
        a := p + 8;
      } else {
        SetSize(p, size - units);
        ghost var h1 := Heap();
        var tail := p + 8 * (size - units);
        CellKept(h0, h1, {p}, tail);
        SetSize(tail, units);
        SplitWritten(h0, h1, Heap(), b, units);
        SplitHolds(h0, Heap(), l, b, r, units, brk);
        SplitKeepsLive(h0, Heap(), l, b, r, brk, units);
        a := tail + 8;
      }
      CarvedShape(l, b, r, units, basep, brk);
      CarvedFree(l, b, r, units);
      freep := prev;
      blocks := Carved(l, b, r, units);
      assert prev in FreeAddrs(l);
    }

    /** First fit: walks the ring once from freep, grows the arena at most once, and succeeds
        or returns 0. It fails exactly for a zero request, or when no free block is large
        enough and the arena cannot grow. */
    method Malloc(nbytes: Word) returns (a: nat)
      requires Valid() && nbytes <= 0xffff_fff0
      modifies this`freep, this`brk, this`blocks, mem
      ensures Valid()
      ensures a == 0 <==> nbytes == 0 || (NoFit(old(blocks), UnitsFor(nbytes)) && NoRoomFor(old(brk), top, nbytes))
      ensures Grows(old(brk), brk, nbytes) && (a != 0 ==> (brk == old(brk) <==> !NoFit(old(blocks), UnitsFor(nbytes))))
      ensures a == 0 ==> blocks == old(blocks) && brk == old(brk) && Heap() == old(Heap())
      ensures a != 0 ==> Handed(blocks, a, UnitsFor(nbytes)) && LiveApart(old(blocks), a, UnitsFor(nbytes)) &&
                         Units(blocks, false) == Units(old(blocks), false) + UnitsFor(nbytes)
      ensures a != 0 && !NoFit(old(blocks), UnitsFor(nbytes)) ==>
                FirstFit(old(Heap()), FreeAddrs(old(blocks)), old(freep), UnitsFor(nbytes), a, freep)
      ensures LiveKept(old(Heap()), old(blocks), Heap(), blocks, {}) && OutsideKept(old(Heap()), Heap(), brk)
    {
      hide Coalesced, Tiles, FreeAddrs, Sizes, Chain, ReadLE, LiveKept, Carved, Released, Untouched, Shape, SameBytes, OutsideKept;
      hide Handed, NoFit, Walking, LiveApart, UnitsFor;
      NeedExact(brk, top, nbytes);
      ghost var h0, b0 := Heap(), blocks;
      NothingMoved(h0, b0, brk);
      if nbytes == 0 { return 0; }
      var units := UnitsFor(nbytes);
      UnitsBound(nbytes);
      ghost var grown: bool, s: nat := false, 0;
      var prevp: nat := freep;
      ghost var f: nat := RingAtFreep(units);
      var p: nat := Next(prevp);
      while true
        invariant Valid() && Walking(Heap(), FreeAddrs(blocks), f, s, freep, prevp, p, units)
        invariant !grown ==> Heap() == h0 && blocks == b0 && brk == old(brk) && freep == old(freep)
        invariant grown ==> !NoFit(blocks, units) && NoFit(b0, units) && brk != old(brk) && Grows(old(brk), brk, nbytes) && !NoRoomFor(old(brk), top, nbytes) &&
                            Units(blocks, false) == Units(b0, false)
        invariant LiveKept(h0, b0, Heap(), blocks, {}) && OutsideKept(h0, Heap(), brk)
        decreases if grown then 0 else 1, |FreeAddrs(blocks)| - s
      {
        ghost var t := CellAhead(f, s, prevp, p, units);
        var size := Size(p);
        if size >= units {
          ghost var i := NodeBlock(Heap(), blocks, basep, brk, t, units);
          ghost var h1, b1 := Heap(), blocks;
          FoundFirst(h1, b1, f, s, freep, prevp, p, units, i);
          CarvedApart(b1, basep, brk, i, units);
          a := Take(prevp, p, units, i);
          ApartBefore(h0, b0, h1, b1, a, units);
          TakenIs(b1, i, units);
          LiveKeptTrans(h0, b0, h1, b1, Heap(), blocks, {});
          OutsideTrans(h0, h1, Heap(), brk);
          FitFound(b1, i, units);
          return;
        }
        if p == freep {
          RingFacts();
          LapDone(Heap(), blocks, f, s, freep, prevp, p, units);
          assert !grown;
          p := Grow(units);
          if p == 0 { return 0; }
          GrownFits(b0, old(brk), (brk - old(brk)) / 8, units);
          GrownLive(b0, old(brk), (brk - old(brk)) / 8);
          grown, s := true, 0;
          f := RingAtFreep(units);
        } else {
          StepAhead(f, s, prevp, p, units);
          s := s + 1;
        }
        prevp := p;
        p := Next(p);
      }
    }

    /** The walk starts just past freep. */
    lemma RingAtFreep(units: nat) returns (f: nat)
      requires Valid()
      ensures Heap().Cell(freep) && Walking(Heap(), FreeAddrs(blocks), f, 0, freep, freep, Heap().Next(freep), units)
    {
      hide ReadLE, Chain, FreeAddrs, Shape, Sizes;
      RingFacts();
      var ns := FreeAddrs(blocks);
      f :| 0 <= f < |ns| && ns[f] == freep;
      ChainAt(Heap(), ns, basep, f);
    }

    /** The cell under inspection is on the ring, its predecessor just behind it. */
    lemma CellAhead(f: nat, s: nat, prevp: nat, p: nat, units: nat) returns (t: nat)
      requires Valid() && Walking(Heap(), FreeAddrs(blocks), f, s, freep, prevp, p, units)
      ensures var ns := FreeAddrs(blocks);
              t < |ns| && p == ns[t] && Heap().Cell(p) && (t > 0 ==> prevp == ns[t - 1])
    {
      hide ReadLE, Chain, FreeAddrs, Shape, Sizes;
      RingFacts();
      var ns := FreeAddrs(blocks);
      t := if f + s + 1 < |ns| then f + s + 1 else f + s + 1 - |ns|;
      ChainAt(Heap(), ns, basep, t);
    }

    /** One step on, the cell just inspected too small. */
    lemma StepAhead(f: nat, s: nat, prevp: nat, p: nat, units: nat)
      requires Valid() && Walking(Heap(), FreeAddrs(blocks), f, s, freep, prevp, p, units)
      requires p != freep && Heap().Cell(p) && Heap().Size(p) < units
      ensures s + 1 < |FreeAddrs(blocks)|
      ensures Walking(Heap(), FreeAddrs(blocks), f, s + 1, freep, p, Heap().Next(p), units)
    {
      hide ReadLE, Chain, FreeAddrs, Shape, Sizes;
      RingFacts();
      var ns := FreeAddrs(blocks);
      var t := if f + s + 1 < |ns| then f + s + 1 else f + s + 1 - |ns|;
      ChainAt(Heap(), ns, basep, t);
    }

    /** memmove between guest addresses. */
    method Move(to: nat, from: nat, n: nat)
      requires base <= to && to + n <= base + mem.Length && base <= from && from + n <= base + mem.Length
      modifies mem
      ensures forall k :: 0 <= k < mem.Length ==>
                mem[k] == if to <= base + k < to + n then old(mem[k + from - to]) else old(mem[k])
    {
      forall k | 0 <= k < n {
        mem[to - base + k] := mem[from - base + k];
      }
    }

    /** The heap survives the guest writing its own payload. */
    lemma PayloadWritten(h: Arena, k: nat)
      requires k < |blocks| && !blocks[k].free && 0 < k && Shape(blocks, basep, brk) && Holds(h, blocks)
      requires h.base == base && h.basep == basep && base <= basep && brk <= base + |h.bytes|
      requires Untouched(h, Heap(), PayloadCells(blocks[k]))
      ensures Holds(Heap(), blocks)
      ensures LiveKept(h, blocks, Heap(), blocks, {blocks[k].addr}) && OutsideKept(h, Heap(), brk)
    {
      PayloadWriteHolds(h, Heap(), blocks, brk, k);
    }

    /** Moves n bytes between two live payloads, then frees the source block. */
    method Relocate(ap: nat, np: nat, n: nat, ghost k: nat, ghost m: nat)
      requires Valid() && 0 < k < |blocks| && 0 < m < |blocks| && k != m && !blocks[k].free && !blocks[m].free
      requires ap == blocks[k].addr + 8 && np == blocks[m].addr + 8 && n <= Room(blocks[k]) && n <= Room(blocks[m])
      modifies this`freep, this`blocks, mem
      ensures Valid()
      ensures blocks == Released(old(blocks)[..k], old(blocks)[k], old(blocks)[k + 1..]) && old(blocks)[m] in blocks
      ensures Moved(old(Heap()), ap, Heap(), np, n)
      ensures LiveKept(old(Heap()), old(blocks), Heap(), blocks, {ap - 8, np - 8}) && OutsideKept(old(Heap()), Heap(), brk)
    {
      hide Coalesced, Tiles, FreeAddrs, Sizes, Chain, ReadLE, LiveKept, Released, Untouched, SameBytes, OutsideKept, PayloadCells;
      ghost var h1, b1 := Heap(), blocks;
      LivePlaces(b1, basep, brk, k, m);
      Move(np, ap, n);
      ghost var h2 := Heap();
      CopiedCells(h1, h2, b1[m], n);
      PayloadWritten(h1, m);
      Free(ap, k);
      MovedOn(h1, b1, k, m, h2, Heap(), blocks, n);
      OutsideTrans(h1, h2, Heap(), brk);
    }

    /** Resizes: a large enough block stays put; otherwise the bytes move to a new block and the
        old one is freed. A failed move leaves everything as it was. */
    method Realloc(ap: nat, n: Word, ghost i: nat) returns (a: nat)
      requires Valid() && n <= 0xffff_fff0
      requires ap != 0 ==> 0 < i < |blocks| && !blocks[i].free && ap == blocks[i].addr + 8
      modifies this`freep, this`brk, this`blocks, mem
      ensures Valid()
      ensures ap == 0 ==> (a == 0 <==> n == 0 || (NoFit(old(blocks), UnitsFor(n)) && NoRoomFor(old(brk), top, n)))
      ensures Grows(old(brk), brk, n)
      ensures ap == 0 && a == 0 ==> blocks == old(blocks) && brk == old(brk) && Heap() == old(Heap())
      ensures ap == 0 && a != 0 ==> Handed(blocks, a, UnitsFor(n)) && LiveApart(old(blocks), a, UnitsFor(n)) &&
                                    Units(blocks, false) == Units(old(blocks), false) + UnitsFor(n)
      ensures ap == 0 ==> LiveKept(old(Heap()), old(blocks), Heap(), blocks, {})
      ensures ap != 0 && n == 0 ==> a == 0 && brk == old(brk) && Freed(old(blocks), old(blocks)[i], blocks)
      ensures ap != 0 && n != 0 && Room(old(blocks)[i]) >= n ==> a == ap && blocks == old(blocks) && brk == old(brk) && Heap() == old(Heap())
      ensures ap != 0 && n != 0 ==>
                (a == 0 <==> (Room(old(blocks)[i]) < n && NoFit(old(blocks), UnitsFor(n)) && NoRoomFor(old(brk), top, n)))
      ensures ap != 0 && n != 0 && a == 0 ==> blocks == old(blocks) && brk == old(brk) && Heap() == old(Heap())
      ensures ap != 0 && a != 0 && Room(old(blocks)[i]) < n ==> Handed(blocks, a, UnitsFor(n)) && LiveApart(old(blocks), a, UnitsFor(n))
      ensures ap != 0 && a != 0 && Room(old(blocks)[i]) < n ==>
                exists mid: seq<Block> :: Handed(mid, a, UnitsFor(n)) && Freed(mid, old(blocks)[i], blocks)
      ensures ap != 0 && a != 0 && Room(old(blocks)[i]) < n ==>
                Units(blocks, false) + old(blocks)[i].size == Units(old(blocks), false) + UnitsFor(n)
      ensures a != 0 && (ap == 0 || Room(old(blocks)[i]) < n) ==>
                (brk == old(brk) <==> !NoFit(old(blocks), UnitsFor(n)))
      ensures ap != 0 && a != 0 ==> Moved(old(Heap()), ap, Heap(), a, Smaller(Room(old(blocks)[i]), n))
      ensures ap != 0 ==> LiveKept(old(Heap()), old(blocks), Heap(), blocks, {ap - 8})
      ensures OutsideKept(old(Heap()), Heap(), brk)
    {
      hide Coalesced, Tiles, FreeAddrs, Sizes, Chain, ReadLE, LiveKept, Released, SameBytes, OutsideKept, Handed, NoFit, Moved, Shape, LiveApart, Freed;
      NothingMoved(Heap(), blocks, brk);
      if ap == 0 {
        a := Malloc(n);
        return;
      }
      if n == 0 {
        FreedIs(blocks, i);
        Free(ap, i);
        return 0;
      }
      ghost var h0, b0 := Heap(), blocks;
      LiveKeptSame(h0, b0, {b0[i].addr});
      HeaderSize(h0, b0, brk, i);
      SamePlace(h0, ap, Smaller(Room(b0[i]), n));
      var size := Size(ap - 8);
      var had: nat := 8 * (size as int - 1);
      if had >= n { return ap; }
      var np := Malloc(n);
      if np == 0 { return 0; }
      ghost var h1 := Heap();
      ghost var k, m := TwoBlocks(h0, b0, i, np, n);
      ghost var mid := blocks;
      FreedIs(mid, k);
      Relocate(ap, np, had, k, m);
      OutsideTrans(h0, h1, Heap(), brk);
      Relocated(h0, b0, i, h1, Heap(), blocks, np, UnitsFor(n), had);
      HandedIs(blocks, np, UnitsFor(n));
      a := np;
    }

    /** After a malloc the old block and the new one are two live blocks, the new one roomier. */
    lemma TwoBlocks(h0: Arena, b0: seq<Block>, i: nat, np: nat, n: Word) returns (k: nat, m: nat)
      requires Valid() && i < |b0| && !b0[i].free && b0[i].size >= 1 && h0.base == base
      requires LiveKept(h0, b0, Heap(), blocks, {}) && Handed(blocks, np, UnitsFor(n)) && LiveApart(b0, np, UnitsFor(n))
      requires 1 <= n <= 0xffff_fff0 && Room(b0[i]) < n
      ensures 0 < k < |blocks| && blocks[k] == b0[i] && 0 < m < |blocks| && m != k
      ensures np >= 8 && blocks[m] == Block(np - 8, UnitsFor(n), false) && Room(blocks[m]) >= n
    {
      assert b0[i] in blocks;
      k :| 0 <= k < |blocks| && blocks[k] == b0[i];
      m :| 0 <= m < |blocks| && blocks[m] == Block(np - 8, UnitsFor(n), false);
      UnitsBound(n);
    }
  }

  // ---- payloads ----

  /** Payload bytes of a block. */
  function Room(b: Block): int {
    8 * (b.size - 1)
  }

  function Smaller(a: int, b: int): int {
    if a < b then a else b
  }

  function PayloadCells(b: Block): set<nat> {
    set j: nat | 1 <= j < b.size :: b.addr + 8 * j
  }

  /** The first n bytes at `to` are those that were at `from`. */
  predicate Moved(h: Arena, from: nat, h': Arena, to: nat, n: nat) {
    h'.base == h.base && |h'.bytes| == |h.bytes| &&
    h.base <= from && from + n <= h.base + |h.bytes| && h.base <= to && to + n <= h.base + |h.bytes| &&
    forall j :: to <= h.base + j < to + n ==> h'.bytes[j] == h.bytes[j + from - to]
  }

  lemma SamePlace(h: Arena, a: nat, n: nat)
    requires h.base <= a && a + n <= h.base + |h.bytes|
    ensures Moved(h, a, h, a, n)
  {
  }

  lemma HeaderSize(h: Arena, bs: seq<Block>, brk: nat, i: nat)
    requires 0 < i < |bs| && Holds(h, bs) && Shape(bs, h.basep, brk) && h.base <= h.basep && brk <= h.base + |h.bytes|
    ensures h.Cell(bs[i].addr) && h.Size(bs[i].addr) == bs[i].size && bs[i].size >= 1
    ensures h.base <= bs[i].addr && bs[i].addr + 8 * bs[i].size <= h.base + |h.bytes|
    ensures forall j :: 0 <= j < |bs| && !bs[j].free ==> bs[j].size >= 1
  {
    BlockInside(bs, h.basep, brk, i);
  }

  lemma PayloadCell(b: Block, c: nat)
    requires c in PayloadCells(b)
    ensures b.addr + 8 <= c && c + 8 <= b.addr + 8 * b.size && (c - b.addr) % 8 == 0
  {
  }

  lemma PayloadWriteHolds(h: Arena, h': Arena, bs: seq<Block>, brk: nat, k: nat)
    requires Shape(bs, h.basep, brk) && Holds(h, bs) && 0 < k < |bs| && !bs[k].free
    requires h.base <= h.basep && brk <= h.base + |h.bytes|
    requires Untouched(h, h', PayloadCells(bs[k]))
    ensures Holds(h', bs)
    ensures LiveKept(h, bs, h', bs, {bs[k].addr}) && OutsideKept(h, h', brk)
  {
    hide Tiles, Coalesced, FreeAddrs, Chain, ReadLE, PayloadCells, Untouched, OutsideKept, SameBytes;
    var cells := PayloadCells(bs[k]);
    BlockInside(bs, h.basep, brk, k);
    forall c | c in cells
      ensures h.Cell(c) && h.basep <= c && c + 8 <= brk && bs[k].addr <= c && c + 8 <= bs[k].addr + Extent(bs[k])
      ensures forall j :: 0 <= j < |bs| ==> bs[j].addr != c
    {
      PayloadCell(bs[k], c);
      OnGrid(bs[k].addr - h.basep, c - bs[k].addr);
      forall j | 0 <= j < |bs|
        ensures bs[j].addr != c
      {
        if j < k {
          BlocksApart(bs, h.basep, brk, j, k);
        } else if j > k {
          BlocksApart(bs, h.basep, brk, k, j);
        }
      }
    }
    SizesKept(h, h', cells, bs);
    var ns := FreeAddrs(bs);
    forall t | 0 <= t < |ns|
      ensures ns[t] !in cells
    {
      var j := FreeIsBlock(bs, t);
    }
    ChainKept(h, h', cells, ns, h.basep);
    UntouchedBase(h, h', cells);
    ArenaOnly(h, h', cells, brk);
    forall j | 0 <= j < |bs| && !bs[j].free && bs[j].addr != bs[k].addr
      ensures SameBytes(h, h', bs[j].addr + 8, bs[j].addr + 8 * bs[j].size)
    {
      assert j != 0 && j != k;
      PayloadApart(h, h', cells, bs, h.basep, brk, j);
    }
  }

  lemma InCells(b: Block, j: nat)
    requires 1 <= j < b.size
    ensures b.addr + 8 * j in PayloadCells(b)
  {
  }

  /** A move into a block's payload touches its payload cells alone. */
  lemma CopiedCells(h: Arena, h': Arena, b: Block, n: nat)
    requires b.size >= 1 && n <= Room(b) && h'.base == h.base && h'.basep == h.basep && |h'.bytes| == |h.bytes|
    requires h.base <= b.addr && b.addr + 8 * b.size <= h.base + |h.bytes|
    requires forall k :: 0 <= k < |h.bytes| && !(b.addr + 8 <= h.base + k < b.addr + 8 + n) ==> h'.bytes[k] == h.bytes[k]
    ensures Untouched(h, h', PayloadCells(b))
  {
    forall k | 0 <= k < |h.bytes| && forall c :: c in PayloadCells(b) ==> !(c <= h.base + k < c + 8)
      ensures h'.bytes[k] == h.bytes[k]
    {
      if b.addr + 8 <= h.base + k < b.addr + 8 * b.size {
        OutsideCells(b, h.base + k);
      }
    }
  }

  lemma OutsideCells(b: Block, a: nat)
    requires b.addr + 8 <= a < b.addr + 8 * b.size
    ensures exists c :: c in PayloadCells(b) && c <= a < c + 8
  {
    var j: nat := (a - b.addr) / 8;
    InCells(b, j);
    assert b.addr + 8 * j <= a < b.addr + 8 * j + 8;
  }

  lemma LivePlaces(bs: seq<Block>, basep: nat, brk: nat, k: nat, m: nat)
    requires Shape(bs, basep, brk) && 0 < k < |bs| && 0 < m < |bs| && k != m
    ensures bs[k].size >= 1 && bs[m].size >= 1 && bs[k].addr != bs[m].addr
    ensures basep <= bs[k].addr && bs[k].addr + 8 * bs[k].size <= brk
    ensures basep <= bs[m].addr && bs[m].addr + 8 * bs[m].size <= brk
  {
    BlockInside(bs, basep, brk, k);
    BlockInside(bs, basep, brk, m);
    if k < m {
      BlocksApart(bs, basep, brk, k, m);
    } else {
      BlocksApart(bs, basep, brk, m, k);
    }
  }

  /** The moved bytes survive the freeing of the source block, and so does every other payload. */
  lemma MovedOn(h1: Arena, b1: seq<Block>, k: nat, m: nat, h2: Arena, h3: Arena, b3: seq<Block>, n: nat)
    requires k < |b1| && m < |b1| && !b1[k].free && !b1[m].free && b1[m].addr != b1[k].addr
    requires b1[k].size >= 1 && b1[m].size >= 1 && n <= Room(b1[k]) && n <= Room(b1[m])
    requires LiveKept(h1, b1, h2, b1, {b1[m].addr}) && LiveKept(h2, b1, h3, b3, {b1[k].addr})
    requires h1.base <= b1[m].addr && b1[m].addr + 8 * b1[m].size <= h1.base + |h1.bytes|
    requires h1.base <= b1[k].addr && b1[k].addr + 8 * b1[k].size <= h1.base + |h1.bytes|
    requires h2.base == h1.base && |h2.bytes| == |h1.bytes|
    requires forall j :: 0 <= j < |h1.bytes| ==>
               h2.bytes[j] == if b1[m].addr + 8 <= h1.base + j < b1[m].addr + 8 + n
                              then h1.bytes[j + b1[k].addr - b1[m].addr] else h1.bytes[j]
    ensures Moved(h1, b1[k].addr + 8, h3, b1[m].addr + 8, n)
    ensures LiveKept(h1, b1, h3, b3, {b1[k].addr, b1[m].addr}) && b1[m] in b3
  {
    assert SameBytes(h2, h3, b1[m].addr + 8, b1[m].addr + 8 * b1[m].size);
    forall j | 0 <= j < |b1| && !b1[j].free && b1[j].addr !in {b1[k].addr, b1[m].addr}
      ensures b1[j] in b3 && SameBytes(h1, h3, b1[j].addr + 8, b1[j].addr + 8 * b1[j].size)
    {
      SameBytesTrans(h1, h2, h3, b1[j].addr + 8, b1[j].addr + 8 * b1[j].size);
    }
  }

  /** The malloc and the move together: the first bytes are the old block's, and every other
      live block is as before. */
  lemma Relocated(h0: Arena, b0: seq<Block>, i: nat, h1: Arena, h3: Arena, b3: seq<Block>, np: nat, units: nat, n: nat)
    requires i < |b0| && !b0[i].free && b0[i].size >= 1 && n == Room(b0[i]) && np >= 8 && units >= 1
    requires exists b1 :: LiveKept(h0, b0, h1, b1, {}) && LiveKept(h1, b1, h3, b3, {b0[i].addr, np - 8})
    requires Moved(h1, b0[i].addr + 8, h3, np, n) && LiveApart(b0, np, units)
    requires forall j :: 0 <= j < |b0| && !b0[j].free ==> b0[j].size >= 1
    ensures Moved(h0, b0[i].addr + 8, h3, np, n)
    ensures LiveKept(h0, b0, h3, b3, {b0[i].addr})
  {
    var b1 :| LiveKept(h0, b0, h1, b1, {}) && LiveKept(h1, b1, h3, b3, {b0[i].addr, np - 8});
    assert SameBytes(h0, h1, b0[i].addr + 8, b0[i].addr + 8 * b0[i].size);
    forall j | 0 <= j < |b0| && !b0[j].free && b0[j].addr != b0[i].addr
      ensures b0[j] in b3 && SameBytes(h0, h3, b0[j].addr + 8, b0[j].addr + 8 * b0[j].size)
    {
      var q :| 0 <= q < |b1| && b1[q] == b0[j];
      assert b0[j].addr != np - 8;
      SameBytesTrans(h0, h1, h3, b0[j].addr + 8, b0[j].addr + 8 * b0[j].size);
    }
  }

  // ---- requests ----

  /** Units for a request: its bytes rounded up, plus the header, in the source's 32 bits. */
  function UnitsFor(nbytes: Word): nat {
    Wrap(nbytes + 7) / 8 + 1
  }

  /** The unit count covers the request, and its byte size does not wrap, exactly for requests
      up to 2^32 - 16. */
  lemma UnitsExact(nbytes: Word)
    ensures 8 * (UnitsFor(nbytes) - 1) >= nbytes && 8 * UnitsFor(nbytes) < 0x1_0000_0000 <==> nbytes <= 0xffff_fff0
  {
    WrapNear(nbytes + 7);
  }

  lemma UnitsBound(nbytes: Word)
    requires 1 <= nbytes <= 0xffff_fff0
    ensures 2 <= UnitsFor(nbytes) && 8 * UnitsFor(nbytes) < 0x1_0000_0000 && 8 * (UnitsFor(nbytes) - 1) >= nbytes
  {
    UnitsExact(nbytes);
    WrapNear(nbytes + 7);
  }

  /** brk' is brk, or lies 32768 bytes above it, or more if the request needs more: its bytes and
      the header, rounded up to 8. */
  predicate Grows(brk: nat, brk': nat, nbytes: nat) {
    brk' != brk ==>
      brk' - brk >= 32768 &&
      (brk' - brk > 32768 ==> nbytes + 8 <= brk' - brk < nbytes + 16 && (brk' - brk) % 8 == 0)
  }

  /** Fewer than 32768 bytes are left up to `top`, or fewer than the request needs. */
  predicate NoRoomFor(brk: nat, top: nat, nbytes: nat) {
    brk + 32768 > top || brk + (nbytes + 15) / 8 * 8 > top
  }

  lemma NeedExact(brk: nat, top: nat, nbytes: Word)
    requires nbytes <= 0xffff_fff0
    ensures NoRoomFor(brk, top, nbytes) <==> brk + 32768 > top || brk + 8 * UnitsFor(nbytes) > top
    ensures nbytes + 8 <= 8 * UnitsFor(nbytes) < nbytes + 16
  {
    WrapNear(nbytes + 7);
  }

  /** No free block has that many units. */
  predicate NoFit(bs: seq<Block>, units: nat) {
    forall k :: 0 <= k < |bs| && bs[k].free ==> bs[k].size < units
  }

  /** a is the payload address of a live block of that many units. */
  predicate Handed(bs: seq<Block>, a: nat, units: nat) {
    a >= 8 && Block(a - 8, units, false) in bs
  }

  /** bs' is bs with block b given back. */
  ghost predicate Freed(bs: seq<Block>, b: Block, bs': seq<Block>) {
    exists k :: 0 <= k < |bs| && bs[k] == b && bs' == Released(bs[..k], b, bs[k + 1..])
  }

  lemma FreedIs(bs: seq<Block>, k: nat)
    requires k < |bs| && !bs[k].free
    ensures Freed(bs, bs[k], Released(bs[..k], bs[k], bs[k + 1..]))
    ensures Units(Released(bs[..k], bs[k], bs[k + 1..]), false) + bs[k].size == Units(bs, false)
  {
    hide Released, Units;
    assert bs == bs[..k] + [bs[k]] + bs[k + 1..];
    ReleasedUnits(bs[..k], bs[k], bs[k + 1..]);
  }

  lemma HandedIs(bs: seq<Block>, a: nat, units: nat)
    requires a >= 8 && Block(a - 8, units, false) in bs
    ensures Handed(bs, a, units)
  {
  }

  /** The block at payload address a is disjoint from every live block. */
  predicate LiveApart(bs: seq<Block>, a: nat, units: nat) {
    forall k :: 0 <= k < |bs| && !bs[k].free ==> bs[k].addr + 8 * bs[k].size <= a - 8 || a - 8 + 8 * units <= bs[k].addr
  }

  lemma CarvedApart(bs: seq<Block>, basep: nat, brk: nat, i: nat, units: nat)
    requires Shape(bs, basep, brk) && i < |bs| && bs[i].free && 1 <= units <= bs[i].size
    ensures LiveApart(bs, TailOf(bs[i], units) + 8, units)
  {
    forall k | 0 <= k < |bs| && !bs[k].free
      ensures bs[k].addr + 8 * bs[k].size <= TailOf(bs[i], units) || TailOf(bs[i], units) + 8 * units <= bs[k].addr
    {
      if k < i {
        BlocksApart(bs, basep, brk, k, i);
      } else {
        BlocksApart(bs, basep, brk, i, k);
      }
    }
  }

  lemma ApartBefore(h0: Arena, b0: seq<Block>, h1: Arena, b1: seq<Block>, a: nat, units: nat)
    requires LiveKept(h0, b0, h1, b1, {}) && LiveApart(b1, a, units)
    ensures LiveApart(b0, a, units)
  {
    forall k | 0 <= k < |b0| && !b0[k].free
      ensures b0[k].addr + 8 * b0[k].size <= a - 8 || a - 8 + 8 * units <= b0[k].addr
    {
      var q :| 0 <= q < |b1| && b1[q] == b0[k];
    }
  }

  /** The k-th free address on a second lap of the ring. */
  function RingAtStep(ns: seq<nat>, k: nat): nat
    requires k < 2 * |ns|
  {
    if k < |ns| then ns[k] else ns[k - |ns|]
  }

  predicate Small(h: Arena, a: nat, units: nat) {
    h.Cell(a) && h.Size(a) < units
  }

  /** The walk has passed s cells after position f, none large enough; p is next, prevp behind it. */
  predicate Walking(h: Arena, ns: seq<nat>, f: nat, s: nat, freep: nat, prevp: nat, p: nat, units: nat) {
    && f < |ns| && s < |ns| && ns[f] == freep
    && prevp == RingAtStep(ns, f + s) && p == RingAtStep(ns, f + s + 1)
    && forall k: nat :: f < k <= f + s ==> Small(h, RingAtStep(ns, k), units)
  }

  /** a is handed out of the first free block with enough units on the ring from freep on, whole or
      off its tail; `prev` comes before that block. */
  ghost predicate FirstFit(h: Arena, ns: seq<nat>, freep: nat, units: nat, a: nat, prev: nat) {
    exists f: nat, s: nat, p: nat {:trigger Walking(h, ns, f, s, freep, prev, p, units)} ::
      Walking(h, ns, f, s, freep, prev, p, units) && h.Cell(p) && h.Size(p) >= units && a == p + 8 * (h.Size(p) - units) + 8
  }

  /** p is the last free block of l. */
  predicate FreeBelow(l: seq<Block>, p: nat) {
    FreeAddrs(l) != [] && p == FreeAddrs(l)[|FreeAddrs(l)| - 1]
  }

  lemma FoundFirst(h: Arena, bs: seq<Block>, f: nat, s: nat, freep: nat, prev: nat, p: nat, units: nat, i: nat)
    requires Holds(h, bs) && Walking(h, FreeAddrs(bs), f, s, freep, prev, p, units)
    requires i < |bs| && p == bs[i].addr && units <= bs[i].size && h.Cell(p)
    ensures FirstFit(h, FreeAddrs(bs), freep, units, TailOf(bs[i], units) + 8, prev)
  {
    hide Walking, Chain, FreeAddrs, ReadLE;
    assert h.Size(bs[i].addr) == bs[i].size;
  }

  lemma NothingMoved(h: Arena, bs: seq<Block>, brk: nat)
    ensures LiveKept(h, bs, h, bs, {}) && OutsideKept(h, h, brk)
  {
  }

  lemma OutsideTrans(h0: Arena, h1: Arena, h2: Arena, brk: nat)
    requires OutsideKept(h0, h1, brk) && OutsideKept(h1, h2, brk) && h1.basep == h0.basep
    ensures OutsideKept(h0, h2, brk)
  {
  }

  /** A large enough cell on the ring is a free block, not the anchor. */
  lemma NodeBlock(h: Arena, bs: seq<Block>, basep: nat, brk: nat, t: nat, units: nat) returns (i: nat)
    requires Shape(bs, basep, brk) && Holds(h, bs) && t < |FreeAddrs(bs)| && units >= 1
    requires h.Cell(FreeAddrs(bs)[t]) && h.Size(FreeAddrs(bs)[t]) >= units
    ensures 0 < i < |bs| && bs[i].free && bs[i].addr == FreeAddrs(bs)[t] && bs[i].size >= units
    ensures |FreeAddrs(bs[..i])| == t && t > 0 && FreeAddrs(bs[..i])[t - 1] == FreeAddrs(bs)[t - 1]
  {
    i := FreeIsBlock(bs, t);
    assert h.Size(bs[i].addr) == bs[i].size;
    assert i > 0;
    FreeAfterAnchor(bs, i);
  }

  lemma FreeAfterAnchor(bs: seq<Block>, i: nat)
    requires 0 < i <= |bs| && bs[0].free
    ensures FreeAddrs(bs[..i]) != [] && |FreeAddrs(bs[..i])| <= |FreeAddrs(bs)|
    ensures forall k :: 0 <= k < |FreeAddrs(bs[..i])| ==> FreeAddrs(bs[..i])[k] == FreeAddrs(bs)[k]
  {
    assert bs == bs[..i] + bs[i..];
    FreeConcat(bs[..i], bs[i..]);
    assert bs[..i][0] == bs[0];
  }

  lemma TakenIs(bs: seq<Block>, i: nat, units: nat)
    requires i < |bs| && bs[i].free && units <= bs[i].size
    ensures var cs := Carved(bs[..i], bs[i], bs[i + 1..], units);
            Handed(cs, TailOf(bs[i], units) + 8, units) && Units(cs, false) == Units(bs, false) + units
  {
    var l, b, r := bs[..i], bs[i], bs[i + 1..];
    assert bs == l + [b] + r;
    CarvedMembers(l, b, r, units);
    CarvedUnits(l, b, r, units);
  }

  lemma FitFound(bs: seq<Block>, i: nat, units: nat)
    requires i < |bs| && bs[i].free && bs[i].size >= units
    ensures !NoFit(bs, units)
  {
  }

  /** A full lap of small cells: no free block fits. */
  lemma LapDone(h: Arena, bs: seq<Block>, f: nat, s: nat, freep: nat, prevp: nat, p: nat, units: nat)
    requires Holds(h, bs) && Walking(h, FreeAddrs(bs), f, s, freep, prevp, p, units)
    requires p == freep && Small(h, p, units) && forall a, b :: 0 <= a < b < |FreeAddrs(bs)| ==> FreeAddrs(bs)[a] < FreeAddrs(bs)[b]
    ensures NoFit(bs, units)
  {
    var ns := FreeAddrs(bs);
    assert s + 1 == |ns|;
    forall k | 0 <= k < |bs| && bs[k].free
      ensures bs[k].size < units
    {
      BlockIsFree(bs, k);
      var t := |FreeAddrs(bs[..k])|;
      assert ns[t] == bs[k].addr;
      if t != f {
        assert RingAtStep(ns, if t > f then t else t + |ns|) == ns[t];
      }
      assert Small(h, ns[t], units);
    }
  }

  lemma GrownFits(bs: seq<Block>, brk: nat, n: nat, units: nat)
    requires units <= n
    ensures !NoFit(Released(bs, Block(brk, n, false), []), units)
  {
    var rs := Released(bs, Block(brk, n, false), []);
    assert rs[|rs| - 1].free && rs[|rs| - 1].size >= n;
  }

  lemma GrownLive(bs: seq<Block>, brk: nat, units: nat)
    ensures Units(Released(bs, Block(brk, units, false), []), false) == Units(bs, false)
  {
    var b := Block(brk, units, false);
    ReleasedUnits(bs, b, []);
    UnitsConcat(bs, [b], false);
    UnitsOne(b, false);
    assert bs + [b] + [] == bs + [b];
  }

  lemma TakeFacts(h: Arena, l: seq<Block>, b: Block, r: seq<Block>, brk: nat, units: nat)
    requires Shape(l + [b] + r, h.basep, brk) && l != [] && b.free && Holds(h, l + [b] + r) && 1 <= units <= b.size
    requires FreeAddrs(l) != [] && h.base <= h.basep && brk <= h.base + |h.bytes| && brk < 0x1_0000_0000
    ensures Tiles(l + [b] + r, h.basep, brk)
    ensures var prev := FreeAddrs(l)[|FreeAddrs(l)| - 1];
            h.Cell(prev) && prev < b.addr && h.Cell(b.addr) && h.Size(b.addr) == b.size && b.size < 0x1_0000_0000
    ensures h.Cell(TailOf(b, units)) && (units < b.size ==> TailOf(b, units) != b.addr)
  {
    hide FreeAddrs, Chain, Coalesced, ReadLE;
    var bs := l + [b] + r;
    assert bs[|l|] == b;
    RingAt(h, l, b, r);
    SidesApart(l, b, r, h.basep, brk);
    BlockInside(bs, h.basep, brk, |l|);
    OnGrid(b.addr - h.basep, 8 * (b.size - units));
  }

  lemma SplitWritten(h0: Arena, h1: Arena, h2: Arena, b: Block, units: nat)
    requires 1 <= units < b.size && h0.Cell(b.addr) && h0.Cell(TailOf(b, units))
    requires Untouched(h0, h1, {b.addr}) && h1.Cell(b.addr) && h1.Size(b.addr) == b.size - units && h1.Next(b.addr) == h0.Next(b.addr)
    requires h1.Cell(TailOf(b, units)) && Untouched(h1, h2, {TailOf(b, units)}) && h2.Cell(TailOf(b, units))
    requires h2.Size(TailOf(b, units)) == units
    ensures SplitWrites(h0, h2, b, units)
  {
    hide ReadLE, Untouched;
    CellKept(h1, h2, {TailOf(b, units)}, b.addr);
    UntouchedTrans(h0, h1, h2, {b.addr}, {TailOf(b, units)}, {b.addr, TailOf(b, units)});
  }

  lemma CarvedMembers(l: seq<Block>, b: Block, r: seq<Block>, units: nat)
    requires b.free && units <= b.size
    ensures forall x :: x in l + [b] + r && !x.free ==> x in Carved(l, b, r, units)
    ensures Block(TailOf(b, units), units, false) in Carved(l, b, r, units)
  {
    var cs := Carved(l, b, r, units);
    assert cs[if b.size == units then |l| else |l| + 1] == Block(TailOf(b, units), units, false);
    forall x | x in l + [b] + r && !x.free
      ensures x in cs
    {
      if x in l {
        var k :| 0 <= k < |l| && l[k] == x;
        assert cs[k] == x;
      } else {
        var k :| 0 <= k < |r| && r[k] == x;
        assert cs[|cs| - |r| + k] == x;
      }
    }
  }

  lemma TakenKeepsLive(h: Arena, h': Arena, l: seq<Block>, b: Block, r: seq<Block>, brk: nat, prev: nat)
    requires Shape(l + [b] + r, h.basep, brk) && b.free && FreeAddrs(l) != [] && Untouched(h, h', {prev})
    requires prev == FreeAddrs(l)[|FreeAddrs(l)| - 1]
    ensures LiveKept(h, l + [b] + r, h', Carved(l, b, r, b.size), {}) && OutsideKept(h, h', brk)
  {
    hide Coalesced, Carved;
    var bs := l + [b] + r;
    CarvedMembers(l, b, r, b.size);
    var i := FreeIsBlock(l, |FreeAddrs(l)| - 1);
    assert bs[i] == l[i];
    BlockInside(bs, h.basep, brk, i);
    ArenaOnly(h, h', {prev}, brk);
    forall k | 0 <= k < |bs| && !bs[k].free
      ensures bs[k] in Carved(l, b, r, b.size) && SameBytes(h, h', bs[k].addr + 8, bs[k].addr + 8 * bs[k].size)
    {
      PayloadApart(h, h', {prev}, bs, h.basep, brk, k);
    }
  }

  lemma SplitKeepsLive(h: Arena, h': Arena, l: seq<Block>, b: Block, r: seq<Block>, brk: nat, units: nat)
    requires Shape(l + [b] + r, h.basep, brk) && l != [] && b.free && 1 <= units < b.size
    requires Untouched(h, h', {b.addr, TailOf(b, units)})
    ensures LiveKept(h, l + [b] + r, h', Carved(l, b, r, units), {}) && OutsideKept(h, h', brk)
  {
    hide Coalesced, Carved;
    var bs := l + [b] + r;
    CarvedMembers(l, b, r, units);
    var i := |l|;
    assert bs[i] == b;
    BlockInside(bs, h.basep, brk, i);
    ArenaOnly(h, h', {b.addr, TailOf(b, units)}, brk);
    forall k | 0 <= k < |bs| && !bs[k].free
      ensures bs[k] in Carved(l, b, r, units) && SameBytes(h, h', bs[k].addr + 8, bs[k].addr + 8 * bs[k].size)
    {
      assert k != i;
      PayloadApart(h, h', {b.addr, TailOf(b, units)}, bs, h.basep, brk, k);
    }
  }

  lemma FreeAbove(bs: seq<Block>, lo: nat, hi: nat, a: nat)
    requires Tiles(bs, lo, hi) && a in FreeAddrs(bs)
    ensures lo <= a && a + 8 <= hi
  {
    var t :| 0 <= t < |FreeAddrs(bs)| && FreeAddrs(bs)[t] == a;
    FreeInside(bs, lo, hi, t);
  }

  lemma NothingFree()
    ensures FreeAddrs([]) == []
  {
  }

  lemma LiveKeptSame(h: Arena, bs: seq<Block>, except: set<nat>)
    ensures LiveKept(h, bs, h, bs, except)
  {
  }

  lemma ArenaEnd(bs: seq<Block>, basep: nat, brk: nat)
    requires Shape(bs, basep, brk)
    ensures (brk - basep) % 8 == 0
  {
    Conservation(bs, basep, brk);
  }

  lemma GrownKeepsLive(h: Arena, h': Arena, bs: seq<Block>, brk: nat, b: Block)
    requires Shape(bs, h.basep, brk) && Untouched(h, h', {brk})
    ensures LiveKept(h, bs, h', bs + [b], {})
  {
    forall k | 0 <= k < |bs| && !bs[k].free
      ensures bs[k] in bs + [b] && SameBytes(h, h', bs[k].addr + 8, bs[k].addr + 8 * bs[k].size)
    {
      assert (bs + [b])[k] == bs[k];
      BlockInside(bs, h.basep, brk, k);
      forall j | 0 <= j < |h.bytes| && bs[k].addr + 8 <= h.base + j < bs[k].addr + 8 * bs[k].size
        ensures h'.bytes[j] == h.bytes[j]
      {
        assert !(brk <= h.base + j < brk + 8);
      }
    }
  }

  /** The old live blocks survive both the growth and the freeing of the new block. */
  lemma GrownThenFreed(h0: Arena, was: seq<Block>, h1: Arena, h2: Arena, bs: seq<Block>, b: Block, brk: nat)
    requires Tiles(was, h0.basep, brk) && b.addr == brk && LiveKept(h0, was, h1, was + [b], {})
    requires LiveKept(h1, was + [b], h2, bs, {b.addr})
    ensures LiveKept(h0, was, h2, bs, {})
  {
    forall k | 0 <= k < |was| && !was[k].free
      ensures was[k] in bs && SameBytes(h0, h2, was[k].addr + 8, was[k].addr + 8 * was[k].size)
    {
      BlockInside(was, h0.basep, brk, k);
      assert (was + [b])[k] == was[k];
      SameBytesTrans(h0, h1, h2, was[k].addr + 8, was[k].addr + 8 * was[k].size);
    }
  }

  /** What the search and the joins rely on. */
  lemma FreeFacts(h: Arena, l: seq<Block>, b: Block, r: seq<Block>, brk: nat) returns (k: nat)
    requires Shape(l + [b] + r, h.basep, brk) && l != [] && !b.free && Holds(h, l + [b] + r)
    requires h.base <= h.basep && brk <= h.base + |h.bytes| && brk < 0x1_0000_0000
    ensures FreeAddrs(l + [b] + r) == FreeAddrs(l) + FreeAddrs(r) && FreeAddrs(l) != []
    ensures var p := FreeAddrs(l)[|FreeAddrs(l)| - 1];
            p < b.addr && (FreeAddrs(r) != [] ==> b.addr < FreeAddrs(r)[0]) &&
            h.Cell(p) && h.Cell(b.addr) && h.Next(p) == First(FreeAddrs(r), h.basep) && h.Size(b.addr) == b.size &&
            k < |l| && l[k].free && l[k].addr == p && h.Size(p) == l[k].size &&
            (p + 8 * h.Size(p) == b.addr <==> JoinsLeft(l)) && (JoinsLeft(l) ==> k == |l| - 1)
    ensures b.addr != First(FreeAddrs(r), h.basep) && b.addr < 0x1_0000_0000
    ensures b.addr + 8 * b.size == First(FreeAddrs(r), h.basep) <==> JoinsRight(r)
    ensures JoinsRight(r) ==> h.Cell(First(FreeAddrs(r), h.basep)) && h.Size(First(FreeAddrs(r), h.basep)) == r[0].size
    ensures WithRight(b, r).size + (if JoinsLeft(l) then l[|l| - 1].size else 0) < 0x1_0000_0000
  {
    hide Coalesced, Tiles, FreeAddrs, Chain, ReadLE;
    var bs := l + [b] + r;
    LiveAround(l, b, r);
    AnchorFree(l, b, r, h.basep, brk);
    var fl := FreeAddrs(l);
    RingAround(h, l, b, r);
    SidesApart(l, b, r, h.basep, brk);
    k := FreeIsBlock(l, |fl| - 1);
    assert bs[|l|] == b && bs[k] == l[k] && (JoinsRight(r) ==> bs[|l| + 1] == r[0]) && (JoinsLeft(l) ==> bs[|l| - 1] == l[|l| - 1]);
    MeetsLeft(l, b, r, h.basep, brk, k);
    MeetsRight(l, b, r, h.basep, brk);
    FreeRest(r);
    AnchorBelow(l, b, r, h.basep, brk);
    BlockInside(bs, h.basep, brk, |l|);
    ReleasedShape(l, b, r, h.basep, brk);
    JoinedFits(l, b, r, h.basep, brk);
  }

  lemma AnchorFree(l: seq<Block>, b: Block, r: seq<Block>, basep: nat, brk: nat)
    requires Shape(l + [b] + r, basep, brk) && l != []
    ensures FreeAddrs(l) != []
  {
    assert (l + [b] + r)[0] == l[0];
  }

  lemma AnchorBelow(l: seq<Block>, b: Block, r: seq<Block>, basep: nat, brk: nat)
    requires Shape(l + [b] + r, basep, brk) && l != []
    ensures basep < b.addr
  {
    var bs := l + [b] + r;
    assert bs[|l|] == b && bs[0] == l[0];
    BlocksApart(bs, basep, brk, 0, |l|);
  }

  lemma JoinedFits(l: seq<Block>, b: Block, r: seq<Block>, basep: nat, brk: nat)
    requires Shape(Released(l, b, r), basep, brk) && brk < 0x1_0000_0000
    ensures WithRight(b, r).size + (if JoinsLeft(l) then l[|l| - 1].size else 0) < 0x1_0000_0000
  {
    var rs := Released(l, b, r);
    var k := if JoinsLeft(l) then |l| - 1 else |l|;
    assert rs[k].size == WithRight(b, r).size + if JoinsLeft(l) then l[|l| - 1].size else 0;
    BlockInside(rs, basep, brk, k);
  }

  /** The two joins together write what `free` promises. */
  lemma FreeWritten(h0: Arena, h1: Arena, h2: Arena, l: seq<Block>, b: Block, r: seq<Block>, brk: nat, p: nat, nx: nat)
    requires h0.Cell(p) && h0.Cell(b.addr) && p != b.addr && (JoinsRight(r) ==> h0.Cell(nx))
    requires h0.Size(b.addr) == b.size && (JoinsRight(r) ==> h0.Size(nx) == r[0].size)
    requires b.addr + 8 * b.size == nx <==> JoinsRight(r)
    requires p + 8 * h0.Size(p) == b.addr <==> JoinsLeft(l)
    requires JoinsLeft(l) ==> h0.Size(p) == l[|l| - 1].size
    requires Untouched(h0, h1, {b.addr}) && h1.Cell(b.addr) && Untouched(h1, h2, {p}) && h1.Cell(p) && h2.Cell(p)
    requires if b.addr + 8 * b.size == nx then h1.Size(b.addr) == b.size + h0.Size(nx) && h1.Next(b.addr) == h0.Next(nx)
             else h1.Size(b.addr) == b.size && h1.Next(b.addr) == nx
    requires if p + 8 * h1.Size(p) == b.addr then h2.Size(p) == h1.Size(p) + h1.Size(b.addr) && h2.Next(p) == h1.Next(b.addr)
             else h2.Size(p) == h1.Size(p) && h2.Next(p) == b.addr
    ensures FreeWrites(h0, h2, l, b, r, p, nx)
  {
    hide ReadLE, Untouched;
    CellKept(h0, h1, {b.addr}, p);
    CellKept(h1, h2, {p}, b.addr);
    UntouchedTrans(h0, h1, h2, {b.addr}, {p}, {p, b.addr});
  }

  lemma CellsInArena(h: Arena, h': Arena, l: seq<Block>, b: Block, r: seq<Block>, brk: nat, p: nat)
    requires Shape(l + [b] + r, h.basep, brk) && Untouched(h, h', {p, b.addr}) && p in FreeAddrs(l + [b] + r)
    ensures OutsideKept(h, h', brk)
  {
    hide FreeAddrs, Tiles, OutsideKept, Untouched;
    var bs := l + [b] + r;
    assert bs[|l|] == b;
    BlockInside(bs, h.basep, brk, |l|);
    var i :| 0 <= i < |FreeAddrs(bs)| && FreeAddrs(bs)[i] == p;
    FreeInside(bs, h.basep, brk, i);
    ArenaOnly(h, h', {p, b.addr}, brk);
  }
}
