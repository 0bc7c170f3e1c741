/** Each allocator operation's header writes leave bytes that hold the blocks it promises. */
module HeapUpdates {
  import opened Words
  import opened HeapShape
  import opened HeapBytes

  /** Free addresses below a block are to its left, above it to its right. */
  lemma FreeLeft(l: seq<Block>, b: Block, r: seq<Block>, lo: nat, hi: nat, i: nat)
    requires Tiles(l + [b] + r, lo, hi) && i < |FreeAddrs(l)|
    ensures lo <= FreeAddrs(l)[i] && FreeAddrs(l)[i] + 8 <= b.addr
  {
    var bs := l + [b] + r;
    var k := FreeIsBlock(l, i);
    assert bs[k] == l[k] && bs[|l|] == b;
    BlocksApart(bs, lo, hi, k, |l|);
    BlockInside(bs, lo, hi, k);
  }

  lemma FreeRight(l: seq<Block>, b: Block, r: seq<Block>, lo: nat, hi: nat, i: nat)
    requires Tiles(l + [b] + r, lo, hi) && i < |FreeAddrs(r)|
    ensures b.addr + Extent(b) <= FreeAddrs(r)[i] && FreeAddrs(r)[i] + 8 <= hi
  {
    var bs := l + [b] + r;
    var k := FreeIsBlock(r, i);
    assert bs[|l| + 1 + k] == r[k] && bs[|l|] == b;
    BlocksApart(bs, lo, hi, |l|, |l| + 1 + k);
    BlockInside(bs, lo, hi, |l| + 1 + k);
  }

  lemma LeftBlocks(l: seq<Block>, b: Block, r: seq<Block>, lo: nat, hi: nat)
    requires Tiles(l + [b] + r, lo, hi)
    ensures forall k :: 0 <= k < |l| ==> l[k].addr < b.addr
    ensures forall k :: 0 <= k < |r| ==> b.addr < r[k].addr
  {
    var bs := l + [b] + r;
    assert bs[|l|] == b;
    forall k | 0 <= k < |l|
      ensures l[k].addr < b.addr
    {
      assert bs[k] == l[k];
      BlocksApart(bs, lo, hi, k, |l|);
    }
    forall k | 0 <= k < |r|
      ensures b.addr < r[k].addr
    {
      assert bs[|l| + 1 + k] == r[k];
      BlocksApart(bs, lo, hi, |l|, |l| + 1 + k);
    }
  }

  /** The ring around the freed block: the free cells before p, p itself, the free cells after. */
  lemma RingAround(h: Arena, l: seq<Block>, b: Block, r: seq<Block>)
    requires Chain(h, FreeAddrs(l + [b] + r), h.basep) && !b.free && FreeAddrs(l) != []
    ensures var fl, fr := FreeAddrs(l), FreeAddrs(r); var p := fl[|fl| - 1];
            fl == fl[..|fl| - 1] + [p] && Chain(h, fl[..|fl| - 1], p) && h.Cell(p) && h.Next(p) == First(fr, h.basep) &&
            Chain(h, fr, h.basep)
  {
    LiveAround(l, b, r);
    var fl, fr := FreeAddrs(l), FreeAddrs(r);
    ChainConcat(h, fl, fr, h.basep);
    var p := fl[|fl| - 1];
    assert fl == fl[..|fl| - 1] + [p];
    ChainConcat(h, fl[..|fl| - 1], [p], First(fr, h.basep));
    ChainOne(h, p, First(fr, h.basep));
  }

  /** The link from the freed block to what follows it on the ring. */
  function Onward(h: Arena, r: seq<Block>, nx: nat): nat
    requires JoinsRight(r) ==> h.Cell(nx)
  {
    if JoinsRight(r) then h.Next(nx) else nx
  }

  /** What `free` writes: b joined rightward, then into p or after it. */
  predicate FreeWrites(h: Arena, h': Arena, l: seq<Block>, b: Block, r: seq<Block>, p: nat, nx: nat) {
    && h.Cell(p) && h.Cell(b.addr) && (JoinsRight(r) ==> h.Cell(nx))
    && Untouched(h, h', {p, b.addr})
    && var m := WithRight(b, r);
       if JoinsLeft(l) then
         h'.Next(p) == Onward(h, r, nx) && h'.Size(p) == l[|l| - 1].size + m.size
       else
         h'.Next(p) == b.addr && h'.Size(p) == h.Size(p) && h'.Next(b.addr) == Onward(h, r, nx) && h'.Size(b.addr) == m.size
  }

  /** The parts of a ring put together. */
  lemma RingOf(h: Arena, before: seq<nat>, p: nat, mid: seq<nat>, after: seq<nat>, end: nat)
    requires Chain(h, before, p) && h.Cell(p) && h.Next(p) == First(mid, First(after, end))
    requires Chain(h, mid, First(after, end)) && Chain(h, after, end)
    ensures Chain(h, before + [p] + mid + after, end)
  {
    ChainOne(h, p, First(mid, First(after, end)));
    ChainConcat(h, [p], mid, First(after, end));
    assert First([p] + mid, First(after, end)) == p;
    ChainConcat(h, before, [p] + mid, First(after, end));
    assert before + [p] + mid == before + ([p] + mid);
    ChainConcat(h, before + [p] + mid, after, end);
  }

  /** The free cells on either side of the freed block are apart from the two cells written. */
  lemma SidesApart(l: seq<Block>, b: Block, r: seq<Block>, lo: nat, hi: nat)
    requires Tiles(l + [b] + r, lo, hi) && FreeAddrs(l) != []
    ensures var fl, fr := FreeAddrs(l), FreeAddrs(r); var p := fl[|fl| - 1];
            p < b.addr && (forall i :: 0 <= i < |fl| - 1 ==> fl[i] < p) && (forall i :: 0 <= i < |fr| ==> b.addr < fr[i])
  {
    var fl, fr := FreeAddrs(l), FreeAddrs(r);
    FreeLeft(l, b, r, lo, hi, |fl| - 1);
    forall i | 0 <= i < |fl| - 1
      ensures fl[i] < fl[|fl| - 1]
    {
      FreeRisingLeft(l, b, r, lo, hi, i, |fl| - 1);
    }
    forall i | 0 <= i < |fr|
      ensures b.addr < fr[i]
    {
      FreeRight(l, b, r, lo, hi, i);
    }
  }

  /** The links on either side survive the writes. */
  lemma SidesKept(h: Arena, h': Arena, l: seq<Block>, b: Block, r: seq<Block>, brk: nat, p: nat)
    requires Tiles(l + [b] + r, h.basep, brk) && !b.free && h.Cell(b.addr)
    requires Chain(h, FreeAddrs(l + [b] + r), h.basep)
    requires FreeAddrs(l) != [] && p == FreeAddrs(l)[|FreeAddrs(l)| - 1] && Untouched(h, h', {p, b.addr})
    ensures var fl, fr := FreeAddrs(l), FreeAddrs(r);
            Chain(h', fl[..|fl| - 1], p) && Chain(h', fr, h.basep) && h.Cell(p) &&
            fl == fl[..|fl| - 1] + [p] && h.Next(p) == First(fr, h.basep) && Chain(h, fr, h.basep)
  {
    hide FreeAddrs, Tiles;
    RingAround(h, l, b, r);
    SidesApart(l, b, r, h.basep, brk);
    var fl, fr := FreeAddrs(l), FreeAddrs(r);
    ChainKept(h, h', {p, b.addr}, fl[..|fl| - 1], p);
    ChainKept(h, h', {p, b.addr}, fr, h.basep);
  }

  lemma ReleasedRing(h: Arena, h': Arena, l: seq<Block>, b: Block, r: seq<Block>, brk: nat, p: nat)
    requires Shape(l + [b] + r, h.basep, brk) && l != [] && !b.free
    requires Chain(h, FreeAddrs(l + [b] + r), h.basep)
    requires FreeAddrs(l) != [] && p == FreeAddrs(l)[|FreeAddrs(l)| - 1]
    requires FreeWrites(h, h', l, b, r, p, First(FreeAddrs(r), h.basep))
    ensures Chain(h', FreeAddrs(Released(l, b, r)), h.basep)
  {
    hide Shape, Released, WithRight, FreeAddrs, Untouched;
    ShapeTiles(l + [b] + r, h.basep, brk);
    ReleasedFree(l, b, r);
    SidesKept(h, h', l, b, r, brk, p);
    CellsStay(h, h', {p, b.addr}, p);
    CellsStay(h, h', {p, b.addr}, b.addr);
    var fl, fr := FreeAddrs(l), FreeAddrs(r);
    var fl0 := fl[..|fl| - 1];
    var fr' := if JoinsRight(r) then fr[1..] else fr;
    if JoinsLeft(l) {
      RingOf(h', fl0, p, [], fr', h.basep);
      assert fl0 + [p] + [] == fl;
    } else {
      ChainOne(h', b.addr, First(fr', h.basep));
      RingOf(h', fl0, p, [b.addr], fr', h.basep);
    }
  }

  lemma CellsStay(h: Arena, h': Arena, cells: set<nat>, a: nat)
    requires Untouched(h, h', cells) && h.Cell(a)
    ensures h'.Cell(a)
  {
  }

  lemma ShapeTiles(bs: seq<Block>, basep: nat, brk: nat)
    requires Shape(bs, basep, brk)
    ensures Tiles(bs, basep, brk)
  {
  }

  lemma FreeRisingLeft(l: seq<Block>, b: Block, r: seq<Block>, lo: nat, hi: nat, i: nat, j: nat)
    requires Tiles(l + [b] + r, lo, hi) && i < j < |FreeAddrs(l)|
    ensures FreeAddrs(l)[i] + 8 <= FreeAddrs(l)[j]
  {
    TilesAround(l, [b], r, lo, hi);
    FreeRising(l, lo, EndOf(l, lo), i, j);
  }

  lemma LeftSizes(h: Arena, h': Arena, l: seq<Block>, b: Block, r: seq<Block>, brk: nat, p: nat)
    requires Tiles(l + [b] + r, h.basep, brk) && JoinsLeft(l) && h.Cell(p) && h.Cell(b.addr)
    requires Sizes(h, l) && p == l[|l| - 1].addr && Untouched(h, h', {p, b.addr})
    requires h'.Cell(p) && h'.Size(p) == l[|l| - 1].size + WithRight(b, r).size
    ensures var last := l[|l| - 1];
            Sizes(h', l[..|l| - 1] + [Block(last.addr, last.size + WithRight(b, r).size, true)])
  {
    hide Tiles, Untouched, WithRight;
    LeftBlocks(l, b, r, h.basep, brk);
    LastApart(l, b, r, h.basep, brk);
    SplitLast(l);
    var l0, last := l[..|l| - 1], l[|l| - 1];
    SizesConcat(h, l0, [last]);
    SizesKept(h, h', {p, b.addr}, l0);
    var m := Block(last.addr, last.size + WithRight(b, r).size, true);
    SizesOne(h', m);
    SizesConcat(h', l0, [m]);
  }

  lemma ReleasedSizes(h: Arena, h': Arena, l: seq<Block>, b: Block, r: seq<Block>, brk: nat, p: nat)
    requires Shape(l + [b] + r, h.basep, brk) && l != [] && !b.free
    requires Sizes(h, l + [b] + r)
    requires FreeAddrs(l) != [] && p == FreeAddrs(l)[|FreeAddrs(l)| - 1]
    requires FreeWrites(h, h', l, b, r, p, First(FreeAddrs(r), h.basep))
    ensures Sizes(h', Released(l, b, r))
  {
    hide FreeAddrs, Chain, Untouched, Tiles, Sizes, WithRight, ReadLE;
    ShapeTiles(l + [b] + r, h.basep, brk);
    CellsStay(h, h', {p, b.addr}, p);
    CellsStay(h, h', {p, b.addr}, b.addr);
    SizesConcat(h, l + [b], r);
    SizesConcat(h, l, [b]);
    RightSizes(h, h', l, b, r, brk, p);
    var rest, m := AfterRight(r), WithRight(b, r);
    ReleasedFree(l, b, r);
    if JoinsLeft(l) {
      var last := l[|l| - 1];
      LeftSizes(h, h', l, b, r, brk, p);
      SizesConcat(h', l[..|l| - 1] + [Block(last.addr, last.size + m.size, true)], rest);
    } else {
      WholeLeftSizes(h, h', l, b, r, brk, p);
      SizesOne(h', m);
      RightAddr(b, r);
      SizesConcat(h', l, [m]);
      SizesConcat(h', l + [m], rest);
    }
  }

  lemma RightAddr(b: Block, r: seq<Block>)
    ensures WithRight(b, r).addr == b.addr
  {
  }

  lemma RightSizes(h: Arena, h': Arena, l: seq<Block>, b: Block, r: seq<Block>, brk: nat, p: nat)
    requires Tiles(l + [b] + r, h.basep, brk) && h.Cell(p) && h.Cell(b.addr) && FreeAddrs(l) != []
    requires Sizes(h, r) && p == FreeAddrs(l)[|FreeAddrs(l)| - 1] && Untouched(h, h', {p, b.addr})
    ensures Sizes(h', AfterRight(r))
  {
    hide Tiles, Untouched, FreeAddrs, Sizes, ReadLE;
    LeftBlocks(l, b, r, h.basep, brk);
    SidesApart(l, b, r, h.basep, brk);
    SizesKept(h, h', {p, b.addr}, r);
    if JoinsRight(r) {
      SplitFirst(r);
      SizesConcat(h', [r[0]], r[1..]);
    }
  }

  lemma WholeLeftSizes(h: Arena, h': Arena, l: seq<Block>, b: Block, r: seq<Block>, brk: nat, p: nat)
    requires Tiles(l + [b] + r, h.basep, brk) && h.Cell(p) && h.Cell(b.addr)
    requires Sizes(h, l) && Untouched(h, h', {p, b.addr}) && h'.Cell(p) && h'.Size(p) == h.Size(p)
    ensures Sizes(h', l)
  {
    hide Tiles, Untouched;
    LeftBlocks(l, b, r, h.basep, brk);
    SizesKept(h, h', {p, b.addr}, l);
  }

  lemma LastApart(l: seq<Block>, b: Block, r: seq<Block>, lo: nat, hi: nat)
    requires Tiles(l + [b] + r, lo, hi) && l != []
    ensures forall k :: 0 <= k < |l| - 1 ==> l[k].addr < l[|l| - 1].addr
  {
    TilesAround(l, [b], r, lo, hi);
    forall k | 0 <= k < |l| - 1
      ensures l[k].addr < l[|l| - 1].addr
    {
      BlocksApart(l, lo, EndOf(l, lo), k, |l| - 1);
    }
  }

  /** After `free`'s writes the bytes hold the released blocks. */
  lemma ReleasedHolds(h: Arena, h': Arena, l: seq<Block>, b: Block, r: seq<Block>, brk: nat, p: nat)
    requires Shape(l + [b] + r, h.basep, brk) && l != [] && !b.free
    requires Holds(h, l + [b] + r)
    requires FreeAddrs(l) != [] && p == FreeAddrs(l)[|FreeAddrs(l)| - 1]
    requires FreeWrites(h, h', l, b, r, p, First(FreeAddrs(r), h.basep))
    ensures Holds(h', Released(l, b, r))
  {
    ReleasedRing(h, h', l, b, r, brk, p);
    ReleasedSizes(h, h', l, b, r, brk, p);
  }

  // ---- handing out ----

  /** The ring around a free block: the cells before it, the block, the cells after. */
  lemma RingAt(h: Arena, l: seq<Block>, b: Block, r: seq<Block>)
    requires Chain(h, FreeAddrs(l + [b] + r), h.basep) && b.free && FreeAddrs(l) != []
    ensures var fl, fr := FreeAddrs(l), FreeAddrs(r); var prev := fl[|fl| - 1];
            fl == fl[..|fl| - 1] + [prev] && Chain(h, fl[..|fl| - 1], prev) && h.Cell(prev) && h.Next(prev) == b.addr &&
            h.Cell(b.addr) && h.Next(b.addr) == First(fr, h.basep) && Chain(h, fr, h.basep) && Chain(h, fl, b.addr)
  {
    FreeAround(l, [b], r);
    FreeOne(b);
    var fl, fr := FreeAddrs(l), FreeAddrs(r);
    ChainConcat(h, fl + [b.addr], fr, h.basep);
    ChainConcat(h, fl, [b.addr], First(fr, h.basep));
    ChainOne(h, b.addr, First(fr, h.basep));
    var prev := fl[|fl| - 1];
    assert fl == fl[..|fl| - 1] + [prev];
    ChainConcat(h, fl[..|fl| - 1], [prev], b.addr);
    ChainOne(h, prev, b.addr);
  }

  /** What taking a whole free block writes: its predecessor's link skips it. */
  predicate TakeWrites(h: Arena, h': Arena, b: Block, prev: nat) {
    h.Cell(prev) && h.Cell(b.addr) && Untouched(h, h', {prev}) &&
    h'.Next(prev) == h.Next(b.addr) && h'.Size(prev) == h.Size(prev)
  }

  lemma TakenRing(h: Arena, h': Arena, l: seq<Block>, b: Block, r: seq<Block>, brk: nat, prev: nat)
    requires Tiles(l + [b] + r, h.basep, brk) && b.free && Chain(h, FreeAddrs(l + [b] + r), h.basep)
    requires FreeAddrs(l) != [] && prev == FreeAddrs(l)[|FreeAddrs(l)| - 1] && TakeWrites(h, h', b, prev)
    ensures Chain(h', FreeAddrs(Carved(l, b, r, b.size)), h.basep)
  {
    hide FreeAddrs, Tiles, Carved;
    RingAt(h, l, b, r);
    SidesApart(l, b, r, h.basep, brk);
    CarvedFree(l, b, r, b.size);
    var fl, fr := FreeAddrs(l), FreeAddrs(r);
    ChainKept(h, h', {prev}, fl[..|fl| - 1], prev);
    ChainKept(h, h', {prev}, fr, h.basep);
    RingOf(h', fl[..|fl| - 1], prev, [], fr, h.basep);
    assert fl[..|fl| - 1] + [prev] + [] == fl;
  }

  lemma TakenHolds(h: Arena, h': Arena, l: seq<Block>, b: Block, r: seq<Block>, brk: nat, prev: nat)
    requires Tiles(l + [b] + r, h.basep, brk) && b.free && Holds(h, l + [b] + r)
    requires FreeAddrs(l) != [] && prev == FreeAddrs(l)[|FreeAddrs(l)| - 1] && TakeWrites(h, h', b, prev)
    ensures Holds(h', Carved(l, b, r, b.size))
  {
    hide Chain, Tiles;
    TakenRing(h, h', l, b, r, brk, prev);
    SizesKept(h, h', {prev}, l + [b] + r);
    SizesConcat(h', l + [b], r);
    SizesConcat(h', l, [b]);
    SizesOne(h', b);
    SizesOne(h', b.(free := false));
    SizesConcat(h', l, [b.(free := false)]);
    SizesConcat(h', l + [b.(free := false)], r);
  }

  function TailOf(b: Block, units: nat): nat
    requires units <= b.size
  {
    b.addr + 8 * (b.size - units)
  }

  /** What splitting a free block writes: its own size and the tail's. */
  predicate SplitWrites(h: Arena, h': Arena, b: Block, units: nat)
    requires units <= b.size
  {
    var tail := TailOf(b, units);
    h.Cell(b.addr) && h.Cell(tail) && Untouched(h, h', {b.addr, tail}) &&
    h'.Next(b.addr) == h.Next(b.addr) && h'.Size(b.addr) == b.size - units && h'.Size(tail) == units
  }

  lemma SplitRing(h: Arena, h': Arena, l: seq<Block>, b: Block, r: seq<Block>, units: nat, brk: nat)
    requires Tiles(l + [b] + r, h.basep, brk) && b.free && 1 <= units < b.size && Chain(h, FreeAddrs(l + [b] + r), h.basep)
    requires FreeAddrs(l) != [] && SplitWrites(h, h', b, units)
    ensures Chain(h', FreeAddrs(Carved(l, b, r, units)), h.basep)
  {
    hide FreeAddrs, Tiles, Carved, Untouched, Chain, ReadLE;
    RingAt(h, l, b, r);
    SplitApart(l, b, r, units, h.basep, brk);
    CarvedFree(l, b, r, units);
    var fl, fr := FreeAddrs(l), FreeAddrs(r);
    var cells := {b.addr, TailOf(b, units)};
    CellsStay(h, h', cells, b.addr);
    ChainKept(h, h', cells, fl, b.addr);
    ChainKept(h, h', cells, fr, h.basep);
    ChainNone(h', First(fr, h.basep));
    RingOf(h', fl, b.addr, [], fr, h.basep);
    assert fl + [b.addr] + [] == fl + [b.addr];
  }

  lemma ChainNone(h: Arena, end: nat)
    ensures Chain(h, [], end)
  {
  }

  lemma SplitApart(l: seq<Block>, b: Block, r: seq<Block>, units: nat, lo: nat, hi: nat)
    requires Tiles(l + [b] + r, lo, hi) && FreeAddrs(l) != [] && 1 <= units < b.size
    ensures var cells := {b.addr, TailOf(b, units)};
            (forall i :: 0 <= i < |FreeAddrs(l)| ==> FreeAddrs(l)[i] !in cells) &&
            (forall i :: 0 <= i < |FreeAddrs(r)| ==> FreeAddrs(r)[i] !in cells)
    ensures var cells := {b.addr, TailOf(b, units)};
            (forall k :: 0 <= k < |l| ==> l[k].addr !in cells) && (forall k :: 0 <= k < |r| ==> r[k].addr !in cells)
  {
    hide FreeAddrs, Tiles;
    forall i | 0 <= i < |FreeAddrs(l)|
      ensures FreeAddrs(l)[i] < b.addr
    {
      FreeLeft(l, b, r, lo, hi, i);
    }
    forall i | 0 <= i < |FreeAddrs(r)|
      ensures b.addr + Extent(b) <= FreeAddrs(r)[i]
    {
      FreeRight(l, b, r, lo, hi, i);
    }
    LeftBlocks(l, b, r, lo, hi);
    RightBeyond(l, b, r, lo, hi);
  }

  lemma SplitSizes(h: Arena, h': Arena, l: seq<Block>, b: Block, r: seq<Block>, units: nat, brk: nat)
    requires Tiles(l + [b] + r, h.basep, brk) && 1 <= units < b.size && Sizes(h, l + [b] + r)
    requires FreeAddrs(l) != [] && SplitWrites(h, h', b, units)
    ensures Sizes(h', l) && Sizes(h', r)
    ensures Sizes(h', [b.(size := b.size - units), Block(TailOf(b, units), units, false)])
  {
    hide Tiles, Untouched, FreeAddrs, ReadLE;
    SplitApart(l, b, r, units, h.basep, brk);
    var cells := {b.addr, TailOf(b, units)};
    CellsStay(h, h', cells, b.addr);
    CellsStay(h, h', cells, TailOf(b, units));
    SizesConcat(h, l + [b], r);
    SizesConcat(h, l, [b]);
    SizesKept(h, h', cells, l);
    SizesKept(h, h', cells, r);
  }

  lemma SplitHolds(h: Arena, h': Arena, l: seq<Block>, b: Block, r: seq<Block>, units: nat, brk: nat)
    requires Tiles(l + [b] + r, h.basep, brk) && b.free && 1 <= units < b.size && Holds(h, l + [b] + r)
    requires FreeAddrs(l) != [] && SplitWrites(h, h', b, units)
    ensures Holds(h', Carved(l, b, r, units))
  {
    hide Chain, Tiles, Sizes, SplitWrites, FreeAddrs;
    SplitRing(h, h', l, b, r, units, brk);
    SplitSizes(h, h', l, b, r, units, brk);
    SplitBase(h, h', b, units);
    var xy := [b.(size := b.size - units), Block(TailOf(b, units), units, false)];
    SizesConcat(h', l, xy);
    SizesConcat(h', l + xy, r);
  }

  lemma SplitBase(h: Arena, h': Arena, b: Block, units: nat)
    requires units <= b.size && SplitWrites(h, h', b, units)
    ensures h'.basep == h.basep
  {
  }

  lemma RightBeyond(l: seq<Block>, b: Block, r: seq<Block>, lo: nat, hi: nat)
    requires Tiles(l + [b] + r, lo, hi)
    ensures forall k :: 0 <= k < |r| ==> b.addr + Extent(b) <= r[k].addr
  {
    var bs := l + [b] + r;
    assert bs[|l|] == b;
    forall k | 0 <= k < |r|
      ensures b.addr + Extent(b) <= r[k].addr
    {
      assert bs[|l| + 1 + k] == r[k];
      BlocksApart(bs, lo, hi, |l|, |l| + 1 + k);
    }
  }

  // ---- growing ----

  /** A size word at the end of the arena makes a new live block there. */
  lemma GrownHolds(h: Arena, h': Arena, bs: seq<Block>, brk: nat, units: nat)
    requires Tiles(bs, h.basep, brk) && Holds(h, bs) && h.Cell(brk) && Untouched(h, h', {brk})
    requires h'.Cell(brk) && h'.Size(brk) == units
    ensures Holds(h', bs + [Block(brk, units, false)])
  {
    hide Tiles, FreeAddrs, Untouched, ReadLE, Chain;
    var b := Block(brk, units, false);
    BelowEnd(bs, h.basep, brk);
    SizesKept(h, h', {brk}, bs);
    SizesOne(h', b);
    SizesConcat(h', bs, [b]);
    ChainKept(h, h', {brk}, FreeAddrs(bs), h.basep);
    FreeConcat(bs, [b]);
    FreeOne(b);
    assert FreeAddrs(bs) + [] == FreeAddrs(bs);
    UntouchedBase(h, h', {brk});
  }

  lemma UntouchedBase(h: Arena, h': Arena, cells: set<nat>)
    requires Untouched(h, h', cells)
    ensures h'.basep == h.basep
  {
  }

  lemma BelowEnd(bs: seq<Block>, lo: nat, hi: nat)
    requires Tiles(bs, lo, hi)
    ensures forall k :: 0 <= k < |bs| ==> bs[k].addr < hi
    ensures forall i :: 0 <= i < |FreeAddrs(bs)| ==> FreeAddrs(bs)[i] < hi
  {
    forall k | 0 <= k < |bs|
      ensures bs[k].addr < hi
    {
      BlockInside(bs, lo, hi, k);
    }
    forall i | 0 <= i < |FreeAddrs(bs)|
      ensures FreeAddrs(bs)[i] < hi
    {
      FreeInside(bs, lo, hi, i);
    }
  }
}
