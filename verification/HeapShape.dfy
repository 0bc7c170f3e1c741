/** The shape of the guest heap: blocks that tile the arena, and the addresses of the free ones. */
module HeapShape {

  /** A header and the bytes after it; `size` counts units of 8 bytes, header included. The
      anchor at the bottom of the arena has size 0 and is never handed out. */
  datatype Block = Block(addr: nat, size: nat, free: bool)

  /** Bytes a block occupies: the anchor is one bare header. */
  function Extent(b: Block): nat {
    if b.size == 0 then 8 else 8 * b.size
  }

  function EndOf(bs: seq<Block>, lo: nat): nat {
    if bs == [] then lo else EndOf(bs[1..], lo + Extent(bs[0]))
  }

  /** The blocks lie end to end from lo to hi. */
  predicate Tiles(bs: seq<Block>, lo: nat, hi: nat) {
    if bs == [] then lo == hi else bs[0].addr == lo && Tiles(bs[1..], lo + Extent(bs[0]), hi)
  }

  function FreeAddrs(bs: seq<Block>): seq<nat> {
    if bs == [] then [] else (if bs[0].free then [bs[0].addr] else []) + FreeAddrs(bs[1..])
  }

  /** No two free blocks touch; only the anchor may touch one. */
  predicate Coalesced(bs: seq<Block>) {
    forall k {:trigger bs[k]} :: 1 <= k < |bs| - 1 ==> !(bs[k].free && bs[k + 1].free)
  }

  predicate Shape(bs: seq<Block>, basep: nat, brk: nat) {
    && bs != [] && bs[0] == Block(basep, 0, true)
    && Sized(bs)
    && Tiles(bs, basep, brk)
    && Coalesced(bs)
  }

  // ---- tiling ----

  lemma {:induction false} TilesConcat(a: seq<Block>, b: seq<Block>, lo: nat, hi: nat)
    ensures Tiles(a + b, lo, hi) <==> Tiles(a, lo, EndOf(a, lo)) && Tiles(b, EndOf(a, lo), hi)
    decreases |a|
  {
    if a == [] {
      assert a + b == b;
    } else {
      assert (a + b)[1..] == a[1..] + b;
      TilesConcat(a[1..], b, lo + Extent(a[0]), hi);
    }
  }

  lemma {:induction false} TilesEnd(bs: seq<Block>, lo: nat, hi: nat)
    requires Tiles(bs, lo, hi)
    ensures EndOf(bs, lo) == hi && lo <= hi
    ensures bs != [] ==> lo + 8 <= hi
    decreases |bs|
  {
    if bs != [] {
      TilesEnd(bs[1..], lo + Extent(bs[0]), hi);
    }
  }

  lemma {:induction false} EndConcat(a: seq<Block>, b: seq<Block>, lo: nat)
    ensures EndOf(a + b, lo) == EndOf(b, EndOf(a, lo))
    decreases |a|
  {
    if a == [] {
      assert a + b == b;
    } else {
      assert (a + b)[1..] == a[1..] + b;
      EndConcat(a[1..], b, lo + Extent(a[0]));
    }
  }

  /** A block lies inside the arena, on its own 8-byte grid. */
  lemma {:induction false} BlockInside(bs: seq<Block>, lo: nat, hi: nat, k: nat)
    requires Tiles(bs, lo, hi) && k < |bs|
    ensures lo <= bs[k].addr && bs[k].addr + Extent(bs[k]) <= hi && (bs[k].addr - lo) % 8 == 0
    decreases k
  {
    TilesEnd(bs[1..], lo + Extent(bs[0]), hi);
    if k > 0 {
      BlockInside(bs[1..], lo + Extent(bs[0]), hi, k - 1);
      OnGrid(bs[k].addr - lo - Extent(bs[0]), Extent(bs[0]));
    }
  }

  lemma OnGrid(a: int, e: int)
    requires a % 8 == 0 && e % 8 == 0
    ensures (a + e) % 8 == 0
  {
  }

  /** Blocks are pairwise disjoint, in address order. */
  lemma {:induction false} BlocksApart(bs: seq<Block>, lo: nat, hi: nat, j: nat, k: nat)
    requires Tiles(bs, lo, hi) && j < k < |bs|
    ensures bs[j].addr + Extent(bs[j]) <= bs[k].addr
    decreases j
  {
    if j == 0 {
      BlockInside(bs[1..], lo + Extent(bs[0]), hi, k - 1);
    } else {
      BlocksApart(bs[1..], lo + Extent(bs[0]), hi, j - 1, k - 1);
    }
  }

  // ---- conservation ----

  function Units(bs: seq<Block>, free: bool): nat {
    if bs == [] then 0 else (if bs[0].free == free then bs[0].size else 0) + Units(bs[1..], free)
  }

  lemma {:induction false} UnitsFill(bs: seq<Block>, lo: nat, hi: nat)
    requires Tiles(bs, lo, hi) && forall k :: 0 <= k < |bs| ==> bs[k].size >= 1
    ensures hi - lo == 8 * (Units(bs, true) + Units(bs, false))
    decreases |bs|
  {
    if bs != [] {
      assert forall k :: 0 <= k < |bs[1..]| ==> bs[1..][k] == bs[k + 1];
      UnitsFill(bs[1..], lo + Extent(bs[0]), hi);
    }
  }

  /** Nothing is lost: the anchor's unit, the free units and the live units make up the arena. */
  lemma Conservation(bs: seq<Block>, basep: nat, brk: nat)
    requires Shape(bs, basep, brk)
    ensures brk - basep == 8 * (1 + Units(bs, true) + Units(bs, false))
  {
    assert forall k :: 0 <= k < |bs[1..]| ==> bs[1..][k] == bs[k + 1];
    UnitsFill(bs[1..], basep + 8, brk);
  }

  // ---- the free addresses ----

  lemma NatAssoc(a: seq<nat>, b: seq<nat>, c: seq<nat>)
    ensures (a + b) + c == a + (b + c)
  {
  }

  lemma {:induction false} FreeConcat(a: seq<Block>, b: seq<Block>)
    ensures FreeAddrs(a + b) == FreeAddrs(a) + FreeAddrs(b)
    decreases |a|
  {
    if a == [] {
      assert a + b == b;
      assert [] + FreeAddrs(b) == FreeAddrs(b);
    } else {
      assert (a + b)[1..] == a[1..] + b;
      FreeConcat(a[1..], b);
      NatAssoc(if a[0].free then [a[0].addr] else [], FreeAddrs(a[1..]), FreeAddrs(b));
    }
  }

  /** The free addresses lie in the arena. */
  lemma {:induction false} FreeInside(bs: seq<Block>, lo: nat, hi: nat, i: nat)
    requires Tiles(bs, lo, hi) && i < |FreeAddrs(bs)|
    ensures lo <= FreeAddrs(bs)[i] && FreeAddrs(bs)[i] + 8 <= hi
    decreases |bs|
  {
    TilesEnd(bs[1..], lo + Extent(bs[0]), hi);
    var first := if bs[0].free then 1 else 0;
    if i >= first {
      FreeInside(bs[1..], lo + Extent(bs[0]), hi, i - first);
    }
  }

  /** They strictly rise. */
  lemma {:induction false} FreeRising(bs: seq<Block>, lo: nat, hi: nat, i: nat, j: nat)
    requires Tiles(bs, lo, hi) && i < j < |FreeAddrs(bs)|
    ensures FreeAddrs(bs)[i] + 8 <= FreeAddrs(bs)[j]
    decreases |bs|
  {
    var first := if bs[0].free then 1 else 0;
    if i >= first {
      FreeRising(bs[1..], lo + Extent(bs[0]), hi, i - first, j - first);
    } else {
      FreeInside(bs[1..], lo + Extent(bs[0]), hi, j - first);
    }
  }

  /** Each is the address of a free block. */
  lemma {:induction false} FreeIsBlock(bs: seq<Block>, i: nat) returns (k: nat)
    requires i < |FreeAddrs(bs)|
    ensures k < |bs| && bs[k].free && bs[k].addr == FreeAddrs(bs)[i] && |FreeAddrs(bs[..k])| == i
    decreases |bs|
  {
    var first := if bs[0].free then 1 else 0;
    if i < first {
      k := 0;
    } else {
      var k' := FreeIsBlock(bs[1..], i - first);
      k := k' + 1;
      assert bs[..k][1..] == bs[1..][..k'];
    }
  }

  lemma {:induction false} BlockIsFree(bs: seq<Block>, k: nat)
    requires k < |bs| && bs[k].free
    ensures |FreeAddrs(bs[..k])| < |FreeAddrs(bs)| && FreeAddrs(bs)[|FreeAddrs(bs[..k])|] == bs[k].addr
  {
    assert bs == bs[..k] + bs[k..];
    FreeConcat(bs[..k], bs[k..]);
  }

  // ---- what the operations do to the blocks ----

  predicate JoinsRight(r: seq<Block>) {
    r != [] && r[0].free
  }

  /** The anchor never joins. */
  predicate JoinsLeft(l: seq<Block>) {
    |l| > 1 && l[|l| - 1].free
  }

  /** The freed block, joined with a free block right after it. */
  function WithRight(b: Block, r: seq<Block>): Block {
    Block(b.addr, if JoinsRight(r) then b.size + r[0].size else b.size, true)
  }

  function AfterRight(r: seq<Block>): seq<Block> {
    if JoinsRight(r) then r[1..] else r
  }

  /** Block b between l and r is freed: joined with a free neighbour on either side. */
  function Released(l: seq<Block>, b: Block, r: seq<Block>): seq<Block> {
    var m := WithRight(b, r);
    if JoinsLeft(l) then
      var last := l[|l| - 1];
      l[..|l| - 1] + [Block(last.addr, last.size + m.size, true)] + AfterRight(r)
    else l + [m] + AfterRight(r)
  }

  /** Free block b is handed out, whole or from its tail. */
  function Carved(l: seq<Block>, b: Block, r: seq<Block>, units: nat): seq<Block>
    requires units <= b.size
  {
    if b.size == units then l + [b.(free := false)] + r
    else l + [b.(size := b.size - units), Block(b.addr + 8 * (b.size - units), units, false)] + r
  }

  lemma TilesAround(l: seq<Block>, m: seq<Block>, r: seq<Block>, lo: nat, hi: nat)
    ensures Tiles(l + m + r, lo, hi) <==>
            Tiles(l, lo, EndOf(l, lo)) && Tiles(m, EndOf(l, lo), EndOf(m, EndOf(l, lo))) && Tiles(r, EndOf(m, EndOf(l, lo)), hi)
  {
    TilesConcat(l + m, r, lo, hi);
    TilesConcat(l, m, lo, EndOf(l + m, lo));
    EndConcat(l, m, lo);
  }

  lemma FreeAround(l: seq<Block>, m: seq<Block>, r: seq<Block>)
    ensures FreeAddrs(l + m + r) == FreeAddrs(l) + FreeAddrs(m) + FreeAddrs(r)
  {
    FreeConcat(l + m, r);
    FreeConcat(l, m);
  }

  lemma {:induction false} UnitsConcat(a: seq<Block>, b: seq<Block>, free: bool)
    ensures Units(a + b, free) == Units(a, free) + Units(b, free)
    decreases |a|
  {
    if a == [] {
      assert a + b == b;
    } else {
      assert (a + b)[1..] == a[1..] + b;
      UnitsConcat(a[1..], b, free);
    }
  }

  lemma UnitsAround(l: seq<Block>, m: seq<Block>, r: seq<Block>, free: bool)
    ensures Units(l + m + r, free) == Units(l, free) + Units(m, free) + Units(r, free)
  {
    UnitsConcat(l + m, r, free);
    UnitsConcat(l, m, free);
  }

  lemma SplitLast(l: seq<Block>)
    requires l != []
    ensures l == l[..|l| - 1] + [l[|l| - 1]]
  {
  }

  lemma SplitFirst(r: seq<Block>)
    requires r != []
    ensures r == [r[0]] + r[1..]
  {
  }

  lemma Tiles2(x: Block, y: Block, lo: nat, hi: nat)
    ensures Tiles([x, y], lo, hi) <==> x.addr == lo && y.addr == lo + Extent(x) && hi == y.addr + Extent(y)
    ensures EndOf([x, y], lo) == lo + Extent(x) + Extent(y)
  {
    assert [x, y][1..] == [y];
    Tiles1(y, lo + Extent(x), hi);
  }

  lemma Tiles1(x: Block, lo: nat, hi: nat)
    ensures Tiles([x], lo, hi) <==> x.addr == lo && hi == lo + Extent(x)
    ensures EndOf([x], lo) == lo + Extent(x)
  {
    assert [x][1..] == [];
  }

  /** Replacing a run of blocks by another of the same span keeps the tiling. */
  lemma TilesSwap(l: seq<Block>, m: seq<Block>, m': seq<Block>, r: seq<Block>, lo: nat, hi: nat)
    requires Tiles(l + m + r, lo, hi)
    requires var s := EndOf(l, lo); Tiles(m', s, EndOf(m, s))
    ensures Tiles(l + m' + r, lo, hi)
  {
    var s := EndOf(l, lo);
    TilesAround(l, m, r, lo, hi);
    TilesEnd(m', s, EndOf(m, s));
    TilesAround(l, m', r, lo, hi);
  }

  /** Freeing keeps the tiling. */
  lemma ReleasedTiles(l: seq<Block>, b: Block, r: seq<Block>, lo: nat, hi: nat)
    requires Tiles(l + [b] + r, lo, hi) && b.size >= 1
    requires JoinsRight(r) ==> r[0].size >= 1
    requires JoinsLeft(l) ==> l[|l| - 1].size >= 1
    ensures Tiles(Released(l, b, r), lo, hi)
  {
    var m, rest := WithRight(b, r), AfterRight(r);
    if JoinsRight(r) {
      SplitFirst(r);
      assert l + [b] + r == l + [b, r[0]] + rest;
      JoinSpans(l, b, r[0], rest, lo, hi);
    } else {
      TilesAround(l, [b], r, lo, hi);
      Tiles1(b, EndOf(l, lo), EndOf([b], EndOf(l, lo)));
      TilesSwap(l, [b], [m], r, lo, hi);
      Tiles1(m, EndOf(l, lo), EndOf([b], EndOf(l, lo)));
    }
    assert Tiles(l + [m] + rest, lo, hi);
    if JoinsLeft(l) {
      SplitLast(l);
      var l0, last := l[..|l| - 1], l[|l| - 1];
      assert l + [m] + rest == l0 + [last, m] + rest;
      JoinSpans(l0, last, m, rest, lo, hi);
    }
  }

  /** Two neighbours joined span what they spanned. */
  lemma JoinSpans(l: seq<Block>, x: Block, y: Block, r: seq<Block>, lo: nat, hi: nat)
    requires Tiles(l + [x, y] + r, lo, hi) && x.size >= 1 && y.size >= 1
    ensures Tiles(l + [Block(x.addr, x.size + y.size, true)] + r, lo, hi)
    ensures y.addr == x.addr + 8 * x.size
  {
    var s := EndOf(l, lo);
    TilesAround(l, [x, y], r, lo, hi);
    Tiles2(x, y, s, EndOf([x, y], s));
    Tiles1(Block(x.addr, x.size + y.size, true), s, EndOf([x, y], s));
    TilesSwap(l, [x, y], [Block(x.addr, x.size + y.size, true)], r, lo, hi);
  }

  lemma CoalescedParts(l: seq<Block>, b: Block, r: seq<Block>)
    requires Coalesced(l + [b] + r) && l != []
    ensures Coalesced(l) && (|l| > 1 && l[|l| - 1].free ==> !b.free)
    ensures (b.free ==> !JoinsRight(r)) && (forall k {:trigger r[k]} :: 0 <= k < |r| - 1 ==> !(r[k].free && r[k + 1].free))
  {
    var bs := l + [b] + r;
    assert bs[|l|] == b;
    assert forall k :: 0 <= k < |l| ==> bs[k] == l[k];
    assert forall k :: 0 <= k < |r| ==> bs[|l| + 1 + k] == r[k];
    forall k | 0 <= k < |r| - 1
      ensures !(r[k].free && r[k + 1].free)
    {
      assert !(bs[|l| + 1 + k].free && bs[|l| + 2 + k].free);
    }
  }

  lemma CoalescedJoin(l: seq<Block>, b: Block, r: seq<Block>)
    requires Coalesced(l) && l != [] && (b.free ==> !JoinsLeft(l) && !JoinsRight(r))
    requires forall k {:trigger r[k]} :: 0 <= k < |r| - 1 ==> !(r[k].free && r[k + 1].free)
    ensures Coalesced(l + [b] + r)
  {
    var bs := l + [b] + r;
    forall k | 1 <= k < |bs| - 1
      ensures !(bs[k].free && bs[k + 1].free)
    {
      if k < |l| - 1 {
        assert bs[k] == l[k] && bs[k + 1] == l[k + 1];
      } else if k > |l| {
        assert bs[k] == r[k - |l| - 1] && bs[k + 1] == r[k - |l| - 1 + 1];
      }
    }
  }

  /** Every block but the anchor has at least a unit. */
  predicate Sized(bs: seq<Block>) {
    forall k :: 1 <= k < |bs| ==> bs[k].size >= 1
  }

  lemma ReleasedCoalesced(l: seq<Block>, b: Block, r: seq<Block>)
    requires Coalesced(l + [b] + r) && l != [] && !b.free
    ensures Coalesced(Released(l, b, r))
  {
    CoalescedParts(l, b, r);
    var m, rest := WithRight(b, r), AfterRight(r);
    RestCoalesced(r);
    if JoinsLeft(l) {
      var l0, last := l[..|l| - 1], l[|l| - 1];
      BeforeLast(l);
      CoalescedJoin(l0, Block(last.addr, last.size + m.size, true), rest);
    } else {
      CoalescedJoin(l, m, rest);
    }
  }

  lemma RestCoalesced(r: seq<Block>)
    requires forall k {:trigger r[k]} :: 0 <= k < |r| - 1 ==> !(r[k].free && r[k + 1].free)
    ensures var rest := AfterRight(r);
            !JoinsRight(rest) && forall k {:trigger rest[k]} :: 0 <= k < |rest| - 1 ==> !(rest[k].free && rest[k + 1].free)
  {
    var rest := AfterRight(r);
    if JoinsRight(r) {
      assert |r| > 1 ==> !(r[0].free && r[0 + 1].free);
      forall k | 0 <= k < |rest| - 1
        ensures !(rest[k].free && rest[k + 1].free)
      {
        assert rest[k] == r[k + 1] && rest[k + 1] == r[k + 1 + 1];
      }
    }
  }

  lemma BeforeLast(l: seq<Block>)
    requires Coalesced(l) && JoinsLeft(l)
    ensures Coalesced(l[..|l| - 1]) && !JoinsLeft(l[..|l| - 1])
  {
    var l0 := l[..|l| - 1];
    forall k | 1 <= k < |l0| - 1
      ensures !(l0[k].free && l0[k + 1].free)
    {
      assert l0[k] == l[k] && l0[k + 1] == l[k + 1];
    }
    assert |l0| > 1 ==> l0[|l0| - 1] == l[|l| - 2];
  }

  lemma ReleasedSized(l: seq<Block>, b: Block, r: seq<Block>)
    requires Sized(l + [b] + r) && l != []
    ensures Sized(Released(l, b, r)) && Released(l, b, r) != [] && Released(l, b, r)[0] == l[0]
    ensures b.size >= 1 && (JoinsRight(r) ==> r[0].size >= 1) && (JoinsLeft(l) ==> l[|l| - 1].size >= 1)
  {
    var bs := l + [b] + r;
    assert bs[|l|] == b;
    assert JoinsRight(r) ==> bs[|l| + 1] == r[0];
    assert JoinsLeft(l) ==> bs[|l| - 1] == l[|l| - 1];
    var rs := Released(l, b, r);
    var head := if JoinsLeft(l) then |l| - 1 else |l|;
    assert forall k :: 0 <= k < head ==> rs[k] == bs[k];
    assert forall k :: head < k < |rs| ==> rs[k] == bs[k + (|bs| - |rs|)];
  }

  /** Freeing keeps the shape: tiled, and no two free neighbours touch. */
  lemma ReleasedShape(l: seq<Block>, b: Block, r: seq<Block>, basep: nat, brk: nat)
    requires Shape(l + [b] + r, basep, brk) && l != [] && !b.free
    ensures Shape(Released(l, b, r), basep, brk)
  {
    hide Tiles, Coalesced, Released;
    assert (l + [b] + r)[0] == l[0];
    ReleasedSized(l, b, r);
    ReleasedTiles(l, b, r, basep, brk);
    ReleasedCoalesced(l, b, r);
  }

  lemma FreeRest(r: seq<Block>)
    ensures JoinsRight(r) ==> FreeAddrs(r) != [] && FreeAddrs(r)[0] == r[0].addr
    ensures FreeAddrs(AfterRight(r)) == if JoinsRight(r) then FreeAddrs(r)[1..] else FreeAddrs(r)
  {
    if JoinsRight(r) {
      assert ([r[0].addr] + FreeAddrs(r[1..]))[1..] == FreeAddrs(r[1..]);
    }
  }

  lemma FreeLast(l: seq<Block>)
    requires l != []
    ensures FreeAddrs(l) == FreeAddrs(l[..|l| - 1]) + if l[|l| - 1].free then [l[|l| - 1].addr] else []
  {
    SplitLast(l);
    FreeConcat(l[..|l| - 1], [l[|l| - 1]]);
    FreeOne(l[|l| - 1]);
  }

  /** The free addresses after freeing: b's own address joins them unless a left neighbour
      absorbs it, and an absorbed right neighbour's leaves. */
  lemma ReleasedFree(l: seq<Block>, b: Block, r: seq<Block>)
    requires !b.free
    ensures JoinsRight(r) ==> FreeAddrs(r) != [] && FreeAddrs(r)[0] == r[0].addr
    ensures JoinsLeft(l) ==> FreeAddrs(l) != [] && FreeAddrs(l)[|FreeAddrs(l)| - 1] == l[|l| - 1].addr
    ensures FreeAddrs(l + [b] + r) == FreeAddrs(l) + FreeAddrs(r)
    ensures FreeAddrs(Released(l, b, r)) ==
            (if JoinsLeft(l) then FreeAddrs(l) else FreeAddrs(l) + [b.addr]) +
            (if JoinsRight(r) then FreeAddrs(r)[1..] else FreeAddrs(r))
  {
    hide FreeAddrs, AfterRight;
    LiveAround(l, b, r);
    FreeRest(r);
    if JoinsLeft(l) {
      ReleasedLeft(l, WithRight(b, r), AfterRight(r));
    } else {
      FreeOne(WithRight(b, r));
      FreeAround(l, [WithRight(b, r)], AfterRight(r));
    }
  }

  lemma LiveAround(l: seq<Block>, b: Block, r: seq<Block>)
    requires !b.free
    ensures FreeAddrs(l + [b] + r) == FreeAddrs(l) + FreeAddrs(r)
  {
    hide FreeAddrs;
    FreeAround(l, [b], r);
    FreeOne(b);
    assert FreeAddrs(l) + [] == FreeAddrs(l);
  }

  lemma ReleasedLeft(l: seq<Block>, m: Block, rest: seq<Block>)
    requires JoinsLeft(l)
    ensures var last := l[|l| - 1];
            FreeAddrs(l) != [] && FreeAddrs(l)[|FreeAddrs(l)| - 1] == last.addr &&
            FreeAddrs(l[..|l| - 1] + [Block(last.addr, last.size + m.size, true)] + rest) == FreeAddrs(l) + FreeAddrs(rest)
  {
    hide FreeAddrs;
    var last := l[|l| - 1];
    FreeLast(l);
    FreeOne(Block(last.addr, last.size + m.size, true));
    FreeAround(l[..|l| - 1], [Block(last.addr, last.size + m.size, true)], rest);
  }

  lemma FreeOne(b: Block)
    ensures FreeAddrs([b]) == if b.free then [b.addr] else []
  {
    assert [b][1..] == [];
  }

  lemma UnitsOne(b: Block, f: bool)
    ensures Units([b], f) == if b.free == f then b.size else 0
  {
    assert [b][1..] == [];
  }

  lemma UnitsRest(r: seq<Block>, f: bool)
    ensures Units(r, f) == Units(AfterRight(r), f) + if JoinsRight(r) && f then r[0].size else 0
  {
  }

  lemma UnitsLast(l: seq<Block>, f: bool)
    requires l != []
    ensures Units(l, f) == Units(l[..|l| - 1], f) + if l[|l| - 1].free == f then l[|l| - 1].size else 0
  {
    SplitLast(l);
    UnitsConcat(l[..|l| - 1], [l[|l| - 1]], f);
    UnitsOne(l[|l| - 1], f);
  }

  lemma ReleasedUnitsOf(l: seq<Block>, b: Block, r: seq<Block>, f: bool)
    requires !b.free
    ensures Units(Released(l, b, r), f) + (if f then 0 else b.size) == Units(l + [b] + r, f) + if f then b.size else 0
  {
    hide Units;
    UnitsAround(l, [b], r, f);
    UnitsOne(b, f);
    UnitsRest(r, f);
    var m, rest := WithRight(b, r), AfterRight(r);
    UnitsOne(m, f);
    if JoinsLeft(l) {
      var last := l[|l| - 1];
      UnitsLast(l, f);
      UnitsOne(Block(last.addr, last.size + m.size, true), f);
      UnitsAround(l[..|l| - 1], [Block(last.addr, last.size + m.size, true)], rest, f);
    } else {
      UnitsAround(l, [m], rest, f);
    }
  }

  /** Freeing moves b's units from live to free. */
  lemma ReleasedUnits(l: seq<Block>, b: Block, r: seq<Block>)
    requires !b.free
    ensures Units(Released(l, b, r), true) == Units(l + [b] + r, true) + b.size
    ensures Units(Released(l, b, r), false) + b.size == Units(l + [b] + r, false)
  {
    ReleasedUnitsOf(l, b, r, true);
    ReleasedUnitsOf(l, b, r, false);
  }

  /** Handing out keeps the shape. */
  lemma CarvedShape(l: seq<Block>, b: Block, r: seq<Block>, units: nat, basep: nat, brk: nat)
    requires Shape(l + [b] + r, basep, brk) && l != [] && b.free && 1 <= units <= b.size
    ensures Shape(Carved(l, b, r, units), basep, brk)
  {
    hide Tiles, Coalesced;
    var bs := l + [b] + r;
    assert bs[|l|] == b && bs[0] == l[0];
    assert forall k :: 0 <= k < |l| ==> bs[k] == l[k];
    assert forall k :: 0 <= k < |r| ==> bs[|l| + 1 + k] == r[k];
    CoalescedParts(l, b, r);
    var s := EndOf(l, basep);
    TilesAround(l, [b], r, basep, brk);
    Tiles1(b, s, EndOf([b], s));
    if b.size == units {
      Tiles1(b.(free := false), s, EndOf([b], s));
      TilesSwap(l, [b], [b.(free := false)], r, basep, brk);
      CoalescedJoin(l, b.(free := false), r);
    } else {
      var x, y := b.(size := b.size - units), Block(b.addr + 8 * (b.size - units), units, false);
      Tiles2(x, y, s, EndOf([b], s));
      TilesSwap(l, [b], [x, y], r, basep, brk);
      CoalescedJoin(l, x, []);
      assert l + [x] + [] == l + [x];
      CoalescedJoin(l + [x], y, r);
      assert l + [x] + [y] + r == l + [x, y] + r;
    }
  }

  /** A whole block leaves the free addresses; a split keeps them. */
  lemma CarvedFree(l: seq<Block>, b: Block, r: seq<Block>, units: nat)
    requires b.free && units <= b.size
    ensures FreeAddrs(l + [b] + r) == FreeAddrs(l) + [b.addr] + FreeAddrs(r)
    ensures FreeAddrs(Carved(l, b, r, units)) ==
            FreeAddrs(l) + (if b.size == units then [] else [b.addr]) + FreeAddrs(r)
  {
    hide FreeAddrs;
    FreeAround(l, [b], r);
    FreeOne(b);
    if b.size == units {
      FreeOne(b.(free := false));
      FreeAround(l, [b.(free := false)], r);
    } else {
      var x, y := b.(size := b.size - units), Block(b.addr + 8 * (b.size - units), units, false);
      FreeOne(x);
      FreeOne(y);
      FreeConcat([x], [y]);
      assert [x, y] == [x] + [y];
      FreeAround(l, [x, y], r);
    }
  }

  lemma CarvedUnitsOf(l: seq<Block>, b: Block, r: seq<Block>, units: nat, f: bool)
    requires b.free && units <= b.size
    ensures Units(Carved(l, b, r, units), f) + (if f then units else 0) == Units(l + [b] + r, f) + if f then 0 else units
  {
    hide Units;
    UnitsAround(l, [b], r, f);
    UnitsOne(b, f);
    if b.size == units {
      UnitsOne(b.(free := false), f);
      UnitsAround(l, [b.(free := false)], r, f);
    } else {
      var x, y := b.(size := b.size - units), Block(b.addr + 8 * (b.size - units), units, false);
      UnitsOne(x, f);
      UnitsOne(y, f);
      UnitsConcat([x], [y], f);
      assert [x, y] == [x] + [y];
      UnitsAround(l, [x, y], r, f);
    }
  }

  /** Handing out moves the units from free to live. */
  lemma CarvedUnits(l: seq<Block>, b: Block, r: seq<Block>, units: nat)
    requires b.free && units <= b.size
    ensures Units(Carved(l, b, r, units), true) + units == Units(l + [b] + r, true)
    ensures Units(Carved(l, b, r, units), false) == Units(l + [b] + r, false) + units
  {
    CarvedUnitsOf(l, b, r, units, true);
    CarvedUnitsOf(l, b, r, units, false);
  }

  /** A new live block at the end of the arena. */
  lemma GrownShape(bs: seq<Block>, basep: nat, brk: nat, units: nat)
    requires Shape(bs, basep, brk) && units >= 1
    ensures Shape(bs + [Block(brk, units, false)], basep, brk + 8 * units)
  {
    var b := Block(brk, units, false);
    TilesConcat(bs, [b], basep, brk + 8 * units);
    TilesEnd(bs, basep, brk);
    Tiles1(b, brk, brk + 8 * units);
    CoalescedJoin(bs, b, []);
    assert bs + [b] + [] == bs + [b];
  }
}
