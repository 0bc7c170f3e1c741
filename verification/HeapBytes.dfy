/** Block headers in guest bytes: a next word and a size word, and what a header write leaves alone. */
module HeapBytes {
  import opened Words
  import opened HeapShape

  /** Guest bytes starting at address `base`; the arena's grid starts at `basep`. */
  datatype Arena = Arena(base: nat, basep: nat, bytes: seq<Byte>) {
    /** a is an 8-byte cell of the grid. */
    predicate Cell(a: nat) {
      base <= basep <= a && a + 8 <= base + |bytes| && (a - basep) % 8 == 0
    }
    function Next(a: nat): Word
      requires Cell(a)
    {
      ReadLE(bytes, a - base, 4)
    }
    function Size(a: nat): Word
      requires Cell(a)
    {
      ReadLE(bytes, a - base + 4, 4)
    }
  }

  /** Only the cells named may differ. */
  predicate Untouched(h: Arena, h': Arena, cells: set<nat>) {
    && h'.base == h.base && h'.basep == h.basep && |h'.bytes| == |h.bytes|
    && forall k :: 0 <= k < |h.bytes| && (forall c :: c in cells ==> !(c <= h.base + k < c + 8)) ==> h'.bytes[k] == h.bytes[k]
  }

  /** A header not written reads as before. */
  lemma CellKept(h: Arena, h': Arena, cells: set<nat>, a: nat)
    requires Untouched(h, h', cells) && h.Cell(a) && a !in cells && forall c :: c in cells ==> h.Cell(c)
    ensures h'.Cell(a) && h'.Next(a) == h.Next(a) && h'.Size(a) == h.Size(a)
  {
    forall k | a - h.base <= k < a - h.base + 8
      ensures h'.bytes[k] == h.bytes[k]
    {
      forall c | c in cells
        ensures !(c <= h.base + k < c + 8)
      {
        assert a + 8 <= c || c + 8 <= a;
      }
    }
  }

  // ---- the free ring ----

  function First(ns: seq<nat>, end: nat): nat {
    if ns == [] then end else ns[0]
  }

  /** The cells link each to the next, the last one to `end`. */
  predicate Chain(h: Arena, ns: seq<nat>, end: nat) {
    if ns == [] then true else h.Cell(ns[0]) && h.Next(ns[0]) == First(ns[1..], end) && Chain(h, ns[1..], end)
  }

  lemma {:induction false} ChainConcat(h: Arena, a: seq<nat>, b: seq<nat>, end: nat)
    ensures Chain(h, a + b, end) <==> Chain(h, a, First(b, end)) && Chain(h, b, end)
    decreases |a|
  {
    if a == [] {
      assert a + b == b;
    } else {
      assert (a + b)[1..] == a[1..] + b;
      ChainConcat(h, a[1..], b, end);
      assert First((a + b)[1..], end) == First(a[1..], First(b, end));
    }
  }

  lemma {:induction false} ChainKept(h: Arena, h': Arena, cells: set<nat>, ns: seq<nat>, end: nat)
    requires Untouched(h, h', cells) && Chain(h, ns, end)
    requires (forall c :: c in cells ==> h.Cell(c)) && forall k :: 0 <= k < |ns| ==> ns[k] !in cells
    ensures Chain(h', ns, end)
    decreases |ns|
  {
    if ns != [] {
      CellKept(h, h', cells, ns[0]);
      assert forall k :: 0 <= k < |ns[1..]| ==> ns[1..][k] == ns[k + 1];
      ChainKept(h, h', cells, ns[1..], end);
    }
  }

  lemma {:induction false} ChainAt(h: Arena, ns: seq<nat>, end: nat, k: nat)
    requires Chain(h, ns, end) && k < |ns|
    ensures h.Cell(ns[k]) && h.Next(ns[k]) == if k + 1 < |ns| then ns[k + 1] else end
    decreases k
  {
    if k > 0 {
      ChainAt(h, ns[1..], end, k - 1);
    }
  }

  lemma ChainOne(h: Arena, a: nat, end: nat)
    ensures Chain(h, [a], end) <==> h.Cell(a) && h.Next(a) == end
  {
    assert [a][1..] == [];
  }

  /** Every block's header holds its size. */
  predicate Sizes(h: Arena, bs: seq<Block>) {
    forall k :: 0 <= k < |bs| ==> h.Cell(bs[k].addr) && h.Size(bs[k].addr) == bs[k].size
  }

  lemma SizesConcat(h: Arena, a: seq<Block>, b: seq<Block>)
    ensures Sizes(h, a + b) <==> Sizes(h, a) && Sizes(h, b)
  {
    if Sizes(h, a + b) {
      assert forall k :: 0 <= k < |a| ==> (a + b)[k] == a[k];
      assert forall k :: 0 <= k < |b| ==> (a + b)[|a| + k] == b[k];
    }
  }

  lemma SizesOne(h: Arena, b: Block)
    ensures Sizes(h, [b]) <==> h.Cell(b.addr) && h.Size(b.addr) == b.size
  {
    assert [b][0] == b;
  }

  lemma SizesKept(h: Arena, h': Arena, cells: set<nat>, bs: seq<Block>)
    requires Untouched(h, h', cells) && Sizes(h, bs) && forall c :: c in cells ==> h.Cell(c)
    requires forall k :: 0 <= k < |bs| && bs[k].addr in cells ==> h'.Cell(bs[k].addr) && h'.Size(bs[k].addr) == bs[k].size
    ensures Sizes(h', bs)
  {
    forall k | 0 <= k < |bs|
      ensures h'.Cell(bs[k].addr) && h'.Size(bs[k].addr) == bs[k].size
    {
      if bs[k].addr !in cells {
        CellKept(h, h', cells, bs[k].addr);
      }
    }
  }

  /** The bytes hold the blocks: sizes in the headers, and one circular list through the free
      ones in address order. */
  predicate Holds(h: Arena, bs: seq<Block>) {
    Sizes(h, bs) && Chain(h, FreeAddrs(bs), h.basep)
  }
}
