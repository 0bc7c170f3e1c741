/** The first sweep: which instruction slots a jump may land on, kept as a bitset. */
module TargetSets {
  import opened Words
  import opened Isa
  import opened Fusion
  import opened Simulation

  type BitNo = k: nat | k < 8

  function BitMask(k: BitNo): bv8 {
    if k == 0 then 1 else if k == 1 then 2 else if k == 2 then 4 else if k == 3 then 8
    else if k == 4 then 16 else if k == 5 then 32 else if k == 6 then 64 else 128
  }

  predicate BitIn(b: bv8, k: BitNo) {
    b & BitMask(k) != 0
  }

  lemma SetBit(b: bv8, k: BitNo, j: BitNo)
    ensures BitIn(b | BitMask(k), j) <==> j == k || BitIn(b, j)
  {
  }

  /** One bit per 4-byte slot of the code. */
  class Targets {
    const n: nat
    const bits: array<bv8>

    ghost predicate Valid() {
      (n + 7) / 8 < bits.Length
    }

    ghost predicate Marked(i: nat)
      requires Valid()
      reads bits
    {
      i < n && BitIn(bits[i / 8], i % 8)
    }

    /** The set as one flag per slot. */
    ghost function Marks(): (s: seq<bool>)
      requires Valid()
      reads bits
      ensures |s| == n && forall i :: 0 <= i < n ==> (s[i] <==> Marked(i))
    {
      seq(n, i requires 0 <= i < n && Valid() reads bits => Marked(i))
    }

    constructor (slots: nat)
      ensures Valid() && n == slots && fresh(bits)
      ensures forall i: nat :: !Marked(i)
    {
      n := slots;
      bits := new bv8[(slots + 7) / 8 + 1](_ => 0);
    }

    /** Marks the slot of a byte address; addresses past the code are ignored. */
    method Mark(addr: Word)
      requires Valid()
      modifies bits
      ensures forall i: nat :: Marked(i) <==> old(Marked(i)) || (i == addr / 4 && i < n)
    {
      var i := addr / 4;
      if i < n {
        var before := bits[i / 8];
        bits[i / 8] := before | BitMask(i % 8);
        forall j: nat
          ensures Marked(j) <==> old(Marked(j)) || j == i
        {
          SetBit(before, i % 8, j % 8);
          assert j / 8 == i / 8 && j % 8 == i % 8 ==> j == i;
        }
      }
    }

    method Has(addr: Word) returns (b: bool)
      requires Valid()
      ensures b <==> Marked(addr / 4)
    {
      var i := addr / 4;
      b := i < n && BitIn(bits[i / 8], i % 8);
    }
  }

  predicate JumpsTo(d: Insn, i: nat) {
    (d.Branch? || d.Jal?) && d.target / 4 == i
  }

  predicate Directly(code: seq<Insn>, end: nat, i: nat)
    requires end <= |code|
  {
    exists k :: 0 <= k < end && JumpsTo(code[k], i)
  }

  predicate Externally(ext: seq<Word>, end: nat, i: nat)
    requires end <= |ext|
  {
    exists k :: 0 <= k < end && ext[k] / 4 == i
  }

  /** The slots fusion must never hide: every direct branch and jump destination in the
      window, and every external address the caller named. */
  predicate IsTarget(code: seq<Insn>, ext: seq<Word>, i: nat) {
    i < |code| && (Directly(code, |code|, i) || Externally(ext, |ext|, i))
  }

  /** The targets as one flag per slot. */
  ghost function Flags(code: seq<Insn>, ext: seq<Word>): (s: seq<bool>)
    ensures |s| == |code| && forall i :: 0 <= i < |code| ==> (s[i] <==> IsTarget(code, ext, i))
  {
    seq(|code|, (i: nat) => IsTarget(code, ext, i))
  }

  method CollectTargets(code: seq<Insn>, ext: seq<Word>) returns (t: Targets)
    ensures t.Valid() && t.n == |code| && fresh(t) && fresh(t.bits)
    ensures forall i: nat :: t.Marked(i) <==> IsTarget(code, ext, i)
  {
    t := new Targets(|code|);
    var c := 0;
    while c < |code|
      invariant 0 <= c <= |code|
      invariant forall i: nat :: t.Marked(i) <==> i < |code| && Directly(code, c, i)
    {
      var d := Fold(code[c]);
      if d.Branch? || d.Jal? {
        t.Mark(d.target);
        assert Directly(code, c + 1, d.target / 4) by {
          assert JumpsTo(code[c], d.target / 4);
        }
      }
      c := c + 1;
    }
    c := 0;
    while c < |ext|
      invariant 0 <= c <= |ext|
      invariant forall i: nat :: t.Marked(i) <==> i < |code| && (Directly(code, |code|, i) || Externally(ext, c, i))
    {
      t.Mark(ext[c]);
      assert Externally(ext, c + 1, ext[c] / 4);
      c := c + 1;
    }
  }

  /** What the sweep found is what later passes need of it. */
  lemma CollectedIsMarked(p: Prog, ext: seq<Word>)
    requires |p.hot| == |p.code|
    requires forall i: nat :: Hot(p, i) <==> IsTarget(p.code, ext, i)
    ensures Marked(p)
    ensures forall k :: 0 <= k < |ext| && ext[k] / 4 < |p.code| ==> Hot(p, ext[k] / 4)
  {
    forall i, t: Word | 0 <= i < |p.code| && DirectTarget(p.code[i], t) && t / 4 < |p.code|
      ensures Hot(p, t / 4)
    {
      assert JumpsTo(p.code[i], t / 4);
      assert Directly(p.code, |p.code|, t / 4);
    }
    forall k | 0 <= k < |ext| && ext[k] / 4 < |p.code|
      ensures Hot(p, ext[k] / 4)
    {
      assert Externally(ext, |ext|, ext[k] / 4);
    }
  }
}
