/** Code pointers held in data: every 32-bit relocation that names code becomes the op-space
    address an indirect jump needs. */
module DataPointers {
  import opened Words
  import opened Fusion
  import opened Layout
  import opened SourceMachine
  import opened Transcoder
  import opened Linking
  import opened TargetSets
  import opened Renumbering

  /** A 32-bit relocation: the address of the word and the code or data address it holds. */
  datatype Pointer = Pointer(site: Word, target: Word)

  /** The patch one relocation calls for: where in the buffer, and with what. */
  function PatchOf(base: Word, len: int, m: seq<Word>, codeLen: int, r: Pointer): (o: Option<(nat, Word)>)
    ensures o.Some? ==> o.value.0 + 4 <= len && o.value.0 == r.site - base
  {
    if r.target >= codeLen then None
    else if MapAt(m, r.target) == SENTINEL then None
    else if r.site < base || r.site - base + 4 > len then None
    else Some((r.site - base, Wrap(4 * MapAt(m, r.target) as int)))
  }

  function PatchPointers(buf: seq<Byte>, base: Word, m: seq<Word>, codeLen: int, rs: seq<Pointer>): (r: seq<Byte>)
    ensures |r| == |buf|
    decreases |rs|
  {
    if rs == [] then buf
    else
      var last := rs[|rs| - 1];
      var before := PatchPointers(buf, base, m, codeLen, rs[..|rs| - 1]);
      match PatchOf(base, |buf|, m, codeLen, last)
      case Some(patch) => WriteLE(before, patch.0, 4, patch.1)
      case None => before
  }

  /** Patches a data buffer in place. */
  method PatchRela(base: Word, buf: array<Byte>, map_: array<Word>, codeLen: nat, rs: seq<Pointer>)
    requires (codeLen + 1) / 2 <= map_.Length && buf as object != map_
    modifies buf
    ensures buf[..] == PatchPointers(old(buf[..]), base, map_[..], codeLen, rs)
  {
    var i := 0;
    while i < |rs|
      invariant 0 <= i <= |rs|
      invariant map_[..] == old(map_[..])
      invariant buf[..] == PatchPointers(old(buf[..]), base, map_[..], codeLen, rs[..i])
    {
      hide PatchPointers, Wrap, ByteOf;
      ghost var before := buf[..];
      var r := rs[i];
      OnePointer(old(buf[..]), base, map_[..], codeLen, rs, i);
      if r.target < codeLen && map_[r.target / 2] != SENTINEL && base <= r.site && r.site - base + 4 <= buf.Length {
        var at: nat := r.site - base;
        var v: Word := Wrap(4 * map_[r.target / 2] as int);
        buf[at], buf[at + 1], buf[at + 2], buf[at + 3] := ByteOf(v, 0), ByteOf(v, 1), ByteOf(v, 2), ByteOf(v, 3);
        assert buf[..] == WriteLE(before, at, 4, v);
      }
      i := i + 1;
    }
    assert rs[..i] == rs;
  }

  lemma OnePointer(buf: seq<Byte>, base: Word, m: seq<Word>, codeLen: int, rs: seq<Pointer>, i: nat)
    requires i < |rs|
    ensures PatchPointers(buf, base, m, codeLen, []) == buf
    ensures var before := PatchPointers(buf, base, m, codeLen, rs[..i]);
            PatchPointers(buf, base, m, codeLen, rs[..i + 1]) ==
            match PatchOf(base, |buf|, m, codeLen, rs[i])
            case Some(patch) => WriteLE(before, patch.0, 4, patch.1)
            case None => before
  {
    assert rs[..i + 1][..i] == rs[..i];
  }

  /** Two relocations patch the same word or words that do not overlap, and the same word with
      the same value. */
  predicate Apart(a: Pointer, b: Pointer) {
    a.site + 4 <= b.site || b.site + 4 <= a.site || a == b
  }

  predicate AllApart(rs: seq<Pointer>) {
    forall a, b :: a in rs && b in rs ==> Apart(a, b)
  }

  /** The little-endian word at offset `at` is v. */
  predicate HoldsWord(s: seq<Byte>, at: nat, v: Word) {
    at + 4 <= |s| && ReadLE(s, at, 4) == v
  }

  /** Every patch survives the others. */
  lemma {:induction false} PointersHold(buf: seq<Byte>, base: Word, m: seq<Word>, codeLen: int, rs: seq<Pointer>, r: Pointer, at: nat, v: Word)
    requires r in rs && AllApart(rs) && PatchOf(base, |buf|, m, codeLen, r) == Some((at, v))
    ensures HoldsWord(PatchPointers(buf, base, m, codeLen, rs), at, v)
    decreases |rs|
  {
    hide ReadLE;
    var n := |rs| - 1;
    var before := PatchPointers(buf, base, m, codeLen, rs[..n]);
    if r == rs[n] {
      ReadBack(before, at, v);
    } else {
      PointersHold(buf, base, m, codeLen, rs[..n], r, at, v);
      match PatchOf(base, |buf|, m, codeLen, rs[n])
      case Some(last) =>
        assert Apart(r, rs[n]);
        ReadOther(before, last.0, 4, last.1, at);
      case None =>
    }
  }

  predicate Covers(base: Word, r: Pointer, at: int) {
    r.site <= base + at < r.site + 4
  }

  /** Bytes no relocation covers keep their value. */
  lemma {:induction false} OthersKept(buf: seq<Byte>, base: Word, m: seq<Word>, codeLen: int, rs: seq<Pointer>, at: nat)
    requires at < |buf| && forall r :: r in rs ==> !Covers(base, r, at)
    ensures PatchPointers(buf, base, m, codeLen, rs)[at] == buf[at]
    decreases |rs|
  {
    if rs != [] {
      OthersKept(buf, base, m, codeLen, rs[..|rs| - 1], at);
      assert rs[|rs| - 1] in rs;
    }
  }

  /** The targets of p are those a sweep finds with the external addresses `ext`. */
  ghost predicate Collected(p: Prog, ext: seq<Word>) {
    |p.hot| == |p.code| && forall i: nat :: Hot(p, i) <==> IsTarget(p.code, ext, i)
  }

  /** The relocation names an instruction that was collected as an external target. */
  predicate NamesInsn(p: Prog, ext: seq<Word>, r: Pointer) {
    r.target % 4 == 0 && r.target / 4 < |p.code| && r.target in ext
  }

  /** A patched word is the renumbered address of the instruction its relocation names, so an
      indirect jump through it lands there: the address was collected as an external target,
      which always heads a unit. */
  lemma PointerNamesCode(p: Prog, ext: seq<Word>, m: seq<Word>, buf: seq<Byte>, base: Word, rs: seq<Pointer>, r: Pointer, at: nat)
    requires Planned(p) && Collected(p, ext) && MapOf(m, p.plan) && AllApart(rs)
    requires r in rs && NamesInsn(p, ext, r) && r.site == base + at && at + 4 <= |buf|
    ensures HoldsWord(PatchPointers(buf, base, m, 4 * |p.code|, rs), at, Rho(p, InsnOf(r.target)))
    ensures Known(p, InsnOf(r.target)) && NamesKnown(p, Rho(p, InsnOf(r.target)))
  {
    hide Step, HoldsWord, PatchPointers;
    var q := InsnOf(r.target);
    assert Externally(ext, |ext|, q);
    assert Known(p, q);
    KnownHeads(p, q);
    OpAtBound(p.plan, q);
    assert r.target / 2 / 2 == q && m[r.target / 2] == MapEntry(p.plan, r.target / 2);
    PointersHold(buf, base, m, 4 * |p.code|, rs, r, at, Rho(p, q));
  }
}
