/** The order of a frame's accesses matters wherever it is not free: for every other pair there
    are callbacks that tell. */
module FrameNeeds {
  import opened Words
  import opened Isa
  import opened Machines
  import opened Fusion
  import opened Layout
  import opened SourceMachine
  import opened Simulation
  import opened Evaluator
  import opened FrameStores
  import opened FrameOrder
  import opened FrameSimulation
  import opened FrameAgreement
  import opened FrameOps

  function WordOf(mem: Mem, a: Word): Word
    requires Hit(mem, a)
  {
    ReadLE(mem.ram, Rel(a, mem.wbase), 4)
  }

  function Idle(m: Machine<Word>, pc: Word): (Machine<Word>, bool) {
    (m, false)
  }

  // ---- stores ----

  /** A store callback that, at address `at`, notes the word at `other`, or 1 if that is not
      writable; and at `other` itself notes 2. Its host state is the note. */
  function Watching(at: Word, other: Word): Env<Word> {
    Env((h: Word, mem: Mem, a: Word) => (h, mem, 0),
        (h: Word, mem: Mem, a: Word, v: Word) =>
          (if a == at then (if Hit(mem, other) then WordOf(mem, other) else 1) else if a == other then 2 else h, mem),
        Idle, Idle, Idle)
  }

  lemma WatchingGood(at: Word, other: Word)
    ensures GoodEnv(Watching(at, other))
  {
  }

  /** One store under the watch: what it does to the note and to the watched word. */
  lemma WatchedWrite(at: Word, other: Word, h: Word, mem: Mem, a: Word, v: Word)
    requires mem.Valid() && at != other && !Hit(mem, at) && (a == other || WordsApart(a, other))
    ensures var (h', mem') := WriteWord(Watching(at, other), h, mem, a, v);
            mem.SameShape(mem') && (Hit(mem', other) <==> Hit(mem, other)) && !Hit(mem', at) &&
            h' == (if a == at then (if Hit(mem, other) then WordOf(mem, other) else 1)
                   else if a == other && !Hit(mem, other) then 2 else h) &&
            (Hit(mem, other) ==> WordOf(mem', other) == if a == other then v else WordOf(mem, other))
  {
    if Hit(mem, other) && Hit(mem, a) {
      if a == other {
        ReadBack(mem.ram, Rel(a, mem.wbase), v);
      } else {
        ApartOffsets(mem, a, other);
        ReadOther(mem.ram, Rel(a, mem.wbase), 4, v, Rel(other, mem.wbase));
      }
    }
  }

  /** The other word's value, or that of the note, once the rest of the list is over. */
  lemma {:induction false} RestWatched(at: Word, other: Word, h: Word, mem: Mem, addrs: seq<Word>, vals: seq<Word>)
    requires mem.Valid() && at != other && !Hit(mem, at) && |addrs| == |vals|
    requires at !in addrs && forall k :: 0 <= k < |addrs| ==> addrs[k] == other || WordsApart(addrs[k], other)
    ensures Puts(Watching(at, other), h, mem, addrs, vals).0 == if other in addrs && !Hit(mem, other) then 2 else h
    decreases |addrs|
  {
    hide Write, Hit, WordsApart, WordOf;
    if addrs != [] {
      var (h1, mem1) := WriteWord(Watching(at, other), h, mem, addrs[0], vals[0]);
      WatchedWrite(at, other, h, mem, addrs[0], vals[0]);
      assert addrs == [addrs[0]] + addrs[1..];
      RestWatched(at, other, h1, mem1, addrs[1..], vals[1..]);
    }
  }

  /** What the note says in the end: whether the other store came before. */
  function Note(mem: Mem, other: Word, v: Word, before: bool): Word {
    if Hit(mem, other) then (if before then v else WordOf(mem, other)) else if before then 1 else 2
  }

  lemma {:induction false} PutsNoted(at: Word, other: Word, h: Word, mem: Mem, addrs: seq<Word>, vals: seq<Word>, i: nat, j: nat)
    requires mem.Valid() && at != other && !Hit(mem, at) && |addrs| == |vals| && AllApart(addrs)
    requires i < |addrs| && j < |addrs| && addrs[i] == at && addrs[j] == other
    ensures Puts(Watching(at, other), h, mem, addrs, vals).0 == Note(mem, other, vals[j], j < i)
    decreases |addrs|
  {
    hide Write, Hit, WordsApart, WordOf, Puts;
    ApartLists(addrs, at, other, i, j);
    var (h1, mem1) := WriteWord(Watching(at, other), h, mem, addrs[0], vals[0]);
    WatchedWrite(at, other, h, mem, addrs[0], vals[0]);
    assert Puts(Watching(at, other), h, mem, addrs, vals) == Puts(Watching(at, other), h1, mem1, addrs[1..], vals[1..]) by {
      PutsFirst(Watching(at, other), h, mem, addrs, vals);
    }
    if i == 0 {
      assert addrs[1..][j - 1] == other;
      RestWatched(at, other, h1, mem1, addrs[1..], vals[1..]);
    } else if j == 0 {
      LateWatched(at, other, h1, mem1, addrs[1..], vals[1..], i - 1);
    } else {
      PutsNoted(at, other, h1, mem1, addrs[1..], vals[1..], i - 1, j - 1);
    }
  }

  lemma PutsFirst<H>(env: Env<H>, h: H, mem: Mem, addrs: seq<Word>, vals: seq<Word>)
    requires |addrs| == |vals| && addrs != []
    ensures var (h1, mem1) := WriteWord(env, h, mem, addrs[0], vals[0]);
            Puts(env, h, mem, addrs, vals) == Puts(env, h1, mem1, addrs[1..], vals[1..])
  {
  }

  /** Each address occurs once, and every other word is apart from it. */
  lemma ApartLists(addrs: seq<Word>, at: Word, other: Word, i: nat, j: nat)
    requires AllApart(addrs) && i < |addrs| && j < |addrs| && addrs[i] == at && addrs[j] == other && at != other
    ensures AllApart(addrs[1..])
    ensures forall k :: 0 <= k < |addrs| ==> (addrs[k] == other || WordsApart(addrs[k], other)) && (addrs[k] == at ==> k == i) && (addrs[k] == other ==> k == j)
  {
    forall k | 0 <= k < |addrs|
      ensures (addrs[k] == other || WordsApart(addrs[k], other)) && (addrs[k] == at ==> k == i) && (addrs[k] == other ==> k == j)
    {
      if k != j { ApartEach(addrs, k, j); }
      if k != i { ApartEach(addrs, k, i); }
    }
  }

  lemma ApartEach(addrs: seq<Word>, k: nat, j: nat)
    requires AllApart(addrs) && k < |addrs| && j < |addrs| && k != j
    ensures WordsApart(addrs[k], addrs[j])
  {
    WrapNear(addrs[k] as int - addrs[j]);
    WrapNear(addrs[j] as int - addrs[k]);
    if j < k {
      assert WordsApart(addrs[j], addrs[k]);
    }
  }

  /** The note taken after the other store is over. */
  lemma {:induction false} LateWatched(at: Word, other: Word, h: Word, mem: Mem, addrs: seq<Word>, vals: seq<Word>, i: nat)
    requires mem.Valid() && at != other && !Hit(mem, at) && |addrs| == |vals|
    requires i < |addrs| && (forall k :: 0 <= k < |addrs| ==> (addrs[k] == at <==> k == i) && WordsApart(addrs[k], other) && addrs[k] != other)
    ensures Puts(Watching(at, other), h, mem, addrs, vals).0 == if Hit(mem, other) then WordOf(mem, other) else 1
    decreases |addrs|
  {
    hide Write, Hit, WordsApart, WordOf, Puts;
    var (h1, mem1) := WriteWord(Watching(at, other), h, mem, addrs[0], vals[0]);
    WatchedWrite(at, other, h, mem, addrs[0], vals[0]);
    PutsFirst(Watching(at, other), h, mem, addrs, vals);
    if i == 0 {
      RestWatched(at, other, h1, mem1, addrs[1..], vals[1..]);
    } else {
      LateWatched(at, other, h1, mem1, addrs[1..], vals[1..], i - 1);
    }
  }

  // ---- loads ----

  /** A load callback that, at address `at`, changes the word at `other`, or notes 1 if that is
      not writable; and at `other` itself notes 2. */
  function Meddling(at: Word, other: Word, v: Word): Env<Word> {
    Env((h: Word, mem: Mem, a: Word) => MeddledLoad(at, other, v, h, mem, a),
        (h: Word, mem: Mem, a: Word, v: Word) => (h, mem), Idle, Idle, Idle)
  }

  function MeddledLoad(at: Word, other: Word, v: Word, h: Word, mem: Mem, a: Word): (Word, Mem, Word) {
    if a == at && Hit(mem, other) then (h, mem.(ram := WriteLE(mem.ram, Rel(other, mem.wbase), 4, v)), 0)
    else (if a == at then 1 else if a == other then 2 else h, mem, 0)
  }

  lemma MeddlingGood(at: Word, other: Word, v: Word)
    ensures GoodEnv(Meddling(at, other, v))
  {
  }

  predicate Missed(mem: Mem, a: Word) {
    !Hit(mem, a) && !HitRom(mem, a)
  }

  /** One load under the meddling callback. */
  lemma MeddledRead(at: Word, other: Word, v: Word, m: Machine<Word>, r: Reg, a: Word)
    requires m.mem.Valid() && at != other && Missed(m.mem, at) && !HitRom(m.mem, other)
    ensures var m' := GetWord(Meddling(at, other, v), m, r, a);
            m.mem.SameShape(m'.mem) && (Hit(m'.mem, other) <==> Hit(m.mem, other)) && Missed(m'.mem, at) && !HitRom(m'.mem, other) &&
            m'.host == (if Hit(m.mem, other) then m.host else if a == at then 1 else if a == other then 2 else m.host) &&
            (Hit(m.mem, other) ==> WordOf(m'.mem, other) == if a == at then v else WordOf(m.mem, other)) &&
            (a == other && Hit(m.mem, other) ==> m'.x[r] == WordOf(m.mem, other)) &&
            (forall q: Reg :: q != r ==> m'.x[q] == m.x[q])
  {
    if Hit(m.mem, other) && a == at {
      ReadBack(m.mem.ram, Rel(other, m.mem.wbase), v);
    }
  }

  lemma GetsFirst<H>(env: Env<H>, m: Machine<H>, regs: seq<Reg>, addrs: seq<Word>)
    requires |addrs| == |regs| && addrs != []
    ensures Gets(env, m, regs, addrs) == Gets(env, GetWord(env, m, regs[0], addrs[0]), regs[1..], addrs[1..])
  {
  }

  /** After both are over nothing changes the note or that register. */
  lemma {:induction false} RestMeddled(at: Word, other: Word, v: Word, m: Machine<Word>, regs: seq<Reg>, addrs: seq<Word>, r: Reg)
    requires m.mem.Valid() && at != other && Missed(m.mem, at) && !HitRom(m.mem, other) && |addrs| == |regs|
    requires r !in regs && other !in addrs && (at in addrs ==> Hit(m.mem, other))
    ensures var m' := Gets(Meddling(at, other, v), m, regs, addrs); m'.host == m.host && m'.x[r] == m.x[r]
    decreases |addrs|
  {
    hide Missed, Hit, HitRom, GetWord, WordOf;
    if addrs != [] {
      MeddledRead(at, other, v, m, regs[0], addrs[0]);
      GetsFirst(Meddling(at, other, v), m, regs, addrs);
      assert addrs == [addrs[0]] + addrs[1..] && regs == [regs[0]] + regs[1..];
      RestMeddled(at, other, v, GetWord(Meddling(at, other, v), m, regs[0], addrs[0]), regs[1..], addrs[1..], r);
    }
  }

  predicate Once(addrs: seq<Word>, a: Word, i: nat) {
    i < |addrs| && forall k :: 0 <= k < |addrs| ==> (addrs[k] == a <==> k == i)
  }

  /** The other load when the change is over already, or never comes. */
  lemma {:induction false} LateMeddled(at: Word, other: Word, v: Word, m: Machine<Word>, regs: seq<Reg>, addrs: seq<Word>, j: nat)
    requires m.mem.Valid() && at != other && Missed(m.mem, at) && !HitRom(m.mem, other) && |addrs| == |regs|
    requires Once(addrs, other, j) && at !in addrs && Different(regs)
    ensures var m' := Gets(Meddling(at, other, v), m, regs, addrs);
            if Hit(m.mem, other) then m'.x[regs[j]] == WordOf(m.mem, other) else m'.host == 2
    decreases |addrs|
  {
    hide Missed, Hit, HitRom, GetWord, WordOf, Gets;
    MeddledRead(at, other, v, m, regs[0], addrs[0]);
    GetsFirst(Meddling(at, other, v), m, regs, addrs);
    var m1 := GetWord(Meddling(at, other, v), m, regs[0], addrs[0]);
    if j == 0 {
      RestMeddled(at, other, v, m1, regs[1..], addrs[1..], regs[0]);
    } else {
      LateMeddled(at, other, v, m1, regs[1..], addrs[1..], j - 1);
    }
  }

  /** The change when the other load is over already. */
  lemma {:induction false} LateNote(at: Word, other: Word, v: Word, m: Machine<Word>, regs: seq<Reg>, addrs: seq<Word>, i: nat)
    requires m.mem.Valid() && at != other && Missed(m.mem, at) && !HitRom(m.mem, other) && !Hit(m.mem, other) && |addrs| == |regs|
    requires Once(addrs, at, i) && other !in addrs && Different(regs)
    ensures Gets(Meddling(at, other, v), m, regs, addrs).host == 1
    decreases |addrs|
  {
    hide Missed, Hit, HitRom, GetWord, WordOf, Gets;
    MeddledRead(at, other, v, m, regs[0], addrs[0]);
    GetsFirst(Meddling(at, other, v), m, regs, addrs);
    var m1 := GetWord(Meddling(at, other, v), m, regs[0], addrs[0]);
    if i == 0 {
      RestMeddled(at, other, v, m1, regs[1..], addrs[1..], regs[0]);
    } else {
      LateNote(at, other, v, m1, regs[1..], addrs[1..], i - 1);
    }
  }

  /** The end tells whether the other load came before. */
  lemma {:induction false} GetsTold(at: Word, other: Word, v: Word, m: Machine<Word>, regs: seq<Reg>, addrs: seq<Word>, i: nat, j: nat)
    requires m.mem.Valid() && at != other && Missed(m.mem, at) && !HitRom(m.mem, other) && |addrs| == |regs| && Different(regs)
    requires Once(addrs, at, i) && Once(addrs, other, j)
    ensures var m' := Gets(Meddling(at, other, v), m, regs, addrs);
            if Hit(m.mem, other) then m'.x[regs[j]] == if j < i then WordOf(m.mem, other) else v
            else m'.host == if j < i then 1 else 2
    decreases |addrs|
  {
    hide Missed, Hit, HitRom, GetWord, WordOf, Gets;
    MeddledRead(at, other, v, m, regs[0], addrs[0]);
    GetsFirst(Meddling(at, other, v), m, regs, addrs);
    var m1 := GetWord(Meddling(at, other, v), m, regs[0], addrs[0]);
    if i == 0 {
      LateMeddled(at, other, v, m1, regs[1..], addrs[1..], j - 1);
    } else if j == 0 {
      if Hit(m.mem, other) {
        RestMeddled(at, other, v, m1, regs[1..], addrs[1..], regs[0]);
      } else {
        LateNote(at, other, v, m1, regs[1..], addrs[1..], i - 1);
      }
    } else {
      GetsTold(at, other, v, m1, regs[1..], addrs[1..], i - 1, j - 1);
    }
  }

  // ---- the runs ----

  /** Two listings of the same accesses, slot order[c] of the second being the c-th of the first. */
  predicate Lists(addrs: seq<Word>, regs: seq<Reg>, down: seq<Word>, regs2: seq<Reg>, order: seq<nat>) {
    && |addrs| == |regs| == |down| == |regs2| == |order| && AllApart(addrs) && AllApart(down) && Different(regs) && Different(regs2)
    && forall c :: 0 <= c < |order| ==> order[c] < |down| && addrs[c] == down[order[c]] && regs[c] == regs2[order[c]]
  }

  lemma OnceEach(addrs: seq<Word>, i: nat)
    requires AllApart(addrs) && i < |addrs|
    ensures Once(addrs, addrs[i], i)
  {
    hide WordsApart;
    forall k | 0 <= k < |addrs| && k != i
      ensures addrs[k] != addrs[i]
    {
      ApartEach(addrs, k, i);
      ApartUnequal(addrs[k], addrs[i]);
    }
  }

  lemma ApartUnequal(a: Word, b: Word)
    ensures WordsApart(a, b) ==> a != b
  {
  }

  /** Under the watch the two orders leave different notes. */
  lemma SavesTell(h: Word, mem: Mem, x: Regs, addrs: seq<Word>, regs: seq<Reg>, down: seq<Word>, regs2: seq<Reg>, order: seq<nat>, i: nat, j: nat)
    requires mem.Valid() && Lists(addrs, regs, down, regs2, order) && i < |order| && j < |order|
    requires (j < i) != (order[j] < order[i]) && !Hit(mem, addrs[i]) && (Hit(mem, addrs[j]) ==> x[regs[j]] != WordOf(mem, addrs[j]))
    ensures var env := Watching(addrs[i], addrs[j]);
            Puts(env, h, mem, addrs, ValuesOf(x, regs)).0 != Puts(env, h, mem, down, ValuesOf(x, regs2)).0
  {
    hide Puts, Hit, WordOf, WordsApart, Watching;
    OnceEach(addrs, i);
    assert addrs[i] != addrs[j];
    PutsNoted(addrs[i], addrs[j], h, mem, addrs, ValuesOf(x, regs), i, j);
    PutsNoted(addrs[i], addrs[j], h, mem, down, ValuesOf(x, regs2), order[i], order[j]);
  }

  lemma RestoresTell(m: Machine<Word>, v: Word, addrs: seq<Word>, regs: seq<Reg>, down: seq<Word>, regs2: seq<Reg>, order: seq<nat>, i: nat, j: nat)
    requires m.mem.Valid() && Lists(addrs, regs, down, regs2, order) && i < |order| && j < |order|
    requires (j < i) != (order[j] < order[i]) && Missed(m.mem, addrs[i]) && !HitRom(m.mem, addrs[j])
    requires Hit(m.mem, addrs[j]) ==> v != WordOf(m.mem, addrs[j])
    ensures var env := Meddling(addrs[i], addrs[j], v); Gets(env, m, regs, addrs) != Gets(env, m, regs2, down)
  {
    hide Gets, Hit, HitRom, Missed, WordOf, WordsApart, Meddling;
    OnceEach(addrs, i);
    OnceEach(addrs, j);
    OnceEach(down, order[i]);
    OnceEach(down, order[j]);
    GetsTold(addrs[i], addrs[j], v, m, regs, addrs, i, j);
    GetsTold(addrs[i], addrs[j], v, m, regs2, down, order[i], order[j]);
  }

  /** The run's listing and the evaluator's. */
  lemma RunLists(run: seq<Insn>, frame: int, mask: Mask, top: Word) returns (order: seq<nat>)
    requires FrameMask(run, frame) == Some(mask) && run != []
    ensures |RanksOf(mask)| == |run| == |order|
    ensures Lists(TextAddrs(run, Wrap(top - frame)), RegsOf(run), DownAddrs(top, |run|), RankRegs(RanksOf(mask)), order)
    ensures Follows(run, order)
    ensures forall r :: r in RegsOf(run) ==> r != 0 && r != 2
  {
    hide Wrap, Slot, FrameOff, FrameMask, RanksOf, Different, WordsApart, RankRegs, DownAddrs, RegsOf, TextAddrs, RankReg;
    var to := LayoutMatches(run, frame, mask, top);
    order := SlotOrder(to);
    DownApart(top, |run|);
    RegsListed(RegsOf(run), RankRegs(RanksOf(mask)), to);
    TextListed(run, frame, top, to);
    forall c, d | 0 <= c < |run| && 0 <= d < |run| && Inverted(run, c, d)
      ensures order[d] < order[c]
    {
      OutOfOrder(run, frame, to, c, d);
    }
    RankRegsSaved(RanksOf(mask));
  }

  lemma RankRegsSaved(ranks: seq<RankNo>)
    ensures forall r :: r in RankRegs(ranks) ==> r != 0 && r != 2
  {
  }

  lemma RegsListed(regs: seq<Reg>, regs2: seq<Reg>, to: seq<nat>)
    requires Rearranges(to, |regs|) && Permuted(regs, regs2, to) && Different(regs2)
    ensures var order := SlotOrder(to);
            Different(regs) && forall c :: 0 <= c < |order| ==> regs[c] == regs2[order[c]] && regs[c] in regs2
  {
    var order := SlotOrder(to);
    forall c | 0 <= c < |order|
      ensures regs[c] == regs2[order[c]]
    {
      assert to[order[c]] == c;
    }
    forall j, k | 0 <= j < k < |regs|
      ensures regs[j] != regs[k]
    {
      assert to[order[j]] == j && to[order[k]] == k;
    }
  }

  lemma TextListed(run: seq<Insn>, frame: int, top: Word, to: seq<nat>)
    requires Rearranges(to, |run|) && |run| <= RANKS && Permuted(TextAddrs(run, Wrap(top - frame)), DownAddrs(top, |run|), to)
    ensures var addrs, down, order := TextAddrs(run, Wrap(top - frame)), DownAddrs(top, |run|), SlotOrder(to);
            AllApart(addrs) && forall c :: 0 <= c < |order| ==> addrs[c] == down[order[c]]
  {
    hide Wrap, WordsApart, FrameOff;
    var addrs, down, order := TextAddrs(run, Wrap(top - frame)), DownAddrs(top, |run|), SlotOrder(to);
    DownApart(top, |run|);
    forall c | 0 <= c < |order|
      ensures addrs[c] == down[order[c]]
    {
      assert to[order[c]] == c;
    }
    forall i, j | 0 <= i < j < |run|
      ensures WordsApart(addrs[i], addrs[j])
    {
      assert to[order[i]] == i && to[order[j]] == j;
      ApartEach(down, order[i], order[j]);
    }
  }

  /** Registers that differ from a given word at r, with the given stack pointer. */
  function Fresh(sp: Word, r: Reg, v: Word): (x: Regs)
    requires r != 0 && r != 2
    ensures x[0] == 0 && x[2] == sp && x[r] != v
  {
    seq(32, i => 0)[2 := sp][r := Wrap(v + 1)]
  }

  /** Every inversion of the run is one of the slots. */
  predicate Follows(run: seq<Insn>, order: seq<nat>) {
    |order| == |run| && forall c, d :: 0 <= c < |run| && 0 <= d < |run| && Inverted(run, c, d) ==> order[d] < order[c]
  }

  /** Two saves whose order tells: the i-th is a miss. */
  lemma TellingSaves(mem: Mem, run: seq<Insn>, sp: Word, order: seq<nat>) returns (i: nat, j: nat)
    requires Follows(run, order) && !SavesFree(mem, run, sp)
    ensures i < |run| && j < |run| && (j < i) != (order[j] < order[i]) && !Hit(mem, TextAddrs(run, sp)[i])
  {
    hide Wrap, FrameOff, Hit;
    var c, d :| 0 <= c < |run| && 0 <= d < |run| && Inverted(run, c, d) &&
                !StoresFree(mem, Wrap(sp + FrameOff(run[c])), Wrap(sp + FrameOff(run[d])));
    TextAddrAt(run, sp, c);
    TextAddrAt(run, sp, d);
    i, j := if Hit(mem, TextAddrs(run, sp)[c]) then d else c, if Hit(mem, TextAddrs(run, sp)[c]) then c else d;
  }

  lemma TellingRestores(mem: Mem, run: seq<Insn>, sp: Word, order: seq<nat>) returns (i: nat, j: nat)
    requires Follows(run, order) && !RestoresFree(mem, run, sp)
    ensures i < |run| && j < |run| && (j < i) != (order[j] < order[i])
    ensures Missed(mem, TextAddrs(run, sp)[i]) && !HitRom(mem, TextAddrs(run, sp)[j])
  {
    hide Wrap, FrameOff, Hit, HitRom;
    var c, d :| 0 <= c < |run| && 0 <= d < |run| && Inverted(run, c, d) &&
                !LoadsFree(mem, Wrap(sp + FrameOff(run[c])), Wrap(sp + FrameOff(run[d])));
    TextAddrAt(run, sp, c);
    TextAddrAt(run, sp, d);
    i, j := if Hit(mem, TextAddrs(run, sp)[c]) then d else c, if Hit(mem, TextAddrs(run, sp)[c]) then c else d;
  }

  /** When two saves out of slot order are not free, callbacks and registers exist on which the
      run and the fused op differ. */
  lemma SavesNeeded(mem: Mem, run: seq<Insn>, frame: int, mask: Mask, top: Word, h: Word) returns (env: Env<Word>, x: Regs)
    requires mem.Valid() && FrameMask(run, frame) == Some(mask) && run != []
    requires !SavesFree(mem, run, Wrap(top - frame))
    ensures GoodEnv(env) && x[0] == 0 && x[2] == top
    ensures Puts(env, h, mem, TextAddrs(run, Wrap(top - frame)), ValuesOf(x, RegsOf(run)))
            != SlowSave(env, h, mem, x, RanksOf(mask), top)
  {
    hide Wrap, FrameMask, RanksOf, GoodEnv, Puts, SlowSave, Hit, WordOf, Watching, Lists, Follows, SavesFree, Fresh;
    var sp := Wrap(top - frame);
    var order := RunLists(run, frame, mask, top);
    var addrs := TextAddrs(run, sp);
    var i, j := TellingSaves(mem, run, sp, order);
    assert RegsOf(run)[j] in RegsOf(run);
    x := Fresh(top, RegsOf(run)[j], if Hit(mem, addrs[j]) then WordOf(mem, addrs[j]) else 0);
    env := Watching(addrs[i], addrs[j]);
    WatchingGood(addrs[i], addrs[j]);
    SavesTell(h, mem, x, addrs, RegsOf(run), DownAddrs(top, |run|), RankRegs(RanksOf(mask)), order, i, j);
    SlowSaveIsPuts(env, h, mem, x, RanksOf(mask), top);
  }

  /** The same for two restores: whatever the machine. */
  lemma RestoresNeeded(m: Machine<Word>, run: seq<Insn>, frame: int, mask: Mask, top: Word) returns (env: Env<Word>)
    requires m.mem.Valid() && FrameMask(run, frame) == Some(mask) && run != []
    requires !RestoresFree(m.mem, run, Wrap(top - frame))
    ensures GoodEnv(env)
    ensures Gets(env, m, RegsOf(run), TextAddrs(run, Wrap(top - frame))) != SlowRestore(env, m, RanksOf(mask), top)
  {
    hide Wrap, FrameMask, RanksOf, GoodEnv, Gets, SlowRestore, Hit, HitRom, WordOf, Meddling, Lists, Follows, RestoresFree, Missed;
    var sp := Wrap(top - frame);
    var order := RunLists(run, frame, mask, top);
    var addrs := TextAddrs(run, sp);
    var i, j := TellingRestores(m.mem, run, sp, order);
    var v := OtherWord(if Hit(m.mem, addrs[j]) then WordOf(m.mem, addrs[j]) else 0);
    env := Meddling(addrs[i], addrs[j], v);
    MeddlingGood(addrs[i], addrs[j], v);
    RestoresTell(m, v, addrs, RegsOf(run), DownAddrs(top, |run|), RankRegs(RanksOf(mask)), order, i, j);
    SlowRestoreIsGets(env, m, RanksOf(mask), top);
  }

  function OtherWord(v: Word): (r: Word)
    ensures r != v
  {
    if v == 0 then 1 else 0
  }

  /** The exact condition for a fused prologue's saves: they leave what the run's stores leave,
      for all callbacks and registers, if and only if stores out of slot order are free. */
  lemma SavesAgreeIff(mem: Mem, run: seq<Insn>, frame: int, mask: Mask, top: Word, h: Word)
    requires mem.Valid() && FrameMask(run, frame) == Some(mask) && run != []
    ensures (forall env: Env<Word>, x: Regs :: GoodEnv(env) ==>
              Puts(env, h, mem, TextAddrs(run, Wrap(top - frame)), ValuesOf(x, RegsOf(run)))
              == SlowSave(env, h, mem, x, RanksOf(mask), top))
            <==> SavesFree(mem, run, Wrap(top - frame))
  {
    hide Wrap, FrameMask, RanksOf, GoodEnv, Puts, SlowSave, SavesFree;
    if SavesFree(mem, run, Wrap(top - frame)) {
      forall env: Env<Word>, x: Regs | GoodEnv(env)
        ensures Puts(env, h, mem, TextAddrs(run, Wrap(top - frame)), ValuesOf(x, RegsOf(run)))
                == SlowSave(env, h, mem, x, RanksOf(mask), top)
      {
        SavesAgree(env, h, mem, x, run, frame, mask, top);
      }
    } else {
      var env, x := SavesNeeded(mem, run, frame, mask, top, h);
    }
  }

  /** And for a fused epilogue's restores. */
  lemma RestoresAgreeIff(m: Machine<Word>, run: seq<Insn>, frame: int, mask: Mask, top: Word)
    requires m.mem.Valid() && FrameMask(run, frame) == Some(mask) && run != []
    ensures (forall env: Env<Word> :: GoodEnv(env) ==>
              Gets(env, m, RegsOf(run), TextAddrs(run, Wrap(top - frame))) == SlowRestore(env, m, RanksOf(mask), top))
            <==> RestoresFree(m.mem, run, Wrap(top - frame))
  {
    hide Wrap, FrameMask, RanksOf, GoodEnv, Gets, SlowRestore, RestoresFree;
    if RestoresFree(m.mem, run, Wrap(top - frame)) {
      forall env: Env<Word> | GoodEnv(env)
        ensures Gets(env, m, RegsOf(run), TextAddrs(run, Wrap(top - frame))) == SlowRestore(env, m, RanksOf(mask), top)
      {
        RestoresAgree(env, m, run, frame, mask, top);
      }
    } else {
      var env := RestoresNeeded(m, run, frame, mask, top);
    }
  }

  /** The condition PrologueAgrees asks for cannot be dropped: without it some machine with this
      memory and stack pointer tells the fused prologue from its instructions. */
  lemma PrologueNeeds(p: Prog, i: nat, mem: Mem, top: Word, run: seq<Insn>, frame: nat, mask: Mask)
      returns (env: Env<Word>, m: Machine<Word>)
    requires PrologueAt(p, i, run, frame) && FrameMask(run, frame) == Some(mask) && run != [] && Ready(mem)
    requires !SavesFree(mem, run, Wrap(top - frame))
    ensures GoodEnv(env) && m.Valid() && m.mem == mem && Sp(m) == top
    ensures !RunsAs(p, env, Prologue(mask, frame), i, m)
  {
    hide SrcRun, FrameMask, Wrap, Exec, SlowSave, Puts, RanksOf, GoodEnv, SavesFree, PrologueAt;
    var x;
    env, x := SavesNeeded(mem, run, frame, mask, top, 0);
    m := Machine(x, mem, 0);
    PrologueSource(p, env, i, m, run, frame);
    ExecPrologue(env, m, frame, mask, OpAt(p.plan, i));
  }

  /** A list of loads leaves the registers it does not name. */
  lemma {:induction false} GetsAside<H>(env: Env<H>, m: Machine<H>, regs: seq<Reg>, addrs: seq<Word>)
    requires 2 !in regs
    ensures Sp(Gets(env, m, regs, addrs)) == Sp(m)
    decreases |regs|
  {
    if regs != [] && addrs != [] {
      assert regs[0] in regs;
      GetsAside(env, GetWord(env, m, regs[0], addrs[0]), regs[1..], addrs[1..]);
    }
  }

  /** Nor can EpilogueAgrees's, whatever the machine: some callbacks leave it another machine
      after the fused epilogue than after its instructions. */
  lemma EpilogueNeeds(p: Prog, i: nat, m: Machine<Word>, run: seq<Insn>, frame: nat, mask: Mask)
      returns (env: Env<Word>, m': Machine<Word>)
    requires EpilogueAt(p, i, run, frame) && FrameMask(run, frame) == Some(mask) && run != [] && m.Valid() && Ready(m.mem)
    requires !RestoresFree(m.mem, run, Sp(m))
    ensures GoodEnv(env) && UnitRun(p, env, i, m) == Returned(p, m')
    ensures LeavesOther(env, Epilogue(mask, frame), i, m, m')
    ensures UnitRun(p, env, i, m).Wild? || !RunsAs(p, env, Epilogue(mask, frame), i, m)
  {
    hide SrcRun, FrameMask, Wrap, Exec, SlowRestore, Gets, RanksOf, GoodEnv, RestoresFree, ClearBit0, EpilogueAt, Land;
    var top := Wrap(Sp(m) + frame);
    FrameIsWord(p, i, run, frame);
    AddThenSubtract(Sp(m), frame);
    env := RestoresNeeded(m, run, frame, mask, top);
    m' := RestoredAbove(env, m, run, frame);
    EpilogueSource(p, env, i, m, run, frame);
    var ranks := RanksOf(mask);
    RankRegsSaved(ranks);
    SlowRestoreIsGets(env, m, ranks, top);
    GetsAside(env, m, RankRegs(ranks), DownAddrs(top, |ranks|));
    SpAside(RestoredAll(env, m, run), SlowRestore(env, m, ranks, top), top);
    ExecEpilogue(env, m, frame, mask, i);
    ExecEpilogue(env, m, frame, mask, OpAt(p.plan, i));
  }

  /** The op at index q leaves another machine than m'. */
  ghost predicate LeavesOther(env: Env<Word>, op: Op, q: nat, m: Machine<Word>, m': Machine<Word>) {
    Ready(m.mem) && Exec(env, op, q, m).m != m'
  }

  lemma FrameIsWord(p: Prog, i: nat, run: seq<Insn>, frame: nat)
    requires EpilogueAt(p, i, run, frame)
    ensures frame < 0x1_0000_0000
  {
  }

  /** Moving the stack pointer does not make two machines equal that differ elsewhere. */
  lemma SpAside(a: Machine<Word>, b: Machine<Word>, top: Word)
    requires a != b && Sp(a) == Sp(b)
    ensures a.(x := a.x[2 := top]) != b.(x := b.x[2 := top])
  {
    if a.x[2 := top] == b.x[2 := top] {
      assert forall r: Reg :: r != 2 ==> a.x[r] == a.x[2 := top][r] && b.x[r] == b.x[2 := top][r];
    }
  }
}
