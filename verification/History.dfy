/** Reverse execution: a ring of undo records that refines the last 65536 pre-step states.
    Registers and pc come back for every engine; memory exactly where a step reported its stores. */
module History {
  import opened Words
  import opened Machines

  const HIST_FRAMES := 65536
  const FRAME_WRITES := 4
  const OLD_BYTES := 8

  /** The bytes a store overwrote. */
  datatype Undo = Undo(addr: Word, old_: seq<Byte>)

  /** What is kept of one step: the registers and pc before it, and its overwritten bytes. */
  datatype Frame = Frame(x: Regs, pc: Word, w: seq<Undo>, overflow: bool)

  datatype State = State(x: Regs, pc: Word, mem: seq<Byte>)

  /** One step of the engine and the stores it reports, in order. */
  datatype Engine = Engine(step: State -> State, stores: State -> seq<Undo>)

  /** Writes old bytes back; a byte outside the writable region is dropped. */
  function PutBytes(mem: seq<Byte>, base: Word, addr: Word, bs: seq<Byte>): (r: seq<Byte>)
    ensures |r| == |mem|
    decreases |bs|
  {
    if bs == [] then mem
    else
      var rel := Rel(addr, base);
      PutBytes(if rel < |mem| then mem[rel := bs[0]] else mem, base, Wrap(addr + 1), bs[1..])
  }

  /** Undoes a step's stores, last first. */
  function UndoAll(mem: seq<Byte>, base: Word, w: seq<Undo>): (r: seq<Byte>)
    ensures |r| == |mem|
    decreases |w|
  {
    if w == [] then mem
    else
      var last := w[|w| - 1];
      UndoAll(PutBytes(mem, base, last.addr, last.old_), base, w[..|w| - 1])
  }

  /** The engine keeps x0 zero and the region's size. What it reports of its stores is its own
      affair: the engines of the repository report none. */
  ghost predicate Sound(e: Engine) {
    forall s: State :: s.x[0] == 0 ==> e.step(s).x[0] == 0 && |e.step(s).mem| == |s.mem|
  }

  /** Only the stores that fit are kept; one that does not marks the frame. */
  function Keep(f: Frame, u: Undo): Frame {
    if |f.w| >= FRAME_WRITES || |u.old_| > OLD_BYTES then f.(overflow := true) else f.(w := f.w + [u])
  }

  function KeepAll(f: Frame, us: seq<Undo>): Frame
    decreases |us|
  {
    if us == [] then f else KeepAll(Keep(f, us[0]), us[1..])
  }

  lemma {:induction false} KeepAllWhole(f: Frame, us: seq<Undo>)
    ensures var g := KeepAll(f, us);
            g.x == f.x && g.pc == f.pc && (!g.overflow ==> !f.overflow && g.w == f.w + us)
    decreases |us|
  {
    if us == [] {
      assert f.w + [] == f.w;
    } else {
      KeepAllWhole(Keep(f, us[0]), us[1..]);
      assert f.w + [us[0]] + us[1..] == f.w + us;
    }
  }

  /** Later stores never clear the mark. */
  lemma {:induction false} MarkStays(f: Frame, us: seq<Undo>)
    requires f.overflow
    ensures KeepAll(f, us).overflow
    decreases |us|
  {
    if us != [] { MarkStays(Keep(f, us[0]), us[1..]); }
  }

  /** A frame is incomplete exactly when its step reported more than four stores, or one of more
      than eight bytes. */
  lemma {:induction false} OverflowIff(f: Frame, us: seq<Undo>)
    requires !f.overflow && |f.w| <= 4
    ensures KeepAll(f, us).overflow <==> |f.w| + |us| > 4 || exists u :: u in us && |u.old_| > 8
    decreases |us|
  {
    if us != [] {
      var g := Keep(f, us[0]);
      assert us == [us[0]] + us[1..];
      if g.overflow { MarkStays(g, us[1..]); } else { OverflowIff(g, us[1..]); }
    }
  }

  // ---- the ring ----

  /** The k-th kept frame's place in the ring. */
  function Place(head: nat, k: nat): (r: nat)
    ensures r < HIST_FRAMES
  {
    (head + k) % HIST_FRAMES
  }

  lemma PlaceIs(head: nat, k: nat)
    requires head < HIST_FRAMES && k <= HIST_FRAMES
    ensures Place(head, k) == if head + k < HIST_FRAMES then head + k else head + k - HIST_FRAMES
  {
  }

  /** The kept frames, oldest first. */
  function Kept(hs: seq<Frame>, head: nat, count: nat): (s: seq<Frame>)
    requires |hs| == HIST_FRAMES && head < HIST_FRAMES && count <= HIST_FRAMES
    ensures |s| == count && forall k :: 0 <= k < count ==> s[k] == hs[Place(head, k)]
  {
    seq(count, k requires 0 <= k < count => hs[Place(head, k)])
  }

  /** Recording pushes; a full ring drops its oldest frame to make room. */
  lemma Pushed(hs: seq<Frame>, head: nat, count: nat, f: Frame)
    requires |hs| == HIST_FRAMES && head < HIST_FRAMES && count <= HIST_FRAMES
    ensures var hs' := hs[Place(head, count) := f];
            var kept := Kept(hs, head, count);
            if count == HIST_FRAMES then Kept(hs', Place(head, 1), count) == kept[1..] + [f]
            else Kept(hs', head, count + 1) == kept + [f]
  {
    hide Place;
    var hs' := hs[Place(head, count) := f];
    PlaceIs(head, count);
    if count == HIST_FRAMES {
      PlaceIs(head, 1);
      forall k | 0 <= k < count
        ensures Kept(hs', Place(head, 1), count)[k] == (Kept(hs, head, count)[1..] + [f])[k]
      {
        PlaceIs(Place(head, 1), k);
        PlaceIs(head, k + 1);
      }
    } else {
      forall k | 0 <= k < count + 1
        ensures Kept(hs', head, count + 1)[k] == (Kept(hs, head, count) + [f])[k]
      {
        PlaceIs(head, k);
      }
    }
  }

  /** Reversing pops. */
  lemma Popped(hs: seq<Frame>, head: nat, count: nat)
    requires |hs| == HIST_FRAMES && head < HIST_FRAMES && 0 < count <= HIST_FRAMES
    ensures var kept := Kept(hs, head, count);
            Kept(hs, head, count - 1) == kept[..count - 1] && hs[(head + count - 1) % HIST_FRAMES] == kept[count - 1]
  {
  }

  // ---- what the frames are ----

  /** The frame a step taken in state s leaves. */
  function FrameFor(e: Engine, s: State): (f: Frame)
    ensures f.x == s.x && f.pc == s.pc
  {
    KeepAllWhole(Frame(s.x, s.pc, [], false), e.stores(s));
    KeepAll(Frame(s.x, s.pc, [], false), e.stores(s))
  }

  /** What the step taken in s reported takes its memory back. */
  predicate Undoes(e: Engine, base: Word, s: State) {
    UndoAll(e.step(s).mem, base, FrameFor(e, s).w) == s.mem
  }

  /** The state that followed past[k]. */
  function Following(past: seq<State>, now: State, k: nat): State
    requires k < |past|
  {
    if k + 1 < |past| then past[k + 1] else now
  }

  /** The kept states are the last steps of one uninterrupted run up to now. */
  predicate Straight(e: Engine, past: seq<State>, now: State) {
    forall k {:trigger past[k]} :: 0 <= k < |past| ==> e.step(past[k]) == Following(past, now, k)
  }

  lemma StraightPush(e: Engine, past: seq<State>, now: State)
    requires Straight(e, past, now)
    ensures Straight(e, past + [now], e.step(now))
    ensures past != [] ==> Straight(e, past[1..] + [now], e.step(now))
  {
    var p1, next := past + [now], e.step(now);
    forall k | 0 <= k < |p1|
      ensures e.step(p1[k]) == Following(p1, next, k)
    {
      assert k < |past| ==> Following(p1, next, k) == Following(past, now, k);
    }
    if past != [] {
      var p2 := past[1..] + [now];
      forall k | 0 <= k < |p2|
        ensures e.step(p2[k]) == Following(p2, next, k)
      {
        assert p2[k] == p1[k + 1] && Following(p2, next, k) == Following(p1, next, k + 1);
      }
    }
  }

  lemma StraightPop(e: Engine, past: seq<State>, now: State)
    requires past != [] && Straight(e, past, now)
    ensures e.step(past[|past| - 1]) == now
    ensures Straight(e, past[..|past| - 1], past[|past| - 1])
  {
    var n := |past| - 1;
    assert Following(past, now, n) == now;
    forall k | 0 <= k < n
      ensures e.step(past[..n][k]) == Following(past[..n], past[n], k)
    {
      assert past[..n][k] == past[k] && Following(past[..n], past[n], k) == Following(past, now, k);
    }
  }

  /** The step's frame is incomplete exactly when it reported more than four stores, or one of
      more than eight bytes. */
  lemma IncompleteIff(e: Engine, s: State)
    ensures FrameFor(e, s).overflow <==> |e.stores(s)| > 4 || exists u :: u in e.stores(s) && |u.old_| > 8
  {
    OverflowIff(Frame(s.x, s.pc, [], false), e.stores(s));
  }

  // ---- what a truthful report undoes ----

  /** The byte at place j of the region is the k-th from addr. */
  function Nth(base: Word, j: nat, addr: Word): Word {
    Wrap(base + j - addr)
  }

  /** Putting bytes back changes the places from addr on, modulo 2^32, and no other. */
  lemma {:induction false} PutBytesAt(mem: seq<Byte>, base: Word, addr: Word, bs: seq<Byte>, j: nat)
    requires j < |mem| < 0x1_0000_0000 && |bs| < 0x1_0000_0000
    ensures var k := Nth(base, j, addr); PutBytes(mem, base, addr, bs)[j] == if k < |bs| then bs[k] else mem[j]
    decreases |bs|
  {
    hide Wrap;
    if bs != [] {
      NthNext(base, j, addr);
      var rel := Rel(addr, base);
      PutBytesAt(if rel < |mem| then mem[rel := bs[0]] else mem, base, Wrap(addr + 1), bs[1..], j);
    }
  }

  lemma NthNext(base: Word, j: nat, addr: Word)
    requires j < 0x1_0000_0000
    ensures Nth(base, j, addr) == 0 <==> Rel(addr, base) == j
    ensures Nth(base, j, Wrap(addr + 1)) == if Nth(base, j, addr) == 0 then 0xffff_ffff else Nth(base, j, addr) - 1
  {
    WrapNear(addr - base);
    WrapNear(addr + 1);
    WrapNear(base + j - addr);
    WrapNear(base + j - Wrap(addr + 1));
  }

  /** A store took memory from m0 to m1, and u holds what it overwrote. */
  ghost predicate Overwrote(m0: seq<Byte>, m1: seq<Byte>, base: Word, u: Undo) {
    |m0| == |m1| && |u.old_| < 0x1_0000_0000 &&
    forall j :: 0 <= j < |m0| ==> var k := Nth(base, j, u.addr); if k < |u.old_| then u.old_[k] == m0[j] else m1[j] == m0[j]
  }

  /** A report of a step's stores in order, each with the bytes it found, undoes the step. */
  lemma {:induction false} TruthUndoes(mems: seq<seq<Byte>>, base: Word, w: seq<Undo>)
    requires |mems| == |w| + 1 && |mems[0]| < 0x1_0000_0000
    requires forall i :: 0 <= i < |w| ==> Overwrote(mems[i], mems[i + 1], base, w[i])
    ensures UndoAll(mems[|w|], base, w) == mems[0]
    decreases |w|
  {
    if w != [] {
      var n := |w| - 1;
      SameSizes(mems, base, w, n);
      forall j | 0 <= j < |mems[n]|
        ensures PutBytes(mems[n + 1], base, w[n].addr, w[n].old_)[j] == mems[n][j]
      {
        PutBytesAt(mems[n + 1], base, w[n].addr, w[n].old_, j);
      }
      assert PutBytes(mems[n + 1], base, w[n].addr, w[n].old_) == mems[n];
      TruthUndoes(mems[..n + 1], base, w[..n]);
    }
  }

  lemma {:induction false} SameSizes(mems: seq<seq<Byte>>, base: Word, w: seq<Undo>, i: nat)
    requires |mems| == |w| + 1 && i <= |w|
    requires forall i :: 0 <= i < |w| ==> Overwrote(mems[i], mems[i + 1], base, w[i])
    ensures |mems[i]| == |mems[0]|
    decreases i
  {
    if i > 0 {
      SameSizes(mems, base, w, i - 1);
      assert Overwrote(mems[i - 1], mems[i - 1 + 1], base, w[i - 1]);
    }
  }

  // ---- memory over several reversals ----

  /** Memory after the steps taken in `states` are reversed, the last one first. */
  function Rewound(e: Engine, base: Word, mem: seq<Byte>, states: seq<State>): seq<Byte>
    decreases |states|
  {
    if states == [] then mem
    else UndoAll(Rewound(e, base, mem, states[1..]), base, FrameFor(e, states[0]).w)
  }

  /** Each of the last j reversals finds the memory of its own step again. */
  ghost predicate AllRestored(e: Engine, base: Word, past: seq<State>, now: State, j: nat)
    requires j <= |past|
  {
    forall i {:trigger past[i]} :: |past| - j <= i < |past| ==> Rewound(e, base, now.mem, past[i..]) == past[i].mem
  }

  ghost predicate AllUndo(e: Engine, base: Word, past: seq<State>, j: nat)
    requires j <= |past|
  {
    forall i :: |past| - j <= i < |past| ==> Undoes(e, base, past[i])
  }

  /** Memory comes back step by step if and only if every undone step's report undoes it. */
  lemma {:induction false} RewindExact(e: Engine, base: Word, past: seq<State>, now: State, j: nat)
    requires j <= |past| && Straight(e, past, now)
    ensures AllRestored(e, base, past, now, j) <==> AllUndo(e, base, past, j)
    decreases j
  {
    hide UndoAll, FrameFor;
    if j > 0 {
      RewindExact(e, base, past, now, j - 1);
      var i := |past| - j;
      assert past[i..][1..] == past[i + 1..] && past[i..][0] == past[i];
      var after := Rewound(e, base, now.mem, past[i + 1..]);
      assert Rewound(e, base, now.mem, past[i..]) == UndoAll(after, base, FrameFor(e, past[i]).w);
      assert AllRestored(e, base, past, now, j - 1) ==> after == Following(past, now, i).mem by {
        if i + 1 < |past| { assert |past| - (j - 1) <= i + 1; }
      }
      assert e.step(past[i]) == Following(past, now, i);
      assert AllRestored(e, base, past, now, j) <==>
             AllRestored(e, base, past, now, j - 1) && Rewound(e, base, now.mem, past[i..]) == past[i].mem;
    }
  }

  /** An engine that reports nothing unwinds registers only: its memory comes back exactly when
      no undone step changed it. */
  lemma RegistersOnly(e: Engine, base: Word, past: seq<State>, now: State, j: nat)
    requires j <= |past| && Straight(e, past, now) && forall s :: e.stores(s) == []
    ensures AllRestored(e, base, past, now, j) <==>
            forall i {:trigger past[i]} :: |past| - j <= i < |past| ==> e.step(past[i]).mem == past[i].mem
  {
    RewindExact(e, base, past, now, j);
    forall i | |past| - j <= i < |past|
      ensures Undoes(e, base, past[i]) <==> e.step(past[i]).mem == past[i].mem
    {
      assert FrameFor(e, past[i]).w == [];
    }
  }

  /** Reports that are complete and fit their frame undo their step. */
  lemma FullReportUndoes(e: Engine, base: Word, s: State)
    requires UndoAll(e.step(s).mem, base, e.stores(s)) == s.mem && !FrameFor(e, s).overflow
    ensures Undoes(e, base, s)
  {
    KeepAllWhole(Frame(s.x, s.pc, [], false), e.stores(s));
    assert [] + e.stores(s) == e.stores(s);
  }

  /** A sound engine that stores one byte and does not say so. */
  function Poke(s: State): State {
    if s.mem == [] then s else s.(mem := s.mem[0 := 1])
  }

  /** Its store stays when the step is reversed. */
  lemma StoreStays(base: Word)
    ensures var e, s := Engine(Poke, s => []), State(seq(32, i => 0), 0, [0]);
            Sound(e) && !Undoes(e, base, s) && Rewound(e, base, e.step(s).mem, [s]) == [1]
  {
    var e, s := Engine(Poke, s => []), State(seq(32, i => 0), 0, [0]);
    assert FrameFor(e, s).w == [];
    assert Rewound(e, base, e.step(s).mem, [s][1..]) == [1];
    assert [s][0] == s && s.mem[0] == 0;
  }

  predicate Complete(e: Engine, past: seq<State>) {
    forall k :: 0 <= k < |past| ==> !FrameFor(e, past[k]).overflow
  }

  /** The kept frames are those of the kept states. */
  ghost predicate Tracks(e: Engine, kept: seq<Frame>, past: seq<State>) {
    |kept| == |past| && forall k :: 0 <= k < |past| ==> kept[k] == FrameFor(e, past[k]) && past[k].x[0] == 0
  }

  lemma TracksTop(e: Engine, kept: seq<Frame>, past: seq<State>)
    requires Tracks(e, kept, past) && past != []
    ensures var n := |past| - 1; |kept| == |past| && kept[n] == FrameFor(e, past[n]) && past[n].x[0] == 0
    ensures Tracks(e, kept[..|past| - 1], past[..|past| - 1])
  {
    hide FrameFor;
  }

  /** A restored state is the step's start exactly when the report undoes the step. */
  lemma RestoredIff(e: Engine, base: Word, past: seq<State>, now: State, restored: State)
    requires past != [] && Straight(e, past, now)
    requires var s := past[|past| - 1];
             restored == State(s.x, s.pc, UndoAll(now.mem, base, FrameFor(e, s).w))
    ensures var n := |past| - 1;
            (restored == past[n] <==> Undoes(e, base, past[n])) &&
            (restored == past[n] ==> Straight(e, past[..n], restored))
  {
    hide UndoAll, FrameFor, Straight;
    StraightPop(e, past, now);
  }

  lemma TracksPush(e: Engine, kept: seq<Frame>, past: seq<State>, s: State)
    requires Tracks(e, kept, past) && s.x[0] == 0
    ensures Tracks(e, kept + [FrameFor(e, s)], past + [s])
    ensures past != [] ==> Tracks(e, kept[1..] + [FrameFor(e, s)], past[1..] + [s])
  {
    hide FrameFor;
  }

  class Debugger {
    const e: Engine
    const base: Word
    const x: array<Word>
    var pc: Word
    const mem: array<Byte>
    const hist: array<Frame>
    var head: nat
    var count: nat
    /** The states the kept frames were taken in, oldest first. */
    ghost var past: seq<State>

    function Now(): State
      requires x.Length == 32
      reads this, x, mem
    {
      State(x[..], pc, mem[..])
    }

    ghost function Frames(): seq<Frame>
      requires hist.Length == HIST_FRAMES && head < HIST_FRAMES && count <= HIST_FRAMES
      reads this, hist
    {
      Kept(hist[..], head, count)
    }

    /** The ring is the stack of the states it was recorded in. */
    ghost predicate Valid()
      reads this, x, mem, hist
    {
      && x.Length == 32 && hist.Length == HIST_FRAMES && Sound(e) && head < HIST_FRAMES && count <= HIST_FRAMES
      && x as object != mem && hist as object != x && hist as object != mem
      && x[0] == 0 && Tracks(e, Frames(), past)
    }

    /** An empty history over any registers with x0 zero and any memory. */
    constructor (e: Engine, base: Word, x: array<Word>, pc: Word, mem: array<Byte>)
      requires Sound(e) && x.Length == 32 && x[0] == 0 && x as object != mem
      ensures Valid() && this.e == e && this.base == base && this.x == x && this.pc == pc && this.mem == mem
      ensures past == [] && count == 0 && fresh(hist)
    {
      this.e, this.base, this.x, this.pc, this.mem := e, base, x, pc, mem;
      hist := new Frame[HIST_FRAMES](_ => Frame(seq(32, i => 0), 0, [], false));
      head, count, past := 0, 0, [];
    }

    /** Takes over the state a step left. */
    method Set(s: State)
      requires x.Length == 32 && |s.mem| == mem.Length && x as object != mem
      modifies this`pc, x, mem
      ensures Now() == s
    {
      forall k | 0 <= k < 32 { x[k] := s.x[k]; }
      forall k | 0 <= k < mem.Length { mem[k] := s.mem[k]; }
      pc := s.pc;
      assert x[..] == s.x && mem[..] == s.mem;
    }

    /** Steps once, recording: the oldest frame makes room when the ring is full. */
    method StepRecord()
      requires Valid()
      modifies this, x, mem, hist
      ensures Valid() && Now() == e.step(old(Now()))
      ensures past == if old(count) == 65536 then old(past)[1..] + [old(Now())] else old(past) + [old(Now())]
      ensures count == if old(count) == 65536 then 65536 else old(count) + 1
      ensures old(Straight(e, past, Now())) ==> Straight(e, past, Now())
    {
      hide Tracks, Kept, Place, FrameFor, Straight;
      TracksCount();
      ghost var hs, was, s := hist[..], past, Now();
      ghost var kept := Frames();
      var slot := Place(head, count);
      var f := FrameFor(e, Now());
      var t := e.step(Now());
      TracksPush(e, kept, was, s);
      if Straight(e, was, s) { StraightPush(e, was, s); }
      Pushed(hs, head, count, f);
      PlaceIs(head, count);
      hist[slot] := f;
      assert hist[..] == hs[slot := f];
      if count == HIST_FRAMES {
        PlaceIs(head, 1);
        head := Place(head, 1);
        past := past[1..] + [s];
      } else {
        count := count + 1;
        past := past + [s];
      }
      Set(t);
    }

    /** Undoes the latest recorded step: 1 when undone, -1 when its frame was incomplete and is
        only dropped, 0 at the start of history. Registers and pc are those of the step's start
        for every engine; memory is, on a straight run, exactly when the report undoes the step. */
    method StepReverse() returns (r: int)
      requires Valid()
      modifies this, x, mem
      ensures Valid()
      ensures old(count) == 0 ==> r == 0 && Now() == old(Now()) && past == old(past) && count == 0
      ensures old(count) > 0 ==> count == old(count) - 1 && |old(past)| == old(count) && past == old(past)[..count]
      ensures old(count) > 0 ==> r == if FrameFor(e, old(past)[count]).overflow then -1 else 1
      ensures r == 1 ==> Now().x == old(past)[count].x && Now().pc == old(past)[count].pc
      ensures r == 1 ==> Now().mem == UndoAll(old(Now()).mem, base, FrameFor(e, old(past)[count]).w)
      ensures r == 1 && old(Straight(e, past, Now())) ==> (Now() == old(past)[count] <==> Undoes(e, base, old(past)[count]))
      ensures r == 1 && old(Straight(e, past, Now())) && Now() == old(past)[count] ==> Straight(e, past, Now())
      ensures r == -1 ==> Now() == old(Now())
    {
      hide Kept, Place, UndoAll, FrameFor, Straight, Tracks, Sound, Undoes;
      TracksCount();
      ghost var kept, was, s := Frames(), past, Now();
      if count == 0 { return 0; }
      Popped(hist[..], head, count);
      TracksTop(e, kept, was);
      var f := hist[(head + count - 1) % HIST_FRAMES];
      assert f == hist[..][(head + count - 1) % HIST_FRAMES];
      count := count - 1;
      past := past[..count];
      if f.overflow { return -1; }
      Restore(f);
      assert f.x[0 := 0] == f.x;
      if Straight(e, was, s) { RestoredIff(e, base, was, s, Now()); }
      return 1;
    }

    lemma TracksCount()
      requires Valid()
      ensures |past| == count
    {
    }

    /** Goes back one step or, continuing, until the pc about to execute is a breakpoint or
        history runs out. With every kept frame complete it lands on the registers and pc of
        `undone` steps ago, no breakpoint in between passed over, and on the memory the reports
        rewind to. */
    method Reverse(cont: bool, bp: Word -> bool) returns (ghost undone: nat)
      requires Valid()
      modifies this, x, mem
      ensures Valid() && |old(past)| == old(count) && undone <= old(count) && past == old(past)[..old(count) - undone]
      ensures undone == 0 <==> old(count) == 0
      ensures old(count) == 0 ==> Now() == old(Now())
      ensures !cont ==> undone <= 1
      ensures cont && undone < old(count) ==> bp(pc)
      ensures Complete(e, old(past)) && undone > 0 ==>
                var s := old(past)[old(count) - undone];
                Now() == State(s.x, s.pc, Rewound(e, base, old(Now()).mem, old(past)[old(count) - undone..]))
      ensures Complete(e, old(past)) && undone > 0 && old(Straight(e, past, Now())) && AllUndo(e, base, old(past), undone) ==>
                Now() == old(past)[old(count) - undone]
      ensures Complete(e, old(past)) && cont ==> forall j :: old(count) - undone < j < old(count) ==> !bp(old(past)[j].pc)
    {
      hide Tracks, Kept, Place, UndoAll, FrameFor, Straight, Undoes, Sound;
      ghost var c, was, s := count, past, Now();
      TracksCount();
      undone := 0;
      assert was[c..] == [];
      while true
        invariant Valid() && count == c - undone && undone <= c && past == was[..count]
        invariant undone == 0 ==> Now() == s
        invariant undone > 0 ==> cont
        invariant Complete(e, was) && undone > 0 ==> Now().x == was[count].x && Now().pc == was[count].pc
        invariant Complete(e, was) ==> Now().mem == Rewound(e, base, s.mem, was[count..])
        invariant Complete(e, was) ==> forall j :: count <= j < c ==> !bp(was[j].pc)
        decreases count
      {
        var r := StepReverse();
        if r == 0 { break; }
        undone := undone + 1;
        assert was[count..][1..] == was[count + 1..] && was[count..][0] == was[count];
        if !cont { break; }
        if bp(pc) { break; }
      }
      if Complete(e, was) && undone > 0 && Straight(e, was, s) {
        RewindExact(e, base, was, s, undone);
      }
    }

    /** Puts back a frame's memory, registers 1 to 31 and pc. */
    method Restore(f: Frame)
      requires x.Length == 32 && x as object != mem
      modifies this`pc, x, mem
      ensures mem[..] == UndoAll(old(mem[..]), base, f.w) && pc == f.pc
      ensures x[..] == f.x[0 := old(x[0])]
    {
      var i := |f.w|;
      assert f.w[..i] == f.w;
      while i > 0
        invariant 0 <= i <= |f.w| && x[..] == old(x[..])
        invariant UndoAll(mem[..], base, f.w[..i]) == UndoAll(old(mem[..]), base, f.w)
      {
        i := i - 1;
        assert f.w[..i + 1][..i] == f.w[..i];
        WriteBack(f.w[i]);
      }
      i := 1;
      while i < 32
        invariant 1 <= i <= 32 && mem[..] == UndoAll(old(mem[..]), base, f.w)
        invariant x[0] == old(x[0]) && forall k :: 1 <= k < i ==> x[k] == f.x[k]
      {
        x[i] := f.x[i];
        i := i + 1;
      }
      pc := f.pc;
    }

    method WriteBack(u: Undo)
      modifies mem
      ensures mem[..] == PutBytes(old(mem[..]), base, u.addr, u.old_)
    {
      var a, i := u.addr, 0;
      assert u.old_[0..] == u.old_;
      while i < |u.old_|
        invariant 0 <= i <= |u.old_|
        invariant PutBytes(mem[..], base, a, u.old_[i..]) == PutBytes(old(mem[..]), base, u.addr, u.old_)
      {
        assert u.old_[i..][1..] == u.old_[i + 1..];
        var rel := Rel(a, base);
        if rel < mem.Length { mem[rel] := u.old_[i]; }
        a := Wrap(a as int + 1);
        i := i + 1;
      }
    }
  }
}
