/** A run from `kheap_init` to an exact heap: allocating and freeing the first block absorbs the orphans one by one. */
module HeapReach {
  import opened FrameSpec
  import opened HeapSpec
  import opened HeapInvariant
  import opened HeapRuns
  import opened HeapLayout
  import opened HeapExact

  /** The first `m` of the pages `fs` are one listed block; each other page is a free block and an orphan. */
  ghost predicate FirstSpans(h: Heap, fs: seq<nat>, m: nat)
    requires 0 < m <= |fs|
  {
    && h.blocks == [Block(FrameAddr(fs[0]), 4096 * m - 48, true)] + NewPages(fs[m..])
    && h.frags == Frags([FrameAddr(fs[0])], Singles(fs[m..]))
  }

  /** The same with the first block allocated. */
  ghost predicate FirstTaken(h: Heap, fs: seq<nat>, m: nat)
    requires 0 < m <= |fs|
  {
    && h.blocks == [Block(FrameAddr(fs[0]), 4096 * m - 48, false)] + NewPages(fs[m..])
    && h.frags == Frags([], Singles(fs[m..]))
  }

  // ---------- one round ----------

  lemma TakeFirst(h: Heap, fs: seq<nat>, m: nat)
    requires 0 < m <= |fs| && FirstSpans(h, fs, m)
    ensures var (g, p) := TakeFit(h, 4096 * m - 48); p == FrameAddr(fs[0]) + 48 && FirstTaken(g, fs, m)
    ensures ListedFit(h, 4096 * m - 48)
  {
    var a, s := FrameAddr(fs[0]), 4096 * m - 48;
    assert Find(h.blocks, a) == 0;
    assert Fits(h.blocks, a, s);
    assert FirstFit(h.blocks, h.frags.list, s) == 0;
    assert RemoveAt([a], 0) == [];
    assert SetFree(h.blocks, 0, false) == [Block(a, s, false)] + NewPages(fs[m..]);
  }

  lemma MallocFirst(h: Heap, fs: seq<nat>, m: nat, size: nat)
    requires 0 < m <= |fs| && m <= 5 && size == 4096 * m - 48 && FirstSpans(h, fs, m)
    ensures var (g, p) := Kmalloc(h, size); p == FrameAddr(fs[0]) + 48 && FirstTaken(g, fs, m)
  {
    assert RoundUp(size) == size by { assert size == 8 * (512 * m - 6); }
    TakeFirst(h, fs, m);
  }

  lemma MergeFirst(fs: seq<nat>, m: nat, b: Block)
    requires 0 < m < |fs|
    ensures Merge([b] + NewPages(fs[m..]), 0) == [b.(size := b.size + 4096)] + NewPages(fs[m + 1..])
  {
    assert fs[m..][1..] == fs[m + 1..];
    assert NewPages(fs[m..]) == [NewPage(fs[m])] + NewPages(fs[m + 1..]);
  }

  lemma {:induction false} SinglesOK(fs: seq<nat>)
    ensures FragsOK(Frags([], Singles(fs))) && forall f :: f in Singles(fs) ==> |f| == 1
  {
    if fs != [] { SinglesOK(fs[1..]); }
  }

  lemma UnlinkPage(fs: seq<nat>, m: nat)
    requires 0 < m < |fs| && Ascending(fs)
    ensures Unlink(Frags([], Singles(fs[m..])), FrameAddr(fs[m])) == Frags([], Singles(fs[m + 1..]))
  {
    var t, x := fs[m..], FrameAddr(fs[m]);
    assert t[1..] == fs[m + 1..] && x in [x];
    DropFirst(t);
    SinglesOK(t);
    UnlinkListIs(Frags([], Singles(t)), x, [x]);
  }

  lemma ForwardFirst(h: Heap, fs: seq<nat>, m: nat)
    requires 0 < m < |fs| && Ascending(fs) && h.frags == Frags([], Singles(fs[m..]))
    requires h.blocks == [Block(FrameAddr(fs[0]), 4096 * m - 48, true)] + NewPages(fs[m..])
    ensures FirstSpans(Backward(Forward(h, 0), 0), fs, m + 1)
  {
    MergeFirst(fs, m, h.blocks[0]);
    UnlinkPage(fs, m);
    assert h.blocks[1] == NewPage(fs[m]);
  }

  lemma FreeFirst(h: Heap, fs: seq<nat>, m: nat)
    requires 0 < m < |fs| && Ascending(fs) && FirstTaken(h, fs, m)
    ensures FirstSpans(Kfree(h, FrameAddr(fs[0]) + 48), fs, m + 1)
  {
    var bs := SetFree(h.blocks, 0, true);
    assert bs == [Block(FrameAddr(fs[0]), 4096 * m - 48, true)] + NewPages(fs[m..]);
    assert Find(h.blocks, FrameAddr(fs[0])) == 0;
    ForwardFirst(h.(blocks := bs), fs, m);
  }

  /** A client holding nothing, and one holding the first block alone. */
  ghost predicate Idle(c: Client, fs: seq<nat>, m: nat)
    requires 0 < m <= |fs|
  {
    c.live == map[] && FirstSpans(c.h, fs, m)
  }

  ghost predicate Holding(c: Client, fs: seq<nat>, m: nat)
    requires 0 < m <= |fs|
  {
    c.live.Keys == {FrameAddr(fs[0])} && FirstTaken(c.h, fs, m)
  }

  lemma StepMalloc(c: Client, size: nat, g: Heap, p: int)
    requires (g, p) == Kmalloc(c.h, size) && p != 0 && c.live == map[]
    ensures var d := HeapRuns.Step(c, Malloc(size)); d.h == g && d.live.Keys == {p - 48}
  {
  }

  lemma MallocRound(c: Client, fs: seq<nat>, m: nat, size: nat)
    requires 0 < m <= |fs| <= 5 && size == 4096 * m - 48 && Idle(c, fs, m)
    ensures Holding(HeapRuns.Step(c, Malloc(size)), fs, m)
  {
    var (g, p) := Kmalloc(c.h, size);
    MallocFirst(c.h, fs, m, size);
    StepMalloc(c, size, g, p);
  }

  lemma FreeRound(c: Client, fs: seq<nat>, m: nat)
    requires 0 < m < |fs| && Ascending(fs) && Holding(c, fs, m)
    ensures Idle(HeapRuns.Step(c, Op.Free(FrameAddr(fs[0]) + 48)), fs, m + 1)
  {
    FreeFirst(c.h, fs, m);
    assert (c.live - {FrameAddr(fs[0])}).Keys == {};
  }

  // ---------- the run ----------

  /** `ops` is a legal run of `n` calls from `c` to `d`. */
  ghost predicate Leads(c: Client, ops: seq<Op>, n: nat, d: Client) {
    |ops| == n && LegalRun(c, ops) && RunOps(c, ops) == d
  }

  lemma {:induction false} LeadsOn(c: Client, ops: seq<Op>, n: nat, d: Client, more: seq<Op>, m: nat, e: Client)
    requires Leads(c, ops, n, d) && Leads(d, more, m, e)
    ensures Leads(c, ops + more, n + m, e)
    decreases |ops|
  {
    if ops == [] {
      assert ops + more == more;
    } else {
      assert (ops + more)[1..] == ops[1..] + more;
      LeadsOn(HeapRuns.Step(c, ops[0]), ops[1..], n - 1, d, more, m, e);
    }
  }

  lemma OneOp(c: Client, ops: seq<Op>)
    requires |ops| == 1 && Legal(c, ops[0])
    ensures Leads(c, ops, 1, HeapRuns.Step(c, ops[0]))
  {
    assert ops[1..] == [];
  }

  /** Allocate the first block whole and free it. */
  lemma OneRound(c: Client, fs: seq<nat>, m: nat, size: nat) returns (ops: seq<Op>, d: Client)
    requires 0 < m < |fs| <= 5 && size == 4096 * m - 48 && Ascending(fs) && Idle(c, fs, m)
    ensures Leads(c, ops, 2, d) && Idle(d, fs, m + 1)
  {
    var o, q := Malloc(size), Op.Free(FrameAddr(fs[0]) + 48);
    MallocRound(c, fs, m, size);
    var b := HeapRuns.Step(c, o);
    FreeRound(b, fs, m);
    d := HeapRuns.Step(b, q);
    ops := [o] + [q];
    OneOp(c, [o]);
    OneOp(b, [q]);
    LeadsOn(c, [o], 1, b, [q], 1, d);
  }

  lemma {:induction false} RoundsJoin(c: Client, fs: seq<nat>, m: nat) returns (ops: seq<Op>, d: Client)
    requires 0 < m <= |fs| <= 5 && Ascending(fs) && Idle(c, fs, m)
    ensures Leads(c, ops, 2 * (|fs| - m), d) && Idle(d, fs, |fs|)
    decreases |fs| - m
  {
    if m == |fs| {
      ops, d := [], c;
    } else {
      var first, b := OneRound(c, fs, m, 4096 * m - 48);
      var rest;
      rest, d := RoundsJoin(b, fs, m + 1);
      ops := first + rest;
      LeadsOn(c, first, 2, b, rest, 2 * (|fs| - m - 1), d);
    }
  }

  lemma ShapeSpans(h: Heap, e: Heap, fs: seq<nat>, m: nat)
    requires h.blocks == [] && h.frags.list == [] && fs != [] && m == 1
    requires ListedFirst(h, e, fs) && e.frags.orphans == Singles(fs[m..])
    ensures FirstSpans(e, fs, m)
  {
  }

  lemma BootSpans(e: Heap, k: nat)
    requires e == Heap([], Frags([], {}), [], e.pmm) && k > 0 && Grow(e, k).1
    ensures var fs := NextFrames(e.pmm, k); |fs| == k && Ascending(fs) && FirstSpans(Expand(e, k).0, fs, 1)
  {
    FramesAscend(e.pmm, k);
    ExpandShape(e, k);
    ShapeSpans(e, Expand(e, k).0, NextFrames(e.pmm, k), 1);
  }

  /** One free, listed block of `n` pages, starting at frame `f`, and no orphan. */
  ghost predicate ExactPages(h: Heap, f: nat, n: nat) {
    Exact(h) && h.frags.list == [FrameAddr(f)] && h.blocks == [Block(FrameAddr(f), 4096 * n - 48, true)]
  }

  lemma OneBlockExact(h: Heap, fs: seq<nat>)
    requires fs != [] && FirstSpans(h, fs, |fs|)
    ensures ExactPages(h, fs[0], |fs|)
  {
    assert fs[|fs|..] == [];
  }

  lemma FromBoot(p: Pmm, k: nat) returns (ops: seq<Op>, d: Client)
    requires k == PagesFor(16384) && |Clear(p)| >= 5
    ensures Leads(Start(p), ops, 8, d) && ExactPages(d.h, Lowest(p), 5)
  {
    assert k == 5;
    var e := Heap([], Frags([], {}), [], p);
    GrowSucceedsIff(e, k);
    BootSpans(e, k);
    var fs := NextFrames(p, k);
    ops, d := RoundsJoin(Start(p), fs, 1);
    OneBlockExact(d.h, fs);
  }

  /**
    On every machine with five clear frames a legal run from `kheap_init`
    reaches an exact heap: four rounds of allocating and freeing the first
    block leave one free, listed block of five pages.
   */
  lemma ExactHeapReached(p: Pmm)
    requires |Clear(p)| >= 5
    ensures exists ops, d :: Leads(Start(p), ops, 8, d) && ExactPages(d.h, Lowest(p), 5)
  {
    var ops, d := FromBoot(p, PagesFor(16384));
  }

  // ---------- exact runs ----------

  /** The condition under which a `kmalloc` keeps an exact heap exact. */
  predicate StepFits(h: Heap, op: Op) {
    op.Malloc? && op.size > 0 ==>
      var s := RoundUp(op.size);
      ListedFit(h, s) || PagesNeeded(s) == 1 || Lowest(h.pmm) == h.pmm.frames
  }

  ghost predicate RunFits(c: Client, ops: seq<Op>)
    decreases |ops|
  {
    ops == [] || (StepFits(c.h, ops[0]) && RunFits(HeapRuns.Step(c, ops[0]), ops[1..]))
  }

  /** The heap is exact before, between and after the calls. */
  ghost predicate ExactThroughout(c: Client, ops: seq<Op>)
    decreases |ops|
  {
    Exact(c.h) && (ops == [] || ExactThroughout(HeapRuns.Step(c, ops[0]), ops[1..]))
  }

  lemma StepExactIff(c: Client, op: Op)
    requires Inv(c.h) && Exact(c.h) && Legal(c, op)
    ensures Exact(HeapRuns.Step(c, op).h) <==> StepFits(c.h, op)
  {
    match op
    case Malloc(size) => if size > 0 { KmallocExactIff(c.h, size); }
    case Free(p) => KfreeKeepsExact(c.h, p);
  }

  /** A legal run from an exact heap stays exact if and only if each `kmalloc` fits. */
  lemma {:induction false} RunExactIff(c: Client, ops: seq<Op>)
    requires ClientInv(c) && Exact(c.h) && LegalRun(c, ops)
    ensures ExactThroughout(c, ops) <==> RunFits(c, ops)
    decreases |ops|
  {
    if ops != [] {
      var d := HeapRuns.Step(c, ops[0]);
      StepExactIff(c, ops[0]);
      StepKeeps(c, ops[0]);
      if Exact(d.h) { RunExactIff(d, ops[1..]); } else { NotThroughout(c, ops); }
    }
  }

  lemma NotThroughout(c: Client, ops: seq<Op>)
    requires ops != [] && !Exact(HeapRuns.Step(c, ops[0]).h)
    ensures !ExactThroughout(c, ops)
  {
  }

  lemma {:induction false} ThroughoutEnds(c: Client, ops: seq<Op>)
    requires ExactThroughout(c, ops)
    ensures Exact(RunOps(c, ops).h)
    decreases |ops|
  {
    if ops != [] { ThroughoutEnds(HeapRuns.Step(c, ops[0]), ops[1..]); }
  }

  /** No request exceeds 4000 bytes. */
  predicate SmallOps(ops: seq<Op>) {
    forall i :: 0 <= i < |ops| && ops[i].Malloc? ==> ops[i].size <= 4000
  }

  lemma SmallFits(h: Heap, op: Op)
    requires op.Malloc? ==> op.size <= 4000
    ensures StepFits(h, op)
  {
    if op.Malloc? && op.size > 0 { assert RoundUp(op.size) <= 4000; }
  }

  lemma {:induction false} SmallRunFits(c: Client, ops: seq<Op>)
    requires SmallOps(ops)
    ensures RunFits(c, ops)
    decreases |ops|
  {
    if ops != [] {
      SmallFits(c.h, ops[0]);
      SmallRunFits(HeapRuns.Step(c, ops[0]), ops[1..]);
    }
  }

  /** Requests of at most 4000 bytes keep an exact heap exact, whatever is freed in between. */
  lemma SmallRunExact(c: Client, ops: seq<Op>)
    requires ClientInv(c) && Exact(c.h) && LegalRun(c, ops) && SmallOps(ops)
    ensures ExactThroughout(c, ops) && Exact(RunOps(c, ops).h)
  {
    SmallRunFits(c, ops);
    RunExactIff(c, ops);
    ThroughoutEnds(c, ops);
  }

  /**
    With five clear frames, eight calls from `kheap_init` lead to a heap from
    which every run of requests of at most 4000 bytes keeps every free block
    listed and no two free neighbours.
   */
  lemma ExactFromThere(p: Pmm)
    requires |Clear(p)| >= 5
    ensures exists ops, d :: Leads(Start(p), ops, 8, d) &&
              forall more :: LegalRun(d, more) && SmallOps(more) ==> ExactThroughout(d, more)
  {
    var ops, d := FromBoot(p, PagesFor(16384));
    BootRun(p, ops);
    forall more | LegalRun(d, more) && SmallOps(more) ensures ExactThroughout(d, more) {
      SmallRunExact(d, more);
    }
  }
}
