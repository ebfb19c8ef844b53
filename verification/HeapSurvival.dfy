/** When the blocks on the free list stay on it, for `kmalloc` and for whole runs. */
module HeapSurvival {
  import opened FrameSpec
  import opened HeapSpec
  import opened HeapInvariant
  import opened HeapRuns
  import opened HeapLayout
  import opened HeapExact
  import opened HeapListed
  import opened HeapService
  import opened HeapReach

  // ---------- expansion ----------

  /** Whether the list survives an expansion: the last block, if free, must not be the front of an orphan. */
  ghost predicate ExpandSurvives(h: Heap) {
    !LastFree(h.blocks) || !FrontsOrphan(h.frags, h.blocks[|h.blocks| - 1].addr) || h.frags.list == []
  }

  /** A successful expansion keeps every listed block listed if and only if `ExpandSurvives`; otherwise it loses all. */
  lemma ExpandKeepsListedIff(h: Heap, k: nat)
    requires Inv(h) && k > 0 && Grow(h, k).1
    ensures Stay(h.frags.list, {}, Expand(h, k).0.frags.list) <==> ExpandSurvives(h)
    ensures !ExpandSurvives(h) ==> Apart(h.frags.list, Expand(h, k).0.frags.list)
  {
    ListAfterExpand(h, k);
    if LastFree(h.blocks) { FreshAddress(h, |h.blocks| - 1, {}); }
    HeadedListKept(h, FrameAddr(Lowest(h.pmm)), Expand(h, k).0.frags.list);
  }

  lemma HeadedListKept(h: Heap, page: int, l: seq<int>)
    requires FragsOK(h.frags) && (LastFree(h.blocks) ==> In(h.frags, h.blocks[|h.blocks| - 1].addr))
    requires l == [if LastFree(h.blocks) then h.blocks[|h.blocks| - 1].addr else page] + BehindHead(h)
    ensures Stay(h.frags.list, {}, l) <==> ExpandSurvives(h)
    ensures !ExpandSurvives(h) ==> Apart(h.frags.list, l)
  {
    if LastFree(h.blocks) {
      FrontMoved(h.frags, h.blocks[|h.blocks| - 1].addr);
    } else {
      PushedStay(h.frags.list, page);
    }
  }

  lemma PushedStay(list: seq<int>, x: int)
    ensures Stay(list, {}, [x] + list)
  {
  }

  /** Moving a free block to the front of the list, wherever it was before. */
  lemma FrontMoved(g: Frags, x: int)
    requires FragsOK(g) && In(g, x)
    ensures Stay(g.list, {}, [x] + Unlink(g, x).list) <==> !FrontsOrphan(g, x) || g.list == []
    ensures FrontsOrphan(g, x) ==> Apart(g.list, [x] + Unlink(g, x).list)
  {
    OnlyPrev(g, x);
    UnlinkKeeps(g, x);
    if FrontsOrphan(g, x) { FrontHasNoListed(g, x); }
  }

  // ---------- carving ----------

  /** Carving loses the block taken and lists at most one new address. */
  lemma CarveList(h: Heap, x: int, s: int)
    requires Inv(h) && x in h.frags.list && Fits(h.blocks, x, s) && 0 <= s && s % 8 == 0
    ensures var l := Carve(h, x, s).frags.list;
      && (forall y :: y in h.frags.list && y != x ==> y in l)
      && (forall y :: y in l && In(h.frags, y) ==> y in h.frags.list)
  {
    ListedBlock(h, x);
    var i := Find(h.blocks, x);
    RemoveAtMembers(h.frags.list, Position(h.frags.list, x));
    if h.blocks[i].size >= s + 96 { SplitFreeAt(h.blocks, i, s); }
  }

  lemma TakeFitList(h: Heap, s: int)
    requires Inv(h) && 0 <= s && s % 8 == 0
    ensures var (g, q) := TakeFit(h, s); var l := g.frags.list;
      && (forall y :: y in h.frags.list && (q == 0 || y != q - 48) ==> y in l)
      && (forall y :: y in l && In(h.frags, y) ==> y in h.frags.list)
      && (q != 0 ==> q - 48 in h.frags.list)
  {
    FirstFitMeaning(h.blocks, h.frags.list, s);
    var k := FirstFit(h.blocks, h.frags.list, s);
    if k < |h.frags.list| { CarveList(h, h.frags.list[k], s); }
  }

  // ---------- kmalloc ----------

  /** The block that a call takes out of the list on purpose. */
  function Taken(q: int): set<int> {
    if q == 0 then {} else {q - 48}
  }

  lemma ListedIn(h: Heap, k: nat, y: int)
    requires Inv(h) && k > 0 && Grow(h, k).1 && y in h.frags.list
    ensures In(Expand(h, k).0.frags, y)
  {
    ListedBlock(h, y);
    ExpandInv(h, k);
    ExpandBlocks(h, k);
    var i, e := Find(h.blocks, y), Expand(h, k).0;
    assert e.blocks[i].addr == y && e.blocks[i].free;
    assert FreeAt(e.blocks, y);
  }

  lemma ExpandedListKept(h: Heap, s: int, k: nat)
    requires Inv(h) && k > 0 && Grow(h, k).1 && 0 <= s && s % 8 == 0
    ensures var (g, q) := TakeFit(Expand(h, k).0, s); Stay(h.frags.list, Taken(q), g.frags.list) <==> ExpandSurvives(h)
  {
    var e := Expand(h, k).0;
    ExpandInv(h, k);
    ExpandKeepsListedIff(h, k);
    TakeFitList(e, s);
    forall y | y in h.frags.list ensures In(e.frags, y) {
      ListedIn(h, k, y);
    }
    var (g, q) := TakeFit(e, s);
    KeptThrough(h.frags.list, e.frags.list, g.frags.list, q);
    if !ExpandSurvives(h) { LostThrough(h.frags.list, e.frags.list, g.frags.list, q); }
  }

  lemma KeptThrough(was: seq<int>, mid: seq<int>, l: seq<int>, q: int)
    requires forall y :: y in mid && (q == 0 || y != q - 48) ==> y in l
    ensures Stay(was, {}, mid) ==> Stay(was, Taken(q), l)
  {
    forall y ensures Stay(was, {}, mid) ==> !Lost(was, Taken(q), l, y) {
      assert Stay(was, {}, mid) ==> !Lost(was, {}, mid, y);
    }
  }

  lemma LostThrough(was: seq<int>, mid: seq<int>, l: seq<int>, q: int)
    requires was != [] && Apart(was, mid) && (q != 0 ==> q - 48 in mid)
    requires forall y :: y in l && y in was ==> y in mid
    ensures !Stay(was, Taken(q), l)
  {
    assert was[0] in was;
    assert Lost(was, Taken(q), l, was[0]);
  }

  lemma AllocateKeepsListedIff(h: Heap, s: int, k: nat)
    requires Inv(h) && k > 0 && 0 <= s && s % 8 == 0
    ensures var (g, q) := Allocate(h, s, k);
      Stay(h.frags.list, Taken(q), g.frags.list) <==> ListedFit(h, s) || !Grow(h, k).1 || ExpandSurvives(h)
  {
    if ListedFit(h, s) {
      var (g, q) := TakeFit(h, s);
      TakeFitList(h, s);
      KeptThrough(h.frags.list, h.frags.list, g.frags.list, q);
    } else if Grow(h, k).1 {
      ExpandedListKept(h, s, k);
    } else {
      GrowOrphans(h, k);
    }
  }

  /** What a caller can check before a `kmalloc`. */
  ghost predicate MallocSurvives(h: Heap, size: nat) {
    size == 0 || var s := RoundUp(size); ListedFit(h, s) || |Clear(h.pmm)| < PagesNeeded(s) || ExpandSurvives(h)
  }

  /** For every 64-bit size, `kmalloc` keeps every listed block but the one it takes if and only if `MallocSurvives`. */
  lemma KmallocKeepsListedIff(h: Heap, size: nat)
    requires Inv(h) && size < UINT64_LIMIT
    ensures var (g, q) := Kmalloc(h, size); Stay(h.frags.list, Taken(q), g.frags.list) <==> MallocSurvives(h, size)
  {
    if size > 0 {
      RoundUpMeaning(size);
      GrowSucceedsIff(h, PagesNeeded(RoundUp(size)));
      AllocateKeepsListedIff(h, RoundUp(size), PagesNeeded(RoundUp(size)));
    }
  }

  // ---------- the list dropped right after boot ----------

  lemma BootedLast(h: Heap, fs: seq<nat>)
    requires |fs| == 5 && FirstSpans(h, fs, 1)
    ensures |h.blocks| == 5 && h.frags.list == [FrameAddr(fs[0])] && !ExpandSurvives(h)
    ensures h.blocks[0].size == 4048 && h.blocks[0].addr == FrameAddr(fs[0])
  {
    var t := fs[1..];
    assert t[3] == fs[4] && h.blocks[4] == NewPages(t)[3];
    SingleMember(t, FrameAddr(fs[4]));
    assert [FrameAddr(fs[4])][0] == FrameAddr(fs[4]);
  }

  lemma FramesLeft(h: Heap, k: nat)
    requires Grow(h, k).1
    ensures |Clear(Grow(h, k).0.pmm)| == |Clear(h.pmm)| - k
    decreases k
  {
    AllocGivesLowest(h.pmm);
    if k > 0 {
      var f := Lowest(h.pmm);
      assert f in Clear(h.pmm) && Clear(AllocFrame(h.pmm).0) == Clear(h.pmm) - {f};
      FramesLeft(GrowOne(h), k - 1);
    }
  }

  lemma ListGoes(h: Heap, fs: seq<nat>, size: nat)
    requires Inv(h) && |fs| == 5 && FirstSpans(h, fs, 1) && |Clear(h.pmm)| >= 2 && size == 5000
    ensures var (g, q) := Kmalloc(h, size);
      FrameAddr(fs[0]) in h.frags.list && FrameAddr(fs[0]) !in g.frags.list && q != FrameAddr(fs[0]) + 48
  {
    BootedLast(h, fs);
    NothingSurvives(h, size);
    KmallocKeepsListedIff(h, size);
    LostAlone(FrameAddr(fs[0]), h.frags.list, Kmalloc(h, size).1, Kmalloc(h, size).0.frags.list);
  }

  lemma NothingSurvives(h: Heap, size: nat)
    requires size == 5000 && h.blocks != [] && h.blocks[0].size == 4048 && h.frags.list == [h.blocks[0].addr]
    requires |Clear(h.pmm)| >= 2 && !ExpandSurvives(h)
    ensures !MallocSurvives(h, size)
  {
    var s := RoundUp(size);
    assert s == 5000 && PagesNeeded(s) == 2;
    assert Find(h.blocks, h.frags.list[0]) == 0 && !ListedFit(h, s);
  }

  lemma LostAlone(a: int, list: seq<int>, q: int, l: seq<int>)
    requires a > 0 && list == [a] && !Stay(list, Taken(q), l)
    ensures a in list && a !in l && q != a + 48
  {
    var y :| Lost(list, Taken(q), l, y);
  }

  /**
    With seven clear frames, `kmalloc(5000)` right after boot drops page 0 from
    the list, though it neither takes nor merges it.
   */
  lemma ListDroppedAtBoot(p: Pmm, size: nat)
    requires |Clear(p)| >= 7 && size == 5000
    ensures var (g, q) := Kmalloc(Boot(p), size); var a := FrameAddr(Lowest(p));
      a in Boot(p).frags.list && a !in g.frags.list && q != a + 48
  {
    BootedWith(p, PagesFor(16384));
    BootInv(p);
    ListGoes(Boot(p), NextFrames(p, PagesFor(16384)), size);
  }

  lemma BootedWith(p: Pmm, k: nat)
    requires |Clear(p)| >= 7 && k == PagesFor(16384)
    ensures var fs := NextFrames(p, k);
      |fs| == 5 && fs[0] == Lowest(p) && FirstSpans(Boot(p), fs, 1) && |Clear(Boot(p).pmm)| >= 2
  {
    assert k == 5;
    var e := Heap([], Frags([], {}), [], p);
    GrowSucceedsIff(e, k);
    BootSpans(e, k);
    FramesLeft(e, k);
  }

  // ---------- runs ----------

  /** Every listed block stays listed, but for the one taken or the free successor merged away. */
  ghost predicate StepKeepsListed(h: Heap, op: Op) {
    match op
    case Malloc(size) => var (g, q) := Kmalloc(h, size); Stay(h.frags.list, Taken(q), g.frags.list)
    case Free(p) => KeepsListed(h, Find(h.blocks, p - 48), Kfree(h, p).frags.list)
  }

  ghost predicate StepSurvives(h: Heap, op: Op) {
    match op
    case Malloc(size) => MallocSurvives(h, size)
    case Free(p) =>
      var i := Find(h.blocks, p - 48);
      p == 0 || i == |h.blocks| || h.blocks[i].free || ListSurvives(h, i)
  }

  lemma FreeKeepsListedIff(h: Heap, p: int)
    requires Inv(h)
    ensures StepKeepsListed(h, Op.Free(p)) <==> StepSurvives(h, Op.Free(p))
  {
    var i := Find(h.blocks, p - 48);
    if p == 0 || i == |h.blocks| || h.blocks[i].free {
      SameListKept(h, i);
    } else {
      KfreeKeepsListedIff(h, i);
    }
  }

  lemma SameListKept(h: Heap, i: nat)
    ensures KeepsListed(h, i, h.frags.list)
  {
  }

  ghost predicate RunKeepsListed(c: Client, ops: seq<Op>)
    decreases |ops|
  {
    ops == [] || (StepKeepsListed(c.h, ops[0]) && RunKeepsListed(HeapRuns.Step(c, ops[0]), ops[1..]))
  }

  ghost predicate RunSurvives(c: Client, ops: seq<Op>)
    decreases |ops|
  {
    ops == [] || (StepSurvives(c.h, ops[0]) && RunSurvives(HeapRuns.Step(c, ops[0]), ops[1..]))
  }

  lemma StepKeepsListedIff(c: Client, op: Op)
    requires Inv(c.h) && Legal(c, op)
    ensures StepKeepsListed(c.h, op) <==> StepSurvives(c.h, op)
  {
    match op
    case Malloc(size) => KmallocKeepsListedIff(c.h, size);
    case Free(p) => FreeKeepsListedIff(c.h, p);
  }

  lemma {:induction false} RunKeepsListedIff(c: Client, ops: seq<Op>)
    requires ClientInv(c) && LegalRun(c, ops)
    ensures RunKeepsListed(c, ops) <==> RunSurvives(c, ops)
    decreases |ops|
  {
    if ops != [] {
      StepKeepsListedIff(c, ops[0]);
      StepKeeps(c, ops[0]);
      RunKeepsListedIff(HeapRuns.Step(c, ops[0]), ops[1..]);
    }
  }

  /** Without orphans no call can lose a listed block. */
  lemma NoOrphansSurvive(h: Heap, op: Op)
    requires h.frags.orphans == {}
    ensures StepSurvives(h, op)
  {
  }

  lemma {:induction false} ExactRunSurvives(c: Client, ops: seq<Op>)
    requires ExactThroughout(c, ops)
    ensures RunSurvives(c, ops)
    decreases |ops|
  {
    if ops != [] {
      NoOrphansSurvive(c.h, ops[0]);
      ExactRunSurvives(HeapRuns.Step(c, ops[0]), ops[1..]);
    }
  }

  /** In a legal run from boot no call loses a listed block if and only if each call meets its condition. */
  lemma BootRunKeepsListedIff(p: Pmm, ops: seq<Op>)
    requires LegalRun(Start(p), ops)
    ensures RunKeepsListed(Start(p), ops) <==> RunSurvives(Start(p), ops)
  {
    StartInv(p);
    RunKeepsListedIff(Start(p), ops);
  }
}
