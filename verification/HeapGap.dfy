/** Two short runs on which blocks grow into a frame that was reserved at boot. */
module HeapGap {
  import opened FrameSpec
  import opened HeapSpec
  import opened HeapInvariant
  import opened HeapLayout
  import opened HeapInside
  import opened HeapExact

  lemma LowestIs(p: Pmm, f: nat)
    requires f < p.frames && f !in p.used && forall j: nat :: j < f ==> j in p.used
    ensures Lowest(p) == f
  {
    var r := Lowest(p);
    assert r < p.frames ==> r !in p.used;
  }

  lemma {:induction false} FramesInRow(p: Pmm, n: nat, f: nat)
    requires f + n <= p.frames && (forall j: nat :: j < f ==> j in p.used)
    requires forall j: nat :: f <= j < f + n ==> j !in p.used
    ensures |NextFrames(p, n)| == n && forall i :: 0 <= i < n ==> NextFrames(p, n)[i] == f + i
    decreases n
  {
    if n > 0 {
      LowestIs(p, f);
      FramesInRow(AllocFrame(p).0, n - 1, f + 1);
    }
  }

  lemma FirstFive(p: Pmm, k: nat)
    requires p.frames == 8 && p.used == {5} && k == 5
    ensures NextFrames(p, k) == [0, 1, 2, 3, 4]
  {
    FramesInRow(p, k, 0);
  }

  /** An expansion of the empty heap by the five pages that `kheap_init` asks for. */
  lemma FivePages(e: Heap, k: nat, h: Heap)
    requires e == Heap([], Frags([], {}), [], e.pmm) && e.pmm.frames == 8 && e.pmm.used == {5} && k == 5
    requires h == Expand(e, k).0
    ensures |h.blocks| == 5 && h.blocks[0] == NewPage(0) && h.blocks[4] == NewPage(4)
    ensures h.frags.list == [FrameAddr(0)] && h.owned == [0, 1, 2, 3, 4]
  {
    FirstFive(e.pmm, k);
    GrowBlocks(e, k);
    ExpandBlocks(e, k);
    ExpandFrags(e, k);
    NewPagesAt(NextFrames(e.pmm, k), 4);
  }

  lemma NewPagesAt(fs: seq<nat>, i: nat)
    requires 0 < i < |fs|
    ensures Extended([], fs)[i] == NewPage(fs[i]) && |Extended([], fs)| == |fs| && Extended([], fs)[0] == NewPage(fs[0])
  {
  }

  lemma UsedAfter(h: Heap, p: Pmm)
    requires TakenFrom(h, p) && p.frames == 8 && p.used == {5} && h.owned == [0, 1, 2, 3, 4]
    ensures h.pmm.frames == 8 && h.pmm.used == {0, 1, 2, 3, 4, 5}
  {
  }

  lemma GapAbove(h: Heap, k: nat)
    requires h.owned == [0, 1, 2, 3, 4] && h.pmm.frames == 8 && h.pmm.used == {0, 1, 2, 3, 4, 5} && k == 2
    ensures Consecutive(h.owned) && Top(h.owned) == FrameAddr(5) && Lowest(h.pmm) == 6 && Grow(h, k).1
  {
    LowestIs(h.pmm, 6);
    FramesInRow(h.pmm, k, 6);
    GrowBlocks(h, k);
  }

  lemma NothingListedFits(h: Heap, s: int)
    requires Ordered(h.blocks) && h.blocks != [] && h.blocks[0] == NewPage(0) && h.frags.list == [FrameAddr(0)]
    requires s > 4048
    ensures !ListedFit(h, s)
  {
    FindUnique(h.blocks, 0);
  }

  ghost predicate FiveBelowGap(h: Heap) {
    && |h.blocks| == 5 && h.blocks[0] == NewPage(0) && h.blocks[4] == NewPage(4) && h.frags.list == [FrameAddr(0)]
    && h.owned == [0, 1, 2, 3, 4] && h.pmm.frames == 8 && h.pmm.used == {0, 1, 2, 3, 4, 5}
  }

  lemma EscapesFrom(h: Heap, s: int, k: nat)
    requires Inv(h) && FiveBelowGap(h) && s == 5000 && k == 2
    ensures var q := Allocate(h, s, k).1; q > 0 && q <= FrameAddr(5) < q + s
  {
    NothingListedFits(h, s);
    GapAbove(h, k);
    ConsecutiveInside(h);
    GapAllocationEscapes(h, s, k);
  }

  lemma BootedBelowGap(p: Pmm, h: Heap)
    requires p.frames == 8 && p.used == {5} && h == Boot(p) && TakenFrom(h, p)
    ensures FiveBelowGap(h)
  {
    FivePages(Heap([], Frags([], {}), [], p), PagesFor(16384), h);
    UsedAfter(h, p);
  }

  lemma SizeAndPages(size: nat)
    requires size == 5000
    ensures RoundUp(size) == 5000 && PagesNeeded(RoundUp(size)) == 2
  {
  }

  lemma EscapesAtBoot(p: Pmm, h: Heap, size: nat)
    requires p.frames == 8 && p.used == {5} && h == Boot(p) && size == 5000
    ensures var q := Kmalloc(h, size).1; q > 0 && q <= FrameAddr(5) < q + size
  {
    BootInv(p);
    StartInv(p);
    BootedBelowGap(p, h);
    SizeAndPages(size);
    EscapesFrom(h, RoundUp(size), PagesNeeded(RoundUp(size)));
  }

  /**
    Eight frames, the sixth of them reserved: `kmalloc(5000)` right after boot
    returns a pointer whose 5000 bytes run into the reserved frame.
   */
  lemma ReservedFrameHandedOut(p: Pmm, size: nat)
    requires p.frames == 8 && p.used == {5} && size == 5000
    ensures var q := Kmalloc(Boot(p), size).1; q > 0 && q <= FrameAddr(5) < q + size
  {
    EscapesAtBoot(p, Boot(p), size);
  }

  // ---------- a free that merges across a gap ----------

  lemma FiveAround(p: Pmm, k: nat)
    requires p.frames == 8 && p.used == {1} && k == 5
    ensures NextFrames(p, k) == [0, 2, 3, 4, 5]
  {
    LowestIs(p, 0);
    var q := AllocFrame(p).0;
    FramesInRow(q, k - 1, 2);
    assert NextFrames(p, k) == [0] + NextFrames(q, k - 1);
  }

  /** The heap after a boot around reserved frame 1: page 0 listed, and page 2 its neighbour. */
  ghost predicate PagesAround(h: Heap) {
    && |h.blocks| > 1 && h.blocks[0] == NewPage(0) && h.blocks[1] == NewPage(2) && h.frags.list == [FrameAddr(0)]
  }

  lemma BootedAround(e: Heap, k: nat, h: Heap)
    requires e == Heap([], Frags([], {}), [], e.pmm) && e.pmm.frames == 8 && e.pmm.used == {1} && k == 5
    requires h == Expand(e, k).0
    ensures PagesAround(h)
  {
    FiveAround(e.pmm, k);
    GrowBlocks(e, k);
    ExpandBlocks(e, k);
    ExpandFrags(e, k);
    NewPagesAt(NextFrames(e.pmm, k), 1);
  }

  /** Allocating page 0 whole leaves the chain as it was, with page 0 allocated. */
  lemma TakePageZero(h: Heap, s: int, k: nat)
    requires Ordered(h.blocks) && PagesAround(h) && s == 4048 && k > 0
    ensures ListedFit(h, s)
    ensures var (g, q) := Allocate(h, s, k); q == FrameAddr(0) + 48 && g.blocks == SetFree(h.blocks, 0, false)
  {
    FindUnique(h.blocks, 0);
    assert Fits(h.blocks, h.frags.list[0], s);
  }

  lemma PagesApart(h: Heap, g: Heap)
    requires Ordered(h.blocks) && PagesAround(h) && g.blocks == SetFree(h.blocks, 0, false)
    ensures !KfreeTouches(g, FrameAddr(0) + 48)
  {
    SetFreeOrdered(h.blocks, 0, false);
    FindUnique(g.blocks, 0);
  }

  lemma MallocPageZero(h: Heap, size: nat)
    requires Ordered(h.blocks) && PagesAround(h) && size == 4048
    ensures var (g, q) := Kmalloc(h, size); q == FrameAddr(0) + 48 && g.blocks == SetFree(h.blocks, 0, false)
    ensures KmallocTouches(h, size)
  {
    assert RoundUp(size) == 4048;
    TakePageZero(h, RoundUp(size), PagesNeeded(RoundUp(size)));
  }

  lemma GapAfterMalloc(h: Heap, size: nat, g: Heap, q: int)
    requires Inv(h) && Inside(h) && PagesAround(h) && size == 4048 && (g, q) == Kmalloc(h, size)
    ensures Inv(g) && Inside(g) && q == FrameAddr(0) + 48 && !KfreeTouches(g, q)
  {
    MallocPageZero(h, size);
    KmallocInv(h, size);
    KmallocInsideIff(h, size);
    PagesApart(h, g);
  }

  lemma FreesAcrossGap(h: Heap, size: nat)
    requires Inv(h) && Inside(h) && PagesAround(h) && size == 4048
    ensures var (g, q) := Kmalloc(h, size); q != 0 && Inside(g) && !Inside(Kfree(g, q))
  {
    var (g, q) := Kmalloc(h, size);
    GapAfterMalloc(h, size, g, q);
    KfreeInsideIff(g, q);
  }

  /**
    Eight frames, the second of them reserved: after boot, `kmalloc(4048)` and
    `kfree` of its result join page 0 to page 2 and so cover the reserved frame,
    though every block was inside the heap's own frames before.
   */
  lemma ReservedFrameFreedInto(p: Pmm, size: nat)
    requires p.frames == 8 && p.used == {1} && size == 4048
    ensures Inside(Boot(p))
    ensures var (g, q) := Kmalloc(Boot(p), size); q != 0 && Inside(g) && !Inside(Kfree(g, q))
  {
    var h := Boot(p);
    BootInv(p);
    BootStraight(p);
    InsideIffStraight(h);
    BootedAround(Heap([], Frags([], {}), [], p), PagesFor(16384), h);
    FreesAcrossGap(h, size);
  }
}
