/** Runs on which no write of the heap reaches a frame that was reserved at boot. */
module HeapSafety {
  import opened FrameSpec
  import opened HeapSpec
  import opened HeapInvariant
  import opened HeapRuns
  import opened HeapLayout
  import opened HeapInside
  import opened HeapSpared
  import opened HeapService

  /** The call grants nothing, and leaves no header, in a vital frame. */
  ghost predicate StepSpares(h: Heap, op: Op, vital: set<nat>) {
    match op
    case Malloc(size) => var (g, q) := Kmalloc(h, size); Spared(g, q, vital)
    case Free(_) => true
  }

  ghost predicate RunSpares(c: Client, ops: seq<Op>, vital: set<nat>)
    decreases |ops|
  {
    ops == [] || (StepSpares(c.h, ops[0], vital) && RunSpares(HeapRuns.Step(c, ops[0]), ops[1..], vital))
  }

  // ---------- touching runs ----------

  lemma BlockAvoids(h: Heap, p: Pmm, i: nat)
    requires Inside(h) && TakenFrom(h, p) && i < |h.blocks| && h.blocks[i].size >= 0
    ensures Avoids(h.blocks[i].addr, 48, p.used) && Avoids(h.blocks[i].addr + 48, h.blocks[i].size, p.used)
  {
    var b := h.blocks[i];
    forall x, f | b.addr <= x < End(b) && f in p.used ensures !InFrame(x, f) {
      InsideAvoids(h, p, i, x, f);
    }
    AvoidsMeaning(b.addr, 48, p.used);
    AvoidsMeaning(b.addr + 48, b.size, p.used);
  }

  /** A heap inside its own frames has neither header nor payload in a frame used at boot. */
  lemma InsideSpares(h: Heap, p: Pmm, q: int)
    requires Inside(h) && TakenFrom(h, p) && Ordered(h.blocks)
    ensures Spared(h, q, p.used)
  {
    Sizes(h.blocks);
    forall i | 0 <= i < |h.blocks| ensures Avoids(h.blocks[i].addr, 48, p.used) {
      BlockAvoids(h, p, i);
    }
    var i := Find(h.blocks, q - 48);
    if i < |h.blocks| { BlockAvoids(h, p, i); }
  }

  lemma StepStaysInside(c: Client, op: Op)
    requires Inv(c.h) && Inside(c.h) && Legal(c, op) && StepTouches(c.h, op)
    ensures Inside(HeapRuns.Step(c, op).h)
  {
    match op
    case Malloc(size) => KmallocInsideIff(c.h, size);
    case Free(p) => KfreeInsideIff(c.h, p);
  }

  lemma StepSparesReserved(c: Client, op: Op, p: Pmm)
    requires ClientInv(c) && Inside(c.h) && TakenFrom(c.h, p) && Legal(c, op) && StepTouches(c.h, op)
    ensures StepSpares(c.h, op, p.used)
  {
    StepStaysInside(c, op);
    StepTaken(c, op, p);
    match op
    case Malloc(size) =>
      KmallocInv(c.h, size);
      InsideSpares(Kmalloc(c.h, size).0, p, Kmalloc(c.h, size).1);
    case Free(_) =>
  }

  lemma {:induction false} RunSparesReserved(c: Client, ops: seq<Op>, p: Pmm)
    requires ClientInv(c) && Inside(c.h) && TakenFrom(c.h, p) && LegalRun(c, ops) && RunTouches(c, ops)
    ensures RunSpares(c, ops, p.used)
    decreases |ops|
  {
    if ops != [] {
      StepSparesReserved(c, ops[0], p);
      StepStaysInside(c, ops[0]);
      StepTaken(c, ops[0], p);
      StepKeeps(c, ops[0]);
      RunSparesReserved(HeapRuns.Step(c, ops[0]), ops[1..], p);
    }
  }

  /**
    In every legal run from boot whose merges all touch, each payload zeroed and
    each header written, at every step, keeps out of every frame used at boot.
   */
  lemma TouchingRunSpares(p: Pmm, ops: seq<Op>)
    requires LegalRun(Start(p), ops) && RunTouches(Start(p), ops)
    ensures RunSpares(Start(p), ops, p.used)
  {
    StartInv(p);
    BootStraight(p);
    InsideIffStraight(Boot(p));
    RunSparesReserved(Start(p), ops, p);
  }

  /** With the kernel and the bitmap from 0x40100000 up, so does every run of at most 256 frames. */
  lemma EarlyRunSpares(p: Pmm, ops: seq<Op>)
    requires LegalRun(Start(p), ops) && forall f :: f in p.used ==> f >= KERNEL_FRAME
    requires |RunOps(Start(p), ops).h.owned| <= KERNEL_FRAME
    ensures RunSpares(Start(p), ops, p.used)
  {
    EarlyRunTiles(p, ops);
    BootRunInsideIff(p, ops);
    TouchingRunSpares(p, ops);
  }

  // ---------- when a call first reaches a reserved frame ----------

  /** How many bytes after its header a cut of `s` bytes from a block of `size` bytes writes. */
  function Reach(size: int, s: int): int {
    if size >= s + 96 then s + 48 else size
  }

  lemma AvoidsPart(a: int, n: int, b: int, m: int, vital: set<nat>)
    requires Avoids(a, n, vital) && a <= b && b + m <= a + n
    ensures Avoids(b, m, vital)
  {
  }

  lemma AvoidsTwo(a: int, s: int, vital: set<nat>)
    requires s >= 0
    ensures Avoids(a, s + 48, vital) <==> Avoids(a, s, vital) && Avoids(a + s, 48, vital)
  {
  }

  /** A cut spares the vital frames exactly when the bytes it writes do. */
  lemma CarveSparesIff(h: Heap, x: int, s: int, vital: set<nat>)
    requires Inv(h) && In(h.frags, x) && Fits(h.blocks, x, s) && 0 <= s && s % 8 == 0 && HeadersAvoid(h.blocks, vital)
    ensures Spared(Carve(h, x, s), x + 48, vital) <==> Avoids(x + 48, Reach(SizeAt(h.blocks, x), s), vital)
  {
    ListedBlock(h, x);
    CarveInv(h, x, s);
    var i, c := Find(h.blocks, x), Carve(h, x, s).blocks;
    if h.blocks[i].size >= s + 96 {
      SplitHeaders(h.blocks, i, s, vital);
      SplitIndex(h.blocks, i, s, i);
      FindUnique(c, i);
      AvoidsTwo(x + 48, s, vital);
    } else {
      FindUnique(c, i);
    }
  }

  lemma SplitHeaders(bs: seq<Block>, i: nat, s: int, vital: set<nat>)
    requires i < |bs| && HeadersAvoid(bs, vital)
    ensures HeadersAvoid(Split(bs, i, s), vital) <==> Avoids(bs[i].addr + 48 + s, 48, vital)
  {
    var r := Split(bs, i, s);
    SplitIndex(bs, i, s, i + 1);
    forall k | 0 <= k < |r| && k != i + 1 ensures Avoids(r[k].addr, 48, vital) {
      SplitIndex(bs, i, s, k);
    }
  }

  /** Behind a gap lies a frame that was used at boot. */
  lemma GapReserved(h: Heap, p: Pmm) returns (f: nat)
    requires FramesOK(h.owned, h.pmm) && TakenFrom(h, p) && h.owned != []
    requires Lowest(h.pmm) < h.pmm.frames && FrameAddr(Lowest(h.pmm)) != Top(h.owned)
    ensures f in p.used && FrameAddr(f) == Top(h.owned)
  {
    var n := |h.owned|;
    f := h.owned[n - 1] + 1;
    assert Lowest(h.pmm) in Clear(h.pmm);
    assert f in h.pmm.used;
    forall i | 0 <= i < n ensures h.owned[i] != f {
      assert h.owned[i] <= h.owned[n - 1];
    }
    assert f !in Members(h.owned);
  }

  /** A cut from the merged last block spares the frames used at boot when it stays in what that block was before. */
  lemma MergedCutIff(h: Heap, p: Pmm, s: int)
    requires Inv(h) && Inside(h) && TakenFrom(h, p) && LastFree(h.blocks) && s >= 0
    requires Lowest(h.pmm) < h.pmm.frames && FrameAddr(Lowest(h.pmm)) != End(h.blocks[|h.blocks| - 1])
    ensures var l := h.blocks[|h.blocks| - 1];
      Avoids(l.addr + 48, Reach(l.size + 4096, s), p.used) <==> s + 48 <= l.size
  {
    var l := h.blocks[|h.blocks| - 1];
    LastEndsAtTop(h);
    var f := GapReserved(h, p);
    BlockAvoids(h, p, |h.blocks| - 1);
    if s + 48 <= l.size { AvoidsPart(l.addr + 48, l.size, l.addr + 48, s + 48, p.used); }
  }

  lemma MergedSize(h: Heap, e: Heap, k: nat)
    requires Ordered(e.blocks) && k > 0 && Grow(h, k).1 && LastFree(h.blocks) && e == Expand(h, k).0
    ensures var l := h.blocks[|h.blocks| - 1];
      Find(e.blocks, l.addr) < |e.blocks| && SizeAt(e.blocks, l.addr) == l.size + 4096
  {
    ExpandBlocks(h, k);
    var n := |h.blocks|;
    assert e.blocks[n - 1].addr == h.blocks[n - 1].addr;
    FindUnique(e.blocks, n - 1);
  }

  lemma FrontCutIff(e: Heap, s: int, x: int, vital: set<nat>)
    requires Inv(e) && e.frags.list != [] && e.frags.list[0] == x && Find(e.blocks, x) < |e.blocks|
    requires 0 <= s <= SizeAt(e.blocks, x) && s % 8 == 0 && HeadersAvoid(e.blocks, vital)
    ensures var (g, q) := TakeFit(e, s);
      Spared(g, q, vital) <==> Avoids(x + 48, Reach(SizeAt(e.blocks, x), s), vital)
  {
    assert Fits(e.blocks, e.frags.list[0], s);
    assert FirstFit(e.blocks, e.frags.list, s) == 0;
    CarveSparesIff(e, x, s, vital);
  }

  /** A block behind the merged head is one the heap had before, of the same size. */
  lemma BehindTaken(h: Heap, e: Heap, s: int, k: nat, p: Pmm)
    requires Inv(h) && Inside(h) && TakenFrom(h, p) && k > 0 && Grow(h, k).1 && LastFree(h.blocks)
    requires e == Expand(h, k).0 && s > h.blocks[|h.blocks| - 1].size + 4096
    ensures var j := FirstFit(e.blocks, e.frags.list, s);
      j < |e.frags.list| ==>
        && In(e.frags, e.frags.list[j]) && Fits(e.blocks, e.frags.list[j], s)
        && Avoids(e.frags.list[j] + 48, Reach(SizeAt(e.blocks, e.frags.list[j]), s), p.used)
  {
    var j := FirstFit(e.blocks, e.frags.list, s);
    if j < |e.frags.list| {
      FirstFitMeaning(e.blocks, e.frags.list, s);
      HeadTooSmall(h, e, s, k);
      ListAfterExpand(h, k);
      assert e.frags.list[j] == BehindHead(h)[j - 1];
      OldBlockSize(h, k, e.frags.list[j]);
      PartAvoids(h, p, e.frags.list[j], s);
    }
  }

  lemma HeadTooSmall(h: Heap, e: Heap, s: int, k: nat)
    requires Inv(h) && k > 0 && Grow(h, k).1 && LastFree(h.blocks)
    requires e == Expand(h, k).0 && s > h.blocks[|h.blocks| - 1].size + 4096
    ensures e.frags.list != [] && !Fits(e.blocks, e.frags.list[0], s)
  {
    ExpandInv(h, k);
    MergedHead(h, k);
    MergedSize(h, e, k);
  }

  lemma ExtendedAt(bs: seq<Block>, fs: seq<nat>, i: nat)
    requires fs != [] && i < |bs| && (LastFree(bs) ==> i < |bs| - 1)
    ensures i < |Extended(bs, fs)| && Extended(bs, fs)[i] == bs[i] && bs[i] in Extended(bs, fs)
  {
  }

  lemma OldBlockSize(h: Heap, k: nat, x: int)
    requires Inv(h) && k > 0 && Grow(h, k).1 && x in BehindHead(h)
    ensures Find(h.blocks, x) < |h.blocks| && SizeAt(Expand(h, k).0.blocks, x) == SizeAt(h.blocks, x)
  {
    OldPlace(h, x);
    var cs := Expand(h, k).0.blocks;
    assert Ordered(cs) by { ExpandInv(h, k); }
    ExpandBlocks(h, k);
    SizeKept(h.blocks, cs, NextFrames(h.pmm, k), Find(h.blocks, x));
  }

  lemma OldPlace(h: Heap, x: int)
    requires Inv(h) && x in BehindHead(h)
    ensures var i := Find(h.blocks, x); i < |h.blocks| && (LastFree(h.blocks) ==> i < |h.blocks| - 1)
  {
    BehindHeadOld(h, x);
    ListedBlock(h, x);
  }

  lemma SizeKept(bs: seq<Block>, cs: seq<Block>, fs: seq<nat>, i: nat)
    requires fs != [] && i < |bs| && (LastFree(bs) ==> i < |bs| - 1) && cs == Extended(bs, fs) && Ordered(cs)
    ensures SizeAt(cs, bs[i].addr) == bs[i].size
  {
    ExtendedAt(bs, fs, i);
    SizeOfMember(cs, bs[i]);
  }

  lemma PartAvoids(h: Heap, p: Pmm, x: int, s: int)
    requires Inside(h) && TakenFrom(h, p) && Ordered(h.blocks) && Find(h.blocks, x) < |h.blocks|
    requires s <= SizeAt(h.blocks, x)
    ensures Avoids(x + 48, Reach(SizeAt(h.blocks, x), s), p.used)
  {
    var i := Find(h.blocks, x);
    Sizes(h.blocks);
    BlockAvoids(h, p, i);
    AvoidsPart(x + 48, h.blocks[i].size, x + 48, Reach(h.blocks[i].size, s), p.used);
  }

  lemma GapTakeSparesIff(h: Heap, e: Heap, s: int, k: nat, p: Pmm)
    requires Inv(h) && Inside(h) && TakenFrom(h, p) && k > 0 && !ExpandTouches(h, k) && e == Expand(h, k).0
    requires 0 <= s && s % 8 == 0
    ensures var (g, q) := TakeFit(e, s); var l := h.blocks[|h.blocks| - 1];
      Spared(g, q, p.used) <==> s + 48 <= l.size || l.size + 4096 < s
  {
    InsideSpares(h, p, 0);
    assert Guarded(h, p.used);
    ExpandGuarded(h, k, p.used);
    if s <= h.blocks[|h.blocks| - 1].size + 4096 { HeadCutIff(h, e, s, k, p); } else { BehindCut(h, e, s, k, p); }
  }

  lemma HeadCutIff(h: Heap, e: Heap, s: int, k: nat, p: Pmm)
    requires Inv(h) && Inside(h) && TakenFrom(h, p) && k > 0 && !ExpandTouches(h, k) && e == Expand(h, k).0
    requires 0 <= s <= h.blocks[|h.blocks| - 1].size + 4096 && s % 8 == 0 && HeadersAvoid(e.blocks, p.used)
    ensures var (g, q) := TakeFit(e, s); Spared(g, q, p.used) <==> s + 48 <= h.blocks[|h.blocks| - 1].size
  {
    ExpandInv(h, k);
    MergedHead(h, k);
    MergedSize(h, e, k);
    FrontCutIff(e, s, h.blocks[|h.blocks| - 1].addr, p.used);
    FirstPageShape(h, k);
    MergedCutIff(h, p, s);
  }

  lemma BehindCut(h: Heap, e: Heap, s: int, k: nat, p: Pmm)
    requires Inv(h) && Inside(h) && TakenFrom(h, p) && k > 0 && !ExpandTouches(h, k) && e == Expand(h, k).0
    requires 0 <= s && s % 8 == 0 && s > h.blocks[|h.blocks| - 1].size + 4096 && HeadersAvoid(e.blocks, p.used)
    ensures var (g, q) := TakeFit(e, s); Spared(g, q, p.used)
  {
    ExpandInv(h, k);
    BehindTaken(h, e, s, k, p);
    TakenSpares(e, s, p.used);
  }

  lemma TakenSpares(e: Heap, s: int, vital: set<nat>)
    requires Inv(e) && HeadersAvoid(e.blocks, vital) && 0 <= s && s % 8 == 0
    requires var j := FirstFit(e.blocks, e.frags.list, s);
      j < |e.frags.list| ==>
        && In(e.frags, e.frags.list[j]) && Fits(e.blocks, e.frags.list[j], s)
        && Avoids(e.frags.list[j] + 48, Reach(SizeAt(e.blocks, e.frags.list[j]), s), vital)
    ensures var (g, q) := TakeFit(e, s); Spared(g, q, vital)
  {
    var j := FirstFit(e.blocks, e.frags.list, s);
    if j < |e.frags.list| { CarveSparesIff(e, e.frags.list[j], s, vital); }
  }

  /**
    From a heap inside its own frames, a `kmalloc` of any 64-bit size reaches a
    frame used at boot, by the payload it zeroes or a header it writes, exactly
    when it merges across a gap and cuts beyond the old end of the last block.
   */
  lemma KmallocSparesIff(h: Heap, size: nat, p: Pmm)
    requires Inv(h) && Inside(h) && TakenFrom(h, p) && size < UINT64_LIMIT
    ensures var (g, q) := Kmalloc(h, size);
      Spared(g, q, p.used) <==> KmallocTouches(h, size) || CutSpares(h, RoundUp(size))
  {
    if KmallocTouches(h, size) {
      KmallocInsideIff(h, size);
      KmallocInv(h, size);
      AllocateTaken(h, RoundUp(size), PagesNeeded(RoundUp(size)), p);
      InsideSpares(Kmalloc(h, size).0, p, Kmalloc(h, size).1);
    } else {
      RoundUpMeaning(size);
      var k := PagesNeeded(RoundUp(size));
      GapTakeSparesIff(h, Expand(h, k).0, RoundUp(size), k, p);
    }
  }

  /** A cut of `s` bytes stays in the last block as it was, or is made elsewhere. */
  predicate CutSpares(h: Heap, s: int) {
    h.blocks == [] || var l := h.blocks[|h.blocks| - 1]; s + 48 <= l.size || l.size + 4096 < s
  }
}
