/**
  Exact heaps: every free block is on the list and no two neighbours are both
  free.  Which calls keep a heap exact, and what can be said of exact heaps.
 */
module HeapExact {
  import opened FrameSpec
  import opened HeapSpec
  import opened HeapInvariant

  ghost predicate NoPair(bs: seq<Block>) {
    forall k :: !Pair(bs, k)
  }

  ghost predicate Exact(h: Heap) {
    h.frags.orphans == {} && NoPair(h.blocks)
  }

  lemma ListedIffFree(h: Heap, i: nat)
    requires Inv(h) && h.frags.orphans == {} && i < |h.blocks|
    ensures h.blocks[i].free <==> h.blocks[i].addr in h.frags.list
  {
    FreshAddress(h, i, {});
    assert In(h.frags, h.blocks[i].addr) <==> h.blocks[i].addr in h.frags.list;
  }

  // ---------- kfree ----------

  lemma UnlinkNoOrphans(g: Frags, x: int)
    requires g.orphans == {}
    ensures Unlink(g, x).orphans == {}
  {
  }

  /** Blocks `k` and `k + 1` are both free. */
  predicate Pair(bs: seq<Block>, k: int) {
    0 <= k < |bs| - 1 && bs[k].free && bs[k + 1].free
  }

  lemma MergePair(bs: seq<Block>, i: nat, k: int)
    requires i + 1 < |bs| && Pair(Merge(bs, i), k)
    ensures if k < i then Pair(bs, k) else if k > i then Pair(bs, k + 1) else i + 2 < |bs| && bs[i + 2].free
  {
    var r := Merge(bs, i);
    assert r[k].free == bs[if k <= i then k else k + 1].free;
    assert r[k + 1].free == bs[if k + 1 <= i then k + 1 else k + 2].free;
  }

  /** After marking block `i` and merging forward, a free pair can only start at `i - 1`. */
  lemma ForwardPairs(h: Heap, i: nat, k: int)
    requires NoPair(h.blocks) && i < |h.blocks|
    requires Pair(Forward(h.(blocks := SetFree(h.blocks, i, true)), i).blocks, k)
    ensures k == i - 1
  {
    var bs := SetFree(h.blocks, i, true);
    if i + 1 < |bs| && bs[i + 1].free {
      assert !Pair(h.blocks, i + 1) && !Pair(h.blocks, k) && !Pair(h.blocks, k + 1);
      MergePair(bs, i, k);
    } else {
      assert !Pair(h.blocks, k);
    }
  }

  lemma BackwardPairs(f: Heap, i: nat)
    requires i < |f.blocks| && f.blocks[i].free && forall k :: Pair(f.blocks, k) ==> k == i - 1
    ensures NoPair(Backward(f, i).blocks)
  {
    if i > 0 && f.blocks[i - 1].free {
      var r := Merge(f.blocks, i - 1);
      forall k ensures !Pair(r, k) {
        if Pair(r, k) {
          assert !Pair(f.blocks, i);
          MergePair(f.blocks, i - 1, k);
        }
      }
    }
  }

  /** One merge each way is enough. */
  lemma KfreeNoPair(h: Heap, i: nat)
    requires NoPair(h.blocks) && i < |h.blocks|
    ensures var f := Forward(h.(blocks := SetFree(h.blocks, i, true)), i);
      i < |f.blocks| && NoPair(Backward(f, i).blocks)
  {
    var f := Forward(h.(blocks := SetFree(h.blocks, i, true)), i);
    forall k | Pair(f.blocks, k) ensures k == i - 1 {
      ForwardPairs(h, i, k);
    }
    BackwardPairs(f, i);
  }

  /** `kfree` of any pointer into an exact heap leaves it exact. */
  lemma KfreeKeepsExact(h: Heap, ptr: int)
    requires Exact(h)
    ensures Exact(Kfree(h, ptr))
  {
    var i := Find(h.blocks, ptr - 48);
    if ptr != 0 && i < |h.blocks| && !h.blocks[i].free {
      KfreeNoPair(h, i);
    }
  }

  // ---------- kmalloc ----------

  lemma CarveKeepsExact(h: Heap, x: int, s: int)
    requires Inv(h) && Exact(h) && x in h.frags.list
    ensures Exact(Carve(h, x, s))
  {
    ListedBlock(h, x);
    var i := Find(h.blocks, x);
    SplitNoPair(h.blocks, i, s);
    SetFreeNoPair(h.blocks, i);
  }

  lemma SplitNoPair(bs: seq<Block>, i: nat, s: int)
    requires NoPair(bs) && i < |bs| && bs[i].free
    ensures NoPair(Split(bs, i, s))
  {
    var r := Split(bs, i, s);
    forall k | 0 <= k < |r| - 1 ensures !Pair(r, k) {
      assert !Pair(bs, i);
      if k < i {
        assert !Pair(bs, k) && r[k] == bs[k];
      } else if k > i + 1 {
        assert !Pair(bs, k - 1) && r[k] == bs[k - 1] && r[k + 1] == bs[k];
      } else if k == i + 1 {
        assert r[k + 1] == bs[k];
      }
    }
  }

  lemma SetFreeNoPair(bs: seq<Block>, i: nat)
    requires NoPair(bs) && i < |bs|
    ensures NoPair(SetFree(bs, i, false))
  {
    forall k ensures !Pair(SetFree(bs, i, false), k) {
      assert !Pair(bs, k);
    }
  }

  /** Taking a listed block leaves the orphans alone. */
  lemma TakeFitOrphans(h: Heap, s: int)
    ensures TakeFit(h, s).0.frags.orphans == h.frags.orphans
  {
  }

  lemma TakeFitKeepsExact(h: Heap, s: int)
    requires Inv(h) && Exact(h)
    ensures Exact(TakeFit(h, s).0)
  {
    var k := FirstFit(h.blocks, h.frags.list, s);
    if k < |h.frags.list| { CarveKeepsExact(h, h.frags.list[k], s); }
  }

  lemma DropFirstOrphan(h: Heap, k: nat)
    requires h.frags.orphans == {} && k > 0 && Lowest(h.pmm) < h.pmm.frames
    ensures var fs := NextFrames(h.pmm, k);
      DropOrphan(Grow(h, k).0.frags, FrameAddr(fs[0])) == Frags(h.frags.list, Singles(fs[1..]))
  {
    GrowOrphans(h, k);
    FramesAscend(h.pmm, k);
    DropFirst(NextFrames(h.pmm, k));
  }

  /** The heap that expansion hands to `Backward`. */
  lemma GrownExact(h: Heap, k: nat)
    requires h.frags.orphans == {} && k > 0 && Grow(h, k).1
    ensures var g, n, fs := Grow(h, k).0, |h.blocks|, NextFrames(h.pmm, k);
      && |fs| == k && g.blocks == h.blocks + [NewPage(fs[0])] + NewPages(fs[1..])
      && DropOrphan(g.frags, g.blocks[n].addr) == Frags(h.frags.list, Singles(fs[1..]))
      && g.owned == h.owned + fs
  {
    var fs := NextFrames(h.pmm, k);
    GrowIs(h, k);
    HeadAndTail(h.blocks, fs);
    DropFirstOrphan(h, k);
  }

  /** `e` is `h` with the frames `fs` added, the first of them merged into a free last block and listed. */
  ghost predicate ListedFirst(h: Heap, e: Heap, fs: seq<nat>)
    requires fs != []
  {
    && e.blocks == Extended(h.blocks, fs)
    && e.frags.list == if LastFree(h.blocks) then
         var x := h.blocks[|h.blocks| - 1].addr; [x] + Without(h.frags.list, x)
       else [FrameAddr(fs[0])] + h.frags.list
  }

  /**
    A successful expansion by `k` pages of a heap without orphans: the first page, merged
    into the last block if that is free, heads the list; the other `k - 1` are
    separate free blocks of 4048 bytes outside the list.
   */
  lemma ExpandShape(h: Heap, k: nat)
    requires Inv(h) && h.frags.orphans == {} && k > 0 && Grow(h, k).1
    ensures var e, fs := Expand(h, k).0, NextFrames(h.pmm, k);
      && |fs| == k && e.frags.orphans == Singles(fs[1..]) && |Singles(fs[1..])| == k - 1
      && ListedFirst(h, e, fs)
  {
    var fs := NextFrames(h.pmm, k);
    ExpandBlocks(h, k);
    ExpandFrags(h, k);
    FramesAscend(h.pmm, k);
    SinglesCount(fs[1..]);
  }

  lemma ExpandFrags(h: Heap, k: nat)
    requires Inv(h) && h.frags.orphans == {} && k > 0 && Grow(h, k).1
    ensures var e, fs := Expand(h, k).0, NextFrames(h.pmm, k);
      && |fs| == k && e.frags.orphans == Singles(fs[1..])
      && e.frags.list == if LastFree(h.blocks) then
           var x := h.blocks[|h.blocks| - 1].addr; [x] + Without(h.frags.list, x)
         else [FrameAddr(fs[0])] + h.frags.list
  {
    var g, n, fs := Grow(h, k).0, |h.blocks|, NextFrames(h.pmm, k);
    GrownExact(h, k);
    if LastFree(h.blocks) {
      ListedIffFree(h, n - 1);
      assert g.blocks[n - 1] == h.blocks[n - 1];
    }
  }

  lemma {:induction false} FramesAscend(p: Pmm, k: nat)
    ensures var fs := NextFrames(p, k);
      && (forall i :: 0 <= i < |fs| ==> fs[i] >= Lowest(p))
      && (forall i, j :: 0 <= i < j < |fs| ==> fs[i] < fs[j])
    decreases k
  {
    if k > 0 && Lowest(p) < p.frames {
      LowestAdvances(p);
      FramesAscend(AllocFrame(p).0, k - 1);
      var fs := NextFrames(p, k);
      assert fs[1..] == NextFrames(AllocFrame(p).0, k - 1);
      forall i | 0 < i < |fs| ensures fs[i] > Lowest(p) {
        assert fs[i] == fs[1..][i - 1];
      }
      forall i, j | 0 <= i < j < |fs| ensures fs[i] < fs[j] {
        assert fs[j] == fs[1..][j - 1];
        if i > 0 { assert fs[i] == fs[1..][i - 1]; }
      }
    }
  }

  lemma {:induction false} SingleMember(fs: seq<nat>, a: int)
    ensures [a] in Singles(fs) <==> exists i :: 0 <= i < |fs| && FrameAddr(fs[i]) == a
  {
    if fs != [] {
      SingleMember(fs[1..], a);
      if exists i :: 0 <= i < |fs| && FrameAddr(fs[i]) == a {
        var i :| 0 <= i < |fs| && FrameAddr(fs[i]) == a;
        if i > 0 { assert fs[1..][i - 1] == fs[i]; }
      }
      if [a] in Singles(fs[1..]) {
        var i :| 0 <= i < |fs[1..]| && FrameAddr(fs[1..][i]) == a;
        assert fs[i + 1] == fs[1..][i];
      }
      assert [a] == [FrameAddr(fs[0])] <==> a == FrameAddr(fs[0]) by {
        assert [a][0] == a && [FrameAddr(fs[0])][0] == FrameAddr(fs[0]);
      }
    }
  }

  lemma DropFirst(fs: seq<nat>)
    requires fs != [] && forall i, j :: 0 <= i < j < |fs| ==> fs[i] < fs[j]
    ensures Singles(fs) - {[FrameAddr(fs[0])]} == Singles(fs[1..])
  {
    SingleMember(fs[1..], FrameAddr(fs[0]));
  }

  /** There are `k - 1` of them. */
  lemma {:induction false} SinglesCount(fs: seq<nat>)
    requires forall i, j :: 0 <= i < j < |fs| ==> fs[i] < fs[j]
    ensures |Singles(fs)| == |fs|
  {
    if fs != [] {
      DropFirst(fs);
      SinglesCount(fs[1..]);
      assert [FrameAddr(fs[0])] in Singles(fs);
    }
  }

  lemma OnePageKeepsExact(h: Heap)
    requires Inv(h) && Exact(h)
    ensures Exact(Expand(h, 1).0)
  {
    if Grow(h, 1).1 {
      var g, n, fs := Grow(h, 1).0, |h.blocks|, NextFrames(h.pmm, 1);
      GrownExact(h, 1);
      var d := g.(frags := DropOrphan(g.frags, g.blocks[n].addr));
      forall k | Pair(d.blocks, k) ensures k == n - 1 {
        assert !Pair(h.blocks, k);
      }
      BackwardPairs(d, n);
      if n > 0 && d.blocks[n - 1].free { UnlinkNoOrphans(d.frags, d.blocks[n - 1].addr); }
    }
  }

  /** Pages beyond the first stay orphans, and so does every page of a partly failed expansion. */
  lemma ExpandOrphans(h: Heap, k: nat)
    requires Inv(h) && h.frags.orphans == {} && k > 1 && Lowest(h.pmm) < h.pmm.frames
    ensures Expand(h, k).0.frags.orphans != {}
  {
    var fs := NextFrames(h.pmm, k);
    GrowIs(h, k);
    if Grow(h, k).1 {
      ExpandShape(h, k);
    } else {
      assert [FrameAddr(fs[0])] in Singles(fs);
    }
  }

  lemma AllocateExactIff(h: Heap, s: int, k: nat)
    requires Inv(h) && Exact(h) && k > 0
    ensures Exact(Allocate(h, s, k).0) <==> ListedFit(h, s) || k == 1 || Lowest(h.pmm) == h.pmm.frames
  {
    if ListedFit(h, s) {
      TakeFitKeepsExact(h, s);
    } else if Lowest(h.pmm) < h.pmm.frames {
      var e := Expand(h, k).0;
      ExpandInv(h, k);
      TakeFitOrphans(e, s);
      if k == 1 {
        OnePageKeepsExact(h);
        TakeFitKeepsExact(e, s);
      } else {
        ExpandOrphans(h, k);
      }
    }
  }

  /** On an exact heap, `kmalloc` leaves it exact unless it expands by two pages or more. */
  lemma KmallocExactIff(h: Heap, size: nat)
    requires Inv(h) && Exact(h) && 0 < size < UINT64_LIMIT
    ensures var s := RoundUp(size);
      Exact(Kmalloc(h, size).0) <==> ListedFit(h, s) || PagesNeeded(s) == 1 || Lowest(h.pmm) == h.pmm.frames
  {
    AllocateExactIff(h, RoundUp(size), PagesNeeded(RoundUp(size)));
  }

  /** The same for "every free block is listed" alone, on any heap of which that holds. */
  lemma KmallocListsAllIff(h: Heap, size: nat)
    requires Inv(h) && h.frags.orphans == {} && 0 < size < UINT64_LIMIT
    ensures var s := RoundUp(size);
      Kmalloc(h, size).0.frags.orphans == {} <==>
      ListedFit(h, s) || PagesNeeded(s) == 1 || Lowest(h.pmm) == h.pmm.frames
  {
    AllocateListsAllIff(h, RoundUp(size), PagesNeeded(RoundUp(size)));
  }

  lemma AllocateListsAllIff(h: Heap, s: int, k: nat)
    requires Inv(h) && h.frags.orphans == {} && k > 0
    ensures Allocate(h, s, k).0.frags.orphans == {} <==> ListedFit(h, s) || k == 1 || Lowest(h.pmm) == h.pmm.frames
  {
    TakeFitOrphans(h, s);
    TakeFitOrphans(Expand(h, k).0, s);
    if Lowest(h.pmm) < h.pmm.frames {
      if k == 1 { OnePageListsAll(h, k); } else { ExpandOrphans(h, k); }
    }
  }

  lemma OnePageListsAll(h: Heap, k: nat)
    requires Inv(h) && h.frags.orphans == {} && k == 1 && Lowest(h.pmm) < h.pmm.frames
    ensures Expand(h, k).0.frags.orphans == {}
  {
    assert Grow(h, k).1;
    ExpandFrags(h, k);
  }

  /** `kheap_init` asks for five pages, so a heap with any memory at all starts out inexact. */
  lemma BootExactIff(p: Pmm)
    ensures Exact(Boot(p)) <==> Lowest(p) == p.frames
  {
    var h := Heap([], Frags([], {}), [], p);
    assert PagesFor(16384) == 5;
    assert Exact(h) && Inv(h);
    if Lowest(p) < p.frames { ExpandOrphans(h, 5); }
  }

  /** Nor is every free block listed then. */
  lemma BootListsAllIff(p: Pmm)
    ensures Boot(p).frags.orphans == {} <==> Lowest(p) == p.frames
  {
    var h := Heap([], Frags([], {}), [], p);
    assert PagesFor(16384) == 5 && Inv(h);
    if Lowest(p) < p.frames { ExpandOrphans(h, 5); }
  }

  // ---------- kmalloc then kfree ----------

  lemma PushThenUnlink(g: Frags, x: int)
    ensures Unlink(Push(g, x), x) == g
  {
    assert ([x] + g.list)[1..] == g.list;
    assert RemoveAt([x] + g.list, 0) == g.list;
  }

  lemma KfreeAt(h: Heap, i: nat)
    requires Ordered(h.blocks) && i < |h.blocks| && !h.blocks[i].free
    ensures Kfree(h, h.blocks[i].addr + 48) == Backward(Forward(h.(blocks := SetFree(h.blocks, i, true)), i), i)
  {
    FindUnique(h.blocks, i);
    assert BlockOK(h.blocks[i]);
  }

  lemma CarveThenFree(h: Heap, x: int, s: int)
    requires Inv(h) && Exact(h) && x in h.frags.list && Fits(h.blocks, x, s) && 0 <= s && s % 8 == 0
    ensures Kfree(Carve(h, x, s), x + 48) == h.(frags := Push(Unlink(h.frags, x), x))
  {
    ListedBlock(h, x);
    CarveInv(h, x, s);
    CarveCases(h, x, Find(h.blocks, x), s, Carve(h, x, s), Unlink(h.frags, x));
    FreeCarved(h, Find(h.blocks, x), s, Carve(h, x, s), Unlink(h.frags, x));
  }

  /** What carving block `i` makes of the heap. */
  ghost predicate CarvedInto(h: Heap, i: nat, s: int, c: Heap, g: Frags)
    requires i < |h.blocks|
  {
    if h.blocks[i].size >= s + 96 then
      c == h.(blocks := Split(h.blocks, i, s), frags := Push(g, h.blocks[i].addr + 48 + s))
    else
      c == h.(blocks := SetFree(h.blocks, i, false), frags := g)
  }

  lemma CarveCases(h: Heap, x: int, i: nat, s: int, c: Heap, g: Frags)
    requires i == Find(h.blocks, x) < |h.blocks| && c == Carve(h, x, s) && g == Unlink(h.frags, x)
    ensures CarvedInto(h, i, s, c, g)
  {
  }

  lemma FreeCarved(h: Heap, i: nat, s: int, c: Heap, g: Frags)
    requires NoPair(h.blocks) && i < |h.blocks| && h.blocks[i].free && CarvedInto(h, i, s, c, g) && Ordered(c.blocks)
    ensures Kfree(c, h.blocks[i].addr + 48) == h.(frags := Push(g, h.blocks[i].addr))
  {
    if h.blocks[i].size >= s + 96 { SplitThenFree(h, i, s, g, c); } else { WholeThenFree(h, i, g); }
  }

  lemma SplitThenFree(h: Heap, i: nat, s: int, g: Frags, c: Heap)
    requires NoPair(h.blocks) && i < |h.blocks| && h.blocks[i].free && Ordered(c.blocks)
    requires c == h.(blocks := Split(h.blocks, i, s), frags := Push(g, h.blocks[i].addr + 48 + s))
    ensures Kfree(c, h.blocks[i].addr + 48) == h.(frags := Push(g, h.blocks[i].addr))
  {
    var d := c.(blocks := SetFree(c.blocks, i, true));
    assert Kfree(c, h.blocks[i].addr + 48) == Backward(Forward(d, i), i) by {
      assert c.blocks[i] == Block(h.blocks[i].addr, s, false);
      KfreeAt(c, i);
    }
    PushThenUnlink(g, h.blocks[i].addr + 48 + s);
    RejoinSplit(h, i, s, g, d);
  }

  lemma WholeThenFree(h: Heap, i: nat, g: Frags)
    requires NoPair(h.blocks) && i < |h.blocks| && h.blocks[i].free && Ordered(SetFree(h.blocks, i, false))
    ensures var x := h.blocks[i].addr;
      Kfree(h.(blocks := SetFree(h.blocks, i, false), frags := g), x + 48) == h.(frags := Push(g, x))
  {
    KfreeAt(h.(blocks := SetFree(h.blocks, i, false), frags := g), i);
    RejoinWhole(h, i, g);
  }

  /** Freeing the block just split off merges the remainder back, and nothing more. */
  lemma RejoinSplit(h: Heap, i: nat, s: int, g: Frags, c: Heap)
    requires NoPair(h.blocks) && i < |h.blocks| && h.blocks[i].free
    requires Unlink(Push(g, h.blocks[i].addr + 48 + s), h.blocks[i].addr + 48 + s) == g
    requires c == h.(blocks := SetFree(Split(h.blocks, i, s), i, true), frags := Push(g, h.blocks[i].addr + 48 + s))
    ensures Forward(c, i) == h.(frags := g) && Backward(Forward(c, i), i) == h.(frags := Push(g, h.blocks[i].addr))
  {
    SplitThenMerge(h.blocks, i, s);
    if i > 0 { assert !Pair(h.blocks, i - 1); }
  }

  lemma RejoinWhole(h: Heap, i: nat, g: Frags)
    requires NoPair(h.blocks) && i < |h.blocks| && h.blocks[i].free
    ensures var c := h.(blocks := SetFree(SetFree(h.blocks, i, false), i, true), frags := g);
      Forward(c, i) == c && Backward(c, i) == h.(frags := Push(g, h.blocks[i].addr))
  {
    assert SetFree(SetFree(h.blocks, i, false), i, true) == h.blocks;
    assert !Pair(h.blocks, i);
    if i > 0 { assert !Pair(h.blocks, i - 1); }
  }

  lemma SplitThenMerge(bs: seq<Block>, i: nat, s: int)
    requires i < |bs| && bs[i].free
    ensures Merge(SetFree(Split(bs, i, s), i, true), i) == bs
  {
    var r := SetFree(Split(bs, i, s), i, true);
    assert r[..i] == bs[..i] && r[i + 2..] == bs[i + 1..];
    assert bs == bs[..i] + [bs[i]] + bs[i + 1..];
  }

  lemma TakeThenFree(h: Heap, s: int)
    requires Inv(h) && Exact(h) && ListedFit(h, s) && 0 <= s && s % 8 == 0
    ensures var (g, p) := TakeFit(h, s);
      && p != 0 && p - 48 in h.frags.list
      && Kfree(g, p) == h.(frags := Push(Unlink(h.frags, p - 48), p - 48))
  {
    FirstFitMeaning(h.blocks, h.frags.list, s);
    var x := h.frags.list[FirstFit(h.blocks, h.frags.list, s)];
    ListedBlock(h, x);
    CarveThenFree(h, x, s);
  }

  /**
    On an exact heap, freeing what `kmalloc` took from the list restores the
    chain, addresses, sizes and flags, and only moves that block to the front.
   */
  lemma MallocThenFree(h: Heap, size: nat)
    requires Inv(h) && Exact(h) && 0 < size < UINT64_LIMIT && ListedFit(h, RoundUp(size))
    ensures var (g, p) := Kmalloc(h, size);
      && p != 0 && p - 48 in h.frags.list
      && Kfree(g, p) == h.(frags := Frags([p - 48] + Without(h.frags.list, p - 48), {}))
  {
    RoundUpMeaning(size);
    TakeThenFree(h, RoundUp(size));
  }
}
