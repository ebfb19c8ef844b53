/** When `kmalloc` succeeds, on any heap of any run. */
module HeapService {
  import opened FrameSpec
  import opened HeapSpec
  import opened HeapInvariant
  import opened HeapListed

  /** After any successful expansion the list starts with a block of at least 4048 bytes. */
  lemma ExpandHead(h: Heap, k: nat)
    requires Inv(h) && k > 0 && Grow(h, k).1
    ensures var e := Expand(h, k).0; e.frags.list != [] && Fits(e.blocks, e.frags.list[0], 4048)
  {
    var g, n := Grow(h, k).0, |h.blocks|;
    FirstPage(h, k);
    ExpandInv(h, k);
    var e := Expand(h, k).0;
    if n > 0 && g.blocks[n - 1].free {
      assert BlockOK(h.blocks[n - 1]) && g.blocks[n - 1] == g.blocks[..n][n - 1];
      FindUnique(e.blocks, n - 1);
    } else {
      FindUnique(e.blocks, n);
    }
  }

  lemma AllocateSucceedsIff(h: Heap, s: int, k: nat)
    requires Inv(h) && k > 0 && 0 <= s <= 4048
    ensures Allocate(h, s, k).1 != 0 <==> ListedFit(h, s) || Grow(h, k).1
    ensures !ListedFit(h, s) && Grow(h, k).1 ==> FirstFit(Expand(h, k).0.blocks, Expand(h, k).0.frags.list, s) == 0
  {
    if ListedFit(h, s) {
      ListedBlock(h, h.frags.list[FirstFit(h.blocks, h.frags.list, s)]);
    } else if Grow(h, k).1 {
      var e := Expand(h, k).0;
      ExpandHead(h, k);
      ExpandInv(h, k);
      ListedBlock(e, e.frags.list[0]);
    }
  }

  /**
    On every heap of every run: 1 to 4000 bytes are granted exactly when a
    listed block fits or a frame is left, and after an expansion the first
    listed block always fits, so the "still no suitable block" branch is dead.
   */
  lemma SmallMallocSucceedsIff(h: Heap, size: nat)
    requires Inv(h) && 1 <= size <= 4000
    ensures var s := RoundUp(size);
      && (Kmalloc(h, size).1 != 0 <==> ListedFit(h, s) || Lowest(h.pmm) < h.pmm.frames)
      && (!ListedFit(h, s) && Expand(h, PagesNeeded(s)).1 ==> ListedFit(Expand(h, PagesNeeded(s)).0, s))
  {
    var s := RoundUp(size);
    assert s <= 4000 && PagesNeeded(s) == 1;
    AllocateSucceedsIff(h, s, 1);
    assert Grow(h, 1).1 <==> Lowest(h.pmm) < h.pmm.frames;
    if Grow(h, 1).1 { ExpandHead(h, 1); }
  }

  // ---------- large requests ----------

  lemma NothingFits(h: Heap, s: int, y: int)
    requires !ListedFit(h, s) && y in h.frags.list
    ensures !Fits(h.blocks, y, s)
  {
    FirstFitMeaning(h.blocks, h.frags.list, s);
    assert h.frags.list[Position(h.frags.list, y)] == y;
  }

  lemma SomethingFits(h: Heap, s: int, y: int)
    requires y in h.frags.list && Fits(h.blocks, y, s)
    ensures ListedFit(h, s)
  {
    FirstFitMeaning(h.blocks, h.frags.list, s);
    assert h.frags.list[Position(h.frags.list, y)] == y;
  }

  /** What the list holds behind its new head after an expansion. */
  ghost function BehindHead(h: Heap): seq<int> {
    if LastFree(h.blocks) then Unlink(h.frags, h.blocks[|h.blocks| - 1].addr).list else h.frags.list
  }

  lemma ListAfterExpand(h: Heap, k: nat)
    requires Inv(h) && k > 0 && Grow(h, k).1
    ensures var e := Expand(h, k).0;
      e.frags.list
        == [if LastFree(h.blocks) then h.blocks[|h.blocks| - 1].addr else FrameAddr(Lowest(h.pmm))] + BehindHead(h)
  {
    var g, n := Grow(h, k).0, |h.blocks|;
    FirstPage(h, k);
    GrowOrphans(h, k);
    if n > 0 { assert g.blocks[n - 1] == g.blocks[..n][n - 1]; }
    if LastFree(h.blocks) {
      var x := h.blocks[n - 1].addr;
      var d := DropOrphan(g.frags, g.blocks[n].addr);
      FreshAddress(h, n - 1, {});
      PageIsNew(h);
      SameTail(h.frags, d, x, g.blocks[n].addr);
    }
  }

  lemma PageIsNew(h: Heap)
    requires Inv(h) && Lowest(h.pmm) < h.pmm.frames
    ensures !In(h.frags, FrameAddr(Lowest(h.pmm)))
  {
    assert Lowest(h.pmm) in Clear(h.pmm);
    AppendOK(h.blocks, h.owned, Lowest(h.pmm));
  }

  /** Adding other orphans does not change what unlinking a block leaves on the list. */
  lemma SameTail(g: Frags, d: Frags, x: int, a: int)
    requires FragsOK(g) && FragsOK(d) && In(g, x) && !In(g, a) && d.list == g.list
    requires forall f :: f in g.orphans && f != [a] ==> f in d.orphans
    ensures Unlink(d, x).list == Unlink(g, x).list
  {
    if x !in g.list {
      var f :| f in g.orphans && x in f;
      assert a in [a] && a !in f;
      UnlinkListIs(g, x, f);
      UnlinkListIs(d, x, f);
    }
  }

  lemma BehindHeadOld(h: Heap, y: int)
    requires Inv(h) && y in BehindHead(h)
    ensures In(h.frags, y) && (LastFree(h.blocks) ==> y != h.blocks[|h.blocks| - 1].addr)
  {
    if LastFree(h.blocks) {
      var x := h.blocks[|h.blocks| - 1].addr;
      FreshAddress(h, |h.blocks| - 1, {});
      UnlinkOK(h.frags, x);
      assert In(Unlink(h.frags, x), y);
    }
  }

  /** A free block other than the last keeps its place and size through an expansion. */
  lemma OldBlockFits(h: Heap, e: Heap, fs: seq<nat>, s: int, y: int)
    requires Inv(h) && Ordered(e.blocks) && fs != [] && e.blocks == Extended(h.blocks, fs) && In(h.frags, y)
    requires LastFree(h.blocks) ==> y != h.blocks[|h.blocks| - 1].addr
    ensures Fits(e.blocks, y, s) <==> Fits(h.blocks, y, s)
  {
    ListedBlock(h, y);
    var i := Find(h.blocks, y);
    assert e.blocks[i] == h.blocks[i];
    FindUnique(e.blocks, i);
  }

  lemma HeadFitsIff(h: Heap, e: Heap, fs: seq<nat>, s: int, x: int)
    requires Ordered(e.blocks) && fs != [] && e.blocks == Extended(h.blocks, fs) && s > 4048
    requires x == if LastFree(h.blocks) then h.blocks[|h.blocks| - 1].addr else FrameAddr(fs[0])
    ensures Fits(e.blocks, x, s) <==> LastFree(h.blocks) && h.blocks[|h.blocks| - 1].size + 4096 >= s
  {
    var n := |h.blocks|;
    if LastFree(h.blocks) {
      assert e.blocks[n - 1].addr == x;
      FindUnique(e.blocks, n - 1);
    } else {
      assert e.blocks[n] == NewPage(fs[0]);
      FindUnique(e.blocks, n);
    }
  }

  /** The block at `x` is the front of an orphan, and a block behind it there fits. */
  ghost predicate OrphanTailFits(h: Heap, x: int, s: int) {
    exists f, j :: f in h.frags.orphans && f != [] && f[0] == x && 0 < j < |f| && Fits(h.blocks, f[j], s)
  }

  /** Something behind the new head fits exactly when the last block fronts an orphan with a block that does. */
  lemma BehindHeadFitsIff(h: Heap, s: int)
    requires Inv(h) && !ListedFit(h, s)
    ensures (exists y :: y in BehindHead(h) && Fits(h.blocks, y, s)) <==>
      LastFree(h.blocks) && OrphanTailFits(h, h.blocks[|h.blocks| - 1].addr, s)
  {
    if !LastFree(h.blocks) {
      forall y | y in BehindHead(h) ensures !Fits(h.blocks, y, s) { NothingFits(h, s, y); }
    } else {
      var x := h.blocks[|h.blocks| - 1].addr;
      FreshAddress(h, |h.blocks| - 1, {});
      if x in h.frags.list {
        RemoveAtMembers(h.frags.list, Position(h.frags.list, x));
        forall y | y in BehindHead(h) ensures !Fits(h.blocks, y, s) { NothingFits(h, s, y); }
        ListedFrontsNone(h.frags, x);
      } else {
        var f :| f in h.frags.orphans && x in f;
        UnlinkListIs(h.frags, x, f);
        OrphanCase(h, x, f, s);
      }
    }
  }

  lemma OrphanCase(h: Heap, x: int, f: seq<int>, s: int)
    requires FragsOK(h.frags) && !ListedFit(h, s) && f in h.frags.orphans && x in f
    requires BehindHead(h) == if f[0] == x then f[1..] else h.frags.list
    ensures (exists y :: y in BehindHead(h) && Fits(h.blocks, y, s)) <==> OrphanTailFits(h, x, s)
  {
    if OrphanTailFits(h, x, s) {
      var e, j :| e in h.frags.orphans && e != [] && e[0] == x && 0 < j < |e| && Fits(h.blocks, e[j], s);
      assert e[0] in e;
      assert e == f && f[1..][j - 1] == f[j];
      assert f[j] in BehindHead(h);
    }
    if exists y :: y in BehindHead(h) && Fits(h.blocks, y, s) {
      var y :| y in BehindHead(h) && Fits(h.blocks, y, s);
      if f[0] == x {
        var j := Position(f[1..], y);
        assert f[j + 1] == y;
      } else {
        NothingFits(h, s, y);
      }
    }
  }

  /** Which blocks can serve a large request once the heap has been expanded. */
  lemma ExpandedFitIff(h: Heap, s: int, k: nat)
    requires Inv(h) && k > 0 && Grow(h, k).1 && s > 4048
    ensures var e := Expand(h, k).0;
      && e.frags.list != [] && Inv(e)
      && (ListedFit(e, s) <==>
            || (LastFree(h.blocks) && h.blocks[|h.blocks| - 1].size + 4096 >= s)
            || exists y :: y in BehindHead(h) && Fits(h.blocks, y, s))
  {
    var e, fs := Expand(h, k).0, NextFrames(h.pmm, k);
    ListAfterExpand(h, k);
    ExpandBlocks(h, k);
    ExpandInv(h, k);
    HeadFitsIff(h, e, fs, s, e.frags.list[0]);
    forall y | y in BehindHead(h) ensures Fits(e.blocks, y, s) <==> Fits(h.blocks, y, s) {
      BehindHeadOld(h, y);
      OldBlockFits(h, e, fs, s, y);
    }
    HeadOrBehind(e, BehindHead(h), s);
  }

  lemma HeadOrBehind(e: Heap, t: seq<int>, s: int)
    requires e.frags.list != [] && e.frags.list[1..] == t
    ensures ListedFit(e, s) <==> Fits(e.blocks, e.frags.list[0], s) || exists y :: y in t && Fits(e.blocks, y, s)
  {
    if Fits(e.blocks, e.frags.list[0], s) { SomethingFits(e, s, e.frags.list[0]); }
    if exists y :: y in t && Fits(e.blocks, y, s) {
      var y :| y in t && Fits(e.blocks, y, s);
      SomethingFits(e, s, y);
    }
    if ListedFit(e, s) {
      FirstFitMeaning(e.blocks, e.frags.list, s);
      var k := FirstFit(e.blocks, e.frags.list, s);
      if k > 0 { assert e.frags.list[k] == t[k - 1]; }
    }
  }

  /** After an expansion on a heap where nothing fitted, what makes a request of more than 4048 bytes succeed. */
  ghost predicate ServedByExpansion(h: Heap, s: int) {
    LastFree(h.blocks) && var l := h.blocks[|h.blocks| - 1]; l.size + 4096 >= s || OrphanTailFits(h, l.addr, s)
  }

  lemma LargeAllocateSucceedsIff(h: Heap, s: int, k: nat)
    requires Inv(h) && k > 0 && s > 4048
    ensures Allocate(h, s, k).1 != 0 <==> ListedFit(h, s) || (Grow(h, k).1 && ServedByExpansion(h, s))
  {
    if ListedFit(h, s) {
      ListedBlock(h, h.frags.list[FirstFit(h.blocks, h.frags.list, s)]);
    } else if Grow(h, k).1 {
      var e := Expand(h, k).0;
      ExpandedFitIff(h, s, k);
      BehindHeadFitsIff(h, s);
      if ListedFit(e, s) { ListedBlock(e, e.frags.list[FirstFit(e.blocks, e.frags.list, s)]); }
    }
  }

  /**
    On every heap of every run, more than 4048 bytes are granted exactly when a
    listed block fits, or all the pages asked for are found and the first of
    them joins a free last block that either becomes large enough or was the
    front of an orphan holding a block that fits.  The other pages never help.
   */
  lemma LargeMallocSucceedsIff(h: Heap, size: nat)
    requires Inv(h) && 4048 < size <= UINT64_LIMIT - 8
    ensures var s := RoundUp(size);
      Kmalloc(h, size).1 != 0 <==> ListedFit(h, s) || (|Clear(h.pmm)| >= PagesNeeded(s) && ServedByExpansion(h, s))
  {
    RoundUpMeaning(size);
    GrowSucceedsIff(h, PagesNeeded(RoundUp(size)));
    LargeAllocateSucceedsIff(h, RoundUp(size), PagesNeeded(RoundUp(size)));
  }
}
