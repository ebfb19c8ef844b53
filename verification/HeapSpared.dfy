/**
  Frames that the heap must leave alone.  `kmalloc` zeroes the whole payload it
  grants, and the frame bitmap and the kernel's own variables are bytes of
  frames reserved at boot, so a block that has grown over such a frame is a
  danger to the allocator itself.
 */
module HeapSpared {
  import opened FrameSpec
  import opened HeapSpec
  import opened HeapInvariant

  /** No byte of the `n` bytes at `a` lies in a frame of `vital`. */
  predicate Avoids(a: int, n: int, vital: set<nat>) {
    forall f :: f in vital ==> n <= 0 || a + n <= FrameAddr(f) || FrameAddr(f) + 4096 <= a
  }

  lemma AvoidsMeaning(a: int, n: int, vital: set<nat>)
    ensures Avoids(a, n, vital) <==> forall x, f :: a <= x < a + n && f in vital ==> !InFrame(x, f)
  {
    forall f | f in vital && n > 0 && a + n > FrameAddr(f) && FrameAddr(f) + 4096 > a
      ensures exists x :: a <= x < a + n && InFrame(x, f)
    {
      assert InFrame(if a < FrameAddr(f) then FrameAddr(f) else a, f);
    }
  }

  predicate HeadersAvoid(bs: seq<Block>, vital: set<nat>) {
    forall i :: 0 <= i < |bs| ==> Avoids(bs[i].addr, 48, vital)
  }

  /** Between calls: every header keeps out of the vital frames, and none of these can be handed out. */
  ghost predicate Guarded(h: Heap, vital: set<nat>) {
    HeadersAvoid(h.blocks, vital) && vital <= h.pmm.used
  }

  /** What `kmalloc` granted, and every header it left, keeps out of the vital frames. */
  predicate Spared(g: Heap, q: int, vital: set<nat>) {
    HeadersAvoid(g.blocks, vital) && (q == 0 || Avoids(q, SizeAt(g.blocks, q - 48), vital))
  }

  // ---------- every call but a grant keeps the heap guarded ----------

  lemma MergeAvoids(bs: seq<Block>, i: nat, vital: set<nat>)
    requires i + 1 < |bs| && HeadersAvoid(bs, vital)
    ensures HeadersAvoid(Merge(bs, i), vital)
  {
    var r := Merge(bs, i);
    forall k | 0 <= k < |r| ensures Avoids(r[k].addr, 48, vital) {
      assert r[k].addr == bs[if k <= i then k else k + 1].addr;
    }
  }

  lemma KfreeGuarded(h: Heap, ptr: int, vital: set<nat>)
    requires Guarded(h, vital)
    ensures Guarded(Kfree(h, ptr), vital)
  {
    var i := Find(h.blocks, ptr - 48);
    if !(ptr == 0 || i == |h.blocks| || h.blocks[i].free) {
      var bs := SetFree(h.blocks, i, true);
      assert HeadersAvoid(bs, vital);
      if i + 1 < |bs| { MergeAvoids(bs, i, vital); }
      var f := Forward(h.(blocks := bs), i);
      if i > 0 { MergeAvoids(f.blocks, i - 1, vital); }
    }
  }

  lemma GrowOneGuarded(h: Heap, vital: set<nat>)
    requires Guarded(h, vital) && Lowest(h.pmm) < h.pmm.frames
    ensures Guarded(GrowOne(h), vital)
  {
    var f := Lowest(h.pmm);
    forall v | v in vital ensures FrameAddr(f) + 48 <= FrameAddr(v) || FrameAddr(v) + 4096 <= FrameAddr(f) {
      assert v != f;
    }
    assert Avoids(NewPage(f).addr, 48, vital);
  }

  lemma {:induction false} GrowGuarded(h: Heap, k: nat, vital: set<nat>)
    requires Guarded(h, vital)
    ensures Guarded(Grow(h, k).0, vital)
    decreases k
  {
    if k > 0 && Lowest(h.pmm) < h.pmm.frames {
      GrowOneGuarded(h, vital);
      GrowGuarded(GrowOne(h), k - 1, vital);
    }
  }

  lemma ExpandGuarded(h: Heap, k: nat, vital: set<nat>)
    requires Guarded(h, vital) && k > 0
    ensures Guarded(Expand(h, k).0, vital)
  {
    var (g, ok) := Grow(h, k);
    GrowGuarded(h, k, vital);
    if ok && |h.blocks| > 0 { MergeAvoids(g.blocks, |h.blocks| - 1, vital); }
  }

  // ---------- the bitmap ----------

  /** Every byte of the bitmap that lies in a managed frame lies in a vital one. */
  ghost predicate BitmapIn(base: nat, length: nat, frames: nat, vital: set<nat>) {
    forall x, f: nat :: base <= x < base + length && f < frames && InFrame(x, f) ==> f in vital
  }

  /** Then no byte of a managed range that avoids the vital frames is a byte of the bitmap. */
  lemma AvoidsBitmap(base: nat, length: nat, frames: nat, vital: set<nat>, a: int, n: int)
    requires BitmapIn(base, length, frames, vital) && Avoids(a, n, vital)
    requires RAM_BASE <= a && a + n <= FrameAddr(frames)
    ensures n <= 0 || length == 0 || a + n <= base || base + length <= a
  {
    if n > 0 && length > 0 && base < a + n && a < base + length {
      var x := if a < base then base else a;
      var f := (x - RAM_BASE) / 4096;
      assert InFrame(x, f);
    }
  }

  /** `frame_alloc_init` reserves the frames of the bitmap whenever its range rounds right. */
  lemma InitKeepsBitmap(frames: nat, kernel: nat, kernelSize: nat, bitmap: nat, bitmapSize: nat)
    requires bitmap < UINT64_LIMIT && bitmapSize < UINT64_LIMIT && 0 < frames && FrameAddr(frames) <= UINT64_LIMIT
    requires RoundsRight(frames, bitmap, bitmapSize)
    ensures BitmapIn(bitmap, bitmapSize, frames, InitState(frames, kernel, kernelSize, bitmap, bitmapSize).used)
  {
    InitAccounted(frames, kernel, kernelSize, bitmap, bitmapSize);
    MarksExactlyMeeting(frames, bitmap, bitmapSize);
    forall x, f: nat | bitmap <= x < bitmap + bitmapSize && f < frames && InFrame(x, f)
      ensures f in Meeting(frames, bitmap, bitmapSize)
    {
    }
  }
}
