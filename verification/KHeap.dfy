/**
  The allocator of `src/memory/kheap.c`, pointer write by pointer write, over
  headers in memory.  Every method is proved against `HeapSpec`.
 */
module KernelHeap {
  import opened FrameSpec
  import opened FrameAllocation
  import opened HeapSpec
  import opened HeapInvariant
  import opened HeapMemory
  import opened HeapSpared

  /** The pointer writes of `add_to_free_list`. */
  method WriteFront(m0: Mem, head0: int, block: int) returns (m: Mem, head: int)
    requires block in m0 && (head0 != 0 ==> head0 in m0)
    ensures m == PushMem(m0, block, head0) && head == block
  {
    m := m0;
    m := m[block := m[block].(isFree := true)];
    m := m[block := m[block].(nextFree := head0)];
    m := m[block := m[block].(prevFree := 0)];
    if head0 != 0 {
      m := m[head0 := m[head0].(prevFree := block)];
    }
    head := block;
  }

  /** The pointer writes of `remove_from_free_list`. */
  method WriteBypass(m0: Mem, head0: int, block: int) returns (m: Mem, head: int)
    requires Linked(m0, block)
    ensures m == UnlinkMem(m0, block) && head == if m0[block].prevFree == 0 then m0[block].nextFree else head0
  {
    m, head := m0, head0;
    if m[block].prevFree != 0 {
      var p := m[block].prevFree;
      m := m[p := m[p].(nextFree := m[block].nextFree)];
    } else {
      head := m[block].nextFree;
    }
    if m[block].nextFree != 0 {
      var q := m[block].nextFree;
      m := m[q := m[q].(prevFree := m[block].prevFree)];
    }
    m := m[block := m[block].(isFree := false)];
    m := m[block := m[block].(nextFree := 0)];
    m := m[block := m[block].(prevFree := 0)];
  }

  /** The merge writes that `expand_heap` and both halves of `coalesce` share. */
  method WriteAbsorb(m0: Mem, end0: int, a: int, b: int, wipe: bool) returns (m: Mem, end: int)
    requires a in m0 && b in m0 && a != b
    requires m0[b].next != 0 ==> m0[b].next in m0 && m0[b].next != a && m0[b].next != b
    ensures m == AbsorbMem(m0, a, b, wipe) && end == if end0 == b then a else end0
  {
    m, end := m0, end0;
    m := m[a := m[a].(size := m[a].size + (m[b].size + 48))];
    m := m[a := m[a].(next := m[b].next)];
    if m[a].next != 0 {
      var z := m[a].next;
      m := m[z := m[z].(prev := a)];
    }
    if end == b { end := a; }
    if wipe { m := m[b := ZERO_HEADER]; }
  }

  /** The header and link writes of one turn of the frame loop of `expand_heap`. */
  method WritePage(m0: Mem, start0: int, end0: int, frame: int) returns (m: Mem, start: int, end: int)
    requires end0 != 0 ==> end0 in m0 && end0 != frame
    ensures m == PageMem(m0, end0, frame) && start == (if end0 == 0 then frame else start0) && end == frame
  {
    start := start0;
    m := m0[frame := ZERO_HEADER];
    m := m[frame := m[frame].(size := 4048)];
    m := m[frame := m[frame].(isFree := true)];
    m := m[frame := m[frame].(next := 0)];
    if end0 != 0 {
      m := m[frame := m[frame].(prev := end0)];
      m := m[end0 := m[end0].(next := frame)];
    } else {
      start := frame;
      m := m[frame := m[frame].(prev := 0)];
    }
    end := frame;
  }

  /** The split writes of `kmalloc`; `p` and `q` are whatever the payload bytes held. */
  method WriteSplit(m0: Mem, end0: int, a: int, s: int, p: int, q: int) returns (m: Mem, end: int)
    requires a in m0 && 0 <= s && (m0[a].next != 0 ==> m0[a].next in m0 && m0[a].next > a + 48 + s)
    ensures m == SplitMem(m0, a, s, p, q) && end == if m0[a].next == 0 then a + 48 + s else end0
  {
    m, end := m0, end0;
    var remaining := m[a].size - s - 48;
    var b := a + 48 + s;
    m := m[b := Header(remaining, true, m[a].next, a, p, q)];
    if m[b].next != 0 {
      var z := m[b].next;
      m := m[z := m[z].(prev := b)];
    } else {
      end := b;
    }
    m := m[a := m[a].(size := s)];
    m := m[a := m[a].(next := b)];
  }

  ghost predicate Exhausted(h: Heap) {
    Lowest(h.pmm) == h.pmm.frames
  }

  /** `g` is `h` with the page at `frame` added. */
  ghost predicate OnePage(h: Heap, g: Heap, frame: int) {
    !Exhausted(h) && frame == FrameAddr(Lowest(h.pmm)) && g == GrowOne(h)
  }

  /** One page more, after `n` pages that were all found. */
  lemma {:induction false} GrowMore(h: Heap, n: nat, g: Heap, r: Heap, frame: int)
    requires Grow(h, n) == (g, true) && OnePage(g, r, frame)
    ensures Grow(h, n + 1) == (r, true)
    decreases n
  {
    if n > 0 { GrowMore(GrowOne(h), n - 1, g, r, frame); }
  }

  lemma PageLast(h: Heap, g: Heap, frame: int)
    requires OnePage(h, g, frame)
    ensures g.blocks == h.blocks + [Block(frame, 4048, true)]
  {
  }

  lemma {:induction false} GrowStops(h: Heap, n: nat, g: Heap, k: nat)
    requires Grow(h, n) == (g, true) && Exhausted(g) && n < k
    ensures Grow(h, k) == (g, false)
    decreases n
  {
    if n > 0 { GrowStops(GrowOne(h), n - 1, g, k - 1); }
  }

  class KHeap {
    var mem: Mem
    var freeListHead: int
    var heapStart: int
    var heapEnd: int
    const frames: FrameAllocator
    ghost var model: Heap
    /** The frames reserved when the heap was set up: they hold the kernel's variables and the frame bitmap. */
    ghost const vital: set<nat>

    /** Memory and the three static pointers represent the model. */
    ghost predicate Rep()
      reads this
    {
      && ChainOK(mem, model.blocks)
      && LinksOK(mem, model.frags, freeListHead)
      && heapStart == FirstAddr(model.blocks) && heapEnd == LastAddr(model.blocks)
    }

    /** Every header in memory, and the three static pointers. */
    ghost function Pointers(): (Mem, int, int, int)
      reads this
    {
      (mem, freeListHead, heapStart, heapEnd)
    }

    ghost predicate Untouched(before: (Mem, int, int, int))
      reads this
    {
      Pointers() == before
    }

    /** What the list and coalescing helpers rely on between steps. */
    ghost predicate Sound()
      reads this
    {
      SoundMem(mem, model, freeListHead) && heapStart == FirstAddr(model.blocks) && heapEnd == LastAddr(model.blocks)
    }

    ghost predicate Valid()
      reads this, frames, frames.bitmap
    {
      && Rep() && Inv(model) && frames.Valid() && frames.model == model.pmm
      && Guarded(model, vital) && BitmapKept()
    }

    /** No byte of the bitmap lies in a managed frame outside the vital ones. */
    ghost predicate BitmapKept() {
      BitmapIn(frames.base, frames.bitmap.Length, frames.frames, vital)
    }

    lemma InvIsSound(hand: set<int>)
      requires Rep() && InvHand(model, hand)
      ensures Sound()
    {
      forall x | In(model.frags, x) ensures x != 0 {
        assert FreeAt(model.blocks, x);
      }
    }

    constructor (f: FrameAllocator)
      ensures frames == f && vital == f.model.used
    {
      frames, vital := f, f.model.used;
      mem, freeListHead, heapStart, heapEnd := map[], 0, 0, 0;
    }

    // ---------- free list ----------

    method AddToFreeList(block: int)
      requires Sound() && !In(model.frags, block) && Find(model.blocks, block) < |model.blocks|
      modifies this
      ensures Sound() && model == Pushed(old(model), block)
    {
      PushSound(mem, model, block, freeListHead);
      mem, freeListHead := WriteFront(mem, freeListHead, block);
      model := Pushed(model, block);
    }

    method RemoveFromFreeList(block: int)
      requires Sound() && In(model.frags, block) && Find(model.blocks, block) < |model.blocks|
      modifies this
      ensures Sound() && model == Unlinked(old(model), block)
    {
      UnlinkSound(mem, model, block, freeListHead);
      mem, freeListHead := WriteBypass(mem, freeListHead, block);
      model := Unlinked(model, block);
    }

    // ---------- coalescing ----------

    /** Block `a` absorbs its chain successor `b`, which is in no fragment. */
    method Absorb(a: int, b: int, wipe: bool, ghost i: nat)
      requires Sound() && i + 1 < |model.blocks| && model.blocks[i].addr == a && model.blocks[i + 1].addr == b
      requires !In(model.frags, b)
      modifies this
      ensures Sound() && model == old(model).(blocks := Merge(old(model.blocks), i))
    {
      AbsorbSound(mem, model, i, freeListHead, wipe);
      MergeEnds(model.blocks, i);
      mem, heapEnd := WriteAbsorb(mem, heapEnd, a, b, wipe);
      model := model.(blocks := Merge(model.blocks, i));
    }

    static lemma MergeEnds(bs: seq<Block>, i: nat)
      requires Ordered(bs) && i + 1 < |bs|
      ensures FirstAddr(Merge(bs, i)) == FirstAddr(bs)
      ensures LastAddr(Merge(bs, i)) == if LastAddr(bs) == bs[i + 1].addr then bs[i].addr else LastAddr(bs)
    {
      var r, n := Merge(bs, i), |bs|;
      assert r[0].addr == bs[0].addr;
      assert r[n - 2].addr == if i + 2 == n then bs[i].addr else bs[n - 1].addr;
      if i + 2 < n { assert End(bs[i + 1]) <= bs[n - 1].addr; }
      assert BlockOK(bs[i + 1]);
    }

    /** The forward half of `coalesce`. */
    method CoalesceForward(block: int, ghost i: nat)
      requires Sound() && InHand(model, i) && model.blocks[i].addr == block
      modifies this
      ensures Sound() && model == Forward(old(model), i)
    {
      ghost var bs := model.blocks;
      assert Node(mem, bs, i);
      var next := mem[block].next;
      if next != 0 {
        assert Node(mem, bs, i + 1);
        if mem[next].isFree {
          FindUnique(bs, i + 1);
          MergeIgnoresFlag(bs, i, false);
          UnlinkOK(model.frags, next);
          RemoveFromFreeList(next);
          Absorb(block, next, true, i);
        }
      }
    }

    /** The backward half of `coalesce`; `expand_heap` has the same code without the final wipe. */
    method CoalesceBackward(block: int, wipe: bool, ghost i: nat) returns (r: int)
      requires Sound() && InHand(model, i) && model.blocks[i].addr == block
      modifies this
      ensures Sound() && model == BackwardUnlisted(old(model), i)
      ensures r == old(model.blocks[if i > 0 && model.blocks[i - 1].free then i - 1 else i].addr) && !In(model.frags, r)
    {
      ghost var bs := model.blocks;
      assert Node(mem, bs, i);
      r := block;
      var prev := mem[block].prev;
      if prev != 0 {
        assert Node(mem, bs, i - 1);
        if mem[prev].isFree {
          FindUnique(bs, i - 1);
          UnlinkOK(model.frags, prev);
          RemoveFromFreeList(prev);
          Absorb(prev, block, wipe, i - 1);
          r := prev;
        }
      }
    }

    /** What `coalesce` leaves of the free block `i`: merged at most once each way, in no fragment. */
    static ghost predicate Coalesced(h: Heap, i: nat, g: Heap, r: int)
      requires i < |h.blocks| && i < |Forward(h, i).blocks|
    {
      var f := Forward(h, i);
      && g == BackwardUnlisted(f, i)
      && r == f.blocks[if i > 0 && f.blocks[i - 1].free then i - 1 else i].addr
      && !In(g.frags, r)
    }

    /** `coalesce`: NULL and allocated blocks come back unchanged, a free block merged with its free neighbours. */
    method Coalesce(block: int, ghost i: nat) returns (r: int)
      requires Sound() && (block != 0 ==> i < |model.blocks| && model.blocks[i].addr == block)
      requires block != 0 && model.blocks[i].free ==>
        InHand(model, i) && InHand(Forward(model, i), i) && Forward(model, i).blocks[i].addr == block
      modifies this
      ensures Sound()
      ensures if block == 0 || !old(model.blocks[i].free) then r == block && model == old(model)
              else Coalesced(old(model), i, model, r)
    {
      r := block;
      if block == 0 { return; }
      assert Node(mem, model.blocks, i);
      if !mem[block].isFree { return; }
      CoalesceForward(block, i);
      r := CoalesceBackward(block, true, i);
    }

    // ---------- kfree ----------

    method MarkFree(block: int, ghost i: nat)
      requires Sound() && i < |model.blocks| && model.blocks[i].addr == block
      modifies this
      ensures Sound() && model == old(model).(blocks := SetFree(old(model.blocks), i, true))
    {
      FindUnique(model.blocks, i);
      assert Node(mem, model.blocks, i);
      MarkSound(mem, mem[block := mem[block].(isFree := true)], model, freeListHead, block);
      mem := mem[block := mem[block].(isFree := true)];
      model := model.(blocks := SetFree(model.blocks, i, true));
    }

    /** `kfree` past its checks: mark, coalesce, list. */
    method Release(block: int, ghost i: nat)
      requires Sound() && i < |model.blocks| && model.blocks[i].addr == block && Releasable(model, i)
      modifies this
      ensures Sound() && model == Backward(Forward(old(model).(blocks := SetFree(old(model.blocks), i, true)), i), i)
    {
      MarkFree(block, i);
      ListingCompletes(Forward(model, i), i);
      var r := Coalesce(block, i);
      AddToFreeList(r);
    }

    /** `kfree` of NULL or of a pointer into the chain; freeing a free block is detected and ignored. */
    method Kfree(ptr: int)
      requires Valid() && (ptr == 0 || Find(model.blocks, ptr - 48) < |model.blocks|)
      modifies this
      ensures Valid() && model == HeapSpec.Kfree(old(model), ptr)
      ensures ptr == 0 || old(model.blocks[Find(model.blocks, ptr - 48)].free) ==> Untouched(old(Pointers()))
    {
      if ptr == 0 { return; }
      var block := ptr - 48;
      ghost var i := Find(model.blocks, block);
      assert Node(mem, model.blocks, i);
      if mem[block].isFree { return; }
      InvIsSound({});
      KfreeSteps(model, i);
      KfreeInv(model, ptr);
      KfreeGuarded(model, ptr, vital);
      Release(block, i);
    }

    static ghost predicate Releasable(h: Heap, i: nat)
      requires i < |h.blocks|
    {
      var h1 := h.(blocks := SetFree(h.blocks, i, true));
      var f := Forward(h1, i);
      InHand(h1, i) && InHand(f, i) && Ordered(f.blocks) && f.blocks[i].free && f.blocks[i].addr == h.blocks[i].addr
    }

    static lemma KfreeSteps(h: Heap, i: nat)
      requires Inv(h) && i < |h.blocks| && !h.blocks[i].free
      ensures Releasable(h, i)
    {
      var h1 := h.(blocks := SetFree(h.blocks, i, true));
      MarkInv(h, i);
      ForwardInv(h1, i);
      HandFromInv(h1, i);
      HandFromInv(Forward(h1, i), i);
    }

    static lemma MarkSound(m: Mem, n: Mem, h: Heap, head: int, block: int)
      requires SoundMem(m, h, head) && Find(h.blocks, block) < |h.blocks| && block in m
      requires n == m[block := m[block].(isFree := true)]
      ensures SoundMem(n, h.(blocks := SetFree(h.blocks, Find(h.blocks, block), true)), head)
    {
      var i := Find(h.blocks, block);
      FlagOneChain(m, n, h.blocks, block, true);
      SetFreeOrdered(h.blocks, i, true);
      forall x | In(h.frags, x) ensures SameLinks(m, n, x) {
        FragMember(m, h.frags, head, x);
      }
      LinksFrame(m, n, h.frags, head);
    }

    // ---------- expand_heap ----------

    /** One turn of the frame loop once a frame has been obtained. */
    method LinkPage(frame: int)
      requires Sound() && frame > 0 && frame % 8 == 0 && !In(model.frags, frame)
      requires forall i :: 0 <= i < |model.blocks| ==> End(model.blocks[i]) <= frame
      modifies this
      ensures Sound()
      ensures model == old(model).(blocks := old(model.blocks) + [Block(frame, 4048, true)],
                                   frags := AddOrphan(old(model.frags), frame))
    {
      PageSound(mem, model, freeListHead, frame);
      mem, heapStart, heapEnd := WritePage(mem, heapStart, heapEnd, frame);
      model := model.(blocks := model.blocks + [Block(frame, 4048, true)], frags := AddOrphan(model.frags, frame));
    }

    /** The facts about the next frame that `LinkPage` needs. */
    static lemma NextFrame(h: Heap)
      requires Inv(h) && Lowest(h.pmm) < h.pmm.frames
      ensures var a := FrameAddr(Lowest(h.pmm));
        a > 0 && a % 8 == 0 && !In(h.frags, a) && forall i :: 0 <= i < |h.blocks| ==> End(h.blocks[i]) <= a
    {
      var f := Lowest(h.pmm);
      assert f in Clear(h.pmm);
      AppendOK(h.blocks, h.owned, f);
      var r := h.blocks + [NewPage(f)];
      forall i | 0 <= i < |h.blocks| ensures End(h.blocks[i]) <= FrameAddr(f) {
        assert r[i] == h.blocks[i] && End(r[i]) <= r[|h.blocks|].addr;
      }
      assert FreeAt(h.blocks, FrameAddr(f)) <==> In(h.frags, FrameAddr(f));
    }

    /** Obtains one frame and links it, or reports that none is left. */
    method GrowPage() returns (frame: int)
      requires Valid()
      modifies this, frames, frames.bitmap
      ensures Valid()
      ensures if frame == 0 then Exhausted(model) && model == old(model) else OnePage(old(model), model, frame)
    {
      ghost var h := model;
      frame := frames.AllocFrame();
      if frame != 0 {
        NextFrame(h);
        InvIsSound({});
        GrowOneInv(h);
        GrowOneGuarded(h, vital);
        LinkPage(frame);
        model := GrowOne(h);
      }
    }

    /** Lists the first new page, merged into a free predecessor. */
    method ListFirstPage(page: int, ghost i: nat)
      requires Sound() && i < |model.blocks| && model.blocks[i].addr == page && model.blocks[i].free
      requires [page] in model.frags.orphans && InHand(model.(frags := DropOrphan(model.frags, page)), i)
      modifies this
      ensures Sound() && model == Backward(old(model).(frags := DropOrphan(old(model.frags), page)), i)
    {
      DropSound(mem, model, freeListHead, page);
      model := model.(frags := DropOrphan(model.frags, page));
      ListingCompletes(model, i);
      var r := CoalesceBackward(page, false, i);
      AddToFreeList(r);
    }

    /** `first` is the first page that `g` has beyond the blocks of `h`, or NULL. */
    static ghost predicate FirstNew(h: Heap, g: Heap, first: int) {
      var n := |h.blocks|;
      |g.blocks| >= n && if |g.blocks| == n then first == 0 else first == g.blocks[n].addr > 0
    }

    /** One turn of the frame loop, after `i` of the `pages` pages wanted. */
    method GrowTurn(first: int, ghost h: Heap, ghost i: nat, ghost pages: nat) returns (r: int, ok: bool)
      requires Valid() && i < pages && Grow(h, i) == (model, true) && FirstNew(h, model, first)
      modifies this, frames, frames.bitmap
      ensures Valid() && FirstNew(h, model, r)
      ensures if ok then Grow(h, i + 1) == (model, true) else Grow(h, pages) == (model, false)
    {
      ghost var g := model;
      var frame := GrowPage();
      if frame == 0 {
        GrowStops(h, i, g, pages);
        return first, false;
      }
      GrowMore(h, i, g, model, frame);
      PageLast(g, model, frame);
      return if first == 0 then frame else first, true;
    }

    /** The frame loop of `expand_heap`, remembering the first new page. */
    method GrowPages(pages: nat) returns (first: int, ok: bool)
      requires Valid()
      modifies this, frames, frames.bitmap
      ensures Valid() && (model, ok) == Grow(old(model), pages) && FirstNew(old(model), model, first)
    {
      ghost var h := model;
      first, ok := 0, true;
      var i := 0;
      while i < pages
        invariant 0 <= i <= pages && ok
        invariant Valid() && Grow(h, i) == (model, true) && FirstNew(h, model, first)
      {
        first, ok := GrowTurn(first, h, i, pages);
        if !ok { return; }
        i := i + 1;
      }
    }

    method ExpandHeap(minExpand: nat) returns (ok: bool)
      requires Valid()
      modifies this, frames, frames.bitmap
      ensures Valid() && (model, ok) == Expand(old(model), PagesFor(minExpand))
    {
      ghost var h := model;
      var pages := PagesFor(minExpand);
      var first;
      first, ok := GrowPages(pages);
      if ok { ListGrown(first, h, pages); }
    }

    /** The end of a successful expansion: the first new page is merged and listed. */
    method ListGrown(first: int, ghost h: Heap, ghost pages: nat)
      requires Valid() && Inv(h) && Guarded(h, vital) && pages > 0 && Grow(h, pages) == (model, true)
      requires FirstNew(h, model, first)
      modifies this
      ensures Valid() && model == Expand(h, pages).0
    {
      ExpandSteps(h, model, pages, vital);
      InvIsSound({});
      ListFirstPage(first, |h.blocks|);
    }

    /** What merging and listing the first new page needs, and what it gives. */
    static lemma ExpandSteps(h: Heap, g: Heap, pages: nat, vital: set<nat>)
      requires Inv(h) && Guarded(h, vital) && pages > 0 && Grow(h, pages) == (g, true)
      ensures var i := |h.blocks|; i < |g.blocks| && g.blocks[i].addr == FrameAddr(Lowest(h.pmm)) && g.blocks[i].free
      ensures var i := |h.blocks|; var d := g.(frags := DropOrphan(g.frags, g.blocks[i].addr));
        && [g.blocks[i].addr] in g.frags.orphans && InHand(d, i)
        && Backward(d, i) == Expand(h, pages).0 && Inv(Backward(d, i)) && Guarded(Backward(d, i), vital)
    {
      FirstPage(h, pages);
      HandFromInv(g.(frags := DropOrphan(g.frags, g.blocks[|h.blocks|].addr)), |h.blocks|);
      ExpandInv(h, pages);
      ExpandGuarded(h, pages, vital);
    }

    // ---------- kmalloc ----------

    /** The first-fit walk along `next_free`. */
    method Search(s: int) returns (best: int)
      requires Rep() && Inv(model)
      ensures var k := FirstFit(model.blocks, model.frags.list, s);
        best == if k < |model.frags.list| then model.frags.list[k] else 0
    {
      ghost var bs, list, k := model.blocks, model.frags.list, 0;
      best := freeListHead;
      InvIsSound({});
      NonNullMembers(model.frags, list);
      while best != 0
        invariant 0 <= k <= |list| && best == (if k < |list| then list[k] else 0)
        invariant FirstFit(bs, list, s) == k + FirstFit(bs, list[k..], s)
        decreases |list| - k
      {
        assert Link(mem, list, k);
        ListedBlock(model, best);
        assert Node(mem, bs, Find(bs, best));
        if mem[best].size >= s { return; }
        assert list[k..][1..] == list[k + 1..];
        best := mem[best].nextFree;
        k := k + 1;
      }
    }

    /** Splits the block at `a`, just unlisted, and lists the remainder. */
    method SplitBlock(a: int, s: int, ghost i: nat)
      requires Sound() && i < |model.blocks| && model.blocks[i].addr == a && !model.blocks[i].free
      requires 0 <= s && s % 8 == 0 && s + 96 <= model.blocks[i].size && !In(model.frags, a + 48 + s)
      modifies this
      ensures Sound()
      ensures model == old(model).(blocks := Split(old(model.blocks), i, s),
                                   frags := Push(old(model.frags), a + 48 + s))
    {
      var p, q: int := *, *;
      SplitSound(mem, model, freeListHead, i, s, p, q);
      SplitEnds(model.blocks, i, s);
      mem, heapEnd := WriteSplit(mem, heapEnd, a, s, p, q);
      model := model.(blocks := Split(model.blocks, i, s));
      AddToFreeList(a + 48 + s);
    }

    static lemma SplitEnds(bs: seq<Block>, i: nat, s: int)
      requires Ordered(bs) && i < |bs| && 0 <= s && s % 8 == 0 && s + 96 <= bs[i].size
      ensures FirstAddr(Split(bs, i, s)) == FirstAddr(bs)
      ensures LastAddr(Split(bs, i, s)) == if NextAddr(bs, i) == 0 then bs[i].addr + 48 + s else LastAddr(bs)
      ensures Find(Split(bs, i, s), bs[i].addr + 48 + s) == i + 1
      ensures SetFree(Split(bs, i, s), i + 1, true) == Split(bs, i, s)
    {
      SplitOrdered(bs, i, s, 0, Highest(bs));
      FindUnique(Split(bs, i, s), i + 1);
      assert i + 1 < |bs| ==> BlockOK(bs[i + 1]);
    }

    /** What carving needs to know about the block found. */
    static ghost predicate Carvable(h: Heap, a: int, s: int) {
      var i := Find(h.blocks, a);
      && i < |h.blocks| && In(h.frags, a) && 0 <= s <= h.blocks[i].size && s % 8 == 0
      && (s + 96 <= h.blocks[i].size ==> !In(Unlink(h.frags, a), a + 48 + s))
    }

    static lemma CarveSteps(h: Heap, a: int, s: int)
      requires Inv(h) && In(h.frags, a) && Fits(h.blocks, a, s) && 0 <= s && s % 8 == 0
      ensures Carvable(h, a, s) && Inv(Carve(h, a, s))
    {
      CarveInv(h, a, s);
      UnlinkOK(h.frags, a);
      var i := Find(h.blocks, a);
      if s + 96 <= h.blocks[i].size { SplitFreeAt(h.blocks, i, s); }
    }

    /** `kmalloc` from the block found to just before the payload is zeroed. */
    method CarveBlock(a: int, s: int)
      requires Sound() && Carvable(model, a, s)
      modifies this
      ensures Sound() && model == Carve(old(model), a, s)
      ensures a in mem && !mem[a].isFree
    {
      ghost var bs, i := model.blocks, Find(model.blocks, a);
      RemoveFromFreeList(a);
      assert Node(mem, model.blocks, i);
      if mem[a].size >= s + 96 {
        SplitIgnoresFlag(bs, i, s);
        SplitBlock(a, s, i);
        assert Node(mem, model.blocks, i);
      }
    }

    static lemma SplitIgnoresFlag(bs: seq<Block>, i: nat, s: int)
      requires i < |bs|
      ensures Split(SetFree(bs, i, false), i, s) == Split(bs, i, s)
    {
    }

    /** Every byte of the bitmap among the `n` bytes at `a` is zero. */
    ghost predicate BitmapZeroed(a: int, n: int)
      reads frames.bitmap
    {
      forall k :: 0 <= k < frames.bitmap.Length && a <= frames.base + k < a + n ==> frames.bitmap[k] == 0
    }

    /** None of the `n` bytes at `a` is a byte of the bitmap. */
    ghost predicate BitmapMissed(a: int, n: int) {
      n <= 0 || frames.bitmap.Length == 0 || a + n <= frames.base || frames.base + frames.bitmap.Length <= a
    }

    /** Flags the block allocated, which it already is, and zeroes its payload, bitmap bytes included. */
    method Finish(a: int, ghost i: nat)
      requires Sound() && i < |model.blocks| && model.blocks[i].addr == a && !model.blocks[i].free && frames.Valid()
      requires forall x :: In(model.frags, x) ==> FreeAt(model.blocks, x)
      modifies this, frames.bitmap
      ensures Sound() && model == old(model)
      ensures BitmapZeroed(a + 48, model.blocks[i].size)
      ensures BitmapMissed(a + 48, model.blocks[i].size) ==> frames.Valid()
    {
      assert Node(mem, model.blocks, i);
      assert mem[a := mem[a].(isFree := false)] == mem;
      mem := mem[a := mem[a].(isFree := false)];
      ScrubSound(mem, model, freeListHead, i);
      frames.Wipe(a + 48, a + 48 + mem[a].size);
      mem := Scrub(mem, a + 48, a + 48 + mem[a].size);
    }

    /** The payload of a block lies in managed memory, so it misses the bitmap once it avoids the vital frames. */
    lemma SparesBitmap(i: nat)
      requires Inv(model) && model.pmm.frames == frames.frames && BitmapKept() && i < |model.blocks|
      requires Avoids(model.blocks[i].addr + 48, model.blocks[i].size, vital)
      ensures BitmapMissed(model.blocks[i].addr + 48, model.blocks[i].size)
    {
      var b := model.blocks[i];
      assert BlockOK(b) && Bottom(model.owned) <= b.addr && End(b) <= Top(model.owned);
      AvoidsBitmap(frames.base, frames.bitmap.Length, frames.frames, vital, b.addr + 48, b.size);
    }

    /** What taking the block at `a` needs, and what it gives. */
    static lemma TakeSteps(h: Heap, a: int, s: int)
      requires Inv(h) && In(h.frags, a) && Fits(h.blocks, a, s) && 0 <= s && s % 8 == 0
      ensures Carvable(h, a, s)
      ensures var c, i := Carve(h, a, s), Find(h.blocks, a);
        && Inv(c) && i < |c.blocks| && c.blocks[i].addr == a && !c.blocks[i].free
        && SizeAt(c.blocks, a) == c.blocks[i].size
        && c.pmm == h.pmm && (forall x :: In(c.frags, x) ==> FreeAt(c.blocks, x))
    {
      CarveSteps(h, a, s);
      CarvedBlock(h, a, s);
      FindUnique(Carve(h, a, s).blocks, Find(h.blocks, a));
    }

    static lemma CarvedBlock(h: Heap, a: int, s: int)
      requires Carvable(h, a, s)
      ensures var c, i := Carve(h, a, s), Find(h.blocks, a);
        i < |c.blocks| && c.blocks[i].addr == a && !c.blocks[i].free && c.blocks[i].size >= s
    {
    }

    /** The block `TakeFit` would carve from, or NULL. */
    static function FitAddr(h: Heap, s: int): int {
      var k := FirstFit(h.blocks, h.frags.list, s);
      if k < |h.frags.list| then h.frags.list[k] else 0
    }

    static lemma FitAddrMeaning(h: Heap, s: int)
      requires Inv(h)
      ensures FitAddr(h, s) == 0 <==> !ListedFit(h, s)
      ensures ListedFit(h, s) ==> In(h.frags, FitAddr(h, s)) && Fits(h.blocks, FitAddr(h, s), s)
      ensures TakeFit(h, s) == if FitAddr(h, s) == 0 then (h, 0) else (Carve(h, FitAddr(h, s), s), FitAddr(h, s) + 48)
    {
      FirstFitMeaning(h.blocks, h.frags.list, s);
      if ListedFit(h, s) {
        ListedBlock(h, FitAddr(h, s));
      }
    }

    /** The heap that `kmalloc` searches last: expanded only if nothing fitted before. */
    static ghost function Prepared(h: Heap, s: nat): (Heap, bool) {
      if ListedFit(h, s) then (h, true) else Expand(h, PagesNeeded(s))
    }

    /** The searches of `kmalloc`, with the expansion between them. */
    method FindOrExpand(s: nat) returns (best: int)
      requires Valid() && s % 8 == 0
      modifies this, frames, frames.bitmap
      ensures Valid() && model == Prepared(old(model), s).0
      ensures best == if Prepared(old(model), s).1 then FitAddr(model, s) else 0
    {
      FitAddrMeaning(model, s);
      best := Search(s);
      if best == 0 {
        var ok := ExpandHeap(Plus64(s, 48));
        if ok { best := Search(s); }
      }
    }

    static lemma KmallocByParts(h: Heap, size: nat)
      requires Inv(h) && 0 < size < UINT64_LIMIT
      ensures var s := RoundUp(size); var (g, ok) := Prepared(h, s);
        HeapSpec.Kmalloc(h, size) == if ok then TakeFit(g, s) else (g, 0)
    {
    }

    /**
      `kmalloc`.  It zeroes whatever the block granted covers; if that and the
      headers keep out of the vital frames, memory represents the new heap.
     */
    method Kmalloc(size: nat) returns (ptr: int)
      requires Valid() && size < UINT64_LIMIT
      modifies this, frames, frames.bitmap
      ensures (model, ptr) == HeapSpec.Kmalloc(old(model), size) && frames.model == model.pmm
      ensures ptr != 0 ==> BitmapZeroed(ptr, SizeAt(model.blocks, ptr - 48))
      ensures Spared(model, ptr, vital) ==> Valid()
      ensures size == 0 ==> ptr == 0 && Valid() && Untouched(old(Pointers()))
    {
      if size == 0 { return 0; }
      var s := RoundUp(size);
      RoundUpMeaning(size);
      KmallocByParts(model, size);
      var best := FindOrExpand(s);
      FitAddrMeaning(model, s);
      if best == 0 { return 0; }
      Take(best, s);
      return best + 48;
    }

    method Take(a: int, s: int)
      requires Valid() && In(model.frags, a) && Fits(model.blocks, a, s) && 0 <= s && s % 8 == 0
      modifies this, frames.bitmap
      ensures model == Carve(old(model), a, s) && frames.model == model.pmm
      ensures BitmapZeroed(a + 48, SizeAt(model.blocks, a))
      ensures Spared(model, a + 48, vital) ==> Valid()
    {
      TakeSteps(model, a, s);
      InvIsSound({});
      ghost var i := Find(model.blocks, a);
      CarveBlock(a, s);
      Finish(a, i);
      if Spared(model, a + 48, vital) { SparesBitmap(i); }
    }

    /** `kheap_init`. */
    method Init()
      requires frames.Valid() && vital <= frames.model.used && BitmapKept()
      modifies this, frames, frames.bitmap
      ensures Valid() && model == Boot(old(frames.model))
    {
      freeListHead, heapStart, heapEnd := 0, 0, 0;
      model := Heap([], Frags([], {}), [], frames.model);
      var _ := ExpandHeap(16384);
    }
  }
}
