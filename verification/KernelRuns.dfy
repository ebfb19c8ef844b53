/** Driving the pointer-level allocators through whole runs. */
module KernelRuns {
  import opened FrameSpec
  import opened FrameAllocation
  import opened HeapSpec
  import opened HeapInvariant
  import opened HeapRuns
  import opened HeapLayout
  import opened HeapSpared
  import opened HeapSafety
  import opened HeapGap
  import opened HeapPointers
  import opened KernelHeap

  /** The bitmap allocator follows the set-level run, call by call. */
  method RunFrames(a: FrameAllocator, calls: seq<Call>)
    requires a.Valid() && forall i :: 0 <= i < |calls| && calls[i].Free? ==> calls[i].addr >= 0
    modifies a, a.bitmap
    ensures a.Valid() && a.model == Run(old(a.model), calls)
    ensures Accounted(old(a.model))
      ==> a.freeMemory == Pages(|Clear(a.model)|) >= 0 && a.totalMemory == old(a.totalMemory)
  {
    if Accounted(a.model) { RunAccounting(a.model, calls); }
    var i := 0;
    while i < |calls|
      invariant 0 <= i <= |calls| && a.Valid()
      invariant Run(old(a.model), calls) == Run(a.model, calls[i..])
    {
      assert calls[i..][1..] == calls[i + 1..];
      match calls[i] {
        case Alloc => var _ := a.AllocFrame();
        case Free(addr) => a.FreeFrame(addr);
      }
      i := i + 1;
    }
  }

  lemma HeldPointer(c: Client, p: int)
    requires ClientInv(c) && p - 48 in c.live
    ensures Find(c.h.blocks, p - 48) < |c.h.blocks|
  {
    var i := HeldIndex(c, p - 48);
    FindUnique(c.h.blocks, i);
  }

  method StepHeap(k: KHeap, op: Op, ghost c: Client)
    requires k.Valid() && c.h == k.model && ClientInv(c) && Legal(c, op) && StepSpares(c.h, op, k.vital)
    modifies k, k.frames, k.frames.bitmap
    ensures k.Valid() && k.model == HeapRuns.Step(c, op).h
  {
    match op {
      case Malloc(size) => var _ := k.Kmalloc(size);
      case Free(p) =>
        if p != 0 { HeldPointer(c, p); }
        k.Kfree(p);
    }
  }

  /** While grants keep out of the vital frames, the pointer-level heap follows the specified run and stays valid. */
  method RunHeap(k: KHeap, ops: seq<Op>, ghost start: Client)
    requires k.Valid() && start.h == k.model && ClientInv(start) && LegalRun(start, ops)
    requires RunSpares(start, ops, k.vital)
    modifies k, k.frames, k.frames.bitmap
    ensures k.Valid() && k.model == RunOps(start, ops).h
  {
    var i := 0;
    ghost var c := start;
    while i < |ops|
      invariant 0 <= i <= |ops| && k.Valid() && c.h == k.model
      invariant ClientInv(c) && LegalRun(c, ops[i..]) && RunSpares(c, ops[i..], k.vital)
      invariant RunOps(start, ops) == RunOps(c, ops[i..])
    {
      assert ops[i..][0] == ops[i] && ops[i..][1..] == ops[i + 1..];
      StepKeeps(c, ops[i]);
      StepHeap(k, ops[i], c);
      c := HeapRuns.Step(c, ops[i]);
      i := i + 1;
    }
  }

  /** From `kheap_init` on: any legal run that spares the frames reserved by then leaves a sound heap in memory. */
  method BootAndRun(a: FrameAllocator, ops: seq<Op>) returns (k: KHeap)
    requires a.Valid() && BitmapIn(a.base, a.bitmap.Length, a.frames, a.model.used)
    requires LegalRun(Start(a.model), ops) && RunSpares(Start(a.model), ops, a.model.used)
    modifies a, a.bitmap
    ensures k.frames == a && k.Valid() && k.model == RunOps(Start(old(a.model)), ops).h
  {
    k := new KHeap(a);
    StartInv(a.model);
    k.Init();
    RunHeap(k, ops, Start(old(a.model)));
  }

  /** The state that `frame_alloc_init` leaves for the kernel at its link address. */
  function KernelInit(frames: nat, kernelEnd: nat, bitmap: nat, length: nat): Pmm
    requires kernelEnd < UINT64_LIMIT
  {
    InitState(frames, KERNEL_START, Minus64(kernelEnd, KERNEL_START), bitmap, length)
  }

  lemma KernelSpared(frames: nat, kernelEnd: nat, bitmap: nat, length: nat, ops: seq<Op>)
    requires 0 < frames && FrameAddr(frames) < UINT64_LIMIT && kernelEnd < UINT64_LIMIT
    requires KERNEL_START <= bitmap && 0 < length && bitmap + length < UINT64_LIMIT
    requires var p := KernelInit(frames, kernelEnd, bitmap, length);
      LegalRun(Start(p), ops) && |RunOps(Start(p), ops).h.owned| <= KERNEL_FRAME
    ensures var p := KernelInit(frames, kernelEnd, bitmap, length);
      BitmapIn(bitmap, length, frames, p.used) && RunSpares(Start(p), ops, p.used)
  {
    var p, n := KernelInit(frames, kernelEnd, bitmap, length), Minus64(kernelEnd, KERNEL_START);
    InitKeepsBitmap(frames, KERNEL_START, n, bitmap, length);
    forall f | f in p.used ensures f >= KERNEL_FRAME {
      InitReservesAbove(frames, n, bitmap, length, f);
    }
    EarlyRunSpares(p, ops);
  }

  /**
    The kernel as linked: `frame_alloc_init`, `kheap_init` and any legal run of
    at most 256 frames leave memory representing the specified heap, bitmap and
    kernel image untouched by it.
   */
  method KernelBoot(a: FrameAllocator, kernelEnd: nat, ops: seq<Op>) returns (k: KHeap)
    requires a.Shaped() && kernelEnd < UINT64_LIMIT
    requires KERNEL_START <= a.base && a.base + a.bitmap.Length < UINT64_LIMIT
    requires var p := KernelInit(a.frames, kernelEnd, a.base, a.bitmap.Length);
      LegalRun(Start(p), ops) && |RunOps(Start(p), ops).h.owned| <= KERNEL_FRAME
    modifies a, a.bitmap
    ensures var p := KernelInit(a.frames, kernelEnd, a.base, a.bitmap.Length);
      k.frames == a && k.Valid() && k.model == RunOps(Start(p), ops).h
  {
    a.Init(None, KERNEL_START, kernelEnd);
    KernelSpared(a.frames, kernelEnd, a.base, a.bitmap.Length, ops);
    k := BootAndRun(a, ops);
  }

  // ---------- raw pointers ----------

  /**
    After any such run, for the pointers as they stand in memory: the chain
    walks of `n` steps, the links of the block at `x`, the walk from it, and
    the list head.
   */
  lemma PointersOfValid(k: KHeap, n: nat, x: int)
    requires k.Valid()
    ensures n <= |k.model.blocks| && k.model.blocks != [] ==>
      && NextHops(k.mem, k.heapStart, n) == (if n < |k.model.blocks| then k.model.blocks[n].addr else 0)
      && PrevHops(k.mem, k.heapEnd, n) ==
         (if n < |k.model.blocks| then k.model.blocks[|k.model.blocks| - 1 - n].addr else 0)
    ensures FreeAt(k.model.blocks, x) ==>
      Mutual(k.mem, k.model.blocks, x) && exists m: nat :: NextFreeHops(k.mem, x, m) == 0
    ensures k.freeListHead != 0 ==>
      FreeAt(k.model.blocks, k.freeListHead) && k.freeListHead in k.mem && k.mem[k.freeListHead].prevFree == 0
  {
    k.InvIsSound({});
    if n <= |k.model.blocks| && k.model.blocks != [] { ChainWalks(k.mem, k.model, k.freeListHead, n); }
    if FreeAt(k.model.blocks, x) {
      FreeLinksMutual(k.mem, k.model, k.freeListHead, x);
      FreeWalkEnds(k.mem, k.model, k.freeListHead, x);
    }
    HeadIsFront(k.mem, k.model, k.freeListHead);
  }

  // ---------- a bitmap in the way ----------

  lemma OnlyBitmapReserved(p: Pmm, frames: nat, base: nat, n: nat)
    requires frames == 8 && base == FrameAddr(5) && n == 1 && p == InitState(frames, 0, 0, base, n)
    ensures p.frames == 8 && p.used == {5} && RoundsRight(frames, base, n)
  {
    InitAccounted(frames, 0, 0, base, n);
  }

  lemma GrantCoversBitmap(p: Pmm, size: nat)
    requires p.frames == 8 && p.used == {5} && size == 5000
    ensures var (g, q) := Kmalloc(Boot(p), size);
      q > 0 && q <= FrameAddr(5) < q + SizeAt(g.blocks, q - 48)
  {
    BootInv(p);
    ReservedFrameHandedOut(p, size);
    GrantCoversIff(Boot(p), size);
  }

  lemma OwnedGrows(h: Heap, size: nat)
    ensures h.owned <= Kmalloc(h, size).0.owned
  {
    if size > 0 { GrowBlocks(h, PagesNeeded(RoundUp(size))); }
  }

  /** Frame 0 belongs to the heap from boot on. */
  lemma FrameZeroOwned(p: Pmm, size: nat)
    requires p.frames == 8 && p.used == {5}
    ensures var g := Kmalloc(Boot(p), size).0; 0 in g.owned && 0 in g.pmm.used && g.pmm.frames == 8
  {
    StartInv(p);
    BootedBelowGap(p, Boot(p));
    OwnedGrows(Boot(p), size);
    var g := Kmalloc(Boot(p), size).0;
    assert g.owned[0] == 0;
    StepTaken(Start(p), Malloc(size), p);
    assert 0 in Members(g.owned);
  }

  method BootEightFrames(store: array<bv8>) returns (k: KHeap, ghost p: Pmm)
    requires store.Length == 1
    modifies store
    ensures k.frames.bitmap == store && k.frames.base == FrameAddr(5) && fresh(k) && fresh(k.frames)
    ensures k.Valid() && p.frames == 8 && p.used == {5} && k.model == Boot(p)
  {
    var a := new FrameAllocator(8, store, 0x4000_5000);
    a.Init(None, 0, 0);
    p := a.model;
    OnlyBitmapReserved(p, a.frames, a.base, store.Length);
    InitKeepsBitmap(a.frames, 0, 0, a.base, store.Length);
    k := new KHeap(a);
    k.Init();
  }

  /**
    Eight frames with the bitmap in the sixth: right after boot `kmalloc(5000)`
    zeroes the bitmap, so that every frame reads as clear, frame 0 among them,
    which holds the heap's first block.
   */
  method BitmapLost(store: array<bv8>, size: nat) returns (k: KHeap, q: int)
    requires store.Length == 1 && size == 5000
    modifies store
    ensures q != 0 && k.frames.bitmap == store && store[0] == 0 && 0 in k.model.owned && !k.frames.Valid()
  {
    ghost var p;
    k, p := BootEightFrames(store);
    ghost var h := k.model;
    q := k.Kmalloc(size);
    LostFacts(p, h, size, k.model, q);
    assert k.frames.base + 0 == FrameAddr(5);
    ClearByte(k, store);
  }

  lemma LostFacts(p: Pmm, h: Heap, size: nat, g: Heap, q: int)
    requires p.frames == 8 && p.used == {5} && size == 5000 && h == Boot(p) && (g, q) == Kmalloc(h, size)
    ensures q > 0 && q <= FrameAddr(5) < q + SizeAt(g.blocks, q - 48)
    ensures 0 in g.owned && 0 in g.pmm.used && g.pmm.frames == 8
  {
    GrantCoversBitmap(p, size);
    FrameZeroOwned(p, size);
  }

  lemma ClearByte(k: KHeap, store: array<bv8>)
    requires k.frames.bitmap == store && store.Length == 1 && store[0] == 0
    requires k.frames.frames > 0 && 0 in k.frames.model.used
    ensures !k.frames.Valid()
  {
    if k.frames.Shaped() { assert !k.frames.BitAt(0); }
  }
}
