/** Where the heap's blocks lie in memory, over whole runs from boot. */
module HeapLayout {
  import opened FrameSpec
  import opened HeapSpec
  import opened HeapInvariant
  import opened HeapRuns

  // ---------- frames obtained, over a run ----------

  function Members(owned: seq<nat>): set<nat> {
    set f | f in owned
  }

  /** Since the heap started from `p`, it has taken the `owned` frames, none of them used before, and no others. */
  ghost predicate TakenFrom(h: Heap, p: Pmm) {
    h.pmm.frames == p.frames && h.pmm.used == p.used + Members(h.owned) && p.used !! Members(h.owned)
  }

  lemma {:induction false} GrowTaken(h: Heap, k: nat, p: Pmm)
    requires TakenFrom(h, p)
    ensures TakenFrom(Grow(h, k).0, p)
    decreases k
  {
    if k > 0 && Lowest(h.pmm) < h.pmm.frames {
      assert Members(GrowOne(h).owned) == Members(h.owned) + {Lowest(h.pmm)};
      GrowTaken(GrowOne(h), k - 1, p);
    }
  }

  lemma AllocateTaken(h: Heap, s: int, k: nat, p: Pmm)
    requires TakenFrom(h, p) && k > 0
    ensures TakenFrom(Allocate(h, s, k).0, p)
  {
    GrowTaken(h, k, p);
  }

  lemma StepTaken(c: Client, op: Op, p: Pmm)
    requires TakenFrom(c.h, p)
    ensures TakenFrom(HeapRuns.Step(c, op).h, p)
  {
    match op
    case Malloc(size) =>
      if size > 0 { AllocateTaken(c.h, RoundUp(size), PagesNeeded(RoundUp(size)), p); }
    case Free(_) =>
  }

  lemma {:induction false} RunTaken(c: Client, ops: seq<Op>, p: Pmm)
    requires TakenFrom(c.h, p)
    ensures TakenFrom(RunOps(c, ops).h, p)
    decreases |ops|
  {
    if ops != [] {
      StepTaken(c, ops[0], p);
      RunTaken(HeapRuns.Step(c, ops[0]), ops[1..], p);
    }
  }

  ghost function Start(p: Pmm): Client {
    Client(Boot(p), map[])
  }

  lemma StartInv(p: Pmm)
    ensures ClientInv(Start(p)) && TakenFrom(Boot(p), p)
  {
    var h := Heap([], Frags([], {}), [], p);
    BootInv(p);
    ExpandLive(h, PagesFor(16384));
    assert Members([]) == {};
    GrowTaken(h, PagesFor(16384), p);
  }

  /**
    Every legal run from boot, expansions and partly failed expansions
    included: the chain is ordered, aligned and conserves bytes, the fragments
    are exactly the free blocks, the pointers held are exactly the allocated
    blocks, and the frames used are those used at boot and those obtained.
   */
  lemma BootRun(p: Pmm, ops: seq<Op>)
    requires LegalRun(Start(p), ops)
    ensures var c := RunOps(Start(p), ops); ClientInv(c) && TakenFrom(c.h, p)
    ensures var h := RunOps(Start(p), ops).h; Bytes(h.blocks) == 4096 * |h.owned|
  {
    StartInv(p);
    RunKeeps(Start(p), ops);
    RunTaken(Start(p), ops, p);
  }

  // ---------- disjointness ----------

  /** Held blocks overlap neither each other nor any header of the chain. */
  lemma HeldBlocksDisjoint(c: Client, a: int, b: int)
    requires ClientInv(c) && a in c.live && b in c.live && a != b
    ensures a + 48 + c.live[a].size <= b || b + 48 + c.live[b].size <= a
  {
    var i := HeldIndex(c, a);
    var j := HeldIndex(c, b);
    if i < j {
      assert End(c.h.blocks[i]) <= c.h.blocks[j].addr;
    } else {
      assert End(c.h.blocks[j]) <= c.h.blocks[i].addr;
    }
  }

  lemma PayloadMeetsNoHeader(c: Client, a: int, k: nat)
    requires ClientInv(c) && a in c.live && k < |c.h.blocks|
    ensures var x := c.h.blocks[k].addr; x + 48 <= a + 48 || a + 48 + c.live[a].size <= x
    ensures a % 8 == 0 && c.live[a].size % 8 == 0
  {
    var i := HeldIndex(c, a);
    assert BlockOK(c.h.blocks[i]);
    if k < i {
      assert End(c.h.blocks[k]) <= c.h.blocks[i].addr;
    } else if k > i {
      assert End(c.h.blocks[i]) <= c.h.blocks[k].addr;
    }
  }

  lemma HeldIndex(c: Client, a: int) returns (i: nat)
    requires ClientInv(c) && a in c.live
    ensures i < |c.h.blocks| && c.h.blocks[i] == Block(a, c.live[a].size, false)
  {
    assert Block(a, c.live[a].size, false) in c.h.blocks;
    i :| 0 <= i < |c.h.blocks| && c.h.blocks[i] == Block(a, c.live[a].size, false);
  }

  // ---------- tiling ----------

  /** Each block starts where the one before it ends, from `lo` to `hi`. */
  predicate Tiles(bs: seq<Block>, lo: int, hi: int) {
    if bs == [] then lo == hi else bs[0].addr == lo && Tiles(bs[1..], End(bs[0]), hi)
  }

  /** An ordered chain fills its bounds exactly when its bytes add up to them. */
  lemma {:induction false} TilesByBytes(bs: seq<Block>, lo: int, hi: int)
    requires Ordered(bs) && Within(bs, lo, hi) && lo <= hi
    ensures Bytes(bs) <= hi - lo
    ensures Tiles(bs, lo, hi) <==> Bytes(bs) == hi - lo
  {
    if bs != [] {
      var t := bs[1..];
      forall i | 0 <= i < |t| ensures t[i] == bs[i + 1] && End(bs[0]) <= t[i].addr && End(t[i]) <= hi {
      }
      TilesByBytes(t, End(bs[0]), hi);
    }
  }

  predicate Consecutive(owned: seq<nat>) {
    forall i :: 0 <= i < |owned| ==> owned[i] == owned[0] + i
  }

  lemma {:induction false} AscendingGap(owned: seq<nat>, j: nat)
    requires j < |owned| && forall i, k :: 0 <= i < k < |owned| ==> owned[i] < owned[k]
    ensures owned[j] >= owned[0] + j
    ensures owned[|owned| - 1] - owned[j] >= |owned| - 1 - j
  {
    if j > 0 { AscendingGap(owned[..j], j - 1); }
    if j + 1 < |owned| { AscendingGap(owned[j + 1..], 0); }
  }

  lemma ConsecutiveBySpan(owned: seq<nat>)
    requires owned != [] && forall i, j :: 0 <= i < j < |owned| ==> owned[i] < owned[j]
    ensures Consecutive(owned) <==> owned[|owned| - 1] == owned[0] + |owned| - 1
  {
    forall j: nat | j < |owned| ensures owned[j] >= owned[0] + j && owned[|owned| - 1] - owned[j] >= |owned| - 1 - j {
      AscendingGap(owned, j);
    }
  }

  /**
    The chain tiles the heap's memory, first frame to last, if and only if the
    frames obtained were consecutive.
   */
  lemma TilesIffConsecutive(h: Heap)
    requires Inv(h)
    ensures Tiles(h.blocks, Bottom(h.owned), Top(h.owned)) <==> Consecutive(h.owned)
  {
    if h.owned != [] {
      AscendingGap(h.owned, 0);
      ConsecutiveBySpan(h.owned);
    }
    TilesByBytes(h.blocks, Bottom(h.owned), Top(h.owned));
  }

  /** Every byte of every block lies in a frame that the heap obtained. */
  ghost predicate Inside(h: Heap) {
    forall i, x :: 0 <= i < |h.blocks| && h.blocks[i].addr <= x < End(h.blocks[i]) ==> InOwned(h.owned, x)
  }

  predicate InOwned(owned: seq<nat>, x: int) {
    exists f :: f in owned && InFrame(x, f)
  }

  lemma {:induction false} FindFrame(owned: seq<nat>, x: int)
    requires Consecutive(owned) && owned != [] && Bottom(owned) <= x < Top(owned)
    ensures InOwned(owned, x)
  {
    var f := (x - 0x4000_0000) / 4096;
    assert owned[f - owned[0]] == f;
    assert f in owned && InFrame(x, f);
  }

  /** While frames come consecutively, no block leaves the heap's own frames. */
  lemma ConsecutiveInside(h: Heap)
    requires Inv(h) && Consecutive(h.owned)
    ensures Inside(h)
  {
    forall i, x | 0 <= i < |h.blocks| && h.blocks[i].addr <= x < End(h.blocks[i]) ensures InOwned(h.owned, x) {
      assert BlockOK(h.blocks[i]);
      FindFrame(h.owned, x);
    }
  }

  lemma InsideAvoids(h: Heap, p: Pmm, i: nat, x: int, r: nat)
    requires Inside(h) && TakenFrom(h, p) && i < |h.blocks| && h.blocks[i].addr <= x < End(h.blocks[i]) && r in p.used
    ensures !InFrame(x, r)
  {
    assert InOwned(h.owned, x);
    var f :| f in h.owned && InFrame(x, f);
    assert f in Members(h.owned);
  }

  /** In such a run no held byte lies in a frame that was reserved at boot. */
  lemma HeldAvoidsReserved(p: Pmm, ops: seq<Op>, a: int, x: int, r: nat)
    requires LegalRun(Start(p), ops)
    requires var c := RunOps(Start(p), ops); Consecutive(c.h.owned) && a in c.live && a <= x < a + 48 + c.live[a].size
    requires r in p.used
    ensures !InFrame(x, r)
  {
    BootRun(p, ops);
    var c := RunOps(Start(p), ops);
    var i := HeldIndex(c, a);
    ConsecutiveInside(c.h);
    InsideAvoids(c.h, p, i, x, r);
  }

  /** The kernel image starts at 0x40100000, frame 256, and nothing below it is reserved. */
  const KERNEL_FRAME: nat := 256

  lemma {:induction false} EarlyFrame(h: Heap, p: Pmm, i: nat)
    requires Inv(h) && TakenFrom(h, p) && (forall f :: f in p.used ==> f >= KERNEL_FRAME)
    requires i < |h.owned| <= KERNEL_FRAME
    ensures h.owned[i] == i
  {
    forall j: nat | j < i ensures h.owned[j] == j {
      EarlyFrame(h, p, j);
    }
    AscendingGap(h.owned, i);
    assert i !in h.owned ==> i in Clear(h.pmm);
  }

  /** So the first 256 frames come consecutively, and up to there every run tiles its own frames exactly. */
  lemma EarlyRunTiles(p: Pmm, ops: seq<Op>)
    requires LegalRun(Start(p), ops) && forall f :: f in p.used ==> f >= KERNEL_FRAME
    requires |RunOps(Start(p), ops).h.owned| <= KERNEL_FRAME
    ensures var h := RunOps(Start(p), ops).h; Tiles(h.blocks, Bottom(h.owned), Top(h.owned)) && Inside(h)
  {
    BootRun(p, ops);
    var h := RunOps(Start(p), ops).h;
    forall i: nat | i < |h.owned| ensures h.owned[i] == i {
      EarlyFrame(h, p, i);
    }
    TilesIffConsecutive(h);
    ConsecutiveInside(h);
  }

  /** Where the linker script places the kernel image. */
  const KERNEL_START: nat := 0x4010_0000

  lemma InitReservesAbove(frames: nat, kernelSize: nat, bitmap: nat, bitmapSize: nat, f: nat)
    requires bitmap >= KERNEL_START && f in InitState(frames, KERNEL_START, kernelSize, bitmap, bitmapSize).used
    ensures f >= KERNEL_FRAME
  {
    InitAccounted(frames, KERNEL_START, kernelSize, bitmap, bitmapSize);
  }

  /**
    From `frame_alloc_init` through `kheap_init` to the end of any legal run
    of at most 256 frames, the bitmap lying above the start of the kernel: the
    chain tiles the heap's frames, and no byte of any block lies in a frame
    that init reserved.
   */
  lemma KernelRunTiles(frames: nat, kernelSize: nat, bitmap: nat, bitmapSize: nat, ops: seq<Op>)
    requires bitmap >= KERNEL_START
    requires LegalRun(Start(InitState(frames, KERNEL_START, kernelSize, bitmap, bitmapSize)), ops)
    requires var p := InitState(frames, KERNEL_START, kernelSize, bitmap, bitmapSize);
      |RunOps(Start(p), ops).h.owned| <= KERNEL_FRAME
    ensures var p := InitState(frames, KERNEL_START, kernelSize, bitmap, bitmapSize); var h := RunOps(Start(p), ops).h;
      && Tiles(h.blocks, Bottom(h.owned), Top(h.owned))
      && forall i, x, r :: 0 <= i < |h.blocks| && h.blocks[i].addr <= x < End(h.blocks[i]) && r in p.used
           ==> !InFrame(x, r)
  {
    var p := InitState(frames, KERNEL_START, kernelSize, bitmap, bitmapSize);
    var h := RunOps(Start(p), ops).h;
    forall f | f in p.used ensures f >= KERNEL_FRAME {
      InitReservesAbove(frames, kernelSize, bitmap, bitmapSize, f);
    }
    EarlyRunTiles(p, ops);
    BootRun(p, ops);
    forall i, x, r | 0 <= i < |h.blocks| && h.blocks[i].addr <= x < End(h.blocks[i]) && r in p.used
      ensures !InFrame(x, r)
    {
      InsideAvoids(h, p, i, x, r);
    }
  }
}
