/** One bit of a bitmap byte: `1 << k`, and what setting or clearing it does to the other bits. */
module Bits {

  function Mask(k: nat): (r: bv8)
    requires k < 8
    ensures r == (1 as bv8) << k
  {
    if k == 0 then 1 else if k == 1 then 2 else if k == 2 then 4 else if k == 3 then 8
    else if k == 4 then 16 else if k == 5 then 32 else if k == 6 then 64 else 128
  }

  predicate Bit(b: bv8, k: nat)
    requires k < 8
  {
    b & Mask(k) != 0
  }

  lemma SetSameBit(b: bv8, k: nat)
    requires k < 8
    ensures Bit(b | Mask(k), k) && !Bit(b & !Mask(k), k)
  {
  }

  lemma KeepOtherBits(b: bv8, k: nat, j: nat)
    requires k < 8 && j < 8 && j != k
    ensures Bit(b | Mask(k), j) == Bit(b, j) == Bit(b & !Mask(k), j)
  {
    assert Mask(k) & Mask(j) == 0;
    DisjointMasks(b, Mask(k), Mask(j));
  }

  lemma DisjointMasks(b: bv8, m: bv8, n: bv8)
    requires m & n == 0
    ensures (b | m) & n == b & n && (b & !m) & n == b & n
  {
  }

  lemma SetAndClear(b: bv8, k: nat, j: nat)
    requires k < 8 && j < 8
    ensures Bit(b | Mask(k), j) == (j == k || Bit(b, j))
    ensures Bit(b & !Mask(k), j) == (j != k && Bit(b, j))
  {
    if j == k { SetSameBit(b, k); } else { KeepOtherBits(b, k, j); }
  }
}

/** The bitmap allocator of `src/memory/frame_alloc.c`, proved to refine `FrameSpec`. */
module FrameAllocation {
  import opened FrameSpec
  import opened Bits

  datatype Option<T> = None | Some(value: T)

  class FrameAllocator {
    const frames: nat
    const bitmap: array<bv8>
    /** The address of the bitmap's first byte: it lies in the memory that it describes. */
    const base: nat
    var totalMemory: int
    var freeMemory: int
    var highestUsable: nat

    /** The bitmap covers every managed frame and every address fits 64 bits. */
    ghost predicate Shaped()
    {
      0 < frames <= 8 * bitmap.Length && FrameAddr(frames) < UINT64_LIMIT
    }

    predicate BitAt(i: nat)
      requires i < 8 * bitmap.Length
      reads bitmap
    {
      Bit(bitmap[i / 8], i % 8)
    }

    /** The abstract state: `Valid` ties it to the bitmap bit by bit, and to the counters. */
    ghost var model: Pmm

    ghost predicate Represents(p: Pmm)
      requires Shaped()
      reads this, bitmap
    {
      && p.frames == frames && p.total == totalMemory && p.free == freeMemory && p.highest == highestUsable
      && forall i: nat {:trigger BitAt(i)} :: i < frames ==> (BitAt(i) <==> i in p.used)
    }

    ghost predicate Valid()
      reads this, bitmap
    {
      Shaped() && Represents(model)
    }

    constructor (n: nat, store: array<bv8>, address: nat)
      requires 0 < n <= 8 * store.Length && FrameAddr(n) < UINT64_LIMIT
      ensures Shaped() && frames == n && bitmap == store && base == address
    {
      frames, bitmap, base := n, store, address;
      totalMemory, freeMemory, highestUsable := 0, 0, 0;
    }

    /** `set_bit` changes that one bit of the whole bitmap. */
    method SetBit(bit: nat)
      requires bit < 8 * bitmap.Length
      modifies bitmap
      ensures forall j: nat {:trigger BitAt(j)} :: j < 8 * bitmap.Length ==> BitAt(j) == (j == bit || old(BitAt(j)))
    {
      bitmap[bit / 8] := bitmap[bit / 8] | Mask(bit % 8);
      forall j: nat | j < 8 * bitmap.Length ensures BitAt(j) == (j == bit || old(BitAt(j))) {
        if j / 8 == bit / 8 { SetAndClear(old(bitmap[bit / 8]), bit % 8, j % 8); }
      }
    }

    /** `clear_bit` changes that one bit of the whole bitmap. */
    method ClearBit(bit: nat)
      requires bit < 8 * bitmap.Length
      modifies bitmap
      ensures forall j: nat {:trigger BitAt(j)} :: j < 8 * bitmap.Length ==> BitAt(j) == (j != bit && old(BitAt(j)))
    {
      bitmap[bit / 8] := bitmap[bit / 8] & !Mask(bit % 8);
      forall j: nat | j < 8 * bitmap.Length ensures BitAt(j) == (j != bit && old(BitAt(j))) {
        if j / 8 == bit / 8 { SetAndClear(old(bitmap[bit / 8]), bit % 8, j % 8); }
      }
    }

    /** `test_bit` tells whether the set of used frames holds that frame. */
    method TestBit(bit: nat) returns (b: bool)
      requires Valid() && bit < frames
      ensures b <==> bit in model.used
    {
      b := bitmap[bit / 8] & Mask(bit % 8) != 0;
      assert b == BitAt(bit);
    }

    /**
      What zeroing the memory from `lo` up to `hi` does to the bitmap.  The
      allocator survives exactly when no byte holding the bit of a used frame
      is among them.
     */
    method Wipe(lo: int, hi: int)
      requires Valid()
      modifies bitmap
      ensures forall k :: 0 <= k < bitmap.Length ==> bitmap[k] == if lo <= base + k < hi then 0 else old(bitmap[k])
      ensures Valid() <==> forall i :: i in model.used && i < frames ==> !(lo <= base + i / 8 < hi)
    {
      var k := 0;
      while k < bitmap.Length
        invariant 0 <= k <= bitmap.Length
        invariant forall j :: 0 <= j < bitmap.Length ==>
          bitmap[j] == if j < k && lo <= base + j < hi then 0 else old(bitmap[j])
      {
        if lo <= base + k < hi { bitmap[k] := 0; }
        k := k + 1;
      }
      forall i: nat | i < frames ensures BitAt(i) == (old(BitAt(i)) && !(lo <= base + i / 8 < hi)) {
        NoOnes(i % 8);
      }
      assert forall i :: i in model.used && i < frames ==> old(BitAt(i));
      if i :| i in model.used && i < frames && lo <= base + i / 8 < hi {
        assert !BitAt(i);
      }
    }

    lemma NoOnes(k: nat)
      requires k < 8
      ensures !Bit(0, k)
    {
    }

    /** One turn of the loop of `mark_range_used`, with its guarded counters. */
    method Occupy(i: nat)
      requires Valid() && i < frames
      modifies this, bitmap
      ensures Valid()
      ensures model == OccupyOne(old(model), i)
    {
      ghost var p := model;
      var b := TestBit(i);
      if !b {
        SetBit(i);
        if totalMemory >= PAGE_SIZE { totalMemory := totalMemory - PAGE_SIZE; }
        if freeMemory >= PAGE_SIZE { freeMemory := freeMemory - PAGE_SIZE; }
      }
      model := OccupyOne(p, i);
    }

    /** `mark_range_used`: its rounding, its cap and its loop. */
    method MarkRangeUsed(base: nat, size: nat)
      requires Valid() && base < UINT64_LIMIT && size < UINT64_LIMIT
      modifies this, bitmap
      ensures Valid()
      ensures model == MarkUsed(old(model), base, size)
    {
      var start, end := StartFrame(base), EndFrame(base, size);
      if start >= frames { return; }
      if end >= frames { end := frames - 1; }
      ghost var goal := OccupyRange(model, start, end);
      var i := start;
      while i <= end
        invariant start <= i && end < frames
        invariant Valid()
        invariant goal == OccupyRange(model, i, end)
        decreases end + 1 - i
      {
        Occupy(i);
        i := i + 1;
      }
    }

    /** One turn of the loop of `mark_range_free`. */
    method Release(i: nat)
      requires Valid() && i < frames
      modifies this, bitmap
      ensures Valid()
      ensures model == ReleaseOne(old(model), i)
    {
      ghost var p := model;
      var b := TestBit(i);
      if b {
        totalMemory := totalMemory + PAGE_SIZE;
        freeMemory := freeMemory + PAGE_SIZE;
        if FrameAddr(i + 1) > highestUsable { highestUsable := FrameAddr(i + 1); }
      }
      ClearBit(i);
      model := ReleaseOne(p, i);
    }

    /** `mark_range_free`, likewise. */
    method MarkRangeFree(base: nat, size: nat)
      requires Valid() && base < UINT64_LIMIT && size < UINT64_LIMIT
      modifies this, bitmap
      ensures Valid()
      ensures model == MarkFree(old(model), base, size)
    {
      var start, end := StartFrame(base), EndFrame(base, size);
      if start >= frames { return; }
      if end >= frames { end := frames - 1; }
      ghost var goal := ReleaseRange(model, start, end);
      var i := start;
      while i <= end
        invariant start <= i && end < frames
        invariant Valid()
        invariant goal == ReleaseRange(model, i, end)
        decreases end + 1 - i
      {
        Release(i);
        i := i + 1;
      }
    }

    /**
      `frame_alloc_init`.  The kernel range comes from the boot parameters when
      there are any and from the linker symbols otherwise; its length is a
      64-bit subtraction.
     */
    method Init(params: Option<(nat, nat)>, linkerStart: nat, linkerEnd: nat)
      requires Shaped() && bitmap.Length < UINT64_LIMIT
      requires linkerStart < UINT64_LIMIT && linkerEnd < UINT64_LIMIT && base < UINT64_LIMIT
      requires params.Some? ==> params.value.0 < UINT64_LIMIT && params.value.1 < UINT64_LIMIT
      modifies this, bitmap
      ensures Valid()
      ensures var (s, e) := if params.Some? then params.value else (linkerStart, linkerEnd);
        model == InitState(frames, s, Minus64(e, s), base, bitmap.Length)
    {
      var k := 0;
      while k < bitmap.Length
        modifies bitmap
        invariant 0 <= k <= bitmap.Length
        invariant forall j :: 0 <= j < k ==> bitmap[j] == 0xFF
      {
        bitmap[k] := 0xFF;
        k := k + 1;
      }
      totalMemory, freeMemory, highestUsable := 0, 0, RAM_BASE;
      forall i: nat | i < frames ensures BitAt(i) { AllOnes(i % 8); }
      ghost var full := Pmm(frames, UpTo(frames), 0, 0, RAM_BASE);
      model := full;
      MarkRangeFree(RAM_BASE, Pages(frames));
      FreeingAllOfRam(full);
      var (s, e) := if params.Some? then params.value else (linkerStart, linkerEnd);
      MarkRangeUsed(s, Minus64(e, s));
      MarkRangeUsed(base, bitmap.Length);
    }

    lemma AllOnes(k: nat)
      requires k < 8
      ensures Bit(0xFF, k)
    {
    }

    /** `alloc_frame`: the linear bit search returns what the set-level specification returns. */
    method AllocFrame() returns (addr: int)
      requires Valid()
      modifies this, bitmap
      ensures Valid()
      ensures (model, addr) == FrameSpec.AllocFrame(old(model))
    {
      ghost var p := model;
      addr := 0;
      var i := 0;
      while i < frames
        modifies {}
        invariant 0 <= i <= frames
        invariant FirstClear(frames, p.used, 0) == FirstClear(frames, p.used, i)
      {
        var b := TestBit(i);
        if !b { break; }
        i := i + 1;
      }
      if i < frames {
        SetBit(i);
        freeMemory := freeMemory - PAGE_SIZE;
        addr := FrameAddr(i);
      }
      model := FrameSpec.AllocFrame(p).0;
    }

    /** `free_frame`, for any 64-bit argument. */
    method FreeFrame(addr: nat)
      requires Valid()
      modifies this, bitmap
      ensures Valid()
      ensures model == FrameSpec.FreeFrame(old(model), addr)
    {
      ghost var p := model;
      if addr == 0 { return; }
      if addr < RAM_BASE || addr >= FrameAddr(frames) { return; }
      if addr % 4096 != 0 { return; }
      var f := (addr - RAM_BASE) / 4096;
      if f >= frames { return; }
      var b := TestBit(f);
      if !b { return; }
      ClearBit(f);
      freeMemory := freeMemory + PAGE_SIZE;
      model := FrameSpec.FreeFrame(p, addr);
    }
  }
}
