/**
  The physical frame allocator as a plain set of used frame indices, with the
  running counters of `src/memory/frame_alloc.c`.  `FrameAllocator` refines it
  with a byte-packed bitmap.
 */
module FrameSpec {

  const PAGE_SIZE: nat := 4096
  const RAM_BASE: nat := 0x4000_0000
  const UINT64_LIMIT: nat := 0x1_0000_0000_0000_0000

  /** `frames` is the number of managed frames; `total`, `free` and `highest` are the three counters. */
  datatype Pmm = Pmm(frames: nat, used: set<nat>, total: int, free: int, highest: int)

  /** The size in bytes of `k` pages. */
  function Pages(k: int): int {
    4096 * k
  }

  function FrameAddr(f: nat): int {
    0x4000_0000 + 4096 * f
  }

  /** Byte `x` lies in frame `f`. */
  predicate InFrame(x: int, f: nat) {
    FrameAddr(f) <= x < FrameAddr(f) + 4096
  }

  /** The frame indices from `lo` to `hi`, both included. */
  function Span(lo: nat, hi: nat): (r: set<nat>)
    ensures forall f: nat :: f in r <==> lo <= f <= hi
    decreases hi + 1 - lo
  {
    if lo > hi then {} else {lo} + Span(lo + 1, hi)
  }

  /** All managed frame indices. */
  function UpTo(n: nat): (r: set<nat>)
    ensures forall i: nat :: i in r <==> i < n
  {
    if n == 0 then {} else Span(0, n - 1)
  }

  lemma {:induction false} SpanSize(lo: nat, hi: nat)
    requires lo <= hi + 1
    ensures |Span(lo, hi)| == hi + 1 - lo
    decreases hi + 1 - lo
  {
    if lo <= hi { SpanSize(lo + 1, hi); }
  }

  function Clear(p: Pmm): set<nat> {
    set i: nat | i < p.frames && i !in p.used
  }

  /** The accounting invariant: used frames are managed, and `free` counts the clear bits. */
  ghost predicate Accounted(p: Pmm) {
    && (forall f :: f in p.used ==> f < p.frames)
    && p.free == Pages(|Clear(p)|)
  }

  // ---------- alloc_frame and free_frame ----------

  /** The first clear frame at or after `i`, or `frames` if there is none. */
  function FirstClear(frames: nat, used: set<nat>, i: nat): (r: nat)
    requires i <= frames
    ensures i <= r <= frames
    ensures forall j :: i <= j < r ==> j in used
    ensures r < frames ==> r !in used
    decreases frames - i
  {
    if i == frames || i !in used then i else FirstClear(frames, used, i + 1)
  }

  function Lowest(p: Pmm): nat {
    FirstClear(p.frames, p.used, 0)
  }

  /** `alloc_frame`: the new state and the frame's address, 0 standing for NULL. */
  function AllocFrame(p: Pmm): (Pmm, int) {
    var f := Lowest(p);
    if f == p.frames then (p, 0)
    else (p.(used := p.used + {f}, free := p.free - PAGE_SIZE), FrameAddr(f))
  }

  /** `free_frame`, for any argument at all. */
  function FreeFrame(p: Pmm, addr: int): Pmm {
    if addr == 0 || addr < RAM_BASE || addr >= FrameAddr(p.frames) || addr % 4096 != 0 then p
    else
      var f := (addr - RAM_BASE) / 4096;
      if f !in p.used then p
      else p.(used := p.used - {f}, free := p.free + PAGE_SIZE)
  }

  /** NULL exactly when no frame is clear; otherwise the lowest clear frame, which becomes used. */
  lemma AllocGivesLowest(p: Pmm)
    ensures var (q, a) := AllocFrame(p);
      && (a == 0 <==> Clear(p) == {})
      && (a == 0 ==> q == p)
      && (a != 0 ==> exists f :: f in Clear(p) && a == FrameAddr(f) && (forall g :: g in Clear(p) ==> f <= g)
                                 && Clear(q) == Clear(p) - {f} && q.used == p.used + {f})
  {
    var f := Lowest(p);
    if f == p.frames {
      assert forall g :: g in Clear(p) ==> g in p.used;
      assert Clear(p) == {};
    } else {
      var q := AllocFrame(p).0;
      assert f in Clear(p);
      assert Clear(q) == Clear(p) - {f};
    }
  }

  lemma AllocKeepsAccount(p: Pmm)
    requires Accounted(p)
    ensures var q := AllocFrame(p).0;
      Accounted(q) && 0 <= q.free && q.total == p.total && q.highest == p.highest && q.frames == p.frames
  {
    AllocGivesLowest(p);
    var (q, a) := AllocFrame(p);
    if a != 0 {
      assert Clear(q) == Clear(p) - {Lowest(p)};
    }
  }

  lemma FreeKeepsAccount(p: Pmm, addr: int)
    requires Accounted(p)
    ensures var q := FreeFrame(p, addr);
      Accounted(q) && q.total == p.total && q.highest == p.highest && q.frames == p.frames
  {
    var q := FreeFrame(p, addr);
    if q != p {
      var f := (addr - RAM_BASE) / 4096;
      assert Clear(q) == Clear(p) + {f};
    }
  }

  /** Freeing what `alloc_frame` just returned restores bitmap and counters. */
  lemma FreeUndoesAlloc(p: Pmm)
    ensures var (q, a) := AllocFrame(p); FreeFrame(q, a) == p
  {
    var f := Lowest(p);
    if f < p.frames {
      var (q, a) := AllocFrame(p);
      FrameIndex(f);
      assert a < FrameAddr(p.frames);
      assert q.used - {f} == p.used;
    }
  }

  /** Nothing changes unless the address is that of a managed frame that is used. */
  lemma FreeIgnores(p: Pmm, addr: int)
    requires forall f: nat :: f < p.frames && f in p.used ==> addr != FrameAddr(f)
    ensures FreeFrame(p, addr) == p
  {
    var f := (addr - RAM_BASE) / 4096;
    if addr >= RAM_BASE && addr % 4096 == 0 { assert addr == FrameAddr(f); }
  }

  /** And then that frame alone becomes clear. */
  lemma FreeClears(p: Pmm, f: nat)
    requires f < p.frames && f in p.used
    ensures FreeFrame(p, FrameAddr(f)) == p.(used := p.used - {f}, free := p.free + 4096)
  {
    FrameIndex(f);
  }

  lemma FrameIndex(f: nat)
    ensures FrameAddr(f) % 4096 == 0 && (FrameAddr(f) - RAM_BASE) / 4096 == f
  {
  }

  // ---------- runs ----------

  datatype Call = Alloc | Free(addr: int)

  function Step(p: Pmm, c: Call): Pmm {
    match c
    case Alloc => AllocFrame(p).0
    case Free(a) => FreeFrame(p, a)
  }

  function Run(p: Pmm, calls: seq<Call>): Pmm
    decreases |calls|
  {
    if calls == [] then p else Run(Step(p, calls[0]), calls[1..])
  }

  /** Whole-run accounting, whatever is passed to `free_frame`: no counter drifts or underflows. */
  lemma {:induction false} RunAccounting(p: Pmm, calls: seq<Call>)
    requires Accounted(p)
    ensures var q := Run(p, calls);
      Accounted(q) && 0 <= q.free <= Pages(q.frames) && q.total == p.total && q.highest == p.highest
        && q.frames == p.frames
    decreases |calls|
  {
    if calls == [] {
      ClearBounded(p);
    } else {
      if calls[0].Alloc? { AllocKeepsAccount(p); } else { FreeKeepsAccount(p, calls[0].addr); }
      RunAccounting(Step(p, calls[0]), calls[1..]);
    }
  }

  lemma ClearBounded(p: Pmm)
    ensures |Clear(p)| <= p.frames
  {
    SubsetSize(Clear(p), UpTo(p.frames));
    if p.frames > 0 { SpanSize(0, p.frames - 1); }
  }

  lemma {:induction false} SubsetSize<T>(a: set<T>, b: set<T>)
    requires a <= b
    ensures |a| <= |b|
  {
    if a != {} {
      var x :| x in a;
      SubsetSize(a - {x}, b - {x});
    }
  }

  /** A client that frees only frames it holds. */
  datatype Owner = Owner(p: Pmm, out: set<nat>)

  predicate Lawful(o: Owner, c: Call) {
    c.Free? ==> exists f :: f in o.out && c.addr == FrameAddr(f)
  }

  function OwnerStep(o: Owner, c: Call): Owner {
    match c
    case Alloc =>
      if Lowest(o.p) == o.p.frames then o
      else Owner(AllocFrame(o.p).0, o.out + {Lowest(o.p)})
    case Free(a) =>
      if a < RAM_BASE then o
      else Owner(FreeFrame(o.p, a), o.out - {(a - RAM_BASE) / 4096})
  }

  function OwnerRun(o: Owner, calls: seq<Call>): Owner
    decreases |calls|
  {
    if calls == [] then o else OwnerRun(OwnerStep(o, calls[0]), calls[1..])
  }

  predicate LawfulRun(o: Owner, calls: seq<Call>)
    decreases |calls|
  {
    calls == [] || (Lawful(o, calls[0]) && LawfulRun(OwnerStep(o, calls[0]), calls[1..]))
  }

  /** Held frames are managed and never reserved, and used means reserved or held: nothing leaks. */
  ghost predicate Owned(o: Owner, reserved: set<nat>) {
    && o.p.used == reserved + o.out
    && reserved !! o.out
    && (forall f :: f in o.p.used ==> f < o.p.frames)
  }

  /**
    Over every lawful run the used frames are exactly the reserved ones and the
    held ones, so held frames are distinct, in range and never reserved.
   */
  lemma {:induction false} LawfulRunOwnership(o: Owner, calls: seq<Call>, reserved: set<nat>)
    requires Owned(o, reserved) && LawfulRun(o, calls)
    ensures Owned(OwnerRun(o, calls), reserved)
    decreases |calls|
  {
    if calls != [] {
      var c := calls[0];
      if c.Free? {
        var f :| f in o.out && c.addr == FrameAddr(f);
        FrameIndex(f);
        assert f < o.p.frames;
        assert FrameAddr(f) < FrameAddr(o.p.frames);
        assert OwnerStep(o, c).p.used == reserved + (o.out - {f});
      }
      LawfulRunOwnership(OwnerStep(o, c), calls[1..], reserved);
    }
  }

  /** The addresses that `k` successive allocations return. */
  function AllocMany(p: Pmm, k: nat): seq<int>
    decreases k
  {
    if k == 0 then [] else [AllocFrame(p).1] + AllocMany(AllocFrame(p).0, k - 1)
  }

  /** Without frees the results strictly ascend until memory runs out, then stay NULL. */
  lemma {:induction false} AllocsAscend(p: Pmm, k: nat)
    ensures var r := AllocMany(p, k);
      && |r| == k
      && (forall i :: 0 <= i < k ==> r[i] == 0 || r[i] >= FrameAddr(Lowest(p)))
      && (forall i, j :: 0 <= i < j < k ==> r[j] == 0 || 0 < r[i] < r[j])
    decreases k
  {
    if k > 0 {
      var q := AllocFrame(p).0;
      AllocsAscend(q, k - 1);
      var t := AllocMany(q, k - 1);
      var r := AllocMany(p, k);
      assert r[1..] == t;
      LowestAdvances(p);
      forall i | 0 <= i < k ensures r[i] == 0 || r[i] >= FrameAddr(Lowest(p)) {
        if i > 0 { assert r[i] == t[i - 1]; }
      }
      forall i, j | 0 <= i < j < k ensures r[j] == 0 || 0 < r[i] < r[j] {
        assert r[j] == t[j - 1];
        if i > 0 { assert r[i] == t[i - 1]; } else if Lowest(p) == p.frames { ExhaustedStays(p, k, j); }
      }
    }
  }

  lemma LowestAdvances(p: Pmm)
    ensures Lowest(AllocFrame(p).0) > Lowest(p) || AllocFrame(p).0 == p
  {
    var f := Lowest(p);
    assert f < p.frames ==> f in AllocFrame(p).0.used;
  }

  lemma {:induction false} ExhaustedStays(p: Pmm, k: nat, j: nat)
    requires Lowest(p) == p.frames && j < k
    ensures |AllocMany(p, k)| == k && AllocMany(p, k)[j] == 0
    decreases k
  {
    if j > 0 { ExhaustedStays(p, k - 1, j - 1); } else if k > 1 { ExhaustedStays(p, k - 1, 0); }
  }

  // ---------- range marking ----------

  /** 64-bit addition. */
  function Plus64(a: nat, b: nat): nat {
    if a + b >= 0x1_0000_0000_0000_0000 then a + b - 0x1_0000_0000_0000_0000 else a + b
  }

  /** 64-bit subtraction. */
  function Minus64(a: nat, b: nat): (r: nat)
    requires a < UINT64_LIMIT && b < UINT64_LIMIT
    ensures r < UINT64_LIMIT && (r == a - b || r == a - b + UINT64_LIMIT)
  {
    if a >= b then a - b else a - b + UINT64_LIMIT
  }

  /** First frame of a range, as `mark_range_*` computes it. */
  function StartFrame(base: nat): nat {
    if base >= RAM_BASE then (base - RAM_BASE) / 4096 else UINT64_LIMIT - 1
  }

  /** Last frame of a range before the cap; the end address wraps at 64 bits. */
  function EndFrame(base: nat, size: nat): nat {
    var end := Plus64(base, size);
    if end > RAM_BASE then (end - 1 - RAM_BASE) / 4096 else 0
  }

  /** The frames that the marking loops visit, the last one capped to a managed frame. */
  function Visited(frames: nat, base: nat, size: nat): (r: set<nat>)
    ensures forall f: nat :: f in r <==> f < frames && StartFrame(base) <= f <= EndFrame(base, size)
  {
    if StartFrame(base) >= frames then {} else Span(StartFrame(base), LastFrame(frames, base, size))
  }

  function LastFrame(frames: nat, base: nat, size: nat): nat
    requires frames > 0
  {
    if EndFrame(base, size) >= frames then frames - 1 else EndFrame(base, size)
  }

  /** The managed frames holding at least one byte of [base, base + size). */
  function Meeting(frames: nat, base: nat, size: nat): set<nat> {
    set i | i in UpTo(frames) && size > 0 && FrameAddr(i) < base + size && base < FrameAddr(i) + PAGE_SIZE
  }

  /** What a caller can check: a range the marking loops round correctly. */
  predicate RoundsRight(frames: nat, base: nat, size: nat) {
    if base + size >= UINT64_LIMIT then
      base >= RAM_BASE && (StartFrame(base) >= frames || StartFrame(base) == EndFrame(base, size) == frames - 1)
    else if base < RAM_BASE then size == 0 || base + size <= RAM_BASE
    else size > 0 || StartFrame(base) >= frames || (base > RAM_BASE && base % 4096 == 0)
  }

  /**
    For every 64-bit base and size, the loops mark exactly the frames that
    meet the range if and only if `RoundsRight` holds: an empty range that is
    unaligned or sits at the RAM base marks a frame too many, a range that
    begins below RAM marks nothing, and one whose end wraps stops at its first
    frame or before it.
   */
  lemma MarksExactlyMeeting(frames: nat, base: nat, size: nat)
    requires base < UINT64_LIMIT && size < UINT64_LIMIT && 0 < frames && FrameAddr(frames) <= UINT64_LIMIT
    ensures Visited(frames, base, size) == Meeting(frames, base, size) <==> RoundsRight(frames, base, size)
  {
    var v, m := Visited(frames, base, size), Meeting(frames, base, size);
    if base + size >= UINT64_LIMIT {
      WrappedRange(frames, base, size);
    } else if base < RAM_BASE {
      if size > 0 && base + size > RAM_BASE { assert 0 in m; } else { assert m == {}; }
    } else if size == 0 {
      assert m == {};
      var s := StartFrame(base);
      if s < frames && (base == RAM_BASE || base % 4096 != 0) {
        assert EndFrame(base, 0) == s by { if base > RAM_BASE { UnalignedStays(base); } }
        assert s in v;
      } else if s < frames {
        AlignedDrops(base);
      }
    } else {
      forall i: nat | i < frames ensures i in v <==> i in m {
        FrameMeets(base, size, i);
      }
      assert v == m;
    }
  }

  /** A range that runs past 2^64 meets every managed frame from its start on. */
  lemma WrappedRange(frames: nat, base: nat, size: nat)
    requires base < UINT64_LIMIT && size < UINT64_LIMIT && base + size >= UINT64_LIMIT
    requires 0 < frames && FrameAddr(frames) <= UINT64_LIMIT
    ensures Visited(frames, base, size) == Meeting(frames, base, size) <==> RoundsRight(frames, base, size)
  {
    var v, m := Visited(frames, base, size), Meeting(frames, base, size);
    forall i: nat | i < frames ensures i in m <==> base < FrameAddr(i) + PAGE_SIZE {
    }
    if base < RAM_BASE {
      assert 0 in m && 0 !in v;
    } else {
      forall i: nat | i < frames ensures i in m <==> StartFrame(base) <= i {
      }
      assert EndFrame(base, size) <= StartFrame(base);
      if StartFrame(base) < frames {
        assert frames - 1 in m;
        if RoundsRight(frames, base, size) { assert v == m; }
      } else {
        assert v == m;
      }
    }
  }

  lemma UnalignedStays(base: nat)
    requires base > RAM_BASE && base % 4096 != 0
    ensures (base - 1 - RAM_BASE) / 4096 == (base - RAM_BASE) / 4096
  {
  }

  lemma AlignedDrops(base: nat)
    requires base > RAM_BASE && base % 4096 == 0
    ensures (base - 1 - RAM_BASE) / 4096 < (base - RAM_BASE) / 4096
  {
  }

  lemma FrameMeets(base: nat, size: nat, i: nat)
    requires base >= RAM_BASE && size > 0 && base + size < UINT64_LIMIT
    ensures StartFrame(base) <= i <= EndFrame(base, size)
      <==> FrameAddr(i) < base + size && base < FrameAddr(i) + PAGE_SIZE
  {
  }

  /** The guarded counter decrement of `mark_range_used`. */
  function Drop(count: int): int {
    if count >= PAGE_SIZE then count - PAGE_SIZE else count
  }

  /** One turn of each marking loop. */
  function OccupyOne(p: Pmm, i: nat): Pmm {
    if i in p.used then p
    else p.(used := p.used + {i}, total := Drop(p.total), free := Drop(p.free))
  }

  function ReleaseOne(p: Pmm, i: nat): Pmm {
    if i !in p.used then p
    else p.(used := p.used - {i}, total := p.total + PAGE_SIZE, free := p.free + PAGE_SIZE,
            highest := if FrameAddr(i + 1) > p.highest then FrameAddr(i + 1) else p.highest)
  }

  function OccupyRange(p: Pmm, i: nat, end: nat): Pmm
    decreases end + 1 - i
  {
    if i > end then p else OccupyRange(OccupyOne(p, i), i + 1, end)
  }

  function ReleaseRange(p: Pmm, i: nat, end: nat): Pmm
    decreases end + 1 - i
  {
    if i > end then p else ReleaseRange(ReleaseOne(p, i), i + 1, end)
  }

  /** `mark_range_used` and `mark_range_free`. */
  function MarkUsed(p: Pmm, base: nat, size: nat): Pmm {
    if StartFrame(base) >= p.frames then p
    else OccupyRange(p, StartFrame(base), LastFrame(p.frames, base, size))
  }

  function MarkFree(p: Pmm, base: nat, size: nat): Pmm {
    if StartFrame(base) >= p.frames then p
    else ReleaseRange(p, StartFrame(base), LastFrame(p.frames, base, size))
  }

  /** The counters of the init phase: nothing allocated yet, so `total` and `free` agree. */
  ghost predicate Balanced(p: Pmm) {
    Accounted(p) && p.total == p.free
  }

  lemma OccupyKeepsBalance(p: Pmm, i: nat)
    requires Balanced(p) && i < p.frames
    ensures Balanced(OccupyOne(p, i))
  {
    if i !in p.used {
      assert i in Clear(p);
      assert Clear(OccupyOne(p, i)) == Clear(p) - {i};
    }
  }

  /** While the counters agree the guards of the loop never bite. */
  lemma {:induction false} OccupyRangeKeepsBalance(p: Pmm, i: nat, end: nat)
    requires Balanced(p) && end < p.frames
    ensures Balanced(OccupyRange(p, i, end))
    decreases end + 1 - i
  {
    if i <= end {
      OccupyKeepsBalance(p, i);
      OccupyRangeKeepsBalance(OccupyOne(p, i), i + 1, end);
    }
  }

  lemma {:induction false} OccupyRangeIsUnion(p: Pmm, i: nat, end: nat)
    ensures var q := OccupyRange(p, i, end);
      q.frames == p.frames && q.highest == p.highest && q.used == p.used + Span(i, end)
    decreases end + 1 - i
  {
    if i > end {
      assert p.used + Span(i, end) == p.used;
    } else {
      OccupyRangeIsUnion(OccupyOne(p, i), i + 1, end);
      assert OccupyOne(p, i).used == p.used + {i};
      assert (p.used + {i}) + Span(i + 1, end) == p.used + Span(i, end);
    }
  }

  /** `mark_range_used` adds the visited frames and keeps the counters in step. */
  lemma MarkUsedIsUnion(p: Pmm, base: nat, size: nat)
    requires Balanced(p)
    ensures var q := MarkUsed(p, base, size);
      Balanced(q) && q.frames == p.frames && q.highest == p.highest && q.used == p.used + Visited(p.frames, base, size)
  {
    if StartFrame(base) < p.frames {
      var last := LastFrame(p.frames, base, size);
      OccupyRangeIsUnion(p, StartFrame(base), last);
      OccupyRangeKeepsBalance(p, StartFrame(base), last);
    }
  }

  lemma ReleaseKeepsBalance(p: Pmm, i: nat)
    requires Balanced(p) && i < p.frames
    ensures Balanced(ReleaseOne(p, i))
  {
    if i in p.used { assert Clear(ReleaseOne(p, i)) == Clear(p) + {i}; }
  }

  lemma {:induction false} ReleaseRangeKeepsBalance(p: Pmm, i: nat, end: nat)
    requires Balanced(p) && end < p.frames
    ensures Balanced(ReleaseRange(p, i, end))
    decreases end + 1 - i
  {
    if i <= end {
      ReleaseKeepsBalance(p, i);
      ReleaseRangeKeepsBalance(ReleaseOne(p, i), i + 1, end);
    }
  }

  lemma {:induction false} ReleaseRangeIsDifference(p: Pmm, i: nat, end: nat)
    ensures var q := ReleaseRange(p, i, end); q.frames == p.frames && q.used == p.used - Span(i, end)
    decreases end + 1 - i
  {
    if i > end {
      assert p.used - Span(i, end) == p.used;
    } else {
      ReleaseRangeIsDifference(ReleaseOne(p, i), i + 1, end);
      assert ReleaseOne(p, i).used == p.used - {i};
      assert (p.used - {i}) - Span(i + 1, end) == p.used - Span(i, end);
    }
  }

  function FrameEnd(f: nat): int {
    FrameAddr(f) + 4096
  }

  /** The end of the last frame in `released`, or `highest` if that is more. */
  ghost predicate HighestOf(released: set<nat>, highest: int, r: int) {
    && (r == highest || exists i :: i in released && r == FrameEnd(i))
    && r >= highest && forall i :: i in released ==> r >= FrameEnd(i)
  }

  lemma HighestAdds(released: set<nat>, rest: set<nat>, i: nat, highest: int, r: int)
    requires released == {i} + rest
    requires HighestOf(rest, if FrameEnd(i) > highest then FrameEnd(i) else highest, r)
    ensures HighestOf(released, highest, r)
  {
    assert i in released;
    if j :| j in rest && r == FrameEnd(j) { assert j in released; }
  }

  lemma {:induction false} ReleaseRangeHighest(p: Pmm, i: nat, end: nat)
    ensures HighestOf(p.used * Span(i, end), p.highest, ReleaseRange(p, i, end).highest)
    decreases end + 1 - i
  {
    if i <= end {
      var q := ReleaseOne(p, i);
      ReleaseRangeHighest(q, i + 1, end);
      var released, rest := p.used * Span(i, end), q.used * Span(i + 1, end);
      if i in p.used {
        assert released == {i} + rest;
        HighestAdds(released, rest, i, p.highest, ReleaseRange(p, i, end).highest);
      } else {
        assert released == rest;
      }
    }
  }

  /** `mark_range_free` removes the visited frames, keeps the counters in step and tracks the highest address. */
  lemma MarkFreeIsDifference(p: Pmm, base: nat, size: nat)
    requires Balanced(p)
    ensures var q := MarkFree(p, base, size); var v := Visited(p.frames, base, size);
      Balanced(q) && q.frames == p.frames && q.used == p.used - v && HighestOf(p.used * v, p.highest, q.highest)
  {
    if StartFrame(base) < p.frames {
      var last := LastFrame(p.frames, base, size);
      ReleaseRangeIsDifference(p, StartFrame(base), last);
      ReleaseRangeKeepsBalance(p, StartFrame(base), last);
      ReleaseRangeHighest(p, StartFrame(base), last);
    }
  }

  lemma {:induction false} ReleaseAllFrom(p: Pmm, i: nat)
    requires i < p.frames && p.used == Span(i, p.frames - 1)
    requires p.total == p.free == Pages(i) && p.highest == FrameAddr(i)
    ensures ReleaseRange(p, i, p.frames - 1) == AllClear(p.frames)
    decreases p.frames - i
  {
    var q := ReleaseOne(p, i);
    assert q.used == Span(i + 1, p.frames - 1);
    if i + 1 < p.frames {
      ReleaseAllFrom(q, i + 1);
    } else {
      assert q.used == {};
    }
  }

  /** Init's first marking call frees every managed frame. */
  lemma FreeingAllOfRam(p: Pmm)
    requires 0 < p.frames && FrameAddr(p.frames) < UINT64_LIMIT
    requires p.used == UpTo(p.frames) && p.total == p.free == 0 && p.highest == RAM_BASE
    ensures MarkFree(p, RAM_BASE, Pages(p.frames)) == AllClear(p.frames)
  {
    var size := Pages(p.frames);
    assert EndFrame(RAM_BASE, size) == p.frames - 1;
    ReleaseAllFrom(p, 0);
  }

  function AllClear(frames: nat): Pmm {
    Pmm(frames, {}, Pages(frames), Pages(frames), FrameAddr(frames))
  }

  lemma AllClearBalanced(frames: nat)
    ensures Balanced(AllClear(frames))
  {
    assert Clear(AllClear(frames)) == UpTo(frames);
    if frames > 0 { SpanSize(0, frames - 1); }
  }

  /** State after `frame_alloc_init`, given the kernel range it was told about and the bitmap's. */
  function InitState(frames: nat, kernel: nat, kernelSize: nat, bitmap: nat, bitmapSize: nat): Pmm {
    MarkUsed(MarkUsed(AllClear(frames), kernel, kernelSize), bitmap, bitmapSize)
  }

  /** After init, used frames are exactly those meeting the kernel or the bitmap, and the counters agree. */
  lemma InitReservesExactly(frames: nat, kernel: nat, kernelSize: nat, bitmap: nat, bitmapSize: nat)
    requires kernel < UINT64_LIMIT && kernelSize < UINT64_LIMIT && bitmap < UINT64_LIMIT && bitmapSize < UINT64_LIMIT
    requires 0 < frames && FrameAddr(frames) <= UINT64_LIMIT
    requires RoundsRight(frames, kernel, kernelSize) && RoundsRight(frames, bitmap, bitmapSize)
    ensures var p := InitState(frames, kernel, kernelSize, bitmap, bitmapSize);
      && p.used == Meeting(frames, kernel, kernelSize) + Meeting(frames, bitmap, bitmapSize)
      && Balanced(p) && p.frames == frames && p.highest == FrameAddr(frames)
  {
    InitAccounted(frames, kernel, kernelSize, bitmap, bitmapSize);
    MarksExactlyMeeting(frames, kernel, kernelSize);
    MarksExactlyMeeting(frames, bitmap, bitmapSize);
  }

  /** The counters agree after init whatever the two ranges were. */
  lemma InitAccounted(frames: nat, kernel: nat, kernelSize: nat, bitmap: nat, bitmapSize: nat)
    ensures var p := InitState(frames, kernel, kernelSize, bitmap, bitmapSize);
      && p.used == Visited(frames, kernel, kernelSize) + Visited(frames, bitmap, bitmapSize)
      && Balanced(p) && p.frames == frames && p.highest == FrameAddr(frames)
  {
    var all := AllClear(frames);
    AllClearBalanced(frames);
    MarkUsedIsUnion(all, kernel, kernelSize);
    MarkUsedIsUnion(MarkUsed(all, kernel, kernelSize), bitmap, bitmapSize);
  }

  /**
    Every run from init, whatever is passed to `free_frame`: the free counter
    is 4096 times the number of clear frames and never negative, and
    `total_memory` stays at its end-of-init value.
   */
  lemma InitRunAccounting(frames: nat, kernel: nat, kernelSize: nat, bitmap: nat, bitmapSize: nat, calls: seq<Call>)
    ensures var p := InitState(frames, kernel, kernelSize, bitmap, bitmapSize); var q := Run(p, calls);
      && q.free == Pages(|Clear(q)|) && 0 <= q.free <= Pages(frames)
      && q.total == p.total == Pages(|Clear(p)|)
  {
    InitAccounted(frames, kernel, kernelSize, bitmap, bitmapSize);
    RunAccounting(InitState(frames, kernel, kernelSize, bitmap, bitmapSize), calls);
  }
}
