/** What clients of the heap can rely on over whole runs. */
module HeapRuns {
  import opened FrameSpec
  import opened HeapSpec
  import opened HeapInvariant

  /** The allocated blocks. */
  function Live(bs: seq<Block>): set<Block> {
    set b | b in bs && !b.free
  }

  // ---------- one call, seen from the allocated blocks ----------

  lemma MergeLive(bs: seq<Block>, i: nat)
    requires i + 1 < |bs| && bs[i].free && bs[i + 1].free
    ensures Live(Merge(bs, i)) == Live(bs)
  {
    var r := Merge(bs, i);
    forall b | b in Live(bs) ensures b in r {
      var k :| 0 <= k < |bs| && bs[k] == b;
      assert r[if k < i then k else k - 1] == b;
    }
  }

  lemma SetFreeLive(bs: seq<Block>, i: nat, v: bool)
    requires Ordered(bs) && i < |bs|
    ensures Live(SetFree(bs, i, v)) == (Live(bs) - {bs[i]}) + (if v then {} else {bs[i].(free := false)})
  {
    var r := SetFree(bs, i, v);
    forall b | b in Live(bs) && b != bs[i] ensures b in r {
      var k :| 0 <= k < |bs| && bs[k] == b;
      assert r[k] == b;
    }
    forall b | b in Live(r) && b != r[i] ensures b in bs && b != bs[i] {
      var k :| 0 <= k < |r| && r[k] == b;
      assert bs[k] == b;
      FindUnique(bs, k);
      FindUnique(bs, i);
    }
    assert r[i] == bs[i].(free := v);
    assert !v ==> r[i] in r;
    forall b | b in Live(r) ensures b in (Live(bs) - {bs[i]}) + (if v then {} else {bs[i].(free := false)}) {
    }
  }

  lemma SplitLive(bs: seq<Block>, i: nat, s: int)
    requires i < |bs| && bs[i].free
    ensures Live(Split(bs, i, s)) == Live(bs) + {Block(bs[i].addr, s, false)}
  {
    var r := Split(bs, i, s);
    assert r[i] == Block(bs[i].addr, s, false);
    forall b | b in Live(bs) ensures b in r {
      var k :| 0 <= k < |bs| && bs[k] == b;
      assert r[if k < i then k else k + 1] == b;
    }
  }

  lemma {:induction false} GrowLive(h: Heap, k: nat)
    ensures Live(Grow(h, k).0.blocks) == Live(h.blocks)
    decreases k
  {
    if k > 0 && Lowest(h.pmm) < h.pmm.frames {
      GrowLive(GrowOne(h), k - 1);
      assert Live(GrowOne(h).blocks) == Live(h.blocks);
    }
  }

  lemma BackwardLive(h: Heap, i: nat)
    requires i < |h.blocks| && h.blocks[i].free
    ensures Live(Backward(h, i).blocks) == Live(h.blocks)
  {
    if i > 0 && h.blocks[i - 1].free { MergeLive(h.blocks, i - 1); }
  }

  lemma ExpandLive(h: Heap, k: nat)
    requires Inv(h) && k > 0
    ensures Live(Expand(h, k).0.blocks) == Live(h.blocks)
  {
    GrowLive(h, k);
    if Grow(h, k).1 {
      FirstPage(h, k);
      var g := Grow(h, k).0;
      BackwardLive(g.(frags := DropOrphan(g.frags, g.blocks[|h.blocks|].addr)), |h.blocks|);
    }
  }

  lemma ReleaseLive(h: Heap, i: nat)
    requires Inv(h) && i < |h.blocks| && !h.blocks[i].free
    ensures i < |Forward(h.(blocks := SetFree(h.blocks, i, true)), i).blocks|
    ensures Live(Backward(Forward(h.(blocks := SetFree(h.blocks, i, true)), i), i).blocks)
      == Live(h.blocks) - {h.blocks[i]}
  {
    var h1 := h.(blocks := SetFree(h.blocks, i, true));
    SetFreeLive(h.blocks, i, true);
    MarkInv(h, i);
    ForwardInv(h1, i);
    if i + 1 < |h1.blocks| && h1.blocks[i + 1].free { MergeLive(h1.blocks, i); }
    BackwardLive(Forward(h1, i), i);
  }

  lemma LiveAtIndex(bs: seq<Block>, i: nat)
    requires Ordered(bs) && i < |bs|
    ensures (set b | b in Live(bs) && b.addr != bs[i].addr) == Live(bs) - {bs[i]}
  {
    forall b | b in bs && b.addr == bs[i].addr ensures b == bs[i] {
      var k :| 0 <= k < |bs| && bs[k] == b;
      FindUnique(bs, k);
      FindUnique(bs, i);
    }
  }

  /** `kfree` gives up exactly its own block: every other allocated block keeps address and size. */
  lemma KfreeLive(h: Heap, ptr: int)
    requires Inv(h)
    ensures ptr != 0 ==> Live(Kfree(h, ptr).blocks) == (set b | b in Live(h.blocks) && b.addr != ptr - 48)
  {
    var i := Find(h.blocks, ptr - 48);
    if ptr != 0 {
      if i == |h.blocks| {
        assert forall b :: b in h.blocks ==> b.addr != ptr - 48;
      } else {
        LiveAtIndex(h.blocks, i);
        if !h.blocks[i].free { ReleaseLive(h, i); }
      }
    }
  }

  /** An allocated block starts at `a`. */
  predicate LiveAddr(bs: seq<Block>, a: int) {
    exists b :: b in Live(bs) && b.addr == a
  }

  /** One fresh allocated block at `a`, of at least `s` and less than `s + 96` bytes; all else as before. */
  predicate Added(bs: seq<Block>, cs: seq<Block>, a: int, s: int) {
    var n := SizeAt(cs, a);
    s <= n < s + 96 && !LiveAddr(bs, a) && Live(cs) == Live(bs) + {Block(a, n, false)}
  }

  lemma SizeOfMember(bs: seq<Block>, b: Block)
    requires Ordered(bs) && b in bs
    ensures SizeAt(bs, b.addr) == b.size
  {
    var k :| 0 <= k < |bs| && bs[k] == b;
    FindUnique(bs, k);
  }

  lemma CarveLive(h: Heap, x: int, s: int)
    requires Inv(h) && In(h.frags, x) && Fits(h.blocks, x, s) && 0 <= s && s % 8 == 0
    ensures Added(h.blocks, Carve(h, x, s).blocks, x, s)
  {
    ListedBlock(h, x);
    var i, c := Find(h.blocks, x), Carve(h, x, s).blocks;
    CarveInv(h, x, s);
    forall b | b in h.blocks && b.addr == x ensures b.free {
      var j :| 0 <= j < |h.blocks| && h.blocks[j] == b;
      FindUnique(h.blocks, j);
    }
    if h.blocks[i].size >= s + 96 {
      SplitLive(h.blocks, i, s);
      SizeOfMember(c, c[i]);
    } else {
      SetFreeLive(h.blocks, i, false);
      SizeOfMember(c, c[i]);
      assert h.blocks[i] !in Live(h.blocks);
    }
  }

  lemma TakeFitLive(h: Heap, s: int)
    requires Inv(h) && 0 <= s && s % 8 == 0
    ensures var (g, p) := TakeFit(h, s); if p == 0 then g == h else Added(h.blocks, g.blocks, p - 48, s)
  {
    FirstFitMeaning(h.blocks, h.frags.list, s);
    var k := FirstFit(h.blocks, h.frags.list, s);
    if k < |h.frags.list| {
      var x := h.frags.list[k];
      ListedBlock(h, x);
      CarveLive(h, x, s);
    }
  }

  lemma AddedAfter(bs: seq<Block>, cs: seq<Block>, ds: seq<Block>, a: int, s: int)
    requires Live(cs) == Live(bs) && Added(cs, ds, a, s)
    ensures Added(bs, ds, a, s)
  {
  }

  /** What an allocation of `s` rounded bytes does to the allocated blocks. */
  ghost predicate Outcome(h: Heap, r: (Heap, int), s: int) {
    if r.1 == 0 then Live(r.0.blocks) == Live(h.blocks) else Added(h.blocks, r.0.blocks, r.1 - 48, s)
  }

  lemma AllocateLive(h: Heap, s: int, k: nat)
    requires Inv(h) && k > 0 && 0 <= s && s % 8 == 0
    ensures Outcome(h, Allocate(h, s, k), s)
  {
    if ListedFit(h, s) {
      TakeFitLive(h, s);
    } else {
      var e := Expand(h, k).0;
      ExpandInv(h, k);
      ExpandLive(h, k);
      TakeFitLive(e, s);
      var (g, p) := TakeFit(e, s);
      if p != 0 { AddedAfter(h.blocks, e.blocks, g.blocks, p - 48, s); }
    }
  }

  /** `kmalloc` adds exactly one fresh allocated block, or none when it returns NULL. */
  lemma KmallocLive(h: Heap, size: nat)
    requires Inv(h) && size < UINT64_LIMIT
    ensures Outcome(h, Kmalloc(h, size), RoundUp(size))
  {
    RoundUpMeaning(size);
    if size > 0 { AllocateLive(h, RoundUp(size), PagesNeeded(RoundUp(size))); }
  }

  /** A granted block has the bytes asked for exactly when rounding the size did not wrap. */
  lemma GrantCoversIff(h: Heap, size: nat)
    requires Inv(h) && 0 < size < UINT64_LIMIT && Kmalloc(h, size).1 != 0
    ensures var (g, p) := Kmalloc(h, size); SizeAt(g.blocks, p - 48) >= size <==> size <= UINT64_LIMIT - 8
  {
    KmallocLive(h, size);
    RoundUpMeaning(size);
  }

  /** The failing side is real: with anything listed, every wrapping size is granted a block of less than 96 bytes. */
  lemma WrappedSizeGranted(h: Heap, size: nat)
    requires Inv(h) && h.frags.list != [] && UINT64_LIMIT - 8 < size < UINT64_LIMIT
    ensures var (g, p) := Kmalloc(h, size); p != 0 && SizeAt(g.blocks, p - 48) < 96 < size
  {
    RoundUpMeaning(size);
    ListedBlock(h, h.frags.list[0]);
    assert BlockOK(h.blocks[Find(h.blocks, h.frags.list[0])]);
    assert Fits(h.blocks, h.frags.list[0], 0);
    KmallocLive(h, size);
  }

  /** So it is on every machine with five clear frames, right after `kheap_init`. */
  lemma WrappedSizeGrantedAtBoot(p: Pmm, size: nat)
    requires |Clear(p)| >= 5 && UINT64_LIMIT - 8 < size < UINT64_LIMIT
    ensures var (g, q) := Kmalloc(Boot(p), size); q != 0 && SizeAt(g.blocks, q - 48) < size
  {
    BootInv(p);
    BootLists(p, PagesFor(16384));
    WrappedSizeGranted(Boot(p), size);
  }

  lemma BootLists(p: Pmm, k: nat)
    requires k == PagesFor(16384) && |Clear(p)| >= 5
    ensures Boot(p).frags.list != []
  {
    assert k == 5;
    GrowSucceedsIff(Heap([], Frags([], {}), [], p), k);
  }

  // ---------- runs ----------

  datatype Op = Malloc(size: nat) | Free(ptr: int)

  /** What a client was promised: the bytes asked for and the bytes its block has. */
  datatype Grant = Grant(asked: nat, size: int)

  /** `live` is keyed by header address, 48 bytes below the pointer the client holds. */
  datatype Client = Client(h: Heap, live: map<int, Grant>)

  ghost function Step(c: Client, op: Op): Client {
    match op
    case Malloc(size) =>
      var (g, p) := Kmalloc(c.h, size);
      Client(g, if p == 0 then c.live else c.live[p - 48 := Grant(size, SizeAt(g.blocks, p - 48))])
    case Free(p) => Client(Kfree(c.h, p), if p == 0 then c.live else c.live - {p - 48})
  }

  /** Sizes fit 64 bits; only NULL or a pointer still held is freed. */
  predicate Legal(c: Client, op: Op) {
    match op
    case Malloc(size) => size < UINT64_LIMIT
    case Free(p) => p == 0 || p - 48 in c.live
  }

  ghost function RunOps(c: Client, ops: seq<Op>): Client
    decreases |ops|
  {
    if ops == [] then c else RunOps(Step(c, ops[0]), ops[1..])
  }

  ghost predicate LegalRun(c: Client, ops: seq<Op>)
    decreases |ops|
  {
    ops == [] || (Legal(c, ops[0]) && LegalRun(Step(c, ops[0]), ops[1..]))
  }

  /** The pointers held are exactly the allocated blocks, each of its recorded size. */
  ghost predicate Books(blocks: set<Block>, live: map<int, Grant>) {
    && (forall b :: b in blocks ==> b.addr in live)
    && (forall a :: a in live ==> Block(a, live[a].size, false) in blocks)
    && (forall a :: a in live && live[a].asked <= UINT64_LIMIT - 8 ==> live[a].asked <= live[a].size)
  }

  ghost predicate ClientInv(c: Client) {
    Inv(c.h) && Books(Live(c.h.blocks), c.live)
  }

  lemma BooksAdd(blocks: set<Block>, live: map<int, Grant>, a: int, asked: nat, size: int)
    requires Books(blocks, live) && (forall b :: b in blocks ==> b.addr != a)
    requires asked <= UINT64_LIMIT - 8 ==> asked <= size
    ensures Books(blocks + {Block(a, size, false)}, live[a := Grant(asked, size)])
  {
  }

  lemma BooksDrop(blocks: set<Block>, live: map<int, Grant>, a: int)
    requires Books(blocks, live)
    ensures Books((set b | b in blocks && b.addr != a), live - {a})
  {
  }

  lemma StepKeeps(c: Client, op: Op)
    requires ClientInv(c) && Legal(c, op)
    ensures ClientInv(Step(c, op))
  {
    match op
    case Malloc(size) => MallocKeeps(c, size);
    case Free(p) => FreeKeeps(c, p);
  }

  lemma MallocKeeps(c: Client, size: nat)
    requires ClientInv(c) && size < UINT64_LIMIT
    ensures ClientInv(Step(c, Malloc(size)))
  {
    KmallocInv(c.h, size);
    KmallocLive(c.h, size);
    RoundUpMeaning(size);
    var (g, p) := Kmalloc(c.h, size);
    if p != 0 { BooksAdd(Live(c.h.blocks), c.live, p - 48, size, SizeAt(g.blocks, p - 48)); }
  }

  lemma FreeKeeps(c: Client, p: int)
    requires ClientInv(c)
    ensures ClientInv(Step(c, Op.Free(p)))
  {
    if p != 0 {
      KfreeInv(c.h, p);
      KfreeLive(c.h, p);
      BooksDrop(Live(c.h.blocks), c.live, p - 48);
    }
  }

  /** Every legal run keeps the whole invariant. */
  lemma {:induction false} RunKeeps(c: Client, ops: seq<Op>)
    requires ClientInv(c) && LegalRun(c, ops)
    ensures ClientInv(RunOps(c, ops))
    decreases |ops|
  {
    if ops != [] {
      StepKeeps(c, ops[0]);
      RunKeeps(Step(c, ops[0]), ops[1..]);
    }
  }
}
