/**
  The kernel heap of `src/memory/kheap.c` as a value: the physical chain as a
  sequence of blocks, and the free blocks as disjoint fragments.  `KHeap`
  refines these functions with pointers in memory.

  A fragment is a maximal doubly linked run of free blocks.  `list` is the one
  that `free_list_head` points at.  The others are orphans: expansion flags
  every new page free but lists only the first one, and unlinking the front of
  an orphan makes its tail the list and orphans the old list.
 */
module HeapSpec {
  import opened FrameSpec

  datatype Block = Block(addr: int, size: int, free: bool)

  datatype Frags = Frags(list: seq<int>, orphans: set<seq<int>>)

  /** `owned` records the frames obtained so far, in order. */
  datatype Heap = Heap(blocks: seq<Block>, frags: Frags, owned: seq<nat>, pmm: Pmm)

  /** One past the last byte of a block, its 48-byte header included. */
  function End(b: Block): int {
    b.addr + 48 + b.size
  }

  // ---------- sequences ----------

  function Position(s: seq<int>, x: int): (r: nat)
    ensures r <= |s| && (r < |s| ==> s[r] == x) && (x in s ==> r < |s|)
  {
    if s == [] || s[0] == x then 0 else 1 + Position(s[1..], x)
  }

  function RemoveAt(s: seq<int>, k: nat): seq<int>
    requires k < |s|
  {
    s[..k] + s[k + 1..]
  }

  /** The sequence without the first occurrence of `x`. */
  function Without(s: seq<int>, x: int): seq<int> {
    var k := Position(s, x);
    if k < |s| then RemoveAt(s, k) else s
  }

  /** Index of the block at address `a`, or the length if there is none. */
  function Find(bs: seq<Block>, a: int): (r: nat)
    ensures r <= |bs| && (r < |bs| ==> bs[r].addr == a) && (forall j :: 0 <= j < r ==> bs[j].addr != a)
  {
    if bs == [] || bs[0].addr == a then 0 else 1 + Find(bs[1..], a)
  }

  function SizeAt(bs: seq<Block>, a: int): int {
    var i := Find(bs, a);
    if i < |bs| then bs[i].size else 0
  }

  // ---------- fragments ----------

  ghost predicate In(g: Frags, x: int) {
    x in g.list || exists f :: f in g.orphans && x in f
  }

  function Push(g: Frags, x: int): Frags {
    Frags([x] + g.list, g.orphans)
  }

  function AddOrphan(g: Frags, x: int): Frags {
    Frags(g.list, g.orphans + {[x]})
  }

  function DropOrphan(g: Frags, x: int): Frags {
    Frags(g.list, g.orphans - {[x]})
  }

  /** `remove_from_free_list`: unlinking the front of any fragment moves the head to its tail. */
  ghost function Unlink(g: Frags, x: int): Frags {
    if x in g.list then Frags(RemoveAt(g.list, Position(g.list, x)), g.orphans)
    else if exists f :: f in g.orphans && x in f then
      var f :| f in g.orphans && x in f;
      UnlinkOrphan(g, f, x)
    else g
  }

  ghost function UnlinkOrphan(g: Frags, f: seq<int>, x: int): Frags
    requires x in f
  {
    if f[0] == x then Frags(f[1..], (g.orphans - {f}) + (if g.list == [] then {} else {g.list}))
    else Frags(g.list, (g.orphans - {f}) + {RemoveAt(f, Position(f, x))})
  }

  // ---------- blocks ----------

  function SetFree(bs: seq<Block>, i: nat, v: bool): seq<Block>
    requires i < |bs|
  {
    bs[i := bs[i].(free := v)]
  }

  /** Block `i` swallows block `i + 1`; addresses are not compared. */
  function Merge(bs: seq<Block>, i: nat): seq<Block>
    requires i + 1 < |bs|
  {
    bs[..i] + [bs[i].(size := bs[i].size + 48 + bs[i + 1].size)] + bs[i + 2..]
  }

  /** Block `i` shrinks to `s` bytes, allocated; the rest becomes a free block after it. */
  function Split(bs: seq<Block>, i: nat, s: int): seq<Block>
    requires i < |bs|
  {
    bs[..i] + [Block(bs[i].addr, s, false), Block(bs[i].addr + 48 + s, bs[i].size - s - 48, true)] + bs[i + 1..]
  }

  ghost predicate FreeAt(bs: seq<Block>, x: int) {
    exists i :: 0 <= i < |bs| && bs[i].addr == x && bs[i].free
  }

  // ---------- expand_heap ----------

  function NewPage(f: nat): Block {
    Block(FrameAddr(f), 4048, true)
  }

  function GrowOne(h: Heap): Heap {
    var f := Lowest(h.pmm);
    Heap(h.blocks + [NewPage(f)], AddOrphan(h.frags, FrameAddr(f)), h.owned + [f], AllocFrame(h.pmm).0)
  }

  /** The frame loop: up to `k` new pages at the end of the chain, and whether all were found. */
  function Grow(h: Heap, k: nat): (r: (Heap, bool))
    ensures |r.0.blocks| >= |h.blocks| && (r.1 ==> |r.0.blocks| == |h.blocks| + k)
    decreases k
  {
    if k == 0 then (h, true)
    else if Lowest(h.pmm) == h.pmm.frames then (h, false)
    else Grow(GrowOne(h), k - 1)
  }

  /** `expand_heap` by `k` pages: a partly failed expansion leaves its pages unlisted. */
  ghost function Expand(h: Heap, k: nat): (Heap, bool)
    requires k > 0
  {
    var (g, ok) := Grow(h, k);
    if ok then (Backward(g.(frags := DropOrphan(g.frags, g.blocks[|h.blocks|].addr)), |h.blocks|), true) else (g, false)
  }

  // ---------- kmalloc and kfree ----------

  /** Size rounded up to 8 bytes in 64-bit arithmetic: the last seven sizes wrap to 0. */
  function RoundUp(size: nat): nat {
    Plus64(size, 7) / 8 * 8
  }

  /** The page count that `kmalloc` asks of `expand_heap` for a rounded size, in 64-bit arithmetic. */
  function PagesNeeded(s: nat): (r: nat)
    ensures r > 0
  {
    PagesFor(Plus64(s, 48))
  }

  function PagesFor(bytes: nat): (r: nat)
    ensures r > 0
  {
    var p := Plus64(bytes, 48 + 4095) / 4096;
    if p == 0 then 1 else p
  }

  /** First-fit: the position in `list` of the first block of at least `s` bytes, or its length. */
  function FirstFit(bs: seq<Block>, list: seq<int>, s: int): (r: nat)
    ensures r <= |list|
  {
    if list == [] || Fits(bs, list[0], s) then 0 else 1 + FirstFit(bs, list[1..], s)
  }

  predicate Fits(bs: seq<Block>, a: int, s: int) {
    var i := Find(bs, a);
    i < |bs| && bs[i].size >= s
  }

  /** Allocates `s` bytes from the free block at `x`, splitting it when 96 bytes or more remain. */
  ghost function Carve(h: Heap, x: int, s: int): Heap {
    var i := Find(h.blocks, x);
    if i == |h.blocks| then h
    else if h.blocks[i].size >= s + 96 then
      h.(blocks := Split(h.blocks, i, s), frags := Push(Unlink(h.frags, x), x + 48 + s))
    else
      h.(blocks := SetFree(h.blocks, i, false), frags := Unlink(h.frags, x))
  }

  /** Block `i`, free and unlisted, swallows its successor if that is free. */
  ghost function Forward(h: Heap, i: nat): Heap
    requires i < |h.blocks|
  {
    if i + 1 < |h.blocks| && h.blocks[i + 1].free then
      h.(blocks := Merge(h.blocks, i), frags := Unlink(h.frags, h.blocks[i + 1].addr))
    else h
  }

  /** Block `i`, free and unlisted, is listed, merged into its predecessor if that is free. */
  ghost function Backward(h: Heap, i: nat): Heap
    requires i < |h.blocks|
  {
    if i > 0 && h.blocks[i - 1].free then
      var p := h.blocks[i - 1].addr;
      h.(blocks := Merge(h.blocks, i - 1), frags := Push(Unlink(h.frags, p), p))
    else
      h.(frags := Push(h.frags, h.blocks[i].addr))
  }

  /** Carves from the first listed block that fits; NULL if none does. */
  ghost function TakeFit(h: Heap, s: int): (Heap, int) {
    var k := FirstFit(h.blocks, h.frags.list, s);
    if k == |h.frags.list| then (h, 0)
    else (Carve(h, h.frags.list[k], s), h.frags.list[k] + 48)
  }

  /** Whether some listed block holds `s` bytes. */
  predicate ListedFit(h: Heap, s: int) {
    FirstFit(h.blocks, h.frags.list, s) < |h.frags.list|
  }

  /** `kmalloc` of `s` rounded bytes, expanding by `k` pages if nothing listed fits. */
  ghost function Allocate(h: Heap, s: int, k: nat): (Heap, int)
    requires k > 0
  {
    if ListedFit(h, s) then TakeFit(h, s)
    else
      var (g, ok) := Expand(h, k);
      if ok then TakeFit(g, s) else (g, 0)
  }

  /** `kmalloc` of a 64-bit size: the new heap and the payload address, 0 standing for NULL. */
  ghost function Kmalloc(h: Heap, size: nat): (Heap, int) {
    if size == 0 then (h, 0) else Allocate(h, RoundUp(size), PagesNeeded(RoundUp(size)))
  }

  /** `kfree` of NULL or of a pointer to a block in the chain; an already free block is left alone. */
  ghost function Kfree(h: Heap, ptr: int): Heap {
    var i := Find(h.blocks, ptr - 48);
    if ptr == 0 || i == |h.blocks| || h.blocks[i].free then h
    else Backward(Forward(h.(blocks := SetFree(h.blocks, i, true)), i), i)
  }

  /** `kheap_init` over a given frame allocator. */
  ghost function Boot(p: Pmm): Heap {
    Expand(Heap([], Frags([], {}), [], p), PagesFor(16384)).0
  }
}
