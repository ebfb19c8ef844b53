/** What each call does to the chain and the list, in closed form. */
module HeapCalls {
  import opened FrameSpec
  import opened HeapSpec
  import opened HeapInvariant
  import opened HeapExact
  import opened HeapListed

  // ---------- calls that change nothing ----------

  /** `kfree` of NULL or of a block that is already free, listed or not, changes nothing. */
  lemma KfreeIgnores(h: Heap, ptr: int)
    requires Ordered(h.blocks)
    requires ptr == 0 || exists i :: 0 <= i < |h.blocks| && h.blocks[i].addr + 48 == ptr && h.blocks[i].free
    ensures Kfree(h, ptr) == h
  {
    if ptr != 0 {
      var i :| 0 <= i < |h.blocks| && h.blocks[i].addr + 48 == ptr && h.blocks[i].free;
      FindUnique(h.blocks, i);
    }
  }

  /** `kmalloc` of 0 gives NULL and changes nothing. */
  lemma KmallocZero(h: Heap)
    ensures Kmalloc(h, 0) == (h, 0)
  {
  }

  /** An expansion that runs out of frames keeps what it found as free pages that no list leads to. */
  lemma FailedExpansion(h: Heap, k: nat)
    requires k > 0 && |Clear(h.pmm)| < k
    ensures var (e, ok) := Expand(h, k); var fs := NextFrames(h.pmm, k);
      && !ok && e.blocks == h.blocks + NewPages(fs) && e.owned == h.owned + fs
      && e.frags == Frags(h.frags.list, h.frags.orphans + Singles(fs))
  {
    GrowSucceedsIff(h, k);
    GrowIs(h, k);
  }

  // ---------- kfree of an allocated block ----------

  /** The first and last block that freeing block `i` joins. */
  function JoinFrom(bs: seq<Block>, i: nat): nat {
    if FreeBefore(bs, i) then i - 1 else i
  }

  function JoinTo(bs: seq<Block>, i: nat): nat {
    if FreeAfter(bs, i) then i + 1 else i
  }

  lemma Joins(bs: seq<Block>, i: nat)
    requires i < |bs|
    ensures JoinFrom(bs, i) <= i <= JoinTo(bs, i) < |bs|
  {
  }

  /** One free block that starts where block `lo` does and takes all the bytes of blocks `lo` to `hi`. */
  function Join(bs: seq<Block>, lo: nat, hi: nat): seq<Block>
    requires lo <= hi < |bs|
  {
    bs[..lo] + [Block(bs[lo].addr, Bytes(bs[lo..hi + 1]) - 48, true)] + bs[hi + 1..]
  }

  lemma BytesOfThree(a: Block, b: Block, c: Block)
    ensures Bytes([a]) == 48 + a.size && Bytes([a, b]) == 96 + a.size + b.size
    ensures Bytes([a, b, c]) == 144 + a.size + b.size + c.size
  {
    BytesPair(a, b);
    BytesPair(b, c);
    assert [a, b, c] == [a] + [b, c];
    BytesConcat([a], [b, c]);
  }

  lemma JoinOne(bs: seq<Block>, i: nat)
    requires i < |bs|
    ensures SetFree(bs, i, true) == Join(bs, i, i)
  {
    assert bs[i..i + 1] == [bs[i]];
    BytesOfThree(bs[i], bs[i], bs[i]);
  }

  lemma JoinNext(bs: seq<Block>, i: nat)
    requires i + 1 < |bs|
    ensures Merge(SetFree(bs, i, true), i) == Join(bs, i, i + 1)
  {
    assert bs[i..i + 2] == [bs[i], bs[i + 1]];
    BytesOfThree(bs[i], bs[i + 1], bs[i]);
    var m := SetFree(bs, i, true);
    assert m[..i] == bs[..i] && m[i + 2..] == bs[i + 2..];
  }

  lemma JoinBack(bs: seq<Block>, i: nat, hi: nat)
    requires 0 < i <= hi < |bs| && bs[i - 1].free
    ensures |Join(bs, i, hi)| > i && Merge(Join(bs, i, hi), i - 1) == Join(bs, i - 1, hi)
  {
    var j := Join(bs, i, hi);
    assert bs[i - 1..hi + 1] == [bs[i - 1]] + bs[i..hi + 1];
    BytesConcat([bs[i - 1]], bs[i..hi + 1]);
    BytesPair(bs[i - 1], bs[i - 1]);
    assert j[i - 1] == bs[i - 1] && j[..i - 1] == bs[..i - 1] && j[i + 1..] == bs[hi + 1..];
  }

  /** The free neighbours on either side are joined to the block, and nothing else in the chain changes. */
  lemma KfreeChain(h: Heap, i: nat)
    requires Ordered(h.blocks) && i < |h.blocks| && !h.blocks[i].free
    ensures Kfree(h, h.blocks[i].addr + 48).blocks == Join(h.blocks, JoinFrom(h.blocks, i), JoinTo(h.blocks, i))
  {
    var bs := h.blocks;
    var f := Forward(h.(blocks := SetFree(bs, i, true)), i);
    KfreeAt(h, i);
    JoinOne(bs, i);
    if i + 1 < |bs| { JoinNext(bs, i); }
    var j := Join(bs, i, JoinTo(bs, i));
    assert f.blocks == j;
    if i > 0 {
      assert j[i - 1] == bs[i - 1];
      if bs[i - 1].free { JoinBack(bs, i, JoinTo(bs, i)); }
    }
  }

  /** The list without the free neighbours of block `i`. */
  function Removed(list: seq<int>, bs: seq<Block>, i: nat): seq<int>
    requires i < |bs|
  {
    var t := if FreeAfter(bs, i) then Without(list, bs[i + 1].addr) else list;
    if FreeBefore(bs, i) then Without(t, bs[i - 1].addr) else t
  }

  /** The joined block heads the list; if its free neighbours were listed, the others follow in their old order. */
  lemma KfreeHeadsList(h: Heap, i: nat)
    requires Inv(h) && i < |h.blocks| && !h.blocks[i].free
    ensures var l := Kfree(h, h.blocks[i].addr + 48).frags.list;
      && l != [] && l[0] == h.blocks[JoinFrom(h.blocks, i)].addr
      && ((FreeAfter(h.blocks, i) ==> h.blocks[i + 1].addr in h.frags.list) &&
          (FreeBefore(h.blocks, i) ==> h.blocks[i - 1].addr in h.frags.list)
          ==> l[1..] == Removed(h.frags.list, h.blocks, i))
  {
    KfreeList(h, i);
    Neighbours(h, i);
    if FreeAfter(h.blocks, i) && FreeBefore(h.blocks, i) && h.blocks[i + 1].addr in h.frags.list {
      RemoveAtMembers(h.frags.list, Position(h.frags.list, h.blocks[i + 1].addr));
    }
  }

  // ---------- kmalloc from the list ----------

  /**
    With a listed block that fits: the first of them in list order is cut to
    the rounded size if 96 bytes or more remain, the remainder heading the
    list, and taken whole otherwise; every other block, listed or not, keeps
    its place.
   */
  lemma KmallocTakesFirstFit(h: Heap, size: nat)
    requires Inv(h) && 0 < size < UINT64_LIMIT && ListedFit(h, RoundUp(size))
    ensures var s, k := RoundUp(size), FirstFit(h.blocks, h.frags.list, RoundUp(size));
      var x := h.frags.list[k]; var i := Find(h.blocks, x);
      && i < |h.blocks| && Kmalloc(h, size).1 == x + 48
      && Kmalloc(h, size).0.owned == h.owned && Kmalloc(h, size).0.pmm == h.pmm
      && Kmalloc(h, size).0.frags.orphans == h.frags.orphans
      && (if h.blocks[i].size - s >= 96 then
            && Kmalloc(h, size).0.frags.list == [x + 48 + s] + h.frags.list[..k] + h.frags.list[k + 1..]
            && Kmalloc(h, size).0.blocks == h.blocks[..i] + [Block(x, s, false)]
                 + [Block(x + 48 + s, h.blocks[i].size - s - 48, true)] + h.blocks[i + 1..]
          else
            && Kmalloc(h, size).0.frags.list == h.frags.list[..k] + h.frags.list[k + 1..]
            && Kmalloc(h, size).0.blocks == h.blocks[..i] + [Block(x, h.blocks[i].size, false)] + h.blocks[i + 1..])
  {
    var s, k := RoundUp(size), FirstFit(h.blocks, h.frags.list, RoundUp(size));
    ListedBlock(h, h.frags.list[k]);
    TakeAt(h, s, k);
  }

  lemma PositionIs(list: seq<int>, k: nat)
    requires NoDup(list) && k < |list|
    ensures Position(list, list[k]) == k
  {
    var p := Position(list, list[k]);
    assert list[p] == list[k];
  }

  lemma TakeAt(h: Heap, s: nat, k: nat)
    requires FragsOK(h.frags) && k == FirstFit(h.blocks, h.frags.list, s) < |h.frags.list|
    requires Find(h.blocks, h.frags.list[k]) < |h.blocks|
    ensures var x := h.frags.list[k]; var i := Find(h.blocks, x); var (g, q) := TakeFit(h, s);
      && q == x + 48 && g.owned == h.owned && g.pmm == h.pmm && g.frags.orphans == h.frags.orphans
      && (if h.blocks[i].size - s >= 96 then
            && g.frags.list == [x + 48 + s] + h.frags.list[..k] + h.frags.list[k + 1..]
            && g.blocks == h.blocks[..i] + [Block(x, s, false)]
                 + [Block(x + 48 + s, h.blocks[i].size - s - 48, true)] + h.blocks[i + 1..]
          else
            && g.frags.list == h.frags.list[..k] + h.frags.list[k + 1..]
            && g.blocks == h.blocks[..i] + [Block(x, h.blocks[i].size, false)] + h.blocks[i + 1..])
  {
    PositionIs(h.frags.list, k);
    CutChain(h.blocks, Find(h.blocks, h.frags.list[k]), s);
  }

  lemma CutChain(bs: seq<Block>, i: nat, s: int)
    requires i < |bs|
    ensures SetFree(bs, i, false) == bs[..i] + [Block(bs[i].addr, bs[i].size, false)] + bs[i + 1..]
    ensures Split(bs, i, s) == bs[..i] + [Block(bs[i].addr, s, false)]
              + [Block(bs[i].addr + 48 + s, bs[i].size - s - 48, true)] + bs[i + 1..]
  {
  }
}
