/** What the heap invariant says about raw pointers: walks along `next`, `prev` and `next_free`. */
module HeapPointers {
  import opened HeapSpec
  import opened HeapInvariant
  import opened HeapMemory

  /** Follows `next` `k` times; NULL once a pointer cannot be followed. */
  function NextHops(m: Mem, x: int, k: nat): int
    decreases k
  {
    if k == 0 then x else if x in m then NextHops(m, m[x].next, k - 1) else 0
  }

  function PrevHops(m: Mem, x: int, k: nat): int
    decreases k
  {
    if k == 0 then x else if x in m then PrevHops(m, m[x].prev, k - 1) else 0
  }

  function NextFreeHops(m: Mem, x: int, k: nat): int
    decreases k
  {
    if k == 0 then x else if x in m then NextFreeHops(m, m[x].nextFree, k - 1) else 0
  }

  lemma {:induction false} NextFrom(m: Mem, bs: seq<Block>, i: nat, k: nat)
    requires ChainOK(m, bs) && i + k <= |bs| && i < |bs|
    ensures NextHops(m, bs[i].addr, k) == if i + k < |bs| then bs[i + k].addr else 0
    decreases k
  {
    if k > 0 {
      assert Node(m, bs, i);
      if i + 1 < |bs| { NextFrom(m, bs, i + 1, k - 1); }
    }
  }

  lemma {:induction false} PrevFrom(m: Mem, bs: seq<Block>, i: nat, k: nat)
    requires ChainOK(m, bs) && k <= i + 1 && i < |bs|
    ensures PrevHops(m, bs[i].addr, k) == if k <= i then bs[i - k].addr else 0
    decreases k
  {
    if k > 0 {
      assert Node(m, bs, i);
      if i > 0 { PrevFrom(m, bs, i - 1, k - 1); }
    }
  }

  /**
    One acyclic chain: `k` steps along `next` from the first block reach block
    `k`, as many along `prev` from the last reach its mirror image, and both
    walks visit every block once and end in NULL.
   */
  lemma ChainWalks(m: Mem, h: Heap, head: int, k: nat)
    requires SoundMem(m, h, head) && k <= |h.blocks| && h.blocks != []
    ensures NextHops(m, FirstAddr(h.blocks), k) == if k < |h.blocks| then h.blocks[k].addr else 0
    ensures PrevHops(m, LastAddr(h.blocks), k) == if k < |h.blocks| then h.blocks[|h.blocks| - 1 - k].addr else 0
    ensures forall i, j :: 0 <= i < j < |h.blocks| ==> h.blocks[i].addr != h.blocks[j].addr
  {
    NextFrom(m, h.blocks, 0, k);
    PrevFrom(m, h.blocks, |h.blocks| - 1, k);
    forall i, j | 0 <= i < j < |h.blocks| ensures h.blocks[i].addr != h.blocks[j].addr {
      Distinct(h.blocks, i, j);
    }
  }

  /** The fragment of a free block, and its place there. */
  lemma FragmentOf(h: Heap, x: int) returns (f: seq<int>, k: nat)
    requires Inv(h) && FreeAt(h.blocks, x)
    ensures (f == h.frags.list || f in h.frags.orphans) && k < |f| && f[k] == x
  {
    assert In(h.frags, x);
    if x in h.frags.list {
      f := h.frags.list;
    } else {
      f :| f in h.frags.orphans && x in f;
    }
    k := Position(f, x);
  }

  lemma FragmentFree(h: Heap, f: seq<int>, i: nat)
    requires Inv(h) && (f == h.frags.list || f in h.frags.orphans) && i < |f|
    ensures FreeAt(h.blocks, f[i])
  {
    assert f[i] in f && In(h.frags, f[i]);
  }

  /** A link is NULL or leads to a free block of the chain that links back. */
  ghost predicate Mutual(m: Mem, bs: seq<Block>, x: int) {
    && x in m
    && (m[x].nextFree != 0 ==> FreeAt(bs, m[x].nextFree) && m[x].nextFree in m && m[m[x].nextFree].prevFree == x)
    && (m[x].prevFree != 0 ==> FreeAt(bs, m[x].prevFree) && m[x].prevFree in m && m[m[x].prevFree].nextFree == x)
  }

  /** The links of every free block, listed or not, are mutual and lead only to free blocks. */
  lemma FreeLinksMutual(m: Mem, h: Heap, head: int, x: int)
    requires SoundMem(m, h, head) && Inv(h) && FreeAt(h.blocks, x)
    ensures Mutual(m, h.blocks, x)
  {
    var f, k := FragmentOf(h, x);
    assert Link(m, f, k);
    if k + 1 < |f| {
      assert Link(m, f, k + 1);
      FragmentFree(h, f, k + 1);
    }
    if k > 0 {
      assert Link(m, f, k - 1);
      FragmentFree(h, f, k - 1);
    }
  }

  lemma {:induction false} HopsToEnd(m: Mem, f: seq<int>, k: nat)
    requires FragOK(m, f) && k < |f|
    ensures NextFreeHops(m, f[k], |f| - k) == 0
    decreases |f| - k
  {
    assert Link(m, f, k);
    if k + 1 < |f| { HopsToEnd(m, f, k + 1); }
  }

  /** Free links are acyclic: from any free block, `next_free` leads to NULL. */
  lemma FreeWalkEnds(m: Mem, h: Heap, head: int, x: int)
    requires SoundMem(m, h, head) && Inv(h) && FreeAt(h.blocks, x)
    ensures exists n: nat :: NextFreeHops(m, x, n) == 0
  {
    var f, k := FragmentOf(h, x);
    HopsToEnd(m, f, k);
  }

  /** The list head is NULL or a free block without predecessor. */
  lemma HeadIsFront(m: Mem, h: Heap, head: int)
    requires SoundMem(m, h, head) && Inv(h)
    ensures head != 0 ==> FreeAt(h.blocks, head) && head in m && m[head].prevFree == 0
  {
    if h.frags.list != [] {
      assert Link(m, h.frags.list, 0);
      FragmentFree(h, h.frags.list, 0);
    }
  }
}
