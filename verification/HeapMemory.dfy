/**
  Block headers in memory, keyed by address, and how the pointer writes of
  `src/memory/kheap.c` change what they represent.
 */
module HeapMemory {
  import opened HeapSpec
  import opened HeapInvariant

  /** `heap_block_t`; address 0 is NULL. */
  datatype Header = Header(size: int, isFree: bool, next: int, prev: int, nextFree: int, prevFree: int)

  type Mem = map<int, Header>

  function NextAddr(bs: seq<Block>, i: nat): int {
    if i + 1 < |bs| then bs[i + 1].addr else 0
  }

  function PrevAddr(bs: seq<Block>, i: nat): int
    requires i <= |bs|
  {
    if i > 0 then bs[i - 1].addr else 0
  }

  function FirstAddr(bs: seq<Block>): int {
    if bs == [] then 0 else bs[0].addr
  }

  function LastAddr(bs: seq<Block>): int {
    PrevAddr(bs, |bs|)
  }

  // ---------- the physical chain ----------

  ghost predicate Node(m: Mem, bs: seq<Block>, i: nat)
    requires i < |bs|
  {
    var b := bs[i];
    && b.addr in m
    && m[b.addr].size == b.size && m[b.addr].isFree == b.free
    && m[b.addr].next == NextAddr(bs, i) && m[b.addr].prev == PrevAddr(bs, i)
  }

  /** `next`/`prev` form one doubly linked chain through exactly these blocks. */
  ghost predicate ChainOK(m: Mem, bs: seq<Block>) {
    forall i :: 0 <= i < |bs| ==> Node(m, bs, i)
  }

  /** The chain fields of the header at `x` are the same in both memories. */
  predicate SameChain(m: Mem, n: Mem, x: int) {
    x in m && x in n && m[x].size == n[x].size && m[x].isFree == n[x].isFree && m[x].next == n[x].next
      && m[x].prev == n[x].prev
  }

  lemma ChainFrame(m: Mem, n: Mem, bs: seq<Block>)
    requires ChainOK(m, bs) && forall i :: 0 <= i < |bs| ==> SameChain(m, n, bs[i].addr)
    ensures ChainOK(n, bs)
  {
    forall i | 0 <= i < |bs| ensures Node(n, bs, i) {
      assert Node(m, bs, i);
    }
  }

  /** Writing one flag. */
  lemma FlagChain(m: Mem, n: Mem, bs: seq<Block>, i: nat, v: bool)
    requires ChainOK(m, bs) && Ordered(bs) && i < |bs| && bs[i].addr in n
    requires n[bs[i].addr].isFree == v
    requires SameChain(m, n[bs[i].addr := n[bs[i].addr].(isFree := bs[i].free)], bs[i].addr)
    requires forall k :: 0 <= k < |bs| && k != i ==> SameChain(m, n, bs[k].addr)
    ensures ChainOK(n, SetFree(bs, i, v))
  {
    var r := SetFree(bs, i, v);
    forall k | 0 <= k < |r| ensures Node(n, r, k) {
      assert Node(m, bs, k);
      assert NextAddr(r, k) == NextAddr(bs, k) && PrevAddr(r, k) == PrevAddr(bs, k);
    }
  }

  /** Block `i` has taken over its successor's bytes and links. */
  ghost predicate Absorbed(m: Mem, n: Mem, bs: seq<Block>, i: nat)
    requires i + 1 < |bs|
  {
    var a, z := bs[i].addr, NextAddr(bs, i + 1);
    && a in m && a in n && n[a].size == m[a].size + 48 + bs[i + 1].size && n[a].isFree == m[a].isFree
    && n[a].next == z && n[a].prev == m[a].prev
    && (z != 0 ==> z in m && z in n && n[z].prev == a && n[z].size == m[z].size
                   && n[z].isFree == m[z].isFree && n[z].next == m[z].next)
    && (forall k :: 0 <= k < |bs| && k != i && k != i + 1 && bs[k].addr != z ==> SameChain(m, n, bs[k].addr))
  }

  lemma MergeChain(m: Mem, n: Mem, bs: seq<Block>, i: nat)
    requires ChainOK(m, bs) && Ordered(bs) && i + 1 < |bs| && Absorbed(m, n, bs, i)
    ensures ChainOK(n, Merge(bs, i))
  {
    var r := Merge(bs, i);
    forall k | 0 <= k < |r| ensures Node(n, r, k) {
      MergeNode(m, n, bs, i, k);
    }
  }

  lemma MergeNode(m: Mem, n: Mem, bs: seq<Block>, i: nat, k: nat)
    requires ChainOK(m, bs) && Ordered(bs) && i + 1 < |bs| && k < |bs| - 1 && Absorbed(m, n, bs, i)
    ensures Node(n, Merge(bs, i), k)
  {
    var r := Merge(bs, i);
    var j := if k <= i then k else k + 1;
    assert Node(m, bs, j);
    MergeNeighbours(bs, i, k);
    FindUnique(bs, j);
    if i + 2 < |bs| { FindUnique(bs, i + 2); }
  }

  lemma MergeNeighbours(bs: seq<Block>, i: nat, k: nat)
    requires i + 1 < |bs| && k < |bs| - 1
    ensures var r, j := Merge(bs, i), if k <= i then k else k + 1;
      && r[k].addr == bs[j].addr && r[k].free == bs[j].free && (k != i ==> r[k].size == bs[j].size)
      && NextAddr(r, k) == (if k == i then NextAddr(bs, i + 1) else NextAddr(bs, j))
      && PrevAddr(r, k) == (if k == i + 1 then bs[i].addr else PrevAddr(bs, j))
  {
    var r := Merge(bs, i);
    assert forall p :: 0 <= p < i ==> r[p] == bs[p];
    assert forall p :: i < p < |r| ==> r[p] == bs[p + 1];
  }

  /** Block `i` is cut to `s` bytes and a new header is linked in after it. */
  ghost predicate CutInTwo(m: Mem, n: Mem, bs: seq<Block>, i: nat, s: int)
    requires i < |bs|
  {
    var a, b, z := bs[i].addr, bs[i].addr + 48 + s, NextAddr(bs, i);
    && a in n && n[a].size == s && !n[a].isFree && n[a].next == b && n[a].prev == PrevAddr(bs, i)
    && b in n && n[b].size == bs[i].size - s - 48 && n[b].isFree && n[b].next == z && n[b].prev == a
    && (z != 0 ==> z in m && z in n && n[z].prev == b && n[z].size == m[z].size
                   && n[z].isFree == m[z].isFree && n[z].next == m[z].next)
    && (forall k :: 0 <= k < |bs| && k != i && bs[k].addr != z ==> SameChain(m, n, bs[k].addr))
  }

  lemma SplitChain(m: Mem, n: Mem, bs: seq<Block>, i: nat, s: int)
    requires ChainOK(m, bs) && Ordered(bs) && i < |bs| && 0 <= s && s + 48 <= bs[i].size && CutInTwo(m, n, bs, i, s)
    ensures ChainOK(n, Split(bs, i, s))
  {
    var r := Split(bs, i, s);
    forall k | 0 <= k < |r| ensures Node(n, r, k) {
      if k != i && k != i + 1 {
        var j := if k < i then k else k - 1;
        assert Node(m, bs, j);
        FindUnique(bs, j);
        if i + 1 < |bs| { FindUnique(bs, i + 1); }
      }
      SplitNeighbours(bs, i, s, k);
    }
  }

  lemma SplitNeighbours(bs: seq<Block>, i: nat, s: int, k: nat)
    requires i < |bs| && k < |bs| + 1
    ensures var r, j := Split(bs, i, s), if k <= i then k else k - 1;
      && (k < i || k > i + 1 ==> r[k] == bs[j])
      && NextAddr(r, k) == (if k == i then bs[i].addr + 48 + s else NextAddr(bs, j))
      && PrevAddr(r, k)
           == (if k == i + 1 then bs[i].addr else if k == i + 2 then bs[i].addr + 48 + s else PrevAddr(bs, j))
  {
    var r := Split(bs, i, s);
    assert forall p :: 0 <= p < i ==> r[p] == bs[p];
    assert forall p :: i + 1 < p < |r| ==> r[p] == bs[p - 1];
  }

  /** A new last block. */
  lemma AppendChain(m: Mem, n: Mem, bs: seq<Block>, b: Block)
    requires ChainOK(m, bs) && Ordered(bs) && b.addr in n
    requires n[b.addr].size == b.size && n[b.addr].isFree == b.free && n[b.addr].next == 0
    requires n[b.addr].prev == LastAddr(bs)
    requires bs != [] ==>
      var l := LastAddr(bs);
      l in m && l in n && SameChain(m, n[l := n[l].(next := 0)], l) && n[l].next == b.addr
    requires forall k :: 0 <= k < |bs| - 1 ==> SameChain(m, n, bs[k].addr)
    ensures ChainOK(n, bs + [b])
  {
    var r := bs + [b];
    forall k | 0 <= k < |r| ensures Node(n, r, k) {
      if k < |bs| {
        assert Node(m, bs, k);
        assert r[k] == bs[k];
      }
    }
  }

  // ---------- the free fragments ----------

  ghost predicate Link(m: Mem, f: seq<int>, i: nat)
    requires i < |f|
  {
    && f[i] in m
    && m[f[i]].nextFree == (if i + 1 < |f| then f[i + 1] else 0)
    && m[f[i]].prevFree == (if i > 0 then f[i - 1] else 0)
  }

  ghost predicate FragOK(m: Mem, f: seq<int>) {
    forall i :: 0 <= i < |f| ==> Link(m, f, i)
  }

  /** `next_free`/`prev_free` link each fragment both ways, and the head is the front of the list. */
  ghost predicate LinksOK(m: Mem, g: Frags, head: int) {
    && FragOK(m, g.list)
    && (forall f :: f in g.orphans ==> FragOK(m, f))
    && head == (if g.list == [] then 0 else g.list[0])
  }

  predicate SameLinks(m: Mem, n: Mem, x: int) {
    x in m && x in n && m[x].nextFree == n[x].nextFree && m[x].prevFree == n[x].prevFree
  }

  ghost predicate NonNull(g: Frags) {
    forall x :: In(g, x) ==> x != 0
  }

  lemma FragFrame(m: Mem, n: Mem, f: seq<int>)
    requires FragOK(m, f) && forall i :: 0 <= i < |f| ==> SameLinks(m, n, f[i])
    ensures FragOK(n, f)
  {
    forall i | 0 <= i < |f| ensures Link(n, f, i) {
      assert Link(m, f, i);
    }
  }

  lemma LinksFrame(m: Mem, n: Mem, g: Frags, head: int)
    requires LinksOK(m, g, head) && forall x :: In(g, x) ==> SameLinks(m, n, x)
    ensures LinksOK(n, g, head)
  {
    FragFrame(m, n, g.list);
    forall f | f in g.orphans ensures FragOK(n, f) {
      forall i | 0 <= i < |f| ensures SameLinks(m, n, f[i]) {
        assert f[i] in f && In(g, f[i]);
      }
      FragFrame(m, n, f);
    }
  }

  /** What `add_to_free_list` writes makes `b` the new front of the list. */
  lemma PushLinks(m: Mem, n: Mem, g: Frags, head: int, b: int)
    requires LinksOK(m, g, head) && FragsOK(g) && !In(g, b) && NonNull(g)
    requires b in n && n[b].nextFree == head && n[b].prevFree == 0
    requires head != 0 ==> head in m && head in n && n[head].prevFree == b && n[head].nextFree == m[head].nextFree
    requires forall x :: In(g, x) && x != head ==> SameLinks(m, n, x)
    ensures LinksOK(n, Push(g, b), b)
  {
    var r := [b] + g.list;
    forall i | 0 <= i < |r| ensures Link(n, r, i) {
      if i > 0 {
        assert Link(m, g.list, i - 1) && In(g, g.list[i - 1]);
        assert i > 1 ==> g.list[i - 1] != g.list[0];
      }
    }
    forall f | f in g.orphans ensures FragOK(n, f) {
      forall i | 0 <= i < |f| ensures SameLinks(m, n, f[i]) {
        assert f[i] in f && In(g, f[i]);
      }
      FragFrame(m, n, f);
    }
  }

  /** What `remove_from_free_list(x)` writes, as far as links go. */
  ghost predicate Bypassed(m: Mem, n: Mem, x: int) {
    && x in m
    && var p, q := m[x].prevFree, m[x].nextFree;
    && (p != 0 ==> p in m && p in n && n[p].nextFree == q && n[p].prevFree == m[p].prevFree)
    && (q != 0 ==> q in m && q in n && n[q].prevFree == p && n[q].nextFree == m[q].nextFree)
    && (forall y :: y in m && y != x && y != p && y != q ==> SameLinks(m, n, y))
  }

  lemma FragUnlink(m: Mem, n: Mem, f: seq<int>, k: nat)
    requires FragOK(m, f) && NoDup(f) && k < |f| && (forall i :: 0 <= i < |f| ==> f[i] != 0) && Bypassed(m, n, f[k])
    ensures FragOK(n, RemoveAt(f, k))
  {
    var r := RemoveAt(f, k);
    assert Link(m, f, k);
    forall i | 0 <= i < |r| ensures Link(n, r, i) {
      var j := if i < k then i else i + 1;
      assert Link(m, f, j) && r[i] == f[j];
      if i + 1 < |r| { assert r[i + 1] == f[if i + 1 < k then i + 1 else i + 2]; }
      if i > 0 { assert r[i - 1] == f[if i - 1 < k then i - 1 else i]; }
    }
  }

  /** Fragments without `x` keep their links. */
  lemma OtherFrag(m: Mem, n: Mem, f: seq<int>, e: seq<int>, k: nat)
    requires FragOK(m, f) && FragOK(m, e) && k < |f| && Apart(e, f) && Bypassed(m, n, f[k])
    requires forall i :: 0 <= i < |e| ==> e[i] != 0
    ensures FragOK(n, e)
  {
    assert Link(m, f, k);
    forall i | 0 <= i < |e| ensures SameLinks(m, n, e[i]) {
      assert Link(m, e, i) && e[i] in e;
    }
    FragFrame(m, n, e);
  }

  /** The bypass represents `Unlink`, with the head moved when `x` had no predecessor. */
  lemma UnlinkLinks(m: Mem, n: Mem, g: Frags, head: int, x: int)
    requires LinksOK(m, g, head) && FragsOK(g) && NonNull(g) && In(g, x) && Bypassed(m, n, x)
    ensures LinksOK(n, Unlink(g, x), if m[x].prevFree == 0 then m[x].nextFree else head)
  {
    if x in g.list {
      UnlinkListed(m, n, g, head, x);
    } else {
      var f :| f in g.orphans && x in f && Unlink(g, x) == UnlinkOrphan(g, f, x);
      UnlinkUnlisted(m, n, g, head, f, x);
    }
  }

  lemma NonNullMembers(g: Frags, f: seq<int>)
    requires NonNull(g) && (f == g.list || f in g.orphans)
    ensures forall i :: 0 <= i < |f| ==> f[i] != 0
  {
    forall i | 0 <= i < |f| ensures f[i] != 0 {
      assert f[i] in f && In(g, f[i]);
    }
  }

  lemma UnlinkListed(m: Mem, n: Mem, g: Frags, head: int, x: int)
    requires LinksOK(m, g, head) && FragsOK(g) && NonNull(g) && x in g.list && Bypassed(m, n, x)
    ensures LinksOK(n, Frags(RemoveAt(g.list, Position(g.list, x)), g.orphans),
                    if m[x].prevFree == 0 then m[x].nextFree else head)
  {
    var k := Position(g.list, x);
    NonNullMembers(g, g.list);
    assert Link(m, g.list, k);
    FragUnlink(m, n, g.list, k);
    forall e | e in g.orphans ensures FragOK(n, e) {
      NonNullMembers(g, e);
      OtherFrag(m, n, g.list, e, k);
    }
  }

  lemma UnlinkUnlisted(m: Mem, n: Mem, g: Frags, head: int, f: seq<int>, x: int)
    requires LinksOK(m, g, head) && FragsOK(g) && NonNull(g) && f in g.orphans && x in f && Bypassed(m, n, x)
    ensures LinksOK(n, UnlinkOrphan(g, f, x), if m[x].prevFree == 0 then m[x].nextFree else head)
  {
    var k := Position(f, x);
    NonNullMembers(g, f);
    assert Link(m, f, k);
    FragUnlink(m, n, f, k);
    NonNullMembers(g, g.list);
    OtherFrag(m, n, f, g.list, k);
    forall e | e in g.orphans && e != f ensures FragOK(n, e) {
      NonNullMembers(g, e);
      OtherFrag(m, n, f, e, k);
    }
    if f[0] == x {
      assert f[1..] == RemoveAt(f, 0);
    }
  }

  // ---------- the two list operations ----------

  /** Memory after `add_to_free_list(block)`, given the list head. */
  function PushMem(m: Mem, block: int, head: int): Mem
    requires block in m && (head != 0 ==> head in m)
  {
    var p := m[block := m[block].(isFree := true, nextFree := head, prevFree := 0)];
    if head == 0 then p else p[head := p[head].(prevFree := block)]
  }

  /** Memory after `remove_from_free_list(block)`. */
  function UnlinkMem(m: Mem, block: int): Mem
    requires Linked(m, block)
  {
    var p, q := m[block].prevFree, m[block].nextFree;
    var m1 := if p == 0 then m else m[p := m[p].(nextFree := q)];
    var m2 := if q == 0 then m1 else m1[q := m1[q].(prevFree := p)];
    m2[block := m2[block].(isFree := false, nextFree := 0, prevFree := 0)]
  }

  /** The block's two links can be followed and lead to different blocks, neither of them itself. */
  predicate Linked(m: Mem, x: int) {
    && x in m
    && var p, q := m[x].prevFree, m[x].nextFree;
    && p != x && q != x && (p != 0 ==> p in m) && (q != 0 ==> q in m) && (p == q ==> p == 0)
  }

  /** Only the free flag of `x` differs, as far as chain fields go. */
  ghost predicate OnlyFlag(m: Mem, n: Mem, x: int, v: bool) {
    && (forall y :: y in m && y != x ==> SameChain(m, n, y))
    && x in m && x in n && n[x].isFree == v && n[x].size == m[x].size
    && n[x].next == m[x].next && n[x].prev == m[x].prev
  }

  lemma FlagOneChain(m: Mem, n: Mem, bs: seq<Block>, x: int, v: bool)
    requires ChainOK(m, bs) && Ordered(bs) && Find(bs, x) < |bs| && OnlyFlag(m, n, x, v)
    ensures ChainOK(n, SetFree(bs, Find(bs, x), v))
  {
    var i := Find(bs, x);
    assert Node(m, bs, i);
    forall k | 0 <= k < |bs| && k != i ensures SameChain(m, n, bs[k].addr) {
      assert Node(m, bs, k);
      FindUnique(bs, k);
    }
    FlagChain(m, n, bs, i, v);
  }

  lemma PushMemLinks(m: Mem, g: Frags, block: int, head: int)
    requires LinksOK(m, g, head) && FragsOK(g) && NonNull(g) && !In(g, block) && block in m && (head != 0 ==> head in m)
    ensures OnlyFlag(m, PushMem(m, block, head), block, true)
    ensures LinksOK(PushMem(m, block, head), Push(g, block), block)
  {
    forall x | In(g, x) ensures x in m {
      FragMember(m, g, head, x);
    }
    PushLinks(m, PushMem(m, block, head), g, head, block);
  }

  lemma UnlinkMemLinks(m: Mem, g: Frags, block: int, head: int)
    requires LinksOK(m, g, head) && FragsOK(g) && NonNull(g) && In(g, block) && Linked(m, block)
    ensures OnlyFlag(m, UnlinkMem(m, block), block, false)
    ensures LinksOK(UnlinkMem(m, block), Unlink(g, block), if m[block].prevFree == 0 then m[block].nextFree else head)
  {
    assert Bypassed(m, UnlinkMem(m, block), block);
    UnlinkLinks(m, UnlinkMem(m, block), g, head, block);
  }

  /** Memory represents the chain and the fragments, which are well formed. */
  ghost predicate SoundMem(m: Mem, h: Heap, head: int) {
    ChainOK(m, h.blocks) && LinksOK(m, h.frags, head) && Ordered(h.blocks) && FragsOK(h.frags) && NonNull(h.frags)
  }

  function Pushed(h: Heap, block: int): Heap
    requires Find(h.blocks, block) < |h.blocks|
  {
    h.(blocks := SetFree(h.blocks, Find(h.blocks, block), true), frags := Push(h.frags, block))
  }

  ghost function Unlinked(h: Heap, block: int): Heap
    requires Find(h.blocks, block) < |h.blocks|
  {
    h.(blocks := SetFree(h.blocks, Find(h.blocks, block), false), frags := Unlink(h.frags, block))
  }

  /** The writes of `add_to_free_list` represent flagging and listing the block. */
  lemma PushSound(m: Mem, h: Heap, block: int, head: int)
    requires SoundMem(m, h, head) && !In(h.frags, block) && Find(h.blocks, block) < |h.blocks|
    ensures block in m && block > 0 && (head != 0 ==> head in m && head != block)
    ensures SoundMem(PushMem(m, block, head), Pushed(h, block), block)
  {
    assert Node(m, h.blocks, Find(h.blocks, block));
    if head != 0 { assert Link(m, h.frags.list, 0); }
    PushMemLinks(m, h.frags, block, head);
    FlagOneChain(m, PushMem(m, block, head), h.blocks, block, true);
    SetFreeOrdered(h.blocks, Find(h.blocks, block), true);
    PushOK(h.frags, block);
  }

  /** The writes of `remove_from_free_list` represent clearing the flag and unlinking the block. */
  lemma UnlinkSound(m: Mem, h: Heap, block: int, head: int)
    requires SoundMem(m, h, head) && In(h.frags, block) && Find(h.blocks, block) < |h.blocks|
    ensures Linked(m, block)
    ensures SoundMem(UnlinkMem(m, block), Unlinked(h, block),
                     if m[block].prevFree == 0 then m[block].nextFree else head)
  {
    FragNeighbours(m, h.frags, head, block);
    UnlinkMemLinks(m, h.frags, block, head);
    FlagOneChain(m, UnlinkMem(m, block), h.blocks, block, false);
    SetFreeOrdered(h.blocks, Find(h.blocks, block), false);
    UnlinkOK(h.frags, block);
  }

  lemma FragMember(m: Mem, g: Frags, head: int, x: int)
    requires LinksOK(m, g, head) && In(g, x)
    ensures x in m
  {
    if x in g.list {
      assert Link(m, g.list, Position(g.list, x));
    } else {
      var f :| f in g.orphans && x in f;
      assert Link(m, f, Position(f, x));
    }
  }

  /** The links of a listed block lead to other blocks of its fragment, or nowhere. */
  lemma FragNeighbours(m: Mem, g: Frags, head: int, x: int)
    requires LinksOK(m, g, head) && FragsOK(g) && NonNull(g) && In(g, x)
    ensures Linked(m, x)
  {
    if x in g.list {
      NeighboursIn(m, g.list, Position(g.list, x));
    } else {
      var f :| f in g.orphans && x in f;
      NeighboursIn(m, f, Position(f, x));
    }
  }

  lemma NeighboursIn(m: Mem, f: seq<int>, k: nat)
    requires FragOK(m, f) && NoDup(f) && k < |f|
    ensures f[k] in m
    ensures var p, q := m[f[k]].prevFree, m[f[k]].nextFree;
      && (p != 0 ==> p != f[k] && p in m) && (q != 0 ==> q != f[k] && q in m) && (p == q ==> p == 0)
  {
    assert Link(m, f, k);
    if k > 0 { assert Link(m, f, k - 1); }
    if k + 1 < |f| { assert Link(m, f, k + 1); }
  }

  // ---------- merging, splitting and growing in memory ----------

  const ZERO_HEADER := Header(0, false, 0, 0, 0, 0)

  /** Memory after block `a` absorbs its successor `b`; coalescing also zeroes the dead header. */
  function AbsorbMem(m: Mem, a: int, b: int, wipe: bool): Mem
    requires a in m && b in m && (m[b].next != 0 ==> m[b].next in m)
  {
    var z := m[b].next;
    var m1 := m[a := m[a].(size := m[a].size + m[b].size + 48, next := z)];
    var m2 := if z == 0 then m1 else m1[z := m1[z].(prev := a)];
    if wipe then m2[b := ZERO_HEADER] else m2
  }

  lemma AbsorbSound(m: Mem, h: Heap, i: nat, head: int, wipe: bool)
    requires SoundMem(m, h, head) && i + 1 < |h.blocks| && !In(h.frags, h.blocks[i + 1].addr)
    ensures var a, b := h.blocks[i].addr, h.blocks[i + 1].addr;
      && a in m && b in m && a != b && m[b].next == NextAddr(h.blocks, i + 1)
      && (m[b].next != 0 ==> m[b].next in m && m[b].next != a && m[b].next != b)
      && SoundMem(AbsorbMem(m, a, b, wipe), h.(blocks := Merge(h.blocks, i)), head)
  {
    var a, b := h.blocks[i].addr, h.blocks[i + 1].addr;
    AbsorbWrites(m, h.blocks, i, wipe);
    var n := AbsorbMem(m, a, b, wipe);
    MergeChain(m, n, h.blocks, i);
    MergeOrdered(h.blocks, i, 0, Highest(h.blocks));
    forall x | In(h.frags, x) ensures SameLinks(m, n, x) {
      FragMember(m, h.frags, head, x);
    }
    LinksFrame(m, n, h.frags, head);
  }

  function Highest(bs: seq<Block>): (r: int)
    ensures forall i :: 0 <= i < |bs| ==> End(bs[i]) <= r
  {
    if bs == [] then 0
    else
      var t := Highest(bs[..|bs| - 1]);
      if End(bs[|bs| - 1]) > t then End(bs[|bs| - 1]) else t
  }

  lemma AbsorbWrites(m: Mem, bs: seq<Block>, i: nat, wipe: bool)
    requires ChainOK(m, bs) && Ordered(bs) && i + 1 < |bs|
    ensures var a, b := bs[i].addr, bs[i + 1].addr;
      && a in m && b in m && a != b && m[b].next == NextAddr(bs, i + 1)
      && (m[b].next != 0 ==> m[b].next in m && m[b].next != a && m[b].next != b)
      && Absorbed(m, AbsorbMem(m, a, b, wipe), bs, i)
  {
    SuccessorNodes(m, bs, i);
    var n := AbsorbMem(m, bs[i].addr, bs[i + 1].addr, wipe);
    AbsorbEffect(m, bs[i].addr, bs[i + 1].addr, wipe, n);
    forall k | 0 <= k < |bs| && k != i && k != i + 1 && bs[k].addr != NextAddr(bs, i + 1)
      ensures SameChain(m, n, bs[k].addr)
    {
      assert Node(m, bs, k);
      Distinct(bs, k, i);
      Distinct(bs, k, i + 1);
    }
  }

  lemma Distinct(bs: seq<Block>, j: nat, k: nat)
    requires Ordered(bs) && j < |bs| && k < |bs| && j != k
    ensures bs[j].addr != bs[k].addr
  {
    if j < k { assert End(bs[j]) <= bs[k].addr; } else { assert End(bs[k]) <= bs[j].addr; }
  }

  lemma AbsorbEffect(m: Mem, a: int, b: int, wipe: bool, n: Mem)
    requires a in m && b in m && a != b && (m[b].next != 0 ==> m[b].next in m && m[b].next != a && m[b].next != b)
    requires n == AbsorbMem(m, a, b, wipe)
    ensures a in n && n[a] == m[a].(size := m[a].size + m[b].size + 48, next := m[b].next)
    ensures m[b].next != 0 ==> m[b].next in n && n[m[b].next] == m[m[b].next].(prev := a)
    ensures forall y :: y in m && y != a && y != b && y != m[b].next ==> y in n && n[y] == m[y]
  {
  }

  /** Blocks `i`, `i + 1` and the one after them, if any, have distinct headers in memory. */
  lemma SuccessorNodes(m: Mem, bs: seq<Block>, i: nat)
    requires ChainOK(m, bs) && Ordered(bs) && i + 1 < |bs|
    ensures var a, b, z := bs[i].addr, bs[i + 1].addr, NextAddr(bs, i + 1);
      && a in m && b in m && a != b && m[b].next == z && m[b].size == bs[i + 1].size
      && (z != 0 ==> z in m && z != a && z != b)
  {
    assert Node(m, bs, i) && Node(m, bs, i + 1);
    assert End(bs[i]) <= bs[i + 1].addr;
    if i + 2 < |bs| {
      assert Node(m, bs, i + 2);
      assert End(bs[i + 1]) <= bs[i + 2].addr;
    }
  }

  // ---------- coalescing ----------

  /** Block `i` is unlisted and its free neighbours are listed. */
  ghost predicate InHand(h: Heap, i: nat) {
    && i < |h.blocks| && !In(h.frags, h.blocks[i].addr)
    && (i + 1 < |h.blocks| && h.blocks[i + 1].free ==> In(h.frags, h.blocks[i + 1].addr))
    && (i > 0 && h.blocks[i - 1].free ==> In(h.frags, h.blocks[i - 1].addr))
  }

  lemma HandFromInv(h: Heap, i: nat)
    requires i < |h.blocks| && InvHand(h, {h.blocks[i].addr})
    ensures InHand(h, i)
  {
    var a := h.blocks[i].addr;
    if i + 1 < |h.blocks| { FreshAddress(h, i + 1, {a}); Distinct(h.blocks, i, i + 1); }
    if i > 0 { FreshAddress(h, i - 1, {a}); Distinct(h.blocks, i, i - 1); }
  }

  /** The predecessor swallows block `i` and is left allocated and unlisted, for the caller to list. */
  ghost function BackwardUnlisted(h: Heap, i: nat): Heap
    requires i < |h.blocks|
  {
    if i > 0 && h.blocks[i - 1].free then
      h.(blocks := Merge(SetFree(h.blocks, i - 1, false), i - 1), frags := Unlink(h.frags, h.blocks[i - 1].addr))
    else h
  }

  lemma MergeIgnoresFlag(bs: seq<Block>, i: nat, v: bool)
    requires i + 1 < |bs|
    ensures Merge(SetFree(bs, i + 1, v), i) == Merge(bs, i)
    ensures bs[i].free ==> SetFree(Merge(SetFree(bs, i, v), i), i, true) == Merge(bs, i)
  {
    assert SetFree(bs, i + 1, v)[..i] == bs[..i] && SetFree(bs, i + 1, v)[i + 2..] == bs[i + 2..];
    assert SetFree(bs, i, v)[..i] == bs[..i] && SetFree(bs, i, v)[i + 2..] == bs[i + 2..];
  }

  /** Listing what coalescing returns completes `Backward`. */
  lemma ListingCompletes(h: Heap, i: nat)
    requires i < |h.blocks| && h.blocks[i].free && Ordered(h.blocks)
    ensures var c, j := BackwardUnlisted(h, i), if i > 0 && h.blocks[i - 1].free then i - 1 else i;
      && Find(c.blocks, h.blocks[j].addr) == j < |c.blocks|
      && Pushed(c, h.blocks[j].addr) == Backward(h, i)
  {
    if i > 0 && h.blocks[i - 1].free {
      SetFreeOrdered(h.blocks, i - 1, false);
      MergeIgnoresFlag(h.blocks, i - 1, false);
      MergeOrdered(SetFree(h.blocks, i - 1, false), i - 1, 0, Highest(h.blocks));
      FindUnique(Merge(SetFree(h.blocks, i - 1, false), i - 1), i - 1);
    } else {
      FindUnique(h.blocks, i);
      assert SetFree(h.blocks, i, true) == h.blocks;
    }
  }

  // ---------- new pages ----------

  /** Memory after a zeroed frame `a` becomes the last block of the chain. */
  function PageMem(m: Mem, last: int, a: int): Mem
    requires last != 0 ==> last in m
  {
    var n := m[a := Header(4048, true, 0, last, 0, 0)];
    if last == 0 then n else n[last := n[last].(next := a)]
  }

  lemma PageSound(m: Mem, h: Heap, head: int, a: int)
    requires SoundMem(m, h, head) && a > 0 && a % 8 == 0
    requires (forall i :: 0 <= i < |h.blocks| ==> End(h.blocks[i]) <= a) && !In(h.frags, a)
    ensures var last := LastAddr(h.blocks); (h.blocks != [] <==> last != 0) && (last != 0 ==> last in m && last != a)
    ensures var g := h.(blocks := h.blocks + [Block(a, 4048, true)], frags := AddOrphan(h.frags, a));
      SoundMem(PageMem(m, LastAddr(h.blocks), a), g, head)
  {
    var bs, last := h.blocks, LastAddr(h.blocks);
    if bs != [] {
      assert Node(m, bs, |bs| - 1);
      assert BlockOK(bs[|bs| - 1]);
    }
    var n := PageMem(m, last, a);
    forall k | 0 <= k < |bs| - 1 ensures SameChain(m, n, bs[k].addr) {
      assert Node(m, bs, k);
      Distinct(bs, k, |bs| - 1);
    }
    AppendChain(m, n, bs, Block(a, 4048, true));
    PageLinks(m, n, h.frags, head, a, last);
    AddOrphanOK(h.frags, a);
  }

  lemma PageLinks(m: Mem, n: Mem, g: Frags, head: int, a: int, last: int)
    requires LinksOK(m, g, head) && !In(g, a) && (last != 0 ==> last in m && last != a) && n == PageMem(m, last, a)
    ensures LinksOK(n, AddOrphan(g, a), head)
  {
    forall x | In(g, x) ensures SameLinks(m, n, x) {
      FragMember(m, g, head, x);
    }
    LinksFrame(m, n, g, head);
    assert Link(n, [a], 0);
  }

  /** Taking a singleton orphan in hand changes no memory. */
  lemma DropSound(m: Mem, h: Heap, head: int, a: int)
    requires SoundMem(m, h, head) && [a] in h.frags.orphans
    ensures SoundMem(m, h.(frags := DropOrphan(h.frags, a)), head)
  {
    DropOrphanOK(h.frags, a);
  }

  // ---------- splitting ----------

  /** Memory after `kmalloc` splits block `a`; the new header keeps whatever links memory held. */
  function SplitMem(m: Mem, a: int, s: int, p: int, q: int): Mem
    requires a in m && (m[a].next != 0 ==> m[a].next in m)
  {
    var b, z := a + 48 + s, m[a].next;
    var m1 := m[b := Header(m[a].size - s - 48, true, z, a, p, q)];
    var m2 := if z == 0 then m1 else m1[z := m1[z].(prev := b)];
    m2[a := m2[a].(size := s, next := b)]
  }

  lemma SplitSound(m: Mem, h: Heap, head: int, i: nat, s: int, p: int, q: int)
    requires SoundMem(m, h, head) && i < |h.blocks| && !h.blocks[i].free && 0 <= s && s % 8 == 0
    requires s + 96 <= h.blocks[i].size
    requires !In(h.frags, h.blocks[i].addr + 48 + s)
    ensures var a := h.blocks[i].addr;
      && a in m && m[a].size == h.blocks[i].size && m[a].next == NextAddr(h.blocks, i)
      && (m[a].next != 0 ==> m[a].next in m && m[a].next > a + 48 + s)
      && SoundMem(SplitMem(m, a, s, p, q), h.(blocks := Split(h.blocks, i, s)), head)
  {
    var bs, a := h.blocks, h.blocks[i].addr;
    SplitNodes(m, bs, i, s);
    var n := SplitMem(m, a, s, p, q);
    SplitEffect(m, a, s, p, q, n);
    forall k | 0 <= k < |bs| && k != i && bs[k].addr != NextAddr(bs, i) ensures SameChain(m, n, bs[k].addr) {
      assert Node(m, bs, k);
      Distinct(bs, k, i);
      NotInside(bs, i, k, s);
    }
    SplitChain(m, n, bs, i, s);
    SplitOrdered(bs, i, s, 0, Highest(bs));
    forall x | In(h.frags, x) ensures SameLinks(m, n, x) {
      FragMember(m, h.frags, head, x);
    }
    LinksFrame(m, n, h.frags, head);
  }

  lemma NotInside(bs: seq<Block>, i: nat, k: nat, s: int)
    requires Ordered(bs) && i < |bs| && k < |bs| && 0 <= s && s + 96 <= bs[i].size
    ensures bs[k].addr != bs[i].addr + 48 + s
  {
    if k < i { assert End(bs[k]) <= bs[i].addr; } else if k > i { assert End(bs[i]) <= bs[k].addr; }
  }

  lemma SplitNodes(m: Mem, bs: seq<Block>, i: nat, s: int)
    requires ChainOK(m, bs) && Ordered(bs) && i < |bs| && 0 <= s && s + 96 <= bs[i].size
    ensures var a, z := bs[i].addr, NextAddr(bs, i);
      && a in m && m[a].size == bs[i].size && m[a].isFree == bs[i].free
      && m[a].next == z && m[a].prev == PrevAddr(bs, i)
      && (z != 0 ==> z in m && z > a + 48 + s)
  {
    assert Node(m, bs, i);
    if i + 1 < |bs| {
      assert Node(m, bs, i + 1);
      assert End(bs[i]) <= bs[i + 1].addr;
    }
  }

  lemma SplitEffect(m: Mem, a: int, s: int, p: int, q: int, n: Mem)
    requires a in m && 0 <= s && (m[a].next != 0 ==> m[a].next in m && m[a].next > a + 48 + s)
    requires n == SplitMem(m, a, s, p, q)
    ensures var b, z := a + 48 + s, m[a].next;
      && a in n && n[a] == m[a].(size := s, next := b)
      && b in n && n[b] == Header(m[a].size - s - 48, true, z, a, p, q)
      && (z != 0 ==> z in n && n[z] == m[z].(prev := b))
      && (forall y :: y in m && y != a && y != b && y != z ==> y in n && n[y] == m[y])
  {
  }

  // ---------- payload bytes ----------

  /** Memory after bytes [lo, hi) are overwritten: headers they touch are headers no longer. */
  function Scrub(m: Mem, lo: int, hi: int): Mem {
    map a | a in m && (a + 48 <= lo || hi <= a) :: m[a]
  }

  /** Overwriting one block's payload touches no header of the chain. */
  lemma ScrubSound(m: Mem, h: Heap, head: int, i: nat)
    requires SoundMem(m, h, head) && i < |h.blocks| && (forall x :: In(h.frags, x) ==> FreeAt(h.blocks, x))
    ensures SoundMem(Scrub(m, h.blocks[i].addr + 48, End(h.blocks[i])), h, head)
  {
    var bs := h.blocks;
    var n := Scrub(m, bs[i].addr + 48, End(bs[i]));
    forall k | 0 <= k < |bs| ensures SameChain(m, n, bs[k].addr) && SameLinks(m, n, bs[k].addr) {
      assert Node(m, bs, k);
      if k < i { assert End(bs[k]) <= bs[i].addr; } else if k > i { assert End(bs[i]) <= bs[k].addr; }
    }
    ChainFrame(m, n, bs);
    forall x | In(h.frags, x) ensures SameLinks(m, n, x) {
      assert FreeAt(bs, x);
    }
    LinksFrame(m, n, h.frags, head);
  }
}
