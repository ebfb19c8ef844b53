/** The heap invariant, and that every step of `kmalloc`, `kfree` and expansion keeps it. */
module HeapInvariant {
  import opened FrameSpec
  import opened HeapSpec

  ghost predicate BlockOK(b: Block) {
    b.addr > 0 && b.addr % 8 == 0 && b.size >= 0 && b.size % 8 == 0
  }

  /** Blocks are aligned and follow each other in memory without overlap. */
  ghost predicate Ordered(bs: seq<Block>) {
    && (forall i :: 0 <= i < |bs| ==> BlockOK(bs[i]))
    && (forall i, j :: 0 <= i < j < |bs| ==> End(bs[i]) <= bs[j].addr)
  }

  /** Bytes taken by a stretch of the chain, headers included. */
  function Bytes(bs: seq<Block>): int {
    if bs == [] then 0 else 48 + bs[0].size + Bytes(bs[1..])
  }

  function Bottom(owned: seq<nat>): int {
    if owned == [] then 0 else FrameAddr(owned[0])
  }

  function Top(owned: seq<nat>): int {
    if owned == [] then 0 else FrameAddr(owned[|owned| - 1]) + 4096
  }

  ghost predicate Within(bs: seq<Block>, lo: int, hi: int) {
    forall i :: 0 <= i < |bs| ==> lo <= bs[i].addr && End(bs[i]) <= hi
  }

  ghost predicate BlocksOK(bs: seq<Block>, owned: seq<nat>) {
    Ordered(bs) && Within(bs, Bottom(owned), Top(owned)) && Bytes(bs) == 4096 * |owned|
  }

  ghost predicate NoDup(s: seq<int>) {
    forall i, j :: 0 <= i < j < |s| ==> s[i] != s[j]
  }

  ghost predicate Apart(s: seq<int>, t: seq<int>) {
    forall x :: x in s ==> x !in t
  }

  /** Fragments are repetition-free, non-empty apart from the list, and pairwise disjoint. */
  ghost predicate FragsOK(g: Frags) {
    && NoDup(g.list)
    && (forall f :: f in g.orphans ==> f != [] && NoDup(f) && Apart(f, g.list))
    && (forall e, f :: e in g.orphans && f in g.orphans && e != f ==> Apart(e, f))
  }

  /** The fragments and the blocks in hand are exactly the free blocks. */
  ghost predicate Cover(bs: seq<Block>, g: Frags, hand: set<int>) {
    forall x :: FreeAt(bs, x) <==> In(g, x) || x in hand
  }

  predicate Ascending(fs: seq<nat>) {
    forall i, j :: 0 <= i < j < |fs| ==> fs[i] < fs[j]
  }

  /** The frames obtained ascend, and every frame still clear lies above them all. */
  ghost predicate FramesOK(owned: seq<nat>, p: Pmm) {
    && (forall i, j :: 0 <= i < j < |owned| ==> owned[i] < owned[j])
    && (forall i :: 0 <= i < |owned| ==> owned[i] < p.frames && owned[i] in p.used)
    && (forall i, c :: 0 <= i < |owned| && c in Clear(p) ==> owned[i] < c)
  }

  /** The whole invariant, with the free blocks of `hand` momentarily in no fragment. */
  ghost predicate InvHand(h: Heap, hand: set<int>) {
    && BlocksOK(h.blocks, h.owned)
    && FragsOK(h.frags)
    && Cover(h.blocks, h.frags, hand)
    && (forall x :: x in hand ==> !In(h.frags, x))
    && FramesOK(h.owned, h.pmm)
  }

  ghost predicate Inv(h: Heap) {
    InvHand(h, {})
  }

  // ---------- fragments ----------

  lemma RemoveAtMembers(s: seq<int>, k: nat)
    requires k < |s| && NoDup(s)
    ensures NoDup(RemoveAt(s, k))
    ensures forall y :: y in RemoveAt(s, k) <==> y in s && y != s[k]
  {
    var r := RemoveAt(s, k);
    forall y | y in s && y != s[k] ensures y in r {
      var i :| 0 <= i < |s| && s[i] == y;
      assert r[if i < k then i else i - 1] == y;
    }
  }

  lemma TailMembers(s: seq<int>)
    requires s != [] && NoDup(s)
    ensures NoDup(s[1..])
    ensures forall y :: y in s[1..] <==> y in s && y != s[0]
  {
    assert RemoveAt(s, 0) == s[1..];
    RemoveAtMembers(s, 0);
  }

  /** Unlinking removes that block from the fragments, nothing else, and keeps them well formed. */
  lemma UnlinkOK(g: Frags, x: int)
    requires FragsOK(g) && In(g, x)
    ensures FragsOK(Unlink(g, x))
    ensures forall y :: In(Unlink(g, x), y) <==> In(g, y) && y != x
  {
    if x in g.list {
      RemoveAtMembers(g.list, Position(g.list, x));
    } else {
      var f :| f in g.orphans && x in f && Unlink(g, x) == UnlinkOrphan(g, f, x);
      UnlinkOrphanOK(g, f, x);
    }
  }

  lemma UnlinkOrphanOK(g: Frags, f: seq<int>, x: int)
    requires FragsOK(g) && f in g.orphans && x in f
    ensures FragsOK(UnlinkOrphan(g, f, x))
    ensures forall y :: In(UnlinkOrphan(g, f, x), y) <==> In(g, y) && y != x
  {
    var r := UnlinkOrphan(g, f, x);
    if f[0] == x { TailMembers(f); } else { RemoveAtMembers(f, Position(f, x)); }
    assert x !in g.list;
    forall y | In(g, y) && y != x ensures In(r, y) {
      if y in f {
        if f[0] != x { assert RemoveAt(f, Position(f, x)) in r.orphans; }
      } else if y in g.list {
        if f[0] == x { assert g.list in r.orphans; }
      } else {
        var e :| e in g.orphans && y in e;
        assert e in r.orphans;
      }
    }
  }

  /** What unlinking a block of orphan `f` leaves on the list. */
  lemma UnlinkListIs(g: Frags, x: int, f: seq<int>)
    requires FragsOK(g) && f in g.orphans && x in f
    ensures Unlink(g, x) == UnlinkOrphan(g, f, x)
    ensures Unlink(g, x).list == if f[0] == x then f[1..] else g.list
  {
    var e :| e in g.orphans && x in e && Unlink(g, x) == UnlinkOrphan(g, e, x);
    assert e == f;
  }

  lemma PushOK(g: Frags, x: int)
    requires FragsOK(g) && !In(g, x)
    ensures FragsOK(Push(g, x))
    ensures forall y :: In(Push(g, x), y) <==> In(g, y) || y == x
  {
  }

  lemma AddOrphanOK(g: Frags, x: int)
    requires FragsOK(g) && !In(g, x)
    ensures FragsOK(AddOrphan(g, x))
    ensures forall y :: In(AddOrphan(g, x), y) <==> In(g, y) || y == x
  {
    assert [x] in AddOrphan(g, x).orphans;
    forall y | In(g, y) ensures In(AddOrphan(g, x), y) {
      if y !in g.list {
        var e :| e in g.orphans && y in e;
        assert e in AddOrphan(g, x).orphans;
      }
    }
  }

  lemma DropOrphanOK(g: Frags, x: int)
    requires FragsOK(g) && [x] in g.orphans
    ensures FragsOK(DropOrphan(g, x))
    ensures forall y :: In(DropOrphan(g, x), y) <==> In(g, y) && y != x
  {
    var r := DropOrphan(g, x);
    assert x in [x];
    forall y | In(g, y) && y != x ensures In(r, y) {
      if y !in g.list {
        var e :| e in g.orphans && y in e;
        assert e in r.orphans;
      }
    }
    assert !In(r, x);
  }

  // ---------- blocks ----------

  lemma {:induction false} BytesConcat(a: seq<Block>, b: seq<Block>)
    ensures Bytes(a + b) == Bytes(a) + Bytes(b)
  {
    if a == [] {
      assert a + b == b;
    } else {
      assert (a + b)[1..] == a[1..] + b;
      BytesConcat(a[1..], b);
    }
  }

  lemma BytesReplace(a: seq<Block>, m: seq<Block>, n: seq<Block>, c: seq<Block>)
    requires Bytes(m) == Bytes(n)
    ensures Bytes(a + m + c) == Bytes(a + n + c)
  {
    BytesConcat(a + m, c);
    BytesConcat(a, m);
    BytesConcat(a + n, c);
    BytesConcat(a, n);
  }

  lemma BytesPair(a: Block, b: Block)
    ensures Bytes([a]) == 48 + a.size && Bytes([a, b]) == 96 + a.size + b.size
  {
    assert [a, b] == [a] + [b];
    BytesConcat([a], [b]);
  }

  lemma FindUnique(bs: seq<Block>, i: nat)
    requires Ordered(bs) && i < |bs|
    ensures Find(bs, bs[i].addr) == i
  {
    forall k | 0 <= k < i ensures bs[k].addr != bs[i].addr {
      assert End(bs[k]) <= bs[i].addr;
    }
  }

  lemma SetFreeOK(bs: seq<Block>, i: nat, v: bool, owned: seq<nat>)
    requires BlocksOK(bs, owned) && i < |bs|
    ensures BlocksOK(SetFree(bs, i, v), owned)
    ensures forall x :: FreeAt(SetFree(bs, i, v), x) <==> (if x == bs[i].addr then v else FreeAt(bs, x))
  {
    SetFreeBytes(bs, i, v);
    SetFreeAt(bs, i, v);
  }

  lemma SetFreeOrdered(bs: seq<Block>, i: nat, v: bool)
    requires Ordered(bs) && i < |bs|
    ensures Ordered(SetFree(bs, i, v)) && forall x :: Find(SetFree(bs, i, v), x) == Find(bs, x)
  {
    forall x ensures Find(SetFree(bs, i, v), x) == Find(bs, x) {
      FindSame(bs, SetFree(bs, i, v), x);
    }
  }

  lemma FindSame(bs: seq<Block>, cs: seq<Block>, x: int)
    requires |bs| == |cs| && forall k :: 0 <= k < |bs| ==> bs[k].addr == cs[k].addr
    ensures Find(bs, x) == Find(cs, x)
  {
    var i, j := Find(bs, x), Find(cs, x);
    assert i < |bs| ==> cs[i].addr == x;
    assert j < |cs| ==> bs[j].addr == x;
  }

  lemma SetFreeBytes(bs: seq<Block>, i: nat, v: bool)
    requires i < |bs|
    ensures Bytes(SetFree(bs, i, v)) == Bytes(bs)
  {
    var r := SetFree(bs, i, v);
    assert r == bs[..i] + [r[i]] + bs[i + 1..] && bs == bs[..i] + [bs[i]] + bs[i + 1..];
    BytesReplace(bs[..i], [bs[i]], [r[i]], bs[i + 1..]);
  }

  lemma SetFreeAt(bs: seq<Block>, i: nat, v: bool)
    requires Ordered(bs) && i < |bs|
    ensures forall x :: FreeAt(SetFree(bs, i, v), x) <==> (if x == bs[i].addr then v else FreeAt(bs, x))
  {
    var r := SetFree(bs, i, v);
    forall x ensures FreeAt(r, x) <==> (if x == bs[i].addr then v else FreeAt(bs, x)) {
      if x == bs[i].addr {
        FindUnique(bs, i);
        if v { assert r[i].addr == x; }
        if FreeAt(r, x) {
          var k :| 0 <= k < |r| && r[k].addr == x && r[k].free;
          FindUnique(bs, k);
        }
      } else {
        if FreeAt(bs, x) {
          var k :| 0 <= k < |bs| && bs[k].addr == x && bs[k].free;
          assert r[k] == bs[k];
        }
        if FreeAt(r, x) {
          var k :| 0 <= k < |r| && r[k].addr == x && r[k].free;
          assert r[k] == bs[k];
        }
      }
    }
  }

  lemma MergeOK(bs: seq<Block>, i: nat, owned: seq<nat>)
    requires BlocksOK(bs, owned) && i + 1 < |bs|
    ensures BlocksOK(Merge(bs, i), owned)
  {
    var r := Merge(bs, i);
    assert bs == bs[..i] + [bs[i], bs[i + 1]] + bs[i + 2..];
    BytesPair(bs[i], bs[i + 1]);
    BytesReplace(bs[..i], [bs[i], bs[i + 1]], [r[i]], bs[i + 2..]);
    MergeOrdered(bs, i, Bottom(owned), Top(owned));
  }

  lemma MergeOrdered(bs: seq<Block>, i: nat, lo: int, hi: int)
    requires Ordered(bs) && Within(bs, lo, hi) && i + 1 < |bs|
    ensures Ordered(Merge(bs, i)) && Within(Merge(bs, i), lo, hi)
  {
    var r := Merge(bs, i);
    forall k | 0 <= k < |r| ensures BlockOK(r[k]) && lo <= r[k].addr && End(r[k]) <= hi {
      MergeElement(bs, i, k);
    }
    forall j, k | 0 <= j < k < |r| ensures End(r[j]) <= r[k].addr {
      MergeElement(bs, i, j);
      MergeElement(bs, i, k);
    }
  }

  /** Block `k` after a merge starts where one old block did and ends no later than another. */
  lemma MergeElement(bs: seq<Block>, i: nat, k: nat)
    requires Ordered(bs) && i + 1 < |bs| && k < |bs| - 1
    ensures Merge(bs, i)[k].addr == bs[if k <= i then k else k + 1].addr
    ensures End(Merge(bs, i)[k]) <= End(bs[if k < i then k else k + 1])
    ensures BlockOK(Merge(bs, i)[k])
    ensures Merge(bs, i)[k].free == bs[if k <= i then k else k + 1].free
    ensures k != i ==> Merge(bs, i)[k] == bs[if k <= i then k else k + 1]
  {
    var r := Merge(bs, i);
    if k < i {
      assert r[k] == bs[k];
    } else if k > i {
      assert r[k] == bs[k + 1];
    } else {
      assert End(bs[i]) <= bs[i + 1].addr;
    }
  }

  lemma MergeFreeAt(bs: seq<Block>, i: nat)
    requires Ordered(bs) && i + 1 < |bs|
    ensures forall x :: FreeAt(Merge(bs, i), x) <==> FreeAt(bs, x) && x != bs[i + 1].addr
  {
    forall x ensures FreeAt(Merge(bs, i), x) <==> FreeAt(bs, x) && x != bs[i + 1].addr {
      MergeKeepsFree(bs, i, x);
      MergeAddsNoFree(bs, i, x);
    }
  }

  lemma MergeKeepsFree(bs: seq<Block>, i: nat, x: int)
    requires Ordered(bs) && i + 1 < |bs|
    ensures FreeAt(bs, x) && x != bs[i + 1].addr ==> FreeAt(Merge(bs, i), x)
  {
    if FreeAt(bs, x) && x != bs[i + 1].addr {
      var k :| 0 <= k < |bs| && bs[k].addr == x && bs[k].free;
      var j := if k <= i then k else k - 1;
      MergeElement(bs, i, j);
      assert Merge(bs, i)[j].addr == x;
    }
  }

  lemma MergeAddsNoFree(bs: seq<Block>, i: nat, x: int)
    requires Ordered(bs) && i + 1 < |bs|
    ensures FreeAt(Merge(bs, i), x) ==> FreeAt(bs, x) && x != bs[i + 1].addr
  {
    if FreeAt(Merge(bs, i), x) {
      var k :| 0 <= k < |Merge(bs, i)| && Merge(bs, i)[k].addr == x && Merge(bs, i)[k].free;
      MergeElement(bs, i, k);
      var j := if k <= i then k else k + 1;
      assert bs[j].addr == x;
      FindUnique(bs, j);
      FindUnique(bs, i + 1);
    }
  }

  lemma SplitOK(bs: seq<Block>, i: nat, s: int, owned: seq<nat>)
    requires BlocksOK(bs, owned) && i < |bs| && 0 <= s && s % 8 == 0 && s + 48 <= bs[i].size
    ensures BlocksOK(Split(bs, i, s), owned)
  {
    var r := Split(bs, i, s);
    assert bs == bs[..i] + [bs[i]] + bs[i + 1..];
    BytesPair(r[i], r[i + 1]);
    BytesReplace(bs[..i], [r[i], r[i + 1]], [bs[i]], bs[i + 1..]);
    SplitOrdered(bs, i, s, Bottom(owned), Top(owned));
  }

  lemma SplitOrdered(bs: seq<Block>, i: nat, s: int, lo: int, hi: int)
    requires Ordered(bs) && Within(bs, lo, hi) && i < |bs| && 0 <= s && s % 8 == 0 && s + 48 <= bs[i].size
    ensures Ordered(Split(bs, i, s)) && Within(Split(bs, i, s), lo, hi)
  {
    var r := Split(bs, i, s);
    forall k | 0 <= k < |r| ensures BlockOK(r[k]) && lo <= r[k].addr && End(r[k]) <= hi {
      SplitElement(bs, i, s, k);
    }
    forall j, k | 0 <= j < k < |r| ensures End(r[j]) <= r[k].addr {
      SplitElement(bs, i, s, j);
      SplitElement(bs, i, s, k);
    }
  }

  lemma SplitIndex(bs: seq<Block>, i: nat, s: int, k: nat)
    requires i < |bs| && k < |bs| + 1
    ensures Split(bs, i, s)[k] ==
      if k < i then bs[k]
      else if k == i then Block(bs[i].addr, s, false)
      else if k == i + 1 then Block(bs[i].addr + 48 + s, bs[i].size - s - 48, true)
      else bs[k - 1]
  {
  }

  /** Block `k` after a split lies inside one old block, the two halves touching. */
  lemma SplitElement(bs: seq<Block>, i: nat, s: int, k: nat)
    requires Ordered(bs) && i < |bs| && 0 <= s && s % 8 == 0 && s + 48 <= bs[i].size && k < |bs| + 1
    ensures var r, b := Split(bs, i, s), bs[if k <= i then k else k - 1];
      && BlockOK(r[k]) && b.addr <= r[k].addr && End(r[k]) <= End(b)
      && (k == i ==> End(r[k]) == bs[i].addr + 48 + s)
      && (k == i + 1 ==> r[k].addr == bs[i].addr + 48 + s)
      && (k < i || k > i + 1 ==> r[k] == b)
  {
    SplitIndex(bs, i, s, k);
    assert BlockOK(bs[if k <= i then k else k - 1]);
  }

  lemma SplitFreeAt(bs: seq<Block>, i: nat, s: int)
    requires Ordered(bs) && i < |bs| && 0 <= s && s % 8 == 0 && s + 48 <= bs[i].size
    ensures forall x :: FreeAt(Split(bs, i, s), x) <==> (FreeAt(bs, x) && x != bs[i].addr) || x == bs[i].addr + 48 + s
    ensures !FreeAt(bs, bs[i].addr + 48 + s)
  {
    var n := bs[i].addr + 48 + s;
    forall x ensures FreeAt(Split(bs, i, s), x) <==> (FreeAt(bs, x) && x != bs[i].addr) || x == n {
      SplitKeepsFree(bs, i, s, x);
      SplitAddsNoFree(bs, i, s, x);
    }
    forall k | 0 <= k < |bs| ensures bs[k].addr != n {
      assert k < i ==> End(bs[k]) <= bs[i].addr;
      assert k > i ==> End(bs[i]) <= bs[k].addr;
    }
  }

  lemma SplitKeepsFree(bs: seq<Block>, i: nat, s: int, x: int)
    requires Ordered(bs) && i < |bs| && 0 <= s && s % 8 == 0 && s + 48 <= bs[i].size
    ensures (FreeAt(bs, x) && x != bs[i].addr) || x == bs[i].addr + 48 + s ==> FreeAt(Split(bs, i, s), x)
  {
    var r := Split(bs, i, s);
    assert r[i + 1].addr == bs[i].addr + 48 + s && r[i + 1].free;
    if FreeAt(bs, x) && x != bs[i].addr {
      var k :| 0 <= k < |bs| && bs[k].addr == x && bs[k].free;
      SplitElement(bs, i, s, if k <= i then k else k + 1);
      assert r[if k <= i then k else k + 1].addr == x;
    }
  }

  lemma SplitAddsNoFree(bs: seq<Block>, i: nat, s: int, x: int)
    requires Ordered(bs) && i < |bs| && 0 <= s && s % 8 == 0 && s + 48 <= bs[i].size
    ensures FreeAt(Split(bs, i, s), x) ==> (FreeAt(bs, x) && x != bs[i].addr) || x == bs[i].addr + 48 + s
  {
    var r := Split(bs, i, s);
    if FreeAt(r, x) && x != bs[i].addr + 48 + s {
      var k :| 0 <= k < |r| && r[k].addr == x && r[k].free;
      var j := if k <= i then k else k - 1;
      SplitElement(bs, i, s, k);
      assert bs[j] == r[k];
      FindUnique(bs, j);
      FindUnique(bs, i);
    }
  }

  lemma AppendOK(bs: seq<Block>, owned: seq<nat>, f: nat)
    requires BlocksOK(bs, owned) && (forall i :: 0 <= i < |owned| ==> owned[i] < f)
    ensures BlocksOK(bs + [NewPage(f)], owned + [f])
    ensures forall x :: FreeAt(bs + [NewPage(f)], x) <==> FreeAt(bs, x) || x == FrameAddr(f)
    ensures !FreeAt(bs, FrameAddr(f))
  {
    AppendOrdered(bs, owned, f);
    AppendFreeAt(bs, f);
  }

  lemma AppendOrdered(bs: seq<Block>, owned: seq<nat>, f: nat)
    requires BlocksOK(bs, owned) && (forall i :: 0 <= i < |owned| ==> owned[i] < f)
    ensures BlocksOK(bs + [NewPage(f)], owned + [f]) && forall i :: 0 <= i < |bs| ==> End(bs[i]) <= FrameAddr(f)
  {
    var b := NewPage(f);
    BytesConcat(bs, [b]);
    assert owned != [] ==> owned[|owned| - 1] < f && owned[0] < f;
    assert bs != [] ==> Bottom(owned) <= bs[0].addr && End(bs[0]) <= Top(owned) && BlockOK(bs[0]);
    AppendWithin(bs, Bottom(owned), Top(owned), f, if owned == [] then FrameAddr(f) else Bottom(owned));
  }

  lemma AppendWithin(bs: seq<Block>, lo: int, hi: int, f: nat, bottom: int)
    requires Ordered(bs) && Within(bs, lo, hi) && hi <= FrameAddr(f) && bottom <= FrameAddr(f)
    requires bs != [] ==> bottom == lo
    ensures Ordered(bs + [NewPage(f)]) && Within(bs + [NewPage(f)], bottom, FrameAddr(f) + 4096)
  {
  }

  lemma AppendFreeAt(bs: seq<Block>, f: nat)
    requires Ordered(bs) && forall i :: 0 <= i < |bs| ==> End(bs[i]) <= FrameAddr(f)
    ensures forall x :: FreeAt(bs + [NewPage(f)], x) <==> FreeAt(bs, x) || x == FrameAddr(f)
    ensures !FreeAt(bs, FrameAddr(f))
  {
    var r, b := bs + [NewPage(f)], NewPage(f);
    assert r[|bs|] == b;
    forall x ensures FreeAt(r, x) <==> FreeAt(bs, x) || x == b.addr {
      if FreeAt(bs, x) {
        var k :| 0 <= k < |bs| && bs[k].addr == x && bs[k].free;
        assert r[k] == bs[k];
      }
    }
  }

  // ---------- steps ----------

  lemma FreshAddress(h: Heap, i: nat, hand: set<int>)
    requires InvHand(h, hand) && i < |h.blocks|
    ensures h.blocks[i].free <==> In(h.frags, h.blocks[i].addr) || h.blocks[i].addr in hand
  {
    if FreeAt(h.blocks, h.blocks[i].addr) {
      var k :| 0 <= k < |h.blocks| && h.blocks[k].addr == h.blocks[i].addr && h.blocks[k].free;
      FindUnique(h.blocks, k);
      FindUnique(h.blocks, i);
    }
  }

  /** `kfree` marking its block: free, and in hand until it is listed. */
  lemma MarkInv(h: Heap, i: nat)
    requires Inv(h) && i < |h.blocks| && !h.blocks[i].free
    ensures InvHand(h.(blocks := SetFree(h.blocks, i, true)), {h.blocks[i].addr})
  {
    FreshAddress(h, i, {});
    SetFreeOK(h.blocks, i, true, h.owned);
  }

  lemma ForwardInv(h: Heap, i: nat)
    requires i < |h.blocks| && h.blocks[i].free && InvHand(h, {h.blocks[i].addr})
    ensures InvHand(Forward(h, i), {h.blocks[i].addr})
    ensures i < |Forward(h, i).blocks| && Forward(h, i).blocks[i].addr == h.blocks[i].addr
    ensures Forward(h, i).blocks[i].free
    ensures Forward(h, i).blocks[..i] == h.blocks[..i]
  {
    if i + 1 < |h.blocks| && h.blocks[i + 1].free {
      FindUnique(h.blocks, i);
      FindUnique(h.blocks, i + 1);
      FreshAddress(h, i + 1, {h.blocks[i].addr});
      UnlinkOK(h.frags, h.blocks[i + 1].addr);
      MergeOK(h.blocks, i, h.owned);
      MergeFreeAt(h.blocks, i);
    }
  }

  lemma BackwardInv(h: Heap, i: nat)
    requires i < |h.blocks| && h.blocks[i].free && InvHand(h, {h.blocks[i].addr})
    ensures Inv(Backward(h, i))
  {
    var a := h.blocks[i].addr;
    if i > 0 && h.blocks[i - 1].free {
      MergeOK(h.blocks, i - 1, h.owned);
      BackwardCover(h, i);
    } else {
      PushOK(h.frags, a);
    }
  }

  /** The fragments after merging into a free predecessor and moving it to the front of the list. */
  lemma BackwardCover(h: Heap, i: nat)
    requires 0 < i < |h.blocks| && h.blocks[i - 1].free && InvHand(h, {h.blocks[i].addr})
    ensures var p := h.blocks[i - 1].addr; var g := Push(Unlink(h.frags, p), p);
      FragsOK(g) && Cover(Merge(h.blocks, i - 1), g, {})
  {
    var a, p := h.blocks[i].addr, h.blocks[i - 1].addr;
    FindUnique(h.blocks, i);
    FindUnique(h.blocks, i - 1);
    FreshAddress(h, i - 1, {a});
    UnlinkOK(h.frags, p);
    MergeFreeAt(h.blocks, i - 1);
    PushOK(Unlink(h.frags, p), p);
  }

  lemma KfreeInv(h: Heap, ptr: int)
    requires Inv(h)
    ensures Inv(Kfree(h, ptr))
  {
    var i := Find(h.blocks, ptr - 48);
    if !(ptr == 0 || i == |h.blocks| || h.blocks[i].free) {
      MarkInv(h, i);
      var h1 := h.(blocks := SetFree(h.blocks, i, true));
      ForwardInv(h1, i);
      BackwardInv(Forward(h1, i), i);
    }
  }

  lemma GrowOneInv(h: Heap)
    requires Inv(h) && Lowest(h.pmm) < h.pmm.frames
    ensures Inv(GrowOne(h))
  {
    var f := Lowest(h.pmm);
    assert f in Clear(h.pmm);
    AppendOK(h.blocks, h.owned, f);
    AddOrphanOK(h.frags, FrameAddr(f));
    GrowOneFrames(h.owned, h.pmm);
  }

  lemma GrowOneFrames(owned: seq<nat>, p: Pmm)
    requires FramesOK(owned, p) && Lowest(p) < p.frames
    ensures FramesOK(owned + [Lowest(p)], AllocFrame(p).0)
  {
    var q := AllocFrame(p).0;
    assert Lowest(p) in Clear(p);
    forall c | c in Clear(q) ensures c in Clear(p) && Lowest(p) < c {
    }
  }

  lemma {:induction false} GrowInv(h: Heap, k: nat)
    requires Inv(h)
    ensures Inv(Grow(h, k).0)
    ensures h.blocks <= Grow(h, k).0.blocks
    decreases k
  {
    if k > 0 && Lowest(h.pmm) < h.pmm.frames {
      GrowOneInv(h);
      GrowInv(GrowOne(h), k - 1);
    }
  }

  /** The frames that `k` allocations will give, fewer if memory runs out. */
  function NextFrames(p: Pmm, k: nat): seq<nat>
    decreases k
  {
    if k == 0 || Lowest(p) == p.frames then [] else [Lowest(p)] + NextFrames(AllocFrame(p).0, k - 1)
  }

  function NewPages(fs: seq<nat>): (r: seq<Block>)
    ensures |r| == |fs| && forall i :: 0 <= i < |fs| ==> r[i] == NewPage(fs[i])
  {
    if fs == [] then [] else [NewPage(fs[0])] + NewPages(fs[1..])
  }

  /** Each of these frames as an orphan of its own. */
  function Singles(fs: seq<nat>): set<seq<int>> {
    if fs == [] then {} else {[FrameAddr(fs[0])]} + Singles(fs[1..])
  }

  /** The frame loop in closed form: separate, free, unlisted pages at the end of the chain. */
  lemma GrowIs(h: Heap, k: nat)
    ensures var (g, ok) := Grow(h, k); var fs := NextFrames(h.pmm, k);
      && g.blocks == h.blocks + NewPages(fs) && g.owned == h.owned + fs
      && g.frags == Frags(h.frags.list, h.frags.orphans + Singles(fs))
      && (ok <==> |fs| == k) && |fs| <= k
  {
    GrowBlocks(h, k);
    GrowOrphans(h, k);
  }

  lemma {:induction false} GrowBlocks(h: Heap, k: nat)
    ensures var (g, ok) := Grow(h, k); var fs := NextFrames(h.pmm, k);
      && g.blocks == h.blocks + NewPages(fs) && g.owned == h.owned + fs
      && (ok <==> |fs| == k) && |fs| <= k
    decreases k
  {
    if k > 0 && Lowest(h.pmm) < h.pmm.frames {
      GrowBlocks(GrowOne(h), k - 1);
      AppendFirst(h.blocks, h.owned, Lowest(h.pmm), NextFrames(AllocFrame(h.pmm).0, k - 1));
    }
  }

  lemma HeadAndTail(bs: seq<Block>, fs: seq<nat>)
    requires fs != []
    ensures bs + NewPages(fs) == bs + [NewPage(fs[0])] + NewPages(fs[1..])
  {
  }

  lemma AppendFirst(bs: seq<Block>, owned: seq<nat>, f: nat, fs: seq<nat>)
    ensures (bs + [NewPage(f)]) + NewPages(fs) == bs + NewPages([f] + fs)
    ensures (owned + [f]) + fs == owned + ([f] + fs)
  {
    assert ([f] + fs)[1..] == fs;
    HeadAndTail(bs, [f] + fs);
  }

  predicate LastFree(bs: seq<Block>) {
    bs != [] && bs[|bs| - 1].free
  }

  /** A chain with the pages `fs` added, the first of them merged into a free last block. */
  function Extended(bs: seq<Block>, fs: seq<nat>): seq<Block>
    requires fs != []
  {
    if LastFree(bs) then bs[..|bs| - 1] + [bs[|bs| - 1].(size := bs[|bs| - 1].size + 4096)] + NewPages(fs[1..])
    else bs + [NewPage(fs[0])] + NewPages(fs[1..])
  }

  lemma MergeAtEnd(bs: seq<Block>, b: Block, rest: seq<Block>)
    requires bs != []
    ensures Merge(bs + [b] + rest, |bs| - 1)
      == bs[..|bs| - 1] + [bs[|bs| - 1].(size := bs[|bs| - 1].size + 48 + b.size)] + rest
  {
    var n, c := |bs|, bs + [b] + rest;
    assert c[..n - 1] == bs[..n - 1] && c[n + 1..] == rest;
  }

  /** The chain and the frames after any successful expansion. */
  lemma ExpandBlocks(h: Heap, k: nat)
    requires k > 0 && Grow(h, k).1
    ensures var e, fs := Expand(h, k).0, NextFrames(h.pmm, k);
      |fs| == k && e.blocks == Extended(h.blocks, fs) && e.owned == h.owned + fs
  {
    var g, n, fs := Grow(h, k).0, |h.blocks|, NextFrames(h.pmm, k);
    GrowBlocks(h, k);
    HeadAndTail(h.blocks, fs);
    if n > 0 {
      assert g.blocks[n - 1] == h.blocks[n - 1];
      MergeAtEnd(h.blocks, NewPage(fs[0]), NewPages(fs[1..]));
    }
  }

  lemma {:induction false} GrowOrphans(h: Heap, k: nat)
    ensures Grow(h, k).0.frags == Frags(h.frags.list, h.frags.orphans + Singles(NextFrames(h.pmm, k)))
    decreases k
  {
    if k > 0 && Lowest(h.pmm) < h.pmm.frames {
      GrowOrphans(GrowOne(h), k - 1);
      var f, fs := Lowest(h.pmm), NextFrames(AllocFrame(h.pmm).0, k - 1);
      assert ([f] + fs)[1..] == fs;
      assert (h.frags.orphans + {[FrameAddr(f)]}) + Singles(fs) == h.frags.orphans + Singles([f] + fs);
    }
  }

  lemma FirstPageShape(h: Heap, k: nat)
    requires k > 0 && Grow(h, k).1
    ensures var g, i := Grow(h, k).0, |h.blocks|;
      && g.blocks[i] == NewPage(Lowest(h.pmm)) && g.blocks[..i] == h.blocks && Lowest(h.pmm) < h.pmm.frames
      && [g.blocks[i].addr] in g.frags.orphans
  {
    GrowBlocks(h, k);
    GrowOrphans(h, k);
  }

  /** The frame loop finds its `k` frames exactly when that many are clear. */
  lemma {:induction false} GrowSucceedsIff(h: Heap, k: nat)
    ensures Grow(h, k).1 <==> |Clear(h.pmm)| >= k
    decreases k
  {
    AllocGivesLowest(h.pmm);
    if k > 0 && Lowest(h.pmm) < h.pmm.frames {
      var f := Lowest(h.pmm);
      assert f in Clear(h.pmm) && Clear(AllocFrame(h.pmm).0) == Clear(h.pmm) - {f};
      GrowSucceedsIff(GrowOne(h), k - 1);
    }
  }

  /** A singleton orphan taken in hand. */
  lemma TakeInHand(g: Heap, i: nat)
    requires Inv(g) && i < |g.blocks| && g.blocks[i].free && [g.blocks[i].addr] in g.frags.orphans
    ensures InvHand(g.(frags := DropOrphan(g.frags, g.blocks[i].addr)), {g.blocks[i].addr})
  {
    DropOrphanOK(g.frags, g.blocks[i].addr);
    assert FreeAt(g.blocks, g.blocks[i].addr);
  }

  /** The first page of a successful expansion, taken in hand for `Backward`. */
  lemma FirstPage(h: Heap, k: nat)
    requires Inv(h) && k > 0 && Grow(h, k).1
    ensures var g, i := Grow(h, k).0, |h.blocks|;
      && g.blocks[i] == NewPage(Lowest(h.pmm)) && g.blocks[..i] == h.blocks && Lowest(h.pmm) < h.pmm.frames
      && [g.blocks[i].addr] in g.frags.orphans
      && InvHand(g.(frags := DropOrphan(g.frags, g.blocks[i].addr)), {g.blocks[i].addr})
  {
    FirstPageShape(h, k);
    GrowInv(h, k);
    TakeInHand(Grow(h, k).0, |h.blocks|);
  }

  lemma ExpandInv(h: Heap, k: nat)
    requires Inv(h) && k > 0
    ensures Inv(Expand(h, k).0)
  {
    var (g, ok) := Grow(h, k);
    GrowInv(h, k);
    if ok {
      FirstPage(h, k);
      BackwardInv(g.(frags := DropOrphan(g.frags, g.blocks[|h.blocks|].addr)), |h.blocks|);
    }
  }

  lemma ListedBlock(h: Heap, x: int)
    requires Inv(h) && In(h.frags, x)
    ensures var i := Find(h.blocks, x); i < |h.blocks| && h.blocks[i].addr == x && h.blocks[i].free
  {
    assert FreeAt(h.blocks, x);
    var k :| 0 <= k < |h.blocks| && h.blocks[k].addr == x && h.blocks[k].free;
    FindUnique(h.blocks, k);
  }

  lemma CarveInv(h: Heap, x: int, s: int)
    requires Inv(h) && In(h.frags, x) && Fits(h.blocks, x, s) && 0 <= s && s % 8 == 0
    ensures Inv(Carve(h, x, s))
  {
    ListedBlock(h, x);
    if h.blocks[Find(h.blocks, x)].size >= s + 96 { CarveSplitInv(h, x, s); } else { CarveWholeInv(h, x, s); }
  }

  lemma CarveSplitInv(h: Heap, x: int, s: int)
    requires Inv(h) && In(h.frags, x) && 0 <= s && s % 8 == 0
    requires var i := Find(h.blocks, x); i < |h.blocks| && h.blocks[i].size >= s + 96
    ensures Inv(Carve(h, x, s))
  {
    SplitOK(h.blocks, Find(h.blocks, x), s, h.owned);
    SplitCover(h, x, s, Find(h.blocks, x));
  }

  /** The fragments after a split: the block taken leaves them, and the remainder heads the list. */
  lemma SplitCover(h: Heap, x: int, s: int, i: nat)
    requires FragsOK(h.frags) && Cover(h.blocks, h.frags, {}) && In(h.frags, x) && Ordered(h.blocks)
    requires i < |h.blocks| && h.blocks[i].addr == x && 0 <= s && s % 8 == 0 && h.blocks[i].size >= s + 96
    ensures var g := Push(Unlink(h.frags, x), x + 48 + s); FragsOK(g) && Cover(Split(h.blocks, i, s), g, {})
  {
    SplitFreeAt(h.blocks, i, s);
    UnlinkOK(h.frags, x);
    PushOK(Unlink(h.frags, x), x + 48 + s);
  }

  lemma CarveWholeInv(h: Heap, x: int, s: int)
    requires Inv(h) && In(h.frags, x)
    requires var i := Find(h.blocks, x); i < |h.blocks| && h.blocks[i].size < s + 96
    ensures Inv(Carve(h, x, s))
  {
    UnlinkOK(h.frags, x);
    SetFreeOK(h.blocks, Find(h.blocks, x), false, h.owned);
  }

  /** First fit means: that block fits, and no block listed before it does. */
  lemma {:induction false} FirstFitMeaning(bs: seq<Block>, list: seq<int>, s: int)
    ensures var k := FirstFit(bs, list, s);
      && (forall j :: 0 <= j < k ==> !Fits(bs, list[j], s))
      && (k < |list| ==> Fits(bs, list[k], s))
  {
    if list != [] && !Fits(bs, list[0], s) {
      FirstFitMeaning(bs, list[1..], s);
      forall j | 0 < j < FirstFit(bs, list, s) ensures !Fits(bs, list[j], s) {
        assert list[j] == list[1..][j - 1];
      }
    }
  }

  lemma RoundUpMeaning(size: nat)
    requires size < UINT64_LIMIT
    ensures RoundUp(size) % 8 == 0 && RoundUp(size) < UINT64_LIMIT
    ensures RoundUp(size) >= size <==> size <= UINT64_LIMIT - 8
    ensures size > UINT64_LIMIT - 8 ==> RoundUp(size) == 0
    ensures size <= UINT64_LIMIT - 8 ==> RoundUp(size) < size + 8
  {
  }

  /**
    The pages asked for hold the request, its header and one header more
    exactly when the 64-bit sum does not wrap, and then they are the fewest.
   */
  lemma PagesNeededMeaning(s: nat)
    requires s < UINT64_LIMIT
    ensures s + 96 <= 4096 * PagesNeeded(s) <==> s + 96 + 4095 < UINT64_LIMIT
    ensures s + 96 + 4095 < UINT64_LIMIT ==> 4096 * (PagesNeeded(s) - 1) < s + 96
  {
    if s + 96 + 4095 < UINT64_LIMIT { assert Plus64(s, 48) == s + 48 && Plus64(s + 48, 4143) == s + 96 + 4095; }
  }

  lemma TakeFitInv(h: Heap, s: int)
    requires Inv(h) && 0 <= s && s % 8 == 0
    ensures Inv(TakeFit(h, s).0)
  {
    FirstFitMeaning(h.blocks, h.frags.list, s);
    var k := FirstFit(h.blocks, h.frags.list, s);
    if k < |h.frags.list| {
      CarveInv(h, h.frags.list[k], s);
    }
  }

  lemma AllocateInv(h: Heap, s: int, k: nat)
    requires Inv(h) && 0 <= s && s % 8 == 0 && k > 0
    ensures Inv(Allocate(h, s, k).0)
  {
    TakeFitInv(h, s);
    ExpandInv(h, k);
    TakeFitInv(Expand(h, k).0, s);
  }

  lemma KmallocInv(h: Heap, size: nat)
    requires Inv(h) && size < UINT64_LIMIT
    ensures Inv(Kmalloc(h, size).0)
  {
    RoundUpMeaning(size);
    if size > 0 { AllocateInv(h, RoundUp(size), PagesNeeded(RoundUp(size))); }
  }

  lemma BootInv(p: Pmm)
    ensures Inv(Boot(p))
  {
    ExpandInv(Heap([], Frags([], {}), [], p), PagesFor(16384));
  }
}
