/** Which listed blocks stay on the free list when a block beside an orphan is freed. */
module HeapListed {
  import opened HeapSpec
  import opened HeapInvariant
  import opened HeapExact

  /** The block at `x` is free but off the list, and it is the front of its fragment. */
  ghost predicate FrontsOrphan(g: Frags, x: int) {
    exists f :: f in g.orphans && f != [] && f[0] == x
  }

  predicate FreeAfter(bs: seq<Block>, i: nat) {
    i + 1 < |bs| && bs[i + 1].free
  }

  predicate FreeBefore(bs: seq<Block>, i: nat) {
    0 < i < |bs| && bs[i - 1].free
  }

  // ---------- one unlinking ----------

  lemma FrontsItsOrphan(g: Frags, f: seq<int>, x: int)
    requires FragsOK(g) && f in g.orphans && x in f
    ensures FrontsOrphan(g, x) <==> f[0] == x
  {
    if FrontsOrphan(g, x) {
      var e :| e in g.orphans && e != [] && e[0] == x;
      assert x in e;
    }
  }

  lemma ListedFrontsNone(g: Frags, x: int)
    requires FragsOK(g) && x in g.list
    ensures !FrontsOrphan(g, x)
  {
    forall f | f in g.orphans && f != [] ensures f[0] != x {
      assert f[0] in f;
    }
  }

  /** Unlinking a front loses the whole list; unlinking anything else loses at most that block. */
  lemma UnlinkKeeps(g: Frags, x: int)
    requires FragsOK(g) && In(g, x)
    ensures if FrontsOrphan(g, x) then Apart(g.list, Unlink(g, x).list)
            else forall y :: y in Unlink(g, x).list <==> y in g.list && y != x
  {
    if x in g.list {
      ListedFrontsNone(g, x);
      RemoveAtMembers(g.list, Position(g.list, x));
    } else {
      var f :| f in g.orphans && x in f;
      FrontsItsOrphan(g, f, x);
      UnlinkListIs(g, x, f);
    }
  }

  /** A front unlinked leaves the old list behind as an orphan. */
  lemma ListBecomesOrphan(g: Frags, x: int)
    requires FragsOK(g) && FrontsOrphan(g, x) && g.list != []
    ensures g.list in Unlink(g, x).orphans
  {
    var f :| f in g.orphans && f != [] && f[0] == x;
    assert x in f;
    UnlinkListIs(g, x, f);
  }

  /** Unlinking `p` brings an orphan onto the list exactly when `p` is its front. */
  lemma OrphanSurfacesIff(g: Frags, l: seq<int>, p: int)
    requires FragsOK(g) && l in g.orphans && In(g, p)
    ensures if l[0] == p then forall y :: y in l && y != p ==> y in Unlink(g, p).list else l[0] !in Unlink(g, p).list
  {
    assert l[0] in l;
    if p in g.list {
      UnlinkKeeps(g, p);
      ListedFrontsNone(g, p);
    } else {
      var f :| f in g.orphans && p in f;
      UnlinkListIs(g, p, f);
      FragmentSurfaces(g, f, l, p);
    }
  }

  lemma FragmentSurfaces(g: Frags, f: seq<int>, l: seq<int>, p: int)
    requires FragsOK(g) && f in g.orphans && l in g.orphans && p in f
    ensures l[0] == p ==> l == f && forall y :: y in l && y != p ==> y in f[1..]
    ensures l[0] != p ==> l[0] !in (if f[0] == p then f[1..] else g.list)
  {
    assert l[0] in l;
    TailMembers(f);
  }

  /** Unlinking a block that is no front changes which blocks are fronts only for itself. */
  lemma FrontsAfter(g: Frags, x: int, p: int)
    requires FragsOK(g) && In(g, x) && !FrontsOrphan(g, x) && p != x
    ensures FrontsOrphan(Unlink(g, x), p) <==> FrontsOrphan(g, p)
  {
    if x !in g.list {
      var f :| f in g.orphans && x in f;
      FrontsItsOrphan(g, f, x);
      UnlinkListIs(g, x, f);
      var r := RemoveAt(f, Position(f, x));
      assert Position(f, x) > 0;
      assert r[0] == f[0] && r in Unlink(g, x).orphans;
      if FrontsOrphan(g, p) {
        var e :| e in g.orphans && e != [] && e[0] == p;
        if e != f { assert e in Unlink(g, x).orphans; }
      }
    }
  }

  // ---------- kfree ----------

  /** The free list after freeing block `i`, in terms of the fragments before. */
  ghost function ListAfter(h: Heap, i: nat): seq<int>
    requires i < |h.blocks|
  {
    var g := if FreeAfter(h.blocks, i) then Unlink(h.frags, h.blocks[i + 1].addr) else h.frags;
    if FreeBefore(h.blocks, i) then [h.blocks[i - 1].addr] + Unlink(g, h.blocks[i - 1].addr).list
    else [h.blocks[i].addr] + g.list
  }

  lemma KfreeList(h: Heap, i: nat)
    requires Ordered(h.blocks) && i < |h.blocks| && !h.blocks[i].free
    ensures Kfree(h, h.blocks[i].addr + 48).frags.list == ListAfter(h, i)
  {
    KfreeAt(h, i);
    var bs := SetFree(h.blocks, i, true);
    if i + 1 < |bs| { assert bs[i + 1] == h.blocks[i + 1]; }
    if i > 0 {
      assert bs[i - 1] == h.blocks[i - 1];
      if FreeAfter(h.blocks, i) { assert Merge(bs, i)[i - 1] == bs[i - 1]; }
    }
  }

  predicate Lost(list: seq<int>, gone: set<int>, l: seq<int>, y: int) {
    y in list && y !in gone && y !in l
  }

  /** Every member of `list` outside `gone` is in `l`. */
  ghost predicate Stay(list: seq<int>, gone: set<int>, l: seq<int>) {
    forall y :: !Lost(list, gone, l, y)
  }

  /** Every listed block is still listed, but for the free successor that was merged away. */
  ghost predicate KeepsListed(h: Heap, i: nat, list: seq<int>) {
    Stay(h.frags.list, if FreeAfter(h.blocks, i) then {h.blocks[i + 1].addr} else {}, list)
  }

  /** What a caller can check before freeing block `i`. */
  ghost predicate ListSurvives(h: Heap, i: nat)
    requires i < |h.blocks|
  {
    if FreeAfter(h.blocks, i) && FrontsOrphan(h.frags, h.blocks[i + 1].addr) then
      h.frags.list == [] || (FreeBefore(h.blocks, i) && h.frags.list[0] == h.blocks[i - 1].addr)
    else
      || !(FreeBefore(h.blocks, i) && FrontsOrphan(h.frags, h.blocks[i - 1].addr))
      || forall y :: y in h.frags.list ==> FreeAfter(h.blocks, i) && y == h.blocks[i + 1].addr
  }

  lemma FrontHasNoListed(g: Frags, x: int)
    requires FragsOK(g) && FrontsOrphan(g, x)
    ensures In(g, x) && x !in g.list
  {
    var f :| f in g.orphans && f != [] && f[0] == x;
    assert x in f;
  }

  lemma FrontNextAlone(g: Frags, x: int, a: int)
    requires FragsOK(g) && FrontsOrphan(g, x) && a !in g.list
    ensures Stay(g.list, {x}, [a] + Unlink(g, x).list) <==> g.list == []
  {
    FrontHasNoListed(g, x);
    UnlinkKeeps(g, x);
    if g.list != [] { assert Lost(g.list, {x}, [a] + Unlink(g, x).list, g.list[0]); }
  }

  lemma FrontNextAndPrev(g: Frags, x: int, p: int)
    requires FragsOK(g) && FrontsOrphan(g, x) && In(g, p) && p != x
    ensures Stay(g.list, {x}, [p] + Unlink(Unlink(g, x), p).list) <==> g.list == [] || g.list[0] == p
  {
    FrontHasNoListed(g, x);
    UnlinkOK(g, x);
    if g.list != [] {
      assert g.list[0] in g.list;
      ListBecomesOrphan(g, x);
      OrphanSurfacesIff(Unlink(g, x), g.list, p);
      assert g.list[0] != p ==> Lost(g.list, {x}, [p] + Unlink(Unlink(g, x), p).list, g.list[0]);
    }
  }

  lemma OnlyPrev(g: Frags, p: int)
    requires FragsOK(g) && In(g, p)
    ensures Stay(g.list, {}, [p] + Unlink(g, p).list) <==> !FrontsOrphan(g, p) || g.list == []
  {
    UnlinkKeeps(g, p);
    if FrontsOrphan(g, p) {
      FrontHasNoListed(g, p);
      if g.list != [] { assert Lost(g.list, {}, [p] + Unlink(g, p).list, g.list[0]); }
    }
  }

  lemma SameStay(list: seq<int>, x: int, rest: seq<int>, l: seq<int>)
    requires forall y :: y in rest <==> y in list && y != x
    ensures Stay(list, {x}, l) <==> Stay(rest, {}, l)
  {
    forall y ensures Lost(list, {x}, l, y) <==> Lost(rest, {}, l, y) {
    }
  }

  lemma InnerNextAndPrev(g: Frags, x: int, p: int)
    requires FragsOK(g) && In(g, x) && !FrontsOrphan(g, x) && In(g, p) && p != x
    ensures Stay(g.list, {x}, [p] + Unlink(Unlink(g, x), p).list) <==>
      !FrontsOrphan(g, p) || forall y :: y in g.list ==> y == x
  {
    UnlinkOK(g, x);
    UnlinkKeeps(g, x);
    FrontsAfter(g, x, p);
    OnlyPrev(Unlink(g, x), p);
    var l := Unlink(g, x).list;
    SameStay(g.list, x, l, [p] + Unlink(Unlink(g, x), p).list);
    if l != [] { assert l[0] in l; }
  }

  /** The free neighbours of a live block are in the fragments, at different addresses; the block itself is not. */
  lemma Neighbours(h: Heap, i: nat)
    requires Inv(h) && i < |h.blocks| && !h.blocks[i].free
    ensures !In(h.frags, h.blocks[i].addr)
    ensures FreeAfter(h.blocks, i) ==> In(h.frags, h.blocks[i + 1].addr)
    ensures FreeBefore(h.blocks, i) ==> In(h.frags, h.blocks[i - 1].addr)
    ensures 0 < i < |h.blocks| - 1 ==> h.blocks[i - 1].addr != h.blocks[i + 1].addr
  {
    FreshAddress(h, i, {});
    if i + 1 < |h.blocks| { FreshAddress(h, i + 1, {}); }
    if i > 0 { FreshAddress(h, i - 1, {}); }
    if 0 < i < |h.blocks| - 1 {
      FindUnique(h.blocks, i - 1);
      FindUnique(h.blocks, i + 1);
    }
  }

  lemma ListAfterKeepsIff(h: Heap, i: nat)
    requires Inv(h) && i < |h.blocks| && !h.blocks[i].free
    ensures KeepsListed(h, i, ListAfter(h, i)) <==> ListSurvives(h, i)
  {
    var g := h.frags;
    Neighbours(h, i);
    if FreeAfter(h.blocks, i) {
      var x := h.blocks[i + 1].addr;
      if FrontsOrphan(g, x) {
        if FreeBefore(h.blocks, i) {
          FrontNextAndPrev(g, x, h.blocks[i - 1].addr);
        } else {
          FrontNextAlone(g, x, h.blocks[i].addr);
        }
      } else {
        if FreeBefore(h.blocks, i) { InnerNextAndPrev(g, x, h.blocks[i - 1].addr); } else { UnlinkKeeps(g, x); }
      }
    } else if FreeBefore(h.blocks, i) {
      OnlyPrev(g, h.blocks[i - 1].addr);
    }
  }

  /**
    Freeing block `i` keeps every other listed block listed if and only if
    `ListSurvives`: a free successor that fronts an orphan takes the list with
    it unless the predecessor is the list's own front, and otherwise a free
    predecessor that fronts an orphan does.
   */
  lemma KfreeKeepsListedIff(h: Heap, i: nat)
    requires Inv(h) && i < |h.blocks| && !h.blocks[i].free
    ensures KeepsListed(h, i, Kfree(h, h.blocks[i].addr + 48).frags.list) <==> ListSurvives(h, i)
  {
    KfreeList(h, i);
    ListAfterKeepsIff(h, i);
  }

  /**
    The whole list is lost beside a lone orphan: freeing a block before such a
    page, with no free predecessor, leaves a list of that block alone, and the
    old list is an orphan.
   */
  lemma KfreeDropsList(h: Heap, i: nat)
    requires Inv(h) && i < |h.blocks| && !h.blocks[i].free && !FreeBefore(h.blocks, i) && h.frags.list != []
    requires FreeAfter(h.blocks, i) && [h.blocks[i + 1].addr] in h.frags.orphans
    ensures var r := Kfree(h, h.blocks[i].addr + 48).frags; r.list == [h.blocks[i].addr] && h.frags.list in r.orphans
  {
    var x := h.blocks[i + 1].addr;
    assert x in [x];
    UnlinkListIs(h.frags, x, [x]);
    KfreeAt(h, i);
    var bs := SetFree(h.blocks, i, true);
    assert bs[i + 1] == h.blocks[i + 1];
    if i > 0 { assert Merge(bs, i)[i - 1] == h.blocks[i - 1]; }
  }
}
