/**
  When blocks stay inside the heap's own frames.  Merging trusts chain order and
  never compares addresses, so a merge across a gap between frames moves bytes
  down into memory that the heap never obtained.

  The bytes of the chain, counted from its start, and the bytes of the frames
  obtained, counted the same way, are compared position by position: every
  operation keeps or lowers the address at a position, and the blocks lie inside
  the frames exactly when the two agree everywhere.
 */
module HeapInside {
  import opened FrameSpec
  import opened HeapSpec
  import opened HeapInvariant
  import opened HeapRuns
  import opened HeapLayout

  /** The address of byte number `t` of the chain, headers included. */
  function AddrOf(bs: seq<Block>, t: int): int {
    if bs == [] then 0
    else if t < 48 + bs[0].size then bs[0].addr + t
    else AddrOf(bs[1..], t - 48 - bs[0].size)
  }

  /** The address of byte number `t` of the frames obtained. */
  function Phys(owned: seq<nat>, t: int): int
    requires 0 <= t < 4096 * |owned|
  {
    FrameAddr(owned[t / 4096]) + t % 4096
  }

  // ---------- bytes of the chain ----------

  lemma {:induction false} BytesPositive(bs: seq<Block>)
    requires forall i :: 0 <= i < |bs| ==> bs[i].size >= 0
    ensures Bytes(bs) >= 48 * |bs|
  {
    if bs != [] { BytesPositive(bs[1..]); }
  }

  lemma {:induction false} AddrConcat(a: seq<Block>, b: seq<Block>, t: int)
    requires t >= 0 && forall i :: 0 <= i < |a| ==> a[i].size >= 0
    ensures AddrOf(a + b, t) == if t < Bytes(a) then AddrOf(a, t) else AddrOf(b, t - Bytes(a))
  {
    if a == [] {
      assert a + b == b;
    } else {
      assert (a + b)[1..] == a[1..] + b;
      BytesPositive(a[1..]);
      if t >= 48 + a[0].size { AddrConcat(a[1..], b, t - 48 - a[0].size); }
    }
  }

  /** The address of a byte in one of three stretches of the chain. */
  lemma AddrInThree(a: seq<Block>, m: seq<Block>, c: seq<Block>, t: int)
    requires t >= 0 && (forall i :: 0 <= i < |a| ==> a[i].size >= 0) && (forall i :: 0 <= i < |m| ==> m[i].size >= 0)
    ensures AddrOf(a + m + c, t) ==
      if t < Bytes(a) then AddrOf(a, t)
      else if t < Bytes(a) + Bytes(m) then AddrOf(m, t - Bytes(a))
      else AddrOf(c, t - Bytes(a) - Bytes(m))
  {
    BytesPositive(a);
    BytesPositive(m);
    AddrConcat(a + m, c, t);
    BytesConcat(a, m);
    AddrConcat(a, m, t);
  }

  /** Bytes follow each other upwards. */
  lemma {:induction false} AddrStep(bs: seq<Block>, t: int)
    requires Ordered(bs) && 0 <= t < t + 1 < Bytes(bs)
    ensures AddrOf(bs, t) < AddrOf(bs, t + 1)
  {
    var n, r := 48 + bs[0].size, bs[1..];
    assert BlockOK(bs[0]);
    TailOrdered(bs);
    if t >= n {
      AddrStep(r, t - n);
    } else if t + 1 == n {
      assert r != [] && BlockOK(r[0]) && End(bs[0]) <= r[0].addr;
    }
  }

  lemma TailOrdered(bs: seq<Block>)
    requires Ordered(bs) && bs != []
    ensures Ordered(bs[1..]) && (|bs| > 1 ==> End(bs[0]) <= bs[1..][0].addr)
  {
    var r := bs[1..];
    forall i | 0 <= i < |r| ensures BlockOK(r[i]) {
      assert r[i] == bs[i + 1];
    }
    forall i, j | 0 <= i < j < |r| ensures End(r[i]) <= r[j].addr {
      assert r[i] == bs[i + 1] && r[j] == bs[j + 1];
    }
  }

  /** Every byte of a block has its number. */
  lemma NumberOf(bs: seq<Block>, i: nat, x: int) returns (t: int)
    requires Ordered(bs) && i < |bs| && bs[i].addr <= x < End(bs[i])
    ensures 0 <= t < Bytes(bs) && AddrOf(bs, t) == x
  {
    var a, m, c := bs[..i], [bs[i]], bs[i + 1..];
    assert bs == a + m + c;
    assert forall k :: 0 <= k < |a| ==> BlockOK(a[k]);
    assert forall k :: 0 <= k < |c| ==> BlockOK(c[k]);
    assert BlockOK(bs[i]);
    BytesPositive(a);
    BytesPositive(c);
    BytesConcat(a + m, c);
    BytesConcat(a, m);
    BytesPair(bs[i], bs[i]);
    t := Bytes(a) + x - bs[i].addr;
    AddrInThree(a, m, c, t);
  }

  /** Every numbered byte lies in a block. */
  lemma {:induction false} BlockOf(bs: seq<Block>, t: int) returns (i: nat)
    requires Ordered(bs) && 0 <= t < Bytes(bs)
    ensures i < |bs| && bs[i].addr <= AddrOf(bs, t) < End(bs[i])
  {
    if t < 48 + bs[0].size {
      i := 0;
    } else {
      TailOrdered(bs);
      var j := BlockOf(bs[1..], t - 48 - bs[0].size);
      i := j + 1;
      assert bs[i] == bs[1..][j];
    }
  }

  // ---------- bytes of the frames ----------

  lemma PhysOwned(owned: seq<nat>, t: int)
    requires 0 <= t < 4096 * |owned|
    ensures InOwned(owned, Phys(owned, t))
  {
    var f := owned[t / 4096];
    assert f in owned && InFrame(Phys(owned, t), f);
  }

  lemma PhysNumber(owned: seq<nat>, x: int) returns (u: int)
    requires InOwned(owned, x)
    ensures 0 <= u < 4096 * |owned| && Phys(owned, u) == x
  {
    var f :| f in owned && InFrame(x, f);
    var j :| 0 <= j < |owned| && owned[j] == f;
    u := 4096 * j + (x - FrameAddr(f));
    assert u / 4096 == j;
  }

  lemma PhysMono(owned: seq<nat>, u: int, v: int)
    requires Ascending(owned) && 0 <= u <= v < 4096 * |owned|
    ensures Phys(owned, u) <= Phys(owned, v) && (u < v ==> Phys(owned, u) < Phys(owned, v))
  {
    if u / 4096 < v / 4096 {
      assert owned[u / 4096] < owned[v / 4096];
    } else {
      assert u / 4096 == v / 4096;
    }
  }

  // ---------- the two numberings ----------

  /** The chain and the frames agree on the address of every byte. */
  ghost predicate Straight(bs: seq<Block>, owned: seq<nat>) {
    Bytes(bs) == 4096 * |owned| && forall t :: 0 <= t < Bytes(bs) ==> AddrOf(bs, t) == Phys(owned, t)
  }

  /** No byte of the chain lies above its place in the frames. */
  ghost predicate Low(bs: seq<Block>, owned: seq<nat>) {
    Bytes(bs) == 4096 * |owned| && forall t :: 0 <= t < Bytes(bs) ==> AddrOf(bs, t) <= Phys(owned, t)
  }

  lemma OwnedByte(h: Heap, t: int) returns (u: int)
    requires BlocksOK(h.blocks, h.owned) && Inside(h) && 0 <= t < Bytes(h.blocks)
    ensures 0 <= u < 4096 * |h.owned| && Phys(h.owned, u) == AddrOf(h.blocks, t)
  {
    var i := BlockOf(h.blocks, t);
    u := PhysNumber(h.owned, AddrOf(h.blocks, t));
  }

  lemma {:induction false} AtLeast(h: Heap, t: int)
    requires BlocksOK(h.blocks, h.owned) && Ascending(h.owned) && Inside(h) && 0 <= t < Bytes(h.blocks)
    ensures AddrOf(h.blocks, t) >= Phys(h.owned, t)
    decreases t
  {
    var u := OwnedByte(h, t);
    if t > 0 {
      AtLeast(h, t - 1);
      AddrStep(h.blocks, t - 1);
      if u < t { PhysMono(h.owned, u, t - 1); }
    }
    PhysMono(h.owned, t, if u < t then t else u);
  }

  lemma {:induction false} AtMost(h: Heap, t: int)
    requires BlocksOK(h.blocks, h.owned) && Ascending(h.owned) && Inside(h) && 0 <= t < Bytes(h.blocks)
    ensures AddrOf(h.blocks, t) <= Phys(h.owned, t)
    decreases Bytes(h.blocks) - t
  {
    var u := OwnedByte(h, t);
    if t + 1 < Bytes(h.blocks) {
      AtMost(h, t + 1);
      AddrStep(h.blocks, t);
      if u > t { PhysMono(h.owned, t + 1, u); }
    }
    PhysMono(h.owned, if u > t then t else u, t);
  }

  /** Blocks lie inside the heap's frames exactly when the two numberings agree. */
  lemma InsideIffStraight(h: Heap)
    requires BlocksOK(h.blocks, h.owned) && Ascending(h.owned)
    ensures Inside(h) <==> Straight(h.blocks, h.owned)
  {
    if Inside(h) {
      forall t | 0 <= t < Bytes(h.blocks) ensures AddrOf(h.blocks, t) == Phys(h.owned, t) {
        AtLeast(h, t);
        AtMost(h, t);
      }
    }
    if Straight(h.blocks, h.owned) {
      forall i, x | 0 <= i < |h.blocks| && h.blocks[i].addr <= x < End(h.blocks[i]) ensures InOwned(h.owned, x) {
        var t := NumberOf(h.blocks, i, x);
        PhysOwned(h.owned, t);
      }
    }
  }

  // ---------- what each step does to the numbering ----------

  lemma Sizes(bs: seq<Block>)
    requires Ordered(bs)
    ensures forall i :: 0 <= i < |bs| ==> bs[i].size >= 0
  {
    forall i | 0 <= i < |bs| ensures bs[i].size >= 0 {
      assert BlockOK(bs[i]);
    }
  }

  lemma CutInThree(bs: seq<Block>, i: nat, k: nat)
    requires i + k <= |bs|
    ensures bs == bs[..i] + bs[i..i + k] + bs[i + k..]
  {
    var r := bs[i..];
    assert bs == bs[..i] + r && r == r[..k] + r[k..];
    assert r[..k] == bs[i..i + k] && r[k..] == bs[i + k..];
  }

  /** Swapping a stretch of the chain for one of the same length changes no byte outside it. */
  lemma AddrReplace(bs: seq<Block>, i: nat, k: nat, m: seq<Block>, t: int)
    requires Ordered(bs) && i + k <= |bs| && 0 <= t && (forall j :: 0 <= j < |m| ==> m[j].size >= 0)
    requires Bytes(m) == Bytes(bs[i..i + k])
    ensures var r, u := bs[..i] + m + bs[i + k..], t - Bytes(bs[..i]);
      if 0 <= u < Bytes(m) then AddrOf(bs, t) == AddrOf(bs[i..i + k], u) && AddrOf(r, t) == AddrOf(m, u)
      else AddrOf(r, t) == AddrOf(bs, t)
  {
    Sizes(bs);
    CutInThree(bs, i, k);
    AddrInThree(bs[..i], bs[i..i + k], bs[i + k..], t);
    AddrInThree(bs[..i], m, bs[i + k..], t);
  }

  lemma AddrPair(a: Block, b: Block, u: int)
    requires a.size >= 0 && b.size >= 0 && 0 <= u < 96 + a.size + b.size
    ensures AddrOf([a, b], u) == if u < 48 + a.size then a.addr + u else b.addr + u - 48 - a.size
    ensures u < 48 + a.size ==> AddrOf([a], u) == a.addr + u
  {
    assert [a, b][1..] == [b];
  }

  lemma SetFreeAddr(bs: seq<Block>, i: nat, v: bool, t: int)
    requires Ordered(bs) && i < |bs| && 0 <= t
    ensures AddrOf(SetFree(bs, i, v), t) == AddrOf(bs, t)
  {
    var m := [bs[i].(free := v)];
    Sizes(bs);
    assert bs[i..i + 1] == [bs[i]] && SetFree(bs, i, v) == bs[..i] + m + bs[i + 1..];
    BytesPair(bs[i], bs[i]);
    BytesPair(m[0], m[0]);
    AddrReplace(bs, i, 1, m, t);
  }

  lemma SplitAddr(bs: seq<Block>, i: nat, s: int, t: int)
    requires Ordered(bs) && i < |bs| && 0 <= s && s + 48 <= bs[i].size && 0 <= t
    ensures AddrOf(Split(bs, i, s), t) == AddrOf(bs, t)
  {
    var a, b := Block(bs[i].addr, s, false), Block(bs[i].addr + 48 + s, bs[i].size - s - 48, true);
    Sizes(bs);
    assert bs[i..i + 1] == [bs[i]] && Split(bs, i, s) == bs[..i] + [a, b] + bs[i + 1..];
    BytesPair(bs[i], bs[i]);
    BytesPair(a, b);
    AddrReplace(bs, i, 1, [a, b], t);
    var u := t - Bytes(bs[..i]);
    if 0 <= u < 48 + bs[i].size { AddrPair(a, b, u); }
  }

  /** Two chain neighbours with no gap between them. */
  predicate Touch(bs: seq<Block>, i: int) {
    0 <= i < |bs| - 1 && End(bs[i]) == bs[i + 1].addr
  }

  /** A merge lowers addresses or leaves them alone, and leaves them all alone if the two blocks touch. */
  lemma MergeAddr(bs: seq<Block>, i: nat, t: int)
    requires Ordered(bs) && i + 1 < |bs| && 0 <= t
    ensures AddrOf(Merge(bs, i), t) <= AddrOf(bs, t)
    ensures Touch(bs, i) ==> AddrOf(Merge(bs, i), t) == AddrOf(bs, t)
  {
    var a, b := bs[i], bs[i + 1];
    var m := a.(size := a.size + 48 + b.size);
    Sizes(bs);
    assert bs[i..i + 2] == [a, b] && Merge(bs, i) == bs[..i] + [m] + bs[i + 2..];
    assert End(a) <= b.addr;
    BytesPair(a, b);
    BytesPair(m, m);
    AddrReplace(bs, i, 2, [m], t);
    var u := t - Bytes(bs[..i]);
    if 0 <= u < Bytes([m]) { AddrPair(a, b, u); }
  }

  /** Across a gap, the first byte of the second block moves down. */
  lemma MergeDrops(bs: seq<Block>, i: nat) returns (t: int)
    requires Ordered(bs) && i + 1 < |bs| && !Touch(bs, i)
    ensures 0 <= t < Bytes(bs) && AddrOf(Merge(bs, i), t) < AddrOf(bs, t)
  {
    var a, b := bs[i], bs[i + 1];
    var m := a.(size := a.size + 48 + b.size);
    Sizes(bs);
    assert bs[i..i + 2] == [a, b] && Merge(bs, i) == bs[..i] + [m] + bs[i + 2..];
    assert bs == bs[..i] + [a, b] + bs[i + 2..];
    assert End(a) <= b.addr;
    BytesPair(a, b);
    BytesPair(m, m);
    BytesPositive(bs[..i]);
    BytesPositive(bs[i + 2..]);
    BytesConcat(bs[..i] + [a, b], bs[i + 2..]);
    BytesConcat(bs[..i], [a, b]);
    t := Bytes(bs[..i]) + 48 + a.size;
    AddrReplace(bs, i, 2, [m], t);
    AddrPair(a, b, 48 + a.size);
  }

  // ---------- merging ----------

  lemma InsideIsLow(h: Heap)
    requires BlocksOK(h.blocks, h.owned) && Ascending(h.owned) && Inside(h)
    ensures Low(h.blocks, h.owned) && Straight(h.blocks, h.owned)
  {
    InsideIffStraight(h);
  }

  /** Once a byte has moved below its place, it stays below: no later merge can bring it back. */
  lemma LoweredStays(bs: seq<Block>, cs: seq<Block>, owned: seq<nat>)
    requires Low(bs, owned) && Bytes(cs) == Bytes(bs)
    requires forall t :: 0 <= t < Bytes(bs) ==> AddrOf(cs, t) <= AddrOf(bs, t)
    ensures Low(cs, owned) && (Straight(cs, owned) ==> Straight(bs, owned))
  {
    forall t | 0 <= t < Bytes(bs) ensures AddrOf(cs, t) <= Phys(owned, t) {
      assert AddrOf(bs, t) <= Phys(owned, t);
    }
    if Straight(cs, owned) {
      forall t | 0 <= t < Bytes(bs) ensures AddrOf(bs, t) == Phys(owned, t) {
        assert AddrOf(cs, t) == Phys(owned, t) && AddrOf(cs, t) <= AddrOf(bs, t) <= Phys(owned, t);
      }
    }
  }

  lemma SameAddresses(bs: seq<Block>, cs: seq<Block>, owned: seq<nat>)
    requires Bytes(cs) == Bytes(bs) && forall t :: 0 <= t < Bytes(bs) ==> AddrOf(cs, t) == AddrOf(bs, t)
    ensures (Low(cs, owned) <==> Low(bs, owned)) && (Straight(cs, owned) <==> Straight(bs, owned))
  {
  }

  lemma MergeStraightIff(bs: seq<Block>, owned: seq<nat>, i: nat)
    requires BlocksOK(bs, owned) && Low(bs, owned) && i + 1 < |bs|
    ensures Low(Merge(bs, i), owned)
    ensures Straight(Merge(bs, i), owned) <==> Straight(bs, owned) && Touch(bs, i)
  {
    MergeOK(bs, i, owned);
    forall t | 0 <= t < Bytes(bs) ensures AddrOf(Merge(bs, i), t) <= AddrOf(bs, t) {
      MergeAddr(bs, i, t);
    }
    LoweredStays(bs, Merge(bs, i), owned);
    if Touch(bs, i) {
      forall t | 0 <= t < Bytes(bs) ensures AddrOf(Merge(bs, i), t) == AddrOf(bs, t) {
        MergeAddr(bs, i, t);
      }
      SameAddresses(bs, Merge(bs, i), owned);
    } else if Straight(bs, owned) {
      var t := MergeDrops(bs, i);
      assert AddrOf(bs, t) == Phys(owned, t);
    }
  }

  /** Merging two neighbours keeps the blocks inside the frames if and only if they touch. */
  lemma MergeInsideIff(h: Heap, i: nat)
    requires BlocksOK(h.blocks, h.owned) && Ascending(h.owned) && Inside(h) && i + 1 < |h.blocks|
    ensures Inside(h.(blocks := Merge(h.blocks, i))) <==> Touch(h.blocks, i)
  {
    MergeOK(h.blocks, i, h.owned);
    InsideIsLow(h);
    MergeStraightIff(h.blocks, h.owned, i);
    InsideIffStraight(h.(blocks := Merge(h.blocks, i)));
  }

  // ---------- kfree ----------

  /** Every free neighbour that `kfree` merges touches its block. */
  predicate KfreeTouches(h: Heap, ptr: int) {
    var bs, i := h.blocks, Find(h.blocks, ptr - 48);
    ptr == 0 || i == |bs| || bs[i].free ||
    ((i + 1 < |bs| && bs[i + 1].free ==> Touch(bs, i)) && (i > 0 && bs[i - 1].free ==> Touch(bs, i - 1)))
  }

  lemma MarkStraight(bs: seq<Block>, owned: seq<nat>, i: nat, v: bool)
    requires BlocksOK(bs, owned) && i < |bs|
    ensures Low(SetFree(bs, i, v), owned) <==> Low(bs, owned)
    ensures Straight(SetFree(bs, i, v), owned) <==> Straight(bs, owned)
  {
    SetFreeOK(bs, i, v, owned);
    forall t | 0 <= t < Bytes(bs) ensures AddrOf(SetFree(bs, i, v), t) == AddrOf(bs, t) {
      SetFreeAddr(bs, i, v, t);
    }
    SameAddresses(bs, SetFree(bs, i, v), owned);
  }

  /** The chain of `kfree` before its block is listed: marked and merged forward. */
  function Joined(bs: seq<Block>, i: nat): seq<Block>
    requires i < |bs|
  {
    var m := SetFree(bs, i, true);
    if i + 1 < |bs| && bs[i + 1].free then Merge(m, i) else m
  }

  lemma JoinedStraightIff(bs: seq<Block>, owned: seq<nat>, i: nat)
    requires BlocksOK(bs, owned) && Low(bs, owned) && i < |bs|
    ensures BlocksOK(Joined(bs, i), owned) && Low(Joined(bs, i), owned)
    ensures Straight(Joined(bs, i), owned) <==> Straight(bs, owned) && (i + 1 < |bs| && bs[i + 1].free ==> Touch(bs, i))
    ensures i < |Joined(bs, i)| && Joined(bs, i)[..i] == bs[..i] && Joined(bs, i)[i].addr == bs[i].addr
  {
    var m := SetFree(bs, i, true);
    SetFreeOK(bs, i, true, owned);
    MarkStraight(bs, owned, i, true);
    if i + 1 < |bs| && bs[i + 1].free {
      MergeOK(m, i, owned);
      MergeStraightIff(m, owned, i);
    }
  }

  lemma BackwardStraightIff(bs: seq<Block>, owned: seq<nat>, f: Heap, i: nat)
    requires BlocksOK(f.blocks, owned) && Low(f.blocks, owned) && i < |bs| && i < |f.blocks|
    requires f.blocks[..i] == bs[..i] && f.blocks[i].addr == bs[i].addr
    ensures Low(Backward(f, i).blocks, owned)
    ensures Straight(Backward(f, i).blocks, owned) <==>
      Straight(f.blocks, owned) && (i > 0 && bs[i - 1].free ==> Touch(bs, i - 1))
  {
    if i > 0 {
      assert f.blocks[i - 1] == f.blocks[..i][i - 1] == bs[i - 1];
      if bs[i - 1].free { MergeStraightIff(f.blocks, owned, i - 1); }
    }
  }

  lemma ReleaseStraightIff(h: Heap, i: nat)
    requires BlocksOK(h.blocks, h.owned) && Low(h.blocks, h.owned) && i < |h.blocks|
    ensures var bs := h.blocks; var f := Forward(h.(blocks := SetFree(bs, i, true)), i);
      && i < |f.blocks| && Low(Backward(f, i).blocks, h.owned)
      && (Straight(Backward(f, i).blocks, h.owned) <==>
            Straight(bs, h.owned) && (i + 1 < |bs| && bs[i + 1].free ==> Touch(bs, i))
            && (i > 0 && bs[i - 1].free ==> Touch(bs, i - 1)))
  {
    var f := Forward(h.(blocks := SetFree(h.blocks, i, true)), i);
    JoinedStraightIff(h.blocks, h.owned, i);
    assert f.blocks == Joined(h.blocks, i);
    BackwardStraightIff(h.blocks, h.owned, f, i);
  }

  /** On any heap of any run: after `kfree` the blocks are inside if they were and every merge it makes touches. */
  lemma KfreeStraightIff(h: Heap, ptr: int)
    requires Inv(h) && Low(h.blocks, h.owned)
    ensures var g := Kfree(h, ptr); g.owned == h.owned && Low(g.blocks, g.owned)
    ensures Straight(Kfree(h, ptr).blocks, h.owned) <==> Straight(h.blocks, h.owned) && KfreeTouches(h, ptr)
  {
    var i := Find(h.blocks, ptr - 48);
    if !(ptr == 0 || i == |h.blocks| || h.blocks[i].free) { ReleaseStraightIff(h, i); }
  }

  /** From a heap inside its frames, `kfree` leaves it inside if and only if every free neighbour it merges touches. */
  lemma KfreeInsideIff(h: Heap, ptr: int)
    requires Inv(h) && Inside(h)
    ensures Inside(Kfree(h, ptr)) <==> KfreeTouches(h, ptr)
  {
    InsideIsLow(h);
    KfreeInv(h, ptr);
    KfreeStraightIff(h, ptr);
    InsideIffStraight(Kfree(h, ptr));
  }

  // ---------- expansion ----------

  lemma {:induction false} PagesAddr(fs: seq<nat>, u: int)
    requires 0 <= u < 4096 * |fs|
    ensures AddrOf(NewPages(fs), u) == Phys(fs, u)
  {
    assert NewPages(fs)[1..] == NewPages(fs[1..]);
    if u >= 4096 {
      PagesAddr(fs[1..], u - 4096);
      PhysShift(fs, u);
    }
  }

  lemma PhysShift(fs: seq<nat>, u: int)
    requires 4096 <= u < 4096 * |fs|
    ensures Phys(fs, u) == Phys(fs[1..], u - 4096)
  {
    assert (u - 4096) / 4096 == u / 4096 - 1 && (u - 4096) % 4096 == u % 4096;
  }

  lemma {:induction false} PagesBytes(fs: seq<nat>)
    ensures Bytes(NewPages(fs)) == 4096 * |fs|
  {
    if fs != [] {
      assert NewPages(fs)[1..] == NewPages(fs[1..]);
      PagesBytes(fs[1..]);
    }
  }

  /** New pages lie in their own frames; the old bytes do not move. */
  lemma GrownByte(bs: seq<Block>, owned: seq<nat>, fs: seq<nat>, t: int)
    requires Ordered(bs) && Bytes(bs) == 4096 * |owned| && 0 <= t < 4096 * |owned + fs|
    ensures t < 4096 * |owned|
      ==> AddrOf(bs + NewPages(fs), t) == AddrOf(bs, t) && Phys(owned + fs, t) == Phys(owned, t)
    ensures t >= 4096 * |owned| ==> AddrOf(bs + NewPages(fs), t) == Phys(owned + fs, t)
  {
    var n := 4096 * |owned|;
    Sizes(bs);
    AddrConcat(bs, NewPages(fs), t);
    if t < n {
      assert t / 4096 < |owned|;
    } else {
      PagesAddr(fs, t - n);
      assert (t - n) / 4096 == t / 4096 - |owned| && (t - n) % 4096 == t % 4096;
    }
  }

  lemma GrownStraightIff(bs: seq<Block>, owned: seq<nat>, fs: seq<nat>)
    requires BlocksOK(bs, owned) && Low(bs, owned)
    ensures Low(bs + NewPages(fs), owned + fs)
    ensures Straight(bs + NewPages(fs), owned + fs) <==> Straight(bs, owned)
  {
    var cs, o := bs + NewPages(fs), owned + fs;
    BytesConcat(bs, NewPages(fs));
    PagesBytes(fs);
    forall t | 0 <= t < Bytes(cs) ensures AddrOf(cs, t) <= Phys(o, t) {
      GrownByte(bs, owned, fs, t);
    }
    if Straight(bs, owned) {
      forall t | 0 <= t < Bytes(cs) ensures AddrOf(cs, t) == Phys(o, t) {
        GrownByte(bs, owned, fs, t);
      }
    }
    if Straight(cs, o) {
      forall t | 0 <= t < Bytes(bs) ensures AddrOf(bs, t) == Phys(owned, t) {
        GrownByte(bs, owned, fs, t);
        assert AddrOf(cs, t) == Phys(o, t);
      }
    }
  }

  /** The expansion fails, or merges nothing, or the next frame starts where the last block ends. */
  predicate ExpandTouches(h: Heap, k: nat) {
    !Grow(h, k).1 || !LastFree(h.blocks) || FrameAddr(Lowest(h.pmm)) == End(h.blocks[|h.blocks| - 1])
  }

  lemma AttachStraightIff(bs: seq<Block>, cs: seq<Block>, owned: seq<nat>)
    requires BlocksOK(cs, owned) && Low(cs, owned) && |bs| < |cs| && cs[..|bs|] == bs && LastFree(bs)
    ensures Low(Merge(cs, |bs| - 1), owned)
    ensures Straight(Merge(cs, |bs| - 1), owned) <==> Straight(cs, owned) && End(bs[|bs| - 1]) == cs[|bs|].addr
  {
    assert cs[|bs| - 1] == cs[..|bs|][|bs| - 1];
    MergeStraightIff(cs, owned, |bs| - 1);
  }

  lemma ExpandChain(h: Heap, k: nat)
    requires k > 0 && Grow(h, k).1
    ensures var e, g, n := Expand(h, k).0, Grow(h, k).0, |h.blocks|;
      && e.owned == g.owned && n < |g.blocks|
      && e.blocks == if LastFree(h.blocks) then Merge(g.blocks, n - 1) else g.blocks
  {
    var g, n := Grow(h, k).0, |h.blocks|;
    FirstPageShape(h, k);
    if n > 0 { assert g.blocks[n - 1] == g.blocks[..n][n - 1]; }
  }

  lemma GrowStraightIff(h: Heap, k: nat)
    requires Inv(h) && Low(h.blocks, h.owned)
    ensures var g := Grow(h, k).0;
      BlocksOK(g.blocks, g.owned) && Low(g.blocks, g.owned)
        && (Straight(g.blocks, g.owned) <==> Straight(h.blocks, h.owned))
  {
    GrowInv(h, k);
    GrowBlocks(h, k);
    GrownStraightIff(h.blocks, h.owned, NextFrames(h.pmm, k));
  }

  lemma ListedStraightIff(h: Heap, k: nat)
    requires k > 0 && Grow(h, k).1 && BlocksOK(Grow(h, k).0.blocks, Grow(h, k).0.owned)
    requires Low(Grow(h, k).0.blocks, Grow(h, k).0.owned)
    ensures var e, g := Expand(h, k).0, Grow(h, k).0;
      Low(e.blocks, e.owned) && (Straight(e.blocks, e.owned) <==> Straight(g.blocks, g.owned) && ExpandTouches(h, k))
  {
    var g := Grow(h, k).0;
    FirstPageShape(h, k);
    ExpandChain(h, k);
    if LastFree(h.blocks) { AttachStraightIff(h.blocks, g.blocks, g.owned); }
  }

  lemma ExpandStraightIff(h: Heap, k: nat)
    requires Inv(h) && Low(h.blocks, h.owned) && k > 0
    ensures var e := Expand(h, k).0;
      Low(e.blocks, e.owned) && (Straight(e.blocks, e.owned) <==> Straight(h.blocks, h.owned) && ExpandTouches(h, k))
  {
    GrowStraightIff(h, k);
    if Grow(h, k).1 { ListedStraightIff(h, k); }
  }

  /** From a heap inside its frames, expansion leaves it inside exactly under `ExpandTouches`. */
  lemma ExpandInsideIff(h: Heap, k: nat)
    requires Inv(h) && Inside(h) && k > 0
    ensures Inside(Expand(h, k).0) <==> ExpandTouches(h, k)
  {
    InsideIsLow(h);
    ExpandInv(h, k);
    ExpandStraightIff(h, k);
    InsideIffStraight(Expand(h, k).0);
  }

  // ---------- kmalloc ----------

  lemma SplitStraight(bs: seq<Block>, owned: seq<nat>, i: nat, s: int)
    requires BlocksOK(bs, owned) && i < |bs| && 0 <= s && s % 8 == 0 && s + 96 <= bs[i].size
    ensures Low(Split(bs, i, s), owned) <==> Low(bs, owned)
    ensures Straight(Split(bs, i, s), owned) <==> Straight(bs, owned)
  {
    SplitOK(bs, i, s, owned);
    forall t | 0 <= t < Bytes(bs) ensures AddrOf(Split(bs, i, s), t) == AddrOf(bs, t) {
      SplitAddr(bs, i, s, t);
    }
    SameAddresses(bs, Split(bs, i, s), owned);
  }

  /** Carving a block, split or whole, moves no byte. */
  lemma CarveStraight(h: Heap, x: int, s: int)
    requires BlocksOK(h.blocks, h.owned) && 0 <= s && s % 8 == 0
    ensures var c := Carve(h, x, s);
      && c.owned == h.owned && (Low(c.blocks, h.owned) <==> Low(h.blocks, h.owned))
      && (Straight(c.blocks, h.owned) <==> Straight(h.blocks, h.owned))
  {
    var i := Find(h.blocks, x);
    if i < |h.blocks| {
      if h.blocks[i].size >= s + 96 {
        SplitStraight(h.blocks, h.owned, i, s);
      } else {
        MarkStraight(h.blocks, h.owned, i, false);
      }
    }
  }

  lemma TakeFitStraight(h: Heap, s: int)
    requires BlocksOK(h.blocks, h.owned) && 0 <= s && s % 8 == 0
    ensures var g := TakeFit(h, s).0;
      && g.owned == h.owned && (Low(g.blocks, h.owned) <==> Low(h.blocks, h.owned))
      && (Straight(g.blocks, h.owned) <==> Straight(h.blocks, h.owned))
  {
    var k := FirstFit(h.blocks, h.frags.list, s);
    if k < |h.frags.list| { CarveStraight(h, h.frags.list[k], s); }
  }

  lemma AllocateStraightIff(h: Heap, s: int, k: nat)
    requires Inv(h) && Low(h.blocks, h.owned) && 0 <= s && s % 8 == 0 && k > 0
    ensures var g := Allocate(h, s, k).0;
      && Low(g.blocks, g.owned)
      && (Straight(g.blocks, g.owned) <==> Straight(h.blocks, h.owned) && (ListedFit(h, s) || ExpandTouches(h, k)))
  {
    if ListedFit(h, s) {
      TakeFitStraight(h, s);
    } else {
      ExpandStraightIff(h, k);
      ExpandInv(h, k);
      TakeFitStraight(Expand(h, k).0, s);
    }
  }

  /** A call that expands nothing, or whose expansion merges only touching memory. */
  predicate KmallocTouches(h: Heap, size: nat) {
    size == 0 || ListedFit(h, RoundUp(size)) || ExpandTouches(h, PagesNeeded(RoundUp(size)))
  }

  lemma KmallocStraightIff(h: Heap, size: nat)
    requires Inv(h) && Low(h.blocks, h.owned) && size < UINT64_LIMIT
    ensures var g := Kmalloc(h, size).0;
      Low(g.blocks, g.owned)
        && (Straight(g.blocks, g.owned) <==> Straight(h.blocks, h.owned) && KmallocTouches(h, size))
  {
    RoundUpMeaning(size);
    if size > 0 { AllocateStraightIff(h, RoundUp(size), PagesNeeded(RoundUp(size))); }
  }

  /** From a heap inside its frames, `kmalloc` leaves it inside exactly under `KmallocTouches`. */
  lemma KmallocInsideIff(h: Heap, size: nat)
    requires Inv(h) && Inside(h) && size < UINT64_LIMIT
    ensures Inside(Kmalloc(h, size).0) <==> KmallocTouches(h, size)
  {
    InsideIsLow(h);
    KmallocInv(h, size);
    KmallocStraightIff(h, size);
    InsideIffStraight(Kmalloc(h, size).0);
  }

  // ---------- runs ----------

  /** Every merge that this call makes joins touching blocks. */
  predicate StepTouches(h: Heap, op: Op) {
    match op
    case Malloc(size) => KmallocTouches(h, size)
    case Free(p) => KfreeTouches(h, p)
  }

  ghost predicate RunTouches(c: Client, ops: seq<Op>)
    decreases |ops|
  {
    ops == [] || (StepTouches(c.h, ops[0]) && RunTouches(HeapRuns.Step(c, ops[0]), ops[1..]))
  }

  lemma StepStraightIff(c: Client, op: Op)
    requires Inv(c.h) && Low(c.h.blocks, c.h.owned) && Legal(c, op)
    ensures var g := HeapRuns.Step(c, op).h;
      Low(g.blocks, g.owned)
        && (Straight(g.blocks, g.owned) <==> Straight(c.h.blocks, c.h.owned) && StepTouches(c.h, op))
  {
    match op
    case Malloc(size) => KmallocStraightIff(c.h, size);
    case Free(p) => KfreeStraightIff(c.h, p);
  }

  lemma {:induction false} RunStraightIff(c: Client, ops: seq<Op>)
    requires ClientInv(c) && Low(c.h.blocks, c.h.owned) && LegalRun(c, ops)
    ensures var g := RunOps(c, ops).h;
      Low(g.blocks, g.owned) && (Straight(g.blocks, g.owned) <==> Straight(c.h.blocks, c.h.owned) && RunTouches(c, ops))
    decreases |ops|
  {
    if ops != [] {
      StepStraightIff(c, ops[0]);
      StepKeeps(c, ops[0]);
      RunStraightIff(HeapRuns.Step(c, ops[0]), ops[1..]);
    }
  }

  lemma BootStraight(p: Pmm)
    ensures var h := Boot(p); Low(h.blocks, h.owned) && Straight(h.blocks, h.owned)
  {
    var e := Heap([], Frags([], {}), [], p);
    assert Inv(e) && Bytes(e.blocks) == 0;
    ExpandStraightIff(e, PagesFor(16384));
  }

  /**
    Over every legal run from boot: at the end all blocks lie inside the heap's
    own frames if and only if every merge made on the way joined touching
    blocks.  A single merge across a gap is never made good again.
   */
  lemma BootRunInsideIff(p: Pmm, ops: seq<Op>)
    requires LegalRun(Start(p), ops)
    ensures Inside(RunOps(Start(p), ops).h) <==> RunTouches(Start(p), ops)
  {
    StartInv(p);
    BootStraight(p);
    RunStraightIff(Start(p), ops);
    BootRun(p, ops);
    InsideIffStraight(RunOps(Start(p), ops).h);
  }

  /** In such a run no held byte lies in a frame that was reserved at boot. */
  lemma TouchingRunAvoidsReserved(p: Pmm, ops: seq<Op>, a: int, x: int, r: nat)
    requires LegalRun(Start(p), ops) && RunTouches(Start(p), ops)
    requires var c := RunOps(Start(p), ops); a in c.live && a <= x < a + 48 + c.live[a].size
    requires r in p.used
    ensures !InFrame(x, r)
  {
    BootRunInsideIff(p, ops);
    BootRun(p, ops);
    var c := RunOps(Start(p), ops);
    var i := HeldIndex(c, a);
    InsideAvoids(c.h, p, i, x, r);
  }

  // ---------- what escapes ----------

  /** The last byte of the chain, by number and by address. */
  lemma {:induction false} LastByte(bs: seq<Block>)
    requires bs != [] && forall i :: 0 <= i < |bs| ==> bs[i].size >= 0
    ensures AddrOf(bs, Bytes(bs) - 1) == End(bs[|bs| - 1]) - 1 && Bytes(bs) > 0
  {
    var r := bs[1..];
    if r == [] {
      assert Bytes(bs) == 48 + bs[0].size;
    } else {
      LastByte(r);
      assert r[|r| - 1] == bs[|bs| - 1];
    }
  }

  /** The last block of a heap inside its frames ends where its last frame does. */
  lemma LastEndsAtTop(h: Heap)
    requires Inv(h) && Inside(h) && h.blocks != []
    ensures End(h.blocks[|h.blocks| - 1]) == Top(h.owned) && h.owned != [] && BlockOK(h.blocks[|h.blocks| - 1])
  {
    var t := Bytes(h.blocks) - 1;
    InsideIsLow(h);
    Sizes(h.blocks);
    LastByte(h.blocks);
    assert AddrOf(h.blocks, t) == Phys(h.owned, t);
    assert t / 4096 == |h.owned| - 1 && t % 4096 == 4095;
  }

  /** The byte at the top of a heap belongs to none of its frames, old or new, if the next frame lies beyond. */
  lemma OutsideOwned(h: Heap, k: nat)
    requires Inv(h) && h.owned != [] && k > 0 && Grow(h, k).1 && FrameAddr(Lowest(h.pmm)) != Top(h.owned)
    ensures !InOwned(Expand(h, k).0.owned, Top(h.owned))
  {
    var g, n := Grow(h, k).0, |h.owned|;
    GrowInv(h, k);
    GrowBlocks(h, k);
    assert g.owned[n - 1] == h.owned[n - 1];
    NotBetween(g.owned, n);
  }

  lemma SeparateFrames(owned: seq<nat>, n: nat, i: nat)
    requires 0 < n < |owned| && i < |owned| && Ascending(owned) && owned[n] != owned[n - 1] + 1
    ensures !InFrame(FrameAddr(owned[n - 1]) + 4096, owned[i])
  {
    assert owned[n - 1] + 1 < owned[n];
    assert i < n ==> owned[i] <= owned[n - 1];
    assert i >= n ==> owned[n] <= owned[i];
  }

  lemma NotBetween(owned: seq<nat>, n: nat)
    requires 0 < n < |owned| && Ascending(owned) && owned[n] != owned[n - 1] + 1
    ensures !InOwned(owned, FrameAddr(owned[n - 1]) + 4096)
  {
    forall f | f in owned ensures !InFrame(FrameAddr(owned[n - 1]) + 4096, f) {
      var i :| 0 <= i < |owned| && owned[i] == f;
      SeparateFrames(owned, n, i);
    }
  }

  lemma MergedHead(h: Heap, k: nat)
    requires Inv(h) && LastFree(h.blocks) && k > 0 && Grow(h, k).1
    ensures var e := Expand(h, k).0; e.frags.list != [] && e.frags.list[0] == h.blocks[|h.blocks| - 1].addr
  {
    var g, n := Grow(h, k).0, |h.blocks|;
    FirstPage(h, k);
    assert g.blocks[n - 1] == g.blocks[..n][n - 1];
  }

  /**
    When the next frame is not adjacent, an allocation that outgrows the free
    last block is handed bytes of a frame that the heap never obtained.
   */
  lemma GapAllocationEscapes(h: Heap, s: int, k: nat)
    requires Inv(h) && Inside(h) && LastFree(h.blocks) && k > 0 && !ListedFit(h, s) && !ExpandTouches(h, k)
    requires var l := h.blocks[|h.blocks| - 1]; l.size < s <= l.size + 4096
    ensures var (g, p) := Allocate(h, s, k); p > 0 && p <= Top(h.owned) < p + s && !InOwned(g.owned, Top(h.owned))
  {
    var e, n := Expand(h, k).0, |h.blocks|;
    ExpandBlocks(h, k);
    LastEndsAtTop(h);
    OutsideOwned(h, k);
    MergedHead(h, k);
    ExpandInv(h, k);
    FindUnique(e.blocks, n - 1);
    assert Fits(e.blocks, e.frags.list[0], s);
  }
}
