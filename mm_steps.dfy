/**
  The header writes of kern/mm.c, one step at a time, as functions on the
  sequence of header cells of a region, each with the lemma that the step
  takes a valid region (RegionOk) to a valid region with a known new view.
  The methods of module Mm perform exactly these writes on the header array.
*/
module MmSteps {
  import opened MmLayout

  // ---------------------------------------------------------------------
  // Facts about the ring of a valid region

  /** The free ring of a valid region and the position of a free block in it. */
  lemma RingFacts(h: seq<Header>, v: seq<Blk>, first: nat, k: nat)
    requires RegionOk(h, v, first) && k < |v| && v[k].free
    ensures var r := FreeStarts(v); var t := RingPos(v, k);
      t < |r| && r[t] == v[k].start && Increasing(r) &&
      (forall j :: 0 <= j < |r| ==> UniqueAt(r, j)) &&
      h[v[k].start].next == r[Nxt(t, |r|)] && h[v[k].start].prev == r[Prv(t, |r|)] &&
      h[v[k].start].next < |h| && h[v[k].start].prev < |h|
  {
    RingPosOf(v, k);
    RingOrdered(h, v);
    IncreasingUnique(FreeStarts(v));
    var r := FreeStarts(v);
    var t := RingPos(v, k);
    assert h[r[t]].next == r[Nxt(t, |r|)];
    assert h[r[t]].prev == r[Prv(t, |r|)];
  }

  /**
    The ring members below block k are exactly the first RingPos(v, k) of
    them: a block's ring position counts the free blocks below it.
  */
  lemma RingSplitsAt(v: seq<Blk>, total: nat, k: nat)
    requires Tiles(v, total) && k < |v|
    ensures var r := FreeStarts(v); var t := RingPos(v, k);
      t <= |r| &&
      (forall j :: 0 <= j < t ==> r[j] < v[k].start) &&
      (forall j :: t <= j < |r| ==> (r[j] > v[k].start || (r[j] == v[k].start && j == t && v[k].free)))
  {
    var lo, hi := v[..k], v[k + 1..];
    assert (forall i :: 0 <= i < |lo| ==> lo[i].start < v[k].start) &&
      (forall i :: 0 <= i < |hi| ==> v[k].start + 1 <= hi[i].start) by {
      TilesOrdered(v, total);
    }
    FreeStartsBelow(lo, v[k].start);
    FreeStartsAbove(hi, v[k].start + 1);
    RingPosOf(v, k);
    FreeStartsOne(v[k]);
    OrderedAround(FreeStarts(v), FreeStarts(lo), FreeStarts([v[k]]), FreeStarts(hi), v[k].start, v[k].free);
  }

  /** A list made of smaller values, then x or nothing, then larger values, is split at x. */
  lemma OrderedAround(r: seq<nat>, a: seq<nat>, b: seq<nat>, c: seq<nat>, x: nat, isIn: bool)
    requires r == a + b + c && b == if isIn then [x] else []
    requires forall j :: 0 <= j < |a| ==> a[j] < x
    requires forall j :: 0 <= j < |c| ==> x + 1 <= c[j]
    ensures forall j :: 0 <= j < |a| ==> r[j] < x
    ensures forall j :: |a| <= j < |r| ==> r[j] > x || (r[j] == x && j == |a| && isIn)
  {
    forall j | 0 <= j < |a|
      ensures r[j] < x
    {
      assert r[j] == a[j];
    }
    forall j | |a| <= j < |r|
      ensures r[j] > x || (r[j] == x && j == |a| && isIn)
    {
      if j >= |a| + |b| {
        assert r[j] == c[j - |a| - |b|];
      }
    }
  }

  /** Whether a block is free can be read off its header's magic. */
  lemma MagicTellsFree(h: seq<Header>, v: seq<Blk>, k: nat)
    requires Agrees(h, v) && k < |v|
    ensures v[k].free <==> h[v[k].start].magic == FREE_MAGIC
  {
  }

  /** The block whose end is the start of block k is block k - 1. */
  lemma AdjacentBlock(v: seq<Blk>, total: nat, j: nat, k: nat)
    requires Tiles(v, total) && j < |v| && k < |v| && End(v[j]) == v[k].start
    ensures k == j + 1
  {
    TilesOrdered(v, total);
    assert v[j].start < v[k].start;
    assert j + 1 < |v| ==> v[j + 1].start == End(v[j]);
  }

  /** The ring member whose cell is x is the start of some free block. */
  lemma MemberIsBlock(v: seq<Blk>, r: seq<nat>, j: nat) returns (k: nat)
    requires r == FreeStarts(v) && j < |r|
    ensures k < |v| && v[k].free && v[k].start == r[j] && RingPos(v, k) == j
  {
    k := FreeIndex(v, j);
  }

  /**
    The ring successor of free block k is the block that follows it in
    memory exactly when that block is free.
  */
  lemma NextIsNeighbour(h: seq<Header>, v: seq<Blk>, first: nat, k: nat)
    requires RegionOk(h, v, first) && k < |v| && v[k].free
    ensures h[v[k].start].next < |h|
    ensures End(v[k]) == h[v[k].start].next <==> k + 1 < |v| && v[k + 1].free
  {
    RingFacts(h, v, first, k);
    var r := FreeStarts(v);
    var t := RingPos(v, k);
    var nx := h[v[k].start].next;
    if End(v[k]) == nx {
      var j := MemberIsBlock(v, r, Nxt(t, |r|));
      AdjacentBlock(v, |h|, k, j);
    }
    if k + 1 < |v| && v[k + 1].free {
      RingFacts(h, v, first, k + 1);
      RingPosStep(v, k);
      assert v[k + 1].start == End(v[k]);
    }
  }

  /** The ring predecessor of free block k ends where it starts exactly when
      it is the block just below. */
  lemma PrevIsNeighbour(h: seq<Header>, v: seq<Blk>, first: nat, k: nat)
    requires RegionOk(h, v, first) && k < |v| && v[k].free
    ensures var q := h[v[k].start].prev;
      q < |h| && (q + h[q].size == v[k].start <==> 0 < k && v[k - 1].free)
  {
    RingFacts(h, v, first, k);
    var r := FreeStarts(v);
    var t := RingPos(v, k);
    var q := h[v[k].start].prev;
    var j := MemberIsBlock(v, r, Prv(t, |r|));
    assert h[q].size == v[j].size;
    if q + h[q].size == v[k].start {
      AdjacentBlock(v, |h|, j, k);
    }
    if 0 < k && v[k - 1].free {
      RingPosStep(v, k - 1);
      assert End(v[k - 1]) == v[k].start;
      assert RingPos(v, k - 1) == Prv(t, |r|);
      RingFacts(h, v, first, k - 1);
    }
  }

  /** A free block advances the ring position of its successor by one. */
  lemma RingPosStep(v: seq<Blk>, k: nat)
    requires k + 1 < |v|
    ensures RingPos(v, k + 1) == RingPos(v, k) + (if v[k].free then 1 else 0)
  {
    assert v[..k + 1] == v[..k] + [v[k]];
    FreeStartsConcat(v[..k], [v[k]]);
    FreeStartsOne(v[k]);
  }

  // ---------------------------------------------------------------------
  // split_chunk

  /**
    split_chunk's writes: q = p + size gets free magic, the rest of p's
    cells and p's old successor; p points at q, its old successor points
    back at q, and p keeps `size` cells.
  */
  function SplitHeaders(h: seq<Header>, p: nat, size: nat): seq<Header>
    requires p + size < |h| && size <= h[p].size && h[p].next < |h|
  {
    var q := p + size;
    var nx := h[p].next;
    var h1 := h[q := Header(p, nx, h[p].size - size, FREE_MAGIC)];
    var h2 := h1[p := h1[p].(next := q)];
    var h3 := h2[nx := h2[nx].(prev := q)];
    h3[p := h3[p].(size := size)]
  }

  lemma SplitHeadersAt(h: seq<Header>, p: nat, size: nat)
    requires p + size < |h| && 0 < size <= h[p].size && h[p].next < |h| && h[p].next != p + size
    ensures var h2 := SplitHeaders(h, p, size); var q := p + size; var nx := h[p].next;
      |h2| == |h| &&
      h2[q] == Header(p, nx, h[p].size - size, FREE_MAGIC) &&
      h2[p] == Header(if nx == p then q else h[p].prev, q, size, h[p].magic) &&
      (nx != p ==> h2[nx] == h[nx].(prev := q)) &&
      (forall y :: 0 <= y < |h| && y != p && y != q && y != nx ==> h2[y] == h[y])
  {
  }

  /** split_chunk on free block k keeps the region valid; the new free block
      follows k in the ring. */
  lemma SplitOk(h: seq<Header>, v: seq<Blk>, first: nat, k: nat, size: nat)
    requires RegionOk(h, v, first) && k < |v| && v[k].free && 0 < size < v[k].size
    ensures v[k].start + size < |h| && h[v[k].start].next < |h| && size <= h[v[k].start].size
    ensures RegionOk(SplitHeaders(h, v[k].start, size), SplitView(v, k, size), first)
  {
    SplitBounds(h, v, first, k, size);
    SplitShape(h, v, k, size);
    SplitAgrees(h, v, first, k, size);
    SplitRing(h, v, first, k, size);
  }

  lemma SplitBounds(h: seq<Header>, v: seq<Blk>, first: nat, k: nat, size: nat)
    requires RegionOk(h, v, first) && k < |v| && v[k].free && 0 < size < v[k].size
    ensures var r, t := FreeStarts(v), RingPos(v, k);
      v[k].start + size < |h| && t < |r| && r[t] == v[k].start && h[v[k].start].next == r[Nxt(t, |r|)] &&
      h[v[k].start].next < |h| && size <= h[v[k].start].size
  {
    BlockInside(v, |h|, k);
    RingFacts(h, v, first, k);
  }

  /** The view after the split tiles the region; the new block joins the ring after k. */
  lemma SplitShape(h: seq<Header>, v: seq<Blk>, k: nat, size: nat)
    requires Tiles(v, |h|) && k < |v| && v[k].free && 0 < size < v[k].size
    ensures var r, t := FreeStarts(v), RingPos(v, k);
      t < |r| && Tiles(SplitView(v, k, size), |h|) &&
      FreeStarts(SplitView(v, k, size)) == r[..t + 1] + [v[k].start + size] + r[t + 1..] &&
      forall j :: 0 <= j < |r| ==> r[j] != v[k].start + size
  {
    var r, t := FreeStarts(v), RingPos(v, k);
    SplitViewFacts(v, |h|, k, size);
    RingOrdered(h, SplitView(v, k, size));
    NotInInsert(r, t + 1, v[k].start + size);
  }

  lemma SplitRing(h: seq<Header>, v: seq<Blk>, first: nat, k: nat, size: nat)
    requires RegionOk(h, v, first) && k < |v| && v[k].free && 0 < size < v[k].size
    requires v[k].start + size < |h| && h[v[k].start].next < |h| && size <= h[v[k].start].size
    ensures Linked(SplitHeaders(h, v[k].start, size), FreeStarts(SplitView(v, k, size)))
  {
    SplitBounds(h, v, first, k, size);
    SplitShape(h, v, k, size);
    RingFacts(h, v, first, k);
    SplitLinked(h, FreeStarts(v), RingPos(v, k), v[k].start, size, FreeStarts(SplitView(v, k, size)));
  }

  lemma SplitAgrees(h: seq<Header>, v: seq<Blk>, first: nat, k: nat, size: nat)
    requires RegionOk(h, v, first) && k < |v| && v[k].free && 0 < size < v[k].size
    requires v[k].start + size < |h| && h[v[k].start].next < |h| && size <= h[v[k].start].size
    requires h[v[k].start].next != v[k].start + size
    ensures Agrees(SplitHeaders(h, v[k].start, size), SplitView(v, k, size))
  {
    var p := v[k].start;
    var q := p + size;
    var h2 := SplitHeaders(h, p, size);
    SplitHeadersAt(h, p, size);
    var a, b := Blk(p, size, true), Blk(q, v[k].size - size, true);
    assert Agrees(h2, [a, b]);
    assert SplitView(v, k, size) == v[..k] + [a, b] + v[k + 1..];
    forall y | 0 <= y < |h| && (y < v[k].start || y >= End(v[k]))
      ensures SameShape(h, h2, y)
    {
    }
    AgreesSplice(h, h2, v, k, k + 1, [a, b]);
  }

  lemma SplitLinked(h: seq<Header>, r: seq<nat>, t: nat, p: nat, size: nat, r2: seq<nat>)
    requires Linked(h, r) && t < |r| && r[t] == p && 0 < size && p + size < |h|
    requires forall j :: 0 <= j < |r| ==> UniqueAt(r, j)
    requires h[p].next == r[Nxt(t, |r|)] && h[p].next < |h| && size <= h[p].size
    requires forall j :: 0 <= j < |r| ==> r[j] != p + size
    requires r2 == r[..t + 1] + [p + size] + r[t + 1..]
    ensures Linked(SplitHeaders(h, p, size), r2)
  {
    SplitInsertLinks(h, r, t, p, size);
    assert UniqueAt(r, InsPrevIdx(|r|, t + 1)) && UniqueAt(r, InsNextIdx(|r|, t + 1));
    LinkedInsert(h, r, t + 1, p + size, SplitHeaders(h, p, size), r2);
  }

  /** split_chunk's writes insert the new block after p in the ring. */
  lemma SplitInsertLinks(h: seq<Header>, r: seq<nat>, t: nat, p: nat, size: nat)
    requires Linked(h, r) && t < |r| && r[t] == p && 0 < size && p + size < |h|
    requires h[p].next == r[Nxt(t, |r|)] && h[p].next < |h| && size <= h[p].size
    requires forall j :: 0 <= j < |r| ==> r[j] != p + size
    ensures |SplitHeaders(h, p, size)| == |h|
    ensures InsertLinks(h, r, t + 1, p + size, SplitHeaders(h, p, size))
  {
    var q := p + size;
    var nx := h[p].next;
    var h2 := SplitHeaders(h, p, size);
    SplitHeadersAt(h, p, size);
    assert InsPrev(r, t + 1) == p;
    assert InsNext(r, t + 1) == nx;
    forall j | 0 <= j < |r| && r[j] != p && r[j] != nx
      ensures SameLinks(h, h2, r[j])
    {
      assert h2[r[j]] == h[r[j]];
    }
  }

  // ---------------------------------------------------------------------
  // Taking a block out of the ring

  /**
    The unlink writes of grub_real_malloc (and, in the other order, of the
    in-place branch of grub_rememalign_policy): x's predecessor points
    forward to x's successor, which points back at the predecessor.
  */
  function UnlinkHeaders(h: seq<Header>, x: nat): seq<Header>
    requires x < |h| && h[x].prev < |h| && h[x].next < |h|
  {
    var pr, nx := h[x].prev, h[x].next;
    var h1 := h[pr := h[pr].(next := nx)];
    h1[nx := h1[nx].(prev := pr)]
  }

  lemma UnlinkHeadersAt(h: seq<Header>, x: nat)
    requires x < |h| && h[x].prev < |h| && h[x].next < |h|
    ensures var h2 := UnlinkHeaders(h, x); var pr, nx := h[x].prev, h[x].next;
      |h2| == |h| &&
      h2[pr].next == nx && h2[nx].prev == pr &&
      (pr != nx ==> h2[pr] == h[pr].(next := nx) && h2[nx] == h[nx].(prev := pr)) &&
      (forall y :: 0 <= y < |h| && y != pr && y != nx ==> h2[y] == h[y]) &&
      (forall y :: 0 <= y < |h| ==> SameShape(h, h2, y))
  {
  }

  /** Unlinking the member at position u leaves the others linked in order. */
  lemma UnlinkLinked(h: seq<Header>, r: seq<nat>, u: nat, r2: seq<nat>)
    requires Linked(h, r) && 2 <= |r| && u < |r|
    requires forall j :: 0 <= j < |r| ==> UniqueAt(r, j)
    requires r2 == r[..u] + r[u + 1..]
    ensures h[r[u]].prev < |h| && h[r[u]].next < |h|
    ensures Linked(UnlinkHeaders(h, r[u]), r2)
  {
    var x := r[u];
    assert h[r[u]].prev == r[Prv(u, |r|)] && h[r[u]].next == r[Nxt(u, |r|)];
    var h2 := UnlinkHeaders(h, x);
    assert RemoveLinks(h, r, u, h2) by {
      UnlinkHeadersAt(h, x);
      assert UniqueAt(r, Prv(u, |r|)) && UniqueAt(r, Nxt(u, |r|));
      forall j | 0 <= j < |r| && j != u && j != Prv(u, |r|) && j != Nxt(u, |r|)
        ensures SameLinks(h, h2, r[j])
      {
        assert h2[r[j]] == h[r[j]];
      }
    }
    LinkedRemove(h, r, u, h2, r2);
  }

  // ---------------------------------------------------------------------
  // grub_real_malloc: the whole block is taken

  /** The block p leaves the ring and gets the alloc magic. */
  function AllocWholeHeaders(h: seq<Header>, p: nat): seq<Header>
    requires p < |h| && h[p].prev < |h| && h[p].next < |h|
  {
    var h1 := UnlinkHeaders(h, p);
    h1[p := h1[p].(magic := ALLOC_MAGIC)]
  }

  /**
    Taking the whole free block k keeps the region valid. `first` moves on
    to the block's successor when it pointed at the block; when the block
    was the only free one, `first` stays on it and now sees the alloc magic.
  */
  lemma AllocWholeOk(h: seq<Header>, v: seq<Blk>, first: nat, k: nat)
    requires RegionOk(h, v, first) && k < |v| && v[k].free
    ensures h[v[k].start].prev < |h| && h[v[k].start].next < |h|
    ensures RegionOk(AllocWholeHeaders(h, v[k].start), Mark(v, k, false),
      if v[k].start == first then h[v[k].start].next else first)
  {
    RingFacts(h, v, first, k);
    MarkFacts(v, |h|, k, false);
    AllocWholeAgrees(h, v, first, k);
    AllocWholeRing(h, v, first, k);
    AllocWholeFirst(h, v, first, k);
  }

  lemma AllocWholeAgrees(h: seq<Header>, v: seq<Blk>, first: nat, k: nat)
    requires RegionOk(h, v, first) && k < |v| && v[k].free
    requires h[v[k].start].prev < |h| && h[v[k].start].next < |h|
    ensures Agrees(AllocWholeHeaders(h, v[k].start), Mark(v, k, false))
  {
    var p := v[k].start;
    var v2 := Mark(v, k, false);
    var h2 := AllocWholeHeaders(h, p);
    UnlinkHeadersAt(h, p);
    forall i | 0 <= i < |v2|
      ensures v2[i].start < |h2| && h2[v2[i].start].size == v2[i].size && h2[v2[i].start].magic == MagicOf(v2[i].free)
    {
      if i != k {
        BlockStartsDistinct(v, |h|, i, k);
        assert SameShape(h, UnlinkHeaders(h, p), v[i].start);
      } else {
        assert SameShape(h, UnlinkHeaders(h, p), p);
      }
    }
  }

  lemma AllocWholeRing(h: seq<Header>, v: seq<Blk>, first: nat, k: nat)
    requires RegionOk(h, v, first) && k < |v| && v[k].free
    requires h[v[k].start].prev < |h| && h[v[k].start].next < |h|
    ensures Linked(AllocWholeHeaders(h, v[k].start), FreeStarts(Mark(v, k, false)))
  {
    var r, t := FreeStarts(v), RingPos(v, k);
    assert t < |r| && r[t] == v[k].start && (forall j :: 0 <= j < |r| ==> UniqueAt(r, j)) by {
      RingFacts(h, v, first, k);
    }
    assert FreeStarts(Mark(v, k, false)) == r[..t] + r[t + 1..] by {
      MarkRing(v, k, false);
    }
    AllocWholeRingAt(h, r, t, FreeStarts(Mark(v, k, false)));
  }

  /** The ring-level core of AllocWholeRing: r without its member at t stays linked. */
  lemma AllocWholeRingAt(h: seq<Header>, r: seq<nat>, t: nat, r2: seq<nat>)
    requires Linked(h, r) && t < |r| && r[t] < |h|
    requires forall j :: 0 <= j < |r| ==> UniqueAt(r, j)
    requires h[r[t]].prev < |h| && h[r[t]].next < |h|
    requires r2 == r[..t] + r[t + 1..]
    ensures Linked(AllocWholeHeaders(h, r[t]), r2)
  {
    if |r| == 1 {
      assert r2 == [];
    } else {
      UnlinkLinked(h, r, t, r2);
      LinkedMagic(UnlinkHeaders(h, r[t]), r2, r[t], ALLOC_MAGIC);
    }
  }

  /** Rewriting one header's magic leaves every ring linked as before. */
  lemma LinkedMagic(h: seq<Header>, r: seq<nat>, p: nat, m: nat)
    requires Linked(h, r) && p < |h|
    ensures Linked(h[p := h[p].(magic := m)], r)
  {
    var h2 := h[p := h[p].(magic := m)];
    forall j | 0 <= j < |r|
      ensures SameLinks(h, h2, r[j])
    {
    }
    LinkedFrame(h, r, h2);
  }

  lemma AllocWholeFirst(h: seq<Header>, v: seq<Blk>, first: nat, k: nat)
    requires RegionOk(h, v, first) && k < |v| && v[k].free
    requires h[v[k].start].prev < |h| && h[v[k].start].next < |h|
    ensures FirstOk(AllocWholeHeaders(h, v[k].start), Mark(v, k, false),
      if v[k].start == first then h[v[k].start].next else first)
  {
    var p := v[k].start;
    var r, t := FreeStarts(v), RingPos(v, k);
    RingFacts(h, v, first, k);
    MarkRing(v, k, false);
    var r2 := FreeStarts(Mark(v, k, false));
    UnlinkHeadersAt(h, p);
    if |r| == 1 {
      assert first == p && h[p].next == p;
    } else if p == first {
      assert t == 0;
      assert r2[0] == r[1];
    } else {
      assert t != 0;
      assert r2[0] == r[0];
    }
  }

  /** Different blocks start at different cells. */
  lemma BlockStartsDistinct(v: seq<Blk>, total: nat, i: nat, k: nat)
    requires Tiles(v, total) && i < |v| && k < |v| && i != k
    ensures v[i].start != v[k].start
  {
    TilesOrdered(v, total);
  }

  // ---------------------------------------------------------------------
  // grub_real_malloc: the tail of the block is taken

  /**
    The tail writes of grub_real_malloc: p keeps all but the last n of its
    cells; a header with alloc magic and size n is written where they begin.
    The new header's links are whatever the cell held before.
  */
  function TailHeaders(h: seq<Header>, p: nat, n: nat): seq<Header>
    requires p < |h| && n <= h[p].size && p + h[p].size - n < |h|
  {
    var s := h[p].size;
    var h1 := h[p := h[p].(size := s - n)];
    h1[p + s - n := h1[p + s - n].(size := n, magic := ALLOC_MAGIC)]
  }

  lemma TailOk(h: seq<Header>, v: seq<Blk>, first: nat, k: nat, n: nat)
    requires RegionOk(h, v, first) && k < |v| && v[k].free && 0 < n < v[k].size
    ensures v[k].start + v[k].size - n < |h| && n <= h[v[k].start].size
    ensures RegionOk(TailHeaders(h, v[k].start, n), TakeTailView(v, k, n), first)
  {
    BlockInside(v, |h|, k);
    TakeTailFacts(v, |h|, k, n);
    TailAgrees(h, v, first, k, n);
    TailRing(h, v, first, k, n);
  }

  lemma TailAgrees(h: seq<Header>, v: seq<Blk>, first: nat, k: nat, n: nat)
    requires RegionOk(h, v, first) && k < |v| && v[k].free && 0 < n < v[k].size
    requires v[k].start + v[k].size - n < |h|
    ensures Agrees(TailHeaders(h, v[k].start, n), TakeTailView(v, k, n))
  {
    var p := v[k].start;
    var h2 := TailHeaders(h, p, n);
    var a, b := Blk(p, v[k].size - n, true), Blk(p + v[k].size - n, n, false);
    assert Agrees(h2, [a, b]);
    assert TakeTailView(v, k, n) == v[..k] + [a, b] + v[k + 1..];
    forall y | 0 <= y < |h| && (y < v[k].start || y >= End(v[k]))
      ensures SameShape(h, h2, y)
    {
    }
    AgreesSplice(h, h2, v, k, k + 1, [a, b]);
  }

  lemma TailRing(h: seq<Header>, v: seq<Blk>, first: nat, k: nat, n: nat)
    requires RegionOk(h, v, first) && k < |v| && v[k].free && 0 < n < v[k].size
    requires v[k].start + v[k].size - n < |h|
    ensures Linked(TailHeaders(h, v[k].start, n), FreeStarts(v))
  {
    var p := v[k].start;
    var y := p + v[k].size - n;
    var r := FreeStarts(v);
    var h2 := TailHeaders(h, p, n);
    forall j | 0 <= j < |r|
      ensures r[j] < |h| && SameLinks(h, h2, r[j])
    {
      var i := MemberIsBlock(v, r, j);
      BlockInside(v, |h|, k);
      if i != k {
        BlockInside(v, |h|, i);
        assert r[j] != y;
      }
    }
    LinkedFrame(h, r, h2);
  }

  // ---------------------------------------------------------------------
  // grub_real_malloc as a whole

  /**
    split_chunk(p, want) followed by taking the whole first part (want == n)
    or its last n cells (want > n) is the Carve of n cells at offset
    want - n.
  */
  lemma CarveBySteps(v: seq<Blk>, k: nat, want: nat, n: nat)
    requires k < |v| && v[k].free && 0 < n <= want <= v[k].size
    ensures var v1 := if want < v[k].size then SplitView(v, k, want) else v;
      k < |v1| && v1[k] == Blk(v[k].start, want, true) &&
      (want == n ==> Mark(v1, k, false) == Carve(v, k, 0, n)) &&
      (want > n ==> TakeTailView(v1, k, n) == Carve(v, k, want - n, n))
  {
    var b := v[k];
    var rest := if want < b.size then [Blk(b.start + want, b.size - want, true)] else [];
    var v1 := if want < b.size then SplitView(v, k, want) else v;
    assert v1 == v[..k] + [Blk(b.start, want, true)] + (rest + v[k + 1..]) by {
      if want < b.size {
        assert [Blk(b.start, want, true), Blk(b.start + want, b.size - want, true)] == [Blk(b.start, want, true)] + rest;
      } else {
        assert v == v[..k] + [v[k]] + v[k + 1..];
      }
    }
    SpliceOne(v[..k], Blk(b.start, want, true), rest + v[k + 1..]);
    if want == n {
      CarveWholeStep(v, k, n, rest, v1);
    } else {
      CarveTailStep(v, k, want, n, rest, v1);
    }
  }

  lemma CarveWholeStep(v: seq<Blk>, k: nat, n: nat, rest: seq<Blk>, v1: seq<Blk>)
    requires k < |v| && v[k].free && 0 < n <= v[k].size
    requires rest == if n < v[k].size then [Blk(v[k].start + n, v[k].size - n, true)] else []
    requires v1 == v[..k] + [Blk(v[k].start, n, true)] + (rest + v[k + 1..])
    ensures k < |v1| && Mark(v1, k, false) == Carve(v, k, 0, n)
  {
    var x := Blk(v[k].start, n, false);
    SpliceOne(v[..k], Blk(v[k].start, n, true), rest + v[k + 1..]);
    assert Mark(v1, k, false) == v[..k] + [x] + (rest + v[k + 1..]);
    assert CarveMid(v[k], 0, n) == [x] + rest;
    assert v[..k] + [x] + (rest + v[k + 1..]) == v[..k] + ([x] + rest) + v[k + 1..];
  }

  lemma CarveTailStep(v: seq<Blk>, k: nat, want: nat, n: nat, rest: seq<Blk>, v1: seq<Blk>)
    requires k < |v| && v[k].free && 0 < n < want <= v[k].size
    requires rest == if want < v[k].size then [Blk(v[k].start + want, v[k].size - want, true)] else []
    requires v1 == v[..k] + [Blk(v[k].start, want, true)] + (rest + v[k + 1..])
    ensures k < |v1| && v1[k].size == want && TakeTailView(v1, k, n) == Carve(v, k, want - n, n)
  {
    var pair := [Blk(v[k].start, want - n, true), Blk(v[k].start + want - n, n, false)];
    SpliceOne(v[..k], Blk(v[k].start, want, true), rest + v[k + 1..]);
    assert TakeTailView(v1, k, n) == v[..k] + pair + (rest + v[k + 1..]);
    assert CarveMid(v[k], want - n, n) == pair + rest;
    assert v[..k] + pair + (rest + v[k + 1..]) == v[..k] + (pair + rest) + v[k + 1..];
  }

  // ---------------------------------------------------------------------
  // grub_free

  /** The region's `first` header shows the alloc magic exactly when no block is free. */
  lemma FirstTellsEmpty(h: seq<Header>, v: seq<Blk>, first: nat)
    requires RegionOk(h, v, first)
    ensures h[first].magic == ALLOC_MAGIC <==> |FreeStarts(v)| == 0
  {
    if |FreeStarts(v)| > 0 {
      var k := MemberIsBlock(v, FreeStarts(v), 0);
    }
  }

  /** Freeing into an empty ring: p becomes a ring of its own and `first`. */
  function FreeAloneHeaders(h: seq<Header>, p: nat): seq<Header>
    requires p < |h|
  {
    h[p := Header(p, p, h[p].size, FREE_MAGIC)]
  }

  lemma FreeAloneOk(h: seq<Header>, v: seq<Blk>, first: nat, k: nat)
    requires RegionOk(h, v, first) && k < |v| && !v[k].free && |FreeStarts(v)| == 0
    ensures RegionOk(FreeAloneHeaders(h, v[k].start), Mark(v, k, true), v[k].start)
  {
    var p := v[k].start;
    var h2 := FreeAloneHeaders(h, p);
    var v2 := Mark(v, k, true);
    MarkFacts(v, |h|, k, true);
    assert FreeStarts(v2) == [p];
    forall i | 0 <= i < |v2|
      ensures v2[i].start < |h2| && h2[v2[i].start].size == v2[i].size && h2[v2[i].start].magic == MagicOf(v2[i].free)
    {
      if i != k {
        BlockStartsDistinct(v, |h|, i, k);
      }
    }
  }

  /**
    The link writes of grub_free: p gets the free magic and goes between q
    and q's successor.
  */
  function LinkHeaders(h: seq<Header>, p: nat, q: nat): seq<Header>
    requires p < |h| && q < |h| && h[q].next < |h|
  {
    var nx := h[q].next;
    var h1 := h[p := h[p].(magic := FREE_MAGIC, next := nx)];
    var h2 := h1[nx := h1[nx].(prev := p)];
    var h3 := h2[q := h2[q].(next := p)];
    h3[p := h3[p].(prev := q)]
  }

  lemma LinkHeadersAt(h: seq<Header>, p: nat, q: nat)
    requires p < |h| && q < |h| && h[q].next < |h| && p != q && p != h[q].next
    ensures var h2 := LinkHeaders(h, p, q); var nx := h[q].next;
      |h2| == |h| &&
      h2[p] == Header(q, nx, h[p].size, FREE_MAGIC) &&
      h2[q].next == p && h2[nx].prev == p &&
      (q != nx ==> h2[q] == h[q].(next := p) && h2[nx] == h[nx].(prev := p)) &&
      (forall y :: 0 <= y < |h| && y != p && y != q && y != nx ==> h2[y] == h[y]) &&
      (forall y :: 0 <= y < |h| && y != p ==> SameShape(h, h2, y))
  {
  }

  /**
    Where grub_free links the block k back in: after the last free block
    below it, or after the highest free block when none lies below; `first`
    moves to it exactly when it is the new lowest free block.
  */
  lemma LinkOk(h: seq<Header>, v: seq<Blk>, first: nat, k: nat)
    requires RegionOk(h, v, first) && k < |v| && !v[k].free && |FreeStarts(v)| > 0
    ensures var r, t := FreeStarts(v), RingPos(v, k);
      t <= |r| && InsPrev(r, t) < |h| && h[InsPrev(r, t)].next < |h| &&
      RegionOk(LinkHeaders(h, v[k].start, InsPrev(r, t)), Mark(v, k, true), if t == 0 then v[k].start else first)
  {
    LinkFacts(h, v, first, k);
    MarkFacts(v, |h|, k, true);
    LinkAgrees(h, v, first, k);
    LinkRing(h, v, first, k);
    LinkFirst(h, v, first, k);
  }

  lemma LinkFirst(h: seq<Header>, v: seq<Blk>, first: nat, k: nat)
    requires RegionOk(h, v, first) && k < |v| && !v[k].free && |FreeStarts(v)| > 0
    ensures var t := RingPos(v, k);
      0 < |FreeStarts(Mark(v, k, true))| &&
      FreeStarts(Mark(v, k, true))[0] == if t == 0 then v[k].start else first
  {
    MarkRing(v, k, true);
  }

  /** The ring around the allocated block k, before it is linked in. */
  lemma LinkFacts(h: seq<Header>, v: seq<Blk>, first: nat, k: nat)
    requires RegionOk(h, v, first) && k < |v| && !v[k].free && |FreeStarts(v)| > 0
    ensures var r, t := FreeStarts(v), RingPos(v, k);
      t <= |r| && InsPrev(r, t) < |h| && h[InsPrev(r, t)].next == InsNext(r, t) && InsNext(r, t) < |h| &&
      v[k].start != InsPrev(r, t) && v[k].start != InsNext(r, t) &&
      (forall j :: 0 <= j < |r| ==> r[j] != v[k].start) &&
      UniqueAt(r, InsPrevIdx(|r|, t)) && UniqueAt(r, InsNextIdx(|r|, t))
  {
    var r, t := FreeStarts(v), RingPos(v, k);
    RingSplitsAt(v, |h|, k);
    RingOrdered(h, v);
    IncreasingUnique(r);
    var m := |r|;
    var pi := InsPrevIdx(m, t);
    assert h[r[pi]].next == r[Nxt(pi, m)];
  }

  lemma LinkAgrees(h: seq<Header>, v: seq<Blk>, first: nat, k: nat)
    requires RegionOk(h, v, first) && k < |v| && !v[k].free && |FreeStarts(v)| > 0
    requires var r, t := FreeStarts(v), RingPos(v, k);
      t <= |r| && InsPrev(r, t) < |h| && h[InsPrev(r, t)].next < |h| &&
      v[k].start != InsPrev(r, t) && v[k].start != h[InsPrev(r, t)].next
    ensures Agrees(LinkHeaders(h, v[k].start, InsPrev(FreeStarts(v), RingPos(v, k))), Mark(v, k, true))
  {
    var p, q := v[k].start, InsPrev(FreeStarts(v), RingPos(v, k));
    var h2 := LinkHeaders(h, p, q);
    var v2 := Mark(v, k, true);
    LinkHeadersAt(h, p, q);
    forall i | 0 <= i < |v2|
      ensures v2[i].start < |h2| && h2[v2[i].start].size == v2[i].size && h2[v2[i].start].magic == MagicOf(v2[i].free)
    {
      if i != k {
        BlockStartsDistinct(v, |h|, i, k);
        assert SameShape(h, h2, v[i].start);
      }
    }
  }

  lemma LinkRing(h: seq<Header>, v: seq<Blk>, first: nat, k: nat)
    requires RegionOk(h, v, first) && k < |v| && !v[k].free && |FreeStarts(v)| > 0
    requires var r, t := FreeStarts(v), RingPos(v, k);
      t <= |r| && InsPrev(r, t) < |h| && h[InsPrev(r, t)].next == InsNext(r, t) && InsNext(r, t) < |h| &&
      v[k].start != InsPrev(r, t) && v[k].start != InsNext(r, t) &&
      (forall j :: 0 <= j < |r| ==> r[j] != v[k].start) &&
      UniqueAt(r, InsPrevIdx(|r|, t)) && UniqueAt(r, InsNextIdx(|r|, t))
    requires var t := RingPos(v, k);
      t <= |FreeStarts(v)| &&
      FreeStarts(Mark(v, k, true)) == FreeStarts(v)[..t] + [v[k].start] + FreeStarts(v)[t..]
    ensures Linked(LinkHeaders(h, v[k].start, InsPrev(FreeStarts(v), RingPos(v, k))), FreeStarts(Mark(v, k, true)))
  {
    var r, t := FreeStarts(v), RingPos(v, k);
    var p, q := v[k].start, InsPrev(r, t);
    var h2 := LinkHeaders(h, p, q);
    assert InsertLinks(h, r, t, p, h2) by {
      LinkHeadersAt(h, p, q);
      forall j | 0 <= j < |r| && r[j] != InsPrev(r, t) && r[j] != InsNext(r, t)
        ensures SameLinks(h, h2, r[j])
      {
        assert h2[r[j]] == h[r[j]];
      }
    }
    LinkedInsert(h, r, t, p, h2, FreeStarts(Mark(v, k, true)));
  }

  /**
    grub_free's search for q: walking the ring from `first` while q <= p and
    q is not the last member, then stepping back once when it overshot,
    stops at InsPrev; the test for moving `first` holds exactly when the
    block becomes the lowest free one.
  */
  lemma FreeSearchEnds(h: seq<Header>, v: seq<Blk>, first: nat, k: nat, i: nat)
    requires RegionOk(h, v, first) && k < |v| && !v[k].free && |FreeStarts(v)| > 0
    requires var r := FreeStarts(v);
      i < |r| && (forall j :: 0 <= j < i ==> r[j] < v[k].start) &&
      (v[k].start < r[i] || i == |r| - 1)
    ensures var r, p := FreeStarts(v), v[k].start;
      var q := if p < r[i] then h[r[i]].prev else r[i];
      var t := RingPos(v, k);
      t <= |r| && q == InsPrev(r, t) && h[q].next < |h| &&
      (first == h[q].next && p < h[q].next <==> t == 0)
  {
    var r, p, m := FreeStarts(v), v[k].start, |FreeStarts(v)|;
    var t := RingPos(v, k);
    RingSplitsAt(v, |h|, k);
    RingOrdered(h, v);
    IncreasingUnique(r);
    if p < r[i] {
      assert t <= i by {
        assert r[i] > p;
      }
      assert t == i by {
        assert r[t] > p;
      }
      assert h[r[i]].prev == r[Prv(i, m)];
      assert h[r[Prv(i, m)]].next == r[Nxt(Prv(i, m), m)];
    } else {
      assert t == m by {
        assert r[m - 1] <= p;
      }
      assert h[r[m - 1]].next == r[Nxt(m - 1, m)];
    }
  }

  /**
    The merge writes of grub_free: p absorbs its ring successor, which is
    the block just above it; that header's magic is cleared.
  */
  function MergeNextHeaders(h: seq<Header>, p: nat): seq<Header>
    requires p < |h| && h[p].next < |h| && h[h[p].next].next < |h|
  {
    var nx := h[p].next;
    var nn := h[nx].next;
    var h1 := h[nx := h[nx].(magic := 0)];
    var h2 := h1[p := h1[p].(size := h1[p].size + h1[nx].size, next := nn)];
    h2[nn := h2[nn].(prev := p)]
  }

  lemma MergeNextHeadersAt(h: seq<Header>, p: nat)
    requires p < |h| && h[p].next < |h| && h[h[p].next].next < |h| && h[p].next != p && h[h[p].next].next != h[p].next
    ensures var h2 := MergeNextHeaders(h, p); var nx := h[p].next; var nn := h[nx].next;
      |h2| == |h| &&
      h2[p].next == nn && h2[nn].prev == p && h2[p].size == h[p].size + h[nx].size && h2[p].magic == h[p].magic &&
      (p != nn ==> h2[p].prev == h[p].prev && h2[nn] == h[nn].(prev := p)) &&
      h2[nx] == h[nx].(magic := 0) &&
      (forall y :: 0 <= y < |h| && y != p && y != nx && y != nn ==> h2[y] == h[y]) &&
      (forall y :: 0 <= y < |h| && y != p && y != nx ==> SameShape(h, h2, y))
  {
  }

  /**
    Two adjacent free blocks i and i + 1 are ring neighbours; merging them
    keeps the region valid and leaves `first` where it was.
  */
  lemma MergeNextOk(h: seq<Header>, v: seq<Blk>, first: nat, i: nat)
    requires RegionOk(h, v, first) && i + 1 < |v| && v[i].free && v[i + 1].free
    ensures var p := v[i].start;
      h[p].next == v[i + 1].start && h[p].next < |h| && h[h[p].next].next < |h| &&
      RegionOk(MergeNextHeaders(h, p), MergeView(v, i), first)
  {
    MergeNextFacts(h, v, first, i);
    MergeFacts(v, |h|, i);
    MergeNextAgrees(h, v, first, i);
    MergeNextRing(h, v, first, i);
  }

  lemma MergeNextFacts(h: seq<Header>, v: seq<Blk>, first: nat, i: nat)
    requires RegionOk(h, v, first) && i + 1 < |v| && v[i].free && v[i + 1].free
    ensures var r, u := FreeStarts(v), RingPos(v, i + 1); var p := v[i].start;
      2 <= |r| && 0 < u < |r| && r[u] == v[i + 1].start && r[Prv(u, |r|)] == p &&
      h[p].next == v[i + 1].start && h[v[i + 1].start].next == r[Nxt(u, |r|)] &&
      h[p].next < |h| && h[h[p].next].next < |h| && h[p].next != p &&
      h[h[p].next].next != h[p].next &&
      (forall j :: 0 <= j < |r| ==> UniqueAt(r, j)) && FreeStarts(v)[0] == first
  {
    NextIsNeighbour(h, v, first, i);
    RingFacts(h, v, first, i);
    RingFacts(h, v, first, i + 1);
    RingPosStep(v, i);
    var r, u := FreeStarts(v), RingPos(v, i + 1);
    assert r[u] != r[u - 1];
    assert Prv(u, |r|) == u - 1;
    assert h[r[u]].next == r[Nxt(u, |r|)] && Nxt(u, |r|) != u;
  }

  lemma MergeNextAgrees(h: seq<Header>, v: seq<Blk>, first: nat, i: nat)
    requires RegionOk(h, v, first) && i + 1 < |v| && v[i].free && v[i + 1].free
    requires var p := v[i].start;
      h[p].next == v[i + 1].start && h[p].next < |h| &&
      h[h[p].next].next < |h| && h[p].next != p && h[h[p].next].next != h[p].next
    ensures Agrees(MergeNextHeaders(h, v[i].start), MergeView(v, i))
  {
    var p := v[i].start;
    var h2 := MergeNextHeaders(h, p);
    MergeNextHeadersAt(h, p);
    BlockInside(v, |h|, i);
    BlockInside(v, |h|, i + 1);
    var c := Blk(p, v[i].size + v[i + 1].size, true);
    assert Agrees(h2, [c]);
    assert MergeView(v, i) == v[..i] + [c] + v[i + 2..];
    AgreesSplice(h, h2, v, i, i + 2, [c]);
  }

  lemma MergeNextRing(h: seq<Header>, v: seq<Blk>, first: nat, i: nat)
    requires RegionOk(h, v, first) && i + 1 < |v| && v[i].free && v[i + 1].free
    requires var p := v[i].start; h[p].next < |h| && h[h[p].next].next < |h|
    ensures Linked(MergeNextHeaders(h, v[i].start), FreeStarts(MergeView(v, i)))
  {
    MergeNextFacts(h, v, first, i);
    MergeFacts(v, |h|, i);
    var r, u := FreeStarts(v), RingPos(v, i + 1);
    MergeLinked(h, r, u, FreeStarts(MergeView(v, i)));
  }

  /** A ring member absorbing its successor leaves the others linked in order. */
  lemma MergeLinked(h: seq<Header>, r: seq<nat>, u: nat, r2: seq<nat>)
    requires Linked(h, r) && 2 <= |r| && 0 < u < |r|
    requires forall j :: 0 <= j < |r| ==> UniqueAt(r, j)
    requires r2 == r[..u] + r[u + 1..]
    ensures h[r[u - 1]].next < |h| && h[h[r[u - 1]].next].next < |h|
    ensures Linked(MergeNextHeaders(h, r[u - 1]), r2)
  {
    var m := |r|;
    var p := r[u - 1];
    assert Prv(u, m) == u - 1;
    assert h[p].next == r[Nxt(u - 1, m)] && Nxt(u - 1, m) == u;
    assert h[r[u]].next == r[Nxt(u, m)] && Nxt(u, m) != u;
    assert UniqueAt(r, u);
    var h2 := MergeNextHeaders(h, p);
    assert RemoveLinks(h, r, u, h2) by {
      MergeNextHeadersAt(h, p);
      assert UniqueAt(r, u - 1) && UniqueAt(r, Nxt(u, m));
      forall j | 0 <= j < m && j != u && j != Prv(u, m) && j != Nxt(u, m)
        ensures SameLinks(h, h2, r[j])
      {
        assert h2[r[j]] == h[r[j]];
      }
    }
    LinkedRemove(h, r, u, h2, r2);
  }

  /**
    grub_free's second merge test, `q + q->size == p`, read after the link
    and the optional first merge: it holds exactly when the block just
    below k is free.
  */
  lemma PrevMergeTest(v: seq<Blk>, total: nat, k: nat, h2: seq<Header>, v2: seq<Blk>)
    requires Tiles(v, total) && k < |v| && !v[k].free && 0 < |FreeStarts(v)|
    requires RingPos(v, k) <= |FreeStarts(v)|
    requires Agrees(h2, v2) && k < |v2| && v2[..k] == v[..k] && v2[k].start == v[k].start
    requires InsPrev(FreeStarts(v), RingPos(v, k)) < |h2|
    ensures var q := InsPrev(FreeStarts(v), RingPos(v, k));
      q + h2[q].size == v[k].start <==> 0 < k && v[k - 1].free
  {
    if 0 < k && v[k - 1].free {
      PrevMergeIf(v, total, k, h2, v2);
    }
    PrevMergeOnlyIf(v, total, k, h2, v2);
  }

  lemma PrevMergeIf(v: seq<Blk>, total: nat, k: nat, h2: seq<Header>, v2: seq<Blk>)
    requires Tiles(v, total) && 0 < k < |v| && v[k - 1].free && 0 < |FreeStarts(v)|
    requires RingPos(v, k) <= |FreeStarts(v)|
    requires Agrees(h2, v2) && k < |v2| && v2[..k] == v[..k]
    ensures var q := InsPrev(FreeStarts(v), RingPos(v, k));
      q == v[k - 1].start && q < |h2| && q + h2[q].size == v[k].start
  {
    RingPosStep(v, k - 1);
    RingPosOf(v, k - 1);
    assert v2[k - 1] == v[k - 1];
    TilesOrdered(v, total);
    assert End(v[k - 1]) == v[k].start;
  }

  lemma PrevMergeOnlyIf(v: seq<Blk>, total: nat, k: nat, h2: seq<Header>, v2: seq<Blk>)
    requires Tiles(v, total) && k < |v| && !v[k].free && 0 < |FreeStarts(v)|
    requires RingPos(v, k) <= |FreeStarts(v)|
    requires Agrees(h2, v2) && k < |v2| && v2[..k] == v[..k]
    requires InsPrev(FreeStarts(v), RingPos(v, k)) < |h2|
    ensures var q := InsPrev(FreeStarts(v), RingPos(v, k));
      q + h2[q].size == v[k].start ==> 0 < k && v[k - 1].free
  {
    var r, t, p := FreeStarts(v), RingPos(v, k), v[k].start;
    var q := InsPrev(r, t);
    if q + h2[q].size == p {
      var i := MemberIsBlock(v, r, InsPrevIdx(|r|, t));
      assert i < k by {
        BlockInside(v, total, k);
        assert v[k].size > 0;
      }
      assert v2[i] == v[i];
      AdjacentBlock(v, total, i, k);
    }
  }

  /** The two orders of the unlink writes give the same headers. */
  lemma UnlinkOrder(h: seq<Header>, x: nat)
    requires x < |h| && h[x].prev < |h| && h[x].next < |h|
    ensures var pr, nx := h[x].prev, h[x].next;
      var h1 := h[nx := h[nx].(prev := pr)];
      h1[pr := h1[pr].(next := nx)] == UnlinkHeaders(h, x)
  {
  }

  // ---------------------------------------------------------------------
  // grub_rememalign_policy: growing a block in place

  /**
    The in-place writes of grub_rememalign_policy once the free block x
    just above p has the right size: x leaves the ring and p grows to n
    cells. x's header keeps its free magic inside the grown block.
  */
  function ExtendHeaders(h: seq<Header>, p: nat, x: nat, n: nat): seq<Header>
    requires p < |h| && x < |h| && h[x].prev < |h| && h[x].next < |h|
  {
    var h1 := UnlinkHeaders(h, x);
    h1[p := h1[p].(size := n)]
  }

  /** Where `first` goes after the extension absorbs free block x. */
  function ExtendFirst(h: seq<Header>, p: nat, x: nat, first: nat): nat
    requires x < |h|
  {
    if first == x then (if h[x].next == x then p else h[x].next) else first
  }

  lemma ExtendOk(h: seq<Header>, v: seq<Blk>, first: nat, k: nat)
    requires RegionOk(h, v, first) && k + 1 < |v| && !v[k].free && v[k + 1].free
    ensures var x := v[k + 1].start; h[x].prev < |h| && h[x].next < |h|
    ensures var p, x := v[k].start, v[k + 1].start;
      RegionOk(ExtendHeaders(h, p, x, v[k].size + v[k + 1].size), MergeView(v, k), ExtendFirst(h, p, x, first))
  {
    ExtendBounds(h, v, first, k);
    var p, x, n := v[k].start, v[k + 1].start, v[k].size + v[k + 1].size;
    var h2 := ExtendHeaders(h, p, x, n);
    assert Tiles(MergeView(v, k), |h2|) by {
      MergeFacts(v, |h|, k);
    }
    assert Agrees(h2, MergeView(v, k)) by {
      ExtendAgrees(h, v, first, k);
    }
    assert Linked(h2, FreeStarts(MergeView(v, k))) by {
      ExtendRing(h, v, first, k, n);
    }
    assert FirstOk(h2, MergeView(v, k), ExtendFirst(h, p, x, first)) by {
      ExtendFirstOk(h, v, first, k);
    }
  }

  lemma ExtendBounds(h: seq<Header>, v: seq<Blk>, first: nat, k: nat)
    requires RegionOk(h, v, first) && k + 1 < |v| && !v[k].free && v[k + 1].free
    ensures var x := v[k + 1].start; h[x].prev < |h| && h[x].next < |h|
    ensures v[k].start < |h|
  {
    RingFacts(h, v, first, k + 1);
    BlockInside(v, |h|, k);
  }

  lemma ExtendAgrees(h: seq<Header>, v: seq<Blk>, first: nat, k: nat)
    requires RegionOk(h, v, first) && k + 1 < |v| && !v[k].free && v[k + 1].free
    requires var x := v[k + 1].start; h[x].prev < |h| && h[x].next < |h|
    ensures var p, x := v[k].start, v[k + 1].start;
      Agrees(ExtendHeaders(h, p, x, v[k].size + v[k + 1].size), MergeView(v, k))
  {
    var p, x := v[k].start, v[k + 1].start;
    var h2 := ExtendHeaders(h, p, x, v[k].size + v[k + 1].size);
    UnlinkHeadersAt(h, x);
    BlockInside(v, |h|, k);
    BlockInside(v, |h|, k + 1);
    var c := Blk(p, v[k].size + v[k + 1].size, false);
    assert Agrees(h2, [c]);
    assert MergeView(v, k) == v[..k] + [c] + v[k + 2..];
    forall y | 0 <= y < |h| && (y < p || y >= End(v[k + 1]))
      ensures SameShape(h, h2, y)
    {
      assert SameShape(h, UnlinkHeaders(h, x), y);
    }
    AgreesSplice(h, h2, v, k, k + 2, [c]);
  }

  /** The ring part does not depend on the new size n of block k. */
  lemma ExtendRing(h: seq<Header>, v: seq<Blk>, first: nat, k: nat, n: nat)
    requires RegionOk(h, v, first) && k + 1 < |v| && !v[k].free && v[k + 1].free
    requires var x := v[k + 1].start; h[x].prev < |h| && h[x].next < |h|
    ensures Linked(ExtendHeaders(h, v[k].start, v[k + 1].start, n), FreeStarts(MergeView(v, k)))
  {
    ExtendRingFacts(h, v, first, k);
    ExtendLinked(h, FreeStarts(v), RingPos(v, k + 1), FreeStarts(MergeView(v, k)), v[k].start, v[k + 1].start, n);
  }

  /** What ExtendLinked needs, read off the blocks. */
  lemma ExtendRingFacts(h: seq<Header>, v: seq<Blk>, first: nat, k: nat)
    requires RegionOk(h, v, first) && k + 1 < |v| && !v[k].free && v[k + 1].free
    ensures var r, u := FreeStarts(v), RingPos(v, k + 1);
      Linked(h, r) && u < |r| && r[u] == v[k + 1].start &&
      (forall j :: 0 <= j < |r| ==> UniqueAt(r, j)) &&
      FreeStarts(MergeView(v, k)) == r[..u] + r[u + 1..] &&
      v[k].start < |h| && (forall j :: 0 <= j < |r| ==> r[j] != v[k].start)
  {
    RingFacts(h, v, first, k + 1);
    MergeFacts(v, |h|, k);
    MarkNotMember(v, |h|, k);
  }

  /** Unlinking ring member u and resizing a non-member keeps the rest linked. */
  lemma ExtendLinked(h: seq<Header>, r: seq<nat>, u: nat, r2: seq<nat>, p: nat, x: nat, n: nat)
    requires Linked(h, r) && u < |r| && r[u] == x
    requires forall j :: 0 <= j < |r| ==> UniqueAt(r, j)
    requires r2 == r[..u] + r[u + 1..]
    requires p < |h| && forall j :: 0 <= j < |r| ==> r[j] != p
    ensures h[x].prev < |h| && h[x].next < |h|
    ensures Linked(ExtendHeaders(h, p, x, n), r2)
  {
    assert h[r[u]].next == r[Nxt(u, |r|)] && h[r[u]].prev == r[Prv(u, |r|)];
    if |r| == 1 {
      assert |r2| == 0;
    } else {
      UnlinkLinked(h, r, u, r2);
      var h1 := UnlinkHeaders(h, x);
      assert forall j :: 0 <= j < |r2| ==> r2[j] != p by {
        forall j | 0 <= j < |r2|
          ensures r2[j] != p
        {
          assert r2[j] == if j < u then r[j] else r[j + 1];
        }
      }
      LinkedResize(h1, r2, p, n);
    }
  }

  /** An allocated block's first cell is no member of the ring. */
  lemma MarkNotMember(v: seq<Blk>, total: nat, k: nat)
    requires Tiles(v, total) && k < |v| && !v[k].free
    ensures forall j :: 0 <= j < |FreeStarts(v)| ==> FreeStarts(v)[j] != v[k].start
  {
    RingSplitsAt(v, total, k);
  }

  lemma ExtendFirstOk(h: seq<Header>, v: seq<Blk>, first: nat, k: nat)
    requires RegionOk(h, v, first) && k + 1 < |v| && !v[k].free && v[k + 1].free
    requires var x := v[k + 1].start; h[x].prev < |h| && h[x].next < |h|
    ensures var p, x := v[k].start, v[k + 1].start;
      FirstOk(ExtendHeaders(h, p, x, v[k].size + v[k + 1].size), MergeView(v, k), ExtendFirst(h, p, x, first))
  {
    var p, x := v[k].start, v[k + 1].start;
    var r, u := FreeStarts(v), RingPos(v, k + 1);
    RingFacts(h, v, first, k + 1);
    MergeFacts(v, |h|, k);
    var r2 := FreeStarts(MergeView(v, k));
    UnlinkHeadersAt(h, x);
    BlockInside(v, |h|, k);
    if |r| == 1 {
      assert first == x && h[x].next == x;
    } else if first == x {
      assert u == 0 && Nxt(0, |r|) == 1;
      assert r2[0] == r[1];
    } else {
      assert u != 0;
      assert r2[0] == r[0];
    }
  }
}
