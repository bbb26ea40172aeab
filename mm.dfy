/**
  The GRUB heap allocator (kern/mm.c) as imperative code.

  A Region owns an array of header cells, one per cell of the region; the
  `prev`/`next` fields are cell indices into that array. The ghost `view`
  lists the blocks of the region in address order (MmLayout), and Valid()
  states the region invariant of the design comment: the blocks tile the
  region, every header carries its size and magic, the free blocks form a
  circular doubly linked ring in address order starting at `first`, and no
  two free blocks are neighbours.

  The Heap holds the regions in the order of the global list `base`: sorted
  by size, the smallest first.
*/
module Mm {
  import opened Wrappers
  import opened MmLayout
  import opened MmSteps
  import opened MmSpec
  import opened MmHeap

  /** GRUB_MM_NPOLICIES: the policies MALLOC_DEFAULT (0) up to MALLOC_LOW_END (3). */
  const NPOLICIES: nat := 4
  const MALLOC_DEFAULT: nat := 0

  /** The bytes of struct grub_mm_region on a 64-bit build: four words and four policies. */
  const REGION_BYTES: nat := 64

  class Region {
    /** The cells of the region; hdr[0] is the cell at absolute cell number baseCell. */
    const hdr: array<Header>
    const baseCell: nat
    const policies: seq<Allocator>
    var first: nat
    ghost var view: seq<Blk>

    ghost predicate Valid()
      reads this, hdr
    {
      RegionOk(hdr[..], view, first) && Coalesced(view) && |policies| == NPOLICIES
    }

    /** The region grub_mm_init_region sets up: one free block over all cells, alone in its ring. */
    constructor (cells: nat, baseCell: nat, policies: seq<Allocator>)
      requires cells >= 1 && |policies| == NPOLICIES
      ensures Valid() && fresh(hdr)
      ensures hdr.Length == cells && this.baseCell == baseCell && this.policies == policies
      ensures view == [Blk(0, cells, true)] && first == 0 && hdr[0] == Header(0, 0, cells, FREE_MAGIC)
    {
      hdr := new Header[cells](_ => Header(0, 0, 0, 0));
      this.baseCell := baseCell;
      this.policies := policies;
      first := 0;
      view := [Blk(0, cells, true)];
      new;
      hdr[0] := Header(0, 0, cells, FREE_MAGIC);
      assert FreeStarts(view) == [0];
    }

    /**
      split_chunk: a free block of more than `size` cells keeps `size` of
      them, and a new free block of the rest follows it in the ring.
    */
    method SplitChunk(p: nat, size: nat, ghost k: nat)
      requires RegionOk(hdr[..], view, first) && k < |view| && view[k].free && view[k].start == p && 0 < size
      modifies hdr, `view
      ensures old(view[k].size) <= size ==> hdr[..] == old(hdr[..]) && view == old(view)
      ensures size < old(view[k].size) ==>
        p + size < hdr.Length && old(hdr[p].next) < hdr.Length && size <= old(hdr[p].size)
      ensures size < old(view[k].size) ==>
        hdr[..] == SplitHeaders(old(hdr[..]), p, size) && view == SplitView(old(view), k, size)
      ensures RegionOk(hdr[..], view, first)
    {
      ghost var h := hdr[..];
      if hdr[p].size <= size {
        return;
      }
      SplitOk(h, view, first, k, size);
      var q := p + size;
      // The four field writes to q's header.
      hdr[q] := Header(p, hdr[p].next, hdr[p].size - size, FREE_MAGIC);
      hdr[p] := hdr[p].(next := q);
      hdr[hdr[q].next] := hdr[hdr[q].next].(prev := q);
      hdr[p] := hdr[p].(size := size);
      assert hdr[..] == SplitHeaders(h, p, size);
      view := SplitView(view, k, size);
    }

    /**
      The allocation step of grub_real_malloc on free block k, whose header
      is p: split off `want` cells, then either take the whole block out of
      the ring or hand out its last n cells.
    */
    method Take(p: nat, want: nat, n: nat, ghost k: nat) returns (ptr: nat)
      requires Valid() && k < |view| && view[k].free && view[k].start == p && 0 < n <= want <= view[k].size
      modifies hdr, `first, `view
      ensures Valid()
      ensures view == Carve(old(view), k, want - n, n)
      ensures ptr == PayloadCell(baseCell, p + want - n) * ALIGN
    {
      ghost var v := view;
      CarveCoalesced(v, k, want - n, n);
      CarveBySteps(v, k, want, n);
      SplitChunk(p, want, k);
      assert view == if want < v[k].size then SplitView(v, k, want) else v;
      assert k < |view| && view[k] == Blk(p, want, true);
      if want == n {
        TakeWhole(p, k);
        ptr := PayloadCell(baseCell, p) * ALIGN;
      } else {
        var q := TakeTail(p, n, k);
        ptr := PayloadCell(baseCell, q) * ALIGN;
      }
    }

    /** The whole free block k leaves the ring and becomes allocated; `first` moves on if it was this block. */
    method TakeWhole(p: nat, ghost k: nat)
      requires RegionOk(hdr[..], view, first) && k < |view| && view[k].free && view[k].start == p
      modifies hdr, `first, `view
      ensures view == Mark(old(view), k, false)
      ensures first == if p == old(first) then old(hdr[p].next) else old(first)
      ensures RegionOk(hdr[..], view, first)
    {
      ghost var h := hdr[..];
      AllocWholeOk(h, view, first, k);
      if p == first {
        first := hdr[p].next;
      }
      hdr[hdr[p].prev] := hdr[hdr[p].prev].(next := hdr[p].next);
      hdr[hdr[p].next] := hdr[hdr[p].next].(prev := hdr[p].prev);
      hdr[p] := hdr[p].(magic := ALLOC_MAGIC);
      assert hdr[..] == AllocWholeHeaders(h, p);
      view := Mark(view, k, false);
    }

    /** The last n cells of free block k become an allocated block of n cells, whose header q is returned. */
    method TakeTail(p: nat, n: nat, ghost k: nat) returns (q: nat)
      requires RegionOk(hdr[..], view, first) && k < |view| && view[k].free && view[k].start == p
      requires 0 < n < view[k].size
      modifies hdr, `view
      ensures view == TakeTailView(old(view), k, n) && q == p + old(view[k].size) - n
      ensures RegionOk(hdr[..], view, first)
    {
      ghost var h := hdr[..];
      TailOk(h, view, first, k, n);
      hdr[p] := hdr[p].(size := hdr[p].size - n);
      q := p + hdr[p].size;
      hdr[q] := hdr[q].(size := n);
      hdr[q] := hdr[q].(magic := ALLOC_MAGIC);
      assert hdr[..] == TailHeaders(h, p, n);
      view := TakeTailView(view, k, n);
    }

    /**
      grub_real_malloc: search the free ring in the allocator's order for the
      first block that holds n = CellsFor(size) cells at the requested
      alignment, and carve the allocation out of it. The result is the
      payload address, or 0 when the region has no free block or no free
      block fits.
    */
    method RealMalloc(alignBytes: nat, size: nat, alloc: Allocator) returns (ptr: nat)
      requires Valid()
      modifies hdr, `first, `view
      ensures Valid()
      ensures var v, n, a := old(view), CellsFor(size), AlignCells(alignBytes);
        match Choose(v, baseCell, n, a, alloc, 0)
        case None => ptr == 0 && view == v && hdr[..] == old(hdr[..]) && first == old(first)
        case Some(i) =>
          var j := SearchPos(alloc, i, |FreeStarts(v)|);
          ptr == PayloadCell(baseCell, TakenStart(v, baseCell, n, a, alloc, j)) * ALIGN &&
          view == Taken(v, baseCell, n, a, alloc, j)
    {
      var n := (size + ALIGN - 1) / ALIGN + 1;
      var a := AlignCells(alignBytes);
      assert n == CellsFor(size);
      ghost var v := view;
      FirstTellsEmpty(hdr[..], v, first);
      if hdr[first].magic == ALLOC_MAGIC {
        return 0;
      }
      var found, p, want, i := Search(n, a, alloc);
      if !found {
        return 0;
      }
      ptr := TakeFit(p, want, n, a, alloc, i);
    }

    /**
      The branch of grub_real_malloc's loop that found a fit at step i: the
      LAST policy moves the allocation towards the end of the block by whole
      alignment steps, then the cells are taken.
    */
    method TakeFit(p: nat, want: nat, n: nat, a: nat, alloc: Allocator, ghost i: nat) returns (ptr: nat)
      requires Valid() && a >= 1 && 0 < n && i < |FreeStarts(view)|
      requires p == FreeStarts(view)[SearchPos(alloc, i, |FreeStarts(view)|)] && p < hdr.Length
      requires want == n + AlignPad(PayloadCell(baseCell, p), a) && hdr[p].size >= want
      modifies hdr, `first, `view
      ensures Valid()
      ensures var v := old(view); var j := SearchPos(alloc, i, |FreeStarts(v)|);
        FitsAt(v, baseCell, n, a, j) &&
        ptr == PayloadCell(baseCell, TakenStart(v, baseCell, n, a, alloc, j)) * ALIGN &&
        view == Taken(v, baseCell, n, a, alloc, j)
    {
      ghost var v := view;
      ghost var j := SearchPos(alloc, i, |FreeStarts(v)|);
      ghost var k := FreeIndex(v, j);
      VisitFacts(hdr[..], v, first, baseCell, n, a, j);
      var w := want;
      if alloc == Last {
        w := want + (hdr[p].size - want) / a * a;
      }
      TakenAt(v, baseCell, n, a, alloc, j, hdr[p].size, want, w);
      ptr := Take(p, w, n, k);
    }

    /**
      The search loop of grub_real_malloc over a non-empty ring: starting
      where the allocator's case puts p, it follows next (prev for LAST)
      until a block holds `want` = n cells plus the alignment pad, or until
      it has visited `last`.
    */
    method Search(n: nat, a: nat, alloc: Allocator) returns (found: bool, p: nat, want: nat, ghost i: nat)
      requires Valid() && a >= 1 && 0 < |FreeStarts(view)|
      ensures var v := view; var m := |FreeStarts(v)|;
        if found then
          Choose(v, baseCell, n, a, alloc, 0) == Some(i) && i < m &&
          p == FreeStarts(v)[SearchPos(alloc, i, m)] && p < hdr.Length && hdr[p].size >= want &&
          want == n + AlignPad(PayloadCell(baseCell, p), a)
        else
          Choose(v, baseCell, n, a, alloc, 0) == None
    {
      ghost var v, h := view, hdr[..];
      ghost var r := FreeStarts(v);
      ghost var m := |r|;
      SearchStart(h, v, first, alloc);
      var last: nat;
      match alloc {
        case Second =>
          p, last := hdr[first].next, first;
        case Last =>
          p, last := hdr[first].prev, first;
        case _ =>
          p, last := first, hdr[first].prev;
      }
      i := 0;
      while true
        invariant i < m && p == r[SearchPos(alloc, i, m)] && last == r[SearchPos(alloc, m - 1, m)]
        invariant Choose(v, baseCell, n, a, alloc, 0) == Choose(v, baseCell, n, a, alloc, i)
        decreases m - i
      {
        SearchVisit(h, v, first, baseCell, n, a, alloc, i);
        want := n + AlignPad(PayloadCell(baseCell, p), a);
        if hdr[p].size >= want {
          return true, p, want, i;
        }
        if p == last {
          return false, p, want, i;
        }
        p := if alloc == Last then hdr[p].prev else hdr[p].next;
        i := i + 1;
      }
    }
    /**
      The part of grub_free that works on the region: the allocated block k,
      whose header is p, turns free and joins the ring, merged with a free
      block just above and a free block just below.
    */
    method FreeBlock(p: nat, ghost k: nat)
      requires Valid() && k < |view| && !view[k].free && view[k].start == p
      modifies hdr, `first, `view
      ensures Valid() && view == Freed(old(view), k)
    {
      ghost var v := view;
      FreedFacts(v, hdr.Length, k);
      FirstTellsEmpty(hdr[..], v, first);
      if hdr[first].magic == ALLOC_MAGIC {
        EmptyRingNeighbours(hdr[..], v, first, k);
        FreeAlone(p, k);
        return;
      }
      var q := FindPrev(p, k);
      Link(p, q, k);
      MergeAround(p, q, v, k);
    }

    /**
      The merges of grub_free once block k of view v, whose header is p, is
      linked in after q: first with the block just above, then with the
      block just below, each when it is free.
    */
    method MergeAround(p: nat, q: nat, ghost v: seq<Blk>, ghost k: nat)
      requires Tiles(v, hdr.Length) && k < |v| && !v[k].free && v[k].start == p && 0 < |FreeStarts(v)|
      requires RingPos(v, k) <= |FreeStarts(v)| && q == InsPrev(FreeStarts(v), RingPos(v, k)) && q < hdr.Length
      requires RegionOk(hdr[..], view, first) && view == Mark(v, k, true)
      modifies hdr, `view
      ensures RegionOk(hdr[..], view, first) && view == Freed(v, k)
    {
      NextIsNeighbour(hdr[..], view, first, k);
      if p + hdr[p].size == hdr[p].next {
        Absorb(p, k);
      }
      assert view == FreedNext(v, k);
      FreedNextPrefix(v, k);
      PrevMergeTest(v, hdr.Length, k, hdr[..], view);
      if q + hdr[q].size == p {
        PrevMergeIf(v, hdr.Length, k, hdr[..], view);
        Absorb(q, k - 1);
      }
    }

    /** grub_free into a region without free blocks: p becomes the only ring member and `first`. */
    method FreeAlone(p: nat, ghost k: nat)
      requires RegionOk(hdr[..], view, first) && k < |view| && !view[k].free && view[k].start == p
      requires |FreeStarts(view)| == 0
      modifies hdr, `first, `view
      ensures RegionOk(hdr[..], view, first) && view == Mark(old(view), k, true) && first == p
    {
      ghost var h := hdr[..];
      FreeAloneOk(h, view, first, k);
      hdr[p] := hdr[p].(magic := FREE_MAGIC);
      hdr[p] := hdr[p].(prev := p);
      hdr[p] := hdr[p].(next := p);
      first := p;
      assert hdr[..] == FreeAloneHeaders(h, p);
      view := Mark(view, k, true);
    }

    /**
      grub_free's walk for the ring member q that p goes after: the last
      free block below p, or the highest free block when none is below.
      The walk checks the free magic of every member it passes, which a
      valid region always has.
    */
    method FindPrev(p: nat, ghost k: nat) returns (q: nat)
      requires RegionOk(hdr[..], view, first) && k < |view| && !view[k].free && view[k].start == p
      requires 0 < |FreeStarts(view)|
      ensures var r, t := FreeStarts(view), RingPos(view, k);
        t <= |r| && q == InsPrev(r, t) && q < hdr.Length && hdr[q].next < hdr.Length &&
        (first == hdr[q].next && p < hdr[q].next <==> t == 0)
    {
      ghost var h, v := hdr[..], view;
      ghost var r := FreeStarts(v);
      ghost var m := |r|;
      WalkFacts(h, v, first, k, 0);
      q := first;
      ghost var i := 0;
      while p >= q && q != hdr[first].prev
        invariant i < m && q == r[i] && forall j :: 0 <= j < i ==> r[j] < p
        decreases m - i
      {
        WalkFacts(h, v, first, k, i);
        assert hdr[q].magic == FREE_MAGIC;
        q := hdr[q].next;
        i := i + 1;
      }
      WalkFacts(h, v, first, k, i);
      ghost var qi := q;
      if p < q {
        q := hdr[q].prev;
      }
      FreeSearchEnds(h, v, first, k, i);
    }

    /**
      The link step of grub_free: `first` moves to p when p becomes the
      lowest free block, then p gets the free magic and goes between q and
      q's successor.
    */
    method Link(p: nat, q: nat, ghost k: nat)
      requires RegionOk(hdr[..], view, first) && k < |view| && !view[k].free && view[k].start == p
      requires 0 < |FreeStarts(view)|
      requires var r, t := FreeStarts(view), RingPos(view, k);
        t <= |r| && q == InsPrev(r, t) && q < hdr.Length && hdr[q].next < hdr.Length &&
        (first == hdr[q].next && p < hdr[q].next <==> t == 0)
      modifies hdr, `first, `view
      ensures RegionOk(hdr[..], view, first) && view == Mark(old(view), k, true)
    {
      ghost var h := hdr[..];
      LinkOk(h, view, first, k);
      LinkFacts(h, view, first, k);
      if first == hdr[q].next && p < hdr[q].next {
        first := p;
      }
      hdr[p] := hdr[p].(magic := FREE_MAGIC, next := hdr[q].next);
      hdr[hdr[p].next] := hdr[hdr[p].next].(prev := p);
      hdr[q] := hdr[q].(next := p);
      hdr[hdr[q].next] := hdr[hdr[q].next].(prev := q);
      assert hdr[..] == LinkHeaders(h, p, q);
      view := Mark(view, k, true);
    }

    /**
      A merge of grub_free: free block i, whose header is x, absorbs its
      ring successor, which is the free block just above it; the absorbed
      header loses its magic.
    */
    method Absorb(x: nat, ghost i: nat)
      requires RegionOk(hdr[..], view, first) && i + 1 < |view| && view[i].free && view[i + 1].free && view[i].start == x
      modifies hdr, `view
      ensures RegionOk(hdr[..], view, first) && view == MergeView(old(view), i)
    {
      ghost var h := hdr[..];
      MergeNextOk(h, view, first, i);
      hdr[hdr[x].next] := hdr[hdr[x].next].(magic := 0);
      hdr[x] := hdr[x].(size := hdr[x].size + hdr[hdr[x].next].size);
      hdr[x] := hdr[x].(next := hdr[hdr[x].next].next);
      hdr[hdr[x].next] := hdr[hdr[x].next].(prev := x);
      assert hdr[..] == MergeNextHeaders(h, x);
      view := MergeView(view, i);
    }
    /**
      The in-place branch of grub_rememalign_policy for the allocated block
      k, whose header is p and which is smaller than n cells: when the
      header just past p lies inside the region, is free and brings p to at
      least n cells, p grows to exactly n cells in place. The bound is the
      intended one (ExtendBound); see ExtendBoundAsWritten.
    */
    method Extend(p: nat, n: nat, ghost k: nat) returns (ok: bool)
      requires Valid() && k < |view| && !view[k].free && view[k].start == p && view[k].size < n
      modifies hdr, `first, `view
      ensures Valid()
      ensures var v := old(view);
        ok <==> k + 1 < |v| && v[k + 1].free && v[k].size + v[k + 1].size >= n
      ensures ok ==> view == Grow(old(view), k, n)
      ensures !ok ==> view == old(view) && hdr[..] == old(hdr[..]) && first == old(first)
    {
      ghost var v := view;
      ExtendTest(hdr[..], v, first, k);
      var p2 := p + hdr[p].size;
      ExtendBoundInside(baseCell, hdr.Length, p2);
      if !(ExtendBound(baseCell * ALIGN, hdr.Length * ALIGN, (baseCell + p2) * ALIGN) &&
           hdr[p2].magic == FREE_MAGIC && hdr[p].size + hdr[p2].size >= n) {
        return false;
      }
      GrowFacts(v, hdr.Length, k, n);
      GrowBySteps(v, k, n);
      SplitChunk(p2, n - hdr[p].size, k + 1);
      GrowInPlace(p, p2, n, k);
      return true;
    }

    /** The unlink writes of the in-place branch, successor first: x leaves the ring. */
    method Unlink(x: nat)
      requires x < hdr.Length && hdr[x].prev < hdr.Length && hdr[x].next < hdr.Length
      modifies hdr
      ensures hdr[..] == UnlinkHeaders(old(hdr[..]), x)
    {
      ghost var h := hdr[..];
      UnlinkOrder(h, x);
      hdr[hdr[x].next] := hdr[hdr[x].next].(prev := hdr[x].prev);
      hdr[hdr[x].prev] := hdr[hdr[x].prev].(next := hdr[x].next);
    }

    /** `first` leaves x for x's successor, or for p when x was the only free block. */
    method MoveFirstOff(p: nat, x: nat)
      requires x < hdr.Length
      modifies `first
      ensures first == if old(first) == x then (if hdr[x].next == x then p else hdr[x].next) else old(first)
    {
      if first == x {
        first := hdr[x].next;
      }
      if first == x {
        first := p;
      }
    }

    /**
      The writes of the in-place branch once the free block x after p has
      exactly the missing cells: x leaves the ring, `first` moves off x (to
      p when x was the only free block), and p takes n cells.
    */
    method GrowInPlace(p: nat, x: nat, n: nat, ghost k: nat)
      requires RegionOk(hdr[..], view, first) && k + 1 < |view| && !view[k].free && view[k + 1].free
      requires view[k].start == p && view[k + 1].start == x && n == view[k].size + view[k + 1].size
      modifies hdr, `first, `view
      ensures RegionOk(hdr[..], view, first) && view == MergeView(old(view), k)
    {
      ghost var h, f := hdr[..], first;
      ExtendOk(h, view, first, k);
      Unlink(x);
      MoveFirstOff(p, x);
      assert first == ExtendFirst(h, p, x, f);
      hdr[p] := hdr[p].(size := n);
      assert hdr[..] == ExtendHeaders(h, p, x, n);
      view := MergeView(view, k);
    }
  }

  /** What the in-place branch of grub_rememalign_policy reads just past the allocated block k. */
  lemma ExtendTest(h: seq<Header>, v: seq<Blk>, first: nat, k: nat)
    requires RegionOk(h, v, first) && k < |v|
    ensures var p, p2 := v[k].start, v[k].start + v[k].size;
      p < |h| && h[p].size == v[k].size && (p2 < |h| <==> k + 1 < |v|) &&
      (p2 < |h| ==>
         v[k + 1].start == p2 && h[p2].size == v[k + 1].size && (h[p2].magic == FREE_MAGIC <==> v[k + 1].free))
  {
    BlockInside(v, |h|, k);
    if k + 1 < |v| {
      assert v[k + 1].start == End(v[k]);
      BlockInside(v, |h|, k + 1);
      MagicTellsFree(h, v, k + 1);
    }
  }

  /** What grub_free's walk sees at ring position i. */
  lemma WalkFacts(h: seq<Header>, v: seq<Blk>, first: nat, k: nat, i: nat)
    requires RegionOk(h, v, first) && k < |v| && !v[k].free && i < |FreeStarts(v)|
    ensures var r, m := FreeStarts(v), |FreeStarts(v)|;
      first == r[0] && first < |h| && h[first].prev == r[m - 1] &&
      r[i] < |h| && h[r[i]].magic == FREE_MAGIC && r[i] != v[k].start &&
      (r[i] == r[m - 1] <==> i == m - 1) &&
      (i + 1 < m ==> h[r[i]].next == r[i + 1])
  {
    var r, m := FreeStarts(v), |FreeStarts(v)|;
    var j := FreeIndex(v, i);
    RingFacts(h, v, first, j);
    var j0 := FreeIndex(v, 0);
    RingFacts(h, v, first, j0);
    BlockStartsDistinct(v, |h|, j, k);
  }

  /** A region whose ring is empty has no free block on either side of block k. */
  lemma EmptyRingNeighbours(h: seq<Header>, v: seq<Blk>, first: nat, k: nat)
    requires RegionOk(h, v, first) && k < |v| && |FreeStarts(v)| == 0
    ensures Freed(v, k) == Mark(v, k, true)
  {
    if k + 1 < |v| && v[k + 1].free {
      RingFacts(h, v, first, k + 1);
    }
    if 0 < k && v[k - 1].free {
      RingFacts(h, v, first, k - 1);
    }
  }

  /** Where the search of grub_real_malloc starts and where it gives up, on a non-empty ring. */
  lemma SearchStart(h: seq<Header>, v: seq<Blk>, first: nat, alloc: Allocator)
    requires RegionOk(h, v, first) && 0 < |FreeStarts(v)|
    ensures var r, m := FreeStarts(v), |FreeStarts(v)|;
      first < |h| && h[first].next < |h| && h[first].prev < |h| &&
      r[SearchPos(alloc, 0, m)] == (match alloc case Second => h[first].next case Last => h[first].prev case _ => first) &&
      r[SearchPos(alloc, m - 1, m)] == (if alloc == First || alloc == Skip then h[first].prev else first)
  {
    var m := |FreeStarts(v)|;
    SearchWalk(alloc, 0, m);
    SearchWalk(alloc, m - 1, m);
    VisitFacts(h, v, first, 0, 1, 1, 0);
  }

  /**
    One step of the search of grub_real_malloc at step i: the block it
    visits, whether it fits, where the next step goes, and whether this
    was the last step of the lap.
  */
  lemma SearchVisit(h: seq<Header>, v: seq<Blk>, first: nat, base: nat, n: nat, a: nat, alloc: Allocator, i: nat)
    requires RegionOk(h, v, first) && a >= 1 && i < |FreeStarts(v)|
    ensures var r, m := FreeStarts(v), |FreeStarts(v)|; var p := r[SearchPos(alloc, i, m)];
      p < |h| && h[p].next < |h| && h[p].prev < |h| &&
      (h[p].size >= n + AlignPad(PayloadCell(base, p), a) ==> Choose(v, base, n, a, alloc, i) == Some(i)) &&
      (h[p].size < n + AlignPad(PayloadCell(base, p), a) ==>
        Choose(v, base, n, a, alloc, i) == Choose(v, base, n, a, alloc, i + 1)) &&
      (i == m - 1 ==> Choose(v, base, n, a, alloc, i + 1) == None) &&
      (p == r[SearchPos(alloc, m - 1, m)] <==> i == m - 1) &&
      (i + 1 < m ==> (if alloc == Last then h[p].prev else h[p].next) == r[SearchPos(alloc, i + 1, m)])
  {
    VisitFacts(h, v, first, base, n, a, SearchPos(alloc, i, |FreeStarts(v)|));
    ChooseStep(v, base, n, a, alloc, i);
    SearchRing(h, v, first, alloc, i);
  }

  /** The ring side of one search step: the next block the search visits, and whether this was its last step. */
  lemma SearchRing(h: seq<Header>, v: seq<Blk>, first: nat, alloc: Allocator, i: nat)
    requires RegionOk(h, v, first) && i < |FreeStarts(v)|
    ensures var r, m := FreeStarts(v), |FreeStarts(v)|; var p := r[SearchPos(alloc, i, m)];
      p < |h| && h[p].next < |h| && h[p].prev < |h| &&
      (p == r[SearchPos(alloc, m - 1, m)] <==> i == m - 1) &&
      (i + 1 < m ==> (if alloc == Last then h[p].prev else h[p].next) == r[SearchPos(alloc, i + 1, m)])
  {
    var r, m := FreeStarts(v), |FreeStarts(v)|;
    RingOrdered(h, v);
    SearchWalk(alloc, i, m);
    SearchDistinct(r, alloc, i, m);
    VisitFacts(h, v, first, 0, 1, 1, SearchPos(alloc, i, m));
  }

  /** The allocation grub_real_malloc makes from the block it found is the one Taken describes. */
  lemma TakenAt(v: seq<Blk>, base: nat, n: nat, a: nat, alloc: Allocator, j: nat, s: nat, w0: nat, want: int)
    requires a >= 1 && 0 < n && j < |FreeStarts(v)| && FitsAt(v, base, n, a, j)
    requires var b := v[FreeIndex(v, j)]; s == b.size && w0 == n + AlignPad(PayloadCell(base, b.start), a)
    requires want == if alloc == Last then w0 + (s - w0) / a * a else w0
    ensures var k := FreeIndex(v, j);
      want == WantAt(v, base, n, a, alloc, j) && 0 < n <= want <= v[k].size &&
      Taken(v, base, n, a, alloc, j) == Carve(v, k, want - n, n) &&
      TakenStart(v, base, n, a, alloc, j) == v[k].start + want - n
  {
    var b := v[FreeIndex(v, j)];
    WantIs(n, PayloadCell(base, b.start), a, alloc == Last, b.size, want);
  }

  /** The size grub_real_malloc computes, with its LAST adjustment, is Want. */
  lemma WantIs(n: nat, c: nat, a: nat, last: bool, s: nat, want: int)
    requires a >= 1 && s >= n + AlignPad(c, a)
    requires var w0 := n + AlignPad(c, a); want == (if last then w0 + (s - w0) / a * a else w0)
    ensures want == Want(n, c, a, last, s)
  {
  }

  /** What grub_real_malloc reads at the ring member it visits at ring position j. */
  lemma VisitFacts(h: seq<Header>, v: seq<Blk>, first: nat, base: nat, n: nat, a: nat, j: nat)
    requires RegionOk(h, v, first) && a >= 1 && j < |FreeStarts(v)|
    ensures var r, k := FreeStarts(v), FreeIndex(v, j); var p := r[j];
      k < |v| && v[k].free && v[k].start == p && p < |h| &&
      h[p].magic == FREE_MAGIC && h[p].size == v[k].size &&
      h[p].next == r[Nxt(j, |r|)] && h[p].prev == r[Prv(j, |r|)] &&
      (FitsAt(v, base, n, a, j) <==> h[p].size >= n + AlignPad(PayloadCell(base, p), a))
  {
    var k := FreeIndex(v, j);
    RingFacts(h, v, first, k);
  }

  /** Two search steps that visit the same member of an increasing ring are the same step. */
  lemma SearchDistinct(r: seq<nat>, alloc: Allocator, i: nat, m: nat)
    requires Increasing(r) && m == |r| && i < m
    ensures r[SearchPos(alloc, i, m)] == r[SearchPos(alloc, m - 1, m)] <==> i == m - 1
  {
    SearchIsLap(alloc, m);
    if r[SearchPos(alloc, i, m)] == r[SearchPos(alloc, m - 1, m)] {
      assert SearchPos(alloc, i, m) == SearchPos(alloc, m - 1, m);
      assert SearchStep(alloc, SearchPos(alloc, i, m), m) == i;
    }
  }

  /** grub_errno as far as the heap sets it. */
  datatype Error = NoError | OutOfMemory

  /** The first cells of the regions of a heap. */
  function Bases(rs: seq<Region>): (b: seq<nat>)
    ensures |b| == |rs| && forall i :: 0 <= i < |rs| ==> b[i] == rs[i].baseCell
  {
    seq(|rs|, i requires 0 <= i < |rs| => rs[i].baseCell)
  }

  /** The sizes in cells of the regions of a heap. */
  function Lens(rs: seq<Region>): (l: seq<nat>)
    ensures |l| == |rs| && forall i :: 0 <= i < |rs| ==> l[i] == rs[i].hdr.Length
  {
    seq(|rs|, i requires 0 <= i < |rs| => rs[i].hdr.Length)
  }

  /** No region, and no header array, appears twice in the list. */
  predicate Distinct(rs: seq<Region>) {
    forall i, j :: 0 <= i < |rs| && 0 <= j < |rs| && i != j ==> rs[i] != rs[j] && rs[i].hdr != rs[j].hdr
  }

  lemma DistinctInsert(rs: seq<Region>, r: Region, i: nat)
    requires Distinct(rs) && i <= |rs| && forall j :: 0 <= j < |rs| ==> rs[j] != r && rs[j].hdr != r.hdr
    ensures Distinct(rs[..i] + [r] + rs[i..])
  {
    var rs2 := rs[..i] + [r] + rs[i..];
    forall j, l | 0 <= j < |rs2| && 0 <= l < |rs2| && j != l
      ensures rs2[j] != rs2[l] && rs2[j].hdr != rs2[l].hdr
    {
      if j != i && l != i {
        var j', l' := if j < i then j else j - 1, if l < i then l else l - 1;
        assert rs2[j] == rs[j'] && rs2[l] == rs[l'] && j' != l';
      }
    }
  }

  /** Splicing a region into the list splices its base and size into theirs. */
  lemma BasesInsert(rs: seq<Region>, r: Region, i: nat)
    requires i <= |rs|
    ensures Bases(rs[..i] + [r] + rs[i..]) == Bases(rs)[..i] + [r.baseCell] + Bases(rs)[i..]
    ensures Lens(rs[..i] + [r] + rs[i..]) == Lens(rs)[..i] + [r.hdr.Length] + Lens(rs)[i..]
  {
  }

  /** The list `base` is sorted by size, the smallest region first. */
  predicate SizeSorted(lens: seq<nat>) {
    forall i, j :: 0 <= i < j < |lens| ==> lens[i] <= lens[j]
  }

  /** Region r, whose view is v, does not serve the request: its policy skips it or nothing in it fits. */
  ghost predicate Declines(r: Region, v: seq<Blk>, n: nat, a: nat, policy: nat)
  {
    a >= 1 && 0 < n && policy < |r.policies| &&
    (r.policies[policy] == Skip || Malloced(v, r.baseCell, n, a, r.policies[policy]) == None)
  }

  /**
    Region ri is where one pass of grub_memalign_policy over the list rs,
    whose views are vs, stops: every earlier region declines, the policy
    of region ri is not SKIP, and its grub_real_malloc returns ptr and
    leaves the view w.
  */
  ghost predicate FirstServer(rs: seq<Region>, vs: seq<seq<Blk>>, n: nat, a: nat, policy: nat, ri: nat, ptr: nat, w: seq<Blk>)
  {
    ri < |rs| && ri < |vs| && a >= 1 && 0 < n && policy < |rs[ri].policies| &&
    (forall i :: 0 <= i < ri ==> Declines(rs[i], vs[i], n, a, policy)) &&
    rs[ri].policies[policy] != Skip &&
    Malloced(vs[ri], rs[ri].baseCell, n, a, rs[ri].policies[policy]) == Some((ptr, w))
  }

  /** ALIGN_UP to a cell boundary. */
  function AlignUp(x: nat): (y: nat)
    ensures y % ALIGN == 0 && x <= y < x + ALIGN
  {
    (x + ALIGN - 1) / ALIGN * ALIGN
  }

  /** The first header cell of the region grub_mm_init_region sets up at addr: just past struct grub_mm_region. */
  function InitBase(addr: nat): nat {
    (AlignUp(addr) + REGION_BYTES) / ALIGN
  }

  /**
    The cells of that region: what is left of the size bytes after the
    alignment and the region struct, in whole cells. They lie within the
    memory handed in.
  */
  function InitCells(addr: nat, size: nat): (cells: nat)
    requires size >= 4 * ALIGN
    ensures cells >= 1
    ensures addr + REGION_BYTES <= InitBase(addr) * ALIGN && (InitBase(addr) + cells) * ALIGN <= addr + size
  {
    (size - (AlignUp(addr) - addr + REGION_BYTES)) / ALIGN
  }

  /** Inserting a region before the first larger one keeps the list sorted by size. */
  lemma SizeSortedInsert(lens: seq<nat>, pos: nat, l: nat)
    requires SizeSorted(lens) && pos <= |lens|
    requires (forall j :: 0 <= j < pos ==> lens[j] <= l) && (pos < |lens| ==> l < lens[pos])
    ensures SizeSorted(lens[..pos] + [l] + lens[pos..])
  {
    var ls := lens[..pos] + [l] + lens[pos..];
    forall i, j | 0 <= i < j < |ls|
      ensures ls[i] <= ls[j]
    {
      if j > pos {
        assert ls[j] == lens[j - 1];
        if i > pos {
          assert ls[i] == lens[i - 1];
        } else if i < pos {
          assert ls[i] == lens[i];
        }
      } else if j < pos {
        assert ls[i] == lens[i] && ls[j] == lens[j];
      }
    }
  }

  /** grub_rememalign_policy's in-place branch applies: the next block is free and brings block k to n cells. */
  predicate GrowsInPlace(v: seq<Blk>, k: nat, n: nat)
    requires k < |v|
  {
    k + 1 < |v| && v[k + 1].free && v[k].size + v[k + 1].size >= n
  }

  class Heap {
    /** The global list `base`. */
    var regions: seq<Region>
    ghost var views: seq<seq<Blk>>
    ghost var Repr: set<object>
    var errno: Error

    ghost predicate Valid()
      reads this, Repr
    {
      |views| == |regions| &&
      (forall i :: 0 <= i < |regions| ==> regions[i] in Repr && regions[i].hdr in Repr) &&
      (forall i :: 0 <= i < |regions| ==> regions[i].Valid() && views[i] == regions[i].view) &&
      Distinct(regions) &&
      Apart(Bases(regions), Lens(regions)) && SizeSorted(Lens(regions))
    }

    /**
      grub_mm_init_region: memory of fewer than four cells' worth of bytes is
      ignored; otherwise a region of one free block is set up past the
      aligned region struct and inserted before the first region of larger
      size. The memory must not overlap a region of the heap.
    */
    method InitRegion(addr: nat, size: nat, policies: seq<Allocator>) returns (ghost pos: nat)
      requires Valid() && |policies| == NPOLICIES
      requires size >= 4 * ALIGN ==> forall i :: 0 <= i < |regions| ==>
        InitBase(addr) + InitCells(addr, size) <= regions[i].baseCell ||
        regions[i].baseCell + regions[i].hdr.Length <= InitBase(addr)
      modifies this
      ensures Valid() && errno == old(errno) && Allocated() == old(Allocated())
      ensures size < 4 * ALIGN ==> regions == old(regions) && views == old(views)
      ensures size >= 4 * ALIGN ==>
        var cells := InitCells(addr, size);
        pos <= |old(regions)| && |regions| == |old(regions)| + 1 &&
        regions == old(regions)[..pos] + [regions[pos]] + old(regions)[pos..] &&
        views == old(views)[..pos] + [[Blk(0, cells, true)]] + old(views)[pos..] &&
        fresh(regions[pos]) && regions[pos].baseCell == InitBase(addr) &&
        regions[pos].hdr.Length == cells && regions[pos].policies == policies &&
        (forall j :: 0 <= j < pos ==> old(regions)[j].hdr.Length <= cells) &&
        (pos < |old(regions)| ==> cells < old(regions)[pos].hdr.Length)
    {
      if size < 4 * ALIGN {
        return 0;
      }
      var r := NewRegion(addr, size, policies);
      var i := 0;
      while i < |regions| && regions[i].hdr.Length * ALIGN <= r.hdr.Length * ALIGN
        invariant i <= |regions| && forall j :: 0 <= j < i ==> regions[j].hdr.Length <= r.hdr.Length
      {
        i := i + 1;
      }
      Insert(r, i);
      pos := i;
    }

    /** The region grub_mm_init_region carves out of size bytes at addr, before it joins the list. */
    static method NewRegion(addr: nat, size: nat, policies: seq<Allocator>) returns (r: Region)
      requires size >= 4 * ALIGN && |policies| == NPOLICIES
      ensures fresh(r) && fresh(r.hdr) && r.Valid() && r.view == [Blk(0, InitCells(addr, size), true)]
      ensures r.baseCell == InitBase(addr) && r.hdr.Length == InitCells(addr, size) && r.policies == policies
      ensures AllocStarts(r.view) == {}
    {
      var start := AlignUp(addr);
      var rest := size - (start - addr + REGION_BYTES);
      r := new Region(rest / ALIGN, (start + REGION_BYTES) / ALIGN, policies);
      AllocStartsOne(r.view[0]);
    }

    /** The splice of grub_mm_init_region: region r goes in at position i of the list. */
    method Insert(r: Region, i: nat)
      requires Valid() && r.Valid() && r !in Repr && r.hdr !in Repr && i <= |regions|
      requires AllocStarts(r.view) == {}
      requires forall j :: 0 <= j < |regions| ==>
        r.baseCell + r.hdr.Length <= regions[j].baseCell || regions[j].baseCell + regions[j].hdr.Length <= r.baseCell
      requires (forall j :: 0 <= j < i ==> regions[j].hdr.Length <= r.hdr.Length) &&
        (i < |regions| ==> r.hdr.Length < regions[i].hdr.Length)
      modifies this
      ensures regions == old(regions)[..i] + [r] + old(regions)[i..] && views == old(views)[..i] + [r.view] + old(views)[i..]
      ensures |regions| == |old(regions)| + 1 && regions[i] == r && views[i] == r.view
      ensures Valid() && errno == old(errno) && Allocated() == old(Allocated())
    {
      ghost var rs, bases, lens, vs := regions, Bases(regions), Lens(regions), views;
      ApartInsert(bases, lens, i, r.baseCell, r.hdr.Length);
      SizeSortedInsert(lens, i, r.hdr.Length);
      AllPtrsInsert(bases, vs, i, r.baseCell, r.view);
      regions := regions[..i] + [r] + regions[i..];
      views := views[..i] + [r.view] + views[i..];
      Repr := Repr + {r, r.hdr};
      BasesInsert(rs, r, i);
      Inserted(rs, vs, r, i);
    }

    /** The list with region r spliced in at position i of the valid list rs is a valid heap. */
    lemma Inserted(rs: seq<Region>, vs: seq<seq<Blk>>, r: Region, i: nat)
      requires |rs| == |vs| && i <= |rs| && r.Valid() && r in Repr && r.hdr in Repr
      requires forall j :: 0 <= j < |rs| ==> rs[j] in Repr && rs[j].hdr in Repr && rs[j].Valid() && vs[j] == rs[j].view
      requires Distinct(rs) && forall j :: 0 <= j < |rs| ==> rs[j] != r && rs[j].hdr != r.hdr
      requires regions == rs[..i] + [r] + rs[i..] && views == vs[..i] + [r.view] + vs[i..]
      requires Apart(Bases(regions), Lens(regions)) && SizeSorted(Lens(regions))
      ensures Valid()
    {
      forall j | 0 <= j < |regions|
        ensures (j < i ==> regions[j] == rs[j] && views[j] == vs[j]) && (j == i ==> regions[j] == r && views[j] == r.view)
        ensures j > i ==> regions[j] == rs[j - 1] && views[j] == vs[j - 1]
      {
      }
      DistinctInsert(rs, r, i);
    }

    /** The payload addresses of the blocks the heap has handed out. */
    ghost function Allocated(): set<nat>
      reads this
    {
      AllPtrs(Bases(regions), views)
    }

    /** The heap before any region is added. */
    constructor ()
      ensures Valid() && regions == [] && Allocated() == {} && errno == NoError
    {
      regions := [];
      views := [];
      Repr := {};
      errno := NoError;
    }

    /** The heap stays valid when one region changes and the others do not. */
    twostate lemma OneRegionChanged(i: nat)
      requires old(Valid()) && regions == old(regions) && Repr == old(Repr) && i < |regions|
      requires regions[i].Valid() && views == old(views)[i := regions[i].view]
      requires forall j :: 0 <= j < |regions| && j != i ==> unchanged(regions[j]) && unchanged(regions[j].hdr)
      ensures Valid()
    {
    }

    lemma Tiled()
      requires Valid()
      ensures Apart(Bases(regions), Lens(regions)) && AllTile(views, Lens(regions))
    {
    }

    /**
      get_header_from_pointer: the region whose bytes hold ptr and the
      header cell just before it. Its fatal checks (unaligned pointer,
      pointer in no region, header without alloc magic) cannot fire for an
      allocated pointer.
    */
    method HeaderOf(ptr: nat) returns (ri: nat, p: nat, ghost k: nat)
      requires Valid() && ptr in Allocated()
      ensures ri < |regions| && k < |views[ri]| && !views[ri][k].free && views[ri][k].start == p
      ensures ptr == PayloadCell(regions[ri].baseCell, p) * ALIGN
    {
      Tiled();
      ghost var bases, lens := Bases(regions), Lens(regions);
      ghost var o := Owner(bases, lens, views, ptr);
      ri := 0;
      while ri < |regions| && !InRegion(regions[ri].baseCell, regions[ri].hdr.Length, ptr)
        invariant ri <= o
      {
        ri := ri + 1;
      }
      k := PtrBlock(bases, lens, views, ptr, ri);
      var r := regions[ri];
      p := ptr / ALIGN - 1 - r.baseCell;
      assert r.hdr[p].magic == ALLOC_MAGIC by {
        MagicTellsFree(r.hdr[..], r.view, k);
      }
    }

    /**
      grub_free: a null pointer is ignored; otherwise the block of ptr is
      freed in its region, and the heap no longer counts ptr as allocated.
    */
    method Free(ptr: nat) returns (ghost ri: nat, ghost k: nat)
      requires Valid() && (ptr == 0 || ptr in Allocated())
      modifies this, Repr
      ensures Valid() && regions == old(regions) && Repr == old(Repr) && errno == old(errno)
      ensures Allocated() == old(Allocated()) - {ptr}
      ensures KeptAll(Bases(regions), old(views), views, {ptr})
      ensures ptr == 0 ==> views == old(views)
      ensures ptr != 0 ==>
        ri < |views| && k < |old(views)[ri]| && !old(views)[ri][k].free &&
        ptr == PayloadCell(regions[ri].baseCell, old(views)[ri][k].start) * ALIGN &&
        views == old(views)[ri := Freed(old(views)[ri], k)]
    {
      if ptr == 0 {
        Tiled();
        NullNotAllocated(Bases(regions), Lens(regions), views);
        KeptAllSame(Bases(regions), views, {ptr});
        return 0, 0;
      }
      var i, p, k' := HeaderOf(ptr);
      ri, k := i, k';
      ghost var bases, lens, vs := Bases(regions), Lens(regions), views;
      Tiled();
      AllPtrsFreed(bases, lens, vs, i, k);
      FreeIn(i, p, k);
      assert Allocated() == AllPtrs(bases, views);
      assert KeptAll(bases, vs, views, {ptr}) by {
        FreedKept(bases[i], vs[i], k);
        KeptAllReplace(bases, vs, i, views[i], {ptr});
      }
    }

    /** grub_free's work on region i: block k, whose header is cell p, is freed there. */
    method FreeIn(i: nat, p: nat, ghost k: nat)
      requires Valid() && i < |regions| && k < |views[i]| && !views[i][k].free && views[i][k].start == p
      modifies this, Repr
      ensures Valid() && regions == old(regions) && Repr == old(Repr) && errno == old(errno)
      ensures views == old(views)[i := Freed(old(views)[i], k)]
    {
      var r := regions[i];
      r.FreeBlock(p, k);
      views := views[i := r.view];
      OneRegionChanged(i);
    }

    /**
      One pass of grub_memalign_policy over the list: the regions whose
      policy is not SKIP are tried in list order, and the first that serves
      the request returns its address.
    */
    method SearchRegions(alignBytes: nat, size: nat, policy: nat) returns (ptr: nat, ghost ri: nat)
      requires Valid() && policy < NPOLICIES
      modifies this, Repr
      ensures Valid() && regions == old(regions) && Repr == old(Repr) && errno == old(errno)
      ensures KeptAll(Bases(regions), old(views), views, {})
      ensures var n, a := CellsFor(size), AlignCells(alignBytes);
        ptr == 0 ==> views == old(views) && forall i :: 0 <= i < |regions| ==> Declines(regions[i], views[i], n, a, policy)
      ensures var n, a := CellsFor(size), AlignCells(alignBytes);
        ptr != 0 ==>
          ri < |regions| && ri < |views| && FirstServer(regions, old(views), n, a, policy, ri, ptr, views[ri]) &&
          views == old(views)[ri := views[ri]] && HoldsBlock(regions[ri].baseCell, views[ri], ptr, n)
      ensures ptr != 0 ==>
        ptr % ALIGN == 0 && Aligned(ptr / ALIGN, AlignCells(alignBytes)) &&
        ptr !in old(Allocated()) && Allocated() == old(Allocated()) + {ptr}
    {
      var n, a := CellsFor(size), AlignCells(alignBytes);
      var i := 0;
      while i < |regions|
        invariant i <= |regions| && Valid() && regions == old(regions) && Repr == old(Repr)
        invariant views == old(views) && errno == old(errno)
        invariant forall j :: 0 <= j < i ==> Declines(regions[j], views[j], n, a, policy)
      {
        if regions[i].policies[policy] != Skip {
          ptr := TryRegion(i, alignBytes, size, policy);
          if ptr != 0 {
            assert FirstServer(regions, old(views), n, a, policy, i, ptr, views[i]);
            ri := i;
            return;
          }
        }
        assert Declines(regions[i], views[i], n, a, policy);
        i := i + 1;
      }
      KeptAllSame(Bases(regions), views, {});
      ptr, ri := 0, 0;
    }

    /**
      The outcome grub_memalign_policy promises, given what its retry rounds
      gave back. On success, mid is the views at the start of the pass that
      served the request and ri the region that served it: the first in list
      order that could, and it now holds a block of exactly the cells the
      size needs, at the address returned. mid is the views on entry when
      the first pass served; in any case every block allocated on entry
      that the retry rounds did not give back is still allocated, with its
      cells, in mid and afterwards.
    */
    twostate predicate Served(alignBytes: nat, size: nat, policy: nat, cache: seq<nat>, unload: seq<nat>,
                              ptr: nat, rounds: nat, ri: nat, mid: seq<seq<Blk>>)
      reads this
    {
      var left := old(Allocated()) - Released(cache, unload, rounds);
      var n, a := CellsFor(size), AlignCells(alignBytes);
      rounds <= 2 &&
      if ptr == 0 then
        rounds == 2 && errno == OutOfMemory && Allocated() == left &&
        KeptAll(Bases(regions), old(views), views, Released(cache, unload, 2)) &&
        forall i :: 0 <= i < |regions| && i < |views| ==> Declines(regions[i], views[i], n, a, policy)
      else
        errno == old(errno) &&
        ServedFrom(old(views), old(Allocated()), alignBytes, size, policy, cache, unload, ptr, rounds, ri, mid)
    }

    /**
      The success case of Served, from the views start and the allocated
      set live on entry to grub_memalign_policy.
    */
    ghost predicate ServedFrom(start: seq<seq<Blk>>, live: set<nat>, alignBytes: nat, size: nat, policy: nat,
                               cache: seq<nat>, unload: seq<nat>, ptr: nat, rounds: nat, ri: nat, mid: seq<seq<Blk>>)
      reads this
    {
      var left := live - Released(cache, unload, rounds);
      var n, a := CellsFor(size), AlignCells(alignBytes);
      ptr != 0 && ptr !in left && Allocated() == left + {ptr} &&
      ptr % ALIGN == 0 && Aligned(ptr / ALIGN, a) &&
      (rounds == 0 ==> mid == start) &&
      KeptAll(Bases(regions), start, mid, Released(cache, unload, rounds)) &&
      KeptAll(Bases(regions), start, views, Released(cache, unload, rounds)) &&
      AllPtrs(Bases(regions), mid) == left && ri < |regions| && ri < |views| &&
      FirstServer(regions, mid, n, a, policy, ri, ptr, views[ri]) && views == mid[ri := views[ri]] &&
      HoldsBlock(regions[ri].baseCell, views[ri], ptr, n)
    }

    /**
      grub_memalign_policy: a pass over the regions; when it fails, the disk
      caches are invalidated and the pass repeated, then the unneeded
      modules are unloaded and the pass repeated; after that the request
      fails with GRUB_ERR_OUT_OF_MEMORY. The two foreign calls give back
      the blocks `cache` and `unload` through grub_free.
    */
    method MemalignPolicy(alignBytes: nat, size: nat, policy: nat, cache: seq<nat>, unload: seq<nat>)
      returns (ptr: nat, ghost rounds: nat, ghost ri: nat, ghost mid: seq<seq<Blk>>)
      requires Valid() && policy < NPOLICIES && Releasable(cache + unload, Allocated())
      modifies this, Repr
      ensures Valid() && regions == old(regions) && Repr == old(Repr)
      ensures Served(alignBytes, size, policy, cache, unload, ptr, rounds, ri, mid)
    {
      ReleasableSplit(cache, unload, Allocated());
      ghost var bases := Bases(regions);
      KeptAllSame(bases, views, {});
      var count := 0;
      while true
        invariant count <= 2 && Valid() && regions == old(regions) && Repr == old(Repr) && errno == old(errno)
        invariant Allocated() == old(Allocated()) - Released(cache, unload, count)
        invariant count == 0 ==> Releasable(cache, Allocated()) && views == old(views)
        invariant count <= 1 ==> Releasable(unload, old(Allocated()) - Elems(cache))
        invariant KeptAll(bases, old(views), views, Released(cache, unload, count))
        decreases 2 - count
      {
        mid := views;
        ptr, ri := Pass(alignBytes, size, policy, cache, unload, count, old(views), old(Allocated()));
        if ptr != 0 {
          rounds := count;
          return;
        }
        if count == 2 {
          break;
        }
        RetryRound(count, cache, unload, old(views), old(Allocated()));
        count := count + 1;
      }
      errno := OutOfMemory;
      rounds := 2;
    }

    /**
      Pass number count of grub_memalign_policy, after the retry rounds
      before it gave back their blocks; start and live are the views and
      the allocated set on entry.
    */
    method Pass(alignBytes: nat, size: nat, policy: nat, cache: seq<nat>, unload: seq<nat>, count: nat,
                ghost start: seq<seq<Blk>>, ghost live: set<nat>) returns (ptr: nat, ghost ri: nat)
      requires Valid() && policy < NPOLICIES && count <= 2
      requires Allocated() == live - Released(cache, unload, count) && (count == 0 ==> views == start)
      requires KeptAll(Bases(regions), start, views, Released(cache, unload, count))
      modifies this, Repr
      ensures Valid() && regions == old(regions) && Repr == old(Repr) && errno == old(errno)
      ensures ptr == 0 ==>
        views == old(views) &&
        forall i :: 0 <= i < |regions| ==> Declines(regions[i], views[i], CellsFor(size), AlignCells(alignBytes), policy)
      ensures ptr != 0 ==> ServedFrom(start, live, alignBytes, size, policy, cache, unload, ptr, count, ri, old(views))
    {
      ptr, ri := SearchRegions(alignBytes, size, policy);
      if ptr != 0 {
        KeptAllTrans(Bases(regions), start, old(views), views, Released(cache, unload, count), {});
        assert Released(cache, unload, count) + {} == Released(cache, unload, count);
      }
    }

    /**
      The foreign call before retry round count + 1 of grub_memalign_policy:
      the disk caches, then the unneeded modules, are given back.
    */
    method RetryRound(count: nat, cache: seq<nat>, unload: seq<nat>, ghost start: seq<seq<Blk>>, ghost live: set<nat>)
      requires Valid() && count < 2 && Elems(cache + unload) == Elems(cache) + Elems(unload)
      requires Allocated() == live - Released(cache, unload, count)
      requires count == 0 ==> Releasable(cache, Allocated())
      requires Releasable(unload, live - Elems(cache))
      requires KeptAll(Bases(regions), start, views, Released(cache, unload, count))
      modifies this, Repr
      ensures Valid() && regions == old(regions) && Repr == old(Repr) && errno == old(errno)
      ensures Allocated() == live - Released(cache, unload, count + 1)
      ensures KeptAll(Bases(regions), start, views, Released(cache, unload, count + 1))
    {
      ghost var before := views;
      if count == 0 {
        Release(cache);
        KeptAllTrans(Bases(regions), start, before, views, {}, Elems(cache));
        assert {} + Elems(cache) == Elems(cache);
      } else {
        Release(unload);
        KeptAllTrans(Bases(regions), start, before, views, Elems(cache), Elems(unload));
      }
    }

    /** The blocks ps are given back one after the other with grub_free. */
    method Release(ps: seq<nat>)
      requires Valid() && Releasable(ps, Allocated())
      modifies this, Repr
      ensures Valid() && regions == old(regions) && Repr == old(Repr) && errno == old(errno)
      ensures Allocated() == old(Allocated()) - Elems(ps)
      ensures KeptAll(Bases(regions), old(views), views, Elems(ps))
    {
      ghost var live, bases := Allocated(), Bases(regions);
      KeptAllSame(bases, views, {});
      var i := 0;
      while i < |ps|
        invariant i <= |ps| && Valid() && regions == old(regions) && Repr == old(Repr) && errno == old(errno)
        invariant Allocated() == live - Elems(ps[..i])
        invariant KeptAll(bases, old(views), views, Elems(ps[..i]))
      {
        ReleaseStep(ps, i, live);
        ghost var before := views;
        ghost var ri: nat, k: nat;
        ri, k := Free(ps[i]);
        KeptStep(bases, old(views), before, views, ps, i);
        i := i + 1;
      }
      assert ps[..i] == ps;
    }

    /** grub_malloc: grub_memalign with no alignment. */
    method Malloc(size: nat, cache: seq<nat>, unload: seq<nat>) returns (ptr: nat, ghost rounds: nat, ghost ri: nat, ghost mid: seq<seq<Blk>>)
      requires Valid() && Releasable(cache + unload, Allocated())
      modifies this, Repr
      ensures Valid() && regions == old(regions) && Repr == old(Repr)
      ensures Served(0, size, MALLOC_DEFAULT, cache, unload, ptr, rounds, ri, mid)
    {
      ptr, rounds, ri, mid := MemalignPolicy(0, size, MALLOC_DEFAULT, cache, unload);
    }

    /** grub_memalign: grub_memalign_policy under the default policy. */
    method Memalign(alignBytes: nat, size: nat, cache: seq<nat>, unload: seq<nat>) returns (ptr: nat, ghost rounds: nat, ghost ri: nat, ghost mid: seq<seq<Blk>>)
      requires Valid() && Releasable(cache + unload, Allocated())
      modifies this, Repr
      ensures Valid() && regions == old(regions) && Repr == old(Repr)
      ensures Served(alignBytes, size, MALLOC_DEFAULT, cache, unload, ptr, rounds, ri, mid)
    {
      ptr, rounds, ri, mid := MemalignPolicy(alignBytes, size, MALLOC_DEFAULT, cache, unload);
    }

    /** grub_zalloc: grub_malloc; the clearing of the block's bytes is not part of this model. */
    method Zalloc(size: nat, cache: seq<nat>, unload: seq<nat>) returns (ptr: nat, ghost rounds: nat, ghost ri: nat, ghost mid: seq<seq<Blk>>)
      requires Valid() && Releasable(cache + unload, Allocated())
      modifies this, Repr
      ensures Valid() && regions == old(regions) && Repr == old(Repr)
      ensures Served(0, size, MALLOC_DEFAULT, cache, unload, ptr, rounds, ri, mid)
    {
      ptr, rounds, ri, mid := MemalignPolicy(0, size, MALLOC_DEFAULT, cache, unload);
    }

    /**
      The outcome grub_rememalign_policy promises; ri and k name the block
      of a non-null ptr, si and mid the region that served a new block and
      the views before that pass.
    */
    twostate predicate Reallocated(ptr: nat, alignBytes: nat, size: nat, policy: nat, cache: seq<nat>, unload: seq<nat>,
                                   q: nat, rounds: nat, ri: nat, k: nat, si: nat, mid: seq<seq<Blk>>)
      reads this
    {
      if ptr == 0 then Served(alignBytes, size, policy, cache, unload, q, rounds, si, mid)
      else
        ri < |old(views)| && ri < |regions| && k < |old(views)[ri]| && !old(views)[ri][k].free &&
        ptr == PayloadCell(regions[ri].baseCell, old(views)[ri][k].start) * ALIGN &&
        var v, n := old(views)[ri], CellsFor(size);
        if size == 0 then
          q == 0 && errno == old(errno) && Allocated() == old(Allocated()) - {ptr} &&
          views == old(views)[ri := Freed(v, k)] && KeptAll(Bases(regions), old(views), views, {ptr})
        else if v[k].size >= n then
          q == ptr && views == old(views) && errno == old(errno)
        else if GrowsInPlace(v, k, n) then
          q == ptr && views == old(views)[ri := Grow(v, k, n)] && errno == old(errno) && Allocated() == old(Allocated())
        else
          Moved(ptr, alignBytes, size, policy, cache, unload, q, rounds, si, mid) &&
          (q == 0 ==> HoldsBlock(regions[ri].baseCell, views[ri], ptr, v[k].size))
    }

    /**
      The outcome of moving the block at ptr: a new block, then ptr freed;
      on failure ptr stays. The new block comes from region si, the first
      in list order that could serve it on the views mid the pass started
      from, and holds exactly the cells the size needs. Every block
      allocated on entry that neither the retry rounds nor the move gave
      back keeps its cells; on failure that includes the block at ptr.
    */
    twostate predicate Moved(ptr: nat, alignBytes: nat, size: nat, policy: nat, cache: seq<nat>, unload: seq<nat>,
                             q: nat, rounds: nat, si: nat, mid: seq<seq<Blk>>)
      reads this
    {
      var left := old(Allocated()) - Released(cache, unload, rounds);
      var n, a := CellsFor(size), AlignCells(alignBytes);
      rounds <= 2 && ptr in left &&
      if q == 0 then
        rounds == 2 && errno == OutOfMemory && Allocated() == left &&
        KeptAll(Bases(regions), old(views), views, Released(cache, unload, 2)) &&
        forall i :: 0 <= i < |regions| && i < |views| ==> Declines(regions[i], views[i], n, a, policy)
      else
        q != ptr && q !in left && Allocated() == left - {ptr} + {q} && errno == old(errno) &&
        q % ALIGN == 0 && Aligned(q / ALIGN, a) &&
        (rounds == 0 ==> mid == old(views)) &&
        KeptAll(Bases(regions), old(views), mid, Released(cache, unload, rounds)) &&
        KeptAll(Bases(regions), old(views), views, Released(cache, unload, rounds) + {ptr}) &&
        AllPtrs(Bases(regions), mid) == left && (exists w :: FirstServer(regions, mid, n, a, policy, si, q, w)) &&
        si < |regions| && si < |views| && HoldsBlock(regions[si].baseCell, views[si], q, n)
    }

    /**
      grub_rememalign_policy: a null pointer is allocated; size 0 frees;
      a block that already has the cells is kept; a block whose free
      neighbour above brings it to the cells grows in place; otherwise a
      new block is allocated and the old one freed (the copy of the
      contents is not part of this model), and when that allocation fails
      the old block stays allocated.
    */
    method RememalignPolicy(ptr: nat, alignBytes: nat, size: nat, policy: nat, cache: seq<nat>, unload: seq<nat>)
      returns (q: nat, ghost rounds: nat, ghost ri: nat, ghost k: nat, ghost si: nat, ghost mid: seq<seq<Blk>>)
      requires Valid() && policy < NPOLICIES && (ptr == 0 || ptr in Allocated())
      requires Releasable(cache + unload, Allocated() - {ptr})
      modifies this, Repr
      ensures Valid() && regions == old(regions) && Repr == old(Repr)
      ensures Reallocated(ptr, alignBytes, size, policy, cache, unload, q, rounds, ri, k, si, mid)
    {
      ReleasableWithin(cache + unload, Allocated() - {ptr}, Allocated());
      si, mid := 0, views;
      if ptr == 0 {
        q, rounds, si, mid := MemalignPolicy(alignBytes, size, policy, cache, unload);
        ri, k := 0, 0;
        return;
      }
      if size == 0 {
        ri, k := Free(ptr);
        return 0, 0, ri, k, si, mid;
      }
      var n := (size + ALIGN - 1) / ALIGN + 1;
      assert n == CellsFor(size);
      var i, p, k' := HeaderOf(ptr);
      ri, k, rounds := i, k', 0;
      var kept := Resize(i, p, n, k);
      if kept {
        return ptr, 0, ri, k, si, mid;
      }
      q, rounds, si, mid := Move(ptr, alignBytes, size, policy, cache, unload, ri, k);
    }

    /**
      The branches of grub_rememalign_policy that keep the block: it
      already has n cells, or it grows to n cells in place.
    */
    method Resize(i: nat, p: nat, n: nat, ghost k: nat) returns (kept: bool)
      requires Valid() && i < |regions| && k < |views[i]| && !views[i][k].free && views[i][k].start == p
      modifies this, Repr
      ensures Valid() && regions == old(regions) && Repr == old(Repr) && errno == old(errno)
      ensures Allocated() == old(Allocated())
      ensures var v := old(views)[i];
        (kept <==> v[k].size >= n || GrowsInPlace(v, k, n)) &&
        views == if v[k].size < n && GrowsInPlace(v, k, n) then old(views)[i := Grow(v, k, n)] else old(views)
    {
      var r := regions[i];
      ExtendTest(r.hdr[..], r.view, r.first, k);
      if r.hdr[p].size >= n {
        return true;
      }
      Tiled();
      ghost var bases, lens, vs := Bases(regions), Lens(regions), views;
      kept := r.Extend(p, n, k);
      views := views[i := r.view];
      OneRegionChanged(i);
      if kept {
        AllPtrsGrown(bases, lens, vs, i, k, n);
      }
    }

    /**
      The moving branch of grub_rememalign_policy: allocate anew, then free
      the old block, block k of region ri; when the allocation fails, that
      block is untouched.
    */
    method Move(ptr: nat, alignBytes: nat, size: nat, policy: nat, cache: seq<nat>, unload: seq<nat>, ghost ri: nat, ghost k: nat)
      returns (q: nat, ghost rounds: nat, ghost si: nat, ghost mid: seq<seq<Blk>>)
      requires Valid() && policy < NPOLICIES && ptr in Allocated()
      requires ri < |regions| && k < |views[ri]| && !views[ri][k].free
      requires ptr == PayloadCell(regions[ri].baseCell, views[ri][k].start) * ALIGN
      requires Releasable(cache + unload, Allocated() - {ptr})
      modifies this, Repr
      ensures Valid() && regions == old(regions) && Repr == old(Repr)
      ensures Moved(ptr, alignBytes, size, policy, cache, unload, q, rounds, si, mid)
      ensures q == 0 ==> HoldsBlock(regions[ri].baseCell, views[ri], ptr, old(views)[ri][k].size)
    {
      ReleasableWithin(cache + unload, Allocated() - {ptr}, Allocated());
      q, rounds, si, mid := MemalignPolicy(alignBytes, size, policy, cache, unload);
      NotReleased(cache, unload, rounds, old(Allocated()) - {ptr}, ptr);
      if q == 0 {
        KeptHolds(Bases(regions), old(views), views, Released(cache, unload, 2), ri, k, ptr);
        return;
      }
      ghost var left, got, vs := old(Allocated()) - Released(cache, unload, rounds), Allocated(), views;
      assert FirstServer(regions, mid, CellsFor(size), AlignCells(alignBytes), policy, si, q, vs[si]);
      ghost var ri: nat, k: nat;
      ri, k := Free(ptr);
      MovedSets(left, ptr, q, got, Allocated());
      KeptAllTrans(Bases(regions), old(views), vs, views, Released(cache, unload, rounds), {ptr});
      if ri == si {
        FreedKeeps(regions[si].baseCell, vs[si], k, q, CellsFor(size));
      }
    }

    /** grub_realloc: grub_rememalign_policy with alignment 1 under the default policy. */
    method Realloc(ptr: nat, size: nat, cache: seq<nat>, unload: seq<nat>)
      returns (q: nat, ghost rounds: nat, ghost ri: nat, ghost k: nat, ghost si: nat, ghost mid: seq<seq<Blk>>)
      requires Valid() && (ptr == 0 || ptr in Allocated())
      requires Releasable(cache + unload, Allocated() - {ptr})
      modifies this, Repr
      ensures Valid() && regions == old(regions) && Repr == old(Repr)
      ensures Reallocated(ptr, 1, size, MALLOC_DEFAULT, cache, unload, q, rounds, ri, k, si, mid)
    {
      q, rounds, ri, k, si, mid := RememalignPolicy(ptr, 1, size, MALLOC_DEFAULT, cache, unload);
    }

    /** grub_real_malloc on region i with the region's allocator for the policy. */
    method TryRegion(i: nat, alignBytes: nat, size: nat, policy: nat) returns (ptr: nat)
      requires Valid() && i < |regions| && policy < NPOLICIES && regions[i].policies[policy] != Skip
      modifies this, Repr
      ensures Valid() && regions == old(regions) && Repr == old(Repr) && errno == old(errno)
      ensures var r := regions[i];
        Malloced(old(views)[i], r.baseCell, CellsFor(size), AlignCells(alignBytes), r.policies[policy]) ==
          if ptr == 0 then None else Some((ptr, views[i]))
      ensures views == old(views)[i := views[i]] && (ptr == 0 ==> views == old(views))
      ensures ptr != 0 ==>
        ptr % ALIGN == 0 && Aligned(ptr / ALIGN, AlignCells(alignBytes)) &&
        ptr !in old(Allocated()) && Allocated() == old(Allocated()) + {ptr} &&
        HoldsBlock(regions[i].baseCell, views[i], ptr, CellsFor(size))
      ensures KeptAll(Bases(regions), old(views), views, {})
    {
      var r := regions[i];
      var n, a, alloc := CellsFor(size), AlignCells(alignBytes), r.policies[policy];
      ghost var bases, lens, vs := Bases(regions), Lens(regions), views;
      Tiled();
      ptr := r.RealMalloc(alignBytes, size, alloc);
      views := views[i := r.view];
      OneRegionChanged(i);
      if ptr != 0 {
        AllPtrsMalloced(bases, lens, vs, i, n, a, alloc);
        MallocedHolds(vs[i], lens[i], bases[i], n, a, alloc);
        assert Allocated() == AllPtrs(bases, views);
        MallocedKeeps(vs[i], bases[i], n, a, alloc);
        KeptAllReplace(bases, vs, i, views[i], {});
      } else {
        KeptAllSame(bases, views, {});
      }
    }

  }
}
