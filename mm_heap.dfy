/**
  The heap of kern/mm.c as values: the payload addresses of the allocated
  blocks of every region, and how they change when one region changes.
  Regions occupy disjoint ranges of cells, so a payload address belongs to
  exactly one region.
*/
module MmHeap {
  import opened Wrappers
  import opened MmLayout
  import opened MmSpec

  /** The payload addresses (in bytes) of the allocated blocks of a region at cell `base`. */
  ghost function Ptrs(base: nat, v: seq<Blk>): set<nat> {
    set s | s in AllocStarts(v) :: PayloadCell(base, s) * ALIGN
  }

  /** The payload addresses of all regions: region i starts at cell bases[i] and has view views[i]. */
  ghost function AllPtrs(bases: seq<nat>, views: seq<seq<Blk>>): set<nat> {
    set i, x | 0 <= i < |views| && i < |bases| && x in Ptrs(bases[i], views[i]) :: x
  }

  /** Region i covers the bytes after its first header up to its end: where its payloads lie. */
  predicate InRegion(base: nat, total: nat, x: nat) {
    base * ALIGN < x <= (base + total) * ALIGN
  }

  /** No two regions share a cell. */
  predicate Apart(bases: seq<nat>, lens: seq<nat>) {
    |bases| == |lens| &&
    forall i, j :: 0 <= i < |bases| && 0 <= j < |bases| && i != j ==>
      bases[i] + lens[i] <= bases[j] || bases[j] + lens[j] <= bases[i]
  }

  /** Every view tiles its region. */
  predicate AllTile(views: seq<seq<Blk>>, lens: seq<nat>) {
    |views| == |lens| && forall i :: 0 <= i < |views| ==> Tiles(views[i], lens[i])
  }

  /** A payload address of a region is a cell address inside that region. */
  lemma PtrsInRegion(base: nat, v: seq<Blk>, total: nat, x: nat)
    requires Tiles(v, total) && x in Ptrs(base, v)
    ensures InRegion(base, total, x) && x % ALIGN == 0
  {
    var s :| s in AllocStarts(v) && x == PayloadCell(base, s) * ALIGN;
    assert s < total by {
      AllocStartsMember(v, s);
      var i :| 0 <= i < |v| && !v[i].free && v[i].start == s;
      assert v[i].size > 0 && End(v[i]) <= total by {
        BlockInside(v, total, i);
      }
    }
    PayloadInRegion(base, s, total);
  }

  /** The payload address of a block starting inside the region. */
  lemma PayloadInRegion(base: nat, s: nat, total: nat)
    requires s < total
    ensures InRegion(base, total, PayloadCell(base, s) * ALIGN) && (PayloadCell(base, s) * ALIGN) % ALIGN == 0
  {
  }

  /** The payload address of block start s. */
  lemma PtrsMember(base: nat, v: seq<Blk>, s: nat)
    ensures PayloadCell(base, s) * ALIGN in Ptrs(base, v) <==> s in AllocStarts(v)
  {
    if PayloadCell(base, s) * ALIGN in Ptrs(base, v) {
      var s' :| s' in AllocStarts(v) && PayloadCell(base, s) * ALIGN == PayloadCell(base, s') * ALIGN;
      assert s' == s;
    }
  }

  /** One allocated block more: one payload address more. */
  lemma PtrsAdd(base: nat, v: seq<Blk>, w: seq<Blk>, s: nat)
    requires AllocStarts(w) == AllocStarts(v) + {s}
    ensures Ptrs(base, w) == Ptrs(base, v) + {PayloadCell(base, s) * ALIGN}
  {
  }

  /** One allocated block less: one payload address less. */
  lemma PtrsRemove(base: nat, v: seq<Blk>, w: seq<Blk>, s: nat)
    requires AllocStarts(w) == AllocStarts(v) - {s}
    ensures Ptrs(base, w) == Ptrs(base, v) - {PayloadCell(base, s) * ALIGN}
  {
    forall x | x in Ptrs(base, v) - {PayloadCell(base, s) * ALIGN}
      ensures x in Ptrs(base, w)
    {
      var s' :| s' in AllocStarts(v) && x == PayloadCell(base, s') * ALIGN;
      assert s' != s;
    }
  }

  /** Which region an address of the heap belongs to. */
  lemma Owner(bases: seq<nat>, lens: seq<nat>, views: seq<seq<Blk>>, x: nat) returns (i: nat)
    requires Apart(bases, lens) && AllTile(views, lens) && x in AllPtrs(bases, views)
    ensures i < |views| && x in Ptrs(bases[i], views[i]) && InRegion(bases[i], lens[i], x) && x % ALIGN == 0
    ensures forall j :: 0 <= j < |views| && j != i ==> !InRegion(bases[j], lens[j], x)
  {
    i :| 0 <= i < |views| && i < |bases| && x in Ptrs(bases[i], views[i]);
    PtrsInRegion(bases[i], views[i], lens[i], x);
  }

  /** An address inside one region lies in no other. */
  lemma ApartRanges(bases: seq<nat>, lens: seq<nat>, i: nat, j: nat, x: nat)
    requires Apart(bases, lens) && i < |bases| && j < |bases| && i != j
    requires InRegion(bases[i], lens[i], x)
    ensures !InRegion(bases[j], lens[j], x)
  {
    assert bases[i] + lens[i] <= bases[j] || bases[j] + lens[j] <= bases[i];
  }

  /** A region hands out no address outside itself. */
  lemma PtrsOutside(base: nat, v: seq<Blk>, total: nat, x: nat)
    requires Tiles(v, total) && !InRegion(base, total, x)
    ensures x !in Ptrs(base, v)
  {
    if x in Ptrs(base, v) {
      PtrsInRegion(base, v, total, x);
      assert false;
    }
  }

  /** An allocated address inside region i is the payload address of an allocated block of region i. */
  lemma PtrBlock(bases: seq<nat>, lens: seq<nat>, views: seq<seq<Blk>>, x: nat, i: nat) returns (k: nat)
    requires Apart(bases, lens) && AllTile(views, lens) && x in AllPtrs(bases, views)
    requires i < |views| && InRegion(bases[i], lens[i], x)
    ensures k < |views[i]| && !views[i][k].free && x == PayloadCell(bases[i], views[i][k].start) * ALIGN
    ensures x / ALIGN == bases[i] + views[i][k].start + 1
  {
    var o := Owner(bases, lens, views, x);
    assert o == i;
    var s :| s in AllocStarts(views[i]) && x == PayloadCell(bases[i], s) * ALIGN;
    AllocStartsMember(views[i], s);
    k :| 0 <= k < |views[i]| && !views[i][k].free && views[i][k].start == s;
  }

  /**
    Replacing the view of region i by w, whose payload addresses are the
    old ones less D plus A, changes the heap's addresses the same way.
  */
  lemma AllPtrsReplace(bases: seq<nat>, lens: seq<nat>, views: seq<seq<Blk>>, i: nat, w: seq<Blk>, d: set<nat>, a: set<nat>)
    requires Apart(bases, lens) && AllTile(views, lens) && i < |views| && Tiles(w, lens[i])
    requires d <= Ptrs(bases[i], views[i]) && Ptrs(bases[i], w) == Ptrs(bases[i], views[i]) - d + a
    ensures AllPtrs(bases, views[i := w]) == AllPtrs(bases, views) - d + a
  {
    forall x | x in AllPtrs(bases, views[i := w])
      ensures x in AllPtrs(bases, views) - d + a
    {
      ReplacedFrom(bases, lens, views, i, w, d, a, x);
    }
    forall x | x in AllPtrs(bases, views) - d + a
      ensures x in AllPtrs(bases, views[i := w])
    {
      ReplacedTo(bases, lens, views, i, w, d, a, x);
    }
  }

  /** An address of the heap after the replacement was there before, outside D, or is in A. */
  lemma ReplacedFrom(bases: seq<nat>, lens: seq<nat>, views: seq<seq<Blk>>, i: nat, w: seq<Blk>, d: set<nat>, a: set<nat>, x: nat)
    requires Apart(bases, lens) && AllTile(views, lens) && i < |views| && Tiles(w, lens[i])
    requires d <= Ptrs(bases[i], views[i]) && Ptrs(bases[i], w) == Ptrs(bases[i], views[i]) - d + a
    requires x in AllPtrs(bases, views[i := w])
    ensures x in AllPtrs(bases, views) - d + a
  {
    var views2 := views[i := w];
    var j :| 0 <= j < |views2| && j < |bases| && x in Ptrs(bases[j], views2[j]);
    if j == i {
      assert x in Ptrs(bases[i], w);
      if x !in a {
        assert x in Ptrs(bases[i], views[i]) && x !in d;
      }
    } else {
      assert x in Ptrs(bases[j], views[j]);
      PtrsInRegion(bases[j], views[j], lens[j], x);
      ApartRanges(bases, lens, j, i, x);
      PtrsOutside(bases[i], views[i], lens[i], x);
      assert x !in d;
    }
  }

  /** An address of the heap outside D, or in A, is there after the replacement. */
  lemma ReplacedTo(bases: seq<nat>, lens: seq<nat>, views: seq<seq<Blk>>, i: nat, w: seq<Blk>, d: set<nat>, a: set<nat>, x: nat)
    requires i < |views| && i < |bases|
    requires Ptrs(bases[i], w) == Ptrs(bases[i], views[i]) - d + a
    requires x in AllPtrs(bases, views) - d + a
    ensures x in AllPtrs(bases, views[i := w])
  {
    if x !in a {
      var j :| 0 <= j < |views| && j < |bases| && x in Ptrs(bases[j], views[j]);
      if j != i {
        assert x in Ptrs(bases[j], views[i := w][j]);
      } else {
        assert x in Ptrs(bases[i], w);
        assert x in Ptrs(bases[i], views[i := w][i]);
      }
    } else {
      assert x in Ptrs(bases[i], views[i := w][i]);
    }
  }

  /** The null pointer is never handed out. */
  lemma NullNotAllocated(bases: seq<nat>, lens: seq<nat>, views: seq<seq<Blk>>)
    requires Apart(bases, lens) && AllTile(views, lens)
    ensures 0 !in AllPtrs(bases, views)
  {
    forall x | x in AllPtrs(bases, views)
      ensures x != 0
    {
      var i := Owner(bases, lens, views, x);
    }
  }

  /** An address of region i that region i does not hand out is not handed out anywhere. */
  lemma NotElsewhere(bases: seq<nat>, lens: seq<nat>, views: seq<seq<Blk>>, i: nat, x: nat)
    requires Apart(bases, lens) && AllTile(views, lens) && i < |views|
    requires InRegion(bases[i], lens[i], x) && x !in Ptrs(bases[i], views[i])
    ensures x !in AllPtrs(bases, views)
  {
    if x in AllPtrs(bases, views) {
      var j := Owner(bases, lens, views, x);
    }
  }

  /** grub_free at the heap level: freeing block k of region i gives back exactly its payload address. */
  lemma AllPtrsFreed(bases: seq<nat>, lens: seq<nat>, views: seq<seq<Blk>>, i: nat, k: nat)
    requires Apart(bases, lens) && AllTile(views, lens) && i < |views| && Coalesced(views[i])
    requires k < |views[i]| && !views[i][k].free
    ensures var ptr := PayloadCell(bases[i], views[i][k].start) * ALIGN;
      ptr in AllPtrs(bases, views) &&
      AllPtrs(bases, views[i := Freed(views[i], k)]) == AllPtrs(bases, views) - {ptr}
  {
    var v, s := views[i], views[i][k].start;
    FreedFacts(v, lens[i], k);
    AllocStartsMember(v, s);
    PtrsMember(bases[i], v, s);
    PtrsRemove(bases[i], v, Freed(v, k), s);
    AllPtrsReplace(bases, lens, views, i, Freed(v, k), {PayloadCell(bases[i], s) * ALIGN}, {});
  }

  /** A successful grub_real_malloc in region i hands out one address that no region handed out before. */
  lemma AllPtrsTaken(bases: seq<nat>, lens: seq<nat>, views: seq<seq<Blk>>, i: nat,
                     n: nat, a: nat, alloc: Allocator, j: nat)
    requires Apart(bases, lens) && AllTile(views, lens) && i < |views|
    requires a >= 1 && 0 < n && j < |FreeStarts(views[i])| && FitsAt(views[i], bases[i], n, a, j)
    ensures var ptr := PayloadCell(bases[i], TakenStart(views[i], bases[i], n, a, alloc, j)) * ALIGN;
      ptr % ALIGN == 0 && Aligned(ptr / ALIGN, a) && ptr !in AllPtrs(bases, views) &&
      AllPtrs(bases, views[i := Taken(views[i], bases[i], n, a, alloc, j)]) == AllPtrs(bases, views) + {ptr}
  {
    var v, w, s := views[i], Taken(views[i], bases[i], n, a, alloc, j), TakenStart(views[i], bases[i], n, a, alloc, j);
    var ptr := PayloadCell(bases[i], s) * ALIGN;
    assert ptr / ALIGN == PayloadCell(bases[i], s);
    TakenFacts(v, lens[i], bases[i], n, a, alloc, j);
    BlockInside(v, lens[i], FreeIndex(v, j));
    PtrsMember(bases[i], v, s);
    PtrsAdd(bases[i], v, w, s);
    NotElsewhere(bases, lens, views, i, ptr);
    AllPtrsReplace(bases, lens, views, i, w, {}, {ptr});
  }

  /** Growing a block in place hands out no address and takes none back. */
  lemma AllPtrsGrown(bases: seq<nat>, lens: seq<nat>, views: seq<seq<Blk>>, i: nat, k: nat, n: nat)
    requires Apart(bases, lens) && AllTile(views, lens) && i < |views| && Coalesced(views[i])
    requires k + 1 < |views[i]| && !views[i][k].free && views[i][k + 1].free
    requires views[i][k].size < n <= views[i][k].size + views[i][k + 1].size
    ensures AllPtrs(bases, views[i := Grow(views[i], k, n)]) == AllPtrs(bases, views)
  {
    GrowFacts(views[i], lens[i], k, n);
    AllPtrsReplace(bases, lens, views, i, Grow(views[i], k, n), {}, {});
  }

  /**
    What grub_real_malloc does to a region at cell `base` with view v: None
    when no free block fits, else the payload address it returns and the
    region's new view.
  */
  ghost function Malloced(v: seq<Blk>, base: nat, n: nat, a: nat, alloc: Allocator): Option<(nat, seq<Blk>)>
    requires a >= 1 && 0 < n
  {
    match Choose(v, base, n, a, alloc, 0)
    case None => None
    case Some(i) =>
      var j := SearchPos(alloc, i, |FreeStarts(v)|);
      Some((PayloadCell(base, TakenStart(v, base, n, a, alloc, j)) * ALIGN, Taken(v, base, n, a, alloc, j)))
  }

  /**
    A region that serves a request hands out an aligned address that was
    not allocated anywhere in the heap, and the heap gains exactly that one.
  */
  lemma AllPtrsMalloced(bases: seq<nat>, lens: seq<nat>, views: seq<seq<Blk>>, i: nat,
                        n: nat, a: nat, alloc: Allocator)
    requires Apart(bases, lens) && AllTile(views, lens) && i < |views|
    requires a >= 1 && 0 < n && Malloced(views[i], bases[i], n, a, alloc).Some?
    ensures var (ptr, w) := Malloced(views[i], bases[i], n, a, alloc).value;
      ptr % ALIGN == 0 && Aligned(ptr / ALIGN, a) && ptr !in AllPtrs(bases, views) &&
      Tiles(w, lens[i]) && AllPtrs(bases, views[i := w]) == AllPtrs(bases, views) + {ptr}
  {
    var c := Choose(views[i], bases[i], n, a, alloc, 0).value;
    var j := SearchPos(alloc, c, |FreeStarts(views[i])|);
    AllPtrsTaken(bases, lens, views, i, n, a, alloc, j);
    TakenFacts(views[i], lens[i], bases[i], n, a, alloc, j);
  }

  /** View v of a region at cell `base` holds an allocated block of exactly n cells whose payload address is ptr. */
  ghost predicate HoldsBlock(base: nat, v: seq<Blk>, ptr: nat, n: nat) {
    exists k :: 0 <= k < |v| && !v[k].free && v[k].size == n && PayloadCell(base, v[k].start) * ALIGN == ptr
  }

  /** The block grub_real_malloc hands out has exactly the n cells asked for, and its payload is the address returned. */
  lemma MallocedHolds(v: seq<Blk>, total: nat, base: nat, n: nat, a: nat, alloc: Allocator)
    requires Tiles(v, total) && a >= 1 && 0 < n && Malloced(v, base, n, a, alloc).Some?
    ensures var (ptr, w) := Malloced(v, base, n, a, alloc).value; HoldsBlock(base, w, ptr, n)
  {
    var c := Choose(v, base, n, a, alloc, 0).value;
    var j := SearchPos(alloc, c, |FreeStarts(v)|);
    TakenFacts(v, total, base, n, a, alloc, j);
    var w := Taken(v, base, n, a, alloc, j);
    var ci := CarvedIndex(FreeIndex(v, j), WantAt(v, base, n, a, alloc, j) - n);
    assert w[ci] == Blk(TakenStart(v, base, n, a, alloc, j), n, false);
  }

  /** grub_free of block k leaves every other allocated block of the region as it was. */
  lemma FreedKeeps(base: nat, v: seq<Blk>, k: nat, ptr: nat, n: nat)
    requires k < |v| && !v[k].free && HoldsBlock(base, v, ptr, n) && ptr != PayloadCell(base, v[k].start) * ALIGN
    ensures HoldsBlock(base, Freed(v, k), ptr, n)
  {
    var j :| 0 <= j < |v| && !v[j].free && v[j].size == n && PayloadCell(base, v[j].start) * ALIGN == ptr;
    var lo, hi := FreedLo(v, k), FreedHi(v, k);
    assert j < lo || hi <= j;
    var b := Blk(v[lo].start, FreedSize(v, k), true);
    assert Freed(v, k) == v[..lo] + [b] + v[hi..] by {
      FreedShape(v, k);
    }
    var i := if j < lo then j else j - hi + lo + 1;
    SpliceIndex(v, lo, hi, [b], i);
    assert Freed(v, k)[i] == v[j];
  }

  /**
    Every allocated block of view v, other than those whose address is in
    `gone`, is still an allocated block of view w, with the same cells.
  */
  ghost predicate KeptIn(base: nat, v: seq<Blk>, w: seq<Blk>, gone: set<nat>) {
    forall x, m :: x !in gone && HoldsBlock(base, v, x, m) ==> HoldsBlock(base, w, x, m)
  }

  /** KeptIn for every region: region i starts at cell bases[i] and goes from view vs[i] to view ws[i]. */
  ghost predicate KeptAll(bases: seq<nat>, vs: seq<seq<Blk>>, ws: seq<seq<Blk>>, gone: set<nat>) {
    |vs| == |bases| && |ws| == |bases| &&
    forall i :: 0 <= i < |bases| ==> KeptIn(bases[i], vs[i], ws[i], gone)
  }

  /** Carving n cells out of free block k keeps every allocated block. */
  lemma CarveKeeps(base: nat, v: seq<Blk>, k: nat, off: nat, n: nat)
    requires k < |v| && v[k].free && 0 < n && off + n <= v[k].size
    ensures KeptIn(base, v, Carve(v, k, off, n), {})
  {
    forall x, m | HoldsBlock(base, v, x, m)
      ensures HoldsBlock(base, Carve(v, k, off, n), x, m)
    {
      var j :| 0 <= j < |v| && !v[j].free && v[j].size == m && PayloadCell(base, v[j].start) * ALIGN == x;
      var mid := CarveMid(v[k], off, n);
      var i := if j < k then j else j - 1 + |mid|;
      SpliceIndex(v, k, k + 1, mid, i);
      assert Carve(v, k, off, n)[i] == v[j];
    }
  }

  /** grub_real_malloc keeps every block that was allocated in the region before. */
  lemma MallocedKeeps(v: seq<Blk>, base: nat, n: nat, a: nat, alloc: Allocator)
    requires a >= 1 && 0 < n && Malloced(v, base, n, a, alloc).Some?
    ensures KeptIn(base, v, Malloced(v, base, n, a, alloc).value.1, {})
  {
    var c := Choose(v, base, n, a, alloc, 0).value;
    var j := SearchPos(alloc, c, |FreeStarts(v)|);
    var k := FreeIndex(v, j);
    assert Taken(v, base, n, a, alloc, j) == Carve(v, k, WantAt(v, base, n, a, alloc, j) - n, n);
    CarveKeeps(base, v, k, WantAt(v, base, n, a, alloc, j) - n, n);
  }

  /** grub_free of block k keeps every other allocated block. */
  lemma FreedKept(base: nat, v: seq<Blk>, k: nat)
    requires k < |v| && !v[k].free
    ensures KeptIn(base, v, Freed(v, k), {PayloadCell(base, v[k].start) * ALIGN})
  {
    forall x, m | x !in {PayloadCell(base, v[k].start) * ALIGN} && HoldsBlock(base, v, x, m)
      ensures HoldsBlock(base, Freed(v, k), x, m)
    {
      FreedKeeps(base, v, k, x, m);
    }
  }

  /** Two steps that each keep the blocks outside their own set keep the blocks outside both sets. */
  lemma KeptAllTrans(bases: seq<nat>, u: seq<seq<Blk>>, v: seq<seq<Blk>>, w: seq<seq<Blk>>, g1: set<nat>, g2: set<nat>)
    requires KeptAll(bases, u, v, g1) && KeptAll(bases, v, w, g2)
    ensures KeptAll(bases, u, w, g1 + g2)
  {
    forall i | 0 <= i < |bases|
      ensures KeptIn(bases[i], u[i], w[i], g1 + g2)
    {
      assert KeptIn(bases[i], u[i], v[i], g1) && KeptIn(bases[i], v[i], w[i], g2);
    }
  }

  /** Block k of region i, not given back, keeps its cells. */
  lemma KeptHolds(bases: seq<nat>, vs: seq<seq<Blk>>, ws: seq<seq<Blk>>, gone: set<nat>, i: nat, k: nat, x: nat)
    requires KeptAll(bases, vs, ws, gone) && i < |bases| && k < |vs[i]| && !vs[i][k].free && x !in gone
    requires x == PayloadCell(bases[i], vs[i][k].start) * ALIGN
    ensures HoldsBlock(bases[i], ws[i], x, vs[i][k].size)
  {
    assert HoldsBlock(bases[i], vs[i], x, vs[i][k].size);
  }

  /** Giving back ps[i] after ps[..i]: the blocks outside ps[..i + 1] are kept. */
  lemma KeptStep(bases: seq<nat>, u: seq<seq<Blk>>, v: seq<seq<Blk>>, w: seq<seq<Blk>>, ps: seq<nat>, i: nat)
    requires i < |ps| && KeptAll(bases, u, v, Elems(ps[..i])) && KeptAll(bases, v, w, {ps[i]})
    ensures KeptAll(bases, u, w, Elems(ps[..i + 1]))
  {
    KeptAllTrans(bases, u, v, w, Elems(ps[..i]), {ps[i]});
    assert ps[..i + 1] == ps[..i] + [ps[i]];
    assert Elems(ps[..i + 1]) == Elems(ps[..i]) + {ps[i]};
  }

  /** Changing the view of one region keeps, in the heap, what it keeps in that region. */
  lemma KeptAllReplace(bases: seq<nat>, vs: seq<seq<Blk>>, i: nat, w: seq<Blk>, gone: set<nat>)
    requires |vs| == |bases| && i < |vs| && KeptIn(bases[i], vs[i], w, gone)
    ensures KeptAll(bases, vs, vs[i := w], gone)
  {
  }

  /** Nothing changes: every block is kept. */
  lemma KeptAllSame(bases: seq<nat>, vs: seq<seq<Blk>>, gone: set<nat>)
    requires |vs| == |bases|
    ensures KeptAll(bases, vs, vs, gone)
  {
  }

  /** The addresses in a list. */
  ghost function Elems(ps: seq<nat>): set<nat> {
    set x | x in ps
  }

  /** A list of blocks a foreign call may give back with grub_free: allocated ones, each once. */
  ghost predicate Releasable(ps: seq<nat>, live: set<nat>) {
    (forall i :: 0 <= i < |ps| ==> ps[i] in live) &&
    (forall i, j :: 0 <= i < j < |ps| ==> ps[i] != ps[j])
  }

  /** Giving back the blocks of a releasable list one at a time: the next one is still allocated. */
  lemma ReleaseStep(ps: seq<nat>, i: nat, live: set<nat>)
    requires Releasable(ps, live) && i < |ps|
    ensures ps[i] in live - Elems(ps[..i])
    ensures live - Elems(ps[..i]) - {ps[i]} == live - Elems(ps[..i + 1])
  {
    assert ps[..i + 1] == ps[..i] + [ps[i]];
    forall j | 0 <= j < i
      ensures ps[..i][j] != ps[i]
    {
    }
  }

  /** Giving back the first list leaves the second one releasable. */
  lemma ReleasableSplit(c: seq<nat>, u: seq<nat>, live: set<nat>)
    requires Releasable(c + u, live)
    ensures Releasable(c, live) && Releasable(u, live - Elems(c))
    ensures Elems(c + u) == Elems(c) + Elems(u)
  {
    forall i | 0 <= i < |c|
      ensures c[i] in live
    {
      assert c[i] == (c + u)[i];
    }
    forall i, j | 0 <= i < j < |c|
      ensures c[i] != c[j]
    {
      assert c[i] == (c + u)[i] && c[j] == (c + u)[j];
    }
    forall i | 0 <= i < |u|
      ensures u[i] in live - Elems(c)
    {
      assert u[i] == (c + u)[|c| + i];
      forall j | 0 <= j < |c|
        ensures c[j] != u[i]
      {
        assert c[j] == (c + u)[j];
      }
    }
    forall i, j | 0 <= i < j < |u|
      ensures u[i] != u[j]
    {
      assert u[i] == (c + u)[|c| + i] && u[j] == (c + u)[|c| + j];
    }
  }

  /** A releasable list stays releasable while the allocated set only grows or loses other addresses. */
  lemma ReleasableWithin(ps: seq<nat>, live: set<nat>, more: set<nat>)
    requires Releasable(ps, live) && live <= more
    ensures Releasable(ps, more)
  {
  }

  /**
    What the retry rounds of grub_memalign_policy before round `rounds` gave
    back: nothing before the first retry, then the disk caches, then the
    unneeded modules as well.
  */
  ghost function Released(cache: seq<nat>, unload: seq<nat>, rounds: nat): set<nat> {
    if rounds == 0 then {} else if rounds == 1 then Elems(cache) else Elems(cache + unload)
  }

  /** An address no foreign call may give back is never among what the retry rounds gave back. */
  lemma NotReleased(c: seq<nat>, u: seq<nat>, rounds: nat, live: set<nat>, x: nat)
    requires Releasable(c + u, live) && x !in live
    ensures x !in Released(c, u, rounds)
  {
    ReleasableSplit(c, u, live);
  }

  /** Freeing the old block after the new one q was allocated swaps the one for the other. */
  lemma MovedSets(left: set<nat>, ptr: nat, q: nat, mid: set<nat>, fin: set<nat>)
    requires ptr in left && q !in left && mid == left + {q} && fin == mid - {ptr}
    ensures q != ptr && fin == left - {ptr} + {q}
  {
  }

  /** A new region whose cells no region uses keeps the regions apart wherever it is inserted. */
  lemma ApartInsert(bases: seq<nat>, lens: seq<nat>, pos: nat, b: nat, l: nat)
    requires Apart(bases, lens) && pos <= |bases|
    requires forall i :: 0 <= i < |bases| ==> b + l <= bases[i] || bases[i] + lens[i] <= b
    ensures Apart(bases[..pos] + [b] + bases[pos..], lens[..pos] + [l] + lens[pos..])
  {
    var bs, ls := bases[..pos] + [b] + bases[pos..], lens[..pos] + [l] + lens[pos..];
    forall i | 0 <= i < |bs|
      ensures (i < pos ==> bs[i] == bases[i] && ls[i] == lens[i]) && (i == pos ==> bs[i] == b && ls[i] == l)
      ensures i > pos ==> bs[i] == bases[i - 1] && ls[i] == lens[i - 1]
    {
    }
  }

  /** A new region with no allocated block adds no address to the heap. */
  lemma AllPtrsInsert(bases: seq<nat>, views: seq<seq<Blk>>, pos: nat, b: nat, v: seq<Blk>)
    requires |bases| == |views| && pos <= |views| && AllocStarts(v) == {}
    ensures AllPtrs(bases[..pos] + [b] + bases[pos..], views[..pos] + [v] + views[pos..]) == AllPtrs(bases, views)
  {
    var bs, vs := bases[..pos] + [b] + bases[pos..], views[..pos] + [v] + views[pos..];
    forall x | x in AllPtrs(bs, vs)
      ensures x in AllPtrs(bases, views)
    {
      var i :| 0 <= i < |vs| && i < |bs| && x in Ptrs(bs[i], vs[i]);
      if i < pos {
        assert bs[i] == bases[i] && vs[i] == views[i];
      } else if i > pos {
        assert bs[i] == bases[i - 1] && vs[i] == views[i - 1];
      }
    }
    forall x | x in AllPtrs(bases, views)
      ensures x in AllPtrs(bs, vs)
    {
      var i :| 0 <= i < |views| && i < |bases| && x in Ptrs(bases[i], views[i]);
      if i < pos {
        assert bs[i] == bases[i] && vs[i] == views[i];
      } else {
        assert bs[i + 1] == bases[i] && vs[i + 1] == views[i];
      }
    }
  }
}
