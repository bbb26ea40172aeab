/**
  What the operations of the GRUB heap allocator (kern/mm.c) do to the
  blocks of one region, stated on the abstract view of MmLayout:
  - the order in which the three allocators walk the free ring, and the
    first block that fits a request;
  - the view after a successful grub_real_malloc, after grub_free and after
    an in-place growth in grub_rememalign_policy;
  - the set of allocated blocks, which these operations grow and shrink by
    exactly one block;
  - coalescing: no two free blocks are neighbours, which every operation
    keeps, and which makes grub_free undo grub_real_malloc exactly.
*/
module MmSpec {
  import opened Wrappers
  import opened MmLayout

  /** GRUB_MM_ALLOCATOR_SKIP/FIRST/SECOND/LAST: how a policy uses a region. */
  datatype Allocator = Skip | First | Second | Last

  // ---------------------------------------------------------------------
  // The search of grub_real_malloc

  /**
    The ring position grub_real_malloc visits at step i on a ring of m free
    blocks. FIRST starts at `first` and follows next; SECOND starts one
    further and ends at `first`; LAST starts at first->prev and follows
    prev. The switch sends any other allocator to the FIRST case.
  */
  function SearchPos(alloc: Allocator, i: nat, m: nat): (j: nat)
    requires i < m
    ensures j < m
  {
    match alloc
    case Second => Nxt(i, m)
    case Last => m - 1 - i
    case _ => i
  }

  /** The search starts where the switch puts p, and walks the ring one link per step. */
  lemma SearchWalk(alloc: Allocator, i: nat, m: nat)
    requires i < m
    ensures i == 0 ==>
      SearchPos(alloc, 0, m) == match alloc case Second => Nxt(0, m) case Last => Prv(0, m) case _ => 0
    ensures i + 1 < m ==>
      SearchPos(alloc, i + 1, m) == if alloc == Last then Prv(SearchPos(alloc, i, m), m) else Nxt(SearchPos(alloc, i, m), m)
    ensures SearchPos(alloc, i, m) == (if alloc == First || alloc == Skip then Prv(0, m) else 0) <==> i == m - 1
  {
  }

  /** The step at which the search visits ring position j. */
  function SearchStep(alloc: Allocator, j: nat, m: nat): (i: nat)
    requires j < m
    ensures i < m
  {
    match alloc
    case Second => (if j == 0 then m - 1 else j - 1)
    case Last => m - 1 - j
    case _ => j
  }

  /** The search is a full lap: it visits every ring member, each at exactly one step. */
  lemma SearchIsLap(alloc: Allocator, m: nat)
    ensures forall i :: 0 <= i < m ==> SearchStep(alloc, SearchPos(alloc, i, m), m) == i
    ensures forall j :: 0 <= j < m ==> SearchPos(alloc, SearchStep(alloc, j, m), m) == j
  {
  }

  /** The absolute payload cell of the block whose header is cell `start` of a region at cell `base`. */
  function PayloadCell(base: nat, start: nat): nat {
    base + start + 1
  }

  /**
    The free block at ring position j can hold n cells once its payload is
    padded to an a-cell boundary.
  */
  predicate FitsAt(v: seq<Blk>, base: nat, n: nat, a: nat, j: nat)
    requires a >= 1 && j < |FreeStarts(v)|
  {
    var b := v[FreeIndex(v, j)];
    Fits(n, PayloadCell(base, b.start), a, b.size)
  }

  /**
    The step at which the search of grub_real_malloc stops on a block that
    fits, if it does: the first fit in the allocator's order.
  */
  function Choose(v: seq<Blk>, base: nat, n: nat, a: nat, alloc: Allocator, from: nat): (s: Option<nat>)
    requires a >= 1 && from <= |FreeStarts(v)|
    ensures var m := |FreeStarts(v)|;
      match s
      case Some(i) =>
        from <= i < m && FitsAt(v, base, n, a, SearchPos(alloc, i, m)) &&
        forall i' :: from <= i' < i ==> !FitsAt(v, base, n, a, SearchPos(alloc, i', m))
      case None =>
        forall i :: from <= i < m ==> !FitsAt(v, base, n, a, SearchPos(alloc, i, m))
    decreases |FreeStarts(v)| - from
  {
    var m := |FreeStarts(v)|;
    if from == m then None
    else if FitsAt(v, base, n, a, SearchPos(alloc, from, m)) then Some(from)
    else Choose(v, base, n, a, alloc, from + 1)
  }

  /** One step of the search: a fit ends it at this step, a miss leaves the outcome to the later steps. */
  lemma ChooseStep(v: seq<Blk>, base: nat, n: nat, a: nat, alloc: Allocator, i: nat)
    requires a >= 1 && i < |FreeStarts(v)|
    ensures var m := |FreeStarts(v)|;
      (FitsAt(v, base, n, a, SearchPos(alloc, i, m)) ==> Choose(v, base, n, a, alloc, i) == Some(i)) &&
      (!FitsAt(v, base, n, a, SearchPos(alloc, i, m)) ==>
        Choose(v, base, n, a, alloc, i) == Choose(v, base, n, a, alloc, i + 1)) &&
      Choose(v, base, n, a, alloc, m) == None
  {
  }

  /** A search that finds nothing has looked at every free block. */
  lemma NoneFits(v: seq<Blk>, base: nat, n: nat, a: nat, alloc: Allocator)
    requires a >= 1 && Choose(v, base, n, a, alloc, 0) == None
    ensures forall j :: 0 <= j < |FreeStarts(v)| ==> !FitsAt(v, base, n, a, j)
  {
    var m := |FreeStarts(v)|;
    SearchIsLap(alloc, m);
    forall j | 0 <= j < m
      ensures !FitsAt(v, base, n, a, j)
    {
      assert SearchPos(alloc, SearchStep(alloc, j, m), m) == j;
    }
  }

  /**
    The cells grub_real_malloc reserves in the free block at ring position
    j: the n cells plus the alignment pad, and for LAST as many further
    whole alignment steps as fit.
  */
  function WantAt(v: seq<Blk>, base: nat, n: nat, a: nat, alloc: Allocator, j: nat): (w: nat)
    requires a >= 1 && j < |FreeStarts(v)| && FitsAt(v, base, n, a, j)
    ensures n <= w <= v[FreeIndex(v, j)].size
  {
    var b := v[FreeIndex(v, j)];
    Want(n, PayloadCell(base, b.start), a, alloc == Last, b.size)
  }

  /** The view after grub_real_malloc took n cells from the free block at ring position j. */
  function Taken(v: seq<Blk>, base: nat, n: nat, a: nat, alloc: Allocator, j: nat): seq<Blk>
    requires a >= 1 && 0 < n && j < |FreeStarts(v)| && FitsAt(v, base, n, a, j)
  {
    var k := FreeIndex(v, j);
    Carve(v, k, WantAt(v, base, n, a, alloc, j) - n, n)
  }

  /** The first cell of the block grub_real_malloc hands out from ring position j. */
  function TakenStart(v: seq<Blk>, base: nat, n: nat, a: nat, alloc: Allocator, j: nat): nat
    requires a >= 1 && 0 < n && j < |FreeStarts(v)| && FitsAt(v, base, n, a, j)
  {
    v[FreeIndex(v, j)].start + WantAt(v, base, n, a, alloc, j) - n
  }

  /**
    What a successful grub_real_malloc promises: an allocated block of
    exactly n cells, inside the free block it was cut from, whose payload
    is aligned; FIRST and SECOND cut at the least padding, LAST as close to
    the block's end as the alignment allows. The cells no longer free are
    exactly those n, and the set of allocated blocks gains this one.
  */
  lemma TakenFacts(v: seq<Blk>, total: nat, base: nat, n: nat, a: nat, alloc: Allocator, j: nat)
    requires Tiles(v, total) && a >= 1 && 0 < n && j < |FreeStarts(v)| && FitsAt(v, base, n, a, j)
    ensures var w, k, s := Taken(v, base, n, a, alloc, j), FreeIndex(v, j), TakenStart(v, base, n, a, alloc, j);
      var c := CarvedIndex(k, WantAt(v, base, n, a, alloc, j) - n);
      Tiles(w, total) && FreeCells(w) + n == FreeCells(v) &&
      c < |w| && w[c] == Blk(s, n, false) &&
      v[k].start <= s && s + n <= End(v[k]) &&
      Aligned(PayloadCell(base, s), a) &&
      (alloc != Last ==> s == v[k].start + AlignPad(PayloadCell(base, v[k].start), a)) &&
      (alloc == Last ==> End(v[k]) - (s + n) < a) &&
      s !in AllocStarts(v) && AllocStarts(w) == AllocStarts(v) + {s}
  {
    var k := FreeIndex(v, j);
    var off := WantAt(v, base, n, a, alloc, j) - n;
    assert TakenStart(v, base, n, a, alloc, j) == v[k].start + off;
    assert Taken(v, base, n, a, alloc, j) == Carve(v, k, off, n);
    TakenPlace(v, base, n, a, alloc, j);
    TakenCarve(v, total, k, off, n);
  }

  /** Where in its free block grub_real_malloc cuts the allocation. */
  lemma TakenPlace(v: seq<Blk>, base: nat, n: nat, a: nat, alloc: Allocator, j: nat)
    requires a >= 1 && 0 < n && j < |FreeStarts(v)| && FitsAt(v, base, n, a, j)
    ensures var k, s := FreeIndex(v, j), TakenStart(v, base, n, a, alloc, j);
      v[k].start <= s && s + n <= End(v[k]) &&
      Aligned(PayloadCell(base, s), a) &&
      (alloc != Last ==> s == v[k].start + AlignPad(PayloadCell(base, v[k].start), a)) &&
      (alloc == Last ==> End(v[k]) - (s + n) < a)
  {
    var b := v[FreeIndex(v, j)];
    var c := PayloadCell(base, b.start);
    var w := Want(n, c, a, alloc == Last, b.size);
    assert WantAt(v, base, n, a, alloc, j) == w;
    assert PayloadCell(base, b.start + (w - n)) == c + (w - n);
  }

  /** Carving n cells at offset off out of free block k: the region stays tiled and gains one allocated block. */
  lemma TakenCarve(v: seq<Blk>, total: nat, k: nat, off: nat, n: nat)
    requires Tiles(v, total) && k < |v| && v[k].free && 0 < n && off + n <= v[k].size
    ensures var w, c := Carve(v, k, off, n), CarvedIndex(k, off);
      Tiles(w, total) && FreeCells(w) + n == FreeCells(v) &&
      c < |w| && w[c] == Blk(v[k].start + off, n, false) &&
      v[k].start + off !in AllocStarts(v) && AllocStarts(w) == AllocStarts(v) + {v[k].start + off}
  {
    CarveFacts(v, total, k, off, n);
    CarveAlloc(v, total, k, off, n);
  }

  // ---------------------------------------------------------------------
  // The allocated blocks

  /** The first cells of the allocated blocks. */
  function AllocStarts(v: seq<Blk>): set<nat> {
    if |v| == 0 then {} else (if v[0].free then {} else {v[0].start}) + AllocStarts(v[1..])
  }

  lemma {:induction false} AllocStartsAppend(a: seq<Blk>, b: seq<Blk>)
    ensures AllocStarts(a + b) == AllocStarts(a) + AllocStarts(b)
    decreases |a|
  {
    if |a| == 0 {
      assert a + b == b;
    } else {
      assert (a + b)[0] == a[0] && (a + b)[1..] == a[1..] + b;
      AllocStartsAppend(a[1..], b);
    }
  }

  lemma AllocStartsOne(b: Blk)
    ensures AllocStarts([b]) == if b.free then {} else {b.start}
  {
    assert [b][1..] == [];
  }

  lemma AllocStartsSplice(v: seq<Blk>, k: nat, j: nat, mid: seq<Blk>)
    requires k <= j <= |v|
    ensures AllocStarts(v[..k] + mid + v[j..]) == AllocStarts(v[..k]) + AllocStarts(mid) + AllocStarts(v[j..])
    ensures AllocStarts(v) == AllocStarts(v[..k]) + AllocStarts(v[k..j]) + AllocStarts(v[j..])
  {
    AllocStartsAppend(v[..k] + mid, v[j..]);
    AllocStartsAppend(v[..k], mid);
    assert v == v[..k] + v[k..j] + v[j..];
    AllocStartsAppend(v[..k] + v[k..j], v[j..]);
    AllocStartsAppend(v[..k], v[k..j]);
  }

  /** A cell is in AllocStarts exactly when it is the first cell of an allocated block. */
  lemma {:induction false} AllocStartsMember(v: seq<Blk>, x: nat)
    ensures x in AllocStarts(v) <==> exists i :: 0 <= i < |v| && !v[i].free && v[i].start == x
    decreases |v|
  {
    if |v| > 0 {
      AllocStartsMember(v[1..], x);
      if x in AllocStarts(v[1..]) {
        var i :| 0 <= i < |v[1..]| && !v[1..][i].free && v[1..][i].start == x;
        assert v[i + 1] == v[1..][i];
      }
      if exists i :: 0 <= i < |v| && !v[i].free && v[i].start == x {
        var i :| 0 <= i < |v| && !v[i].free && v[i].start == x;
        if i > 0 {
          assert v[1..][i - 1] == v[i];
        }
      }
    }
  }

  /** No block other than block k starts inside it. */
  lemma NoStartInside(v: seq<Blk>, total: nat, k: nat, x: nat)
    requires Tiles(v, total) && k < |v| && v[k].start <= x < End(v[k])
    ensures forall i :: 0 <= i < |v| && i != k ==> v[i].start != x
  {
    TilesOrdered(v, total);
    forall i | 0 <= i < |v| && i != k
      ensures v[i].start != x
    {
      if i < k {
        assert End(v[i]) <= v[k].start;
        assert v[i].size > 0;
      } else {
        assert End(v[k]) <= v[i].start;
      }
    }
  }

  /** Carving an allocated block out of free block k adds exactly its first cell. */
  lemma CarveAlloc(v: seq<Blk>, total: nat, k: nat, off: nat, n: nat)
    requires Tiles(v, total) && k < |v| && v[k].free && 0 < n && off + n <= v[k].size
    ensures v[k].start + off !in AllocStarts(v)
    ensures AllocStarts(Carve(v, k, off, n)) == AllocStarts(v) + {v[k].start + off}
  {
    NewStartInside(v, total, k, v[k].start + off);
    CarveAllocSplice(v, k, off, n);
  }

  /** A cell inside free block k starts no allocated block. */
  lemma NewStartInside(v: seq<Blk>, total: nat, k: nat, x: nat)
    requires Tiles(v, total) && k < |v| && v[k].free && v[k].start <= x < End(v[k])
    ensures x !in AllocStarts(v)
  {
    NoStartInside(v, total, k, x);
    AllocStartsMember(v, x);
  }

  lemma CarveAllocSplice(v: seq<Blk>, k: nat, off: nat, n: nat)
    requires k < |v| && v[k].free && 0 < n && off + n <= v[k].size
    ensures AllocStarts(Carve(v, k, off, n)) == AllocStarts(v) + {v[k].start + off}
  {
    CarveAllocParts(v, k, off, n);
    AllocAround(v, k);
  }

  lemma CarveAllocParts(v: seq<Blk>, k: nat, off: nat, n: nat)
    requires k < |v| && v[k].free && 0 < n && off + n <= v[k].size
    ensures AllocStarts(Carve(v, k, off, n)) == AllocStarts(v[..k]) + AllocStarts(v[k + 1..]) + {v[k].start + off}
  {
    AllocStartsSplice(v, k, k + 1, CarveMid(v[k], off, n));
    CarveMidAlloc(v[k], off, n);
  }

  /** The allocated blocks around free block k are all the allocated blocks. */
  lemma AllocAround(v: seq<Blk>, k: nat)
    requires k < |v| && v[k].free
    ensures AllocStarts(v) == AllocStarts(v[..k]) + AllocStarts(v[k + 1..])
  {
    AllocStartsSplice(v, k, k + 1, []);
    assert v[k..k + 1] == [v[k]];
    AllocStartsOne(v[k]);
  }

  lemma CarveMidAlloc(b: Blk, off: nat, n: nat)
    requires 0 < n && off + n <= b.size
    ensures AllocStarts(CarveMid(b, off, n)) == {b.start + off}
  {
    var x := b.start + off;
    var pre := if off > 0 then [Blk(b.start, off, true)] else [];
    var post := if off + n < b.size then [Blk(x + n, b.size - off - n, true)] else [];
    AllocStartsAppend(pre + [Blk(x, n, false)], post);
    AllocStartsAppend(pre, [Blk(x, n, false)]);
    AllocStartsOne(Blk(x, n, false));
    if off > 0 {
      AllocStartsOne(Blk(b.start, off, true));
    }
    if off + n < b.size {
      AllocStartsOne(Blk(x + n, b.size - off - n, true));
    }
  }

  // ---------------------------------------------------------------------
  // Coalescing

  /** No two neighbouring blocks are both free. */
  predicate Coalesced(v: seq<Blk>) {
    forall i :: 0 <= i < |v| - 1 ==> !(v[i].free && v[i + 1].free)
  }

  /** Carving from a free block between allocated neighbours leaves no free pair. */
  lemma CarveCoalesced(v: seq<Blk>, k: nat, off: nat, n: nat)
    requires Coalesced(v) && k < |v| && v[k].free && 0 < n && off + n <= v[k].size
    ensures Coalesced(Carve(v, k, off, n))
  {
    var mid := CarveMid(v[k], off, n);
    var w := Carve(v, k, off, n);
    var c := CarvedIndex(k, off);
    CarveMidFacts(v[k], off, n);
    forall i | 0 <= i < |w| - 1
      ensures !(w[i].free && w[i + 1].free)
    {
      if i + 1 < k {
        assert w[i] == v[i] && w[i + 1] == v[i + 1];
      } else if i + 1 == k {
        assert w[i] == v[i] && !v[i].free;
      } else if i < k + |mid| - 1 {
        assert i == c || i + 1 == c;
      } else if i == k + |mid| - 1 {
        assert w[i + 1] == v[k + 1] && !v[k + 1].free;
      } else {
        assert w[i] == v[i - |mid| + 1] && w[i + 1] == v[i - |mid| + 2];
      }
    }
  }

  // ---------------------------------------------------------------------
  // grub_free

  /**
    The view after grub_free of allocated block k: the block turns free and
    merges with a free successor, then with a free predecessor.
  */
  function Freed(v: seq<Blk>, k: nat): seq<Blk>
    requires k < |v|
  {
    var v2 := FreedNext(v, k);
    if 0 < k && v[k - 1].free then MergeView(v2, k - 1) else v2
  }

  /** The first half of grub_free: block k turns free and absorbs a free successor. */
  function FreedNext(v: seq<Blk>, k: nat): (w: seq<Blk>)
    requires k < |v|
    ensures |w| == |v| - FreedHi(v, k) + k + 1
  {
    var v1 := Mark(v, k, true);
    if k + 1 < |v| && v[k + 1].free then MergeView(v1, k) else v1
  }

  /** The stretch of blocks grub_free turns into one free block, and their cells. */
  function FreedLo(v: seq<Blk>, k: nat): nat
    requires k < |v|
  {
    if 0 < k && v[k - 1].free then k - 1 else k
  }

  function FreedHi(v: seq<Blk>, k: nat): nat
    requires k < |v|
  {
    if k + 1 < |v| && v[k + 1].free then k + 2 else k + 1
  }

  function FreedSize(v: seq<Blk>, k: nat): nat
    requires k < |v|
  {
    (if 0 < k && v[k - 1].free then v[k - 1].size else 0) + v[k].size +
    (if k + 1 < |v| && v[k + 1].free then v[k + 1].size else 0)
  }

  lemma FreedShape(v: seq<Blk>, k: nat)
    requires k < |v|
    ensures var lo, hi := FreedLo(v, k), FreedHi(v, k);
      lo <= k < hi <= |v| &&
      Freed(v, k) == v[..lo] + [Blk(v[lo].start, FreedSize(v, k), true)] + v[hi..]
  {
    var hi := FreedHi(v, k);
    var c := Blk(v[k].start, v[k].size + (if hi == k + 2 then v[k + 1].size else 0), true);
    FreedNextShape(v, k);
    if 0 < k && v[k - 1].free {
      assert FreedNext(v, k) == v[..k - 1] + [v[k - 1]] + [c] + v[hi..] by {
        assert v[..k] == v[..k - 1] + [v[k - 1]];
        AppendAssoc(v[..k - 1] + [v[k - 1]], [c], v[hi..]);
      }
      MergeViewAt(v[..k - 1], v[k - 1], c, v[hi..]);
      assert Freed(v, k) == MergeView(FreedNext(v, k), k - 1);
      assert Blk(v[k - 1].start, v[k - 1].size + c.size, v[k - 1].free) == Blk(v[k - 1].start, FreedSize(v, k), true);
      assert FreedLo(v, k) == k - 1;
    } else {
      assert FreedSize(v, k) == c.size && FreedLo(v, k) == k;
      assert Freed(v, k) == FreedNext(v, k);
    }
  }

  /** The first half of grub_free leaves the blocks below k alone, and block k free where it was. */
  lemma FreedNextPrefix(v: seq<Blk>, k: nat)
    requires k < |v|
    ensures var w := FreedNext(v, k);
      k < |w| && w[..k] == v[..k] && w[k].start == v[k].start && w[k].free
  {
    FreedNextShape(v, k);
    var w := FreedNext(v, k);
    assert w[..k] == v[..k];
  }

  lemma FreedNextShape(v: seq<Blk>, k: nat)
    requires k < |v|
    ensures FreedNext(v, k) ==
      v[..k] + [Blk(v[k].start, v[k].size + (if FreedHi(v, k) == k + 2 then v[k + 1].size else 0), true)] + v[FreedHi(v, k)..]
  {
    var b := v[k].(free := true);
    var v1 := Mark(v, k, true);
    if k + 1 < |v| && v[k + 1].free {
      assert v1 == v[..k] + [b] + [v[k + 1]] + v[k + 2..];
      MergeViewAt(v[..k], b, v[k + 1], v[k + 2..]);
    } else {
      assert v1 == v[..k] + [b] + v[k + 1..];
    }
  }

  /**
    grub_free of allocated block k: the region stays tiled, block k's cells
    become free, the allocated blocks lose exactly block k, and no two free
    blocks end up next to each other.
  */
  lemma FreedFacts(v: seq<Blk>, total: nat, k: nat)
    requires Tiles(v, total) && Coalesced(v) && k < |v| && !v[k].free
    ensures Tiles(Freed(v, k), total)
    ensures FreeCells(Freed(v, k)) == FreeCells(v) + v[k].size
    ensures AllocStarts(Freed(v, k)) == AllocStarts(v) - {v[k].start}
    ensures Coalesced(Freed(v, k))
  {
    FreedTiles(v, total, k);
    FreedCells(v, k);
    FreedAlloc(v, total, k);
    FreedCoalesced(v, k);
  }

  lemma FreedTiles(v: seq<Blk>, total: nat, k: nat)
    requires Tiles(v, total) && k < |v|
    ensures Tiles(Freed(v, k), total)
  {
    var lo, hi := FreedLo(v, k), FreedHi(v, k);
    var b := Blk(v[lo].start, FreedSize(v, k), true);
    FreedShape(v, k);
    StretchEnd(v, total, k);
    TilesRangeSmall(b, b);
    TilesSplice(v, total, lo, hi, [b]);
  }

  /** The stretch grub_free merges is contiguous: the merged block ends where its last part did. */
  lemma StretchEnd(v: seq<Blk>, total: nat, k: nat)
    requires Tiles(v, total) && k < |v|
    ensures FreedLo(v, k) < FreedHi(v, k) <= |v|
    ensures v[FreedLo(v, k)].start + FreedSize(v, k) == End(v[FreedHi(v, k) - 1])
  {
    if 0 < k {
      assert End(v[k - 1]) == v[k].start;
    }
    if k + 1 < |v| {
      assert End(v[k]) == v[k + 1].start;
    }
  }

  lemma FreedCells(v: seq<Blk>, k: nat)
    requires k < |v| && !v[k].free
    ensures FreeCells(Freed(v, k)) == FreeCells(v) + v[k].size
  {
    var lo, hi := FreedLo(v, k), FreedHi(v, k);
    var b := Blk(v[lo].start, FreedSize(v, k), true);
    FreedShape(v, k);
    FreeStartsSplice(v, lo, hi, [b]);
    FreeStartsOne(b);
    StretchCells(v, k, lo, hi);
  }

  /** The cells of the free blocks in the stretch lo..hi around allocated block k. */
  lemma StretchCells(v: seq<Blk>, k: nat, lo: nat, hi: nat)
    requires k < |v| && !v[k].free && lo == FreedLo(v, k) && hi == FreedHi(v, k)
    ensures FreeCells(v[lo..hi]) + v[k].size == FreedSize(v, k)
    ensures AllocStarts(v[lo..hi]) == {v[k].start}
  {
    var pre := if lo < k then [v[k - 1]] else [];
    var post := if hi > k + 1 then [v[k + 1]] else [];
    assert v[lo..hi] == pre + [v[k]] + post by {
      assert v[lo..hi] == v[lo..k] + [v[k]] + v[k + 1..hi];
      assert v[lo..k] == pre;
      assert v[k + 1..hi] == post;
    }
    StretchCellsOf(pre, v[k], post);
    StretchAllocOf(pre, v[k], post);
  }

  lemma StretchCellsOf(pre: seq<Blk>, x: Blk, post: seq<Blk>)
    requires !x.free && |pre| <= 1 && |post| <= 1
    requires (forall b :: b in pre ==> b.free) && (forall b :: b in post ==> b.free)
    ensures FreeCells(pre + [x] + post) ==
      (if pre != [] then pre[0].size else 0) + (if post != [] then post[0].size else 0)
  {
    FreeStartsConcat(pre + [x], post);
    FreeStartsConcat(pre, [x]);
    FreeStartsOne(x);
    if pre != [] {
      assert pre == [pre[0]];
      FreeStartsOne(pre[0]);
    }
    if post != [] {
      assert post == [post[0]];
      FreeStartsOne(post[0]);
    }
  }

  lemma StretchAllocOf(pre: seq<Blk>, x: Blk, post: seq<Blk>)
    requires !x.free && |pre| <= 1 && |post| <= 1
    requires (forall b :: b in pre ==> b.free) && (forall b :: b in post ==> b.free)
    ensures AllocStarts(pre + [x] + post) == {x.start}
  {
    AllocStartsAppend(pre + [x], post);
    AllocStartsAppend(pre, [x]);
    AllocStartsOne(x);
    if pre != [] {
      assert pre == [pre[0]];
      AllocStartsOne(pre[0]);
    }
    if post != [] {
      assert post == [post[0]];
      AllocStartsOne(post[0]);
    }
  }

  lemma FreedAlloc(v: seq<Blk>, total: nat, k: nat)
    requires Tiles(v, total) && k < |v| && !v[k].free
    ensures AllocStarts(Freed(v, k)) == AllocStarts(v) - {v[k].start}
  {
    var lo, hi := FreedLo(v, k), FreedHi(v, k);
    FreedAllocParts(v, k);
    StretchAlloc(v, k);
    FreedNotAround(v, total, k);
    MinusOne(AllocStarts(v[..lo]), AllocStarts(v[hi..]), AllocStarts(v), AllocStarts(Freed(v, k)), v[k].start);
  }

  lemma FreedAllocParts(v: seq<Blk>, k: nat)
    requires k < |v|
    ensures var lo, hi := FreedLo(v, k), FreedHi(v, k);
      lo <= hi <= |v| && AllocStarts(Freed(v, k)) == AllocStarts(v[..lo]) + AllocStarts(v[hi..])
  {
    var lo, hi := FreedLo(v, k), FreedHi(v, k);
    var b := Blk(v[lo].start, FreedSize(v, k), true);
    FreedShape(v, k);
    AllocStartsSplice(v, lo, hi, [b]);
    AllocStartsOne(b);
  }

  lemma StretchAlloc(v: seq<Blk>, k: nat)
    requires k < |v| && !v[k].free
    ensures var lo, hi := FreedLo(v, k), FreedHi(v, k);
      lo <= hi <= |v| && AllocStarts(v) == AllocStarts(v[..lo]) + {v[k].start} + AllocStarts(v[hi..])
  {
    var lo, hi := FreedLo(v, k), FreedHi(v, k);
    AllocStartsSplice(v, lo, hi, []);
    StretchCells(v, k, lo, hi);
  }

  /** Block k's first cell starts no allocated block outside the stretch grub_free merges. */
  lemma FreedNotAround(v: seq<Blk>, total: nat, k: nat)
    requires Tiles(v, total) && k < |v|
    ensures var lo, hi := FreedLo(v, k), FreedHi(v, k);
      lo <= hi <= |v| && v[k].start !in AllocStarts(v[..lo]) && v[k].start !in AllocStarts(v[hi..])
  {
    var lo, hi := FreedLo(v, k), FreedHi(v, k);
    var x := v[k].start;
    TilesOrdered(v, total);
    assert x !in AllocStarts(v[..lo]) by {
      AllocStartsMember(v[..lo], x);
      forall i | 0 <= i < lo
        ensures v[..lo][i].start < x
      {
        assert v[i].size > 0 && End(v[i]) <= x;
      }
    }
    assert x !in AllocStarts(v[hi..]) by {
      AllocStartsMember(v[hi..], x);
      forall i | 0 <= i < |v| - hi
        ensures v[hi..][i].start > x
      {
        assert v[k].size > 0 && End(v[k]) <= v[hi + i].start;
      }
    }
  }

  lemma MinusOne(lo: set<nat>, hi: set<nat>, all: set<nat>, w: set<nat>, x: nat)
    requires all == lo + {x} + hi && w == lo + hi && x !in lo && x !in hi
    ensures w == all - {x}
  {
  }

  lemma FreedCoalesced(v: seq<Blk>, k: nat)
    requires Coalesced(v) && k < |v| && !v[k].free
    ensures Coalesced(Freed(v, k))
  {
    var lo, hi := FreedLo(v, k), FreedHi(v, k);
    var b := Blk(v[lo].start, FreedSize(v, k), true);
    var w := Freed(v, k);
    FreedShape(v, k);
    assert 0 < lo ==> !v[lo - 1].free;
    assert hi < |v| ==> !v[hi].free;
    forall i | 0 <= i < |w| - 1
      ensures !(w[i].free && w[i + 1].free)
    {
      SpliceIndex(v, lo, hi, [b], i);
      SpliceIndex(v, lo, hi, [b], i + 1);
    }
  }

  /**
    Freeing the block grub_real_malloc just carved out of free block k
    gives back the region exactly as it was.
  */
  lemma FreeUndoesCarve(v: seq<Blk>, k: nat, off: nat, n: nat)
    requires Coalesced(v) && k < |v| && v[k].free && 0 < n && off + n <= v[k].size
    ensures CarvedIndex(k, off) < |Carve(v, k, off, n)|
    ensures Freed(Carve(v, k, off, n), CarvedIndex(k, off)) == v
  {
    var b := v[k];
    var w := Carve(v, k, off, n);
    var c := CarvedIndex(k, off);
    var m := |CarveMid(b, off, n)|;
    CarveNeighbours(v, k, off, n);
    FreedShape(w, c);
    assert FreedLo(w, c) == k by {
      if off == 0 && 0 < k {
        assert !v[k - 1].free;
      }
    }
    assert FreedHi(w, c) == k + m by {
      if off + n == b.size && k + 1 < |v| {
        assert !v[k + 1].free;
      }
    }
    CarvedSize(v, k, off, n);
    assert Freed(w, c) == v[..k] + [b] + v[k + 1..];
    Unsplice(v, k);
  }

  /** The free blocks around the carved block and the carved block itself add up to the block carved from. */
  lemma CarvedSize(v: seq<Blk>, k: nat, off: nat, n: nat)
    requires Coalesced(v) && k < |v| && v[k].free && 0 < n && off + n <= v[k].size
    ensures CarvedIndex(k, off) < |Carve(v, k, off, n)|
    ensures FreedSize(Carve(v, k, off, n), CarvedIndex(k, off)) == v[k].size
  {
    var b := v[k];
    var w := Carve(v, k, off, n);
    var c := CarvedIndex(k, off);
    CarveNeighbours(v, k, off, n);
    var before := if 0 < c && w[c - 1].free then w[c - 1].size else 0;
    var after := if c + 1 < |w| && w[c + 1].free then w[c + 1].size else 0;
    assert before == off by {
      if off == 0 && 0 < k {
        assert !v[k - 1].free;
      }
    }
    assert after == b.size - off - n by {
      if off + n == b.size && k + 1 < |v| {
        assert !v[k + 1].free;
      }
    }
  }

  /** The blocks around the allocated block a Carve creates. */
  lemma CarveNeighbours(v: seq<Blk>, k: nat, off: nat, n: nat)
    requires k < |v| && v[k].free && 0 < n && off + n <= v[k].size
    ensures var b, w, c, m := v[k], Carve(v, k, off, n), CarvedIndex(k, off), |CarveMid(v[k], off, n)|;
      k <= c < k + m && k + m <= |w| && w[..k] == v[..k] && w[k + m..] == v[k + 1..] &&
      w[c] == Blk(b.start + off, n, false) && w[k].start == b.start &&
      m == c - k + 1 + (if off + n < b.size then 1 else 0) &&
      (0 < c ==> w[c - 1] == if off > 0 then Blk(b.start, off, true) else v[k - 1]) &&
      (c + 1 < |w| ==> w[c + 1] == if off + n < b.size then Blk(b.start + off + n, b.size - off - n, true) else v[k + 1])
  {
    var b := v[k];
    var mid := CarveMid(b, off, n);
    var w := Carve(v, k, off, n);
    var c := CarvedIndex(k, off);
    assert w[..k] == v[..k];
    assert w[k + |mid|..] == v[k + 1..];
    assert forall i :: 0 <= i < |mid| ==> w[k + i] == mid[i];
  }

  // ---------------------------------------------------------------------
  // grub_rememalign_policy growing a block in place

  /**
    The view after allocated block k grows to n cells into the free block
    after it: what is left of that free block stays free after it.
  */
  function Grow(v: seq<Blk>, k: nat, n: nat): seq<Blk>
    requires k + 1 < |v| && v[k].size < n <= v[k].size + v[k + 1].size
  {
    var rest := v[k].size + v[k + 1].size - n;
    v[..k] + [Blk(v[k].start, n, false)] + (if rest > 0 then [Blk(v[k].start + n, rest, true)] else []) + v[k + 2..]
  }

  /** The two steps of the in-place growth: split the free block if it is larger than needed, then absorb it. */
  lemma GrowBySteps(v: seq<Blk>, k: nat, n: nat)
    requires k + 1 < |v| && !v[k].free && v[k + 1].free && v[k].size < n <= v[k].size + v[k + 1].size
    requires v[k + 1].start == End(v[k])
    ensures var d := n - v[k].size;
      d < v[k + 1].size ==>
        var v1 := SplitView(v, k + 1, d);
        k + 1 < |v1| && v1[k] == v[k] && v1[k + 1] == Blk(v[k + 1].start, d, true) &&
        MergeView(v1, k) == Grow(v, k, n)
    ensures n == v[k].size + v[k + 1].size ==> MergeView(v, k) == Grow(v, k, n)
  {
    var d := n - v[k].size;
    var x := v[k + 1];
    if d < x.size {
      var post := [Blk(x.start + d, x.size - d, true)] + v[k + 2..];
      assert SplitView(v, k + 1, d) == v[..k] + [v[k]] + [Blk(x.start, d, true)] + post by {
        assert v[..k + 1] == v[..k] + [v[k]];
      }
      MergeViewAt(v[..k], v[k], Blk(x.start, d, true), post);
      GrowSplice(v, k, n);
    } else {
      GrowSplice(v, k, n);
    }
  }

  lemma MergeViewAt(pre: seq<Blk>, a: Blk, b: Blk, post: seq<Blk>)
    ensures var v := pre + [a] + [b] + post;
      |pre| + 1 < |v| && v[|pre|] == a && v[|pre| + 1] == b &&
      MergeView(v, |pre|) == pre + [Blk(a.start, a.size + b.size, a.free)] + post
  {
    var v := pre + [a] + [b] + post;
    assert v[..|pre|] == pre && v[|pre| + 2..] == post;
  }

  /** The blocks that take the place of block k and the free block after it when block k grows to n cells. */
  function GrowMid(v: seq<Blk>, k: nat, n: nat): seq<Blk>
    requires k + 1 < |v| && v[k].size < n <= v[k].size + v[k + 1].size
  {
    var rest := v[k].size + v[k + 1].size - n;
    [Blk(v[k].start, n, false)] + (if rest > 0 then [Blk(v[k].start + n, rest, true)] else [])
  }

  lemma GrowSplice(v: seq<Blk>, k: nat, n: nat)
    requires k + 1 < |v| && v[k].size < n <= v[k].size + v[k + 1].size
    ensures Grow(v, k, n) == v[..k] + GrowMid(v, k, n) + v[k + 2..]
    ensures v[k..k + 2] == [v[k]] + [v[k + 1]]
  {
  }

  lemma GrowMidFacts(v: seq<Blk>, k: nat, n: nat)
    requires k + 1 < |v| && !v[k].free && v[k + 1].free && v[k].size < n <= v[k].size + v[k + 1].size
    requires v[k + 1].start == End(v[k])
    ensures TilesRange(GrowMid(v, k, n), v[k].start, End(v[k + 1]))
    ensures FreeCells(GrowMid(v, k, n)) + n == v[k].size + v[k + 1].size
    ensures AllocStarts(GrowMid(v, k, n)) == {v[k].start}
    ensures FreeCells([v[k]] + [v[k + 1]]) == v[k + 1].size
    ensures AllocStarts([v[k]] + [v[k + 1]]) == {v[k].start}
  {
    var rest := v[k].size + v[k + 1].size - n;
    var tail := if rest > 0 then [Blk(v[k].start + n, rest, true)] else [];
    FreeStartsConcat([v[k]], [v[k + 1]]);
    AllocStartsAppend([v[k]], [v[k + 1]]);
    FreeStartsOne(v[k]);
    FreeStartsOne(v[k + 1]);
    AllocStartsOne(v[k]);
    AllocStartsOne(v[k + 1]);
    FreeStartsConcat([Blk(v[k].start, n, false)], tail);
    AllocStartsAppend([Blk(v[k].start, n, false)], tail);
    FreeStartsOne(Blk(v[k].start, n, false));
    AllocStartsOne(Blk(v[k].start, n, false));
    if rest > 0 {
      FreeStartsOne(Blk(v[k].start + n, rest, true));
      AllocStartsOne(Blk(v[k].start + n, rest, true));
    }
  }

  /**
    Growing block k in place keeps the region tiled and coalesced, frees
    exactly n - v[k].size fewer cells, and leaves the set of allocated
    blocks as it was.
  */
  lemma GrowFacts(v: seq<Blk>, total: nat, k: nat, n: nat)
    requires Tiles(v, total) && Coalesced(v) && k + 1 < |v| && !v[k].free && v[k + 1].free
    requires v[k].size < n <= v[k].size + v[k + 1].size
    ensures Tiles(Grow(v, k, n), total)
    ensures FreeCells(Grow(v, k, n)) + n == FreeCells(v) + v[k].size
    ensures AllocStarts(Grow(v, k, n)) == AllocStarts(v)
    ensures Coalesced(Grow(v, k, n))
    ensures k < |Grow(v, k, n)| && Grow(v, k, n)[k] == Blk(v[k].start, n, false)
  {
    assert v[k + 1].start == End(v[k]);
    GrowCells(v, total, k, n);
    GrowAlloc(v, k, n);
    GrowCoalesced(v, k, n);
  }

  lemma GrowCells(v: seq<Blk>, total: nat, k: nat, n: nat)
    requires Tiles(v, total) && k + 1 < |v| && !v[k].free && v[k + 1].free
    requires v[k].size < n <= v[k].size + v[k + 1].size && v[k + 1].start == End(v[k])
    ensures Tiles(Grow(v, k, n), total)
    ensures FreeCells(Grow(v, k, n)) + n == FreeCells(v) + v[k].size
  {
    GrowSplice(v, k, n);
    GrowMidFacts(v, k, n);
    TilesSplice(v, total, k, k + 2, GrowMid(v, k, n));
    FreeStartsSplice(v, k, k + 2, GrowMid(v, k, n));
  }

  lemma GrowAlloc(v: seq<Blk>, k: nat, n: nat)
    requires k + 1 < |v| && !v[k].free && v[k + 1].free
    requires v[k].size < n <= v[k].size + v[k + 1].size && v[k + 1].start == End(v[k])
    ensures AllocStarts(Grow(v, k, n)) == AllocStarts(v)
  {
    GrowSplice(v, k, n);
    GrowMidFacts(v, k, n);
    AllocStartsSplice(v, k, k + 2, GrowMid(v, k, n));
  }

  lemma GrowCoalesced(v: seq<Blk>, k: nat, n: nat)
    requires Coalesced(v) && k + 1 < |v| && !v[k].free && v[k + 1].free && v[k].size < n <= v[k].size + v[k + 1].size
    ensures Coalesced(Grow(v, k, n))
    ensures k < |Grow(v, k, n)| && Grow(v, k, n)[k] == Blk(v[k].start, n, false)
  {
    var w := Grow(v, k, n);
    var mid := GrowMid(v, k, n);
    GrowSplice(v, k, n);
    forall i | 0 <= i < |w| - 1
      ensures !(w[i].free && w[i + 1].free)
    {
      if i + 1 < k {
        assert w[i] == v[i] && w[i + 1] == v[i + 1];
      } else if i + 1 == k {
        assert w[i + 1].free == false;
      } else if i == k {
        assert !w[i].free;
      } else if i == k + |mid| - 1 {
        assert w[i + 1] == v[k + 2] && !v[k + 2].free;
      } else {
        assert w[i] == v[i - |mid| + 2] && w[i + 1] == v[i - |mid| + 3];
      }
    }
  }
}
