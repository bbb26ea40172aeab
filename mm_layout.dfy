/**
  The layout of one GRUB heap region (kern/mm.c), as values.

  A region is an array of cells. Each cell is the size of one block header,
  so every block starts with a header cell. The layout is described twice:
  - concretely, as the sequence of header cells `h` (prev/next/size/magic);
  - abstractly, as the "view": the blocks in address order, each with its
    first cell, its size in cells and whether it is free.
  RegionOk ties the two. The blocks tile the region. Every block header
  carries its size and the free or alloc magic. The free blocks, in address
  order, form a circular doubly linked ring through next/prev. `first`
  points at the lowest free block, or at a header with alloc magic when
  nothing is free.
*/
module MmLayout {

  /** Magic words of a free and of an allocated block header. */
  const FREE_MAGIC: nat := 0x2d3c2808
  const ALLOC_MAGIC: nat := 0x6db08fa4

  /** 64-bit build: a cell (one header) is 1 << 5 = 32 bytes. */
  const ALIGN_LOG2: nat := 5
  const ALIGN: nat := 32

  /** A header cell. prev/next are cell indices within the region. */
  datatype Header = Header(prev: nat, next: nat, size: nat, magic: nat)

  /** A block of the abstract view: first cell, size in cells, free or allocated. */
  datatype Blk = Blk(start: nat, size: nat, free: bool)

  function End(b: Blk): nat { b.start + b.size }

  function MagicOf(free: bool): nat { if free then FREE_MAGIC else ALLOC_MAGIC }

  // ---------------------------------------------------------------------
  // Sizes and alignment

  /**
    The number of cells a request of `size` bytes takes: enough whole cells
    for the payload, plus the header cell.
  */
  function CellsFor(size: nat): (n: nat)
    ensures n >= 1
    ensures (n - 1) * ALIGN >= size
    ensures n == 1 || (n - 2) * ALIGN < size
  {
    (size + ALIGN - 1) / ALIGN + 1
  }

  /** A byte alignment turned into cells; below one cell it means no constraint. */
  function AlignCells(alignBytes: nat): (a: nat)
    ensures a >= 1
    ensures alignBytes >= ALIGN ==> a == alignBytes / ALIGN
  {
    if alignBytes / ALIGN == 0 then 1 else alignBytes / ALIGN
  }

  /** `a` is 1, 2, 4, 8, ...: the alignments grub_real_malloc accepts. */
  predicate PowerOfTwo(a: nat) {
    a == 1 || (a >= 2 && a % 2 == 0 && PowerOfTwo(a / 2))
  }

  /**
    The padding grub_real_malloc adds in front of the payload cell `c` for an
    alignment of `a` cells, as written: the payload's residue itself. The
    mask `& (a - 1)` is the residue modulo `a` because `a` is a power of two.
  */
  function AlignPadAsWritten(c: nat, a: nat): (pad: nat)
    requires PowerOfTwo(a)
    ensures pad < a
  {
    c % a
  }

  /** Cell `x` lies on an `a`-cell boundary. */
  predicate Aligned(x: nat, a: nat)
    requires a >= 1
  {
    x % a == 0
  }

  /**
    The padding that moves payload cell `c` to the next multiple of `a`:
    the least pad that aligns it.
  */
  function AlignPad(c: nat, a: nat): (pad: nat)
    requires a >= 1
    ensures pad < a
    ensures Aligned(c + pad, a)
    ensures forall x :: c <= x < c + pad ==> !Aligned(x, a)
  {
    PadToBoundary(c, a);
    (a - c % a) % a
  }

  lemma PadToBoundary(c: nat, a: nat)
    requires a >= 1
    ensures Aligned(c + (a - c % a) % a, a)
    ensures forall x :: c <= x < c + (a - c % a) % a ==> !Aligned(x, a)
  {
    var q, s := c / a, c % a;
    assert c == q * a + s;
    if s == 0 {
      ModOfOffset(1, a, 0);
      assert (a - s) % a == 0;
      assert c + 0 == q * a + 0;
      ModOfOffset(q, a, 0);
    } else {
      ModOfOffset(0, a, a - s);
      var pad := a - s;
      assert (a - s) % a == pad;
      assert c + pad == (q + 1) * a + 0;
      ModOfOffset(q + 1, a, 0);
      forall x | c <= x < c + pad
        ensures !Aligned(x, a)
      {
        assert x == q * a + (s + (x - c));
        ModOfOffset(q, a, s + (x - c));
      }
    }
  }

  /** Division by `a` is unique: q * a + s with 0 <= s < a has quotient q and remainder s. */
  lemma ModOfOffset(q: nat, a: nat, s: nat)
    requires a >= 1 && s < a
    ensures (q * a + s) % a == s
    ensures (q * a + s) / a == q
  {
    var x := q * a + s;
    var d, r := x / a, x % a;
    assert x == d * a + r;
    if d > q {
      MulAtLeast(d - q, a);
      assert false;
    } else if d < q {
      MulAtLeast(q - d, a);
      assert false;
    }
  }

  lemma MulAtLeast(k: int, a: int)
    requires k >= 1 && a >= 1
    ensures k * a >= a
  {
    assert k * a == (k - 1) * a + a;
    MulNonneg(k - 1, a);
  }

  lemma MulNonneg(x: int, y: int)
    requires x >= 0 && y >= 0
    ensures x * y >= 0
  {
  }

  /**
    With the padding as written, the payload lands on an `a`-cell boundary
    only when it was already aligned or sat exactly half-way.
  */
  lemma AlignPadAsWrittenAligns(c: nat, a: nat)
    requires PowerOfTwo(a)
    ensures Aligned(c + AlignPadAsWritten(c, a), a) <==> c % a == 0 || 2 * (c % a) == a
  {
    assert a >= 1;
    ResidueTwiceAligns(c, a);
  }

  /** Adding its residue to c lands on a multiple of `a` only when the residue is 0 or half of `a`. */
  lemma ResidueTwiceAligns(c: nat, a: nat)
    requires a >= 1
    ensures (c + c % a) % a == 0 <==> c % a == 0 || 2 * (c % a) == a
  {
    var q, s := c / a, c % a;
    assert c == q * a + s;
    if 2 * s < a {
      assert c + s == q * a + 2 * s;
      ModOfOffset(q, a, 2 * s);
    } else {
      assert c + s == (q + 1) * a + (2 * s - a);
      ModOfOffset(q + 1, a, 2 * s - a);
    }
  }

  /** A concrete case: payload cell 5 with a 4-cell alignment ends up on cell 6. */
  lemma AlignPadAsWrittenMisaligns()
    ensures AlignPadAsWritten(5, 4) == 1
    ensures (5 + AlignPadAsWritten(5, 4)) % 4 == 2
  {
  }

  /**
    The cells grub_real_malloc reserves in a free block of `s` cells whose
    payload cell is `c`: n cells plus the alignment pad; the last-fit policy
    pushes the allocation towards the end by whole alignment steps.
  */
  function Want(n: nat, c: nat, a: nat, last: bool, s: nat): (w: nat)
    requires a >= 1 && s >= n + AlignPad(c, a)
    ensures n + AlignPad(c, a) <= w <= s
    ensures Aligned(c + (w - n), a)
    ensures last ==> s - w < a
    ensures !last ==> w == n + AlignPad(c, a)
  {
    var w0 := n + AlignPad(c, a);
    if last then
      LastStep(s - w0, a);
      ModMultiple(c + AlignPad(c, a), (s - w0) / a, a);
      w0 + (s - w0) / a * a
    else
      w0
  }

  /** The whole alignment steps that fit in `room` leave less than one step. */
  lemma LastStep(room: nat, a: nat)
    requires a >= 1
    ensures room / a * a <= room
    ensures room - room / a * a < a
  {
    assert room == room / a * a + room % a;
  }

  /** Adding whole multiples of `a` keeps a residue of zero. */
  lemma ModMultiple(x: nat, k: nat, a: nat)
    requires a >= 1 && Aligned(x, a)
    ensures Aligned(x + k * a, a)
  {
    assert x == (x / a) * a + 0;
    assert x + k * a == (x / a + k) * a + 0;
    ModOfOffset(x / a + k, a, 0);
  }

  /** Does a free block starting at cell `start` (absolute payload cell `c`) fit? */
  predicate Fits(n: nat, c: nat, a: nat, size: nat)
    requires a >= 1
  {
    size >= n + AlignPad(c, a)
  }

  // ---------------------------------------------------------------------
  // The in-place extension bound of grub_rememalign_policy

  /**
    The bound as written: the region's size, already in bytes, is shifted
    by the cell size once more.
  */
  predicate ExtendBoundAsWritten(regionAddr: nat, regionBytes: nat, p2Addr: nat) {
    p2Addr < regionAddr + regionBytes * ALIGN
  }

  /** The intended bound: the header after the block lies inside the region. */
  predicate ExtendBound(regionAddr: nat, regionBytes: nat, p2Addr: nat) {
    p2Addr < regionAddr + regionBytes
  }

  /**
    As written, the header cell just past the end of a region passes the
    bound, so the extension check reads memory beyond the region.
  */
  lemma ExtendBoundAsWrittenPassesEnd(baseCell: nat, cells: nat)
    requires cells >= 1
    ensures ExtendBoundAsWritten(baseCell * ALIGN, cells * ALIGN, (baseCell + cells) * ALIGN)
    ensures !ExtendBound(baseCell * ALIGN, cells * ALIGN, (baseCell + cells) * ALIGN)
  {
  }

  /** The intended bound admits exactly the header cells of the region. */
  lemma ExtendBoundInside(baseCell: nat, cells: nat, p2: nat)
    ensures ExtendBound(baseCell * ALIGN, cells * ALIGN, (baseCell + p2) * ALIGN) <==> p2 < cells
  {
  }

  // ---------------------------------------------------------------------
  // The abstract view of a region

  /** The blocks tile the cells [lo, hi) in address order, none empty. */
  predicate TilesRange(v: seq<Blk>, lo: nat, hi: nat) {
    |v| > 0 && v[0].start == lo && End(v[|v| - 1]) == hi &&
    (forall i :: 0 <= i < |v| ==> v[i].size > 0) &&
    (forall i {:trigger End(v[i])} :: 0 <= i < |v| - 1 ==> v[i + 1].start == End(v[i]))
  }

  /** The blocks tile the whole region of `total` cells. */
  predicate Tiles(v: seq<Blk>, total: nat) {
    TilesRange(v, 0, total)
  }

  /** The first cells of the free blocks, in address order: the free ring. */
  function FreeStarts(v: seq<Blk>): seq<nat> {
    if |v| == 0 then [] else (if v[0].free then [v[0].start] else []) + FreeStarts(v[1..])
  }

  /** The number of cells in free blocks (headers included). */
  function FreeCells(v: seq<Blk>): nat {
    if |v| == 0 then 0 else (if v[0].free then v[0].size else 0) + FreeCells(v[1..])
  }

  /** The position in the free ring of the block at view index k (if it is free). */
  function RingPos(v: seq<Blk>, k: nat): nat
    requires k <= |v|
  {
    |FreeStarts(v[..k])|
  }

  predicate Increasing(r: seq<nat>) {
    forall i, j :: 0 <= i < j < |r| ==> r[i] < r[j]
  }

  predicate StartsIncreasing(v: seq<Blk>) {
    forall i, j :: 0 <= i < j < |v| ==> v[i].start < v[j].start
  }

  lemma FreeStartsConcat(a: seq<Blk>, b: seq<Blk>)
    ensures FreeStarts(a + b) == FreeStarts(a) + FreeStarts(b)
    ensures FreeCells(a + b) == FreeCells(a) + FreeCells(b)
  {
    FreeStartsAppend(a, b);
    FreeCellsAppend(a, b);
  }

  lemma {:induction false} FreeStartsAppend(a: seq<Blk>, b: seq<Blk>)
    ensures FreeStarts(a + b) == FreeStarts(a) + FreeStarts(b)
    decreases |a|
  {
    if |a| == 0 {
      assert a + b == b;
    } else {
      var ab := a + b;
      assert ab[0] == a[0] && ab[1..] == a[1..] + b;
      FreeStartsAppend(a[1..], b);
      var head := if a[0].free then [a[0].start] else [];
      assert FreeStarts(ab) == head + FreeStarts(ab[1..]);
      assert FreeStarts(a) == head + FreeStarts(a[1..]);
    }
  }

  lemma {:induction false} FreeCellsAppend(a: seq<Blk>, b: seq<Blk>)
    ensures FreeCells(a + b) == FreeCells(a) + FreeCells(b)
    decreases |a|
  {
    if |a| == 0 {
      assert a + b == b;
    } else {
      var ab := a + b;
      assert ab[0] == a[0] && ab[1..] == a[1..] + b;
      FreeCellsAppend(a[1..], b);
    }
  }

  lemma FreeStartsOne(b: Blk)
    ensures FreeStarts([b]) == if b.free then [b.start] else []
    ensures FreeCells([b]) == if b.free then b.size else 0
  {
    assert [b][1..] == [];
  }

  /** Replacing v[k..j] by `mid` replaces the same stretch of the free ring. */
  lemma FreeStartsSplice(v: seq<Blk>, k: nat, j: nat, mid: seq<Blk>)
    requires k <= j <= |v|
    ensures FreeStarts(v[..k] + mid + v[j..]) == FreeStarts(v[..k]) + FreeStarts(mid) + FreeStarts(v[j..])
    ensures FreeCells(v[..k] + mid + v[j..]) == FreeCells(v[..k]) + FreeCells(mid) + FreeCells(v[j..])
    ensures FreeStarts(v) == FreeStarts(v[..k]) + FreeStarts(v[k..j]) + FreeStarts(v[j..])
    ensures FreeCells(v) == FreeCells(v[..k]) + FreeCells(v[k..j]) + FreeCells(v[j..])
  {
    FreeStartsConcat(v[..k] + mid, v[j..]);
    FreeStartsConcat(v[..k], mid);
    assert v == v[..k] + v[k..j] + v[j..];
    FreeStartsConcat(v[..k] + v[k..j], v[j..]);
    FreeStartsConcat(v[..k], v[k..j]);
  }

  /** Where block k sits in the free ring. */
  lemma RingPosOf(v: seq<Blk>, k: nat)
    requires k < |v|
    ensures FreeStarts(v) == FreeStarts(v[..k]) + FreeStarts([v[k]]) + FreeStarts(v[k + 1..])
    ensures FreeCells(v) == FreeCells(v[..k]) + FreeCells([v[k]]) + FreeCells(v[k + 1..])
    ensures v[k].free ==> RingPos(v, k) < |FreeStarts(v)| && FreeStarts(v)[RingPos(v, k)] == v[k].start
  {
    FreeStartsSplice(v, k, k + 1, [v[k]]);
    assert v[k..k + 1] == [v[k]];
    FreeStartsOne(v[k]);
  }

  /**
    The view index of the j-th member of the free ring: every member of the
    ring is the first cell of a free block, which sits at ring position j.
  */
  function FreeIndex(v: seq<Blk>, j: nat): (k: nat)
    requires j < |FreeStarts(v)|
    ensures k < |v| && v[k].free && RingPos(v, k) == j && FreeStarts(v)[j] == v[k].start
    decreases |v|
  {
    FreeStartsOne(v[0]);
    assert v == [v[0]] + v[1..];
    FreeStartsConcat([v[0]], v[1..]);
    if v[0].free && j == 0 then
      assert v[..0] == [];
      0
    else
      var j1 := if v[0].free then j - 1 else j;
      var k1 := FreeIndex(v[1..], j1);
      assert v[..k1 + 1] == [v[0]] + v[1..][..k1];
      FreeStartsConcat([v[0]], v[1..][..k1]);
      k1 + 1
  }

  /** Tiling blocks are in strictly increasing address order, inside the region. */
  lemma TilesOrdered(v: seq<Blk>, total: nat)
    requires Tiles(v, total)
    ensures forall i, j :: 0 <= i < j < |v| ==> End(v[i]) <= v[j].start
    ensures forall i :: 0 <= i < |v| ==> End(v[i]) <= total
    ensures StartsIncreasing(v)
  {
    forall i, j | 0 <= i < j < |v|
      ensures End(v[i]) <= v[j].start
    {
      OrderedPair(v, total, i, j);
    }
    forall i | 0 <= i < |v|
      ensures End(v[i]) <= total
    {
      if i < |v| - 1 {
        OrderedPair(v, total, i, |v| - 1);
      }
    }
  }

  lemma {:induction false} OrderedPair(v: seq<Blk>, total: nat, i: nat, j: nat)
    requires Tiles(v, total) && i < j < |v|
    ensures End(v[i]) <= v[j].start
    decreases j - i
  {
    if j > i + 1 {
      OrderedPair(v, total, i, j - 1);
      assert End(v[j - 1]) == v[j].start;
    } else {
      assert End(v[i]) == v[i + 1].start;
    }
  }

  lemma {:induction false} FreeStartsAbove(v: seq<Blk>, lo: nat)
    requires forall i :: 0 <= i < |v| ==> lo <= v[i].start
    ensures forall j :: 0 <= j < |FreeStarts(v)| ==> lo <= FreeStarts(v)[j]
    decreases |v|
  {
    if |v| > 0 {
      FreeStartsAbove(v[1..], lo);
    }
  }

  lemma {:induction false} FreeStartsBelow(v: seq<Blk>, hi: nat)
    requires forall i :: 0 <= i < |v| ==> v[i].start < hi
    ensures forall j :: 0 <= j < |FreeStarts(v)| ==> FreeStarts(v)[j] < hi
    decreases |v|
  {
    if |v| > 0 {
      FreeStartsBelow(v[1..], hi);
    }
  }

  /** The free ring inherits the address order of the blocks. */
  lemma {:induction false} FreeStartsIncreasing(v: seq<Blk>)
    requires StartsIncreasing(v)
    ensures Increasing(FreeStarts(v))
    decreases |v|
  {
    if |v| > 0 {
      FreeStartsIncreasing(v[1..]);
      FreeStartsAbove(v[1..], v[0].start + 1);
    }
  }

  /** Replacing blocks k..j-1 by blocks that tile the same cells keeps the region tiled. */
  lemma TilesSplice(v: seq<Blk>, total: nat, k: nat, j: nat, mid: seq<Blk>)
    requires Tiles(v, total) && k < j <= |v|
    requires TilesRange(mid, v[k].start, End(v[j - 1]))
    ensures Tiles(v[..k] + mid + v[j..], total)
  {
    var w := v[..k] + mid + v[j..];
    var d := |mid|;
    SpliceIndex(v, k, j, mid, 0);
    SpliceIndex(v, k, j, mid, |w| - 1);
    assert End(v[|v| - 1]) == total;
    forall i | 0 <= i < |w|
      ensures w[i].size > 0
    {
      SpliceIndex(v, k, j, mid, i);
    }
    forall i | 0 <= i < |w| - 1
      ensures w[i + 1].start == End(w[i])
    {
      SpliceStep(v, total, k, j, mid, i);
    }
  }

  /** Where block i of the spliced view comes from. */
  lemma SpliceIndex(v: seq<Blk>, k: nat, j: nat, mid: seq<Blk>, i: nat)
    requires k < j <= |v| && i < k + |mid| + (|v| - j)
    ensures var w := v[..k] + mid + v[j..];
      |w| == k + |mid| + (|v| - j) &&
      (i < k ==> w[i] == v[i]) &&
      (k <= i < k + |mid| ==> w[i] == mid[i - k]) &&
      (k + |mid| <= i ==> w[i] == v[i - k - |mid| + j])
  {
  }

  lemma SpliceStep(v: seq<Blk>, total: nat, k: nat, j: nat, mid: seq<Blk>, i: nat)
    requires Tiles(v, total) && k < j <= |v|
    requires TilesRange(mid, v[k].start, End(v[j - 1]))
    requires i + 1 < k + |mid| + (|v| - j)
    ensures var w := v[..k] + mid + v[j..]; w[i + 1].start == End(w[i])
  {
    var d := |mid|;
    SpliceIndex(v, k, j, mid, i);
    SpliceIndex(v, k, j, mid, i + 1);
    if i + 1 < k {
      assert End(v[i]) == v[i + 1].start;
    } else if i + 1 == k {
      assert End(v[k - 1]) == v[k].start;
    } else if i + 1 < k + d {
      assert End(mid[i - k]) == mid[i - k + 1].start;
    } else if i + 1 == k + d {
      assert End(v[j - 1]) == v[j].start;
    } else {
      var x := i - k - d + j;
      assert End(v[x]) == v[x + 1].start;
    }
  }

  /** A run of one or two blocks tiling [lo, hi). */
  lemma TilesRangeSmall(a: Blk, b: Blk)
    ensures a.size > 0 ==> TilesRange([a], a.start, End(a))
    ensures a.size > 0 && b.size > 0 && b.start == End(a) ==> TilesRange([a, b], a.start, End(b))
  {
  }

  /** split_chunk on the free block k: it keeps `size` cells and a free block of the rest follows. */
  function SplitView(v: seq<Blk>, k: nat, size: nat): seq<Blk>
    requires k < |v| && 0 < size < v[k].size
  {
    v[..k] + [Blk(v[k].start, size, v[k].free), Blk(v[k].start + size, v[k].size - size, true)] + v[k + 1..]
  }

  /** Block k marked free or allocated. */
  function Mark(v: seq<Blk>, k: nat, free: bool): seq<Blk>
    requires k < |v|
  {
    v[k := v[k].(free := free)]
  }

  /** The last n cells of free block k become an allocated block. */
  function TakeTailView(v: seq<Blk>, k: nat, n: nat): seq<Blk>
    requires k < |v| && 0 < n < v[k].size
  {
    v[..k] + [Blk(v[k].start, v[k].size - n, true), Blk(v[k].start + v[k].size - n, n, false)] + v[k + 1..]
  }

  /** Block i absorbs block i + 1 and keeps its own state. */
  function MergeView(v: seq<Blk>, i: nat): seq<Blk>
    requires i + 1 < |v|
  {
    v[..i] + [Blk(v[i].start, v[i].size + v[i + 1].size, v[i].free)] + v[i + 2..]
  }

  /**
    The whole effect of a successful grub_real_malloc on free block k: the
    n cells at offset `off` become an allocated block; what lies before and
    after them stays free.
  */
  function Carve(v: seq<Blk>, k: nat, off: nat, n: nat): seq<Blk>
    requires k < |v| && 0 < n && off + n <= v[k].size
  {
    v[..k] + CarveMid(v[k], off, n) + v[k + 1..]
  }

  /** The allocated block a Carve creates, and where it sits in the new view. */
  function CarvedIndex(k: nat, off: nat): nat {
    if off > 0 then k + 1 else k
  }

  lemma SplitViewFacts(v: seq<Blk>, total: nat, k: nat, size: nat)
    requires Tiles(v, total) && k < |v| && v[k].free && 0 < size < v[k].size
    ensures Tiles(SplitView(v, k, size), total)
    ensures FreeCells(SplitView(v, k, size)) == FreeCells(v)
    ensures RingPos(v, k) < |FreeStarts(v)|
    ensures var t := RingPos(v, k);
      FreeStarts(SplitView(v, k, size)) ==
        FreeStarts(v)[..t + 1] + [v[k].start + size] + FreeStarts(v)[t + 1..]
    ensures RingPos(SplitView(v, k, size), k) == RingPos(v, k)
  {
    var a, b := Blk(v[k].start, size, true), Blk(v[k].start + size, v[k].size - size, true);
    assert Tiles(SplitView(v, k, size), total) by {
      TilesRangeSmall(a, b);
      TilesSplice(v, total, k, k + 1, [a, b]);
    }
    SplitViewRing(v, k, size);
  }

  lemma SplitViewRing(v: seq<Blk>, k: nat, size: nat)
    requires k < |v| && v[k].free && 0 < size < v[k].size
    ensures FreeCells(SplitView(v, k, size)) == FreeCells(v)
    ensures RingPos(v, k) < |FreeStarts(v)|
    ensures var t := RingPos(v, k);
      FreeStarts(SplitView(v, k, size)) ==
        FreeStarts(v)[..t + 1] + [v[k].start + size] + FreeStarts(v)[t + 1..]
    ensures RingPos(SplitView(v, k, size), k) == RingPos(v, k)
  {
    var a, b := Blk(v[k].start, size, true), Blk(v[k].start + size, v[k].size - size, true);
    FreeStartsSplice(v, k, k + 1, [a, b]);
    assert v[k..k + 1] == [v[k]];
    FreeStartsOne(v[k]);
    FreeStartsConcat([a], [b]);
    FreeStartsOne(a);
    FreeStartsOne(b);
    var w := SplitView(v, k, size);
    assert w[..k] == v[..k];
    RingPosOf(v, k);
  }

  lemma MarkFacts(v: seq<Blk>, total: nat, k: nat, free: bool)
    requires Tiles(v, total) && k < |v| && v[k].free != free
    ensures Tiles(Mark(v, k, free), total)
    ensures free ==> FreeCells(Mark(v, k, free)) == FreeCells(v) + v[k].size
    ensures !free ==> FreeCells(Mark(v, k, free)) + v[k].size == FreeCells(v)
    ensures var t := RingPos(v, k);
      t <= |FreeStarts(v)| &&
      (free ==> FreeStarts(Mark(v, k, free)) == FreeStarts(v)[..t] + [v[k].start] + FreeStarts(v)[t..]) &&
      (!free ==> t < |FreeStarts(v)| && FreeStarts(Mark(v, k, free)) == FreeStarts(v)[..t] + FreeStarts(v)[t + 1..])
  {
    var b := v[k].(free := free);
    assert Mark(v, k, free) == v[..k] + [b] + v[k + 1..];
    TilesRangeSmall(b, b);
    TilesSplice(v, total, k, k + 1, [b]);
    MarkRing(v, k, free);
  }

  lemma MarkRing(v: seq<Blk>, k: nat, free: bool)
    requires k < |v| && v[k].free != free
    ensures free ==> FreeCells(Mark(v, k, free)) == FreeCells(v) + v[k].size
    ensures !free ==> FreeCells(Mark(v, k, free)) + v[k].size == FreeCells(v)
    ensures var t := RingPos(v, k);
      t <= |FreeStarts(v)| &&
      (free ==> FreeStarts(Mark(v, k, free)) == FreeStarts(v)[..t] + [v[k].start] + FreeStarts(v)[t..]) &&
      (!free ==> t < |FreeStarts(v)| && FreeStarts(Mark(v, k, free)) == FreeStarts(v)[..t] + FreeStarts(v)[t + 1..])
  {
    MarkSplice(v, k, free);
    var pre, post := FreeStarts(v[..k]), FreeStarts(v[k + 1..]);
    if free {
      assert FreeStarts(v) == pre + post;
      assert (pre + post)[..|pre|] == pre && (pre + post)[|pre|..] == post;
    } else {
      SpliceOne(pre, v[k].start, post);
    }
  }

  /** Marking block k splits both lists at block k the same way. */
  lemma MarkSplice(v: seq<Blk>, k: nat, free: bool)
    requires k < |v| && v[k].free != free
    ensures free ==> FreeCells(Mark(v, k, free)) == FreeCells(v) + v[k].size
    ensures !free ==> FreeCells(Mark(v, k, free)) + v[k].size == FreeCells(v)
    ensures RingPos(v, k) == |FreeStarts(v[..k])|
    ensures FreeStarts(v) == FreeStarts(v[..k]) + (if free then [] else [v[k].start]) + FreeStarts(v[k + 1..])
    ensures FreeStarts(Mark(v, k, free)) == FreeStarts(v[..k]) + (if free then [v[k].start] else []) + FreeStarts(v[k + 1..])
  {
    var b := v[k].(free := free);
    assert Mark(v, k, free) == v[..k] + [b] + v[k + 1..];
    FreeStartsSplice(v, k, k + 1, [b]);
    assert v[k..k + 1] == [v[k]];
    FreeStartsOne(v[k]);
    FreeStartsOne(b);
  }

  lemma TakeTailFacts(v: seq<Blk>, total: nat, k: nat, n: nat)
    requires Tiles(v, total) && k < |v| && v[k].free && 0 < n < v[k].size
    ensures Tiles(TakeTailView(v, k, n), total)
    ensures FreeCells(TakeTailView(v, k, n)) + n == FreeCells(v)
    ensures FreeStarts(TakeTailView(v, k, n)) == FreeStarts(v)
  {
    var a, b := Blk(v[k].start, v[k].size - n, true), Blk(v[k].start + v[k].size - n, n, false);
    TilesRangeSmall(a, b);
    TilesSplice(v, total, k, k + 1, [a, b]);
    TakeTailLists(v, k, n);
  }

  lemma TakeTailLists(v: seq<Blk>, k: nat, n: nat)
    requires k < |v| && v[k].free && 0 < n < v[k].size
    ensures FreeCells(TakeTailView(v, k, n)) + n == FreeCells(v)
    ensures FreeStarts(TakeTailView(v, k, n)) == FreeStarts(v)
  {
    var a, b := Blk(v[k].start, v[k].size - n, true), Blk(v[k].start + v[k].size - n, n, false);
    FreeStartsSplice(v, k, k + 1, [a, b]);
    assert v[k..k + 1] == [v[k]];
    FreeStartsOne(v[k]);
    assert [a, b] == [a] + [b];
    FreeStartsConcat([a], [b]);
    FreeStartsOne(a);
    FreeStartsOne(b);
  }

  lemma MergeFacts(v: seq<Blk>, total: nat, i: nat)
    requires Tiles(v, total) && i + 1 < |v| && v[i + 1].free
    ensures Tiles(MergeView(v, i), total)
    ensures v[i].free ==> FreeCells(MergeView(v, i)) == FreeCells(v)
    ensures !v[i].free ==> FreeCells(MergeView(v, i)) + v[i + 1].size == FreeCells(v)
    ensures var u := RingPos(v, i + 1);
      u < |FreeStarts(v)| && FreeStarts(v)[u] == v[i + 1].start &&
      FreeStarts(MergeView(v, i)) == FreeStarts(v)[..u] + FreeStarts(v)[u + 1..]
  {
    var c := Blk(v[i].start, v[i].size + v[i + 1].size, v[i].free);
    assert End(v[i]) == v[i + 1].start;
    TilesRangeSmall(c, c);
    TilesSplice(v, total, i, i + 2, [c]);
    MergeLists(v, i);
  }

  /** What merging block i + 1 into block i does to the free ring and the free cells. */
  lemma MergeLists(v: seq<Blk>, i: nat)
    requires i + 1 < |v| && v[i + 1].free
    ensures v[i].free ==> FreeCells(MergeView(v, i)) == FreeCells(v)
    ensures !v[i].free ==> FreeCells(MergeView(v, i)) + v[i + 1].size == FreeCells(v)
    ensures var u := RingPos(v, i + 1);
      u < |FreeStarts(v)| && FreeStarts(v)[u] == v[i + 1].start &&
      FreeStarts(MergeView(v, i)) == FreeStarts(v)[..u] + FreeStarts(v)[u + 1..]
  {
    MergeCells(v, i);
    MergeBefore(v, i);
    MergeAfter(v, i);
    assert RingPos(v, i + 1) == |FreeStarts(v[..i]) + FreeStarts([v[i]])| by {
      assert v[..i + 1] == v[..i] + [v[i]];
      FreeStartsConcat(v[..i], [v[i]]);
    }
    SpliceOne(FreeStarts(v[..i]) + FreeStarts([v[i]]), v[i + 1].start, FreeStarts(v[i + 2..]));
  }

  lemma MergeCells(v: seq<Blk>, i: nat)
    requires i + 1 < |v| && v[i + 1].free
    ensures v[i].free ==> FreeCells(MergeView(v, i)) == FreeCells(v)
    ensures !v[i].free ==> FreeCells(MergeView(v, i)) + v[i + 1].size == FreeCells(v)
  {
    MergeBefore(v, i);
    MergeAfter(v, i);
  }

  /** Both lists of the view cut around blocks i and i + 1. */
  lemma MergeBefore(v: seq<Blk>, i: nat)
    requires i + 1 < |v| && v[i + 1].free
    ensures FreeStarts(v) == FreeStarts(v[..i]) + FreeStarts([v[i]]) + [v[i + 1].start] + FreeStarts(v[i + 2..])
    ensures FreeCells(v) == FreeCells(v[..i]) + FreeCells([v[i]]) + v[i + 1].size + FreeCells(v[i + 2..])
    ensures FreeCells([v[i]]) == if v[i].free then v[i].size else 0
  {
    var w := v[i..i + 2];
    FreeStartsSplice(v, i, i + 2, []);
    FreeStartsPair(w);
    assert w[0] == v[i] && w[1] == v[i + 1];
    FreeStartsOne(v[i]);
    FreeStartsOne(v[i + 1]);
    var a, x, b := FreeStarts(v[..i]), FreeStarts([v[i]]), FreeStarts(v[i + 2..]);
    assert FreeStarts(w) == x + [v[i + 1].start];
    AppendAssoc(a, x, [v[i + 1].start]);
  }

  /** A list is its part before k, its element k and its part after k. */
  lemma Unsplice<T>(v: seq<T>, k: nat)
    requires k < |v|
    ensures v == v[..k] + [v[k]] + v[k + 1..]
  {
  }

  lemma AppendAssoc<T>(a: seq<T>, b: seq<T>, c: seq<T>)
    ensures a + (b + c) == a + b + c
  {
  }

  /** Both lists of the merged view cut around the merged block. */
  lemma MergeAfter(v: seq<Blk>, i: nat)
    requires i + 1 < |v|
    ensures FreeStarts(MergeView(v, i)) == FreeStarts(v[..i]) + FreeStarts([v[i]]) + FreeStarts(v[i + 2..])
    ensures FreeCells(MergeView(v, i)) ==
      FreeCells(v[..i]) + (if v[i].free then v[i].size + v[i + 1].size else 0) + FreeCells(v[i + 2..])
  {
    var c := Blk(v[i].start, v[i].size + v[i + 1].size, v[i].free);
    FreeStartsThree(v[..i], c, v[i + 2..]);
    FreeStartsOne(v[i]);
    FreeStartsOne(c);
  }

  lemma FreeStartsThree(a: seq<Blk>, x: Blk, b: seq<Blk>)
    ensures FreeStarts(a + [x] + b) == FreeStarts(a) + FreeStarts([x]) + FreeStarts(b)
    ensures FreeCells(a + [x] + b) == FreeCells(a) + FreeCells([x]) + FreeCells(b)
  {
    FreeStartsConcat(a + [x], b);
    FreeStartsConcat(a, [x]);
  }

  /** The lists of a view of two blocks. */
  lemma FreeStartsPair(w: seq<Blk>)
    requires |w| == 2
    ensures FreeStarts(w) == FreeStarts([w[0]]) + FreeStarts([w[1]])
    ensures FreeCells(w) == FreeCells([w[0]]) + FreeCells([w[1]])
  {
    assert w[1..][1..] == [];
    assert [w[0]][1..] == [] && [w[1]][1..] == [];
  }

  lemma CarveFacts(v: seq<Blk>, total: nat, k: nat, off: nat, n: nat)
    requires Tiles(v, total) && k < |v| && v[k].free && 0 < n && off + n <= v[k].size
    ensures Tiles(Carve(v, k, off, n), total)
    ensures FreeCells(Carve(v, k, off, n)) + n == FreeCells(v)
    ensures var w := Carve(v, k, off, n); var c := CarvedIndex(k, off);
      c < |w| && w[c] == Blk(v[k].start + off, n, false) &&
      w[..k] == v[..k] && w[|w| - (|v| - k - 1)..] == v[k + 1..]
  {
    CarveMidFacts(v[k], off, n);
    TilesSplice(v, total, k, k + 1, CarveMid(v[k], off, n));
    CarveCells(v, k, off, n);
    SpliceParts(v[..k], CarveMid(v[k], off, n), v[k + 1..], CarvedIndex(0, off));
  }

  lemma CarveCells(v: seq<Blk>, k: nat, off: nat, n: nat)
    requires k < |v| && v[k].free && 0 < n && off + n <= v[k].size
    ensures FreeCells(Carve(v, k, off, n)) + n == FreeCells(v)
  {
    CarveMidFacts(v[k], off, n);
    FreeStartsSplice(v, k, k + 1, CarveMid(v[k], off, n));
    assert v[k..k + 1] == [v[k]];
    FreeStartsOne(v[k]);
  }

  /** The three parts of a splice a + m + b can be read back from it. */
  lemma SpliceParts<T>(a: seq<T>, m: seq<T>, b: seq<T>, i: nat)
    requires i < |m|
    ensures var w := a + m + b;
      w[..|a|] == a && w[|w| - |b|..] == b && w[|a| + i] == m[i]
  {
  }

  /** The parts of a + [x] + c around position |a|, and replacing x there. */
  lemma SpliceOne<T>(a: seq<T>, x: T, c: seq<T>)
    ensures var w := a + [x] + c;
      w[..|a|] == a && w[|a|] == x && w[|a| + 1..] == c
    ensures forall y :: (a + [x] + c)[|a| := y] == a + [y] + c
  {
    forall y
      ensures (a + [x] + c)[|a| := y] == a + [y] + c
    {
      assert forall i :: 0 <= i < |a| + 1 + |c| ==> (a + [x] + c)[|a| := y][i] == (a + [y] + c)[i];
    }
  }

  /** The blocks a Carve puts in place of the free block b. */
  function CarveMid(b: Blk, off: nat, n: nat): seq<Blk>
    requires 0 < n && off + n <= b.size
  {
    (if off > 0 then [Blk(b.start, off, true)] else []) + [Blk(b.start + off, n, false)] +
    (if off + n < b.size then [Blk(b.start + off + n, b.size - off - n, true)] else [])
  }

  lemma CarveMidFacts(b: Blk, off: nat, n: nat)
    requires b.free && 0 < n && off + n <= b.size
    ensures TilesRange(CarveMid(b, off, n), b.start, End(b))
    ensures FreeCells(CarveMid(b, off, n)) + n == b.size
    ensures var c := CarvedIndex(0, off); c < |CarveMid(b, off, n)| && CarveMid(b, off, n)[c] == Blk(b.start + off, n, false)
  {
    var pre := if off > 0 then [Blk(b.start, off, true)] else [];
    var x := Blk(b.start + off, n, false);
    var post := if off + n < b.size then [Blk(b.start + off + n, b.size - off - n, true)] else [];
    FreeStartsConcat(pre + [x], post);
    FreeStartsConcat(pre, [x]);
    FreeStartsOne(x);
    if off > 0 {
      FreeStartsOne(Blk(b.start, off, true));
    }
    if off + n < b.size {
      FreeStartsOne(Blk(b.start + off + n, b.size - off - n, true));
    }
  }

  // ---------------------------------------------------------------------
  // Header cells against the view

  function Nxt(j: nat, m: nat): nat
    requires j < m
  {
    if j + 1 == m then 0 else j + 1
  }

  function Prv(j: nat, m: nat): nat
    requires j < m
  {
    if j == 0 then m - 1 else j - 1
  }

  /** The ring `r` is circular and doubly linked through next and prev. */
  predicate Linked(h: seq<Header>, r: seq<nat>) {
    (forall j :: 0 <= j < |r| ==> r[j] < |h|) &&
    (forall j {:trigger h[r[j]]} :: 0 <= j < |r| ==> h[r[j]].next == r[Nxt(j, |r|)]) &&
    (forall j {:trigger h[r[j]]} :: 0 <= j < |r| ==> h[r[j]].prev == r[Prv(j, |r|)])
  }

  /** Every block's header records its size and its free or alloc magic. */
  predicate Agrees(h: seq<Header>, v: seq<Blk>) {
    forall i :: 0 <= i < |v| ==>
      v[i].start < |h| && h[v[i].start].size == v[i].size && h[v[i].start].magic == MagicOf(v[i].free)
  }

  /** `first` is the lowest free block, or a header with alloc magic when nothing is free. */
  predicate FirstOk(h: seq<Header>, v: seq<Blk>, first: nat) {
    first < |h| &&
    if |FreeStarts(v)| > 0 then first == FreeStarts(v)[0] else h[first].magic == ALLOC_MAGIC
  }

  /** The invariant of a region, stated in the design comment of kern/mm.c. */
  predicate RegionOk(h: seq<Header>, v: seq<Blk>, first: nat) {
    Tiles(v, |h|) && Agrees(h, v) && Linked(h, FreeStarts(v)) && FirstOk(h, v, first)
  }

  predicate SameLinks(h: seq<Header>, h2: seq<Header>, x: nat)
    requires x < |h| && x < |h2|
  {
    h2[x].next == h[x].next && h2[x].prev == h[x].prev
  }

  /** The ring of a valid region is in increasing address order, inside the region. */
  lemma RingOrdered(h: seq<Header>, v: seq<Blk>)
    requires Tiles(v, |h|)
    ensures Increasing(FreeStarts(v))
    ensures forall j :: 0 <= j < |FreeStarts(v)| ==> FreeStarts(v)[j] < |h|
  {
    TilesOrdered(v, |h|);
    FreeStartsIncreasing(v);
    FreeStartsBelow(v, |h|);
  }

  /** Changing no link of a ring member keeps the ring linked. */
  lemma LinkedFrame(h: seq<Header>, r: seq<nat>, h2: seq<Header>)
    requires Linked(h, r) && |h2| == |h|
    requires forall j {:trigger SameLinks(h, h2, r[j])} :: 0 <= j < |r| ==> SameLinks(h, h2, r[j])
    ensures Linked(h2, r)
  {
    forall j | 0 <= j < |r|
      ensures h2[r[j]].next == r[Nxt(j, |r|)] && h2[r[j]].prev == r[Prv(j, |r|)]
    {
      assert SameLinks(h, h2, r[j]);
    }
  }

  /** Resizing a header that is no ring member keeps the ring linked. */
  lemma LinkedResize(h: seq<Header>, r: seq<nat>, p: nat, n: nat)
    requires Linked(h, r) && p < |h| && forall j :: 0 <= j < |r| ==> r[j] != p
    ensures Linked(h[p := h[p].(size := n)], r)
  {
    var h2 := h[p := h[p].(size := n)];
    forall j | 0 <= j < |r|
      ensures SameLinks(h, h2, r[j])
    {
      assert r[j] != p;
    }
    LinkedFrame(h, r, h2);
  }

  /** Positions of the members a new ring member at position t is linked between. */
  function InsPrevIdx(m: nat, t: nat): nat
    requires 0 < m && t <= m
  {
    if t == 0 then m - 1 else t - 1
  }

  function InsNextIdx(m: nat, t: nat): nat
    requires 0 < m && t <= m
  {
    if t == m then 0 else t
  }

  function InsPrev(r: seq<nat>, t: nat): nat
    requires 0 < |r| && t <= |r|
  {
    r[InsPrevIdx(|r|, t)]
  }

  function InsNext(r: seq<nat>, t: nat): nat
    requires 0 < |r| && t <= |r|
  {
    r[InsNextIdx(|r|, t)]
  }

  /** No other member of the ring equals the one at position i. */
  predicate UniqueAt(r: seq<nat>, i: nat)
    requires i < |r|
  {
    forall j :: 0 <= j < |r| && j != i ==> r[j] != r[i]
  }

  lemma IncreasingUnique(r: seq<nat>)
    requires Increasing(r)
    ensures forall i :: 0 <= i < |r| ==> UniqueAt(r, i)
  {
  }

  /**
    The links after x has been put into the ring between the members around
    position t: x points both ways at them, they point at x, and no other
    ring member's links change.
  */
  predicate InsertLinks(h: seq<Header>, r: seq<nat>, t: nat, x: nat, h2: seq<Header>)
    requires Linked(h, r) && 0 < |r| && t <= |r| && |h2| == |h| && x < |h|
  {
    h2[x].next == InsNext(r, t) && h2[x].prev == InsPrev(r, t) &&
    h2[InsPrev(r, t)].next == x && h2[InsNext(r, t)].prev == x &&
    (InsPrev(r, t) != InsNext(r, t) ==>
      h2[InsPrev(r, t)].prev == h[InsPrev(r, t)].prev && h2[InsNext(r, t)].next == h[InsNext(r, t)].next) &&
    (forall j {:trigger SameLinks(h, h2, r[j])} :: 0 <= j < |r| && r[j] != InsPrev(r, t) && r[j] != InsNext(r, t) ==> SameLinks(h, h2, r[j]))
  }

  /**
    Linking x into the ring between the members around position t gives a
    ring with x at position t.
  */
  lemma LinkedInsert(h: seq<Header>, r: seq<nat>, t: nat, x: nat, h2: seq<Header>, r2: seq<nat>)
    requires Linked(h, r) && 0 < |r| && t <= |r| && |h2| == |h| && x < |h|
    requires UniqueAt(r, InsPrevIdx(|r|, t)) && UniqueAt(r, InsNextIdx(|r|, t))
    requires InsertLinks(h, r, t, x, h2)
    requires r2 == r[..t] + [x] + r[t..]
    ensures Linked(h2, r2)
  {
    var m := |r|;
    forall j | 0 <= j < m + 1
      ensures r2[j] < |h2|
      ensures h2[r2[j]].next == r2[Nxt(j, m + 1)]
      ensures h2[r2[j]].prev == r2[Prv(j, m + 1)]
    {
      LinkedInsertAt(h, r, t, x, h2, j);
      assert InsertedAt(h2, r, t, x, j);
    }
  }

  lemma LinkedInsertAt(h: seq<Header>, r: seq<nat>, t: nat, x: nat, h2: seq<Header>, j: nat)
    requires Linked(h, r) && 0 < |r| && t <= |r| && |h2| == |h| && x < |h|
    requires UniqueAt(r, InsPrevIdx(|r|, t)) && UniqueAt(r, InsNextIdx(|r|, t))
    requires InsertLinks(h, r, t, x, h2)
    requires j < |r| + 1
    ensures InsertedAt(h2, r, t, x, j)
  {
    var m := |r|;
    if j == t {
      InsertIndex(r, t, x, j);
    } else if j == Prv(t, m + 1) {
      InsertAtPrev(h, r, t, x, h2, j);
    } else if j == Nxt(t, m + 1) {
      InsertAtNext(h, r, t, x, h2, j);
    } else {
      InsertAtOther(h, r, t, x, h2, j);
    }
  }

  /** Position j of the ring with x inserted at t is linked in h2. */
  predicate InsertedAt(h2: seq<Header>, r: seq<nat>, t: nat, x: nat, j: nat)
    requires t <= |r| && j < |r| + 1
  {
    var r2 := r[..t] + [x] + r[t..];
    r2[j] < |h2| && h2[r2[j]].next == r2[Nxt(j, |r| + 1)] && h2[r2[j]].prev == r2[Prv(j, |r| + 1)]
  }

  lemma InsertAtPrev(h: seq<Header>, r: seq<nat>, t: nat, x: nat, h2: seq<Header>, j: nat)
    requires Linked(h, r) && 0 < |r| && t <= |r| && |h2| == |h| && x < |h|
    requires UniqueAt(r, InsPrevIdx(|r|, t)) && UniqueAt(r, InsNextIdx(|r|, t))
    requires InsertLinks(h, r, t, x, h2)
    requires j == Prv(t, |r| + 1)
    ensures InsertedAt(h2, r, t, x, j)
  {
    var m := |r|;
    InsertIndex(r, t, x, j);
    if m > 1 {
      var ia := InsPrevIdx(m, t);
      assert ia != InsNextIdx(m, t);
      assert h[r[ia]].prev == r[Prv(ia, m)];
    }
  }

  lemma InsertAtNext(h: seq<Header>, r: seq<nat>, t: nat, x: nat, h2: seq<Header>, j: nat)
    requires Linked(h, r) && 0 < |r| && t <= |r| && |h2| == |h| && x < |h|
    requires UniqueAt(r, InsPrevIdx(|r|, t)) && UniqueAt(r, InsNextIdx(|r|, t))
    requires InsertLinks(h, r, t, x, h2)
    requires j == Nxt(t, |r| + 1) && j != Prv(t, |r| + 1)
    ensures InsertedAt(h2, r, t, x, j)
  {
    var m := |r|;
    InsertIndex(r, t, x, j);
    var ib := InsNextIdx(m, t);
    assert ib != InsPrevIdx(m, t);
    assert h[r[ib]].next == r[Nxt(ib, m)];
  }

  lemma InsertAtOther(h: seq<Header>, r: seq<nat>, t: nat, x: nat, h2: seq<Header>, j: nat)
    requires Linked(h, r) && 0 < |r| && t <= |r| && |h2| == |h| && x < |h|
    requires UniqueAt(r, InsPrevIdx(|r|, t)) && UniqueAt(r, InsNextIdx(|r|, t))
    requires InsertLinks(h, r, t, x, h2)
    requires j < |r| + 1 && j != t && j != Prv(t, |r| + 1) && j != Nxt(t, |r| + 1)
    ensures InsertedAt(h2, r, t, x, j)
  {
    InsertIndex(r, t, x, j);
    var jj := if j < t then j else j - 1;
    assert SameLinks(h, h2, r[jj]);
  }

  /** Index bookkeeping for LinkedInsert: where each position of the new ring comes from. */
  lemma InsertIndex(r: seq<nat>, t: nat, x: nat, j: nat)
    requires 0 < |r| && t <= |r| && j < |r| + 1
    requires UniqueAt(r, InsPrevIdx(|r|, t)) && UniqueAt(r, InsNextIdx(|r|, t))
    ensures var r2 := r[..t] + [x] + r[t..]; var m := |r|;
      |r2| == m + 1 && r2[t] == x &&
      r2[Prv(t, m + 1)] == InsPrev(r, t) && r2[Nxt(t, m + 1)] == InsNext(r, t) &&
      (m > 1 && j == Prv(t, m + 1) ==> r2[Prv(j, m + 1)] == r[Prv(if t == 0 then m - 1 else t - 1, m)]) &&
      (m > 1 && j == Nxt(t, m + 1) ==> r2[Nxt(j, m + 1)] == r[Nxt(if t == m then 0 else t, m)]) &&
      (j != t && j != Prv(t, m + 1) && j != Nxt(t, m + 1) ==>
        var jj := if j < t then j else j - 1;
        r2[j] == r[jj] && r[jj] != InsPrev(r, t) && r[jj] != InsNext(r, t) &&
        r2[Nxt(j, m + 1)] == r[Nxt(jj, m)] && r2[Prv(j, m + 1)] == r[Prv(jj, m)])
  {
    var r2 := r[..t] + [x] + r[t..];
    var m := |r|;
    assert forall i :: 0 <= i < t ==> r2[i] == r[i];
    assert forall i :: t < i <= m ==> r2[i] == r[i - 1];
  }

  /**
    Unlinking the member at position t (its neighbours now point at each
    other) gives the ring without it.
  */
  lemma LinkedRemove(h: seq<Header>, r: seq<nat>, t: nat, h2: seq<Header>, r2: seq<nat>)
    requires RemoveLinks(h, r, t, h2)
    requires r2 == r[..t] + r[t + 1..]
    ensures Linked(h2, r2)
  {
    forall j | 0 <= j < |r| - 1
      ensures RemovedAt(h2, r, t, j)
    {
      LinkedRemoveAt(h, r, t, h2, j);
    }
    LinkedFromRemoved(h2, r, t, r2);
  }

  lemma LinkedFromRemoved(h2: seq<Header>, r: seq<nat>, t: nat, r2: seq<nat>)
    requires t < |r| && forall j :: 0 <= j < |r| - 1 ==> RemovedAt(h2, r, t, j)
    requires r2 == r[..t] + r[t + 1..]
    ensures Linked(h2, r2)
  {
    assert |r2| == |r| - 1;
    forall j | 0 <= j < |r2|
      ensures r2[j] < |h2| && h2[r2[j]].next == r2[Nxt(j, |r2|)] && h2[r2[j]].prev == r2[Prv(j, |r2|)]
    {
      assert RemovedAt(h2, r, t, j);
    }
  }

  /**
    The links after the member at position t has been unlinked: its
    neighbours point at each other, keep their other link, and no other
    member's links change.
  */
  predicate RemoveLinks(h: seq<Header>, r: seq<nat>, t: nat, h2: seq<Header>) {
    Linked(h, r) && 2 <= |r| && t < |r| && |h2| == |h| &&
    UniqueAt(r, Prv(t, |r|)) &&
    h2[r[Prv(t, |r|)]].next == r[Nxt(t, |r|)] && h2[r[Nxt(t, |r|)]].prev == r[Prv(t, |r|)] &&
    (r[Prv(t, |r|)] != r[Nxt(t, |r|)] ==>
      h2[r[Prv(t, |r|)]].prev == h[r[Prv(t, |r|)]].prev && h2[r[Nxt(t, |r|)]].next == h[r[Nxt(t, |r|)]].next) &&
    (forall j {:trigger SameLinks(h, h2, r[j])} :: 0 <= j < |r| && j != t && j != Prv(t, |r|) && j != Nxt(t, |r|) ==> SameLinks(h, h2, r[j]))
  }

  /** Position j of the ring without its member at t is linked in h2. */
  predicate RemovedAt(h2: seq<Header>, r: seq<nat>, t: nat, j: nat)
    requires t < |r| && j + 1 < |r|
  {
    var r2 := r[..t] + r[t + 1..];
    r2[j] < |h2| && h2[r2[j]].next == r2[Nxt(j, |r| - 1)] && h2[r2[j]].prev == r2[Prv(j, |r| - 1)]
  }

  lemma LinkedRemoveAt(h: seq<Header>, r: seq<nat>, t: nat, h2: seq<Header>, j: nat)
    requires RemoveLinks(h, r, t, h2) && j + 1 < |r|
    ensures RemovedAt(h2, r, t, j)
  {
    var m := |r|;
    RemoveIndex(r, t, j);
    var ia, ib := Prv(t, m), Nxt(t, m);
    var pb := if t == m - 1 then 0 else t;
    var pa := Prv(pb, m - 1);
    if m == 2 {
    } else if j == pa {
      assert h[r[ia]].prev == r[Prv(ia, m)];
    } else if j == pb {
      assert h[r[ib]].next == r[Nxt(ib, m)];
    } else {
      var jj := if j < t then j else j + 1;
      assert SameLinks(h, h2, r[jj]);
      assert h[r[jj]].next == r[Nxt(jj, m)] && h[r[jj]].prev == r[Prv(jj, m)];
    }
  }

  /** Index bookkeeping for LinkedRemove. */
  lemma RemoveIndex(r: seq<nat>, t: nat, j: nat)
    requires 2 <= |r| && t < |r| && j < |r| - 1
    ensures var r2 := r[..t] + r[t + 1..]; var m := |r|;
      var ia := Prv(t, m); var ib := Nxt(t, m);
      var pb := if t == m - 1 then 0 else t; var pa := Prv(pb, m - 1);
      |r2| == m - 1 && r2[pb] == r[ib] && r2[pa] == r[ia] &&
      (m == 2 ==> ia == ib) &&
      (m > 2 && j == pa ==> j != pb && r2[Prv(pa, m - 1)] == r[Prv(ia, m)]) &&
      (m > 2 && j == pb ==> r2[Nxt(pb, m - 1)] == r[Nxt(ib, m)]) &&
      (j != pa && j != pb ==>
        var jj := if j < t then j else j + 1;
        r2[j] == r[jj] && jj != t && jj != ia && jj != ib &&
        r2[Nxt(j, m - 1)] == r[Nxt(jj, m)] && r2[Prv(j, m - 1)] == r[Prv(jj, m)])
  {
    var r2 := r[..t] + r[t + 1..];
    assert forall i :: 0 <= i < t ==> r2[i] == r[i];
    assert forall i :: t <= i < |r| - 1 ==> r2[i] == r[i + 1];
  }

  // ---------------------------------------------------------------------
  // Header updates of kern/mm.c and the invariant they keep

  predicate SameShape(h: seq<Header>, h2: seq<Header>, y: nat)
    requires y < |h| && y < |h2|
  {
    h2[y].size == h[y].size && h2[y].magic == h[y].magic
  }

  /** A block lies inside the region. */
  lemma BlockInside(v: seq<Blk>, total: nat, k: nat)
    requires Tiles(v, total) && k < |v|
    ensures End(v[k]) <= total
    ensures forall i :: 0 <= i < k ==> End(v[i]) <= v[k].start
    ensures forall i :: k < i < |v| ==> End(v[k]) <= v[i].start
  {
    TilesOrdered(v, total);
  }

  /**
    Headers outside the replaced stretch keep their size and magic, and the
    new blocks agree with theirs: the whole new view agrees.
  */
  lemma AgreesSplice(h: seq<Header>, h2: seq<Header>, v: seq<Blk>, k: nat, j: nat, mid: seq<Blk>)
    requires Tiles(v, |h|) && Agrees(h, v) && |h2| == |h| && k < j <= |v| && Agrees(h2, mid)
    requires forall y :: 0 <= y < |h| && (y < v[k].start || y >= End(v[j - 1])) ==> SameShape(h, h2, y)
    ensures Agrees(h2, v[..k] + mid + v[j..])
  {
    TilesOrdered(v, |h|);
    var w := v[..k] + mid + v[j..];
    forall i | 0 <= i < |w|
      ensures w[i].start < |h2| && h2[w[i].start].size == w[i].size && h2[w[i].start].magic == MagicOf(w[i].free)
    {
      SpliceIndex(v, k, j, mid, i);
      if i < k {
        assert End(v[i]) <= v[k].start;
        assert SameShape(h, h2, v[i].start);
      } else if i >= k + |mid| {
        var x := i - k - |mid| + j;
        if x > j - 1 {
          assert End(v[j - 1]) <= v[x].start;
        }
        assert SameShape(h, h2, v[x].start);
      }
    }
  }

  /** A member inserted into an increasing ring was not in it before. */
  lemma NotInInsert(r: seq<nat>, t: nat, x: nat)
    requires t <= |r| && Increasing(r[..t] + [x] + r[t..])
    ensures forall j :: 0 <= j < |r| ==> r[j] != x
  {
    var r2 := r[..t] + [x] + r[t..];
    forall j | 0 <= j < |r|
      ensures r[j] != x
    {
      if j < t {
        assert r2[j] == r[j] && r2[t] == x;
      } else {
        assert r2[j + 1] == r[j] && r2[t] == x;
      }
    }
  }

}
