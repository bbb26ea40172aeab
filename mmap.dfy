/**
  The allocate-and-register wrappers of mmap/i386/mmap.c over the heap of
  kern/mm.c. The memory map itself (grub_mmap_register,
  grub_mmap_unregister and the overlay list grub_mmap_overlays) is not
  modelled: what registration returns is a parameter, and the overlay list
  is handed in as a sequence.
*/
module Mmap {
  import opened Wrappers
  import opened MmLayout
  import opened MmSpec
  import opened MmHeap
  import opened Mm

  /** GRUB_MM_MALLOC_LOW_END of include/grub/i386/memory.h. */
  const MALLOC_LOW_END: nat := 3

  /** An entry of grub_mmap_overlays: its handle and the start address of its memory. */
  datatype Overlay = Overlay(handle: int, start: nat)

  /** The policy asked for: LOW_END when the GRUB_MMAP_MALLOC_LOW flag is set, DEFAULT otherwise. */
  function PolicyFor(mallocLow: bool): (policy: nat)
    ensures policy < NPOLICIES
  {
    if mallocLow then MALLOC_LOW_END else MALLOC_DEFAULT
  }

  /** The position of the first overlay with the handle, if any. */
  function Find(overlays: seq<Overlay>, handle: int): (r: Option<nat>)
    ensures match r
      case Some(i) => i < |overlays| && overlays[i].handle == handle &&
        forall j :: 0 <= j < i ==> overlays[j].handle != handle
      case None => forall j :: 0 <= j < |overlays| ==> overlays[j].handle != handle
  {
    if |overlays| == 0 then None
    else if overlays[0].handle == handle then Some(0)
    else match Find(overlays[1..], handle)
      case None => None
      case Some(i) => Some(i + 1)
  }

  /**
    grub_mmap_malign_and_register: the block comes from
    grub_memalign_policy under PolicyFor(mallocLow); `got` is what that call
    returned. When it fails, the handle is 0 and null is returned. When
    registration (whose result is `registered`) gives handle 0, the block is
    freed again and null is returned. Otherwise the block and its non-zero
    handle are returned: the block of exactly the cells the size needs that
    region ri, the first that could serve the request, handed out.
  */
  method MalignAndRegister(heap: Heap, alignBytes: nat, size: nat, mallocLow: bool, registered: int,
                           cache: seq<nat>, unload: seq<nat>)
    returns (ret: nat, handle: int, ghost got: nat, ghost rounds: nat, ghost ri: nat, ghost mid: seq<seq<Blk>>)
    requires heap.Valid() && Releasable(cache + unload, heap.Allocated())
    modifies heap, heap.Repr
    ensures heap.Valid() && heap.regions == old(heap.regions) && heap.Repr == old(heap.Repr) && rounds <= 2
    ensures var left := old(heap.Allocated()) - Released(cache, unload, rounds);
      if got == 0 then
        ret == 0 && handle == 0 && heap.errno == OutOfMemory && heap.Allocated() == left &&
        KeptAll(Bases(heap.regions), old(heap.views), heap.views, Released(cache, unload, 2)) &&
        forall i :: 0 <= i < |heap.regions| && i < |heap.views| ==>
          Declines(heap.regions[i], heap.views[i], CellsFor(size), AlignCells(alignBytes), PolicyFor(mallocLow))
      else if registered == 0 then
        ret == 0 && handle == 0 && got !in left && heap.Allocated() == left &&
        KeptAll(Bases(heap.regions), old(heap.views), heap.views, Released(cache, unload, rounds) + {got})
      else
        ret == got && handle == registered && ret !in left && heap.Allocated() == left + {ret} &&
        ret % ALIGN == 0 && Aligned(ret / ALIGN, AlignCells(alignBytes)) &&
        (rounds == 0 ==> mid == old(heap.views)) &&
        KeptAll(Bases(heap.regions), old(heap.views), mid, Released(cache, unload, rounds)) &&
        KeptAll(Bases(heap.regions), old(heap.views), heap.views, Released(cache, unload, rounds)) &&
        ri < |heap.regions| && ri < |heap.views| &&
        FirstServer(heap.regions, mid, CellsFor(size), AlignCells(alignBytes), PolicyFor(mallocLow), ri, ret, heap.views[ri]) &&
        HoldsBlock(heap.regions[ri].baseCell, heap.views[ri], ret, CellsFor(size))
  {
    var policy := PolicyFor(mallocLow);
    ret, rounds, ri, mid := heap.MemalignPolicy(alignBytes, size, policy, cache, unload);
    got := ret;
    if ret == 0 {
      handle := 0;
      return;
    }
    handle := registered;
    if handle == 0 {
      ghost var vs := heap.views;
      ghost var fi: nat, k: nat;
      fi, k := heap.Free(ret);
      KeptAllTrans(Bases(heap.regions), old(heap.views), vs, heap.views, Released(cache, unload, rounds), {got});
      return 0, handle, got, rounds, ri, mid;
    }
  }

  /**
    grub_mmap_free_and_unregister: the overlay list is searched for the
    handle; when no overlay has it, nothing happens. Otherwise the handle is
    unregistered (`unregistered`) and the overlay's start address is freed:
    for a non-null address, its block, block k of region ri, becomes free
    and no other block changes.
  */
  method FreeAndUnregister(heap: Heap, overlays: seq<Overlay>, handle: int)
    returns (unregistered: bool, ghost ri: nat, ghost k: nat)
    requires heap.Valid()
    requires Find(overlays, handle).Some? ==>
      var s := overlays[Find(overlays, handle).value].start; s == 0 || s in heap.Allocated()
    modifies heap, heap.Repr
    ensures heap.Valid() && heap.regions == old(heap.regions) && heap.Repr == old(heap.Repr)
    ensures heap.errno == old(heap.errno)
    ensures match Find(overlays, handle)
      case None => !unregistered && heap.views == old(heap.views)
      case Some(i) =>
        var s := overlays[i].start;
        unregistered && heap.Allocated() == old(heap.Allocated()) - {s} &&
        (s == 0 ==> heap.views == old(heap.views)) &&
        (s != 0 ==>
          ri < |old(heap.views)| && k < |old(heap.views)[ri]| && !old(heap.views)[ri][k].free &&
          s == PayloadCell(heap.regions[ri].baseCell, old(heap.views)[ri][k].start) * ALIGN &&
          heap.views == old(heap.views)[ri := Freed(old(heap.views)[ri], k)])
  {
    var i := 0;
    while i < |overlays| && overlays[i].handle != handle
      invariant i <= |overlays| && forall j :: 0 <= j < i ==> overlays[j].handle != handle
    {
      i := i + 1;
    }
    if i == |overlays| {
      return false, 0, 0;
    }
    var addr := overlays[i].start;
    unregistered := true;
    ri, k := heap.Free(addr);
  }
}
