/**
 * Properties that relate several calls of the allocator: which block malloc
 * picks, LIFO reuse after free, what realloc preserves, the alignment and
 * disjointness of the payloads handed out, and a worked allocation scenario.
 */
module Properties {
  import opened Wrappers
  import opened Sizes
  import opened Heap
  import opened FreeList
  import opened Bytes
  import opened Allocator
  import opened Preservation

  /**
   * When first fit settles on list position j, malloc hands out the payload
   * of the block listed there and the break stays where it was.
   */
  lemma MallocTakesFound(h: Heap, size: nat, sbrkOk: bool, j: nat)
    requires size > 0 && FirstFit(h, ReqSize(size)) == Some(j)
    ensures Malloc(h, size, sbrkOk).ptr == Some(h.free[j] + HdrSize)
    ensures Malloc(h, size, sbrkOk).heap.brk == h.brk
  {
    MallocHit(h, size, sbrkOk, j);
  }

  /**
   * malloc hands out the block that find_free_mem returns. Together with
   * FindFreeMem this ties malloc's first-fit search over the list to the C
   * loop that follows the `next` links.
   */
  lemma MallocUsesFindFree(h: Heap, size: nat, sbrkOk: bool)
    requires size > 0 && FindFree(h, ReqSize(size)).Some?
    ensures Malloc(h, size, sbrkOk).ptr == Some(FindFree(h, ReqSize(size)).value + HdrSize)
    ensures Malloc(h, size, sbrkOk).heap.brk == h.brk
  {
    MallocTakesFound(h, size, sbrkOk, FirstFit(h, ReqSize(size)).value);
  }

  /**
   * When find_free_mem's answer FindFree is NULL, malloc returns the old
   * break and grows the heap by the aligned request, or returns NULL and
   * changes nothing when mm_sbrk fails. On a well-formed list that answer
   * is what the C loop returns (FindFreeMem).
   */
  lemma MallocGrowsWhenNoneFound(h: Heap, size: nat, sbrkOk: bool)
    requires size > 0 && FindFree(h, ReqSize(size)) == None
    ensures sbrkOk ==> Malloc(h, size, sbrkOk).ptr == Some(h.brk + HdrSize)
    ensures sbrkOk ==> Malloc(h, size, sbrkOk).heap.brk == h.brk + ReqSize(size)
    ensures !sbrkOk ==> Malloc(h, size, sbrkOk) == Outcome(h, None)
  {
    MallocMiss(h, size, sbrkOk);
  }

  /** Payloads that malloc hands out are 16-aligned, lie inside the heap, and hold the request. */
  lemma MallocPayloadAligned(h: Heap, size: nat, sbrkOk: bool)
    requires Valid(h)
    ensures var r := Malloc(h, size, sbrkOk);
            r.ptr.Some? ==> Aligned(r.ptr.value) && InHeap(r.heap, r.ptr.value)
                            && Serves(r.heap, r.ptr.value, size)
                            && r.ptr.value + size <= r.heap.brk
  {
    var r := Malloc(h, size, sbrkOk);
    MallocValid(h, size, sbrkOk);
    MallocFits(h, size, sbrkOk);
    if r.ptr.Some? {
      LivePayloadInHeap(r.heap, r.ptr.value);
    }
  }

  /** The payloads of two different live pointers do not overlap. */
  lemma LivePayloadsDisjoint(h: Heap, p: nat, q: nat)
    requires Valid(h)
    requires IsLivePtr(h, p) && IsLivePtr(h, q) && p < q
    ensures p + (RawSize(h.hdrs[p - HdrSize].size) - HdrSize) <= q - HdrSize
  {
    var a := p - HdrSize;
    var c := q - HdrSize;
    assert Below(a, c);
  }

  /** After free(p), p's block is the first fit for any request it can hold. */
  lemma FreedIsFirstFit(h: Heap, p: nat, req: nat)
    requires IsLivePtr(h, p)
    requires req <= RawSize(h.hdrs[p - HdrSize].size)
    ensures FirstFit(Free(h, p), req) == Some(1)
  {
    var f := Free(h, p);
    assert f.free[1] == p - HdrSize;
    assert Hdr(f.hdrs, f.free[1]).size >= req;
  }

  /** The same, for the C loop of find_free_mem: it stops at p's block. */
  lemma FreedIsFoundFirst(h: Heap, p: nat, req: nat)
    requires Valid(h)
    requires IsLivePtr(h, p)
    requires req <= RawSize(h.hdrs[p - HdrSize].size)
    ensures Linked(Free(h, p).hdrs, Free(h, p).free)
    ensures FindFree(Free(h, p), req) == Some(p - HdrSize)
  {
    FreeValid(h, p);
    FreedIsFirstFit(h, p, req);
  }

  /** Taking the block that free(p) just pushed gives back the list, the break and the bytes. */
  lemma TakeUndoesFreeList(h: Heap, p: nat)
    requires Linked(h.hdrs, h.free)
    requires IsLivePtr(h, p)
    ensures |Free(h, p).free| > 1
    ensures var t := Take(Free(h, p), 1);
            t.free == h.free && t.brk == h.brk && t.mem == h.mem
  {
    RemoveAtUndoesPush(h.free, p - HdrSize);
  }

  /**
   * Taking the block that free(p) just pushed gives back every header: the
   * block's own size field is allocated again, and every other header,
   * links included, is as before the free. Only the block's own links,
   * which nothing reads while it is allocated, may differ.
   */
  lemma TakeUndoesFreeHeaders(h: Heap, p: nat)
    requires Linked(h.hdrs, h.free) && FlagsAgree(h.hdrs, h.free)
    requires IsLivePtr(h, p)
    ensures |Free(h, p).free| > 1
    ensures var t := Take(Free(h, p), 1);
            && t.hdrs.Keys == h.hdrs.Keys
            && t.hdrs[p - HdrSize].size == h.hdrs[p - HdrSize].size
            && (forall a :: a in h.hdrs && a != p - HdrSize ==> t.hdrs[a] == h.hdrs[a])
  {
    var b := p - HdrSize;
    var cleared := h.hdrs[b := h.hdrs[b].(size := ClearAllocated(h.hdrs[b].size))];
    LinkedAt(h.hdrs, h.free, 0);
    assert b !in h.free;
    assert h.free[Succ(0, |h.free|)] in h.free;
    assert CanPush(cleared, b);
    FreeHdrs(h, p);
    TakeHdrs(Free(h, p), 1);
    MarkUnlinkUndoesPush(cleared, b);
    FlagRoundTrip(h.hdrs[b].size);
  }

  /** Marking and unlinking a block right after pushing it gives back every other header. */
  lemma MarkUnlinkUndoesPush(hdrs: map<nat, Header>, b: nat)
    requires CanPush(hdrs, b)
    requires hdrs[hdrs[Sentinel].next].prev == Sentinel
    ensures var u := Unlink(Mark(Push(hdrs, b), b), b);
            && u.Keys == hdrs.Keys
            && u[b].size == SetAllocated(hdrs[b].size)
            && (forall a :: a in hdrs && a != b ==> u[a] == hdrs[a])
  {
    UnlinkUndoesPush(hdrs, b, Mark(Push(hdrs, b), b));
  }

  /** The header map free(p) leaves: p's flag cleared, then p pushed. */
  lemma FreeHdrs(h: Heap, p: nat)
    requires IsLivePtr(h, p)
    ensures Free(h, p).hdrs == Push(h.hdrs[p - HdrSize := h.hdrs[p - HdrSize].(size := ClearAllocated(h.hdrs[p - HdrSize].size))], p - HdrSize)
  {
  }

  /** The header map the hit path of malloc leaves: the block marked, then unlinked. */
  lemma TakeHdrs(h: Heap, j: nat)
    requires j < |h.free|
    ensures Take(h, j).hdrs == Unlink(Mark(h.hdrs, h.free[j]), h.free[j])
  {
  }

  /** On a first-fit hit at list position j, malloc takes that block. */
  lemma MallocHit(h: Heap, size: nat, sbrkOk: bool, j: nat)
    requires size > 0 && FirstFit(h, ReqSize(size)) == Some(j)
    ensures Malloc(h, size, sbrkOk) == Outcome(Take(h, j), Some(h.free[j] + HdrSize))
  {
  }

  /** On a first-fit miss, malloc grows the heap, or returns NULL when mm_sbrk fails. */
  lemma MallocMiss(h: Heap, size: nat, sbrkOk: bool)
    requires size > 0 && FirstFit(h, ReqSize(size)).None?
    ensures Malloc(h, size, sbrkOk)
            == if sbrkOk then Outcome(Extend(h, ReqSize(size)), Some(h.brk + HdrSize)) else Outcome(h, None)
  {
  }

  /**
   * free(p) followed at once by malloc of a size that fits p's block
   * returns p again: the block is the sentinel's successor, so first fit
   * meets it first, and malloc takes it straight back off the list.
   */
  lemma FreeThenMallocReuses(h: Heap, p: nat, size: nat, sbrkOk: bool)
    requires IsLivePtr(h, p)
    requires size > 0 && ReqSize(size) <= RawSize(h.hdrs[p - HdrSize].size)
    ensures Malloc(Free(h, p), size, sbrkOk) == Outcome(Take(Free(h, p), 1), Some(p))
  {
    FreedIsFirstFit(h, p, ReqSize(size));
    MallocHit(Free(h, p), size, sbrkOk, 1);
  }

  /**
   * After free(p) and a malloc that reuses p, the heap is as before the
   * free: the list, the break, the bytes and every header come back, but
   * for the freed block's own stale links.
   */
  lemma FreeThenMallocRestores(h: Heap, p: nat, size: nat, sbrkOk: bool)
    requires Linked(h.hdrs, h.free) && FlagsAgree(h.hdrs, h.free)
    requires IsLivePtr(h, p)
    requires size > 0 && ReqSize(size) <= RawSize(h.hdrs[p - HdrSize].size)
    ensures var r := Malloc(Free(h, p), size, sbrkOk);
            && r.ptr == Some(p)
            && r.heap.free == h.free && r.heap.brk == h.brk && r.heap.mem == h.mem
            && r.heap.hdrs.Keys == h.hdrs.Keys
            && r.heap.hdrs[p - HdrSize].size == h.hdrs[p - HdrSize].size
            && (forall a :: a in h.hdrs && a != p - HdrSize ==> r.heap.hdrs[a] == h.hdrs[a])
  {
    FreeThenMallocReuses(h, p, size, sbrkOk);
    TakeUndoesFreeList(h, p);
    TakeUndoesFreeHeaders(h, p);
  }

  /** malloc(S), then free of the result, then malloc(S) again returns the same address. */
  lemma MallocFreeMalloc(h: Heap, size: nat, ok1: bool, ok2: bool)
    requires Valid(h)
    ensures var r := Malloc(h, size, ok1);
            r.ptr.Some? ==> Malloc(Free(r.heap, r.ptr.value), size, ok2).ptr == r.ptr
  {
    var r := Malloc(h, size, ok1);
    MallocValid(h, size, ok1);
    if r.ptr.Some? {
      FreeThenMallocReuses(r.heap, r.ptr.value, size, ok2);
    }
  }

  /**
   * The quirk in realloc is harmless: it reads the old header's size after
   * malloc, which has set bit 0 again when it reused the same block, yet the
   * count is always min(old raw size - header, request).
   */
  lemma CopySizeIsOldPayload(h: Heap, p: nat, size: nat, sbrkOk: bool)
    requires Valid(h)
    requires IsLivePtr(h, p)
    requires size > 0
    ensures CopySize(Malloc(Free(h, p), size, sbrkOk).heap, p - HdrSize, size)
            == Min(RawSize(h.hdrs[p - HdrSize].size) - HdrSize, size)
  {
    LivePayloadInHeap(h, p);
    CopySizeAfterFree(h, p, size, sbrkOk);
  }

  /** CopySizeIsOldPayload for a live block below the break. */
  lemma CopySizeAfterFree(h: Heap, p: nat, size: nat, sbrkOk: bool)
    requires IsLivePtr(h, p) && p - HdrSize < h.brk
    requires RawSize(h.hdrs[p - HdrSize].size) >= HdrSize
    ensures CopySize(Malloc(Free(h, p), size, sbrkOk).heap, p - HdrSize, size)
            == Min(RawSize(h.hdrs[p - HdrSize].size) - HdrSize, size)
  {
    var b := p - HdrSize;
    var f := Free(h, p);
    var m := Malloc(f, size, sbrkOk);
    assert f.hdrs[b].size == RawSize(h.hdrs[b].size);
    MallocKeepsBlocks(f, size, sbrkOk, b);
    if m.ptr == Some(p) {
      assert RawSize(m.heap.hdrs[b].size) >= size + HdrSize;
    }
  }

  /**
   * realloc(p, size) that succeeds places the first
   * min(old payload, size) bytes of p's payload at the result, and leaves
   * every other byte as it was.
   */
  lemma ReallocCopiesPrefix(h: Heap, p: nat, size: nat, sbrkOk: bool)
    requires Valid(h)
    requires IsLivePtr(h, p)
    requires size > 0
    ensures var r := Realloc(h, Some(p), size, sbrkOk);
            var n := Min(RawSize(h.hdrs[p - HdrSize].size) - HdrSize, size);
            r.ptr.Some? ==>
              && (forall a: nat :: r.ptr.value <= a < r.ptr.value + n ==> Load(r.heap.mem, a) == Load(h.mem, p + (a - r.ptr.value)))
              && (forall a: nat :: !(r.ptr.value <= a < r.ptr.value + n) ==> Load(r.heap.mem, a) == Load(h.mem, a))
  {
    CopySizeIsOldPayload(h, p, size, sbrkOk);
  }

  /**
   * When the request still fits the old block, realloc hands back the same
   * pointer: the block it just freed is the first fit. The copy is then
   * onto itself, so no byte changes, and the list is as before.
   */
  lemma ReallocInPlace(h: Heap, p: nat, size: nat, sbrkOk: bool)
    requires Valid(h)
    requires IsLivePtr(h, p)
    requires size > 0 && ReqSize(size) <= RawSize(h.hdrs[p - HdrSize].size)
    ensures var r := Realloc(h, Some(p), size, sbrkOk);
            r.ptr == Some(p) && r.heap.mem == h.mem && r.heap.free == h.free && r.heap.brk == h.brk
  {
    FreeThenMallocRestores(h, p, size, sbrkOk);
    CopyOntoItself(h.mem, p, CopySize(Malloc(Free(h, p), size, sbrkOk).heap, p - HdrSize, size));
  }

  /** With no free block besides the sentinel, malloc grows the heap by one block at the old break. */
  lemma MallocOnEmptyList(h: Heap, size: nat)
    requires |h.free| == 1 && size > 0
    ensures var r := Malloc(h, size, true);
            && r.ptr == Some(h.brk + HdrSize)
            && r.heap.brk == h.brk + ReqSize(size) && r.heap.free == h.free
            && IsLivePtr(r.heap, h.brk + HdrSize) && RawSize(r.heap.hdrs[h.brk].size) == ReqSize(size)
  {
  }

  /**
   * The first two steps of the worked scenario, from any heap with no free
   * block (as mm_init leaves it): malloc(100) = A and malloc(200) = B both
   * extend the heap, in address order.
   */
  lemma GrowTwice(h0: Heap)
    requires |h0.free| == 1
    ensures var a := Malloc(h0, 100, true);
            var b := Malloc(a.heap, 200, true);
            && a.ptr == Some(h0.brk + 32) && b.ptr == Some(h0.brk + 176)
            && a.ptr.value + 100 <= b.ptr.value
  {
    ScenarioSizes();
    MallocOnEmptyList(h0, 100);
    MallocOnEmptyList(Malloc(h0, 100, true).heap, 200);
  }

  /** The request sizes of the scenario, header included and aligned. */
  lemma ScenarioSizes()
    ensures ReqSize(100) == 144 && ReqSize(200) == 240 && ReqSize(50) == 96 && ReqSize(9999) == 10032
  {
  }

  /** From the state mm_init leaves, A and B are 64 and 208. */
  lemma ScenarioFromInit()
    ensures var a := Malloc(Init(true).heap.value, 100, true);
            a.ptr == Some(64) && Malloc(a.heap, 200, true).ptr == Some(208)
  {
    GrowTwice(Init(true).heap.value);
  }

  /**
   * calloc as written: with nmemb = 2^63 + 1 and size = 2 the product wraps
   * to 2, and on a heap with no free block calloc returns a 48-byte block
   * whose payload holds 16 bytes, for a request of 2^64 + 2 bytes.
   */
  lemma CallocProductWraps(h: Heap)
    requires |h.free| == 1
    ensures var r := Calloc(h, 0x8000_0000_0000_0001, 2, true);
            && r.ptr == Some(h.brk + HdrSize)
            && RawSize(r.heap.hdrs[h.brk].size) == 48
            && !Serves(r.heap, h.brk + HdrSize, 0x8000_0000_0000_0001 * 2)
  {
    assert CallocBytes(0x8000_0000_0000_0001, 2) == 2;
    assert ReqSize(2) == 48;
    MallocOnEmptyList(h, 2);
  }

  /**
   * calloc with the overflow check: a non-NULL result has room for all
   * nmemb * size bytes and they read as zero; an overflowing product gives
   * NULL and leaves the heap alone.
   */
  lemma CheckedCallocServes(h: Heap, nmemb: nat, size: nat, sbrkOk: bool)
    ensures var r := CheckedCalloc(h, nmemb, size, sbrkOk);
            && (nmemb * size >= SizeTModulus ==> r == Outcome(h, None))
            && (r.ptr.Some? ==> Serves(r.heap, r.ptr.value, nmemb * size))
            && (r.ptr.Some? ==> forall a: nat :: r.ptr.value <= a < r.ptr.value + nmemb * size ==> Load(r.heap.mem, a) == Some(0))
  {
    if nmemb * size < SizeTModulus {
      var m := Malloc(h, nmemb * size, sbrkOk);
      assert CheckedCalloc(h, nmemb, size, sbrkOk) == MallocZeroed(h, nmemb * size, sbrkOk);
    }
  }
}
