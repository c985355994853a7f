/**
 * The public operations of the allocator, as transitions of the heap
 * state: mm_init, malloc, free, realloc and calloc. Whether mm_sbrk can
 * grow the backing region is the parameter `sbrkOk`; every operation calls
 * it at most once.
 *
 * The operations are defined on every heap, as the C code runs on whatever
 * memory it is given, except that Free and Realloc require a live pointer;
 * that they keep the heap invariant is proved separately, in module
 * Preservation.
 */
module Allocator {
  import opened Wrappers
  import opened Sizes
  import opened Heap
  import opened FreeList
  import opened Bytes

  /** The state after a call and the pointer it returned (None is NULL). */
  datatype Outcome = Outcome(heap: Heap, ptr: Option<nat>)

  /** mm_init's result, and the state it leaves when that state is defined. */
  datatype InitOutcome = InitOutcome(ok: bool, heap: Option<Heap>)

  /**
   * mm_init: take one header from mm_sbrk and make it the sentinel, linked
   * to itself. The result is true even when mm_sbrk fails; the state is
   * then undefined, because the header is written through the failure
   * marker.
   */
  function Init(sbrkOk: bool): (r: InitOutcome)
    ensures r.ok
    ensures r.heap.Some? <==> sbrkOk
    ensures r.heap.Some? ==> Valid(r.heap.value)
    ensures r.heap.Some? ==> r.heap.value.brk == HdrSize && r.heap.value.hdrs.Keys == {Sentinel}
    ensures r.heap.Some? ==> r.heap.value.free == [Sentinel]
    ensures r.heap.Some? ==> r.heap.value.hdrs[Sentinel] == Header(HdrSize, Sentinel, Sentinel)
  {
    if sbrkOk then
      InitOutcome(true, Some(Heap(map[Sentinel := Header(HdrSize, Sentinel, Sentinel)], HdrSize, map[], [Sentinel])))
    else
      InitOutcome(true, None)
  }

  /** The total block size malloc asks for: payload plus header, aligned. */
  function ReqSize(size: nat): (r: nat)
    ensures r % Alignment == 0 && size + HdrSize <= r < size + HdrSize + Alignment
    ensures size > 0 ==> r > HdrSize
  {
    Align(size + HdrSize)
  }

  /** `size |= 1` on the header of b. */
  function Mark(hdrs: map<nat, Header>, b: nat): (r: map<nat, Header>)
    ensures b in r && IsAllocated(r[b].size) && RawSize(r[b].size) == RawSize(Hdr(hdrs, b).size)
    ensures r[b].next == Hdr(hdrs, b).next && r[b].prev == Hdr(hdrs, b).prev
    ensures r.Keys == hdrs.Keys + {b}
    ensures forall a :: a in hdrs && a != b ==> r[a] == hdrs[a]
  {
    hdrs[b := Hdr(hdrs, b).(size := SetAllocated(Hdr(hdrs, b).size))]
  }

  /**
   * The hit path of malloc on the block at list position j:
   * `b->size |= 1`, then unlink b. The block keeps its raw size (it is not
   * split) and leaves the list; the rest of the list keeps its order.
   */
  function Take(h: Heap, j: nat): (r: Heap)
    requires j < |h.free|
    ensures r.brk == h.brk && r.mem == h.mem && r.free == RemoveAt(h.free, j)
    ensures h.free[j] in r.hdrs && IsAllocated(r.hdrs[h.free[j]].size)
    ensures RawSize(r.hdrs[h.free[j]].size) == RawSize(Hdr(h.hdrs, h.free[j]).size)
    ensures forall a :: a in h.hdrs && a != h.free[j] ==> a in r.hdrs && r.hdrs[a].size == h.hdrs[a].size
    ensures CanUnlink(h.hdrs, h.free[j]) ==> r.hdrs.Keys == h.hdrs.Keys
  {
    var b := h.free[j];
    assert CanUnlink(h.hdrs, b) ==> CanUnlink(Mark(h.hdrs, b), b);
    h.(hdrs := Unlink(Mark(h.hdrs, b), b), free := RemoveAt(h.free, j))
  }

  /**
   * The miss path of malloc after mm_sbrk(req) succeeded: a new block at
   * the old break whose size field is `req | 1`. The list is untouched.
   * The source leaves the new header's links uninitialised; here they
   * point at the sentinel and are never read while the block is allocated.
   */
  function Extend(h: Heap, req: nat): (r: Heap)
    requires req % Alignment == 0
    ensures r.brk == h.brk + req && r.mem == h.mem && r.free == h.free
    ensures r.hdrs.Keys == h.hdrs.Keys + {h.brk}
    ensures IsAllocated(r.hdrs[h.brk].size) && RawSize(r.hdrs[h.brk].size) == req
    ensures forall a :: a in h.hdrs && a != h.brk ==> r.hdrs[a] == h.hdrs[a]
  {
    AlignedSizeIsRaw(req);
    h.(hdrs := h.hdrs[h.brk := Header(SetAllocated(req), Sentinel, Sentinel)], brk := h.brk + req)
  }

  /** A block whose size field is at least an even req keeps room for req once marked. */
  lemma RawSizeAtLeast(size: nat, req: nat)
    requires size >= req && req % 2 == 0
    ensures RawSize(size) >= req
  {
  }

  /**
   * malloc(size): NULL for size 0; otherwise a first-fit hit is marked
   * allocated and unlinked without being split, and a miss grows the heap
   * by exactly the aligned request. A non-NULL result is a live payload
   * whose block has room for the aligned request; a NULL result leaves
   * the heap as it was.
   */
  function Malloc(h: Heap, size: nat, sbrkOk: bool): (r: Outcome)
    ensures r.ptr.Some? ==> IsLivePtr(r.heap, r.ptr.value)
    ensures r.ptr.Some? ==> RawSize(r.heap.hdrs[r.ptr.value - HdrSize].size) >= ReqSize(size)
    ensures r.ptr.None? ==> r.heap == h
    ensures r.ptr.None? <==> size == 0 || (FirstFit(h, ReqSize(size)).None? && !sbrkOk)
    ensures r.ptr.Some? && r.heap.brk == h.brk ==> r.ptr.value - HdrSize in AfterHead(h.free)
    ensures r.ptr.Some? && r.heap.brk == h.brk ==>
              r.ptr.value - HdrSize in h.hdrs && h.hdrs[r.ptr.value - HdrSize].size >= ReqSize(size)
    ensures r.heap.brk != h.brk ==> r.ptr == Some(h.brk + HdrSize) && r.heap.brk == h.brk + ReqSize(size)
    ensures r.heap.brk >= h.brk && r.heap.mem == h.mem
  {
    if size == 0 then
      Outcome(h, None)
    else
      match FirstFit(h, ReqSize(size))
      case Some(j) =>
        RawSizeAtLeast(Hdr(h.hdrs, h.free[j]).size, ReqSize(size));
        assert h.free[j] in AfterHead(h.free);
        Outcome(Take(h, j), Some(h.free[j] + HdrSize))
      case None =>
        if sbrkOk then Outcome(Extend(h, ReqSize(size)), Some(h.brk + HdrSize))
        else Outcome(h, None)
  }

  /**
   * malloc neither splits nor coalesces: every block below the old break
   * keeps its raw size, and every block but the one handed out keeps its
   * whole size field.
   */
  lemma MallocKeepsBlocks(h: Heap, size: nat, sbrkOk: bool, a: nat)
    requires a in h.hdrs && a < h.brk
    ensures a in Malloc(h, size, sbrkOk).heap.hdrs
    ensures RawSize(Malloc(h, size, sbrkOk).heap.hdrs[a].size) == RawSize(h.hdrs[a].size)
    ensures Malloc(h, size, sbrkOk).ptr != Some(a + HdrSize) ==> Malloc(h, size, sbrkOk).heap.hdrs[a].size == h.hdrs[a].size
  {
    if size > 0 {
      match FirstFit(h, ReqSize(size))
      case Some(j) =>
        assert Hdr(h.hdrs, h.free[j]) == h.hdrs[h.free[j]] by {
          if h.free[j] != a { }
        }
      case None =>
    }
  }

  /**
   * free(p): clear the flag of the header just before p and push the block
   * right after the sentinel. Nothing else changes size.
   */
  function Free(h: Heap, p: nat): (r: Heap)
    requires IsLivePtr(h, p)
    ensures r.brk == h.brk && r.mem == h.mem && r.free == PushFront(h.free, p - HdrSize)
    ensures p - HdrSize in r.hdrs && r.hdrs[p - HdrSize].size == ClearAllocated(h.hdrs[p - HdrSize].size)
    ensures forall a :: a in h.hdrs && a != p - HdrSize ==> a in r.hdrs && r.hdrs[a].size == h.hdrs[a].size
    ensures CanPush(h.hdrs, p - HdrSize) ==> r.hdrs.Keys == h.hdrs.Keys && r.hdrs[Sentinel].next == p - HdrSize
  {
    var b := p - HdrSize;
    var cleared := h.hdrs[b := h.hdrs[b].(size := ClearAllocated(h.hdrs[b].size))];
    assert CanPush(h.hdrs, b) ==> CanPush(cleared, b);
    h.(hdrs := Push(cleared, b), free := PushFront(h.free, b))
  }

  /**
   * The number of bytes realloc copies: the old header's `size` field, read
   * after the inner malloc, less the header, clamped to the request. The
   * subtraction is on size_t; were the field below the header size it would
   * wrap to a huge count, and the clamp would then give the request.
   */
  function CopySize(h: Heap, b: nat, size: nat): (n: nat)
    ensures n <= size
    ensures Hdr(h.hdrs, b).size >= HdrSize ==> n == Min(Hdr(h.hdrs, b).size - HdrSize, size)
  {
    if Hdr(h.hdrs, b).size >= HdrSize then Min(Hdr(h.hdrs, b).size - HdrSize, size) else size
  }

  /**
   * The tail of realloc once the old block is freed: malloc(size) and, on
   * success, copy CopySize bytes from the old payload oldp. The copy count is
   * read from the old header in the state after the malloc.
   */
  function MallocCopy(f: Heap, oldp: nat, size: nat, sbrkOk: bool): (r: Outcome)
    requires oldp >= HdrSize
    ensures r.ptr == Malloc(f, size, sbrkOk).ptr
    ensures r.heap == Malloc(f, size, sbrkOk).heap.(mem := r.heap.mem)
    ensures r.ptr.None? ==> r.heap == f
    ensures r.ptr.Some? ==>
              r.heap.mem == Copy(f.mem, r.ptr.value, oldp, CopySize(Malloc(f, size, sbrkOk).heap, oldp - HdrSize, size))
  {
    var m := Malloc(f, size, sbrkOk);
    if m.ptr.None? then m
    else Outcome(m.heap.(mem := Copy(m.heap.mem, m.ptr.value, oldp, CopySize(m.heap, oldp - HdrSize, size))), m.ptr)
  }

  /**
   * realloc(oldp, size): malloc for NULL, free for size 0, and otherwise
   * free first, then malloc, then copy. When the inner malloc fails the
   * old block has already gone back to the free list.
   */
  function Realloc(h: Heap, oldp: Option<nat>, size: nat, sbrkOk: bool): (r: Outcome)
    requires oldp.Some? ==> IsLivePtr(h, oldp.value)
    ensures oldp.None? ==> r == Malloc(h, size, sbrkOk)
    ensures oldp.Some? && size == 0 ==> r == Outcome(Free(h, oldp.value), None)
    ensures oldp.Some? && size > 0 ==> r == MallocCopy(Free(h, oldp.value), oldp.value, size, sbrkOk)
    ensures oldp.Some? && r.ptr.None? ==> r.heap == Free(h, oldp.value)
  {
    match oldp
    case None => Malloc(h, size, sbrkOk)
    case Some(p) =>
      if size == 0 then Outcome(Free(h, p), None)
      else MallocCopy(Free(h, p), p, size, sbrkOk)
  }

  /** size_t holds values below 2^64 on the LP64 targets the source assumes. */
  const SizeTModulus: nat := 0x1_0000_0000_0000_0000

  /** `size *= nmemb` on size_t: the product wraps modulo 2^64. */
  function CallocBytes(nmemb: nat, size: nat): (r: nat)
    ensures r < SizeTModulus
    ensures nmemb * size == (nmemb * size) / SizeTModulus * SizeTModulus + r
    ensures nmemb * size < SizeTModulus ==> r == nmemb * size
  {
    (nmemb * size) % SizeTModulus
  }

  /** malloc(n) followed, on success, by memset(ptr, 0, n): the body of calloc. */
  function MallocZeroed(h: Heap, n: nat, sbrkOk: bool): (r: Outcome)
    ensures r.ptr == Malloc(h, n, sbrkOk).ptr
    ensures r.heap == Malloc(h, n, sbrkOk).heap.(mem := r.heap.mem)
    ensures r.ptr.None? ==> r.heap == h
    ensures r.ptr.Some? ==> forall a: nat :: r.ptr.value <= a < r.ptr.value + n ==> Load(r.heap.mem, a) == Some(0)
    ensures r.ptr.Some? ==> forall a: nat :: !(r.ptr.value <= a < r.ptr.value + n) ==> Load(r.heap.mem, a) == Load(h.mem, a)
  {
    var m := Malloc(h, n, sbrkOk);
    if m.ptr.None? then m
    else Outcome(m.heap.(mem := Fill(m.heap.mem, m.ptr.value, n, 0)), m.ptr)
  }

  /**
   * calloc(nmemb, size): malloc of the wrapped product, then zero that many
   * bytes. The pointer is the one malloc would give for the wrapped
   * product, and only those bytes are known to be zero.
   */
  function Calloc(h: Heap, nmemb: nat, size: nat, sbrkOk: bool): (r: Outcome)
    ensures r.ptr == Malloc(h, CallocBytes(nmemb, size), sbrkOk).ptr
    ensures r.heap == Malloc(h, CallocBytes(nmemb, size), sbrkOk).heap.(mem := r.heap.mem)
    ensures r.ptr.None? ==> r.heap == h
    ensures r.ptr.Some? ==> forall a: nat :: r.ptr.value <= a < r.ptr.value + CallocBytes(nmemb, size) ==> Load(r.heap.mem, a) == Some(0)
    ensures r.ptr.Some? ==> forall a: nat :: !(r.ptr.value <= a < r.ptr.value + CallocBytes(nmemb, size)) ==> Load(r.heap.mem, a) == Load(h.mem, a)
  {
    MallocZeroed(h, CallocBytes(nmemb, size), sbrkOk)
  }

  /**
   * calloc with the overflow check: NULL when nmemb * size does not fit in
   * size_t, and otherwise calloc itself.
   */
  function CheckedCalloc(h: Heap, nmemb: nat, size: nat, sbrkOk: bool): (r: Outcome)
    ensures nmemb * size < SizeTModulus ==> r == Calloc(h, nmemb, size, sbrkOk)
  {
    if nmemb * size >= SizeTModulus then Outcome(h, None)
    else MallocZeroed(h, nmemb * size, sbrkOk)
  }
}
