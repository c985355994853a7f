/**
 * Every operation keeps the heap invariant that mm_checkheap would check,
 * and leaves the break where it was or above it.
 */
module Preservation {
  import opened Wrappers
  import opened Sizes
  import opened Heap
  import opened FreeList
  import opened Bytes
  import opened Allocator

  /** A header map that agrees with another on every key and every raw size keeps its tiling. */
  lemma TiledSameRaw(h1: map<nat, Header>, h2: map<nat, Header>, brk: nat)
    requires Tiled(h1, brk)
    requires h2.Keys == h1.Keys
    requires forall a :: a in h1 ==> RawSize(h2[a].size) == RawSize(h1[a].size)
    ensures Tiled(h2, brk)
  {
    forall a | a in h2 && End(h2, a) < brk
      ensures End(h2, a) in h2
    {
      assert End(h2, a) == End(h1, a);
    }
  }

  /** Marking and unlinking the member at position j leaves exactly the list without it. */
  lemma TakeLinked(h: Heap, j: nat)
    requires Linked(h.hdrs, h.free)
    requires 1 <= j < |h.free|
    ensures CanUnlink(h.hdrs, h.free[j])
    ensures Linked(Take(h, j).hdrs, Take(h, j).free)
  {
    var b := h.free[j];
    var marked := Mark(h.hdrs, b);
    assert Linked(marked, h.free) by {
      forall i | 0 <= i < |h.free| ensures h.free[i] in marked { }
    }
    UnlinkLinked(marked, h.free, j);
    LinkedAt(h.hdrs, h.free, j);
  }

  /** After the take, the listed blocks are still exactly the blocks with bit 0 clear. */
  lemma TakeFlags(h: Heap, j: nat)
    requires FlagsAgree(h.hdrs, h.free) && Distinct(h.free)
    requires 1 <= j < |h.free| && CanUnlink(h.hdrs, h.free[j])
    ensures FlagsAgree(Take(h, j).hdrs, Take(h, j).free)
  {
    var t := Take(h, j);
    forall a | a in t.hdrs
      ensures a in t.free <==> !IsAllocated(t.hdrs[a].size)
    {
      RemoveAtMembers(h.free, j, a);
    }
  }

  /** Marking the block at list position j allocated and unlinking it keeps the heap valid. */
  lemma TakeValid(h: Heap, j: nat)
    requires Valid(h)
    requires 1 <= j < |h.free|
    ensures CanUnlink(h.hdrs, h.free[j])
    ensures Valid(Take(h, j))
  {
    TakeLinked(h, j);
    TakeFlags(h, j);
    TiledSameRaw(h.hdrs, Take(h, j).hdrs, h.brk);
  }

  /** The block appended at the break is aligned, and so are all the others. */
  lemma ExtendBounds(hdrs: map<nat, Header>, brk: nat, req: nat)
    requires Tiled(hdrs, brk)
    requires req % Alignment == 0 && req > HdrSize
    ensures var hs := hdrs[brk := Header(SetAllocated(req), Sentinel, Sentinel)];
            forall a :: a in hs ==>
              && a % Alignment == 0
              && RawSize(hs[a].size) % Alignment == 0
              && RawSize(hs[a].size) >= HdrSize
              && a + RawSize(hs[a].size) <= brk + req
  {
    var hs := hdrs[brk := Header(SetAllocated(req), Sentinel, Sentinel)];
    AlignedSizeIsRaw(req);
    forall a | a in hs
      ensures && a % Alignment == 0
              && RawSize(hs[a].size) % Alignment == 0
              && RawSize(hs[a].size) >= HdrSize
              && a + RawSize(hs[a].size) <= brk + req
    {
      if a != brk {
        assert hs[a] == hdrs[a];
      }
    }
  }

  /** After the append, every block that ends before the new break is followed by one. */
  lemma ExtendContiguous(hdrs: map<nat, Header>, brk: nat, req: nat)
    requires Tiled(hdrs, brk)
    requires req % Alignment == 0 && req > HdrSize
    ensures var hs := hdrs[brk := Header(SetAllocated(req), Sentinel, Sentinel)];
            forall a {:trigger End(hs, a)} :: a in hs && End(hs, a) < brk + req ==> End(hs, a) in hs
  {
    var hs := hdrs[brk := Header(SetAllocated(req), Sentinel, Sentinel)];
    AlignedSizeIsRaw(req);
    forall a | a in hs && End(hs, a) < brk + req
      ensures End(hs, a) in hs
    {
      if a != brk {
        assert End(hs, a) == End(hdrs, a);
      }
    }
  }

  /** The block appended at the break overlaps no other block. */
  lemma ExtendDisjoint(hdrs: map<nat, Header>, brk: nat, req: nat)
    requires Tiled(hdrs, brk)
    requires req % Alignment == 0 && req > HdrSize
    ensures var hs := hdrs[brk := Header(SetAllocated(req), Sentinel, Sentinel)];
            forall a, c :: a in hs && c in hs && Below(a, c) ==> a + RawSize(hs[a].size) <= c
  {
    var hs := hdrs[brk := Header(SetAllocated(req), Sentinel, Sentinel)];
    assert brk !in hdrs;
    forall a, c | a in hs && c in hs && Below(a, c)
      ensures a + RawSize(hs[a].size) <= c
    {
      if c == brk {
        assert hs[a] == hdrs[a];
      } else {
        assert a != brk && hs[a] == hdrs[a];
      }
    }
  }

  /** A block appended at the break keeps the tiling. */
  lemma ExtendTiled(hdrs: map<nat, Header>, brk: nat, req: nat)
    requires Tiled(hdrs, brk)
    requires req % Alignment == 0 && req > HdrSize
    ensures Tiled(hdrs[brk := Header(SetAllocated(req), Sentinel, Sentinel)], brk + req)
  {
    ExtendBounds(hdrs, brk, req);
    ExtendContiguous(hdrs, brk, req);
    ExtendDisjoint(hdrs, brk, req);
  }

  /** A fresh allocated block of req bytes at the old break keeps the heap valid. */
  lemma ExtendValid(h: Heap, req: nat)
    requires Valid(h)
    requires req % Alignment == 0 && req > HdrSize
    ensures h.brk !in h.hdrs
    ensures Valid(Extend(h, req))
  {
    var b := h.brk;
    var hs := h.hdrs[b := Header(SetAllocated(req), Sentinel, Sentinel)];
    assert b !in h.hdrs;
    assert Linked(hs, h.free) by {
      forall i | 0 <= i < |h.free| ensures h.free[i] in h.hdrs && h.free[i] != b { }
    }
    ExtendTiled(h.hdrs, h.brk, req);
    assert b !in h.free;
    AlignedSizeIsRaw(req);
    assert Extend(h, req) == h.(hdrs := hs, brk := h.brk + req);
  }

  /** Clearing the flag of a live block and pushing it keeps the heap valid. */
  lemma FreeValid(h: Heap, p: nat)
    requires Valid(h)
    requires IsLivePtr(h, p)
    ensures CanPush(h.hdrs, p - HdrSize)
    ensures Valid(Free(h, p))
  {
    var b := p - HdrSize;
    var cleared := h.hdrs[b := h.hdrs[b].(size := ClearAllocated(h.hdrs[b].size))];
    assert b !in h.free;
    assert Linked(cleared, h.free) by {
      forall i | 0 <= i < |h.free| ensures h.free[i] in cleared { }
    }
    PushLinked(cleared, h.free, b);
    var hs := Push(cleared, b);
    var f := PushFront(h.free, b);
    TiledSameRaw(h.hdrs, hs, h.brk);
    forall a | a in hs
      ensures a in f <==> !IsAllocated(hs[a].size)
    {
      if a != b && a != Sentinel {
        assert a in f <==> a in h.free[1..];
        assert a in h.free <==> a in h.free[1..];
      }
    }
    assert Free(h, p) == h.(hdrs := hs, free := f);
  }

  /** malloc keeps the heap valid. */
  lemma MallocValid(h: Heap, size: nat, sbrkOk: bool)
    requires Valid(h)
    ensures Valid(Malloc(h, size, sbrkOk).heap)
  {
    if size > 0 {
      match FirstFit(h, ReqSize(size))
      case Some(j) => TakeValid(h, j);
      case None =>
        if sbrkOk {
          ExtendValid(h, ReqSize(size));
        }
    }
  }

  /** The payload of a block that has room for size bytes lies below the break. */
  lemma PayloadBelowBreak(h: Heap, p: nat, size: nat)
    requires Tiled(h.hdrs, h.brk)
    requires p >= HdrSize && p - HdrSize in h.hdrs && RawSize(h.hdrs[p - HdrSize].size) >= ReqSize(size)
    ensures p + size <= h.brk
  {
  }

  /**
   * An outcome that either reuses a block that already had room for req
   * bytes, or appends req bytes at the old break, leaves its payload below
   * the new break.
   */
  lemma OutcomeFits(h: Heap, r: Outcome, size: nat)
    requires Tiled(h.hdrs, h.brk)
    requires r.ptr.Some? && r.heap.brk == h.brk ==>
               r.ptr.value >= HdrSize && r.ptr.value - HdrSize in h.hdrs
               && h.hdrs[r.ptr.value - HdrSize].size >= ReqSize(size)
    requires r.heap.brk != h.brk ==> r.ptr == Some(h.brk + HdrSize) && r.heap.brk == h.brk + ReqSize(size)
    ensures r.ptr.Some? ==> r.ptr.value + size <= r.heap.brk
  {
    if r.ptr.Some? && r.heap.brk == h.brk {
      RawSizeAtLeast(h.hdrs[r.ptr.value - HdrSize].size, ReqSize(size));
      PayloadBelowBreak(h, r.ptr.value, size);
    }
  }

  /** A payload malloc hands out on a tiled heap lies below the new break. */
  lemma MallocFits(h: Heap, size: nat, sbrkOk: bool)
    requires Tiled(h.hdrs, h.brk)
    ensures Malloc(h, size, sbrkOk).ptr.Some? ==> Malloc(h, size, sbrkOk).ptr.value + size <= Malloc(h, size, sbrkOk).heap.brk
  {
    OutcomeFits(h, Malloc(h, size, sbrkOk), size);
  }

  /** memcpy into payload bytes below the break keeps the heap valid. */
  lemma CopyValid(h: Heap, dst: nat, src: nat, n: nat)
    requires Valid(h)
    requires dst + n <= h.brk
    ensures Valid(h.(mem := Copy(h.mem, dst, src, n)))
  {
  }

  /** memset of payload bytes below the break keeps the heap valid. */
  lemma FillValid(h: Heap, dst: nat, n: nat, v: bv8)
    requires Valid(h)
    requires dst + n <= h.brk
    ensures Valid(h.(mem := Fill(h.mem, dst, n, v)))
  {
  }

  /** The tail of realloc keeps the heap valid. */
  lemma MallocCopyValid(f: Heap, oldp: nat, size: nat, sbrkOk: bool)
    requires Valid(f)
    requires oldp >= HdrSize
    ensures Valid(MallocCopy(f, oldp, size, sbrkOk).heap)
  {
    var m := Malloc(f, size, sbrkOk);
    MallocValid(f, size, sbrkOk);
    MallocFits(f, size, sbrkOk);
    if m.ptr.Some? {
      CopyValid(m.heap, m.ptr.value, oldp, CopySize(m.heap, oldp - HdrSize, size));
    }
  }

  /** realloc keeps the heap valid. */
  lemma ReallocValid(h: Heap, oldp: Option<nat>, size: nat, sbrkOk: bool)
    requires Valid(h)
    requires oldp.Some? ==> IsLivePtr(h, oldp.value)
    ensures Valid(Realloc(h, oldp, size, sbrkOk).heap)
  {
    match oldp
    case None => MallocValid(h, size, sbrkOk);
    case Some(p) =>
      FreeValid(h, p);
      if size > 0 {
        MallocCopyValid(Free(h, p), p, size, sbrkOk);
      }
  }

  /** malloc followed by zeroing the payload keeps the heap valid. */
  lemma MallocZeroedValid(h: Heap, n: nat, sbrkOk: bool)
    requires Valid(h)
    ensures Valid(MallocZeroed(h, n, sbrkOk).heap)
  {
    var m := Malloc(h, n, sbrkOk);
    MallocValid(h, n, sbrkOk);
    MallocFits(h, n, sbrkOk);
    if m.ptr.Some? {
      FillValid(m.heap, m.ptr.value, n, 0);
    }
  }

  /** calloc keeps the heap valid. */
  lemma CallocValid(h: Heap, nmemb: nat, size: nat, sbrkOk: bool)
    requires Valid(h)
    ensures Valid(Calloc(h, nmemb, size, sbrkOk).heap)
  {
    MallocZeroedValid(h, CallocBytes(nmemb, size), sbrkOk);
  }
}
