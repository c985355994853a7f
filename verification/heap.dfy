/**
 * The allocator's state. Addresses are offsets from mm_heap_lo(), so the
 * sentinel header lives at offset 0, and `brk` is the current break
 * (mm_heap_hi() + 1) as an offset.
 */
module Heap {
  import opened Wrappers
  import opened Sizes

  /** struct header: the packed size and the two free-list links. */
  datatype Header = Header(size: nat, next: nat, prev: nat)

  /**
   * hdrs:  the header at the start of every block, keyed by its address;
   * brk:   the break of the backing region;
   * mem:   payload bytes known so far (an absent address holds an
   *        indeterminate byte);
   * free:  the free list read from the sentinel along `next` links;
   *        free[0] is the sentinel itself.
   */
  datatype Heap = Heap(hdrs: map<nat, Header>, brk: nat, mem: map<nat, bv8>, free: seq<nat>)

  /** The permanent list head at mm_heap_lo(). */
  const Sentinel: nat := 0

  /** Position after i on a circle of n positions. */
  function Succ(i: nat, n: nat): (r: nat)
    requires i < n
    ensures r < n
  {
    if i + 1 == n then 0 else i + 1
  }

  /** Position before i on a circle of n positions. */
  function Pred(i: nat, n: nat): (r: nat)
    requires i < n
    ensures r < n
  {
    if i == 0 then n - 1 else i - 1
  }

  /**
   * The header at a. Where no block starts, the C code would read stray
   * memory; the model reads an all-zero header there. Valid heaps never
   * take that branch on the paths the allocator follows.
   */
  function Hdr(hdrs: map<nat, Header>, a: nat): (r: Header)
    ensures a in hdrs ==> r == hdrs[a]
  {
    if a in hdrs then hdrs[a] else Header(0, 0, 0)
  }

  predicate Members(hdrs: map<nat, Header>, free: seq<nat>)
  {
    forall k :: 0 <= k < |free| ==> free[k] in hdrs
  }

  predicate Distinct(free: seq<nat>)
  {
    forall i, j :: 0 <= i < j < |free| ==> free[i] != free[j]
  }

  /**
   * The `next`/`prev` links of the members of `free` form exactly the
   * circular list free[0], free[1], ..., free[|free|-1], free[0], headed by
   * the sentinel.
   */
  predicate Linked(hdrs: map<nat, Header>, free: seq<nat>)
  {
    && |free| >= 1
    && free[0] == Sentinel
    && Members(hdrs, free)
    && Distinct(free)
    && (forall i, j :: 0 <= i < |free| && 0 <= j < |free| && j == Succ(i, |free|) ==>
          hdrs[free[i]].next == free[j] && hdrs[free[j]].prev == free[i])
  }

  /**
   * Block a starts before block c. Disjointness of blocks is stated over
   * this predicate so that it is only instantiated for pairs a proof names.
   */
  predicate Below(a: nat, c: nat)
  {
    a < c
  }

  /** Address one past the end of block a. */
  function End(hdrs: map<nat, Header>, a: nat): nat
    requires a in hdrs
  {
    a + RawSize(hdrs[a].size)
  }

  /**
   * The blocks tile [0, brk): every block is aligned, at least a header
   * long, ends inside the region and is followed by another block or by the
   * break, and no two blocks overlap.
   */
  predicate Tiled(hdrs: map<nat, Header>, brk: nat)
  {
    && Sentinel in hdrs
    && brk % Alignment == 0
    && (forall a :: a in hdrs ==>
          && a % Alignment == 0
          && RawSize(hdrs[a].size) % Alignment == 0
          && RawSize(hdrs[a].size) >= HdrSize
          && a + RawSize(hdrs[a].size) <= brk)
    && (forall a {:trigger End(hdrs, a)} :: a in hdrs && End(hdrs, a) < brk ==> End(hdrs, a) in hdrs)
    && (forall a, c {:trigger Below(a, c)} :: a in hdrs && c in hdrs && Below(a, c) ==> a + RawSize(hdrs[a].size) <= c)
  }

  /** Exactly the free-listed blocks have bit 0 of `size` clear. */
  predicate FlagsAgree(hdrs: map<nat, Header>, free: seq<nat>)
  {
    forall a :: a in hdrs ==> (a in free <==> !IsAllocated(hdrs[a].size))
  }

  /** The heap invariant that mm_checkheap would check. */
  predicate Valid(h: Heap)
  {
    && Linked(h.hdrs, h.free)
    && Tiled(h.hdrs, h.brk)
    && FlagsAgree(h.hdrs, h.free)
    && h.hdrs[Sentinel].size == HdrSize
    && (forall a :: a in h.hdrs && a != Sentinel ==> RawSize(h.hdrs[a].size) > HdrSize)
    && (forall a :: a in h.mem ==> a < h.brk)
  }

  /** in_heap(p): mm_heap_lo() <= p <= mm_heap_hi(). */
  predicate InHeap(h: Heap, p: int)
  {
    0 <= p <= h.brk - 1
  }

  /** p was returned by malloc and has not been freed since. */
  predicate IsLivePtr(h: Heap, p: nat)
  {
    && p >= HdrSize
    && p - HdrSize in h.hdrs
    && IsAllocated(h.hdrs[p - HdrSize].size)
  }

  /** p is a live payload pointer whose block has room for size payload bytes. */
  predicate Serves(h: Heap, p: nat, size: nat)
  {
    IsLivePtr(h, p) && RawSize(h.hdrs[p - HdrSize].size) >= size + HdrSize
  }

  /** The byte at address a, or None if it is indeterminate. */
  function Load(mem: map<nat, bv8>, a: nat): Option<bv8>
  {
    if a in mem then Some(mem[a]) else None
  }

  /** Both links of every list member point back at it. */
  lemma LinkedIsReciprocal(hdrs: map<nat, Header>, free: seq<nat>, b: nat)
    requires Linked(hdrs, free)
    requires b in free
    ensures hdrs[b].next in hdrs && hdrs[hdrs[b].next].prev == b
    ensures hdrs[b].prev in hdrs && hdrs[hdrs[b].prev].next == b
  {
    var n := |free|;
    var i :| 0 <= i < n && free[i] == b;
    var s := Succ(i, n);
    var p := Pred(i, n);
    assert Succ(p, n) == i;
    assert hdrs[free[i]].next == free[s] && hdrs[free[s]].prev == free[i];
    assert hdrs[free[p]].next == free[i] && hdrs[free[i]].prev == free[p];
  }

  /** Every live payload pointer is 16-aligned, inside the heap, and its payload fits in its block. */
  lemma LivePayloadInHeap(h: Heap, p: nat)
    requires Valid(h)
    requires IsLivePtr(h, p)
    ensures Aligned(p)
    ensures InHeap(h, p)
    ensures p + (RawSize(h.hdrs[p - HdrSize].size) - HdrSize) <= h.brk
  {
    var b := p - HdrSize;
    assert b != Sentinel;
    assert RawSize(h.hdrs[b].size) > HdrSize;
    assert b + RawSize(h.hdrs[b].size) <= h.brk;
    AlignedPastHeader(b);
  }
}
