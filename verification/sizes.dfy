/**
 * Size arithmetic of the allocator: rounding to the 16-byte alignment,
 * the header size, and the allocated flag packed into bit 0 of a
 * header's `size` field.
 */
module Sizes {

  /** ALIGNMENT in mm.c. */
  const Alignment: nat := 16

  /** sizeof(struct header) on an LP64 target: one size_t and two pointers. */
  const HeaderStructSize: nat := 24

  /** hdr_size, that is align(sizeof(struct header)). */
  const HdrSize: nat := 32

  /** align(x): round x up to the nearest multiple of ALIGNMENT. */
  function Align(x: nat): (r: nat)
    ensures r % Alignment == 0
    ensures x <= r < x + Alignment
  {
    Alignment * ((x + Alignment - 1) / Alignment)
  }

  /** Align yields the least multiple of the alignment that is at least x. */
  lemma AlignIsLeastMultiple(x: nat, m: nat)
    requires m % Alignment == 0 && x <= m
    ensures Align(x) <= m
  {
  }

  /** Rounding twice is rounding once. */
  lemma AlignIdempotent(x: nat)
    ensures Align(Align(x)) == Align(x)
  {
    var r := Align(x);
    AlignIsLeastMultiple(r, r);
  }

  /** The constant header size is what hdr_size computes, so it is aligned itself. */
  lemma HdrSizeIsAlignedHeader()
    ensures HdrSize == Align(HeaderStructSize)
    ensures HdrSize % Alignment == 0
  {
  }

  /** aligned(p) in mm.c: p is unchanged by rounding up. */
  predicate Aligned(p: nat)
  {
    Align(p) == p
  }

  lemma AlignedIff(p: nat)
    ensures Aligned(p) <==> p % Alignment == 0
  {
    if p % Alignment == 0 {
      AlignIsLeastMultiple(p, p);
    }
  }

  /** A header-sized step from an aligned address stays aligned. */
  lemma AlignedPastHeader(b: nat)
    requires b % Alignment == 0
    ensures Aligned(b + HdrSize)
  {
    AlignedIff(b + HdrSize);
  }

  /** The true size of a block: the `size` field with bit 0 masked off. */
  function RawSize(size: nat): (r: nat)
    ensures r <= size < r + 2
    ensures r % 2 == 0
  {
    size - size % 2
  }

  /** Bit 0 of the `size` field: 1 while the block is allocated. */
  predicate IsAllocated(size: nat)
  {
    size % 2 == 1
  }

  /** `size | 1`: mark allocated. */
  function SetAllocated(size: nat): (r: nat)
    ensures IsAllocated(r)
    ensures RawSize(r) == RawSize(size)
  {
    size - size % 2 + 1
  }

  /** `size & ~1`: mark free. */
  function ClearAllocated(size: nat): (r: nat)
    ensures !IsAllocated(r)
    ensures RawSize(r) == RawSize(size)
  {
    size - size % 2
  }

  /** Setting and clearing the flag undo each other on a field with the matching bit. */
  lemma FlagRoundTrip(size: nat)
    ensures !IsAllocated(size) ==> ClearAllocated(SetAllocated(size)) == size
    ensures IsAllocated(size) ==> SetAllocated(ClearAllocated(size)) == size
  {
  }

  /** An aligned size has bit 0 clear, so its raw size is itself. */
  lemma AlignedSizeIsRaw(size: nat)
    requires size % Alignment == 0
    ensures !IsAllocated(size) && RawSize(size) == size
  {
  }

  function Min(a: nat, b: nat): (r: nat)
    ensures r <= a && r <= b && (r == a || r == b)
  {
    if a > b then b else a
  }
}
