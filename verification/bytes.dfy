/**
 * mm_memcpy and memset as updates of the payload byte map. An address
 * missing from the map holds an indeterminate byte, and copying such a
 * byte leaves the destination indeterminate.
 */
module Bytes {
  import opened Wrappers
  import opened Heap

  /** The addresses lo, lo+1, ..., lo+n-1. */
  function Range(lo: nat, n: nat): (r: set<nat>)
    ensures forall a :: a in r <==> lo <= a < lo + n
  {
    if n == 0 then {} else Range(lo, n - 1) + {lo + n - 1}
  }

  /** memcpy(dst, src, n), reading every source byte before any write. */
  function Copy(mem: map<nat, bv8>, dst: nat, src: nat, n: nat): (r: map<nat, bv8>)
    ensures forall a: nat :: dst <= a < dst + n ==> Load(r, a) == Load(mem, src + (a - dst))
    ensures forall a: nat :: !(dst <= a < dst + n) ==> Load(r, a) == Load(mem, a)
    ensures forall a :: a in r ==> a in mem || dst <= a < dst + n
  {
    map a | a in mem.Keys + Range(dst, n) && (dst <= a < dst + n ==> src + (a - dst) in mem)
      :: if dst <= a < dst + n then mem[src + (a - dst)] else mem[a]
  }

  /** memset(dst, v, n). */
  function Fill(mem: map<nat, bv8>, dst: nat, n: nat, v: bv8): (r: map<nat, bv8>)
    ensures forall a: nat :: dst <= a < dst + n ==> Load(r, a) == Some(v)
    ensures forall a: nat :: !(dst <= a < dst + n) ==> Load(r, a) == Load(mem, a)
    ensures forall a :: a in r ==> a in mem || dst <= a < dst + n
  {
    map a | a in mem.Keys + Range(dst, n) :: if dst <= a < dst + n then v else mem[a]
  }

  /** Copying a range onto itself changes nothing. */
  lemma CopyOntoItself(mem: map<nat, bv8>, a: nat, n: nat)
    ensures Copy(mem, a, a, n) == mem
  {
    var r := Copy(mem, a, a, n);
    forall x | x in r ensures x in mem && r[x] == mem[x]
    {
      assert Load(r, x) == Load(mem, x);
    }
    forall x | x in mem ensures x in r
    {
      assert Load(r, x) == Load(mem, x);
    }
  }
}
