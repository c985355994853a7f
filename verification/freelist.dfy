/**
 * The explicit free list: a circular doubly-linked list threaded through
 * the headers of the free blocks, anchored at the sentinel. This module
 * holds the first-fit search and the two O(1) list edits that malloc and
 * free perform.
 */
module FreeList {
  import opened Wrappers
  import opened Sizes
  import opened Heap

  /**
   * Reference first-fit search over list positions i, i+1, ...: the first
   * position whose `size` field is at least req.
   */
  function FitFrom(hdrs: map<nat, Header>, free: seq<nat>, req: nat, i: nat): (r: Option<nat>)
    decreases |free| - i
    ensures r.Some? ==> i <= r.value < |free| && Hdr(hdrs, free[r.value]).size >= req
    ensures r.Some? ==> forall k :: i <= k < r.value ==> Hdr(hdrs, free[k]).size < req
    ensures r.None? <==> forall k :: i <= k < |free| ==> Hdr(hdrs, free[k]).size < req
  {
    if i >= |free| then None
    else if Hdr(hdrs, free[i]).size >= req then Some(i)
    else FitFrom(hdrs, free, req, i + 1)
  }

  /**
   * The list position first fit settles on: the first position after the
   * sentinel whose block's `size` field is at least req.
   */
  function FirstFit(h: Heap, req: nat): (r: Option<nat>)
    ensures r.Some? ==> 1 <= r.value < |h.free| && Hdr(h.hdrs, h.free[r.value]).size >= req
    ensures r.Some? ==> forall k :: 1 <= k < r.value ==> Hdr(h.hdrs, h.free[k]).size < req
    ensures r.None? <==> forall k :: 1 <= k < |h.free| ==> Hdr(h.hdrs, h.free[k]).size < req
  {
    FitFrom(h.hdrs, h.free, req, 1)
  }

  /**
   * find_free_mem(req): the first block after the sentinel, in `next`
   * order, whose `size` field is at least req; None (NULL) when no member
   * of the list qualifies. It yields a block after the head of the list,
   * so on a well-formed list never the sentinel. The search reads the
   * list order; FindFreeMem shows that following the `next` links visits
   * the same blocks.
   */
  function FindFree(h: Heap, req: nat): (r: Option<nat>)
    ensures r.Some? ==> r.value in AfterHead(h.free) && Hdr(h.hdrs, r.value).size >= req
    ensures r.Some? ==> exists j :: 1 <= j < |h.free| && h.free[j] == r.value
                                 && forall k :: 1 <= k < j ==> Hdr(h.hdrs, h.free[k]).size < req
    ensures r.None? <==> forall k :: 1 <= k < |h.free| ==> Hdr(h.hdrs, h.free[k]).size < req
    ensures Linked(h.hdrs, h.free) && r.Some? ==> r.value != Sentinel
  {
    match FirstFit(h, req)
    case Some(j) => Some(h.free[j])
    case None => None
  }

  /**
   * find_free_mem as the C loop writes it: start at the sentinel's
   * successor and follow `next` links until the sentinel comes round again
   * or a large enough block is met.
   */
  method FindFreeMem(h: Heap, req: nat) returns (r: Option<nat>)
    requires Linked(h.hdrs, h.free)
    ensures r == FindFree(h, req)
  {
    var n := |h.free|;
    var ptr := h.hdrs[Sentinel].next;
    ghost var i: nat := 1;
    while ptr != Sentinel && h.hdrs[ptr].size < req
      invariant 1 <= i <= n
      invariant i < n ==> ptr == h.free[i]
      invariant i == n ==> ptr == Sentinel
      invariant forall k :: 1 <= k < i ==> h.hdrs[h.free[k]].size < req
      decreases n - i
    {
      ptr := h.hdrs[ptr].next;
      i := i + 1;
    }
    if ptr != Sentinel {
      r := Some(ptr);
    } else {
      r := None;
    }
  }

  /** The list with position j taken out. */
  function RemoveAt(s: seq<nat>, j: nat): (r: seq<nat>)
    requires j < |s|
    ensures |r| == |s| - 1
    ensures forall k :: 0 <= k < j ==> r[k] == s[k]
    ensures forall k :: j <= k < |r| ==> r[k] == s[k + 1]
  {
    s[..j] + s[j + 1..]
  }

  /** The members after the head of the list. */
  function AfterHead(s: seq<nat>): (r: seq<nat>)
    ensures |s| >= 1 ==> |r| == |s| - 1 && forall k :: 0 <= k < |r| ==> r[k] == s[k + 1]
  {
    if |s| == 0 then [] else s[1..]
  }

  /** The list after free has pushed b: the head, then b, then the old members. */
  function PushFront(s: seq<nat>, b: nat): (r: seq<nat>)
    ensures |r| >= 2 && r[0] == Sentinel && r[1] == b
    ensures |s| >= 1 ==> |r| == |s| + 1 && forall k :: 2 <= k < |r| ==> r[k] == s[k - 1]
  {
    [Sentinel, b] + AfterHead(s)
  }

  /** Removing the block pushed at position 1 gives back the list it was pushed onto. */
  lemma RemoveAtUndoesPush(s: seq<nat>, b: nat)
    requires |s| >= 1 && s[0] == Sentinel
    ensures RemoveAt(PushFront(s, b), 1) == s
  {
    var r := RemoveAt(PushFront(s, b), 1);
    assert forall k :: 1 <= k < |r| ==> r[k] == s[k];
  }

  lemma RemoveAtMembers(s: seq<nat>, j: nat, x: nat)
    requires Distinct(s)
    requires j < |s|
    ensures x in RemoveAt(s, j) <==> x in s && x != s[j]
  {
    var r := RemoveAt(s, j);
    if x in r {
      var k :| 0 <= k < |r| && r[k] == x;
      if k < j { assert s[k] == x; } else { assert s[k + 1] == x; }
    }
    if x in s && x != s[j] {
      var k :| 0 <= k < |s| && s[k] == x;
      if k < j { assert r[k] == x; } else { assert r[k - 1] == x; }
    }
  }

  /** The links of the member at position i, read off the list. */
  lemma LinkedAt(hdrs: map<nat, Header>, free: seq<nat>, i: nat)
    requires Linked(hdrs, free)
    requires i < |free|
    ensures hdrs[free[i]].next == free[Succ(i, |free|)]
    ensures hdrs[free[i]].prev == free[Pred(i, |free|)]
  {
    var n := |free|;
    var s := Succ(i, n);
    var p := Pred(i, n);
    assert Succ(p, n) == i;
    assert hdrs[free[i]].next == free[s];
    assert hdrs[free[p]].next == free[i] && hdrs[free[i]].prev == free[p];
  }

  /** b has a header and both its neighbours do too, so unlinking it writes only existing headers. */
  predicate CanUnlink(hdrs: map<nat, Header>, b: nat)
  {
    b in hdrs && hdrs[b].prev in hdrs && hdrs[b].next in hdrs
  }

  /**
   * The O(1) unlink in malloc: `b->prev->next = b->next;
   * b->next->prev = b->prev`, in that order. Only those two links change.
   */
  function Unlink(hdrs: map<nat, Header>, b: nat): (r: map<nat, Header>)
    ensures forall a :: a in hdrs ==> a in r && r[a].size == hdrs[a].size
    ensures CanUnlink(hdrs, b) ==> r.Keys == hdrs.Keys
    ensures CanUnlink(hdrs, b) ==> r[hdrs[b].prev].next == hdrs[b].next && r[hdrs[b].next].prev == hdrs[b].prev
    ensures forall a :: a in hdrs && a != Hdr(hdrs, b).prev ==> r[a].next == hdrs[a].next
    ensures forall a :: a in hdrs && a != Hdr(hdrs, b).next ==> r[a].prev == hdrs[a].prev
  {
    var p := Hdr(hdrs, b).prev;
    var n := Hdr(hdrs, b).next;
    var h1 := hdrs[p := Hdr(hdrs, p).(next := n)];
    h1[n := Hdr(h1, n).(prev := p)]
  }

  /**
   * b has a header other than the sentinel's, and so has the sentinel's
   * successor, which is not b: pushing b writes only existing headers.
   */
  predicate CanPush(hdrs: map<nat, Header>, b: nat)
  {
    Sentinel in hdrs && b in hdrs && hdrs[Sentinel].next in hdrs
    && b != Sentinel && hdrs[Sentinel].next != b
  }

  /**
   * The O(1) push in free: `b->next = head->next; b->prev = head;
   * head->next = b; b->next->prev = b`, in that order. Only those four
   * links change.
   */
  function Push(hdrs: map<nat, Header>, b: nat): (r: map<nat, Header>)
    ensures forall a :: a in hdrs ==> a in r && r[a].size == hdrs[a].size
    ensures CanPush(hdrs, b) ==>
              && r.Keys == hdrs.Keys
              && r[b].next == hdrs[Sentinel].next && r[b].prev == Sentinel
              && r[Sentinel].next == b && r[hdrs[Sentinel].next].prev == b
              && (forall a :: a in hdrs && a != Sentinel && a != b ==> r[a].next == hdrs[a].next)
              && (forall a :: a in hdrs && a != b && a != hdrs[Sentinel].next ==> r[a].prev == hdrs[a].prev)
  {
    var h1 := hdrs[b := Hdr(hdrs, b).(next := Hdr(hdrs, Sentinel).next, prev := Sentinel)];
    var h2 := h1[Sentinel := Hdr(h1, Sentinel).(next := b)];
    var n := Hdr(h2, b).next;
    h2[n := Hdr(h2, n).(prev := b)]
  }

  /** After unlinking position j, the member at position i of the shorter list links to its successor. */
  lemma UnlinkLinksAt(hdrs: map<nat, Header>, free: seq<nat>, j: nat, i: nat)
    requires Linked(hdrs, free)
    requires 1 <= j < |free| && i < |free| - 1
    ensures var r := Unlink(hdrs, free[j]);
            var f := RemoveAt(free, j);
            var k := Succ(i, |f|);
            f[i] in r && f[k] in r && r[f[i]].next == f[k] && r[f[k]].prev == f[i]
  {
    var n := |free|;
    var b := free[j];
    LinkedAt(hdrs, free, j);
    var p := free[j - 1];
    var nx := free[Succ(j, n)];
    var r := Unlink(hdrs, b);
    var f := RemoveAt(free, j);
    var m := n - 1;
    var k := Succ(i, m);
    var oi := if i < j then i else i + 1;
    var ok := if k < j then k else k + 1;
    assert f[i] == free[oi] && f[k] == free[ok];
    LinkedAt(hdrs, free, oi);
    if i == j - 1 {
      assert f[i] == p;
      if j == n - 1 {
        assert k == 0 && f[k] == free[0] == nx;
      } else {
        assert k == j && f[k] == free[j + 1] == nx;
      }
    } else {
      assert ok == Succ(oi, n);
      assert f[i] != p;
      LinkedAt(hdrs, free, ok);
      assert Pred(ok, n) == oi;
    }
  }

  /** Unlinking the member at position j leaves exactly the list without it. */
  lemma UnlinkLinked(hdrs: map<nat, Header>, free: seq<nat>, j: nat)
    requires Linked(hdrs, free)
    requires 1 <= j < |free|
    ensures CanUnlink(hdrs, free[j])
    ensures Linked(Unlink(hdrs, free[j]), RemoveAt(free, j))
  {
    var n := |free|;
    LinkedAt(hdrs, free, j);
    assert CanUnlink(hdrs, free[j]);
    var r := Unlink(hdrs, free[j]);
    var f := RemoveAt(free, j);
    var m := n - 1;
    forall i, k | 0 <= i < m && 0 <= k < m && k == Succ(i, m)
      ensures r[f[i]].next == f[k] && r[f[k]].prev == f[i]
    {
      UnlinkLinksAt(hdrs, free, j, i);
    }
    forall i, k | 0 <= i < k < m
      ensures f[i] != f[k]
    {
      var oi := if i < j then i else i + 1;
      var ok := if k < j then k else k + 1;
      assert f[i] == free[oi] && f[k] == free[ok];
    }
  }

  /** Pushing a non-member makes it the sentinel's immediate successor. */
  lemma PushLinked(hdrs: map<nat, Header>, free: seq<nat>, b: nat)
    requires Linked(hdrs, free)
    requires b in hdrs && b !in free
    ensures CanPush(hdrs, b)
    ensures Linked(Push(hdrs, b), PushFront(free, b))
  {
    var n := |free|;
    LinkedAt(hdrs, free, 0);
    var nx := hdrs[Sentinel].next;
    assert CanPush(hdrs, b);
    var r := Push(hdrs, b);
    var f := PushFront(free, b);
    var m := n + 1;
    forall i, k | 0 <= i < m && 0 <= k < m && k == Succ(i, m)
      ensures r[f[i]].next == f[k] && r[f[k]].prev == f[i]
    {
      if i == 0 {
        assert f[k] == b;
      } else if i == 1 {
        assert f[i] == b;
        if n == 1 {
          assert k == 0 && nx == Sentinel;
        } else {
          assert k == 2 && f[k] == free[1] == nx;
        }
      } else {
        assert f[i] == free[i - 1];
        LinkedAt(hdrs, free, i - 1);
        if i == n {
          assert k == 0;
          assert f[i] != Sentinel && f[i] != b;
          assert Succ(i - 1, n) == 0;
          if n > 1 {
            assert nx == free[1] && nx != Sentinel;
          }
        } else {
          assert k == i + 1 && f[k] == free[i];
          assert f[k] != nx;
          LinkedAt(hdrs, free, i);
        }
      }
    }
    forall i, k | 0 <= i < k < m
      ensures f[i] != f[k]
    {
      if k >= 2 {
        assert f[k] == free[k - 1];
      }
      if i >= 2 {
        assert f[i] == free[i - 1];
      }
    }
  }

  /**
   * Unlinking a block right after pushing it restores every other header,
   * whatever the block's own size field became in between: push and unlink
   * are inverse on the links of the rest of the heap. m is the pushed map
   * with at most b's size field changed.
   */
  lemma UnlinkUndoesPush(hdrs: map<nat, Header>, b: nat, m: map<nat, Header>)
    requires CanPush(hdrs, b)
    requires hdrs[hdrs[Sentinel].next].prev == Sentinel
    requires m.Keys == hdrs.Keys && b in m
    requires m[b].next == hdrs[Sentinel].next && m[b].prev == Sentinel
    requires forall a :: a in hdrs && a != b ==> m[a] == Push(hdrs, b)[a]
    ensures Unlink(m, b).Keys == hdrs.Keys
    ensures Unlink(m, b)[b].size == m[b].size
    ensures forall a :: a in hdrs && a != b ==> Unlink(m, b)[a] == hdrs[a]
  {
    var nx := hdrs[Sentinel].next;
    var pu := Push(hdrs, b);
    assert CanUnlink(m, b);
    var u := Unlink(m, b);
    forall a | a in hdrs && a != b
      ensures u[a] == hdrs[a]
    {
      assert m[a] == pu[a];
      if a == Sentinel {
        assert u[a].next == nx;
        if nx == Sentinel {
          assert u[a].prev == Sentinel;
        }
      } else if a == nx {
        assert u[a].prev == Sentinel;
      }
    }
  }
}
