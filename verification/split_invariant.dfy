/** The layout invariant of the splitting allocator of t2.c.

    Starting from my_allocator_init, the header list tiles the arena: every
    listed block ends exactly where the next header starts, every `prev` link
    is the list predecessor, and every allocated header is listed. my_free
    keeps this layout. my_malloc as written does not: after a split the old
    successor still points back at the split header rather than at the new
    remainder, and a later my_free follows that stale link. `MallocRelinked`
    is the split with that link repaired; it keeps the layout.

    my_free keeps the layout, but its rightward loop steps past the header it
    coalesces and can merge a free block into a live one. `FreeCoalesced`
    keeps the cursor in place; it keeps the layout and no live block changes
    size.
 */
module SplitInvariant {
  import opened Wrappers
  import opened SplitHeap
  import opened SplitAllocator

  /** The offset just past the block of header `o`. */
  function End(h: Heap, o: nat): nat
    requires o in h
  {
    o + HeaderSize + h[o].blockSize
  }

  /** Every listed header but the first has its list predecessor as `prev`. */
  ghost predicate PrevExact(h: Heap, s: seq<nat>)
    requires forall i :: 0 <= i < |s| ==> s[i] in h
  {
    forall i, j {:trigger s[i], s[j]} :: 0 <= i && j == i + 1 && j < |s| ==> h[s[j]].prev == Some(s[i])
  }

  /** Every listed block ends exactly where the next listed header starts. */
  ghost predicate Contiguous(h: Heap, s: seq<nat>)
    requires forall i :: 0 <= i < |s| ==> s[i] in h
  {
    forall i, j {:trigger s[i], s[j]} :: 0 <= i && j == i + 1 && j < |s| ==> End(h, s[i]) == s[j]
  }

  /** Every listed body starts right after its header. */
  ghost predicate Bodies(h: Heap, s: seq<nat>)
    requires forall i :: 0 <= i < |s| ==> s[i] in h
  {
    forall i :: 0 <= i < |s| ==> h[s[i]].blockStart == s[i] + HeaderSize
  }

  /** `s` is a header list that tiles the arena from offset 0. The last block
      ends one header past max_address_of_pool, because my_allocator_init
      gives the first block the whole capacity. */
  ghost predicate Tight(h: Heap, s: seq<nat>, max: nat) {
    && IsChain(h, s)
    && s[0] == 0 && h[0].prev == None
    && PrevExact(h, s) && Contiguous(h, s) && Bodies(h, s)
    && End(h, s[|s| - 1]) == max + HeaderSize
  }

  /** The listed headers that are allocated. */
  function Allocated(h: Heap, s: seq<nat>): set<nat> {
    set o | o in s && o in h && h[o].isAllocated
  }

  /** The live blocks of a pool, by header offset. */
  function AllocatedBlocks(p: Pool): set<nat>
    requires 0 in p.heap
  {
    Allocated(p.heap, List(p))
  }

  /** The layout invariant: sound links, a tiling list, and no allocated
      header outside the list. */
  ghost predicate Inv(p: Pool) {
    && WellFormed(p)
    && Tight(p.heap, List(p), p.max)
    && forall o :: o in p.heap && p.heap[o].isAllocated ==> o in List(p)
  }

  // ---------------------------------------------------------------- init

  /** my_allocator_init establishes the invariant with nothing allocated. */
  lemma InitInv(size: nat)
    ensures Inv(Init(size)) && AllocatedBlocks(Init(size)) == {}
  {
    var p := Init(size);
    assert List(p) == [0];
  }

  /** On a fresh arena, my_malloc(n) hands out the body right after the header
      at 0; my_free of that pointer merges the remainder back, leaving the
      single header at 0 exactly as init made it, so the next my_malloc(n)
      hands out the same address again. */
  lemma FreshArenaRoundTrip(size: nat, n: nat)
    requires n + HeaderSize <= size
    ensures Spans(Init(size).heap, List(Init(size)))
    ensures Malloc(Init(size), n).1 == Some(HeaderSize)
    ensures var q := Free(Malloc(Init(size), n).0, HeaderSize);
      && List(q) == [0] && q.heap[0] == Init(size).heap[0]
      && Spans(q.heap, List(q))
      && Malloc(q, n).1 == Some(HeaderSize)
  {
    FreshArenaMalloc(size, n);
    FreshArenaFree(size, n);
    var q := Free(Malloc(Init(size), n).0, HeaderSize);
    assert LinksOk(q.heap, q.max, 0);
    assert FindFit(q.heap, q.max, 0, n) == Some(0);
  }

  /** The first my_malloc on a fresh arena splits the header at 0. */
  lemma FreshArenaMalloc(size: nat, n: nat)
    requires n + HeaderSize <= size
    ensures Spans(Init(size).heap, List(Init(size)))
    ensures Malloc(Init(size), n) == (Pool(Split(Init(size).heap, 0, n), size), Some(HeaderSize))
  {
    var p := Init(size);
    InitInv(size);
    TightSpans(p.heap, List(p), p.max);
    assert FindFit(p.heap, p.max, 0, n) == Some(0);
  }

  /** Freeing that block merges the remainder back into the header at 0. */
  lemma FreshArenaFree(size: nat, n: nat)
    requires n + HeaderSize <= size
    ensures var m := Pool(Split(Init(size).heap, 0, n), size);
      && WellFormed(m) && 0 in m.heap
      && Free(m, HeaderSize).heap[0] == Init(size).heap[0]
      && List(Free(m, HeaderSize)) == [0]
  {
    FreshArenaMalloc(size, n);
    var m := Pool(Split(Init(size).heap, 0, n), size);
    var rest := SplitPoint(0, n);
    assert LinksOk(m.heap, m.max, 0) && LinksOk(m.heap, m.max, rest);
    var marked := Release(m.heap, m.max, 0);
    assert CoalesceLeft(marked, m.max, 0) == (marked, 0);
    var merged := MergeWithLeft(marked, m.max, rest);
    assert merged[0] == Init(size).heap[0];
    assert CoalesceRight(marked, m.max, 0) == (merged, 0);
    var q := Free(m, HeaderSize);
    assert q.heap == merged;
    assert LinksOk(q.heap, q.max, 0);
  }

  // ---------------------------------------------------------------- layout

  /** In a tiling list every block ends at or before every later header, and
      no block ends past one header beyond max_address_of_pool: listed blocks
      never overlap. */
  lemma {:induction false} ListedBlocksDisjoint(h: Heap, s: seq<nat>, max: nat)
    requires Ordered(h, max) && Tight(h, s, max)
    ensures forall i, j :: 0 <= i < j < |s| ==> End(h, s[i]) <= s[j]
    ensures forall i :: 0 <= i < |s| ==> End(h, s[i]) <= max + HeaderSize
  {
    ChainIncreasing(h, s, max);
    forall i, j | 0 <= i < j < |s|
      ensures End(h, s[i]) <= s[j]
    {
      assert End(h, s[i]) == s[i + 1];
    }
    forall i | 0 <= i < |s|
      ensures End(h, s[i]) <= max + HeaderSize
    {
      if i < |s| - 1 {
        assert End(h, s[i]) <= s[|s| - 1];
      }
    }
  }

  /** A tiling list spans: no listed block runs past its successor. */
  lemma TightSpans(h: Heap, s: seq<nat>, max: nat)
    requires Tight(h, s, max)
    ensures Spans(h, s)
  {
    forall i, j | 0 <= i && j == i + 1 && j < |s| && s[i] in h
      ensures s[i] + HeaderSize + h[s[i]].blockSize <= s[j]
    {
      assert End(h, s[i]) == s[j];
    }
  }

  /** The footprint of a tiling list is the arena plus one header: the list
      accounts for one header more than max_address_of_pool allows. */
  lemma TightFootprint(h: Heap, s: seq<nat>, max: nat)
    requires Tight(h, s, max)
    ensures Footprint(h, s) == max + HeaderSize
  {
    TailFootprint(h, s, max, 0);
  }

  lemma {:induction false} TailFootprint(h: Heap, s: seq<nat>, max: nat, i: nat)
    requires Tight(h, s, max) && i < |s|
    ensures Footprint(h, s[i..]) + s[i] == max + HeaderSize
    decreases |s| - i
  {
    assert s[i..][1..] == s[i + 1..];
    if i < |s| - 1 {
      TailFootprint(h, s, max, i + 1);
      assert End(h, s[i]) == s[i + 1];
    } else {
      assert s[i + 1..] == [];
    }
  }

  // ---------------------------------------------------------------- free

  /** Marking `c` free keeps the layout and drops `c` from the live set. */
  lemma ReleaseTight(h: Heap, max: nat, s: seq<nat>, c: nat)
    requires Ordered(h, max) && Tight(h, s, max) && c in h
    ensures Tight(Release(h, max, c), s, max)
    ensures Allocated(Release(h, max, c), s) == Allocated(h, s) - {c}
  {
    var r := Release(h, max, c);
    assert IsChain(r, s);
    assert PrevExact(r, s);
    assert Contiguous(r, s);
  }

  /** Merging a listed header into its list predecessor keeps the links of
      the shorter list exact. */
  lemma MergePrevExact(h: Heap, max: nat, s: seq<nat>, k: nat)
    requires Ordered(h, max) && Tight(h, s, max) && 0 < k < |s|
    requires h[s[k]].prev == Some(s[k - 1])
    ensures PrevExact(MergeWithLeft(h, max, s[k]), RemoveAt(s, k))
  {
    var c := s[k];
    var q := s[k - 1];
    var r := MergeWithLeft(h, max, c);
    var t := RemoveAt(s, k);
    ChainIncreasing(h, s, max);
    assert h[c].prev == Some(q);
    forall i, j | 0 <= i && j == i + 1 && j < |t|
      ensures r[t[j]].prev == Some(t[i])
    {
      if j < k - 1 {
        assert s[j] < q && (k + 1 < |s| ==> s[j] < s[k + 1]);
        assert h[c].next.None? || h[c].next == Some(s[k + 1]);
        assert r[s[j]] == h[s[j]] && h[s[j]].prev == Some(s[i]);
      } else if j == k - 1 {
        assert h[q].prev == Some(s[i]);
      } else if j == k {
        assert h[c].next == Some(s[k + 1]);
      } else {
        assert h[c].next == Some(s[k + 1]) && s[k + 1] < s[j + 1];
        assert r[s[j + 1]] == h[s[j + 1]] && h[s[j + 1]].prev == Some(s[j]);
      }
    }
  }

  /** Merging a listed header into its list predecessor keeps the shorter
      list tiling: the predecessor now ends where the merged block ended. */
  lemma MergeContiguous(h: Heap, max: nat, s: seq<nat>, k: nat)
    requires Ordered(h, max) && Tight(h, s, max) && 0 < k < |s|
    requires h[s[k]].prev == Some(s[k - 1])
    ensures Contiguous(MergeWithLeft(h, max, s[k]), RemoveAt(s, k))
    ensures var t := RemoveAt(s, k);
      End(MergeWithLeft(h, max, s[k]), t[|t| - 1]) == max + HeaderSize
  {
    var c := s[k];
    var q := s[k - 1];
    var r := MergeWithLeft(h, max, c);
    var t := RemoveAt(s, k);
    ChainIncreasing(h, s, max);
    assert h[c].prev == Some(q);
    assert End(h, q) == c;
    assert End(r, q) == End(h, c);
    forall i, j | 0 <= i && j == i + 1 && j < |t|
      ensures End(r, t[i]) == t[j]
    {
      if i < k - 1 {
        assert End(h, s[i]) == s[i + 1];
        if k < |s| - 1 {
          assert h[c].next == Some(s[k + 1]) && s[i] < s[k + 1];
        }
        assert r[s[i]] == h[s[i]];
      } else if i == k - 1 {
        assert End(h, c) == s[k + 1];
      } else {
        assert End(h, s[i + 1]) == s[i + 2];
        assert r[s[i + 1]].blockSize == h[s[i + 1]].blockSize;
      }
    }
    if k < |s| - 1 {
      var last := s[|s| - 1];
      assert t[|t| - 1] == last && last > q;
      assert r[last].blockSize == h[last].blockSize;
    }
  }

  /** Merging a listed header into its list predecessor keeps the layout; the
      new list is the old one without the merged header, and the merged
      header leaves the live set. */
  lemma MergeTight(h: Heap, max: nat, s: seq<nat>, k: nat)
    requires Ordered(h, max) && Tight(h, s, max) && 0 < k < |s|
    requires h[s[k]].prev == Some(s[k - 1])
    ensures Ordered(MergeWithLeft(h, max, s[k]), max)
    ensures Tight(MergeWithLeft(h, max, s[k]), RemoveAt(s, k), max)
    ensures Chain(MergeWithLeft(h, max, s[k]), max, 0) == RemoveAt(s, k)
    ensures Allocated(MergeWithLeft(h, max, s[k]), RemoveAt(s, k)) == Allocated(h, s) - {s[k]}
  {
    var c := s[k];
    var r := MergeWithLeft(h, max, c);
    var t := RemoveAt(s, k);
    MergeKeepsLinks(h, max, c);
    MergeUnlinks(h, max, s, k);
    MergePrevExact(h, max, s, k);
    MergeContiguous(h, max, s, k);
    MergeBodies(h, max, s, k);
    assert t[0] == 0;
    assert LinksOk(h, max, c) && LinksOk(h, max, s[k - 1]);
    assert r[0].prev == h[0].prev;
    ChainUnique(r, max, t);
    MergeAllocated(h, max, s, k);
  }

  /** A merge leaves every body where it was. */
  lemma MergeBodies(h: Heap, max: nat, s: seq<nat>, k: nat)
    requires Ordered(h, max) && Tight(h, s, max) && 0 < k < |s|
    requires h[s[k]].prev == Some(s[k - 1])
    ensures Bodies(MergeWithLeft(h, max, s[k]), RemoveAt(s, k))
  {
    var r := MergeWithLeft(h, max, s[k]);
    var t := RemoveAt(s, k);
    forall i | 0 <= i < |t|
      ensures r[t[i]].blockStart == t[i] + HeaderSize
    {
      if i < k {
        assert t[i] == s[i];
      } else {
        assert t[i] == s[i + 1];
      }
    }
  }

  /** A merge drops the merged header from the live set and nothing else. */
  lemma MergeAllocated(h: Heap, max: nat, s: seq<nat>, k: nat)
    requires Ordered(h, max) && Tight(h, s, max) && 0 < k < |s|
    requires h[s[k]].prev == Some(s[k - 1])
    ensures Allocated(MergeWithLeft(h, max, s[k]), RemoveAt(s, k)) == Allocated(h, s) - {s[k]}
  {
    ChainIncreasing(h, s, max);
    RemoveAtMembers(s, k);
  }

  /** `r` holds a tiling list from offset 0 whose live set is `live`. */
  ghost predicate Settled(r: Heap, max: nat, live: set<nat>) {
    && 0 in r
    && Tight(r, Chain(r, max, 0), max)
    && Allocated(r, Chain(r, max, 0)) == live
  }

  /** The leftward loop of my_free on a tiling list keeps it tiling and keeps
      the live set, provided it starts from a free header. */
  lemma {:induction false} CoalesceLeftTight(h: Heap, max: nat, s: seq<nat>, k: nat)
    requires Ordered(h, max) && Tight(h, s, max) && k < |s| && !h[s[k]].isAllocated
    ensures Settled(CoalesceLeft(h, max, s[k]).0, max, Allocated(h, s))
    ensures CoalesceLeft(h, max, s[k]).1 in Chain(CoalesceLeft(h, max, s[k]).0, max, 0)
    decreases k
  {
    var c := s[k];
    ChainUnique(h, max, s);
    if k > 0 {
      assert h[s[k]].prev == Some(s[k - 1]);
    }
    match h[c].prev
    case None =>
      assert CoalesceLeft(h, max, c) == (h, c);
    case Some(q) =>
      if !h[q].isAllocated {
        MergeTight(h, max, s, k);
        var r1 := MergeWithLeft(h, max, c);
        var t := RemoveAt(s, k);
        assert t[k - 1] == q;
        assert CoalesceLeft(h, max, c) == CoalesceLeft(r1, max, q);
        assert Allocated(r1, t) == Allocated(h, s);
        CoalesceLeftTight(r1, max, t, k - 1);
      } else {
        assert CoalesceLeft(h, max, c) == (h, c);
      }
  }

  /** The rightward loop of my_free on a tiling list keeps it tiling and keeps
      the live set: it merges only free headers, though possibly into an
      allocated one. */
  lemma {:induction false} CoalesceRightTight(h: Heap, max: nat, s: seq<nat>, k: nat)
    requires Ordered(h, max) && Tight(h, s, max) && k < |s|
    ensures Settled(CoalesceRight(h, max, s[k]).0, max, Allocated(h, s))
    decreases |s| - k
  {
    var c := s[k];
    ChainUnique(h, max, s);
    match h[c].next
    case None =>
      assert CoalesceRight(h, max, c) == (h, c);
    case Some(n) =>
      assert n == s[k + 1] && h[s[k + 1]].prev == Some(s[k]);
      if !h[n].isAllocated {
        MergeTight(h, max, s, k + 1);
        var h1 := MergeWithLeft(h, max, n);
        var t := RemoveAt(s, k + 1);
        assert t[k] == c;
        assert Allocated(h1, t) == Allocated(h, s);
        if h1[c].next.Some? {
          assert h1[c].next == Some(t[k + 1]);
          assert CoalesceRight(h, max, c) == CoalesceRight(h1, max, t[k + 1]);
          CoalesceRightTight(h1, max, t, k + 1);
        } else {
          assert CoalesceRight(h, max, c) == (h1, c);
        }
      } else {
        assert CoalesceRight(h, max, c) == (h, c);
      }
  }

  /** my_free keeps the invariant and drops exactly the freed block from
      the live set. */
  lemma FreeKeepsInv(p: Pool, ptr: nat)
    requires Inv(p) && ptr >= HeaderSize && ptr - HeaderSize in p.heap
    requires p.heap[ptr - HeaderSize].isAllocated
    ensures Inv(Free(p, ptr))
    ensures AllocatedBlocks(Free(p, ptr)) == AllocatedBlocks(p) - {ptr - HeaderSize}
  {
    var c := ptr - HeaderSize;
    var s := List(p);
    var marked := Release(p.heap, p.max, c);
    ReleaseTight(p.heap, p.max, s, c);
    var k :| 0 <= k < |s| && s[k] == c;
    CoalesceLeftTight(marked, p.max, s, k);
    var left := CoalesceLeft(marked, p.max, c);
    var s1 := Chain(left.0, p.max, 0);
    var k1 :| 0 <= k1 < |s1| && s1[k1] == left.1;
    CoalesceRightTight(left.0, p.max, s1, k1);
    var q := Free(p, ptr);
    forall o | o in q.heap && q.heap[o].isAllocated
      ensures o in List(q)
    {
      assert o in p.heap && p.heap[o].isAllocated && o != c;
      assert o in Allocated(p.heap, s);
      assert o in Allocated(q.heap, List(q));
    }
  }

  // ---------------------------------------------------------------- repaired free

  /** The rightward loop of my_free with the cursor kept on the header being
      coalesced: while its `next` header exists, is free and points back at
      it, that header is merged into it. Under the layout invariant the
      back-link always holds; the test only makes the loop stop where a
      stale link would merge elsewhere. Only the cursor absorbs blocks. */
  function CoalesceRightStaying(h: Heap, max: nat, c: nat): (r: Heap)
    requires Ordered(h, max) && c in h
    ensures Ordered(r, max) && r.Keys == h.Keys
    ensures forall o :: o in h ==> r[o].isAllocated == h[o].isAllocated
    ensures forall o :: o in h && o != c ==> r[o].blockSize == h[o].blockSize
    ensures r[c].next.None? || r[c].next.value !in r
      || r[r[c].next.value].isAllocated || r[r[c].next.value].prev != Some(c)
    decreases if h[c].next.Some? && h[c].next.value <= max then max + 1 - h[c].next.value else 0
  {
    assert LinksOk(h, max, c);
    match h[c].next
    case None => h
    case Some(n) =>
      if h[n].isAllocated || h[n].prev != Some(c) then h
      else
        assert LinksOk(h, max, n);
        MergeKeepsLinks(h, max, n);
        var h1 := MergeWithLeft(h, max, n);
        assert LinksOk(h1, max, c);
        CoalesceRightStaying(h1, max, c)
  }

  /** On a tiling list the repaired rightward loop keeps the list tiling and
      the live set. */
  lemma {:induction false} CoalesceRightStayingTight(h: Heap, max: nat, s: seq<nat>, k: nat)
    requires Ordered(h, max) && Tight(h, s, max) && k < |s|
    ensures Settled(CoalesceRightStaying(h, max, s[k]), max, Allocated(h, s))
    decreases |s| - k
  {
    if k + 1 < |s| && !h[s[k + 1]].isAllocated {
      var h1 := StayingStep(h, max, s, k);
      CoalesceRightStayingTight(h1, max, RemoveAt(s, k + 1), k);
    } else {
      StayingStops(h, max, s, k);
      ChainUnique(h, max, s);
    }
  }

  /** On a tiling list the repaired rightward loop stops only at the end of
      the list or at an allocated header: no free block is left beside the
      coalesced one on its right. */
  lemma {:induction false} CoalesceRightStayingStops(h: Heap, max: nat, s: seq<nat>, k: nat)
    requires Ordered(h, max) && Tight(h, s, max) && k < |s|
    ensures var r := CoalesceRightStaying(h, max, s[k]);
      r[s[k]].next.None? || (r[s[k]].next.value in r && r[r[s[k]].next.value].isAllocated)
    decreases |s| - k
  {
    if k + 1 < |s| && !h[s[k + 1]].isAllocated {
      var h1 := StayingStep(h, max, s, k);
      CoalesceRightStayingStops(h1, max, RemoveAt(s, k + 1), k);
    } else {
      StayingStops(h, max, s, k);
    }
  }

  /** One round of the repaired rightward loop on a tiling list: the free
      header after position `k` is merged into it, and the loop goes on from
      the same header on the shorter list. */
  lemma StayingStep(h: Heap, max: nat, s: seq<nat>, k: nat) returns (h1: Heap)
    requires Ordered(h, max) && Tight(h, s, max) && k + 1 < |s| && !h[s[k + 1]].isAllocated
    ensures s[k + 1] in h && h[s[k + 1]].prev == Some(s[k])
    ensures h1 == MergeWithLeft(h, max, s[k + 1])
    ensures Ordered(h1, max) && Tight(h1, RemoveAt(s, k + 1), max)
    ensures RemoveAt(s, k + 1)[k] == s[k]
    ensures Allocated(h1, RemoveAt(s, k + 1)) == Allocated(h, s)
    ensures CoalesceRightStaying(h, max, s[k]) == CoalesceRightStaying(h1, max, s[k])
  {
    var c := s[k];
    var n := s[k + 1];
    assert h[c].next == Some(n) && h[n].prev == Some(c);
    MergeTight(h, max, s, k + 1);
    h1 := MergeWithLeft(h, max, n);
  }

  /** When the header after position `k` is missing or allocated, the
      repaired rightward loop does nothing. */
  lemma StayingStops(h: Heap, max: nat, s: seq<nat>, k: nat)
    requires Ordered(h, max) && Tight(h, s, max) && k < |s|
    requires k + 1 < |s| ==> h[s[k + 1]].isAllocated
    ensures CoalesceRightStaying(h, max, s[k]) == h
    ensures h[s[k]].next.None? || (h[s[k]].next.value in h && h[h[s[k]].next.value].isAllocated)
  {
    if k + 1 < |s| {
      assert h[s[k]].next == Some(s[k + 1]);
    }
  }

  /** my_free with the repaired rightward loop. No header is created or
      dropped, only the freed header changes its flag, and no other
      allocated header changes size. */
  function FreeCoalesced(p: Pool, ptr: nat): (r: Pool)
    requires WellFormed(p) && ptr >= HeaderSize && ptr - HeaderSize in p.heap
    ensures WellFormed(r) && r.max == p.max && r.heap.Keys == p.heap.Keys
    ensures !r.heap[ptr - HeaderSize].isAllocated
    ensures forall o :: o in p.heap && o != ptr - HeaderSize ==>
      r.heap[o].isAllocated == p.heap[o].isAllocated
    ensures forall o :: o in p.heap && o != ptr - HeaderSize && p.heap[o].isAllocated ==>
      r.heap[o].blockSize == p.heap[o].blockSize
  {
    var c := ptr - HeaderSize;
    var marked := Release(p.heap, p.max, c);
    var left := CoalesceLeft(marked, p.max, c);
    Pool(CoalesceRightStaying(left.0, p.max, left.1), p.max)
  }

  /** The repaired my_free keeps the invariant and drops exactly the freed
      block from the live set. */
  lemma FreeCoalescedKeepsInv(p: Pool, ptr: nat)
    requires Inv(p) && ptr >= HeaderSize && ptr - HeaderSize in p.heap
    requires p.heap[ptr - HeaderSize].isAllocated
    ensures Inv(FreeCoalesced(p, ptr))
    ensures AllocatedBlocks(FreeCoalesced(p, ptr)) == AllocatedBlocks(p) - {ptr - HeaderSize}
  {
    var c := ptr - HeaderSize;
    var s := List(p);
    var marked := Release(p.heap, p.max, c);
    ReleaseTight(p.heap, p.max, s, c);
    var k :| 0 <= k < |s| && s[k] == c;
    CoalesceLeftTight(marked, p.max, s, k);
    var left := CoalesceLeft(marked, p.max, c);
    var s1 := Chain(left.0, p.max, 0);
    var k1 :| 0 <= k1 < |s1| && s1[k1] == left.1;
    CoalesceRightStayingTight(left.0, p.max, s1, k1);
    var q := FreeCoalesced(p, ptr);
    forall o | o in q.heap && q.heap[o].isAllocated
      ensures o in List(q)
    {
      assert o in p.heap && p.heap[o].isAllocated && o != c;
      assert o in Allocated(p.heap, s);
      assert o in Allocated(q.heap, List(q));
    }
  }

  // ---------------------------------------------------------------- malloc

  /** The split of my_malloc with the missing link written: the old successor
      of `c`, if any, now points back at the remainder header. Everything
      else is as in `Split`. */
  function Relink(h: Heap, max: nat, c: nat, size: nat): (r: Heap)
    requires Ordered(h, max) && c in h && size + HeaderSize <= h[c].blockSize
    requires SplitPoint(c, size) <= max
    requires h[c].next.Some? ==> End(h, c) <= h[c].next.value
    ensures Ordered(r, max) && r.Keys == h.Keys + {SplitPoint(c, size)}
    ensures forall o :: o in r && Some(o) != h[c].next ==> r[o] == Split(h, c, size)[o]
    ensures h[c].next.Some? ==>
      && h[c].next.value in h && h[c].next.value in r
      && r[h[c].next.value] == h[h[c].next.value].(prev := Some(SplitPoint(c, size)))
  {
    var r := Split(h, c, size);
    var at := SplitPoint(c, size);
    SplitOrdered(h, max, c, size);
    match h[c].next
    case None => r
    case Some(n) =>
      assert LinksOk(h, max, c);
      var r' := r[n := r[n].(prev := Some(at))];
      assert forall o | o in r' :: LinksOk(r', max, o) by {
        forall o | o in r'
          ensures LinksOk(r', max, o)
        {
          assert LinksOk(r, max, o);
        }
      }
      r'
  }

  /** my_malloc with the successor's `prev` link repaired. It picks the same
      header and returns the same pointer as my_malloc as written; the
      headers differ only in that one link. */
  function MallocRelinked(p: Pool, size: nat): (r: (Pool, Option<nat>))
    requires WellFormed(p) && Spans(p.heap, List(p))
    ensures WellFormed(r.0) && r.0.max == p.max
    ensures r.1 == Malloc(p, size).1
    ensures r.1.None? ==> r.0 == p
    ensures r.1.Some? ==>
      && r.1.value >= HeaderSize
      && var c := r.1.value - HeaderSize;
      && c in p.heap && Fits(p.heap[c], size) && SplitPoint(c, size) <= p.max
      && (p.heap[c].next.Some? ==> End(p.heap, c) <= p.heap[c].next.value)
      && r.0.heap == Relink(p.heap, p.max, c, size)
  {
    var found := FindFit(p.heap, p.max, 0, size);
    if found.None? || SplitPoint(found.value, size) > p.max then (p, None)
    else
      var c := found.value;
      FoundSpans(p, size);
      assert p.heap[c].next.Some? ==> End(p.heap, c) <= p.heap[c].next.value;
      (Pool(Relink(p.heap, p.max, c, size), p.max), Some(c + HeaderSize))
  }

  /** The remainder header lies strictly inside the split block. */
  lemma RelinkInside(h: Heap, max: nat, s: seq<nat>, k: nat, size: nat)
    requires Ordered(h, max) && Tight(h, s, max) && k < |s| && Fits(h[s[k]], size)
    ensures s[k] < SplitPoint(s[k], size) < End(h, s[k]) <= max + HeaderSize
    ensures SplitPoint(s[k], size) <= max
    ensures h[s[k]].next.Some? ==> End(h, s[k]) == h[s[k]].next.value
    ensures SplitPoint(s[k], size) !in s
  {
    ListedBlocksDisjoint(h, s, max);
    ChainIncreasing(h, s, max);
    var at := SplitPoint(s[k], size);
    if k < |s| - 1 {
      assert h[s[k]].next == Some(s[k + 1]) && End(h, s[k]) == s[k + 1];
    }
  }

  /** The repaired split inserts the remainder right after the split header
      and keeps the chain. */
  lemma RelinkChain(h: Heap, max: nat, s: seq<nat>, k: nat, size: nat)
    requires Ordered(h, max) && Tight(h, s, max) && k < |s| && Fits(h[s[k]], size)
    requires SplitPoint(s[k], size) <= max
    requires h[s[k]].next.Some? ==> End(h, s[k]) <= h[s[k]].next.value
    ensures IsChain(Relink(h, max, s[k], size), InsertAfter(s, k, SplitPoint(s[k], size)))
  {
    var c := s[k];
    var r := Relink(h, max, c, size);
    var sp := Split(h, c, size);
    TightSpans(h, s, max);
    SplitChain(h, max, s, k, size);
    var t := InsertAfter(s, k, SplitPoint(c, size));
    forall i | 0 <= i < |t|
      ensures r[t[i]].next == sp[t[i]].next
    {
    }
  }

  /** The repaired split keeps every `prev` link exact. */
  lemma RelinkPrevExact(h: Heap, max: nat, s: seq<nat>, k: nat, size: nat)
    requires Ordered(h, max) && Tight(h, s, max) && k < |s| && Fits(h[s[k]], size)
    requires SplitPoint(s[k], size) <= max
    requires h[s[k]].next.Some? ==> End(h, s[k]) <= h[s[k]].next.value
    ensures PrevExact(Relink(h, max, s[k], size), InsertAfter(s, k, SplitPoint(s[k], size)))
  {
    var c := s[k];
    var at := SplitPoint(c, size);
    var r := Relink(h, max, c, size);
    var t := InsertAfter(s, k, at);
    ChainIncreasing(h, s, max);
    RelinkInside(h, max, s, k, size);
    forall i, j | 0 <= i && j == i + 1 && j < |t|
      ensures r[t[j]].prev == Some(t[i])
    {
      if j == k {
        assert t[j] == c && t[i] == s[k - 1];
      } else if j < k {
        assert t[j] == s[j] && t[i] == s[i] && s[j] < c && s[j] != at;
        assert k + 1 < |s| ==> s[j] < s[k + 1];
        assert h[c].next.None? || h[c].next == Some(s[k + 1]);
        assert r[s[j]] == h[s[j]];
      } else if j == k + 1 {
      } else if j == k + 2 {
        assert h[c].next == Some(s[k + 1]);
      } else {
        assert t[j] == s[j - 1] && t[i] == s[j - 2] && s[k + 1] < s[j - 1];
        assert h[c].next == Some(s[k + 1]);
        assert r[s[j - 1]] == h[s[j - 1]];
      }
    }
  }

  /** The repaired split keeps the list tiling: the split header ends where
      the remainder starts, and the remainder ends where the split block
      ended. */
  lemma RelinkContiguous(h: Heap, max: nat, s: seq<nat>, k: nat, size: nat)
    requires Ordered(h, max) && Tight(h, s, max) && k < |s| && Fits(h[s[k]], size)
    requires SplitPoint(s[k], size) <= max
    requires h[s[k]].next.Some? ==> End(h, s[k]) <= h[s[k]].next.value
    ensures Contiguous(Relink(h, max, s[k], size), InsertAfter(s, k, SplitPoint(s[k], size)))
    ensures var t := InsertAfter(s, k, SplitPoint(s[k], size));
      End(Relink(h, max, s[k], size), t[|t| - 1]) == max + HeaderSize
  {
    var c := s[k];
    var at := SplitPoint(c, size);
    var r := Relink(h, max, c, size);
    var t := InsertAfter(s, k, at);
    ChainIncreasing(h, s, max);
    RelinkInside(h, max, s, k, size);
    assert End(r, at) == End(h, c);
    forall i, j | 0 <= i && j == i + 1 && j < |t|
      ensures End(r, t[i]) == t[j]
    {
      if i < k {
        assert t[i] == s[i] && s[i] < c;
        assert k + 1 < |s| ==> s[i] < s[k + 1];
        assert h[c].next.None? || h[c].next == Some(s[k + 1]);
        assert End(h, s[i]) == s[i + 1];
      } else if i == k + 1 {
        assert End(h, c) == s[k + 1];
      } else if i > k + 1 {
        assert t[i] == s[i - 1] && s[k + 1] <= s[i - 1];
        assert h[c].next == Some(s[k + 1]);
        assert End(h, s[i - 1]) == s[i];
        assert r[s[i - 1]].blockSize == h[s[i - 1]].blockSize;
      }
    }
    RelinkLastEnd(h, max, s, k, size);
  }

  /** The repaired split leaves the end of the last listed block in place. */
  lemma RelinkLastEnd(h: Heap, max: nat, s: seq<nat>, k: nat, size: nat)
    requires Ordered(h, max) && Tight(h, s, max) && k < |s| && Fits(h[s[k]], size)
    requires SplitPoint(s[k], size) <= max
    requires h[s[k]].next.Some? ==> End(h, s[k]) <= h[s[k]].next.value
    ensures var t := InsertAfter(s, k, SplitPoint(s[k], size));
      End(Relink(h, max, s[k], size), t[|t| - 1]) == max + HeaderSize
  {
    var c := s[k];
    var r := Relink(h, max, c, size);
    ChainIncreasing(h, s, max);
    RelinkInside(h, max, s, k, size);
    if k < |s| - 1 {
      var last := s[|s| - 1];
      assert h[c].next == Some(s[k + 1]) && s[k + 1] <= last;
      assert r[last].blockSize == h[last].blockSize;
    }
  }

  /** The repaired split leaves every listed body right after its header. */
  lemma RelinkBodies(h: Heap, max: nat, s: seq<nat>, k: nat, size: nat)
    requires Ordered(h, max) && Tight(h, s, max) && k < |s| && Fits(h[s[k]], size)
    requires SplitPoint(s[k], size) <= max
    requires h[s[k]].next.Some? ==> End(h, s[k]) <= h[s[k]].next.value
    ensures Bodies(Relink(h, max, s[k], size), InsertAfter(s, k, SplitPoint(s[k], size)))
  {
    var c := s[k];
    var at := SplitPoint(c, size);
    var r := Relink(h, max, c, size);
    var t := InsertAfter(s, k, at);
    forall i | 0 <= i < |t|
      ensures r[t[i]].blockStart == t[i] + HeaderSize
    {
      if i < k + 1 {
        assert t[i] == s[i];
      } else if i > k + 1 {
        assert t[i] == s[i - 1];
      }
    }
  }

  /** The repaired split adds the split header to the live set and nothing
      else. */
  lemma RelinkAllocated(h: Heap, max: nat, s: seq<nat>, k: nat, size: nat)
    requires Ordered(h, max) && Tight(h, s, max) && k < |s| && Fits(h[s[k]], size)
    requires SplitPoint(s[k], size) <= max
    requires h[s[k]].next.Some? ==> End(h, s[k]) <= h[s[k]].next.value
    ensures Allocated(Relink(h, max, s[k], size), InsertAfter(s, k, SplitPoint(s[k], size)))
      == Allocated(h, s) + {s[k]}
  {
    RelinkInside(h, max, s, k, size);
    InsertAfterMembers(s, k, SplitPoint(s[k], size));
  }

  /** The repaired split keeps the layout: the list gains the remainder right
      after the split header. */
  lemma RelinkTight(h: Heap, max: nat, s: seq<nat>, k: nat, size: nat)
    requires Ordered(h, max) && Tight(h, s, max) && k < |s| && Fits(h[s[k]], size)
    requires SplitPoint(s[k], size) <= max
    requires h[s[k]].next.Some? ==> End(h, s[k]) <= h[s[k]].next.value
    ensures Tight(Relink(h, max, s[k], size), InsertAfter(s, k, SplitPoint(s[k], size)), max)
    ensures Chain(Relink(h, max, s[k], size), max, 0) == InsertAfter(s, k, SplitPoint(s[k], size))
  {
    var c := s[k];
    var r := Relink(h, max, c, size);
    var t := InsertAfter(s, k, SplitPoint(c, size));
    RelinkChain(h, max, s, k, size);
    RelinkPrevExact(h, max, s, k, size);
    RelinkContiguous(h, max, s, k, size);
    RelinkBodies(h, max, s, k, size);
    assert LinksOk(h, max, c);
    assert r[0].prev == None;
    ChainUnique(r, max, t);
  }

  /** The list position of the header the repaired my_malloc splits. */
  lemma RelinkedPosition(p: Pool, size: nat) returns (k: nat)
    requires WellFormed(p) && Spans(p.heap, List(p)) && MallocRelinked(p, size).1.Some?
    ensures var (q, r) := MallocRelinked(p, size);
      && k < |List(p)| && List(p)[k] == r.value - HeaderSize
      && Fits(p.heap[List(p)[k]], size)
      && SplitPoint(List(p)[k], size) <= p.max
      && (p.heap[List(p)[k]].next.Some? ==> End(p.heap, List(p)[k]) <= p.heap[List(p)[k]].next.value)
      && q == Pool(Relink(p.heap, p.max, List(p)[k], size), p.max)
  {
    var c := MallocRelinked(p, size).1.value - HeaderSize;
    MallocIsFirstFit(p, size);
    assert IsFirstFit(p.heap, List(p), size, Some(c));
    k :| FitsFirstAt(p.heap, List(p), size, k) && List(p)[k] == c;
  }

  /** The repaired split keeps the invariant. */
  lemma MallocRelinkedKeepsInv(p: Pool, size: nat)
    requires Inv(p)
    ensures Spans(p.heap, List(p))
    ensures Inv(MallocRelinked(p, size).0)
  {
    TightSpans(p.heap, List(p), p.max);
    if MallocRelinked(p, size).1.Some? {
      var k := RelinkedPosition(p, size);
      RelinkTight(p.heap, p.max, List(p), k, size);
      RelinkKeepsListed(p.heap, p.max, List(p), k, size);
    }
  }

  /** The repaired my_malloc adds exactly the split header to the live set,
      and that header was not live before. */
  lemma MallocRelinkedAllocates(p: Pool, size: nat)
    requires Inv(p)
    ensures Spans(p.heap, List(p))
    ensures var (q, r) := MallocRelinked(p, size);
      r.Some? ==>
        && r.value >= HeaderSize
        && r.value - HeaderSize !in AllocatedBlocks(p)
        && AllocatedBlocks(q) == AllocatedBlocks(p) + {r.value - HeaderSize}
  {
    TightSpans(p.heap, List(p), p.max);
    if MallocRelinked(p, size).1.Some? {
      var k := RelinkedPosition(p, size);
      var s := List(p);
      var c := s[k];
      var q := MallocRelinked(p, size).0;
      var t := InsertAfter(s, k, SplitPoint(c, size));
      RelinkTight(p.heap, p.max, s, k, size);
      RelinkAllocated(p.heap, p.max, s, k, size);
      calc {
        AllocatedBlocks(q);
        Allocated(q.heap, t);
        Allocated(p.heap, s) + {c};
      }
      assert !p.heap[c].isAllocated;
    }
  }

  /** The block the repaired my_malloc hands out starts at the returned
      pointer and holds exactly the requested size. */
  lemma MallocRelinkedBody(p: Pool, size: nat)
    requires WellFormed(p) && Spans(p.heap, List(p))
    ensures var (q, r) := MallocRelinked(p, size);
      r.Some? ==>
        && r.value >= HeaderSize && r.value - HeaderSize in q.heap
        && q.heap[r.value - HeaderSize].blockStart == r.value
        && q.heap[r.value - HeaderSize].blockSize == size
  {
    var (q, r) := MallocRelinked(p, size);
    if r.Some? {
      var c := r.value - HeaderSize;
      assert Some(c) != p.heap[c].next by {
        assert LinksOk(p.heap, p.max, c);
      }
      assert q.heap[c] == Split(p.heap, c, size)[c];
    }
  }

  /** After the repaired split every allocated header is still listed. */
  lemma RelinkKeepsListed(h: Heap, max: nat, s: seq<nat>, k: nat, size: nat)
    requires Ordered(h, max) && Tight(h, s, max) && k < |s| && Fits(h[s[k]], size)
    requires forall o :: o in h && h[o].isAllocated ==> o in s
    requires SplitPoint(s[k], size) <= max
    requires h[s[k]].next.Some? ==> End(h, s[k]) <= h[s[k]].next.value
    ensures var r := Relink(h, max, s[k], size);
      forall o :: o in r && r[o].isAllocated ==> o in InsertAfter(s, k, SplitPoint(s[k], size))
  {
    var c := s[k];
    var at := SplitPoint(c, size);
    var r := Relink(h, max, c, size);
    var t := InsertAfter(s, k, at);
    RelinkInside(h, max, s, k, size);
    InsertAfterMembers(s, k, at);
    forall o | o in r && r[o].isAllocated
      ensures o in t
    {
      if o != c && o != at {
        assert o in h && h[o].isAllocated;
      }
    }
  }

  /** Under the invariant the bound test of my_malloc never fails: it
      returns NULL exactly when no listed header is free and large enough. */
  lemma MallocFailsOnlyWhenFull(p: Pool, size: nat)
    requires Inv(p)
    ensures Spans(p.heap, List(p))
    ensures Malloc(p, size).1.None? <==>
      forall i :: 0 <= i < |List(p)| ==> !Fits(p.heap[List(p)[i]], size)
  {
    var s := List(p);
    TightSpans(p.heap, s, p.max);
    MallocIsFirstFit(p, size);
    if Malloc(p, size).1.None? {
      if exists c :: IsFirstFit(p.heap, s, size, Some(c)) && SplitPoint(c, size) > p.max {
        var c :| IsFirstFit(p.heap, s, size, Some(c)) && SplitPoint(c, size) > p.max;
        var k :| FitsFirstAt(p.heap, s, size, k) && s[k] == c;
        RelinkInside(p.heap, p.max, s, k, size);
      }
    } else {
      var c := Malloc(p, size).1.value - HeaderSize;
      var k :| FitsFirstAt(p.heap, s, size, k) && s[k] == c;
    }
  }
}
