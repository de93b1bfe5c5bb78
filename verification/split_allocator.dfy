/** The variable-size splitting allocator of t2.c, as written.

    `my_malloc` searches the header list first-fit and splits the chosen block
    into an allocated part and a free remainder; `my_free` recovers the header
    from the pointer and coalesces leftward, then rightward, through
    `merge_with_left_block`. Pointers are arena offsets; `None` is NULL.
 */
module SplitAllocator {
  import opened Wrappers
  import opened SplitHeap

  /** Allocator state: the headers in the arena and the offset of
      max_address_of_pool, which is the capacity given to init. */
  datatype Pool = Pool(heap: Heap, max: nat)

  /** The first header exists and every header's links are sound. */
  ghost predicate WellFormed(p: Pool) {
    0 in p.heap && Ordered(p.heap, p.max)
  }

  /** The header list, from first_block_of_pool along `next` links. */
  function List(p: Pool): (s: seq<nat>)
    requires 0 in p.heap
    ensures |s| > 0 && s[0] == 0
    ensures forall i :: 0 <= i < |s| ==> s[i] in p.heap
  {
    Chain(p.heap, p.max, 0)
  }

  // ---------------------------------------------------------------- init

  /** my_allocator_init: one free header at the start of the arena. Its
      block size is the whole capacity rather than the capacity less one
      header, so the list accounts for one header more than the arena holds. */
  function Init(size: nat): (p: Pool)
    ensures WellFormed(p) && p.max == size
    ensures List(p) == [0]
    ensures !p.heap[0].isAllocated && p.heap[0].blockStart == HeaderSize
    ensures Footprint(p.heap, List(p)) == size + HeaderSize
  {
    Pool(map[0 := Header(None, None, HeaderSize, size, false)], size)
  }

  // ---------------------------------------------------------------- malloc

  /** A header can serve a request of `size` bytes: it is free and big
      enough to hold the request and the header of the remainder. */
  predicate Fits(hd: Header, size: nat) {
    !hd.isAllocated && size + HeaderSize <= hd.blockSize
  }

  /** `r` is the first header of `s` that fits, or `None` when none does. */
  ghost predicate IsFirstFit(h: Heap, s: seq<nat>, size: nat, r: Option<nat>)
    requires forall i :: 0 <= i < |s| ==> s[i] in h
  {
    match r
    case None => forall i :: 0 <= i < |s| ==> !Fits(h[s[i]], size)
    case Some(c) => exists k :: FitsFirstAt(h, s, size, k) && s[k] == c
  }

  /** Position `k` of `s` fits and no earlier position does. */
  ghost predicate FitsFirstAt(h: Heap, s: seq<nat>, size: nat, k: int)
    requires forall i :: 0 <= i < |s| ==> s[i] in h
  {
    && 0 <= k < |s|
    && Fits(h[s[k]], size)
    && forall i :: 0 <= i < k ==> !Fits(h[s[i]], size)
  }

  /** The search loop of my_malloc, from header `cur` on. */
  function FindFit(h: Heap, max: nat, cur: nat, size: nat): (r: Option<nat>)
    requires Ordered(h, max) && cur in h
    ensures r.Some? ==> r.value in h && cur <= r.value && Fits(h[r.value], size)
    decreases max - cur
  {
    if !Fits(h[cur], size) then
      match h[cur].next
      case None => None
      case Some(n) =>
        assert LinksOk(h, max, cur) && LinksOk(h, max, n);
        FindFit(h, max, n, size)
    else Some(cur)
  }

  /** First fit: the search picks the first header along the list that is
      free and large enough, and fails only when no header is. */
  lemma {:induction false} FindFitIsFirstFit(h: Heap, max: nat, cur: nat, size: nat)
    requires Ordered(h, max) && cur in h
    ensures IsFirstFit(h, Chain(h, max, cur), size, FindFit(h, max, cur, size))
    decreases max - cur
  {
    var s := Chain(h, max, cur);
    if Fits(h[cur], size) {
      assert FitsFirstAt(h, s, size, 0);
    } else {
      match h[cur].next
      case None =>
        assert s == [cur];
      case Some(n) =>
        assert LinksOk(h, max, cur) && LinksOk(h, max, n);
        var tail := Chain(h, max, n);
        assert s == [cur] + tail;
        FindFitIsFirstFit(h, max, n, size);
        match FindFit(h, max, n, size)
        case None =>
          forall i | 0 <= i < |s|
            ensures !Fits(h[s[i]], size)
          {
            if i > 0 {
              assert s[i] == tail[i - 1];
            }
          }
        case Some(c) =>
          var k :| FitsFirstAt(h, tail, size, k) && tail[k] == c;
          forall i | 0 <= i < k + 1
            ensures !Fits(h[s[i]], size)
          {
            if i > 0 {
              assert s[i] == tail[i - 1];
            }
          }
          assert FitsFirstAt(h, s, size, k + 1) && s[k + 1] == c;
    }
  }

  /** Where the remainder header goes when header `c` serves `size` bytes. */
  function SplitPoint(c: nat, size: nat): nat {
    c + HeaderSize + size
  }

  /** The split of my_malloc. The remainder header takes over the old `next`
      of `c` and points back at `c`; `c` keeps `size` bytes and is marked
      allocated. The old successor's `prev` is left untouched. */
  function Split(h: Heap, c: nat, size: nat): (r: Heap)
    requires c in h && size + HeaderSize <= h[c].blockSize
    ensures r.Keys == h.Keys + {SplitPoint(c, size)}
    ensures r[c].isAllocated && r[c].blockSize == size && r[c].blockStart == c + HeaderSize
    ensures r[c].next == Some(SplitPoint(c, size)) && r[c].prev == h[c].prev
    ensures var rest := r[SplitPoint(c, size)];
      && !rest.isAllocated && rest.prev == Some(c) && rest.next == h[c].next
      && rest.blockStart == SplitPoint(c, size) + HeaderSize
      && size + HeaderSize + rest.blockSize == h[c].blockSize
    ensures forall o :: o in h && o != c && o != SplitPoint(c, size) ==> r[o] == h[o]
  {
    var cur := h[c];
    var at := SplitPoint(c, size);
    var rest := Header(cur.next, Some(c), at + HeaderSize, cur.blockSize - HeaderSize - size, false);
    h[at := rest][c := cur.(next := Some(at), blockSize := size, blockStart := c + HeaderSize, isAllocated := true)]
  }

  /** A split keeps every link sound, provided the block being split does
      not run past its successor. */
  lemma SplitOrdered(h: Heap, max: nat, c: nat, size: nat)
    requires Ordered(h, max) && c in h && size + HeaderSize <= h[c].blockSize
    requires SplitPoint(c, size) <= max
    requires h[c].next.Some? ==> c + HeaderSize + h[c].blockSize <= h[c].next.value
    ensures Ordered(Split(h, c, size), max)
  {
    var r := Split(h, c, size);
    var at := SplitPoint(c, size);
    forall o | o in r
      ensures LinksOk(r, max, o)
    {
      if o != c && o != at {
        assert LinksOk(h, max, o);
      } else {
        assert LinksOk(h, max, c);
      }
    }
  }

  /** In a list where no block runs past its successor, a listed header's
      block ends at or before its `next` header. */
  lemma ListedSpans(h: Heap, max: nat, s: seq<nat>, k: nat)
    requires Ordered(h, max) && IsChain(h, s) && Spans(h, s) && k < |s|
    ensures h[s[k]].next.Some? ==> s[k] + HeaderSize + h[s[k]].blockSize <= h[s[k]].next.value
  {
    if k < |s| - 1 {
      assert h[s[k]].next == Some(s[k + 1]);
    }
  }

  /** my_malloc. The first fitting header along the list is split; the result
      is the body just after that header. When no header fits, or when the
      remainder header would start past max_address_of_pool, the result is
      NULL and no header changes. */
  function Malloc(p: Pool, size: nat): (r: (Pool, Option<nat>))
    requires WellFormed(p) && Spans(p.heap, List(p))
    ensures WellFormed(r.0) && r.0.max == p.max
    ensures r.1.None? ==> r.0 == p
    ensures r.1.Some? ==>
      && r.1.value >= HeaderSize
      && r.1.value - HeaderSize in p.heap && Fits(p.heap[r.1.value - HeaderSize], size)
      && SplitPoint(r.1.value - HeaderSize, size) <= p.max
      && r.0.heap == Split(p.heap, r.1.value - HeaderSize, size)
  {
    match FindFit(p.heap, p.max, 0, size)
    case None => (p, None)
    case Some(c) =>
      if SplitPoint(c, size) > p.max then (p, None)
      else
        FoundSpans(p, size);
        (SplitAt(p, c, size), Some(c + HeaderSize))
  }

  /** The state after header `c` is split to serve `size` bytes. */
  function SplitAt(p: Pool, c: nat, size: nat): (r: Pool)
    requires WellFormed(p) && c in p.heap && Fits(p.heap[c], size)
    requires SplitPoint(c, size) <= p.max
    requires p.heap[c].next.Some? ==> c + HeaderSize + p.heap[c].blockSize <= p.heap[c].next.value
    ensures WellFormed(r) && r.max == p.max && r.heap == Split(p.heap, c, size)
  {
    SplitOrdered(p.heap, p.max, c, size);
    Pool(Split(p.heap, c, size), p.max)
  }

  /** The header the search finds is listed, so its block does not run past
      its successor. */
  lemma FoundSpans(p: Pool, size: nat)
    requires WellFormed(p) && Spans(p.heap, List(p))
    requires FindFit(p.heap, p.max, 0, size).Some?
    ensures var c := FindFit(p.heap, p.max, 0, size).value;
      p.heap[c].next.Some? ==> c + HeaderSize + p.heap[c].blockSize <= p.heap[c].next.value
  {
    FindFitIsFirstFit(p.heap, p.max, 0, size);
    var c := FindFit(p.heap, p.max, 0, size).value;
    var k :| FitsFirstAt(p.heap, List(p), size, k) && List(p)[k] == c;
    ListedSpans(p.heap, p.max, List(p), k);
  }

  /** The outcome of my_malloc against the list: a pointer exactly when the
      first fitting header leaves room for the remainder header below
      max_address_of_pool, and then that header is the one split. */
  lemma MallocIsFirstFit(p: Pool, size: nat)
    requires WellFormed(p) && Spans(p.heap, List(p))
    ensures var r := Malloc(p, size).1;
      r.Some? ==> IsFirstFit(p.heap, List(p), size, Some(r.value - HeaderSize))
    ensures var r := Malloc(p, size).1;
      r.None? ==>
        (|| IsFirstFit(p.heap, List(p), size, None)
         || exists c :: IsFirstFit(p.heap, List(p), size, Some(c)) && SplitPoint(c, size) > p.max)
  {
    FindFitIsFirstFit(p.heap, p.max, 0, size);
  }

  /** The split inserts the remainder header into the list right after the
      split header. */
  lemma SplitChain(h: Heap, max: nat, s: seq<nat>, k: nat, size: nat)
    requires Ordered(h, max) && IsChain(h, s) && Spans(h, s) && k < |s|
    requires size + HeaderSize <= h[s[k]].blockSize && SplitPoint(s[k], size) <= max
    ensures IsChain(Split(h, s[k], size), InsertAfter(s, k, SplitPoint(s[k], size)))
  {
    var c := s[k];
    var at := SplitPoint(c, size);
    var r := Split(h, c, size);
    var t := InsertAfter(s, k, at);
    ChainIncreasing(h, s, max);
    forall i | 0 <= i < |t|
      ensures t[i] in r
    {
    }
    forall i | 0 <= i < |t| - 1
      ensures r[t[i]].next == Some(t[i + 1])
    {
      if i < k {
        assert s[i] < c && r[s[i]] == h[s[i]];
        assert h[s[i]].next == Some(s[i + 1]);
      } else if i == k + 1 {
        assert h[c].next == Some(s[k + 1]);
      } else if i > k + 1 {
        assert at < s[k + 1] <= s[i - 1];
        assert r[s[i - 1]] == h[s[i - 1]];
        assert h[s[i - 1]].next == Some(s[i]);
      }
    }
    if k == |s| - 1 {
      assert r[t[|t| - 1]].next == h[c].next;
    } else {
      assert at < s[k + 1] <= s[|s| - 1];
      assert r[s[|s| - 1]] == h[s[|s| - 1]];
    }
  }

  /** After a split no listed block runs past its successor. */
  lemma SplitSpans(h: Heap, max: nat, s: seq<nat>, k: nat, size: nat)
    requires Ordered(h, max) && IsChain(h, s) && Spans(h, s) && k < |s|
    requires size + HeaderSize <= h[s[k]].blockSize && SplitPoint(s[k], size) <= max
    ensures Spans(Split(h, s[k], size), InsertAfter(s, k, SplitPoint(s[k], size)))
  {
    var c := s[k];
    var at := SplitPoint(c, size);
    var r := Split(h, c, size);
    var t := InsertAfter(s, k, at);
    ChainIncreasing(h, s, max);
    forall i | 0 <= i < |t| - 1 && t[i] in r
      ensures t[i] + HeaderSize + r[t[i]].blockSize <= t[i + 1]
    {
      if i < k {
        assert s[i] < c && r[s[i]] == h[s[i]];
      } else if i == k + 1 {
        assert c + HeaderSize + h[c].blockSize <= s[k + 1];
      } else if i > k + 1 {
        assert at < s[k + 1] <= s[i - 1];
        assert r[s[i - 1]] == h[s[i - 1]];
      }
    }
  }

  /** A split keeps the footprint of the list: the remainder gets exactly what
      the allocated part gives up, header included. */
  lemma SplitFootprint(h: Heap, max: nat, s: seq<nat>, k: nat, size: nat)
    requires Ordered(h, max) && IsChain(h, s) && Spans(h, s) && k < |s|
    requires size + HeaderSize <= h[s[k]].blockSize && SplitPoint(s[k], size) <= max
    ensures var t := InsertAfter(s, k, SplitPoint(s[k], size));
      && (forall i :: 0 <= i < |t| ==> t[i] in Split(h, s[k], size))
      && Footprint(Split(h, s[k], size), t) == Footprint(h, s)
  {
    var c := s[k];
    var at := SplitPoint(c, size);
    var r := Split(h, c, size);
    var t := InsertAfter(s, k, at);
    SplitFrames(h, max, s, k, size);
    FootprintAt(h, s, k);
    FootprintAt(r, t, k + 1);
    assert t[..k + 1] == s[..k + 1];
    assert t[k + 2..] == s[k + 1..];
    FootprintAt(r, s[..k + 1], k);
    assert s[..k + 1][..k] == s[..k];
    assert s[..k + 1][k + 1..] == [];
  }

  /** The headers listed before and after the split one keep their blocks. */
  lemma SplitFrames(h: Heap, max: nat, s: seq<nat>, k: nat, size: nat)
    requires Ordered(h, max) && IsChain(h, s) && Spans(h, s) && k < |s|
    requires size + HeaderSize <= h[s[k]].blockSize && SplitPoint(s[k], size) <= max
    ensures forall i :: 0 <= i < |s| ==> s[i] in Split(h, s[k], size)
    ensures Footprint(Split(h, s[k], size), s[..k]) == Footprint(h, s[..k])
    ensures Footprint(Split(h, s[k], size), s[k + 1..]) == Footprint(h, s[k + 1..])
  {
    var c := s[k];
    var at := SplitPoint(c, size);
    var r := Split(h, c, size);
    ChainIncreasing(h, s, max);
    var pre, post := s[..k], s[k + 1..];
    forall i | 0 <= i < |pre|
      ensures pre[i] in r && h[pre[i]].blockSize == r[pre[i]].blockSize
    {
      assert pre[i] == s[i] < c;
    }
    FootprintFrame(h, r, pre);
    forall i | 0 <= i < |post|
      ensures post[i] in r && h[post[i]].blockSize == r[post[i]].blockSize
    {
      assert post[i] == s[k + 1 + i];
      assert at < s[k + 1] <= s[k + 1 + i];
    }
    FootprintFrame(h, r, post);
  }

  /** Splitting the header at position `k` of the list inserts the remainder
      header right after it, keeps the footprint, and keeps every listed
      block within its successor. */
  lemma SplitList(p: Pool, k: nat, size: nat)
    requires WellFormed(p) && Spans(p.heap, List(p)) && k < |List(p)|
    requires size + HeaderSize <= p.heap[List(p)[k]].blockSize
    requires SplitPoint(List(p)[k], size) <= p.max
    ensures var q := Pool(Split(p.heap, List(p)[k], size), p.max);
      && 0 in q.heap
      && List(q) == InsertAfter(List(p), k, SplitPoint(List(p)[k], size))
      && Spans(q.heap, List(q))
      && Footprint(q.heap, List(q)) == Footprint(p.heap, List(p))
  {
    var s := List(p);
    var h := p.heap;
    ListedSpans(h, p.max, s, k);
    SplitOrdered(h, p.max, s[k], size);
    SplitChain(h, p.max, s, k, size);
    SplitSpans(h, p.max, s, k, size);
    SplitFootprint(h, p.max, s, k, size);
    var t := InsertAfter(s, k, SplitPoint(s[k], size));
    ChainUnique(Split(h, s[k], size), p.max, t);
  }

  /** Listing-level view of my_malloc: on success the list gains the
      remainder header right after the allocated one. */
  lemma MallocSplitsList(p: Pool, size: nat)
    requires WellFormed(p) && Spans(p.heap, List(p))
    ensures var (q, r) := Malloc(p, size);
      r.Some? ==> SplitInto(List(p), List(q), r.value - HeaderSize, size)
  {
    var (q, r) := Malloc(p, size);
    if r.Some? {
      var k := MallocPosition(p, size);
      SplitList(p, k, size);
    }
  }

  /** my_malloc keeps the footprint of the list, and no listed block runs
      past its successor afterwards. */
  lemma MallocKeepsFootprint(p: Pool, size: nat)
    requires WellFormed(p) && Spans(p.heap, List(p))
    ensures var q := Malloc(p, size).0;
      && Spans(q.heap, List(q))
      && Footprint(q.heap, List(q)) == Footprint(p.heap, List(p))
  {
    if Malloc(p, size).1.Some? {
      var k := MallocPosition(p, size);
      SplitList(p, k, size);
    }
  }

  /** The list position of the header my_malloc splits. */
  lemma MallocPosition(p: Pool, size: nat) returns (k: nat)
    requires WellFormed(p) && Spans(p.heap, List(p))
    requires Malloc(p, size).1.Some?
    ensures var (q, r) := Malloc(p, size);
      && k < |List(p)| && List(p)[k] == r.value - HeaderSize
      && size + HeaderSize <= p.heap[List(p)[k]].blockSize
      && SplitPoint(List(p)[k], size) <= p.max
      && q == Pool(Split(p.heap, List(p)[k], size), p.max)
  {
    var c := Malloc(p, size).1.value - HeaderSize;
    MallocIsFirstFit(p, size);
    assert IsFirstFit(p.heap, List(p), size, Some(c));
    k :| FitsFirstAt(p.heap, List(p), size, k) && List(p)[k] == c;
  }

  /** `t` is `s` with the remainder header of `c` placed right after `c`. */
  ghost predicate SplitInto(s: seq<nat>, t: seq<nat>, c: nat, size: nat) {
    exists k :: 0 <= k < |s| && s[k] == c && t == InsertAfter(s, k, SplitPoint(c, size))
  }

  // ---------------------------------------------------------------- free

  /** merge_with_left_block: the `prev` header of `c` takes over `c`'s `next`
      and absorbs `c`'s block and header; the header after `c`, if any, now
      points back at that `prev`. Nothing else is written, and `c`'s own bytes
      stay as they were. */
  function MergeWithLeft(h: Heap, max: nat, c: nat): (r: Heap)
    requires Ordered(h, max) && c in h && h[c].prev.Some?
    ensures r.Keys == h.Keys
    ensures forall o :: o in h ==> r[o].isAllocated == h[o].isAllocated
    ensures var q := h[c].prev.value;
      && q in h && (h[c].next.Some? ==> h[c].next.value in h)
      && r[q] == h[q].(next := h[c].next, blockSize := h[q].blockSize + h[c].blockSize + HeaderSize)
      && (h[c].next.Some? ==> r[h[c].next.value] == h[h[c].next.value].(prev := Some(q)))
      && (forall o :: o in h && o != q && Some(o) != h[c].next ==> r[o] == h[o])
  {
    var q := h[c].prev.value;
    assert LinksOk(h, max, c);
    var h1 := h[q := h[q].(next := h[c].next, blockSize := h[q].blockSize + h[c].blockSize + HeaderSize)];
    match h[c].next
    case None => h1
    case Some(n) => h1[n := h1[n].(prev := Some(q))]
  }

  /** A merge keeps every link sound. */
  lemma MergeKeepsLinks(h: Heap, max: nat, c: nat)
    requires Ordered(h, max) && c in h && h[c].prev.Some?
    ensures Ordered(MergeWithLeft(h, max, c), max)
  {
    var r := MergeWithLeft(h, max, c);
    assert LinksOk(h, max, c);
    forall o | o in r
      ensures LinksOk(r, max, o)
    {
      assert LinksOk(h, max, o);
    }
  }

  /** When `c`'s `prev` is its predecessor in the list, the merge unlinks
      exactly `c`: the list loses that one header. */
  lemma MergeUnlinks(h: Heap, max: nat, s: seq<nat>, k: nat)
    requires Ordered(h, max) && IsChain(h, s) && 0 < k < |s|
    requires h[s[k]].prev == Some(s[k - 1])
    ensures IsChain(MergeWithLeft(h, max, s[k]), RemoveAt(s, k))
  {
    var c := s[k];
    var q := s[k - 1];
    var r := MergeWithLeft(h, max, c);
    var t := RemoveAt(s, k);
    ChainIncreasing(h, s, max);
    forall i | 0 <= i < |t|
      ensures t[i] in r
    {
    }
    forall i | 0 <= i < |t| - 1
      ensures r[t[i]].next == Some(t[i + 1])
    {
      if i < k - 1 {
        assert s[i] < q && s[i] < c;
        if k < |s| - 1 {
          assert h[c].next == Some(s[k + 1]) && s[i] < s[k + 1];
        }
        assert r[s[i]] == h[s[i]];
        assert h[s[i]].next == Some(s[i + 1]);
      } else if i == k - 1 {
        assert h[c].next == Some(s[k + 1]);
      } else {
        assert h[s[i + 1]].next == Some(s[i + 2]);
        assert s[i + 1] > c;
        if Some(s[i + 1]) != h[c].next {
          assert r[s[i + 1]] == h[s[i + 1]];
        }
      }
    }
    var last := t[|t| - 1];
    if k == |s| - 1 {
      assert last == q && h[c].next == None;
    } else {
      assert last == s[|s| - 1] && last > c;
      if Some(last) != h[c].next {
        assert r[last] == h[last];
      }
    }
  }

  /** A merge through an exact `prev` link keeps the footprint of the list:
      the predecessor absorbs the merged block and its header. */
  lemma MergeFootprint(h: Heap, max: nat, s: seq<nat>, k: nat)
    requires Ordered(h, max) && IsChain(h, s) && 0 < k < |s|
    requires h[s[k]].prev == Some(s[k - 1])
    ensures var t := RemoveAt(s, k);
      && (forall i :: 0 <= i < |t| ==> t[i] in MergeWithLeft(h, max, s[k]))
      && Footprint(MergeWithLeft(h, max, s[k]), t) == Footprint(h, s)
  {
    var c := s[k];
    var q := s[k - 1];
    var r := MergeWithLeft(h, max, c);
    var t := RemoveAt(s, k);
    MergeFrames(h, max, s, k);
    FootprintAt(h, s, k);
    FootprintAt(h, s[..k], k - 1);
    FootprintAt(r, t, k - 1);
    assert s[..k][..k - 1] == s[..k - 1] && s[..k][k..] == [];
    assert t[..k - 1] == s[..k - 1];
    assert t[k..] == s[k + 1..];
  }

  /** The headers listed before the merged pair and after it keep their
      blocks. */
  lemma MergeFrames(h: Heap, max: nat, s: seq<nat>, k: nat)
    requires Ordered(h, max) && IsChain(h, s) && 0 < k < |s|
    requires h[s[k]].prev == Some(s[k - 1])
    ensures forall i :: 0 <= i < |s| ==> s[i] in MergeWithLeft(h, max, s[k])
    ensures Footprint(MergeWithLeft(h, max, s[k]), s[..k - 1]) == Footprint(h, s[..k - 1])
    ensures Footprint(MergeWithLeft(h, max, s[k]), s[k + 1..]) == Footprint(h, s[k + 1..])
  {
    var c := s[k];
    var q := s[k - 1];
    var r := MergeWithLeft(h, max, c);
    ChainIncreasing(h, s, max);
    var pre, post := s[..k - 1], s[k + 1..];
    forall i | 0 <= i < |pre|
      ensures pre[i] in r && h[pre[i]].blockSize == r[pre[i]].blockSize
    {
      assert pre[i] == s[i] < q;
    }
    FootprintFrame(h, r, pre);
    forall i | 0 <= i < |post|
      ensures post[i] in r && h[post[i]].blockSize == r[post[i]].blockSize
    {
      assert post[i] == s[k + 1 + i] && q < s[k + 1 + i];
      if Some(post[i]) != h[c].next {
        assert r[post[i]] == h[post[i]];
      }
    }
    FootprintFrame(h, r, post);
  }

  /** A merge through an exact `prev` link keeps every listed block within
      its successor. */
  lemma MergeSpans(h: Heap, max: nat, s: seq<nat>, k: nat)
    requires Ordered(h, max) && IsChain(h, s) && Spans(h, s) && 0 < k < |s|
    requires h[s[k]].prev == Some(s[k - 1])
    ensures Spans(MergeWithLeft(h, max, s[k]), RemoveAt(s, k))
  {
    var c := s[k];
    var q := s[k - 1];
    var r := MergeWithLeft(h, max, c);
    var t := RemoveAt(s, k);
    ChainIncreasing(h, s, max);
    forall i | 0 <= i < |t| - 1 && t[i] in r
      ensures t[i] + HeaderSize + r[t[i]].blockSize <= t[i + 1]
    {
      if i == k - 1 {
        assert q + HeaderSize + h[q].blockSize <= c;
        assert c + HeaderSize + h[c].blockSize <= s[k + 1];
      } else if i < k - 1 {
        assert s[i] < q && r[s[i]] == h[s[i]];
      } else {
        assert s[i + 1] > q;
        assert h[c].next.None? || h[c].next == Some(s[k + 1]);
        assert r[s[i + 1]].blockSize == h[s[i + 1]].blockSize;
      }
    }
  }

  /** The leftward loop of my_free: while the `prev` header exists and is
      free, merge the current header into it and move to it. The extra
      NULL test after the move repeats the loop test and is folded into it.
      The loop ends at a header whose `prev` is missing or allocated. Only
      free headers absorb blocks, so no allocated header changes size. */
  function CoalesceLeft(h: Heap, max: nat, c: nat): (r: (Heap, nat))
    requires Ordered(h, max) && c in h
    ensures Ordered(r.0, max) && r.0.Keys == h.Keys
    ensures forall o :: o in h ==> r.0[o].isAllocated == h[o].isAllocated
    ensures r.1 in h && r.1 <= c
    ensures r.0[r.1].prev.None? || (r.0[r.1].prev.value in r.0 && r.0[r.0[r.1].prev.value].isAllocated)
    ensures !h[c].isAllocated ==> !r.0[r.1].isAllocated
    ensures forall o :: o in h && h[o].isAllocated ==> r.0[o].blockSize == h[o].blockSize
    decreases c
  {
    assert LinksOk(h, max, c);
    match h[c].prev
    case None => (h, c)
    case Some(q) =>
      if h[q].isAllocated then (h, c)
      else
        MergeKeepsLinks(h, max, c);
        CoalesceLeft(MergeWithLeft(h, max, c), max, q)
  }

  /** The rightward loop of my_free: while the `next` header exists and is
      free, merge it into its own `prev` and step to the current header's
      `next`. The step skips past the merged block, so the loop can go on
      from an allocated header and merge a free block into it. The loop ends
      at a header whose `next` is missing or allocated. */
  function CoalesceRight(h: Heap, max: nat, c: nat): (r: (Heap, nat))
    requires Ordered(h, max) && c in h
    ensures Ordered(r.0, max) && r.0.Keys == h.Keys
    ensures forall o :: o in h ==> r.0[o].isAllocated == h[o].isAllocated
    ensures r.1 in h && c <= r.1
    ensures r.0[r.1].next.None? || (r.0[r.1].next.value in r.0 && r.0[r.0[r.1].next.value].isAllocated)
    decreases max - c
  {
    assert LinksOk(h, max, c);
    match h[c].next
    case None => (h, c)
    case Some(n) =>
      if h[n].isAllocated then (h, c)
      else
        assert LinksOk(h, max, n);
        MergeKeepsLinks(h, max, n);
        var h1 := MergeWithLeft(h, max, n);
        assert LinksOk(h1, max, c);
        match h1[c].next
        case None => (h1, c)
        case Some(n2) =>
          assert LinksOk(h1, max, n2);
          CoalesceRight(h1, max, n2)
  }

  /** my_free. The header is recovered one header before the pointer, marked
      free, and coalesced leftward and then rightward. No header is created or
      dropped from the arena, no other header's allocated flag changes, and
      all links stay sound. */
  function Free(p: Pool, ptr: nat): (r: Pool)
    requires WellFormed(p) && ptr >= HeaderSize && ptr - HeaderSize in p.heap
    ensures WellFormed(r) && r.max == p.max && r.heap.Keys == p.heap.Keys
    ensures !r.heap[ptr - HeaderSize].isAllocated
    ensures forall o :: o in p.heap && o != ptr - HeaderSize ==>
      r.heap[o].isAllocated == p.heap[o].isAllocated
  {
    var c := ptr - HeaderSize;
    var marked := Release(p.heap, p.max, c);
    var left := CoalesceLeft(marked, p.max, c);
    var right := CoalesceRight(left.0, p.max, left.1);
    Pool(right.0, p.max)
  }

  /** The first step of my_free: only the allocated flag of `c` changes. */
  function Release(h: Heap, max: nat, c: nat): (r: Heap)
    requires Ordered(h, max) && c in h
    ensures Ordered(r, max) && r.Keys == h.Keys && !r[c].isAllocated
    ensures forall o :: o in h ==>
      r[o].next == h[o].next && r[o].prev == h[o].prev && r[o].blockSize == h[o].blockSize
    ensures forall o :: o in h && o != c ==> r[o] == h[o]
  {
    var r := h[c := h[c].(isAllocated := false)];
    assert forall o | o in r :: LinksOk(r, max, o) by {
      forall o | o in r
        ensures LinksOk(r, max, o)
      {
        assert LinksOk(h, max, o);
      }
    }
    r
  }

  /** The pointer my_malloc returns leads my_free back to the header it
      allocated: one header before the pointer. */
  lemma MallocFreeRecoversHeader(p: Pool, size: nat)
    requires WellFormed(p) && Spans(p.heap, List(p))
    ensures var (q, r) := Malloc(p, size);
      r.Some? ==>
        && r.value >= HeaderSize
        && r.value - HeaderSize in q.heap
        && q.heap[r.value - HeaderSize].isAllocated
        && q.heap[r.value - HeaderSize].blockStart == r.value
        && !Free(q, r.value).heap[r.value - HeaderSize].isAllocated
  {
    var (q, r) := Malloc(p, size);
    if r.Some? {
      var c := r.value - HeaderSize;
      assert q.heap == Split(p.heap, c, size);
      assert c in q.heap && q.heap[c].isAllocated;
    }
  }
}
