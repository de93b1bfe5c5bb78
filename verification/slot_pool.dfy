/** The fixed-slot pool allocator of t1.c.

    The arena is cut into `N = capacity / Stride` equal slots. Slot `i` has its
    header at arena offset `i * Stride` and its 1024-byte body right after the
    header. Unallocated slots are threaded into a singly-linked free list
    through `nextFree`. Pointers are arena offsets and slots are indices, so a
    link is the index of the slot it points at. `Slot(N)` is the past-the-end
    link that init gives the last slot.
 */
module SlotPool {
  import opened Wrappers

  /** BLOCK_BODY_SIZE: the largest request a slot can serve. */
  const BodySize: nat := 1024
  /** sizeof(block_header) on LP64: two pointers and a flag, padded. */
  const HeaderSize: nat := 24
  /** BLOCK_SIZE: distance between consecutive slot headers. */
  const Stride: nat := 1048

  datatype Link = Null | Slot(index: nat)

  /** One slot header: free-list link, body address, occupancy flag. */
  datatype SlotHeader = SlotHeader(nextFree: Link, body: nat, isAllocated: bool)

  /** Allocator state: the slot table and the slot `first_free_block` points at. */
  datatype Pool = Pool(slots: seq<SlotHeader>, freeHead: nat)

  /** Arena offset of the body of slot `i`. */
  function BodyOffset(i: nat): nat {
    i * Stride + HeaderSize
  }

  /** `ptr` is the body address of one of the first `n` slots. */
  predicate IsBody(n: nat, ptr: nat) {
    ptr >= HeaderSize && (ptr - HeaderSize) % Stride == 0 && (ptr - HeaderSize) / Stride < n
  }

  /** The slot whose header lies `HeaderSize` bytes before `ptr`. */
  function SlotOf(ptr: nat): nat
    requires ptr >= HeaderSize
  {
    (ptr - HeaderSize) / Stride
  }

  /** Every link is null or points strictly forward, at most one past the end. */
  predicate ForwardLinks(slots: seq<SlotHeader>) {
    forall i :: 0 <= i < |slots| ==>
      slots[i].nextFree.Slot? ==> i < slots[i].nextFree.index <= |slots|
  }

  /** The state every operation keeps: a non-empty table, bodies where init put
      them, forward links, and a free head that names an unallocated slot. */
  predicate Valid(p: Pool) {
    && 0 < |p.slots|
    && p.freeHead < |p.slots|
    && !p.slots[p.freeHead].isAllocated
    && (forall i :: 0 <= i < |p.slots| ==> p.slots[i].body == BodyOffset(i))
    && ForwardLinks(p.slots)
  }

  // ---------------------------------------------------------------- init

  /** my_allocator_init: `capacity / Stride` slots, all unallocated, each
      linked to the next one; the last links past the end because the test for
      the last index can never succeed inside the loop. With no room for a
      single slot no pool is created. */
  function Init(capacity: nat): (r: Option<Pool>)
    ensures r.None? <==> capacity < Stride
    ensures r.Some? ==> Valid(r.value) && r.value.freeHead == 0
    ensures r.Some? ==>
      |r.value.slots| * Stride <= capacity < (|r.value.slots| + 1) * Stride
    ensures r.Some? ==> forall i :: 0 <= i < |r.value.slots| ==>
      !r.value.slots[i].isAllocated && r.value.slots[i].nextFree == Slot(i + 1)
  {
    var n := capacity / Stride;
    if n == 0 then None
    else Some(Pool(seq(n, i requires 0 <= i < n => SlotHeader(Slot(i + 1), BodyOffset(i), false)), 0))
  }

  // ---------------------------------------------------------------- malloc

  /** Some unallocated slot is reachable by following links forward from slot
      `i`, not counting `i` itself and never leaving the pool. */
  predicate FreeReachable(slots: seq<SlotHeader>, i: nat)
    requires i < |slots|
    decreases |slots| - i
  {
    match slots[i].nextFree
    case Null => false
    case Slot(j) => i < j < |slots| && (!slots[j].isAllocated || FreeReachable(slots, j))
  }

  /** The slots visited by following links forward from `i` while they stay
      inside the pool. */
  function LinkPath(slots: seq<SlotHeader>, i: nat): (path: seq<nat>)
    requires i < |slots|
    ensures |path| > 0 && path[0] == i
    ensures forall k :: 0 <= k < |path| ==> i <= path[k] < |slots|
    decreases |slots| - i
  {
    match slots[i].nextFree
    case Null => [i]
    case Slot(j) => if i < j < |slots| then [i] + LinkPath(slots, j) else [i]
  }

  /** The walk of my_malloc: from `cur`, follow links until an unallocated
      slot is met. */
  function NextUnallocated(slots: seq<SlotHeader>, cur: nat): (f: nat)
    requires cur < |slots|
    requires !slots[cur].isAllocated || FreeReachable(slots, cur)
    ensures cur <= f < |slots| && !slots[f].isAllocated
    decreases |slots| - cur
  {
    if !slots[cur].isAllocated then cur
    else NextUnallocated(slots, slots[cur].nextFree.index)
  }

  /** Every slot among the first `k` of `path` is an allocated slot of the pool. */
  ghost predicate AllocatedBefore(slots: seq<SlotHeader>, path: seq<nat>, k: nat) {
    forall m :: 0 <= m < k && m < |path| ==> path[m] < |slots| && slots[path[m]].isAllocated
  }

  /** Position `k` of `path` holds `f`, and every slot before it is allocated. */
  ghost predicate FirstFreeOnPath(slots: seq<SlotHeader>, path: seq<nat>, f: nat, k: nat) {
    k < |path| && path[k] == f && AllocatedBefore(slots, path, k)
  }

  /** Position `k > 0` of `path` holds the unallocated slot `f`, and every slot
      strictly between the start and it is allocated. */
  ghost predicate FirstFreeAfterStart(slots: seq<SlotHeader>, path: seq<nat>, f: nat, k: nat) {
    && 0 < k < |path| && path[k] == f
    && f < |slots| && !slots[f].isAllocated
    && forall m :: 0 < m < k ==> path[m] < |slots| && slots[path[m]].isAllocated
  }

  /** The walk stops at the first unallocated slot on the link path: every slot
      the walk passes before it is allocated. */
  lemma {:induction false} NextUnallocatedIsFirstOnPath(slots: seq<SlotHeader>, cur: nat)
    requires cur < |slots|
    requires !slots[cur].isAllocated || FreeReachable(slots, cur)
    ensures exists k: nat :: FirstFreeOnPath(slots, LinkPath(slots, cur), NextUnallocated(slots, cur), k)
    decreases |slots| - cur
  {
    var f := NextUnallocated(slots, cur);
    var path := LinkPath(slots, cur);
    if !slots[cur].isAllocated {
      assert f == cur;
      assert path[0] == f && AllocatedBefore(slots, path, 0);
      assert FirstFreeOnPath(slots, path, f, 0);
    } else {
      var j := slots[cur].nextFree.index;
      NextUnallocatedIsFirstOnPath(slots, j);
      var tail := LinkPath(slots, j);
      assert path == [cur] + tail;
      var k: nat :| FirstFreeOnPath(slots, tail, f, k);
      assert path[k + 1] == f;
      forall m | 0 <= m < k + 1
        ensures path[m] < |slots| && slots[path[m]].isAllocated
      {
        if m > 0 {
          assert path[m] == tail[m - 1];
        }
      }
      assert FirstFreeOnPath(slots, path, f, k + 1);
    }
  }

  /** Reachability of a free slot only depends on the slots after `i` and on
      the link of `i` itself. */
  lemma {:induction false} FreeReachableFrame(a: seq<SlotHeader>, b: seq<SlotHeader>, i: nat)
    requires i < |a| == |b|
    requires a[i].nextFree == b[i].nextFree
    requires forall m :: i < m < |a| ==> a[m] == b[m]
    ensures FreeReachable(a, i) == FreeReachable(b, i)
    decreases |a| - i
  {
    match a[i].nextFree
    case Null =>
    case Slot(j) =>
      if i < j < |a| {
        FreeReachableFrame(a, b, j);
      }
  }

  /** When every slot is allocated, no free slot is reachable, so my_malloc
      would walk off the end of the chain: that state is outside the model. */
  lemma ExhaustedPoolHasNoReachableFree(slots: seq<SlotHeader>, i: nat)
    requires i < |slots|
    requires forall m :: 0 <= m < |slots| ==> slots[m].isAllocated
    ensures !FreeReachable(slots, i)
  {
    NoFreeAboveUnreachable(slots, i);
  }

  /** With no unallocated slot above `i`, no free slot is reachable from `i`. */
  lemma {:induction false} NoFreeAboveUnreachable(slots: seq<SlotHeader>, i: nat)
    requires i < |slots|
    requires forall m :: i < m < |slots| ==> slots[m].isAllocated
    ensures !FreeReachable(slots, i)
    decreases |slots| - i
  {
    match slots[i].nextFree
    case Null =>
    case Slot(j) =>
      if i < j < |slots| {
        NoFreeAboveUnreachable(slots, j);
      }
  }

  /** When the free head is the only unallocated slot, my_malloc's
      precondition fails: the walk after handing out that last slot would
      leave the pool, so a pool of N slots serves at most N - 1 requests
      here. A one-slot pool from init serves none. */
  lemma LastFreeSlotNotServed(p: Pool)
    requires Valid(p)
    requires forall m :: 0 <= m < |p.slots| && m != p.freeHead ==> p.slots[m].isAllocated
    ensures !FreeReachable(p.slots, p.freeHead)
    ensures Init(Stride).Some? && !FreeReachable(Init(Stride).value.slots, 0)
  {
    NoFreeAboveUnreachable(p.slots, p.freeHead);
    NoFreeAboveUnreachable(Init(Stride).value.slots, 0);
  }

  /** my_malloc. A request larger than a slot body fails without touching the
      state. Otherwise the slot at the free head is marked allocated and its
      body returned; the walk along the links from that slot finds the new
      free head, and the returned slot's link is cleared. The source walks off
      the chain when no free slot is reachable, so that is a precondition. */
  function Malloc(p: Pool, size: nat): (r: (Pool, Option<nat>))
    requires Valid(p)
    requires size <= BodySize ==> FreeReachable(p.slots, p.freeHead)
    ensures size > BodySize ==> r == (p, None)
    ensures size <= BodySize ==>
      var (q, ptr) := r;
      var h := p.freeHead;
      && Valid(q)
      && |q.slots| == |p.slots|
      && ptr == Some(BodyOffset(h))
      && q.slots[h].isAllocated && q.slots[h].nextFree == Null
      && h < q.freeHead && !q.slots[q.freeHead].isAllocated
      && (forall i :: 0 <= i < |p.slots| && i != h ==> q.slots[i] == p.slots[i])
  {
    if size > BodySize then (p, None)
    else
      var h := p.freeHead;
      var marked := p.slots[h := p.slots[h].(isAllocated := true)];
      FreeReachableFrame(p.slots, marked, h);
      var f := NextUnallocated(marked, h);
      var cleared := marked[h := marked[h].(nextFree := Null)];
      (Pool(cleared, f), Some(p.slots[h].body))
  }

  /** The new free head is the first unallocated slot met along the links from
      the slot just handed out, and that slot's link is cleared. */
  lemma MallocReanchorsAtFirstFreeOnPath(p: Pool, size: nat)
    requires Valid(p)
    requires size <= BodySize && FreeReachable(p.slots, p.freeHead)
    ensures Malloc(p, size).0.slots[p.freeHead].nextFree == Null
    ensures exists k: nat :: FirstFreeAfterStart(p.slots, LinkPath(p.slots, p.freeHead), Malloc(p, size).0.freeHead, k)
  {
    var h := p.freeHead;
    var marked := p.slots[h := p.slots[h].(isAllocated := true)];
    FreeReachableFrame(p.slots, marked, h);
    NextUnallocatedIsFirstOnPath(marked, h);
    var f := NextUnallocated(marked, h);
    var path := LinkPath(p.slots, h);
    LinkPathFrame(p.slots, marked, h);
    var k: nat :| FirstFreeOnPath(marked, path, f, k);
    assert k != 0 by { assert marked[h].isAllocated && !marked[f].isAllocated; }
    forall m | 0 < m < k
      ensures p.slots[path[m]].isAllocated
    {
      assert marked[path[m]].isAllocated;
      assert path[m] != h by { LinkPathIncreasing(p.slots, h, m); }
    }
    assert f != h;
    assert FirstFreeAfterStart(p.slots, path, f, k);
  }

  /** The link path only depends on the links of the slots it visits. */
  lemma {:induction false} LinkPathFrame(a: seq<SlotHeader>, b: seq<SlotHeader>, i: nat)
    requires i < |a| == |b|
    requires forall m :: i <= m < |a| ==> a[m].nextFree == b[m].nextFree
    ensures LinkPath(a, i) == LinkPath(b, i)
    decreases |a| - i
  {
    match a[i].nextFree
    case Null =>
    case Slot(j) =>
      if i < j < |a| {
        LinkPathFrame(a, b, j);
      }
  }

  /** Every slot after the first on a link path lies strictly after its start. */
  lemma {:induction false} LinkPathIncreasing(slots: seq<SlotHeader>, i: nat, m: nat)
    requires i < |slots|
    requires 0 < m < |LinkPath(slots, i)|
    ensures i < LinkPath(slots, i)[m]
    decreases |slots| - i
  {
    var j := slots[i].nextFree.index;
    assert LinkPath(slots, i) == [i] + LinkPath(slots, j);
    assert LinkPath(slots, i)[m] == LinkPath(slots, j)[m - 1];
  }

  // ---------------------------------------------------------------- free

  /** `j` is the nearest slot above `i` that is unallocated, or the
      past-the-end index when every slot above `i` is allocated. */
  ghost predicate NearestFreeAbove(slots: seq<SlotHeader>, i: nat, j: nat) {
    && i < j <= |slots|
    && (forall m :: i < m < j ==> slots[m].isAllocated)
    && (j < |slots| ==> !slots[j].isAllocated)
  }

  /** `k` is the nearest slot below `i` that is unallocated. */
  ghost predicate NearestFreeBelow(slots: seq<SlotHeader>, i: nat, k: nat) {
    && k < i <= |slots|
    && !slots[k].isAllocated
    && (forall m :: k < m < i ==> slots[m].isAllocated)
  }

  /** The forward stride scan of my_free, starting at slot `j`. It stops at the
      end of the pool, where the source keeps reading past the pool. */
  function ScanAhead(slots: seq<SlotHeader>, j: nat): (k: nat)
    requires 0 < j <= |slots|
    ensures NearestFreeAbove(slots, j - 1, k)
    decreases |slots| - j
  {
    if j == |slots| then j
    else if !slots[j].isAllocated then j
    else ScanAhead(slots, j + 1)
  }

  /** The backward stride scan of my_free, starting just below slot `i`;
      `None` when it runs below the first slot of the pool. */
  function ScanBehind(slots: seq<SlotHeader>, i: nat): (r: Option<nat>)
    requires i <= |slots|
    ensures r.Some? ==> NearestFreeBelow(slots, i, r.value)
    ensures r.None? ==> forall m :: 0 <= m < i ==> slots[m].isAllocated
  {
    if i == 0 then None
    else if !slots[i - 1].isAllocated then Some(i - 1)
    else ScanBehind(slots, i - 1)
  }

  /** my_free. The slot is recovered by stepping back one header from `ptr` and
      marked unallocated, then linked to the nearest unallocated slot above it.
      No other slot's allocated flag changes. */
  function Free(p: Pool, ptr: nat): (q: Pool)
    requires Valid(p) && IsBody(|p.slots|, ptr)
    ensures Valid(q) && |q.slots| == |p.slots|
    ensures var i := SlotOf(ptr);
      && !q.slots[i].isAllocated
      && q.slots[i].nextFree.Slot?
      && NearestFreeAbove(p.slots, i, q.slots[i].nextFree.index)
      && (forall m :: 0 <= m < |p.slots| && m != i ==> q.slots[m].isAllocated == p.slots[m].isAllocated)
  {
    var i := SlotOf(ptr);
    var linked := ReleaseSlot(p.slots, i);
    match ScanBehind(linked, i)
    case None => Pool(linked, i)
    case Some(k) => Pool(linked[k := linked[k].(nextFree := Slot(i))], p.freeHead)
  }

  /** The first half of my_free: mark slot `i` unallocated and link it to the
      nearest unallocated slot above it. */
  function ReleaseSlot(slots: seq<SlotHeader>, i: nat): (r: seq<SlotHeader>)
    requires i < |slots|
    ensures |r| == |slots|
    ensures !r[i].isAllocated && r[i].body == slots[i].body
    ensures r[i].nextFree.Slot? && NearestFreeAbove(slots, i, r[i].nextFree.index)
    ensures forall m :: 0 <= m < |slots| && m != i ==> r[m] == slots[m]
  {
    var marked := slots[i := slots[i].(isAllocated := false)];
    var j := ScanAhead(marked, i + 1);
    assert forall m :: i < m < |slots| ==> marked[m] == slots[m];
    marked[i := marked[i].(nextFree := Slot(j))]
  }

  /** The second half of my_free: the nearest unallocated slot below the freed
      one now links to it and the free head stays; when the backward scan runs
      below the pool instead, the freed slot becomes the free head. Either way
      at most one other slot changes, and only in its link. */
  lemma FreeRepairsPredecessor(p: Pool, ptr: nat)
    requires Valid(p) && IsBody(|p.slots|, ptr)
    ensures var q := Free(p, ptr); var i := SlotOf(ptr);
      (forall m :: 0 <= m < i ==> p.slots[m].isAllocated) ==>
        && q.freeHead == i
        && forall m :: 0 <= m < |p.slots| && m != i ==> q.slots[m] == p.slots[m]
    ensures var q := Free(p, ptr); var i := SlotOf(ptr);
      forall k: nat :: NearestFreeBelow(p.slots, i, k) ==>
        && q.freeHead == p.freeHead
        && q.slots[k].nextFree == Slot(i)
        && forall m :: 0 <= m < |p.slots| && m != i && m != k ==> q.slots[m] == p.slots[m]
  {
    var i := SlotOf(ptr);
    var linked := ReleaseSlot(p.slots, i);
    assert forall m :: 0 <= m < i ==> linked[m] == p.slots[m];
    match ScanBehind(linked, i)
    case None =>
    case Some(k) =>
      forall k': nat | NearestFreeBelow(p.slots, i, k')
        ensures k' == k
      {
        assert !p.slots[k].isAllocated && !p.slots[k'].isAllocated;
      }
  }

  /** The address my_malloc hands out is a slot body, and my_free recovers
      exactly that slot from it. */
  lemma BodySlotRoundTrip(i: nat, n: nat)
    requires i < n
    ensures IsBody(n, BodyOffset(i)) && SlotOf(BodyOffset(i)) == i
  {
  }

  /** Stepping back from a body address and forward again gives the address. */
  lemma SlotBodyRoundTrip(ptr: nat, n: nat)
    requires IsBody(n, ptr)
    ensures SlotOf(ptr) < n && BodyOffset(SlotOf(ptr)) == ptr
  {
  }

  /** Freeing the pointer my_malloc just returned releases the slot it took. */
  lemma MallocThenFree(p: Pool, size: nat)
    requires Valid(p)
    requires size <= BodySize && FreeReachable(p.slots, p.freeHead)
    ensures var (q, ptr) := Malloc(p, size);
      && ptr.Some? && IsBody(|q.slots|, ptr.value)
      && SlotOf(ptr.value) == p.freeHead
      && !Free(q, ptr.value).slots[p.freeHead].isAllocated
  {
    BodySlotRoundTrip(p.freeHead, |p.slots|);
  }

  /** On a fresh pool of at least two slots, my_malloc hands out the body of
      slot 0; my_free of that pointer puts the pool back exactly as init left
      it, so the next my_malloc hands out the same address again. */
  lemma FreshPoolRoundTrip(capacity: nat, size: nat)
    requires capacity >= 2 * Stride && size <= BodySize
    ensures Init(capacity).Some?
    ensures var p := Init(capacity).value;
      && FreeReachable(p.slots, p.freeHead)
      && Malloc(p, size).1 == Some(BodyOffset(0))
      && IsBody(|p.slots|, BodyOffset(0))
      && Free(Malloc(p, size).0, BodyOffset(0)) == p
      && Malloc(Free(Malloc(p, size).0, BodyOffset(0)), size).1 == Some(BodyOffset(0))
  {
    var p := Init(capacity).value;
    assert |p.slots| >= 2;
    assert !p.slots[1].isAllocated && p.slots[0].nextFree == Slot(1);
    assert FreeReachable(p.slots, 0);
    BodySlotRoundTrip(0, |p.slots|);
    var q := Malloc(p, size).0;
    var marked := p.slots[0 := p.slots[0].(isAllocated := true)];
    assert NextUnallocated(marked, 0) == 1;
    assert q.freeHead == 1 && q.slots[0] == p.slots[0].(isAllocated := true, nextFree := Null);
    var linked := ReleaseSlot(q.slots, 0);
    assert linked[0] == p.slots[0];
    assert linked == p.slots;
    assert ScanBehind(linked, 0).None?;
  }
}
