/** A run of the splitting allocator of t2.c in which the stale `prev` link
    left by my_malloc makes my_free hand a live block back to the free list.

    The run starts from a state that satisfies the layout invariant: a
    1000-byte arena whose first block (header at 0) is free and whose second
    block (header at 140) is allocated. my_malloc(10) splits the first block;
    the header at 140 still points back at 0 instead of at the new remainder
    at 50. my_malloc(5) then splits that remainder, so the block at 50 is
    live. my_free(40) releases the block at 0, and my_free(180) releases the
    block at 140, follows the stale link and merges 140 into 0, which now
    covers the live block at 50. A final my_malloc(20) returns a body that
    runs into the header of that live block.

    A second run shows the rightward loop of my_free stepping past the block
    it coalesces. From a tiling state with blocks at 0 (allocated), 100
    (free), 200 (allocated) and 300 (free), my_free(40) merges 100 into 0,
    steps on to the allocated block at 200 and merges the free block at 300
    into it: the live block grows from 60 to 800 bytes and a request for 200
    bytes that fitted before now fails. The repaired loop stays on 0.
 */
module SplitFinding {
  import opened Wrappers
  import opened SplitHeap
  import opened SplitAllocator
  import opened SplitInvariant

  /** Two headers tiling a 1000-byte arena; the one at 140 is allocated. */
  function Start(): Pool {
    Pool(map[
      0 := Header(Some(140), None, 40, 100, false),
      140 := Header(None, Some(0), 180, 860, true)], 1000)
  }

  /** After my_malloc(10): 0 is split, but 140 still points back at 0. */
  function AfterFirstMalloc(): Pool {
    Pool(map[
      0 := Header(Some(50), None, 40, 10, true),
      50 := Header(Some(140), Some(0), 90, 50, false),
      140 := Header(None, Some(0), 180, 860, true)], 1000)
  }

  /** After my_malloc(5): the remainder at 50 is split in turn. */
  function AfterSecondMalloc(): Pool {
    Pool(map[
      0 := Header(Some(50), None, 40, 10, true),
      50 := Header(Some(95), Some(0), 90, 5, true),
      95 := Header(Some(140), Some(50), 135, 5, false),
      140 := Header(None, Some(0), 180, 860, true)], 1000)
  }

  /** After my_free(40): 0 is free; it has no `prev` and its `next` is live. */
  function AfterFirstFree(): Pool {
    Pool(map[
      0 := Header(Some(50), None, 40, 10, false),
      50 := Header(Some(95), Some(0), 90, 5, true),
      95 := Header(Some(140), Some(50), 135, 5, false),
      140 := Header(None, Some(0), 180, 860, true)], 1000)
  }

  /** After my_free(180): 140 is merged into 0 through the stale link. */
  function AfterSecondFree(): Pool {
    Pool(map[
      0 := Header(None, None, 40, 910, false),
      50 := Header(Some(95), Some(0), 90, 5, true),
      95 := Header(Some(140), Some(50), 135, 5, false),
      140 := Header(None, Some(0), 180, 860, false)], 1000)
  }

  /** The starting state satisfies the layout invariant. */
  lemma StartInv()
    ensures Inv(Start())
  {
    var p := Start();
    assert LinksOk(p.heap, p.max, 0) && LinksOk(p.heap, p.max, 140);
    assert List(p) == [0, 140];
  }

  /** The state after the first my_malloc has sound links and lists 0, 50, 140. */
  lemma AfterFirstMallocWellFormed()
    ensures WellFormed(AfterFirstMalloc())
    ensures List(AfterFirstMalloc()) == [0, 50, 140]
  {
    var p := AfterFirstMalloc();
    assert LinksOk(p.heap, p.max, 0) && LinksOk(p.heap, p.max, 50) && LinksOk(p.heap, p.max, 140);
  }

  /** The state after the second my_malloc has sound links and lists four headers. */
  lemma AfterSecondMallocWellFormed()
    ensures WellFormed(AfterSecondMalloc())
    ensures List(AfterSecondMalloc()) == [0, 50, 95, 140]
  {
    var p := AfterSecondMalloc();
    assert LinksOk(p.heap, p.max, 0) && LinksOk(p.heap, p.max, 50);
    assert LinksOk(p.heap, p.max, 95) && LinksOk(p.heap, p.max, 140);
  }

  /** The state after the first my_free has sound links. */
  lemma AfterFirstFreeWellFormed()
    ensures WellFormed(AfterFirstFree())
  {
    var p := AfterFirstFree();
    assert LinksOk(p.heap, p.max, 0) && LinksOk(p.heap, p.max, 50);
    assert LinksOk(p.heap, p.max, 95) && LinksOk(p.heap, p.max, 140);
  }

  /** The state after the second my_free has sound links and lists only 0. */
  lemma AfterSecondFreeWellFormed()
    ensures WellFormed(AfterSecondFree())
    ensures List(AfterSecondFree()) == [0]
  {
    var p := AfterSecondFree();
    assert LinksOk(p.heap, p.max, 0) && LinksOk(p.heap, p.max, 50);
    assert LinksOk(p.heap, p.max, 95) && LinksOk(p.heap, p.max, 140);
  }

  /** my_malloc(10) as written returns 40 and leaves 140's `prev` at 0,
      which breaks the invariant. */
  lemma FirstMallocLeavesStalePrev()
    ensures Spans(Start().heap, List(Start()))
    ensures Malloc(Start(), 10) == (AfterFirstMalloc(), Some(40))
    ensures !Inv(AfterFirstMalloc())
  {
    StartInv();
    TightSpans(Start().heap, List(Start()), Start().max);
    var p := Start();
    assert FindFit(p.heap, p.max, 0, 10) == Some(0);
    assert Split(p.heap, 0, 10) == AfterFirstMalloc().heap;
    AfterFirstMallocWellFormed();
    var q := AfterFirstMalloc();
    var s := List(q);
    assert s[1] == 50 && s[2] == 140;
    assert q.heap[s[2]].prev != Some(s[1]);
  }

  /** The repaired split on the same state keeps the invariant: 140 points
      back at the remainder. */
  lemma FirstMallocRelinked()
    ensures Spans(Start().heap, List(Start()))
    ensures Inv(MallocRelinked(Start(), 10).0)
    ensures MallocRelinked(Start(), 10).1 == Some(40)
    ensures MallocRelinked(Start(), 10).0.heap[140].prev == Some(50)
  {
    StartInv();
    FirstMallocLeavesStalePrev();
    MallocRelinkedKeepsInv(Start(), 10);
  }

  /** my_malloc(5) splits the remainder at 50 and returns 90. */
  lemma SecondMalloc()
    ensures WellFormed(AfterFirstMalloc()) && Spans(AfterFirstMalloc().heap, List(AfterFirstMalloc()))
    ensures Malloc(AfterFirstMalloc(), 5) == (AfterSecondMalloc(), Some(90))
  {
    AfterFirstMallocWellFormed();
    var p := AfterFirstMalloc();
    assert FindFit(p.heap, p.max, 50, 5) == Some(50);
    assert FindFit(p.heap, p.max, 0, 5) == Some(50);
    assert Split(p.heap, 50, 5) == AfterSecondMalloc().heap;
  }

  /** my_free(40) only marks 0 free: it has no `prev` and its `next` is
      allocated. */
  lemma FirstFree()
    ensures WellFormed(AfterSecondMalloc())
    ensures Free(AfterSecondMalloc(), 40) == AfterFirstFree()
  {
    AfterSecondMallocWellFormed();
    var p := AfterSecondMalloc();
    var marked := Release(p.heap, p.max, 0);
    assert marked == AfterFirstFree().heap;
    assert CoalesceLeft(marked, p.max, 0) == (marked, 0);
    assert CoalesceRight(marked, p.max, 0) == (marked, 0);
  }

  /** my_free(180) follows the stale link from 140 to 0 and merges 140 into
      0 over the live block at 50. */
  lemma SecondFree()
    ensures WellFormed(AfterFirstFree())
    ensures Free(AfterFirstFree(), 180) == AfterSecondFree()
  {
    AfterFirstFreeWellFormed();
    var p := AfterFirstFree();
    var marked := Release(p.heap, p.max, 140);
    var merged := MergeWithLeft(marked, p.max, 140);
    assert merged == AfterSecondFree().heap;
    assert CoalesceLeft(marked, p.max, 140) == CoalesceLeft(merged, p.max, 0);
    assert CoalesceLeft(merged, p.max, 0) == (merged, 0);
    assert CoalesceRight(merged, p.max, 0) == (merged, 0);
  }

  /** The run as one statement: from `Start`, my_malloc(10) returns 40,
      my_malloc(5) returns 90, and my_free(40) then my_free(180) end in
      `AfterSecondFree`. */
  lemma StalePrevRun()
    ensures WellFormed(Start()) && Spans(Start().heap, List(Start()))
    ensures Malloc(Start(), 10).1 == Some(40)
    ensures var p1 := Malloc(Start(), 10).0;
      && WellFormed(p1) && Spans(p1.heap, List(p1))
      && Malloc(p1, 5).1 == Some(90)
      && 0 in Malloc(p1, 5).0.heap
      && Free(Malloc(p1, 5).0, 40).heap.Keys == Malloc(p1, 5).0.heap.Keys
      && 140 in Malloc(p1, 5).0.heap
      && Free(Free(Malloc(p1, 5).0, 40), 180) == AfterSecondFree()
  {
    FirstMallocLeavesStalePrev();
    var p1 := Malloc(Start(), 10).0;
    assert p1 == AfterFirstMalloc();
    SecondMalloc();
    var p2 := Malloc(p1, 5).0;
    assert p2 == AfterSecondMalloc();
    FirstFree();
    assert Free(p2, 40) == AfterFirstFree();
    SecondFree();
  }

  /** The outcome: the block at 50 is live before the second my_free, and
      after it the block is still marked allocated but no longer listed,
      while the free block at 0 covers it; my_malloc(20) then returns 40,
      whose 20 bytes run into the header at 50. */
  lemma StalePrevSwallowsLiveBlock()
    ensures 0 in AfterFirstFree().heap && 50 in AllocatedBlocks(AfterFirstFree())
    ensures var q := AfterSecondFree();
      && q.heap[50].isAllocated && 50 !in List(q)
      && !q.heap[0].isAllocated && 0 < 50 < End(q.heap, 0)
    ensures WellFormed(AfterSecondFree()) && Spans(AfterSecondFree().heap, List(AfterSecondFree()))
    ensures Malloc(AfterSecondFree(), 20).1 == Some(40) && 40 + 20 > 50
  {
    AfterSecondMallocWellFormed();
    assert List(AfterFirstFree()) == List(AfterSecondMalloc());
    AfterSecondFreeWellFormed();
    var q := AfterSecondFree();
    assert FindFit(q.heap, q.max, 0, 20) == Some(0);
  }

  /** After my_free(90) on the state the stale link left: the block at 50,
      still live from my_malloc(5), merges into 0 and so does 95. */
  function AfterThirdFree(): Pool {
    Pool(map[
      0 := Header(Some(140), None, 40, 1000, false),
      50 := Header(Some(95), Some(0), 90, 5, false),
      95 := Header(Some(140), Some(0), 135, 5, false),
      140 := Header(None, Some(0), 180, 860, false)], 1000)
  }

  /** my_free(90) merges 50 into 0 through its `prev`, then 95 into 0. */
  lemma ThirdFree()
    ensures WellFormed(AfterSecondFree())
    ensures Free(AfterSecondFree(), 90) == AfterThirdFree()
  {
    var p := AfterSecondFree();
    assert LinksOk(p.heap, p.max, 0) && LinksOk(p.heap, p.max, 50);
    assert LinksOk(p.heap, p.max, 95) && LinksOk(p.heap, p.max, 140);
    var marked := Release(p.heap, p.max, 50);
    var h1 := MergeWithLeft(marked, p.max, 50);
    var h2 := MergeWithLeft(h1, p.max, 95);
    assert h2 == AfterThirdFree().heap;
    assert CoalesceLeft(marked, p.max, 50) == CoalesceLeft(h1, p.max, 0);
    assert CoalesceLeft(h1, p.max, 0) == (h1, 0);
    assert CoalesceRight(h1, p.max, 0) == CoalesceRight(h2, p.max, 140);
    assert CoalesceRight(h2, p.max, 140) == (h2, 140);
  }

  /** The state `ThirdFree` reaches lists 0 and 140, and the block at 0 runs
      past 140, so as-written my_malloc's precondition no longer holds. */
  lemma ThirdFreeBreaksSpans()
    ensures 0 in AfterThirdFree().heap && List(AfterThirdFree()) == [0, 140]
    ensures !Spans(AfterThirdFree().heap, List(AfterThirdFree()))
  {
    var q := AfterThirdFree();
    assert LinksOk(q.heap, q.max, 0) && LinksOk(q.heap, q.max, 140);
    var s := List(q);
    assert s == [0, 140];
    assert s[0] + HeaderSize + q.heap[s[0]].blockSize > s[1];
  }

  /** Four blocks tiling a 1000-byte arena, allocated and free in turn. */
  function Fragmented(): Pool {
    Pool(map[
      0 := Header(Some(100), None, 40, 60, true),
      100 := Header(Some(200), Some(0), 140, 60, false),
      200 := Header(Some(300), Some(100), 240, 60, true),
      300 := Header(None, Some(200), 340, 700, false)], 1000)
  }

  /** After my_free(40) as written: 100 is merged into 0, then 300 into the
      live block at 200. */
  function AfterGrowingFree(): Pool {
    Pool(map[
      0 := Header(Some(200), None, 40, 160, false),
      100 := Header(Some(200), Some(0), 140, 60, false),
      200 := Header(None, Some(0), 240, 800, true),
      300 := Header(None, Some(200), 340, 700, false)], 1000)
  }

  /** After the repaired my_free(40): only 100 is merged into 0. */
  function AfterStayingFree(): Pool {
    Pool(map[
      0 := Header(Some(200), None, 40, 160, false),
      100 := Header(Some(200), Some(0), 140, 60, false),
      200 := Header(Some(300), Some(0), 240, 60, true),
      300 := Header(None, Some(200), 340, 700, false)], 1000)
  }

  /** The fragmented state satisfies the layout invariant. */
  lemma FragmentedInv()
    ensures Inv(Fragmented())
    ensures List(Fragmented()) == [0, 100, 200, 300]
  {
    var p := Fragmented();
    assert LinksOk(p.heap, p.max, 0) && LinksOk(p.heap, p.max, 100);
    assert LinksOk(p.heap, p.max, 200) && LinksOk(p.heap, p.max, 300);
    assert List(p) == [0, 100, 200, 300];
  }

  /** The state after the growing my_free has sound links and lists 0, 200. */
  lemma AfterGrowingFreeWellFormed()
    ensures WellFormed(AfterGrowingFree())
    ensures List(AfterGrowingFree()) == [0, 200]
  {
    var p := AfterGrowingFree();
    assert LinksOk(p.heap, p.max, 0) && LinksOk(p.heap, p.max, 100);
    assert LinksOk(p.heap, p.max, 200) && LinksOk(p.heap, p.max, 300);
  }

  /** The state after the repaired my_free has sound links and lists 0, 200,
      300. */
  lemma AfterStayingFreeWellFormed()
    ensures WellFormed(AfterStayingFree())
    ensures List(AfterStayingFree()) == [0, 200, 300]
  {
    var p := AfterStayingFree();
    assert LinksOk(p.heap, p.max, 0) && LinksOk(p.heap, p.max, 100);
    assert LinksOk(p.heap, p.max, 200) && LinksOk(p.heap, p.max, 300);
  }

  /** my_free(40) as written merges 100 into 0, steps to 200 and merges 300
      into it. */
  lemma GrowingFree()
    ensures WellFormed(Fragmented())
    ensures Free(Fragmented(), 40) == AfterGrowingFree()
  {
    var p := Fragmented();
    assert LinksOk(p.heap, p.max, 0) && LinksOk(p.heap, p.max, 100);
    assert LinksOk(p.heap, p.max, 200) && LinksOk(p.heap, p.max, 300);
    var marked := Release(p.heap, p.max, 0);
    assert CoalesceLeft(marked, p.max, 0) == (marked, 0);
    var h1 := MergeWithLeft(marked, p.max, 100);
    var h2 := MergeWithLeft(h1, p.max, 300);
    assert h2 == AfterGrowingFree().heap;
    assert CoalesceRight(marked, p.max, 0) == CoalesceRight(h1, p.max, 200);
    assert CoalesceRight(h1, p.max, 200) == (h2, 200);
  }

  /** my_free(40) as written grows the live block at 200 from 60 to 800
      bytes, swallowing the free block at 300; my_malloc(200), which the
      block at 300 served before, then fails. */
  lemma RightLoopGrowsLiveBlock()
    ensures 200 in AllocatedBlocks(Fragmented()) && Fragmented().heap[200].blockSize == 60
    ensures WellFormed(Fragmented()) && Free(Fragmented(), 40) == AfterGrowingFree()
    ensures AfterGrowingFree().heap[200].isAllocated && AfterGrowingFree().heap[200].blockSize == 800
    ensures Spans(Fragmented().heap, List(Fragmented())) && Malloc(Fragmented(), 200).1 == Some(340)
    ensures WellFormed(AfterGrowingFree()) && Spans(AfterGrowingFree().heap, List(AfterGrowingFree()))
    ensures Malloc(AfterGrowingFree(), 200).1 == None
  {
    FragmentedInv();
    GrowingFree();
    var p := Fragmented();
    TightSpans(p.heap, List(p), p.max);
    assert FindFit(p.heap, p.max, 0, 200) == Some(300);
    AfterGrowingFreeWellFormed();
    var q := AfterGrowingFree();
    assert FindFit(q.heap, q.max, 0, 200) == None;
  }

  /** The repaired my_free(40) merges 100 into 0 and stops there. */
  lemma StayingFree()
    ensures WellFormed(Fragmented())
    ensures FreeCoalesced(Fragmented(), 40) == AfterStayingFree()
  {
    var p := Fragmented();
    assert LinksOk(p.heap, p.max, 0) && LinksOk(p.heap, p.max, 100);
    assert LinksOk(p.heap, p.max, 200) && LinksOk(p.heap, p.max, 300);
    var marked := Release(p.heap, p.max, 0);
    assert CoalesceLeft(marked, p.max, 0) == (marked, 0);
    var h1 := MergeWithLeft(marked, p.max, 100);
    assert h1 == AfterStayingFree().heap;
    assert CoalesceRightStaying(marked, p.max, 0) == CoalesceRightStaying(h1, p.max, 0);
    assert CoalesceRightStaying(h1, p.max, 0) == h1;
  }

  /** The repaired my_free(40) on the same state leaves the block at 200 at
      its 60 bytes and the block at 300 free, so my_malloc(200) still
      succeeds. */
  lemma RightLoopRepaired()
    ensures WellFormed(Fragmented()) && FreeCoalesced(Fragmented(), 40) == AfterStayingFree()
    ensures AfterStayingFree().heap[200].blockSize == 60
    ensures WellFormed(AfterStayingFree()) && Spans(AfterStayingFree().heap, List(AfterStayingFree()))
    ensures Malloc(AfterStayingFree(), 200).1 == Some(340)
  {
    StayingFree();
    AfterStayingFreeWellFormed();
    var q := AfterStayingFree();
    assert FindFit(q.heap, q.max, 0, 200) == Some(300);
  }
}
