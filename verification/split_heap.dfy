/** Block headers of the splitting allocator of t2.c, and the header list they
    form.

    Offsets are relative to the first byte of the arena, where the first
    header lives. The headers written into the arena are kept in a map from
    offset to record. A header that a merge unlinks keeps its bytes in the
    arena, and a stale `prev` link can still reach it, so the map is never
    shrunk: the list is what `next` links reach from offset 0.
 */
module SplitHeap {
  import opened Wrappers

  /** sizeof(block_header) on LP64: four 8-byte fields and a flag, padded. */
  const HeaderSize: nat := 40

  datatype Header = Header(
    next: Option<nat>,
    prev: Option<nat>,
    blockStart: nat,
    blockSize: nat,
    isAllocated: bool)

  type Heap = map<nat, Header>

  /** The links of header `o` are sound: both lead to recorded headers, `next`
      upward and `prev` downward; only the header at offset 0 lacks a `prev`,
      and no header lies above `max`. */
  predicate LinksOk(h: Heap, max: nat, o: nat)
    requires o in h
  {
    && o <= max
    && (h[o].next.Some? ==> h[o].next.value in h && o < h[o].next.value)
    && (h[o].prev.Some? ==> h[o].prev.value in h && h[o].prev.value < o)
    && (o > 0 ==> h[o].prev.Some?)
  }

  /** Every recorded header has sound links. */
  ghost predicate Ordered(h: Heap, max: nat) {
    forall o {:trigger LinksOk(h, max, o)} :: o in h ==> LinksOk(h, max, o)
  }

  /** `s` lists headers that each link by `next` to the following one, the last
      with no `next`. */
  ghost predicate IsChain(h: Heap, s: seq<nat>) {
    && |s| > 0
    && (forall i :: 0 <= i < |s| ==> s[i] in h)
    && (forall i, j {:trigger s[i], s[j]} :: 0 <= i && j == i + 1 && j < |s| ==> h[s[i]].next == Some(s[j]))
    && h[s[|s| - 1]].next == None
  }

  ghost predicate Increasing(s: seq<nat>) {
    forall i, j :: 0 <= i < j < |s| ==> s[i] < s[j]
  }

  /** The headers reached from `o` by following `next` links. */
  function Chain(h: Heap, max: nat, o: nat): (s: seq<nat>)
    requires o in h
    ensures |s| > 0 && s[0] == o
    ensures forall i :: 0 <= i < |s| ==> s[i] in h
    ensures Ordered(h, max) ==> IsChain(h, s)
    decreases max - o
  {
    assert Ordered(h, max) ==> LinksOk(h, max, o);
    match h[o].next
    case None => [o]
    case Some(n) =>
      assert Ordered(h, max) ==> n in h && LinksOk(h, max, n);
      if n in h && o < n <= max then [o] + Chain(h, max, n) else [o]
  }

  /** A chain through sound links is the list `Chain` computes from its start. */
  lemma {:induction false} ChainUnique(h: Heap, max: nat, s: seq<nat>)
    requires Ordered(h, max) && IsChain(h, s)
    ensures Chain(h, max, s[0]) == s
    decreases |s|
  {
    if |s| > 1 {
      assert LinksOk(h, max, s[1]);
      assert IsChain(h, s[1..]);
      ChainUnique(h, max, s[1..]);
      assert s == [s[0]] + s[1..];
    }
  }

  /** Along sound links, list offsets strictly increase. */
  lemma {:induction false} ChainIncreasing(h: Heap, s: seq<nat>, max: nat)
    requires Ordered(h, max) && IsChain(h, s)
    ensures Increasing(s)
    decreases |s|
  {
    if |s| > 1 {
      assert IsChain(h, s[1..]);
      ChainIncreasing(h, s[1..], max);
      assert LinksOk(h, max, s[0]);
      forall i, j | 0 <= i < j < |s|
        ensures s[i] < s[j]
      {
        if i == 0 {
          if j > 1 {
            assert s[1..][0] < s[1..][j - 1];
          }
        } else {
          assert s[1..][i - 1] < s[1..][j - 1];
        }
      }
    }
  }

  /** The bytes a list of headers accounts for: each header plus its block. */
  function Footprint(h: Heap, s: seq<nat>): nat
    requires forall i :: 0 <= i < |s| ==> s[i] in h
  {
    if |s| == 0 then 0 else HeaderSize + h[s[0]].blockSize + Footprint(h, s[1..])
  }

  lemma {:induction false} FootprintAppend(h: Heap, a: seq<nat>, b: seq<nat>)
    requires forall i :: 0 <= i < |a| ==> a[i] in h
    requires forall i :: 0 <= i < |b| ==> b[i] in h
    ensures Footprint(h, a + b) == Footprint(h, a) + Footprint(h, b)
    decreases |a|
  {
    if |a| == 0 {
      assert a + b == b;
    } else {
      assert (a + b)[0] == a[0];
      assert (a + b)[1..] == a[1..] + b;
      FootprintAppend(h, a[1..], b);
    }
  }

  /** The footprint only depends on the block sizes of the listed headers. */
  lemma {:induction false} FootprintFrame(h: Heap, h': Heap, s: seq<nat>)
    requires forall i :: 0 <= i < |s| ==> s[i] in h && s[i] in h'
    requires forall i :: 0 <= i < |s| ==> h[s[i]].blockSize == h'[s[i]].blockSize
    ensures Footprint(h, s) == Footprint(h', s)
    decreases |s|
  {
    if |s| > 0 {
      FootprintFrame(h, h', s[1..]);
    }
  }

  /** No listed block runs past the header that follows it. */
  ghost predicate Spans(h: Heap, s: seq<nat>) {
    forall i, j {:trigger s[i], s[j]} :: 0 <= i && j == i + 1 && j < |s| && s[i] in h ==> s[i] + HeaderSize + h[s[i]].blockSize <= s[j]
  }

  /** `s` with `x` placed right after position `k`. */
  function InsertAfter(s: seq<nat>, k: nat, x: nat): (t: seq<nat>)
    requires k < |s|
    ensures |t| == |s| + 1 && t[k + 1] == x
    ensures forall i {:trigger t[i]} :: 0 <= i <= k ==> t[i] == s[i]
    ensures forall i :: k + 1 < i < |t| ==> t[i] == s[i - 1]
  {
    s[..k + 1] + [x] + s[k + 1..]
  }

  /** `s` without position `k`. */
  function RemoveAt(s: seq<nat>, k: nat): (t: seq<nat>)
    requires k < |s|
    ensures |t| == |s| - 1
    ensures forall i {:trigger t[i]} :: 0 <= i < k ==> t[i] == s[i]
    ensures forall i :: k <= i < |t| ==> t[i] == s[i + 1]
  {
    s[..k] + s[k + 1..]
  }

  /** The footprint of a list is that of the part before `k`, the block at `k`
      with its header, and the part after `k`. */
  lemma FootprintAt(h: Heap, s: seq<nat>, k: nat)
    requires forall i :: 0 <= i < |s| ==> s[i] in h
    requires k < |s|
    ensures Footprint(h, s) == Footprint(h, s[..k]) + HeaderSize + h[s[k]].blockSize + Footprint(h, s[k + 1..])
  {
    assert s == s[..k] + ([s[k]] + s[k + 1..]);
    FootprintAppend(h, s[..k], [s[k]] + s[k + 1..]);
    assert ([s[k]] + s[k + 1..])[1..] == s[k + 1..];
  }

  /** Inserting adds exactly the new offset. */
  lemma InsertAfterMembers(s: seq<nat>, k: nat, x: nat)
    requires k < |s|
    ensures forall o :: o in InsertAfter(s, k, x) <==> o in s || o == x
  {
    var t := InsertAfter(s, k, x);
    forall o | o in s
      ensures o in t
    {
      var i :| 0 <= i < |s| && s[i] == o;
      if i <= k {
        assert t[i] == o;
      } else {
        assert t[i + 1] == o;
      }
    }
  }

  /** Removing from a list without repeats drops exactly the removed offset. */
  lemma RemoveAtMembers(s: seq<nat>, k: nat)
    requires Increasing(s) && k < |s|
    ensures forall o :: o in RemoveAt(s, k) <==> o in s && o != s[k]
  {
    var t := RemoveAt(s, k);
    forall o | o in t
      ensures o in s && o != s[k]
    {
      var i :| 0 <= i < |t| && t[i] == o;
      if i < k {
        assert s[i] == o;
      } else {
        assert s[i + 1] == o;
      }
    }
    forall o | o in s && o != s[k]
      ensures o in t
    {
      var i :| 0 <= i < |s| && s[i] == o;
      if i < k {
        assert t[i] == o;
      } else {
        assert t[i - 1] == o;
      }
    }
  }
}
