/**
 Coalescing in heaps of any size: exactly in heaps of less than half the address space are free neighbours that could be
 joined always joined.
 */
module HugeHeaps {
  import opened Platform
  import opened BlockLists
  import opened BlockMap
  import opened Allocator
  import opened Unmapping
  import opened Search
  import B = BlackList

  /** Below that size nothing is left to be joined, ever. */
  lemma SmallHeapsAreMerged(a: Allocator)
    requires a.Valid() && a.heapSize < SIGN_BLOCKS
    ensures forall b :: !Mergeable(a.blk, b)
  {
    hide Allocator.Books, Used, Total;
    assert Coalesced(a.blk);
  }

  const S: nat := SIGN_BLOCKS
  const FIRST: nat := 2
  const MIDDLE: nat := S + 1
  const LAST: nat := S + 2

  // The run below adds three chunks: the last one first, which is put to use; then one block in front of that; and
  // then, in front of both, a chunk that is too large to be joined to that block.

  /** The heap at its stages; d is the size of the last chunk. */
  ghost function Last(d: nat, free: bool): Blocks {
    if d == 0 then map[] else map[LAST := Blk(d, free)]
  }

  ghost function Two(d: nat): Blocks {
    Last(d, false)[MIDDLE := Blk(1, true)]
  }

  ghost function Three(d: nat): Blocks {
    Two(d)[FIRST := Blk(S - 1, true)]
  }

  lemma LastAdded(d: nat, q: Addr)
    requires d > 0
    ensures var b := map[][LAST := Blk(d, false)]; EndsAt(b, q, LAST) ==> FreedIn(b, LAST, q) == Last(d, true)
  {
    var b: Blocks := map[][LAST := Blk(d, false)];
    assert forall x :: !FreeEndingAt(b, x, LAST);
  }

  lemma LastUsed(d: nat, blk: Blocks, r: Addr)
    requires d > 0 && CarvedFrom(Last(d, true), blk, r, d)
    ensures blk == Last(d, false)
  {
  }

  lemma MiddleAdded(d: nat, q: Addr)
    ensures var b := Last(d, false)[MIDDLE := Blk(1, false)]; EndsAt(b, q, MIDDLE) ==> FreedIn(b, MIDDLE, q) == Two(d)
  {
    var b := Last(d, false)[MIDDLE := Blk(1, false)];
    assert forall x :: !FreeEndingAt(b, x, MIDDLE);
  }

  lemma FirstAdded(d: nat, q: Addr)
    ensures var b := Two(d)[FIRST := Blk(S - 1, false)]; EndsAt(b, q, FIRST) ==> FreedIn(b, FIRST, q) == Three(d)
  {
    var b := Two(d)[FIRST := Blk(S - 1, false)];
    assert forall x :: !FreeEndingAt(b, x, FIRST);
  }

  lemma ThreeFits(d: nat)
    ensures FreeAt(Three(d), FIRST) && Three(d)[FIRST].sz == S - 1
  {
  }

  lemma FirstCarved(d: nat, blk: Blocks, r: Addr)
    requires CarvedFrom(Three(d), blk, r, 2)
    ensures Mergeable(blk, 4)
  {
    assert r == FIRST;
    var cut := Cut(Three(d), FIRST, 4);
    assert cut[4] == Blk(S - 3, true);
    assert blk[4] == Blk(S - 3, true) && blk[MIDDLE] == Blk(1, true);
  }

  /** A range of addresses away from both ends of the address space is added as a whole. */
  lemma AddedWhole(p: Addr, n: nat, p': Addr, n': nat)
    requires p >= 2 && n > 0 && p + n < ADDRESS_BLOCKS && p <= p' && p' + n' <= p + n
    requires forall m :: InSpan(p, n, m) && !InSpan(p', n', m) ==> m <= 1 || m == ADDRESS_BLOCKS - 1
    ensures p' == p && n' == n
  {
    assert InSpan(p, n, p) && InSpan(p, n, p + n - 1);
  }

  function Plain(needed: nat): Request {
    Request(needed, false, false, 0, false)
  }

  lemma NoneYet()
    ensures Last(0, false) == map[]
  {
  }

  lemma SpansApart(d: nat)
    ensures Span(MIDDLE, 1) !! Span(LAST, d)
    ensures Span(FIRST, S - 1) !! Span(LAST, d) + Span(MIDDLE, 1)
    ensures Span(LAST, 0) == {}
  {
  }

  /** Add the last chunk and put it to use. */
  method AddLast(a: Allocator, d: nat, bl: B.BlackLists)
    requires a.Valid() && a.blk == map[] && a.heapSize == 0 && a.area == {} && 0 < d <= ADDRESS_BLOCKS - 3 - S
    modifies a
    ensures a.Valid() && a.blk == Last(d, false) && a.heapSize == d && a.area == Span(LAST, d)
  {
    hide Allocator.Valid, FreedIn, EndsAt, CarvedFrom;
    var aborts, p, n, q := a.AddToHeap(LAST, d, true, true);
    AddedWhole(LAST, d, p, n);
    LastAdded(d, q);
    assert FreeAt(a.blk, LAST);
    var r, did := a.AllocHblk(Plain(d), bl, N_HBLK_FLS);
    LastUsed(d, a.blk, r);
  }

  /** A run that ends with neighbours that could be joined, and are not, in a heap of any size from half the address
      space up to all there is room for. */
  method StaysSplit(size: nat, bl: B.BlackLists) returns (a: Allocator)
    requires SIGN_BLOCKS <= size <= ADDRESS_BLOCKS - 3
    ensures a.Valid() && a.heapSize == size && Mergeable(a.blk, 4)
  {
    hide Allocator.Valid, FreedIn, EndsAt, CarvedFrom, Mergeable, Last, Two, Three;
    a := new Allocator();
    ghost var d := size - S;
    NoneYet();
    if size > S {
      AddLast(a, size - S, bl);
    }
    ghost var q;
    var aborts, p, n;
    SpansApart(d);
    aborts, p, n, q := a.AddToHeap(MIDDLE, 1, true, true);
    AddedWhole(MIDDLE, 1, p, n);
    MiddleAdded(d, q);
    aborts, p, n, q := a.AddToHeap(FIRST, S - 1, true, true);
    AddedWhole(FIRST, S - 1, p, n);
    FirstAdded(d, q);
    ThreeFits(d);
    assert a.Fits(Plain(2), bl, true, FIRST);
    var r, did := a.AllocHblk(Plain(2), bl, N_HBLK_FLS);
    FirstCarved(d, a.blk, r);
  }
}
