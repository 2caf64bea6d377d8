/**
 The allocator of heap blocks: segregated, doubly linked free lists of chunks, splitting on allocation, coalescing
 on deallocation, and byte counts kept per list and in total.  Sizes and addresses count heap blocks.
 */
module Allocator {
  import opened Platform
  import opened Sequences
  import opened BlockLists
  import opened BlockMap
  import opened Search
  import B = BlackList

  const UNIQUE_THRESHOLD: nat := 32
  const HUGE_THRESHOLD: nat := 256
  const FL_COMPRESSION: nat := 8
  const N_HBLK_FLS: nat := (HUGE_THRESHOLD - UNIQUE_THRESHOLD) / FL_COMPRESSION + UNIQUE_THRESHOLD

  /** A chunk of this many blocks has a size in bytes that is negative as a signed 64-bit word. */
  const SIGN_BLOCKS: nat := 0x8_0000_0000_0000

  /** GC_hblk_fl_from_blocks: the free list for chunks of a given size. */
  function FlIndex(blocks: nat): (i: nat)
    ensures i <= N_HBLK_FLS
  {
    if blocks <= UNIQUE_THRESHOLD then blocks
    else if blocks >= HUGE_THRESHOLD then N_HBLK_FLS
    else (blocks - UNIQUE_THRESHOLD) / FL_COMPRESSION + UNIQUE_THRESHOLD
  }

  lemma FlIndexMonotone(a: nat, b: nat)
    requires a <= b
    ensures FlIndex(a) <= FlIndex(b)
    ensures FlIndex(a) < UNIQUE_THRESHOLD && FlIndex(a) == FlIndex(b) ==> a == b
  {
  }

  /** The sizes on each list: below the threshold one, from there on FL_COMPRESSION of them, and on the last list all
      that are huge. */
  lemma SizesOnList(blocks: nat, i: nat)
    requires i <= N_HBLK_FLS
    ensures i < UNIQUE_THRESHOLD ==> (FlIndex(blocks) == i <==> blocks == i)
    ensures UNIQUE_THRESHOLD <= i < N_HBLK_FLS ==>
              var first := UNIQUE_THRESHOLD + FL_COMPRESSION * (i - UNIQUE_THRESHOLD);
              FlIndex(blocks) == i <==> first <= blocks < first + FL_COMPRESSION
    ensures i == N_HBLK_FLS ==> (FlIndex(blocks) == i <==> blocks >= HUGE_THRESHOLD)
  {
  }

  /** Every chunk on list i, except perhaps `odd`, is free and of a size that belongs there. */
  ghost predicate OnRightList(blk: Blocks, lists: seq<seq<Addr>>, odd: Addr) {
    forall i, x :: 0 <= i < |lists| && x in lists[i] ==>
      x in blk && blk[x].free && (x != odd ==> FlIndex(blk[x].sz) == i)
  }

  /** Every free chunk, except perhaps `odd`, is on its list. */
  ghost predicate AllListed(blk: Blocks, lists: seq<seq<Addr>>, odd: Addr)
    requires |lists| == N_HBLK_FLS + 1
  {
    forall b :: b in blk && blk[b].free && b != odd ==> b in lists[FlIndex(blk[b].sz)]
  }

  /** The lists are those of before, without chunk h. */
  ghost predicate LessOne(lists: seq<seq<Addr>>, lists': seq<seq<Addr>>, h: Addr) {
    && |lists| == |lists'|
    && forall i, x :: 0 <= i < |lists| ==> (x in lists'[i] <==> x in lists[i] && x != h)
  }

  ghost predicate Sums(blk: Blocks, lists: seq<seq<Addr>>, counts: seq<nat>) {
    && |counts| == |lists|
    && forall i :: 0 <= i < |lists| ==> counts[i] == ListSum(blk, lists[i])
  }

  class Allocator {
    var blk: Blocks           // sizes and free flags in the headers
    var next: Links           // hb_next
    var prev: Links           // hb_prev
    var heads: seq<Addr>      // GC_hblkfreelist
    var freeBytes: seq<nat>   // GC_free_bytes
    var largeFree: nat        // GC_large_free_bytes
    var heapSize: nat         // GC_heapsize

    ghost var lists: seq<seq<Addr>>  // the contents of the free lists
    ghost var area: set<Addr>        // the blocks that belong to the heap

    /** The free lists are well formed, whatever is on them. */
    ghost predicate WellLinked()
      reads this`blk, this`next, this`prev, this`heads, this`freeBytes, this`lists
    {
      && |lists| == |freeBytes| == N_HBLK_FLS + 1
      && AllLinked(next, prev, heads, lists)
      && Sums(blk, lists, freeBytes)
    }

    /** GC_remove_from_fl_at: take chunk h off the list with the given index. */
    method RemoveFromFlAt(h: Addr, index: nat)
      requires WellLinked() && index <= N_HBLK_FLS && h in lists[index] && h in blk
      modifies this`next, this`prev, this`heads, this`freeBytes, this`lists
      ensures WellLinked()
      ensures NotListed(lists, h) && LessOne(old(lists), lists, h)
      ensures exists k :: 0 <= k < |old(lists)[index]| && old(lists)[index][k] == h
                          && lists == old(lists)[index := Without(old(lists)[index], k)]
      ensures blk[h].sz <= old(freeBytes)[index]
      ensures freeBytes == old(freeBytes)[index := old(freeBytes)[index] - blk[h].sz]
    {
      ghost var k :| 0 <= k < |lists[index]| && lists[index][k] == h;
      hide Sums, AllLinked, NotListed, Without, LessOne;
      Off(index, k);
      BypassLinks(h, index);
      freeBytes := freeBytes[index := freeBytes[index] - blk[h].sz];
      lists := lists[index := Without(lists[index], k)];
    }

    /** The links around chunk h are led past it. */
    method BypassLinks(h: Addr, index: nat)
      requires h in prev && h in next && index < |heads|
      modifies this`next, this`prev, this`heads
      ensures var before, after := old(prev)[h], old(next)[h];
              && next == (if before == 0 then old(next) else old(next)[before := after])
              && prev == (if after == 0 then old(prev) else old(prev)[after := before])
              && heads == if before == 0 then old(heads)[index := after] else old(heads)
    {
      var before, after := prev[h], next[h];
      if before == 0 {
        heads := heads[index := after];
      } else {
        next := next[before := after];
      }
      if after != 0 {
        prev := prev[after := before];
      }
    }

    /** GC_add_to_fl: put chunk h in front of the list for its size, and flag it as free. */
    method AddToFl(h: Addr)
      requires WellLinked() && h in blk && h != 0 && NotListed(lists, h)
      modifies this`blk, this`next, this`prev, this`heads, this`freeBytes, this`lists
      ensures WellLinked()
      ensures blk == old(blk)[h := Blk(old(blk)[h].sz, true)]
      ensures var i := FlIndex(old(blk)[h].sz);
              && lists == old(lists)[i := [h] + old(lists)[i]]
              && freeBytes == old(freeBytes)[i := old(freeBytes)[i] + old(blk)[h].sz]
    {
      var index := FlIndex(blk[h].sz);
      var second := heads[index];
      ghost var next0, prev0, heads0, lists0, blk0 := next, prev, heads, lists, blk;
      heads := heads[index := h];
      freeBytes := freeBytes[index := freeBytes[index] + blk[h].sz];
      next := next[h := second];
      prev := prev[h := 0];
      if second != 0 {
        prev := prev[second := h];
      }
      blk := blk[h := Blk(blk[h].sz, true)];
      lists := lists[index := [h] + lists[index]];
      PushFrontAll(next0, prev0, heads0, lists0, index, h, next, prev);
      SumsPushed(blk0, blk, lists0, index, h);
    }

    /** The books are in order, except that `odd` may be a free chunk that is on no list or on a wrong one. */
    ghost predicate Books(odd: Addr)
      reads this`blk, this`next, this`prev, this`heads, this`freeBytes, this`lists, this`area
    {
      && WellLinked()
      && OnRightList(blk, lists, odd)
      && AllListed(blk, lists, odd)
      && Tiles(blk, area)
    }

    /** All blocks are accounted for; `added` of them are not yet counted as part of the heap. */
    ghost predicate Balanced(added: nat)
      reads this`blk, this`freeBytes, this`largeFree, this`heapSize
    {
      && largeFree == Total(freeBytes)
      && Used(blk) + largeFree == heapSize + added
      && (heapSize + added < SIGN_BLOCKS ==> Coalesced(blk))
    }

    ghost predicate Valid()
      reads this
    {
      Books(0) && Balanced(0)
    }

    constructor ()
      ensures Valid() && blk == map[] && heapSize == 0 && area == {}
    {
      blk, next, prev := map[], map[], map[];
      heads, freeBytes := seq(N_HBLK_FLS + 1, i => 0), seq(N_HBLK_FLS + 1, i => 0);
      largeFree, heapSize := 0, 0;
      lists, area := seq(N_HBLK_FLS + 1, i => []), {};
      new;
      NoCounts(freeBytes);
    }

    /** GC_free_block_ending_at: the free chunk that ends just before h, or 0. */
    method FreeBlockEndingAt(h: Addr) returns (p: Addr)
      requires Apart(blk) && h > 0
      ensures p != 0 ==> FreeEndingAt(blk, p, h)
      ensures p == 0 ==> forall q :: !FreeEndingAt(blk, q, h)
    {
      p := h - 1;
      while p > 0 && p !in blk
        invariant p < h && forall q :: p < q < h ==> q !in blk
      {
        p := p - 1;
      }
      if p > 0 && !(blk[p].free && p + blk[p].sz == h) {
        p := 0;
      }
    }

    /** Join the free chunk b to the free chunk a before it.  One of the two is on its list and is taken off it; the
        joined chunk is on no list. */
    method Join(a: Addr, b: Addr, listed: Addr, ghost odd: Addr)
      requires Books(odd) && ((odd == a && listed == b) || (odd == b && listed == a))
      requires a in blk && b in blk && blk[a].free && blk[b].free && b == a + blk[a].sz
      requires NotListed(lists, odd)
      modifies this`blk, this`next, this`prev, this`heads, this`freeBytes, this`lists
      ensures Books(a) && NotListed(lists, a)
      ensures blk == Joined(old(blk), a, b)
      ensures Used(blk) == Used(old(blk))
      ensures Total(freeBytes) == Total(old(freeBytes)) - old(blk)[listed].sz
    {
      hide OnRightList, AllListed, Tiles, Used, Total, AllLinked, Sums, LessOne, NotListed;
      ghost var blk0, lists0 := blk, lists;
      Positive(a, odd);
      IsListed(listed, odd);
      var i := FlIndex(blk[listed].sz);
      RemoveFromFlAt(listed, i);
      TotalUpdate(old(freeBytes), i, freeBytes[i]);
      blk := (blk - {b})[a := Blk(blk[a].sz + blk[b].sz, true)];
      JoinedTiles(blk0, area, a, b);
      UsedJoined(blk0, a, b);
      JoinedBooks(blk0, lists0, lists, a, b, listed, odd);
      StillLinked(blk0, a, b);
    }

    /** A free chunk is on the list for its size. */
    lemma IsListed(h: Addr, odd: Addr)
      requires Books(odd) && h in blk && blk[h].free && h != odd
      ensures h in lists[FlIndex(blk[h].sz)]
    {
    }

    lemma NoNull(odd: Addr)
      requires Books(odd)
      ensures 0 !in blk
    {
    }

    lemma Positive(h: Addr, odd: Addr)
      requires Books(odd) && h in blk
      ensures h > 0 && blk[h].sz > 0
    {
    }

    /** Changing the sizes of chunks that are on no list does not disturb the lists. */
    lemma StillLinked(blk0: Blocks, a: Addr, b: Addr)
      requires |lists| == |freeBytes| == N_HBLK_FLS + 1
      requires AllLinked(next, prev, heads, lists) && Sums(blk0, lists, freeBytes)
      requires NotListed(lists, a) && NotListed(lists, b)
      requires blk.Keys + {a, b} == blk0.Keys + {a, b}
      requires forall x :: x in blk && x != a && x != b ==> blk[x] == blk0[x]
      ensures WellLinked()
    {
      forall i | 0 <= i < |lists| ensures freeBytes[i] == ListSum(blk, lists[i]) {
        SameSums(blk0, blk, lists[i]);
      }
    }

    /** Flag chunk h as free; it is on no list yet. */
    method Flag(h: Addr)
      requires Books(0) && h in blk && !blk[h].free
      modifies this`blk
      ensures Books(h) && NotListed(lists, h)
      ensures blk == old(blk)[h := Blk(old(blk)[h].sz, true)]
      ensures Used(blk) == Used(old(blk)) - old(blk)[h].sz
    {
      ghost var blk0 := blk;
      FlagTiles(blk, area, h, true);
      UsedUpdate(blk, h, Blk(blk[h].sz, true));
      blk := blk[h := Blk(blk[h].sz, true)];
      StillLinked(blk0, h, h);
    }

    /** Put the free chunk h, which is on no list, on the list for its size. */
    method File(h: Addr)
      requires Books(h) && NotListed(lists, h) && h in blk && blk[h].free
      modifies this`blk, this`next, this`prev, this`heads, this`freeBytes, this`lists
      ensures Books(0) && blk == old(blk)
      ensures Total(freeBytes) == Total(old(freeBytes)) + blk[h].sz
    {
      hide Tiles, AllLinked, Sums, Total;
      Positive(h, h);
      NoNull(h);
      var i := FlIndex(blk[h].sz);
      AddToFl(h);
      assert blk == old(blk);
      TotalUpdate(old(freeBytes), i, freeBytes[i]);
      Refiled(blk, old(lists), lists, h);
    }

    /** A chunk on a list is part of the total. */
    lemma InTotal(x: Addr, odd: Addr)
      requires Books(odd) && x in blk && blk[x].free && x != odd
      ensures blk[x].sz <= Total(freeBytes)
    {
      var i := FlIndex(blk[x].sz);
      var k :| 0 <= k < |lists[i]| && lists[i][k] == x;
      ListSumWithout(blk, lists[i], k);
      TotalUpdate(freeBytes, i, 0);
    }

    lemma ApartNow(odd: Addr)
      requires Books(odd)
      ensures Apart(blk)
    {
    }

    /** Join the unlisted free chunk h to the chunk after it, if that is free and the result is not too large. */
    method JoinNext(h: Addr)
      requires Books(h) && NotListed(lists, h) && FreeAt(blk, h)
      modifies this`blk, this`next, this`prev, this`heads, this`freeBytes, this`lists
      ensures Books(h) && NotListed(lists, h) && FreeAt(blk, h)
      ensures Used(blk) == Used(old(blk))
      ensures Total(freeBytes) + blk[h].sz == Total(old(freeBytes)) + old(blk)[h].sz
      ensures var n := h + old(blk)[h].sz;
              || (blk == old(blk) && (FreeAt(blk, n) ==> Total(freeBytes) + blk[h].sz >= SIGN_BLOCKS))
              || (FreeAt(old(blk), n) && blk == Joined(old(blk), h, n))
      ensures blk == JoinedNext(old(blk), h)
    {
      hide Books, Used, Total;
      Positive(h, h);
      var n := h + blk[h].sz;
      if n in blk && blk[n].free {
        InTotal(n, h);
        if blk[h].sz + blk[n].sz < SIGN_BLOCKS {
          Join(h, n, n, h);
        }
      }
    }

    /** Join the unlisted free chunk h to the free chunk p before it, if there is one and the result is not too
        large. */
    method JoinPrevious(h: Addr, p: Addr) returns (c: Addr)
      requires Books(h) && NotListed(lists, h) && FreeAt(blk, h)
      requires p != 0 ==> FreeEndingAt(blk, p, h)
      modifies this`blk, this`next, this`prev, this`heads, this`freeBytes, this`lists
      ensures Books(c) && NotListed(lists, c) && FreeAt(blk, c)
      ensures Used(blk) == Used(old(blk))
      ensures Total(freeBytes) + blk[c].sz == Total(old(freeBytes)) + old(blk)[h].sz
      ensures || (c == h && blk == old(blk) && (p != 0 ==> Total(freeBytes) + blk[h].sz >= SIGN_BLOCKS))
              || (c == p && p != 0 && blk == Joined(old(blk), p, h))
      ensures blk == JoinedPrevious(old(blk), h, p)
    {
      hide Books, Used, Total;
      c := h;
      if p != 0 {
        Positive(p, h);
        InTotal(p, h);
        if blk[h].sz + blk[p].sz < SIGN_BLOCKS {
          Join(p, h, p, h);
          c := p;
        }
      }
    }

    /** Flag chunk h as free and join it to its free neighbours; the result is on no list. */
    method FlagAndJoin(h: Addr) returns (c: Addr, ghost p: Addr)
      requires Books(0) && h in blk && !blk[h].free
      modifies this`blk, this`next, this`prev, this`heads, this`freeBytes, this`lists
      ensures Books(c) && NotListed(lists, c) && FreeAt(blk, c)
      ensures Used(blk) == Used(old(blk)) - old(blk)[h].sz
      ensures Total(freeBytes) + blk[c].sz == Total(old(freeBytes)) + old(blk)[h].sz
      ensures SameInUse(old(blk) - {h}, blk)
      ensures EndsAt(old(blk), p, h) && blk == FreedIn(old(blk), h, p)
      ensures Coalesced(old(blk)) && Total(old(freeBytes)) + old(blk)[h].sz < SIGN_BLOCKS ==> Coalesced(blk)
    {
      hide Books, Used, Total, Coalesced, NotListed, Joined, Apart, SameInUse, FreedForward, JoinedNext, JoinedPrevious;
      ghost var blk0 := blk;
      ApartNow(0);
      Positive(h, 0);
      Flag(h);
      ApartNow(h);
      var before := FreeBlockEndingAt(h);
      p := before;
      Neighbours(blk0, h, p);
      JoinNext(h);
      ghost var blk2 := blk;
      NextJoined(blk0, h, p, blk);
      c := JoinPrevious(h, before);
      PreviousJoined(blk0, h, p, blk2, blk);
      if Coalesced(blk0) && Total(old(freeBytes)) + blk0[h].sz < SIGN_BLOCKS {
        BothJoined(blk0, h, p, blk2, blk);
        FreedIsCoalesced(blk0, h, p);
      }
    }

    /** GC_freehblk: free chunk h and join it to its free neighbours, if the size of the result is not too large.
        `added` blocks are not yet counted as part of the heap. */
    method FreeHblk(h: Addr, ghost added: nat) returns (ghost p: Addr)
      requires Books(0) && Balanced(added)
      requires h in blk && !blk[h].free && blk[h].sz < SIGN_BLOCKS
      modifies this`blk, this`next, this`prev, this`heads, this`freeBytes, this`lists, this`largeFree
      ensures Books(0) && Balanced(added)
      ensures largeFree == old(largeFree) + old(blk)[h].sz
      ensures SameInUse(old(blk) - {h}, blk)
      ensures EndsAt(old(blk), p, h) && blk == FreedIn(old(blk), h, p)
    {
      hide Books, Used, Total, Coalesced, NotListed, SameInUse, FreedIn, EndsAt;
      UsedWithout(blk, h);
      var size := blk[h].sz;
      var c;
      c, p := FlagAndJoin(h);
      largeFree := largeFree + size;
      File(c);
    }

    /** GC_add_to_heap: make the n blocks from p on part of the heap.  Blocks near address zero and the last block
        of the address space are left out.  Without room for another heap section the program aborts; and if there
        is no memory for a header, nothing is added. */
    method AddToHeap(p: Addr, n: nat, room: bool, header: bool) returns (aborts: bool, p': Addr, n': nat, ghost q: Addr)
      requires Valid() && Span(p, n) !! area && p + n <= ADDRESS_BLOCKS
      requires 0 < n < SIGN_BLOCKS
      modifies this
      ensures Valid()
      ensures aborts <==> !room
      ensures aborts || !header ==> n' == 0
      ensures p <= p' && p' + n' <= p + n
      ensures !aborts && header ==>
                forall m :: InSpan(p, n, m) && !InSpan(p', n', m) ==> m <= 1 || m == ADDRESS_BLOCKS - 1
      ensures heapSize == old(heapSize) + n' && largeFree == old(largeFree) + n'
      ensures area == old(area) + Span(p', n')
      ensures SameInUse(old(blk), blk)
      ensures if n' == 0 then blk == old(blk) else blk == FreedIn(old(blk)[p' := Blk(n', false)], p', q)
      ensures n' > 0 ==> EndsAt(old(blk)[p' := Blk(n', false)], q, p')
    {
      aborts, p', n', q := !room, p, 0, 0;
      if aborts {
        NothingAdded(p');
        return;
      }
      p', n' := Trim(p, n);
      if n' == 0 || !header {
        n' := 0;
        NothingAdded(p');
        return;
      }
      SpanLess(p, n, p', n');
      q := AddChunk(p', n');
    }

    /** The part of the n blocks from p on that can be added to the heap. */
    method Trim(p: Addr, n: nat) returns (p': Addr, n': nat)
      requires n > 0
      ensures p <= p' && p' + n' <= p + n && (n' > 0 ==> p' > 1)
      ensures forall m :: InSpan(p, n, m) && !InSpan(p', n', m) ==> m <= 1 || m == ADDRESS_BLOCKS - 1
    {
      p', n' := p, n;
      while p' <= 1
        invariant p <= p' && p' + n' == p + n && n' > 0
        invariant p' == p || p' <= 2
        decreases 2 - p'
      {
        p', n' := p' + 1, n' - 1;
        if n' == 0 {
          return;
        }
      }
      if p' + n' == ADDRESS_BLOCKS {
        n' := n' - 1;
      }
    }

    lemma SpanLess(p: Addr, n: nat, p': Addr, n': nat)
      requires p <= p' && p' + n' <= p + n
      ensures Span(p', n') <= Span(p, n)
    {
      assert forall m: Addr :: InSpan(p', n', m) ==> InSpan(p, n, m);
    }

    lemma NothingAdded(p: Addr)
      ensures Span(p, 0) == {}
      ensures SameInUse(blk, blk)
    {
    }

    /** Add a chunk as if it had been in use, and free it. */
    method AddChunk(p: Addr, n: nat) returns (ghost q: Addr)
      requires Valid() && Span(p, n) !! area && p > 0
      requires 0 < n < SIGN_BLOCKS
      modifies this
      ensures Valid()
      ensures heapSize == old(heapSize) + n && largeFree == old(largeFree) + n
      ensures area == old(area) + Span(p, n)
      ensures SameInUse(old(blk), blk)
      ensures blk == FreedIn(old(blk)[p := Blk(n, false)], p, q) && EndsAt(old(blk)[p := Blk(n, false)], q, p)
    {
      hide AllLinked, Sums, Tiles, Coalesced, SameInUse, Used, Total, FreedIn, EndsAt;
      ghost var blk0 := blk;
      GrowTiles(blk, area, p, n, false);
      UsedUpdate(blk, p, Blk(n, false));
      GrownBooks(blk, lists, p, n);
      GrownCoalesced(blk, p, n);
      blk := blk[p := Blk(n, false)];
      area := area + Span(p, n);
      StillLinked(blk0, p, p);
      q := FreeHblk(p, n);
      heapSize := heapSize + n;
      SameAsBefore(blk0, p, n, blk);
    }

    // ---------- Allocation ----------

    /** Cut the unlisted free chunk h at n; both parts are free and on no list. */
    method CutOff(h: Addr, n: Addr)
      requires Books(h) && NotListed(lists, h) && FreeAt(blk, h) && h < n < h + blk[h].sz
      modifies this`blk
      ensures WellLinked() && OnRightList(blk, lists, h) && Tiles(blk, area)
      ensures NotListed(lists, h) && NotListed(lists, n) && h != n
      ensures blk == Cut(old(blk), h, n) && Used(blk) == Used(old(blk))
      ensures forall b :: FreeAt(blk, b) && b != h && b != n ==> b in lists[FlIndex(blk[b].sz)]
    {
      hide Tiles, Used, AllLinked, Sums, OnRightList, AllListed, NotListed;
      ghost var blk0 := blk;
      CutTiles(blk, area, h, n);
      UsedCut(blk, h, n);
      var rest := h + blk[h].sz - n;
      blk := blk[h := Blk(n - h, true)][n := Blk(rest, true)];
      CutBooks(blk0, lists, h, n);
      StillLinked(blk0, h, n);
    }

    /** GC_get_first_part: take the free chunk h, which is on the list with the given index, off that list, keep its
        first `needed` blocks and put the rest on the list where it belongs. */
    method GetFirstPart(h: Addr, needed: nat, index: nat)
      requires Books(h) && index <= N_HBLK_FLS && h in lists[index]
      requires FreeAt(blk, h) && 0 < needed <= blk[h].sz
      modifies this`blk, this`next, this`prev, this`heads, this`freeBytes, this`lists
      ensures Books(h) && NotListed(lists, h)
      ensures Used(blk) == Used(old(blk))
      ensures Total(freeBytes) + needed == Total(old(freeBytes))
      ensures blk == if needed == old(blk)[h].sz then old(blk) else Cut(old(blk), h, h + needed)
    {
      hide Used, Total, Tiles, AllLinked, Sums, OnRightList, AllListed, NotListed, LessOne;
      ghost var blk0, lists0 := blk, lists;
      RemoveFromFlAt(h, index);
      TotalUpdate(old(freeBytes), index, freeBytes[index]);
      OffItsList(blk, lists0, lists, h);
      if blk[h].sz == needed {
        return;
      }
      var rest := h + needed;
      CutOff(h, rest);
      var i := FlIndex(blk[rest].sz);
      ghost var lists1, counts, blk1 := lists, freeBytes, blk;
      AddToFl(rest);
      assert blk == blk1;
      TotalUpdate(counts, i, freeBytes[i]);
      RestFiled(blk, lists1, lists, h, rest);
    }

    /** What the links of the k-th chunk of a list say. */
    lemma Place(index: nat, k: nat)
      requires WellLinked() && index <= N_HBLK_FLS && k < |lists[index]|
      ensures var s, h := lists[index], lists[index][k];
              && h in prev && prev[h] == At(s, k - 1) && (k > 0 ==> s[k - 1] != 0)
              && h in next && next[h] == At(s, k + 1) && (k + 1 < |s| ==> s[k + 1] != 0)
              && NoDup(s)
              && forall i :: 0 <= i < |s| ==> s[i] != 0
      ensures |heads| == |lists| && OnOneList(lists)
    {
      var s := lists[index];
      assert Linked(next, prev, heads[index], s) && Node(next, prev, s, k);
      assert k > 0 ==> Node(next, prev, s, k - 1);
      assert k + 1 < |s| ==> Node(next, prev, s, k + 1);
      forall i | 0 <= i < |s| ensures s[i] != 0 {
        assert Node(next, prev, s, i);
      }
    }

    /** What taking the k-th chunk off its list changes. */
    lemma Off(index: nat, k: nat)
      requires WellLinked() && index <= N_HBLK_FLS && k < |lists[index]| && lists[index][k] in blk
      ensures var h := lists[index][k];
              && h in prev && h in next && |heads| == |lists|
              && var before, after, lists' := prev[h], next[h], lists[index := Without(lists[index], k)];
              && AllLinked(if before == 0 then next else next[before := after],
                           if after == 0 then prev else prev[after := before],
                           if before == 0 then heads[index := after] else heads, lists')
              && NotListed(lists', h) && LessOne(lists, lists', h)
              && blk[h].sz <= freeBytes[index]
              && Sums(blk, lists', freeBytes[index := freeBytes[index] - blk[h].sz])
    {
      hide Sums, AllLinked, NotListed, NoDup, Without, LessOne, OnOneList;
      Place(index, k);
      SumsTakenOff(blk, lists, freeBytes, index, k);
      Unlinked(next, prev, heads, lists, index, k);
    }

    /** Chunk n, which is about to start inside chunk h, takes the place of h on its list. */
    method Supplant(h: Addr, n: Addr, index: nat)
      requires WellLinked() && index <= N_HBLK_FLS && h in lists[index]
      requires h in blk && n !in blk && NotListed(lists, n) && h < n < h + blk[h].sz
      modifies this`blk, this`next, this`prev, this`heads, this`freeBytes, this`lists
      ensures WellLinked() && NotListed(lists, h)
      ensures exists k :: 0 <= k < |old(lists)[index]| && old(lists)[index][k] == h
                          && lists == old(lists)[index := Replaced(old(lists)[index], k, n)]
      ensures blk == old(blk)[n := Blk(h + old(blk)[h].sz - n, false)][h := Blk(n - h, old(blk)[h].free)]
      ensures n - h <= old(freeBytes)[index] && freeBytes == old(freeBytes)[index := old(freeBytes)[index] - (n - h)]
    {
      hide Sums, AllLinked, NotListed, Replaced;
      ghost var k :| 0 <= k < |lists[index]| && lists[index][k] == h;
      Place(index, k);
      SumsSupplanted(blk, lists, freeBytes, index, k, n);
      Relink(h, n, index, k);
      var total, size := blk[h].sz, n - h;
      blk := blk[n := Blk(total - size, false)];
      freeBytes := freeBytes[index := freeBytes[index] - size];
      blk := blk[h := Blk(size, blk[h].free)];
    }

    /** Put n in the place of h in the links. */
    method Relink(h: Addr, n: Addr, index: nat, ghost k: nat)
      requires |lists| == N_HBLK_FLS + 1 && AllLinked(next, prev, heads, lists)
      requires index <= N_HBLK_FLS && k < |lists[index]| && lists[index][k] == h && NotListed(lists, n) && n != 0
      modifies this`next, this`prev, this`heads, this`lists
      ensures lists == old(lists)[index := Replaced(old(lists)[index], k, n)]
      ensures AllLinked(next, prev, heads, lists) && NotListed(lists, h)
    {
      ghost var s, next0, prev0, heads0, lists0 := lists[index], next, prev, heads, lists;
      assert Linked(next, prev, heads[index], s) && Node(next, prev, s, k);
      assert k > 0 ==> Node(next, prev, s, k - 1);
      assert k + 1 < |s| ==> Node(next, prev, s, k + 1);
      hide AllLinked, Linked, NotListed;
      var before, after := prev[h], next[h];
      prev, next := prev[n := before], next[n := after];
      if before != 0 {
        next := next[before := n];
      } else {
        heads := heads[index := n];
      }
      if after != 0 {
        prev := prev[after := n];
      }
      lists := lists[index := Replaced(s, k, n)];
      ReplaceAll(next0, prev0, heads0, lists0, index, k, n, next, prev);
    }

    /** GC_split_block: the free chunk h is cut at n.  The first part moves to the list where it belongs now; n takes
        the place of h, on what may be a wrong list. */
    method SplitBlock(h: Addr, n: Addr, index: nat)
      requires Books(0) && index <= N_HBLK_FLS && h in lists[index]
      requires FreeAt(blk, h) && h < n < h + blk[h].sz
      modifies this`blk, this`next, this`prev, this`heads, this`freeBytes, this`lists
      ensures Books(n) && n in lists[index]
      ensures blk == Cut(old(blk), h, n) && Used(blk) == Used(old(blk))
      ensures Total(freeBytes) == Total(old(freeBytes))
    {
      hide Used, Total, Tiles, AllLinked, Sums, OnRightList, AllListed, NotListed;
      ghost var blk0, lists0, counts0 := blk, lists, freeBytes;
      NoNull(0);
      CutTiles(blk, area, h, n);
      UsedCut(blk, h, n);
      NotYetListed(blk, lists, n);
      Supplant(h, n, index);
      ghost var lists1, counts1 := lists, freeBytes;
      TotalUpdate(counts0, index, freeBytes[index]);
      AddToFl(h);
      TotalUpdate(counts1, FlIndex(n - h), freeBytes[FlIndex(n - h)]);
      ghost var blk1 := blk;
      blk := blk[n := Blk(blk[n].sz, true)];
      assert blk == Cut(blk0, h, n);
      SplitBooks(blk0, lists0, lists1, lists, h, n, index);
      FlagLinked(blk1, n);
    }

    /** Flags do not matter to the lists. */
    lemma FlagLinked(blk0: Blocks, n: Addr)
      requires |lists| == |freeBytes| == N_HBLK_FLS + 1
      requires AllLinked(next, prev, heads, lists) && Sums(blk0, lists, freeBytes)
      requires n in blk0 && blk == blk0[n := Blk(blk0[n].sz, true)]
      ensures WellLinked()
    {
      forall i | 0 <= i < |lists| ensures freeBytes[i] == ListSum(blk, lists[i]) {
        SameSums(blk0, blk, lists[i]);
      }
    }

    /** Put the unlisted free chunk h to use. */
    method MarkUsed(h: Addr)
      requires Books(h) && NotListed(lists, h) && FreeAt(blk, h)
      modifies this`blk
      ensures Books(0)
      ensures blk == old(blk)[h := Blk(old(blk)[h].sz, false)]
      ensures Used(blk) == Used(old(blk)) + old(blk)[h].sz
    {
      hide Covered, Used;
      ghost var blk0 := blk;
      FlagTiles(blk, area, h, false);
      UsedUpdate(blk, h, Blk(blk[h].sz, false));
      blk := blk[h := Blk(blk[h].sz, false)];
      StillLinked(blk0, h, h);
    }

    /** Allocate the `needed` blocks from p on out of the free chunk h, which is on the list with the given index. */
    method Carve(h: Addr, p: Addr, needed: nat, index: nat)
      requires Valid() && index <= N_HBLK_FLS && h in lists[index] && FreeAt(blk, h)
      requires h <= p && 0 < needed && p + needed <= h + blk[h].sz
      modifies this
      ensures Valid()
      ensures blk == Carved(old(blk), h, p, needed)
      ensures largeFree + needed == old(largeFree) && heapSize == old(heapSize) && area == old(area)
    {
      hide WellLinked, OnRightList, AllListed, NotListed, Tiles, Used, Total, Coalesced, Carved;
      ghost var blk0 := blk;
      ApartNow(0);
      if p != h {
        SplitBlock(h, p, index);
      } else {
        AsOdd(h);
      }
      GetFirstPart(p, needed, index);
      MarkUsed(p);
      CarvedSteps(blk0, h, p, needed, blk);
      largeFree := largeFree - needed;
      if heapSize < SIGN_BLOCKS {
        CarvedIsCoalesced(blk0, h, p, needed);
      }
    }

    lemma AsOdd(h: Addr)
      requires Books(0)
      ensures Books(h)
    {
    }

    /** Put the first block of the unlisted free chunk c to use by itself. */
    method UseFirst(c: Addr)
      requires Books(c) && NotListed(lists, c) && FreeAt(blk, c) && blk[c].sz > 1
      modifies this`blk
      ensures Books(c + 1) && NotListed(lists, c + 1)
      ensures blk == Cut(old(blk), c, c + 1)[c := Blk(1, false)]
      ensures Used(blk) == Used(old(blk)) + 1
    {
      hide Tiles, Used, AllLinked, Sums, OnRightList, AllListed, NotListed;
      CutOff(c, c + 1);
      ghost var blk0 := blk;
      FlagTiles(blk, area, c, false);
      UsedUpdate(blk, c, Blk(1, false));
      blk := blk[c := Blk(1, false)];
      FirstFiled(blk0, lists, c, c + 1);
      StillLinked(blk0, c, c);
    }

    /** A chunk that is black-listed all over is put to use block by block, so that it need not be looked at again
        before the next collection. */
    method Drop(h: Addr, index: nat)
      requires Valid() && index <= N_HBLK_FLS && h in lists[index] && FreeAt(blk, h)
      modifies this
      ensures Valid()
      ensures largeFree + old(blk)[h].sz == old(largeFree) && heapSize == old(heapSize) && area == old(area)
      ensures exists k :: 0 <= k < |old(lists)[index]| && old(lists)[index][k] == h
                          && lists == old(lists)[index := Without(old(lists)[index], k)]
      ensures OneFreeLess(old(blk), blk, h, 0)
      ensures CanPlay(old(blk), Dropped(h)) && blk == Played(old(blk), Dropped(h))
    {
      hide Books, Used, Total, Coalesced, OneFreeLess, NotListed, UsedUp;
      ghost var blk0 := blk;
      AsOdd(h);
      NoNull(0);
      Positive(h, h);
      var total := blk[h].sz;
      TakeOff(h, index);
      largeFree := largeFree - total;
      UseAll(h);
      if heapSize < SIGN_BLOCKS {
        NoNull(0);
        LessFreeCoalesced(blk0, blk, h, 0);
      }
    }

    /** Put the unlisted free chunk h to use block by block. */
    method UseAll(h: Addr)
      requires Books(h) && NotListed(lists, h) && FreeAt(blk, h)
      modifies this`blk
      ensures Books(0)
      ensures Used(blk) == Used(old(blk)) + old(blk)[h].sz
      ensures OneFreeLess(old(blk), blk, h, 0)
      ensures old(blk)[h].sz > 0 && blk == UsedUp(old(blk), h)
    {
      hide Books, Used, NotListed, Cut, OneFreeLess;
      Positive(h, h);
      NoNull(h);
      ghost var blk0 := blk;
      var c, total := h, blk[h].sz;
      StartLess(blk, h);
      while c + 1 < h + total
        invariant h <= c < h + total && Books(c) && NotListed(lists, c)
        invariant c in blk && blk[c] == Blk(h + total - c, true)
        invariant Used(blk) == Used(blk0) + (c - h)
        invariant OneFreeLess(blk0, blk, h, c) && UsedUp(blk, c) == UsedUp(blk0, h)
      {
        ghost var b := blk;
        NotAt(c);
        UseFirst(c);
        FirstUsed(blk0, b, blk, h, c);
        c := c + 1;
      }
      ghost var b := blk;
      NoNull(c);
      MarkUsed(c);
      LastUsed(blk0, b, blk, h, c);
    }

    lemma NotAt(c: Addr)
      requires Books(c) && c in blk && blk[c].sz > 1
      ensures c + 1 !in blk
    {
    }

    /** Take the free chunk h off its list. */
    method TakeOff(h: Addr, index: nat)
      requires Books(h) && index <= N_HBLK_FLS && h in lists[index] && h in blk
      modifies this`next, this`prev, this`heads, this`freeBytes, this`lists
      ensures Books(h) && NotListed(lists, h)
      ensures exists k :: 0 <= k < |old(lists)[index]| && old(lists)[index][k] == h
                          && lists == old(lists)[index := Without(old(lists)[index], k)]
      ensures Total(freeBytes) + blk[h].sz == Total(old(freeBytes))
    {
      hide Total, Tiles, AllLinked, Sums, OnRightList, AllListed, NotListed, LessOne;
      ghost var lists0 := lists;
      RemoveFromFlAt(h, index);
      TotalUpdate(old(freeBytes), index, freeBytes[index]);
      OffItsList(blk, lists0, lists, h);
    }

    /** The chunk after the one at position k is better. */
    ghost predicate NextIsBetter(rq: Request, bl: B.BlackLists, n: nat, k: nat)
      reads this`blk, this`lists
    {
      && n < |lists| && k + 1 < |lists[n]| && lists[n][k] in blk && lists[n][k + 1] in blk
      && rq.Better(bl, blk[lists[n][k]].sz, lists[n][k + 1], blk[lists[n][k + 1]].sz)
    }

    /** Is the free chunk x of the right size, and is the next one on its list not obviously better? */
    method Worthwhile(rq: Request, bl: B.BlackLists, maySplit: bool, x: Addr, ghost n: nat, ghost k: nat)
      returns (ok: bool)
      requires Valid() && n <= N_HBLK_FLS && k < |lists[n]| && x == lists[n][k] && x in blk && rq.needed > 0
      ensures ok <==> rq.Suits(maySplit, blk[x].sz) && !NextIsBetter(rq, bl, n, k)
    {
      hide Valid, B.BlackLists.Clean;
      HeadOf(n);
      StepOn(n, k);
      var avail := blk[x].sz;
      if avail < rq.needed {
        return false;
      }
      if avail != rq.needed {
        if !maySplit {
          return false;
        }
        var y := next[x];
        if k + 1 < |lists[n]| {
          ListedIsFree(n, k + 1);
        }
        if y != 0 {
          if blk[y].sz < avail && blk[y].sz >= rq.needed {
            var b := bl.IsBlackListed(y, rq.needed);
            if b == 0 {
              return false;
            }
          }
        }
      }
      return true;
    }

    lemma ListedIsFree(n: nat, k: nat)
      requires Valid() && n <= N_HBLK_FLS && k < |lists[n]|
      ensures FreeAt(blk, lists[n][k]) && lists[n][k] != 0
    {
      assert lists[n][k] in lists[n];
    }

    /** What is known when the search has come to position k of list n: chunks before it that can be used are followed
        by better ones. */
    ghost predicate Searched(rq: Request, bl: B.BlackLists, maySplit: bool, n: nat, k: nat)
      requires n < |lists|
      reads this`blk, this`lists
    {
      && k <= |lists[n]|
      && forall j :: 0 <= j < k && Fits(rq, bl, maySplit, lists[n][j]) ==> NextIsBetter(rq, bl, n, j)
    }

    ghost predicate Fits(rq: Request, bl: B.BlackLists, maySplit: bool, x: Addr)
      reads this`blk
    {
      x in blk && rq.Usable(bl, maySplit, x, blk[x].sz)
    }

    lemma HeadOf(n: nat)
      requires Valid() && n <= N_HBLK_FLS
      ensures |lists| == |heads| == N_HBLK_FLS + 1 && heads[n] == At(lists[n], 0)
    {
      assert Linked(next, prev, heads[n], lists[n]);
    }

    lemma StepOn(n: nat, k: nat)
      requires Valid() && n <= N_HBLK_FLS && k < |lists[n]|
      ensures lists[n][k] in next && next[lists[n][k]] == At(lists[n], k + 1)
      ensures lists[n][k] in prev && prev[lists[n][k]] == At(lists[n], k - 1)
      ensures OnOneList(lists) && NoDup(lists[n])
    {
      Place(n, k);
    }

    /** Try to meet the request from the chunk x at position k of list n, which is large enough.  Either this is done,
        with the result q; or the chunk was dropped and the search goes on at q, now at position k; or the chunk is no
        good and stays where it is. */
    method TryChunk(rq: Request, bl: B.BlackLists, maySplit: bool, x: Addr, n: nat, ghost k: nat,
                    ghost blk0: Blocks, ghost lists0: seq<seq<Addr>>)
      returns (done: bool, retry: bool, q: Addr, did: seq<Event>)
      requires Valid() && n <= N_HBLK_FLS && k < |lists[n]| && x == lists[n][k] && FreeAt(blk, x) && rq.needed > 0
      requires rq.Suits(maySplit, blk[x].sz) && Searched(rq, bl, maySplit, n, k)
      requires StillInUse(blk0, blk) && NoMoreFree(blk0, blk) && OthersKept(lists0, lists, n)
      modifies this
      ensures Valid() && heapSize == old(heapSize) && area == old(area) && StillInUse(blk0, blk)
      ensures done ==> q != 0 && q in blk && blk[q] == Blk(rq.needed, false) && (q in blk0 ==> blk0[q].free)
      ensures done ==> rq.Placed(bl, x, old(blk)[x].sz, q)
      ensures retry ==> rq.Worthless(bl, x, old(blk)[x].sz) && lists[n] == Without(old(lists)[n], k)
      ensures retry ==> forall b :: b in old(blk) && b != x ==> b in blk && blk[b] == old(blk)[b]
      ensures done ==> largeFree + rq.needed == old(largeFree)
      ensures Tells(old(blk), did, blk)
      ensures did == (if done then [Taken(x, q, rq.needed)] else if retry then [Dropped(x)] else [])
      ensures done && !rq.checked ==> q == x
      ensures !done ==> largeFree <= old(largeFree) && (!rq.checked ==> largeFree == old(largeFree))
      ensures !done ==> NoMoreFree(blk0, blk) && OthersKept(lists0, lists, n)
      ensures !done && retry ==>
                rq.checked && q == At(lists[n], k) && |lists[n]| < |old(lists)[n]| && Searched(rq, bl, maySplit, n, k)
      ensures !done && !retry ==>
                blk == old(blk) && lists == old(lists) && next == old(next) && Searched(rq, bl, maySplit, n, k + 1)
    {
      hide Valid, Coalesced, Used, Total, StillInUse, NoMoreFree, OthersKept, Carved, Searched, OneFreeLess, Tells,
           UsedUp;
      HeadOf(n);
      ListedIsFree(n, k);
      TellsNone(blk);
      done, retry, q, did := true, false, x, [Taken(x, x, rq.needed)];
      if !rq.checked {
        CarveOut(rq, x, x, n, blk0);
        return;
      }
      var sz := blk[x].sz;
      var last := bl.FindClean(x, x + sz - rq.needed, rq.Watched());
      var avail := sz - (last - x);
      if avail >= rq.needed {
        q, did := last, [Taken(x, last, rq.needed)];
        CarveOut(rq, x, last, n, blk0);
        return;
      }
      if rq.Punts(sz) {
        CarveOut(rq, x, x, n, blk0);
        return;
      }
      done, did := false, [];
      assert !rq.Usable(bl, maySplit, x, sz);
      NotUsable(rq, bl, maySplit, n, k);
      StepPast(rq, bl, maySplit, n, k);
      if avail == 0 && rq.needed == 1 && !rq.findLeak {
        var drop: bool := *;
        if drop {
          q := DropAndGoOn(rq, bl, maySplit, x, n, k, blk0, lists0);
          retry, did := true, [Dropped(x)];
        }
      }
    }

    method CarveOut(rq: Request, x: Addr, p: Addr, n: nat, ghost blk0: Blocks)
      requires Valid() && n <= N_HBLK_FLS && x in lists[n] && FreeAt(blk, x)
      requires x <= p && 0 < rq.needed && p + rq.needed <= x + blk[x].sz
      requires StillInUse(blk0, blk)
      modifies this
      ensures Valid() && heapSize == old(heapSize) && area == old(area) && StillInUse(blk0, blk)
      ensures p in blk && blk[p] == Blk(rq.needed, false) && (p in blk0 ==> blk0[p].free)
      ensures largeFree + rq.needed == old(largeFree)
      ensures Tells(old(blk), [Taken(x, p, rq.needed)], blk)
    {
      hide WellLinked, OnRightList, AllListed, Used, Total, Coalesced, Carved, Tells;
      ApartNow(0);
      CarvedInUse(blk0, blk, x, p, rq.needed);
      TellsTaken(blk, x, p, rq.needed);
      Carve(x, p, rq.needed, n);
    }

    /** The chunk at k cannot be used, so nothing before it can. */
    lemma {:induction false} NotUsable(rq: Request, bl: B.BlackLists, maySplit: bool, n: nat, k: nat)
      requires n < |lists| && Searched(rq, bl, maySplit, n, k) && rq.needed > 0
      requires k < |lists[n]| ==> !Fits(rq, bl, maySplit, lists[n][k])
      ensures forall j :: 0 <= j <= k && j < |lists[n]| ==> !Fits(rq, bl, maySplit, lists[n][j])
    {
      if k > 0 {
        var x := lists[n][k - 1];
        if Fits(rq, bl, maySplit, x) {
          BetterIsUsable(rq, bl, blk[x].sz, lists[n][k], blk[lists[n][k]].sz);
        }
        NotUsable(rq, bl, maySplit, n, k - 1);
      }
    }

    /** If the chunk at k turns out to be no good, nothing before it is. */
    lemma EarlierToo(rq: Request, bl: B.BlackLists, maySplit: bool, n: nat, k: nat)
      requires n < |lists| && k < |lists[n]| && Searched(rq, bl, maySplit, n, k) && rq.needed > 0
      requires forall x :: x in lists[n] ==> x in blk
      ensures !rq.Usable(bl, maySplit, lists[n][k], blk[lists[n][k]].sz) ==>
                forall j :: 0 <= j < k ==> !rq.Usable(bl, maySplit, lists[n][j], blk[lists[n][j]].sz)
    {
      if !rq.Usable(bl, maySplit, lists[n][k], blk[lists[n][k]].sz) {
        NotUsable(rq, bl, maySplit, n, k);
        forall j | 0 <= j < k ensures !rq.Usable(bl, maySplit, lists[n][j], blk[lists[n][j]].sz) {
          assert !Fits(rq, bl, maySplit, lists[n][j]);
        }
      }
    }

    lemma StepPast(rq: Request, bl: B.BlackLists, maySplit: bool, n: nat, k: nat)
      requires n < |lists| && k < |lists[n]| && Searched(rq, bl, maySplit, n, k)
      requires !Fits(rq, bl, maySplit, lists[n][k])
      ensures Searched(rq, bl, maySplit, n, k + 1)
    {
    }

    lemma NothingSearched(rq: Request, bl: B.BlackLists, maySplit: bool, n: nat)
      requires n < |lists|
      ensures Searched(rq, bl, maySplit, n, 0)
    {
    }

    lemma AllSearched(rq: Request, bl: B.BlackLists, maySplit: bool, n: nat, k: nat)
      requires n < |lists| && k >= |lists[n]| && Searched(rq, bl, maySplit, n, k) && rq.needed > 0
      ensures forall x :: x in lists[n] ==> !Fits(rq, bl, maySplit, x)
    {
      NotUsable(rq, bl, maySplit, n, k);
    }

    /** Chunks on a list are as they were at the start of the search. */
    lemma ListedWas(n: nat, blk0: Blocks)
      requires Valid() && n <= N_HBLK_FLS && NoMoreFree(blk0, blk)
      ensures n < |lists| && NoDup(lists[n])
      ensures forall x :: x in lists[n] ==> FreeAt(blk, x) && x in blk0 && blk0[x] == blk[x]
    {
      HeadOf(n);
      if lists[n] != [] {
        Place(n, 0);
      }
      forall x | x in lists[n] ensures FreeAt(blk, x) {
        var k :| 0 <= k < |lists[n]| && lists[n][k] == x;
        ListedIsFree(n, k);
      }
    }

    /** The chunk at position k suits, and the next one is not better: it is the one to choose. */
    lemma NowChosen(rq: Request, bl: B.BlackLists, maySplit: bool, n: nat, k: nat, blk0: Blocks, s0: seq<Addr>,
                    log: seq<Event>)
      requires n < |lists| && k < |lists[n]| && NoDup(lists[n]) && NoDup(s0) && rq.needed > 0
      requires forall x :: x in lists[n] ==> FreeAt(blk, x) && x in blk0 && blk0[x] == blk[x]
      requires Searched(rq, bl, maySplit, n, k) && SoFar(rq, bl, maySplit, blk0, s0, blk, lists[n], log)
      requires lists[n][k] in blk && rq.Suits(maySplit, blk[lists[n][k]].sz) && !NextIsBetter(rq, bl, n, k)
      ensures Choice(rq, bl, maySplit, blk0, s0, lists[n][k])
    {
      hide Request.Usable, Request.Better, Thinned, Spared, Reasons, NoDup;
      var s := lists[n];
      OthersPassed(rq, bl, maySplit, n, k);
      OnlyNext(s, k);
      hide Searched, Before, Follows;
      SameChoice(rq, bl, maySplit, blk0, s0, blk, s, s[k]);
    }

    lemma OthersPassed(rq: Request, bl: B.BlackLists, maySplit: bool, n: nat, k: nat)
      requires n < |lists| && k < |lists[n]| && NoDup(lists[n]) && Searched(rq, bl, maySplit, n, k)
      ensures forall x :: Before(lists[n], x, lists[n][k]) && x in blk && rq.Usable(bl, maySplit, x, blk[x].sz) ==>
                BetterNext(rq, bl, blk, lists[n], x)
    {
      hide Request.Usable, Request.Better;
      var s := lists[n];
      forall x | Before(s, x, s[k]) && x in blk && rq.Usable(bl, maySplit, x, blk[x].sz)
        ensures BetterNext(rq, bl, blk, s, x)
      {
        BeforeAt(s, k, x);
        var i :| 0 <= i < k && s[i] == x;
        assert Fits(rq, bl, maySplit, s[i]) && NextIsBetter(rq, bl, n, i);
        assert Follows(s, x, s[i + 1]);
      }
    }

    /** The chunk at k does not suit, or the next one is better. */
    lemma GoneBy(rq: Request, bl: B.BlackLists, maySplit: bool, n: nat, k: nat)
      requires n < |lists| && k < |lists[n]| && Searched(rq, bl, maySplit, n, k) && rq.needed > 0
      requires lists[n][k] in blk && !(rq.Suits(maySplit, blk[lists[n][k]].sz) && !NextIsBetter(rq, bl, n, k))
      ensures Searched(rq, bl, maySplit, n, k + 1)
    {
    }

    /** Drop the chunk x at position k of list n and go on with the one after it.  If x was the first, the search of
        the list starts again. */
    method DropAndGoOn(rq: Request, bl: B.BlackLists, maySplit: bool, x: Addr, n: nat, ghost k: nat,
                       ghost blk0: Blocks, ghost lists0: seq<seq<Addr>>) returns (q: Addr)
      requires Valid() && n <= N_HBLK_FLS && k < |lists[n]| && x == lists[n][k] && FreeAt(blk, x)
      requires forall j :: 0 <= j <= k ==> !Fits(rq, bl, maySplit, lists[n][j])
      requires StillInUse(blk0, blk) && NoMoreFree(blk0, blk) && OthersKept(lists0, lists, n)
      modifies this
      ensures Valid() && heapSize == old(heapSize) && area == old(area)
      ensures StillInUse(blk0, blk) && NoMoreFree(blk0, blk) && OthersKept(lists0, lists, n)
      ensures q == At(lists[n], k) && |lists[n]| < |old(lists)[n]| && Searched(rq, bl, maySplit, n, k)
      ensures lists[n] == Without(old(lists)[n], k)
      ensures forall b :: b in old(blk) && b != x ==> b in blk && blk[b] == old(blk)[b]
      ensures largeFree <= old(largeFree) && Tells(old(blk), [Dropped(x)], blk)
    {
      hide Books, Balanced, OneFreeLess, StillInUse, NoMoreFree, OthersKept, Request.Usable, Tells, CanPlay, Played;
      ghost var blk1, lists1 := blk, lists;
      HeadOf(n);
      StepOn(n, k);
      NoNull(0);
      var before := prev[x];
      if k > 0 {
        ListedIsFree(n, k - 1);
      }
      Drop(x, n);
      TellsDropped(blk1, x);
      ghost var k' :| 0 <= k' < |lists1[n]| && lists1[n][k'] == x && lists == lists1[n := Without(lists1[n], k')];
      assert k' == k;
      HeadOf(n);
      NoNull(0);
      if before == 0 {
        q := heads[n];
      } else {
        assert lists[n][k - 1] == before;
        StepOn(n, k - 1);
        q := next[before];
      }
      DroppedKeeps(blk0, blk1, blk, lists0, lists1, lists, x, n, k);
      OthersStay(blk1, blk, x);
      StillSearched(rq, bl, maySplit, x, n, k, blk1, lists1[n]);
    }

    /** Nothing before position k could be used before x was dropped, and so nothing can now. */
    lemma StillSearched(rq: Request, bl: B.BlackLists, maySplit: bool, x: Addr, n: nat, k: nat, blk1: Blocks,
                        s: seq<Addr>)
      requires Valid() && n <= N_HBLK_FLS && k < |s| && lists[n] == Without(s, k) && OneFreeLess(blk1, blk, x, 0)
      requires forall j :: 0 <= j < k && s[j] in blk1 ==> !rq.Usable(bl, maySplit, s[j], blk1[s[j]].sz)
      ensures n < |lists| && Searched(rq, bl, maySplit, n, k)
    {
      hide Books, Balanced, OneFreeLess, Request.Usable;
      HeadOf(n);
      forall j | 0 <= j < k ensures !Fits(rq, bl, maySplit, lists[n][j]) {
        assert lists[n][j] == s[j];
        ListedIsFree(n, j);
        SameChunk(blk1, blk, x, s[j]);
        SameFit(rq, bl, maySplit, s[j], blk1);
      }
    }

    lemma SameFit(rq: Request, bl: B.BlackLists, maySplit: bool, y: Addr, blk1: Blocks)
      requires y in blk && y in blk1 && blk[y] == blk1[y]
      requires !rq.Usable(bl, maySplit, y, blk1[y].sz)
      ensures !Fits(rq, bl, maySplit, y)
    {
    }

    /** GC_allochblk_nth: look for a chunk on list n.  The result is 0 only if nothing on the list can be used. */
    method AllocHblkNth(rq: Request, bl: B.BlackLists, n: nat, maySplit: bool) returns (r: Addr, did: seq<Event>)
      requires Valid() && n <= N_HBLK_FLS && rq.needed > 0
      modifies this
      ensures Valid()
      ensures heapSize == old(heapSize) && area == old(area)
      ensures StillInUse(old(blk), blk)
      ensures r != 0 ==> r in blk && blk[r] == Blk(rq.needed, false) && (r in old(blk) ==> old(blk)[r].free)
      ensures var taken := if r == 0 then 0 else rq.needed;
              largeFree + taken <= old(largeFree) && (!rq.checked ==> largeFree + taken == old(largeFree))
      ensures Tells(old(blk), did, blk) && LogOf(did, r, rq.needed, rq.checked) && Reasons(rq, bl, old(blk), did)
      ensures r != 0 ==> var h := did[|did| - 1].h;
                Choice(rq, bl, maySplit, old(blk), old(lists)[n], h) && rq.Placed(bl, h, old(blk)[h].sz, r)
      ensures r == 0 ==> SoFar(rq, bl, maySplit, old(blk), old(lists)[n], blk, lists[n], did)
      ensures r == 0 ==> forall x :: x in lists[n] ==> !Fits(rq, bl, maySplit, x)
      ensures r == 0 ==> OthersKept(old(lists), lists, n) && NoMoreFree(old(blk), blk)
    {
      hide Valid, Coalesced, Used, Total, StillInUse, NoMoreFree, OthersKept, Request.Usable, Fits, Tells, LogOf;
      hide SoFar, Reasons, Choice, Request.Placed, Request.Worthless, NextIsBetter, Searched, NoDup;
      KeptRefl(blk, lists, n);
      HeadOf(n);
      ListedWas(n, blk);
      NothingDone(rq, bl, maySplit, blk, lists[n]);
      NothingSearched(rq, bl, maySplit, n);
      TellsNone(blk);
      LogNone(rq.needed, rq.checked);
      did := [];
      HeadOf(n);
      var x := heads[n];
      ghost var k := 0;
      while x != 0
        invariant Valid() && |lists| == N_HBLK_FLS + 1 && x == At(lists[n], k) && Searched(rq, bl, maySplit, n, k)
        invariant heapSize == old(heapSize) && area == old(area)
        invariant StillInUse(old(blk), blk) && NoMoreFree(old(blk), blk) && OthersKept(old(lists), lists, n)
        invariant largeFree <= old(largeFree) && (!rq.checked ==> largeFree == old(largeFree))
        invariant Tells(old(blk), did, blk) && LogOf(did, 0, rq.needed, rq.checked)
        invariant SoFar(rq, bl, maySplit, old(blk), old(lists)[n], blk, lists[n], did) && k <= |lists[n]|
        decreases |lists[n]|, |lists[n]| - k
      {
        ListedIsFree(n, k);
        var ok := Worthwhile(rq, bl, maySplit, x, n, k);
        if ok {
          ghost var blk1, s1 := blk, lists[n];
          ListedWas(n, old(blk));
          NowChosen(rq, bl, maySplit, n, k, old(blk), old(lists)[n], did);
          EarlierToo(rq, bl, maySplit, n, k);
          var done, retry, q, more := TryChunk(rq, bl, maySplit, x, n, k, old(blk), old(lists));
          TellsMore(old(blk), did, blk1, more, blk);
          LogMore(did, done, retry, x, q, rq.needed, rq.checked);
          if done {
            AndTaken(rq, bl, maySplit, old(blk), old(lists)[n], blk1, s1, did, x, q);
            return q, did + more;
          }
          HeadOf(n);
          if retry {
            WorthlessIsUnusable(rq, bl, maySplit, x, blk1[x].sz);
            OneDropped(rq, bl, maySplit, old(blk), old(lists)[n], blk1, s1, did, k, blk);
            x, did := q, did + more;
            continue;
          }
        } else {
          GoneBy(rq, bl, maySplit, n, k);
        }
        StepOn(n, k);
        x := next[x];
        k := k + 1;
      }
      if k < |lists[n]| {
        ListedIsFree(n, k);
      }
      AllSearched(rq, bl, maySplit, n, k);
      AndNothing(rq, bl, maySplit, old(blk), old(lists)[n], blk, lists[n], did);
      return 0, did;
    }

    /** GC_allochblk: find room for the request, trying an exact match first and then splitting larger chunks on
        lists up to splitLimit.  A result of 0 says that none of the lists tried holds a chunk that could be used. */
    method AllocHblk(rq: Request, bl: B.BlackLists, splitLimit: nat) returns (r: Addr, did: seq<Event>)
      requires Valid() && rq.needed > 0 && splitLimit <= N_HBLK_FLS
      modifies this
      ensures Valid()
      ensures heapSize == old(heapSize) && area == old(area)
      ensures StillInUse(old(blk), blk)
      ensures rq.needed >= SIGN_BLOCKS ==> r == 0
      ensures r != 0 ==> r in blk && blk[r] == Blk(rq.needed, false) && (r in old(blk) ==> old(blk)[r].free)
      ensures var taken := if r == 0 then 0 else rq.needed;
              largeFree + taken <= old(largeFree) && (!rq.checked ==> largeFree + taken == old(largeFree))
      ensures Tells(old(blk), did, blk) && LogOf(did, r, rq.needed, rq.checked) && Reasons(rq, bl, old(blk), did)
      ensures r != 0 ==> Best(rq, bl, splitLimit, old(blk), old(lists), did[|did| - 1].h, r)
      ensures r == 0 && rq.needed < SIGN_BLOCKS ==> NoneFor(rq, bl, splitLimit, old(blk))
      ensures r != 0 && !rq.checked ==> CarvedFrom(old(blk), blk, r, rq.needed)
      ensures r == 0 && rq.needed < SIGN_BLOCKS ==>
                forall x :: FreeAt(blk, x) && FlIndex(blk[x].sz) <= splitLimit ==> !Fits(rq, bl, true, x)
      ensures r == 0 && rq.needed < SIGN_BLOCKS ==> forall x :: FreeAt(blk, x) ==> !Fits(rq, bl, false, x)
      ensures r == 0 && !rq.checked ==> blk == old(blk)
    {
      hide Valid, Coalesced, Used, Total, StillInUse, NoMoreFree, OthersKept, Fits, Tells, LogOf, CarvedFrom, Hopeless;
      hide SoFar, Reasons, Choice, Request.Placed, Best, NoneFor, NoExact, Left, Request.Usable, Filed;
      KeptRefl(blk, lists, 0);
      AllFiled();
      AllLeft(rq, bl);
      ghost var blk0, lists0 := blk, lists;
      TellsNone(blk);
      LogNone(rq.needed, rq.checked);
      r, did := 0, [];
      if rq.needed >= SIGN_BLOCKS {
        return;
      }
      var start := FlIndex(rq.needed);
      r, did := AllocHblkNth(rq, bl, start, false);
      Unchecked(old(blk), did, blk, r, rq.needed, rq.checked);
      if r != 0 {
        BestExact(rq, bl, splitLimit, blk0, lists0, did[|did| - 1].h, r);
        return;
      }
      HeadOf(start);
      LeftMore(rq, bl, blk0, lists0, blk0, lists0, false, start, [], did);
      assert [] + did == did;
      NoExactMatch(rq, bl, start);
      NoExactBefore(rq, bl, blk0, lists0, did);
      var i := start;
      if i < UNIQUE_THRESHOLD {
        i := i + 1;
        ExactOnly(rq, bl, start);
      }
      r, did := AllocLarger(rq, bl, splitLimit, start, i, blk0, lists0, did);
      Unchecked(blk0, did, blk, r, rq.needed, rq.checked);
    }

    /** Search the lists from `from` on, after the search for an exact match on list `start` was in vain. */
    method AllocLarger(rq: Request, bl: B.BlackLists, splitLimit: nat, start: nat, from: nat, ghost blk0: Blocks,
                       ghost lists0: seq<seq<Addr>>, did0: seq<Event>) returns (r: Addr, did: seq<Event>)
      requires Valid() && 0 < rq.needed < SIGN_BLOCKS && splitLimit <= N_HBLK_FLS
      requires start == FlIndex(rq.needed) && start <= from
      requires if from == start then Unmatched(rq, bl, start) else from == start + 1 && Hopeless(rq, bl, start)
      requires Left(rq, bl, blk0, lists0, blk, lists, did0) && NoExact(rq, bl, blk0) && StillInUse(blk0, blk)
      requires Tells(blk0, did0, blk) && LogOf(did0, 0, rq.needed, rq.checked)
      modifies this
      ensures Valid()
      ensures heapSize == old(heapSize) && area == old(area)
      ensures StillInUse(blk0, blk)
      ensures r != 0 ==> r in blk && blk[r] == Blk(rq.needed, false) && (r in blk0 ==> blk0[r].free)
      ensures var taken := if r == 0 then 0 else rq.needed;
              largeFree + taken <= old(largeFree) && (!rq.checked ==> largeFree + taken == old(largeFree))
      ensures Tells(blk0, did, blk) && LogOf(did, r, rq.needed, rq.checked) && Reasons(rq, bl, blk0, did)
      ensures r != 0 ==> Best(rq, bl, splitLimit, blk0, lists0, did[|did| - 1].h, r)
      ensures r == 0 ==> NoneFor(rq, bl, splitLimit, blk0)
      ensures r == 0 ==> forall x :: FreeAt(blk, x) && FlIndex(blk[x].sz) <= splitLimit ==> !Fits(rq, bl, true, x)
      ensures r == 0 ==> forall x :: FreeAt(blk, x) ==> !Fits(rq, bl, false, x)
    {
      hide Valid, Coalesced, Used, Total, StillInUse, NoMoreFree, OthersKept, Fits, Tells, LogOf, CarvedFrom, Hopeless;
      hide SoFar, Reasons, Choice, Request.Placed, Best, NoneFor, NoExact, Left, Request.Usable, Unmatched;
      r, did := 0, did0;
      var i := from;
      while i <= splitLimit
        invariant Valid() && heapSize == old(heapSize) && area == old(area) && StillInUse(blk0, blk)
        invariant r == 0 && i >= start
        invariant i == start ==> Unmatched(rq, bl, start)
        invariant forall j :: start <= j < i && j <= N_HBLK_FLS ==> Hopeless(rq, bl, j)
        invariant largeFree <= old(largeFree) && (!rq.checked ==> largeFree == old(largeFree))
        invariant Tells(blk0, did, blk) && LogOf(did, 0, rq.needed, rq.checked)
        invariant Left(rq, bl, blk0, lists0, blk, lists, did) && NoExact(rq, bl, blk0)
      {
        ghost var blk1, lists1 := blk, lists;
        HopelessNow(rq, bl);
        HeadOf(i);
        var more;
        r, more := AllocHblkNth(rq, bl, i, true);
        TellsMore(blk0, did, blk1, more, blk);
        LogConcat(did, more, r, rq.needed, rq.checked);
        ghost var did1 := did;
        did := did + more;
        LogEnds(more, r, rq.needed, rq.checked);
        InUseTrans(blk0, blk1, blk);
        if r != 0 {
          NotInUseBefore(blk0, blk1, r);
          assert did[|did| - 1] == more[|more| - 1];
          BestSplit(rq, bl, splitLimit, blk0, lists0, blk1, lists1, start, i, did1, more, more[|more| - 1].h,
                    r);
          return;
        }
        HeadOf(i);
        LeftMore(rq, bl, blk0, lists0, blk1, lists1, true, i, did1, more);
        StillHopeless(rq, bl, start, i, blk1, lists1);
        i := i + 1;
      }
      NothingFits(rq, bl, splitLimit);
      NoExactMatch(rq, bl, start);
      NoneBefore(rq, bl, splitLimit, blk0, lists0, did);
    }

    /** Nothing on list j can be used. */
    ghost predicate Hopeless(rq: Request, bl: B.BlackLists, j: nat)
      reads this`blk, this`lists
    {
      j < |lists| && forall x :: x in lists[j] ==> !Fits(rq, bl, true, x)
    }

    /** Nothing on list j is an exact match. */
    ghost predicate Unmatched(rq: Request, bl: B.BlackLists, j: nat)
      reads this`blk, this`lists
    {
      j < |lists| && forall x :: x in lists[j] ==> !Fits(rq, bl, false, x)
    }

    lemma HopelessNow(rq: Request, bl: B.BlackLists)
      ensures forall j: nat :: Hopeless(rq, bl, j) ==> HopelessIn(rq, bl, blk, lists, j)
    {
      forall j: nat, x | Hopeless(rq, bl, j) && x in lists[j] && x in blk ensures !rq.Usable(bl, true, x, blk[x].sz) {
        assert !Fits(rq, bl, true, x);
      }
    }

    /** All chunks on one of the first lists have the same size. */
    lemma ExactOnly(rq: Request, bl: B.BlackLists, start: nat)
      requires Valid() && start == FlIndex(rq.needed) && start < UNIQUE_THRESHOLD
      requires forall x :: x in lists[start] ==> !Fits(rq, bl, false, x)
      ensures Hopeless(rq, bl, start)
    {
      forall x | x in lists[start] ensures !Fits(rq, bl, true, x) {
        assert FlIndex(blk[x].sz) == start;
        assert !Fits(rq, bl, false, x);
      }
    }

    /** Exact matches would be on the list for the size needed. */
    lemma NoExactMatch(rq: Request, bl: B.BlackLists, start: nat)
      requires Valid() && start == FlIndex(rq.needed)
      requires Hopeless(rq, bl, start) || Unmatched(rq, bl, start)
      ensures forall x :: FreeAt(blk, x) ==> !Fits(rq, bl, false, x)
    {
      forall x | FreeAt(blk, x) ensures !Fits(rq, bl, false, x) {
        if blk[x].sz == rq.needed {
          NoNull(0);
        }
      }
    }

    lemma AllFiled()
      requires Valid()
      ensures Filed(blk, lists)
    {
      NoNull(0);
      forall i | 0 <= i < |lists| ensures NoDup(lists[i]) && forall x :: x in lists[i] ==> FreeAt(blk, x) {
        ListedWas(i, blk);
      }
    }

    lemma AllLeft(rq: Request, bl: B.BlackLists)
      requires Filed(blk, lists)
      ensures Left(rq, bl, blk, lists, blk, lists, []) && Reasons(rq, bl, blk, [])
    {
      NothingDone(rq, bl, true, blk, []);
      forall j | 0 <= j < |lists| ensures Thinned(rq, bl, true, blk, lists[j], lists[j]) {
        ThinnedRefl(rq, bl, true, blk, lists[j]);
      }
    }

    /** A search of list n in vain. */
    lemma LeftMore(rq: Request, bl: B.BlackLists, blk0: Blocks, lists0: seq<seq<Addr>>, blk1: Blocks,
                   lists1: seq<seq<Addr>>, maySplit: bool, n: nat, log: seq<Event>, more: seq<Event>)
      requires Valid() && (!maySplit ==> n == FlIndex(rq.needed))
      requires n < |lists1| && n < |lists| && Left(rq, bl, blk0, lists0, blk1, lists1, log)
      requires SoFar(rq, bl, maySplit, blk1, lists1[n], blk, lists[n], more) && OthersKept(lists1, lists, n)
      requires NoMoreFree(blk1, blk)
      ensures Left(rq, bl, blk0, lists0, blk, lists, log + more)
    {
      hide Request.Usable, Request.Worthless, Before, Valid;
      AllFiled();
      SparedTrans(rq, bl, blk0, blk1, blk);
      SearchedAll(rq, bl, maySplit, blk1, lists1, n, lists[n]);
      ThinnedTrans(rq, bl, true, blk0, lists0[n], blk1, lists1[n], lists[n]);
      ReasonsBefore(rq, bl, blk0, blk1, more);
      ReasonsMore(rq, bl, blk0, log, more);
      hide Thinned, Spared, Reasons, Filed;
    }

    /** If nothing matches exactly now, nothing did at first. */
    lemma NoExactBefore(rq: Request, bl: B.BlackLists, blk0: Blocks, lists0: seq<seq<Addr>>, log: seq<Event>)
      requires Left(rq, bl, blk0, lists0, blk, lists, log) && forall x :: FreeAt(blk, x) ==> !Fits(rq, bl, false, x)
      ensures NoExact(rq, bl, blk0)
    {
      forall x | FreeAt(blk0, x) ensures !rq.Usable(bl, false, x, blk0[x].sz) {
        if rq.Usable(bl, false, x, blk0[x].sz) {
          assert rq.Usable(bl, true, x, blk0[x].sz);
          assert FreeAt(blk, x) && Fits(rq, bl, false, x);
        }
      }
    }

    /** If nothing can be used now, nothing could at first. */
    lemma NoneBefore(rq: Request, bl: B.BlackLists, limit: nat, blk0: Blocks, lists0: seq<seq<Addr>>, log: seq<Event>)
      requires Left(rq, bl, blk0, lists0, blk, lists, log) && NoExact(rq, bl, blk0)
      requires forall x :: FreeAt(blk, x) && FlIndex(blk[x].sz) <= limit ==> !Fits(rq, bl, true, x)
      ensures NoneFor(rq, bl, limit, blk0) && Reasons(rq, bl, blk0, log)
    {
      forall x | FreeAt(blk0, x) && FlIndex(blk0[x].sz) <= limit ensures !rq.Usable(bl, true, x, blk0[x].sz) {
        if rq.Usable(bl, true, x, blk0[x].sz) {
          assert FreeAt(blk, x) && Fits(rq, bl, true, x);
        }
      }
    }

    lemma StillHopeless(rq: Request, bl: B.BlackLists, start: nat, i: nat, blk1: Blocks, lists1: seq<seq<Addr>>)
      requires Valid() && i <= N_HBLK_FLS && OthersKept(lists1, lists, i) && NoMoreFree(blk1, blk)
      requires forall x :: x in lists[i] ==> !Fits(rq, bl, true, x)
      requires forall j :: start <= j < i ==> HopelessIn(rq, bl, blk1, lists1, j)
      ensures forall j :: start <= j <= i ==> Hopeless(rq, bl, j)
    {
      forall j | start <= j <= i ensures Hopeless(rq, bl, j) {
        if j < i {
          assert HopelessIn(rq, bl, blk1, lists1, j);
          forall x | x in lists[j] ensures !Fits(rq, bl, true, x) {
            assert blk[x].free;
          }
        }
      }
    }

    /** A chunk that is large enough is on one of the lists from FlIndex(needed) on. */
    lemma NothingFits(rq: Request, bl: B.BlackLists, limit: nat)
      requires Valid() && limit <= N_HBLK_FLS
      requires forall j :: FlIndex(rq.needed) <= j <= limit ==> Hopeless(rq, bl, j)
      ensures forall x :: FreeAt(blk, x) && FlIndex(blk[x].sz) <= limit ==> !Fits(rq, bl, true, x)
    {
      forall x | FreeAt(blk, x) && FlIndex(blk[x].sz) <= limit ensures !Fits(rq, bl, true, x) {
        if rq.needed <= blk[x].sz {
          FlIndexMonotone(rq.needed, blk[x].sz);
          NoNull(0);
          assert Hopeless(rq, bl, FlIndex(blk[x].sz));
        }
      }
    }
  }

  lemma SumsPushed(blk: Blocks, blk': Blocks, lists: seq<seq<Addr>>, i: nat, h: Addr)
    requires i < |lists| && h in blk && NotListed(lists, h)
    requires blk' == blk[h := Blk(blk[h].sz, true)]
    ensures ListSum(blk', [h] + lists[i]) == blk[h].sz + ListSum(blk, lists[i])
    ensures forall j :: 0 <= j < |lists| ==> ListSum(blk', lists[j]) == ListSum(blk, lists[j])
  {
    assert ([h] + lists[i])[1..] == lists[i];
    forall j | 0 <= j < |lists| ensures ListSum(blk', lists[j]) == ListSum(blk, lists[j]) {
      SameSums(blk, blk', lists[j]);
    }
  }

  lemma {:induction false} SameSums(blk: Blocks, blk': Blocks, s: seq<Addr>)
    requires forall x :: x in s ==> (x in blk <==> x in blk') && (x in blk && x in blk' ==> blk[x].sz == blk'[x].sz)
    ensures ListSum(blk', s) == ListSum(blk, s)
  {
    if s != [] {
      SameSums(blk, blk', s[1..]);
    }
  }

  lemma {:induction false} NoCounts(counts: seq<nat>)
    requires forall i :: 0 <= i < |counts| ==> counts[i] == 0
    ensures Total(counts) == 0
  {
    if counts != [] {
      NoCounts(counts[1..]);
    }
  }

  /** What taking the k-th chunk off list m does to the links. */
  lemma Unlinked(next: Links, prev: Links, heads: seq<Addr>, lists: seq<seq<Addr>>, m: nat, k: nat)
    requires AllLinked(next, prev, heads, lists) && m < |lists| && k < |lists[m]|
    requires OnOneList(lists) && NoDup(lists[m]) && forall i :: 0 <= i < |lists[m]| ==> lists[m][i] != 0
    ensures var s := lists[m];
            var before, after := At(s, k - 1), At(s, k + 1);
            var lists' := lists[m := Without(s, k)];
            && AllLinked(if before == 0 then next else next[before := after],
                         if after == 0 then prev else prev[after := before],
                         if before == 0 then heads[m := after] else heads, lists')
            && NotListed(lists', s[k]) && LessOne(lists, lists', s[k])
  {
    hide AllLinked, NotListed, NoDup, Without, LessOne, OnOneList;
    var s := lists[m];
    var before, after := At(s, k - 1), At(s, k + 1);
    UnlinkAll(next, prev, heads, lists, m, k, if before == 0 then next else next[before := after],
              if after == 0 then prev else prev[after := before]);
    TakenOff(lists, m, k);
  }

  lemma TakenOff(lists: seq<seq<Addr>>, m: nat, k: nat)
    requires m < |lists| && k < |lists[m]| && NoDup(lists[m]) && OnOneList(lists)
    ensures LessOne(lists, lists[m := Without(lists[m], k)], lists[m][k])
  {
    var s := lists[m];
    forall x ensures x in Without(s, k) <==> x in s && x != s[k] {
      if x in s && x != s[k] {
        var j :| 0 <= j < |s| && s[j] == x;
        assert Without(s, k)[if j < k then j else j - 1] == x;
      }
    }
  }

  lemma JoinedBooks(blk: Blocks, lists: seq<seq<Addr>>, lists': seq<seq<Addr>>, a: Addr, b: Addr, listed: Addr,
                    odd: Addr)
    requires |lists| == N_HBLK_FLS + 1 && LessOne(lists, lists', listed)
    requires ((odd == a && listed == b) || (odd == b && listed == a)) && a != b
    requires NotListed(lists, odd)
    requires OnRightList(blk, lists, odd) && AllListed(blk, lists, odd)
    requires a in blk && b in blk && blk[a].free
    ensures OnRightList(Joined(blk, a, b), lists', a) && AllListed(Joined(blk, a, b), lists', a)
    ensures NotListed(lists', a) && NotListed(lists', b)
  {
    var r := Joined(blk, a, b);
    forall i, x | 0 <= i < |lists'| && x in lists'[i]
      ensures x in r && r[x].free && FlIndex(r[x].sz) == i && x != a && x != b
    {
      assert x in lists[i];
    }
    forall c | c in r && r[c].free && c != a ensures c in lists'[FlIndex(r[c].sz)] {
      assert c in lists[FlIndex(blk[c].sz)];
    }
  }

  lemma Refiled(blk: Blocks, lists: seq<seq<Addr>>, lists': seq<seq<Addr>>, h: Addr)
    requires |lists| == N_HBLK_FLS + 1 && h in blk && blk[h].free && 0 !in blk
    requires OnRightList(blk, lists, h) && AllListed(blk, lists, h) && NotListed(lists, h)
    requires var i := FlIndex(blk[h].sz); lists' == lists[i := [h] + lists[i]]
    ensures OnRightList(blk, lists', 0) && AllListed(blk, lists', 0)
  {
    var m := FlIndex(blk[h].sz);
    forall i, x | 0 <= i < |lists'| && x in lists'[i] ensures x in blk && blk[x].free && FlIndex(blk[x].sz) == i {
      assert x in lists[i] || (i == m && x == h);
    }
    forall b | b in blk && blk[b].free ensures b in lists'[FlIndex(blk[b].sz)] {
      assert b != h ==> b in lists[FlIndex(blk[b].sz)];
    }
  }

  /** p is the free chunk that ends at h, or 0 if there is none. */
  ghost predicate EndsAt(blk: Blocks, p: Addr, h: Addr) {
    if p == 0 then forall q :: !FreeEndingAt(blk, q, h) else FreeEndingAt(blk, p, h)
  }

  /** The free chunk h is joined to the chunk after it, if that is free and the result is not too large. */
  ghost function JoinedNext(blk: Blocks, h: Addr): Blocks
    requires h in blk
  {
    var n := h + blk[h].sz;
    if FreeAt(blk, n) && blk[h].sz + blk[n].sz < SIGN_BLOCKS then Joined(blk, h, n) else blk
  }

  /** And to the free chunk p before it. */
  ghost function JoinedPrevious(blk: Blocks, h: Addr, p: Addr): Blocks
    requires h in blk
  {
    if p != 0 && p in blk && blk[h].sz + blk[p].sz < SIGN_BLOCKS then Joined(blk, p, h) else blk
  }

  /** What freeing chunk h makes of the heap; p is the free chunk that ends at h, if any. */
  ghost function FreedIn(blk: Blocks, h: Addr, p: Addr): Blocks
    requires h in blk
  {
    var b1 := JoinedNext(blk[h := Blk(blk[h].sz, true)], h);
    if h in b1 then JoinedPrevious(b1, h, p) else b1
  }

  /** The first `needed` blocks of the free chunk r were put to use. */
  ghost predicate CarvedFrom(blk: Blocks, blk': Blocks, r: Addr, needed: nat) {
    FreeAt(blk, r) && 0 < needed <= blk[r].sz && blk' == Carved(blk, r, r, needed)
  }

  /** The lists hold the free chunks, each where it belongs, and once. */
  ghost predicate Filed(blk: Blocks, lists: seq<seq<Addr>>) {
    && |lists| == N_HBLK_FLS + 1
    && (forall i :: 0 <= i < |lists| ==> NoDup(lists[i]))
    && (forall i, x :: 0 <= i < |lists| && x in lists[i] ==> FreeAt(blk, x) && FlIndex(blk[x].sz) == i)
    && (forall x :: FreeAt(blk, x) ==> x in lists[FlIndex(blk[x].sz)])
  }

  /** No free chunk that could be used has the size needed. */
  ghost predicate NoExact(rq: Request, bl: B.BlackLists, blk: Blocks) {
    forall x :: FreeAt(blk, x) ==> !rq.Usable(bl, false, x, blk[x].sz)
  }

  /** No free chunk on lists up to the limit could be used, and none at all that has the size needed. */
  ghost predicate NoneFor(rq: Request, bl: B.BlackLists, limit: nat, blk: Blocks) {
    && NoExact(rq, bl, blk)
    && forall x :: FreeAt(blk, x) && FlIndex(blk[x].sz) <= limit ==> !rq.Usable(bl, true, x, blk[x].sz)
  }

  /** The request is to be met at place r of chunk h: one of the size needed if any of these can be used, otherwise one
      from the first list within the limit that has a chunk that can be used. */
  ghost predicate Best(rq: Request, bl: B.BlackLists, limit: nat, blk: Blocks, lists: seq<seq<Addr>>, h: Addr,
                       r: Addr) {
    && FreeAt(blk, h) && |lists| == N_HBLK_FLS + 1
    && var sz, i := blk[h].sz, FlIndex(blk[h].sz);
    && Choice(rq, bl, sz != rq.needed, blk, lists[i], h) && rq.Placed(bl, h, sz, r)
    && (sz != rq.needed ==>
          && i <= limit && NoExact(rq, bl, blk)
          && forall x :: FreeAt(blk, x) && FlIndex(blk[x].sz) < i ==> !rq.Usable(bl, true, x, blk[x].sz))
  }

  /** What is left of the heap and of its lists when searches have been in vain so far. */
  ghost predicate Left(rq: Request, bl: B.BlackLists, blk0: Blocks, lists0: seq<seq<Addr>>, blk: Blocks,
                         lists: seq<seq<Addr>>, log: seq<Event>)
  {
    && Filed(blk0, lists0) && Filed(blk, lists)
    && Spared(rq, bl, blk0, blk) && NoMoreFree(blk0, blk) && Reasons(rq, bl, blk0, log)
    && forall j :: 0 <= j < |lists| ==> Thinned(rq, bl, true, blk0, lists0[j], lists[j])
  }

  /** If chunks were dropped, all on the list have the size needed, so that the search looked at all of them. */
  lemma SearchedAll(rq: Request, bl: B.BlackLists, maySplit: bool, blk: Blocks, lists: seq<seq<Addr>>, n: nat,
                    left: seq<Addr>)
    requires Filed(blk, lists) && n < |lists| && Thinned(rq, bl, maySplit, blk, lists[n], left)
    requires !maySplit ==> n == FlIndex(rq.needed)
    ensures Thinned(rq, bl, true, blk, lists[n], left)
  {
    forall x, z | Before(lists[n], x, z) && z !in left && x in blk ensures !rq.Usable(bl, true, x, blk[x].sz) {
      InList(lists[n], x, z);
      assert !maySplit ==> FlIndex(blk[x].sz) == FlIndex(1) && blk[x].sz == 1;
    }
  }

  lemma ReasonsBefore(rq: Request, bl: B.BlackLists, blk0: Blocks, blk: Blocks, log: seq<Event>)
    requires Reasons(rq, bl, blk, log) && NoMoreFree(blk0, blk)
    ensures Reasons(rq, bl, blk0, log)
  {
    hide Request.Worthless;
  }

  lemma BestExact(rq: Request, bl: B.BlackLists, limit: nat, blk: Blocks, lists: seq<seq<Addr>>, h: Addr, r: Addr)
    requires Filed(blk, lists) && Choice(rq, bl, false, blk, lists[FlIndex(rq.needed)], h)
    requires rq.Placed(bl, h, blk[h].sz, r)
    ensures Best(rq, bl, limit, blk, lists, h, r)
  {
    hide Request.Placed, Request.Usable;
  }

  /** What is left on list i is as it was. */
  lemma ListedBefore(rq: Request, bl: B.BlackLists, blk0: Blocks, lists0: seq<seq<Addr>>, blk: Blocks,
                     lists: seq<seq<Addr>>, log: seq<Event>, i: nat)
    requires Left(rq, bl, blk0, lists0, blk, lists, log) && i < |lists|
    ensures i < |lists0| && Thinned(rq, bl, true, blk0, lists0[i], lists[i]) && NoDup(lists0[i]) && NoDup(lists[i])
    ensures forall x :: x in lists[i] ==> FreeAt(blk, x) && FlIndex(blk[x].sz) == i && x in blk0 && blk0[x] == blk[x]
  {
    hide Thinned, Spared, Reasons, NoDup;
  }

  /** If no list before i holds a chunk that could be used, none could at first. */
  lemma NoneEarlier(rq: Request, bl: B.BlackLists, blk0: Blocks, lists0: seq<seq<Addr>>, blk: Blocks,
                    lists: seq<seq<Addr>>, log: seq<Event>, i: nat)
    requires Left(rq, bl, blk0, lists0, blk, lists, log) && i <= |lists|
    requires forall j: nat :: FlIndex(rq.needed) <= j < i ==> HopelessIn(rq, bl, blk, lists, j)
    ensures forall x :: FreeAt(blk0, x) && FlIndex(blk0[x].sz) < i ==> !rq.Usable(bl, true, x, blk0[x].sz)
  {
    hide Request.Usable, Thinned, Reasons, NoDup;
    forall x | FreeAt(blk0, x) && FlIndex(blk0[x].sz) < i ensures !rq.Usable(bl, true, x, blk0[x].sz) {
      if blk0[x].sz < rq.needed {
        TooSmall(rq, bl, x, blk0[x].sz);
      } else {
        FlIndexMonotone(rq.needed, blk0[x].sz);
        assert HopelessIn(rq, bl, blk, lists, FlIndex(blk0[x].sz));
      }
    }
  }

  lemma PlacedIsUsable(rq: Request, bl: B.BlackLists, maySplit: bool, x: Addr, sz: nat, p: Addr)
    requires rq.Placed(bl, x, sz, p) && rq.Suits(maySplit, sz)
    ensures rq.Usable(bl, maySplit, x, sz)
  {
  }

  /** The search of list i, after searches of lists from `start` on in vain. */
  lemma BestSplit(rq: Request, bl: B.BlackLists, limit: nat, blk0: Blocks, lists0: seq<seq<Addr>>, blk: Blocks,
                  lists: seq<seq<Addr>>, start: nat, i: nat, log: seq<Event>, more: seq<Event>, h: Addr,
                  r: Addr)
    requires Left(rq, bl, blk0, lists0, blk, lists, log) && NoExact(rq, bl, blk0) && rq.needed > 0
    requires start == FlIndex(rq.needed) && i <= limit && i < |lists|
    requires Choice(rq, bl, true, blk, lists[i], h) && rq.Placed(bl, h, blk[h].sz, r)
    requires forall j: nat :: start <= j < i ==> HopelessIn(rq, bl, blk, lists, j)
    requires Reasons(rq, bl, blk, more)
    ensures Best(rq, bl, limit, blk0, lists0, h, r) && Reasons(rq, bl, blk0, log + more)
  {
    hide Request.Usable, Request.Placed, Before, Follows, Thinned, Filed, Left, HopelessIn, Reasons;
    ListedBefore(rq, bl, blk0, lists0, blk, lists, log, i);
    SameChoice(rq, bl, true, blk0, lists0[i], blk, lists[i], h);
    NoneEarlier(rq, bl, blk0, lists0, blk, lists, log, i);
    AllLists(rq, bl, blk0, lists0, blk, lists, log);
    ReasonsBefore(rq, bl, blk0, blk, more);
    ReasonsMore(rq, bl, blk0, log, more);
    if blk[h].sz == rq.needed {
      PlacedIsUsable(rq, bl, false, h, blk[h].sz, r);
    }
  }

  lemma AllLists(rq: Request, bl: B.BlackLists, blk0: Blocks, lists0: seq<seq<Addr>>, blk: Blocks,
                 lists: seq<seq<Addr>>, log: seq<Event>)
    requires Left(rq, bl, blk0, lists0, blk, lists, log)
    ensures |lists| == |lists0| == N_HBLK_FLS + 1 && NoMoreFree(blk0, blk) && Reasons(rq, bl, blk0, log)
  {
  }

  lemma TooSmall(rq: Request, bl: B.BlackLists, x: Addr, sz: nat)
    requires sz < rq.needed
    ensures !rq.Usable(bl, true, x, sz)
  {
  }

  /** A search drops chunks only because of black lists; if it succeeds, taking the result is the last thing it does. */
  ghost predicate LogOf(log: seq<Event>, r: Addr, needed: nat, checked: bool) {
    && (!checked ==> |log| == if r == 0 then 0 else 1)
    && (forall i :: 0 <= i < |log| && (r != 0 ==> i < |log| - 1) ==> log[i].Dropped?)
    && (r != 0 ==>
          && log != []
          && var e := log[|log| - 1]; e.Taken? && e.p == r && e.n == needed && (!checked ==> e.h == r))
  }

  lemma LogNone(needed: nat, checked: bool)
    ensures LogOf([], 0, needed, checked)
  {
  }

  lemma LogMore(log: seq<Event>, done: bool, retry: bool, x: Addr, q: Addr, needed: nat, checked: bool)
    requires LogOf(log, 0, needed, checked) && (done ==> q != 0 && (!checked ==> q == x))
    requires !done && retry ==> checked
    ensures var more := if done then [Taken(x, q, needed)] else if retry then [Dropped(x)] else [];
            LogOf(log + more, if done then q else 0, needed, checked)
  {
    var more := if done then [Taken(x, q, needed)] else if retry then [Dropped(x)] else [];
    assert forall i :: 0 <= i < |log| ==> (log + more)[i] == log[i];
  }

  lemma LogEnds(log: seq<Event>, r: Addr, needed: nat, checked: bool)
    requires LogOf(log, r, needed, checked)
    ensures r != 0 ==> log != []
  {
  }

  lemma LogConcat(log: seq<Event>, more: seq<Event>, r: Addr, needed: nat, checked: bool)
    requires LogOf(log, 0, needed, checked) && LogOf(more, r, needed, checked)
    ensures LogOf(log + more, r, needed, checked)
  {
    forall i | 0 <= i < |log + more| && (r != 0 ==> i < |log + more| - 1) ensures (log + more)[i].Dropped? {
      assert (log + more)[i] == if i < |log| then log[i] else more[i - |log|];
    }
  }

  /** Without black lists, nothing happens but that the result is taken. */
  lemma Unchecked(blk: Blocks, log: seq<Event>, blk': Blocks, r: Addr, needed: nat, checked: bool)
    requires Tells(blk, log, blk') && LogOf(log, r, needed, checked)
    ensures r != 0 ==> log != []
    ensures !checked && r == 0 ==> blk' == blk
    ensures !checked && r != 0 ==> CarvedFrom(blk, blk', r, needed)
  {
    if !checked {
      assert |log| <= 1;
      if r != 0 {
        assert log[..0] == [];
        assert CanPlay(PlayedAll(blk, log[..0]), log[0]);
      }
    }
  }

  lemma TellsTaken(blk: Blocks, h: Addr, p: Addr, n: nat)
    requires FreeAt(blk, h) && h <= p && 0 < n && p + n <= h + blk[h].sz
    ensures Tells(blk, [Taken(h, p, n)], Carved(blk, h, p, n))
  {
    hide Carved;
    TellsNone(blk);
    TellsOneMore(blk, [], blk, Taken(h, p, n));
    assert [] + [Taken(h, p, n)] == [Taken(h, p, n)];
  }

  lemma TellsDropped(blk: Blocks, h: Addr)
    requires CanPlay(blk, Dropped(h))
    ensures Tells(blk, [Dropped(h)], Played(blk, Dropped(h)))
  {
    hide CanPlay, Played;
    TellsNone(blk);
    TellsOneMore(blk, [], blk, Dropped(h));
    assert [] + [Dropped(h)] == [Dropped(h)];
  }

  /** The chunks in use are the same. */
  ghost predicate SameInUse(blk: Blocks, blk': Blocks) {
    && (forall b :: b in blk && !blk[b].free ==> b in blk' && blk'[b] == blk[b])
    && (forall b :: b in blk' && !blk'[b].free ==> b in blk && blk'[b] == blk[b])
  }

  /** Flagging h as free does not change what ends at h. */
  lemma Neighbours(blk: Blocks, h: Addr, p: Addr)
    requires Apart(blk) && h in blk && !blk[h].free
    requires var b1 := blk[h := Blk(blk[h].sz, true)];
             (p != 0 ==> FreeEndingAt(b1, p, h)) && (p == 0 ==> forall q :: !FreeEndingAt(b1, q, h))
    ensures p != 0 ==> FreeEndingAt(blk, p, h) && p < h
    ensures p == 0 ==> forall q :: !FreeEndingAt(blk, q, h)
  {
    var b1 := blk[h := Blk(blk[h].sz, true)];
    assert forall q :: FreeEndingAt(b1, q, h) <==> FreeEndingAt(blk, q, h);
  }

  lemma NextJoined(blk0: Blocks, h: Addr, p: Addr, blk: Blocks)
    requires Apart(blk0) && h in blk0 && !blk0[h].free && (p != 0 ==> FreeEndingAt(blk0, p, h) && p < h)
    requires var b1, n := blk0[h := Blk(blk0[h].sz, true)], h + blk0[h].sz;
             blk == b1 || (FreeAt(b1, n) && blk == Joined(b1, h, n))
    ensures p != 0 ==> FreeEndingAt(blk, p, h)
    ensures FreeAt(blk0, h + blk0[h].sz) ==> FreeAt(blk0[h := Blk(blk0[h].sz, true)], h + blk0[h].sz)
    ensures SameInUse(blk0 - {h}, blk)
  {
  }

  lemma PreviousJoined(blk0: Blocks, h: Addr, p: Addr, blk2: Blocks, blk: Blocks)
    requires SameInUse(blk0 - {h}, blk2) && FreeAt(blk2, h)
    requires blk == blk2 || (p != h && FreeEndingAt(blk2, p, h) && blk == Joined(blk2, p, h))
    ensures SameInUse(blk0 - {h}, blk)
  {
  }

  lemma GrownBooks(blk: Blocks, lists: seq<seq<Addr>>, p: Addr, n: nat)
    requires |lists| == N_HBLK_FLS + 1 && p !in blk
    requires OnRightList(blk, lists, 0) && AllListed(blk, lists, 0)
    ensures NotListed(lists, p)
    ensures OnRightList(blk[p := Blk(n, false)], lists, 0) && AllListed(blk[p := Blk(n, false)], lists, 0)
  {
  }

  lemma GrownCoalesced(blk: Blocks, p: Addr, n: nat)
    requires p !in blk
    ensures Coalesced(blk) ==> Coalesced(blk[p := Blk(n, false)])
  {
  }

  lemma SameAsBefore(blk: Blocks, p: Addr, n: nat, blk': Blocks)
    requires p !in blk && SameInUse(blk[p := Blk(n, false)] - {p}, blk')
    ensures SameInUse(blk, blk')
  {
    assert blk[p := Blk(n, false)] - {p} == blk;
  }

  lemma CutBooks(blk: Blocks, lists: seq<seq<Addr>>, h: Addr, n: Addr)
    requires |lists| == N_HBLK_FLS + 1 && h in blk && n !in blk && h < n < h + blk[h].sz
    requires OnRightList(blk, lists, h) && AllListed(blk, lists, h) && NotListed(lists, h)
    ensures NotListed(lists, n)
    ensures OnRightList(Cut(blk, h, n), lists, h)
    ensures forall b :: FreeAt(Cut(blk, h, n), b) && b != h && b != n ==> b in lists[FlIndex(Cut(blk, h, n)[b].sz)]
  {
  }

  lemma OffItsList(blk: Blocks, lists: seq<seq<Addr>>, lists': seq<seq<Addr>>, h: Addr)
    requires |lists| == N_HBLK_FLS + 1 && LessOne(lists, lists', h)
    requires OnRightList(blk, lists, h) && AllListed(blk, lists, h)
    ensures OnRightList(blk, lists', h) && AllListed(blk, lists', h)
  {
    forall i, x | 0 <= i < |lists'| && x in lists'[i] ensures x in blk && blk[x].free && FlIndex(blk[x].sz) == i {
      assert x in lists[i];
    }
    forall b | b in blk && blk[b].free && b != h ensures b in lists'[FlIndex(blk[b].sz)] {
      assert b in lists[FlIndex(blk[b].sz)];
    }
  }

  lemma RestFiled(blk: Blocks, lists: seq<seq<Addr>>, lists': seq<seq<Addr>>, h: Addr, n: Addr)
    requires |lists| == N_HBLK_FLS + 1 && FreeAt(blk, n) && h != n
    requires OnRightList(blk, lists, h) && NotListed(lists, h) && NotListed(lists, n)
    requires forall b :: FreeAt(blk, b) && b != h && b != n ==> b in lists[FlIndex(blk[b].sz)]
    requires var i := FlIndex(blk[n].sz); lists' == lists[i := [n] + lists[i]]
    ensures OnRightList(blk, lists', h) && AllListed(blk, lists', h) && NotListed(lists', h)
  {
    forall i, x | 0 <= i < |lists'| && x in lists'[i]
      ensures x in blk && blk[x].free && FlIndex(blk[x].sz) == i && x != h
    {
      assert x in lists[i] || x == n;
    }
    forall b | b in blk && blk[b].free && b != h ensures b in lists'[FlIndex(blk[b].sz)] {
      assert FreeAt(blk, b);
      assert b != n ==> b in lists[FlIndex(blk[b].sz)];
    }
  }

  lemma NotYetListed(blk: Blocks, lists: seq<seq<Addr>>, n: Addr)
    requires OnRightList(blk, lists, 0) && n !in blk
    ensures NotListed(lists, n)
  {
  }

  lemma SumsSupplanted(blk: Blocks, lists: seq<seq<Addr>>, counts: seq<nat>, m: nat, k: nat, n: Addr)
    requires Sums(blk, lists, counts) && m < |lists| && k < |lists[m]| && lists[m][k] in blk && NoDup(lists[m])
    requires OnOneList(lists)
    requires n !in blk && NotListed(lists, n)
    requires var h := lists[m][k]; h < n < h + blk[h].sz
    ensures var h := lists[m][k];
            var blk' := blk[n := Blk(h + blk[h].sz - n, false)][h := Blk(n - h, blk[h].free)];
            n - h <= counts[m] && Sums(blk', lists[m := Replaced(lists[m], k, n)], counts[m := counts[m] - (n - h)])
  {
    var s, h := lists[m], lists[m][k];
    var blk' := blk[n := Blk(h + blk[h].sz - n, false)][h := Blk(n - h, blk[h].free)];
    var r := Replaced(s, k, n);
    ListSumWithout(blk, s, k);
    ListSumWithout(blk', r, k);
    assert Without(r, k) == Without(s, k);
    TakenOff(lists, m, k);
    SameSums(blk, blk', Without(s, k));
    forall i | 0 <= i < |lists| && i != m ensures ListSum(blk', lists[i]) == ListSum(blk, lists[i]) {
      assert h in lists[m];
      SameSums(blk, blk', lists[i]);
    }
  }

  lemma SplitBooks(blk: Blocks, lists0: seq<seq<Addr>>, lists1: seq<seq<Addr>>, lists: seq<seq<Addr>>, h: Addr,
                   n: Addr, m: nat)
    requires |lists0| == N_HBLK_FLS + 1 && m < |lists0|
    requires FreeAt(blk, h) && n !in blk && h < n < h + blk[h].sz && 0 !in blk
    requires OnRightList(blk, lists0, 0) && AllListed(blk, lists0, 0) && NotListed(lists1, h)
    requires exists k :: 0 <= k < |lists0[m]| && lists0[m][k] == h && lists1 == lists0[m := Replaced(lists0[m], k, n)]
    requires var i := FlIndex(n - h); lists == lists1[i := [h] + lists1[i]]
    ensures OnRightList(Cut(blk, h, n), lists, n) && AllListed(Cut(blk, h, n), lists, n) && n in lists[m]
  {
    var k :| 0 <= k < |lists0[m]| && lists0[m][k] == h && lists1 == lists0[m := Replaced(lists0[m], k, n)];
    var s, r, c := lists0[m], lists1[m], Cut(blk, h, n);
    assert r[k] == n;
    forall x ensures x in r <==> x == n || (x in s && x != h) {
      ReplacedIn(s, k, n, x);
    }
    forall i, x | 0 <= i < |lists| && x in lists[i] ensures x in c && c[x].free && (x != n ==> FlIndex(c[x].sz) == i) {
      assert x == h || x == n || (x in lists0[i] && x != h);
    }
    forall b | b in c && c[b].free && b != n ensures b in lists[FlIndex(c[b].sz)] {
      assert b != h ==> b in lists0[FlIndex(blk[b].sz)];
    }
  }

  lemma ReplacedIn(s: seq<Addr>, k: nat, n: Addr, x: Addr)
    requires k < |s| && s[k] !in Replaced(s, k, n)
    ensures x in Replaced(s, k, n) <==> x == n || (x in s && x != s[k])
  {
    var r := Replaced(s, k, n);
    assert r[k] == n;
    if x in s && x != s[k] {
      var j :| 0 <= j < |s| && s[j] == x;
      assert r[j] == x;
    }
  }

  /** If nothing was too large to be joined, the result is what freeing means. */
  lemma BothJoined(blk0: Blocks, h: Addr, p: Addr, blk2: Blocks, blk: Blocks)
    requires Apart(blk0) && h in blk0 && !blk0[h].free && (p != 0 ==> FreeEndingAt(blk0, p, h) && p < h)
    requires var b1, n := blk0[h := Blk(blk0[h].sz, true)], h + blk0[h].sz;
             blk2 == if FreeAt(b1, n) then Joined(b1, h, n) else b1
    requires p != 0 ==> p in blk2 && h in blk2
    requires blk == if p != 0 then Joined(blk2, p, h) else blk2
    ensures blk == Freed(blk0, h, p)
  {
    assert FreeAt(blk0[h := Blk(blk0[h].sz, true)], h + blk0[h].sz) <==> FreeAt(blk0, h + blk0[h].sz);
  }

  lemma SumsTakenOff(blk: Blocks, lists: seq<seq<Addr>>, counts: seq<nat>, m: nat, k: nat)
    requires Sums(blk, lists, counts) && m < |lists| && k < |lists[m]| && lists[m][k] in blk
    ensures var sz := blk[lists[m][k]].sz;
            sz <= counts[m] && Sums(blk, lists[m := Without(lists[m], k)], counts[m := counts[m] - sz])
  {
    ListSumWithout(blk, lists[m], k);
  }

  lemma CarvedSteps(blk: Blocks, h: Addr, p: Addr, n: nat, blk': Blocks)
    requires h in blk && FreeAt(blk, h) && h <= p && 0 < n && p + n <= h + blk[h].sz
    requires var b1 := if p == h then blk else Cut(blk, h, p);
             var b2 := if n == b1[p].sz then b1 else Cut(b1, p, p + n);
             blk' == b2[p := Blk(b2[p].sz, false)]
    ensures blk' == Carved(blk, h, p, n)
  {
  }

  /** The free chunks are those of before without h, leaving c out of account; chunks in use stay as they were. */
  ghost predicate OneFreeLess(blk: Blocks, blk': Blocks, h: Addr, c: Addr) {
    && (forall b :: b in blk' && blk'[b].free && b != c ==> b in blk && b != h && blk'[b] == blk[b])
    && (forall b :: b in blk && b != h ==> b in blk' && b != c && blk'[b] == blk[b])
  }

  lemma FirstUsed(blk0: Blocks, blk: Blocks, blk': Blocks, h: Addr, c: Addr)
    requires OneFreeLess(blk0, blk, h, c) && c in blk && c + 1 !in blk && blk[c].free && blk[c].sz > 1
    requires blk' == Cut(blk, c, c + 1)[c := Blk(1, false)]
    ensures OneFreeLess(blk0, blk', h, c + 1)
    ensures c + 1 in blk' && blk'[c + 1] == Blk(blk[c].sz - 1, true)
  {
  }

  lemma LastUsed(blk0: Blocks, blk: Blocks, blk': Blocks, h: Addr, c: Addr)
    requires OneFreeLess(blk0, blk, h, c) && c in blk && 0 !in blk0
    requires blk' == blk[c := Blk(blk[c].sz, false)]
    ensures OneFreeLess(blk0, blk', h, 0)
  {
  }

  lemma StartLess(blk: Blocks, h: Addr)
    requires h in blk
    ensures OneFreeLess(blk, blk, h, h)
  {
  }

  lemma LessFreeCoalesced(blk: Blocks, blk': Blocks, h: Addr, c: Addr)
    requires OneFreeLess(blk, blk', h, c) && c !in blk' && Coalesced(blk)
    ensures Coalesced(blk')
  {
  }

  lemma FirstFiled(blk: Blocks, lists: seq<seq<Addr>>, c: Addr, n: Addr)
    requires |lists| == N_HBLK_FLS + 1 && c in blk && OnRightList(blk, lists, c) && NotListed(lists, c)
    requires NotListed(lists, n)
    requires forall b :: FreeAt(blk, b) && b != c && b != n ==> b in lists[FlIndex(blk[b].sz)]
    ensures OnRightList(blk[c := Blk(1, false)], lists, n) && AllListed(blk[c := Blk(1, false)], lists, n)
  {
    forall b | b in blk && blk[b].free && b != c && b != n ensures b in lists[FlIndex(blk[b].sz)] {
      assert FreeAt(blk, b);
    }
  }

  /** Chunks in use are still in use. */
  ghost predicate StillInUse(blk: Blocks, blk': Blocks) {
    forall b :: b in blk && !blk[b].free ==> b in blk' && blk'[b] == blk[b]
  }

  ghost predicate NoMoreFree(blk: Blocks, blk': Blocks) {
    forall b :: b in blk' && blk'[b].free ==> b in blk && blk'[b] == blk[b]
  }

  /** The other lists are as they were. */
  ghost predicate OthersKept(lists: seq<seq<Addr>>, lists': seq<seq<Addr>>, n: nat) {
    |lists| == |lists'| && forall i :: 0 <= i < |lists| && i != n ==> lists'[i] == lists[i]
  }

  lemma KeptRefl(blk: Blocks, lists: seq<seq<Addr>>, n: nat)
    ensures StillInUse(blk, blk) && NoMoreFree(blk, blk) && OthersKept(lists, lists, n)
  {
  }

  lemma CarvedInUse(blk0: Blocks, blk: Blocks, h: Addr, p: Addr, n: nat)
    requires StillInUse(blk0, blk) && Apart(blk) && FreeAt(blk, h) && h <= p && 0 < n && p + n <= h + blk[h].sz
    ensures StillInUse(blk0, Carved(blk, h, p, n))
    ensures p in blk0 ==> blk0[p].free
    ensures p in Carved(blk, h, p, n) && Carved(blk, h, p, n)[p] == Blk(n, false)
  {
  }

  lemma DroppedKeeps(blk0: Blocks, blk1: Blocks, blk: Blocks, lists0: seq<seq<Addr>>, lists1: seq<seq<Addr>>,
                     lists: seq<seq<Addr>>, x: Addr, n: nat, k: nat)
    requires OneFreeLess(blk1, blk, x, 0) && 0 !in blk && FreeAt(blk1, x)
    requires StillInUse(blk0, blk1) && NoMoreFree(blk0, blk1) && OthersKept(lists0, lists1, n)
    requires n < |lists1| && k < |lists1[n]| && lists == lists1[n := Without(lists1[n], k)]
    ensures StillInUse(blk0, blk) && NoMoreFree(blk0, blk) && OthersKept(lists0, lists, n)
  {
  }

  lemma OthersStay(blk1: Blocks, blk: Blocks, x: Addr)
    requires OneFreeLess(blk1, blk, x, 0)
    ensures forall b :: b in blk1 && b != x ==> b in blk && blk[b] == blk1[b]
  {
  }

  lemma SameChunk(blk1: Blocks, blk: Blocks, x: Addr, y: Addr)
    requires OneFreeLess(blk1, blk, x, 0) && y in blk && blk[y].free && y != 0
    ensures y in blk1 && blk[y] == blk1[y]
  {
  }

  ghost predicate HopelessIn(rq: Request, bl: B.BlackLists, blk: Blocks, lists: seq<seq<Addr>>, j: nat) {
    j < |lists| && forall x :: x in lists[j] ==> x in blk ==> !rq.Usable(bl, true, x, blk[x].sz)
  }

  lemma InUseTrans(blk: Blocks, blk1: Blocks, blk2: Blocks)
    requires StillInUse(blk, blk1) && StillInUse(blk1, blk2)
    ensures StillInUse(blk, blk2)
  {
  }

  lemma NotInUseBefore(blk: Blocks, blk1: Blocks, r: Addr)
    requires StillInUse(blk, blk1) && (r in blk1 ==> blk1[r].free)
    ensures r in blk ==> blk[r].free
  {
  }
}
