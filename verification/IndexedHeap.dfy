/**
 The block allocator and the header index together: the index always agrees with the chunks the allocator works on.
 */
module IndexedHeap {
  import opened Platform
  import opened BlockLists
  import opened BlockMap
  import A = Allocator
  import H = HeaderIndex
  import opened Search
  import B = BlackList

  /** No two free chunks end at the same place. */
  lemma SameEnd(blk: Blocks, p: Addr, p': Addr, h: Addr)
    requires Apart(blk) && h in blk && A.EndsAt(blk, p, h) && A.EndsAt(blk[h := Blk(blk[h].sz, true)], p', h)
    ensures p == p'
  {
    var blk' := blk[h := Blk(blk[h].sz, true)];
    assert forall q :: FreeEndingAt(blk, q, h) <==> FreeEndingAt(blk', q, h);
  }

  ghost predicate InSpace(area: set<Addr>) {
    forall m :: m in area ==> m < ADDRESS_BLOCKS
  }

  lemma SpanInSpace(area: set<Addr>, p: Addr, n: nat)
    requires InSpace(area) && p + n <= ADDRESS_BLOCKS
    ensures InSpace(area + Span(p, n))
  {
  }

  lemma FreedAgain(blk: Blocks, h: Addr, p: Addr)
    requires h in blk
    ensures A.FreedIn(blk[h := Blk(blk[h].sz, false)], h, p) == A.FreedIn(blk[h := Blk(blk[h].sz, true)], h, p)
  {
    var b, c := blk[h := Blk(blk[h].sz, false)], blk[h := Blk(blk[h].sz, true)];
    assert b[h := Blk(b[h].sz, true)] == c[h := Blk(c[h].sz, true)];
  }

  /** It makes no difference whether the flag is set before or after joining. */
  lemma JoinedAlike(blk: Blocks, p: Addr, n: nat, q: Addr, q': Addr)
    requires var b := blk[p := Blk(n, false)]; Apart(b) && A.EndsAt(b, q, p)
    requires A.EndsAt(blk[p := Blk(n, true)], q', p)
    ensures A.FreedIn(blk[p := Blk(n, false)], p, q) == A.FreedIn(blk[p := Blk(n, true)], p, q')
  {
    hide A.FreedIn, A.EndsAt, Apart;
    var b := blk[p := Blk(n, false)];
    assert b[p := Blk(n, true)] == blk[p := Blk(n, true)] && b[p := Blk(n, false)] == b;
    SameEnd(b, q, q', p);
    FreedAgain(b, p, q);
  }

  /** The sizes of objects are as before, and in blocks put to use since then they are HBLKSIZE, except that chunk r, if
      any, holds objects of size sz. */
  ghost predicate Added(sizes: map<Addr, nat>, sizes': map<Addr, nat>, r: Addr, sz: nat) {
    && (forall c :: c in sizes ==> c in sizes' && sizes'[c] == sizes[c])
    && (forall c :: c in sizes' && c !in sizes && (r == 0 || c != r) ==> sizes'[c] == HBLKSIZE)
    && (r != 0 ==> r !in sizes && r in sizes' && sizes'[r] == sz)
  }

  lemma NothingAdded(sizes: map<Addr, nat>, sz: nat)
    ensures Added(sizes, sizes, 0, sz)
  {
  }

  lemma MoreAdded(sizes: map<Addr, nat>, sizes1: map<Addr, nat>, sizes2: map<Addr, nat>, sz: nat)
    requires Added(sizes, sizes1, 0, sz) && Added(sizes1, sizes2, 0, HBLKSIZE)
    ensures Added(sizes, sizes2, 0, sz)
  {
  }

  lemma OneAdded(sizes: map<Addr, nat>, sizes1: map<Addr, nat>, r: Addr, sz: nat)
    requires Added(sizes, sizes1, 0, sz) && r !in sizes1 && r != 0
    ensures Added(sizes, sizes1[r := sz], r, sz)
    ensures sz == HBLKSIZE ==> Added(sizes, sizes1[r := sz], 0, sz)
  {
  }

  class IndexedHeap {
    const a: A.Allocator
    const x: H.Index

    constructor ()
      ensures Valid() && a.blk == map[] && fresh(a) && fresh(x)
    {
      a := new A.Allocator();
      x := new H.Index();
    }

    ghost predicate Valid()
      reads this, a, x
    {
      a.Valid() && x.Valid() && x.part == a.blk && InSpace(a.area)
    }

    /** Chunks lie within the address space. */
    lemma ChunkInSpace(b: Addr)
      requires a.Books(0) && InSpace(a.area) && b in a.blk
      ensures b + a.blk[b].sz <= ADDRESS_BLOCKS
    {
      assert Covers(a.blk, b, b + a.blk[b].sz - 1);
      assert Covered(a.blk, b + a.blk[b].sz - 1);
    }

    /** GC_free_block_ending_at, as the index tells. */
    method FreeBlockEndingAt(h: Addr) returns (p: Addr)
      requires x.Valid() && h in x.part && h > 0
      ensures A.EndsAt(x.part, p, h)
    {
      hide H.Agrees, H.Tables, H.Lists, H.Chained, H.Look;
      H.Reading(x.bots, x.part, h - 1);
      ApartNow();
      var e := x.GetHdr(h - 1);
      if e != H.Nil {
        p, e := x.Forward(h - 1);
        EndsHere(x.part, p, h);
        if !e.hdr.free {
          p := 0;
        }
        return;
      }
      p := x.PrevBlock(h - 1);
      if p != 0 {
        H.Reading(x.bots, x.part, p);
        e := x.GetHdr(p);
        EndsBefore(x.part, p, h);
        if !(e.hdr.free && p + e.hdr.sz / HBLKSIZE == h) {
          p := 0;
        }
      } else {
        NoneBefore(x.part, h);
      }
    }

    lemma ApartNow()
      requires x.Valid()
      ensures Apart(x.part)
    {
    }

    /** Chunk h, which is free, is joined in the index to its free neighbours, as far as the result is not too large. */
    method JoinUp(h: Addr) returns (ghost p: Addr)
      requires x.Valid() && FreeAt(x.part, h) && h > 0
      modifies x`bots, x`part
      ensures x.Valid() && A.EndsAt(old(x.part), p, h) && x.part == A.FreedIn(old(x.part), h, p)
      ensures x.Sizes() == old(x.Sizes())
    {
      ghost var part0 := x.part;
      ApartNow();
      var before := FreeBlockEndingAt(h);
      p := before;
      StillEnds(part0, p, h);
      JoinNext(h);
      JoinPrevious(h, before);
      assert part0[h := Blk(part0[h].sz, true)] == part0;
    }

    method JoinNext(h: Addr)
      requires x.Valid() && FreeAt(x.part, h)
      modifies x`bots, x`part
      ensures x.Valid() && FreeAt(x.part, h) && x.part == A.JoinedNext(old(x.part), h)
      ensures x.Sizes() == old(x.Sizes())
    {
      hide H.Agrees, H.Tables, H.Lists, H.Chained, H.Look;
      H.Reading(x.bots, x.part, h);
      var e := x.GetHdr(h);
      var n := h + e.hdr.sz / HBLKSIZE;
      H.Reading(x.bots, x.part, n);
      var f := x.GetHdr(n);
      if f.Hdr? && f.hdr.free && e.hdr.sz + f.hdr.sz < A.SIGN_BLOCKS * HBLKSIZE {
        x.Merge(h, n);
      }
    }

    method JoinPrevious(h: Addr, p: Addr)
      requires x.Valid() && FreeAt(x.part, h) && (p != 0 ==> FreeEndingAt(x.part, p, h))
      modifies x`bots, x`part
      ensures x.Valid() && x.part == A.JoinedPrevious(old(x.part), h, p) && x.Sizes() == old(x.Sizes())
    {
      hide H.Agrees, H.Tables, H.Lists, H.Chained, H.Look;
      if p != 0 {
        H.Reading(x.bots, x.part, h);
        H.Reading(x.bots, x.part, p);
        var e := x.GetHdr(h);
        var f := x.GetHdr(p);
        if e.hdr.sz + f.hdr.sz < A.SIGN_BLOCKS * HBLKSIZE {
          x.Merge(p, h);
        }
      }
    }

    /** GC_freehblk, on both.  The sizes of objects elsewhere are as before. */
    method Free(h: Addr)
      requires Valid() && h in a.blk && !a.blk[h].free && a.blk[h].sz < A.SIGN_BLOCKS
      modifies a, x
      ensures Valid() && exists p :: A.EndsAt(old(a.blk), p, h) && a.blk == A.FreedIn(old(a.blk), h, p)
      ensures x.Sizes() == old(x.Sizes()) - {h}
    {
      hide A.Allocator.Books, A.Allocator.Balanced, H.Agrees, A.FreedIn, A.EndsAt, H.Index.Shape;
      ghost var blk0 := a.blk;
      ApartNow();
      a.Positive(h, 0);
      x.Release(h);
      ghost var p' := JoinUp(h);
      ghost var p := a.FreeHblk(h, 0);
      SameEnd(blk0, p, p', h);
      FreedAgain(blk0, h, p);
      assert blk0[h := Blk(blk0[h].sz, false)] == blk0;
    }

    /** GC_add_to_heap, on both.  Without room for another heap section the program aborts; nothing is added if
        there is no memory for the header. */
    method Add(p: Addr, n: nat, room: bool, memory: bool)
      returns (aborts: bool, ok: bool, p': Addr, n': nat, ghost q: Addr)
      requires Valid() && Span(p, n) !! a.area && p + n <= ADDRESS_BLOCKS && 0 < n < A.SIGN_BLOCKS
      modifies a, x
      ensures Valid()
      ensures aborts <==> !room
      ensures aborts ==> !ok
      ensures memory && !aborts ==> ok || n' == 0
      ensures !ok ==> a.blk == old(a.blk) && a.heapSize == old(a.heapSize)
      ensures x.Sizes() == old(x.Sizes())
      ensures p <= p' && p' + n' <= p + n
      ensures !aborts ==> forall m :: InSpan(p, n, m) && !InSpan(p', n', m) ==> m <= 1 || m == ADDRESS_BLOCKS - 1
      ensures ok ==> n' > 0 && a.heapSize == old(a.heapSize) + n' && a.area == old(a.area) + Span(p', n')
      ensures ok ==> var b := old(a.blk)[p' := Blk(n', false)]; A.EndsAt(b, q, p') && a.blk == A.FreedIn(b, p', q)
    {
      hide A.Allocator.Books, A.Allocator.Balanced, H.Agrees, A.FreedIn, A.EndsAt, H.Index.Shape, InSpace;
      aborts, ok, p', n', q := !room, false, p, 0, 0;
      if aborts {
        return;
      }
      p', n' := a.Trim(p, n);
      if n' == 0 {
        return;
      }
      a.SpanLess(p, n, p', n');
      ok, q := AddChunk(p', n', memory);
    }

    method AddChunk(p: Addr, n: nat, memory: bool) returns (ok: bool, ghost q: Addr)
      requires Valid() && Span(p, n) !! a.area && p > 0 && p + n <= ADDRESS_BLOCKS && 0 < n < A.SIGN_BLOCKS
      modifies a, x
      ensures Valid()
      ensures !ok ==> a.blk == old(a.blk) && a.heapSize == old(a.heapSize)
      ensures x.Sizes() == old(x.Sizes())
      ensures memory ==> ok
      ensures ok ==> a.heapSize == old(a.heapSize) + n && a.area == old(a.area) + Span(p, n)
      ensures ok ==> var b := old(a.blk)[p := Blk(n, false)]; A.EndsAt(b, q, p) && a.blk == A.FreedIn(b, p, q)
    {
      hide A.Allocator.Books, A.Allocator.Balanced, H.Agrees, A.FreedIn, A.EndsAt, H.Index.Shape, A.SameInUse, Apart,
           Covered, InSpace;
      q := 0;
      Outside(p, n);
      SpanInSpace(a.area, p, n);
      ok := x.AddChunk(p, n, memory);
      if ok {
        ghost var blk0 := a.blk;
        ghost var q' := JoinUp(p);
        q := a.AddChunk(p, n);
        JoinedAlike(blk0, p, n, q, q');
      }
    }

    lemma Outside(p: Addr, n: nat)
      requires a.Books(0) && Span(p, n) !! a.area && p > 0 && n > 0
      ensures forall b: Addr :: p <= b < p + n ==> !Covered(a.blk, b)
      ensures Apart(a.blk[p := Blk(n, false)])
    {
      GrowTiles(a.blk, a.area, p, n, false);
      forall b: Addr | p <= b < p + n ensures !Covered(a.blk, b) {
        assert InSpan(p, n, b) && b in Span(p, n);
      }
    }

    /** GC_allochblk, on both.  Objects have sz bytes.  The result is 0 only if no chunk could be used; otherwise it is
        the right place of the right chunk.  If there is no memory for a header or for counts, index and allocator need
        not agree any more. */
    method Allocate(rq: Request, sz: nat, bl: B.BlackLists, splitLimit: nat, memory: bool)
      returns (r: Addr, ok: bool, did: seq<Event>)
      requires Valid() && sz > 0 && sz % WORD_BYTES == 0 && H.BlocksFor(sz) == rq.needed && splitLimit <= A.N_HBLK_FLS
      modifies a, x
      ensures memory ==> ok
      ensures ok ==> Valid()
      ensures a.Valid() && x.Valid()
      ensures a.heapSize == old(a.heapSize) && a.area == old(a.area) && A.StillInUse(old(a.blk), a.blk)
      ensures Tells(old(a.blk), did, a.blk) && A.LogOf(did, r, rq.needed, rq.checked)
      ensures Reasons(rq, bl, old(a.blk), did)
      ensures rq.needed >= A.SIGN_BLOCKS ==> r == 0
      ensures r == 0 && rq.needed < A.SIGN_BLOCKS ==> A.NoneFor(rq, bl, splitLimit, old(a.blk))
      ensures r != 0 ==> A.Best(rq, bl, splitLimit, old(a.blk), old(a.lists), did[|did| - 1].h, r)
      ensures r != 0 ==> r in a.blk && a.blk[r] == Blk(rq.needed, false) && (r in old(a.blk) ==> old(a.blk)[r].free)
      ensures ok && r != 0 ==> H.Look(x.bots, r) == H.Hdr(H.Header(sz, false))
      ensures Added(old(x.Sizes()), x.Sizes(), if ok then r else 0, sz)
    {
      hide A.Allocator.Books, A.Allocator.Balanced, H.Agrees, H.Index.Shape, A.Allocator.Fits, InSpace, Tells, A.LogOf;
      hide H.Look, A.CarvedFrom, A.StillInUse, A.Best, A.NoneFor, Reasons, Added;
      ghost var blk0 := a.blk;
      AllInSpace();
      assert rq.needed > 0;
      r, did := a.AllocHblk(rq, bl, splitLimit);
      PlayedTold(blk0, did, a.blk);
      ok := Replay(did, sz, r, rq, memory);
    }

    lemma AllInSpace()
      requires Valid()
      ensures Ends(a.blk)
    {
      forall b | b in a.blk ensures b + a.blk[b].sz <= ADDRESS_BLOCKS {
        ChunkInSpace(b);
      }
    }

    /** What the allocator did is done to the index too. */
    method Replay(log: seq<Event>, sz: nat, r: Addr, rq: Request, memory: bool) returns (ok: bool)
      requires x.Valid() && Playable(x.part, log) && Ends(x.part) && A.LogOf(log, r, rq.needed, rq.checked)
      requires sz > 0 && sz % WORD_BYTES == 0 && H.BlocksFor(sz) == rq.needed
      modifies x
      ensures x.Valid()
      ensures memory ==> ok
      ensures ok ==> x.part == PlayedAll(old(x.part), log)
      ensures ok && r != 0 ==> H.Look(x.bots, r) == H.Hdr(H.Header(sz, false))
      ensures Added(old(x.Sizes()), x.Sizes(), if ok then r else 0, sz)
    {
      hide H.Right, H.Index.Shape, H.Look, PlayedAll, Played, CanPlay, Ends, UsedUp, Carved, Apart, H.SizesIn, Added;
      ghost var part0, sizes0 := x.part, x.Sizes();
      NothingAdded(sizes0, sz);
      var i := 0;
      PlayedNone(part0, log);
      while i < |log|
        invariant 0 <= i <= |log| && x.Valid() && x.part == PlayedAll(part0, log[..i]) && Ends(x.part)
        invariant i == |log| && r != 0 ==> H.Look(x.bots, r) == H.Hdr(H.Header(sz, false))
        invariant Added(sizes0, x.Sizes(), if i == |log| then r else 0, sz)
      {
        ghost var sizes1 := x.Sizes();
        assert CanPlay(PlayedAll(part0, log[..i]), log[i]);
        PlayedNext(part0, log, i);
        PlayedEnds(x.part, log[i]);
        if log[i].Dropped? {
          ok := DropChunk(log[i].h, memory);
          MoreAdded(sizes0, sizes1, x.Sizes(), sz);
        } else {
          TakenNotSized(log[i]);
          ok := TakeChunk(log[i].h, log[i].p, log[i].n, sz, memory);
          OneAdded(sizes0, sizes1, log[i].p, sz);
        }
        if !ok {
          return;
        }
        i := i + 1;
      }
      assert log[..|log|] == log;
      ok := true;
    }

    /** The headers of a chunk that is put to use block by block. */
    method DropChunk(h: Addr, memory: bool) returns (ok: bool)
      requires x.Valid() && CanPlay(x.part, Dropped(h)) && Ends(x.part)
      modifies x
      ensures x.Valid()
      ensures memory ==> ok
      ensures ok ==> x.part == Played(old(x.part), Dropped(h))
      ensures Added(old(x.Sizes()), x.Sizes(), 0, HBLKSIZE)
    {
      hide H.Agrees, H.Index.Shape, H.Look, Cut, H.SizesIn, Added;
      ghost var part0, sizes0 := x.part, x.Sizes();
      NothingAdded(sizes0, HBLKSIZE);
      var total := SizeOf(h);
      var c := h;
      while c + 1 < h + total
        invariant h <= c < h + total && x.Valid() && FreeAt(x.part, c) && x.part[c].sz == h + total - c && Ends(x.part)
        invariant UsedUp(x.part, c) == UsedUp(part0, h) && Added(sizes0, x.Sizes(), 0, HBLKSIZE)
      {
        ghost var part1, sizes1 := x.part, x.Sizes();
        NotSized(c, c);
        NoneInside(c);
        CutParts(part1, c, c + 1);
        ok := x.Split(c, c + 1, memory);
        if !ok {
          return;
        }
        ok := x.Use(c, HBLKSIZE, memory);
        if !ok {
          return;
        }
        OneAdded(sizes0, sizes1, c, HBLKSIZE);
        c := c + 1;
      }
      ghost var sizes1 := x.Sizes();
      NotSized(c, c);
      ok := x.Use(c, HBLKSIZE, memory);
      OneAdded(sizes0, sizes1, c, HBLKSIZE);
    }

    /** No sizes are recorded for blocks of free chunks. */
    lemma NotSized(h: Addr, p: Addr)
      requires x.Valid() && FreeAt(x.part, h) && h <= p < h + x.part[h].sz
      ensures p !in x.Sizes() && p != 0
    {
    }

    lemma TakenNotSized(e: Event)
      requires x.Valid() && CanPlay(x.part, e) && e.Taken?
      ensures e.p !in x.Sizes() && e.p != 0
    {
      NotSized(e.h, e.p);
    }

    lemma NoneInside(c: Addr)
      requires x.Valid() && c in x.part && x.part[c].sz > 1
      ensures c + 1 !in x.part
    {
      assert Apart(x.part);
    }

    /** The size of a free chunk, in blocks. */
    method SizeOf(h: Addr) returns (n: nat)
      requires x.Valid() && FreeAt(x.part, h)
      ensures n == x.part[h].sz
    {
      hide H.Agrees, H.Look;
      H.Reading(x.bots, x.part, h);
      var e := x.GetHdr(h);
      n := e.hdr.sz / HBLKSIZE;
    }

    /** The headers of what is left of a chunk, and header and counts of what is taken from it. */
    method TakeChunk(h: Addr, p: Addr, n: nat, sz: nat, memory: bool) returns (ok: bool)
      requires x.Valid() && CanPlay(x.part, Taken(h, p, n)) && Ends(x.part)
      requires sz > 0 && sz % WORD_BYTES == 0 && H.BlocksFor(sz) == n
      modifies x
      ensures x.Valid()
      ensures memory ==> ok
      ensures ok ==> x.part == Played(old(x.part), Taken(h, p, n)) && H.Look(x.bots, p) == H.Hdr(H.Header(sz, false))
      ensures x.Sizes() == if ok then old(x.Sizes())[p := sz] else old(x.Sizes())
    {
      hide H.Agrees, H.Index.Shape, H.Look, H.SizesIn;
      if p != h {
        ok := x.Split(h, p, memory);
        if !ok {
          return;
        }
      }
      var avail := SizeOf(p);
      if avail != n {
        ok := x.Split(p, p + n, memory);
        if !ok {
          return;
        }
      }
      ok := x.Use(p, sz, memory);
    }

    lemma Accounted()
      requires a.Valid()
      ensures Used(a.blk) + a.largeFree == a.heapSize
    {
    }

    /** GC_check_blocks: do the blocks in use, as the headers have it, and the free blocks make up the heap?  They
        do. */
    method CheckBlocks() returns (ok: bool)
      requires Valid()
      ensures ok
    {
      hide H.Agrees, H.Index.Shape, H.Look, A.Allocator.Valid, Used, InSpace;
      var used := x.ApplyToAllBlocks();
      var i, bytes := 0, 0;
      ghost var rest := a.blk;
      while i < |used|
        invariant 0 <= i <= |used| && bytes + Used(rest) * HBLKSIZE == Used(a.blk) * HBLKSIZE
        invariant forall b :: b in rest <==> b in a.blk && b !in used[..i]
        invariant forall b :: b in rest ==> rest[b] == a.blk[b]
      {
        var b := used[i];
        assert H.UsedAt(x.part, b);
        H.Reading(x.bots, x.part, b);
        UsedWithout(rest, b);
        var e := x.GetHdr(b);
        bytes := bytes + (e.hdr.sz + HBLKSIZE - 1) / HBLKSIZE * HBLKSIZE;
        rest := rest - {b};
        i := i + 1;
      }
      assert used[..|used|] == used;
      NoneInUse(rest);
      Accounted();
      ok := bytes + a.largeFree * HBLKSIZE == a.heapSize * HBLKSIZE;
    }
  }

  /** All chunks end within the address space. */
  ghost predicate Ends(blk: Blocks) {
    forall b :: b in blk ==> b + blk[b].sz <= ADDRESS_BLOCKS
  }

  lemma {:induction false} NoneInUse(blk: Blocks)
    requires forall b :: b in blk ==> blk[b].free
    ensures Used(blk) == 0
    decreases |blk|
  {
    if b :| b in blk {
      UsedWithout(blk, b);
      NoneInUse(blk - {b});
    }
  }

  lemma PlayedNone(blk: Blocks, log: seq<Event>)
    ensures PlayedAll(blk, log[..0]) == blk
  {
  }

  lemma PlayedNext(blk: Blocks, log: seq<Event>, i: nat)
    requires i < |log|
    ensures PlayedAll(blk, log[..i + 1]) == Played(PlayedAll(blk, log[..i]), log[i])
  {
    assert log[..i + 1][..i] == log[..i];
  }

  lemma PlayedTold(blk: Blocks, log: seq<Event>, blk': Blocks)
    requires Tells(blk, log, blk')
    ensures Playable(blk, log) && PlayedAll(blk, log) == blk'
  {
  }

  lemma PlayedEnds(blk: Blocks, e: Event)
    requires Ends(blk)
    ensures Ends(Played(blk, e))
  {
    if CanPlay(blk, e) && e.Dropped? {
      UsedUpEnds(blk, e.h);
    }
  }

  lemma {:induction false} UsedUpEnds(blk: Blocks, c: Addr)
    requires c in blk && blk[c].sz > 0 && Ends(blk)
    ensures Ends(UsedUp(blk, c))
    decreases blk[c].sz
  {
    if blk[c].sz > 1 {
      UsedUpEnds(Cut(blk, c, c + 1)[c := Blk(1, false)], c + 1);
    }
  }

  lemma CutParts(blk: Blocks, c: Addr, n: Addr)
    requires FreeAt(blk, c) && c < n < c + blk[c].sz && Ends(blk)
    ensures var b := Cut(blk, c, n);
            FreeAt(b, c) && FreeAt(b, n) && b[c].sz == n - c && b[n].sz == c + blk[c].sz - n && Ends(b)
  {
  }

  lemma EndsHere(part: Blocks, p: Addr, h: Addr)
    requires Apart(part) && h in part && h > 0 && Covers(part, p, h - 1)
    ensures A.EndsAt(part, if part[p].free then p else 0, h)
  {
    assert forall q :: FreeEndingAt(part, q, h) ==> q == p;
  }

  lemma EndsBefore(part: Blocks, p: Addr, h: Addr)
    requires Apart(part) && p in part && p < h && forall b :: b in part && b <= h - 1 ==> b <= p
    ensures A.EndsAt(part, if part[p].free && p + part[p].sz == h then p else 0, h)
  {
    assert forall q :: FreeEndingAt(part, q, h) ==> q == p;
  }

  lemma NoneBefore(part: Blocks, h: Addr)
    requires Apart(part) && forall b :: b in part ==> b > h - 1
    ensures A.EndsAt(part, 0, h)
  {
  }

  lemma StillEnds(part: Blocks, p: Addr, h: Addr)
    requires Apart(part) && FreeAt(part, h) && A.EndsAt(part, p, h)
    ensures p != 0 ==> FreeEndingAt(A.JoinedNext(part, h), p, h)
  {
  }
}
