/**
 Merging free chunks when memory that was not used lately may have been unmapped: then neighbours, one of them mapped
 and the other not, can both be free.  Every chunk is either fully mapped or fully unmapped.
 */
module Unmapping {
  import opened Sequences
  import opened BlockLists
  import opened BlockMap
  import opened Allocator

  /** Chunk b and the one after it are free, and not too large to be joined. */
  ghost predicate Mergeable(blk: Blocks, b: Addr) {
    FreeAt(blk, b) && FreeAt(blk, b + blk[b].sz) && blk[b].sz + blk[b + blk[b].sz].sz < SIGN_BLOCKS
  }

  /** Nothing can be merged from list i downwards, and nothing of the first k chunks of s. */
  ghost predicate Merged(blk: Blocks, i: nat, s: seq<Addr>, k: nat) {
    && (forall b :: FreeAt(blk, b) && FlIndex(blk[b].sz) < i ==> !Mergeable(blk, b))
    && (forall p :: 0 <= p < k && p < |s| ==> !Mergeable(blk, s[p]))
  }

  /** Joining two chunks creates no new opportunities for chunks on earlier lists. */
  lemma MergedStays(blk: Blocks, i: nat, h: Addr, b: Addr)
    requires Apart(blk) && Mergeable(blk, h) && FlIndex(blk[h].sz) == i
    requires forall c :: FreeAt(blk, c) && FlIndex(blk[c].sz) < i ==> !Mergeable(blk, c)
    requires var blk' := Joined(blk, h, h + blk[h].sz); FreeAt(blk', b) && FlIndex(blk'[b].sz) < i
    ensures !Mergeable(Joined(blk, h, h + blk[h].sz), b)
  {
    var n := h + blk[h].sz;
    FlIndexMonotone(blk[h].sz, blk[h].sz + blk[n].sz);
    hide FlIndex;
    assert b != h;
    OtherJoined(blk, h, n, b);
    assert !Mergeable(blk, b);
  }

  /** What a chunk other than the joined ones can be merged with is not made less. */
  lemma OtherJoined(blk: Blocks, h: Addr, n: Addr, b: Addr)
    requires Apart(blk) && FreeAt(blk, h) && FreeAt(blk, n) && n == h + blk[h].sz && b != h
    requires FreeAt(Joined(blk, h, n), b)
    ensures FreeAt(blk, b) && Joined(blk, h, n)[b] == blk[b]
    ensures Mergeable(Joined(blk, h, n), b) ==> Mergeable(blk, b)
  {
    assert b + blk[b].sz != n;
  }

  /** Chunk b is unmapped just if it is flagged so, and then all of its blocks are. */
  ghost predicate WhollyMapped(blk: Blocks, unmapped: set<Addr>, holes: set<Addr>, b: Addr) {
    b in blk ==> forall p :: b <= p < b + blk[b].sz ==> (p in holes <==> b in unmapped)
  }

  ghost predicate Consistent(blk: Blocks, unmapped: set<Addr>, holes: set<Addr>) {
    && (forall b :: b in unmapped ==> FreeAt(blk, b))
    && (forall b :: WhollyMapped(blk, unmapped, holes, b))
  }

  /** Both neighbours were mapped, or both unmapped, when they are joined. */
  lemma JoinedConsistent(blk: Blocks, unmapped: set<Addr>, holes: set<Addr>, h: Addr, n: Addr)
    requires Apart(blk) && FreeAt(blk, h) && FreeAt(blk, n) && n == h + blk[h].sz
    requires Consistent(blk, unmapped, holes) && (h in unmapped <==> n in unmapped)
    ensures Consistent(Joined(blk, h, n), unmapped - {n}, holes)
  {
    var blk', unmapped' := Joined(blk, h, n), unmapped - {n};
    forall b ensures WhollyMapped(blk', unmapped', holes, b) {
      assert WhollyMapped(blk, unmapped, holes, b);
      assert WhollyMapped(blk, unmapped, holes, n);
    }
  }

  lemma SwitchedConsistent(blk: Blocks, unmapped: set<Addr>, holes: set<Addr>, x: Addr)
    requires Apart(blk) && FreeAt(blk, x) && Consistent(blk, unmapped, holes)
    ensures x in unmapped ==> Consistent(blk, unmapped - {x}, holes - Span(x, blk[x].sz))
    ensures x !in unmapped ==> Consistent(blk, unmapped + {x}, holes + Span(x, blk[x].sz))
  {
    var span := Span(x, blk[x].sz);
    assert forall p: Addr :: p in span <==> InSpan(x, blk[x].sz, p);
    forall b ensures WhollyMapped(blk, unmapped - {x}, holes - span, b) || x !in unmapped {
      assert WhollyMapped(blk, unmapped, holes, b);
    }
    forall b ensures WhollyMapped(blk, unmapped + {x}, holes + span, b) || x in unmapped {
      assert WhollyMapped(blk, unmapped, holes, b);
    }
  }

  lemma JoinedFree(blk: Blocks, h: Addr, n: Addr)
    requires FreeAt(blk, h) && FreeAt(blk, n)
    ensures FreeAt(Joined(blk, h, n), h) && Joined(blk, h, n)[h].sz == blk[h].sz + blk[n].sz
  {
  }

  lemma MergedOn(blk: Blocks, i: nat, h: Addr)
    requires Apart(blk) && Mergeable(blk, h) && FlIndex(blk[h].sz) == i && Merged(blk, i, [], 0)
    ensures var blk' := Joined(blk, h, h + blk[h].sz); Merged(blk', i, [], 0) && |blk'| < |blk|
  {
    var n := h + blk[h].sz;
    var blk' := Joined(blk, h, n);
    forall b | FreeAt(blk', b) && FlIndex(blk'[b].sz) < i ensures !Mergeable(blk', b) {
      MergedStays(blk, i, h, b);
    }
    assert blk'.Keys == blk.Keys - {n};
  }

  lemma MergedAny(blk: Blocks, i: nat, s: seq<Addr>, k: nat, t: seq<Addr>)
    requires Merged(blk, i, s, k)
    ensures Merged(blk, i, t, 0)
  {
  }

  lemma MergedNext(blk: Blocks, i: nat, s: seq<Addr>, k: nat)
    requires Merged(blk, i, s, k) && k < |s| && !Mergeable(blk, s[k])
    ensures Merged(blk, i, s, k + 1)
  {
  }

  lemma MergedEnd(blk: Blocks, i: nat, s: seq<Addr>)
    requires Merged(blk, i, s, |s|) && forall b :: FreeAt(blk, b) && FlIndex(blk[b].sz) == i ==> b in s
    ensures Merged(blk, i + 1, [], 0)
  {
    hide Mergeable, FlIndex;
  }

  lemma CoalescedIfNone(blk: Blocks)
    requires forall b :: !Mergeable(blk, b)
    requires forall b: Addr :: FreeAt(blk, b) && FreeAt(blk, b + blk[b].sz) ==>
               blk[b].sz + blk[b + blk[b].sz].sz < SIGN_BLOCKS
    ensures Coalesced(blk)
  {
    forall b | b in blk && blk[b].free ensures !FreeAt(blk, b + blk[b].sz) {
      assert !Mergeable(blk, b);
    }
  }

  lemma NothingLeft(blk: Blocks)
    requires Merged(blk, N_HBLK_FLS + 1, [], 0)
    ensures forall b :: !Mergeable(blk, b)
  {
  }

  lemma SameInUseRefl(blk: Blocks)
    ensures SameInUse(blk, blk)
  {
  }

  lemma SameInUseTrans(blk: Blocks, blk1: Blocks, blk2: Blocks)
    requires SameInUse(blk, blk1) && SameInUse(blk1, blk2)
    ensures SameInUse(blk, blk2)
  {
  }

  /** Joining free chunks does not touch those in use. */
  lemma JoinedInUse(blk: Blocks, h: Addr, n: Addr)
    requires FreeAt(blk, h) && FreeAt(blk, n) && h != n
    ensures SameInUse(blk, Joined(blk, h, n))
  {
  }

  /** The chunk that decides whether the two are to be mapped: the larger one, and n if they have the same size. */
  ghost function Larger(blk: Blocks, h: Addr, n: Addr): Addr
    requires h in blk && n in blk
  {
    if blk[h].sz > blk[n].sz then h else n
  }

  /** Which chunks are unmapped when n has been joined to h. */
  ghost function UnmappedThen(blk: Blocks, unmapped: set<Addr>, h: Addr, n: Addr): set<Addr>
    requires h in blk && n in blk
  {
    unmapped - {h, n} + if Larger(blk, h, n) in unmapped then {h} else {}
  }

  /** The chunk after h was joined to it. */
  ghost predicate JoinedTo(blk0: Blocks, unmapped0: set<Addr>, blk: Blocks, unmapped: set<Addr>, h: Addr) {
    h in blk0 && var n := h + blk0[h].sz;
    n in blk0 && blk == Joined(blk0, h, n) && unmapped == UnmappedThen(blk0, unmapped0, h, n)
  }

  /** Free chunk c of the heap before is part of the free chunk b, and as mapped or unmapped as b is now. */
  ghost predicate Decides(blk0: Blocks, unmapped0: set<Addr>, blk: Blocks, unmapped: set<Addr>, b: Addr, c: Addr)
    requires b in blk
  {
    FreeAt(blk0, c) && b <= c && c + blk0[c].sz <= b + blk[b].sz && (b in unmapped <==> c in unmapped0)
  }

  /** Every free chunk is mapped or unmapped as some chunk was that is part of it; so those that were not joined to
      any other are as they were. */
  ghost predicate Inherited(blk0: Blocks, unmapped0: set<Addr>, blk: Blocks, unmapped: set<Addr>) {
    forall b :: FreeAt(blk, b) ==> exists c :: Decides(blk0, unmapped0, blk, unmapped, b, c)
  }

  lemma InheritedRefl(blk: Blocks, unmapped: set<Addr>)
    ensures Inherited(blk, unmapped, blk, unmapped)
  {
    forall b | FreeAt(blk, b) ensures exists c :: Decides(blk, unmapped, blk, unmapped, b, c) {
      assert Decides(blk, unmapped, blk, unmapped, b, b);
    }
  }

  lemma InheritedTrans(blk0: Blocks, unmapped0: set<Addr>, blk1: Blocks, unmapped1: set<Addr>, blk: Blocks,
                       unmapped: set<Addr>)
    requires Inherited(blk0, unmapped0, blk1, unmapped1) && Inherited(blk1, unmapped1, blk, unmapped)
    ensures Inherited(blk0, unmapped0, blk, unmapped)
  {
    forall b | FreeAt(blk, b) ensures exists c :: Decides(blk0, unmapped0, blk, unmapped, b, c) {
      var d :| Decides(blk1, unmapped1, blk, unmapped, b, d);
      var c :| Decides(blk0, unmapped0, blk1, unmapped1, d, c);
      assert Decides(blk0, unmapped0, blk, unmapped, b, c);
    }
  }

  lemma JoinedInherits(blk: Blocks, unmapped: set<Addr>, h: Addr, n: Addr)
    requires FreeAt(blk, h) && FreeAt(blk, n) && n == h + blk[h].sz && blk[h].sz > 0
    ensures Inherited(blk, unmapped, Joined(blk, h, n), UnmappedThen(blk, unmapped, h, n))
  {
    var blk', unmapped' := Joined(blk, h, n), UnmappedThen(blk, unmapped, h, n);
    forall b | FreeAt(blk', b) ensures exists c :: Decides(blk, unmapped, blk', unmapped', b, c) {
      assert Decides(blk, unmapped, blk', unmapped', b, if b == h then Larger(blk, h, n) else b);
    }
  }

  /** A chunk that was not joined to any other is as mapped as before. */
  lemma UnjoinedStays(blk0: Blocks, unmapped0: set<Addr>, blk: Blocks, unmapped: set<Addr>, b: Addr)
    requires Inherited(blk0, unmapped0, blk, unmapped) && Apart(blk0)
    requires FreeAt(blk, b) && b in blk0 && blk[b].sz == blk0[b].sz && forall c :: c in blk0 ==> blk0[c].sz > 0
    ensures b in unmapped <==> b in unmapped0
  {
    var c :| Decides(blk0, unmapped0, blk, unmapped, b, c);
    assert c == b;
  }

  class Unmapper {
    const a: Allocator
    var unmapped: set<Addr>     // free chunks flagged as WAS_UNMAPPED
    ghost var holes: set<Addr>  // blocks that are not mapped

    constructor (a: Allocator)
      requires a.Valid()
      ensures this.a == a && unmapped == {} && holes == {}
    {
      this.a, unmapped, holes := a, {}, {};
    }

    ghost predicate Kept()
      reads this, a
    {
      a.Books(0) && Apart(a.blk) && a.largeFree == Total(a.freeBytes) && Used(a.blk) + a.largeFree == a.heapSize
      && Consistent(a.blk, unmapped, holes)
    }

    /** Make the two chunks that are to be joined either both mapped or both unmapped, by changing the smaller one. */
    method Agree(h: Addr, n: Addr)
      requires Apart(a.blk) && FreeAt(a.blk, h) && FreeAt(a.blk, n) && h != n && Consistent(a.blk, unmapped, holes)
      modifies this
      ensures Consistent(a.blk, unmapped, holes) && (h in unmapped <==> n in unmapped)
      ensures unmapped == old(unmapped) - {h, n} + if Larger(a.blk, h, n) in old(unmapped) then {h, n} else {}
    {
      var size, nextSize := a.blk[h].sz, a.blk[n].sz;
      if h !in unmapped && n in unmapped {
        if size > nextSize {
          Switch(n);
        } else {
          Switch(h);
        }
      } else if n !in unmapped && h in unmapped {
        if size > nextSize {
          Switch(n);
        } else {
          Switch(h);
        }
      }
    }

    /** GC_remap or GC_unmap. */
    method Switch(x: Addr)
      requires Apart(a.blk) && FreeAt(a.blk, x) && Consistent(a.blk, unmapped, holes)
      modifies this
      ensures Consistent(a.blk, unmapped, holes)
      ensures unmapped == if x in old(unmapped) then old(unmapped) - {x} else old(unmapped) + {x}
    {
      SwitchedConsistent(a.blk, unmapped, holes, x);
      if x in unmapped {
        unmapped, holes := unmapped - {x}, holes - Span(x, a.blk[x].sz);
      } else {
        unmapped, holes := unmapped + {x}, holes + Span(x, a.blk[x].sz);
      }
    }

    /** Join chunk h, which is on list i, to the one after it. */
    method MergeNext(h: Addr, i: nat)
      requires Kept() && i <= N_HBLK_FLS && h in a.lists[i] && Mergeable(a.blk, h)
      modifies this, a
      ensures Kept() && JoinedTo(old(a.blk), old(unmapped), a.blk, unmapped, h)
      ensures a.heapSize == old(a.heapSize) && a.area == old(a.area) && SameInUse(old(a.blk), a.blk)
      ensures Inherited(old(a.blk), old(unmapped), a.blk, unmapped)
    {
      hide Allocator.Books, Apart, Used, Total, Consistent, NotListed, Joined, SameInUse, Inherited;
      var n := h + a.blk[h].sz;
      a.Positive(h, 0);
      JoinedInherits(a.blk, unmapped, h, n);
      Agree(h, n);
      a.AsOdd(h);
      a.TakeOff(h, i);
      ghost var blk0 := a.blk;
      JoinedConsistent(a.blk, unmapped, holes, h, n);
      JoinedInUse(blk0, h, n);
      a.Join(h, n, n, h);
      JoinedFree(blk0, h, n);
      a.File(h);
      a.ApartNow(0);
      unmapped := unmapped - {n};
    }

    lemma ListAt(i: nat, k: nat)
      requires a.Books(0) && i <= N_HBLK_FLS && k < |a.lists[i]|
      ensures FreeAt(a.blk, a.lists[i][k]) && a.lists[i][k] != 0 && FlIndex(a.blk[a.lists[i][k]].sz) == i
      ensures a.lists[i][k] in a.next && a.next[a.lists[i][k]] == At(a.lists[i], k + 1)
    {
      a.Place(i, k);
      a.NoNull(0);
      assert a.lists[i][k] in a.lists[i];
    }

    lemma ListHead(i: nat)
      requires a.Books(0) && i <= N_HBLK_FLS
      ensures |a.lists| == |a.heads| == N_HBLK_FLS + 1 && a.heads[i] == At(a.lists[i], 0)
    {
      assert Linked(a.next, a.prev, a.heads[i], a.lists[i]);
    }

    lemma OnList(i: nat)
      requires a.Books(0) && i <= N_HBLK_FLS
      ensures forall b :: FreeAt(a.blk, b) && FlIndex(a.blk[b].sz) == i ==> b in a.lists[i]
    {
      a.NoNull(0);
    }

    /** The merging of one list, which starts over whenever something was merged. */
    method MergeList(i: nat)
      requires Kept() && i <= N_HBLK_FLS && Merged(a.blk, i, [], 0)
      modifies this, a
      ensures Kept() && Merged(a.blk, i + 1, [], 0) && a.heapSize == old(a.heapSize)
      ensures a.area == old(a.area) && SameInUse(old(a.blk), a.blk)
      ensures Inherited(old(a.blk), old(unmapped), a.blk, unmapped)
    {
      hide Allocator.Books, Apart, Used, Total, Consistent, Mergeable, Merged, SameInUse, Inherited, Joined;
      SameInUseRefl(a.blk);
      InheritedRefl(a.blk, unmapped);
      ListHead(i);
      var h := a.heads[i];
      ghost var k := 0;
      MergedAny(a.blk, i, [], 0, a.lists[i]);
      while h != 0
        invariant Kept() && |a.lists| == N_HBLK_FLS + 1 && 0 <= k <= |a.lists[i]| && h == At(a.lists[i], k)
        invariant Merged(a.blk, i, a.lists[i], k) && a.heapSize == old(a.heapSize)
        invariant a.area == old(a.area) && SameInUse(old(a.blk), a.blk)
        invariant Inherited(old(a.blk), old(unmapped), a.blk, unmapped)
        decreases |a.blk|, |a.lists[i]| - k
      {
        ListAt(i, k);
        var merge := CanMerge(h);
        if merge {
          ghost var blk0, unmapped0 := a.blk, unmapped;
          MergedAny(blk0, i, a.lists[i], k, []);
          MergedOn(blk0, i, h);
          assert h in a.lists[i];
          MergeNext(h, i);
          SameInUseTrans(old(a.blk), blk0, a.blk);
          InheritedTrans(old(a.blk), old(unmapped), blk0, unmapped0, a.blk, unmapped);
          ListHead(i);
          MergedAny(a.blk, i, [], 0, a.lists[i]);
          h, k := a.heads[i], 0;
        } else {
          MergedNext(a.blk, i, a.lists[i], k);
          h, k := a.next[h], k + 1;
        }
      }
      if k < |a.lists[i]| {
        ListAt(i, k);
      }
      OnList(i);
      MergedEnd(a.blk, i, a.lists[i]);
    }

    method CanMerge(h: Addr) returns (r: bool)
      requires FreeAt(a.blk, h)
      ensures r <==> Mergeable(a.blk, h)
    {
      var n := h + a.blk[h].sz;
      r := n in a.blk && a.blk[n].free && a.blk[h].sz + a.blk[n].sz < SIGN_BLOCKS;
    }

    /** GC_merge_unmapped: in the end no two neighbouring free chunks could still be joined. */
    method MergeUnmapped()
      requires Kept()
      modifies this, a
      ensures Kept() && a.heapSize == old(a.heapSize)
      ensures a.area == old(a.area) && SameInUse(old(a.blk), a.blk)
      ensures forall b :: !Mergeable(a.blk, b)
      ensures Inherited(old(a.blk), old(unmapped), a.blk, unmapped)
      ensures a.Valid()
    {
      hide Allocator.Books, Apart, Used, Total, Consistent, Mergeable, SameInUse, Inherited;
      SameInUseRefl(a.blk);
      InheritedRefl(a.blk, unmapped);
      var i := 0;
      while i <= N_HBLK_FLS
        invariant i <= N_HBLK_FLS + 1 && Kept() && Merged(a.blk, i, [], 0) && a.heapSize == old(a.heapSize)
        invariant a.area == old(a.area) && SameInUse(old(a.blk), a.blk)
        invariant Inherited(old(a.blk), old(unmapped), a.blk, unmapped)
      {
        ghost var blk0, unmapped0 := a.blk, unmapped;
        MergeList(i);
        SameInUseTrans(old(a.blk), blk0, a.blk);
        InheritedTrans(old(a.blk), old(unmapped), blk0, unmapped0, a.blk, unmapped);
        i := i + 1;
      }
      NothingLeft(a.blk);
      if a.heapSize < SIGN_BLOCKS {
        AllCoalesced();
      }
    }

    /** In a heap that is not huge, two free chunks are never too large to be joined. */
    lemma AllCoalesced()
      requires Kept() && a.heapSize < SIGN_BLOCKS && forall b :: !Mergeable(a.blk, b)
      ensures Coalesced(a.blk)
    {
      hide Allocator.Books, Total, Used, Consistent, Coalesced, Mergeable;
      forall b: Addr | FreeAt(a.blk, b) && FreeAt(a.blk, b + a.blk[b].sz)
        ensures a.blk[b].sz + a.blk[b + a.blk[b].sz].sz < SIGN_BLOCKS
      {
        a.Positive(b, 0);
        TwoInTotal(b, b + a.blk[b].sz);
      }
      CoalescedIfNone(a.blk);
    }

    lemma TwoInTotal(b: Addr, c: Addr)
      requires a.Books(0) && FreeAt(a.blk, b) && FreeAt(a.blk, c) && b < c
      ensures a.blk[b].sz + a.blk[c].sz <= Total(a.freeBytes)
    {
      hide Total, ListSum, AllLinked, Tiles;
      var i, j := FlIndex(a.blk[b].sz), FlIndex(a.blk[c].sz);
      a.NoNull(0);
      assert b in a.lists[i] && c in a.lists[j];
      if i == j {
        TwoOnList(a.blk, a.lists[i], b, c);
        TotalUpdate(a.freeBytes, i, 0);
      } else {
        OneOnList(a.blk, a.lists[i], b);
        OneOnList(a.blk, a.lists[j], c);
        TotalUpdate(a.freeBytes, i, 0);
        TotalUpdate(a.freeBytes[i := 0], j, 0);
      }
    }
  }

  lemma OneOnList(blk: Blocks, s: seq<Addr>, b: Addr)
    requires b in s && b in blk
    ensures blk[b].sz <= ListSum(blk, s)
  {
    var k :| 0 <= k < |s| && s[k] == b;
    ListSumWithout(blk, s, k);
  }

  lemma TwoOnList(blk: Blocks, s: seq<Addr>, b: Addr, c: Addr)
    requires b in s && b in blk && c in s && c in blk && b != c
    ensures blk[b].sz + blk[c].sz <= ListSum(blk, s)
  {
    var k :| 0 <= k < |s| && s[k] == b;
    ListSumWithout(blk, s, k);
    var p :| 0 <= p < |s| && s[p] == c;
    assert Without(s, k)[if p < k then p else p - 1] == c;
    OneOnList(blk, Without(s, k), c);
  }
}
