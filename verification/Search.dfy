/**
 The search for room on the free lists: requests, which chunks can be used, which one is to be chosen, and where in it.
 */
module Search {
  import opened Sequences
  import opened BlockLists
  import opened BlockMap
  import B = BlackList

  /** A request for heap blocks, as the search sees it. */
  datatype Request = Request(
    needed: nat,          // in blocks
    checked: bool,        // does black-listing apply to this kind and size of object?
    ignoreOffPage: bool,  // do only pointers to the first block keep the object alive?
    limit: nat,           // BL_LIMIT, in blocks
    findLeak: bool)
  {
    /** The blocks that must not be black-listed. */
    function Watched(): nat {
      if ignoreOffPage then 1 else needed
    }

    /** Is a chunk of this size so large that it is used in spite of black-listing? */
    predicate Punts(sz: nat) {
      needed > limit && sz - needed > limit
    }

    predicate Suits(maySplit: bool, sz: nat) {
      if maySplit then sz >= needed else sz == needed
    }

    /** Can the request be met from the free chunk of size sz at x? */
    ghost predicate Usable(bl: B.BlackLists, maySplit: bool, x: Addr, sz: nat) {
      && Suits(maySplit, sz)
      && (checked ==> Punts(sz) || exists p :: x <= p && p + needed <= x + sz && bl.Clean(p, Watched()))
    }

    /** Place p of the chunk x is where the request has to be met: at its start if black lists do not matter, otherwise
        at the lowest clean place, and if there is none at its start, if the chunk is large enough not to mind. */
    ghost predicate Placed(bl: B.BlackLists, x: Addr, sz: nat, p: Addr) {
      && x <= p && p + needed <= x + sz
      && if !checked then p == x
         else if exists q :: x <= q && q + needed <= x + sz && bl.Clean(q, Watched())
         then bl.Clean(p, Watched()) && forall q :: x <= q < p ==> !bl.Clean(q, Watched())
         else p == x && Punts(sz)
    }

    /** A chunk that may be dropped: it was to be used for a single block, and none of its blocks is clean. */
    ghost predicate Worthless(bl: B.BlackLists, x: Addr, sz: nat) {
      && checked && needed == 1 && !findLeak && sz >= 1 && !Punts(sz)
      && forall p :: x <= p < x + sz ==> !bl.Clean(p, Watched())
    }

    /** Chunk y, which comes next on the list, would do, is smaller than one of size sz, and is not black-listed. */
    ghost predicate Better(bl: B.BlackLists, sz: nat, y: Addr, next: nat) {
      sz != needed && needed <= next < sz && bl.Clean(y, needed)
    }
  }

  /** x comes before y in the list s. */
  ghost predicate Before(s: seq<Addr>, x: Addr, y: Addr) {
    exists i, j :: 0 <= i < j < |s| && s[i] == x && s[j] == y
  }

  /** y comes right after x. */
  ghost predicate Follows(s: seq<Addr>, x: Addr, y: Addr) {
    exists i :: 0 <= i && i + 1 < |s| && s[i] == x && s[i + 1] == y
  }

  /** The chunk after x in the list s is better. */
  ghost predicate BetterNext(rq: Request, bl: B.BlackLists, blk: Blocks, s: seq<Addr>, x: Addr) {
    x in blk && exists y :: Follows(s, x, y) && y in blk && rq.Better(bl, blk[x].sz, y, blk[y].sz)
  }

  /** Chunk h is the one to choose from the list s: the first that can be used and is not followed by a better one. */
  ghost predicate Choice(rq: Request, bl: B.BlackLists, maySplit: bool, blk: Blocks, s: seq<Addr>, h: Addr) {
    && FreeAt(blk, h) && h in s && rq.Suits(maySplit, blk[h].sz) && !BetterNext(rq, bl, blk, s, h)
    && forall x :: Before(s, x, h) && x in blk && rq.Usable(bl, maySplit, x, blk[x].sz) ==>
         BetterNext(rq, bl, blk, s, x)
  }

  /** The free chunks that could be used are all still there. */
  ghost predicate Spared(rq: Request, bl: B.BlackLists, blk: Blocks, blk': Blocks) {
    forall x :: FreeAt(blk, x) && rq.Usable(bl, true, x, blk[x].sz) ==> x in blk' && blk'[x] == blk[x]
  }

  /** The list s' is s without some chunks that could not be used.  Nothing before them could be used either. */
  ghost predicate Thinned(rq: Request, bl: B.BlackLists, maySplit: bool, blk: Blocks, s: seq<Addr>, s': seq<Addr>) {
    && (forall x :: x in s' ==> x in s)
    && (forall x, y :: x in s' && y in s' ==> (Before(s', x, y) <==> Before(s, x, y)))
    && (forall x :: x in s && x !in s' ==> x in blk && !rq.Usable(bl, true, x, blk[x].sz) && rq.needed == 1)
    && (forall x, z :: Before(s, x, z) && z !in s' && x in blk ==> !rq.Usable(bl, maySplit, x, blk[x].sz))
  }

  /** Chunks were dropped only if they were worthless. */
  ghost predicate Reasons(rq: Request, bl: B.BlackLists, blk: Blocks, log: seq<Event>) {
    forall i :: 0 <= i < |log| && log[i].Dropped? ==>
      FreeAt(blk, log[i].h) && rq.Worthless(bl, log[i].h, blk[log[i].h].sz)
  }

  /** What a search of the list s has done when s' is left of it. */
  ghost predicate SoFar(rq: Request, bl: B.BlackLists, maySplit: bool, blk: Blocks, s: seq<Addr>, blk': Blocks,
                        s': seq<Addr>, log: seq<Event>)
  {
    Spared(rq, bl, blk, blk') && Thinned(rq, bl, maySplit, blk, s, s') && Reasons(rq, bl, blk, log)
  }

  lemma ThinnedRefl(rq: Request, bl: B.BlackLists, maySplit: bool, blk: Blocks, s: seq<Addr>)
    ensures Thinned(rq, bl, maySplit, blk, s, s)
  {
  }

  lemma NothingDone(rq: Request, bl: B.BlackLists, maySplit: bool, blk: Blocks, s: seq<Addr>)
    ensures SoFar(rq, bl, maySplit, blk, s, blk, s, [])
  {
  }

  lemma BeforeWithout(s: seq<Addr>, k: nat, x: Addr, y: Addr)
    requires NoDup(s) && k < |s| && x != s[k] && y != s[k]
    ensures Before(Without(s, k), x, y) <==> Before(s, x, y)
  {
    var t := Without(s, k);
    if i, j :| 0 <= i < j < |s| && s[i] == x && s[j] == y {
      assert t[if i < k then i else i - 1] == x && t[if j < k then j else j - 1] == y;
    }
    if i, j :| 0 <= i < j < |t| && t[i] == x && t[j] == y {
      assert s[if i < k then i else i + 1] == x && s[if j < k then j else j + 1] == y;
    }
  }

  lemma BeforeAt(s: seq<Addr>, k: nat, x: Addr)
    requires NoDup(s) && k < |s| && Before(s, x, s[k])
    ensures exists j :: 0 <= j < k && s[j] == x
  {
    var i, j :| 0 <= i < j < |s| && s[i] == x && s[j] == s[k];
    assert j == k;
  }

  lemma OnlyNext(s: seq<Addr>, k: nat)
    requires NoDup(s) && k < |s|
    ensures forall y :: Follows(s, s[k], y) ==> k + 1 < |s| && y == s[k + 1]
  {
  }

  lemma InWithout(s: seq<Addr>, k: nat, x: Addr)
    requires NoDup(s) && k < |s|
    ensures x in Without(s, k) <==> x in s && x != s[k]
  {
    if x in s && x != s[k] {
      var i :| 0 <= i < |s| && s[i] == x;
      assert Without(s, k)[if i < k then i else i - 1] == x;
    }
  }

  /** A worthless chunk cannot be used. */
  lemma WorthlessIsUnusable(rq: Request, bl: B.BlackLists, maySplit: bool, x: Addr, sz: nat)
    requires rq.Worthless(bl, x, sz)
    ensures !rq.Usable(bl, maySplit, x, sz)
  {
  }

  /** The worthless chunk at position k is dropped. */
  lemma OneDropped(rq: Request, bl: B.BlackLists, maySplit: bool, blk: Blocks, s: seq<Addr>, blk1: Blocks,
                   s1: seq<Addr>, log: seq<Event>, k: nat, blk2: Blocks)
    requires SoFar(rq, bl, maySplit, blk, s, blk1, s1, log) && NoDup(s1) && k < |s1|
    requires FreeAt(blk, s1[k]) && rq.Worthless(bl, s1[k], blk[s1[k]].sz)
    requires forall b :: b in blk1 && b != s1[k] ==> b in blk2 && blk2[b] == blk1[b]
    requires forall x :: x in s1 ==> x in blk
    requires forall j :: 0 <= j < k && s1[j] in blk ==> !rq.Usable(bl, maySplit, s1[j], blk[s1[j]].sz)
    ensures SoFar(rq, bl, maySplit, blk, s, blk2, Without(s1, k), log + [Dropped(s1[k])])
  {
    var x, s2 := s1[k], Without(s1, k);
    WorthlessIsUnusable(rq, bl, true, x, blk[x].sz);
    hide Request.Usable, Request.Worthless, Before;
    forall y ensures y in s2 <==> y in s1 && y != x {
      InWithout(s1, k, y);
    }
    forall y, z | y in s2 && z in s2 ensures Before(s2, y, z) <==> Before(s, y, z) {
      BeforeWithout(s1, k, y, z);
    }
    forall y, z | Before(s, y, z) && z !in s2 && y in blk ensures !rq.Usable(bl, maySplit, y, blk[y].sz) {
      if z == x && y in s1 {
        BeforeAt(s1, k, y);
      }
    }
  }

  lemma ReasonsMore(rq: Request, bl: B.BlackLists, blk: Blocks, log: seq<Event>, more: seq<Event>)
    requires Reasons(rq, bl, blk, log) && Reasons(rq, bl, blk, more)
    ensures Reasons(rq, bl, blk, log + more)
  {
    hide Request.Worthless;
  }

  /** In the end a place was taken, or nothing more. */
  lemma AndTaken(rq: Request, bl: B.BlackLists, maySplit: bool, blk: Blocks, s: seq<Addr>, blk': Blocks, s': seq<Addr>,
                 log: seq<Event>, h: Addr, p: Addr)
    requires SoFar(rq, bl, maySplit, blk, s, blk', s', log)
    ensures Reasons(rq, bl, blk, log + [Taken(h, p, rq.needed)])
  {
    hide Request.Worthless, Spared, Thinned;
  }

  lemma AndNothing(rq: Request, bl: B.BlackLists, maySplit: bool, blk: Blocks, s: seq<Addr>, blk': Blocks,
                   s': seq<Addr>, log: seq<Event>)
    requires SoFar(rq, bl, maySplit, blk, s, blk', s', log)
    ensures Reasons(rq, bl, blk, log)
  {
  }

  /** The choice from what is left of a list is the choice from all of it. */
  lemma SameChoice(rq: Request, bl: B.BlackLists, maySplit: bool, blk: Blocks, s: seq<Addr>, blk': Blocks,
                   s': seq<Addr>, h: Addr)
    requires Thinned(rq, bl, maySplit, blk, s, s') && NoDup(s) && NoDup(s') && Choice(rq, bl, maySplit, blk', s', h)
    requires rq.needed > 0
    requires forall x :: x in s' ==> x in blk && x in blk' && blk'[x] == blk[x]
    ensures Choice(rq, bl, maySplit, blk, s, h)
  {
    hide Request.Usable, Request.Better, Follows, Before;
    forall x | Before(s, x, h) && x in blk && rq.Usable(bl, maySplit, x, blk[x].sz)
      ensures BetterNext(rq, bl, blk, s, x)
    {
      WithSplitting(rq, bl, maySplit, x, blk[x].sz);
      InList(s, x, h);
      assert Before(s', x, h);
      var y :| Follows(s', x, y) && y in blk' && rq.Better(bl, blk'[x].sz, y, blk'[y].sz);
      FollowedBefore(rq, bl, maySplit, blk, s, s', x, y);
    }
    if BetterNext(rq, bl, blk, s, h) {
      var y :| Follows(s, h, y) && y in blk && rq.Better(bl, blk[h].sz, y, blk[y].sz);
      BetterIsUsable(rq, bl, blk[h].sz, y, blk[y].sz);
      StillFollows(rq, bl, maySplit, blk, s, s', h, y);
    }
  }

  lemma WithSplitting(rq: Request, bl: B.BlackLists, maySplit: bool, x: Addr, sz: nat)
    requires rq.Usable(bl, maySplit, x, sz)
    ensures rq.Usable(bl, true, x, sz)
  {
  }

  lemma InList(s: seq<Addr>, x: Addr, y: Addr)
    requires Before(s, x, y)
    ensures x in s && y in s
  {
  }

  /** What follows a chunk that could be used did so before. */
  lemma FollowedBefore(rq: Request, bl: B.BlackLists, maySplit: bool, blk: Blocks, s: seq<Addr>, s': seq<Addr>, x: Addr,
                       y: Addr)
    requires Thinned(rq, bl, maySplit, blk, s, s') && NoDup(s) && NoDup(s') && Follows(s', x, y)
    requires x in blk && rq.Usable(bl, maySplit, x, blk[x].sz)
    ensures Follows(s, x, y) && y in s'
  {
    hide Request.Usable;
    NothingBetween(s', x, y);
    assert Before(s', x, y);
    assert Before(s, x, y);
    var i, j :| 0 <= i < j < |s| && s[i] == x && s[j] == y;
    if i + 1 < j {
      Middle(s, i, j);
    }
  }

  lemma BetterIsUsable(rq: Request, bl: B.BlackLists, sz: nat, y: Addr, next: nat)
    requires rq.Better(bl, sz, y, next) && rq.needed > 0
    ensures rq.Usable(bl, true, y, next) && sz != rq.needed
  {
    assert bl.Clean(y, rq.Watched());
  }

  lemma StillFollows(rq: Request, bl: B.BlackLists, maySplit: bool, blk: Blocks, s: seq<Addr>, s': seq<Addr>, x: Addr,
                     y: Addr)
    requires Thinned(rq, bl, maySplit, blk, s, s') && NoDup(s) && Follows(s, x, y) && x in s'
    requires y in blk && rq.Usable(bl, true, y, blk[y].sz)
    ensures Follows(s', x, y)
  {
    NothingBetween(s, x, y);
    assert Before(s, x, y);
    assert y in s';
    assert Before(s', x, y);
    var i, j :| 0 <= i < j < |s'| && s'[i] == x && s'[j] == y;
    if i + 1 < j {
      Middle(s', i, j);
    }
  }

  lemma Middle(s: seq<Addr>, i: nat, j: nat)
    requires i + 1 < j < |s|
    ensures Before(s, s[i], s[i + 1]) && Before(s, s[i + 1], s[j])
  {
  }

  lemma NothingBetween(s: seq<Addr>, x: Addr, y: Addr)
    requires NoDup(s) && Follows(s, x, y)
    ensures forall z :: Before(s, x, z) ==> !Before(s, z, y)
  {
  }

  /** Chunks left on a list after two searches of it. */
  lemma ThinnedTrans(rq: Request, bl: B.BlackLists, maySplit: bool, blk: Blocks, s: seq<Addr>, blk1: Blocks,
                     s1: seq<Addr>, s2: seq<Addr>)
    requires Thinned(rq, bl, maySplit, blk, s, s1) && Thinned(rq, bl, maySplit, blk1, s1, s2)
    requires forall x :: x in s1 ==> x in blk && x in blk1 && blk1[x] == blk[x]
    ensures Thinned(rq, bl, maySplit, blk, s, s2)
  {
    hide Request.Usable, Before;
    forall x, z | Before(s, x, z) && z !in s2 && x in blk ensures !rq.Usable(bl, maySplit, x, blk[x].sz) {
      if rq.Usable(bl, maySplit, x, blk[x].sz) {
        WithSplitting(rq, bl, maySplit, x, blk[x].sz);
        InList(s, x, z);
      }
    }
  }

  lemma SparedTrans(rq: Request, bl: B.BlackLists, blk: Blocks, blk1: Blocks, blk2: Blocks)
    requires Spared(rq, bl, blk, blk1) && Spared(rq, bl, blk1, blk2)
    ensures Spared(rq, bl, blk, blk2)
  {
    hide Request.Usable;
  }
}
