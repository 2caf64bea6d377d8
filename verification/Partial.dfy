/**
 What partial collections, which start from sticky mark bits and look only into what was reported as dirty, depend on.
 */
module Partial {
  import opened MarkHeap
  import opened Reach

  /** What the unreported words of unvisited objects point to can be reached in another way. */
  ghost predicate Covered(h: Heap, mem: Addr -> Word, wide: bool, skip: set<ObjId>, start: set<ObjId>, lag: set<Addr>) {
    forall o, a :: o in skip && a in h.Fields(o) && a in lag && mem(a) in h.target ==>
      h.target[mem(a)] in NearSet(h, mem, wide, skip, start)
  }

  /** Stored pointers that are also on some stack can be reached from there. */
  lemma HeldIsCovered(h: Heap, mem: Addr -> Word, skip: set<ObjId>, start: set<ObjId>, lag: set<Addr>)
    requires h.Valid() && HeldOnStacks(h, mem, lag)
    ensures Covered(h, mem, false, skip, start, lag)
  {
    forall o, a | o in skip && a in h.Fields(o) && a in lag && mem(a) in h.target
      ensures h.target[mem(a)] in NearSet(h, mem, false, skip, start)
    {
      assert OnSomeStack(h, mem, h.target[mem(a)]);
      NearStart(h, mem, false, skip, start, h.target[mem(a)]);
      TargetsAreObjects(h, mem(a));
    }
  }

  /** Everything that can be reached without looking into `skip` is marked in the end. */
  lemma {:induction false} NearPathIsMarked(h: Heap, v: View, skip: set<ObjId>, path: seq<ObjId>, i: nat)
    requires h.Valid() && v.marked <= h.home.Keys && skip <= h.home.Keys
    requires AllOK(h, v) && RootsOK(h, v) && v.grey == {} && v.lag == WordsOf(h, skip, v.lag)
    requires IsPath(h, v.mem, false, path) && Avoids(path, skip) && i < |path|
    requires path[0] in v.marked || RootPointsTo(h, v.mem, path[0])
    ensures path[i] in v.marked
  {
    if i > 0 {
      NearPathIsMarked(h, v, skip, path, i - 1);
      var o, p := path[i - 1], path[i];
      assert PointsTo(h, v.mem, false, path[i - 1], path[i - 1 + 1]);
      var a :| a in h.Fields(o) && v.mem(a) in h.target && h.target[v.mem(a)] == p;
      NotLagging(h, v, skip, o, a);
      assert ObjOK(h, v, o);
    }
  }

  /** A field of one object is not a field of another. */
  lemma NotLagging(h: Heap, v: View, skip: set<ObjId>, o: ObjId, a: Addr)
    requires h.Valid() && o in h.home && o !in skip && skip <= h.home.Keys && a in h.Fields(o)
    requires v.lag == WordsOf(h, skip, v.lag)
    ensures a !in v.lag
  {
    if a in v.lag {
      assert InFields(h, skip, a);
      var q :| q in skip && a in h.Fields(q);
      OneOwner(h, o, q, a);
    }
  }

  lemma OneOwner(h: Heap, o: ObjId, q: ObjId, a: Addr)
    requires h.Valid() && o in h.home && q in h.home && a in h.Fields(o) && a in h.Fields(q)
    ensures o == q
  {
    FieldsInExtent(h, o);
    FieldsInExtent(h, q);
    assert a in h.Extent(o) && a in h.Extent(q);
  }

  lemma NearIsMarked(h: Heap, v: View, skip: set<ObjId>, start: set<ObjId>)
    requires h.Valid() && v.marked <= h.home.Keys && skip <= h.home.Keys && start <= v.marked
    requires AllOK(h, v) && RootsOK(h, v) && v.grey == {} && v.lag == WordsOf(h, skip, v.lag)
    ensures NearSet(h, v.mem, false, skip, start) <= v.marked
  {
    forall o | o in NearSet(h, v.mem, false, skip, start) ensures o in v.marked {
      var path :| IsPath(h, v.mem, false, path) && Avoids(path, skip) && path[|path| - 1] == o
                  && (path[0] in start || RootPointsTo(h, v.mem, path[0]));
      NearPathIsMarked(h, v, skip, path, |path| - 1);
    }
  }

  /** Marking that leaves out nothing but covered words is complete. */
  lemma CoveredIsComplete(h: Heap, v: View, skip: set<ObjId>, start: set<ObjId>)
    requires h.Valid() && v.marked <= h.home.Keys && skip <= h.home.Keys && start <= v.marked
    requires AllOK(h, v) && RootsOK(h, v) && v.grey == {} && v.lag == WordsOf(h, skip, v.lag)
    requires Covered(h, v.mem, false, skip, start, v.lag)
    ensures Complete(h, v.mem, v.marked)
  {
    NearIsMarked(h, v, skip, start);
    forall o, a | o in v.marked && a in h.Fields(o) ensures WordOK(h, v.mem, v.marked, a) {
      assert ObjOK(h, v, o);
      if a in v.lag {
        assert InFields(h, skip, a);
        var q :| q in skip && a in h.Fields(q);
      }
    }
    assert forall o :: o in v.marked ==> FieldsIn(h, v.mem, v.marked, o);
    ClosedIsComplete(h, v.mem, v.marked);
  }

  /** Conversely, if marking was complete and stayed within what it could reach, the words were covered. */
  lemma CompleteIsCovered(h: Heap, mem: Addr -> Word, marked: set<ObjId>, skip: set<ObjId>, start: set<ObjId>,
                          lag: set<Addr>)
    requires Complete(h, mem, marked) && skip <= marked <= NearSet(h, mem, true, skip, start)
    ensures Covered(h, mem, true, skip, start, lag)
  {
    CompleteIsClosed(h, mem, marked);
    forall o, a | o in skip && a in h.Fields(o) && mem(a) in h.target
      ensures h.target[mem(a)] in NearSet(h, mem, true, skip, start)
    {
      assert FieldsIn(h, mem, marked, o);
      assert WordOK(h, mem, marked, a);
    }
  }

  /** With no words left to remember, marking is complete. */
  lemma NothingLagging(h: Heap, v: View)
    requires h.Valid() && v.marked <= h.home.Keys
    requires AllOK(h, v) && RootsOK(h, v) && v.grey == {} && v.lag == {}
    ensures Complete(h, v.mem, v.marked)
  {
    CoveredIsComplete(h, v, {}, v.marked);
  }

  lemma OnlyWordsOf(h: Heap, skip: set<ObjId>, lag: set<Addr>, lag': set<Addr>)
    requires lag' <= WordsOf(h, skip, lag)
    ensures lag' == WordsOf(h, skip, lag') && lag' <= lag
  {
  }

  /** Forgetting words of visited objects changes nothing about coverage. */
  lemma CoveredWords(h: Heap, mem: Addr -> Word, skip: set<ObjId>, start: set<ObjId>, lag: set<Addr>, lag': set<Addr>)
    requires Covered(h, mem, false, skip, start, lag) && lag' <= lag
    ensures Covered(h, mem, false, skip, start, lag')
  {
  }

  /** What is closed, apart from `skip`, holds all that can be reached without looking into `skip`. */
  lemma NearInClosed(h: Heap, mem: Addr -> Word, skip: set<ObjId>, start: set<ObjId>, s: set<ObjId>)
    requires NearBound(h, mem, s, skip) && start <= s
    ensures NearSet(h, mem, true, skip, start) <= s
  {
    forall o | NearLive(h, mem, true, skip, start, o) ensures o in s {
      var path :| IsPath(h, mem, true, path) && Avoids(path, skip) && path[|path| - 1] == o
                  && (path[0] in start || RootPointsTo(h, mem, path[0]));
      PathInClosed(h, mem, skip, s, path, |path| - 1);
    }
  }

  lemma {:induction false} PathInClosed(h: Heap, mem: Addr -> Word, skip: set<ObjId>, s: set<ObjId>, path: seq<ObjId>,
                                        i: nat)
    requires NearBound(h, mem, s, skip) && IsPath(h, mem, true, path) && Avoids(path, skip) && i < |path|
    requires path[0] in s || RootPointsTo(h, mem, path[0])
    ensures path[i] in s
  {
    if i > 0 {
      PathInClosed(h, mem, skip, s, path, i - 1);
      assert path[i - 1] !in skip;
      assert PointsTo(h, mem, true, path[i - 1], path[i - 1 + 1]);
      var a :| a in h.Words(path[i - 1]) && mem(a) in h.target && h.target[mem(a)] == path[i];
      assert WordOK(h, mem, s, a);
    }
  }

  /** With nothing to skip, this is all that is reachable. */
  lemma NearIsLive(h: Heap, mem: Addr -> Word, start: set<ObjId>)
    ensures LiveSet(h, mem, true, start) <= NearSet(h, mem, true, {}, start)
  {
    forall o | Live(h, mem, true, start, o) ensures NearLive(h, mem, true, {}, start, o) {
      var path :| IsPath(h, mem, true, path) && path[|path| - 1] == o
                  && (path[0] in start || RootPointsTo(h, mem, path[0]));
      assert Avoids(path, {});
    }
  }

  /** Where descriptors name all words of their objects, both notions of reach agree. */
  lemma NoGap(h: Heap, mem: Addr -> Word, skip: set<ObjId>, start: set<ObjId>, lag: set<Addr>)
    requires forall o :: h.Words(o) == h.Fields(o)
    ensures NearSet(h, mem, true, skip, start) == NearSet(h, mem, false, skip, start)
    ensures Covered(h, mem, true, skip, start, lag) <==> Covered(h, mem, false, skip, start, lag)
  {
    forall o, p ensures PointsTo(h, mem, true, o, p) <==> PointsTo(h, mem, false, o, p) {
    }
    forall path ensures IsPath(h, mem, true, path) <==> IsPath(h, mem, false, path) {
      SamePaths(h, mem, path);
    }
    forall o ensures NearLive(h, mem, true, skip, start, o) <==> NearLive(h, mem, false, skip, start, o) {
      if path :| IsPath(h, mem, true, path) && Avoids(path, skip) && path[|path| - 1] == o
                 && (path[0] in start || RootPointsTo(h, mem, path[0])) {
        assert IsPath(h, mem, false, path);
      }
      if path :| IsPath(h, mem, false, path) && Avoids(path, skip) && path[|path| - 1] == o
                 && (path[0] in start || RootPointsTo(h, mem, path[0])) {
        assert IsPath(h, mem, true, path);
      }
    }
  }

  lemma SamePaths(h: Heap, mem: Addr -> Word, path: seq<ObjId>)
    requires forall o, p :: PointsTo(h, mem, true, o, p) <==> PointsTo(h, mem, false, o, p)
    ensures IsPath(h, mem, true, path) <==> IsPath(h, mem, false, path)
  {
    hide PointsTo;
  }
}
