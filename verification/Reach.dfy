/**
 Reachability from the objects that have finalizers.
 */
module Reach {
  import opened MarkHeap

  /** Everything a marked object points to is marked. */
  ghost predicate Closed(h: Heap, mem: Addr -> Word, marked: set<ObjId>) {
    forall o :: o in marked ==> FieldsIn(h, mem, marked, o)
  }

  ghost predicate FieldsIn(h: Heap, mem: Addr -> Word, marked: set<ObjId>, o: ObjId) {
    forall a :: a in h.Fields(o) ==> WordOK(h, mem, marked, a)
  }

  ghost predicate RootsIn(h: Heap, mem: Addr -> Word, marked: set<ObjId>) {
    && (forall a :: a in h.StaticWords() ==> WordOK(h, mem, marked, a))
    && (forall a :: a in h.StackWords() ==> StackWordOK(h, mem, marked, a))
  }

  lemma CompleteIsClosed(h: Heap, mem: Addr -> Word, marked: set<ObjId>)
    requires Complete(h, mem, marked)
    ensures Closed(h, mem, marked) && RootsIn(h, mem, marked)
  {
    forall o, a | o in marked && a in h.Fields(o) && mem(a) in h.target ensures h.target[mem(a)] in marked {
      StartIsLive(h, mem, false, marked, o);
      assert PointsTo(h, mem, false, o, h.target[mem(a)]);
      LiveStep(h, mem, false, marked, o, h.target[mem(a)]);
    }
    forall a | a in h.StaticWords() && mem(a) in h.target ensures h.target[mem(a)] in marked {
      StartIsLive(h, mem, false, marked, h.target[mem(a)]);
    }
    forall a | a in h.StackWords() && mem(a) in h.stackTarget ensures h.stackTarget[mem(a)] in marked {
      StartIsLive(h, mem, false, marked, h.stackTarget[mem(a)]);
    }
  }

  lemma InClosed(h: Heap, mem: Addr -> Word, marked: set<ObjId>, o: ObjId)
    requires Closed(h, mem, marked) && o in marked
    ensures FieldsIn(h, mem, marked, o)
  {
  }

  lemma NotLive(h: Heap, mem: Addr -> Word, marked: set<ObjId>, s: set<ObjId>)
    requires Complete(h, mem, marked) && s !! marked
    ensures forall x :: x in s ==> !Live(h, mem, false, {}, x)
  {
    forall x | x in s ensures !Live(h, mem, false, {}, x) {
      if Live(h, mem, false, {}, x) {
        LiveFromMore(h, mem, {}, marked, x);
      }
    }
  }

  lemma LiveFromMore(h: Heap, mem: Addr -> Word, s: set<ObjId>, t: set<ObjId>, x: ObjId)
    requires Live(h, mem, false, s, x) && s <= t
    ensures Live(h, mem, false, t, x)
  {
  }

  /** In a closed set, paths stay. */
  lemma {:induction false} PathStays(h: Heap, mem: Addr -> Word, marked: set<ObjId>, path: seq<ObjId>, i: nat)
    requires Closed(h, mem, marked) && IsPath(h, mem, false, path) && i < |path|
    requires path[0] in marked || (i > 0 && FieldsIn(h, mem, marked, path[0]))
    ensures path[i] in marked
  {
    if i == 1 {
      assert PointsTo(h, mem, false, path[0], path[0 + 1]);
    } else if i > 1 {
      PathStays(h, mem, marked, path, i - 1);
      assert PointsTo(h, mem, false, path[i - 1], path[i - 1 + 1]);
    }
  }

  lemma ClosedIsComplete(h: Heap, mem: Addr -> Word, marked: set<ObjId>)
    requires Closed(h, mem, marked) && RootsIn(h, mem, marked)
    ensures Complete(h, mem, marked)
  {
    forall o | Live(h, mem, false, marked, o) ensures o in marked {
      var path :| IsPath(h, mem, false, path) && path[|path| - 1] == o
                  && (path[0] in marked || RootPointsTo(h, mem, path[0]));
      PathStays(h, mem, marked, path, |path| - 1);
    }
  }

  /** p can be reached from o through one or more pointers. */
  ghost predicate Beyond(h: Heap, mem: Addr -> Word, o: ObjId, p: ObjId) {
    exists path :: IsPath(h, mem, false, path) && |path| > 1 && path[0] == o && path[|path| - 1] == p
  }

  /** Once what o points to is marked, so is everything beyond. */
  lemma BeyondIsMarked(h: Heap, mem: Addr -> Word, marked: set<ObjId>, o: ObjId, p: ObjId)
    requires Closed(h, mem, marked) && FieldsIn(h, mem, marked, o) && Beyond(h, mem, o, p)
    ensures p in marked
  {
    var path :| IsPath(h, mem, false, path) && |path| > 1 && path[0] == o && path[|path| - 1] == p;
    PathStays(h, mem, marked, path, |path| - 1);
  }

  /** What the words of objects in s, inside the descriptor or not, point to. */
  ghost function Targets(h: Heap, mem: Addr -> Word, s: set<ObjId>): set<ObjId> {
    set o, a | o in s && a in h.Words(o) && mem(a) in h.target :: h.target[mem(a)]
  }

  /** Starting from what is live already leads nowhere new. */
  lemma LiveOfLive(h: Heap, mem: Addr -> Word, s: set<ObjId>, t: set<ObjId>)
    requires h.Valid() && s <= LiveSet(h, mem, true, t)
    ensures LiveSet(h, mem, true, s) <= LiveSet(h, mem, true, t)
  {
    forall o | Live(h, mem, true, s, o) ensures Live(h, mem, true, t, o) {
      var path :| IsPath(h, mem, true, path) && path[|path| - 1] == o
                  && (path[0] in s || RootPointsTo(h, mem, path[0]));
      LiveAlong(h, mem, t, path, |path| - 1);
    }
  }

  lemma {:induction false} LiveAlong(h: Heap, mem: Addr -> Word, t: set<ObjId>, path: seq<ObjId>, i: nat)
    requires IsPath(h, mem, true, path) && i < |path|
    requires Live(h, mem, true, t, path[0]) || RootPointsTo(h, mem, path[0])
    ensures Live(h, mem, true, t, path[i])
  {
    if i == 0 {
      if RootPointsTo(h, mem, path[0]) {
        StartIsLive(h, mem, true, t, path[0]);
      }
    } else {
      LiveAlong(h, mem, t, path, i - 1);
      assert PointsTo(h, mem, true, path[i - 1], path[i - 1 + 1]);
      LiveStep(h, mem, true, t, path[i - 1], path[i]);
    }
  }

  lemma TargetsAreLive(h: Heap, mem: Addr -> Word, s: set<ObjId>, t: set<ObjId>)
    requires h.Valid() && s <= t <= h.home.Keys
    ensures Targets(h, mem, s) <= LiveSet(h, mem, true, t)
  {
    forall o, a | o in s && a in h.Words(o) && mem(a) in h.target ensures h.target[mem(a)] in LiveSet(h, mem, true, t) {
      var p := h.target[mem(a)];
      StartIsLive(h, mem, true, t, o);
      assert PointsTo(h, mem, true, o, p);
      LiveStep(h, mem, true, t, o, p);
      TargetsAreObjects(h, mem(a));
    }
  }

  /** Marking may be allowed more, with a fresh start. */
  lemma WiderBound(h: Heap, v: View, w: View, bound: set<ObjId>, bound': set<ObjId>)
    requires Safe(h, v, bound) && v.stopped && v.grey == {}
    requires v.marked <= bound' && ClosedBound(h, v.mem, bound')
    requires w == v.(lost := false, start := v.marked, near := bound', skip := {})
    ensures Safe(h, w, bound')
  {
    assert forall p :: ObjOK(h, v, p) ==> ObjOK(h, w, p);
  }

  lemma WordsLeadTo(h: Heap, mem: Addr -> Word, o: ObjId, s: set<ObjId>)
    requires h.Valid() && o in h.home && Targets(h, mem, {o}) <= s
    ensures forall a :: a in h.EntryOf(o).Positions() ==> WordOK(h, mem, s, a)
  {
    FieldsInWords(h, o);
    forall a | a in h.EntryOf(o).Positions() && mem(a) in h.target ensures h.target[mem(a)] in s {
      assert h.target[mem(a)] in Targets(h, mem, {o});
    }
  }

  lemma TargetsAreHere(h: Heap, mem: Addr -> Word, s: set<ObjId>)
    requires h.Valid()
    ensures Targets(h, mem, s) <= h.home.Keys
  {
    forall o, a | o in s && a in h.Words(o) && mem(a) in h.target ensures h.target[mem(a)] in h.home {
      TargetsAreObjects(h, mem(a));
    }
  }

  /** Where marking starts from when it is done for the objects u: from what they point to, and from those of them, in
      `over`, at which the mark stack overflowed. */
  ghost function Starts(h: Heap, mem: Addr -> Word, marked: set<ObjId>, u: set<ObjId>, over: set<ObjId>): set<ObjId> {
    marked + Targets(h, mem, u) + over
  }

  /** The bounds on marking from one object: without an overflow, and with one. */
  lemma StartsOfOne(h: Heap, mem: Addr -> Word, marked: set<ObjId>, o: ObjId)
    requires h.Valid() && marked <= h.home.Keys && o in h.home
    ensures var s, t := Starts(h, mem, marked, {o}, {}), marked + {o};
            && s == marked + Targets(h, mem, {o}) && s <= h.home.Keys && t <= h.home.Keys
            && LiveSet(h, mem, true, s) <= LiveSet(h, mem, true, t)
            && LiveSet(h, mem, true, t) <= LiveSet(h, mem, true, Starts(h, mem, marked, {o}, {o}))
  {
    var s, t := Starts(h, mem, marked, {o}, {}), marked + {o};
    TargetsAreHere(h, mem, {o});
    TargetsAreLive(h, mem, {o}, t);
    LiveSetClosed(h, mem, true, t);
    LiveOfLive(h, mem, s, t);
    LiveSetGrows(h, mem, true, t, Starts(h, mem, marked, {o}, {o}));
  }

  /** Is a mark stack of the given size large enough for all objects that are not marked? */
  ghost predicate RoomFor(h: Heap, marked: set<ObjId>, size: nat) {
    |h.home.Keys - marked| < size
  }

  lemma MoreRoom(h: Heap, marked: set<ObjId>, size: nat, marked': set<ObjId>, size': nat)
    requires RoomFor(h, marked, size) && marked <= marked' && size <= size'
    ensures RoomFor(h, marked', size')
  {
    Fewer(h.home.Keys - marked', h.home.Keys - marked);
  }

  lemma EnoughRoom(h: Heap, marked: set<ObjId>, size: nat, size': nat)
    requires size <= size'
    ensures |h.home.Keys| < size ==> RoomFor(h, marked, size')
  {
    Fewer(h.home.Keys - marked, h.home.Keys);
  }

  /** One more object of u was marked from. */
  lemma StartsStep(h: Heap, mem: Addr -> Word, marked: set<ObjId>, u: set<ObjId>, over: set<ObjId>, now: set<ObjId>,
                   k: ObjId, over1: set<ObjId>)
    requires h.Valid() && marked <= h.home.Keys && u <= h.home.Keys && k in u && over <= h.home.Keys && over1 <= {k}
    requires now <= LiveSet(h, mem, true, Starts(h, mem, marked, u, over))
    ensures var s, t := Starts(h, mem, now, {k}, over1), Starts(h, mem, marked, u, over + over1);
            LiveSet(h, mem, true, s) <= LiveSet(h, mem, true, t)
  {
    var s := Starts(h, mem, marked, u, over + over1);
    TargetsAreHere(h, mem, u);
    LiveSetGrows(h, mem, true, Starts(h, mem, marked, u, over), s);
    LiveSetClosed(h, mem, true, s);
    assert Targets(h, mem, {k}) <= Targets(h, mem, u);
    LiveOfLive(h, mem, Starts(h, mem, now, {k}, over1), s);
  }

  lemma FieldsInGrows(h: Heap, mem: Addr -> Word, marked: set<ObjId>, marked': set<ObjId>)
    requires marked <= marked'
    ensures forall o :: FieldsIn(h, mem, marked, o) ==> FieldsIn(h, mem, marked', o)
    ensures RootsIn(h, mem, marked) ==> RootsIn(h, mem, marked')
  {
  }

  /** An object all of whose targets are marked may be marked. */
  lemma MarkOneMore(h: Heap, v: View, w: View, o: ObjId, bound: set<ObjId>)
    requires Safe(h, v, bound) && FieldsIn(h, v.mem, v.marked, o)
    requires w == v.(marked := v.marked + {o}) && (v.stopped ==> o in Limit(v, bound))
    ensures Safe(h, w, bound)
  {
    forall p | ObjOK(h, v, p) || p == o ensures ObjOK(h, w, p) {
    }
  }

  lemma OneMoreInvalid(h: Heap, v: View, w: View, o: ObjId, bound: set<ObjId>)
    requires Safe(h, v, bound) && v.stopped && v.state == MS_INVALID && o in Limit(v, bound)
    requires w == v.(marked := v.marked + {o})
    ensures Safe(h, w, bound)
  {
  }

  lemma PushedOnEmpty(e: Entry, size: nat)
    requires INITIAL_MARK_STACK_SIZE <= size
    ensures |Pushed([], e, size)| <= 1 && !Overflows([], e, size)
  {
  }

  lemma Fewer(s: set<ObjId>, t: set<ObjId>)
    requires s <= t
    ensures |s| <= |t|
  {
    assert t == s + (t - s);
  }

  lemma BurdenOfOne(h: Heap, stack: seq<Entry>, marked: set<ObjId>)
    requires |stack| <= 1
    ensures Burden(h, stack, marked).Amount() <= 1 + |h.home.Keys - marked|
  {
  }

  /** Where marking is closed nothing has to be remembered. */
  lemma SafeIfClosed(h: Heap, v: View, bound: set<ObjId>)
    requires Closed(h, v.mem, v.marked) && !v.stopped
    ensures Safe(h, v, bound)
  {
    forall o | o in v.marked ensures ObjOK(h, v, o) {
      assert FieldsIn(h, v.mem, v.marked, o);
    }
  }

  ghost predicate NullIsNoPointer(h: Heap) {
    0 !in h.target && 0 !in h.stackTarget
  }
}
