/**
 What the mutator may do while finalization runs: it holds no lock, so it cannot get at hidden pointers, and all it
 has are the objects that can be reached.
 */
module Running {
  import opened MarkHeap
  import opened Reach
  import opened Partial

  /** Word a is one that the mutator may store into meanwhile, and lies in no object but those in `reach`. */
  predicate MayStore(h: Heap, reach: set<ObjId>, busy: Addr -> bool, a: Addr) {
    && busy(a)
    && forall o :: o in h.home && h.home[o] < |h.blocks| && o <= a < o + h.blocks[h.home[o]].sz ==> o in reach
  }

  /** Word w points to nothing but objects in `reach`. */
  predicate Harmless(h: Heap, reach: set<ObjId>, w: Word) {
    (w in h.target ==> h.target[w] in reach) && (w in h.stackTarget ==> h.stackTarget[w] in reach)
  }

  /** How mem became mem': the mutator stored pointers to objects in `reach`, and what is no pointer, into such
      objects and outside the heap, at words that are `busy`, and the given cells were cleared.  A cell that is busy may
      have been stored into afterwards; all other words are exactly as the clearing left them. */
  ghost predicate Touched(h: Heap, mem: Addr -> Word, mem': Addr -> Word, cells: set<Addr>, reach: set<ObjId>,
                          busy: Addr -> bool) {
    forall a :: if MayStore(h, reach, busy, a) then (mem'(a) == mem(a) && a !in cells) || Harmless(h, reach, mem'(a))
                else mem'(a) == if a in cells then 0 else mem(a)
  }

  lemma Untouched(h: Heap, mem: Addr -> Word, reach: set<ObjId>, busy: Addr -> bool)
    ensures Touched(h, mem, mem, {}, reach, busy)
  {
  }

  lemma TouchedMore(h: Heap, mem: Addr -> Word, mem1: Addr -> Word, mem2: Addr -> Word, c1: set<Addr>, c2: set<Addr>,
                    reach: set<ObjId>, busy: Addr -> bool)
    requires Touched(h, mem, mem1, c1, reach, busy) && Touched(h, mem1, mem2, c2, reach, busy)
    ensures Touched(h, mem, mem2, c1 + c2, reach, busy)
  {
    hide MayStore, Harmless;
  }

  lemma TouchedAgain(h: Heap, mem: Addr -> Word, mem1: Addr -> Word, mem2: Addr -> Word, cells: set<Addr>,
                     reach: set<ObjId>, busy: Addr -> bool)
    requires Touched(h, mem, mem1, cells, reach, busy) && Touched(h, mem1, mem2, {}, reach, busy)
    ensures Touched(h, mem, mem2, cells, reach, busy)
  {
    TouchedMore(h, mem, mem1, mem2, cells, {}, reach, busy);
    assert cells + {} == cells;
  }

  /** Setting a cell to null. */
  lemma CellTouched(h: Heap, mem: Addr -> Word, mem': Addr -> Word, c: Addr, reach: set<ObjId>, busy: Addr -> bool)
    requires NullIsNoPointer(h) && forall a :: mem'(a) == if a == c then 0 else mem(a)
    ensures Touched(h, mem, mem', {c}, reach, busy)
  {
    hide MayStore;
  }

  lemma StoreTouched(h: Heap, mem: Addr -> Word, mem': Addr -> Word, a: Addr, w: Word, reach: set<ObjId>,
                     busy: Addr -> bool)
    requires MayStore(h, reach, busy, a) && Harmless(h, reach, w) && forall x :: mem'(x) == if x == a then w else mem(x)
    ensures Touched(h, mem, mem', {}, reach, busy)
  {
    hide MayStore, Harmless;
  }

  /** What led into s, which holds `reach`, still does. */
  lemma TouchedWords(h: Heap, mem: Addr -> Word, mem': Addr -> Word, cells: set<Addr>, reach: set<ObjId>,
                     busy: Addr -> bool, s: set<ObjId>)
    requires NullIsNoPointer(h) && Touched(h, mem, mem', cells, reach, busy) && reach <= s
    ensures forall a :: WordOK(h, mem, s, a) ==> WordOK(h, mem', s, a)
    ensures forall a :: StackWordOK(h, mem, s, a) ==> StackWordOK(h, mem', s, a)
  {
    hide MayStore;
    forall a ensures mem'(a) == mem(a) || Harmless(h, reach, mem'(a)) {
    }
  }

  lemma TouchedKeepsIn(h: Heap, mem: Addr -> Word, mem': Addr -> Word, cells: set<Addr>, reach: set<ObjId>,
                       busy: Addr -> bool, s: set<ObjId>)
    requires NullIsNoPointer(h) && Touched(h, mem, mem', cells, reach, busy) && reach <= s
    ensures RootsIn(h, mem, s) ==> RootsIn(h, mem', s)
    ensures forall o :: FieldsIn(h, mem, s, o) ==> FieldsIn(h, mem', s, o)
    ensures Closed(h, mem, s) ==> Closed(h, mem', s)
  {
    TouchedWords(h, mem, mem', cells, reach, busy, s);
    hide WordOK, StackWordOK, Touched;
  }

  /** The marker's invariant does not mind. */
  lemma TouchedKeepsSafe(h: Heap, v: View, w: View, cells: set<Addr>, reach: set<ObjId>, busy: Addr -> bool,
                         bound: set<ObjId>)
    requires Safe(h, v, bound) && NullIsNoPointer(h) && v.stopped && reach <= v.marked
    requires w == v.(mem := w.mem) && Touched(h, v.mem, w.mem, cells, reach, busy)
    ensures Safe(h, w, bound)
  {
    TouchedWords(h, v.mem, w.mem, cells, reach, busy, v.marked);
    TouchedWords(h, v.mem, w.mem, cells, reach, busy, Limit(v, bound));
    TouchedWords(h, v.mem, w.mem, cells, reach, busy, bound);
    hide WordOK, StackWordOK, Touched;
    assert forall o :: ObjOK(h, v, o) ==> ObjOK(h, w, o);
  }

  /** Stores by the mutator bring nothing new within reach. */
  lemma LiveShrinks(h: Heap, mem: Addr -> Word, mem': Addr -> Word, reach: set<ObjId>, busy: Addr -> bool,
                    start: set<ObjId>)
    requires h.Valid() && NullIsNoPointer(h) && Touched(h, mem, mem', {}, reach, busy) && reach <= start <= h.home.Keys
    ensures LiveSet(h, mem', true, start) <= LiveSet(h, mem, true, start)
  {
    var bound := LiveSet(h, mem, true, start);
    LiveSetClosed(h, mem, true, start);
    TouchedWords(h, mem, mem', {}, reach, busy, bound);
    assert NearBound(h, mem', bound, {});
    NearInClosed(h, mem', {}, start, bound);
    NearIsLive(h, mem', start);
  }

  /** Objects out of reach are not touched. */
  lemma SameTargets(h: Heap, mem: Addr -> Word, mem': Addr -> Word, reach: set<ObjId>, busy: Addr -> bool, k: ObjId)
    requires h.Valid() && Touched(h, mem, mem', {}, reach, busy) && k in h.home && k !in reach
    ensures forall a :: a in h.Words(k) || a in h.Fields(k) ==> mem'(a) == mem(a)
    ensures Targets(h, mem', {k}) == Targets(h, mem, {k})
  {
    RangeMembers(k, k + h.blocks[h.home[k]].sz);
    FieldsInExtent(h, k);
    forall a | a in h.Words(k) || a in h.Fields(k) ensures mem'(a) == mem(a) {
      assert a in h.Extent(k);
      assert !MayStore(h, reach, busy, a);
    }
  }

  /** Marking from k, with what is marked now: stores by the mutator since mem make no difference. */
  lemma StartsBefore(h: Heap, mem: Addr -> Word, mem': Addr -> Word, reach: set<ObjId>, busy: Addr -> bool,
                     now: set<ObjId>, k: ObjId, over: set<ObjId>)
    requires h.Valid() && NullIsNoPointer(h) && Touched(h, mem, mem', {}, reach, busy) && reach <= now <= h.home.Keys
    requires k in h.home && k !in now && over <= {k}
    ensures var s', s := Starts(h, mem', now, {k}, over), Starts(h, mem, now, {k}, over);
            LiveSet(h, mem', true, s') <= LiveSet(h, mem, true, s)
  {
    SameTargets(h, mem, mem', reach, busy, k);
    TargetsAreHere(h, mem, {k});
    LiveShrinks(h, mem, mem', reach, busy, Starts(h, mem, now, {k}, over));
  }

  /** Looking back: what is closed now was closed before the mutator's stores. */
  lemma ClosedBefore(h: Heap, mem: Addr -> Word, mem': Addr -> Word, reach: set<ObjId>, busy: Addr -> bool,
                     s: set<ObjId>, o: ObjId)
    requires h.Valid() && Touched(h, mem, mem', {}, reach, busy) && Closed(h, mem, reach) && reach <= s
    requires o in h.home && FieldsIn(h, mem', s, o)
    ensures FieldsIn(h, mem, s, o)
  {
    if o in reach {
      assert FieldsIn(h, mem, reach, o);
    } else {
      SameTargets(h, mem, mem', reach, busy, o);
      forall a | a in h.Fields(o) ensures WordOK(h, mem, s, a) {
        assert WordOK(h, mem', s, a);
      }
    }
  }
}
