/**
 The driver of collections: marking with the world stopped, falling back to incremental marking when it takes
 too long, and full collections.
 */
module Collector {
  import opened MarkHeap
  import opened Partial
  import M = Marker

  /** What a collection found when it stopped the world for the last time: the objects marked, the pages reported
      dirty, and the words stored into and not reported.  `full` says that it had cleared the mark bits before. */
  datatype Found = Found(marked: set<ObjId>, dirty: set<int>, unflushed: set<Addr>, full: bool) {
    /** The marked objects that it was not to look into. */
    ghost function Unvisited(h: Heap): set<ObjId> {
      if full then {} else Clean(h, marked, dirty)
    }
  }

  class Collector {
    const m: M.Marker
    /** Calls of GC_mark_some per unit of incremental work. */
    const rate: nat
    /** How often marking with the world stopped may be given up before it has to be finished. */
    const maxPriorAttempts: nat

    var attempts: nat
    var deficit: nat
    var gcNo: nat
    var isFullGc: bool

    constructor (m: M.Marker, rate: nat, maxPriorAttempts: nat)
      requires m.Ready() && !m.stopped && m.state == MS_NONE && rate > 0
      ensures Usable() && this.m == m && this.rate == rate && this.maxPriorAttempts == maxPriorAttempts
      ensures attempts == deficit == gcNo == 0 && !isFullGc
    {
      this.m, this.rate, this.maxPriorAttempts := m, rate, maxPriorAttempts;
      attempts, deficit, gcNo, isFullGc := 0, 0, 0, false;
    }

    ghost predicate Usable()
      reads this, m
    {
      && m.Ready()
      && !m.stopped
      && rate > 0
      && (!m.incremental ==> m.state == MS_NONE || m.state == MS_INVALID)
    }

    /** The marked objects that a partial collection, started now, would not look into. */
    ghost function Unvisited(): set<ObjId>
      reads m`marked, m`dirty
    {
      Clean(m.h, m.marked, m.dirty)
    }

    /** What it can reach; `wide` says whether words outside the descriptors count too. */
    ghost function WithinReach(wide: bool): set<ObjId>
      reads m`mem, m`marked, m`dirty
    {
      NearSet(m.h, m.mem, wide, Unvisited(), m.marked)
    }

    /** What stores not reported yet put into such objects can be reached otherwise. */
    ghost predicate StoresCovered(wide: bool)
      reads m`mem, m`marked, m`dirty, m`unflushed
    {
      Covered(m.h, m.mem, wide, Unvisited(), m.marked, m.unflushed)
    }

    /** What the collection that found f has achieved: it stayed within reach, it marked all that can be reached without
        looking into unvisited objects, and it is complete if and only if the
        stores not reported were covered or the mark stack overflowed. */
    ghost predicate Achieved(f: Found)
      reads m`mem, m`marked, m`lost
    {
      var skip := f.Unvisited(m.h);
      && f.marked <= m.marked <= LiveSet(m.h, m.mem, true, f.marked)
      && (!m.lost ==> m.marked <= NearSet(m.h, m.mem, true, skip, f.marked))
      && NearSet(m.h, m.mem, false, skip, f.marked) <= m.marked
      && (m.lost || Covered(m.h, m.mem, false, skip, f.marked, f.unflushed) ==> Complete(m.h, m.mem, m.marked))
      && (!m.lost && Complete(m.h, m.mem, m.marked) ==> Covered(m.h, m.mem, true, skip, f.marked, f.unflushed))
    }

    /** What f says about the stores since there was mem0 in memory, with the words in lag0 to be remembered and the
        pages in dirty0 dirty: each word stored into since, or remembered then, is found unreported or lies in a
        dirty block. */
    ghost predicate Traced(f: Found, mem0: Addr -> Word, lag0: set<Addr>, dirty0: set<int>)
      reads m`mem
    {
      && dirty0 <= f.dirty
      && forall o, a :: o in m.h.home && m.h.Owned(o) && a in m.h.Extent(o) && (a in lag0 || m.mem(a) != mem0(a)) ==>
           a in f.unflushed || BlockIn(f.dirty, m.h.blocks[m.h.home[o]])
    }

    /** Marking with the world running has remembered all stores. */
    lemma AllTraced(v: View)
      requires m.Ready() && Remembered(v, m.V({}))
      ensures Traced(Finding(false), v.mem, v.lag, v.dirty)
    {
      var w := m.V({});
      assert m.DirtyInv();
      forall o, a | o in m.h.home && m.h.Owned(o) && a in m.h.Extent(o) && (a in v.lag || m.mem(a) != v.mem(a))
        ensures a in m.unflushed || BlockIn(m.dirty, m.h.blocks[m.h.home[o]])
      {
        assert a in w.lag;
        assert a in m.written || a in m.unflushed;
      }
    }

    ghost function Finding(full: bool): Found
      reads m`marked, m`dirty, m`unflushed
    {
      Found(m.marked, m.dirty, m.unflushed, full)
    }

    /** GC_stopped_mark: stop the world and mark from all roots.  Unless neverStop is set this may be given up at
        any point, and then fails.  If it succeeds, everything marked can be reached, and everything reachable is
        marked, after a full collection, and after a partial one if and only if stores not reported yet were covered
        or the mark stack overflowed, which makes it look at everything again. */
    method StoppedMark(neverStop: bool) returns (ok: bool)
      requires Usable() && m.stack == []
      requires (m.state == MS_NONE && m.incremental) || (m.state == MS_INVALID && m.scan == 0)
      modifies m, `deficit, `gcNo
      ensures m.Ready() && !m.stopped
      ensures neverStop ==> ok
      ensures m.size >= old(m.size)
      ensures m.mem == old(m.mem) && old(m.marked) <= m.marked
      ensures ok ==> m.state == MS_NONE && m.objectsAreMarked && gcNo == old(gcNo) + 1
      ensures !ok ==> gcNo == old(gcNo) && m.state != MS_NONE
      ensures ok ==> m.marked <= LiveSet(m.h, m.mem, true, old(m.marked))
      ensures m.incremental ==> m.dirty <= StackPages(m.h, m.mem)
      ensures ok && m.incremental && !m.h.allInterior ==> m.dirty == StackPages(m.h, m.mem)
      ensures old(m.state) == MS_INVALID ==> m.Lag() == {}
      ensures ok && (old(m.state) == MS_INVALID || m.lost || old(StoresCovered(false))) ==>
                Complete(m.h, m.mem, m.marked)
      ensures ok && old(m.state) == MS_NONE && !m.lost ==> m.marked <= old(WithinReach(true))
      ensures ok && old(m.state) == MS_NONE ==> old(WithinReach(false)) <= m.marked
      ensures ok && old(m.state) == MS_NONE && !m.lost && Complete(m.h, m.mem, m.marked) ==> old(StoresCovered(true))
      ensures ok && old(m.state) == MS_NONE && m.lost ==> !(old(WithinReach(true)) <= old(m.marked))
      ensures ok && old(m.Held()) ==> Complete(m.h, m.mem, m.marked)
    {
      hide M.Marker.Ready, M.Marker.Lag, LiveSet, Complete, Covered, NearSet, Clean, StackPages, M.Marker.JustStopped,
           M.Marker.Held;
      IfHeld();
      m.StopWorld();
      ok := MarkFromRoots(neverStop);
      if ok {
        gcNo := gcNo + 1;
      }
      m.StartWorld();
    }

    lemma IfHeld()
      requires m.Ready()
      ensures m.Held() ==> StoresCovered(false)
    {
      if m.Held() {
        m.ValidHeap();
        HeldIsCovered(m.h, m.mem, Unvisited(), m.marked, m.unflushed);
      }
    }

    /** The part of GC_stopped_mark that runs with the world stopped. */
    method MarkFromRoots(neverStop: bool) returns (ok: bool)
      requires m.Ready() && m.JustStopped() && (m.state == MS_INVALID || (m.state == MS_NONE && m.incremental))
      modifies m`dirty, m`grungy, m`written, m`unflushed, m`near, m`skip, m`mem
      modifies m`marked, m`stack, m`state, m`tooSmall, m`lost, m`objectsAreMarked, m`scan, m`size
      modifies `deficit
      ensures m.Ready()
      ensures neverStop ==> ok
      ensures m.size >= old(m.size)
      ensures m.mem == old(m.mem) && old(m.marked) <= m.marked
      ensures m.incremental ==> m.dirty <= StackPages(m.h, m.mem)
      ensures ok && m.incremental && !m.h.allInterior ==> m.dirty == StackPages(m.h, m.mem)
      ensures old(m.state) == MS_INVALID ==> m.Lag() == {}
      ensures ok ==> m.state == MS_NONE && m.objectsAreMarked && m.marked <= LiveSet(m.h, m.mem, true, old(m.marked))
      ensures !ok ==> m.state != MS_NONE
      ensures ok && (old(m.state) == MS_INVALID || m.lost || old(StoresCovered(false))) ==>
                Complete(m.h, m.mem, m.marked)
      ensures ok && old(m.state) == MS_NONE && !m.lost ==> m.marked <= old(WithinReach(true))
      ensures ok && old(m.state) == MS_NONE ==> old(WithinReach(false)) <= m.marked
      ensures ok && old(m.state) == MS_NONE && !m.lost && Complete(m.h, m.mem, m.marked) ==> old(StoresCovered(true))
      ensures ok && old(m.state) == MS_NONE && m.lost ==> !(old(WithinReach(true)) <= old(m.marked))
    {
      hide M.Marker.Ready, M.Marker.Lag, LiveSet, Complete, Covered, NearSet, Clean, StackPages, WordsOf, AllOK,
           RootsOK, M.Marker.V;
      ghost var state0, lag0, skip, start := m.state, m.unflushed, Unvisited(), m.marked;
      CleanIsMarked(m.h, m.marked, m.dirty);
      m.InitiateGc();
      ok := MarkUntilDone(neverStop);
      if ok {
        Conclude(state0, start, skip, lag0);
      }
    }

    /** What a finished collection with the world stopped has achieved. */
    lemma Conclude(state0: MarkState, start: set<ObjId>, skip: set<ObjId>, lag0: set<Addr>)
      requires m.Ready() && m.stopped && m.state == MS_NONE && AllOK(m.h, m.V({})) && RootsOK(m.h, m.V({}))
      requires m.start == start && !m.spilt
      requires state0 == MS_NONE || state0 == MS_INVALID
      requires state0 == MS_INVALID ==> m.Lag() == {}
      requires state0 == MS_NONE ==> m.skip == skip && m.near == NearSet(m.h, m.mem, true, skip, start)
      requires state0 == MS_NONE ==> skip <= start && m.Lag() <= WordsOf(m.h, skip, lag0)
      ensures m.marked <= m.bound
      ensures state0 == MS_INVALID || m.lost ==> Complete(m.h, m.mem, m.marked)
      ensures state0 == MS_NONE && Covered(m.h, m.mem, false, skip, start, lag0) ==> Complete(m.h, m.mem, m.marked)
      ensures state0 == MS_NONE && !m.lost ==> m.marked <= NearSet(m.h, m.mem, true, skip, start)
      ensures state0 == MS_NONE ==> NearSet(m.h, m.mem, false, skip, start) <= m.marked
      ensures state0 == MS_NONE && !m.lost && Complete(m.h, m.mem, m.marked) ==>
                Covered(m.h, m.mem, true, skip, start, lag0)
      ensures state0 == MS_NONE && m.lost ==> !(NearSet(m.h, m.mem, true, skip, start) <= start)
    {
      hide M.Marker.Ready, M.Marker.Lag, Complete, Covered, NearSet, AllOK, RootsOK, WordsOf;
      m.AtRest();
      var v := m.V({});
      if state0 == MS_INVALID || m.lost {
        NothingLagging(m.h, v);
      }
      if state0 == MS_NONE {
        OnlyWordsOf(m.h, skip, lag0, v.lag);
        NearIsMarked(m.h, v, skip, start);
        if Covered(m.h, m.mem, false, skip, start, lag0) {
          CoveredWords(m.h, m.mem, skip, start, lag0, v.lag);
          CoveredIsComplete(m.h, v, skip, start);
        }
        if !m.lost && Complete(m.h, m.mem, m.marked) {
          CompleteIsCovered(m.h, m.mem, m.marked, skip, start, lag0);
        }
      }
    }

    /** The loop of GC_stopped_mark. */
    method MarkUntilDone(neverStop: bool) returns (ok: bool)
      requires m.Ready() && m.stopped && m.state != MS_NONE && m.state != MS_ROOTS_PUSHED
      modifies m`mem, m`dirty, m`written, m`unflushed
      modifies m`marked, m`stack, m`state, m`tooSmall, m`lost, m`objectsAreMarked, m`scan, m`size
      modifies `deficit
      ensures m.Ready()
      ensures neverStop ==> ok
      ensures m.size >= old(m.size)
      ensures m.mem == old(m.mem) && m.Lag() <= old(m.Lag()) && old(m.marked) <= m.marked
      ensures m.dirty <= old(m.dirty) + StackPages(m.h, m.mem) && (ok ==> m.StacksNoted())
      ensures ok ==> m.state == MS_NONE && m.objectsAreMarked && AllOK(m.h, m.V({})) && RootsOK(m.h, m.V({}))
      ensures !ok ==> m.state != MS_NONE
    {
      hide M.Marker.Ready, M.Marker.V, M.Marker.Lag, AllOK, RootsOK, TotalWeight, M.Marker.Rank, StackPages;
      var i := 0;
      while true
        invariant m.Ready() && m.stopped && m.state != MS_NONE
        invariant m.mem == old(m.mem) && m.Lag() <= old(m.Lag()) && old(m.marked) <= m.marked
        invariant m.dirty <= old(m.dirty) + StackPages(m.h, m.mem) && m.size >= old(m.size)
        invariant m.state == MS_ROOTS_PUSHED ==> m.StacksNoted()
        decreases m.h.home.Keys - m.marked, m.Rank(), m.BlocksLeft(), TotalWeight(m.stack)
      {
        var stop: bool := *;
        if stop && !neverStop {
          deficit := i;
          return false;
        }
        m.LeftOver();
        ghost var marked0 := m.marked;
        var memory: bool := *;
        ok := m.MarkSome(memory);
        if ok {
          return;
        }
        m.LeftOver();
        assert marked0 < m.marked ==> m.h.home.Keys - m.marked < m.h.home.Keys - marked0;
        i := i + 1;
      }
    }

    /** The part of GC_finish_collection that concerns the driver. */
    method FinishCollection()
      modifies `attempts, `isFullGc
      ensures attempts == 0 && !isFullGc
    {
      attempts, isFullGc := 0, false;
    }

    /** A collection is in progress: do n units of marking.  When marking comes to its end, the world is stopped for
        what was stored into meanwhile.  f is what it found then. */
    method MarkALittle(n: nat) returns (ghost finished: bool, ghost f: Found)
      requires Usable() && m.incremental && m.state != MS_NONE && n > 0
      modifies this, m
      ensures Usable()
      ensures gcNo == old(gcNo) + if finished then 1 else 0
      ensures m.size >= old(m.size)
      ensures finished ==> m.state == MS_NONE && m.objectsAreMarked && attempts == 0
      ensures finished ==> !f.full && old(m.marked) <= f.marked && Achieved(f)
      ensures finished ==> Traced(f, old(m.mem), old(m.Lag()), old(m.dirty))
      ensures !finished && attempts == old(attempts) ==> Remembered(old(m.V({})), m.V({}))
      ensures old(m.marked) <= m.marked
      ensures !finished ==> m.state != MS_NONE && Sooner(old(attempts), old(m.Now()), old(deficit))
    {
      hide M.Marker.Ready, M.Marker.V, AllOK, RootsOK, TotalWeight, M.Marker.Rank, Live, LiveSet, M.Marker.Held;
      hide Complete, Covered, NearSet, StackPages, Achieved, Remembered, Traced, M.Marker.Lag;
      ghost var v0 := m.V({});
      RememberedRefl(v0);
      m.Shown();
      var maxDeficit := rate * n;
      var i := deficit;
      finished, f := false, Finding(false);
      ghost var before := m.Now();
      while i < maxDeficit
        invariant Usable() && m.state != MS_NONE && attempts == old(attempts) && deficit == old(deficit) && !finished
        invariant gcNo == old(gcNo)
        invariant m.size >= old(m.size)
        invariant old(m.marked) <= m.marked && Remembered(v0, m.V({}))
        invariant i > deficit ==> m.Now().Closer(before)
        invariant i <= deficit ==> i == deficit && m.Now() == before
      {
        ghost var v := m.V({});
        var memory: bool := *;
        var done := m.MarkSome(memory);
        RememberedTrans(v0, v, m.V({}));
        if done {
          AllTraced(v0);
          finished, f := FinishStopped();
          break;
        }
        i := i + 1;
      }
      if deficit > 0 {
        deficit := if deficit > maxDeficit then deficit - maxDeficit else 0;
      }
    }

    /** Marking has come to its end: stop the world and mark once more.  This may be given up a few times. */
    method FinishStopped() returns (ghost finished: bool, ghost f: Found)
      requires Usable() && m.incremental && m.state == MS_NONE
      modifies this, m
      ensures Usable()
      ensures gcNo == old(gcNo) + if finished then 1 else 0
      ensures m.size >= old(m.size)
      ensures f == old(Finding(false)) && m.mem == old(m.mem) && old(m.marked) <= m.marked
      ensures finished ==> m.state == MS_NONE && m.objectsAreMarked && attempts == 0 && Achieved(f)
      ensures !finished ==> m.state != MS_NONE && attempts == old(attempts) + 1 <= maxPriorAttempts
    {
      hide M.Marker.V, AllOK, RootsOK, Complete, Covered, NearSet, StackPages, LiveSet, M.Marker.Held, Clean;
      m.Quiet();
      f := Finding(false);
      var limited: bool := *;
      var ok;
      if attempts < maxPriorAttempts && limited {
        ok := StoppedMark(false);
        if !ok {
          attempts := attempts + 1;
          return false, f;
        }
      } else {
        ok := StoppedMark(true);
      }
      FinishCollection();
      finished := true;
    }

    /** Incremental work brings the end of the collection nearer. */
    ghost predicate Sooner(attempts0: nat, before: M.Measure, deficit0: nat)
      reads this, m
    {
      || attempts0 < attempts <= maxPriorAttempts
      || (attempts == attempts0 && m.Now().Closer(before))
      || (attempts == attempts0 && m.Now() == before && deficit < deficit0)
    }

    /** The uncollectable objects that are marked; their mark bits are never cleared. */
    ghost function Pinned(): set<ObjId>
      reads m
    {
      set o | o in m.marked && m.h.Owned(o) && m.h.blocks[m.h.home[o]].uncollectable
    }

    /** GC_try_to_collect_inner: finish the collection in progress, if any, and then do a full one with the world
        stopped.  On success the marked objects are those reachable from the roots and from uncollectable objects. */
    method TryToCollect(neverStop: bool) returns (ok: bool)
      requires Usable()
      modifies this, m
      ensures Usable()
      ensures ok ==> gcNo == old(gcNo) + if m.incremental && old(m.state) != MS_NONE then 2 else 1
      ensures neverStop ==> ok
      ensures m.size >= old(m.size)
      ensures ok ==> m.state == MS_NONE && m.objectsAreMarked && attempts == 0 && !isFullGc
      ensures ok ==> Complete(m.h, m.mem, m.marked)
      ensures ok ==> m.marked <= LiveSet(m.h, m.mem, true, Pinned())
      ensures !m.incremental ==> m.mem == old(m.mem)
    {
      hide M.Marker.Ready, Complete, LiveSet, Achieved;
      var stop: bool := *;
      if stop && !neverStop {
        return false;
      }
      if m.incremental {
        ghost var f;
        ok, f := FinishInProgress(neverStop);
        if !ok {
          return;
        }
      }
      ok := CollectFully(neverStop);
    }

    /** The collection itself, with cleared mark bits and the world stopped. */
    method CollectFully(neverStop: bool) returns (ok: bool)
      requires Usable()
      modifies this, m
      ensures Usable()
      ensures gcNo == old(gcNo) + if ok then 1 else 0
      ensures neverStop ==> ok
      ensures m.size >= old(m.size) && m.mem == old(m.mem)
      ensures ok ==> m.state == MS_NONE && m.objectsAreMarked && attempts == 0 && !isFullGc
      ensures ok ==> Complete(m.h, m.mem, m.marked)
      ensures ok ==> m.marked <= LiveSet(m.h, m.mem, true, Pinned())
    {
      hide M.Marker.V, AllOK, RootsOK, TotalWeight, M.Marker.Rank, Live, LiveSet, M.Marker.Held, M.Marker.Flags,
           NearSet;
      hide Complete, Covered, Clean, StackPages;
      m.InvalidateMarkState();
      m.ClearMarks();
      m.Cleared();
      isFullGc := true;
      ghost var pinned := m.marked;
      ok := StoppedMark(neverStop);
      if !ok {
        if !m.incremental {
          m.Abandon();
        }
        return;
      }
      FinishCollection();
      LiveSetGrows(m.h, m.mem, true, pinned, Pinned());
    }

    /** Finish the collection in progress by doing its incremental work now. */
    method FinishInProgress(neverStop: bool) returns (ok: bool, ghost f: Found)
      requires Usable() && m.incremental
      modifies this, m
      ensures Usable()
      ensures ok ==> gcNo == old(gcNo) + if old(m.state) != MS_NONE then 1 else 0
      ensures neverStop ==> ok
      ensures m.size >= old(m.size)
      ensures ok ==> m.state == MS_NONE
      ensures ok && old(m.state) != MS_NONE ==> !f.full && old(m.marked) <= f.marked && Achieved(f)
      ensures ok && old(m.state) != MS_NONE && old(attempts) >= maxPriorAttempts ==>
                Traced(f, old(m.mem), old(m.Lag()), old(m.dirty))
    {
      hide M.Marker.Ready, M.Marker.V, TotalWeight, M.Marker.Rank, Achieved, Remembered, Traced, M.Marker.Lag;
      ghost var v0, a0 := m.V({}), attempts;
      RememberedRefl(v0);
      m.Shown();
      f := Finding(false);
      ghost var finished := false;
      while m.state != MS_NONE
        invariant Usable() && (finished <==> m.state == MS_NONE && old(m.state) != MS_NONE) && m.size >= old(m.size)
        invariant gcNo == old(gcNo) + if finished then 1 else 0
        invariant old(m.marked) <= m.marked && (finished ==> !f.full && old(m.marked) <= f.marked && Achieved(f))
        invariant a0 >= maxPriorAttempts ==>
                    if finished then Traced(f, v0.mem, v0.lag, v0.dirty) else attempts == a0 && Remembered(v0, m.V({}))
        decreases m.state != MS_NONE, if attempts <= maxPriorAttempts then maxPriorAttempts - attempts else 0,
                  m.h.home.Keys - m.marked, m.Rank(), m.BlocksLeft(), TotalWeight(m.stack), deficit
      {
        var stop: bool := *;
        if stop && !neverStop {
          return false, f;
        }
        m.LeftOver();
        ghost var marked0 := m.marked;
        ghost var v := m.V({});
        m.Shown();
        finished, f := MarkALittle(1);
        if a0 >= maxPriorAttempts {
          if finished {
            TracedFromStart(f, v0, v);
          } else {
            RememberedTrans(v0, v, m.V({}));
          }
        }
        m.LeftOver();
        assert marked0 < m.marked ==> m.h.home.Keys - m.marked < m.h.home.Keys - marked0;
      }
      ok := true;
    }

    lemma TracedFromStart(f: Found, u: View, v: View)
      requires Remembered(u, v) && Traced(f, v.mem, v.lag, v.dirty)
      ensures Traced(f, u.mem, u.lag, u.dirty)
    {
    }

    /** GC_maybe_gc, once it has decided that a collection is due.  `full` says whether it is to be a full one; without
        incremental collection every collection is. */
    method MaybeGc(full: bool) returns (ghost done: bool, ghost f: Found)
      requires Usable() && (m.incremental ==> m.state == MS_NONE)
      modifies this, m
      ensures Usable()
      ensures done ==> gcNo == old(gcNo) + 1 && !isFullGc
      ensures !done ==> gcNo == old(gcNo) && isFullGc == (full || old(isFullGc))
      ensures done ==> m.state == MS_NONE && m.objectsAreMarked && attempts == 0 && Achieved(f)
      ensures f.full <==> full || !m.incremental
      ensures !f.full ==> f == old(Finding(false)) && m.mem == old(m.mem)
      ensures done && f.full ==> Complete(m.h, m.mem, m.marked) && UncollectableOnly(m.h, f.marked)
      ensures !done ==> m.incremental && m.state != MS_NONE && attempts == old(attempts) + if isFullGc then 0 else 1
    {
      hide M.Marker.V, AllOK, RootsOK, TotalWeight, M.Marker.Rank, Complete, LiveSet, M.Marker.Held, M.Marker.Flags,
           NearSet;
      hide StackPages, Covered, Clean;
      if !m.incremental {
        var ok := TryToCollect(true);
        f := Found(Pinned(), {}, {}, true);
        FullAchieved(f);
        return true, f;
      }
      m.Quiet();
      f := Finding(false);
      if full {
        m.ClearMarks();
        m.Cleared();
        isFullGc := true;
        f := Finding(true);
      }
      var unlimited: bool := *;
      var ok := StoppedMark(unlimited);
      done := ok;
      if ok {
        FinishCollection();
        if full {
          FullAchieved(f);
        }
      } else if !isFullGc {
        attempts := attempts + 1;
      }
    }

    /** A full collection leaves nothing out. */
    lemma FullAchieved(f: Found)
      requires f.full && f.marked <= m.marked <= LiveSet(m.h, m.mem, true, f.marked) && Complete(m.h, m.mem, m.marked)
      ensures Achieved(f)
    {
      NearIsLive(m.h, m.mem, f.marked);
    }

    /** GC_collect_a_little_inner: incremental work on the collection in progress, or else perhaps a new collection. */
    method CollectALittle(n: nat) returns (ghost finished: bool, ghost f: Found)
      requires Usable() && n > 0
      modifies this, m
      ensures Usable()
      ensures gcNo == old(gcNo) + if finished then 1 else 0
      ensures finished ==> m.state == MS_NONE && m.objectsAreMarked && attempts == 0 && Achieved(f)
      ensures finished && f.full ==> Complete(m.h, m.mem, m.marked) && UncollectableOnly(m.h, f.marked)
      ensures finished && m.incremental && old(m.state) != MS_NONE ==> !f.full && old(m.marked) <= f.marked
      ensures finished && m.incremental && old(m.state) != MS_NONE ==> Traced(f, old(m.mem), old(m.Lag()), old(m.dirty))
      ensures finished && m.incremental && old(m.state) == MS_NONE && !f.full ==>
                f == old(Finding(false)) && m.mem == old(m.mem)
      ensures !finished && m.incremental && old(m.state) != MS_NONE ==>
                m.state != MS_NONE && Sooner(old(attempts), old(m.Now()), old(deficit))
      ensures !m.incremental ==> f.full && (finished || m.state == old(m.state))
    {
      hide M.Marker.Ready, Complete, M.Marker.Held, Achieved, M.Marker.V;
      finished, f := false, Finding(!m.incremental);
      if m.incremental && m.state != MS_NONE {
        finished, f := MarkALittle(n);
      } else {
        var due: bool, full: bool := *, *;
        if due {
          finished, f := MaybeGc(full);
        }
      }
    }
  }
}
