/**
 The marker: a bounded mark stack that may overflow at any push, the phases that rebuild the
 invariant after an overflow, and marking that runs interleaved with the mutator.
 */
module Marker {
  import opened Platform
  import opened MarkHeap

  /** Progress of marking: the objects marked, then the phase, then the blocks left, then the words on the stack. */
  datatype Measure = Measure(marked: set<ObjId>, rank: nat, left: int, weight: nat) {
    /** Either a new object was marked since `before`, or the phase moved on, or a block was passed, or there is
        less left on the stack. */
    ghost predicate Closer(before: Measure) {
      || before.marked < marked
      || (before.marked == marked && rank < before.rank)
      || (before.marked == marked && rank == before.rank && left < before.left)
      || (before.marked == marked && rank == before.rank && left == before.left && weight < before.weight)
    }
  }

  class Marker {
    const h: Heap
    /** Is incremental collection enabled? */
    const incremental: bool

    var mem: Addr -> Word
    var marked: set<ObjId>
    var stack: seq<Entry>      // the top of the mark stack is its last element
    var size: nat              // capacity of the mark stack
    var state: MarkState
    var scan: nat              // scan_ptr: the number of the next block to scan; 0 also stands for null
    var objectsAreMarked: bool
    var tooSmall: bool
    var dirty: set<int>
    var grungy: set<int>
    var stopped: bool          // is the world stopped?

    ghost var written: set<Addr>    // words stored into and then reported dirty
    ghost var unflushed: set<Addr>  // words stored into and not yet reported dirty
    ghost var bound: set<ObjId>     // with the world stopped, all that marking may reach
    ghost var lost: bool            // has the mark stack overflowed since the world was stopped?
    ghost var start: set<ObjId>     // the objects that were marked then
    ghost var near: set<ObjId>      // what marking may reach without an overflow
    ghost var skip: set<ObjId>      // marked objects that are then not looked into
    ghost var spilt: bool           // has it overflowed in marking in parallel, without a new object being marked?

    /** Nothing is marked, and no collection is in progress. */
    constructor (h: Heap, incremental: bool, mem: Addr -> Word)
      requires h.Valid()
      ensures Ready() && state == MS_NONE && marked == {} && !stopped
      ensures this.h == h && this.incremental == incremental && this.mem == mem
    {
      this.h, this.incremental, this.mem := h, incremental, mem;
      marked, stack, size := {}, [], INITIAL_MARK_STACK_SIZE;
      state, scan, objectsAreMarked, tooSmall := MS_NONE, 0, false, false;
      dirty, grungy, stopped := {}, {}, false;
      written, unflushed, bound := {}, {}, {};
      lost, start, near, skip, spilt := false, {}, {}, {}, false;
    }

    ghost function Lag(): set<Addr>
      reads this`written, this`unflushed
    {
      written + unflushed
    }

    /** The state as the invariant sees it; `extra` holds words taken off the stack but not scanned yet. */
    ghost function V(extra: set<Addr>): View
      reads this`mem, this`marked, this`stack, this`written, this`unflushed, this`state, this`scan, this`grungy
      reads this`stopped
      reads this`dirty, this`lost, this`start, this`near, this`skip, this`spilt
    {
      View(mem, marked, Pending(stack) + extra, Lag(), state, scan, dirty, grungy, stopped, lost, start, near, skip,
           spilt)
    }

    /** How far marking may spread at present. */
    ghost function Scope(): set<ObjId>
      reads this`lost, this`near, this`bound
    {
      if lost then bound else near
    }

    /** Stores that were reported are in the dirty table. */
    ghost predicate DirtyInv()
      reads this`dirty, this`written
    {
      DirtyOK(h, dirty, written)
    }

    ghost predicate Shape()
      reads this`marked, this`stack, this`size, this`scan, this`dirty, this`written
    {
      && h.Valid()
      && marked <= h.home.Keys
      && |stack| <= size
      && INITIAL_MARK_STACK_SIZE <= size
      && scan <= |h.blocks|
      && DirtyInv()
    }

    ghost predicate Inv(extra: set<Addr>)
      reads this`mem, this`marked, this`stack, this`written, this`unflushed, this`state, this`scan, this`grungy
      reads this`size, this`dirty, this`stopped, this`bound, this`lost, this`start, this`near, this`skip, this`spilt
      ensures Inv(extra) ==> marked <= h.home.Keys && (stopped ==> marked <= bound)
    {
      && Shape()
      && Safe(h, V(extra), bound)
    }

    ghost function Load(): Burden
      reads this`stack, this`marked
    {
      Burden(h, stack, marked)
    }

    // ---------- The mutator ----------

    /** Whatever the mutator does before the marker takes its next step: any number of stores of
        any values anywhere, each followed, sooner or later, by a report that the object is dirty. */
    method Mutator(ghost extra: set<Addr>)
      requires Inv(extra)
      modifies this`mem, this`dirty, this`written, this`unflushed
      ensures Inv(extra)
      ensures stopped ==> mem == old(mem) && dirty == old(dirty) && Lag() == old(Lag()) && unflushed == old(unflushed)
      ensures old(Lag()) <= Lag()
      ensures forall a :: mem(a) == old(mem)(a) || a in Lag()
      ensures Steady(h, old(V(extra)), V(extra))
    {
      hide Inv, V, Steady, Lag;
      ghost var u := V(extra);
      SteadyRefl(h, u);
      if stopped {
        return;
      }
      var steps: nat := *;
      while steps > 0
        invariant Inv(extra) && Steady(h, u, V(extra))
        invariant old(Lag()) <= Lag()
        invariant forall a :: mem(a) == old(mem)(a) || a in Lag()
      {
        ghost var v := V(extra);
        MutatorStep(extra);
        SteadyTrans(h, u, v, V(extra));
        steps := steps - 1;
      }
    }

    /** The mutator stores something somewhere, or reports an object. */
    method MutatorStep(ghost extra: set<Addr>)
      requires Inv(extra) && !stopped
      modifies this`mem, this`dirty, this`written, this`unflushed
      ensures Inv(extra) && Steady(h, old(V(extra)), V(extra))
      ensures old(Lag()) <= Lag()
      ensures forall a :: mem(a) == old(mem)(a) || a in Lag()
    {
      hide Tri, Within, RootsOK, ObjOK, Heap.Valid, DirtyOK, Pending;
      ghost var v := V(extra);
      var report: bool := *;
      if report {
        var p: Addr := *;
        Dirty(p);
      } else {
        var a: Addr, w: Word := *, *;
        Store(a, w);
      }
      StoresKeep(h, v, V(extra));
    }

    /** The mutator stores w at a, and does nothing else. */
    method MutatorStore(a: Addr, w: Word)
      requires Ready() && !stopped
      modifies this`mem, this`unflushed
      ensures Ready()
      ensures mem(a) == w && forall x :: x != a ==> mem(x) == old(mem)(x)
      ensures unflushed == old(unflushed) + {a}
    {
      hide Tri, Within, RootsOK, ObjOK, Heap.Valid, DirtyOK, Pending, UncollectableOnly;
      ghost var v := V({});
      Store(a, w);
      StoresKeep(h, v, V({}));
    }

    /** One store; it has yet to be reported. */
    method Store(a: Addr, w: Word)
      modifies this`mem, this`unflushed
      ensures mem(a) == w && forall x :: x != a ==> mem(x) == old(mem)(x)
      ensures unflushed == old(unflushed) + {a}
    {
      var m := mem;
      mem := x => if x == a then w else m(x);
      unflushed := unflushed + {a};
    }

    /** GC_dirty(p): the page of p becomes dirty, and with it the object that p lies in. */
    method Dirty(p: Addr)
      requires h.Valid() && DirtyInv()
      modifies this`dirty, this`written, this`unflushed
      ensures dirty == old(dirty) + {PhtHash(PageOf(p))} && unflushed <= old(unflushed)
      ensures Lag() == old(Lag())
      ensures DirtyInv()
      ensures forall o, a :: o in h.home && h.Owned(o) && p in h.Extent(o) && a in h.Extent(o) ==> a !in unflushed
    {
      ghost var flushed := set a | a in unflushed && SameObject(p, a);
      Reported(p, flushed);
      dirty := dirty + {PhtHash(PageOf(p))};
      written, unflushed := written + flushed, unflushed - flushed;
    }

    /** p and a lie in the same object. */
    ghost predicate SameObject(p: Addr, a: Addr) {
      exists o :: o in h.home && h.Owned(o) && p in h.Extent(o) && a in h.Extent(o)
    }

    /** With the page of p dirty, all words of the object of p are covered. */
    lemma Reported(p: Addr, flushed: set<Addr>)
      requires h.Valid() && DirtyInv() && forall a :: a in flushed ==> SameObject(p, a)
      ensures forall o, a :: o in h.home && h.Owned(o) && a in h.Extent(o) && a in written + flushed ==>
                BlockIn(dirty + {PhtHash(PageOf(p))}, h.blocks[h.home[o]])
    {
      forall o, a | o in h.home && h.Owned(o) && a in h.Extent(o) && a in written + flushed
        ensures BlockIn(dirty + {PhtHash(PageOf(p))}, h.blocks[h.home[o]])
      {
        if a in flushed {
          var q :| q in h.home && h.Owned(q) && p in h.Extent(q) && a in h.Extent(q);
          assert q == o && h.blocks[h.home[o]].HasPage(PageOf(p));
        }
      }
    }

    // ---------- Pushing ----------

    /** GC_push_obj: put the object's descriptor on the stack.  On overflow the invariant is given up. */
    method PushObj(o: ObjId)
      requires h.Owned(o) && |stack| <= size && INITIAL_MARK_STACK_SIZE <= size
      modifies this`stack, this`state, this`tooSmall, this`lost
      ensures stack == Pushed(old(stack), h.EntryOf(o), size)
      ensures var over := Overflows(old(stack), h.EntryOf(o), size);
              && state == (if over then MS_INVALID else old(state))
              && tooSmall == (over || old(tooSmall)) && lost == (over || old(lost))
    {
      var e := h.EntryOf(o);
      if e.descr != Length(0) {
        if |stack| >= size {
          state, tooSmall, lost := MS_INVALID, true, true;
          stack := stack[..size - GC_MARK_STACK_DISCARDS];
        }
        stack := stack + [e];
      }
    }

    lemma OwnedObject(o: ObjId)
      requires h.Valid() && o in h.home
      ensures h.Owned(o)
    {
    }

    lemma ValidNow(extra: set<Addr>)
      requires Inv(extra)
      ensures h.Valid() && DirtyInv()
      ensures forall v :: v in h.stackTarget ==> h.stackTarget[v] in h.home && Plausible(v)
    {
    }

    /** Objects that are not looked into are marked. */
    lemma NotSkipped(o: ObjId, extra: set<Addr>)
      requires Inv(extra) && stopped && !lost ==> o !in marked
      ensures Inv(extra) && stopped && !lost ==> o !in skip
    {
    }

    /** Marked objects are within reach, also of later steps. */
    lemma InScope(extra: set<Addr>)
      requires Inv(extra) && stopped
      ensures marked <= Scope() && near <= bound
      ensures !lost && marked != start ==> Fresh(V(extra))
    {
      if !lost && marked != start {
        assert marked * near == marked;
        assert marked <= start && start <= marked ==> marked == start;
      }
    }

    /** Set the mark bit of o and push its contents, unless it is already set. */
    method MarkAndPush(o: ObjId, ghost extra: set<Addr>)
      requires Inv(extra) && o in h.home
      requires stopped ==> o in Scope()
      modifies this`marked, this`stack, this`state, this`tooSmall, this`lost
      ensures Inv(extra)
      ensures marked == old(marked) + {o} && (old(lost) ==> lost)
      ensures Eased(old(Load()), old(lost), Load(), lost, size)
      ensures o in old(marked) ==> stack == old(stack) && state == old(state)
      ensures state == old(state) || state == MS_INVALID
      ensures state != MS_INVALID ==> Pending(old(stack)) <= Pending(stack)
      ensures Steady(h, old(V(extra)), V(extra))
    {
      hide Inv, V, Steady, Pending, Load, Eased;
      EasedRefl(Load(), lost, size);
      if o in marked {
        SteadyRefl(h, V(extra));
        assert marked + {o} == marked;
      } else {
        MarkNew(o, extra);
      }
    }

    method MarkNew(o: ObjId, ghost extra: set<Addr>)
      requires Inv(extra) && o in h.home && o !in marked
      requires stopped ==> o in Scope()
      modifies this`marked, this`stack, this`state, this`tooSmall, this`lost
      ensures Inv(extra)
      ensures marked == old(marked) + {o} && (old(lost) ==> lost)
      ensures Eased(old(Load()), old(lost), Load(), lost, size)
      ensures state == old(state) || state == MS_INVALID
      ensures state != MS_INVALID ==> Pending(old(stack)) <= Pending(stack)
      ensures Steady(h, old(V(extra)), V(extra))
    {
      hide Safe, Heap.Valid, Steady, ObjOK, Pending, DirtyOK, Eased, Pushed;
      ghost var v, s := V(extra), stack;
      OwnedObject(o);
      NotSkipped(o, extra);
      EasedNew(h, stack, marked, o, size, lost);
      marked := marked + {o};
      PushObj(o);
      PendingPushed(s, h.EntryOf(o), size);
      MarkAndPushKeeps(h, v, V(extra), o, bound);
    }

    predicate Plausible(v: Word) {
      h.least <= v < h.greatest
    }

    /** PUSH_CONTENTS: mark and push what a word found in the heap or in static data points to. */
    method PushContents(v: Word, ghost extra: set<Addr>)
      requires Inv(extra)
      requires stopped && v in h.target ==> h.target[v] in Scope()
      modifies this`marked, this`stack, this`state, this`tooSmall, this`lost
      ensures Inv(extra) && (old(lost) ==> lost)
      ensures Eased(old(Load()), old(lost), Load(), lost, size)
      ensures marked == if v in h.target then old(marked) + {h.target[v]} else old(marked)
      ensures state == old(state) || state == MS_INVALID
      ensures marked == old(marked) ==> stack == old(stack) && state == old(state)
      ensures Steady(h, old(V(extra)), V(extra))
    {
      if Plausible(v) && v in h.target {
        MarkAndPush(h.target[v], extra);
      }
    }

    /** GC_PUSH_ONE_STACK: the same for a word found on a stack or in a register.  The object may have
        been stored into and not reported yet, so it is reported now. */
    method PushOneStack(v: Word, ghost extra: set<Addr>)
      requires Inv(extra)
      requires stopped && v in h.stackTarget ==> h.stackTarget[v] in Scope()
      requires stopped && v in h.stackTarget ==> PhtHash(PageOf(v)) in StackPages(h, mem)
      modifies this`marked, this`stack, this`state, this`tooSmall, this`lost, this`dirty, this`written, this`unflushed
      ensures Inv(extra)
      ensures marked == if v in h.stackTarget then old(marked) + {h.stackTarget[v]} else old(marked)
      ensures marked == old(marked) ==> stack == old(stack) && state == old(state)
      ensures state == old(state) || state == MS_INVALID
      ensures state != MS_INVALID ==> Pending(old(stack)) <= Pending(stack)
      ensures Lag() == old(Lag()) && (old(lost) ==> lost)
      ensures dirty == if v in h.stackTarget then old(dirty) + {PhtHash(PageOf(v))} else old(dirty)
      ensures unflushed <= old(unflushed)
      ensures forall o, a :: v in h.stackTarget && o in h.home && h.Owned(o) && v in h.Extent(o) && a in h.Extent(o) ==>
                a !in unflushed
      ensures Steady(h, old(V(extra)), V(extra))
    {
      hide Safe, Heap.Valid, Steady, Pending, DirtyOK, Eased;
      ghost var u := V(extra);
      ValidNow(extra);
      if Plausible(v) && v in h.stackTarget {
        Dirty(v);
        ghost var w := V(extra);
        MoreDirty(h, u, w, bound);
        MarkAndPush(h.stackTarget[v], extra);
        SteadyTrans(h, u, w, V(extra));
      } else {
        SteadyRefl(h, u);
      }
    }

    // ---------- Scanning ----------

    /** Take a word off the words still to be scanned. */
    lemma FinishWord(a: Addr, more: set<Addr>, less: set<Addr>)
      requires Inv(more) && less <= more <= less + {a}
      requires WordOK(h, mem, marked, a) || (a in Lag() && !stopped)
      ensures Inv(less)
      ensures Steady(h, V(more), V(less))
    {
      WordDone(h, V(more), V(less), a, bound);
    }

    /** Read word a, and mark and push what it points to. */
    method ScanWord(a: Addr, ghost more: set<Addr>, ghost less: set<Addr>)
      requires Inv(more) && a in more && less <= more <= less + {a}
      modifies this`mem, this`dirty, this`written, this`unflushed
      modifies this`marked, this`stack, this`state, this`tooSmall, this`lost
      ensures Inv(less)
      ensures Steady(h, old(V(more)), V(less))
      ensures old(marked) <= marked && (old(lost) ==> lost)
      ensures Eased(old(Load()), old(lost), Load(), lost, size)
      ensures marked == old(marked) ==> stack == old(stack) && state == old(state)
      ensures forall x, w :: old(Holds(x, w)) ==> Holds(x, w)
      ensures Done(a) && forall x :: old(Done(x)) ==> Done(x)
      ensures state == old(state) || state == MS_INVALID
    {
      hide Inv, V, Steady, Load, Eased, HeldIn, DoneIn, WordOK;
      ghost var v, mem0, marked0, lag0 := V(more), mem, marked, Lag();
      ReadAndPush(a, more);
      WordsKept(h, mem0, marked0, lag0, mem, marked, Lag(), stopped);
      DoneNow(h, mem, marked, Lag(), a);
      ghost var w := V(more);
      FinishWord(a, more, less);
      SteadyTrans(h, v, w, V(less));
    }

    /** The mutator may have stored into word a before it is read. */
    method ReadAndPush(a: Addr, ghost more: set<Addr>)
      requires Inv(more) && a in more
      modifies this`mem, this`dirty, this`written, this`unflushed
      modifies this`marked, this`stack, this`state, this`tooSmall, this`lost
      ensures Inv(more) && Steady(h, old(V(more)), V(more)) && WordOK(h, mem, marked, a)
      ensures old(marked) <= marked && (old(lost) ==> lost)
      ensures Eased(old(Load()), old(lost), Load(), lost, size)
      ensures marked == old(marked) ==> stack == old(stack) && state == old(state)
      ensures state == old(state) || state == MS_INVALID
      ensures old(Lag()) <= Lag() && (stopped ==> mem == old(mem))
      ensures forall x :: mem(x) == old(mem)(x) || x in Lag()
    {
      hide Inv, V, Steady, Load, Eased;
      ghost var v0 := V(more);
      Mutator(more);
      ghost var v1 := V(more);
      InGrey(a, more);
      PushContents(mem(a), more);
      SteadyTrans(h, v0, v1, V(more));
    }

    /** What a word still to be scanned points to may be marked. */
    lemma InGrey(a: Addr, more: set<Addr>)
      requires Inv(more) && a in more
      ensures stopped ==> WordOK(h, mem, Scope(), a)
    {
      assert a in V(more).grey;
    }

    /** Word x needs no more attention. */
    ghost predicate Done(x: Addr)
      reads this`mem, this`marked, this`written, this`unflushed
    {
      DoneIn(h, mem, marked, Lag(), x)
    }

    /** Search backwards for a plausible pointer to set aside.  Words passed over point nowhere. */
    method FindDeferred(lo: Addr, hi: Addr) returns (found: bool, limit: Addr, deferred: Word)
      requires lo < hi && Inv(Range(lo, hi))
      modifies this`mem, this`dirty, this`written, this`unflushed
      ensures found ==> lo - 1 <= limit < hi - 1 && Inv(Range(lo, limit + 2))
      ensures found ==> Holds(limit + 1, deferred)
      ensures found ==> Steady(h, old(V(Range(lo, hi))), V(Range(lo, limit + 2)))
      ensures !found ==> Inv({}) && Steady(h, old(V(Range(lo, hi))), V({}))
    {
      hide *;
      found, limit, deferred := false, hi - 1, 0;
      ghost var u := V(Range(lo, hi));
      SteadyRefl(h, u);
      while !found && lo <= limit
        invariant lo - 1 <= limit < hi
        invariant found ==> limit < hi - 1 && Holds(limit + 1, deferred)
        invariant found ==> Inv(Range(lo, limit + 2)) && Steady(h, u, V(Range(lo, limit + 2)))
        invariant !found ==> Inv(Range(lo, limit + 1)) && Steady(h, u, V(Range(lo, limit + 1)))
        decreases limit + (if found then 0 else 1) - lo
      {
        RangeSteps(lo, limit + 1);
        found, deferred := PeekWord(limit, Range(lo, limit + 1), Range(lo, limit), u);
        limit := limit - 1;
      }
      RangeSteps(lo - 1, lo);
    }

    /** Word a held w when it was read; a later store is remembered. */
    ghost predicate Holds(a: Addr, w: Word)
      reads this`mem, this`written, this`unflushed, this`stopped
    {
      HeldIn(mem, Lag(), stopped, a, w)
    }

    /** Read word a, and finish with it unless it looks like a pointer. */
    method PeekWord(a: Addr, ghost more: set<Addr>, ghost less: set<Addr>, ghost u: View) returns (found: bool, w: Word)
      requires Inv(more) && less <= more <= less + {a}
      requires Steady(h, u, V(more))
      modifies this`mem, this`dirty, this`written, this`unflushed
      ensures Holds(a, w)
      ensures found ==> Inv(more) && Steady(h, u, V(more))
      ensures !found ==> Inv(less) && Steady(h, u, V(less))
    {
      ghost var v := V(more);
      Mutator(more);
      SteadyTrans(h, u, v, V(more));
      w := mem(a);
      found := Plausible(w);
      if !found {
        v := V(more);
        FinishWord(a, more, less);
        SteadyTrans(h, u, v, V(less));
      }
    }

    /** Scan the words from lo up to hi.  The last plausible pointer is set aside first and pushed at the
        very end, so that it can be fetched meanwhile; the words in front of it are taken in order. */
    method ScanRange(lo: Addr, hi: Addr)
      requires lo < hi && Inv(Range(lo, hi))
      modifies this`mem, this`dirty, this`written, this`unflushed
      modifies this`marked, this`stack, this`state, this`tooSmall, this`lost
      ensures Inv({})
      ensures Steady(h, old(V(Range(lo, hi))), V({}))
      ensures old(marked) <= marked
      ensures Eased(old(Load()), old(lost), Load(), lost, size)
      ensures marked == old(marked) ==> stack == old(stack) && state == old(state)
    {
      hide *;
      ghost var u := V(Range(lo, hi));
      EasedRefl(Load(), lost, size);
      var found, limit, deferred := FindDeferred(lo, hi);
      if !found {
        return;
      }
      var current := lo;
      while current <= limit
        invariant lo <= current <= limit + 1 < hi
        invariant Inv(Range(current, limit + 2))
        invariant Holds(limit + 1, deferred)
        invariant Steady(h, u, V(Range(current, limit + 2)))
        invariant Eased(old(Load()), old(lost), Load(), lost, size)
        invariant old(marked) <= marked
        invariant marked == old(marked) ==> stack == old(stack) && state == old(state)
      {
        ghost var v, load, lost0 := V(Range(current, limit + 2)), Load(), lost;
        RangeSteps(current, limit + 2);
        ScanWord(current, Range(current, limit + 2), Range(current + 1, limit + 2));
        EasedTrans(old(Load()), old(lost), load, lost0, Load(), lost, size);
        current := current + 1;
        SteadyTrans(h, u, v, V(Range(current, limit + 2)));
      }
      ghost var load, lost0 := Load(), lost;
      PushDeferred(limit + 1, deferred, Range(current, limit + 2), u);
      EasedTrans(old(Load()), old(lost), load, lost0, Load(), lost, size);
    }

    method PushDeferred(a: Addr, deferred: Word, ghost more: set<Addr>, ghost u: View)
      requires more == Range(a, a + 1) && Inv(more) && Steady(h, u, V(more))
      requires Holds(a, deferred)
      modifies this`marked, this`stack, this`state, this`tooSmall, this`lost
      ensures Inv({})
      ensures Steady(h, u, V({}))
      ensures old(marked) <= marked
      ensures Eased(old(Load()), old(lost), Load(), lost, size)
      ensures marked == old(marked) ==> stack == old(stack) && state == old(state)
    {
      hide Heap.Valid, Steady, Pending, DirtyOK, Eased, ObjOK, NearClosed, ClosedBound, Tri, RootsOK;
      RangeSteps(a, a + 1);
      ghost var v := V(more);
      assert a in v.grey;
      PushContents(deferred, more);
      SteadyTrans(h, u, v, V(more));
      v := V(more);
      FinishWord(a, more, {});
      SteadyTrans(h, u, v, V({}));
    }

    /** Scan the words whose bit is set, shifting the bitmap until no bit is left. */
    method ScanBitmap(start: Addr, bits: seq<bool>)
      requires Inv(Entry(start, Bitmap(bits)).Positions())
      modifies this`mem, this`dirty, this`written, this`unflushed
      modifies this`marked, this`stack, this`state, this`tooSmall, this`lost
      ensures Inv({})
      ensures Steady(h, old(V(Entry(start, Bitmap(bits)).Positions())), V({}))
      ensures old(marked) <= marked
      ensures Eased(old(Load()), old(lost), Load(), lost, size)
      ensures marked == old(marked) ==> stack == old(stack) && state == old(state)
    {
      hide *;
      var current, rest := start, bits;
      ghost var u := V(Entry(start, Bitmap(bits)).Positions());
      SteadyRefl(h, u);
      EasedRefl(Load(), lost, size);
      while true in rest
        invariant Inv(Entry(current, Bitmap(rest)).Positions())
        invariant Steady(h, u, V(Entry(current, Bitmap(rest)).Positions()))
        invariant Eased(old(Load()), old(lost), Load(), lost, size)
        invariant old(marked) <= marked
        invariant marked == old(marked) ==> stack == old(stack) && state == old(state)
        decreases |rest|
      {
        BitmapStep(current, rest);
        if rest[0] {
          ghost var v, load, lost0 := V(Entry(current, Bitmap(rest)).Positions()), Load(), lost;
          ScanWord(current, Entry(current, Bitmap(rest)).Positions(),
                   Entry(current + 1, Bitmap(rest[1..])).Positions());
          EasedTrans(old(Load()), old(lost), load, lost0, Load(), lost, size);
          SteadyTrans(h, u, v, V(Entry(current + 1, Bitmap(rest[1..])).Positions()));
        }
        current, rest := current + 1, rest[1..];
      }
      BitmapClear(current, rest);
    }

    /** Replace the stack by one that, together with the words now held in hand, names the same words. */
    method TakeInHand(s: seq<Entry>, ghost extra: set<Addr>)
      requires Inv({}) && |s| <= |stack| && Pending(stack) == Pending(s) + extra
      modifies this`stack
      ensures stack == s && Eased(old(Load()), lost, Load(), lost, size)
      ensures Inv(extra)
      ensures Steady(h, old(V({})), V(extra))
    {
      hide Safe, Heap.Valid, Steady, Pending, DirtyOK, Eased;
      ghost var u := V({});
      EasedLess(h, stack, s, marked, size, lost);
      stack := s;
      assert u == V(extra);
      SteadyRefl(h, u);
    }

    /** Deal with the top entry of the mark stack.  Of a long range only the first part is scanned and the
        rest is left on the stack. */
    method MarkOne() returns (credit: nat)
      requires Inv({}) && stack != []
      modifies this`mem, this`dirty, this`written, this`unflushed
      modifies this`marked, this`stack, this`state, this`tooSmall, this`lost
      ensures Inv({})
      ensures Steady(h, old(V({})), V({}))
      ensures old(marked) <= marked
      ensures Eased(old(Load()), old(lost), Load(), lost, size)
      ensures marked == old(marked) ==> state == old(state) && TotalWeight(stack) < old(TotalWeight(stack))
    {
      hide Inv, V, Steady, Pending, TotalWeight, Range, Entry.Positions, Load, Eased;
      ghost var u, v, load := V({}), V({}), Load();
      var e, below := stack[|stack| - 1], stack[..|stack| - 1];
      assert stack == below + [e];
      PendingPush(below, e);
      if e.descr.Length? && e.descr.n >= SPLIT_RANGE_WORDS {
        var k := SPLIT_RANGE_WORDS - 1;
        var rest := Entry(e.start + k, Length(e.descr.n - k));
        credit := k;
        PendingPush(below, rest);
        SplitEntry(e.start, e.descr.n, k);
        TakeInHand(below + [rest], Range(e.start, e.start + k));
        v, load := V(Range(e.start, e.start + k)), Load();
        ScanRange(e.start, e.start + k);
      } else if e.descr.Length? {
        credit := e.descr.n;
        SplitEntry(e.start, e.descr.n, e.descr.n);
        EmptyEntry(e.start + e.descr.n);
        TakeInHand(below, Range(e.start, e.start + e.descr.n));
        v, load := V(Range(e.start, e.start + e.descr.n)), Load();
        if e.descr.n >= 1 {
          ScanRange(e.start, e.start + e.descr.n);
        } else {
          EmptyEntry(e.start);
          SteadyRefl(h, v);
          EasedRefl(load, lost, size);
        }
      } else {
        credit := 32;
        TakeInHand(below, e.Positions());
        v, load := V(e.Positions()), Load();
        ScanBitmap(e.start, e.descr.bits);
      }
      SteadyTrans(h, u, v, V({}));
      EasedTrans(old(Load()), old(lost), load, old(lost), Load(), lost, size);
    }

    /** GC_mark_from: mark from the stack until it is empty or about a block's worth of words was scanned. */
    method MarkFrom()
      requires Inv({}) && stack != []
      modifies this`mem, this`dirty, this`written, this`unflushed
      modifies this`marked, this`stack, this`state, this`tooSmall, this`lost, this`objectsAreMarked
      ensures Inv({}) && objectsAreMarked
      ensures Steady(h, old(V({})), V({}))
      ensures old(marked) <= marked
      ensures Eased(old(Load()), old(lost), Load(), lost, size)
      ensures marked == old(marked) ==> state == old(state) && TotalWeight(stack) < old(TotalWeight(stack))
    {
      hide Inv, V, Steady, Pending, TotalWeight, Load, Eased;
      EasedRefl(Load(), lost, size);
      objectsAreMarked := true;
      var credit: int := HBLK_WORDS;
      ghost var u := V({});
      SteadyRefl(h, u);
      while stack != [] && credit >= 0
        invariant Inv({}) && objectsAreMarked
        invariant Steady(h, u, V({}))
        invariant Eased(old(Load()), old(lost), Load(), lost, size)
        invariant old(marked) <= marked
        invariant marked == old(marked) ==> state == old(state)
        invariant marked == old(marked) ==>
                    TotalWeight(stack) < old(TotalWeight(stack)) || (stack == old(stack) && credit == HBLK_WORDS)
        decreases h.home.Keys - marked, TotalWeight(stack)
      {
        ghost var v, load, lost0 := V({}), Load(), lost;
        var used := MarkOne();
        SteadyTrans(h, u, v, V({}));
        EasedTrans(old(Load()), old(lost), load, lost0, Load(), lost, size);
        credit := credit - used;
      }
    }

    // ---------- Pushing the marked objects of a block ----------

    /** Object o is not to be looked into. */
    ghost predicate Skipped(o: ObjId)
      reads this`stopped, this`lost, this`skip
    {
      stopped && !lost && o in skip
    }

    /** All words of o are looked at, whatever its descriptor says. */
    ghost predicate ReadAll(o: ObjId) {
      h.Owned(o) && h.blocks[h.home[o]].descr != Length(0) && h.blocks[h.home[o]].Accelerated()
    }

    /** GC_push_marked1, 2 and 4: mark and push what any word of a marked object points to. */
    method ScanObject(o: ObjId)
      requires Inv({}) && o in marked && ReadAll(o) && !Skipped(o)
      modifies this`mem, this`dirty, this`written, this`unflushed
      modifies this`marked, this`stack, this`state, this`tooSmall, this`lost
      ensures Inv({})
      ensures Steady(h, old(V({})), V({}))
      ensures old(marked) <= marked
      ensures marked == old(marked) ==> stack == old(stack) && state == old(state)
      ensures state == old(state) || state == MS_INVALID
      ensures ObjOK(h, V({}), o) && (old(lost) ==> lost)
    {
      hide Inv, V, Steady, Pending, ObjOK, Done, Load, Eased;
      ghost var u := V({});
      SteadyRefl(h, u);
      var a, end := o, o + h.blocks[h.home[o]].sz;
      while a < end
        invariant o <= a <= end
        invariant Inv({}) && !Skipped(o)
        invariant Steady(h, u, V({}))
        invariant old(marked) <= marked
        invariant marked == old(marked) ==> stack == old(stack) && state == old(state)
        invariant (state == old(state) || state == MS_INVALID) && (old(lost) ==> lost)
        invariant forall x :: o <= x < a ==> Done(x)
      {
        ghost var v := V({});
        ConsiderWord(a, o);
        ghost var w := V({a});
        ScanWord(a, {a}, {});
        SteadyTrans(h, v, w, V({}));
        SteadyTrans(h, u, v, V({}));
        a := a + 1;
      }
      ObjectDone(o);
    }

    /** A word of a marked object may always be scanned once more. */
    lemma ConsiderWord(a: Addr, o: ObjId)
      requires Inv({}) && o in marked && ReadAll(o) && !Skipped(o)
      requires o <= a < o + h.blocks[h.home[o]].sz
      ensures Inv({a})
      ensures Steady(h, V({}), V({a}))
    {
      RangeMembers(o, o + h.blocks[h.home[o]].sz);
      assert a in h.Words(o);
      if stopped {
        InScope({});
        assert WordOK(h, mem, Scope(), a);
      }
    }

    lemma ObjectDone(o: ObjId)
      requires Inv({}) && h.Owned(o)
      requires forall x :: o <= x < o + h.blocks[h.home[o]].sz ==> Done(x)
      ensures ObjOK(h, V({}), o)
    {
      FieldsInExtent(h, o);
      RangeMembers(o, o + h.blocks[h.home[o]].sz);
      forall a | a in h.Fields(o) ensures Done(a) {
        assert a in h.Extent(o);
      }
    }

    /** Push a marked object once more. */
    method PushAgain(o: ObjId)
      requires Inv({}) && o in marked && !Skipped(o) && (stopped && marked == start ==> |stack| < size)
      modifies this`stack, this`state, this`tooSmall, this`lost
      ensures Inv({})
      ensures Steady(h, old(V({})), V({}))
      ensures state != MS_INVALID ==> ObjOK(h, V({}), o)
      ensures |stack| <= |old(stack)| + 1
      ensures state == old(state) || (state == MS_INVALID && |old(stack)| == size)
      ensures old(lost) ==> lost
    {
      hide Safe, Heap.Valid, Steady, ObjOK, Pending, DirtyOK;
      ghost var v, s := V({}), stack;
      OwnedObject(o);
      if stopped {
        InScope({});
      }
      PushObj(o);
      PendingPushed(s, h.EntryOf(o), size);
      assert marked + {o} == marked;
      MarkAndPushKeeps(h, v, V({}), o, bound);
    }

    /** GC_push_marked: arrange for all marked objects of block b to be scanned. */
    method PushMarked(b: nat)
      requires Inv({}) && b < |h.blocks| && NoneSkipped(b) && (stopped ==> Room(|stack|))
      modifies this`mem, this`dirty, this`written, this`unflushed
      modifies this`marked, this`stack, this`state, this`tooSmall, this`lost, this`objectsAreMarked
      ensures Inv({})
      ensures Steady(h, old(V({})), V({}))
      ensures old(marked) <= marked
      ensures ObjsDone(b, |h.blocks[b].objs|)
      ensures marked == old(marked) && |old(stack)| + |h.blocks[b].objs| <= size ==>
                state == old(state) && |stack| <= |old(stack)| + |h.blocks[b].objs|
      ensures old(objectsAreMarked) ==> objectsAreMarked
      ensures !objectsAreMarked ==> marked == old(marked) && stack == old(stack) && state == old(state)
    {
      var blk := h.blocks[b];
      ghost var u := V({});
      SteadyRefl(h, u);
      if blk.descr == Length(0) || forall i :: 0 <= i < |blk.objs| ==> blk.objs[i] !in marked {
        PointerFree(b);
        return;
      }
      PushMarkedObjects(b);
    }

    lemma PointerFree(b: nat)
      requires Inv({}) && b < |h.blocks|
      requires h.blocks[b].descr == Length(0)
               || forall i :: 0 <= i < |h.blocks[b].objs| ==> h.blocks[b].objs[i] !in marked
      ensures forall i :: 0 <= i < |h.blocks[b].objs| && h.blocks[b].objs[i] in marked ==>
                ObjOK(h, V({}), h.blocks[b].objs[i])
    {
    }

    method PushMarkedObjects(b: nat)
      requires Inv({}) && b < |h.blocks| && h.blocks[b].descr != Length(0) && NoneSkipped(b)
      requires (stopped ==> Room(|stack|))
      modifies this`mem, this`dirty, this`written, this`unflushed
      modifies this`marked, this`stack, this`state, this`tooSmall, this`lost, this`objectsAreMarked
      ensures Inv({}) && objectsAreMarked
      ensures Steady(h, old(V({})), V({}))
      ensures old(marked) <= marked
      ensures ObjsDone(b, |h.blocks[b].objs|)
      ensures marked == old(marked) && |old(stack)| + |h.blocks[b].objs| <= size ==>
                state == old(state) && |stack| <= |old(stack)| + |h.blocks[b].objs|
    {
      hide Inv, V, Steady, ObjsDone, NoneSkipped;
      objectsAreMarked := true;
      ghost var u, n := V({}), |h.blocks[b].objs|;
      SteadyRefl(h, u);
      FewObjects(b);
      StartMarked();
      NoneDone(b);
      for i := 0 to |h.blocks[b].objs|
        invariant Inv({}) && objectsAreMarked && NoneSkipped(b)
        invariant Steady(h, u, V({})) && ObjsDone(b, i)
        invariant old(marked) <= marked && (stopped && marked == start ==> marked == old(marked))
        invariant marked == old(marked) && |old(stack)| + n <= size ==>
                    state == old(state) && |stack| <= |old(stack)| + i
      {
        ghost var v := V({});
        PushObject(b, i);
        SteadyTrans(h, u, v, V({}));
      }
    }

    /** The marked ones of the first i objects of block b are taken care of, unless the invariant was given up. */
    ghost predicate ObjsDone(b: nat, i: nat)
      requires b < |h.blocks|
      reads this`mem, this`marked, this`stack, this`written, this`unflushed, this`state, this`scan, this`grungy
      reads this`stopped
      reads this`dirty, this`lost, this`start, this`near, this`skip, this`spilt
    {
      state != MS_INVALID ==>
        forall j :: 0 <= j < i && j < |h.blocks[b].objs| && h.blocks[b].objs[j] in marked ==>
          ObjOK(h, V({}), h.blocks[b].objs[j])
    }

    lemma NoneDone(b: nat)
      requires b < |h.blocks|
      ensures ObjsDone(b, 0)
    {
    }

    lemma StillDone(v: View, b: nat, i: nat)
      requires b < |h.blocks| && Steady(h, v, V({}))
      requires v.state != MS_INVALID ==>
                 forall j :: 0 <= j < i && j < |h.blocks[b].objs| && h.blocks[b].objs[j] in v.marked ==>
                   ObjOK(h, v, h.blocks[b].objs[j])
      ensures ObjsDone(b, i)
    {
      forall j | 0 <= j < i && j < |h.blocks[b].objs| && h.blocks[b].objs[j] in marked && state != MS_INVALID
        ensures ObjOK(h, V({}), h.blocks[b].objs[j])
      {
        SteadyObj(h, v, V({}), h.blocks[b].objs[j]);
      }
    }

    /** Push the i-th object of block b, if it is marked, or scan it at once if it is small. */
    method PushObject(b: nat, i: nat)
      requires Inv({}) && b < |h.blocks| && i < |h.blocks[b].objs| && h.blocks[b].descr != Length(0)
      requires NoneSkipped(b) && ObjsDone(b, i) && (stopped && marked == start ==> |stack| < size)
      modifies this`mem, this`dirty, this`written, this`unflushed
      modifies this`marked, this`stack, this`state, this`tooSmall, this`lost
      ensures Inv({}) && NoneSkipped(b) && ObjsDone(b, i + 1)
      ensures Steady(h, old(V({})), V({}))
      ensures old(marked) <= marked
      ensures marked == old(marked) && |old(stack)| < size ==> state == old(state) && |stack| <= |old(stack)| + 1
    {
      hide Inv, Steady, Pending, ObjOK, Lag;
      ghost var v := V({});
      var o := h.blocks[b].objs[i];
      InBlock(b, i);
      if o in marked {
        if h.blocks[b].Accelerated() {
          ScanObject(o);
        } else {
          PushAgain(o);
        }
        StillDone(v, b, i);
      } else {
        SteadyRefl(h, v);
      }
    }

    lemma StartMarked()
      requires Inv({})
      ensures stopped ==> start <= marked
    {
    }

    lemma InBlock(b: nat, i: nat)
      requires Inv({}) && b < |h.blocks| && i < |h.blocks[b].objs|
      ensures h.Owned(h.blocks[b].objs[i]) && h.home[h.blocks[b].objs[i]] == b
    {
    }

    // ---------- Walking over the blocks ----------

    /** GC_block_was_dirty: is some page of block b in the table last read? */
    method BlockWasDirty(b: nat) returns (r: bool)
      requires b < |h.blocks|
      ensures r == BlockIn(grungy, h.blocks[b])
    {
      var blk := h.blocks[b];
      var p := blk.page;
      while p < blk.page + blk.npages
        invariant blk.page <= p <= blk.page + blk.npages
        invariant forall q :: blk.page <= q < p ==> PhtHash(q) !in grungy
      {
        if PhtHash(p) in grungy {
          return true;
        }
        p := p + 1;
      }
      return false;
    }

    /** No object of block b is to be passed over. */
    ghost predicate NoneSkipped(b: nat)
      requires b < |h.blocks|
      reads this`stopped, this`lost, this`skip
    {
      forall i :: 0 <= i < |h.blocks[b].objs| ==> !Skipped(h.blocks[b].objs[i])
    }

    /** Can a stack of n entries take all objects of one more block? */
    ghost predicate Room(n: nat)
      reads this`size
    {
      n + MAX_HBLK_OBJS <= size
    }

    /** Moving scan_ptr past block b, once everything before it is dealt with. */
    lemma Advance(b: nat, u: View)
      requires Shape() && u == V({}).(scan := u.scan) && u.scan <= b < |h.blocks| && scan == b + 1
      requires Safe(h, u, bound)
      requires state != MS_INVALID ==>
                 forall i :: 0 <= i < |h.blocks[b].objs| && h.blocks[b].objs[i] in marked ==>
                   ObjOK(h, u, h.blocks[b].objs[i])
      requires state != MS_INVALID ==> forall c :: u.scan <= c < b ==> !Pushes(state, c)
      ensures Inv({})
    {
      forall o | o in marked && !Deferred(h, state, scan, grungy, o)
        ensures ObjOK(h, u, o)
      {
        if h.home[o] == b {
          assert o in h.blocks[b].objs;
        } else if u.scan <= h.home[o] < b {
          assert !Pushes(state, h.home[o]);
        }
      }
      assert forall o :: ObjOK(h, u, o) ==> ObjOK(h, V({}), o);
    }

    /** Does the given phase push the marked objects of block c? */
    ghost predicate Pushes(s: MarkState, c: nat)
      requires c < |h.blocks|
      reads this`grungy
    {
      match s
      case MS_PUSH_RESCUERS => BlockIn(grungy, h.blocks[c])
      case MS_PUSH_UNCOLLECTABLE => h.blocks[c].uncollectable
      case _ => true
    }

    /** Coming to the end of the blocks: nothing is left out, except if the invariant was given up. */
    lemma AtEnd(u: View)
      requires Shape() && u == V({}).(scan := u.scan) && scan == 0
      requires Safe(h, u, bound)
      requires || state == MS_PARTIALLY_INVALID || state == MS_PUSH_RESCUERS
               || state == MS_PUSH_UNCOLLECTABLE || state == MS_INVALID
      requires forall c :: u.scan <= c < |h.blocks| ==> !Pushes(state, c)
      ensures Inv({})
      ensures state != MS_INVALID ==> AllOK(h, V({}))
    {
      forall o | o in marked && state != MS_INVALID
        ensures ObjOK(h, u, o)
      {
        if u.scan <= h.home[o] {
          assert !Pushes(state, h.home[o]);
        }
      }
      assert forall o :: ObjOK(h, u, o) <==> ObjOK(h, V({}), o);
    }

    /** GC_push_next_marked, GC_push_next_marked_dirty and GC_push_next_marked_uncollectable: push the marked
        objects of the next block that the phase is interested in, and step over it.  scan == 0 afterwards
        says that there is no such block. */
    method PushNext()
      requires Inv({})
      requires || state == MS_PARTIALLY_INVALID || state == MS_PUSH_RESCUERS
               || state == MS_PUSH_UNCOLLECTABLE || state == MS_INVALID
      requires stopped ==> Room(|stack|)
      modifies this`mem, this`dirty, this`written, this`unflushed
      modifies this`marked, this`stack, this`state, this`tooSmall, this`lost, this`objectsAreMarked, this`scan
      ensures Inv({})
      ensures Steady(h, old(V({})), V({}))
      ensures old(marked) <= marked
      ensures state == old(state) || state == MS_INVALID
      ensures scan == 0 || old(scan) < scan
      ensures scan == 0 ==> marked == old(marked) && stack == old(stack) && state == old(state)
      ensures scan == 0 && state != MS_INVALID ==> AllOK(h, V({}))
      ensures marked == old(marked) && Room(|old(stack)|) ==> state == old(state)
      ensures old(objectsAreMarked) ==> objectsAreMarked
      ensures !objectsAreMarked ==> marked == old(marked) && stack == old(stack) && state == old(state)
    {
      hide Safe, Heap.Valid, Steady, ObjOK, AllOK, Pending, DirtyOK, BlockIn;
      var b, found := NextToPush();
      if !found {
        ghost var u := V({});
        scan := 0;
        AtEnd(u);
        SameButScan(h, u, u, V({}));
      } else {
        PushBlock(b);
      }
    }

    /** Push the marked objects of block b, before which there is none to be pushed. */
    method PushBlock(b: nat)
      requires Inv({}) && scan <= b < |h.blocks| && Pushes(state, b) && forall c :: scan <= c < b ==> !Pushes(state, c)
      requires || state == MS_PARTIALLY_INVALID || state == MS_PUSH_RESCUERS
               || state == MS_PUSH_UNCOLLECTABLE || state == MS_INVALID
      requires stopped ==> Room(|stack|)
      modifies this`mem, this`dirty, this`written, this`unflushed
      modifies this`marked, this`stack, this`state, this`tooSmall, this`lost, this`objectsAreMarked, this`scan
      ensures Inv({}) && scan == b + 1
      ensures Steady(h, old(V({})), V({}))
      ensures old(marked) <= marked
      ensures state == old(state) || state == MS_INVALID
      ensures marked == old(marked) && Room(|old(stack)|) ==> state == old(state)
      ensures old(objectsAreMarked) ==> objectsAreMarked
      ensures !objectsAreMarked ==> marked == old(marked) && stack == old(stack) && state == old(state)
    {
      hide Safe, Heap.Valid, Steady, ObjOK, AllOK, Pending, DirtyOK, BlockIn, NoneSkipped;
      FewObjects(b);
      NothingSkipped(b);
      ghost var u0 := V({});
      PushMarked(b);
      ghost var u := V({});
      SteadyState(h, u0, u);
      scan := b + 1;
      Advance(b, u);
      SameButScan(h, u0, u, V({}));
    }

    lemma NothingSkipped(b: nat)
      requires Inv({}) && b < |h.blocks| && Pushes(state, b) && state != MS_NONE && state != MS_ROOTS_PUSHED
      ensures NoneSkipped(b)
    {
      forall i | 0 <= i < |h.blocks[b].objs| ensures !Skipped(h.blocks[b].objs[i]) {
        InBlock(b, i);
      }
    }

    lemma FewObjects(b: nat)
      requires Inv({}) && b < |h.blocks|
      ensures |h.blocks[b].objs| <= MAX_HBLK_OBJS
    {
    }

    /** Find the next block that the phase is interested in. */
    method NextToPush() returns (b: nat, found: bool)
      requires Shape()
      ensures scan <= b <= |h.blocks| && found == (b < |h.blocks|)
      ensures found ==> Pushes(state, b)
      ensures forall c :: scan <= c < b ==> !Pushes(state, c)
    {
      b := scan;
      while b < |h.blocks|
        invariant scan <= b <= |h.blocks|
        invariant forall c :: scan <= c < b ==> !Pushes(state, c)
      {
        var wanted := true;
        if state == MS_PUSH_RESCUERS {
          wanted := BlockWasDirty(b);
        } else if state == MS_PUSH_UNCOLLECTABLE {
          wanted := h.blocks[b].uncollectable;
        }
        if wanted {
          return b, true;
        }
        b := b + 1;
      }
      return b, false;
    }

    // ---------- Pushing the roots ----------

    /** GC_push_all: push the words from lo up to hi as one entry.  The caller sees to it that there is room. */
    method PushAll(lo: Addr, hi: Addr)
      requires Inv({}) && (lo < hi ==> |stack| < size)
      requires stopped ==> forall a :: lo <= a < hi ==> WordOK(h, mem, Scope(), a)
      modifies this`stack
      ensures stack == if lo < hi then old(stack) + [Entry(lo, Length(hi - lo))] else old(stack)
      ensures Inv({})
      ensures Steady(h, old(V({})), V({}))
      ensures Pending(stack) == Pending(old(stack)) + Range(lo, hi)
    {
      RangeMembers(lo, hi);
      assert lo >= hi ==> Range(lo, hi) == {};
      hide Safe, Heap.Valid, Steady, Pending, DirtyOK, Range, WordOK, Entry.Positions;
      assert Limit(V({}), bound) == Scope();
      if lo < hi {
        var e := Entry(lo, Length(hi - lo));
        PendingPush(stack, e);
        RangeEntry(lo, hi);
        ghost var v := V({});
        stack := stack + [e];
        MoreGrey(h, v, V({}), bound);
      } else {
        SteadyRefl(h, V({}));
      }
    }

    /** GC_page_was_dirty: pages that hold no heap block always count as dirty. */
    predicate PageWasDirty(page: int)
      reads this`grungy
    {
      (forall b :: 0 <= b < |h.blocks| ==> !h.blocks[b].HasPage(page)) || PhtHash(page) in grungy
    }

    /** The test for a nearly full stack in GC_push_selected.  It compares unsigned numbers, and so is true of an empty
        stack as well, whose top is one below its first entry. */
    predicate NearlyFull()
      reads this`stack, this`size
    {
      stack == [] || |stack| - 1 > 3 * size / 4
    }

    /** Some page from that of lo up to that of a was dirty. */
    ghost predicate DirtyBefore(lo: Addr, a: Addr)
      reads this`grungy
    {
      exists p :: PageOf(lo) <= p <= PageOf(a) && PageWasDirty(p)
    }

    /** The stack s is s0 and words of the range: only such as have a dirty page at or before them, and as long as it is
        not nearly full, only such as lie on dirty pages. */
    ghost predicate Picked(s0: seq<Entry>, s: seq<Entry>, lo: Addr, hi: Addr)
      reads this`grungy, this`size
    {
      && |s0| <= |s|
      && (forall a :: a in Pending(s) && a !in Pending(s0) ==> lo <= a < hi && DirtyBefore(lo, a))
      && (s0 != [] && |s| <= 3 * size / 4 + 1 ==>
            forall a :: a in Pending(s) && a !in Pending(s0) ==> PageWasDirty(PageOf(a)))
    }

    /** More words were pushed: those of one dirty page, or, when the stack was nearly full, all from there on. */
    lemma MorePicked(s0: seq<Entry>, s1: seq<Entry>, lo: Addr, hi: Addr, from: Addr, to: Addr, page: int)
      requires Picked(s0, s1, lo, hi) && lo <= from < to <= hi && |stack| == |s1| + 1
      requires Pending(stack) == Pending(s1) + Range(from, to)
      requires PageWasDirty(page) && page == PageOf(from)
      requires to <= (page + 1) * HBLK_WORDS || s1 == [] || |s1| - 1 > 3 * size / 4
      ensures Picked(s0, stack, lo, hi)
    {
      hide Pending, PageWasDirty, Range;
      RangeMembers(from, to);
      forall a | from <= a < to ensures DirtyBefore(lo, a) {
        assert PageOf(lo) <= page <= PageOf(a);
      }
    }

    /** GC_push_selected: push the dirty pages among the words from lo up to hi, one by one; when the stack is
        nearly full, or empty, push all that is left in one go. */
    method PushSelected(lo: Addr, hi: Addr)
      requires Inv({}) && |stack| < size
      requires stopped ==> forall a :: lo <= a < hi ==> WordOK(h, mem, Scope(), a)
      modifies this`stack
      ensures Inv({})
      ensures Steady(h, old(V({})), V({}))
      ensures forall a :: lo <= a < hi && PageWasDirty(PageOf(a)) ==> a in Pending(stack)
      ensures Pending(old(stack)) <= Pending(stack) <= Pending(old(stack)) + Range(lo, hi)
      ensures |stack| <= 1 + if |old(stack)| <= 3 * size / 4 + 2 then 3 * size / 4 + 2 else |old(stack)|
      ensures old(stack) == [] ==> |stack| <= 1
      ensures Picked(old(stack), stack, lo, hi)
    {
      hide Inv, V, Steady, Pending, Range, PageWasDirty, WordOK, Picked, Selecting;
      ghost var u, s0 := V({}), stack;
      SteadyRefl(h, u);
      StaticsFit();
      StartSelecting(lo, hi);
      if lo >= hi {
        DoneSelecting(s0, lo, hi);
        return;
      }
      var p := PageOf(lo) + 1;
      var d := PageWasDirty(p - 1);
      if hi <= p * HBLK_WORDS {
        if d {
          PushPage(lo, hi, p - 1, lo, hi, u, s0);
        } else {
          PassPage(lo, hi, p - 1, lo, hi, s0);
        }
        DoneSelecting(s0, lo, hi);
        return;
      }
      if d {
        if NearlyFull() {
          PushPage(lo, hi, p - 1, lo, hi, u, s0);
          DoneSelecting(s0, lo, hi);
          return;
        }
        PushPage(lo, p * HBLK_WORDS, p - 1, lo, hi, u, s0);
      } else {
        PassPage(lo, p * HBLK_WORDS, p - 1, lo, hi, s0);
      }
      PushPages(p, lo, hi, u, s0);
      DoneSelecting(s0, lo, hi);
    }

    /** The same for the pages from p on. */
    method PushPages(first: int, lo: Addr, hi: Addr, ghost u: View, ghost s0: seq<Entry>)
      requires Inv({}) && |stack| <= Most(s0) < size && Steady(h, u, V({})) && Selecting(s0, lo, hi, first * HBLK_WORDS)
      requires lo < first * HBLK_WORDS < hi && (s0 == [] ==> stack == [])
      requires stopped ==> forall a :: lo <= a < hi ==> WordOK(h, mem, Scope(), a)
      modifies this`stack
      ensures Inv({}) && Steady(h, u, V({})) && Selecting(s0, lo, hi, hi)
      ensures |stack| <= 1 + Most(s0) && (s0 == [] ==> |stack| <= 1)
    {
      hide Inv, V, Steady, Pending, Range, PageWasDirty, WordOK, Picked, Selecting;
      var p := first;
      var d;
      while (p + 1) * HBLK_WORDS <= hi
        invariant Inv({}) && Steady(h, u, V({})) && Selecting(s0, lo, hi, p * HBLK_WORDS)
        invariant lo < p * HBLK_WORDS <= hi
        invariant |stack| <= Most(s0) && (s0 == [] ==> stack == [])
        decreases hi - p * HBLK_WORDS
      {
        d := PageWasDirty(p);
        if d {
          if NearlyFull() {
            PushPage(p * HBLK_WORDS, hi, p, lo, hi, u, s0);
            return;
          }
          PushPage(p * HBLK_WORDS, (p + 1) * HBLK_WORDS, p, lo, hi, u, s0);
        } else {
          PassPage(p * HBLK_WORDS, (p + 1) * HBLK_WORDS, p, lo, hi, s0);
        }
        p := p + 1;
      }
      d := PageWasDirty(p);
      if p * HBLK_WORDS != hi {
        if d {
          PushPage(p * HBLK_WORDS, hi, p, lo, hi, u, s0);
        } else {
          PassPage(p * HBLK_WORDS, hi, p, lo, hi, s0);
        }
      }
    }

    /** What the stack may hold before the last step of GC_push_selected. */
    ghost function Most(s0: seq<Entry>): nat
      reads this`size
    {
      if |s0| <= 3 * size / 4 + 2 then 3 * size / 4 + 2 else |s0|
    }

    /** GC_push_selected, which found the stack s0, has come to `end`. */
    ghost predicate Selecting(s0: seq<Entry>, lo: Addr, hi: Addr, end: Addr)
      reads this`stack, this`grungy, this`size
    {
      && Pending(s0) <= Pending(stack) && Picked(s0, stack, lo, hi)
      && forall a :: lo <= a < end && PageWasDirty(PageOf(a)) ==> a in Pending(stack)
    }

    lemma StartSelecting(lo: Addr, hi: Addr)
      ensures Selecting(stack, lo, hi, lo)
    {
    }

    lemma DoneSelecting(s0: seq<Entry>, lo: Addr, hi: Addr)
      requires lo <= hi ==> Selecting(s0, lo, hi, hi)
      requires lo > hi ==> Selecting(s0, lo, hi, lo)
      ensures forall a :: lo <= a < hi && PageWasDirty(PageOf(a)) ==> a in Pending(stack)
      ensures Pending(s0) <= Pending(stack) <= Pending(s0) + Range(lo, hi) && Picked(s0, stack, lo, hi)
    {
      hide PageWasDirty, Range, Pending, DirtyBefore;
      RangeMembers(lo, hi);
      forall a | a in Pending(stack) ensures a in Pending(s0) + Range(lo, hi) {
        assert a !in Pending(s0) ==> lo <= a < hi;
      }
    }

    lemma PassPage(from: Addr, to: Addr, page: int, lo: Addr, hi: Addr, s0: seq<Entry>)
      requires Selecting(s0, lo, hi, from) && !PageWasDirty(page) && page == PageOf(from)
      requires to <= (page + 1) * HBLK_WORDS
      ensures Selecting(s0, lo, hi, to)
    {
      hide Picked, PageWasDirty, Pending;
      assert forall a :: from <= a < to ==> PageOf(a) == page;
    }

    /** Push the words from `from` up to `to`: those of one dirty page, or, when the stack is nearly full, all that are
        left. */
    method PushPage(from: Addr, to: Addr, page: int, ghost lo: Addr, ghost hi: Addr, ghost u: View,
                    ghost s0: seq<Entry>)
      requires Inv({}) && |stack| < size && Steady(h, u, V({})) && Selecting(s0, lo, hi, from)
      requires lo <= from < to <= hi && PageWasDirty(page) && page == PageOf(from)
      requires to <= (page + 1) * HBLK_WORDS || NearlyFull()
      requires stopped ==> forall a :: lo <= a < hi ==> WordOK(h, mem, Scope(), a)
      modifies this`stack
      ensures Inv({}) && Steady(h, u, V({})) && |stack| == |old(stack)| + 1 && Selecting(s0, lo, hi, to)
    {
      hide Inv, V, Steady, Pending, Range, PageWasDirty, Picked;
      ghost var v := V({});
      PushAll(from, to);
      SteadyTrans(h, u, v, V({}));
      RangeMembers(from, to);
      MorePicked(s0, old(stack), lo, hi, from, to, page);
    }

    /** Push the static data, as a whole or page by page. */
    method PushStatics(all: bool)
      requires Inv({}) && |stack| <= size - INITIAL_MARK_STACK_SIZE / 2
      modifies this`stack
      ensures Inv({})
      ensures Steady(h, old(V({})), V({}))
      ensures forall a :: a in h.StaticWords() ==> a in Pending(stack)
    {
      hide Inv, V, Steady, Pending, Range, Heap.Valid, Heap.StaticWords, PageWasDirty;
      ghost var u := V({});
      SteadyRefl(h, u);
      StaticsFit();
      ghost var base := if |stack| <= 3 * size / 4 + 2 then 3 * size / 4 + 2 else |stack|;
      for i := 0 to |h.statics|
        invariant Inv({}) && Steady(h, u, V({}))
        invariant |stack| <= base + i
        invariant forall j, a :: 0 <= j < i && h.statics[j].start <= a < h.statics[j].end ==> a in Pending(stack)
      {
        ghost var v := V({});
        var r := h.statics[i];
        StaticRange(i);
        if all {
          PushAll(r.start, r.end);
          RangeMembers(r.start, r.end);
        } else {
          PushSelected(r.start, r.end);
        }
        SteadyTrans(h, u, v, V({}));
      }
      AllStatics();
    }

    lemma StaticsFit()
      requires Inv({})
      ensures |h.statics| + 2 <= INITIAL_MARK_STACK_SIZE / 4 && INITIAL_MARK_STACK_SIZE <= size
    {
    }

    /** A range of static data may be pushed, and all its pages count as dirty. */
    lemma StaticRange(i: nat)
      requires Inv({}) && i < |h.statics|
      ensures stopped ==> forall a :: h.statics[i].start <= a < h.statics[i].end ==> WordOK(h, mem, Scope(), a)
      ensures forall a :: h.statics[i].start <= a < h.statics[i].end ==> PageWasDirty(PageOf(a))
    {
      var r := h.statics[i];
      RangeMembers(r.start, r.end);
      assert h.RangeOffHeap(r);
      forall a | r.start <= a < r.end ensures stopped ==> WordOK(h, mem, Scope(), a) {
        assert a in Range(h.statics[i].start, h.statics[i].end);
        assert a in h.StaticWords();
      }
    }

    lemma AllStatics()
      requires forall j, a :: 0 <= j < |h.statics| && h.statics[j].start <= a < h.statics[j].end ==> a in Pending(stack)
      ensures forall a :: a in h.StaticWords() ==> a in Pending(stack)
    {
      forall a | a in h.StaticWords() ensures a in Pending(stack) {
        var j :| 0 <= j < |h.statics| && a in Range(h.statics[j].start, h.statics[j].end);
        RangeMembers(h.statics[j].start, h.statics[j].end);
      }
    }

    /** Word a of a stack is taken care of. */
    ghost predicate Stacked(a: Addr)
      reads this`mem, this`marked, this`stack
    {
      (h.allInterior && a in Pending(stack)) || StackWordOK(h, mem, marked, a)
    }

    /** All that the words from lo to hi point to is taken to be dirty. */
    ghost predicate NotedRange(lo: Addr, hi: Addr)
      reads this`mem, this`dirty, this`unflushed
    {
      forall a :: lo <= a < hi ==> Noted(h, mem, dirty, unflushed, a)
    }

    /** If stacks are looked at at once, all that they point to is taken to be dirty. */
    ghost predicate StacksNoted()
      reads this`mem, this`dirty
    {
      !h.allInterior ==> StackPages(h, mem) <= dirty
    }

    /** Look at one word of a stack. */
    method EagerWord(p: Addr)
      requires Inv({}) && (stopped ==> StackWordOK(h, mem, Scope(), p) && p in h.StackWords())
      modifies this`mem, this`dirty, this`written, this`unflushed
      modifies this`marked, this`stack, this`state, this`tooSmall, this`lost
      ensures Inv({})
      ensures Steady(h, old(V({})), V({}))
      ensures old(marked) <= marked
      ensures marked == old(marked) ==> stack == old(stack) && state == old(state)
      ensures state == old(state) || state == MS_INVALID
      ensures state != MS_INVALID ==> Pending(old(stack)) <= Pending(stack)
      ensures stopped ==> mem == old(mem) && StackWordOK(h, mem, marked, p) && old(Scope()) <= Scope()
      ensures Noted(h, mem, dirty, unflushed, p) && (stopped ==> old(dirty) <= dirty && unflushed <= old(unflushed))
    {
      hide Inv, V, Steady, Pending, Lag;
      ghost var u := V({});
      Mutator({});
      ghost var v := V({});
      if stopped {
        InScope({});
      }
      PushOneStack(mem(p), {});
      SteadyTrans(h, u, v, V({}));
    }

    /** GC_push_all_eager: look at the words of a stack at once, in case they change. */
    method PushAllEager(lo: Addr, hi: Addr)
      requires Inv({})
      requires stopped ==> forall a :: lo <= a < hi ==> StackWordOK(h, mem, Scope(), a) && a in h.StackWords()
      modifies this`mem, this`dirty, this`written, this`unflushed
      modifies this`marked, this`stack, this`state, this`tooSmall, this`lost
      ensures Inv({})
      ensures Steady(h, old(V({})), V({}))
      ensures old(marked) <= marked
      ensures marked == old(marked) ==> stack == old(stack) && state == old(state)
      ensures state == old(state) || state == MS_INVALID
      ensures state != MS_INVALID ==> Pending(old(stack)) <= Pending(stack)
      ensures stopped ==> mem == old(mem)
      ensures stopped ==> forall a :: lo <= a < hi ==> StackWordOK(h, mem, marked, a)
      ensures stopped ==> old(dirty) <= dirty && unflushed <= old(unflushed) && NotedRange(lo, hi)
    {
      hide Inv, V, Steady, Pending, Lag, StackWordOK, Noted;
      ghost var u := V({});
      SteadyRefl(h, u);
      var p := lo;
      while p < hi
        invariant Inv({}) && Steady(h, u, V({}))
        invariant old(marked) <= marked
        invariant marked == old(marked) ==> stack == old(stack) && state == old(state)
        invariant state == old(state) || state == MS_INVALID
        invariant state != MS_INVALID ==> Pending(old(stack)) <= Pending(stack)
        invariant stopped ==> mem == old(mem)
        invariant stopped ==> forall a :: lo <= a < hi ==> StackWordOK(h, mem, Scope(), a)
        invariant stopped ==> forall a :: lo <= a < p ==> StackWordOK(h, mem, marked, a)
        invariant stopped ==> old(dirty) <= dirty && unflushed <= old(unflushed) && NotedRange(lo, p)
      {
        ghost var v := V({});
        ghost var m, s, was, were := marked, Scope(), dirty, unflushed;
        EagerWord(p);
        if stopped {
          StillNoted(was, were, lo, p);
          StackWordsKept(lo, p, m, marked);
          StackWordsKept(lo, hi, s, Scope());
        }
        SteadyTrans(h, u, v, V({}));
        p := p + 1;
      }
    }

    lemma StillNoted(was: set<int>, were: set<Addr>, lo: Addr, hi: Addr)
      requires was <= dirty && unflushed <= were && forall a :: lo <= a < hi ==> Noted(h, mem, was, were, a)
      ensures NotedRange(lo, hi)
    {
      forall a | lo <= a < hi ensures Noted(h, mem, dirty, unflushed, a) {
        assert Noted(h, mem, was, were, a);
      }
    }

    lemma StacksStillNoted(was: set<int>, were: set<Addr>, i: nat)
      requires i <= |h.stacks| && was <= dirty && unflushed <= were
      requires forall j, a :: 0 <= j < i && h.stacks[j].start <= a < h.stacks[j].end ==> Noted(h, mem, was, were, a)
      ensures forall j :: 0 <= j < i ==> NotedRange(h.stacks[j].start, h.stacks[j].end)
    {
      forall j, a | 0 <= j < i && h.stacks[j].start <= a < h.stacks[j].end ensures Noted(h, mem, dirty, unflushed, a) {
        assert Noted(h, mem, was, were, a);
      }
    }

    lemma StackWordsKept(lo: Addr, hi: Addr, s: set<ObjId>, t: set<ObjId>)
      requires s <= t
      requires forall a :: lo <= a < hi ==> StackWordOK(h, mem, s, a)
      ensures forall a :: lo <= a < hi ==> StackWordOK(h, mem, t, a)
    {
      forall a | lo <= a < hi ensures StackWordOK(h, mem, t, a) {
        assert StackWordOK(h, mem, s, a);
      }
    }

    /** GC_push_all_stack: push a stack as one entry if interior pointers count everywhere and there is plenty of
        room; otherwise look at it at once. */
    method PushAllStack(lo: Addr, hi: Addr)
      requires Inv({})
      requires stopped ==> forall a :: lo <= a < hi ==> StackWordOK(h, mem, Scope(), a) && a in h.StackWords()
      modifies this`mem, this`dirty, this`written, this`unflushed
      modifies this`marked, this`stack, this`state, this`tooSmall, this`lost
      ensures Inv({})
      ensures Steady(h, old(V({})), V({}))
      ensures old(marked) <= marked
      ensures marked == old(marked) ==> state == old(state)
      ensures state == old(state) || state == MS_INVALID
      ensures state != MS_INVALID ==> Pending(old(stack)) <= Pending(stack)
      ensures stopped ==> mem == old(mem)
      ensures stopped && state != MS_INVALID ==> forall a :: lo <= a < hi || old(Stacked(a)) ==> Stacked(a)
      ensures stopped ==>
                old(dirty) <= dirty && unflushed <= old(unflushed) && (!h.allInterior ==> NotedRange(lo, hi))
    {
      hide Inv, V, Steady, Pending, Range, Lag;
      if h.allInterior && |stack| - 1 < size - INITIAL_MARK_STACK_SIZE / 8 {
        StaticsFit();
        SameTargets();
        RangeMembers(lo, hi);
        PushAll(lo, hi);
      } else {
        PushAllEager(lo, hi);
      }
    }

    lemma SameTargets()
      requires Inv({}) && h.allInterior
      ensures forall a, marks :: StackWordOK(h, mem, marks, a) <==> WordOK(h, mem, marks, a)
    {
    }

    method PushStacks()
      requires Inv({})
      modifies this`mem, this`dirty, this`written, this`unflushed
      modifies this`marked, this`stack, this`state, this`tooSmall, this`lost
      ensures Inv({})
      ensures Steady(h, old(V({})), V({}))
      ensures old(marked) <= marked
      ensures marked == old(marked) ==> state == old(state)
      ensures state == old(state) || state == MS_INVALID
      ensures state != MS_INVALID ==> Pending(old(stack)) <= Pending(stack)
      ensures stopped ==> mem == old(mem)
      ensures stopped && state != MS_INVALID ==> forall a :: a in h.StackWords() ==> Stacked(a)
      ensures stopped ==> StacksNoted()
    {
      hide Inv, V, Steady, Pending, Range, Heap.StackWords, Lag, Stacked, Noted;
      ghost var u := V({});
      SteadyRefl(h, u);
      for i := 0 to |h.stacks|
        invariant Inv({}) && Steady(h, u, V({}))
        invariant old(marked) <= marked
        invariant marked == old(marked) ==> state == old(state)
        invariant state == old(state) || state == MS_INVALID
        invariant state != MS_INVALID ==> Pending(old(stack)) <= Pending(stack)
        invariant stopped ==> mem == old(mem)
        invariant stopped && state != MS_INVALID ==>
                    forall j, a :: 0 <= j < i && h.stacks[j].start <= a < h.stacks[j].end ==> Stacked(a)
        invariant stopped && !h.allInterior ==>
                    forall j :: 0 <= j < i ==> NotedRange(h.stacks[j].start, h.stacks[j].end)
      {
        ghost var v := V({});
        ghost var was, were := dirty, unflushed;
        StackRange(i);
        PushAllStack(h.stacks[i].start, h.stacks[i].end);
        if stopped && !h.allInterior {
          StacksStillNoted(was, were, i);
        }
        SteadyTrans(h, u, v, V({}));
      }
      if stopped && state != MS_INVALID {
        AllStacks();
      }
      if stopped && !h.allInterior {
        AllNoted();
      }
    }

    lemma StackRange(i: nat)
      requires Inv({}) && i < |h.stacks|
      ensures stopped ==> forall a :: h.stacks[i].start <= a < h.stacks[i].end ==>
                StackWordOK(h, mem, Scope(), a) && a in h.StackWords()
    {
      RangeMembers(h.stacks[i].start, h.stacks[i].end);
      forall a | h.stacks[i].start <= a < h.stacks[i].end
        ensures stopped ==> StackWordOK(h, mem, Scope(), a) && a in h.StackWords()
      {
        assert a in Range(h.stacks[i].start, h.stacks[i].end);
        assert a in h.StackWords();
      }
    }

    lemma AllStacks()
      requires forall j, a :: 0 <= j < |h.stacks| && h.stacks[j].start <= a < h.stacks[j].end ==> Stacked(a)
      ensures forall a :: a in h.StackWords() ==> Stacked(a)
    {
      forall a | a in h.StackWords() ensures Stacked(a) {
        var j :| 0 <= j < |h.stacks| && a in Range(h.stacks[j].start, h.stacks[j].end);
        RangeMembers(h.stacks[j].start, h.stacks[j].end);
      }
    }

    lemma AllNoted()
      requires forall j :: 0 <= j < |h.stacks| ==> NotedRange(h.stacks[j].start, h.stacks[j].end)
      ensures StackPages(h, mem) <= dirty
    {
      forall a | a in h.StackWords() ensures Noted(h, mem, dirty, unflushed, a) {
        var j :| 0 <= j < |h.stacks| && a in Range(h.stacks[j].start, h.stacks[j].end);
        RangeMembers(h.stacks[j].start, h.stacks[j].end);
      }
    }

    /** GC_push_roots: static data first, since it must not overflow the stack, and the stacks last. */
    method PushRoots(all: bool)
      requires Inv({}) && |stack| <= size - INITIAL_MARK_STACK_SIZE / 2
      modifies this`mem, this`dirty, this`written, this`unflushed
      modifies this`marked, this`stack, this`state, this`tooSmall, this`lost
      ensures Inv({})
      ensures Steady(h, old(V({})), V({}))
      ensures old(marked) <= marked
      ensures marked == old(marked) ==> state == old(state)
      ensures state == old(state) || state == MS_INVALID
      ensures stopped && state != MS_INVALID ==> RootsOK(h, V({}))
      ensures stopped ==> StacksNoted()
    {
      ghost var u := V({});
      PushStatics(all);
      ghost var v := V({});
      PushStacks();
      SteadyTrans(h, u, v, V({}));
    }

    // ---------- The phases ----------

    /** alloc_mark_stack: ask for a larger stack.  Without memory this may silently fail. */
    method AllocMarkStack(n: nat, memory: bool)
      requires Inv({}) && stack == [] && size <= n
      modifies this`size, this`tooSmall
      ensures Inv({}) && !tooSmall
      ensures size == n || (size == old(size) && !memory)
    {
      hide Safe, Heap.Valid, DirtyOK;
      tooSmall := false;
      var granted: bool := *;
      if memory || granted {
        size := n;
      }
    }

    /** What the phases know about each other. */
    ghost predicate Flags()
      reads this`marked, this`stack, this`state, this`scan, this`objectsAreMarked, this`stopped
      reads this`lost, this`written, this`unflushed
    {
      && (state == MS_NONE ==> stack == [])
      && (state == MS_PARTIALLY_INVALID || state == MS_ROOTS_PUSHED ==> objectsAreMarked)
      && (!objectsAreMarked ==> OnlyUncollectable())
      && ((incremental || stopped) && state == MS_INVALID && !objectsAreMarked ==> scan == 0)
      && (stopped && lost ==> state == MS_INVALID || Lag() == {})
    }

    ghost predicate OnlyUncollectable()
      reads this`marked
    {
      UncollectableOnly(h, marked)
    }

    ghost predicate Ready()
      reads this`mem, this`marked, this`stack, this`written, this`unflushed, this`state, this`scan, this`grungy
      reads this`size, this`dirty, this`stopped, this`bound, this`objectsAreMarked, this`lost, this`start, this`near
      reads this`skip, this`spilt
    {
      Inv({}) && Flags()
    }

    /** How far the phase is from the end of marking, if no new object turns up. */
    ghost function Rank(): nat
      reads this`state, this`scan, this`objectsAreMarked
    {
      match state
      case MS_NONE => 0
      case MS_ROOTS_PUSHED => 1
      case MS_PUSH_RESCUERS => 2
      case MS_PARTIALLY_INVALID => 2
      case MS_PUSH_UNCOLLECTABLE => 2
      case MS_INVALID => if !objectsAreMarked then 3 else if scan == 0 then 4 else 5
    }

    ghost function BlocksLeft(): int
      reads this`scan
    {
      |h.blocks| - scan
    }

    ghost function Now(): Measure
      reads this`marked, this`stack, this`state, this`scan, this`objectsAreMarked
    {
      Measure(marked, Rank(), BlocksLeft(), TotalWeight(stack))
    }

    /** Mark from the stack for a while. */
    method Drain()
      requires Ready() && stack != []
      modifies this`mem, this`dirty, this`written, this`unflushed
      modifies this`marked, this`stack, this`state, this`tooSmall, this`lost, this`objectsAreMarked
      ensures Ready() && state != MS_NONE && objectsAreMarked
      ensures old(marked) <= marked && (state == old(state) || state == MS_INVALID)
      ensures stopped ==>
                mem == old(mem) && Lag() == old(Lag()) && old(dirty) <= dirty <= old(dirty) + StackPages(h, mem)
      ensures !stopped ==> Remembered(old(V({})), V({}))
      ensures marked == old(marked) ==> state == old(state) && TotalWeight(stack) < old(TotalWeight(stack))
    {
      hide Safe, Shape, Pending, ObjOK, TotalWeight, StackPages, Load, Eased;
      ghost var u := V({});
      MarkFrom();
    }

    /** Every block is dealt with: push the roots. */
    method FinishScan(all: bool)
      requires Ready() && AllOK(h, V({})) && |stack| <= size - INITIAL_MARK_STACK_SIZE / 2
      requires state == MS_PARTIALLY_INVALID || state == MS_PUSH_RESCUERS || state == MS_PUSH_UNCOLLECTABLE
      modifies this`mem, this`dirty, this`written, this`unflushed
      modifies this`marked, this`stack, this`state, this`tooSmall, this`lost, this`objectsAreMarked
      ensures Ready() && objectsAreMarked
      ensures old(marked) <= marked
      ensures stopped ==>
                mem == old(mem) && Lag() == old(Lag()) && old(dirty) <= dirty <= old(dirty) + StackPages(h, mem)
      ensures !stopped ==> Remembered(old(V({})), V({}))
      ensures state == MS_ROOTS_PUSHED || (state == MS_INVALID && marked != old(marked))
      ensures stopped ==> StacksNoted()
    {
      hide Safe, Heap.Valid, ObjOK, AllOK, RootsOK, Pending, DirtyOK, UncollectableOnly, Lag, StackPages;
      ghost var u := V({});
      PushRoots(all);
      objectsAreMarked := true;
      ghost var v := V({});
      SteadyLag(h, u, v);
      if state != MS_INVALID {
        SteadyAll(h, u, v);
        state := MS_ROOTS_PUSHED;
        RootsPushed(h, v, V({}), bound);
      }
    }

    /** MS_PUSH_RESCUERS and MS_PUSH_UNCOLLECTABLE: push the next block, or else the roots. */
    method PushThenRoots(all: bool)
      requires Ready() && (state == MS_PUSH_RESCUERS || state == MS_PUSH_UNCOLLECTABLE)
      requires |stack| <= size - INITIAL_MARK_STACK_SIZE / 2
      modifies this`mem, this`dirty, this`written, this`unflushed
      modifies this`marked, this`stack, this`state, this`tooSmall, this`lost, this`objectsAreMarked, this`scan
      ensures Ready() && state != MS_NONE
      ensures old(marked) <= marked
      ensures stopped ==>
                mem == old(mem) && Lag() == old(Lag()) && old(dirty) <= dirty <= old(dirty) + StackPages(h, mem)
      ensures !stopped ==> Remembered(old(V({})), V({}))
      ensures marked == old(marked) ==> state == MS_ROOTS_PUSHED || (state == old(state) && old(scan) < scan)
      ensures stopped && state == MS_ROOTS_PUSHED ==> StacksNoted()
    {
      hide Ready, V, AllOK, Lag, StackPages, Remembered;
      ghost var u := V({});
      Sized();
      ScanNext();
      ghost var v := V({});
      if scan == 0 {
        FinishScan(all);
        if !stopped {
          RememberedTrans(u, v, V({}));
        }
      }
    }

    /** Push the next block that the phase is interested in. */
    method ScanNext()
      requires Ready() && Room(|stack|)
      requires || state == MS_PARTIALLY_INVALID || state == MS_PUSH_RESCUERS
               || state == MS_PUSH_UNCOLLECTABLE || state == MS_INVALID
      requires state == MS_INVALID ==> objectsAreMarked
      modifies this`mem, this`dirty, this`written, this`unflushed
      modifies this`marked, this`stack, this`state, this`tooSmall, this`lost, this`objectsAreMarked, this`scan
      ensures Ready() && (old(objectsAreMarked) ==> objectsAreMarked)
      ensures old(marked) <= marked && (state == old(state) || state == MS_INVALID)
      ensures scan == 0 || old(scan) < scan
      ensures scan == 0 ==> marked == old(marked) && stack == old(stack) && state == old(state)
      ensures scan == 0 && state != MS_INVALID ==> AllOK(h, V({}))
      ensures marked == old(marked) ==> state == old(state)
      ensures stopped ==>
                mem == old(mem) && Lag() == old(Lag()) && old(dirty) <= dirty <= old(dirty) + StackPages(h, mem)
      ensures !stopped ==> Remembered(old(V({})), V({}))
    {
      hide Inv, AllOK, UncollectableOnly, Lag, StackPages, Pending, ObjOK, StillAwaited;
      ghost var u := V({});
      PushNext();
      SteadyLag(h, u, V({}));
    }

    /** MS_INVALID and MS_PARTIALLY_INVALID with an empty stack: push the next block; after the last one of an
        undisturbed pass, push the roots. */
    method Rescan(memory: bool)
      requires Ready() && (state == MS_INVALID || state == MS_PARTIALLY_INVALID)
      requires objectsAreMarked && stack == []
      modifies this`mem, this`dirty, this`written, this`unflushed
      modifies this`marked, this`stack, this`state, this`tooSmall, this`lost, this`objectsAreMarked, this`scan
      modifies this`size
      ensures Ready() && state != MS_NONE && objectsAreMarked
      ensures old(marked) <= marked
      ensures if old(state) == MS_INVALID && old(scan) == 0 then Resized(old(size), old(tooSmall), memory)
              else size == old(size)
      ensures stopped ==>
                mem == old(mem) && Lag() <= old(Lag()) && old(dirty) <= dirty <= old(dirty) + StackPages(h, mem)
      ensures !stopped ==> Remembered(old(V({})), V({}))
      ensures marked == old(marked) ==>
                || state == MS_ROOTS_PUSHED
                || (old(state) == MS_INVALID && old(scan) == 0 && state == MS_PARTIALLY_INVALID)
                || (state == old(state) && old(scan) < scan && (state == MS_INVALID ==> old(scan) != 0))
                || (old(state) == state == MS_INVALID && old(scan) != 0 && scan == 0)
      ensures stopped && state == MS_ROOTS_PUSHED ==> StacksNoted()
    {
      hide Ready, V, AllOK, Lag, StackPages, Remembered;
      ghost var u := V({});
      RememberedRefl(u);
      if scan == 0 && state == MS_INVALID {
        StartPass(memory);
      }
      Sized();
      ghost var v := V({});
      ScanNext();
      ghost var w := V({});
      if !stopped {
        RememberedTrans(u, v, w);
      }
      if scan == 0 && state == MS_PARTIALLY_INVALID {
        FinishScan(true);
        if !stopped {
          RememberedTrans(u, w, V({}));
        }
      }
    }

    /** Start a pass over the heap for marked objects.  The stack is empty, so it may be replaced by a larger one. */
    method StartPass(memory: bool)
      requires Ready() && state == MS_INVALID && scan == 0 && stack == [] && objectsAreMarked
      modifies this`state, this`tooSmall, this`size, this`written, this`unflushed
      ensures Ready() && state == MS_PARTIALLY_INVALID
      ensures !tooSmall && Resized(old(size), old(tooSmall), memory)
      ensures if stopped then Lag() == {} else Lag() == old(Lag()) && Remembered(old(V({})), V({}))
    {
      hide Safe, Heap.Valid, DirtyOK, Pending, UncollectableOnly, Lag, BlockIn;
      Regrow(memory);
      OwnedObjects();
      ghost var v := V({});
      state := MS_PARTIALLY_INVALID;
      Forget();
      NothingScanned(h, v, V({}), bound);
    }

    /** With the world stopped, all words are looked at again. */
    ghost method Forget()
      requires DirtyInv()
      modifies this`written, this`unflushed
      ensures if stopped then Lag() == {} else written == old(written) && unflushed == old(unflushed)
      ensures DirtyInv()
    {
      if stopped {
        written, unflushed := {}, {};
      }
    }

    /** Nothing is left on the stack: a mark phase is finished. */
    method FinishMarking(memory: bool)
      requires Ready() && state == MS_ROOTS_PUSHED && stack == []
      modifies this`state, this`tooSmall, this`size
      ensures Ready() && state == MS_NONE && objectsAreMarked
      ensures !tooSmall && Resized(old(size), old(tooSmall), memory)
      ensures AllOK(h, V({})) && (stopped ==> RootsOK(h, V({}))) && Remembered(old(V({})), V({}))
    {
      hide Safe, Heap.Valid, DirtyOK, Pending, AllOK, RootsOK, UncollectableOnly, Lag;
      ghost var v := V({});
      state := MS_NONE;
      Finished(h, v, V({}), bound);
      Regrow(memory);
    }

    /** The size of the stack was doubled, if it was too small and there was memory for that. */
    ghost predicate Resized(size0: nat, small0: bool, memory: bool)
      reads this`size
    {
      (size == size0 || (small0 && size == 2 * size0)) && (small0 && memory ==> size == 2 * size0)
    }

    /** If the stack was found to be too small, ask for a larger one. */
    method Regrow(memory: bool)
      requires Ready() && stack == []
      modifies this`tooSmall, this`size
      ensures Ready() && !tooSmall && Resized(old(size), old(tooSmall), memory)
    {
      hide Safe, Heap.Valid, DirtyOK;
      if tooSmall {
        AllocMarkStack(2 * size, memory);
      }
    }

    /** No collectable object is marked: only the uncollectable ones are to be pushed. */
    method StartUncollectable()
      requires Ready() && state == MS_INVALID && !objectsAreMarked && (incremental || stopped)
      modifies this`state, this`written, this`unflushed
      ensures Ready() && state == MS_PUSH_UNCOLLECTABLE
      ensures if stopped then Lag() == {} else Lag() == old(Lag()) && Remembered(old(V({})), V({}))
    {
      hide Safe, Heap.Valid, DirtyOK, Pending, UncollectableOnly, Lag, BlockIn;
      UncollectableBlocks();
      ghost var v := V({});
      state := MS_PUSH_UNCOLLECTABLE;
      Forget();
      NothingScanned(h, v, V({}), bound);
    }

    lemma UncollectableBlocks()
      requires Ready() && !objectsAreMarked
      ensures h.Valid() && marked <= h.home.Keys && forall o :: o in marked ==> h.blocks[h.home[o]].uncollectable
    {
    }

    lemma Sized()
      requires Ready()
      ensures INITIAL_MARK_STACK_SIZE <= size
    {
    }

    lemma NoStack()
      requires Ready()
      ensures state == MS_NONE ==> stack == []
      ensures state == MS_PARTIALLY_INVALID || state == MS_ROOTS_PUSHED ==> objectsAreMarked
      ensures BlocksLeft() >= 0
      ensures (incremental || stopped) && state == MS_INVALID && !objectsAreMarked ==> scan == 0
    {
    }

    /** GC_mark_some: do a small amount of marking; the result says whether this finished a mark phase. */
    method MarkSome(memory: bool) returns (done: bool)
      requires Ready() && (incremental || stopped)
      modifies this`mem, this`dirty, this`written, this`unflushed
      modifies this`marked, this`stack, this`state, this`tooSmall, this`lost, this`objectsAreMarked, this`scan
      modifies this`size
      ensures Ready()
      ensures old(marked) <= marked
      ensures if done || (old(state) == MS_INVALID && old(scan) == 0 && old(objectsAreMarked) && old(stack) == [])
              then Resized(old(size), old(tooSmall), memory) else size == old(size)
      ensures done ==> state == MS_NONE && objectsAreMarked && AllOK(h, V({})) && (stopped ==> RootsOK(h, V({})))
      ensures stopped && (old(state) == MS_ROOTS_PUSHED ==> old(StacksNoted())) ==>
                (done || state == MS_ROOTS_PUSHED ==> StacksNoted())
      ensures stopped ==>
                mem == old(mem) && Lag() <= old(Lag()) && old(dirty) <= dirty <= old(dirty) + StackPages(h, mem)
      ensures !stopped ==> Remembered(old(V({})), V({}))
      ensures !done && old(state) != MS_NONE ==>
                state != MS_NONE && Now().Closer(old(Now()))
    {
      hide Ready, V, AllOK, RootsOK, TotalWeight, Lag, StackPages, Remembered;
      RememberedRefl(V({}));
      done := false;
      Sized();
      NoStack();
      if state == MS_NONE {
      } else if state == MS_PUSH_RESCUERS {
        if |stack| - 1 >= size - INITIAL_MARK_STACK_SIZE / 2 {
          tooSmall := true;
          Drain();
        } else {
          PushThenRoots(false);
        }
      } else if state == MS_PUSH_UNCOLLECTABLE {
        if |stack| - 1 >= size / 4 {
          Drain();
        } else {
          PushThenRoots(true);
        }
      } else if state == MS_ROOTS_PUSHED {
        if stack != [] {
          Drain();
        } else {
          FinishMarking(memory);
          done := true;
        }
      } else if !objectsAreMarked {
        StartUncollectable();
      } else if stack != [] {
        Drain();
      } else {
        Rescan(memory);
      }
    }

    // ---------- Starting and stopping ----------

    /** GC_clear_marks: clear all mark bits except those of uncollectable objects. */
    method ClearMarks()
      requires Inv({}) && !stopped
      modifies this`marked, this`objectsAreMarked, this`state, this`scan
      ensures Inv({}) && state == MS_INVALID && scan == 0 && !objectsAreMarked && OnlyUncollectable()
      ensures marked == set o | o in old(marked) && h.blocks[h.home[o]].uncollectable
    {
      hide Safe, Heap.Valid, DirtyOK, Pending, BlockIn;
      OwnedObjects();
      marked := set o | o in marked && h.blocks[h.home[o]].uncollectable;
      objectsAreMarked, state, scan := false, MS_INVALID, 0;
      NothingClaimed(h, V({}), bound);
    }

    /** GC_invalidate_mark_state: give up the invariant and the stack. */
    method InvalidateMarkState()
      requires Inv({}) && !stopped
      modifies this`state, this`stack
      ensures Inv({}) && state == MS_INVALID && stack == []
    {
      hide Safe, Heap.Valid, DirtyOK, Pending;
      state, stack := MS_INVALID, [];
      NothingClaimed(h, V({}), bound);
    }

    /** Without incremental collection, marking that was given up cannot be used. */
    method Abandon()
      requires Ready() && !stopped && !incremental
      modifies this`state, this`stack
      ensures Ready() && state == MS_INVALID
    {
      InvalidateMarkState();
    }

    /** Words stored into and not reported yet hold pointers that are also on some stack. */
    ghost predicate Held()
      reads this`mem, this`unflushed
    {
      HeldOnStacks(h, mem, unflushed)
    }

    /** STOP_WORLD. */
    method StopWorld()
      requires Ready() && !stopped && stack == [] && (state == MS_NONE || (state == MS_INVALID && scan == 0))
      modifies this`stopped, this`bound, this`lost, this`start, this`near, this`skip, this`spilt
      ensures Ready() && JustStopped()
    {
      hide Heap.Valid, ObjOK, LiveSet, DirtyOK, UncollectableOnly, Tri;
      ghost var v := V({});
      LiveSetClosed(h, mem, true, marked);
      bound := LiveSet(h, mem, true, marked);
      lost, start, near, skip, spilt := false, marked, bound, {}, false;
      stopped := true;
      assert V({}).grey == {};
      NowStopped(h, v, V({}), bound);
    }

    /** GC_read_dirty: keep the dirty bits, unless they are not needed, and start afresh. */
    method ReadDirty(outputUnneeded: bool)
      modifies this`dirty, this`grungy
      ensures dirty == {} && grungy == if outputUnneeded then old(grungy) else old(dirty)
    {
      if !outputUnneeded {
        grungy := dirty;
      }
      dirty := {};
    }

    /** The world has just been stopped. */
    ghost predicate JustStopped()
      reads this`mem, this`marked, this`stack, this`stopped, this`bound, this`lost, this`start, this`near, this`skip
      reads this`spilt
    {
      && stopped && stack == [] && !lost && !spilt && start == marked && skip == {}
      && near == bound == LiveSet(h, mem, true, marked)
    }

    /** GC_initiate_gc: read the dirty bits and start a collection, a full one if the mark bits are invalid.  In any
        other state the program would abort. */
    method InitiateGc()
      requires Ready() && JustStopped()
      requires state == MS_INVALID || (state == MS_NONE && incremental)
      modifies this`dirty, this`grungy, this`written, this`unflushed, this`state, this`scan, this`near, this`skip
      ensures Ready() && scan == 0
      ensures incremental ==> dirty == {}
      ensures old(state) == MS_INVALID ==> state == MS_INVALID && Lag() == {} && near == old(near) && skip == {}
      ensures old(state) == MS_NONE ==> state == MS_PUSH_RESCUERS && grungy == old(dirty)
      ensures old(state) == MS_NONE ==>
                skip == Clean(h, marked, old(dirty)) && near == NearSet(h, mem, true, skip, marked)
      ensures old(state) == MS_NONE ==> Lag() == WordsOf(h, skip, old(unflushed))
    {
      if state == MS_NONE {
        StartPartial();
      } else {
        StartFull();
      }
    }

    /** Start from sticky mark bits: only what was stored into has to be looked at again. */
    method StartPartial()
      requires Ready() && JustStopped() && state == MS_NONE && incremental
      modifies this`dirty, this`grungy, this`written, this`unflushed, this`state, this`scan, this`near, this`skip
      ensures Ready() && scan == 0 && state == MS_PUSH_RESCUERS
      ensures dirty == {} && grungy == old(dirty)
      ensures skip == Clean(h, marked, old(dirty)) && near == NearSet(h, mem, true, skip, marked)
      ensures Lag() == WordsOf(h, skip, old(unflushed))
    {
      hide Safe, Heap.Valid, DirtyOK, BlockIn, NearSet, LiveSet, WordsOf, Clean, UncollectableOnly, Pending;
      ghost var w := Started(h, V({}), unflushed);
      StartsWell();
      ReadDirty(false);
      skip := Clean(h, marked, grungy);
      near := NearSet(h, mem, true, skip, marked);
      written, unflushed, scan, state := {}, WordsOf(h, skip, unflushed), 0, MS_PUSH_RESCUERS;
      NoneWritten();
      assert V({}) == w;
    }

    lemma StartsWell()
      requires Ready() && JustStopped() && state == MS_NONE
      ensures Safe(h, Started(h, V({}), unflushed), bound)
    {
      hide Safe, Heap.Valid, DirtyOK, BlockIn, NearSet, LiveSet, WordsOf, Clean, UncollectableOnly;
      assert V({}).grey == {};
      WrittenIsDirty();
      OwnedObjects();
      PartialStarts(h, V({}), written, unflushed, bound);
    }

    lemma OwnedObjects()
      requires Inv({})
      ensures h.Valid() && marked <= h.home.Keys && forall o :: o in marked ==> h.Owned(o)
    {
    }

    lemma NoneWritten()
      requires written == {}
      ensures DirtyInv()
    {
    }

    method StartFull()
      requires Ready() && JustStopped() && state == MS_INVALID
      modifies this`dirty, this`grungy, this`written, this`unflushed, this`scan
      ensures Ready() && scan == 0
      ensures incremental ==> dirty == {}
      ensures Lag() == {}
    {
      hide Safe, Heap.Valid, DirtyOK, BlockIn, LiveSet, UncollectableOnly, Pending, Within, Tri;
      FullStartsWell();
      ghost var w := V({}).(lag := {}, scan := 0, dirty := if incremental then {} else dirty);
      SafeAnyway(h, V({}), w, bound);
      if incremental {
        ReadDirty(true);
      }
      written, unflushed, scan := {}, {}, 0;
      NoneWritten();
      assert V({}) == w;
    }

    /** In the invalid state nothing is claimed about words. */
    lemma FullStartsWell()
      requires Ready() && JustStopped() && state == MS_INVALID
      ensures Within(h, V({}), bound)
    {
    }

    lemma WrittenIsDirty()
      requires Inv({})
      ensures forall o, a :: o in h.home && a in h.Fields(o) && a in written ==> BlockIn(dirty, h.blocks[h.home[o]])
    {
      forall o, a | o in h.home && a in h.Fields(o) && a in written ensures BlockIn(dirty, h.blocks[h.home[o]]) {
        FieldsInWords(h, o);
        assert a in h.Extent(o);
      }
    }

    /** START_WORLD. */
    method StartWorld()
      requires Ready()
      modifies this`stopped
      ensures Ready() && !stopped
    {
      stopped := false;
    }

    /** The view shows memory, remembered words and dirty pages as they are. */
    lemma Shown()
      ensures V({}).mem == mem && V({}).lag == Lag() && V({}).dirty == dirty
    {
    }

    lemma ValidHeap()
      requires Ready()
      ensures h.Valid() && marked <= h.home.Keys
    {
    }

    /** What is known when a mark phase has been finished with the world stopped. */
    lemma AtRest()
      requires Ready() && stopped && state == MS_NONE
      ensures h.Valid() && marked <= h.home.Keys && start <= marked <= bound && V({}).grey == {}
      ensures !lost ==> marked <= near
      ensures lost ==> Lag() == {} && (spilt || !(near <= start))
    {
      assert V({}).grey == {};
      if lost && !spilt {
        assert Fresh(V({}));
        assert marked * near <= near;
      }
    }

    lemma Quiet()
      requires Ready() && state == MS_NONE
      ensures stack == []
    {
    }

    lemma Cleared()
      requires Inv({}) && state == MS_INVALID && scan == 0 && OnlyUncollectable()
      ensures Ready()
    {
    }

    lemma LeftOver()
      requires Ready()
      ensures BlocksLeft() >= 0 && marked <= h.home.Keys
    {
    }
  }
}
