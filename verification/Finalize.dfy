/**
 Finalization: ordering by marking, the queue of objects ready to be finalized, and disappearing links.
 */
module Finalize {
  import opened MarkHeap
  import opened Reach
  import opened Running
  import opened Sequences
  import opened HashTable
  import opened Registrations
  import opened Links
  import M = Marker
  import C = Collector

  /** The second pass over the registrations r0, seen when it has come to position j of chain i and r is left: it took
      out only unmarked objects, which are marked now, and left none unmarked behind. */
  ghost predicate Sorted(h: Heap, mem: Addr -> Word, marked: set<ObjId>, head: seq<Chain<Fo>>, log: nat,
                         r: map<ObjId, Fo>, i: nat, j: nat, r0: map<ObjId, Fo>, marked0: set<ObjId>, enq: seq<Queued>)
    requires i < |head| ==> j <= |head[i]|
  {
    && Moves(r0, r, enq) && marked == marked0 + Bases(enq) && Bases(enq) !! marked0
    && (forall k :: k in r0 ==> FieldsIn(h, mem, marked, k))
    && (forall k :: k in r && Passed(head, log, i, j, k) ==> k in marked)
  }

  lemma SortedStep(h: Heap, mem: Addr -> Word, marked: set<ObjId>, head: seq<Chain<Fo>>, log: nat, r: map<ObjId, Fo>,
                   i: nat, j: nat, r0: map<ObjId, Fo>, marked0: set<ObjId>, enq: seq<Queued>)
    requires Stores(head, log, r) && i < |head| && j < |head[i]|
    requires Sorted(h, mem, marked, head, log, r, i, j, r0, marked0, enq)
    ensures var k := head[i][j].key;
            && k in r && FieldsIn(h, mem, marked, k)
            && if k in marked then Sorted(h, mem, marked, head, log, r, i, j + 1, r0, marked0, enq)
               else Sorted(h, mem, marked + {k}, head[i := Without(head[i], j)], log, r - {k}, i, j, r0, marked0,
                           [Queued(k, r[k])] + enq)
  {
    var k := head[i][j].key;
    StoresLess(head, log, r, i, j);
    PassedNext(head, log, r, i, j);
    hide Passed, FieldsIn, Moves, Stores, Hash, Bases;
    MovesIn(r0, r, enq, k);
    if k !in marked {
      MovesOne(r0, r, enq, k);
      PassedLess(head, log, i, j);
      FieldsInGrows(h, mem, marked, marked + {k});
    }
  }

  /** Stores by the mutator make no difference. */
  lemma SortedTouched(h: Heap, mem: Addr -> Word, mem': Addr -> Word, reach: set<ObjId>, busy: Addr -> bool,
                      marked: set<ObjId>, head: seq<Chain<Fo>>, log: nat, r: map<ObjId, Fo>,
                      i: nat, j: nat, r0: map<ObjId, Fo>, marked0: set<ObjId>, enq: seq<Queued>)
    requires (i < |head| ==> j <= |head[i]|) && Sorted(h, mem, marked, head, log, r, i, j, r0, marked0, enq)
    requires NullIsNoPointer(h) && Touched(h, mem, mem', {}, reach, busy) && reach <= marked
    ensures Sorted(h, mem', marked, head, log, r, i, j, r0, marked0, enq)
  {
    TouchedKeepsIn(h, mem, mem', {}, reach, busy, marked);
    hide Passed, FieldsIn, Moves, Hash, Bases, Touched;
  }

  lemma InFront(x: Queued, s: seq<Queued>, t: seq<Queued>)
    ensures [x] + (s + t) == [x] + s + t
  {
  }

  lemma OneLess(head: seq<Chain<Fo>>, i: nat, j: nat)
    requires i < |head| && j < |head[i]|
    ensures var head' := head[i := Without(head[i], j)]; |head'| == |head| && |head'[i]| == |head[i]| - 1
  {
  }

  lemma SortedStart(h: Heap, mem: Addr -> Word, marked: set<ObjId>, head: seq<Chain<Fo>>, log: nat, r: map<ObjId, Fo>)
    requires forall k :: k in r ==> FieldsIn(h, mem, marked, k)
    ensures Sorted(h, mem, marked, head, log, r, 0, 0, r, marked, [])
  {
    NothingMoved(r);
    PassedNone(head, log);
  }

  lemma SortedChain(h: Heap, mem: Addr -> Word, marked: set<ObjId>, head: seq<Chain<Fo>>, log: nat, r: map<ObjId, Fo>,
                    i: nat, r0: map<ObjId, Fo>, marked0: set<ObjId>, enq: seq<Queued>)
    requires Stores(head, log, r) && i < |head|
    requires Sorted(h, mem, marked, head, log, r, i, |head[i]|, r0, marked0, enq)
    ensures Sorted(h, mem, marked, head, log, r, i + 1, 0, r0, marked0, enq)
  {
    PassedChain(head, log, r, i);
    hide Passed, FieldsIn, Moves, Stores, Hash, Bases;
  }

  lemma SortedEnd(h: Heap, mem: Addr -> Word, marked: set<ObjId>, head: seq<Chain<Fo>>, log: nat, r: map<ObjId, Fo>,
                  r0: map<ObjId, Fo>, marked0: set<ObjId>, enq: seq<Queued>)
    requires Stores(head, log, r)
    requires Sorted(h, mem, marked, head, log, r, |head|, 0, r0, marked0, enq)
    ensures Moves(r0, r, enq) && marked == marked0 + Bases(enq) && Bases(enq) == Due(r0, marked0)
  {
    PassedAll(head, log, r);
    hide Passed, FieldsIn, Moves, Stores, Hash, Bases;
    AllMoved(r0, marked0, r, enq);
  }

  /** The fields of o are waiting on the stack or done with, unless the stack overflowed. */
  ghost predicate Unlost(h: Heap, v: View, o: ObjId) {
    || (v.state == MS_INVALID && v.lost)
    || (v.state == MS_NONE && forall a :: a in h.Fields(o) ==> Awaited(h, v, a))
  }

  lemma UnlostTouched(h: Heap, v: View, w: View, reach: set<ObjId>, busy: Addr -> bool, o: ObjId)
    requires Unlost(h, v, o) && w == v.(mem := w.mem)
    requires NullIsNoPointer(h) && reach <= v.marked && Touched(h, v.mem, w.mem, {}, reach, busy)
    ensures Unlost(h, w, o)
  {
    TouchedWords(h, v.mem, w.mem, {}, reach, busy, v.marked);
    hide Touched, WordOK;
  }

  lemma UnlostSteady(h: Heap, v: View, w: View, o: ObjId)
    requires Unlost(h, v, o) && Steady(h, v, w) && v.stopped
    ensures Unlost(h, w, o) && w.stopped && w.mem == v.mem && w.lag == v.lag && v.marked <= w.marked
  {
    hide ObjOK, WordOK;
  }

  /** The uncollectable objects among those in s. */
  ghost function Pinned(h: Heap, s: set<ObjId>): set<ObjId> {
    set o | o in s && h.Owned(o) && h.blocks[h.home[o]].uncollectable
  }

  // ---------- The queue while finalizers are called ----------

  /** s is t with something put in front. */
  ghost predicate EndsIn(s: seq<Queued>, t: seq<Queued>) {
    |t| <= |s| && s[|s| - |t|..] == t
  }

  lemma EndsInItself(s: seq<Queued>)
    ensures EndsIn(s, s)
  {
  }

  lemma EndsInWhole(s: seq<Queued>, t: seq<Queued>)
    requires EndsIn(s, t)
    ensures |t| <= |s| && (|s| == |t| ==> s == t)
  {
  }

  lemma EndsInTrans(s: seq<Queued>, t: seq<Queued>, u: seq<Queued>)
    requires EndsIn(s, t) && EndsIn(t, u)
    ensures EndsIn(s, u)
  {
    assert s[|s| - |t|..][|t| - |u|..] == s[|s| - |u|..];
  }

  ghost function Ids(q: seq<Queued>): seq<nat> {
    if q == [] then [] else Ids(q[..|q| - 1]) + [q[|q| - 1].fo.id]
  }

  /** The finalizers of q are among those called, and in this order. */
  ghost predicate InTurn(q: seq<Queued>, calls: seq<nat>) {
    if q == [] then true
    else exists k :: 0 <= k < |calls| && calls[k] == q[|q| - 1].fo.id && InTurn(q[..|q| - 1], calls[..k])
  }

  lemma NoneCalled(q: seq<Queued>)
    ensures InTurn(q[..0], []) && Ids(q[..0]) == []
  {
  }

  lemma {:induction false} InTurnMore(q: seq<Queued>, calls: seq<nat>, x: nat)
    requires InTurn(q, calls)
    ensures InTurn(q, calls + [x])
  {
    if q != [] {
      var k :| 0 <= k < |calls| && calls[k] == q[|q| - 1].fo.id && InTurn(q[..|q| - 1], calls[..k]);
      assert (calls + [x])[..k] == calls[..k] && (calls + [x])[k] == calls[k];
    }
  }

  lemma {:induction false} EnoughCalls(q: seq<Queued>, calls: seq<nat>)
    requires InTurn(q, calls)
    ensures |q| <= |calls|
  {
    if q != [] {
      var k :| 0 <= k < |calls| && calls[k] == q[|q| - 1].fo.id && InTurn(q[..|q| - 1], calls[..k]);
      EnoughCalls(q[..|q| - 1], calls[..k]);
    }
  }

  /** The first finalizer in the queue s was called.  If nothing is in front of what is left of the queue q, it is the
      d-th one of that. */
  lemma CalledNext(q: seq<Queued>, d: nat, s: seq<Queued>, calls: seq<nat>, s': seq<Queued>)
    requires d <= |q| && s != [] && EndsIn(s, q[d..]) && InTurn(q[..d], calls) && EndsIn(s', s[1..])
    ensures var d' := if |s| == |q| - d then d + 1 else d;
            && d' <= |q| && EndsIn(s', q[d'..]) && InTurn(q[..d'], calls + [s[0].fo.id])
            && (s == q[d..] && calls == Ids(q[..d]) ==>
                  d' == d + 1 && s[1..] == q[d'..] && calls + [s[0].fo.id] == Ids(q[..d']))
  {
    if |s| == |q| - d {
      assert s == q[d..] && s[1..] == q[d + 1..] && q[..d + 1][..d] == q[..d] && q[..d + 1][d] == s[0];
      var more := calls + [s[0].fo.id];
      assert more[..|calls|] == calls && more[|calls|] == q[..d + 1][d].fo.id;
    } else {
      InTurnMore(q[..d], calls, s[0].fo.id);
      assert s[1..][|s| - 1 - (|q| - d)..] == s[|s| - (|q| - d)..];
      EndsInTrans(s', s[1..], q[d..]);
    }
  }

  /** The first d finalizers of the queue q were called in turn, and the rest is at the end of the queue s; if
      nothing was queued meanwhile, there is nothing else. */
  ghost predicate Turns(q: seq<Queued>, d: nat, s: seq<Queued>, calls: seq<nat>, exact: bool) {
    && d <= |q| && EndsIn(s, q[d..]) && InTurn(q[..d], calls)
    && (exact ==> s == q[d..] && calls == Ids(q[..d]))
  }

  lemma TurnsStart(q: seq<Queued>, exact: bool)
    ensures Turns(q, 0, q, [], exact)
  {
    EndsInItself(q);
    NoneCalled(q);
    assert q[0..] == q;
  }

  lemma TurnsNext(q: seq<Queued>, d: nat, s: seq<Queued>, calls: seq<nat>, exact: bool, s': seq<Queued>)
    returns (d': nat)
    requires Turns(q, d, s, calls, exact) && s != [] && EndsIn(s', s[1..]) && (exact ==> s' == s[1..])
    ensures Turns(q, d', s', calls + [s[0].fo.id], exact)
  {
    hide EndsIn, InTurn, Ids;
    CalledNext(q, d, s, calls, s');
    d' := if |s| == |q| - d then d + 1 else d;
  }

  lemma TurnsEnd(q: seq<Queued>, d: nat, calls: seq<nat>, exact: bool)
    requires Turns(q, d, [], calls, exact)
    ensures InTurn(q, calls) && |q| <= |calls| && (exact ==> calls == Ids(q))
  {
    hide InTurn, Ids;
    assert q[..d] == q;
    EnoughCalls(q, calls);
  }

  /** The queue is pushed like a root (GC_push_finalizer_structures): a root word points to each object in it. */
  ghost predicate QueueHeld(h: Heap, mem: Addr -> Word, ready: seq<Queued>) {
    forall x :: x in Bases(ready) ==> RootPointsTo(h, mem, x)
  }

  /** So an object that waits in the queue survives collections, and so does all that it leads to. */
  lemma QueuedSurvive(h: Heap, mem: Addr -> Word, ready: seq<Queued>, marked: set<ObjId>)
    requires Complete(h, mem, marked)
    ensures QueueHeld(h, mem, ready) ==> Bases(ready) <= marked
    ensures QueueHeld(h, mem, ready) ==> forall x, y :: x in Bases(ready) && Beyond(h, mem, x, y) ==> y in marked
  {
    if QueueHeld(h, mem, ready) {
      CompleteIsClosed(h, mem, marked);
      forall x | x in Bases(ready) ensures x in marked {
        StartIsLive(h, mem, false, marked, x);
      }
      forall x, y | x in Bases(ready) && Beyond(h, mem, x, y) ensures y in marked {
        InClosed(h, mem, marked, x);
        BeyondIsMarked(h, mem, marked, x, y);
      }
    }
  }

  class Finalizer {
    const m: M.Marker
    const holder: map<Addr, ObjId>  // GC_base: the object that an address lies in
    const dl: Table<ObjId>          // short disappearing links
    const ll: Table<ObjId>          // long ones
    const fo: Table<Fo>             // registered finalizers, by object
    const busy: Addr -> bool        // the words that the mutator may store into while GC_finalize runs

    var ready: seq<Queued>          // finalize_now
    var issued: nat                 // registration nodes allocated so far
    var reach: set<ObjId>           // what the mutator can get at while GC_finalize runs

    ghost var invoked: seq<nat>     // the registrations whose finalizers were called, in this order
    ghost var dropped: set<nat>     // those that were withdrawn

    /** With nothing registered. */
    constructor (m: M.Marker, holder: map<Addr, ObjId>, busy: Addr -> bool)
      requires NullIsNoPointer(m.h)
      ensures Valid() && fresh(dl) && fresh(ll) && fresh(fo)
      ensures this.m == m && this.holder == holder && this.busy == busy && ready == [] && fo.m == map[]
      ensures dl.m == map[] && ll.m == map[]
    {
      this.m, this.holder, this.busy := m, holder, busy;
      dl := new Table();
      ll := new Table();
      fo := new Table();
      ready, issued, reach, invoked, dropped := [], 0, {}, [], {};
      new;
      NoneRegistered();
    }

    /** Nothing is being marked, and what is marked is closed. */
    ghost predicate Settled()
      reads m
    {
      m.Ready() && m.stopped && m.state == MS_NONE && m.objectsAreMarked && m.Lag() == {}
    }

    lemma SettledIsClosed()
      requires Settled()
      ensures Closed(m.h, m.mem, m.marked) && m.h.Valid() && m.marked <= m.h.home.Keys
    {
      var v := m.V({});
      assert v.grey == {} == v.lag;
      forall o | o in m.marked ensures FieldsIn(m.h, m.mem, m.marked, o) {
        assert ObjOK(m.h, v, o);
      }
    }

    /** Whatever the mutator does before finalization goes on.  These stores need not be remembered, since what they
        store is marked. */
    method Mutate()
      requires Settled() && NullIsNoPointer(m.h) && reach <= m.marked
      modifies m`mem
      ensures Settled() && Touched(m.h, old(m.mem), m.mem, {}, reach, busy)
    {
      hide M.Marker.Inv, Touched, NullIsNoPointer;
      MutateNow();
    }

    /** The same at any time, also in the middle of marking. */
    method MutateNow()
      requires m.Inv({}) && m.stopped && NullIsNoPointer(m.h) && reach <= m.marked
      modifies m`mem
      ensures m.Inv({}) && Touched(m.h, old(m.mem), m.mem, {}, reach, busy)
      ensures m.V({}) == old(m.V({})).(mem := m.mem)
    {
      hide M.Marker.Inv, Touched, MayStore, Harmless, NullIsNoPointer;
      Untouched(m.h, m.mem, reach, busy);
      var steps: nat := *;
      while steps > 0
        invariant m.Inv({}) && Touched(m.h, old(m.mem), m.mem, {}, reach, busy)
      {
        var a: Addr, w: Word := *, *;
        if MayStore(m.h, reach, busy, a) && Harmless(m.h, reach, w) {
          ghost var mem1 := m.mem;
          MutatorStore(a, w);
          TouchedAgain(m.h, old(m.mem), mem1, m.mem, {}, reach, busy);
        }
        steps := steps - 1;
      }
    }

    /** The mutator, which has objects in `reach` only, stores w at a. */
    method MutatorStore(a: Addr, w: Word)
      requires m.Inv({}) && m.stopped && NullIsNoPointer(m.h) && reach <= m.marked
      requires MayStore(m.h, reach, busy, a) && Harmless(m.h, reach, w)
      modifies m`mem
      ensures m.Inv({}) && Touched(m.h, old(m.mem), m.mem, {}, reach, busy)
    {
      hide Heap.Valid, Safe, DirtyOK, Pending, Touched, MayStore, Harmless;
      ghost var v := m.V({});
      var was := m.mem;
      m.mem := x => if x == a then w else was(x);
      StoreTouched(m.h, was, m.mem, a, w, reach, busy);
      TouchedKeepsSafe(m.h, v, m.V({}), {}, reach, busy, m.bound);
    }

    /** Let marking spread to all that can be reached from the marked objects and from s, and forget about overflows. */
    ghost method Allow(s: set<ObjId>)
      requires m.Inv({}) && m.stopped && m.stack == [] && s <= m.h.home.Keys
      requires m.marked <= LiveSet(m.h, m.mem, true, s)
      modifies m`bound, m`lost, m`start, m`near, m`skip
      ensures m.Inv({}) && m.bound == LiveSet(m.h, m.mem, true, s) == m.near && !m.lost && m.skip == {}
    {
      hide Heap.Valid, Safe, LiveSet, DirtyOK, Pending, M.Marker.Lag, ClosedBound;
      ghost var v, b := m.V({}), LiveSet(m.h, m.mem, true, s);
      NothingPending();
      LiveSetClosed(m.h, m.mem, true, s);
      ghost var w := v.(lost := false, start := m.marked, near := b, skip := {});
      WiderBound(m.h, v, w, m.bound, b);
      m.bound, m.lost, m.start, m.near, m.skip := b, false, m.marked, b, {};
      assert m.V({}) == w;
    }

    /** GC_normal_finalize_mark_proc: push the fields of o.  The stack is empty, so it does not overflow. */
    method PushFields(o: ObjId)
      requires Settled() && o in m.h.home && Targets(m.h, m.mem, {o}) <= m.Scope()
      modifies m`stack, m`state, m`tooSmall, m`lost
      ensures m.Inv({}) && m.state == MS_NONE && m.lost == old(m.lost)
      ensures |m.stack| <= 1 && Pending(m.stack) <= m.h.Fields(o)
      ensures forall a :: a in m.h.Fields(o) ==> Awaited(m.h, m.V({}), a)
    {
      hide Heap.Valid, Safe, DirtyOK, Pending, Pushed, UncollectableOnly, WordOK, Targets, M.Marker.Lag;
      m.Quiet();
      m.ValidHeap();
      m.OwnedObject(o);
      ghost var v := m.V({});
      PushedOnEmpty(m.h.EntryOf(o), m.size);
      m.PushObj(o);
      PendingPushed([], m.h.EntryOf(o), m.size);
      NothingPending();
      FieldsInWords(m.h, o);
      WordsLeadTo(m.h, m.mem, o, m.Scope());
      assert Limit(v, m.bound) == m.Scope();
      MoreGrey(m.h, v, m.V({}), m.bound);
    }

    /** The fields of o are waiting on the stack or done with, unless the stack overflowed. */
    ghost predicate Draining(o: ObjId)
      reads m
    {
      && m.Inv({}) && m.stopped && m.objectsAreMarked && m.Lag() == {}
      && Unlost(m.h, m.V({}), o)
    }

    /** The words on the stack are none that the mutator may store into. */
    ghost predicate Private()
      reads m`stack, this`reach
    {
      forall a :: a in Pending(m.stack) ==> !MayStore(m.h, reach, busy, a)
    }

    /** Fields of objects that the mutator cannot get at. */
    lemma OwnFields(o: ObjId)
      requires m.h.Valid() && o in m.h.home && Pending(m.stack) <= m.h.Fields(o)
      ensures o !in reach ==> Private()
    {
      FieldsInExtent(m.h, o);
      RangeMembers(o, o + m.h.blocks[m.h.home[o]].sz);
    }

    /** What marking adds is private too. */
    lemma StillPrivate(load: Burden)
      requires m.h.Valid() && Fed(load, m.Load()) && reach <= load.marked && m.marked <= m.h.home.Keys
      requires forall a :: a in Pending(load.stack) ==> !MayStore(m.h, reach, busy, a)
      ensures Private()
    {
      forall a | a in Pending(m.stack) && a !in Pending(load.stack) ensures !MayStore(m.h, reach, busy, a) {
        var o :| o in m.marked - load.marked && a in m.h.Fields(o);
        FieldsInExtent(m.h, o);
        RangeMembers(o, o + m.h.blocks[m.h.home[o]].sz);
        assert a in m.h.Extent(o);
      }
    }

    /** Mark from the stack until it is empty, with the mutator running.  The scan of one entry is taken as one step;
        but if the words on the stack are private at first, they are so all the time, and then stores by the mutator in
        the middle of such a step make no difference to it. */
    method DrainAll(ghost o: ObjId)
      requires Draining(o) && NullIsNoPointer(m.h) && reach <= m.marked
      modifies m`mem, m`dirty, m`written, m`unflushed
      modifies m`marked, m`stack, m`state, m`tooSmall, m`lost
      ensures Draining(o) && m.stack == [] && old(m.marked) <= m.marked
      ensures Touched(m.h, old(m.mem), m.mem, {}, reach, busy)
      ensures Eased(old(m.Load()), old(m.lost), m.Load(), m.lost, m.size)
    {
      hide Draining, TotalWeight, M.Marker.Load, Eased, Touched, NullIsNoPointer, Private;
      EasedRefl(m.Load(), m.lost, m.size);
      Untouched(m.h, m.mem, reach, busy);
      while m.stack != []
        invariant Draining(o) && old(m.marked) <= m.marked && reach <= m.marked
        invariant Touched(m.h, old(m.mem), m.mem, {}, reach, busy)
        invariant Eased(old(m.Load()), old(m.lost), m.Load(), m.lost, m.size)
        invariant old(Private()) ==> Private()
        decreases m.h.home.Keys - m.marked, TotalWeight(m.stack)
      {
        ghost var mem0, marked0, load, lost0 := m.mem, m.marked, m.Load(), m.lost;
        DrainOne(o);
        EasedTrans(old(m.Load()), old(m.lost), load, lost0, m.Load(), m.lost, m.size);
        TouchedAgain(m.h, old(m.mem), mem0, m.mem, {}, reach, busy);
      }
    }

    /** The mutator does something, and then an entry is scanned. */
    method DrainOne(ghost o: ObjId)
      requires Draining(o) && NullIsNoPointer(m.h) && reach <= m.marked && m.stack != []
      modifies m`mem, m`dirty, m`written, m`unflushed
      modifies m`marked, m`stack, m`state, m`tooSmall, m`lost
      ensures Draining(o) && old(m.marked) <= m.marked
      ensures Touched(m.h, old(m.mem), m.mem, {}, reach, busy)
      ensures Eased(old(m.Load()), old(m.lost), m.Load(), m.lost, m.size)
      ensures old(Private()) ==> Private()
      ensures || m.h.home.Keys - m.marked < m.h.home.Keys - old(m.marked)
              || (m.marked == old(m.marked) && TotalWeight(m.stack) < old(TotalWeight(m.stack)))
    {
      hide M.Marker.Inv, TotalWeight, Fed, Touched, NullIsNoPointer, Steady, Unlost, M.Marker.Lag, Burden.Amount;
      ghost var v, load := m.V({}), m.Load();
      MutateNow();
      ghost var u := m.V({});
      UnlostTouched(m.h, v, u, reach, busy, o);
      var credit := m.MarkOne();
      UnlostSteady(m.h, u, m.V({}), o);
      InBound();
      if old(Private()) {
        StillPrivate(load);
      }
    }

    /** GC_set_mark_bit, when the invariant has been given up. */
    method SetMarkBit(o: ObjId)
      requires m.Inv({}) && m.stopped && m.state == MS_INVALID && o in m.Scope() && o in m.h.home
      modifies m`marked
      ensures m.Inv({}) && m.marked == old(m.marked) + {o}
    {
      hide Heap.Valid, Safe, DirtyOK, Pending;
      ghost var v := m.V({});
      m.marked := m.marked + {o};
      OneMoreInvalid(m.h, v, m.V({}), o, m.bound);
    }

    /** The phases of marking, to the end, with the mutator running; each call of GC_mark_some is taken as one step. */
    method MarkAll()
      requires m.Ready() && m.stopped && m.state != MS_NONE && NullIsNoPointer(m.h) && reach <= m.marked
      modifies m`mem, m`dirty, m`written, m`unflushed
      modifies m`marked, m`stack, m`state, m`tooSmall, m`lost, m`objectsAreMarked, m`scan, m`size
      ensures m.Ready() && m.state == MS_NONE && m.objectsAreMarked && m.Lag() <= old(m.Lag())
      ensures Touched(m.h, old(m.mem), m.mem, {}, reach, busy) && old(m.marked) <= m.marked && m.size >= old(m.size)
    {
      hide M.Marker.Inv, M.Marker.V, M.Marker.Lag, AllOK, RootsOK, TotalWeight, M.Marker.Rank, UncollectableOnly,
           StackPages, Touched, NullIsNoPointer;
      Untouched(m.h, m.mem, reach, busy);
      var done := false;
      while !done
        invariant m.Ready() && m.Lag() <= old(m.Lag()) && m.size >= old(m.size)
        invariant Touched(m.h, old(m.mem), m.mem, {}, reach, busy) && old(m.marked) <= m.marked && reach <= m.marked
        invariant if done then m.state == MS_NONE && m.objectsAreMarked else m.state != MS_NONE
        decreases !done, m.h.home.Keys - m.marked, m.Rank(), m.BlocksLeft(), TotalWeight(m.stack)
      {
        m.LeftOver();
        ghost var mem0, marked0 := m.mem, m.marked;
        MutateNow();
        TouchedAgain(m.h, old(m.mem), mem0, m.mem, {}, reach, busy);
        var memory: bool := *;
        done := m.MarkSome(memory);
        m.LeftOver();
        assert marked0 < m.marked ==> m.h.home.Keys - m.marked < m.h.home.Keys - marked0;
      }
    }

    /** The mark stack overflowed while marking from o: mark o and go through the phases of marking. */
    method Recover(o: ObjId, ghost s: set<ObjId>)
      requires m.Inv({}) && m.stopped && m.state == MS_INVALID && m.stack == [] && m.objectsAreMarked && m.Lag() == {}
      requires m.h.Valid() && o in s && s <= m.h.home.Keys && m.marked <= LiveSet(m.h, m.mem, true, s)
      requires NullIsNoPointer(m.h) && reach <= m.marked
      modifies m`mem, m`dirty, m`written, m`unflushed
      modifies m`marked, m`stack, m`state, m`tooSmall, m`objectsAreMarked, m`scan, m`size, m`bound, m`lost, m`start
      modifies m`near, m`skip
      ensures Settled() && old(m.marked) + {o} <= m.marked && m.size >= old(m.size)
      ensures Touched(m.h, old(m.mem), m.mem, {}, reach, busy)
      ensures m.marked <= LiveSet(m.h, old(m.mem), true, s)
    {
      hide M.Marker.Inv, M.Marker.V, M.Marker.Lag, LiveSet, UncollectableOnly, Heap.Valid, Touched, NullIsNoPointer;
      Allow(s);
      LiveSetClosed(m.h, m.mem, true, s);
      SetMarkBit(o);
      MarkAll();
      InBound();
    }

    /** The stack is empty and did not overflow: the words that were waiting on it are dealt with. */
    lemma Scanned(o: ObjId)
      requires m.stack == [] && m.state == MS_NONE && Unlost(m.h, m.V({}), o)
      ensures FieldsIn(m.h, m.mem, m.marked, o)
    {
      assert m.V({}).grey == {};
      forall a | a in m.h.Fields(o) ensures WordOK(m.h, m.mem, m.marked, a) {
        assert Awaited(m.h, m.V({}), a);
      }
    }

    /** Is the mark stack large enough for all objects that are not marked?  Then marking from an empty stack cannot
        overflow it. */
    ghost predicate Roomy()
      reads m`marked, m`size
    {
      RoomFor(m.h, m.marked, m.size)
    }

    /** GC_MARK_FO with the default mark procedure: mark everything that o points to, with the mutator running.  If the
        mark stack overflows on the way, o itself gets marked too. */
    method MarkFo(o: ObjId) returns (ghost over: set<ObjId>)
      requires Settled() && o in m.h.home && NullIsNoPointer(m.h) && reach <= m.marked
      modifies m`mem, m`dirty, m`written, m`unflushed
      modifies m`marked, m`stack, m`state, m`tooSmall, m`objectsAreMarked, m`scan, m`size, m`bound, m`lost, m`start
      modifies m`near, m`skip
      ensures Settled() && old(m.marked) <= m.marked
      ensures Touched(m.h, old(m.mem), m.mem, {}, reach, busy)
      ensures FieldsIn(m.h, m.mem, m.marked, o)
      ensures m.marked <= LiveSet(m.h, old(m.mem), true, Starts(m.h, old(m.mem), old(m.marked), {o}, over))
      ensures over <= {o} && over <= m.marked
      ensures old(Roomy()) ==> over == {} && Roomy()
    {
      hide Settled, LiveSet, Targets, Closed, FieldsIn, Heap.Valid, RoomFor, Starts, M.Marker.Inv, M.Marker.Lag;
      hide Touched, NullIsNoPointer;
      ghost var mem0, marked0, size0 := m.mem, m.marked, m.size;
      SettledIsClosed();
      StartsOfOne(m.h, m.mem, marked0, o);
      ghost var full := Spread(o, Starts(m.h, m.mem, marked0, {o}, {}));
      over := if full then {o} else {};
      if m.state != MS_NONE {
        MarkAgain(o, mem0, marked0);
      }
      if RoomFor(m.h, marked0, size0) {
        MoreRoom(m.h, marked0, size0, m.marked, m.size);
      }
    }

    /** The second half of it, after an overflow. */
    method MarkAgain(o: ObjId, ghost mem0: Addr -> Word, ghost marked0: set<ObjId>)
      requires m.Inv({}) && m.stopped && m.state == MS_INVALID && m.stack == [] && m.objectsAreMarked && m.Lag() == {}
      requires m.h.Valid() && o in m.h.home && NullIsNoPointer(m.h) && reach <= m.marked <= m.h.home.Keys
      requires marked0 <= m.marked <= LiveSet(m.h, mem0, true, marked0 + {o})
      requires Touched(m.h, mem0, m.mem, {}, reach, busy)
      modifies m`mem, m`dirty, m`written, m`unflushed
      modifies m`marked, m`stack, m`state, m`tooSmall, m`objectsAreMarked, m`scan, m`size, m`bound, m`lost, m`start
      modifies m`near, m`skip
      ensures Settled() && old(m.marked) + {o} <= m.marked <= LiveSet(m.h, mem0, true, marked0 + {o})
      ensures m.size >= old(m.size)
      ensures Touched(m.h, mem0, m.mem, {}, reach, busy) && FieldsIn(m.h, m.mem, m.marked, o)
    {
      hide Settled, LiveSet, Closed, FieldsIn, Heap.Valid, M.Marker.Inv, M.Marker.Lag, Touched, NullIsNoPointer;
      ghost var mem1, s := m.mem, m.marked + {o};
      LiveSetClosed(m.h, mem1, true, s);
      LiveSetClosed(m.h, mem0, true, marked0 + {o});
      LiveShrinks(m.h, mem0, mem1, reach, busy, s);
      LiveOfLive(m.h, mem0, s, marked0 + {o});
      Recover(o, s);
      TouchedAgain(m.h, mem0, mem1, m.mem, {}, reach, busy);
      SettledIsClosed();
      InClosed(m.h, m.mem, m.marked, o);
    }

    /** Mark from the fields of o until the stack is empty.  If it overflows, the invariant is lost. */
    method Spread(o: ObjId, ghost s: set<ObjId>) returns (ghost over: bool)
      requires Settled() && o in m.h.home && s == m.marked + Targets(m.h, m.mem, {o}) && s <= m.h.home.Keys
      requires NullIsNoPointer(m.h) && reach <= m.marked
      modifies m`mem, m`dirty, m`written, m`unflushed
      modifies m`marked, m`stack, m`state, m`tooSmall, m`bound, m`lost, m`start, m`near, m`skip
      ensures m.Inv({}) && m.stopped && m.stack == [] && m.objectsAreMarked && m.Lag() == {}
      ensures old(m.marked) <= m.marked <= m.h.home.Keys && m.marked <= LiveSet(m.h, old(m.mem), true, s)
      ensures Touched(m.h, old(m.mem), m.mem, {}, reach, busy)
      ensures over <==> m.state != MS_NONE
      ensures if over then m.state == MS_INVALID else Settled() && FieldsIn(m.h, m.mem, m.marked, o)
      ensures old(Roomy()) ==> !over
    {
      hide LiveSet, Heap.Valid, Targets, FieldsIn, Settled, Draining, Fed, Burden.Amount, Private, RoomFor, Touched,
           NullIsNoPointer;
      Begin(o, s);
      DrainAll(o);
      Drained(o);
      over := m.state != MS_NONE;
    }

    /** What has been achieved when the stack is empty. */
    lemma Drained(o: ObjId)
      requires Draining(o) && m.stack == []
      ensures m.Inv({}) && m.stopped && m.objectsAreMarked && m.Lag() == {} && m.marked <= m.bound
      ensures m.marked <= m.h.home.Keys
      ensures || (m.state == MS_INVALID && m.lost)
              || (m.state == MS_NONE && Settled() && FieldsIn(m.h, m.mem, m.marked, o))
    {
      hide M.Marker.Inv, UncollectableOnly, Heap.Valid, FieldsIn, Pending;
      InBound();
      if m.state != MS_INVALID {
        Scanned(o);
      }
    }

    method Begin(o: ObjId, ghost s: set<ObjId>)
      requires Settled() && o in m.h.home && s == m.marked + Targets(m.h, m.mem, {o}) && s <= m.h.home.Keys
      modifies m`stack, m`state, m`tooSmall, m`bound, m`lost, m`start, m`near, m`skip
      ensures Draining(o) && !m.lost && m.bound == LiveSet(m.h, m.mem, true, s)
      ensures Roomy() ==> m.Load().Amount() <= m.size
      ensures o !in reach ==> Private()
    {
      hide M.Marker.Inv, LiveSet, UncollectableOnly, Heap.Valid, Targets, Awaited, M.Marker.Lag, M.Marker.V,
           Burden.Amount, Unlost, Private;
      SettledIsClosed();
      m.Quiet();
      LiveSetClosed(m.h, m.mem, true, s);
      Allow(s);
      PushFields(o);
      BurdenOfOne(m.h, m.stack, m.marked);
      OwnFields(o);
      AllAwaited(o);
    }

    lemma AllAwaited(o: ObjId)
      requires m.state == MS_NONE && forall a :: a in m.h.Fields(o) ==> Awaited(m.h, m.V({}), a)
      ensures Unlost(m.h, m.V({}), o)
    {
    }

    lemma InBound()
      requires m.Inv({}) && m.stopped
      ensures m.marked <= m.bound && m.marked <= m.h.home.Keys && m.h.Valid()
    {
    }

    /** Every registered object is an object. */
    ghost predicate Registered()
      reads this, fo
    {
      fo.Valid() && forall k :: k in fo.m ==> k in m.h.home
    }

    /** The first pass of GC_finalize over the registrations, seen when it has come to position j of chain i. */
    ghost predicate Considered(i: nat, j: nat)
      reads this, m, fo
      requires fo.log >= 0 && (i < |fo.head| ==> j <= |fo.head[i]|)
    {
      forall k :: k in fo.m && Passed(fo.head, fo.log, i, j, k) ==> FieldsIn(m.h, m.mem, m.marked, k)
    }

    /** Stores by the mutator, and further marking, do not undo the first pass. */
    lemma StillConsidered(mem0: Addr -> Word, marked0: set<ObjId>, i: nat, j: nat)
      requires fo.log >= 0 && (i < |fo.head| ==> j <= |fo.head[i]|)
      requires NullIsNoPointer(m.h) && Touched(m.h, mem0, m.mem, {}, reach, busy) && reach <= marked0 <= m.marked
      requires forall k :: k in fo.m && Passed(fo.head, fo.log, i, j, k) ==> FieldsIn(m.h, mem0, marked0, k)
      ensures Considered(i, j)
    {
      TouchedKeepsIn(m.h, mem0, m.mem, {}, reach, busy, marked0);
      FieldsInGrows(m.h, m.mem, marked0, m.marked);
      hide Touched, FieldsIn, Passed;
    }

    /** Marking has stayed within what could be reached, with mem1 in memory, from the objects marked then and those
        with finalizers; since then the mutator may have stored something. */
    ghost predicate Bounded(mem1: Addr -> Word, over: set<ObjId>)
      reads this, m, fo
    {
      && Touched(m.h, mem1, m.mem, {}, reach, busy)
      && reach <= m.marked <= LiveSet(m.h, mem1, true, Starts(m.h, mem1, reach, Due(fo.m, reach), over))
      && over <= Due(fo.m, reach) && over <= m.marked
    }

    /** One step of the first pass. */
    method Consider(i: nat, j: nat, ghost mem1: Addr -> Word, ghost over: set<ObjId>) returns (ghost over': set<ObjId>)
      requires Settled() && Registered() && NullIsNoPointer(m.h) && Bounded(mem1, over)
      requires fo.log >= 0 && i < |fo.head| && j < |fo.head[i]| && Considered(i, j)
      modifies m`mem, m`dirty, m`written, m`unflushed
      modifies m`marked, m`stack, m`state, m`tooSmall, m`objectsAreMarked, m`scan, m`size
      modifies m`bound, m`lost, m`start, m`near, m`skip
      ensures Settled() && Considered(i, j + 1) && Bounded(mem1, over')
      ensures old(Roomy()) ==> Roomy() && over' == over
    {
      hide Settled, LiveSet, Starts, Closed, FieldsIn, Passed, Hash, Heap.Valid, Distinct, Roomy, Touched,
           NullIsNoPointer;
      ghost var mem0, marked0 := m.mem, m.marked;
      Mutate();
      TouchedAgain(m.h, mem1, mem0, m.mem, {}, reach, busy);
      StillConsidered(mem0, marked0, i, j);
      var k := fo.head[i][j].key;
      assert Filed(fo.head[i][j], i, fo.log, fo.m);
      SettledIsClosed();
      mem0, over' := m.mem, over;
      if k !in m.marked {
        over' := MarkNext(k, mem1, over);
        StillConsidered(mem0, marked0, i, j);
      } else {
        InClosed(m.h, m.mem, m.marked, k);
      }
      PassedNext(fo.head, fo.log, fo.m, i, j);
    }

    /** Mark from the registered object k. */
    method MarkNext(k: ObjId, ghost mem1: Addr -> Word, ghost over: set<ObjId>) returns (ghost over': set<ObjId>)
      requires Settled() && Registered() && NullIsNoPointer(m.h) && Bounded(mem1, over) && k in fo.m && k !in m.marked
      modifies m`mem, m`dirty, m`written, m`unflushed
      modifies m`marked, m`stack, m`state, m`tooSmall, m`objectsAreMarked, m`scan, m`size
      modifies m`bound, m`lost, m`start, m`near, m`skip
      ensures Settled() && Bounded(mem1, over') && old(m.marked) <= m.marked
      ensures Touched(m.h, old(m.mem), m.mem, {}, reach, busy)
      ensures FieldsIn(m.h, m.mem, m.marked, k)
      ensures old(Roomy()) ==> Roomy() && over' == over
    {
      hide Settled, LiveSet, Starts, Closed, FieldsIn, Heap.Valid, Distinct, Roomy, Touched, NullIsNoPointer, Stores;
      SettledIsClosed();
      ghost var mem0, marked1 := m.mem, m.marked;
      ghost var over1 := MarkFo(k);
      TouchedAgain(m.h, mem1, mem0, m.mem, {}, reach, busy);
      assert forall x :: x in Due(fo.m, reach) ==> x in m.h.home;
      StartsBefore(m.h, mem1, mem0, reach, busy, marked1, k, over1);
      StartsStep(m.h, mem1, reach, Due(fo.m, reach), over, marked1, k, over1);
      over' := over + over1;
    }

    /** Mark all objects reachable through one or more pointers from unmarked objects with finalizers. */
    method MarkFromFinalizable() returns (ghost over: set<ObjId>)
      requires Settled() && Registered() && NullIsNoPointer(m.h) && reach == m.marked
      modifies m`mem, m`dirty, m`written, m`unflushed
      modifies m`marked, m`stack, m`state, m`tooSmall, m`objectsAreMarked, m`scan, m`size
      modifies m`bound, m`lost, m`start, m`near, m`skip
      ensures Settled() && Bounded(old(m.mem), over)
      ensures forall k :: k in fo.m ==> FieldsIn(m.h, m.mem, m.marked, k)
      ensures old(Roomy()) ==> over == {}
    {
      hide Settled, LiveSet, Starts, Closed, FieldsIn, Passed, Hash, Heap.Valid, Distinct, Due, Stores, Pow2, Roomy,
           Bounded;
      over := {};
      NothingNew();
      if fo.log == -1 {
        return;
      }
      PassedNone(fo.head, fo.log);
      var i := 0;
      while i < |fo.head|
        invariant i <= |fo.head| && Settled() && Registered() && Considered(i, 0)
        invariant Bounded(old(m.mem), over) && (old(Roomy()) ==> Roomy() && over == {})
      {
        var j := 0;
        while j < |fo.head[i]|
          invariant j <= |fo.head[i]| && Settled() && Registered() && Considered(i, j)
          invariant Bounded(old(m.mem), over) && (old(Roomy()) ==> Roomy() && over == {})
        {
          over := Consider(i, j, old(m.mem), over);
          j := j + 1;
        }
        PassedChain(fo.head, fo.log, fo.m, i);
        i := i + 1;
      }
      assert i == |fo.head|;
      PassedAll(fo.head, fo.log, fo.m);
      forall k | k in fo.m ensures FieldsIn(m.h, m.mem, m.marked, k) {
        assert Passed(fo.head, fo.log, i, 0, k);
      }
    }

    lemma NothingNew()
      requires Settled() && Registered() && reach == m.marked
      ensures Bounded(m.mem, {})
    {
      SettledIsClosed();
      Untouched(m.h, m.mem, reach, busy);
      TargetsAreHere(m.h, m.mem, Due(fo.m, reach));
      LiveSetClosed(m.h, m.mem, true, Starts(m.h, m.mem, reach, Due(fo.m, reach), {}));
    }

    ghost predicate Accounted()
      reads this, fo
    {
      Registered() && Accounts(fo.m, ready, invoked, dropped, issued)
    }

    /** GC_set_mark_bit for an object all of whose targets are marked. */
    method SetMark(o: ObjId)
      requires Settled() && o in m.h.home && FieldsIn(m.h, m.mem, m.marked, o)
      modifies m`marked, m`bound, m`lost, m`start, m`near, m`skip, m`lost, m`start, m`near, m`skip
      ensures Settled() && m.marked == old(m.marked) + {o}
    {
      hide Heap.Valid, Safe, DirtyOK, Pending, UncollectableOnly, LiveSet, FieldsIn, Closed;
      m.Quiet();
      SettledIsClosed();
      LiveSetClosed(m.h, m.mem, true, m.marked + {o});
      Allow(m.marked + {o});
      ghost var v := m.V({});
      m.marked := m.marked + {o};
      MarkOneMore(m.h, v, m.V({}), o, m.bound);
    }

    /** Move the registration at position j of chain i to the queue. */
    method Enqueue(i: nat, j: nat)
      requires Accounted() && fo.log >= 0 && i < |fo.head| && j < |fo.head[i]|
      modifies fo`head, fo`entries, fo`m, this`ready
      ensures Accounted() && fo.head == old(fo.head)[i := Without(old(fo.head)[i], j)]
      ensures var k := old(fo.head)[i][j].key;
              && k in old(fo.m) && fo.m == old(fo.m) - {k} && ready == [Queued(k, old(fo.m)[k])] + old(ready)
    {
      hide Accounts, Stores, Hash;
      var p := fo.head[i][j];
      StoresLess(fo.head, fo.log, fo.m, i, j);
      QueueOne(fo.m, ready, invoked, dropped, issued, p.key);
      fo.Delete(i, j);
      ready := [Queued(p.key, p.val)] + ready;
    }

    /** The second pass, seen when it has come to position j of chain i. */
    ghost predicate Emptied(i: nat, j: nat, r0: map<ObjId, Fo>, marked0: set<ObjId>, enq: seq<Queued>)
      reads m`mem, m`marked, fo`head, fo`log, fo`m
      requires fo.log >= 0 && (i < |fo.head| ==> j <= |fo.head[i]|)
    {
      Sorted(m.h, m.mem, m.marked, fo.head, fo.log, fo.m, i, j, r0, marked0, enq)
    }

    /** Move an unmarked object to the queue, and mark it. */
    method MoveOut(i: nat, j: nat)
      requires Settled() && Accounted() && fo.log >= 0 && i < |fo.head| && j < |fo.head[i]|
      requires FieldsIn(m.h, m.mem, m.marked, fo.head[i][j].key)
      modifies m`marked, m`bound, m`lost, m`start, m`near, m`skip, fo`head, fo`entries, fo`m, this`ready
      ensures Settled() && Accounted() && fo.head == old(fo.head)[i := Without(old(fo.head)[i], j)]
      ensures var k := old(fo.head)[i][j].key;
              && k in old(fo.m) && fo.m == old(fo.m) - {k} && ready == [Queued(k, old(fo.m)[k])] + old(ready)
              && m.marked == old(m.marked) + {k}
    {
      hide Settled, FieldsIn, Hash, Accounts, Stores;
      StoresLess(fo.head, fo.log, fo.m, i, j);
      SetMark(fo.head[i][j].key);
      Enqueue(i, j);
    }

    /** The mutator does not disturb the second pass. */
    method MutateMeanwhile(ghost i: nat, ghost j: nat, ghost r0: map<ObjId, Fo>, ghost marked0: set<ObjId>,
                           ghost enq: seq<Queued>, ghost mem1: Addr -> Word)
      requires Settled() && NullIsNoPointer(m.h) && reach <= m.marked && Touched(m.h, mem1, m.mem, {}, reach, busy)
      requires fo.log >= 0 && (i < |fo.head| ==> j <= |fo.head[i]|) && Emptied(i, j, r0, marked0, enq)
      modifies m`mem
      ensures Settled() && Touched(m.h, mem1, m.mem, {}, reach, busy) && Emptied(i, j, r0, marked0, enq)
    {
      hide Settled, FieldsIn, Passed, Hash, Sorted, Touched, NullIsNoPointer;
      ghost var mem0 := m.mem;
      Mutate();
      TouchedAgain(m.h, mem1, mem0, m.mem, {}, reach, busy);
      SortedTouched(m.h, mem0, m.mem, reach, busy, m.marked, fo.head, fo.log, fo.m, i, j, r0, marked0, enq);
    }

    /** One step of the second pass: an object still unmarked is marked and queued. */
    method Decide(i: nat, j: nat, ghost r0: map<ObjId, Fo>, ghost marked0: set<ObjId>, ghost enq: seq<Queued>,
                  ghost ready0: seq<Queued>, ghost mem1: Addr -> Word)
      returns (next: nat, ghost enq': seq<Queued>)
      requires Settled() && Accounted() && fo.log >= 0 && i < |fo.head| && j < |fo.head[i]|
      requires Emptied(i, j, r0, marked0, enq) && ready == enq + ready0
      requires NullIsNoPointer(m.h) && reach <= m.marked && Touched(m.h, mem1, m.mem, {}, reach, busy)
      modifies m`mem, m`marked, m`bound, m`lost, m`start, m`near, m`skip, fo`head, fo`entries, fo`m, this`ready
      ensures Settled() && Accounted() && |fo.head| == |old(fo.head)| && next <= |fo.head[i]|
      ensures |fo.head[i]| - next < |old(fo.head)[i]| - j
      ensures Emptied(i, next, r0, marked0, enq') && ready == enq' + ready0
      ensures reach <= m.marked && Touched(m.h, mem1, m.mem, {}, reach, busy)
    {
      hide Settled, FieldsIn, Passed, Hash, Accounts, Stores, Moves, Bases, Sorted, Touched, NullIsNoPointer, Without;
      MutateMeanwhile(i, j, r0, marked0, enq, mem1);
      SortedStep(m.h, m.mem, m.marked, fo.head, fo.log, fo.m, i, j, r0, marked0, enq);
      var k := fo.head[i][j].key;
      if k in m.marked {
        next, enq' := j + 1, enq;
      } else {
        ghost var x := Queued(k, fo.m[k]);
        enq' := [x] + enq;
        InFront(x, enq, ready0);
        OneLess(fo.head, i, j);
        MoveOut(i, j);
        next := j;
      }
    }

    method DecideChain(i: nat, ghost r0: map<ObjId, Fo>, ghost marked0: set<ObjId>, ghost enq0: seq<Queued>,
                       ghost ready0: seq<Queued>, ghost mem1: Addr -> Word) returns (ghost enq: seq<Queued>)
      requires Settled() && Accounted() && fo.log >= 0 && i < |fo.head|
      requires Emptied(i, 0, r0, marked0, enq0) && ready == enq0 + ready0
      requires NullIsNoPointer(m.h) && reach <= m.marked && Touched(m.h, mem1, m.mem, {}, reach, busy)
      modifies m`mem, m`marked, m`bound, m`lost, m`start, m`near, m`skip, fo`head, fo`entries, fo`m, this`ready
      ensures Settled() && Accounted() && |fo.head| == |old(fo.head)|
      ensures Emptied(i + 1, 0, r0, marked0, enq) && ready == enq + ready0
      ensures reach <= m.marked && Touched(m.h, mem1, m.mem, {}, reach, busy)
    {
      hide Settled, FieldsIn, Passed, Hash, Accounts, Stores, Moves, Bases, Pow2, Sorted, Due, Touched, NullIsNoPointer;
      enq := enq0;
      var j: nat := 0;
      while j < |fo.head[i]|
        invariant |fo.head| == |old(fo.head)| && j <= |fo.head[i]| && Settled() && Accounted()
        invariant Emptied(i, j, r0, marked0, enq) && ready == enq + ready0
        invariant reach <= m.marked && Touched(m.h, mem1, m.mem, {}, reach, busy)
        decreases |fo.head[i]| - j
      {
        j, enq := Decide(i, j, r0, marked0, enq, ready0, mem1);
      }
      SortedChain(m.h, m.mem, m.marked, fo.head, fo.log, fo.m, i, r0, marked0, enq);
    }

    /** Queue all objects with finalizers that are still unmarked, and mark them. */
    method EnqueueUnreachable() returns (ghost enq: seq<Queued>)
      requires Settled() && Accounted() && NullIsNoPointer(m.h) && reach <= m.marked
      requires forall k :: k in fo.m ==> FieldsIn(m.h, m.mem, m.marked, k)
      modifies m`mem, m`marked, m`bound, m`lost, m`start, m`near, m`skip, fo`head, fo`entries, fo`m, this`ready
      ensures Settled() && Accounted() && ready == enq + old(ready) && Touched(m.h, old(m.mem), m.mem, {}, reach, busy)
      ensures Moves(old(fo.m), fo.m, enq) && Bases(enq) == Due(old(fo.m), old(m.marked))
      ensures m.marked == old(m.marked) + Bases(enq)
    {
      hide Settled, FieldsIn, Passed, Hash, Accounts, Stores, Moves, Bases, Pow2, Sorted, Due, Touched, NullIsNoPointer;
      Untouched(m.h, m.mem, reach, busy);
      enq := [];
      ghost var r0, marked0, ready0 := fo.m, m.marked, ready;
      if fo.log == -1 {
        NothingMoved(r0);
        AllMoved(r0, marked0, r0, enq);
        return;
      }
      SortedStart(m.h, m.mem, marked0, fo.head, fo.log, r0);
      var i: nat := 0;
      while i < |fo.head|
        invariant fo.log == old(fo.log) && i <= |fo.head| && Settled() && Accounted()
        invariant Emptied(i, 0, r0, marked0, enq) && ready == enq + ready0
        invariant reach <= m.marked && Touched(m.h, old(m.mem), m.mem, {}, reach, busy)
      {
        enq := DecideChain(i, r0, marked0, enq, ready0, old(m.mem));
        i := i + 1;
      }
      SortedEnd(m.h, m.mem, m.marked, fo.head, fo.log, fo.m, r0, marked0, enq);
    }

    // ---------- Disappearing links ----------

    /** Store null into a link cell. */
    method ClearCell(c: Addr)
      requires Settled() && NullIsNoPointer(m.h) && reach <= m.marked
      modifies m`mem
      ensures Settled() && Touched(m.h, old(m.mem), m.mem, {c}, reach, busy)
    {
      hide Heap.Valid, Safe, DirtyOK, Pending, UncollectableOnly, Touched, NullIsNoPointer;
      ghost var v := m.V({});
      var was := m.mem;
      m.mem := a => if a == c then 0 else was(a);
      CellTouched(m.h, was, m.mem, c, reach, busy);
      TouchedKeepsSafe(m.h, v, m.V({}), {c}, reach, busy, m.bound);
    }

    /** A pass over a table of links, when it has come to position j of chain i.  Cells whose links are gone were
        cleared, unless dangling links are removed, when no cell is. */
    ghost predicate Passing(t: Table<ObjId>, i: nat, j: nat, dangling: bool, t0: map<Addr, ObjId>, mem0: Addr -> Word)
      reads t, m`mem, m`marked, this`reach
      requires t.log >= 0 && (i < |t.head| ==> j <= |t.head[i]|)
    {
      && reach <= m.marked
      && Swept(t0, t.m, t.head, t.log, i, j, Kept(t0, holder, m.marked, dangling))
      && Touched(m.h, mem0, m.mem, if dangling then {} else t0.Keys - t.m.Keys, reach, busy)
    }

    /** One step of GC_make_disappearing_links_disappear. */
    method Visit(t: Table<ObjId>, i: nat, j: nat, dangling: bool, ghost t0: map<Addr, ObjId>, ghost mem0: Addr -> Word)
      returns (next: nat)
      requires Settled() && NullIsNoPointer(m.h) && t.Valid() && t.log >= 0 && i < |t.head| && j < |t.head[i]|
      requires Passing(t, i, j, dangling, t0, mem0)
      modifies m`mem, t`head, t`entries, t`m
      ensures Settled() && t.Valid() && |t.head| == |old(t.head)| && next <= |t.head[i]|
      ensures |t.head[i]| - next < |old(t.head)[i]| - j
      ensures Passing(t, i, next, dangling, t0, mem0)
    {
      hide Settled, Stores, Hash, Swept, Touched, NullIsNoPointer;
      ghost var mem1, gone := m.mem, if dangling then {} else t0.Keys - t.m.Keys;
      Mutate();
      TouchedAgain(m.h, mem0, mem1, m.mem, gone, reach, busy);
      var p := t.head[i][j];
      SweptStep(t0, t.m, t.head, t.log, i, j, Kept(t0, holder, m.marked, dangling));
      if dangling {
        if p.key !in holder || holder[p.key] in m.marked {
          return j + 1;
        }
      } else {
        if p.val in m.marked {
          return j + 1;
        }
        ghost var mem2 := m.mem;
        ClearCell(p.key);
        TouchedMore(m.h, mem0, mem2, m.mem, gone, {p.key}, reach, busy);
      }
      t.Delete(i, j);
      next := j;
    }

    method VisitChain(t: Table<ObjId>, i: nat, dangling: bool, ghost t0: map<Addr, ObjId>, ghost mem0: Addr -> Word)
      requires Settled() && NullIsNoPointer(m.h) && t.Valid() && t.log >= 0 && i < |t.head|
      requires Passing(t, i, 0, dangling, t0, mem0)
      modifies m`mem, t`head, t`entries, t`m
      ensures Settled() && t.Valid() && |t.head| == |old(t.head)|
      ensures Passing(t, i + 1, 0, dangling, t0, mem0)
    {
      hide Settled, Stores, Hash, Swept, Kept, Touched, NullIsNoPointer;
      var j: nat := 0;
      while j < |t.head[i]|
        invariant |t.head| == |old(t.head)| && j <= |t.head[i]| && Settled() && t.Valid()
        invariant Passing(t, i, j, dangling, t0, mem0)
        decreases |t.head[i]| - j
      {
        j := Visit(t, i, j, dangling, t0, mem0);
      }
      SweptChain(t0, t.m, t.head, t.log, i, Kept(t0, holder, m.marked, dangling));
    }

    /** GC_make_disappearing_links_disappear: drop the links whose target is not marked, and clear their cells; or drop
        the dangling ones, whose cell lies in an object that is not marked. */
    method MakeLinksDisappear(t: Table<ObjId>, dangling: bool)
      requires Settled() && NullIsNoPointer(m.h) && t.Valid() && reach <= m.marked
      modifies m`mem, t`head, t`entries, t`m
      ensures Settled() && t.Valid() && t.m == Only(old(t.m), Kept(old(t.m), holder, m.marked, dangling))
      ensures Touched(m.h, old(m.mem), m.mem,
                      if dangling then {} else old(t.m).Keys - Kept(old(t.m), holder, m.marked, false), reach, busy)
    {
      hide Settled, Stores, Hash, Swept, Kept, Pow2, Touched, NullIsNoPointer, Passing, Only;
      ghost var t0, mem0 := t.m, m.mem;
      if t.log == -1 {
        NoLinks(t0, dangling);
        return;
      }
      PassingStart(t, dangling);
      var i: nat := 0;
      while i < |t.head|
        invariant t.log == old(t.log) && i <= |t.head| && Settled() && t.Valid() && Passing(t, i, 0, dangling, t0, mem0)
      {
        VisitChain(t, i, dangling, t0, mem0);
        i := i + 1;
      }
      PassingEnd(t, dangling, t0, mem0);
    }

    lemma NoLinks(t0: map<Addr, ObjId>, dangling: bool)
      requires t0 == map[]
      ensures Only(t0, Kept(t0, holder, m.marked, dangling)) == map[]
      ensures t0.Keys - Kept(t0, holder, m.marked, false) == {}
      ensures Touched(m.h, m.mem, m.mem, {}, reach, busy)
    {
      Untouched(m.h, m.mem, reach, busy);
    }

    lemma PassingStart(t: Table<ObjId>, dangling: bool)
      requires t.log >= 0 && reach <= m.marked
      ensures Passing(t, 0, 0, dangling, t.m, m.mem)
    {
      hide Swept, Kept, Touched;
      Untouched(m.h, m.mem, reach, busy);
      SweptStart(t.m, t.head, t.log, Kept(t.m, holder, m.marked, dangling));
      assert t.m.Keys - t.m.Keys == {};
    }

    lemma PassingEnd(t: Table<ObjId>, dangling: bool, t0: map<Addr, ObjId>, mem0: Addr -> Word)
      requires t.Valid() && t.log >= 0 && Passing(t, |t.head|, 0, dangling, t0, mem0)
      ensures t.m == Only(t0, Kept(t0, holder, m.marked, dangling))
      ensures Touched(m.h, mem0, m.mem,
                      if dangling then {} else t0.Keys - Kept(t0, holder, m.marked, false), reach, busy)
    {
      hide Swept, Kept, Touched, Stores, Only;
      SweptEnd(t0, t.m, t.head, t.log, Kept(t0, holder, m.marked, dangling));
    }

    // ---------- GC_finalize ----------

    ghost predicate Valid()
      reads this, dl, ll, fo
    {
      dl != ll && dl.Valid() && ll.Valid() && Accounted() && NullIsNoPointer(m.h)
    }

    /** Nothing in the queue can be reached, through one or more pointers, from an object that was registered. */
    lemma InOrder(r0: map<ObjId, Fo>, enq: seq<Queued>, mem1: Addr -> Word, marked1: set<ObjId>)
      requires Closed(m.h, mem1, marked1) && Bases(enq) == Due(r0, marked1)
      requires forall k :: k in r0 ==> FieldsIn(m.h, mem1, marked1, k)
      ensures forall o, x :: o in r0 && x in Bases(enq) ==> !Beyond(m.h, mem1, o, x)
    {
      forall o, x | o in r0 && x in Bases(enq) ensures !Beyond(m.h, mem1, o, x) {
        if Beyond(m.h, mem1, o, x) {
          BeyondIsMarked(m.h, mem1, marked1, o, x);
        }
      }
    }

    /** What has been marked so far was closed already before the mutator's latest stores. */
    lemma WasClosed(mem1: Addr -> Word)
      requires Settled() && Registered() && Touched(m.h, mem1, m.mem, {}, reach, busy) && reach <= m.marked
      requires Closed(m.h, mem1, reach) && forall k :: k in fo.m ==> FieldsIn(m.h, m.mem, m.marked, k)
      ensures Closed(m.h, mem1, m.marked) && forall k :: k in fo.m ==> FieldsIn(m.h, mem1, m.marked, k)
    {
      hide FieldsIn, Touched, Stores, Settled, Heap.Valid, Due;
      SettledIsClosed();
      forall o | o in m.marked || o in fo.m ensures FieldsIn(m.h, mem1, m.marked, o) {
        assert FieldsIn(m.h, m.mem, m.marked, o);
        ClosedBefore(m.h, mem1, m.mem, reach, busy, m.marked, o);
      }
    }

    /** GC_finalize, while the mutator goes on with the objects it can reach.  The links in dl are judged by what
        was marked before, those in ll by what is marked in the end.  The objects that have finalizers and are not
        marked are queued unless others of them lead to them, or the mark stack overflowed when it was their turn,
        as it did for those in `over`. */
    method Finalize() returns (ghost enq: seq<Queued>, ghost over: set<ObjId>, ghost mem1: Addr -> Word)
      requires Valid() && Settled() && RootsIn(m.h, m.mem, m.marked)
      modifies m`mem, m`dirty, m`written, m`unflushed
      modifies m`marked, m`stack, m`state, m`tooSmall, m`objectsAreMarked, m`scan, m`size
      modifies m`bound, m`lost, m`start, m`near, m`skip
      modifies dl`head, dl`entries, dl`m, ll`head, ll`entries, ll`m, fo`head, fo`entries, fo`m, this`ready, this`reach
      ensures Valid() && Settled() && Complete(m.h, m.mem, m.marked)
      ensures old(m.marked) + Bases(enq) <= m.marked
      ensures ready == enq + old(ready) && Moves(old(fo.m), fo.m, enq)
      ensures forall o, x :: o in old(fo.m) && x in Bases(enq) ==> !Beyond(m.h, mem1, o, x)
      ensures var due := Due(old(fo.m), old(m.marked));
              && Bases(enq) <= due
              && due - LiveSet(m.h, mem1, true, Starts(m.h, mem1, old(m.marked), due, over)) <= Bases(enq)
              && over <= due - Bases(enq) && (old(Roomy()) ==> over == {})
      ensures Touched(m.h, old(m.mem), mem1, Stale(old(dl.m), old(m.marked)), old(m.marked), busy)
      ensures Touched(m.h, mem1, m.mem, Stale(old(ll.m), m.marked), old(m.marked), busy)
      ensures var due := Due(old(fo.m), old(m.marked));
              m.marked <= LiveSet(m.h, mem1, true, Starts(m.h, mem1, old(m.marked), due, over)) + Bases(enq)
      ensures dl.m == Survivors(old(dl.m), holder, old(m.marked), m.marked)
      ensures ll.m == Survivors(old(ll.m), holder, m.marked, m.marked)
    {
      hide Settled, Complete, Beyond, LiveSet, Starts, Touched, RootsIn, Due, Moves, Bases;
      hide Stores, Only, Kept, Survivors, Stale, Accounts, NullIsNoPointer, Roomy;
      reach := m.marked;
      ghost var mem0, marked0, dl0 := m.mem, m.marked, dl.m;
      MakeLinksDisappear(dl, false);
      mem1 := m.mem;
      enq, over := Order();
      SecondLinks(mem1);
      KeptTwice(dl0, holder, marked0, m.marked);
      NowComplete(mem0, Stale(dl0, marked0), mem1, Stale(old(ll.m), m.marked));
    }

    /** Everything that can be reached is marked in the end. */
    lemma NowComplete(mem0: Addr -> Word, c0: set<Addr>, mem1: Addr -> Word, c1: set<Addr>)
      requires Settled() && NullIsNoPointer(m.h) && RootsIn(m.h, mem0, reach) && reach <= m.marked
      requires Touched(m.h, mem0, mem1, c0, reach, busy) && Touched(m.h, mem1, m.mem, c1, reach, busy)
      ensures Complete(m.h, m.mem, m.marked)
    {
      hide Settled, Complete, Closed, FieldsIn, Touched, RootsIn, NullIsNoPointer;
      TouchedKeepsIn(m.h, mem0, mem1, c0, reach, busy, reach);
      TouchedKeepsIn(m.h, mem1, m.mem, c1, reach, busy, reach);
      FieldsInGrows(m.h, m.mem, reach, m.marked);
      SettledIsClosed();
      ClosedIsComplete(m.h, m.mem, m.marked);
    }

    /** The part of GC_finalize that queues objects. */
    method Order() returns (ghost enq: seq<Queued>, ghost over: set<ObjId>)
      requires Settled() && Accounted() && NullIsNoPointer(m.h) && reach == m.marked
      modifies m`mem, m`dirty, m`written, m`unflushed
      modifies m`marked, m`stack, m`state, m`tooSmall, m`objectsAreMarked, m`scan, m`size
      modifies m`bound, m`lost, m`start, m`near, m`skip
      modifies fo`head, fo`entries, fo`m, this`ready
      ensures Settled() && Accounted() && Touched(m.h, old(m.mem), m.mem, {}, reach, busy)
      ensures reach + Bases(enq) <= m.marked
      ensures ready == enq + old(ready) && Moves(old(fo.m), fo.m, enq)
      ensures forall o, x :: o in old(fo.m) && x in Bases(enq) ==> !Beyond(m.h, old(m.mem), o, x)
      ensures var due := Due(old(fo.m), reach);
              && Bases(enq) <= due
              && due - LiveSet(m.h, old(m.mem), true, Starts(m.h, old(m.mem), reach, due, over)) <= Bases(enq)
              && over <= due - Bases(enq) && (old(Roomy()) ==> over == {})
              && m.marked <= LiveSet(m.h, old(m.mem), true, Starts(m.h, old(m.mem), reach, due, over)) + Bases(enq)
    {
      hide Settled, Closed, FieldsIn, Beyond, LiveSet, Starts, Touched, Due, Moves, Bases, Stores, Accounts,
           NullIsNoPointer, Roomy;
      ghost var mem1, r0 := m.mem, fo.m;
      SettledIsClosed();
      over := MarkFromFinalizable();
      ghost var marked1, mem2 := m.marked, m.mem;
      WasClosed(mem1);
      enq := EnqueueUnreachable();
      InOrder(r0, enq, mem1, marked1);
      DueLess(r0, reach, marked1);
      TouchedAgain(m.h, mem1, mem2, m.mem, {}, reach, busy);
    }

    /** The rest of GC_finalize: dangling short links, and then the long links. */
    method SecondLinks(ghost mem1: Addr -> Word)
      requires Settled() && NullIsNoPointer(m.h) && dl != ll && dl.Valid() && ll.Valid() && reach <= m.marked
      requires Touched(m.h, mem1, m.mem, {}, reach, busy)
      modifies m`mem, dl`head, dl`entries, dl`m, ll`head, ll`entries, ll`m
      ensures Settled() && dl.Valid() && ll.Valid()
      ensures dl.m == Only(old(dl.m), Kept(old(dl.m), holder, m.marked, true))
      ensures ll.m == Survivors(old(ll.m), holder, m.marked, m.marked)
      ensures Touched(m.h, mem1, m.mem, Stale(old(ll.m), m.marked), reach, busy)
    {
      hide Settled, Touched, Stores, Only, Kept, Survivors, Stale, NullIsNoPointer;
      ghost var mem2, ll0 := m.mem, ll.m;
      MakeLinksDisappear(dl, true);
      ghost var mem3 := m.mem;
      TouchedAgain(m.h, mem1, mem2, mem3, {}, reach, busy);
      MakeLinksDisappear(ll, false);
      KeptTwice(ll0, holder, m.marked, m.marked);
      ghost var mem4, stale := m.mem, Stale(ll0, m.marked);
      TouchedMore(m.h, mem1, mem3, mem4, {}, stale, reach, busy);
      assert {} + stale == stale;
      MakeLinksDisappear(ll, true);
      TouchedAgain(m.h, mem1, mem4, m.mem, stale, reach, busy);
    }

    // ---------- Registering and invoking ----------

    /** The registration at position j of chain i is withdrawn. */
    method Withdraw(i: nat, j: nat)
      requires Accounted() && fo.log >= 0 && i < |fo.head| && j < |fo.head[i]|
      modifies fo`head, fo`entries, fo`m, this`dropped
      ensures Accounted() && fo.m == old(fo.m) - {old(fo.head)[i][j].key}
    {
      hide Accounts, Stores, Hash;
      StoresLess(fo.head, fo.log, fo.m, i, j);
      WithdrawOne(fo.m, ready, invoked, dropped, issued, fo.head[i][j].key);
      dropped := dropped + {fo.head[i][j].val.id};
      fo.Delete(i, j);
    }

    /** It gets another finalizer. */
    method Change(i: nat, j: nat, fn: int, cd: int)
      requires Accounted() && fo.log >= 0 && i < |fo.head| && j < |fo.head[i]|
      modifies fo`head, fo`m
      ensures Accounted()
      ensures var k := old(fo.head)[i][j].key;
              k in old(fo.m) && fo.m == old(fo.m)[k := old(fo.m)[k].(fn := fn, cd := cd)]
    {
      hide Accounts, Stores, Hash;
      StoresLess(fo.head, fo.log, fo.m, i, j);
      var p := fo.head[i][j];
      RegisterOne(fo.m, ready, invoked, dropped, issued, p.key, p.val.(fn := fn, cd := cd));
      fo.Replace(i, j, p.val.(fn := fn, cd := cd));
    }

    method Add(i: nat, obj: ObjId, fn: int, cd: int, size: nat)
      requires Accounted() && fo.log >= 0 && i == Hash(obj, fo.log) && obj !in fo.m && obj in m.h.home
      modifies fo`head, fo`entries, fo`m, this`issued
      ensures Accounted() && fo.m == old(fo.m)[obj := Fo(old(issued), fn, cd, size)]
    {
      hide Accounts, Stores, Hash;
      var v := Fo(issued, fn, cd, size);
      RegisterOne(fo.m, ready, invoked, dropped, issued, obj, v);
      fo.Insert(i, obj, v);
      issued := issued + 1;
    }

    /** GC_register_finalizer_inner; a finalizer of 0 withdraws the registration.  Nothing is reported, and nothing
        registered, when leaks are looked for, or when there is no memory for the first table or for a new entry. */
    method RegisterFinalizer(obj: ObjId, fn: int, cd: int, findLeak: bool, memory: bool) returns (out: Previous)
      requires Accounted() && m.h.Valid()
      modifies fo, this`issued, this`dropped
      ensures Accounted()
      ensures findLeak ==> out == NotReported
      ensures memory && !findLeak ==> out != NotReported
      ensures out == NotReported ==>
                && fo.m == old(fo.m)
                && (findLeak || old(fo.log) == fo.log == -1 || (fn != 0 && obj !in old(fo.m) && obj in m.h.home))
      ensures out != NotReported ==>
                out == if obj in old(fo.m) then Previous(old(fo.m)[obj].fn, old(fo.m)[obj].cd) else Previous(0, 0)
      ensures out == NotReported || fo.m == (
                if fn == 0 then old(fo.m) - {obj}
                else if obj in old(fo.m) then old(fo.m)[obj := old(fo.m)[obj].(fn := fn, cd := cd)]
                else if obj in m.h.home then old(fo.m)[obj := Fo(old(issued), fn, cd, m.h.blocks[m.h.home[obj]].sz)]
                else old(fo.m))
    {
      hide Accounts, Stores, Hash, Pow2;
      if findLeak {
        return NotReported;
      }
      var ok := fo.Prepare(memory);
      if !ok {
        return NotReported;
      }
      var i, j := fo.Search(obj);
      if j < |fo.head[i]| {
        var curr := fo.head[i][j].val;
        if fn == 0 {
          Withdraw(i, j);
        } else {
          Change(i, j, fn, cd);
        }
        return Previous(curr.fn, curr.cd);
      }
      if fn == 0 || obj !in m.h.home {
        assert fo.m - {obj} == fo.m;
        return Previous(0, 0);
      }
      var given: bool := *;
      if !memory && !given {
        return NotReported;
      }
      Add(i, obj, fn, cd, m.h.blocks[m.h.home[obj]].sz);
      out := Previous(0, 0);
    }

    /** A finalizer, or another thread, registers or withdraws a finalizer, or brings about a collection that queues
        one. */
    method ClientStep(budget: nat) returns (left: nat)
      requires Accounted() && m.h.Valid()
      modifies fo, this`ready, this`issued, this`dropped
      ensures Accounted() && |ready| + left == |old(ready)| + budget && EndsIn(ready, old(ready))
    {
      hide Accounts, Stores, Hash, Heap.Valid, Pow2;
      left := budget;
      var queues: bool, i: nat, j: nat := *, *, *;
      if !queues {
        var obj: ObjId, fn: int, cd: int, memory: bool := *, *, *, *;
        var out := RegisterFinalizer(obj, fn, cd, false, memory);
      } else if left > 0 && fo.log >= 0 && i < |fo.head| && j < |fo.head[i]| {
        Enqueue(i, j);
        left := left - 1;
      }
    }

    /** Whatever happens while a finalizer runs; `budget` finalizers at most are queued. */
    method Client(budget: nat) returns (left: nat)
      requires Accounted() && m.h.Valid()
      modifies fo, this`ready, this`issued, this`dropped
      ensures Accounted() && |ready| + left == |old(ready)| + budget && EndsIn(ready, old(ready))
    {
      hide Accounted, Heap.Valid, EndsIn;
      left := budget;
      EndsInItself(ready);
      var steps: nat := *;
      while steps > 0
        invariant Accounted() && |ready| + left == |old(ready)| + budget && EndsIn(ready, old(ready))
      {
        ghost var ready1 := ready;
        left := ClientStep(left);
        EndsInTrans(ready, ready1, old(ready));
        steps := steps - 1;
      }
    }

    /** Take the first registration off the queue and call its finalizer. */
    method InvokeFirst(budget: nat) returns (left: nat)
      requires Accounted() && m.h.Valid() && ready != []
      modifies fo, this`ready, this`invoked, this`issued, this`dropped
      ensures Accounted() && |ready| + 1 + left == |old(ready)| + budget && EndsIn(ready, old(ready)[1..])
      ensures invoked == old(invoked) + [old(ready)[0].fo.id]
    {
      hide Accounts, Heap.Valid, EndsIn, Stores, Hash;
      InvokeOne(fo.m, ready, invoked, dropped, issued);
      var curr := ready[0];
      ready := ready[1..];
      invoked := invoked + [curr.fo.id];
      left := Client(budget);
    }

    /** GC_invoke_finalizers: take the registrations off the queue one by one and call their finalizers, until the
        queue is empty.  Meanwhile more may be queued, but not without end: `budget` at most. */
    method InvokeFinalizers(budget: nat) returns (count: nat)
      requires Accounted() && m.h.Valid()
      modifies fo, this`ready, this`invoked, this`issued, this`dropped
      ensures Accounted() && ready == []
      ensures |old(ready)| <= count <= |old(ready)| + budget
      ensures |invoked| == |old(invoked)| + count && invoked[..|old(invoked)|] == old(invoked)
      ensures InTurn(old(ready), invoked[|old(invoked)|..])
      ensures budget == 0 ==> invoked[|old(invoked)|..] == Ids(old(ready))
    {
      hide Accounted, Heap.Valid, EndsIn, InTurn, Ids, Turns;
      count := 0;
      var left: nat := budget;
      ghost var calls, d: nat := [], 0;
      TurnsStart(ready, budget == 0);
      while ready != []
        invariant Accounted() && Turns(old(ready), d, ready, calls, budget == 0)
        invariant count + |ready| + left == |old(ready)| + budget && left <= budget
        invariant invoked == old(invoked) + calls && |calls| == count
        decreases |ready| + left
      {
        ghost var ready1, id := ready, ready[0].fo.id;
        left := InvokeFirst(left);
        EndsInWhole(ready, ready1[1..]);
        d := TurnsNext(old(ready), d, ready1, calls, budget == 0, ready);
        calls := calls + [id];
        count := count + 1;
      }
      TurnsEnd(old(ready), d, calls, budget == 0);
      assert invoked[|old(invoked)|..] == calls;
    }

    /** GC_enqueue_all_finalizers, one chain: queue every registration, marking its object and everything beyond. */
    method EnqueueChain(i: nat, ghost r0: map<ObjId, Fo>, ghost enq0: seq<Queued>, ghost ready0: seq<Queued>,
                        ghost mem1: Addr -> Word)
      returns (ghost enq: seq<Queued>)
      requires Settled() && Accounted() && fo.log >= 0 && i < |fo.head|
      requires NullIsNoPointer(m.h) && reach <= m.marked && Touched(m.h, mem1, m.mem, {}, reach, busy)
      requires Moves(r0, fo.m, enq0) && Bases(enq0) <= m.marked && ready == enq0 + ready0
      modifies m`mem, m`dirty, m`written, m`unflushed
      modifies m`marked, m`stack, m`state, m`tooSmall, m`objectsAreMarked, m`scan, m`size, m`bound, m`lost, m`start
      modifies m`near, m`skip
      modifies fo`head, fo`entries, fo`m, this`ready
      ensures Settled() && Accounted() && old(m.marked) <= m.marked && Touched(m.h, mem1, m.mem, {}, reach, busy)
      ensures fo.head == old(fo.head)[i := []]
      ensures Moves(r0, fo.m, enq) && Bases(enq) <= m.marked && ready == enq + ready0
    {
      hide Settled, FieldsIn, Hash, Accounts, Stores, Moves, Bases, LiveSet, Starts, Pow2, Touched, NullIsNoPointer;
      enq := enq0;
      while fo.head[i] != []
        invariant Settled() && Accounted() && old(m.marked) <= m.marked && Touched(m.h, mem1, m.mem, {}, reach, busy)
        invariant |fo.head| == |old(fo.head)| && fo.head == old(fo.head)[i := fo.head[i]]
        invariant Moves(r0, fo.m, enq) && Bases(enq) <= m.marked && ready == enq + ready0
        decreases |fo.head[i]|
      {
        enq := EnqueueFirst(i, r0, enq, ready0, mem1);
      }
    }

    method EnqueueFirst(i: nat, ghost r0: map<ObjId, Fo>, ghost enq0: seq<Queued>, ghost ready0: seq<Queued>,
                        ghost mem1: Addr -> Word)
      returns (ghost enq: seq<Queued>)
      requires Settled() && Accounted() && fo.log >= 0 && i < |fo.head| && fo.head[i] != []
      requires NullIsNoPointer(m.h) && reach <= m.marked && Touched(m.h, mem1, m.mem, {}, reach, busy)
      requires Moves(r0, fo.m, enq0) && Bases(enq0) <= m.marked && ready == enq0 + ready0
      modifies m`mem, m`dirty, m`written, m`unflushed
      modifies m`marked, m`stack, m`state, m`tooSmall, m`objectsAreMarked, m`scan, m`size, m`bound, m`lost, m`start
      modifies m`near, m`skip
      modifies fo`head, fo`entries, fo`m, this`ready
      ensures Settled() && Accounted() && old(m.marked) <= m.marked && Touched(m.h, mem1, m.mem, {}, reach, busy)
      ensures fo.head == old(fo.head)[i := old(fo.head)[i][1..]]
      ensures Moves(r0, fo.m, enq) && Bases(enq) <= m.marked && ready == enq + ready0
    {
      hide Settled, FieldsIn, Hash, Accounts, Stores, Moves, Bases, LiveSet, Starts, Pow2, Touched, NullIsNoPointer;
      var k := fo.head[i][0].key;
      StoresLess(fo.head, fo.log, fo.m, i, 0);
      MovesOne(r0, fo.m, enq0, k);
      ghost var x := Queued(k, fo.m[k]);
      enq := [x] + enq0;
      assert [x] + ready == enq + ready0;
      assert Without(fo.head[i], 0) == fo.head[i][1..];
      ghost var mem0 := m.mem;
      ghost var over := MarkFo(k);
      TouchedAgain(m.h, mem1, mem0, m.mem, {}, reach, busy);
      MoveOut(i, 0);
    }

    /** GC_enqueue_all_finalizers, with the mutator running: in the end no registration is left in the table. */
    method EnqueueAll() returns (ghost enq: seq<Queued>)
      requires Settled() && Accounted() && NullIsNoPointer(m.h)
      modifies m`mem, m`dirty, m`written, m`unflushed
      modifies m`marked, m`stack, m`state, m`tooSmall, m`objectsAreMarked, m`scan, m`size, m`bound, m`lost, m`start
      modifies m`near, m`skip
      modifies fo`head, fo`entries, fo`m, this`ready, this`reach
      ensures Settled() && Accounted() && Touched(m.h, old(m.mem), m.mem, {}, old(m.marked), busy)
      ensures fo.m == map[] && fo.entries == 0 && ready == enq + old(ready)
      ensures Moves(old(fo.m), fo.m, enq) && old(m.marked) + old(fo.m).Keys <= m.marked
    {
      hide Settled, FieldsIn, Hash, Accounts, Stores, Moves, Bases, LiveSet, Starts, Pow2, Touched, NullIsNoPointer;
      enq, reach := [], m.marked;
      ghost var r0, ready0 := fo.m, ready;
      Untouched(m.h, m.mem, reach, busy);
      NothingMoved(r0);
      if fo.log == -1 {
        return;
      }
      var i: nat := 0;
      while i < |fo.head|
        invariant fo.log == old(fo.log) && i <= |fo.head| && Settled() && Accounted()
        invariant reach == old(m.marked) <= m.marked && Touched(m.h, old(m.mem), m.mem, {}, reach, busy)
        invariant Moves(r0, fo.m, enq) && Bases(enq) <= m.marked && ready == enq + ready0
        invariant forall b :: 0 <= b < i ==> fo.head[b] == []
      {
        enq := EnqueueChain(i, r0, enq, ready0, old(m.mem));
        i := i + 1;
      }
      EmptyChains(fo.head, fo.log, fo.m);
      MovedAll(r0, enq);
    }

    // ---------- Finalization as part of a collection ----------

    /** Marking is complete.  From here on the mutator keeps to the objects it can reach, since it would need the
        lock to get at hidden pointers. */
    method Settle()
      requires m.Ready() && !m.stopped && m.state == MS_NONE && m.objectsAreMarked && Complete(m.h, m.mem, m.marked)
      modifies m`stopped, m`bound, m`lost, m`start, m`near, m`skip, m`spilt, m`written, m`unflushed
      ensures Settled() && RootsIn(m.h, m.mem, m.marked)
    {
      hide Safe, Complete, Closed, RootsIn, Heap.Valid, DirtyOK, UncollectableOnly;
      m.Quiet();
      CompleteIsClosed(m.h, m.mem, m.marked);
      m.written, m.unflushed := {}, {};
      SafeIfClosed(m.h, m.V({}), m.bound);
      m.NoneWritten();
      m.StopWorld();
    }

    /** A full collection and the finalization that goes with it.  With mem0 in memory the collection marked marked0,
        which leaves out nothing that can be reached, and holds nothing that cannot; the objects queued are among the
        others, and in the end all that they can reach is marked too.  Of the objects with finalizers that it did not
        mark, those that no other such object leads to are queued, except for those in `over`, at which the mark stack
        overflowed and which wait for another collection.  Short links are cleared before, which leaves mem1, and long
        ones after. */
    method CollectAndFinalize(c: C.Collector)
      returns (ghost enq: seq<Queued>, ghost over: set<ObjId>,
               ghost mem0: Addr -> Word, ghost marked0: set<ObjId>, ghost mem1: Addr -> Word)
      requires c.m == m && c.Usable() && Valid()
      modifies c, m, dl, ll, fo, this`ready, this`reach
      ensures c.Usable() && Valid() && m.state == MS_NONE && Complete(m.h, m.mem, m.marked)
      ensures ready == enq + old(ready) && Moves(old(fo.m), fo.m, enq)
      ensures Complete(m.h, mem0, marked0) && marked0 <= LiveSet(m.h, mem0, true, Pinned(m.h, marked0))
      ensures !m.incremental ==> mem0 == old(m.mem)
      ensures Touched(m.h, mem0, mem1, Stale(old(dl.m), marked0), marked0, busy)
      ensures Touched(m.h, mem1, m.mem, Stale(old(ll.m), m.marked), marked0, busy)
      ensures marked0 + Bases(enq) <= m.marked && Bases(enq) !! marked0
      ensures forall x :: x in Bases(enq) ==> !Live(m.h, mem0, false, {}, x)
      ensures QueueHeld(m.h, mem0, old(ready)) ==> Bases(old(ready)) <= marked0 && Bases(old(ready)) !! Bases(enq)
      ensures var due := Due(old(fo.m), marked0);
              var live := LiveSet(m.h, mem1, true, Starts(m.h, mem1, marked0, due, over));
              && due - live <= Bases(enq) && m.marked <= live + Bases(enq)
              && over <= due - Bases(enq) && (|m.h.home.Keys| < old(m.size) ==> over == {})
      ensures forall o, x :: o in old(fo.m) && x in Bases(enq) ==> !Beyond(m.h, mem1, o, x)
      ensures dl.m == Survivors(old(dl.m), holder, marked0, m.marked)
      ensures ll.m == Survivors(old(ll.m), holder, m.marked, m.marked)
    {
      hide Settled, LiveSet, Touched, RootsIn, Due, Moves, Bases, Survivors, Stale, Starts, Accounts, NullIsNoPointer;
      hide Stores, M.Marker.Inv, M.Marker.V, UncollectableOnly, M.Marker.Lag, Beyond, Live, Complete, RoomFor, Pinned;
      hide C.Collector.Achieved, QueueHeld;
      ghost var r0 := fo.m;
      CollectAll(c);
      mem0, marked0 := m.mem, m.marked;
      enq, over, mem1 := Finalize();
      DueIsUnmarked(r0, marked0);
      QueuedSurvive(m.h, mem0, old(ready), marked0);
      NotLive(m.h, mem0, marked0, Bases(enq));
      Resume();
    }

    /** The collection, after which finalization may begin. */
    method CollectAll(c: C.Collector)
      requires c.m == m && c.Usable()
      modifies c, m
      ensures Settled() && RootsIn(m.h, m.mem, m.marked) && Complete(m.h, m.mem, m.marked) && c.rate > 0
      ensures m.marked <= LiveSet(m.h, m.mem, true, Pinned(m.h, m.marked))
      ensures !m.incremental ==> m.mem == old(m.mem)
      ensures |m.h.home.Keys| < old(m.size) ==> Roomy()
    {
      hide Settled, LiveSet, RootsIn, Complete, RoomFor, M.Marker.Inv, M.Marker.Flags;
      var ok := c.TryToCollect(true);
      assert c.Pinned() == Pinned(m.h, m.marked);
      EnoughRoom(m.h, m.marked, old(m.size), m.size);
      Settle();
    }

    method Resume()
      requires Settled()
      modifies m`stopped
      ensures m.Ready() && !m.stopped && m.state == MS_NONE
    {
      m.StartWorld();
    }
  }
}
