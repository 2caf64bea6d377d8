/**
 Parallel marking on the heap: what the entries that the threads pass around stand for, mark bits set by several
 threads, and a mutator that may run at the same time.
 */
module ParallelHeap {
  import opened MarkHeap
  import P = ParallelMark
  import M = Marker

  /** What the threads work on: memory, mark bits, and the words stored into lately. */
  datatype Scene = Scene(mem: Addr -> Word, marked: set<ObjId>, lag: set<Addr>)

  /** The words of the entries in ws; `what` says which entry a name stands for. */
  ghost function Named(what: P.Work -> Entry, ws: set<P.Work>): set<Addr> {
    set w, a | w in ws && a in what(w).Positions() :: a
  }

  /** Some of the words in `from` points to o. */
  ghost predicate Pointed(h: Heap, mem: Addr -> Word, from: set<Addr>, o: ObjId) {
    exists a :: a in from && mem(a) in h.target && h.target[mem(a)] == o
  }

  /** Objects that were not marked when marking in parallel began. */
  ghost predicate IsNew(h: Heap, v: View, marked: set<ObjId>, a: Addr) {
    exists o :: o in marked && o !in v.marked && a in h.Fields(o)
  }

  /** One or more words of entries in `local` are considered.  Objects found get marked and pushed; the test of a
      mark bit and setting it are not one step, so that two threads may push the same object.  Large entries are
      pushed again in parts.  An entry is done with when each of its words has been seen to or is part of an entry
      pushed.  If the local stack overflows, none of that can be relied on, except that nothing else gets marked. */
  ghost predicate Scans(h: Heap, v: View, what: P.Work -> Entry, local: set<P.Work>, scanned: set<P.Work>, a: P.Action,
                        c: Scene, c': Scene)
    requires a.MarkFrom?
  {
    && a.pushed !! scanned + a.done
    && a.done <= local
    && (forall o :: o in c'.marked && o !in c.marked ==>
          o in h.home && (v.stopped ==> Pointed(h, c.mem, Named(what, local), o)))
    && (v.stopped ==> forall x :: x in Named(what, a.pushed) ==> x in Named(what, local) || IsNew(h, v, c'.marked, x))
    && (!a.invalid ==> forall o :: o in c'.marked && o !in c.marked ==> h.Fields(o) <= Named(what, a.pushed))
    && (!a.invalid ==> forall x :: x in Named(what, a.done) ==> x in Named(what, a.pushed) || Seen(h, v.stopped, c', x))
  }

  /** What word x points to is marked, or it has been stored into since. */
  ghost predicate Seen(h: Heap, stopped: bool, c: Scene, x: Addr) {
    (x in c.lag && !stopped) || WordOK(h, c.mem, c.marked, x)
  }

  /** A step of a thread, and stores by the mutator, if it is running. */
  ghost predicate Evolves(h: Heap, v: View, what: P.Work -> Entry, s: P.State, t: P.Tid, a: P.Action, c: Scene,
                          c': Scene)
    requires P.Enabled(s, t, a)
  {
    && c.lag <= c'.lag && (v.stopped ==> c'.mem == c.mem && c'.lag == c.lag)
    && (forall x :: c'.mem(x) == c.mem(x) || x in c'.lag)
    && c.marked <= c'.marked
    && if a.MarkFrom? then Scans(h, v, what, P.ToSet(s.threads[t].local), s.scanned, a, c, c')
       else c'.marked == c.marked
  }

  /** The shared stack is the mark stack, with everything on it still to be scanned. */
  ghost predicate Loads(what: P.Work -> Entry, s: P.State, stack: seq<Entry>) {
    && |s.slots| == |stack| && s.scanned == {}
    && forall i :: 0 <= i < |stack| ==> s.slots[i].Full? && what(s.slots[i].work) == stack[i]
  }

  /** A run of parallel marking on the heap. */
  ghost predicate IsHeapRun(h: Heap, v: View, stack: seq<Entry>, what: P.Work -> Entry,
                            states: seq<P.State>, steps: seq<(P.Tid, P.Action)>, scenes: seq<Scene>)
  {
    && P.IsRun(states, steps) && |scenes| == |states|
    && Loads(what, states[0], stack) && !states[0].invalid
    && scenes[0] == Scene(v.mem, v.marked, v.lag)
    && forall i :: 0 <= i < |steps| ==> Evolves(h, v, what, states[i], steps[i].0, steps[i].1, scenes[i], scenes[i + 1])
  }

  /** The view the marker has of a state in between. */
  ghost function Now(v: View, what: P.Work -> Entry, s: P.State, c: Scene): View {
    v.(mem := c.mem, marked := c.marked, lag := c.lag, grey := Named(what, s.ever - s.scanned))
  }

  /** The invariant of parallel marking on the heap.  It started from the view v. */
  ghost predicate HeapInv(h: Heap, v: View, bound: set<ObjId>, what: P.Work -> Entry, s: P.State, c: Scene) {
    && v.marked <= c.marked <= h.home.Keys
    && (!s.invalid ==> AllOK(h, Now(v, what, s, c)))
    && (v.stopped && !s.invalid ==> RootsOK(h, Now(v, what, s, c)))
    && (v.stopped ==> c.mem == v.mem && c.lag == v.lag && c.marked <= Limit(v, bound))
    && (v.stopped ==> forall x :: x in Named(what, s.ever) ==> WordOK(h, v.mem, Limit(v, bound), x))
    && (forall x :: c.mem(x) == v.mem(x) || x in c.lag) && v.lag <= c.lag
  }

  lemma NamedMore(what: P.Work -> Entry, ws: set<P.Work>, ws': set<P.Work>)
    requires ws <= ws'
    ensures Named(what, ws) <= Named(what, ws')
  {
  }

  /** Every word that was still to be scanned still is, or has been seen to. */
  lemma StillNamed(h: Heap, v: View, what: P.Work -> Entry, s: P.State, t: P.Tid, a: P.Action, c: Scene, c': Scene)
    requires P.Enabled(s, t, a) && Evolves(h, v, what, s, t, a, c, c')
    ensures var s' := P.Next(s, t, a);
            var grey, grey' := Named(what, s.ever - s.scanned), Now(v, what, s', c').grey;
            && (!s'.invalid ==> forall x :: x in grey ==> x in grey' || Seen(h, v.stopped, c', x))
            && (a.MarkFrom? ==> Named(what, a.pushed) <= grey')
  {
    var s' := P.Next(s, t, a);
    if a.MarkFrom? {
      NamedMore(what, a.pushed, s'.ever - s'.scanned);
      forall x | x in Named(what, s.ever - s.scanned) && !s'.invalid
        ensures x in Named(what, s'.ever - s'.scanned) || Seen(h, v.stopped, c', x)
      {
        var w :| w in s.ever - s.scanned && x in what(w).Positions();
        if w in a.done {
          assert x in Named(what, a.done);
        } else {
          assert w in s'.ever - s'.scanned;
        }
      }
    } else {
      assert s'.ever == s.ever && s'.scanned == s.scanned;
    }
  }

  /** What a step of parallel marking does to the mark bits and to the words that wait. */
  ghost predicate Progress(h: Heap, v: View, c: Scene, grey: set<Addr>, c': Scene, grey': set<Addr>) {
    && c.lag <= c'.lag && (v.stopped ==> c'.mem == c.mem) && (forall x :: c'.mem(x) == c.mem(x) || x in c'.lag)
    && c.marked <= c'.marked
    && (forall x :: x in grey ==> x in grey' || Seen(h, v.stopped, c', x))
    && (forall o :: o in c'.marked && o !in c.marked ==> h.Fields(o) <= grey')
  }

  lemma ObjectsStayOK(h: Heap, v: View, c: Scene, grey: set<Addr>, c': Scene, grey': set<Addr>)
    requires Progress(h, v, c, grey, c', grey')
    requires AllOK(h, v.(mem := c.mem, marked := c.marked, lag := c.lag, grey := grey))
    ensures AllOK(h, v.(mem := c'.mem, marked := c'.marked, lag := c'.lag, grey := grey'))
  {
    var u, w := v.(mem := c.mem, marked := c.marked, lag := c.lag, grey := grey),
                v.(mem := c'.mem, marked := c'.marked, lag := c'.lag, grey := grey');
    forall o | o in w.marked ensures ObjOK(h, w, o) {
      if o in u.marked {
        assert ObjOK(h, u, o);
      }
    }
  }

  lemma RootsStayOK(h: Heap, v: View, c: Scene, grey: set<Addr>, c': Scene, grey': set<Addr>)
    requires h.Valid() && Progress(h, v, c, grey, c', grey') && v.stopped
    requires RootsOK(h, v.(mem := c.mem, marked := c.marked, lag := c.lag, grey := grey))
    ensures RootsOK(h, v.(mem := c'.mem, marked := c'.marked, lag := c'.lag, grey := grey'))
  {
    assert h.allInterior ==> h.stackTarget == h.target;
  }

  lemma Progresses(h: Heap, v: View, what: P.Work -> Entry, s: P.State, t: P.Tid, a: P.Action, c: Scene, c': Scene)
    requires P.Enabled(s, t, a) && Evolves(h, v, what, s, t, a, c, c')
    ensures var s' := P.Next(s, t, a);
            !s'.invalid ==> Progress(h, v, c, Named(what, s.ever - s.scanned), c', Named(what, s'.ever - s'.scanned))
  {
    StillNamed(h, v, what, s, t, a, c, c');
    hide Named, Seen, Pointed, IsNew;
  }

  /** What is marked, and what the entries name, stays within reach. */
  lemma StaysWithin(h: Heap, v: View, bound: set<ObjId>, what: P.Work -> Entry, local: set<P.Work>, ever: set<P.Work>,
                    scanned: set<P.Work>, a: P.Action, c: Scene, c': Scene)
    requires h.Valid() && v.stopped && Within(h, v, bound) && a.MarkFrom? && local <= ever && c.mem == v.mem
    requires Scans(h, v, what, local, scanned, a, c, c') && c.marked <= Limit(v, bound) && c.marked <= h.home.Keys
    requires forall x :: x in Named(what, ever) ==> WordOK(h, v.mem, Limit(v, bound), x)
    ensures c'.marked <= Limit(v, bound)
    ensures forall x :: x in Named(what, ever + a.pushed) ==> WordOK(h, v.mem, Limit(v, bound), x)
  {
    NamedMore(what, local, ever);
    forall o | o in c'.marked ensures o in Limit(v, bound) {
      if o !in c.marked {
        var x :| x in Named(what, local) && c.mem(x) in h.target && h.target[c.mem(x)] == o;
        assert WordOK(h, v.mem, Limit(v, bound), x);
      }
    }
    forall x | x in Named(what, ever + a.pushed) ensures WordOK(h, v.mem, Limit(v, bound), x) {
      if x !in Named(what, ever) {
        assert x in Named(what, a.pushed);
        assert IsNew(h, v, c'.marked, x);
        var o :| o in c'.marked && o !in v.marked && x in h.Fields(o);
        NewObject(h, v, bound, o, x);
      }
    }
  }

  lemma NewObject(h: Heap, v: View, bound: set<ObjId>, o: ObjId, x: Addr)
    requires h.Valid() && Within(h, v, bound) && o in h.home && o in Limit(v, bound) && o !in v.marked
    requires x in h.Fields(o)
    ensures WordOK(h, v.mem, Limit(v, bound), x)
  {
    FieldsInWords(h, o);
  }

  /** Every step keeps the invariant. */
  lemma HeapStep(h: Heap, v: View, bound: set<ObjId>, what: P.Work -> Entry, s: P.State, t: P.Tid, a: P.Action,
                 c: Scene, c': Scene)
    requires h.Valid() && (v.stopped ==> Within(h, v, bound)) && P.Known(s) && P.Enabled(s, t, a)
    requires HeapInv(h, v, bound, what, s, c) && Evolves(h, v, what, s, t, a, c, c')
    ensures HeapInv(h, v, bound, what, P.Next(s, t, a), c')
  {
    hide AllOK, RootsOK, Within, Named, Heap.Valid, WordOK, Pointed, IsNew, Limit, Seen, P.Enabled, P.Next, P.Known,
         Progress;
    InvalidForGood(s, t, a);
    AllObjects(h, v, what, s, t, a, c, c');
    MarkingStaysOK(h, v, bound, what, s, t, a, c, c');
    if v.stopped {
      if a.MarkFrom? {
        KnownLocal(s, t, a);
        StaysWithin(h, v, bound, what, P.ToSet(s.threads[t].local), s.ever, s.scanned, a, c, c');
      }
    }
  }

  lemma AllObjects(h: Heap, v: View, what: P.Work -> Entry, s: P.State, t: P.Tid, a: P.Action, c: Scene, c': Scene)
    requires P.Enabled(s, t, a) && Evolves(h, v, what, s, t, a, c, c') && c.marked <= h.home.Keys
    ensures c'.marked <= h.home.Keys
  {
    forall o | o in c'.marked ensures o in h.home {
      assert o in c.marked ==> o in h.home.Keys;
    }
  }

  lemma MarkingStaysOK(h: Heap, v: View, bound: set<ObjId>, what: P.Work -> Entry, s: P.State, t: P.Tid, a: P.Action,
                       c: Scene, c': Scene)
    requires h.Valid() && P.Enabled(s, t, a)
    requires HeapInv(h, v, bound, what, s, c) && Evolves(h, v, what, s, t, a, c, c')
    ensures var s' := P.Next(s, t, a);
            !s'.invalid ==> AllOK(h, Now(v, what, s', c')) && (v.stopped ==> RootsOK(h, Now(v, what, s', c')))
  {
    hide AllOK, RootsOK, Named, Heap.Valid, WordOK, Pointed, IsNew, Limit, Seen, P.Enabled, P.Next, Progress, Scans;
    Progresses(h, v, what, s, t, a, c, c');
    InvalidForGood(s, t, a);
    var s' := P.Next(s, t, a);
    var grey, grey' := Named(what, s.ever - s.scanned), Named(what, s'.ever - s'.scanned);
    if !s'.invalid {
      ObjectsStayOK(h, v, c, grey, c', grey');
      if v.stopped {
        RootsStayOK(h, v, c, grey, c', grey');
      }
    }
  }

  lemma InvalidForGood(s: P.State, t: P.Tid, a: P.Action)
    requires P.Enabled(s, t, a)
    ensures s.invalid ==> P.Next(s, t, a).invalid
    ensures a.MarkFrom? ==> P.Next(s, t, a).ever == s.ever + a.pushed
    ensures !a.MarkFrom? ==> P.Next(s, t, a).ever == s.ever
  {
  }

  lemma KnownLocal(s: P.State, t: P.Tid, a: P.Action)
    requires P.Known(s) && P.Enabled(s, t, a) && a.MarkFrom?
    ensures t in s.threads && s.threads[t].Working? && P.ToSet(s.threads[t].local) <= s.ever
  {
    assert s.threads[t].Hand() <= s.ever;
  }

  lemma NamedPlus(what: P.Work -> Entry, ws: set<P.Work>, w: P.Work)
    ensures Named(what, ws + {w}) == Named(what, ws) + what(w).Positions()
  {
  }

  /** The entries in the lowest n slots. */
  ghost function Lowest(s: P.State, n: nat): set<P.Work>
    requires n <= |s.slots| && forall i :: 0 <= i < n ==> s.slots[i].Full?
  {
    if n == 0 then {} else Lowest(s, n - 1) + {s.slots[n - 1].work}
  }

  lemma {:induction false} LowestHas(s: P.State, n: nat)
    requires n <= |s.slots| && forall i :: 0 <= i < n ==> s.slots[i].Full?
    ensures forall w :: w in Lowest(s, n) <==> exists i :: 0 <= i < n && s.slots[i].work == w
  {
    if n > 0 {
      LowestHas(s, n - 1);
    }
  }

  lemma {:induction false} NamedStack(what: P.Work -> Entry, s: P.State, stack: seq<Entry>, n: nat)
    requires Loads(what, s, stack) && n <= |stack|
    ensures Named(what, Lowest(s, n)) == Pending(stack[..n])
  {
    hide Named;
    if n == 0 {
      NamedNone(what);
      assert stack[..0] == [];
    } else {
      NamedStack(what, s, stack, n - 1);
      PendingPush(stack[..n - 1], stack[n - 1]);
      assert stack[..n - 1] + [stack[n - 1]] == stack[..n];
      NamedPlus(what, Lowest(s, n - 1), s.slots[n - 1].work);
    }
  }

  lemma NamedNone(what: P.Work -> Entry)
    ensures Named(what, {}) == {}
  {
  }

  /** At the start, the words on the stack are those of the entries. */
  lemma NamedAtFirst(what: P.Work -> Entry, s: P.State, stack: seq<Entry>)
    requires P.Init(s) && Loads(what, s, stack)
    ensures Named(what, s.ever - s.scanned) == Named(what, s.ever) == Pending(stack)
  {
    NamedStack(what, s, stack, |stack|);
    assert stack[..|stack|] == stack;
    LowestHas(s, |stack|);
    forall w ensures w in s.ever <==> w in Lowest(s, |stack|) {
      if w in Lowest(s, |stack|) {
        var i :| 0 <= i < |stack| && s.slots[i].work == w;
        assert w in P.Shared(s);
      }
    }
    assert s.ever == Lowest(s, |stack|);
    assert s.ever - s.scanned == s.ever;
  }

  lemma HeapInvAtFirst(h: Heap, v: View, bound: set<ObjId>, stack: seq<Entry>, what: P.Work -> Entry, s: P.State,
                       c: Scene)
    requires h.Valid() && Safe(h, v, bound) && v.state == MS_ROOTS_PUSHED && v.grey == Pending(stack)
    requires v.marked <= h.home.Keys
    requires P.Init(s) && Loads(what, s, stack) && c == Scene(v.mem, v.marked, v.lag)
    ensures HeapInv(h, v, bound, what, s, c)
  {
    hide Loads, Heap.Valid, Named, Pending, ObjOK, P.Init;
    NamedAtFirst(what, s, stack);
    assert Now(v, what, s, c) == v;
  }

  lemma Facts(h: Heap, v: View, bound: set<ObjId>, s: P.State)
    requires Safe(h, v, bound) && P.Inv(s)
    ensures v.stopped ==> Within(h, v, bound)
    ensures P.Known(s)
  {
  }

  lemma {:induction false} HeapRunKeepsInv(h: Heap, v: View, bound: set<ObjId>, stack: seq<Entry>,
                                           what: P.Work -> Entry, states: seq<P.State>,
                                           steps: seq<(P.Tid, P.Action)>, scenes: seq<Scene>, k: nat)
    requires h.Valid() && Safe(h, v, bound) && v.state == MS_ROOTS_PUSHED && v.grey == Pending(stack)
    requires v.marked <= h.home.Keys
    requires IsHeapRun(h, v, stack, what, states, steps, scenes) && k < |states|
    ensures HeapInv(h, v, bound, what, states[k], scenes[k])
  {
    hide P.Inv, P.Init, P.Enabled, P.Next, HeapInv, Evolves, Safe, Heap.Valid, Pending, Loads, Named;
    if k == 0 {
      HeapInvAtFirst(h, v, bound, stack, what, states[0], scenes[0]);
    } else {
      HeapRunKeepsInv(h, v, bound, stack, what, states, steps, scenes, k - 1);
      P.RunKeepsInv(states, steps, k - 1);
      Facts(h, v, bound, states[k - 1]);
      HeapStep(h, v, bound, what, states[k - 1], steps[k - 1].0, steps[k - 1].1, scenes[k - 1], scenes[k]);
    }
  }

  /** Parallel marking is as good as marking by one thread: when GC_do_parallel_mark has returned and the state is
      not invalid, the marker's invariant holds with nothing left to scan.  In any case nothing was marked that is
      out of reach. */
  lemma ParallelMarkIsSafe(h: Heap, v: View, bound: set<ObjId>, stack: seq<Entry>, what: P.Work -> Entry,
                           states: seq<P.State>, steps: seq<(P.Tid, P.Action)>, scenes: seq<Scene>, k: nat)
    requires h.Valid() && Safe(h, v, bound) && v.state == MS_ROOTS_PUSHED && v.grey == Pending(stack)
    requires v.marked <= h.home.Keys
    requires IsHeapRun(h, v, stack, what, states, steps, scenes) && k < |states| && states[k].finished
    ensures var c := scenes[k]; v.marked <= c.marked <= h.home.Keys && v.lag <= c.lag
    ensures var c := scenes[k]; forall x :: c.mem(x) == v.mem(x) || x in c.lag
    ensures v.stopped ==> var c := scenes[k]; c.marked <= Limit(v, bound) && c.mem == v.mem && c.lag == v.lag
    ensures !states[k].invalid ==> var w := Left(v, scenes[k]);
              Safe(h, w, bound) && AllOK(h, w) && (w.stopped ==> RootsOK(h, w))
  {
    HeapRunKeepsInv(h, v, bound, stack, what, states, steps, scenes, k);
    P.NoWorkIsLost(states, steps, k);
    var s, c := states[k], scenes[k];
    if !s.invalid {
      assert s.ever - s.scanned == {};
      assert Now(v, what, s, c) == Left(v, c);
      StillSafe(h, v, bound, Left(v, c));
    }
  }

  /** The view at the end, with nothing left to scan. */
  ghost function Left(v: View, c: Scene): View {
    v.(mem := c.mem, marked := c.marked, lag := c.lag, grey := {})
  }

  lemma StillSafe(h: Heap, v: View, bound: set<ObjId>, w: View)
    requires Safe(h, v, bound) && v.state == MS_ROOTS_PUSHED && v.marked <= w.marked
    requires w == v.(mem := w.mem, marked := w.marked, lag := w.lag, grey := {})
    requires v.stopped ==> w.mem == v.mem && w.marked <= Limit(v, bound)
    requires AllOK(h, w) && (v.stopped ==> RootsOK(h, w))
    ensures Safe(h, w, bound)
  {
  }

  /** The branch of GC_mark_some that marks in parallel.  Its run is given, with what it leaves: c and whether the
      state became invalid.  It does what GC_mark_some has to do; but since threads put back entries that are not
      new, that the shared stack overflows does not say that a new object was marked. */
  method MarkInParallel(m: M.Marker, c: Scene, invalid: bool, memory: bool, ghost what: P.Work -> Entry,
                        ghost states: seq<P.State>, ghost steps: seq<(P.Tid, P.Action)>, ghost scenes: seq<Scene>)
    returns (done: bool)
    requires m.Ready() && m.state == MS_ROOTS_PUSHED
    requires IsHeapRun(m.h, m.V({}), m.stack, what, states, steps, scenes)
    requires var n := |steps|; states[n].finished && states[n].invalid == invalid && scenes[n] == c
    requires states[0].capacity == m.size
    modifies m`mem, m`marked, m`stack, m`state, m`tooSmall, m`size, m`lost, m`spilt, m`unflushed
    ensures done <==> !invalid
    ensures done ==> m.Ready() && m.state == MS_NONE && m.objectsAreMarked
    ensures done ==> AllOK(m.h, m.V({})) && (m.stopped ==> RootsOK(m.h, m.V({})))
    ensures old(m.marked) <= m.marked
    ensures if done then m.Resized(old(m.size), old(m.tooSmall), memory) else m.size == old(m.size)
    ensures m.stopped ==> m.mem == old(m.mem) && m.Lag() == old(m.Lag()) && m.marked <= old(m.Scope())
    ensures !done ==> m.Ready() && m.state == MS_INVALID && m.stack == []
    ensures m.spilt ==> old(m.spilt) || (!done && !old(m.lost) && m.marked == old(m.marked))
    ensures !done && m.marked != old(m.marked) ==> m.Now().Closer(old(m.Now()))
  {
    hide M.Marker.Inv, M.Marker.Flags, M.Marker.Lag, Loads, Evolves, Safe, AllOK, RootsOK, M.Marker.Rank, TotalWeight,
         Limit;
    hide P.Init, P.Enabled, P.Next, Pending, DirtyOK, Around, Heap.Valid;
    ghost var v := m.V({});
    StartedSafe(m);
    ParallelMarkIsSafe(m.h, v, m.bound, m.stack, what, states, steps, scenes, |steps|);
    TakeOver(m, c);
    if invalid {
      GiveUp(m, v);
      done := false;
    } else {
      Regains(m);
      m.FinishMarking(memory);
      done := true;
    }
  }

  /** What the threads have left in memory and in the mark bits. */
  method TakeOver(m: M.Marker, c: Scene)
    requires m.Lag() <= c.lag && forall x :: c.mem(x) == m.mem(x) || x in c.lag
    modifies m`mem, m`marked, m`stack, m`unflushed
    ensures m.mem == c.mem && m.marked == c.marked && m.stack == [] && m.Lag() == c.lag
    ensures m.V({}) == Left(old(m.V({})), c)
  {
    ghost var stored := set x | x in c.lag && (x !in m.Lag() || c.mem(x) != m.mem(x));
    m.unflushed := m.unflushed + stored;
    m.mem, m.marked, m.stack := c.mem, c.marked, [];
    assert m.Lag() == c.lag;
  }

  /** What marking in parallel does not touch. */
  ghost predicate Around(m: M.Marker)
    reads m`size, m`scan, m`dirty, m`written, m`objectsAreMarked
  {
    m.h.Valid() && INITIAL_MARK_STACK_SIZE <= m.size && m.scan <= |m.h.blocks| && m.DirtyInv() && m.objectsAreMarked
  }

  lemma StartedSafe(m: M.Marker)
    requires m.Ready() && m.state == MS_ROOTS_PUSHED
    ensures m.h.Valid() && Around(m) && Safe(m.h, m.V({}), m.bound) && m.marked <= m.h.home.Keys
    ensures m.V({}).grey == Pending(m.stack) && m.V({}).lag == m.Lag() && Limit(m.V({}), m.bound) == m.Scope()
    ensures m.stopped && m.lost ==> m.Lag() == {}
  {
  }

  lemma Regains(m: M.Marker)
    requires Around(m) && Safe(m.h, m.V({}), m.bound) && m.marked <= m.h.home.Keys && m.stack == []
    requires m.state == MS_INVALID || (m.state == MS_ROOTS_PUSHED && (m.stopped && m.lost ==> m.Lag() == {}))
    ensures m.Ready()
  {
    hide Safe, Heap.Valid, DirtyOK;
  }

  /** Entries were lost. */
  method GiveUp(m: M.Marker, ghost v: View)
    requires Around(m) && m.marked <= m.h.home.Keys && m.stack == []
    requires m.V({}) == Left(v, Scene(m.mem, m.marked, m.Lag()))
    requires v.state == MS_ROOTS_PUSHED && Safe(m.h, v, m.bound) && v.marked <= m.marked
    requires v.stopped ==> m.mem == v.mem && m.Lag() == v.lag && m.marked <= Limit(v, m.bound)
    modifies m`state, m`tooSmall, m`lost, m`spilt
    ensures m.state == MS_INVALID && m.Ready()
    ensures m.spilt ==> v.spilt || (!v.lost && m.marked == v.marked)
  {
    hide DirtyOK, Heap.Valid, ClosedBound, NearBound, ObjOK;
    m.state, m.tooSmall, m.lost := MS_INVALID, true, true;
    m.spilt := m.spilt || (!v.lost && m.marked == v.marked);
    StillWithin(m.h, v, m.bound, m.V({}));
    Regains(m);
  }

  lemma StillWithin(h: Heap, v: View, bound: set<ObjId>, w: View)
    requires Safe(h, v, bound) && w.state == MS_INVALID && w.lost && v.marked <= w.marked && w.grey == {}
    requires w == v.(mem := w.mem, marked := w.marked, lag := w.lag, grey := {}, state := MS_INVALID, lost := true,
                     spilt := w.spilt)
    requires v.spilt ==> w.spilt
    requires v.stopped ==> w.mem == v.mem && w.marked <= Limit(v, bound)
    requires w.spilt || !v.stopped || v.lost || w.marked != v.marked
    ensures Safe(h, w, bound)
  {
    if v.stopped && !v.lost && !w.spilt {
      assert w.marked * w.near == w.marked;
      assert w.marked <= v.marked ==> w.marked == v.marked;
    }
  }
}
