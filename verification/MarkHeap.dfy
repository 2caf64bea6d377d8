/**
 The heap as the marker sees it: blocks of objects, mark descriptors, conservative
 pointer resolution, roots, and the invariant the marker keeps about them.

 Addresses count words, and candidate pointers are word aligned.  The layout of blocks
 and objects does not change while marking; the contents of words do.
 */
module MarkHeap {
  import opened Platform

  type Addr = int
  type Word = int
  type ObjId = int  // an object is named by the address of its first word

  /** Entries of the initial mark stack (one per byte of a heap block). */
  const INITIAL_MARK_STACK_SIZE: nat := 4096
  /** Entries dropped when the mark stack overflows. */
  const GC_MARK_STACK_DISCARDS: nat := 512
  /** Words in a heap block, which is also the unit of the page hash table. */
  const HBLK_WORDS: nat := 512
  /** Most objects a heap block can hold (one per granule). */
  const MAX_HBLK_OBJS: nat := 256

  datatype MarkState =
    | MS_NONE
    | MS_PUSH_RESCUERS
    | MS_PUSH_UNCOLLECTABLE
    | MS_ROOTS_PUSHED
    | MS_PARTIALLY_INVALID
    | MS_INVALID

  /** Mark descriptors: the first n words, or the words whose bit is set. */
  datatype Descr = Length(n: nat) | Bitmap(bits: seq<bool>) {
    function Extent(): nat {
      match this
      case Length(n) => n
      case Bitmap(bits) => |bits|
    }
  }

  /** A mark stack entry: the words of `descr`, counted from `start`, are still to be scanned. */
  datatype Entry = Entry(start: Addr, descr: Descr) {
    predicate Covers(a: Addr) {
      match descr
      case Length(n) => start <= a < start + n
      case Bitmap(bits) => 0 <= a - start < |bits| && bits[a - start]
    }

    ghost function Positions(): set<Addr> {
      set a: Addr | start <= a < start + descr.Extent() && Covers(a)
    }

    /** Scanning cost still owed for this entry; never zero. */
    function Weight(): nat {
      descr.Extent() + 1
    }
  }

  ghost function Range(lo: Addr, hi: Addr): set<Addr> {
    Entry(lo, Length(if lo <= hi then hi - lo else 0)).Positions()
  }

  /** All words named by the entries of a mark stack. */
  ghost function Pending(stack: seq<Entry>): set<Addr> {
    if stack == [] then {} else Pending(stack[..|stack| - 1]) + stack[|stack| - 1].Positions()
  }

  lemma NothingPending()
    ensures Pending([]) == {}
  {
  }

  ghost function TotalWeight(stack: seq<Entry>): nat {
    if stack == [] then 0 else TotalWeight(stack[..|stack| - 1]) + stack[|stack| - 1].Weight()
  }

  lemma {:induction false} PendingPush(stack: seq<Entry>, e: Entry)
    ensures Pending(stack + [e]) == Pending(stack) + e.Positions()
    ensures TotalWeight(stack + [e]) == TotalWeight(stack) + e.Weight()
  {
    assert (stack + [e])[..|stack|] == stack;
  }

  /** Pushing onto a mark stack of the given capacity.  An empty descriptor is not pushed; if the
      stack is full its newest entries are discarded to make room. */
  function Pushed(stack: seq<Entry>, e: Entry, size: nat): (r: seq<Entry>)
    requires |stack| <= size && INITIAL_MARK_STACK_SIZE <= size
    ensures |r| <= size
  {
    if e.descr == Length(0) then stack
    else if |stack| < size then stack + [e]
    else stack[..size - GC_MARK_STACK_DISCARDS] + [e]
  }

  predicate Overflows(stack: seq<Entry>, e: Entry, size: nat) {
    e.descr != Length(0) && |stack| >= size
  }

  lemma {:induction false} PendingPushed(stack: seq<Entry>, e: Entry, size: nat)
    requires |stack| <= size && INITIAL_MARK_STACK_SIZE <= size
    ensures Pending(Pushed(stack, e, size)) <= Pending(stack) + e.Positions()
    ensures !Overflows(stack, e, size) ==> Pending(Pushed(stack, e, size)) == Pending(stack) + e.Positions()
  {
    if e.descr == Length(0) {
      assert e.Positions() == {};
    } else if |stack| < size {
      PendingPush(stack, e);
    } else {
      PendingPush(stack[..size - GC_MARK_STACK_DISCARDS], e);
      PendingPrefix(stack, size - GC_MARK_STACK_DISCARDS);
    }
  }

  /** A heap block.  `objs` lists its objects by ascending address; a large object has the
      block to itself.  `page` and `npages` say which pages it occupies. */
  datatype Block = Block(objs: seq<ObjId>, sz: nat, descr: Descr, uncollectable: bool,
                         page: int, npages: nat)
  {
    predicate HasPage(p: int) {
      page <= p < page + npages
    }

    /** Objects of one, two or four granules are scanned word by word, ignoring the descriptor. */
    predicate Accelerated() {
      sz == 2 || sz == 4 || sz == 8
    }
  }

  datatype RootRange = RootRange(start: Addr, end: Addr)

  function PageOf(a: Addr): int {
    a / HBLK_WORDS
  }

  /** Is some page of the block in the page hash table? */
  predicate BlockIn(table: set<int>, b: Block) {
    exists p: int :: b.page <= p < b.page + b.npages && PhtHash(p) in table
  }

  /** Layout of the heap and of the roots.

      `target` maps each word that is a valid pointer from the heap or from static data to the
      object it points to; `stackTarget` does so for words found in stacks and registers, where
      interior pointers always count. */
  datatype Heap = Heap(blocks: seq<Block>, home: map<ObjId, nat>,
                       target: map<Word, ObjId>, stackTarget: map<Word, ObjId>,
                       allInterior: bool, least: Word, greatest: Word,
                       statics: seq<RootRange>, stacks: seq<RootRange>)
  {
    ghost predicate Valid() {
      && (forall o :: o in home ==> home[o] < |blocks| && o in blocks[home[o]].objs)
      && (forall b, i :: 0 <= b < |blocks| && 0 <= i < |blocks[b].objs| ==>
            blocks[b].objs[i] in home && home[blocks[b].objs[i]] == b)
      && (forall b :: 0 <= b < |blocks| ==>
            && blocks[b].descr.Extent() <= blocks[b].sz
            && |blocks[b].objs| <= MAX_HBLK_OBJS)
      && (forall v :: v in target ==> target[v] in home && least <= v < greatest)
      && (forall v :: v in stackTarget ==> stackTarget[v] in home && least <= v < greatest)
      && (allInterior ==> stackTarget == target)
      && (forall o, a :: o in home && a in Extent(o) ==> blocks[home[o]].HasPage(PageOf(a)))
      && (forall o, o', a :: o in home && o' in home && a in Extent(o) && a in Extent(o') ==> o == o')
      && |statics| + 2 <= INITIAL_MARK_STACK_SIZE / 4
      && (forall i :: 0 <= i < |statics| ==> RangeOffHeap(statics[i]))
    }

    /** Static data does not share pages with the heap. */
    ghost predicate RangeOffHeap(r: RootRange) {
      forall a, b :: r.start <= a < r.end && 0 <= b < |blocks| ==> !blocks[b].HasPage(PageOf(a))
    }

    ghost function Extent(o: ObjId): set<Addr>
      requires o in home && home[o] < |blocks|
    {
      Range(o, o + blocks[home[o]].sz)
    }

    ghost predicate Owned(o: ObjId) {
      o in home && home[o] < |blocks|
    }

    function EntryOf(o: ObjId): Entry
      requires o in home && home[o] < |blocks|
    {
      Entry(o, blocks[home[o]].descr)
    }

    /** The words of object o that its descriptor says may hold pointers. */
    ghost function Fields(o: ObjId): set<Addr> {
      if Owned(o) then EntryOf(o).Positions() else {}
    }

    /** The words of object o that the marker may look at: scans of small objects ignore what else the descriptor
        says. */
    ghost function Words(o: ObjId): set<Addr> {
      if !Owned(o) || blocks[home[o]].descr == Length(0) then {}
      else if blocks[home[o]].Accelerated() then Extent(o)
      else EntryOf(o).Positions()
    }

    ghost function StaticWords(): set<Addr> {
      set i, a | 0 <= i < |statics| && a in Range(statics[i].start, statics[i].end) :: a
    }

    ghost function StackWords(): set<Addr> {
      set i, a | 0 <= i < |stacks| && a in Range(stacks[i].start, stacks[i].end) :: a
    }
  }

  /** Words that were stored into and reported lie in blocks that the table names. */
  ghost predicate DirtyOK(h: Heap, table: set<int>, written: set<Addr>) {
    forall o, a :: o in h.home && h.Owned(o) && a in h.Extent(o) && a in written ==> BlockIn(table, h.blocks[h.home[o]])
  }

  ghost predicate UncollectableOnly(h: Heap, marked: set<ObjId>) {
    forall o :: o in marked ==> h.Owned(o) && h.blocks[h.home[o]].uncollectable
  }

  /** What the marker's invariant is about.  `grey` holds the words still to be scanned and `lag`
      the words stored into since the dirty bits were last read.  As long as no entry of the stack was `lost`, marking,
      which found the objects in `start` marked, stays within `near` and does not look into those in `skip`. */
  datatype View = View(mem: Addr -> Word, marked: set<ObjId>, grey: set<Addr>, lag: set<Addr>,
                       state: MarkState, scan: nat, dirty: set<int>, grungy: set<int>, stopped: bool,
                       lost: bool, start: set<ObjId>, near: set<ObjId>, skip: set<ObjId>, spilt: bool)

  ghost predicate WordOK(h: Heap, mem: Addr -> Word, marked: set<ObjId>, a: Addr) {
    mem(a) in h.target ==> h.target[mem(a)] in marked
  }

  ghost predicate StackWordOK(h: Heap, mem: Addr -> Word, marked: set<ObjId>, a: Addr) {
    mem(a) in h.stackTarget ==> h.stackTarget[mem(a)] in marked
  }

  /** Word a held w when it was read; a later store is remembered. */
  ghost predicate HeldIn(mem: Addr -> Word, lag: set<Addr>, stopped: bool, a: Addr, w: Word) {
    mem(a) == w || (a in lag && !stopped)
  }

  /** Word x needs no more attention. */
  ghost predicate DoneIn(h: Heap, mem: Addr -> Word, marked: set<ObjId>, lag: set<Addr>, x: Addr) {
    x in lag || WordOK(h, mem, marked, x)
  }

  lemma DoneNow(h: Heap, mem: Addr -> Word, marked: set<ObjId>, lag: set<Addr>, x: Addr)
    requires WordOK(h, mem, marked, x)
    ensures DoneIn(h, mem, marked, lag, x)
  {
  }

  /** Stores are remembered, so what was known of other words stays so. */
  lemma WordsKept(h: Heap, mem: Addr -> Word, marked: set<ObjId>, lag: set<Addr>,
                  mem': Addr -> Word, marked': set<ObjId>, lag': set<Addr>, stopped: bool)
    requires lag <= lag' && marked <= marked' && (stopped ==> mem' == mem)
    requires forall a :: mem'(a) == mem(a) || a in lag'
    ensures forall x, w :: HeldIn(mem, lag, stopped, x, w) ==> HeldIn(mem', lag', stopped, x, w)
    ensures forall x :: DoneIn(h, mem, marked, lag, x) ==> DoneIn(h, mem', marked', lag', x)
  {
  }

  /** Objects that the current phase of marking has still to come back to. */
  ghost predicate Deferred(h: Heap, state: MarkState, scan: nat, grungy: set<int>, o: ObjId) {
    match state
    case MS_NONE => false
    case MS_ROOTS_PUSHED => false
    case MS_PUSH_RESCUERS => h.Owned(o) && scan <= h.home[o] && BlockIn(grungy, h.blocks[h.home[o]])
    case MS_PUSH_UNCOLLECTABLE => h.Owned(o) && scan <= h.home[o] && h.blocks[h.home[o]].uncollectable
    case MS_PARTIALLY_INVALID => h.Owned(o) && scan <= h.home[o]
    case MS_INVALID => true
  }

  /** Every field of o is marked through, still to be scanned, or stored into lately. */
  ghost predicate ObjOK(h: Heap, v: View, o: ObjId) {
    forall a :: a in h.Fields(o) && a !in v.grey && a !in v.lag ==> WordOK(h, v.mem, v.marked, a)
  }

  /** Invariant "I" of the marker, with the exceptions each phase allows. */
  ghost predicate Tri(h: Heap, v: View) {
    forall o :: o in v.marked && !Deferred(h, v.state, v.scan, v.grungy, o) ==> ObjOK(h, v, o)
  }

  /** The root words already taken care of. */
  ghost predicate RootsOK(h: Heap, v: View) {
    && (forall a :: a in h.StaticWords() && a !in v.grey ==> WordOK(h, v.mem, v.marked, a))
    && (forall a :: a in h.StackWords() && !(h.allInterior && a in v.grey) ==>
          StackWordOK(h, v.mem, v.marked, a))
  }

  /** `bound` is closed under following any word the marker may look at. */
  ghost predicate ClosedBound(h: Heap, mem: Addr -> Word, bound: set<ObjId>) {
    && (forall o, a :: o in bound && a in h.Words(o) ==> WordOK(h, mem, bound, a))
    && (forall a :: a in h.StaticWords() ==> WordOK(h, mem, bound, a))
    && (forall a :: a in h.StackWords() ==> StackWordOK(h, mem, bound, a))
  }

  /** Does the given phase look into marked object o, now or later? */
  ghost predicate Visits(h: Heap, state: MarkState, grungy: set<int>, o: ObjId) {
    match state
    case MS_NONE => false
    case MS_ROOTS_PUSHED => false
    case MS_PUSH_RESCUERS => h.Owned(o) && BlockIn(grungy, h.blocks[h.home[o]])
    case _ => true
  }

  /** `near` is closed under following any word of an object not in `skip`; those in `skip` are marked and are not
      visited. */
  ghost predicate NearClosed(h: Heap, v: View) {
    && NearBound(h, v.mem, v.near, v.skip)
    && (forall o :: o in v.skip ==> o in v.marked && !Visits(h, v.state, v.grungy, o))
  }

  ghost predicate NearBound(h: Heap, mem: Addr -> Word, near: set<ObjId>, skip: set<ObjId>) {
    && (forall o, a :: o in near && o !in skip && a in h.Words(o) ==> WordOK(h, mem, near, a))
    && (forall a :: a in h.StaticWords() ==> WordOK(h, mem, near, a))
    && (forall a :: a in h.StackWords() ==> StackWordOK(h, mem, near, a))
  }

  /** How far marking may spread at present. */
  ghost function Limit(v: View, bound: set<ObjId>): set<ObjId> {
    if v.lost then bound else v.near
  }

  /** Something in `near` was marked that was not marked at the start. */
  ghost predicate Fresh(v: View) {
    !(v.marked * v.near <= v.start)
  }

  /** Marking stays within `bound`, and within `near` as long as nothing was lost. */
  ghost predicate Within(h: Heap, v: View, bound: set<ObjId>) {
    && ClosedBound(h, v.mem, bound)
    && v.near <= bound && v.start <= v.marked
    && (if v.lost then v.spilt || Fresh(v) else NearClosed(h, v))
    && v.marked <= Limit(v, bound)
    && (forall a :: a in v.grey ==> WordOK(h, v.mem, Limit(v, bound), a))
  }

  /** The marker's invariant.  With the world stopped, marking also stays within `bound`, and once the
      roots are pushed they are taken care of. */
  ghost predicate Safe(h: Heap, v: View, bound: set<ObjId>) {
    && Tri(h, v)
    && (v.stopped ==> Within(h, v, bound))
    && (v.stopped && v.state == MS_ROOTS_PUSHED ==> RootsOK(h, v))
  }

  // ---------- How the invariant moves ----------

  lemma RangeMembers(lo: Addr, hi: Addr)
    ensures forall a :: a in Range(lo, hi) <==> lo <= a < hi
  {
    forall a ensures a in Range(lo, hi) <==> lo <= a < hi {
      assert Entry(lo, Length(if lo <= hi then hi - lo else 0)).Covers(a) <==> lo <= a < hi;
    }
  }

  lemma RangeEntry(lo: Addr, hi: Addr)
    requires lo <= hi
    ensures Entry(lo, Length(hi - lo)).Positions() == Range(lo, hi)
  {
  }

  /** Taking the first word off a range, or the last. */
  lemma RangeSteps(lo: Addr, hi: Addr)
    requires lo < hi
    ensures lo in Range(lo, hi) && hi - 1 in Range(lo, hi)
    ensures Range(lo + 1, hi) <= Range(lo, hi) <= Range(lo + 1, hi) + {lo}
    ensures Range(lo, hi - 1) <= Range(lo, hi) <= Range(lo, hi - 1) + {hi - 1}
    ensures Range(hi, hi) == {}
  {
    RangeMembers(lo, hi);
    RangeMembers(lo + 1, hi);
    RangeMembers(lo, hi - 1);
    RangeMembers(hi, hi);
  }

  /** Shifting a bitmap along by one word. */
  lemma BitmapStep(start: Addr, bits: seq<bool>)
    requires bits != []
    ensures var here, rest := Entry(start, Bitmap(bits)).Positions(), Entry(start + 1, Bitmap(bits[1..])).Positions();
            && rest <= here <= rest + {start}
            && (bits[0] ==> start in here)
            && (!bits[0] ==> here == rest)
  {
    var e, f := Entry(start, Bitmap(bits)), Entry(start + 1, Bitmap(bits[1..]));
    assert e.Covers(start) <==> bits[0];
    forall a | a != start ensures e.Covers(a) <==> f.Covers(a) {
      if 0 < a - start < |bits| {
        assert bits[1..][a - (start + 1)] == bits[a - start];
      }
    }
  }

  lemma BitmapClear(start: Addr, bits: seq<bool>)
    requires true !in bits
    ensures Entry(start, Bitmap(bits)).Positions() == {}
  {
  }

  lemma EmptyEntry(start: Addr)
    ensures Entry(start, Length(0)).Positions() == {} == Range(start, start)
  {
  }

  /** Cutting a range in two. */
  lemma SplitEntry(start: Addr, n: nat, k: nat)
    requires k <= n
    ensures Entry(start, Length(n)).Positions() == Range(start, start + k) + Entry(start + k, Length(n - k)).Positions()
  {
    RangeMembers(start, start + n);
    RangeMembers(start, start + k);
    RangeMembers(start + k, start + n);
    assert Entry(start, Length(n)).Positions() == Range(start, start + n);
    assert Entry(start + k, Length(n - k)).Positions() == Range(start + k, start + n);
  }

  lemma FieldsInWords(h: Heap, o: ObjId)
    requires h.Valid() && o in h.home
    ensures h.Fields(o) == h.EntryOf(o).Positions() <= h.Words(o)
  {
    FieldsInExtent(h, o);
  }

  lemma FieldsInExtent(h: Heap, o: ObjId)
    requires h.Valid() && o in h.home
    ensures h.Fields(o) <= h.Extent(o)
  {
    RangeMembers(o, o + h.blocks[h.home[o]].sz);
  }

  /** Marking an object and putting its fields on the stack keeps the invariant. */
  lemma MarkAndPushKeeps(h: Heap, v: View, w: View, o: ObjId, bound: set<ObjId>)
    requires h.Valid() && o in h.home
    requires Safe(h, v, bound) && (v.stopped ==> o in Limit(v, bound) && (!v.lost ==> o !in v.skip))
    requires w == v.(marked := v.marked + {o}, state := w.state, grey := w.grey, lost := w.lost)
    requires w.grey <= v.grey + h.EntryOf(o).Positions()
    requires v.stopped && w.lost && !v.lost ==> o !in v.marked || Fresh(v)
    requires || (w.state == MS_INVALID && w.lost)
             || (w.state == v.state && w.lost == v.lost && w.grey == v.grey + h.EntryOf(o).Positions())
    ensures Safe(h, w, bound)
    ensures Steady(h, v, w)
    ensures w.state != MS_INVALID ==> ObjOK(h, w, o)
  {
    FieldsInWords(h, o);
    assert w.state != MS_INVALID ==> ObjOK(h, w, o);
    assert w.state != MS_INVALID ==> forall p :: ObjOK(h, v, p) ==> ObjOK(h, w, p);
  }

  /** Stores by the mutator keep the invariant, since they are remembered. */
  lemma StoresKeep(h: Heap, v: View, w: View)
    requires w == v.(mem := w.mem, lag := w.lag, dirty := w.dirty)
    requires v.lag <= w.lag
    requires forall a :: w.mem(a) != v.mem(a) ==> a in w.lag
    ensures Tri(h, v) ==> Tri(h, w)
    ensures forall p :: ObjOK(h, v, p) ==> ObjOK(h, w, p)
  {
  }

  /** Having more words to scan does no harm, as long as they lead nowhere new. */
  lemma MoreGrey(h: Heap, v: View, w: View, bound: set<ObjId>)
    requires Safe(h, v, bound)
    requires w == v.(grey := w.grey) && v.grey <= w.grey
    requires v.stopped ==> forall a :: a in w.grey && a !in v.grey ==> WordOK(h, v.mem, Limit(v, bound), a)
    ensures Safe(h, w, bound)
    ensures Steady(h, v, w)
  {
    assert forall p :: ObjOK(h, v, p) ==> ObjOK(h, w, p);
  }

  /** Once every object and every root is dealt with, marking enters its last phase. */
  lemma RootsPushed(h: Heap, v: View, w: View, bound: set<ObjId>)
    requires Safe(h, v, bound) && AllOK(h, v) && (v.stopped ==> RootsOK(h, v))
    requires w == v.(state := MS_ROOTS_PUSHED)
    ensures Safe(h, w, bound)
  {
    assert forall p :: ObjOK(h, v, p) ==> ObjOK(h, w, p);
  }

  lemma Finished(h: Heap, v: View, w: View, bound: set<ObjId>)
    requires Safe(h, v, bound) && v.state == MS_ROOTS_PUSHED
    requires w == v.(state := MS_NONE)
    ensures Safe(h, w, bound) && AllOK(h, w) && (w.stopped ==> RootsOK(h, w))
  {
    assert forall p :: ObjOK(h, v, p) ==> ObjOK(h, w, p);
  }

  /** Starting a pass over the heap for marked objects, everything is still ahead. */
  lemma NothingScanned(h: Heap, v: View, w: View, bound: set<ObjId>)
    requires h.Valid() && Safe(h, v, bound) && v.marked <= h.home.Keys && v.state == MS_INVALID && w.scan == 0
    requires w == v.(state := w.state, lag := w.lag)
    requires || w.state == MS_PARTIALLY_INVALID
             || (w.state == MS_PUSH_UNCOLLECTABLE && forall o :: o in v.marked ==> h.blocks[h.home[o]].uncollectable)
    ensures Safe(h, w, bound)
  {
  }

  /** In the invalid state it does not matter what is remembered, dirty or passed. */
  lemma SafeAnyway(h: Heap, v: View, w: View, bound: set<ObjId>)
    requires Within(h, v, bound) && w.state == MS_INVALID
    requires w == v.(dirty := w.dirty, lag := w.lag, scan := w.scan, grungy := w.grungy) && v.grungy == w.grungy
    ensures Safe(h, w, bound)
  {
  }

  /** While the mutator runs, nothing is claimed in the invalid state. */
  lemma NothingClaimed(h: Heap, v: View, bound: set<ObjId>)
    requires v.state == MS_INVALID && !v.stopped
    ensures Safe(h, v, bound)
  {
  }

  /** The world stops with nothing on the stack. */
  lemma NowStopped(h: Heap, v: View, w: View, bound: set<ObjId>)
    requires Tri(h, v) && w.stopped && w.grey == {} && w.state != MS_ROOTS_PUSHED
    requires w == v.(stopped := true, lost := false, start := v.marked, near := bound, skip := {}, spilt := false)
    requires ClosedBound(h, w.mem, bound) && w.marked <= bound
    ensures Safe(h, w, bound)
  {
    assert forall p :: ObjOK(h, v, p) ==> ObjOK(h, w, p);
  }

  /** With an empty stack, a collection may start: the words reported dirty so far lie in grungy blocks. */
  lemma CollectionStarts(h: Heap, v: View, w: View, bound: set<ObjId>)
    requires h.Valid() && Safe(h, v, bound) && v.marked <= h.home.Keys
    requires v.grey == w.grey == {} && w.mem == v.mem && w.marked == v.marked && w.scan == 0
    requires w.stopped && v.stopped && !w.lost && !v.lost && w.start == v.start && w.near <= v.near
    requires w.marked <= w.near && NearClosed(h, w)
    requires w.state == MS_INVALID || (v.state == MS_NONE && w.state == MS_PUSH_RESCUERS)
    requires w.state == MS_PUSH_RESCUERS ==>
               forall o, a :: o in v.marked && a in h.Fields(o) && a in v.lag && a !in w.lag ==>
                 h.Owned(o) && BlockIn(w.grungy, h.blocks[h.home[o]])
    ensures Safe(h, w, bound)
  {
    forall o | o in w.marked && !Deferred(h, w.state, w.scan, w.grungy, o) ensures ObjOK(h, w, o) {
      assert ObjOK(h, v, o);
    }
  }

  /** A word whose target is marked, or which is remembered, need not be scanned any more. */
  lemma WordDone(h: Heap, v: View, w: View, a: Addr, bound: set<ObjId>)
    requires h.Valid() && Safe(h, v, bound)
    requires w == v.(grey := w.grey) && w.grey <= v.grey <= w.grey + {a}
    requires WordOK(h, v.mem, v.marked, a) || (a in v.lag && !v.stopped)
    ensures Safe(h, w, bound)
    ensures Steady(h, v, w)
  {
    LessGrey(h, v, w, a);
    hide ObjOK, Heap.Valid, NearBound, ClosedBound, StackPages;
  }

  lemma LessGrey(h: Heap, v: View, w: View, a: Addr)
    requires w == v.(grey := w.grey) && w.grey <= v.grey <= w.grey + {a}
    requires WordOK(h, v.mem, v.marked, a) || (a in v.lag && !v.stopped)
    ensures forall p :: ObjOK(h, v, p) ==> ObjOK(h, w, p)
  {
  }

  lemma {:induction false} PendingPrefix(stack: seq<Entry>, k: nat)
    requires k <= |stack|
    ensures Pending(stack[..k]) <= Pending(stack)
  {
    if k < |stack| {
      PendingPrefix(stack[..|stack| - 1], k);
      assert stack[..|stack| - 1][..k] == stack[..k];
    } else {
      assert stack[..k] == stack;
    }
  }

  /** What word a of a stack points to is taken to be dirty: its page is, and no store into it is unreported. */
  ghost predicate Noted(h: Heap, mem: Addr -> Word, dirty: set<int>, unflushed: set<Addr>, a: Addr) {
    mem(a) in h.stackTarget ==>
      && PhtHash(PageOf(mem(a))) in dirty
      && forall o, x :: o in h.home && h.Owned(o) && mem(a) in h.Extent(o) && x in h.Extent(o) ==> x !in unflushed
  }

  /** The pages of objects pointed to from stacks; these objects are taken to be dirty. */
  ghost function StackPages(h: Heap, mem: Addr -> Word): set<int> {
    set r | r in h.StackWords() && mem(r) in h.stackTarget :: PhtHash(PageOf(mem(r)))
  }

  /** What a step of marking never undoes: w is a later view than v. */
  ghost predicate Steady(h: Heap, v: View, w: View) {
    && v.marked <= w.marked
    && (w.state == v.state || w.state == MS_INVALID)
    && w.stopped == v.stopped
    && (v.stopped ==> w.mem == v.mem && w.lag == v.lag && v.dirty <= w.dirty <= v.dirty + StackPages(h, v.mem))
    && (!v.stopped ==> Remembered(v, w))
    && w.start == v.start && w.near == v.near && w.skip == v.skip
    && (v.lost ==> w.lost) && (w.lost ==> v.lost || w.state == MS_INVALID) && (w.state != v.state ==> w.lost)
    && (w.state != MS_INVALID ==>
          forall p :: p in w.marked && (p in v.marked ==> ObjOK(h, v, p)) ==> ObjOK(h, w, p))
    && (v.stopped && w.state != MS_INVALID ==> StillAwaited(h, v, w))
  }

  /** Stores between v and w are remembered, and what was remembered or reported before still is. */
  ghost predicate Remembered(v: View, w: View) {
    v.lag <= w.lag && v.dirty <= w.dirty && forall a :: w.mem(a) == v.mem(a) || a in w.lag
  }

  lemma RememberedRefl(v: View)
    ensures Remembered(v, v)
  {
  }

  lemma RememberedTrans(u: View, v: View, w: View)
    requires Remembered(u, v) && Remembered(v, w)
    ensures Remembered(u, w)
  {
  }

  /** Word a is still to be scanned, or what it points to is marked. */
  ghost predicate Awaited(h: Heap, v: View, a: Addr) {
    a in v.grey || WordOK(h, v.mem, v.marked, a)
  }

  ghost predicate StillAwaited(h: Heap, v: View, w: View) {
    forall a :: Awaited(h, v, a) ==> Awaited(h, w, a)
  }

  ghost predicate AllOK(h: Heap, v: View) {
    forall p :: p in v.marked ==> ObjOK(h, v, p)
  }

  lemma MoreDirty(h: Heap, v: View, w: View, bound: set<ObjId>)
    requires Safe(h, v, bound) && w == v.(dirty := w.dirty) && v.dirty <= w.dirty
    requires v.stopped ==> w.dirty <= v.dirty + StackPages(h, v.mem)
    ensures Safe(h, w, bound) && Steady(h, v, w)
  {
    assert forall p :: ObjOK(h, v, p) <==> ObjOK(h, w, p);
  }

  /** Without an overflow the phase stays the same. */
  lemma SteadyState(h: Heap, v: View, w: View)
    requires Steady(h, v, w)
    ensures w.state == v.state || (w.state == MS_INVALID && w.lost)
    ensures v.stopped ==> w.stopped && w.mem == v.mem && w.lag == v.lag
    ensures v.marked <= w.marked
  {
  }

  lemma SteadyAll(h: Heap, v: View, w: View)
    requires Steady(h, v, w) && AllOK(h, v) && w.state != MS_INVALID
    ensures AllOK(h, w)
  {
  }

  /** What a later view says about overflow and about the words to be remembered. */
  lemma SteadyLag(h: Heap, v: View, w: View)
    requires Steady(h, v, w)
    ensures v.stopped ==> w.mem == v.mem && w.lag == v.lag && v.dirty <= w.dirty <= v.dirty + StackPages(h, v.mem)
    ensures w.state == v.state || w.state == MS_INVALID
    ensures w.lost ==> v.lost || w.state == MS_INVALID
    ensures !v.stopped ==> Remembered(v, w)
  {
  }

  /** A mark stack, and the objects marked by now. */
  datatype Burden = Burden(h: Heap, stack: seq<Entry>, marked: set<ObjId>) {
    /** The entries of the stack, and those that may still be pushed for objects not marked yet. */
    ghost function Amount(): nat {
      |stack| + |h.home.Keys - marked|
    }
  }

  /** Marking has added no more entries than it had to, for objects that it marked, and if these fit it has not
      overflowed the stack. */
  ghost predicate Eased(load: Burden, lost: bool, load': Burden, lost': bool, size: nat) {
    && load'.Amount() <= load.Amount() && (load.Amount() <= size ==> lost' == lost)
    && Fed(load, load')
  }

  /** The words that came onto the stack are fields of objects marked since. */
  ghost predicate Fed(load: Burden, load': Burden) {
    && load'.h == load.h && load.marked <= load'.marked
    && forall a :: a in Pending(load'.stack) ==>
         a in Pending(load.stack) || InFields(load.h, load'.marked - load.marked, a)
  }

  lemma EasedRefl(load: Burden, lost: bool, size: nat)
    ensures Eased(load, lost, load, lost, size)
  {
  }

  lemma EasedTrans(load: Burden, lost: bool, load1: Burden, lost1: bool, load2: Burden, lost2: bool, size: nat)
    requires Eased(load, lost, load1, lost1, size) && Eased(load1, lost1, load2, lost2, size)
    ensures Eased(load, lost, load2, lost2, size)
  {
    FedTrans(load, load1, load2);
    hide Fed;
  }

  lemma FedTrans(load: Burden, load1: Burden, load2: Burden)
    requires Fed(load, load1) && Fed(load1, load2)
    ensures Fed(load, load2)
  {
    forall a | a in Pending(load2.stack) && a !in Pending(load.stack)
      ensures InFields(load.h, load2.marked - load.marked, a)
    {
      if a in Pending(load1.stack) {
        var o :| o in load1.marked - load.marked && a in load.h.Fields(o);
        assert o in load2.marked - load.marked;
      } else {
        var o :| o in load2.marked - load1.marked && a in load.h.Fields(o);
        assert o in load2.marked - load.marked;
      }
    }
  }

  lemma EasedNew(h: Heap, stack: seq<Entry>, marked: set<ObjId>, o: ObjId, size: nat, lost: bool)
    requires |stack| <= size && INITIAL_MARK_STACK_SIZE <= size && h.Owned(o) && o !in marked
    ensures var e := h.EntryOf(o);
            Eased(Burden(h, stack, marked), lost, Burden(h, Pushed(stack, e, size), marked + {o}),
                  lost || Overflows(stack, e, size), size)
  {
    assert h.home.Keys - (marked + {o}) == (h.home.Keys - marked) - {o};
    PendingPushed(stack, h.EntryOf(o), size);
    assert o in marked + {o} - marked;
  }

  lemma EasedLess(h: Heap, stack: seq<Entry>, stack': seq<Entry>, marked: set<ObjId>, size: nat, lost: bool)
    requires |stack'| <= |stack| && Pending(stack') <= Pending(stack)
    ensures Eased(Burden(h, stack, marked), lost, Burden(h, stack', marked), lost, size)
  {
  }

  lemma SteadyRefl(h: Heap, v: View)
    ensures Steady(h, v, v)
  {
  }

  lemma SteadyObj(h: Heap, v: View, w: View, p: ObjId)
    requires Steady(h, v, w) && w.state != MS_INVALID && p in w.marked
    requires p in v.marked ==> ObjOK(h, v, p)
    ensures ObjOK(h, w, p)
  {
  }

  /** Steadiness does not look at scan_ptr. */
  lemma SameButScan(h: Heap, u: View, v: View, w: View)
    requires (Steady(h, u, v) || u == v) && w == v.(scan := w.scan)
    ensures Steady(h, u, w)
  {
    assert forall p :: ObjOK(h, v, p) <==> ObjOK(h, w, p);
  }

  lemma SteadyTrans(h: Heap, u: View, v: View, w: View)
    requires Steady(h, u, v) && Steady(h, v, w)
    ensures Steady(h, u, w)
  {
  }

  // ---------- Reachability ----------

  /** Some word of o points to p; `wide` says whether words outside the descriptor count too. */
  ghost predicate PointsTo(h: Heap, mem: Addr -> Word, wide: bool, o: ObjId, p: ObjId) {
    exists a :: a in (if wide then h.Words(o) else h.Fields(o)) && mem(a) in h.target && h.target[mem(a)] == p
  }

  ghost predicate RootPointsTo(h: Heap, mem: Addr -> Word, p: ObjId) {
    || (exists a :: a in h.StaticWords() && mem(a) in h.target && h.target[mem(a)] == p)
    || (exists a :: a in h.StackWords() && mem(a) in h.stackTarget && h.stackTarget[mem(a)] == p)
  }

  ghost predicate IsPath(h: Heap, mem: Addr -> Word, wide: bool, path: seq<ObjId>) {
    && path != []
    && forall i :: 0 <= i < |path| - 1 ==> PointsTo(h, mem, wide, path[i], path[i + 1])
  }

  /** o is reachable from the roots or from an object in `start`. */
  ghost predicate Live(h: Heap, mem: Addr -> Word, wide: bool, start: set<ObjId>, o: ObjId) {
    exists path :: IsPath(h, mem, wide, path) && path[|path| - 1] == o
                   && (path[0] in start || RootPointsTo(h, mem, path[0]))
  }

  ghost function LiveSet(h: Heap, mem: Addr -> Word, wide: bool, start: set<ObjId>): set<ObjId> {
    set o | o in h.home && Live(h, mem, wide, start, o)
  }

  /** Everything reachable, through fields, from the roots or from a marked object is marked. */
  ghost predicate Complete(h: Heap, mem: Addr -> Word, marked: set<ObjId>) {
    forall o :: Live(h, mem, false, marked, o) ==> o in marked
  }

  /** The live objects are closed under following pointers. */
  lemma LiveSetClosed(h: Heap, mem: Addr -> Word, wide: bool, start: set<ObjId>)
    requires h.Valid() && start <= h.home.Keys
    ensures start <= LiveSet(h, mem, wide, start)
    ensures wide ==> ClosedBound(h, mem, LiveSet(h, mem, wide, start))
  {
    var bound := LiveSet(h, mem, wide, start);
    forall o | o in start ensures o in bound {
      StartIsLive(h, mem, wide, start, o);
    }
    forall o, a | wide && o in bound && a in h.Words(o) ensures WordOK(h, mem, bound, a) {
      WordIsLive(h, mem, start, o, a);
    }
    forall a | a in h.StaticWords() ensures WordOK(h, mem, bound, a) {
      RootIsLive(h, mem, wide, start, a);
    }
    forall a | a in h.StackWords() ensures StackWordOK(h, mem, bound, a) {
      RootIsLive(h, mem, wide, start, a);
    }
  }

  lemma LiveSetGrows(h: Heap, mem: Addr -> Word, wide: bool, start: set<ObjId>, start': set<ObjId>)
    requires start <= start'
    ensures LiveSet(h, mem, wide, start) <= LiveSet(h, mem, wide, start')
  {
    forall o | Live(h, mem, wide, start, o) ensures Live(h, mem, wide, start', o) {
      var path :| IsPath(h, mem, wide, path) && path[|path| - 1] == o
                  && (path[0] in start || RootPointsTo(h, mem, path[0]));
    }
  }

  lemma TargetsAreObjects(h: Heap, w: Word)
    requires h.Valid()
    ensures w in h.target ==> h.target[w] in h.home
    ensures w in h.stackTarget ==> h.stackTarget[w] in h.home
  {
  }

  lemma WordIsLive(h: Heap, mem: Addr -> Word, start: set<ObjId>, o: ObjId, a: Addr)
    requires h.Valid() && Live(h, mem, true, start, o) && a in h.Words(o)
    ensures WordOK(h, mem, LiveSet(h, mem, true, start), a)
  {
    if mem(a) in h.target {
      var p := h.target[mem(a)];
      assert PointsTo(h, mem, true, o, p);
      LiveStep(h, mem, true, start, o, p);
      TargetsAreObjects(h, mem(a));
    }
  }

  lemma RootIsLive(h: Heap, mem: Addr -> Word, wide: bool, start: set<ObjId>, a: Addr)
    requires h.Valid()
    ensures a in h.StaticWords() ==> WordOK(h, mem, LiveSet(h, mem, wide, start), a)
    ensures a in h.StackWords() ==> StackWordOK(h, mem, LiveSet(h, mem, wide, start), a)
  {
    if a in h.StaticWords() && mem(a) in h.target {
      StartIsLive(h, mem, wide, start, h.target[mem(a)]);
      TargetsAreObjects(h, mem(a));
    }
    if a in h.StackWords() && mem(a) in h.stackTarget {
      StartIsLive(h, mem, wide, start, h.stackTarget[mem(a)]);
      TargetsAreObjects(h, mem(a));
    }
  }

  lemma StartIsLive(h: Heap, mem: Addr -> Word, wide: bool, start: set<ObjId>, o: ObjId)
    requires o in start || RootPointsTo(h, mem, o)
    ensures Live(h, mem, wide, start, o)
  {
    assert IsPath(h, mem, wide, [o]);
  }

  lemma LiveStep(h: Heap, mem: Addr -> Word, wide: bool, start: set<ObjId>, o: ObjId, p: ObjId)
    requires Live(h, mem, wide, start, o) && PointsTo(h, mem, wide, o, p)
    ensures Live(h, mem, wide, start, p)
  {
    var path :| IsPath(h, mem, wide, path) && path[|path| - 1] == o
                && (path[0] in start || RootPointsTo(h, mem, path[0]));
    var longer := path + [p];
    forall i | 0 <= i < |longer| - 1 ensures PointsTo(h, mem, wide, longer[i], longer[i + 1]) {
      if i < |path| - 1 {
        assert PointsTo(h, mem, wide, path[i], path[i + 1]);
      }
    }
    assert IsPath(h, mem, wide, longer);
  }

  // ---------- What a partial collection can reach ----------

  /** The marked objects in blocks that the table does not name; a partial collection does not look into them. */
  ghost function Clean(h: Heap, marked: set<ObjId>, table: set<int>): set<ObjId> {
    set o | o in marked && h.Owned(o) && !BlockIn(table, h.blocks[h.home[o]])
  }

  /** The words in `lag` that are fields of objects in s. */
  ghost function WordsOf(h: Heap, s: set<ObjId>, lag: set<Addr>): set<Addr> {
    set a | a in lag && InFields(h, s, a)
  }

  ghost predicate InFields(h: Heap, s: set<ObjId>, a: Addr) {
    exists o :: o in s && a in h.Fields(o)
  }

  lemma CleanIsMarked(h: Heap, marked: set<ObjId>, table: set<int>)
    ensures Clean(h, marked, table) <= marked
  {
  }

  lemma CleanIsNotVisited(h: Heap, marked: set<ObjId>, table: set<int>)
    ensures forall o :: o in Clean(h, marked, table) ==> o in marked && !Visits(h, MS_PUSH_RESCUERS, table, o)
  {
  }

  /** Words of marked objects in other blocks will be looked at anyway. */
  lemma ForgetSeen(h: Heap, marked: set<ObjId>, table: set<int>, lag: set<Addr>)
    requires forall o :: o in marked ==> h.Owned(o)
    ensures forall o, a :: o in marked && a in h.Fields(o) && a in lag
                           && a !in WordsOf(h, Clean(h, marked, table), lag) ==>
              h.Owned(o) && BlockIn(table, h.blocks[h.home[o]])
  {
    forall o, a | o in marked && a in h.Fields(o) && a in lag && a !in WordsOf(h, Clean(h, marked, table), lag)
      ensures h.Owned(o) && BlockIn(table, h.blocks[h.home[o]])
    {
      assert o in Clean(h, marked, table) ==> InFields(h, Clean(h, marked, table), a);
    }
  }

  /** A partial collection starts: the dirty bits are read, and only words of unvisited objects are remembered. */
  ghost function Started(h: Heap, v: View, unflushed: set<Addr>): View {
    var skip := Clean(h, v.marked, v.dirty);
    v.(dirty := {}, grungy := v.dirty, state := MS_PUSH_RESCUERS, scan := 0, lag := WordsOf(h, skip, unflushed),
       near := NearSet(h, v.mem, true, skip, v.marked), skip := skip)
  }

  lemma PartialStarts(h: Heap, v: View, written: set<Addr>, unflushed: set<Addr>, bound: set<ObjId>)
    requires h.Valid() && Safe(h, v, bound) && v.stopped && !v.lost && v.grey == {} && v.state == MS_NONE
    requires v.marked <= h.home.Keys && (forall o :: o in v.marked ==> h.Owned(o)) && v.lag == written + unflushed
    requires v.start == v.marked && v.near == LiveSet(h, v.mem, true, v.marked)
    requires forall o, a :: o in h.home && a in h.Fields(o) && a in written ==> BlockIn(v.dirty, h.blocks[h.home[o]])
    ensures Safe(h, Started(h, v, unflushed), bound)
  {
    var w := Started(h, v, unflushed);
    NearSetBound(h, v.mem, w.skip, v.marked);
    CleanIsNotVisited(h, v.marked, v.dirty);
    ForgetSeen(h, v.marked, v.dirty, unflushed);
    hide Safe, NearBound, NearSet, LiveSet, WordsOf, Clean, Visits, BlockIn;
    NearlyClosed(h, w);
    CollectionStarts(h, v, w, bound);
  }

  lemma NearlyClosed(h: Heap, v: View)
    requires NearBound(h, v.mem, v.near, v.skip)
    requires forall o :: o in v.skip ==> o in v.marked && !Visits(h, v.state, v.grungy, o)
    ensures NearClosed(h, v)
  {
  }

  /** o is reachable from the roots or from an object in `start` without looking into an object in `skip`. */
  ghost predicate NearLive(h: Heap, mem: Addr -> Word, wide: bool, skip: set<ObjId>, start: set<ObjId>, o: ObjId) {
    exists path :: IsPath(h, mem, wide, path) && Avoids(path, skip) && path[|path| - 1] == o
                   && (path[0] in start || RootPointsTo(h, mem, path[0]))
  }

  ghost predicate Avoids(path: seq<ObjId>, skip: set<ObjId>) {
    forall i :: 0 <= i < |path| - 1 ==> path[i] !in skip
  }

  ghost function NearSet(h: Heap, mem: Addr -> Word, wide: bool, skip: set<ObjId>, start: set<ObjId>): set<ObjId> {
    set o | o in h.home && NearLive(h, mem, wide, skip, start, o)
  }

  lemma NearStart(h: Heap, mem: Addr -> Word, wide: bool, skip: set<ObjId>, start: set<ObjId>, o: ObjId)
    requires o in start || RootPointsTo(h, mem, o)
    ensures NearLive(h, mem, wide, skip, start, o)
  {
    assert IsPath(h, mem, wide, [o]) && Avoids([o], skip);
  }

  lemma NearStep(h: Heap, mem: Addr -> Word, wide: bool, skip: set<ObjId>, start: set<ObjId>, o: ObjId, p: ObjId)
    requires NearLive(h, mem, wide, skip, start, o) && o !in skip && PointsTo(h, mem, wide, o, p)
    ensures NearLive(h, mem, wide, skip, start, p)
  {
    var path :| IsPath(h, mem, wide, path) && Avoids(path, skip) && path[|path| - 1] == o
                && (path[0] in start || RootPointsTo(h, mem, path[0]));
    var longer := path + [p];
    forall i | 0 <= i < |longer| - 1 ensures PointsTo(h, mem, wide, longer[i], longer[i + 1]) && longer[i] !in skip {
      if i < |path| - 1 {
        assert PointsTo(h, mem, wide, path[i], path[i + 1]);
      }
    }
    assert IsPath(h, mem, wide, longer) && Avoids(longer, skip);
  }

  /** What can be reached without looking into `skip` is closed, apart from `skip`. */
  lemma NearSetBound(h: Heap, mem: Addr -> Word, skip: set<ObjId>, start: set<ObjId>)
    requires h.Valid() && start <= h.home.Keys
    ensures var near := NearSet(h, mem, true, skip, start);
            start <= near <= LiveSet(h, mem, true, start) && NearBound(h, mem, near, skip)
  {
    var near := NearSet(h, mem, true, skip, start);
    forall o | o in start ensures o in near {
      NearStart(h, mem, true, skip, start, o);
    }
    forall o | o in near ensures Live(h, mem, true, start, o) {
    }
    forall o, a | o in near && o !in skip && a in h.Words(o) ensures WordOK(h, mem, near, a) {
      NearWord(h, mem, skip, start, o, a);
    }
    forall a | a in h.StaticWords() && mem(a) in h.target ensures h.target[mem(a)] in near {
      NearStart(h, mem, true, skip, start, h.target[mem(a)]);
      TargetsAreObjects(h, mem(a));
    }
    forall a | a in h.StackWords() && mem(a) in h.stackTarget ensures h.stackTarget[mem(a)] in near {
      NearStart(h, mem, true, skip, start, h.stackTarget[mem(a)]);
      TargetsAreObjects(h, mem(a));
    }
  }

  lemma NearWord(h: Heap, mem: Addr -> Word, skip: set<ObjId>, start: set<ObjId>, o: ObjId, a: Addr)
    requires h.Valid() && NearLive(h, mem, true, skip, start, o) && o !in skip && a in h.Words(o)
    ensures WordOK(h, mem, NearSet(h, mem, true, skip, start), a)
  {
    if mem(a) in h.target {
      assert PointsTo(h, mem, true, o, h.target[mem(a)]);
      NearStep(h, mem, true, skip, start, o, h.target[mem(a)]);
      TargetsAreObjects(h, mem(a));
    }
  }

  /** What the words in `lag` point to is also pointed to from some stack. */
  ghost predicate HeldOnStacks(h: Heap, mem: Addr -> Word, lag: set<Addr>) {
    forall a :: a in lag && mem(a) in h.target ==> OnSomeStack(h, mem, h.target[mem(a)])
  }

  ghost predicate OnSomeStack(h: Heap, mem: Addr -> Word, o: ObjId) {
    exists r :: r in h.StackWords() && mem(r) in h.stackTarget && h.stackTarget[mem(r)] == o
  }
}
