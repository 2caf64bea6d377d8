/**
 A run that shows what the store protocol has to demand: it is not enough that an object that was written to, and not
 reported yet, is kept on a stack.
 */
module StoreProtocol {
  import opened MarkHeap
  import opened Reach
  import opened Partial
  import M = Marker
  import C = Collector

  /** What the comment on manual dirty bits asks for: objects written to and not reported yet are on some stack. */
  ghost predicate WrittenKept(h: Heap, mem: Addr -> Word, unflushed: set<Addr>) {
    forall o, a :: o in h.home && h.Owned(o) && a in h.Extent(o) && a in unflushed ==> OnSomeStack(h, mem, o)
  }

  const A: ObjId := 512
  const B: ObjId := 1024
  const STATIC: Addr := 0
  const STACK: Addr := 8

  /** Two blocks of one object of one word each, one static word and one stack word. */
  function Small(): Heap {
    Heap([Block([A], 1, Length(1), false, 1, 1), Block([B], 1, Length(1), false, 2, 1)],
         map[A := 0, B := 1], map[A := A, B := B], map[A := A, B := B], true, 1, 2000,
         [RootRange(STATIC, STATIC + 1)], [RootRange(STACK, STACK + 1)])
  }

  lemma SmallExtents()
    ensures var h := Small();
            && h.home.Keys == {A, B} && |h.blocks| == 2 && h.Owned(A) && h.Owned(B)
            && h.Extent(A) == {A} && h.Extent(B) == {B}
  {
    EntryWord(A);
    EntryWord(B);
  }

  lemma SmallIsValid()
    ensures Small().Valid()
  {
    var h := Small();
    SmallExtents();
    SmallBlocks(h);
    SmallStatics(h);
    SmallPages(h);
    SmallMaps(h);
    hide Small, Heap.Extent, Heap.RangeOffHeap, Block.HasPage, PageOf;
  }

  lemma SmallMaps(h: Heap)
    requires h == Small()
    ensures forall o :: o in h.home ==> h.home[o] < |h.blocks| && o in h.blocks[h.home[o]].objs
    ensures forall b :: 0 <= b < |h.blocks| ==>
              h.blocks[b].descr.Extent() <= h.blocks[b].sz && |h.blocks[b].objs| <= MAX_HBLK_OBJS
    ensures forall v :: v in h.target ==> h.target[v] in h.home && h.least <= v < h.greatest
    ensures h.stackTarget == h.target && |h.statics| == 1
  {
    assert h.blocks[0].objs == [A] && h.blocks[1].objs == [B];
  }

  lemma SmallPages(h: Heap)
    requires h == Small()
    ensures forall o :: o in h.home ==> h.home[o] < |h.blocks|
    ensures forall o, a :: o in h.home && a in h.Extent(o) ==> h.blocks[h.home[o]].HasPage(PageOf(a))
    ensures forall o, o', a :: o in h.home && o' in h.home && a in h.Extent(o) && a in h.Extent(o') ==> o == o'
  {
    SmallExtents();
    SmallBlocks(h);
    hide Heap.Extent, Block.HasPage, PageOf;
    assert forall o :: o in h.home ==> o == A || o == B;
  }

  lemma SmallBlocks(h: Heap)
    requires h == Small()
    ensures forall b, i :: 0 <= b < |h.blocks| && 0 <= i < |h.blocks[b].objs| ==>
              h.blocks[b].objs[i] in h.home && h.home[h.blocks[b].objs[i]] == b
    ensures h.blocks[0].HasPage(PageOf(A)) && h.blocks[1].HasPage(PageOf(B))
  {
    assert h.blocks[0].objs == [A] && h.blocks[1].objs == [B];
  }

  lemma SmallStatics(h: Heap)
    requires h == Small()
    ensures forall i :: 0 <= i < |h.statics| ==> h.RangeOffHeap(h.statics[i])
  {
    forall i | 0 <= i < |h.statics| ensures h.RangeOffHeap(h.statics[i]) {
      assert h.statics[i] == RootRange(STATIC, STATIC + 1);
      assert forall a :: STATIC <= a < STATIC + 1 ==> PageOf(a) == 0;
    }
  }

  /** Its words. */
  lemma SmallWords()
    ensures var h := Small();
            && h.StaticWords() == {STATIC} && h.StackWords() == {STACK}
            && h.Words(A) == h.Fields(A) == {A} && h.Words(B) == h.Fields(B) == {B}
  {
    var h := Small();
    RangeMembers(A, A + 1);
    RangeMembers(B, B + 1);
    RangeMembers(STATIC, STATIC + 1);
    RangeMembers(STACK, STACK + 1);
    assert h.statics[0] == RootRange(STATIC, STATIC + 1) && h.stacks[0] == RootRange(STACK, STACK + 1);
    assert STATIC in Range(h.statics[0].start, h.statics[0].end);
    assert STACK in Range(h.stacks[0].start, h.stacks[0].end);
    EntryWord(A);
    EntryWord(B);
  }

  lemma EntryWord(a: Addr)
    ensures Entry(a, Length(1)).Positions() == {a} == Range(a, a + 1)
  {
    RangeMembers(a, a + 1);
    RangeEntry(a, a + 1);
  }

  /** Before the store, only A can be reached. */
  lemma OnlyA(mem: Addr -> Word)
    requires mem(STATIC) == A && mem(STACK) == 0 && mem(A) == 0
    ensures LiveSet(Small(), mem, true, {}) <= {A} && RootPointsTo(Small(), mem, A)
  {
    SmallWords();
    assert NearBound(Small(), mem, {A}, {});
    NearInClosed(Small(), mem, {}, {}, {A});
    NearIsLive(Small(), mem, {});
  }

  /** After it, B can be reached, but only through A. */
  lemma ThroughA(mem: Addr -> Word)
    requires mem(STATIC) == A && mem(STACK) == A && mem(A) == B
    ensures NearSet(Small(), mem, true, {A}, {A}) <= {A}
    ensures Live(Small(), mem, false, {}, B) && OnSomeStack(Small(), mem, A)
  {
    var h := Small();
    SmallWords();
    assert NearBound(h, mem, {A}, {A});
    NearInClosed(h, mem, {A}, {A}, {A});
    assert RootPointsTo(h, mem, A) && PointsTo(h, mem, false, A, B);
    StartIsLive(h, mem, false, {}, A);
    LiveStep(h, mem, false, {}, A, B);
  }

  /** A full collection marks A, which a static word points to.  Then the mutator puts A on its stack and stores B
      into A.  The world is stopped before the mutator gets to report that.  A is on the stack, as documented; but
      it is marked and on no page reported dirty, so it is not looked into.  B, although it can be reached, is not
      marked. */
  method KeepingTheObjectIsNotEnough() returns (c: C.Collector)
    ensures c.Usable() && c.m.state == MS_NONE
    ensures WrittenKept(c.m.h, c.m.mem, {STACK, A})
    ensures Live(c.m.h, c.m.mem, false, {}, B) && B !in c.m.marked
  {
    hide Small, WrittenKept, NearSet, Live, OnSomeStack, M.Marker.Ready;
    c := AfterFirst();
    c.m.MutatorStore(STACK, A);
    c.m.MutatorStore(A, B);
    ThroughA(c.m.mem);
    KeptA(c.m.mem);
    SecondCollection(c);
  }

  /** The collector after the first collection. */
  method AfterFirst() returns (c: C.Collector)
    ensures fresh(c) && fresh(c.m) && c.Usable() && c.m.incremental && c.m.h == Small() && c.m.marked == {A}
    ensures c.m.state == MS_NONE && c.m.dirty == {} && c.m.mem(STATIC) == A
  {
    hide Small, LiveSet, RootPointsTo, Heap.Valid, M.Marker.Ready;
    SmallIsValid();
    var mem := a => if a == STATIC then A else 0;
    var m := new M.Marker(Small(), true, mem);
    c := new C.Collector(m, 1, 0);
    OnlyA(m.mem);
    FirstCollection(c);
  }

  lemma KeptA(mem: Addr -> Word)
    requires OnSomeStack(Small(), mem, A)
    ensures WrittenKept(Small(), mem, {STACK, A})
  {
    SmallExtents();
  }

  method FirstCollection(c: C.Collector)
    requires c.Usable() && c.m.incremental && c.m.h == Small() && c.m.marked == {} && c.m.state == MS_NONE
    requires LiveSet(Small(), c.m.mem, true, {}) <= {A} && RootPointsTo(Small(), c.m.mem, A) && c.m.mem(STACK) == 0
    modifies c, c.m
    ensures c.Usable() && c.m.mem == old(c.m.mem) && c.m.marked == {A} && c.m.state == MS_NONE && c.m.dirty == {}
    ensures c.m.Lag() == {}
  {
    hide M.Marker.V, Complete, NearSet, LiveSet, Live, UncollectableOnly, Small, RootPointsTo, Covered, Clean;
    hide M.Marker.Lag, StackPages, M.Marker.Held, M.Marker.Inv;
    c.m.Quiet();
    c.m.ClearMarks();
    assert c.m.marked == {};
    c.m.Cleared();
    var ok := c.StoppedMark(true);
    NoStackPages(c.m.mem);
    MarksA(c.m.mem, c.m.marked);
  }

  lemma NoStackPages(mem: Addr -> Word)
    requires mem(STACK) == 0
    ensures StackPages(Small(), mem) == {}
  {
    SmallWords();
  }

  lemma MarksA(mem: Addr -> Word, marked: set<ObjId>)
    requires Complete(Small(), mem, marked) && RootPointsTo(Small(), mem, A)
    ensures A in marked
  {
    StartIsLive(Small(), mem, false, marked, A);
  }

  method SecondCollection(c: C.Collector)
    requires c.Usable() && c.m.incremental && c.m.h == Small() && c.m.marked == {A} && c.m.state == MS_NONE
    requires c.m.dirty == {}
    requires NearSet(Small(), c.m.mem, true, {A}, {A}) <= {A}
    modifies c, c.m
    ensures c.Usable() && c.m.mem == old(c.m.mem) && B !in c.m.marked && c.m.state == MS_NONE
  {
    hide M.Marker.V, Complete, NearSet, LiveSet, Live, UncollectableOnly, Clean, Small, Covered, StackPages;
    c.m.Quiet();
    AIsClean();
    var ok := c.StoppedMark(true);
  }

  lemma AIsClean()
    ensures Clean(Small(), {A}, {}) == {A}
  {
  }
}
