/**
 Parallel marking as a transition system.  Any number of threads take mark stack entries from a shared stack, mark
 from their own local stacks, put work back, and detect that all work is done.  Each section under the mark lock and
 each atomic access is one step, and steps of different threads interleave freely.
 */
module ParallelMark {

  type Tid = nat
  type Work = int  // a mark stack entry; each entry that is ever pushed has its own name

  /** A slot of the shared stack; taking an entry clears its descriptor and never frees the slot. */
  datatype Slot = Cleared | Full(work: Work)

  /** Where a thread is, with its copy of the first slot that may be full (my), and its local stack. */
  datatype Thread =
    | Idle                                                    // has not joined this mark phase
    | Loop(my: nat)                                           // at the top of the loop of GC_mark_local
    | Compare(my: nat, seen: nat)                             // has read the shared first_nonempty
    | ReadTop(my: nat)                                        // about to read the shared top
    | AtLock(my: nat)                                         // found nothing, about to acquire the mark lock
    | Waiting(my: nat)                                        // inactive, waiting for work or for the end
    | Stealing(p: nat, high: int, local: seq<Work>)           // looking at slot p
    | Holding(p: nat, high: int, local: seq<Work>, w: Work)   // has read entry w in slot p, not cleared it yet
    | Working(my: nat, local: seq<Work>)                      // marking from the local stack
    | Notifying(my: nat, local: seq<Work>)                    // has put work back, about to notify the others
    | Done                                                    // has left GC_mark_local
  {
    predicate Member() { !Idle? && !Done? }
    predicate Active() { Member() && !Waiting? }

    /** Slots below this one are known to the thread to be cleared. */
    function From(): nat {
      match this
      case Loop(my) => my
      case Compare(my, seen) => if my < seen then seen else my
      case ReadTop(my) => my
      case AtLock(my) => my
      case Waiting(my) => my
      case Stealing(p, high, local) => p
      case Holding(p, high, local, w) => p
      case Working(my, local) => my
      case Notifying(my, local) => my
      case _ => 0
    }

    /** Entries that only this thread has. */
    ghost function Hand(): set<Work> {
      match this
      case Stealing(p, high, local) => set w | w in local
      case Holding(p, high, local, v) => (set w | w in local) + {v}
      case Working(my, local) => set w | w in local
      case Notifying(my, local) => set w | w in local
      case _ => {}
    }
  }

  datatype State = State(
    slots: seq<Slot>,          // the shared stack up to its top; it never shrinks
    capacity: nat,
    first: nat,                // GC_first_nonempty
    active: int,
    helpers: int,
    wanted: bool,              // GC_help_wanted
    invalid: bool,             // GC_mark_state is MS_INVALID
    threads: map<Tid, Thread>,
    asleep: set<Tid>,          // waiting for the condition variable of the markers to be notified
    finished: bool,            // GC_do_parallel_mark has returned
    ever: set<Work>,           // entries that were ever on some stack
    scanned: set<Work>)        // entries that GC_mark_from has worked on

  /** Thread 0 starts parallel marking; it has just entered GC_mark_local. */
  ghost predicate Init(s: State) {
    && 0 in s.threads
    && s.threads[0] == Loop(0)
    && (forall t :: t in s.threads && t != 0 ==> s.threads[t] == Idle)
    && |s.slots| <= s.capacity
    && s.first == 0 && s.active == 1 && s.helpers == 1 && s.wanted && !s.finished && s.asleep == {}
    && s.ever == s.scanned + Shared(s)
  }

  ghost function Shared(s: State): set<Work> {
    set i | 0 <= i < |s.slots| && s.slots[i].Full? :: s.slots[i].work
  }

  // ---------- The steps of a thread ----------

  datatype Action =
    | Join          // GC_help_marker: join while help is wanted
    | ReadFirst     // read the shared first_nonempty
    | Sync          // catch up with it, or try to advance it by a compare-and-swap
    | LoadTop       // read the shared top
    | GoInactive    // under the lock: look again, and if there is really nothing, stop being active.  The last active
                    // thread notifies the others and leaves at once; the others wait
    | Leave         // woken up: nobody is active and the shared stack is empty, so leave
    | Resume        // woken up: there is something on the stack again
    | Doze          // woken up: there is nothing to do yet, so wait again
    | Stir          // wake up without having been notified, as condition variables allow
    | ReadSlot      // GC_steal_mark_stack reads the descriptor of a slot
    | ClearSlot     // it clears the descriptor and takes the entry; another thread may have taken it as well
    | StopStealing  // it has enough entries, or has looked at all slots
    | MarkFrom(pushed: set<Work>, done: set<Work>, local: seq<Work>, invalid: bool)
                    // GC_mark_from works on the local stack: it pushes new entries and takes entries off once it has
                    // scanned them; if the local stack overflows, entries are lost and the mark state becomes invalid
    | Again         // the local stack is empty: look for more
    | Return(n: nat)  // GC_return_mark_stack, under the lock: put the first n local entries back on the shared stack,
                    // or drop them if there is no room
    | Notify        // and then, without the lock, notify all threads
    | Finish        // GC_do_parallel_mark: thread 0 has left, and the others have too

  ghost predicate Enabled(s: State, t: Tid, a: Action) {
    t in s.threads && 0 in s.threads &&
    var x := s.threads[t];
    match a
    case Join => x.Idle? && s.wanted
    case ReadFirst => x.Loop?
    case Sync => x.Compare?
    case LoadTop => x.ReadTop?
    case GoInactive => x.AtLock?
    case Leave => t !in s.asleep && x.Waiting? && s.active == 0 && s.first > |s.slots| - 1
    case Resume => t !in s.asleep && x.Waiting? && s.first <= |s.slots| - 1
    case Doze => t !in s.asleep && (Idles(s, x) || (t == 0 && x.Done? && s.helpers > 0))
    case Stir => t in s.asleep
    case ReadSlot => x.Stealing? && x.p <= x.high && x.p < |s.slots|
    case ClearSlot => x.Holding? && x.p < |s.slots|
    case StopStealing => x.Stealing? && (x.p > x.high || x.local != [])
    case MarkFrom(pushed, done, local, invalid) =>
      && x.Working?
      && (x.local == [] ==> pushed == {})
      && ToSet(local) + done <= ToSet(x.local) + pushed
      && (invalid || ToSet(x.local) + pushed <= ToSet(local) + done)
      && (invalid == s.invalid || (invalid && pushed != {}))
    case Again => x.Working? && x.local == []
    case Return(n) => x.Working? && 0 < n <= |x.local|
    case Notify => x.Notifying?
    case Finish => t == 0 && t !in s.asleep && x.Done? && s.helpers == 0 && !s.finished
  }

  /** The condition of the loop around GC_wait_marker in GC_mark_local. */
  ghost predicate Idles(s: State, x: Thread) {
    x.Waiting? && s.active > 0 && s.first > |s.slots| - 1
  }

  ghost function ToSet(ws: seq<Work>): set<Work> {
    set w | w in ws
  }

  /** The thread after the step. */
  ghost function Then(s: State, t: Tid, a: Action): Thread
    requires Enabled(s, t, a)
  {
    var x, top := s.threads[t], |s.slots| - 1;
    match a
    case Join => Loop(s.first)
    case ReadFirst => Compare(x.my, s.first)
    case Sync => ReadTop(if x.my < x.seen then x.seen else x.my)
    case LoadTop => if top < x.my then AtLock(x.my) else Stealing(x.my, top, [])
    case GoInactive =>
      if top - x.my + 1 != 0 then Stealing(x.my, top, [])
      else if s.first <= top then Loop(x.my)
      else if s.active == 1 then Done
      else Waiting(x.my)
    case Leave => Done
    case Resume => Loop(x.my)
    case Doze => x
    case Stir => x
    case ReadSlot =>
      if s.slots[x.p].Full? then Holding(x.p, x.high, x.local, s.slots[x.p].work)
      else Stealing(x.p + 1, x.high, x.local)
    case ClearSlot => Stealing(x.p + 1, x.high, x.local + [x.w])
    case StopStealing => Working(x.p, x.local)
    case MarkFrom(pushed, done, local, invalid) => Working(x.my, local)
    case Again => Loop(x.my)
    case Return(n) => Notifying(x.my, x.local[n..])
    case Notify => Working(x.my, x.local)
    case Finish => x
  }

  /** The shared stack after the step. */
  ghost function SlotsThen(s: State, t: Tid, a: Action): seq<Slot>
    requires Enabled(s, t, a)
  {
    var x := s.threads[t];
    match a
    case ClearSlot => s.slots[x.p := Cleared]
    case Return(n) =>
      if |s.slots| + n <= s.capacity then s.slots + seq(n, i requires 0 <= i < n => Full(x.local[i])) else s.slots
    case _ => s.slots
  }

  /** The thread leaves GC_mark_local. */
  ghost predicate Leaves(s: State, t: Tid, a: Action)
    requires Enabled(s, t, a)
  {
    Then(s, t, a).Done? && !s.threads[t].Done?
  }

  ghost function FirstThen(s: State, t: Tid, a: Action): nat
    requires Enabled(s, t, a)
  {
    var x := s.threads[t];
    if a.Sync? && x.seen < x.my && s.first == x.seen then x.my else s.first
  }

  ghost function ActiveThen(s: State, t: Tid, a: Action): int
    requires Enabled(s, t, a)
  {
    if a.Join? || a.Resume? then s.active + 1
    else if a.GoInactive? && !Then(s, t, a).Active() then s.active - 1
    else s.active
  }

  ghost function HelpersThen(s: State, t: Tid, a: Action): int
    requires Enabled(s, t, a)
  {
    if a.Join? then s.helpers + 1 else if Leaves(s, t, a) then s.helpers - 1 else s.helpers
  }

  ghost function InvalidThen(s: State, t: Tid, a: Action): bool
    requires Enabled(s, t, a)
  {
    match a
    case MarkFrom(pushed, done, local, invalid) => invalid
    case Return(n) => s.invalid || |s.slots| + n > s.capacity
    case _ => s.invalid
  }

  /** The last active thread notifies the others, and so does the last one to leave. */
  ghost predicate NotifiesAll(s: State, t: Tid, a: Action)
    requires Enabled(s, t, a)
  {
    || a.Notify?
    || (a.GoInactive? && s.active == 1 && !Then(s, t, a).Stealing?)
    || (Leaves(s, t, a) && s.helpers == 1)
  }

  /** Thread 0, when it leaves, waits for the others unless it is the last. */
  ghost predicate FallsAsleep(s: State, t: Tid, a: Action)
    requires Enabled(s, t, a)
  {
    || a.Doze?
    || (a.GoInactive? && Then(s, t, a).Waiting?)
    || (Leaves(s, t, a) && t == 0 && s.helpers > 1)
  }

  ghost function AsleepThen(s: State, t: Tid, a: Action): set<Tid>
    requires Enabled(s, t, a)
  {
    var others := if NotifiesAll(s, t, a) then {} else s.asleep - {t};
    if FallsAsleep(s, t, a) then others + {t} else others
  }

  /** Thread 0 withdraws the call for help in the section in which it leaves. */
  ghost function Next(s: State, t: Tid, a: Action): State
    requires Enabled(s, t, a)
  {
    State(SlotsThen(s, t, a), s.capacity, FirstThen(s, t, a), ActiveThen(s, t, a), HelpersThen(s, t, a),
          s.wanted && !(Leaves(s, t, a) && t == 0), InvalidThen(s, t, a), s.threads[t := Then(s, t, a)],
          AsleepThen(s, t, a), s.finished || a.Finish? || (Leaves(s, t, a) && t == 0 && s.helpers == 1),
          if a.MarkFrom? then s.ever + a.pushed else s.ever, if a.MarkFrom? then s.scanned + a.done else s.scanned)
  }

  // ---------- The invariant ----------

  ghost predicate ClearedBelow(slots: seq<Slot>, k: nat) {
    k <= |slots| && forall i :: 0 <= i < k ==> slots[i].Cleared?
  }

  ghost predicate ThreadOK(slots: seq<Slot>, x: Thread) {
    && ClearedBelow(slots, x.From())
    && (x.Stealing? ==> x.p <= x.high + 1 <= |slots|)
    && (x.Holding? ==> x.p <= x.high < |slots| && (slots[x.p].Cleared? || slots[x.p] == Full(x.w)))
  }

  /** No thread believes that a full slot is behind it. */
  ghost predicate Frontiers(s: State) {
    && 0 in s.threads
    && |s.slots| <= s.capacity
    && ClearedBelow(s.slots, s.first)
    && forall t :: t in s.threads ==> ThreadOK(s.slots, s.threads[t])
  }

  ghost function ActiveSet(threads: map<Tid, Thread>): set<Tid> {
    set t | t in threads && threads[t].Active()
  }

  ghost function Members(threads: map<Tid, Thread>): set<Tid> {
    set t | t in threads && threads[t].Member()
  }

  /** The counters count. */
  ghost predicate Counts(s: State) {
    s.active == |ActiveSet(s.threads)| && s.helpers == |Members(s.threads)|
  }

  /** No work is left anywhere. */
  ghost predicate Quiet(s: State) {
    && s.first == |s.slots|
    && forall t :: t in s.threads ==> s.threads[t].Hand() == {}
  }

  /** A thread leaves only when no work is left, and none turns up later. */
  ghost predicate Detected(s: State) {
    && (forall t :: t in s.threads && s.threads[t].Done? ==> Quiet(s))
    && (s.finished ==> s.helpers == 0 && 0 in s.threads && s.threads[0].Done?)
    && (0 in s.threads && s.threads[0].Done? ==> !s.wanted)
  }

  /** A thread sleeps only as long as there is someone to wake it up: the markers while some thread is active, and
      thread 0, when it has left, while others have not. */
  ghost predicate Sleepers(s: State) {
    forall t :: t in s.asleep ==> t in s.threads && MaySleep(s, t, s.threads[t])
  }

  ghost predicate MaySleep(s: State, t: Tid, x: Thread) {
    if x.Waiting? then s.active > 0 else t == 0 && x.Done? && s.helpers > 0
  }

  /** Some thread sleeps although there is something on the shared stack. */
  ghost predicate Oversleeps(s: State, t: Tid) {
    t in s.asleep && t in s.threads && s.threads[t].Waiting? && s.first < |s.slots|
  }

  /** That is so only until a thread that has put work back comes to notify the others. */
  ghost predicate Told(s: State) {
    (exists t :: Oversleeps(s, t)) ==> exists u :: u in s.threads && s.threads[u].Notifying?
  }

  ghost predicate OnShared(slots: seq<Slot>, w: Work) {
    exists i :: 0 <= i < |slots| && slots[i] == Full(w)
  }

  ghost predicate InHand(threads: map<Tid, Thread>, w: Work) {
    exists t :: t in threads && w in threads[t].Hand()
  }

  /** No entry is lost. */
  ghost predicate Kept(s: State) {
    s.invalid || forall w :: w in s.ever ==> w in s.scanned || OnShared(s.slots, w) || InHand(s.threads, w)
  }

  /** Entries on stacks were pushed at some time. */
  ghost predicate Known(s: State) {
    && (forall i :: 0 <= i < |s.slots| && s.slots[i].Full? ==> s.slots[i].work in s.ever)
    && (forall t :: t in s.threads ==> s.threads[t].Hand() <= s.ever)
  }

  /** Thread x will look at the shared stack, or move first_nonempty on, before it becomes inactive. */
  ghost predicate Alert(s: State, x: Thread) {
    match x
    case Loop(_) => true
    case Compare(my, seen) => seen == s.first || x.From() < |s.slots|
    case ReadTop(my) => my < |s.slots|
    case AtLock(my) => my < |s.slots|
    case Stealing(_, _, _) => true
    case Holding(_, _, _, _) => true
    case Working(_, _) => true
    case Notifying(_, _) => true
    case _ => false
  }

  /** Unless first_nonempty is past the top of the shared stack, some thread is alert. */
  ghost predicate Watched(s: State) {
    s.first == |s.slots| || exists t :: t in s.threads && Alert(s, s.threads[t])
  }

  ghost predicate Inv(s: State) {
    && Frontiers(s) && !s.threads[0].Idle? && Counts(s) && Detected(s) && Kept(s) && Watched(s)
    && Sleepers(s) && Told(s) && Known(s)
  }

  lemma InitInv(s: State)
    requires Init(s)
    ensures Inv(s)
  {
    assert ActiveSet(s.threads) == {0} == Members(s.threads);
    assert Alert(s, s.threads[0]);
    forall w | w in s.ever && w !in s.scanned ensures OnShared(s.slots, w) {
      assert w in Shared(s);
    }
    forall i | 0 <= i < |s.slots| && s.slots[i].Full? ensures s.slots[i].work in s.ever {
      assert s.slots[i].work in Shared(s);
    }
  }

  /** The shared stack only grows, and its slots are only cleared. */
  ghost predicate Later(slots: seq<Slot>, slots': seq<Slot>) {
    |slots| <= |slots'| && forall i :: 0 <= i < |slots| ==> slots'[i] == slots[i] || slots'[i].Cleared?
  }

  lemma SlotsLater(s: State, t: Tid, a: Action)
    requires Enabled(s, t, a)
    ensures Later(s.slots, SlotsThen(s, t, a))
  {
  }

  lemma ThreadStillOK(slots: seq<Slot>, slots': seq<Slot>, x: Thread)
    requires Later(slots, slots') && ThreadOK(slots, x)
    ensures ThreadOK(slots', x)
  {
  }

  /** A step changes one thread, and the shared stack within its capacity. */
  lemma NextParts(s: State, t: Tid, a: Action)
    requires Enabled(s, t, a)
    ensures var s' := Next(s, t, a);
            && s'.threads == s.threads[t := Then(s, t, a)] && s'.slots == SlotsThen(s, t, a)
            && s'.capacity == s.capacity && (|s.slots| <= s.capacity ==> |s'.slots| <= s'.capacity)
  {
  }

  lemma FrontiersKept(s: State, t: Tid, a: Action)
    requires Frontiers(s) && Enabled(s, t, a)
    ensures Frontiers(Next(s, t, a))
  {
    SlotsLater(s, t, a);
    NextParts(s, t, a);
    OwnFrontier(s, t, a);
    SharedFrontier(s, t, a);
    hide Next, Then, SlotsThen, ThreadOK, ClearedBelow, Later;
    var s' := Next(s, t, a);
    forall u | u in s'.threads ensures ThreadOK(s'.slots, s'.threads[u]) {
      if u != t {
        ThreadStillOK(s.slots, s'.slots, s.threads[u]);
      }
    }
  }

  lemma OwnFrontier(s: State, t: Tid, a: Action)
    requires Frontiers(s) && Enabled(s, t, a)
    ensures ThreadOK(SlotsThen(s, t, a), Then(s, t, a))
  {
    SlotsLater(s, t, a);
    assert ThreadOK(s.slots, s.threads[t]);
    assert ClearedBelow(s.slots, s.first);
    hide Frontiers;
    if !a.ClearSlot? && !a.Return? {
      assert SlotsThen(s, t, a) == s.slots;
    }
  }

  lemma SharedFrontier(s: State, t: Tid, a: Action)
    requires Frontiers(s) && Enabled(s, t, a)
    ensures ClearedBelow(SlotsThen(s, t, a), Next(s, t, a).first)
  {
    SlotsLater(s, t, a);
    assert ThreadOK(s.slots, s.threads[t]);
    hide SlotsThen;
  }

  lemma CountChange(threads: map<Tid, Thread>, t: Tid, x: Thread)
    requires t in threads
    ensures var a, b := ActiveSet(threads), ActiveSet(threads[t := x]);
            |b| == |a| - (if threads[t].Active() then 1 else 0) + (if x.Active() then 1 else 0)
    ensures var a, b := Members(threads), Members(threads[t := x]);
            |b| == |a| - (if threads[t].Member() then 1 else 0) + (if x.Member() then 1 else 0)
  {
    Difference(ActiveSet(threads), ActiveSet(threads[t := x]), t);
    Difference(Members(threads), Members(threads[t := x]), t);
  }

  lemma Difference(a: set<Tid>, b: set<Tid>, t: Tid)
    requires a - {t} == b - {t}
    ensures |b| == |a| - (if t in a then 1 else 0) + (if t in b then 1 else 0)
  {
    assert |a - {t}| == |a| - (if t in a then 1 else 0);
    assert |b - {t}| == |b| - (if t in b then 1 else 0);
  }

  lemma CountsKept(s: State, t: Tid, a: Action)
    requires Counts(s) && Enabled(s, t, a)
    ensures Counts(Next(s, t, a))
  {
    CountChange(s.threads, t, Then(s, t, a));
  }

  /** Once no work is left, none turns up. */
  lemma QuietKept(s: State, t: Tid, a: Action)
    requires Frontiers(s) && Quiet(s) && Enabled(s, t, a)
    ensures Quiet(Next(s, t, a))
  {
    assert ThreadOK(s.slots, s.threads[t]);
    assert s.threads[t].Hand() == {};
    StillEmptyHanded(s, t, a);
    HandOfOne(s.threads[t]);
    hide Thread.Hand, ToSet;
    var s' := Next(s, t, a);
    assert s'.first == |s'.slots|;
    forall u | u in s'.threads ensures s'.threads[u].Hand() == {} {
      assert u == t || s'.threads[u] == s.threads[u];
    }
  }

  lemma StillEmptyHanded(s: State, t: Tid, a: Action)
    requires Enabled(s, t, a) && ThreadOK(s.slots, s.threads[t]) && ClearedBelow(s.slots, |s.slots|)
    requires s.threads[t].Hand() == {}
    ensures Then(s, t, a).Hand() == {}
  {
    HandOfOne(s.threads[t]);
  }

  lemma HandOfOne(x: Thread)
    ensures (x.Working? || x.Stealing?) && x.local != [] ==> x.local[0] in x.Hand()
    ensures x.Holding? ==> x.w in x.Hand()
  {
  }

  /** After GC_do_parallel_mark has returned, no thread does anything any more. */
  lemma NothingAfterFinish(s: State, t: Tid, a: Action)
    requires Counts(s) && Detected(s) && Sleepers(s) && s.finished
    ensures !Enabled(s, t, a)
  {
    assert Members(s.threads) == {};
    if t in s.threads {
      assert s.threads[t].Member() ==> t in Members(s.threads);
    }
  }

  /** A thread that leaves has found out that no work is left. */
  lemma LeaveIsQuiet(s: State, t: Tid, a: Action)
    requires Frontiers(s) && Counts(s) && Enabled(s, t, a) && Then(s, t, a).Done? && !s.threads[t].Done?
    ensures Quiet(Next(s, t, a))
  {
    NextParts(s, t, a);
    var s' := Next(s, t, a);
    LastActive(s, t);
    assert s.first == |s.slots| == s'.first == |s'.slots|;
    forall u | u in s'.threads ensures s'.threads[u].Hand() == {} {
      assert u == t || !s.threads[u].Active();
    }
  }

  /** If nobody is active, or only t is, then no other thread is. */
  lemma LastActive(s: State, t: Tid)
    requires Counts(s) && t in s.threads
    ensures s.active == 0 ==> forall u :: u in s.threads ==> !s.threads[u].Active()
    ensures s.active == 1 && s.threads[t].Active() ==> forall u :: u in s.threads && u != t ==> !s.threads[u].Active()
  {
    var active := ActiveSet(s.threads);
    if s.active == 0 {
      assert active == {};
    }
    if s.active == 1 && s.threads[t].Active() {
      assert |active - {t}| == 0;
      assert active - {t} == {};
    }
    forall u | u in s.threads && s.threads[u].Active() ensures u in active {
    }
  }

  lemma DetectedKept(s: State, t: Tid, a: Action)
    requires Frontiers(s) && Counts(s) && Detected(s) && Sleepers(s) && Enabled(s, t, a)
    ensures Detected(Next(s, t, a))
  {
    if s.finished {
      NothingAfterFinish(s, t, a);
    } else if Then(s, t, a).Done? && !s.threads[t].Done? {
      LeaveIsQuiet(s, t, a);
      WithdrawnWhenLeft(s, t, a);
    } else {
      if u :| u in s.threads && s.threads[u].Done? {
        QuietKept(s, t, a);
      }
      NobodyLeft(s, t, a);
    }
  }

  /** Thread 0 withdraws the call for help when it leaves. */
  lemma WithdrawnWhenLeft(s: State, t: Tid, a: Action)
    requires Detected(s) && !s.finished && Enabled(s, t, a) && Then(s, t, a).Done? && !s.threads[t].Done?
    ensures var s' := Next(s, t, a);
            && (s'.finished ==> s'.helpers == 0 && s'.threads[0].Done?)
            && (s'.threads[0].Done? ==> !s'.wanted)
  {
    hide Quiet;
  }

  lemma NobodyLeft(s: State, t: Tid, a: Action)
    requires Detected(s) && !s.finished && Enabled(s, t, a) && (Then(s, t, a).Done? ==> s.threads[t].Done?)
    ensures var s' := Next(s, t, a);
            && (s'.finished ==> s'.helpers == 0 && s'.threads[0].Done?)
            && (s'.threads[0].Done? ==> !s'.wanted)
  {
    hide Quiet;
  }

  /** Whoever sleeps will be woken up. */
  lemma SleepersKept(s: State, t: Tid, a: Action)
    requires Counts(s) && Sleepers(s) && Enabled(s, t, a)
    ensures Sleepers(Next(s, t, a))
  {
    NextParts(s, t, a);
    LastActive(s, t);
    PositiveIfActive(s, t);
    var s' := Next(s, t, a);
    forall u | u in s'.asleep ensures u in s'.threads && MaySleep(s', u, s'.threads[u]) {
      if u == t {
        OwnSleep(s, t, a);
      } else {
        OthersSleep(s, t, a, u);
      }
    }
  }

  lemma PositiveIfActive(s: State, t: Tid)
    requires Counts(s) && t in s.threads
    ensures s.threads[t].Active() ==> s.active > 0
    ensures s.threads[t].Member() ==> s.helpers > 0
  {
    assert s.threads[t].Active() ==> t in ActiveSet(s.threads);
    assert s.threads[t].Member() ==> t in Members(s.threads);
  }

  lemma OwnSleep(s: State, t: Tid, a: Action)
    requires Sleepers(s) && Enabled(s, t, a) && t in Next(s, t, a).asleep
    requires s.threads[t].Active() ==> s.active > 0
    requires s.threads[t].Member() ==> s.helpers > 0
    ensures MaySleep(Next(s, t, a), t, Then(s, t, a))
  {
  }

  lemma OthersSleep(s: State, t: Tid, a: Action, u: Tid)
    requires Sleepers(s) && Enabled(s, t, a) && u in Next(s, t, a).asleep && u != t
    requires s.threads[t].Active() ==> s.active > 0
    requires s.threads[t].Member() ==> s.helpers > 0
    ensures u in s.threads && MaySleep(Next(s, t, a), u, s.threads[u])
  {
    assert u in s.asleep;
  }

  /** No wakeup is lost. */
  lemma ToldKept(s: State, t: Tid, a: Action)
    requires Frontiers(s) && Told(s) && Enabled(s, t, a)
    ensures Told(Next(s, t, a))
  {
    NextParts(s, t, a);
    var s' := Next(s, t, a);
    if u :| Oversleeps(s', u) {
      if a.Return? {
        assert s'.threads[t].Notifying?;
      } else {
        SleptBefore(s, t, a, u);
        assert Oversleeps(s, u);
        var v :| v in s.threads && s.threads[v].Notifying?;
        assert v != t ==> s'.threads[v] == s.threads[v];
        assert s'.threads[v].Notifying?;
      }
    }
  }

  lemma SleptBefore(s: State, t: Tid, a: Action, u: Tid)
    requires Frontiers(s) && Enabled(s, t, a) && !a.Return? && Oversleeps(Next(s, t, a), u)
    ensures Oversleeps(s, u) && (s.threads[t].Notifying? ==> Then(s, t, a).Notifying?)
  {
    SameTop(s, t, a);
    FrontBehindTop(s, t);
    hide Frontiers, SlotsThen;
  }

  /** Every entry that a thread had, it still has, or it is on the shared stack, or it was scanned. */
  lemma HandKept(s: State, t: Tid, a: Action, w: Work)
    requires Frontiers(s) && Enabled(s, t, a) && w in s.threads[t].Hand()
    ensures var s' := Next(s, t, a);
            s'.invalid || w in s'.scanned || OnShared(s'.slots, w) || w in s'.threads[t].Hand()
  {
    var s', x := Next(s, t, a), s.threads[t];
    if a.Return? && w in x.local && !s'.invalid {
      var i :| 0 <= i < |x.local| && x.local[i] == w;
      if i < a.n {
        assert s'.slots[|s.slots| + i] == Full(w);
      } else {
        assert x.local[a.n..][i - a.n] == w;
      }
    }
    if a.MarkFrom? && !s'.invalid {
      assert w in ToSet(x.local);
      assert w in ToSet(a.local) + a.done;
    }
    if a.ClearSlot? {
      assert w in x.local + [x.w];
    }
  }

  lemma SharedKept(s: State, t: Tid, a: Action, w: Work)
    requires Frontiers(s) && Enabled(s, t, a) && OnShared(s.slots, w)
    ensures var s' := Next(s, t, a); OnShared(s'.slots, w) || w in s'.threads[t].Hand()
  {
    var i :| 0 <= i < |s.slots| && s.slots[i] == Full(w);
    var s', x := Next(s, t, a), s.threads[t];
    if a.ClearSlot? && i == x.p {
      assert ThreadOK(s.slots, x);
      assert (x.local + [x.w])[|x.local|] == w;
    } else {
      assert s'.slots[i] == Full(w);
    }
  }

  lemma KeptKept(s: State, t: Tid, a: Action)
    requires Frontiers(s) && Kept(s) && Enabled(s, t, a)
    ensures Kept(Next(s, t, a))
  {
    var s' := Next(s, t, a);
    if !s'.invalid {
      forall w | w in s'.ever ensures w in s'.scanned || OnShared(s'.slots, w) || InHand(s'.threads, w) {
        if w !in s.ever {
          assert a.MarkFrom? && w in a.pushed;
          assert w in ToSet(a.local) + a.done;
          assert w in ToSet(a.local) ==> w in s'.threads[t].Hand();
        } else if w in s.scanned {
        } else if OnShared(s.slots, w) {
          SharedKept(s, t, a, w);
        } else {
          var u :| u in s.threads && w in s.threads[u].Hand();
          if u == t {
            HandKept(s, t, a, w);
          } else {
            assert s'.threads[u] == s.threads[u];
          }
        }
      }
    }
  }

  lemma KnownKept(s: State, t: Tid, a: Action)
    requires Known(s) && Enabled(s, t, a)
    ensures Known(Next(s, t, a))
  {
    NextParts(s, t, a);
    OwnHandKnown(s, t, a);
    SlotsKnown(s, t, a);
    var s' := Next(s, t, a);
    assert s.ever <= s'.ever;
    hide Next, Then, SlotsThen, Thread.Hand;
    forall u | u in s'.threads ensures s'.threads[u].Hand() <= s'.ever {
      assert u != t ==> s'.threads[u] == s.threads[u];
    }
  }

  lemma OwnHandKnown(s: State, t: Tid, a: Action)
    requires Known(s) && Enabled(s, t, a)
    ensures Then(s, t, a).Hand() <= Next(s, t, a).ever
  {
    var x := s.threads[t];
    assert x.Hand() <= s.ever;
    if a.MarkFrom? {
      assert ToSet(a.local) <= ToSet(x.local) + a.pushed;
    }
  }

  lemma SlotsKnown(s: State, t: Tid, a: Action)
    requires Known(s) && Enabled(s, t, a)
    ensures var slots := SlotsThen(s, t, a); forall i :: 0 <= i < |slots| && slots[i].Full? ==> slots[i].work in s.ever
  {
    var slots, x := SlotsThen(s, t, a), s.threads[t];
    forall i | 0 <= i < |slots| && slots[i].Full? ensures slots[i].work in s.ever {
      if i >= |s.slots| {
        assert x.local[i - |s.slots|] in x.Hand();
      }
    }
  }

  /** The thread that moves stays alert, or leaves first_nonempty past the top. */
  lemma OwnAlert(s: State, t: Tid, a: Action)
    requires Frontiers(s) && Enabled(s, t, a) && Alert(s, s.threads[t])
    ensures var s' := Next(s, t, a); s'.first == |s'.slots| || Alert(s', s'.threads[t])
  {
    FrontBehindTop(s, t);
    hide Frontiers, SlotsThen;
    SlotsLater(s, t, a);
    if !a.Return? {
      SameTop(s, t, a);
    }
  }

  lemma FrontBehindTop(s: State, t: Tid)
    requires Frontiers(s) && t in s.threads
    ensures s.first <= |s.slots| && s.threads[t].From() <= |s.slots|
  {
    assert ThreadOK(s.slots, s.threads[t]);
  }

  lemma SameTop(s: State, t: Tid, a: Action)
    requires Enabled(s, t, a) && !a.Return?
    ensures |SlotsThen(s, t, a)| == |s.slots|
  {
  }

  /** A thread that was not alert moves neither first_nonempty nor the top. */
  lemma OtherAlert(s: State, t: Tid, a: Action)
    requires Frontiers(s) && Enabled(s, t, a) && !Alert(s, s.threads[t])
    ensures var s' := Next(s, t, a); s'.first == s.first && |s'.slots| == |s.slots|
  {
  }

  lemma WatchedKept(s: State, t: Tid, a: Action)
    requires Frontiers(s) && Watched(s) && Enabled(s, t, a)
    ensures Watched(Next(s, t, a))
  {
    var s' := Next(s, t, a);
    if Alert(s, s.threads[t]) {
      OwnAlert(s, t, a);
    } else {
      OtherAlert(s, t, a);
      if s.first != |s.slots| {
        var u :| u in s.threads && Alert(s, s.threads[u]);
        assert s'.threads[u] == s.threads[u];
        assert Alert(s', s'.threads[u]);
      }
    }
  }

  lemma StepKeepsInv(s: State, t: Tid, a: Action)
    requires Inv(s) && Enabled(s, t, a)
    ensures Inv(Next(s, t, a))
  {
    WatchedKept(s, t, a);
    FrontiersKept(s, t, a);
    CountsKept(s, t, a);
    DetectedKept(s, t, a);
    KeptKept(s, t, a);
    SleepersKept(s, t, a);
    ToldKept(s, t, a);
    KnownKept(s, t, a);
  }

  // ---------- Whole runs ----------

  /** A run: states, and the thread and action that lead from each one to the next. */
  ghost predicate IsRun(states: seq<State>, steps: seq<(Tid, Action)>) {
    && |states| == |steps| + 1
    && Init(states[0])
    && forall i :: 0 <= i < |steps| ==>
         Enabled(states[i], steps[i].0, steps[i].1) && states[i + 1] == Next(states[i], steps[i].0, steps[i].1)
  }

  lemma {:induction false} RunKeepsInv(states: seq<State>, steps: seq<(Tid, Action)>, k: nat)
    requires IsRun(states, steps) && k < |states|
    ensures Inv(states[k])
  {
    if k == 0 {
      InitInv(states[0]);
    } else {
      RunKeepsInv(states, steps, k - 1);
      StepKeepsInv(states[k - 1], steps[k - 1].0, steps[k - 1].1);
    }
  }

  /** Parallel marking loses no work: in every run, when GC_do_parallel_mark has returned, no thread is left in it, the
      shared stack is empty up to its top and first_nonempty is past it, and, unless the mark state is invalid, every
      entry that was ever on a stack was scanned. */
  lemma NoWorkIsLost(states: seq<State>, steps: seq<(Tid, Action)>, k: nat)
    requires IsRun(states, steps) && k < |states| && states[k].finished
    ensures var s := states[k];
            && (forall t :: t in s.threads ==> s.threads[t].Idle? || s.threads[t].Done?)
            && (forall i :: 0 <= i < |s.slots| ==> s.slots[i].Cleared?)
            && s.first == |s.slots|
            && (s.invalid || s.ever <= s.scanned)
  {
    RunKeepsInv(states, steps, k);
    var s := states[k];
    forall t | t in s.threads ensures s.threads[t].Idle? || s.threads[t].Done? {
      assert t !in Members(s.threads);
    }
    assert Quiet(s);
    forall w | w in s.ever && !s.invalid ensures w in s.scanned {
      assert !OnShared(s.slots, w) && !InHand(s.threads, w);
    }
  }

  /** Entries are lost: the local stack of the thread overflows in a valid state, or the shared stack has no room for
      what is returned to it. */
  ghost predicate Spills(s: State, a: Action) {
    || (a.MarkFrom? && a.invalid && !s.invalid)
    || (a.Return? && |s.slots| + a.n > s.capacity)
  }

  /** The mark state becomes invalid in no other way, and never valid again. */
  lemma {:induction false} InvalidIff(states: seq<State>, steps: seq<(Tid, Action)>, k: nat)
    requires IsRun(states, steps) && k < |states|
    ensures states[k].invalid <==> states[0].invalid || exists i :: 0 <= i < k && Spills(states[i], steps[i].1)
  {
    if k > 0 {
      InvalidIff(states, steps, k - 1);
      assert states[k] == Next(states[k - 1], steps[k - 1].0, steps[k - 1].1);
      assert states[k].invalid <==> states[k - 1].invalid || Spills(states[k - 1], steps[k - 1].1);
    }
  }

  /** So without an overflow everything was scanned in the end. */
  lemma AllIsScanned(states: seq<State>, steps: seq<(Tid, Action)>, k: nat)
    requires IsRun(states, steps) && k < |states| && states[k].finished
    requires !states[0].invalid && forall i :: 0 <= i < k ==> !Spills(states[i], steps[i].1)
    ensures !states[k].invalid && states[k].ever <= states[k].scanned
  {
    InvalidIff(states, steps, k);
    NoWorkIsLost(states, steps, k);
  }

  /** At any time, in every run, nothing that is still full lies below first_nonempty or behind any thread. */
  lemma NothingFullIsPassed(states: seq<State>, steps: seq<(Tid, Action)>, k: nat, i: nat)
    requires IsRun(states, steps) && k < |states| && i < |states[k].slots| && states[k].slots[i].Full?
    ensures states[k].first <= i
    ensures forall t :: t in states[k].threads ==> states[k].threads[t].From() <= i
  {
    RunKeepsInv(states, steps, k);
    var s := states[k];
    forall t | t in s.threads ensures s.threads[t].From() <= i {
      assert ThreadOK(s.slots, s.threads[t]);
    }
  }

  /** When no thread is active the shared stack is empty and first_nonempty says so. */
  lemma InactiveIsEmpty(s: State)
    requires Inv(s) && s.active == 0
    ensures s.first == |s.slots|
  {
    assert ActiveSet(s.threads) == {};
    forall t | t in s.threads ensures !Alert(s, s.threads[t]) {
      assert t !in ActiveSet(s.threads);
    }
  }

  /** Once the count of active threads is zero, a step makes it positive if and only if a thread joins. */
  lemma OnlyJoinRaises(s: State, t: Tid, a: Action)
    requires Inv(s) && s.active == 0 && Enabled(s, t, a)
    ensures !a.Resume?
    ensures Next(s, t, a).active > 0 <==> a.Join?
    ensures Next(s, t, a).active >= 0
  {
    InactiveIsEmpty(s);
    LastActive(s, t);
  }

  /** Help is wanted, and some thread has not joined yet. */
  ghost predicate MayJoin(s: State) {
    s.wanted && exists t :: t in s.threads && s.threads[t].Idle?
  }

  /** Whether the count can rise again can be told from the state. */
  lemma RisesIff(s: State)
    requires Inv(s) && s.active == 0
    ensures MayJoin(s) <==> exists t, a :: Enabled(s, t, a) && Next(s, t, a).active > 0
  {
    if MayJoin(s) {
      var t :| t in s.threads && s.threads[t].Idle?;
      assert Enabled(s, t, Join) && Next(s, t, Join).active > 0;
    }
    if t, a :| Enabled(s, t, a) && Next(s, t, a).active > 0 {
      OnlyJoinRaises(s, t, a);
    }
  }

  /** Threads that have joined stay, and a call for help that was withdrawn is not made again. */
  lemma NoNewJoiners(s: State, t: Tid, a: Action)
    requires Enabled(s, t, a)
    ensures MayJoin(Next(s, t, a)) ==> MayJoin(s)
  {
    NextParts(s, t, a);
    var s' := Next(s, t, a);
    if u :| u in s'.threads && s'.threads[u].Idle? && s'.wanted {
      assert u != t ==> s'.threads[u] == s.threads[u];
      assert s.threads[u].Idle? && s.wanted;
    }
  }

  /** In every run, from a state with count zero on in which nobody can join, the count stays zero. */
  lemma {:induction false} StaysZero(states: seq<State>, steps: seq<(Tid, Action)>, k: nat, j: nat)
    requires IsRun(states, steps) && k <= j < |states| && states[k].active == 0 && !MayJoin(states[k])
    ensures states[j].active == 0 && !MayJoin(states[j])
  {
    hide Inv, Next, Enabled, Init, MayJoin;
    if j > k {
      StaysZero(states, steps, k, j - 1);
      RunKeepsInv(states, steps, j - 1);
      ZeroStep(states[j - 1], steps[j - 1].0, steps[j - 1].1);
    }
  }

  lemma ZeroStep(s: State, t: Tid, a: Action)
    requires Inv(s) && s.active == 0 && !MayJoin(s) && Enabled(s, t, a)
    ensures Next(s, t, a).active == 0 && !MayJoin(Next(s, t, a))
  {
    NoNewJoiners(s, t, a);
    OnlyJoinRaises(s, t, a);
    hide Inv, Next;
  }

  // ---------- How many threads it takes ----------

  /** In every run of the given threads, the count of active threads, once it is zero, stays zero. */
  ghost predicate AlwaysStaysZero(threads: set<Tid>) {
    forall states: seq<State>, steps, k, j :: ZeroAt(states, steps, threads, k) && k <= j < |states| ==>
      states[j].active == 0
  }

  ghost predicate ZeroAt(states: seq<State>, steps: seq<(Tid, Action)>, threads: set<Tid>, k: int) {
    IsRun(states, steps) && states[0].threads.Keys == threads && 0 <= k < |states| && states[k].active == 0
  }

  /** With a single helper, if nobody is active, then nobody can join. */
  ghost predicate Settled(s: State) {
    s.active == 0 ==> !MayJoin(s)
  }

  /** The last active thread was thread 0, and has withdrawn the call for help; or it was the helper, and has joined. */
  lemma SettledKept(s: State, t: Tid, a: Action)
    requires Inv(s) && Settled(s) && Enabled(s, t, a) && |s.threads.Keys| <= 2
    ensures Settled(Next(s, t, a))
  {
    NoNewJoiners(s, t, a);
    NextParts(s, t, a);
    var s' := Next(s, t, a);
    if s.active > 0 && s'.active == 0 {
      assert a.GoInactive? && s'.threads[t].Done?;
      if t != 0 {
        AtMostTwo(s.threads.Keys, t);
        assert forall u :: u in s'.threads ==> u == 0 || u == t;
      }
    }
    NeverNegative(s);
  }

  lemma AtMostTwo(ts: set<Tid>, t: Tid)
    requires |ts| <= 2 && 0 in ts && t in ts && t != 0
    ensures ts == {0, t}
  {
    var rest := ts - {0} - {t};
    assert |rest| == |ts| - 2;
    assert rest == {};
  }

  lemma {:induction false} RunIsSettled(states: seq<State>, steps: seq<(Tid, Action)>, k: nat)
    requires IsRun(states, steps) && k < |states| && |states[0].threads.Keys| <= 2
    ensures Settled(states[k]) && states[k].threads.Keys == states[0].threads.Keys
  {
    if k == 0 {
      assert states[0].active == 1;
    } else {
      hide Inv, Next, Enabled, Init, Settled;
      RunIsSettled(states, steps, k - 1);
      RunKeepsInv(states, steps, k - 1);
      SettledKept(states[k - 1], steps[k - 1].0, steps[k - 1].1);
      SameThreads(states[k - 1], steps[k - 1].0, steps[k - 1].1);
    }
  }

  lemma SameThreads(s: State, t: Tid, a: Action)
    requires Enabled(s, t, a)
    ensures Next(s, t, a).threads.Keys == s.threads.Keys
  {
    assert s.threads[t := Then(s, t, a)].Keys == s.threads.Keys + {t};
  }

  lemma NeverNegative(s: State)
    requires Inv(s)
    ensures s.active >= 0
  {
  }

  /** The count stays zero in every run if and only if there is at most one helper. */
  lemma StaysZeroIff(threads: set<Tid>)
    requires 0 in threads
    ensures AlwaysStaysZero(threads) <==> |threads| <= 2
  {
    if |threads| <= 2 {
      forall states: seq<State>, steps, k, j | ZeroAt(states, steps, threads, k) && k <= j < |states|
        ensures states[j].active == 0
      {
        RunIsSettled(states, steps, k);
        StaysZero(states, steps, k, j);
      }
    } else {
      var t, u := TwoHelpers(threads);
      var states, steps := ActiveCountMayRise(threads, t, u);
      assert ZeroAt(states, steps, threads, 9) && states[10].active != 0;
    }
  }

  lemma TwoHelpers(threads: set<Tid>) returns (t: Tid, u: Tid)
    requires 0 in threads && |threads| > 2
    ensures t in threads && u in threads && t != u && t != 0 && u != 0
  {
    var helpers := threads - {0};
    assert |helpers| == |threads| - 1;
    assert helpers != {};
    t :| t in helpers;
    var others := helpers - {t};
    assert |others| == |helpers| - 1;
    assert others != {};
    u :| u in others;
  }

  /** Thread t has nothing to do and finds that out, in four steps. */
  lemma FindsNothing(s: State, t: Tid) returns (s1: State, s2: State, s3: State, s4: State)
    requires t in s.threads && 0 in s.threads && s.threads[t] == Loop(0) && s.slots == [] && s.first == 0
    ensures Enabled(s, t, ReadFirst) && s1 == Next(s, t, ReadFirst)
    ensures Enabled(s1, t, Sync) && s2 == Next(s1, t, Sync)
    ensures Enabled(s2, t, LoadTop) && s3 == Next(s2, t, LoadTop)
    ensures Enabled(s3, t, GoInactive) && s4 == Next(s3, t, GoInactive)
    ensures s4.slots == [] && s4.first == 0 && s4.active == s.active - 1
    ensures s4.threads == s.threads[t := if s.active == 1 then Done else Waiting(0)]
    ensures t != 0 || s.active != 1 ==> s4.wanted == s.wanted
  {
    s1 := Next(s, t, ReadFirst);
    s2 := Next(s1, t, Sync);
    s3 := AfterLook(s2, t);
    s4 := Next(s3, t, GoInactive);
    assert s4.threads == s.threads[t := s4.threads[t]];
  }

  lemma AfterLook(s: State, t: Tid) returns (s': State)
    requires t in s.threads && 0 in s.threads && s.threads[t] == ReadTop(0) && s.slots == []
    ensures Enabled(s, t, LoadTop) && s' == Next(s, t, LoadTop)
    ensures s'.slots == [] && s'.first == s.first && s'.active == s.active && s'.wanted == s.wanted
    ensures s'.threads == s.threads[t := AtLock(0)]
  {
    s' := Next(s, t, LoadTop);
  }

  lemma Retires(states: seq<State>, steps: seq<(Tid, Action)>, t: Tid)
    returns (states': seq<State>, steps': seq<(Tid, Action)>)
    requires IsRun(states, steps)
    requires var s := states[|steps|];
             t in s.threads && 0 in s.threads && s.threads[t] == Loop(0) && s.slots == [] && s.first == 0
    ensures IsRun(states', steps') && |states'| == |states| + 4 && states'[..|states|] == states
    ensures var s, s' := states[|steps|], states'[|steps'|];
            && s'.slots == [] && s'.first == 0 && s'.active == s.active - 1
            && s'.threads == s.threads[t := if s.active == 1 then Done else Waiting(0)]
            && (t != 0 || s.active != 1 ==> s'.wanted == s.wanted)
  {
    var s1, s2, s3, s4 := FindsNothing(states[|steps|], t);
    hide Next, Enabled, Init;
    RunOn(states, steps, t, ReadFirst);
    RunOn(states + [s1], steps + [(t, ReadFirst)], t, Sync);
    RunOn(states + [s1] + [s2], steps + [(t, ReadFirst)] + [(t, Sync)], t, LoadTop);
    RunOn(states + [s1] + [s2] + [s3], steps + [(t, ReadFirst)] + [(t, Sync)] + [(t, LoadTop)], t, GoInactive);
    states' := states + [s1] + [s2] + [s3] + [s4];
    steps' := steps + [(t, ReadFirst)] + [(t, Sync)] + [(t, LoadTop)] + [(t, GoInactive)];
  }

  lemma RunOn(states: seq<State>, steps: seq<(Tid, Action)>, t: Tid, a: Action)
    requires IsRun(states, steps) && Enabled(states[|steps|], t, a)
    ensures IsRun(states + [Next(states[|steps|], t, a)], steps + [(t, a)])
  {
    hide Enabled, Next, Init;
  }

  /** With two helpers the count of active threads may go up again after it was zero.  Helper t joins; thread 0
      waits; t, which is the last active one, leaves; and before thread 0 gets hold of the lock again, u joins. */
  lemma ActiveCountMayRise(threads: set<Tid>, t: Tid, u: Tid) returns (states: seq<State>, steps: seq<(Tid, Action)>)
    requires 0 in threads && t in threads && u in threads && t != u && t != 0 && u != 0
    ensures IsRun(states, steps) && |states| == 11 && states[0].threads.Keys == threads
    ensures states[9].active == 0 && states[10].active == 1
  {
    var s := AtFirst(threads);
    states, steps := [s], [];
    hide Enabled, Next, Init, IsRun;
    states, steps := Joins(states, steps, t);
    states, steps := Retires(states, steps, 0);
    states, steps := Retires(states, steps, t);
    states, steps := Joins(states, steps, u);
  }

  lemma Joins(states: seq<State>, steps: seq<(Tid, Action)>, t: Tid)
    returns (states': seq<State>, steps': seq<(Tid, Action)>)
    requires IsRun(states, steps)
    requires var s := states[|steps|]; t in s.threads && 0 in s.threads && s.threads[t].Idle? && s.wanted
    ensures IsRun(states', steps') && |states'| == |states| + 1 && states'[..|states|] == states
    ensures var s, s' := states[|steps|], states'[|steps'|];
            && s'.threads == s.threads[t := Loop(s.first)] && s'.active == s.active + 1
            && s'.wanted == s.wanted && s'.slots == s.slots && s'.first == s.first
  {
    RunOn(states, steps, t, Join);
    states', steps' := states + [Next(states[|steps|], t, Join)], steps + [(t, Join)];
  }

  /** The threads at the start, with nothing on the stack. */
  lemma AtFirst(threads: set<Tid>) returns (s: State)
    requires 0 in threads
    ensures IsRun([s], []) && s.threads.Keys == threads && s.threads[0] == Loop(0) && s.slots == [] && s.first == 0
    ensures s.active == 1 && s.wanted && forall t :: t in threads && t != 0 ==> s.threads[t] == Idle
  {
    var all := map t | t in threads :: if t == 0 then Loop(0) else Idle;
    s := State([], 1, 0, 1, 1, true, false, all, {}, false, {}, {});
    assert Init(s);
  }

  // ---------- Nobody waits in vain ----------

  /** Termination detection does not get stuck: until GC_do_parallel_mark returns, some thread that takes part is
      awake and can do something other than wait again. */
  lemma SomeoneCanMove(s: State) returns (t: Tid, a: Action)
    requires Inv(s) && !s.finished
    ensures Enabled(s, t, a) && t !in s.asleep && !a.Join? && !a.Resume? && !a.Doze? && !a.Stir?
  {
    if t' :| t' in ActiveSet(s.threads) {
      t := t';
      assert ThreadOK(s.slots, s.threads[t]);
      assert t in s.asleep ==> MaySleep(s, t, s.threads[t]);
      var x := s.threads[t];
      a := match x
        case Loop(_) => ReadFirst
        case Compare(_, _) => Sync
        case ReadTop(_) => LoadTop
        case AtLock(_) => GoInactive
        case Stealing(p, high, _) => if p > high then StopStealing else ReadSlot
        case Holding(_, _, _, _) => ClearSlot
        case Working(_, local) => if local == [] then Again else MarkFrom({}, ToSet(local), [], s.invalid)
        case Notifying(_, _) => Notify
        case _ => Join;
    } else if t' :| t' in Members(s.threads) {
      assert t' !in ActiveSet(s.threads);
      assert ActiveSet(s.threads) == {};
      InactiveIsEmpty(s);
      assert t' in s.asleep ==> MaySleep(s, t', s.threads[t']);
      t, a := t', Leave;
    } else {
      assert 0 !in Members(s.threads);
      assert Members(s.threads) == {};
      assert 0 in s.asleep ==> MaySleep(s, 0, s.threads[0]);
      t, a := 0, Finish;
    }
  }

  /** In every run, if a thread sleeps while there may be something on the shared stack, another is about to wake it
      up. */
  lemma NoWakeupIsLost(states: seq<State>, steps: seq<(Tid, Action)>, k: nat, t: Tid)
    requires IsRun(states, steps) && k < |states| && t in states[k].asleep && t in states[k].threads
    requires states[k].threads[t].Waiting?
    ensures states[k].active > 0
    ensures states[k].first < |states[k].slots| ==>
              exists u :: u in states[k].threads && u !in states[k].asleep && states[k].threads[u].Notifying?
  {
    RunKeepsInv(states, steps, k);
    var s := states[k];
    assert MaySleep(s, t, s.threads[t]);
    if s.first < |s.slots| {
      assert Oversleeps(s, t);
      var u :| u in s.threads && s.threads[u].Notifying?;
      assert u in s.asleep ==> MaySleep(s, u, s.threads[u]);
    }
  }
}
