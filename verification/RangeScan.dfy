/**
 The conservative scan of a range, byte by byte where pointers may be misaligned: split into pieces, each piece scanned
 backwards for a first plausible pointer, which is set aside, and then forwards.
 */
module RangeScan {

  import opened Platform

  const SHARE_BYTES: nat := 2048

  predicate IsAlignment(a: nat) {
    a == 1 || a == 2 || a == 4 || a == 8
  }

  /** Is x a multiple of the alignment? */
  predicate Multiple(x: int, a: nat) {
    match a
    case 1 => true
    case 2 => x % 2 == 0
    case 4 => x % 4 == 0
    case 8 => x % 8 == 0
    case _ => false
  }

  /** Is p a whole number of steps away from s? */
  predicate On(s: int, p: int, a: nat) {
    Multiple(p - s, a)
  }

  /** Position p of the range of d bytes from s on: aligned, and with a whole word in the range. */
  predicate Position(s: int, d: nat, a: nat, p: int) {
    s <= p && p + WORD_BYTES <= s + d && On(s, p, a)
  }

  datatype Part = Part(start: int, len: nat)

  /** The length of each entry is a multiple of the alignment. */
  ghost predicate Aligned(work: seq<Part>, a: nat) {
    forall i :: 0 <= i < |work| ==> Multiple(work[i].len, a)
  }

  function One(b: bool): nat {
    if b then 1 else 0
  }

  /** How many entries are about position p. */
  ghost function Count(work: seq<Part>, a: nat, p: int): nat {
    if work == [] then 0
    else Count(work[..|work| - 1], a, p) + One(Position(work[|work| - 1].start, work[|work| - 1].len, a, p))
  }

  lemma {:induction false} CountPush(work: seq<Part>, a: nat, p: int, e: Part)
    ensures Count(work + [e], a, p) == Count(work, a, p) + One(Position(e.start, e.len, a, p))
  {
    assert (work + [e])[..|work|] == work;
  }

  /** Scanning cost; halving a range, with the overlap, makes it less. */
  function Cost(d: nat): nat {
    if d > 10 then 2 * d - 19 else 1
  }

  ghost function TotalCost(work: seq<Part>): nat {
    if work == [] then 0 else TotalCost(work[..|work| - 1]) + Cost(work[|work| - 1].len)
  }

  lemma {:induction false} CostPush(work: seq<Part>, e: Part)
    ensures TotalCost(work + [e]) == TotalCost(work) + Cost(e.len)
  {
    assert (work + [e])[..|work|] == work;
  }

  /** Half of a range, in whole words. */
  function Half(d: nat): (n: nat)
    ensures n % WORD_BYTES == 0 && n <= d / 2 < n + WORD_BYTES
  {
    d / 2 - d / 2 % WORD_BYTES
  }

  /** Halving a range misses no position, but may see one twice. */
  lemma Halved(s: int, d: nat, a: nat, p: int)
    requires IsAlignment(a) && d > SHARE_BYTES && Multiple(d, a)
    ensures var n := Half(d);
            && Multiple(n + WORD_BYTES, a) && Multiple(d - n, a)
            && Cost(n + WORD_BYTES) + Cost(d - n) < Cost(d)
            && One(Position(s, n + WORD_BYTES, a, p)) + One(Position(s + n, d - n, a, p)) >= One(Position(s, d, a, p))
            && (!Position(s, d, a, p) ==> !Position(s, n + WORD_BYTES, a, p) && !Position(s + n, d - n, a, p))
  {
    var n := Half(d);
    Shifted(p - s, n, a);
    Shifted(d, n, a);
    hide Half, Multiple;
    assert p - (s + n) == p - s - n;
  }

  lemma Shifted(x: int, n: nat, a: nat)
    requires IsAlignment(a) && n % WORD_BYTES == 0
    ensures Multiple(n, a) && Multiple(n + WORD_BYTES, a)
    ensures Multiple(x - n, a) <==> Multiple(x, a)
  {
    var q := n / WORD_BYTES;
    assert n == 8 * q;
    Eights(0, q, a);
    Eights(0, q + 1, a);
    Eights(x - n, q, a);
  }

  /** Multiples of 8 are multiples of any alignment. */
  lemma {:induction false} Eights(x: int, q: nat, a: nat)
    requires IsAlignment(a)
    ensures Multiple(x + 8 * q, a) <==> Multiple(x, a)
    decreases q
  {
    if q > 0 {
      Eight(x, a);
      Eights(x + 8, q - 1, a);
      assert x + 8 + 8 * (q - 1) == x + 8 * q;
    }
  }

  lemma Eight(x: int, a: nat)
    requires IsAlignment(a)
    ensures Multiple(x + 8, a) <==> Multiple(x, a)
  {
    match a
    case 1 =>
    case 2 => Eight2(x);
    case 4 => Eight4(x);
    case 8 => Eight8(x);
  }

  lemma Eight2(x: int)
    ensures (x + 8) % 2 == x % 2
  {
  }

  lemma Eight4(x: int)
    ensures (x + 8) % 4 == x % 4
  {
  }

  lemma Eight8(x: int)
    ensures (x + 8) % 8 == x % 8
  {
  }

  /** Cutting off the first piece misses no position and sees none twice. */
  lemma CutOff(s: int, d: nat, a: nat, p: int)
    requires IsAlignment(a) && d >= SPLIT_RANGE_WORDS * WORD_BYTES && Multiple(d, a)
    ensures var n := (SPLIT_RANGE_WORDS - 1) * WORD_BYTES;
            && Multiple(d - n, a) && On(s, s + n - a, a)
            && One(s <= p <= s + n - a && On(s, p, a)) + One(Position(s + n, d - n, a, p)) == One(Position(s, d, a, p))
  {
    var n := (SPLIT_RANGE_WORDS - 1) * WORD_BYTES;
    Shifted(p - s, n, a);
    Shifted(d, n, a);
  }

  /** What is in `seen` besides `before` are the positions from lo to hi, each once. */
  ghost predicate Adds(before: multiset<int>, seen: multiset<int>, lo: int, hi: int, a: nat) {
    forall p :: seen[p] == before[p] + One(lo <= p <= hi && On(lo, p, a))
  }

  /** The backward loop: find the last plausible pointer from `last` down to `first`.  The others are done with. */
  method ScanBack(first: int, last: int, a: nat, plausible: int -> bool, before: multiset<int>)
    returns (found: bool, deferred: int, seen: multiset<int>)
    requires IsAlignment(a) && first <= last && On(first, last, a)
    ensures found ==> first <= deferred <= last && On(first, deferred, a)
    ensures found ==> forall p :: seen[p] == before[p] + One(deferred < p <= last && On(first, p, a))
    ensures !found ==> Adds(before, seen, first, last, a)
  {
    seen := before;
    var limit := last;
    while true
      invariant first <= limit <= last && On(first, limit, a)
      invariant forall p :: seen[p] == before[p] + One(limit < p <= last && On(first, p, a))
      decreases limit - first
    {
      deferred := limit;
      Step(first, limit, a);
      limit := limit - a;
      if plausible(deferred) {
        found := true;
        return;
      }
      seen := seen + multiset{deferred};
      if first > limit {
        found := false;
        return;
      }
    }
  }

  /** Both loops over one piece, from `first` to `last`.  Every aligned position is considered once. */
  method ScanPiece(first: int, last: int, a: nat, plausible: int -> bool, before: multiset<int>)
    returns (seen: multiset<int>)
    requires IsAlignment(a) && first <= last && On(first, last, a)
    ensures Adds(before, seen, first, last, a)
  {
    var found, deferred;
    found, deferred, seen := ScanBack(first, last, a, plausible, before);
    if !found {
      return;
    }
    var current := first;
    while current <= deferred - a
      invariant first <= current <= deferred && On(first, current, a)
      invariant forall p :: seen[p] == before[p]
                                       + One((deferred < p <= last || first <= p < current) && On(first, p, a))
    {
      Step(first, deferred, a);
      Step(first, current + a, a);
      seen := seen + multiset{current};
      current := current + a;
    }
    Step(first, deferred, a);
    seen := seen + multiset{deferred};
  }

  /** Nothing aligned lies strictly between a position and the one before it. */
  lemma Step(first: int, q: int, a: nat)
    requires IsAlignment(a)
    ensures On(first, q - a, a) <==> On(first, q, a)
    ensures On(first, q, a) ==> forall p :: q - a < p < q ==> !On(first, p, a)
  {
    assert q - a - first == (q - first) - a;
    StepBack(q - first, a);
    forall p | q - a < p < q && On(first, q, a) ensures !On(first, p, a) {
      NoneBetween(q - first, p - first, a);
    }
  }

  lemma StepBack(x: int, a: nat)
    requires IsAlignment(a)
    ensures Multiple(x - a, a) <==> Multiple(x, a)
  {
    if a == 2 {
      assert (x - 2) % 2 == x % 2;
    } else if a == 4 {
      assert (x - 4) % 4 == x % 4;
    } else if a == 8 {
      assert (x - 8) % 8 == x % 8;
    }
  }

  lemma NoneBetween(x: int, y: int, a: nat)
    requires IsAlignment(a) && Multiple(x, a) && x - a < y < x
    ensures !Multiple(y, a)
  {
    match a
    case 1 =>
    case 2 => Near2(x, y);
    case 4 => Near4(x, y);
    case 8 => Near8(x, y);
  }

  lemma Near2(x: int, y: int)
    requires x % 2 == 0 && x - 2 < y < x
    ensures y % 2 != 0
  {
  }

  lemma Near4(x: int, y: int)
    requires x % 4 == 0 && x - 4 < y < x
    ensures y % 4 != 0
  {
  }

  lemma Near8(x: int, y: int)
    requires x % 8 == 0 && x - 8 < y < x
    ensures y % 8 != 0
  {
  }

  /** GC_mark_from, on a range of d bytes from s on: which positions are considered, and how often.  With `parallel`,
      large ranges may be halved, so that another thread can help. */
  method ScanRange(s: int, d: nat, a: nat, parallel: bool, plausible: int -> bool) returns (seen: multiset<int>)
    requires IsAlignment(a) && Multiple(d, a)
    ensures forall p :: Position(s, d, a, p) ==> seen[p] >= 1
    ensures forall p :: !Position(s, d, a, p) ==> seen[p] == 0
    ensures !parallel ==> forall p :: seen[p] <= 1
  {
    seen := multiset{};
    var work := [Part(s, d)];
    CountOne(s, d, a);
    hide Tallies;
    while work != []
      invariant Aligned(work, a) && Tallies(seen, work, s, d, a, parallel)
      decreases TotalCost(work)
    {
      work, seen := ScanEntry(work, seen, a, parallel, plausible, s, d);
    }
    AllSeen(seen, s, d, a, parallel);
  }

  /** Deal with the topmost entry: share half of it, or scan its first piece, or all of it. */
  method ScanEntry(work: seq<Part>, seen: multiset<int>, a: nat, parallel: bool, plausible: int -> bool, ghost s: int,
                   ghost d: nat)
    returns (work': seq<Part>, seen': multiset<int>)
    requires IsAlignment(a) && work != [] && Aligned(work, a) && Tallies(seen, work, s, d, a, parallel)
    ensures Aligned(work', a) && Tallies(seen', work', s, d, a, parallel) && TotalCost(work') < TotalCost(work)
  {
    hide Tallies, Adds, Multiple, Cost, Half;
    var e, rest := work[|work| - 1], work[..|work| - 1];
    assert work == rest + [e];
    CostPush(rest, e);
    var room: bool := *;
    seen' := seen;
    if e.len > SHARE_BYTES && parallel && room {
      var n := Half(e.len);
      var e1, e2 := Part(e.start, n + WORD_BYTES), Part(e.start + n, e.len - n);
      work' := rest + [e1] + [e2];
      CostPush(rest, e1);
      CostPush(rest + [e1], e2);
      Halved(e.start, e.len, a, 0);
      TallyHalved(seen, rest, e, s, d, a);
    } else if e.len >= SPLIT_RANGE_WORDS * WORD_BYTES {
      var n := (SPLIT_RANGE_WORDS - 1) * WORD_BYTES;
      CutOff(e.start, e.len, a, 0);
      var e1 := Part(e.start + n, e.len - n);
      work' := rest + [e1];
      CostPush(rest, e1);
      CheaperRest(e.len, n);
      seen' := ScanPiece(e.start, e.start + n - a, a, plausible, seen);
      TallyCut(seen, seen', rest, e, s, d, a, parallel);
    } else {
      work' := rest;
      CheaperRest(e.len, 0);
      if e.len >= WORD_BYTES {
        Shifted(e.len, WORD_BYTES, a);
        seen' := ScanPiece(e.start, e.start + e.len - WORD_BYTES, a, plausible, seen);
      }
      TallyLast(seen, seen', rest, e, s, d, a, parallel);
    }
  }

  lemma CheaperRest(d: nat, n: nat)
    ensures Cost(d) > 0
    ensures 10 < n <= d ==> Cost(d - n) < Cost(d)
  {
  }

  /** Position p was considered, or is still on an entry; without sharing, exactly one of the two, once. */
  ghost predicate Tally(seen: multiset<int>, work: seq<Part>, s: int, d: nat, a: nat, parallel: bool, p: int) {
    && seen[p] + Count(work, a, p) >= One(Position(s, d, a, p))
    && (!Position(s, d, a, p) ==> seen[p] == 0 && Count(work, a, p) == 0)
    && (!parallel ==> seen[p] + Count(work, a, p) <= 1)
  }

  ghost predicate Tallies(seen: multiset<int>, work: seq<Part>, s: int, d: nat, a: nat, parallel: bool) {
    forall p :: Tally(seen, work, s, d, a, parallel, p)
  }

  lemma CountOne(s: int, d: nat, a: nat)
    ensures forall parallel :: Tallies(multiset{}, [Part(s, d)], s, d, a, parallel)
  {
    forall p ensures Count([Part(s, d)], a, p) == One(Position(s, d, a, p)) {
      CountPush([], a, p, Part(s, d));
      assert [] + [Part(s, d)] == [Part(s, d)];
    }
  }

  lemma AllSeen(seen: multiset<int>, s: int, d: nat, a: nat, parallel: bool)
    requires Tallies(seen, [], s, d, a, parallel)
    ensures forall p :: && seen[p] >= One(Position(s, d, a, p))
                        && (!Position(s, d, a, p) ==> seen[p] == 0) && (!parallel ==> seen[p] <= 1)
  {
    forall p
      ensures && seen[p] >= One(Position(s, d, a, p))
              && (!Position(s, d, a, p) ==> seen[p] == 0) && (!parallel ==> seen[p] <= 1)
    {
      assert Tally(seen, [], s, d, a, parallel, p);
    }
  }

  lemma TallyHalved(seen: multiset<int>, rest: seq<Part>, e: Part, s: int, d: nat, a: nat)
    requires IsAlignment(a) && e.len > SHARE_BYTES && Multiple(e.len, a) && Tallies(seen, rest + [e], s, d, a, true)
    ensures var n := Half(e.len);
            Tallies(seen, rest + [Part(e.start, n + WORD_BYTES)] + [Part(e.start + n, e.len - n)], s, d, a, true)
  {
    hide Position, Multiple, Half;
    var n := Half(e.len);
    var work := rest + [Part(e.start, n + WORD_BYTES)] + [Part(e.start + n, e.len - n)];
    forall p ensures Tally(seen, work, s, d, a, true, p) {
      assert Tally(seen, rest + [e], s, d, a, true, p);
      Halved(e.start, e.len, a, p);
      CountPush(rest, a, p, e);
      CountPush(rest, a, p, Part(e.start, n + WORD_BYTES));
      CountPush(rest + [Part(e.start, n + WORD_BYTES)], a, p, Part(e.start + n, e.len - n));
    }
  }

  lemma TallyCut(seen0: multiset<int>, seen: multiset<int>, rest: seq<Part>, e: Part, s: int, d: nat, a: nat,
                 parallel: bool)
    requires IsAlignment(a) && e.len >= SPLIT_RANGE_WORDS * WORD_BYTES && Multiple(e.len, a)
    requires Tallies(seen0, rest + [e], s, d, a, parallel)
    requires var n := (SPLIT_RANGE_WORDS - 1) * WORD_BYTES; Adds(seen0, seen, e.start, e.start + n - a, a)
    ensures var n := (SPLIT_RANGE_WORDS - 1) * WORD_BYTES;
            Tallies(seen, rest + [Part(e.start + n, e.len - n)], s, d, a, parallel)
  {
    hide Position, Multiple;
    var n := (SPLIT_RANGE_WORDS - 1) * WORD_BYTES;
    var work := rest + [Part(e.start + n, e.len - n)];
    forall p ensures Tally(seen, work, s, d, a, parallel, p) {
      assert Tally(seen0, rest + [e], s, d, a, parallel, p);
      CutOff(e.start, e.len, a, p);
      CountPush(rest, a, p, e);
      CountPush(rest, a, p, Part(e.start + n, e.len - n));
    }
  }

  lemma TallyLast(seen0: multiset<int>, seen: multiset<int>, rest: seq<Part>, e: Part, s: int, d: nat, a: nat,
                  parallel: bool)
    requires Tallies(seen0, rest + [e], s, d, a, parallel)
    requires if e.len < WORD_BYTES then seen == seen0 else Adds(seen0, seen, e.start, e.start + e.len - WORD_BYTES, a)
    ensures Tallies(seen, rest, s, d, a, parallel)
  {
    forall p ensures Tally(seen, rest, s, d, a, parallel, p) {
      assert Tally(seen0, rest + [e], s, d, a, parallel, p);
      CountPush(rest, a, p, e);
    }
  }
}
