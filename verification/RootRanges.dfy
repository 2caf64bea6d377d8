/**
 Excluded root ranges: a sorted table of address ranges that are not to be searched for pointers.
 */
module RootRanges {
  import opened Sequences

  const MAX_EXCLUSIONS: nat := 512

  datatype Range = Range(start: nat, end: nat) {
    predicate Has(a: nat) {
      start <= a < end
    }
  }

  datatype Outcome = Done | Overlap | TooMany

  /** The ranges are not empty and follow one another. */
  ghost predicate Ascending(s: seq<Range>) {
    && (forall i :: 0 <= i < |s| ==> s[i].start < s[i].end)
    && (forall i, j :: 0 <= i < j < |s| ==> s[i].end <= s[j].start)
  }

  ghost predicate Covers(s: seq<Range>, a: nat) {
    exists i :: 0 <= i < |s| && s[i].Has(a)
  }

  /** k is the first range that ends after a, or the number of ranges if none does. */
  ghost predicate FirstPast(s: seq<Range>, a: nat, k: nat) {
    && k <= |s|
    && (forall i :: 0 <= i < k ==> s[i].end <= a)
    && (k < |s| ==> s[k].end > a)
  }

  lemma NothingPast(a: nat)
    ensures FirstPast([], a, 0)
  {
  }

  /** The table with [start, finish) taken up in front of range k, or joined to it. */
  ghost function Taken(s: seq<Range>, k: nat, start: nat, finish: nat): seq<Range>
    requires k <= |s|
  {
    if k < |s| && s[k].start == finish then s[k := Range(start, s[k].end)] else Inserted(s, k, Range(start, finish))
  }

  /** The first range past `start` tells whether any range meets [start, finish). */
  lemma MeetsFirst(s: seq<Range>, start: nat, finish: nat, k: nat)
    requires Ascending(s) && start < finish && FirstPast(s, start, k)
    ensures k < |s| && s[k].start < finish <==> exists a: nat :: start <= a < finish && Covers(s, a)
  {
    if k < |s| && s[k].start < finish {
      var a := if s[k].start < start then start else s[k].start;
      assert s[k].Has(a);
      assert Covers(s, a);
    }
    if a: nat :| start <= a < finish && Covers(s, a) {
      var i :| 0 <= i < |s| && s[i].Has(a);
      assert i >= k;
      assert s[k].start <= s[i].start;
    }
  }

  /** Taking up [start, finish) too writes behind the end of the table: the table is full, the range meets none of its
      ranges and is not joined to one, and some range lies behind it. */
  ghost predicate Overruns(s: seq<Range>, start: nat, finish: nat) {
    && |s| == MAX_EXCLUSIONS
    && !Meets(s, start, finish)
    && !Touches(s, finish)
    && exists i :: 0 <= i < |s| && s[i].start > finish
  }

  ghost predicate Meets(s: seq<Range>, start: nat, finish: nat) {
    exists a: nat :: start <= a < finish && Covers(s, a)
  }

  /** Some range starts where [start, finish) ends; the two are joined. */
  ghost predicate Touches(s: seq<Range>, finish: nat) {
    exists i :: 0 <= i < |s| && s[i].start == finish
  }

  /** In terms of the first range past `start`. */
  lemma FirstPastTells(s: seq<Range>, start: nat, finish: nat, k: nat)
    requires Ascending(s) && start < finish && FirstPast(s, start, k)
    ensures Meets(s, start, finish) <==> k < |s| && s[k].start < finish
    ensures !Meets(s, start, finish) ==> (Touches(s, finish) <==> k < |s| && s[k].start == finish)
    ensures Overruns(s, start, finish) <==> |s| == MAX_EXCLUSIONS && k < |s| && finish < s[k].start
  {
    MeetsFirst(s, start, finish, k);
    assert forall i :: 0 <= i < k ==> s[i].start < finish;
    assert forall i :: k < i < |s| ==> s[k].end <= s[i].start;
  }

  lemma InsertedCovers(s: seq<Range>, k: nat, r: Range)
    requires Ascending(s) && k <= |s| && r.start < r.end
    requires FirstPast(s, r.start, k) && (k < |s| ==> r.end <= s[k].start)
    ensures Ascending(Inserted(s, k, r))
    ensures forall a: nat :: Covers(Inserted(s, k, r), a) <==> Covers(s, a) || r.Has(a)
  {
    InsertedAscends(s, k, r);
    hide Ascending, FirstPast, Covers;
    forall a: nat ensures Covers(Inserted(s, k, r), a) <==> Covers(s, a) || r.Has(a) {
      InsertedHas(s, k, r, a);
    }
  }

  lemma InsertedAscends(s: seq<Range>, k: nat, r: Range)
    requires Ascending(s) && k <= |s| && r.start < r.end
    requires FirstPast(s, r.start, k) && (k < |s| ==> r.end <= s[k].start)
    ensures Ascending(Inserted(s, k, r))
  {
    var t := Inserted(s, k, r);
    forall i, j | 0 <= i < j < |t| ensures t[i].end <= t[j].start && t[i].start < t[i].end && t[j].start < t[j].end {
      var i', j' := if i < k then i else i - 1, if j < k then j else j - 1;
      assert i != k ==> t[i] == s[i'];
      assert j != k ==> t[j] == s[j'];
      assert j > k ==> s[k].start <= s[j'].start;
    }
    assert |t| == 1 ==> t[0] == r;
  }

  lemma InsertedHas(s: seq<Range>, k: nat, r: Range, a: nat)
    requires k <= |s|
    ensures Covers(Inserted(s, k, r), a) <==> Covers(s, a) || r.Has(a)
  {
    var t := Inserted(s, k, r);
    assert t[k] == r;
    if i :| 0 <= i < |s| && s[i].Has(a) {
      assert t[if i < k then i else i + 1] == s[i];
    }
    if i :| 0 <= i < |t| && t[i].Has(a) {
      assert i != k ==> t[i] == s[if i < k then i else i - 1];
    }
  }

  lemma ExtendedCovers(s: seq<Range>, k: nat, start: nat)
    requires Ascending(s) && k < |s| && start < s[k].start && FirstPast(s, start, k)
    ensures var t := s[k := Range(start, s[k].end)];
            Ascending(t) && forall a: nat :: Covers(t, a) <==> Covers(s, a) || start <= a < s[k].start
  {
    var t := s[k := Range(start, s[k].end)];
    forall a: nat ensures Covers(t, a) <==> Covers(s, a) || start <= a < s[k].start {
      if i :| 0 <= i < |s| && s[i].Has(a) {
        assert t[i].Has(a);
      }
      if start <= a < s[k].start {
        assert t[k].Has(a);
      }
      if i :| 0 <= i < |t| && t[i].Has(a) {
        assert i != k ==> s[i].Has(a);
        assert i == k && a >= s[k].start ==> s[k].Has(a);
      }
    }
  }

  class Exclusions {
    const table: array<Range>  // GC_excl_table, and one more element for what lies behind it in memory
    var entries: nat           // GC_excl_table_entries

    constructor ()
      ensures Valid() && entries == 0 && fresh(table)
    {
      table := new Range[MAX_EXCLUSIONS + 1](i => Range(0, 0));
      entries := 0;
    }

    ghost predicate Valid()
      reads this, table
    {
      table.Length == MAX_EXCLUSIONS + 1 && entries <= MAX_EXCLUSIONS && Ascending(table[..entries])
    }

    /** The excluded ranges. */
    ghost function Ranges(): seq<Range>
      reads this, table
      requires Valid()
    {
      table[..entries]
    }

    /** GC_next_exclusion: the first range that ends after `start`, by binary search. */
    method NextExclusion(start: nat) returns (k: nat)
      requires Valid() && entries > 0
      ensures FirstPast(Ranges(), start, k)
    {
      var low, high := 0, entries - 1;
      while high > low
        invariant 0 <= low <= high < entries
        invariant forall i :: 0 <= i < low ==> table[i].end <= start
        invariant high < entries - 1 ==> table[high].end > start
      {
        var mid := (low + high) / 2;
        if table[mid].end <= start {
          assert forall i :: 0 <= i < mid ==> table[..entries][i].end <= table[..entries][mid].start;
          low := mid + 1;
        } else {
          high := mid;
        }
      }
      k := if table[low].end <= start then entries else low;
    }

    /** GC_exclude_static_roots_inner: exclude [start, finish) too.  The range may meet one that is excluded
        already, or the table may be full; the program then aborts.  `highest` is the highest index written to, or
        -1: before it finds the table to be full the program may have written behind it. */
    method ExcludeStaticRoots(start: nat, finish: nat) returns (r: Outcome, highest: int, ghost k: nat)
      requires Valid() && start < finish
      modifies this`entries, table
      ensures r != TooMany ==> Valid()
      ensures r == Overlap <==> Meets(old(Ranges()), start, finish)
      ensures r == Overlap ==> Ranges() == old(Ranges()) && highest == -1
      ensures r == TooMany <==> && old(entries) == MAX_EXCLUSIONS
                                && !Meets(old(Ranges()), start, finish) && !Touches(old(Ranges()), finish)
      ensures highest <= MAX_EXCLUSIONS && (highest == MAX_EXCLUSIONS <==> Overruns(old(Ranges()), start, finish))
      ensures highest == MAX_EXCLUSIONS ==> r == TooMany && table[MAX_EXCLUSIONS] == old(table[MAX_EXCLUSIONS - 1])
      ensures highest != MAX_EXCLUSIONS ==> table[MAX_EXCLUSIONS] == old(table[MAX_EXCLUSIONS])
      ensures FirstPast(old(Ranges()), start, k) && (r == Done ==> Ranges() == Taken(old(Ranges()), k, start, finish))
      ensures r == Done ==> forall a: nat :: Covers(Ranges(), a) <==> Covers(old(Ranges()), a) || start <= a < finish
    {
      hide Ascending, Covers, FirstPast, Meets, Touches, Overruns;
      ghost var s := Ranges();
      highest := -1;
      var next := 0;
      if entries > 0 {
        next := NextExclusion(start);
      } else {
        NothingPast(start);
      }
      k := next;
      FirstPastTells(s, start, finish, k);
      if next < entries {
        if table[next].start < finish {
          return Overlap, highest, k;
        }
        if table[next].start == finish {
          ExtendedCovers(s, k, start);
          table[next] := Range(start, table[next].end);
          assert table[..entries] == s[k := Range(start, s[k].end)];
          return Done, next, k;
        }
        highest := Shift(next);
      }
      if entries == MAX_EXCLUSIONS {
        return TooMany, highest, k;
      }
      InsertedCovers(s, k, Range(start, finish));
      table[next] := Range(start, finish);
      entries := entries + 1;
      assert table[..entries] == Inserted(s, k, Range(start, finish));
      r, highest := Done, if highest < next then next else highest;
    }

    /** Move the ranges from position k on up by one. */
    method Shift(k: nat) returns (highest: int)
      requires table.Length == MAX_EXCLUSIONS + 1 && k < entries <= MAX_EXCLUSIONS
      modifies table
      ensures highest == entries
      ensures forall j :: 0 <= j < table.Length && !(k < j <= entries) ==> table[j] == old(table[j])
      ensures forall j :: k < j <= entries ==> table[j] == old(table[j - 1])
    {
      highest := entries;
      var i := entries;
      while i > k
        invariant k <= i <= entries
        invariant forall j :: 0 <= j < table.Length && !(i < j <= entries) ==> table[j] == old(table[j])
        invariant forall j :: i < j <= entries ==> table[j] == old(table[j - 1])
      {
        table[i] := table[i - 1];
        i := i - 1;
      }
    }

    /** GC_push_conditional_with_exclusions: the ranges pushed make up [bottom, top) without what is excluded. */
    method PushWithExclusions(bottom: nat, top: nat) returns (pushed: seq<Range>)
      requires Valid() && entries > 0
      ensures Ascending(pushed)
      ensures forall a: nat :: Covers(pushed, a) <==> bottom <= a < top && !Covers(Ranges(), a)
    {
      pushed := [];
      var from := bottom;
      ghost var s := Ranges();
      while from < top
        invariant bottom <= from && Ascending(pushed)
        invariant forall i :: 0 <= i < |pushed| ==> pushed[i].end <= from
        invariant forall a: nat :: Covers(pushed, a) <==> bottom <= a < top && a < from && !Covers(s, a)
        decreases top - from
      {
        var k := NextExclusion(from);
        var end := if k == entries || table[k].start >= top then top else table[k].start;
        GapAndRange(s, from, k);
        if end > from {
          Appended(pushed, Range(from, end));
          pushed := pushed + [Range(from, end)];
        }
        if k == entries || table[k].start >= top {
          break;
        }
        from := table[k].end;
      }
    }
  }

  /** From `from` up to the first range past it nothing is excluded; then everything is, up to the end of that range. */
  lemma GapAndRange(s: seq<Range>, from: nat, k: nat)
    requires Ascending(s) && FirstPast(s, from, k)
    ensures forall a: nat :: from <= a && (k == |s| || a < s[k].start) ==> !Covers(s, a)
    ensures k < |s| ==> forall a: nat :: s[k].start <= a < s[k].end ==> Covers(s, a)
  {
    forall a: nat | from <= a && (k == |s| || a < s[k].start) ensures !Covers(s, a) {
      assert forall i :: 0 <= i < k ==> !s[i].Has(a);
      assert forall i :: k <= i < |s| ==> s[k].start <= s[i].start;
    }
    if k < |s| {
      forall a: nat | s[k].start <= a < s[k].end ensures Covers(s, a) {
        assert s[k].Has(a);
      }
    }
  }

  lemma Appended(s: seq<Range>, r: Range)
    ensures forall a: nat :: Covers(s + [r], a) <==> Covers(s, a) || r.Has(a)
  {
    var t := s + [r];
    forall a: nat ensures Covers(t, a) <==> Covers(s, a) || r.Has(a) {
      assert t[|s|] == r;
      if i :| 0 <= i < |s| && s[i].Has(a) {
        assert t[i].Has(a);
      }
    }
  }

  /** Ranges with gaps between them. */
  ghost function Comb(n: nat): seq<Range> {
    seq(n, i requires 0 <= i => Range(16 * i + 8, 16 * i + 16))
  }

  lemma CombNext(n: nat)
    ensures |Comb(n)| == n && Ascending(Comb(n)) && FirstPast(Comb(n), 16 * n + 8, n)
    ensures Inserted(Comb(n), n, Range(16 * n + 8, 16 * n + 16)) == Comb(n + 1)
    ensures !Meets(Comb(n), 16 * n + 8, 16 * n + 16) && !Touches(Comb(n), 16 * n + 16)
  {
    FirstPastTells(Comb(n), 16 * n + 8, 16 * n + 16, n);
  }

  lemma CombPast(n: nat, k: nat)
    requires FirstPast(Comb(n), 16 * n + 8, k)
    ensures k == n && Taken(Comb(n), k, 16 * n + 8, 16 * n + 16) == Comb(n + 1)
  {
  }

  lemma CombEmpty()
    ensures Comb(0) == []
  {
  }

  lemma CombFull()
    ensures Overruns(Comb(MAX_EXCLUSIONS), 0, 4)
  {
    var s := Comb(MAX_EXCLUSIONS);
    CombNext(MAX_EXCLUSIONS);
    FirstPastTells(s, 0, 4, 0);
  }

  /** A table filled by the operation itself, and a range in front of all others: the program writes behind the
      table. */
  method OverrunHappens() returns (e: Exclusions, highest: int)
    ensures e.table.Length == MAX_EXCLUSIONS + 1 && highest == MAX_EXCLUSIONS
  {
    hide Comb, Ascending, FirstPast, Meets, Touches, Overruns, Covers, Inserted, Taken;
    e := new Exclusions();
    CombEmpty();
    var n := 0;
    while n < MAX_EXCLUSIONS
      invariant n <= MAX_EXCLUSIONS && e.Valid() && e.Ranges() == Comb(n) && fresh(e) && fresh(e.table)
    {
      CombNext(n);
      var done, _, k := e.ExcludeStaticRoots(16 * n + 8, 16 * n + 16);
      CombPast(n, k);
      n := n + 1;
    }
    CombFull();
    var r;
    ghost var k;
    r, highest, k := e.ExcludeStaticRoots(0, 4);
  }
}
