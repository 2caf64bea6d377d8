/**
 Size classes: the map from requested sizes in bytes to object sizes in granules, filled in on demand.
 */
module SizeMap {
  import opened Arithmetic

  const GRANULE_BYTES: nat := 16
  const HBLK_GRANULES: nat := 256
  const MAXOBJBYTES: nat := 2048
  const MAXOBJGRANULES: nat := 128
  const TINY_FREELISTS: nat := 25

  function Even(n: nat): nat {
    n - n % 2
  }

  /** How many objects of g granules there are in a block, or how large each of g objects can be. */
  function PerBlock(g: nat): nat
    requires g > 0
  {
    HBLK_GRANULES / g
  }

  /** Growing objects of g granules to the most, in pairs, that leaves room for as many of them in a block. */
  function Stretched(g: nat): nat
    requires 0 < g <= MAXOBJGRANULES
  {
    Objects(g);
    Even(PerBlock(PerBlock(g)))
  }

  lemma Objects(g: nat)
    requires g > 0
    ensures g <= MAXOBJGRANULES ==> PerBlock(g) >= 2
    ensures g >= 2 ==> PerBlock(g) <= MAXOBJGRANULES
  {
    Division(HBLK_GRANULES, g);
    Times(PerBlock(g), 2, g);
    Times(1, g, PerBlock(g));
  }

  /** At least n objects of g granules fit in a block just if g is at most the n-th part of it. */
  lemma Fits(g: nat, n: nat)
    requires g > 0 && n > 0
    ensures n <= PerBlock(g) <==> g <= PerBlock(n)
  {
    FitsOneWay(g, n);
    FitsOneWay(n, g);
  }

  lemma FitsOneWay(g: nat, n: nat)
    requires g > 0 && n > 0
    ensures n <= PerBlock(g) ==> g <= PerBlock(n)
  {
    Division(HBLK_GRANULES, g);
    if n <= PerBlock(g) {
      Times(n, PerBlock(g), g);
      AtMostQuotient(g, n);
    }
  }

  lemma AtMostQuotient(g: nat, n: nat)
    requires n > 0 && n * g <= HBLK_GRANULES
    ensures g <= PerBlock(n)
  {
    var r := PerBlock(n);
    Division(HBLK_GRANULES, n);
    Times(r, g, n);
  }

  /** Stretching loses no object per block, and stretching further would lose one. */
  lemma StretchedFits(g: nat)
    requires 0 < g <= MAXOBJGRANULES && g % 2 == 0
    ensures var s := Stretched(g);
            && g <= s <= MAXOBJGRANULES && s % 2 == 0
            && PerBlock(s) == PerBlock(g)
            && forall x: nat :: x > s && x % 2 == 0 ==> PerBlock(x) < PerBlock(s)
  {
    hide PerBlock;
    Objects(g);
    var n := PerBlock(g);
    Objects(n);
    var q := PerBlock(n);
    Fits(g, n);
    var s := Even(q);
    Fits(s, n);
    var k := PerBlock(s);
    Fits(s, k);
    Fits(g, k);
    forall x: nat | x > s && x % 2 == 0 ensures PerBlock(x) < n {
      Fits(x, n);
    }
  }

  /** n is the last entry of a section that is filled in. */
  ghost predicate Ends(t: seq<nat>, n: nat) {
    n < |t| && t[n] != 0 && (n + 1 < |t| ==> t[n + 1] == 0)
  }

  /** Where a section that ends at n has to start at the latest. */
  function Latest(n: nat): (k: nat)
    ensures k <= n
  {
    n - n / 4
  }

  ghost predicate FilledIn(t: seq<nat>, from: nat, to: int) {
    forall k: nat :: from < k <= to && k < |t| ==> t[k] != 0
  }

  /** Sections that are filled in are long: one that ends at n has at least n / 4 entries. */
  ghost predicate Long(t: seq<nat>) {
    forall n: nat :: Ends(t, n) ==> FilledIn(t, Latest(n), n)
  }

  /** An entry that is filled in is large enough for the size and the extra byte, and small enough for a block. */
  ghost predicate Sound(t: seq<nat>, extra: nat) {
    forall k: nat :: k < |t| && t[k] != 0 ==> t[k] * GRANULE_BYTES >= k + extra && t[k] <= MAXOBJGRANULES
  }

  /** The last entry that is filled in from the start. */
  function Tiny(extra: nat): nat
    requires extra <= 1
  {
    (TINY_FREELISTS - 1) * GRANULE_BYTES - extra
  }

  ghost predicate Good(t: seq<nat>, extra: nat) {
    && |t| == MAXOBJBYTES + 1 && extra <= 1
    && Sound(t, extra) && Long(t)
    && (forall k: nat :: k <= Tiny(extra) ==> t[k] != 0)
    && (extra == 1 ==> t[MAXOBJBYTES] == 0)
  }

  /** Exactly the entries from low to high change, and become g. */
  ghost predicate Fills(t: seq<nat>, t': seq<nat>, low: nat, high: nat, g: nat) {
    && |t'| == |t|
    && forall k: nat :: k < |t| ==> t'[k] == if low <= k <= high then g else t[k]
  }

  lemma FillsGood(t: seq<nat>, t': seq<nat>, low: nat, high: nat, g: nat, extra: nat)
    requires Good(t, extra) && Fills(t, t', low, high, g)
    requires high == g * GRANULE_BYTES - extra && 0 < g <= MAXOBJGRANULES && low <= high
    requires FilledIn(t, Latest(high), low - 1)
    ensures Good(t', extra)
  {
    assert Sound(t', extra);
    forall n: nat | Ends(t', n) ensures FilledIn(t', Latest(n), n) {
      if n != high {
        assert Ends(t, n);
        assert FilledIn(t, Latest(n), n);
      }
    }
  }

  /** A section that ended before `high` reaches far enough back for one that ends at high. */
  lemma StillLong(t: seq<nat>, low: nat, high: nat)
    requires Long(t) && 0 < low < |t| && t[low - 1] != 0 && t[low] == 0 && low <= high
    ensures FilledIn(t, Latest(high), low - 1)
  {
    assert Ends(t, low - 1);
    assert Latest(low - 1) <= Latest(high);
  }

  /** g is n made even, or the largest size if n is larger. */
  predicate MadeEven(n: nat, g: nat) {
    g % 2 == 0 && g <= MAXOBJGRANULES && if n <= MAXOBJGRANULES then n <= g <= n + 1 else g == MAXOBJGRANULES
  }

  lemma EvenBound(least: nat, n: nat, g: nat)
    requires 0 < least <= MAXOBJGRANULES && least <= n <= least + least / 8 && MadeEven(n, g)
    ensures 0 < g && least <= g <= least + least / 8 + 1
  {
  }

  lemma NowEven(n: nat)
    ensures MadeEven(n, if Even(n + 1) > MAXOBJGRANULES then MAXOBJGRANULES else Even(n + 1))
  {
  }

  class SizeMap {
    const table: array<nat>  // GC_size_map
    const extra: nat         // EXTRA_BYTES: 1 if pointers just past the end of an object count

    ghost predicate Valid()
      reads table
    {
      Good(table[..], extra)
    }

    function RoundedUpGranules(n: nat): (g: nat)
      requires extra <= 1
      ensures g * GRANULE_BYTES >= n + extra > g * GRANULE_BYTES - GRANULE_BYTES
    {
      (n + GRANULE_BYTES - 1 + extra) / GRANULE_BYTES
    }

    /** Filling in around i starts at `low` with n granules, before n is made even.  If there is no entry yet for sizes
        an eighth below that of i, that size is used from a quarter below it on; otherwise a size an eighth above the
        first one missing is used.  In both cases entries at the beginning that are there already are passed over. */
    ghost predicate Chosen(t: seq<nat>, i: nat, low: nat, n: nat)
      requires extra <= 1 && |t| == MAXOBJBYTES + 1 && i <= MAXOBJBYTES - extra
    {
      var orig := RoundedUpGranules(i);
      var bytes := orig * GRANULE_BYTES;
      var eighth := bytes - bytes / 8;
      var sparse := t[eighth] == 0;
      var from := if sparse then bytes - bytes / 4 else eighth + 1;
      && from <= low <= i && t[low] == 0 && (forall k: nat :: from <= k < low ==> t[k] != 0)
      && n >= orig
      && if sparse then n == orig
         else var more := RoundedUpGranules(low) + RoundedUpGranules(low) / 8;
              n >= more && (n == orig || n == more)
    }

    /** An object is at most an eighth larger than needed, before its size is made even. */
    lemma AtMostAnEighth(t: seq<nat>, i: nat, low: nat, n: nat)
      requires extra <= 1 && |t| == MAXOBJBYTES + 1 && 0 < i <= MAXOBJBYTES - extra && Chosen(t, i, low, n)
      ensures RoundedUpGranules(i) <= n <= RoundedUpGranules(i) + RoundedUpGranules(i) / 8
    {
      assert RoundedUpGranules(low) <= RoundedUpGranules(i);
    }

    /** GC_init_size_map */
    constructor (extra: nat)
      requires extra <= 1
      ensures Valid() && this.extra == extra && fresh(table)
      ensures forall k: nat :: 0 < k <= Tiny(extra) ==> table[k] == RoundedUpGranules(k) && table[k] < TINY_FREELISTS
      ensures table[0] == 1 && forall k: nat :: Tiny(extra) < k <= MAXOBJBYTES ==> table[k] == 0
    {
      this.extra := extra;
      table := new nat[MAXOBJBYTES + 1](i => 0);
      new;
      table[0] := 1;
      var i := 1;
      while i <= (TINY_FREELISTS - 1) * GRANULE_BYTES - extra
        invariant 1 <= i <= Tiny(extra) + 1
        invariant table[0] == 1
        invariant forall k: nat :: 0 < k < i ==> table[k] == RoundedUpGranules(k) && table[k] < TINY_FREELISTS
        invariant forall k: nat :: i <= k <= MAXOBJBYTES ==> table[k] == 0
      {
        table[i] := RoundedUpGranules(i);
        i := i + 1;
      }
    }

    /** The first entry from `from` on that is not filled in. */
    method FirstEmpty(from: nat, ghost i: nat) returns (low: nat)
      requires Valid() && from <= i <= MAXOBJBYTES && table[i] == 0
      ensures from <= low <= i && table[low] == 0 && forall k: nat :: from <= k < low ==> table[k] != 0
    {
      low := from;
      while table[low] != 0
        invariant from <= low <= i && forall k: nat :: from <= k < low ==> table[k] != 0
        decreases i - low
      {
        low := low + 1;
      }
    }

    /** Decide from which entry on to fill in, and with which size, before that is made even. */
    method Choose(i: nat) returns (low: nat, g: nat)
      requires Valid() && i <= MAXOBJBYTES - extra && table[i] == 0
      ensures g >= RoundedUpGranules(i) > 0 && Chosen(table[..], i, low, g)
      ensures FilledIn(table[..], Latest(RoundedUpGranules(i) * GRANULE_BYTES - extra), low - 1)
    {
      var orig := RoundedUpGranules(i);
      var bytes := orig * GRANULE_BYTES;
      var smaller := bytes - bytes / 8;
      assert i > Tiny(extra);
      assert smaller < i;
      if table[smaller] == 0 {
        low := FirstEmpty(bytes - bytes / 4, smaller);
        g := orig;
      } else {
        low := FirstEmpty(smaller + 1, i);
        StillLong(table[..], low, bytes - extra);
        g := RoundedUpGranules(low);
        g := g + g / 8;
        if g < orig {
          g := orig;
        }
      }
    }

    /** The map t was filled in around i, from `low` on, with objects of g granules, stretched: up to their size, and
        nowhere else.  Apart from stretching, objects are at most an eighth and one granule larger than needed. */
    ghost predicate Grown(t: seq<nat>, t': seq<nat>, i: nat, low: nat, n: nat, g: nat)
      requires extra <= 1 && |t| == MAXOBJBYTES + 1 && i <= MAXOBJBYTES - extra
    {
      && Chosen(t, i, low, n) && MadeEven(n, g) && 0 < g
      && RoundedUpGranules(i) <= g <= RoundedUpGranules(i) + RoundedUpGranules(i) / 8 + 1
      && var high := Stretched(g) * GRANULE_BYTES - extra;
      && low <= i <= high <= MAXOBJBYTES && Fills(t, t', low, high, Stretched(g))
    }

    lemma GrowsAround(t: seq<nat>, i: nat, low: nat, n: nat, g: nat)
      requires Good(t, extra) && 0 < i <= MAXOBJBYTES - extra && Chosen(t, i, low, n)
      requires FilledIn(t, Latest(RoundedUpGranules(i) * GRANULE_BYTES - extra), low - 1)
      requires MadeEven(n, g)
      ensures 0 < g && low <= i <= Stretched(g) * GRANULE_BYTES - extra <= MAXOBJBYTES
      ensures forall t' :: Fills(t, t', low, Stretched(g) * GRANULE_BYTES - extra, Stretched(g)) ==>
                Grown(t, t', i, low, n, g) && Good(t', extra) && t'[i] != 0
    {
      AtMostAnEighth(t, i, low, n);
      EvenBound(RoundedUpGranules(i), n, g);
      StretchedFits(g);
      hide Stretched, PerBlock, Good, Long, RoundedUpGranules, MadeEven;
      var s := Stretched(g);
      var high := s * GRANULE_BYTES - extra;
      assert Latest(RoundedUpGranules(i) * GRANULE_BYTES - extra) <= Latest(high);
      forall t' | Fills(t, t', low, high, s) ensures Grown(t, t', i, low, n, g) && Good(t', extra) && t'[i] != 0 {
        FillsGood(t, t', low, high, s, extra);
      }
    }

    /** GC_extend_size_map: fill in entries for sizes around i, including i. */
    method Extend(i: nat)
      requires Valid() && i <= MAXOBJBYTES - extra && table[i] == 0
      modifies table
      ensures Valid() && table[i] != 0
      ensures forall k: nat :: k <= MAXOBJBYTES && old(table[k]) != 0 ==> table[k] != 0
      ensures exists low: nat, n: nat, g: nat :: Grown(old(table[..]), table[..], i, low, n, g)
    {
      var low, n := Choose(i);
      var g := Even(n + 1);
      if g > MAXOBJGRANULES {
        g := MAXOBJGRANULES;
      }
      NowEven(n);
      Objects(g);
      ghost var t := table[..];
      GrowsAround(t, i, low, n, g);
      hide PerBlock, Chosen, RoundedUpGranules, MadeEven;
      var s := Even(PerBlock(PerBlock(g)));
      Fill(low, s * GRANULE_BYTES - extra, s);
    }

    method Fill(low: nat, high: nat, g: nat)
      requires table.Length == MAXOBJBYTES + 1 && low <= high <= MAXOBJBYTES
      modifies table
      ensures Fills(old(table[..]), table[..], low, high, g)
    {
      var k := low;
      while k <= high
        invariant low <= k <= high + 1
        invariant forall x: nat :: x <= MAXOBJBYTES ==> table[x] == if low <= x < k then g else old(table[x])
      {
        table[k] := g;
        k := k + 1;
      }
    }
  }
}
