/**
 The heap as a map from the first block of each chunk to its size and use: chunks tile the heap.
 Sizes are counted in heap blocks.
 */
module BlockMap {
  import opened Sequences
  import opened BlockLists

  datatype Blk = Blk(sz: nat, free: bool)
  type Blocks = map<Addr, Blk>

  // ---------- Tiling ----------

  ghost predicate Covers(blk: Blocks, b: Addr, n: Addr) {
    b in blk && b <= n < b + blk[b].sz
  }

  /** The chunks do not overlap. */
  ghost predicate Apart(blk: Blocks) {
    && (forall b :: b in blk ==> b > 0 && blk[b].sz > 0)
    && (forall b, c :: b in blk && c in blk && b < c ==> b + blk[b].sz <= c)
  }

  ghost predicate Covered(blk: Blocks, n: Addr) {
    exists b :: Covers(blk, b, n)
  }

  /** The chunks do not overlap, and together they make up `area`. */
  ghost predicate Tiles(blk: Blocks, area: set<Addr>) {
    Apart(blk) && forall n :: n in area <==> Covered(blk, n)
  }

  /** The chunk that starts at h is cut at n. */
  ghost function Cut(blk: Blocks, h: Addr, n: Addr): Blocks
    requires h in blk && h < n < h + blk[h].sz
  {
    blk[h := Blk(n - h, blk[h].free)][n := Blk(h + blk[h].sz - n, blk[h].free)]
  }

  lemma CutTiles(blk: Blocks, area: set<Addr>, h: Addr, n: Addr)
    requires Tiles(blk, area) && h in blk && h < n < h + blk[h].sz
    ensures n !in blk
    ensures Tiles(Cut(blk, h, n), area)
  {
    hide Covered;
    var r := Cut(blk, h, n);
    assert Apart(r);
    forall m: Addr ensures Covered(r, m) <==> Covered(blk, m) {
      CutCovers(blk, h, n, m);
    }
  }

  lemma CutCovers(blk: Blocks, h: Addr, n: Addr, m: Addr)
    requires h in blk && n !in blk && h < n < h + blk[h].sz
    ensures Covered(Cut(blk, h, n), m) <==> Covered(blk, m)
  {
    var r := Cut(blk, h, n);
    if b :| Covers(blk, b, m) {
      assert Covers(r, if b == h && m >= n then n else b, m);
    }
    if b :| Covers(r, b, m) {
      assert Covers(blk, if b == n then h else b, m);
    }
  }

  /** The chunk that starts at b is joined to the one before it, which starts at a. */
  ghost function Joined(blk: Blocks, a: Addr, b: Addr): Blocks
    requires a in blk && b in blk
  {
    (blk - {b})[a := Blk(blk[a].sz + blk[b].sz, blk[a].free)]
  }

  lemma JoinedTiles(blk: Blocks, area: set<Addr>, a: Addr, b: Addr)
    requires Tiles(blk, area) && a in blk && b in blk && b == a + blk[a].sz
    ensures Tiles(Joined(blk, a, b), area)
  {
    hide Covered;
    var r := Joined(blk, a, b);
    assert Apart(r);
    forall m: Addr ensures Covered(r, m) <==> Covered(blk, m) {
      JoinedCovers(blk, a, b, m);
    }
  }

  lemma JoinedCovers(blk: Blocks, a: Addr, b: Addr, m: Addr)
    requires a in blk && b in blk && b == a + blk[a].sz && a != b
    ensures Covered(Joined(blk, a, b), m) <==> Covered(blk, m)
  {
    var r := Joined(blk, a, b);
    if c :| Covers(blk, c, m) {
      assert Covers(r, if c == b then a else c, m);
    }
    if c :| Covers(r, c, m) {
      assert Covers(blk, if c == a && m >= b then b else c, m);
    }
  }

  lemma FlagTiles(blk: Blocks, area: set<Addr>, h: Addr, free: bool)
    requires Tiles(blk, area) && h in blk
    ensures Tiles(blk[h := Blk(blk[h].sz, free)], area)
  {
    var r := blk[h := Blk(blk[h].sz, free)];
    forall m: Addr ensures Covered(r, m) <==> Covered(blk, m) {
      assert forall b :: Covers(r, b, m) <==> Covers(blk, b, m);
    }
  }

  predicate InSpan(p: Addr, n: nat, m: Addr) {
    p <= m < p + n
  }

  ghost function Span(p: Addr, n: nat): set<Addr> {
    set m: Addr | p <= m < p + n && InSpan(p, n, m)
  }

  lemma GrowTiles(blk: Blocks, area: set<Addr>, p: Addr, n: nat, free: bool)
    requires Tiles(blk, area) && p > 0 && n > 0 && Span(p, n) !! area
    ensures p !in blk
    ensures Tiles(blk[p := Blk(n, free)], area + Span(p, n))
  {
    var r := blk[p := Blk(n, free)];
    assert InSpan(p, n, p);
    assert p in blk ==> Covers(blk, p, p);
    forall b | b in blk ensures b + blk[b].sz <= p || p + n <= b {
      OutsideSpan(blk, area, p, n, b);
    }
    forall m: Addr ensures Covered(r, m) <==> Covered(blk, m) || InSpan(p, n, m) {
      if b :| Covers(blk, b, m) {
        assert Covers(r, b, m);
      }
      if b :| Covers(r, b, m) {
        assert b != p ==> Covers(blk, b, m);
      }
      assert InSpan(p, n, m) ==> Covers(r, p, m);
    }
  }

  lemma OutsideSpan(blk: Blocks, area: set<Addr>, p: Addr, n: nat, b: Addr)
    requires Tiles(blk, area) && p > 0 && n > 0 && Span(p, n) !! area && b in blk
    ensures b + blk[b].sz <= p || p + n <= b
  {
    assert InSpan(p, n, p) && p in Span(p, n);
    assert !Covered(blk, p) && !Covers(blk, b, p);
    assert Covers(blk, b, b) && b in area;
    assert InSpan(p, n, b) ==> b in Span(p, n);
  }

  // ---------- Adding up ----------

  function InUse(x: Blk): nat {
    if x.free then 0 else x.sz
  }

  /** Blocks in use. */
  ghost function Used(blk: Blocks): nat
    decreases |blk|
  {
    if blk == map[] then 0 else
      var b :| b in blk;
      InUse(blk[b]) + Used(blk - {b})
  }

  lemma {:induction false} UsedWithout(blk: Blocks, b: Addr)
    requires b in blk
    ensures Used(blk) == InUse(blk[b]) + Used(blk - {b})
    decreases |blk|
  {
    var c :| c in blk && Used(blk) == InUse(blk[c]) + Used(blk - {c});
    if c != b {
      UsedWithout(blk - {c}, b);
      UsedWithout(blk - {b}, c);
      assert blk - {c} - {b} == blk - {b} - {c};
    }
  }

  lemma UsedUpdate(blk: Blocks, b: Addr, x: Blk)
    ensures Used(blk[b := x]) == Used(blk) + InUse(x) - if b in blk then InUse(blk[b]) else 0
  {
    UsedWithout(blk[b := x], b);
    if b in blk {
      UsedWithout(blk, b);
      assert blk[b := x] - {b} == blk - {b};
    } else {
      assert blk[b := x] - {b} == blk;
    }
  }

  /** Total size of the chunks on a list. */
  ghost function ListSum(blk: Blocks, s: seq<Addr>): nat {
    if s == [] then 0 else (if s[0] in blk then blk[s[0]].sz else 0) + ListSum(blk, s[1..])
  }

  lemma {:induction false} ListSumAppend(blk: Blocks, s: seq<Addr>, t: seq<Addr>)
    ensures ListSum(blk, s + t) == ListSum(blk, s) + ListSum(blk, t)
  {
    if s == [] {
      assert s + t == t;
    } else {
      assert (s + t)[1..] == s[1..] + t;
      ListSumAppend(blk, s[1..], t);
    }
  }

  lemma ListSumWithout(blk: Blocks, s: seq<Addr>, k: nat)
    requires k < |s| && s[k] in blk
    ensures ListSum(blk, s) == blk[s[k]].sz + ListSum(blk, Without(s, k))
  {
    ListSumAppend(blk, s[..k], s[k..]);
    ListSumAppend(blk, s[..k], s[k + 1..]);
    assert s == s[..k] + s[k..];
    assert s[k..][1..] == s[k + 1..];
  }

  /** Sum of the counts kept for the lists. */
  ghost function Total(counts: seq<nat>): nat {
    if counts == [] then 0 else counts[0] + Total(counts[1..])
  }

  lemma {:induction false} TotalUpdate(counts: seq<nat>, i: nat, x: nat)
    requires i < |counts|
    ensures Total(counts[i := x]) == Total(counts) - counts[i] + x
    ensures counts[i] <= Total(counts)
  {
    if i == 0 {
      assert counts[0 := x][1..] == counts[1..];
    } else {
      assert counts[i := x][1..] == counts[1..][i - 1 := x];
      TotalUpdate(counts[1..], i - 1, x);
    }
  }

  // ---------- Coalescing ----------

  /** No two free chunks lie side by side. */
  ghost predicate Coalesced(blk: Blocks) {
    forall b :: b in blk && blk[b].free ==> var c := b + blk[b].sz; c in blk ==> !blk[c].free
  }

  lemma UsedJoined(blk: Blocks, a: Addr, b: Addr)
    requires a in blk && b in blk && a != b && blk[a].free && blk[b].free
    ensures Used(Joined(blk, a, b)) == Used(blk)
  {
    UsedWithout(blk, b);
    UsedUpdate(blk - {b}, a, Blk(blk[a].sz + blk[b].sz, true));
  }

  lemma UsedCut(blk: Blocks, h: Addr, n: Addr)
    requires h in blk && n !in blk && h < n < h + blk[h].sz
    ensures Used(Cut(blk, h, n)) == Used(blk)
  {
    UsedUpdate(blk, h, Blk(n - h, blk[h].free));
    UsedUpdate(blk[h := Blk(n - h, blk[h].free)], n, Blk(h + blk[h].sz - n, blk[h].free));
  }

  // ---------- What freeing a chunk does ----------

  ghost predicate FreeEndingAt(blk: Blocks, p: Addr, h: Addr) {
    p in blk && blk[p].free && p + blk[p].sz == h
  }

  ghost predicate FreeAt(blk: Blocks, n: Addr) {
    n in blk && blk[n].free
  }

  /** Chunk h becomes free and is joined to the free chunk after it, if there is one. */
  ghost function FreedForward(blk: Blocks, h: Addr): Blocks
    requires h in blk
  {
    var b1, n := blk[h := Blk(blk[h].sz, true)], h + blk[h].sz;
    if n != h && FreeAt(blk, n) then Joined(b1, h, n) else b1
  }

  /** And then to the free chunk p before it; p == 0 says that there is none. */
  ghost function Freed(blk: Blocks, h: Addr, p: Addr): Blocks
    requires h in blk
  {
    var b2 := FreedForward(blk, h);
    if p == 0 || p !in b2 then b2 else Joined(b2, p, h)
  }

  lemma FreedIsCoalesced(blk: Blocks, h: Addr, p: Addr)
    requires Apart(blk) && Coalesced(blk) && h in blk && !blk[h].free
    requires p != 0 ==> FreeEndingAt(blk, p, h)
    requires p == 0 ==> forall q :: !FreeEndingAt(blk, q, h)
    ensures Coalesced(Freed(blk, h, p))
  {
    hide Freed, Apart, FreeEndingAt;
    var r := Freed(blk, h, p);
    forall b | b in r && r[b].free ensures !FreeAt(r, b + r[b].sz) {
      NotFreeAfter(blk, h, p, b);
    }
  }

  lemma NotFreeAfter(blk: Blocks, h: Addr, p: Addr, b: Addr)
    requires Apart(blk) && Coalesced(blk) && h in blk && !blk[h].free
    requires p != 0 ==> FreeEndingAt(blk, p, h)
    requires p == 0 ==> forall q :: !FreeEndingAt(blk, q, h)
    requires var r := Freed(blk, h, p); b in r && r[b].free
    ensures var r := Freed(blk, h, p); !FreeAt(r, b + r[b].sz)
  {
    if b == h || b == p {
      AfterFreed(blk, h, p, b);
    } else {
      AfterOther(blk, h, p, b);
    }
  }

  /** The chunk that results ends where the last of the joined ones did. */
  lemma AfterFreed(blk: Blocks, h: Addr, p: Addr, b: Addr)
    requires Apart(blk) && Coalesced(blk) && h in blk && !blk[h].free && (b == h || b == p)
    requires p != 0 ==> FreeEndingAt(blk, p, h)
    requires FreeAt(Freed(blk, h, p), b)
    ensures var r := Freed(blk, h, p); !FreeAt(r, b + r[b].sz)
  {
    var r, n := Freed(blk, h, p), h + blk[h].sz;
    var c := b + r[b].sz;
    EndOfFreed(blk, h, p, b);
    assert FreeAt(blk, n) ==> !FreeAt(blk, c);
    assert c != h && c != p;
    assert FreeAt(r, c) ==> FreeAt(blk, c);
  }

  lemma EndOfFreed(blk: Blocks, h: Addr, p: Addr, b: Addr)
    requires Apart(blk) && h in blk && !blk[h].free && (b == h || b == p)
    requires p != 0 ==> FreeEndingAt(blk, p, h)
    requires FreeAt(Freed(blk, h, p), b)
    ensures var n := h + blk[h].sz; b + Freed(blk, h, p)[b].sz == if FreeAt(blk, n) then n + blk[n].sz else n
  {
  }

  lemma AfterOther(blk: Blocks, h: Addr, p: Addr, b: Addr)
    requires Apart(blk) && Coalesced(blk) && h in blk && !blk[h].free && b != h && b != p
    requires p != 0 ==> FreeEndingAt(blk, p, h)
    requires p == 0 ==> forall q :: !FreeEndingAt(blk, q, h)
    requires FreeAt(Freed(blk, h, p), b)
    ensures var r := Freed(blk, h, p); !FreeAt(r, b + r[b].sz)
  {
    var r := Freed(blk, h, p);
    assert !FreeEndingAt(blk, b, h);
    assert blk[b] == r[b];
  }

  // ---------- What allocating part of a chunk does ----------

  /** The n blocks from p on, inside the free chunk h, are put to use; what is left of h on both sides stays free. */
  ghost function Carved(blk: Blocks, h: Addr, p: Addr, n: nat): Blocks
    requires h in blk && h <= p && 0 < n && p + n <= h + blk[h].sz
  {
    var b1 := if p == h then blk else Cut(blk, h, p);
    var b2 := if p + n == h + blk[h].sz then b1 else Cut(b1, p, p + n);
    b2[p := Blk(n, false)]
  }

  lemma CarvedIsCoalesced(blk: Blocks, h: Addr, p: Addr, n: nat)
    requires Apart(blk) && Coalesced(blk) && FreeAt(blk, h) && h <= p && 0 < n && p + n <= h + blk[h].sz
    ensures Coalesced(Carved(blk, h, p, n))
  {
    hide Carved, Apart;
    var r := Carved(blk, h, p, n);
    forall b | b in r && r[b].free ensures !FreeAt(r, b + r[b].sz) {
      CarvedNotFreeAfter(blk, h, p, n, b);
    }
  }

  lemma CarvedNotFreeAfter(blk: Blocks, h: Addr, p: Addr, n: nat, b: Addr)
    requires Apart(blk) && Coalesced(blk) && FreeAt(blk, h) && h <= p && 0 < n && p + n <= h + blk[h].sz
    requires FreeAt(Carved(blk, h, p, n), b)
    ensures var r := Carved(blk, h, p, n); !FreeAt(r, b + r[b].sz)
  {
    var r, e := Carved(blk, h, p, n), h + blk[h].sz;
    var c := b + r[b].sz;
    if b == h {
      assert c == p;
    } else if b == p + n && p + n < e {
      assert c == e;
      assert c in blk ==> !blk[c].free;
    } else {
      assert blk[b] == r[b];
      assert c in blk ==> !blk[c].free;
    }
  }

  // ---------- What a search for room does ----------

  /** The free chunk c is put to use block by block. */
  ghost function UsedUp(blk: Blocks, c: Addr): Blocks
    requires c in blk && blk[c].sz > 0
    decreases blk[c].sz
  {
    if blk[c].sz == 1 then blk[c := Blk(1, false)] else UsedUp(Cut(blk, c, c + 1)[c := Blk(1, false)], c + 1)
  }

  /** A search drops free chunks h, and takes the n blocks from p on out of a free chunk h. */
  datatype Event = Dropped(h: Addr) | Taken(h: Addr, p: Addr, n: nat)

  ghost predicate CanPlay(blk: Blocks, e: Event) {
    && FreeAt(blk, e.h) && blk[e.h].sz > 0
    && (e.Taken? ==> e.h <= e.p && 0 < e.n && e.p + e.n <= e.h + blk[e.h].sz)
  }

  ghost function Played(blk: Blocks, e: Event): Blocks {
    if !CanPlay(blk, e) then blk else if e.Dropped? then UsedUp(blk, e.h) else Carved(blk, e.h, e.p, e.n)
  }

  /** The chunks after the events of the log. */
  ghost function PlayedAll(blk: Blocks, log: seq<Event>): Blocks {
    if log == [] then blk else Played(PlayedAll(blk, log[..|log| - 1]), log[|log| - 1])
  }

  ghost predicate Playable(blk: Blocks, log: seq<Event>) {
    forall i :: 0 <= i < |log| ==> CanPlay(PlayedAll(blk, log[..i]), log[i])
  }

  /** The log tells how blk became blk'. */
  ghost predicate Tells(blk: Blocks, log: seq<Event>, blk': Blocks) {
    Playable(blk, log) && PlayedAll(blk, log) == blk'
  }

  lemma Nothing(blk: Blocks, blk': Blocks)
    requires Tells(blk, [], blk')
    ensures blk' == blk
  {
  }

  lemma TellsNone(blk: Blocks)
    ensures Tells(blk, [], blk)
  {
  }

  lemma {:induction false} TellsOneMore(blk: Blocks, log: seq<Event>, blk1: Blocks, e: Event)
    requires Tells(blk, log, blk1) && CanPlay(blk1, e)
    ensures Tells(blk, log + [e], Played(blk1, e))
  {
    var log' := log + [e];
    assert log'[..|log|] == log;
    forall i | 0 <= i < |log'| ensures CanPlay(PlayedAll(blk, log'[..i]), log'[i]) {
      assert log'[..i] == log[..i];
    }
  }

  lemma {:induction false} TellsMore(blk: Blocks, log: seq<Event>, blk1: Blocks, log1: seq<Event>, blk2: Blocks)
    requires Tells(blk, log, blk1) && Tells(blk1, log1, blk2)
    ensures Tells(blk, log + log1, blk2)
    decreases |log1|
  {
    hide Tells, CanPlay, Played;
    if log1 == [] {
      assert blk2 == blk1 by { Nothing(blk1, blk2); }
      assert log + log1 == log;
    } else {
      var n := |log1| - 1;
      TellsFront(blk1, log1, blk2);
      TellsMore(blk, log, blk1, log1[..n], PlayedAll(blk1, log1[..n]));
      TellsOneMore(blk, log + log1[..n], PlayedAll(blk1, log1[..n]), log1[n]);
      assert log + log1[..n] + [log1[n]] == log + log1;
    }
  }

  /** The last event, and those before it. */
  lemma TellsFront(blk: Blocks, log: seq<Event>, blk': Blocks)
    requires Tells(blk, log, blk') && log != []
    ensures var n := |log| - 1;
            var blk1 := PlayedAll(blk, log[..n]);
            Tells(blk, log[..n], blk1) && CanPlay(blk1, log[n]) && blk' == Played(blk1, log[n])
  {
    hide CanPlay, Played;
    var n := |log| - 1;
    forall i | 0 <= i < n ensures CanPlay(PlayedAll(blk, log[..n][..i]), log[..n][i]) {
      assert log[..n][..i] == log[..i];
    }
  }
}
