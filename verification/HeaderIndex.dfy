/**
 The index from addresses to block headers: a sparse two-level table whose entries are nil, a header, or a capped
 count of blocks to go back towards the header.  The bottom-level tables are found through hash chains and linked in
 both address orders.
 */
module HeaderIndex {
  import opened Platform
  import opened Sequences
  import opened BlockLists
  import opened BlockMap
  import opened Arithmetic

  const BOTTOM_SZ: nat := 1024
  const TOP_SZ: nat := 2048
  const MAX_JUMP: nat := HBLKSIZE - 1

  /** A block header: the object size in bytes (the size of the chunk when it is free), and the free flag. */
  datatype Header = Header(sz: nat, free: bool)

  datatype Entry = Nil | Count(n: nat) | Hdr(hdr: Header)

  type Key = nat
  type Bottoms = map<Key, seq<Entry>>

  /** A bottom-level table, as an element of the linked list: its key plus one, since 0 is the null pointer. */
  type Bi = nat

  function KeyOf(b: Addr): Key {
    b / BOTTOM_SZ
  }

  function BlocksFor(sz: nat): nat {
    (sz + HBLKSIZE - 1) / HBLKSIZE
  }

  ghost predicate Tables(bots: Bottoms) {
    forall k :: k in bots ==> |bots[k]| == BOTTOM_SZ
  }

  function NilTable(): seq<Entry> {
    seq(BOTTOM_SZ, i => Nil)
  }

  /** The entry for block b: nil where there is no bottom-level table. */
  ghost function Look(bots: Bottoms, b: Addr): Entry
    requires Tables(bots)
  {
    if KeyOf(b) in bots then bots[KeyOf(b)][b % BOTTOM_SZ] else Nil
  }

  /** The tables differ only in what they say about block b. */
  ghost predicate OnlyAt(bots: Bottoms, bots': Bottoms, b: Addr, e: Entry)
    requires Tables(bots) && Tables(bots')
  {
    && Look(bots', b) == e
    && forall c: Addr :: c != b ==> Look(bots', c) == Look(bots, c)
  }

  lemma SetAt(bots: Bottoms, b: Addr, e: Entry)
    requires Tables(bots) && KeyOf(b) in bots
    ensures var bots' := bots[KeyOf(b) := bots[KeyOf(b)][b % BOTTOM_SZ := e]];
            Tables(bots') && OnlyAt(bots, bots', b, e)
  {
    var bots' := bots[KeyOf(b) := bots[KeyOf(b)][b % BOTTOM_SZ := e]];
    forall c: Addr | c != b ensures Look(bots', c) == Look(bots, c) {
      if KeyOf(c) == KeyOf(b) {
        assert c % BOTTOM_SZ != b % BOTTOM_SZ;
      }
    }
  }

  function Jump(n: nat): nat {
    if n > MAX_JUMP then MAX_JUMP else n
  }

  // ---------- Agreement with the partition of the heap into chunks ----------

  /** What the entry for block b should be, given the chunk c that covers it. */
  ghost predicate Inside(e: Entry, part: Blocks, c: Addr, b: Addr)
    requires c in part && c < b
  {
    e == if part[c].free then Nil else Count(Jump(b - c))
  }

  ghost predicate Heads(e: Entry, x: Blk) {
    && e.Hdr? && e.hdr.free == x.free
    && if x.free then e.hdr.sz == x.sz * HBLKSIZE
       else e.hdr.sz > 0 && e.hdr.sz % WORD_BYTES == 0 && BlocksFor(e.hdr.sz) == x.sz
  }

  /** The index says of block b what the partition says. */
  ghost predicate Right(bots: Bottoms, part: Blocks, b: Addr)
    requires Tables(bots)
  {
    && (b in part ==> Heads(Look(bots, b), part[b]))
    && (forall c: Addr :: Covers(part, c, b) && c < b ==> Inside(Look(bots, b), part, c, b))
    && (!Covered(part, b) ==> Look(bots, b) == Nil)
  }

  ghost predicate Agrees(bots: Bottoms, part: Blocks) {
    && Tables(bots) && Apart(part)
    && forall b: Addr :: Right(bots, part, b)
  }

  // ---------- The list of bottom-level tables ----------

  ghost predicate Ascending(s: seq<Bi>) {
    forall i, j :: 0 <= i < j < |s| ==> s[i] < s[j]
  }

  ghost predicate Lists1(s: seq<Bi>, k: Key) {
    k + 1 in s
  }

  ghost predicate Lists(s: seq<Bi>, bots: Bottoms) {
    && Ascending(s)
    && (forall k: Key :: k in bots ==> Lists1(s, k))
    && (forall b :: b in s ==> b > 0 && b - 1 in bots)
  }

  ghost predicate Chained(top: seq<seq<Key>>, bots: Bottoms) {
    && |top| == TOP_SZ
    && (forall i, k :: 0 <= i < TOP_SZ && k in top[i] ==> k in bots)
    && (forall k :: k in bots ==> k in top[k % TOP_SZ])
  }

  /** Linking a new table in between two others. */
  lemma InsertKeeps(next: Links, prev: Links, head: Bi, s: seq<Bi>, k: nat, b: Bi, next': Links, prev': Links)
    requires Linked(next, prev, head, s) && NoDup(s) && k <= |s| && b != 0 && b !in s
    requires var n := next[b := At(s, k)]; next' == if k == 0 then n else n[s[k - 1] := b]
    requires var p := prev[b := At(s, k - 1)]; prev' == if k == |s| then p else p[s[k] := b]
    ensures Linked(next', prev', if k == 0 then b else head, Inserted<Bi>(s, k, b))
  {
    var r := Inserted<Bi>(s, k, b);
    forall j | 0 <= j < |r| ensures Node(next', prev', r, j) {
      if j < k {
        assert Node(next, prev, s, j);
      } else if j > k {
        assert Node(next, prev, s, j - 1);
      }
    }
  }

  lemma LastOfInserted(s: seq<Bi>, k: nat, b: Bi)
    requires k <= |s|
    ensures At(Inserted<Bi>(s, k, b), |Inserted<Bi>(s, k, b)| - 1) == if k == |s| then b else At(s, |s| - 1)
    ensures k < |s| ==> At(s, k) == s[k]
  {
  }

  lemma NullLinks(next: Links, prev: Links, head: Bi, s: seq<Bi>, k: nat)
    requires Linked(next, prev, head, s) && k <= |s|
    ensures At(s, k) == 0 <==> k == |s|
    ensures At(s, k - 1) == 0 <==> k == 0
  {
    assert k < |s| ==> Node(next, prev, s, k);
    assert k > 0 ==> Node(next, prev, s, k - 1);
  }

  lemma InsertAscends(s: seq<Bi>, k: nat, b: Bi)
    requires Ascending(s) && k <= |s|
    requires forall i :: 0 <= i < k ==> s[i] < b
    requires k < |s| ==> b < s[k]
    ensures Ascending(Inserted<Bi>(s, k, b))
    ensures forall x :: x in Inserted<Bi>(s, k, b) <==> x in s || x == b
  {
    var r := Inserted<Bi>(s, k, b);
    forall i, j | 0 <= i < j < |r| ensures r[i] < r[j] {
      var i', j' := if i < k then i else i - 1, if j < k then j else j - 1;
      assert i != k ==> r[i] == s[i'];
      assert j != k ==> r[j] == s[j'];
    }
    forall x ensures x in r <==> x in s || x == b {
      assert x in s <==> x in s[..k] || x in s[k..] by { assert s == s[..k] + s[k..]; }
    }
  }

  lemma NewTable(bots: Bottoms, k: Key)
    requires Tables(bots) && k !in bots
    ensures var bots' := bots[k := NilTable()];
            Tables(bots') && SameLook(bots, bots')
  {
  }

  lemma ListsNew(s: seq<Bi>, bots: Bottoms, k: nat, hi: Key)
    requires Lists(s, bots) && hi !in bots && k <= |s|
    requires forall i :: 0 <= i < k ==> s[i] < hi + 1
    requires k < |s| ==> hi + 1 <= s[k]
    ensures hi + 1 !in s && NoDup(s)
    ensures Lists(Inserted<Bi>(s, k, hi + 1), bots[hi := NilTable()])
  {
    NewKey(s, bots, k, hi);
    InsertAscends(s, k, hi + 1);
    hide Inserted, Ascending, NilTable, NoDup;
    var s', bots' := Inserted<Bi>(s, k, hi + 1), bots[hi := NilTable()];
    forall j: Key | j in bots' ensures Lists1(s', j) {
      assert j != hi ==> Lists1(s, j);
    }
  }

  lemma NewKey(s: seq<Bi>, bots: Bottoms, k: nat, hi: Key)
    requires Lists(s, bots) && hi !in bots
    ensures hi + 1 !in s && NoDup(s)
    ensures k < |s| ==> s[k] != hi + 1
  {
    assert k < |s| ==> s[k] in s;
  }

  ghost function Chain(top: seq<seq<Key>>, hi: Key): seq<seq<Key>>
    requires |top| == TOP_SZ
  {
    top[hi % TOP_SZ := [hi] + top[hi % TOP_SZ]]
  }

  lemma ChainedNew(top: seq<seq<Key>>, bots: Bottoms, hi: Key)
    requires Chained(top, bots)
    ensures |top| == TOP_SZ && Chained(Chain(top, hi), bots[hi := NilTable()])
  {
    var top', bots' := Chain(top, hi), bots[hi := NilTable()];
    forall k | k in bots' ensures k in top'[k % TOP_SZ] {
      assert k != hi ==> k in top[k % TOP_SZ];
    }
  }

  /** Linking in a table for key hi where it belongs. */
  lemma LinkedNew(asc: Links, desc: Links, first: Bi, s: seq<Bi>, bots: Bottoms, k: nat, hi: Key)
    requires Linked(asc, desc, first, s) && Lists(s, bots) && hi !in bots && k <= |s|
    requires forall i :: 0 <= i < k ==> s[i] < hi + 1
    requires k < |s| ==> hi + 1 <= s[k]
    ensures var r: Bi, p, pi := hi + 1, At(s, k), At(s, k - 1);
            var asc' := if pi == 0 then asc[r := p] else asc[r := p][pi := r];
            var desc' := if p == 0 then desc[r := pi] else desc[r := pi][p := r];
            var s' := Inserted<Bi>(s, k, r);
            && Linked(asc', desc', if pi == 0 then r else first, s')
            && Lists(s', bots[hi := NilTable()])
            && At(s', |s'| - 1) == if p == 0 then r else At(s, |s| - 1)
  {
    ListsNew(s, bots, k, hi);
    LastOfInserted(s, k, hi + 1);
    NullLinks(asc, desc, first, s, k);
    hide Linked, Lists, NoDup, Inserted, NilTable;
    var r: Bi, p, pi := hi + 1, At(s, k), At(s, k - 1);
    InsertKeeps(asc, desc, first, s, k, r, if pi == 0 then asc[r := p] else asc[r := p][pi := r],
                if p == 0 then desc[r := pi] else desc[r := pi][p := r]);
  }

  /** One of the blocks of the chunk at which its bottom-level tables are looked up. */
  ghost predicate Stop(h: Addr, n: nat, c: Addr) {
    h <= c < h + n && ((c - h) % BOTTOM_SZ == 0 || c == h + n - 1)
  }

  /** There are tables for the stops before p, which is one itself or past the end. */
  ghost predicate Present(keys: set<Key>, h: Addr, n: nat, p: Addr) {
    && h <= p && (p - h) % BOTTOM_SZ == 0
    && forall b: Addr :: b < p && b < h + n - 1 && Stop(h, n, b) ==> KeyOf(b) in keys
  }

  lemma PresentNone(keys: set<Key>, h: Addr, n: nat)
    ensures Present(keys, h, n, h)
  {
  }

  lemma PresentStep(keys: set<Key>, keys': set<Key>, h: Addr, n: nat, p: Addr)
    requires Present(keys, h, n, p) && keys <= keys' && KeyOf(p) in keys'
    ensures Present(keys', h, n, p) && Present(keys', h, n, p + BOTTOM_SZ)
  {
    assert (p + BOTTOM_SZ - h) % BOTTOM_SZ == 0;
    forall b: Addr | b < p + BOTTOM_SZ && b < h + n - 1 && Stop(h, n, b) ensures KeyOf(b) in keys' {
      assert b < p || b == p;
    }
  }

  /** With a table for the last block as well there are tables for all blocks. */
  lemma PresentAll(keys: set<Key>, keys': set<Key>, h: Addr, n: nat, p: Addr)
    requires n > 0 && Present(keys, h, n, p) && keys <= keys' && KeyOf(h + n - 1) in keys'
    requires p >= h + n || (p >= ADDRESS_BLOCKS - BOTTOM_SZ && KeyOf(p) in keys && h + n <= ADDRESS_BLOCKS)
    ensures forall b: Addr :: h <= b < h + n ==> KeyOf(b) in keys'
  {
    if p < h + n {
      PresentStep(keys, keys, h, n, p);
    }
    forall b: Addr | h <= b < h + n ensures KeyOf(b) in keys' {
      KeyInBetween(h, n, b);
    }
  }

  /** Every block of a chunk shares its table with one of the stops. */
  lemma KeyInBetween(h: Addr, n: nat, b: Addr)
    requires h <= b < h + n
    ensures exists c: Addr :: Stop(h, n, c) && KeyOf(c) == KeyOf(b)
  {
    var q := (b - h) / BOTTOM_SZ;
    var c, d := h + q * BOTTOM_SZ, h + q * BOTTOM_SZ + BOTTOM_SZ;
    assert c <= b < d;
    assert (c - h) % BOTTOM_SZ == 0 && (d - h) % BOTTOM_SZ == 0;
    assert Stop(h, n, c);
    assert Stop(h, n, h + n - 1);
    if d < h + n {
      assert Stop(h, n, d);
    }
  }

  lemma SameLookRefl(a: Bottoms)
    requires Tables(a)
    ensures SameLook(a, a)
  {
  }

  lemma SameLookTrans(a: Bottoms, b: Bottoms, c: Bottoms)
    requires Tables(a) && Tables(b) && Tables(c) && SameLook(a, b) && SameLook(b, c)
    ensures SameLook(a, c)
  {
  }

  // ---------- Changes to the partition ----------

  ghost predicate SameLook(bots: Bottoms, bots': Bottoms)
    requires Tables(bots) && Tables(bots')
  {
    forall b: Addr :: Look(bots', b) == Look(bots, b)
  }

  lemma SameLookAgrees(bots: Bottoms, bots': Bottoms, part: Blocks)
    requires Agrees(bots, part) && Tables(bots') && SameLook(bots, bots')
    ensures Agrees(bots', part)
  {
    forall b: Addr ensures Right(bots', part, b) {
      assert Right(bots, part, b);
    }
  }

  /** Chunk h changes hands: from free to used, or back. */
  lemma Refit(bots: Bottoms, bots': Bottoms, part: Blocks, h: Addr, free: bool)
    requires Agrees(bots, part) && Tables(bots') && h in part
    requires Heads(Look(bots', h), Blk(part[h].sz, free))
    requires forall b: Addr :: h < b < h + part[h].sz ==> Look(bots', b) == if free then Nil else Count(Jump(b - h))
    requires forall b: Addr :: b < h || b >= h + part[h].sz ==> Look(bots', b) == Look(bots, b)
    ensures Agrees(bots', part[h := Blk(part[h].sz, free)])
  {
    var part' := part[h := Blk(part[h].sz, free)];
    forall b: Addr ensures Right(bots', part', b) {
      assert Right(bots, part, b);
      assert forall c :: Covers(part', c, b) <==> Covers(part, c, b);
      if h <= b < h + part[h].sz {
        assert Covers(part', h, b);
      }
    }
  }

  lemma Grown(bots: Bottoms, bots': Bottoms, part: Blocks, h: Addr, n: nat)
    requires Agrees(bots, part) && Tables(bots') && h > 0 && n > 0
    requires forall b: Addr :: h <= b < h + n ==> !Covered(part, b)
    requires OnlyAt(bots, bots', h, Hdr(Header(n * HBLKSIZE, true)))
    ensures Agrees(bots', part[h := Blk(n, true)])
  {
    var part' := part[h := Blk(n, true)];
    forall b | b in part ensures b + part[b].sz <= h || h + n <= b {
      if b < h < b + part[b].sz {
        assert Covers(part, b, h);
        assert Covered(part, h);
      } else if h <= b < h + n {
        assert Covers(part, b, b);
        assert Covered(part, b);
      }
    }
    forall b: Addr ensures Right(bots', part', b) {
      assert Right(bots, part, b);
      if h <= b < h + n {
        assert Covers(part', h, b);
      }
      assert forall c :: c != h ==> (Covers(part', c, b) <==> Covers(part, c, b));
    }
  }

  lemma CutAgrees(bots: Bottoms, bots1: Bottoms, bots': Bottoms, part: Blocks, h: Addr, n: Addr)
    requires Agrees(bots, part) && Tables(bots1) && Tables(bots')
    requires h in part && part[h].free && h < n < h + part[h].sz
    requires OnlyAt(bots, bots1, n, Hdr(Header((h + part[h].sz - n) * HBLKSIZE, true)))
    requires OnlyAt(bots1, bots', h, Hdr(Header((n - h) * HBLKSIZE, true)))
    ensures Agrees(bots', Cut(part, h, n))
  {
    assert n !in part;
    assert Apart(Cut(part, h, n));
    hide Right, Apart, Look;
    forall b: Addr ensures Right(bots', Cut(part, h, n), b) {
      CutRight(bots, bots', part, h, n, b);
    }
  }

  lemma CutRight(bots: Bottoms, bots': Bottoms, part: Blocks, h: Addr, n: Addr, b: Addr)
    requires Tables(bots) && Tables(bots') && Right(bots, part, b) && Apart(part)
    requires h in part && part[h].free && h < n < h + part[h].sz && n !in part
    requires Look(bots', b) == if b == n then Hdr(Header((h + part[h].sz - n) * HBLKSIZE, true))
                               else if b == h then Hdr(Header((n - h) * HBLKSIZE, true)) else Look(bots, b)
    ensures Right(bots', Cut(part, h, n), b)
  {
    var part' := Cut(part, h, n);
    CutCovers(part, h, n, b);
    assert forall c :: c != h && c != n ==> (Covers(part', c, b) <==> Covers(part, c, b));
    assert Covers(part', n, b) || Covers(part', h, b) ==> Covers(part, h, b);
    hide Look, Covered;
  }

  lemma JoinAgrees(bots: Bottoms, bots1: Bottoms, bots': Bottoms, part: Blocks, a: Addr, b: Addr)
    requires Agrees(bots, part) && Tables(bots1) && Tables(bots')
    requires a in part && b in part && part[a].free && part[b].free && b == a + part[a].sz
    requires OnlyAt(bots, bots1, b, Nil)
    requires OnlyAt(bots1, bots', a, Hdr(Header((part[a].sz + part[b].sz) * HBLKSIZE, true)))
    ensures Agrees(bots', Joined(part, a, b))
  {
    assert Apart(Joined(part, a, b));
    hide Right, Apart, Look;
    forall m: Addr ensures Right(bots', Joined(part, a, b), m) {
      JoinRight(bots, bots', part, a, b, m);
    }
  }

  lemma JoinRight(bots: Bottoms, bots': Bottoms, part: Blocks, a: Addr, b: Addr, m: Addr)
    requires Tables(bots) && Tables(bots') && Right(bots, part, m) && Apart(part)
    requires a in part && b in part && part[a].free && part[b].free && b == a + part[a].sz
    requires Look(bots', m) == if m == a then Hdr(Header((part[a].sz + part[b].sz) * HBLKSIZE, true))
                               else if m == b then Nil else Look(bots, m)
    ensures Right(bots', Joined(part, a, b), m)
  {
    var part' := Joined(part, a, b);
    JoinedCovers(part, a, b, m);
    assert forall c :: c != a && c != b ==> (Covers(part', c, m) <==> Covers(part, c, m));
    assert Covers(part', a, m) ==> Covers(part, a, m) || Covers(part, b, m);
    hide Look, Covered;
  }

  /** The entries of the blocks after h and before `end` were filled in: with nil, or with counts. */
  ghost predicate Filled(bots: Bottoms, bots': Bottoms, h: Addr, end: Addr, free: bool)
    requires Tables(bots) && Tables(bots')
  {
    && (forall b: Addr :: h < b < end ==> Look(bots', b) == if free then Nil else Count(Jump(b - h)))
    && (forall b: Addr :: b <= h || b >= end ==> Look(bots', b) == Look(bots, b))
  }

  lemma FillNone(bots: Bottoms, h: Addr, free: bool)
    requires Tables(bots)
    ensures Filled(bots, bots, h, h + 1, free)
  {
  }

  lemma FilledSame(bots0: Bottoms, bots: Bottoms, bots': Bottoms, h: Addr, end: Addr)
    requires Tables(bots0) && Tables(bots) && Tables(bots') && SameLook(bots0, bots)
    requires Filled(bots, bots', h, end, false)
    ensures Filled(bots0, bots', h, end, false)
  {
  }

  lemma FillOne(bots: Bottoms, bots1: Bottoms, bots': Bottoms, h: Addr, p: Addr, free: bool)
    requires Tables(bots) && Tables(bots1) && Tables(bots') && h < p
    requires Filled(bots, bots1, h, p, free)
    requires OnlyAt(bots1, bots', p, if free then Nil else Count(Jump(p - h)))
    ensures Filled(bots, bots', h, p + 1, free)
  {
    hide Look;
  }

  lemma FilledKeys(bots: Bottoms, bots': Bottoms, h: Addr, n: nat)
    requires Tables(bots) && Tables(bots') && Filled(bots, bots', h, h + n, false)
    ensures forall b: Addr :: h < b < h + n ==> KeyOf(b) in bots'
  {
    forall b: Addr | h < b < h + n ensures KeyOf(b) in bots' {
      assert Look(bots', b) == Count(Jump(b - h));
    }
  }

  /** Filling a free chunk with counts and then with nil again changes nothing. */
  lemma Unfilled(bots: Bottoms, bots1: Bottoms, bots': Bottoms, part: Blocks, h: Addr)
    requires Agrees(bots, part) && Tables(bots1) && Tables(bots') && FreeAt(part, h)
    requires Filled(bots, bots1, h, h + part[h].sz, false) && Filled(bots1, bots', h, h + part[h].sz, true)
    ensures SameLook(bots, bots')
  {
    forall b: Addr ensures Look(bots', b) == Look(bots, b) {
      if h < b < h + part[h].sz {
        assert Right(bots, part, b) && Covers(part, h, b);
      }
    }
  }

  // ---------- Sizes of objects ----------

  /** The sizes of objects, for each chunk in use. */
  ghost function SizesIn(bots: Bottoms, part: Blocks): map<Addr, nat>
    requires Tables(bots)
  {
    map c | c in part && !part[c].free :: SizeAt(bots, c)
  }

  lemma SizesSame(bots: Bottoms, bots': Bottoms, part: Blocks, part': Blocks)
    requires Tables(bots) && Tables(bots')
    requires forall c :: UsedAt(part, c) <==> UsedAt(part', c)
    requires forall c :: UsedAt(part, c) ==> Look(bots', c) == Look(bots, c)
    ensures SizesIn(bots', part') == SizesIn(bots, part)
  {
    hide Look;
    forall c ensures c in SizesIn(bots', part') <==> c in SizesIn(bots, part) {
      assert UsedAt(part, c) <==> UsedAt(part', c);
    }
    forall c | c in SizesIn(bots, part) ensures SizesIn(bots', part')[c] == SizesIn(bots, part)[c] {
      assert UsedAt(part, c);
    }
  }

  lemma SameLookSizes(bots: Bottoms, bots': Bottoms, part: Blocks)
    requires Tables(bots) && Tables(bots') && SameLook(bots, bots')
    ensures SizesIn(bots', part) == SizesIn(bots, part)
  {
    SizesSame(bots, bots', part, part);
  }

  lemma GrownSizes(bots: Bottoms, bots': Bottoms, part: Blocks, h: Addr, n: nat, e: Entry)
    requires Tables(bots) && Tables(bots') && OnlyAt(bots, bots', h, e) && h !in part
    ensures SizesIn(bots', part[h := Blk(n, true)]) == SizesIn(bots, part)
  {
    hide Look;
    SizesSame(bots, bots', part, part[h := Blk(n, true)]);
  }

  lemma CutSizes(bots: Bottoms, bots1: Bottoms, bots': Bottoms, part: Blocks, h: Addr, n: Addr, e: Entry, f: Entry)
    requires Tables(bots) && Tables(bots1) && Tables(bots') && OnlyAt(bots, bots1, n, e) && OnlyAt(bots1, bots', h, f)
    requires Apart(part) && FreeAt(part, h) && h < n < h + part[h].sz
    ensures SizesIn(bots', Cut(part, h, n)) == SizesIn(bots, part)
  {
    hide Look;
    SizesSame(bots, bots', part, Cut(part, h, n));
  }

  lemma JoinSizes(bots: Bottoms, bots1: Bottoms, bots': Bottoms, part: Blocks, a: Addr, b: Addr, e: Entry, f: Entry)
    requires Tables(bots) && Tables(bots1) && Tables(bots') && OnlyAt(bots, bots1, b, e) && OnlyAt(bots1, bots', a, f)
    requires FreeAt(part, a) && FreeAt(part, b)
    ensures SizesIn(bots', Joined(part, a, b)) == SizesIn(bots, part)
  {
    hide Look;
    SizesSame(bots, bots', part, Joined(part, a, b));
  }

  /** Chunk h changes hands. */
  lemma RefitSizes(bots: Bottoms, bots': Bottoms, part: Blocks, h: Addr, free: bool)
    requires Tables(bots) && Tables(bots') && Apart(part) && h in part && part[h].free != free
    requires forall b: Addr :: b < h || h + part[h].sz <= b ==> Look(bots', b) == Look(bots, b)
    ensures SizesIn(bots', part[h := Blk(part[h].sz, free)]) ==
            if free then SizesIn(bots, part) - {h} else SizesIn(bots, part)[h := SizeAt(bots', h)]
  {
    hide Look;
    var part' := part[h := Blk(part[h].sz, free)];
    forall c | c in part && c != h ensures Look(bots', c) == Look(bots, c) {
    }
    assert SizesIn(bots', part').Keys ==
           if free then SizesIn(bots, part).Keys - {h} else SizesIn(bots, part).Keys + {h};
  }

  lemma StillApart(bots: Bottoms, part: Blocks)
    requires Agrees(bots, part)
    ensures Apart(part)
  {
  }

  lemma NotThere(part: Blocks, h: Addr, n: nat)
    requires Apart(part) && n > 0 && forall b: Addr :: h <= b < h + n ==> !Covered(part, b)
    ensures h !in part
  {
    if h in part {
      assert Covers(part, h, h);
      assert Covered(part, h);
    }
  }

  // ---------- Reading the index ----------

  /** Chunk c is the one that block b is in, and it started before b. */
  ghost predicate Middle(part: Blocks, c: Addr, b: Addr) {
    Covers(part, c, b) && c < b
  }

  /** What an entry tells about the partition. */
  lemma Reading(bots: Bottoms, part: Blocks, b: Addr)
    requires Agrees(bots, part)
    ensures Look(bots, b).Hdr? <==> b in part
    ensures b in part ==> b > 0 && Heads(Look(bots, b), part[b])
    ensures Look(bots, b).Count? ==>
              exists c :: Middle(part, c, b) && !part[c].free && Look(bots, b) == Count(Jump(b - c))
    ensures Look(bots, b).Nil? ==> b !in part && forall c :: Covers(part, c, b) ==> part[c].free
    ensures Look(bots, b) != Nil ==> KeyOf(b) in bots
  {
    assert Right(bots, part, b);
    if b in part {
      assert Covers(part, b, b);
    } else if Covered(part, b) {
      var c :| Covers(part, c, b);
      assert Inside(Look(bots, b), part, c, b);
      assert Middle(part, c, b);
    }
  }

  lemma MiddleCounts(bots: Bottoms, part: Blocks, c: Addr, b: Addr)
    requires Agrees(bots, part) && c in part && !part[c].free && c < b < c + part[c].sz
    ensures Look(bots, b) == Count(Jump(b - c))
  {
    assert Right(bots, part, b);
    assert Covers(part, c, b);
  }

  /** No chunk starts between the start of another one and a block in the middle of it. */
  lemma NoStartBetween(part: Blocks, c: Addr, b: Addr)
    requires Apart(part) && Middle(part, c, b)
    ensures forall s :: s in part && s <= b ==> s <= c
  {
  }

  /** Is bi the table at position k of the list, or the null pointer at either end of it? */
  ghost predicate Here(s: seq<Bi>, k: int, bi: Bi) {
    -1 <= k <= |s| && bi == At(s, k)
  }

  /** The tables of all the chunks are on the list; so none starts in between two neighbours on it. */
  lemma StartOnList(s: seq<Bi>, bots: Bottoms, part: Blocks, b: Addr)
    requires Lists(s, bots) && Agrees(bots, part) && b in part
    ensures exists i :: 0 <= i < |s| && s[i] == KeyOf(b) + 1
  {
    Reading(bots, part, b);
    assert Lists1(s, KeyOf(b));
  }

  /** If no chunk from h on starts before the end of table k, none starts before table k + 1. */
  lemma NextTable(s: seq<Bi>, bots: Bottoms, part: Blocks, k: int, b: Addr)
    requires Lists(s, bots) && Agrees(bots, part) && b in part && -1 <= k < |s|
    requires k >= 0 ==> b >= s[k] * BOTTOM_SZ
    ensures k + 1 < |s| && b >= (s[k + 1] - 1) * BOTTOM_SZ
  {
    StartOnList(s, bots, part, b);
    hide Agrees, Look;
    var i :| 0 <= i < |s| && s[i] == KeyOf(b) + 1;
    assert i > k;
    assert s[k + 1] <= s[i];
  }

  lemma PrevTable(s: seq<Bi>, bots: Bottoms, part: Blocks, k: int, b: Addr)
    requires Lists(s, bots) && Agrees(bots, part) && b in part && 0 <= k <= |s|
    requires k < |s| ==> b < (s[k] - 1) * BOTTOM_SZ
    ensures 0 <= k - 1 && b < s[k - 1] * BOTTOM_SZ
  {
    StartOnList(s, bots, part, b);
    hide Agrees, Look;
    var i :| 0 <= i < |s| && s[i] == KeyOf(b) + 1;
    assert i < k;
    assert s[i] <= s[k - 1];
  }

  ghost predicate UsedAt(part: Blocks, b: Addr) {
    b in part && !part[b].free
  }

  /** The used chunks from h on all start at pos or after. */
  ghost predicate NoneBefore(part: Blocks, h: Addr, pos: int) {
    forall b: Addr :: UsedAt(part, b) && b >= h ==> b >= pos
  }

  lemma NoneBeforeAll(part: Blocks, h: Addr)
    ensures forall pos :: pos <= h ==> NoneBefore(part, h, pos)
  {
  }

  lemma NoneBeforeStep(bots: Bottoms, part: Blocks, h: Addr, pos: Addr)
    requires Agrees(bots, part) && NoneBefore(part, h, pos)
    ensures var e := Look(bots, pos);
            !e.Hdr? ==> NoneBefore(part, h, pos + 1)
    ensures var e := Look(bots, pos);
            e.Hdr? && e.hdr.free ==> NoneBefore(part, h, pos + e.hdr.sz / HBLKSIZE) && e.hdr.sz / HBLKSIZE > 0
  {
    Reading(bots, part, pos);
  }

  lemma NoneBeforeTable(s: seq<Bi>, bots: Bottoms, part: Blocks, k: int, h: Addr)
    requires Lists(s, bots) && Agrees(bots, part) && -1 <= k < |s|
    requires NoneBefore(part, h, if k < 0 then h else s[k] * BOTTOM_SZ)
    ensures if k + 1 < |s| then NoneBefore(part, h, (s[k + 1] - 1) * BOTTOM_SZ)
            else forall b: Addr :: UsedAt(part, b) ==> b < h
  {
    forall b: Addr | UsedAt(part, b) && b >= h ensures k + 1 < |s| && b >= (s[k + 1] - 1) * BOTTOM_SZ {
      NextTable(s, bots, part, k, b);
    }
  }

  /** The chunks that start at h or before all start at pos or before. */
  ghost predicate NoneAfter(part: Blocks, h: Addr, pos: int) {
    forall b :: b in part && b <= h ==> b <= pos
  }

  lemma NoneAfterAll(part: Blocks, h: Addr)
    ensures forall pos :: pos >= h ==> NoneAfter(part, h, pos)
  {
  }

  lemma NoneAfterStep(bots: Bottoms, part: Blocks, h: Addr, pos: Addr)
    requires Agrees(bots, part) && NoneAfter(part, h, pos) && pos <= h
    ensures Look(bots, pos).Nil? ==> NoneAfter(part, h, pos - 1)
    ensures Look(bots, pos).Count? ==> NoneAfter(part, h, pos - Look(bots, pos).n) && Look(bots, pos).n > 0
  {
    Reading(bots, part, pos);
    if Look(bots, pos).Count? {
      var c :| Middle(part, c, pos) && Look(bots, pos) == Count(Jump(pos - c));
      NoStartBetween(part, c, pos);
    }
  }

  lemma NoneAfterTable(s: seq<Bi>, bots: Bottoms, part: Blocks, k: int, h: Addr)
    requires Lists(s, bots) && Agrees(bots, part) && 0 <= k <= |s|
    requires NoneAfter(part, h, if k < |s| then (s[k] - 1) * BOTTOM_SZ - 1 else h)
    ensures if k > 0 then NoneAfter(part, h, s[k - 1] * BOTTOM_SZ - 1) else forall b :: b in part ==> b > h
  {
    forall b | b in part && b <= h ensures k > 0 && b <= s[k - 1] * BOTTOM_SZ - 1 {
      PrevTable(s, bots, part, k, b);
    }
  }

  lemma LinksAt(next: Links, prev: Links, head: Bi, s: seq<Bi>, bots: Bottoms, k: int)
    requires Linked(next, prev, head, s) && Lists(s, bots) && 0 <= k < |s|
    ensures s[k] in next && next[s[k]] == At(s, k + 1)
    ensures s[k] in prev && prev[s[k]] == At(s, k - 1)
    ensures s[k] > 0 && s[k] - 1 in bots
  {
    assert Node(next, prev, s, k);
    assert s[k] in s;
  }

  lemma TableOrder(s: seq<Bi>, bots: Bottoms, k: int)
    requires Lists(s, bots) && 0 <= k < |s| - 1
    ensures s[k] < s[k + 1]
  {
  }

  // ---------- Visiting every used chunk ----------

  /** The chunks visited are the used ones below table `base`, and those of that table after its j-th entry. */
  ghost predicate Visited(part: Blocks, out: seq<Addr>, base: Addr, j: int) {
    && NoDup(out)
    && forall b: Addr :: b in out <==> UsedAt(part, b) && (b < base || base + j < b < base + BOTTOM_SZ)
  }

  /** Going back n blocks does not pass a used chunk. */
  lemma VisitedBack(bots: Bottoms, part: Blocks, out: seq<Addr>, base: Addr, j: nat)
    requires Agrees(bots, part) && Visited(part, out, base, j) && j < BOTTOM_SZ
    ensures var e := Look(bots, base + j);
            && (e.Nil? || (e.Hdr? && e.hdr.free) ==> Visited(part, out, base, j - 1))
            && (e.Hdr? && !e.hdr.free ==> Visited(part, out + [base + j], base, j - 1))
            && (e.Count? ==> e.n > 0 && Visited(part, out, base, j - e.n))
  {
    Reading(bots, part, base + j);
    var e := Look(bots, base + j);
    if e.Count? {
      var c :| Middle(part, c, base + j) && e == Count(Jump(base + j - c));
      NoStartBetween(part, c, base + j);
    } else if e.Hdr? && !e.hdr.free {
      assert base + j !in out;
      assert forall b :: b in out + [base + j] <==> b in out || b == base + j;
      assert NoDup(out + [base + j]);
    }
  }

  lemma VisitedTable(s: seq<Bi>, bots: Bottoms, part: Blocks, out: seq<Addr>, k: nat, j: int)
    requires Lists(s, bots) && Agrees(bots, part) && k < |s| && s[k] > 0 && j < 0
    requires Visited(part, out, (s[k] - 1) * BOTTOM_SZ, j)
    ensures k + 1 < |s| ==> s[k + 1] > 0 && Visited(part, out, (s[k + 1] - 1) * BOTTOM_SZ, BOTTOM_SZ - 1)
    ensures k + 1 == |s| ==> NoDup(out) && forall b: Addr :: b in out <==> UsedAt(part, b)
  {
    forall b: Addr | UsedAt(part, b) && b >= s[k] * BOTTOM_SZ
      ensures k + 1 < |s| && b >= (s[k + 1] - 1) * BOTTOM_SZ
    {
      NextTable(s, bots, part, k, b);
    }
    if k + 1 < |s| {
      assert s[k] < s[k + 1];
    }
  }

  // ---------- Object slots ----------

  function Max(a: nat, b: nat): nat {
    if a > b then a else b
  }

  /** Objects of size sz lie side by side from the start of chunk c, as many as fit in a block, but at least one. */
  predicate IsSlot(c: Addr, sz: nat, x: nat) {
    sz > 0 && c * HBLKSIZE <= x && (x - c * HBLKSIZE) % sz == 0 && x + sz <= c * HBLKSIZE + Max(HBLKSIZE, sz)
  }

  ghost function SizeAt(bots: Bottoms, c: Addr): nat
    requires Tables(bots)
  {
    if Look(bots, c).Hdr? then Look(bots, c).hdr.sz else 0
  }

  lemma SizeIs(bots: Bottoms, c: Addr)
    requires Tables(bots) && Look(bots, c).Hdr?
    ensures SizeAt(bots, c) == Look(bots, c).hdr.sz
  {
  }

  /** Address p is inside the object slot that starts at x in the used chunk c. */
  ghost predicate Holds(bots: Bottoms, part: Blocks, c: Addr, x: nat, p: nat)
    requires Tables(bots)
  {
    UsedAt(part, c) && IsSlot(c, SizeAt(bots, c), x) && x <= p < x + SizeAt(bots, c)
  }

  lemma HoldsCovers(bots: Bottoms, part: Blocks, c: Addr, x: nat, p: nat)
    requires Agrees(bots, part) && Holds(bots, part, c, x, p)
    ensures Covers(part, c, p / HBLKSIZE)
  {
    Reading(bots, part, c);
    var n := BlocksFor(SizeAt(bots, c));
    assert SizeAt(bots, c) <= n * HBLKSIZE;
    assert p < c * HBLKSIZE + n * HBLKSIZE;
  }

  lemma Remainders(a: nat, sz: nat)
    requires sz > 0
    ensures 0 <= a % HBLKSIZE % sz <= a % HBLKSIZE <= a
  {
    var o := a % HBLKSIZE;
    assert o == o / sz * sz + o % sz;
    Times(0, o / sz, sz);
  }

  lemma MultipleOfWord(i: nat, sz: nat)
    requires sz % WORD_BYTES == 0
    ensures (i * sz) % WORD_BYTES == 0
  {
    var w := sz / WORD_BYTES;
    assert i * sz == (i * w) * WORD_BYTES;
  }

  /** The slot that holds p, small objects: round down to a word, then to a multiple of the size. */
  lemma SmallSlot(c: Addr, sz: nat, x: nat, p: nat)
    requires 0 < sz <= HBLKSIZE && sz % WORD_BYTES == 0 && IsSlot(c, sz, x) && x <= p < x + sz
    ensures p / HBLKSIZE == c
    ensures var a := p - p % WORD_BYTES; a - a % HBLKSIZE % sz == x
  {
    var d := x - c * HBLKSIZE;
    var i := d / sz;
    assert d == i * sz;
    MultipleOfWord(i, sz);
    hide IsSlot;
    AlignedBelow(c, d, sz, p);
    Remainder(p - p % WORD_BYTES - c * HBLKSIZE, sz, i);
  }

  /** Rounding down to a word stays at or above a multiple of the word size. */
  lemma AlignedBelow(c: Addr, d: nat, sz: nat, p: nat)
    requires d % WORD_BYTES == 0 && d + sz <= HBLKSIZE
    requires c * HBLKSIZE + d <= p < c * HBLKSIZE + d + sz
    ensures p / HBLKSIZE == c
    ensures var a := p - p % WORD_BYTES; c * HBLKSIZE + d <= a && a % HBLKSIZE == a - c * HBLKSIZE
  {
    var w := d / WORD_BYTES;
    assert d == w * WORD_BYTES;
    WordBelow(c, w, p);
    InBlock(c, p);
    InBlock(c, p - p % WORD_BYTES);
  }

  lemma WordBelow(c: Addr, w: nat, p: nat)
    requires c * HBLKSIZE + w * WORD_BYTES <= p
    ensures c * HBLKSIZE + w * WORD_BYTES <= p - p % WORD_BYTES
  {
    var u := p / WORD_BYTES;
    assert p == u * WORD_BYTES + p % WORD_BYTES;
    assert u >= 512 * c + w;
  }

  lemma InBlock(c: Addr, p: nat)
    requires c * HBLKSIZE <= p < c * HBLKSIZE + HBLKSIZE
    ensures p / HBLKSIZE == c && p % HBLKSIZE == p - c * HBLKSIZE
  {
  }

  lemma LargeSlot(c: Addr, sz: nat, x: nat)
    requires sz > HBLKSIZE && IsSlot(c, sz, x)
    ensures x == c * HBLKSIZE
  {
  }

  /** Conversely, what rounding yields is a slot if it fits. */
  lemma Rounded(c: Addr, sz: nat, p: nat)
    requires sz > 0 && p / HBLKSIZE == c
    ensures var a := p - p % WORD_BYTES; var x := a - a % HBLKSIZE % sz;
            && c * HBLKSIZE <= x <= p && (x - c * HBLKSIZE) % sz == 0
            && (sz > HBLKSIZE ==> x == c * HBLKSIZE)
  {
    var a := p - p % WORD_BYTES;
    var o := a % HBLKSIZE;
    assert a / HBLKSIZE == c;
    assert a == c * HBLKSIZE + o;
    var q := o / sz;
    assert o == q * sz + o % sz;
    Times(0, q, sz);
    Remainder(q * sz, sz, q);
  }

  lemma NothingVisited(s: seq<Bi>, bots: Bottoms, part: Blocks)
    requires Lists(s, bots) && Agrees(bots, part)
    ensures |s| > 0 ==> s[0] > 0 && Visited(part, [], (s[0] - 1) * BOTTOM_SZ, BOTTOM_SZ - 1)
    ensures |s| == 0 ==> NoDup([]) && forall b: Addr :: b in [] <==> UsedAt(part, b)
  {
    forall b: Addr | UsedAt(part, b) ensures |s| > 0 && b >= (s[0] - 1) * BOTTOM_SZ {
      NextTable(s, bots, part, -1, b);
    }
    assert |s| > 0 ==> s[0] in s;
  }

  lemma FindChunk(bots: Bottoms, part: Blocks, h: Addr) returns (c: Addr)
    requires Agrees(bots, part) && Look(bots, h) != Nil
    ensures Covers(part, c, h) && (c == h || !part[c].free)
  {
    Reading(bots, part, h);
    if Look(bots, h).Hdr? {
      c := h;
    } else {
      c :| Middle(part, c, h) && !part[c].free;
    }
  }

  lemma HeadOrMiddle(bots: Bottoms, part: Blocks, c: Addr, h: Addr)
    requires Agrees(bots, part) && Covers(part, c, h) && (c == h || !part[c].free)
    ensures Look(bots, h).Count? ==> c < h && 0 < Look(bots, h).n <= h - c
    ensures !Look(bots, h).Count? ==> c == h && Look(bots, h).Hdr?
  {
    if c == h {
      Reading(bots, part, h);
    } else {
      MiddleCounts(bots, part, c, h);
    }
  }

  /** Only the chunk that covers p can have a slot for it. */
  lemma OnlyHolder(bots: Bottoms, part: Blocks, c: Addr, p: nat)
    requires Agrees(bots, part) && Covers(part, c, p / HBLKSIZE)
    ensures forall d: Addr, x: nat :: Holds(bots, part, d, x, p) ==> d == c && !part[c].free
  {
    forall d: Addr, x: nat | Holds(bots, part, d, x, p) ensures d == c && !part[c].free {
      HoldsCovers(bots, part, d, x, p);
    }
  }

  lemma NotHeld(bots: Bottoms, part: Blocks, p: nat)
    requires Agrees(bots, part) && Look(bots, p / HBLKSIZE).Nil?
    ensures forall d: Addr, x: nat :: !Holds(bots, part, d, x, p)
  {
    forall d: Addr, x: nat ensures !Holds(bots, part, d, x, p) {
      if Holds(bots, part, d, x, p) {
        HoldsCovers(bots, part, d, x, p);
        Reading(bots, part, p / HBLKSIZE);
      }
    }
  }

  /** Rounding down gives the slot of p in the chunk that covers it, if there is one. */
  ghost function RoundDown(c: Addr, sz: nat, p: nat): nat
    requires sz > 0
  {
    var a := if p / HBLKSIZE == c then p - p % WORD_BYTES else c * HBLKSIZE;
    Remainders(a, sz);
    a - a % HBLKSIZE % sz
  }

  lemma RoundedHolds(bots: Bottoms, part: Blocks, c: Addr, p: nat)
    requires Agrees(bots, part) && Covers(part, c, p / HBLKSIZE) && !part[c].free
    ensures SizeAt(bots, c) > 0
    ensures forall d: Addr, x: nat :: Holds(bots, part, d, x, p) ==> d == c && x == RoundDown(c, SizeAt(bots, c), p)
    ensures var sz := SizeAt(bots, c); var x := RoundDown(c, sz, p);
            Holds(bots, part, c, x, p) <==> p < x + sz && (x + sz <= (c + 1) * HBLKSIZE || sz > HBLKSIZE)
  {
    Reading(bots, part, c);
    OnlyHolder(bots, part, c, p);
    var sz := SizeAt(bots, c);
    hide Agrees, Look, Apart;
    forall d: Addr, x: nat | Holds(bots, part, d, x, p) ensures x == RoundDown(c, sz, p) {
      if sz <= HBLKSIZE {
        SmallSlot(c, sz, x, p);
      } else {
        LargeSlot(c, sz, x);
        RoundsTo(c, sz, p);
      }
    }
    RoundsTo(c, sz, p);
  }

  lemma RoundsTo(c: Addr, sz: nat, p: nat)
    requires sz > 0 && p >= c * HBLKSIZE
    requires p / HBLKSIZE != c ==> sz > HBLKSIZE
    ensures var x := RoundDown(c, sz, p);
            c * HBLKSIZE <= x <= p && (x - c * HBLKSIZE) % sz == 0 && (sz > HBLKSIZE ==> x == c * HBLKSIZE)
  {
    if p / HBLKSIZE == c {
      Rounded(c, sz, p);
    } else {
      assert c * HBLKSIZE % HBLKSIZE == 0;
      assert 0 % sz == 0;
    }
  }

  class Index {
    var top: seq<seq<Key>>  // GC_top_index: hash chains of bottom-level tables
    var bots: Bottoms       // their contents
    var asc: Links          // asc_link
    var desc: Links         // desc_link
    var first: Bi           // GC_all_bottom_indices
    var last: Bi            // GC_all_bottom_indices_end

    ghost var keys: seq<Bi>  // the tables in ascending order
    ghost var part: Blocks   // the chunks that make up the heap

    ghost predicate Shape()
      reads this
    {
      && Tables(bots) && Lists(keys, bots) && Chained(top, bots)
      && Linked(asc, desc, first, keys) && last == At(keys, |keys| - 1)
    }

    ghost predicate Valid()
      reads this
    {
      Shape() && Agrees(bots, part)
    }

    /** The sizes of objects, for each chunk in use. */
    ghost function Sizes(): map<Addr, nat>
      requires Shape()
      reads this
    {
      SizesIn(bots, part)
    }

    /** GC_init_headers */
    constructor ()
      ensures Valid() && part == map[]
    {
      part := map[];
      top, bots := seq(TOP_SZ, i => []), map[];
      asc, desc, first, last, keys := map[], map[], 0, 0, [];
    }

    /** GET_BI: is there a bottom-level table with this key? */
    method GetBi(k: Key) returns (found: bool)
      requires Shape()
      ensures found <==> k in bots
    {
      var chain := top[k % TOP_SZ];
      var i := 0;
      while i < |chain| && chain[i] != k
        invariant 0 <= i <= |chain|
        invariant k !in chain[..i]
      {
        i := i + 1;
      }
      found := i < |chain|;
      if !found {
        assert chain[..i] == chain;
      }
    }

    /** HDR */
    method GetHdr(b: Addr) returns (e: Entry)
      requires Shape()
      ensures e == Look(bots, b)
    {
      var found := GetBi(KeyOf(b));
      e := if found then bots[KeyOf(b)][b % BOTTOM_SZ] else Nil;
    }

    /** SET_HDR */
    method SetHdr(b: Addr, e: Entry)
      requires Shape() && KeyOf(b) in bots
      modifies this`bots
      ensures Shape() && bots.Keys == old(bots).Keys
      ensures OnlyAt(old(bots), bots, b, e)
    {
      SetAt(bots, b, e);
      bots := bots[KeyOf(b) := bots[KeyOf(b)][b % BOTTOM_SZ := e]];
    }

    /** get_index: make sure that there is a bottom-level table for block b; allocating it may fail unless there is
        memory. */
    method GetIndex(b: Addr, memory: bool) returns (ok: bool)
      requires Shape()
      modifies this`top, this`bots, this`asc, this`desc, this`first, this`last, this`keys
      ensures Shape() && SameLook(old(bots), bots) && old(bots).Keys <= bots.Keys
      ensures ok ==> KeyOf(b) in bots
      ensures memory ==> ok
    {
      var hi := KeyOf(b);
      ok := GetBi(hi);
      if ok {
        return;
      }
      var given: bool := *;
      ok := memory || given;
      if !ok {
        return;
      }
      var p, pi := first, 0;
      ghost var k := 0;
      while p != 0 && p - 1 < hi
        invariant 0 <= k <= |keys| && p == At(keys, k) && pi == At(keys, k - 1)
        invariant forall i :: 0 <= i < k ==> keys[i] < hi + 1
        decreases |keys| - k
      {
        assert Node(asc, desc, keys, k);
        pi, p, k := p, asc[p], k + 1;
      }
      assert k < |keys| ==> keys[k] in keys;
      Link(hi, pi, p, k);
    }

    /** The new table goes between the one at position k and the one before it. */
    method Link(hi: Key, pi: Bi, p: Bi, ghost k: nat)
      requires Shape() && hi !in bots && k <= |keys|
      requires p == At(keys, k) && pi == At(keys, k - 1)
      requires forall i :: 0 <= i < k ==> keys[i] < hi + 1
      requires k < |keys| ==> hi + 1 <= keys[k]
      modifies this`top, this`bots, this`asc, this`desc, this`first, this`last, this`keys
      ensures Shape() && SameLook(old(bots), bots) && bots.Keys == old(bots).Keys + {hi}
    {
      hide Linked, Lists, SameLook, Tables, Chained, NilTable;
      NewTable(bots, hi);
      ChainedNew(top, bots, hi);
      LinkedNew(asc, desc, first, keys, bots, k, hi);
      var r: Bi := hi + 1;
      var asc', desc' := asc[r := p], desc[r := pi];
      if p != 0 {
        desc' := desc'[p := r];
      }
      if pi != 0 {
        asc' := asc'[pi := r];
      }
      Update(hi, asc', desc', if pi == 0 then r else first, if p == 0 then r else last, Inserted<Bi>(keys, k, r));
    }

    method Update(hi: Key, asc': Links, desc': Links, first': Bi, last': Bi, ghost keys': seq<Bi>)
      requires |top| == TOP_SZ
      requires Lists(keys', bots[hi := NilTable()]) && Chained(Chain(top, hi), bots[hi := NilTable()])
      requires Linked(asc', desc', first', keys') && last' == At(keys', |keys'| - 1)
      requires Tables(bots[hi := NilTable()])
      modifies this`top, this`bots, this`asc, this`desc, this`first, this`last, this`keys
      ensures Shape() && bots == old(bots)[hi := NilTable()]
    {
      hide Linked, Lists, Tables, Chained, NilTable, At;
      asc, desc, first, last, keys := asc', desc', first', last', keys';
      top, bots := top[hi % TOP_SZ := [hi] + top[hi % TOP_SZ]], bots[hi := NilTable()];
    }

    /** GC_install_header: an uninitialized header for block h, unless memory for it runs out. */
    method InstallHeader(h: Addr, memory: bool) returns (ok: bool)
      requires Shape()
      modifies this`top, this`bots, this`asc, this`desc, this`first, this`last, this`keys
      ensures Shape() && old(bots).Keys <= bots.Keys
      ensures ok ==> KeyOf(h) in bots && Look(bots, h).Hdr? && OnlyAt(old(bots), bots, h, Look(bots, h))
      ensures !ok ==> SameLook(old(bots), bots)
      ensures memory ==> ok
    {
      ok := GetIndex(h, memory);
      if ok {
        var given: bool := *;
        ok := memory || given;
        if ok {
          var e: Header := *;
          SetHdr(h, Hdr(e));
        }
      }
    }

    /** The first half of GC_install_counts: bottom-level tables for all of the chunk. */
    method GetIndices(h: Addr, n: nat, memory: bool) returns (ok: bool)
      requires Shape() && n > 0 && h + n <= ADDRESS_BLOCKS
      modifies this`top, this`bots, this`asc, this`desc, this`first, this`last, this`keys
      ensures Shape() && SameLook(old(bots), bots) && old(bots).Keys <= bots.Keys
      ensures ok ==> forall b: Addr :: h <= b < h + n ==> KeyOf(b) in bots
      ensures memory ==> ok
    {
      hide SameLook, Lists, Chained, Linked, Tables, Present;
      SameLookRefl(bots);
      PresentNone(bots.Keys, h, n);
      var p := h;
      while p < h + n
        invariant Shape() && SameLook(old(bots), bots) && old(bots).Keys <= bots.Keys
        invariant Present(bots.Keys, h, n, p)
      {
        ghost var before := bots;
        ok := GetIndex(p, memory);
        SameLookTrans(old(bots), before, bots);
        if !ok {
          return;
        }
        PresentStep(before.Keys, bots.Keys, h, n, p);
        if p >= ADDRESS_BLOCKS - BOTTOM_SZ {
          break;
        }
        p := p + BOTTOM_SZ;
      }
      ghost var before := bots;
      ok := GetIndex(h + n - 1, memory);
      SameLookTrans(old(bots), before, bots);
      if ok {
        PresentAll(before.Keys, bots.Keys, h, n, p);
      }
    }

    /** GC_install_counts: forwarding counts for all blocks of a chunk of n blocks but the first. */
    method InstallCounts(h: Addr, n: nat, memory: bool) returns (ok: bool)
      requires Shape() && n > 0 && h + n <= ADDRESS_BLOCKS
      modifies this`top, this`bots, this`asc, this`desc, this`first, this`last, this`keys
      ensures Shape() && old(bots).Keys <= bots.Keys
      ensures !ok ==> SameLook(old(bots), bots)
      ensures ok ==> Filled(old(bots), bots, h, h + n, false)
      ensures memory ==> ok
    {
      hide Lists, Chained, Linked, Tables, Look, Filled, SameLook;
      ghost var bots0 := bots;
      ok := GetIndices(h, n, memory);
      if ok {
        ghost var got := bots;
        SetCounts(h, n);
        FilledSame(bots0, got, bots, h, h + n);
      }
    }

    /** The second half: the counts themselves. */
    method SetCounts(h: Addr, n: nat)
      requires Shape() && n > 0 && forall b: Addr :: h <= b < h + n ==> KeyOf(b) in bots
      modifies this`bots
      ensures Shape() && bots.Keys == old(bots).Keys
      ensures Filled(old(bots), bots, h, h + n, false)
    {
      hide Lists, Chained, Linked, Tables, Look, Filled, OnlyAt;
      FillNone(bots, h, false);
      var p := h + 1;
      while p < h + n
        invariant Shape() && h < p <= h + n && bots.Keys == old(bots).Keys
        invariant Filled(old(bots), bots, h, p, false)
      {
        ghost var before := bots;
        SetHdr(p, Count(Jump(p - h)));
        FillOne(old(bots), before, bots, h, p, false);
        p := p + 1;
      }
    }

    /** GC_remove_header */
    method RemoveHeader(h: Addr)
      requires Shape() && KeyOf(h) in bots
      modifies this`bots
      ensures Shape() && bots.Keys == old(bots).Keys && OnlyAt(old(bots), bots, h, Nil)
    {
      SetHdr(h, Nil);
    }

    /** GC_remove_counts */
    method RemoveCounts(h: Addr, n: nat)
      requires Shape() && n > 0 && forall b: Addr :: h < b < h + n ==> KeyOf(b) in bots
      modifies this`bots
      ensures Shape() && bots.Keys == old(bots).Keys
      ensures Filled(old(bots), bots, h, h + n, true)
    {
      hide Lists, Chained, Linked, Tables, Look, Filled, OnlyAt;
      FillNone(bots, h, true);
      var p := h + 1;
      while p < h + n
        invariant Shape() && h < p <= h + n && bots.Keys == old(bots).Keys
        invariant Filled(old(bots), bots, h, p, true)
      {
        ghost var before := bots;
        SetHdr(p, Nil);
        FillOne(old(bots), before, bots, h, p, true);
        p := p + 1;
      }
    }

    // ---------- What the allocator does to a chunk ----------

    /** A chunk of n blocks is added to the heap, free. */
    method AddChunk(h: Addr, n: nat, memory: bool) returns (ok: bool)
      requires Valid() && h > 0 && n > 0
      requires forall b: Addr :: h <= b < h + n ==> !Covered(part, b)
      modifies this
      ensures Valid()
      ensures part == (if ok then old(part)[h := Blk(n, true)] else old(part)) && Sizes() == old(Sizes())
      ensures memory ==> ok
    {
      hide Lists, Chained, Linked, Tables, Look, Agrees;
      ghost var bots0 := bots;
      ok := InstallHeader(h, memory);
      if ok {
        ghost var bots1 := bots;
        SetHdr(h, Hdr(Header(n * HBLKSIZE, true)));
        Grown(bots0, bots, part, h, n);
        StillApart(bots0, part);
        NotThere(part, h, n);
        GrownSizes(bots0, bots, part, h, n, Hdr(Header(n * HBLKSIZE, true)));
        part := part[h := Blk(n, true)];
      } else {
        SameLookAgrees(bots0, bots, part);
        SameLookSizes(bots0, bots, part);
      }
    }

    /** A free chunk is cut in two at n. */
    method Split(h: Addr, n: Addr, memory: bool) returns (ok: bool)
      requires Valid() && h in part && part[h].free && h < n < h + part[h].sz
      modifies this
      ensures Valid()
      ensures part == (if ok then Cut(old(part), h, n) else old(part)) && Sizes() == old(Sizes())
      ensures memory ==> ok
    {
      hide Lists, Chained, Linked, Tables, Look, Agrees;
      Reading(bots, part, h);
      ghost var bots0 := bots;
      var e := GetHdr(h);
      ok := InstallHeader(n, memory);
      if ok {
        SetHdr(n, Hdr(Header(e.hdr.sz - (n - h) * HBLKSIZE, true)));
        ghost var bots1 := bots;
        SetHdr(h, Hdr(Header((n - h) * HBLKSIZE, true)));
        CutAgrees(bots0, bots1, bots, part, h, n);
        StillApart(bots0, part);
        CutSizes(bots0, bots1, bots, part, h, n, Look(bots1, n), Look(bots, h));
        part := Cut(part, h, n);
      } else {
        SameLookAgrees(bots0, bots, part);
        SameLookSizes(bots0, bots, part);
      }
    }

    /** The free chunk b is merged into the free chunk a, which it follows. */
    method Merge(a: Addr, b: Addr)
      requires Valid() && a in part && b in part && part[a].free && part[b].free && b == a + part[a].sz
      modifies this`bots, this`part
      ensures Valid() && part == Joined(old(part), a, b) && Sizes() == old(Sizes())
    {
      hide Lists, Chained, Linked, Tables, Look, Agrees;
      Reading(bots, part, a);
      Reading(bots, part, b);
      ghost var bots0 := bots;
      var ea := GetHdr(a);
      var eb := GetHdr(b);
      RemoveHeader(b);
      ghost var bots1 := bots;
      SetHdr(a, Hdr(Header(ea.hdr.sz + eb.hdr.sz, true)));
      JoinAgrees(bots0, bots1, bots, part, a, b);
      JoinSizes(bots0, bots1, bots, part, a, b, Nil, Look(bots, a));
      part := Joined(part, a, b);
    }

    /** A free chunk is put to use for objects of size sz.  When there is no memory for the counts, or for what the
        header refers to, it stays as it is. */
    method Use(h: Addr, sz: nat, memory: bool) returns (ok: bool)
      requires Valid() && h in part && part[h].free
      requires sz > 0 && sz % WORD_BYTES == 0 && BlocksFor(sz) == part[h].sz && h + part[h].sz <= ADDRESS_BLOCKS
      modifies this
      ensures Valid()
      ensures part == if ok then old(part)[h := Blk(old(part)[h].sz, false)] else old(part)
      ensures ok ==> Look(bots, h) == Hdr(Header(sz, false))
      ensures Sizes() == if ok then old(Sizes())[h := sz] else old(Sizes())
      ensures memory ==> ok
    {
      hide Lists, Chained, Linked, Tables, Look, Agrees;
      Reading(bots, part, h);
      ghost var bots0 := bots;
      var n := BlocksFor(sz);
      ok := InstallCounts(h, n, memory);
      if !ok {
        SameLookAgrees(bots0, bots, part);
        SameLookSizes(bots0, bots, part);
        return;
      }
      var given: bool := *;
      ok := memory || given;
      if ok {
        SetHdr(h, Hdr(Header(sz, false)));
        Refit(bots0, bots, part, h, false);
        StillApart(bots0, part);
        RefitSizes(bots0, bots, part, h, false);
        part := part[h := Blk(part[h].sz, false)];
      } else {
        UndoCounts(h, n, bots0);
      }
    }

    /** The counts are taken back. */
    method UndoCounts(h: Addr, n: nat, ghost bots0: Bottoms)
      requires Shape() && Tables(bots0) && Agrees(bots0, part) && FreeAt(part, h) && n == part[h].sz && n > 0
      requires Filled(bots0, bots, h, h + n, false)
      modifies this`bots
      ensures Valid() && Sizes() == SizesIn(bots0, part)
    {
      hide Lists, Chained, Linked, Tables, Look, Agrees, Filled;
      FilledKeys(bots0, bots, h, n);
      RemoveCounts(h, n);
      Unfilled(bots0, old(bots), bots, part, h);
      SameLookAgrees(bots0, bots, part);
      SameLookSizes(bots0, bots, part);
    }

    /** A used chunk is freed. */
    method Release(h: Addr)
      requires Valid() && h in part && !part[h].free
      modifies this`bots, this`part
      ensures Valid() && part == old(part)[h := Blk(old(part)[h].sz, true)] && Sizes() == old(Sizes()) - {h}
    {
      hide Lists, Chained, Linked, Tables, Look, Agrees;
      Reading(bots, part, h);
      ghost var bots0 := bots;
      var e := GetHdr(h);
      var n := BlocksFor(e.hdr.sz);
      forall b: Addr | h < b < h + n ensures KeyOf(b) in bots {
        MiddleCounts(bots, part, h, b);
        Reading(bots, part, b);
      }
      assert n > 0;
      RemoveCounts(h, n);
      SetHdr(h, Hdr(Header(n * HBLKSIZE, true)));
      Refit(bots0, bots, part, h, true);
      StillApart(bots0, part);
      RefitSizes(bots0, bots, part, h, true);
      part := part[h := Blk(part[h].sz, true)];
    }

    // ---------- Walking the index ----------

    ghost method Position(hi: Key) returns (k: nat)
      requires Shape() && hi in bots
      ensures k < |keys| && keys[k] == hi + 1
    {
      assert Lists1(keys, hi);
      k :| k < |keys| && keys[k] == hi + 1;
    }

    /** The first table in address order with a key of at least hi, when there is none for hi itself. */
    method FirstAfter(h: Addr) returns (bi: Bi, ghost k: nat)
      requires Valid() && KeyOf(h) !in bots
      ensures Here(keys, k, bi)
      ensures bi != 0 ==> k < |keys| && h <= (bi - 1) * BOTTOM_SZ && NoneBefore(part, h, (bi - 1) * BOTTOM_SZ)
      ensures bi == 0 ==> forall b: Addr :: UsedAt(part, b) ==> b < h
    {
      hide Agrees, Lists, Look, Chained, NoneBefore, Tables, Node;
      var hi := KeyOf(h);
      bi, k := first, 0;
      while bi != 0 && bi - 1 < hi
        invariant Here(keys, k, bi)
        invariant k > 0 ==> keys[k - 1] <= hi
        decreases |keys| - k
      {
        LinksAt(asc, desc, first, keys, bots, k);
        bi, k := asc[bi], k + 1;
      }
      if k < |keys| {
        LinksAt(asc, desc, first, keys, bots, k);
      }
      NoneBeforeAll(part, h);
      NoneBeforeTable(keys, bots, part, k - 1, h);
    }

    /** GC_next_used_block: the first used chunk that starts at h or after, or 0. */
    method NextUsedBlock(h: Addr) returns (r: Addr)
      requires Valid()
      ensures r == 0 ==> forall b: Addr :: UsedAt(part, b) ==> b < h
      ensures r != 0 ==> UsedAt(part, r) && r >= h && forall b: Addr :: UsedAt(part, b) && b >= h ==> b >= r
    {
      hide Agrees, Linked, Lists, Look, Chained;
      var j: nat := h % BOTTOM_SZ;
      var bi: Bi := KeyOf(h) + 1;
      ghost var k;
      var found := GetBi(KeyOf(h));
      if found {
        k := Position(KeyOf(h));
      } else {
        bi, k := FirstAfter(h);
        j := 0;
      }
      while bi != 0
        invariant Here(keys, k, bi)
        invariant bi != 0 ==> 0 <= k < |keys| && h <= bi * BOTTOM_SZ
                              && (bi - 1) * BOTTOM_SZ + j >= h && NoneBefore(part, h, (bi - 1) * BOTTOM_SZ + j)
        invariant bi == 0 ==> forall b: Addr :: UsedAt(part, b) ==> b < h
        decreases |keys| - k
      {
        LinksAt(asc, desc, first, keys, bots, k);
        while j < BOTTOM_SZ
          invariant (bi - 1) * BOTTOM_SZ + j >= h && NoneBefore(part, h, (bi - 1) * BOTTOM_SZ + j)
          decreases BOTTOM_SZ - j
        {
          var pos := (bi - 1) * BOTTOM_SZ + j;
          var e := Entry(bi, j);
          NoneBeforeStep(bots, part, h, pos);
          Reading(bots, part, pos);
          if !e.Hdr? {
            j := j + 1;
          } else if !e.hdr.free {
            return pos;
          } else {
            j := j + e.hdr.sz / HBLKSIZE;
          }
        }
        NoneBeforeTable(keys, bots, part, k, h);
        j, bi, k := 0, asc[bi], k + 1;
        if k < |keys| {
          LinksAt(asc, desc, first, keys, bots, k);
          TableOrder(keys, bots, k - 1);
        }
      }
      return 0;
    }

    /** The j-th entry of a table. */
    method Entry(bi: Bi, j: nat) returns (e: Entry)
      requires Shape() && bi > 0 && bi - 1 in bots && j < BOTTOM_SZ
      ensures e == Look(bots, (bi - 1) * BOTTOM_SZ + j)
    {
      e := bots[bi - 1][j];
    }

    /** The last table in address order with a key below that of h. */
    method LastBefore(h: Addr) returns (bi: Bi, ghost k: int)
      requires Valid() && KeyOf(h) !in bots
      ensures Here(keys, k, bi)
      ensures bi != 0 ==> 0 <= k < |keys| && bi * BOTTOM_SZ - 1 <= h && NoneAfter(part, h, bi * BOTTOM_SZ - 1)
      ensures bi == 0 ==> forall b :: b in part ==> b > h
    {
      hide Agrees, Lists, Look, Chained, NoneAfter, Tables, Linked;
      var hi := KeyOf(h);
      bi, k := last, |keys| - 1;
      while bi != 0 && bi - 1 > hi
        invariant Here(keys, k, bi)
        invariant k < |keys|
        invariant k + 1 < |keys| ==> keys[k + 1] > hi + 1
        decreases k
      {
        LinksAt(asc, desc, first, keys, bots, k);
        bi, k := desc[bi], k - 1;
      }
      if k >= 0 {
        LinksAt(asc, desc, first, keys, bots, k);
      }
      NoneAfterAll(part, h);
      NoneAfterTable(keys, bots, part, k + 1, h);
    }

    /** GC_prev_block: the last chunk, used or free, that starts at h or before, or 0. */
    method PrevBlock(h: Addr) returns (r: Addr)
      requires Valid()
      ensures r == 0 ==> forall b :: b in part ==> b > h
      ensures r != 0 ==> r in part && r <= h && forall b :: b in part && b <= h ==> b <= r
    {
      hide Agrees, Linked, Lists, Look, Chained;
      var j: int := h % BOTTOM_SZ;
      var bi: Bi := KeyOf(h) + 1;
      ghost var k;
      var found := GetBi(KeyOf(h));
      if found {
        k := Position(KeyOf(h));
      } else {
        bi, k := LastBefore(h);
        j := BOTTOM_SZ - 1;
      }
      while bi != 0
        invariant Here(keys, k, bi)
        invariant bi != 0 ==> 0 <= k < |keys| && j < BOTTOM_SZ && (bi - 1) * BOTTOM_SZ <= h
                              && (bi - 1) * BOTTOM_SZ + j <= h && NoneAfter(part, h, (bi - 1) * BOTTOM_SZ + j)
        invariant bi == 0 ==> forall b :: b in part ==> b > h
        decreases k
      {
        LinksAt(asc, desc, first, keys, bots, k);
        while j >= 0
          invariant j < BOTTOM_SZ && (bi - 1) * BOTTOM_SZ + j <= h && NoneAfter(part, h, (bi - 1) * BOTTOM_SZ + j)
        {
          var pos := (bi - 1) * BOTTOM_SZ + j;
          var e := Entry(bi, j);
          NoneAfterStep(bots, part, h, pos);
          Reading(bots, part, pos);
          match e
          case Nil => j := j - 1;
          case Count(n) => j := j - n;
          case Hdr(_) => return pos;
        }
        NoneAfterTable(keys, bots, part, k, h);
        if k > 0 {
          LinksAt(asc, desc, first, keys, bots, k - 1);
          TableOrder(keys, bots, k - 1);
        }
        j, bi, k := BOTTOM_SZ - 1, desc[bi], k - 1;
      }
      return 0;
    }

    /** GC_apply_to_all_blocks: the chunks that the function is applied to, in this order. */
    method ApplyToAllBlocks() returns (out: seq<Addr>)
      requires Valid()
      ensures NoDup(out) && forall b: Addr :: b in out <==> UsedAt(part, b)
    {
      hide Agrees, Lists, Look, Chained, Node, Visited, Tables;
      out := [];
      var bi: Bi := first;
      ghost var k := 0;
      NothingVisited(keys, bots, part);
      while bi != 0
        invariant Here(keys, k, bi) && k >= 0
        invariant k < |keys| ==> bi > 0 && Visited(part, out, (bi - 1) * BOTTOM_SZ, BOTTOM_SZ - 1)
        invariant k == |keys| ==> NoDup(out) && forall b: Addr :: b in out <==> UsedAt(part, b)
        decreases |keys| - k
      {
        LinksAt(asc, desc, first, keys, bots, k);
        var j: int := BOTTOM_SZ - 1;
        while j >= 0
          invariant j < BOTTOM_SZ && Visited(part, out, (bi - 1) * BOTTOM_SZ, j)
        {
          var e := Entry(bi, j);
          VisitedBack(bots, part, out, (bi - 1) * BOTTOM_SZ, j);
          match e {
            case Hdr(hdr) =>
              if !hdr.free {
                out := out + [(bi - 1) * BOTTOM_SZ + j];
              }
              j := j - 1;
            case Nil =>
              j := j - 1;
            case Count(n) =>
              j := j - n;
          }
        }
        VisitedTable(keys, bots, part, out, k, j);
        bi, k := asc[bi], k + 1;
      }
    }

    /** The loop of GC_base that follows forwarding counts: it ends at the start of the chunk that covers block b. */
    method Forward(b: Addr) returns (h: Addr, e: Entry)
      requires Valid() && Look(bots, b) != Nil
      ensures Covers(part, h, b) && e == Look(bots, h) && Heads(e, part[h])
    {
      hide Lists, Linked, Chained, Look, Agrees, Tables, Heads;
      ghost var c := FindChunk(bots, part, b);
      h := b;
      e := GetHdr(h);
      while e.Count?
        invariant c <= h <= b && c in part && b < c + part[c].sz
        invariant e == Look(bots, h) && (c == h || !part[c].free)
        decreases h
      {
        HeadOrMiddle(bots, part, c, h);
        h := h - e.n;
        e := GetHdr(h);
      }
      HeadOrMiddle(bots, part, c, h);
      Reading(bots, part, h);
    }

    /** The arithmetic of GC_base, for a chunk of objects of size sz. */
    method SlotStart(h: Addr, sz: nat, p: nat) returns (r: nat)
      requires sz > 0
      ensures r == RoundDown(h, sz, p)
    {
      var q := if h == p / HBLKSIZE then p else h * HBLKSIZE;
      assert h * HBLKSIZE % WORD_BYTES == 0;
      q := q - q % WORD_BYTES;
      Remainders(q, sz);
      r := q - q % HBLKSIZE % sz;
    }

    /** GC_base: the start of the object slot that address p lies in, or 0. */
    method Base(p: nat) returns (r: nat)
      requires Valid()
      ensures forall c: Addr, x: nat :: Holds(bots, part, c, x, p) ==> x == r
      ensures r != 0 ==> exists c: Addr :: Holds(bots, part, c, r, p)
    {
      hide Lists, Linked, Chained, Look, Agrees, Holds, SizeAt, RoundDown;
      var b := p / HBLKSIZE;
      var e := GetHdr(b);
      if e.Nil? {
        NotHeld(bots, part, p);
        return 0;
      }
      var h;
      h, e := Forward(b);
      if e.hdr.free {
        OnlyHolder(bots, part, h, p);
        return 0;
      }
      var sz := e.hdr.sz;
      SizeIs(bots, h);
      RoundedHolds(bots, part, h, p);
      r := SlotStart(h, sz, p);
      if (r + sz > (h + 1) * HBLKSIZE && sz <= HBLKSIZE) || p >= r + sz {
        return 0;
      }
    }
  }
}
