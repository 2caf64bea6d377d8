/**
 Black lists: blocks near which false pointers were seen, kept as bits in page hash tables.
 */
module BlackList {

  import opened Platform
  import opened BlockLists

  const WORDSZ: nat := 64
  const PHT_SIZE: nat := PHT_ENTRIES / WORDSZ

  type Table = t: seq<bv64> | |t| == PHT_SIZE witness seq(PHT_SIZE, i => 0)

  predicate Bit(t: Table, index: nat)
    requires index < PHT_ENTRIES
  {
    (t[index / WORDSZ] >> (index % WORDSZ)) & 1 != 0
  }

  function AtLeastOne(n: nat): nat {
    if n == 0 then 1 else n
  }

  /** Blocks that share a word of the table have consecutive indices. */
  lemma SameWord(b: Addr, k: nat)
    requires PhtHash(b) % WORDSZ + k < WORDSZ
    ensures PhtHash(b + k) == PhtHash(b) + k
    ensures PhtHash(b + k) / WORDSZ == PhtHash(b) / WORDSZ
  {
    var q, r := b / PHT_ENTRIES, PhtHash(b);
    assert b == q * PHT_ENTRIES + r;
    assert r / WORDSZ * WORDSZ + r % WORDSZ == r;
    assert r + k < PHT_ENTRIES;
    assert b + k == q * PHT_ENTRIES + (r + k);
  }

  lemma NoBits(t: Table, index: nat)
    requires index < PHT_ENTRIES && t[index / WORDSZ] == 0
    ensures !Bit(t, index)
  {
  }

  datatype BlackLists = BlackLists(allInterior: bool, oldStack: Table, incompleteStack: Table,
                                   oldNormal: Table, incompleteNormal: Table)
  {
    /** Was block b pointed to from a stack, or from anywhere if interior pointers always count? */
    predicate Listed(b: Addr) {
      Bit(oldStack, PhtHash(b)) || Bit(incompleteStack, PhtHash(b))
    }

    predicate NormalListed(b: Addr) {
      Bit(oldNormal, PhtHash(b)) || Bit(incompleteNormal, PhtHash(b))
    }

    /** May an object of n blocks start at h?  False pointers from the heap matter only for its first block. */
    predicate Clean(h: Addr, n: nat) {
      && (allInterior || !NormalListed(h))
      && forall b :: h <= b < h + n ==> !Listed(b)
    }

    /** GC_is_black_listed: 0 if an object of n blocks may start at h, otherwise the next place worth trying.  Words of
        the tables without any bit set are skipped as a whole.  The first block is looked at even if n is 0. */
    method IsBlackListed(h: Addr, n: nat) returns (r: Addr)
      ensures r == 0 <==> Clean(h, AtLeastOne(n))
      ensures r != 0 ==> h < r <= h + AtLeastOne(n)
      ensures r != 0 ==> forall s :: h <= s < r ==> !Clean(s, AtLeastOne(n))
    {
      var index := PhtHash(h);
      if !allInterior && (Bit(oldNormal, index) || Bit(incompleteNormal, index)) {
        return h + 1;
      }
      var i := 0;
      while true
        invariant i == 0 || i < n
        invariant index == PhtHash(h + i)
        invariant forall b :: h <= b < h + i ==> !Listed(b)
        decreases n - i
      {
        if oldStack[index / WORDSZ] == 0 && incompleteStack[index / WORDSZ] == 0 {
          WordIsClean(h + i);
          i := i + (WORDSZ - index % WORDSZ);
        } else {
          if Bit(oldStack, index) || Bit(incompleteStack, index) {
            assert Listed(h + i);
            return h + i + 1;
          }
          i := i + 1;
        }
        if i >= n {
          return 0;
        }
        index := PhtHash(h + i);
      }
    }

    /** If the words for block b are empty, then so are the bits of the blocks up to the end of the word. */
    lemma WordIsClean(b: Addr)
      requires oldStack[PhtHash(b) / WORDSZ] == 0 && incompleteStack[PhtHash(b) / WORDSZ] == 0
      ensures forall c :: b <= c < b + (WORDSZ - PhtHash(b) % WORDSZ) ==> !Listed(c)
    {
      forall c | b <= c < b + (WORDSZ - PhtHash(b) % WORDSZ) ensures !Listed(c) {
        SameWord(b, c - b);
        NoBits(oldStack, PhtHash(c));
        NoBits(incompleteStack, PhtHash(c));
      }
    }

    /** The placement loop of GC_allochblk_nth: the lowest place from h on, up to `end`, where an object of n blocks may
        start; a result past `end` says that there is none. */
    method FindClean(h: Addr, end: Addr, n: nat) returns (last: Addr)
      requires n > 0 && h <= end
      ensures h <= last <= end + n
      ensures last <= end ==> Clean(last, n)
      ensures forall s :: h <= s < last ==> !Clean(s, n)
    {
      last := h;
      while last <= end
        invariant h <= last <= end + n
        invariant forall s :: h <= s < last ==> !Clean(s, n)
        decreases end + n - last
      {
        var r := IsBlackListed(last, n);
        if r == 0 {
          return;
        }
        last := r;
      }
    }
  }
}
