/**
 The hash tables of the finalization code: chains of nodes that are found by the address of an object or of a link
 cell.  A table stands for a finite map.  Addresses count words.
 */
module HashTable {
  import opened Sequences

  datatype Node<V> = Node(key: int, val: V)
  type Chain<V> = seq<Node<V>>

  /** Words in the address space. */
  const SPACE: nat := 0x2000_0000_0000_0000

  function Pow2(n: nat): (r: nat)
    ensures r > 0
  {
    if n == 0 then 1 else 2 * Pow2(n - 1)
  }

  function Xor(a: nat, b: nat): nat {
    if a == 0 && b == 0 then 0 else (a + b) % 2 + 2 * Xor(a / 2, b / 2)
  }

  function Mod(a: nat, n: nat): (r: nat)
    requires n > 0
    ensures r < n
  {
    a % n
  }

  /** a >> n */
  function Shift(a: nat, n: nat): nat {
    if n == 0 then a else Shift(a / 2, n - 1)
  }

  /** HASH2 */
  function Hash(key: int, log: nat): (i: nat)
    ensures i < Pow2(log)
  {
    var a: nat := key % SPACE;
    Mod(Xor(a, Shift(a, log)), Pow2(log))
  }

  datatype Outcome = Success | Duplicate | NoMemory | NotFound | Aborted

  ghost predicate Distinct<V>(s: Chain<V>) {
    forall i, j :: 0 <= i < j < |s| ==> s[i].key != s[j].key
  }

  ghost predicate Filed<V>(n: Node<V>, i: int, log: nat, m: map<int, V>) {
    Hash(n.key, log) == i && n.key in m && m[n.key] == n.val
  }

  /** The chains hold exactly the map m: every node in the chain its key hashes to, and each key once. */
  ghost predicate Stores<V>(head: seq<Chain<V>>, log: nat, m: map<int, V>) {
    && |head| == Pow2(log)
    && (forall i, j :: 0 <= i < |head| && 0 <= j < |head[i]| ==> Filed(head[i][j], i, log, m))
    && (forall k :: k in m ==> Node(k, m[k]) in head[Hash(k, log)])
    && (forall i :: 0 <= i < |head| ==> Distinct(head[i]))
  }

  function Chains<V>(n: nat): (r: seq<Chain<V>>)
    ensures |r| == n && forall i :: 0 <= i < n ==> r[i] == []
  {
    seq(n, i => [])
  }

  lemma EmptyStores<V>(log: nat)
    ensures Stores(Chains<V>(Pow2(log)), log, map[])
  {
  }

  lemma StoresNew<V>(head: seq<Chain<V>>, log: nat, m: map<int, V>, k: int, v: V)
    requires Stores(head, log, m) && k !in m
    ensures var i := Hash(k, log); Stores(head[i := [Node(k, v)] + head[i]], log, m[k := v])
  {
    hide Hash;
    var i := Hash(k, log);
    var m', c := m[k := v], [Node(k, v)] + head[i];
    var head' := head[i := c];
    forall a, b | 0 <= a < |head'| && 0 <= b < |head'[a]| ensures Filed(head'[a][b], a, log, m') {
      if a == i && b > 0 {
        assert Filed(head[i][b - 1], i, log, m);
      } else if a != i {
        assert Filed(head[a][b], a, log, m);
      }
    }
    forall a, b | 0 <= a < b < |c| ensures c[a].key != c[b].key {
      assert Filed(head[i][b - 1], i, log, m);
    }
    forall x | x in m' ensures Node(x, m'[x]) in head'[Hash(x, log)] {
      if x != k {
        assert Node(x, m[x]) in head[Hash(x, log)];
      }
    }
  }

  lemma StoresLess<V>(head: seq<Chain<V>>, log: nat, m: map<int, V>, i: nat, j: nat)
    requires Stores(head, log, m) && i < |head| && j < |head[i]|
    ensures Stores(head[i := Without(head[i], j)], log, m - {head[i][j].key})
    ensures head[i][j].key in m && Hash(head[i][j].key, log) == i && m[head[i][j].key] == head[i][j].val
  {
    hide Hash;
    var s, k := head[i], head[i][j].key;
    var m', c := m - {k}, Without(s, j);
    var head' := head[i := c];
    assert Filed(head[i][j], i, log, m);
    assert forall a :: 0 <= a < |c| ==> c[a] == s[if a < j then a else a + 1];
    forall a, b | 0 <= a < |head'| && 0 <= b < |head'[a]| ensures Filed(head'[a][b], a, log, m') {
      var b' := if a == i && b >= j then b + 1 else b;
      assert Filed(head[a][b'], a, log, m);
      assert head'[a][b] == head[a][b'];
      assert a == i ==> head[a][b'].key != k;
    }
    forall x | x in m' ensures Node(x, m'[x]) in head'[Hash(x, log)] {
      assert Node(x, m[x]) in head[Hash(x, log)];
      if Hash(x, log) == i {
        var b :| 0 <= b < |s| && s[b] == Node(x, m[x]);
        assert c[if b < j then b else b - 1] == s[b];
      }
    }
  }

  lemma StoresOther<V>(head: seq<Chain<V>>, log: nat, m: map<int, V>, i: nat, j: nat, v: V)
    requires Stores(head, log, m) && i < |head| && j < |head[i]|
    ensures var k := head[i][j].key; k in m && Stores(head[i := head[i][j := Node(k, v)]], log, m[k := v])
  {
    hide Hash;
    var s, k := head[i], head[i][j].key;
    var m', c := m[k := v], s[j := Node(k, v)];
    var head' := head[i := c];
    assert Filed(head[i][j], i, log, m);
    forall a, b | 0 <= a < |head'| && 0 <= b < |head'[a]| ensures Filed(head'[a][b], a, log, m') {
      assert Filed(head[a][b], a, log, m);
    }
    forall x | x in m' ensures Node(x, m'[x]) in head'[Hash(x, log)] {
      if x == k {
        assert c[j] == Node(k, v);
      } else {
        assert Node(x, m[x]) in head[Hash(x, log)];
        if Hash(x, log) == i {
          var b :| 0 <= b < |s| && s[b] == Node(x, m[x]);
          assert c[b] == s[b];
        }
      }
    }
  }

  lemma EmptyChains<V>(head: seq<Chain<V>>, log: nat, m: map<int, V>)
    requires Stores(head, log, m) && forall b :: 0 <= b < |head| ==> head[b] == []
    ensures m == map[]
  {
    forall k | k in m ensures false {
      HasChain(head, log, m, k);
    }
    assert m.Keys == {};
  }

  lemma HasChain<V>(head: seq<Chain<V>>, log: nat, m: map<int, V>, k: int)
    requires Stores(head, log, m) && k in m
    ensures Hash(k, log) < |head| && head[Hash(k, log)] != []
  {
    assert Node(k, m[k]) in head[Hash(k, log)];
  }

  // ---------- Going through a table ----------

  ghost predicate KeyIn<V>(s: Chain<V>, k: int) {
    exists p :: 0 <= p < |s| && s[p].key == k
  }

  /** A walk that has come to position j of chain i has passed the node with key k. */
  ghost predicate Passed<V>(head: seq<Chain<V>>, log: nat, i: nat, j: nat, k: int)
    requires i < |head| ==> j <= |head[i]|
  {
    Hash(k, log) < i || (i < |head| && Hash(k, log) == i && KeyIn(head[i][..j], k))
  }

  lemma PassedNext<V>(head: seq<Chain<V>>, log: nat, m: map<int, V>, i: nat, j: nat)
    requires Stores(head, log, m) && i < |head| && j < |head[i]|
    ensures !Passed(head, log, i, j, head[i][j].key)
    ensures forall k :: Passed(head, log, i, j + 1, k) <==> Passed(head, log, i, j, k) || k == head[i][j].key
  {
    var s := head[i];
    assert Filed(head[i][j], i, log, m);
    hide Hash;
    forall k ensures KeyIn(s[..j + 1], k) <==> KeyIn(s[..j], k) || k == s[j].key {
      if KeyIn(s[..j + 1], k) {
        var p :| 0 <= p < j + 1 && s[..j + 1][p].key == k;
        assert p < j ==> s[..j][p].key == k;
      }
      if KeyIn(s[..j], k) {
        var p :| 0 <= p < j && s[..j][p].key == k;
        assert s[..j + 1][p].key == k;
      }
      assert s[..j + 1][j] == s[j];
    }
  }

  lemma PassedChain<V>(head: seq<Chain<V>>, log: nat, m: map<int, V>, i: nat)
    requires Stores(head, log, m) && i < |head|
    ensures forall k :: k in m ==> (Passed(head, log, i, |head[i]|, k) <==> Passed(head, log, i + 1, 0, k))
  {
    hide Hash;
    forall k | k in m ensures Passed(head, log, i, |head[i]|, k) <==> Passed(head, log, i + 1, 0, k) {
      assert head[i][..|head[i]|] == head[i];
      if Hash(k, log) == i {
        assert Node(k, m[k]) in head[i];
        var p :| 0 <= p < |head[i]| && head[i][p] == Node(k, m[k]);
        assert KeyIn(head[i], k);
      }
      if i + 1 < |head| {
        assert head[i + 1][..0] == [];
      }
    }
  }

  lemma PassedNone<V>(head: seq<Chain<V>>, log: nat)
    ensures forall k :: !Passed(head, log, 0, 0, k)
  {
  }

  lemma PassedAll<V>(head: seq<Chain<V>>, log: nat, m: map<int, V>)
    requires Stores(head, log, m)
    ensures forall k :: Passed(head, log, |head|, 0, k)
  {
  }

  /** Taking out the node at the current position changes nothing about those passed. */
  lemma PassedLess<V>(head: seq<Chain<V>>, log: nat, i: nat, j: nat)
    requires i < |head| && j < |head[i]|
    ensures forall k :: Passed(head[i := Without(head[i], j)], log, i, j, k) <==> Passed(head, log, i, j, k)
  {
    var head' := head[i := Without(head[i], j)];
    assert head'[i][..j] == head[i][..j];
  }

  // ---------- Tables ----------

  class Table<V> {
    var head: seq<Chain<V>>
    var log: int      // log2 of the number of chains; -1 before the first use
    var entries: nat

    ghost var m: map<int, V>

    ghost predicate Valid()
      reads this
    {
      && entries == |m|
      && (log == -1 ==> head == [] && m == map[])
      && (log != -1 ==> log >= 0 && Stores(head, log, m))
    }

    constructor ()
      ensures Valid() && m == map[]
    {
      head, log, entries, m := [], -1, 0, map[];
    }

    /** Find the position of key k in its chain; at the end of the chain if it is not there. */
    method Search(k: int) returns (i: nat, j: nat)
      requires Valid() && log >= 0
      ensures i == Hash(k, log) && i < |head| && j <= |head[i]|
      ensures j < |head[i]| ==> head[i][j].key == k && k in m && m[k] == head[i][j].val
      ensures j == |head[i]| ==> k !in m
    {
      i, j := Hash(k, log), 0;
      while j < |head[i]| && head[i][j].key != k
        invariant j <= |head[i]|
        invariant forall b :: 0 <= b < j ==> head[i][b].key != k
      {
        j := j + 1;
      }
      if j < |head[i]| {
        assert Filed(head[i][j], i, log, m);
      }
    }

    method Insert(i: nat, k: int, v: V)
      requires Valid() && log >= 0 && k !in m && i == Hash(k, log)
      modifies this`head, this`entries, this`m
      ensures Valid() && m == old(m)[k := v] && entries == old(entries) + 1
    {
      StoresNew(head, log, m, k, v);
      head := head[i := [Node(k, v)] + head[i]];
      entries := entries + 1;
      m := m[k := v];
    }

    method Delete(i: nat, j: nat)
      requires Valid() && log >= 0 && i < |head| && j < |head[i]|
      modifies this`head, this`entries, this`m
      ensures Valid() && m == old(m) - {old(head)[i][j].key} && old(head)[i][j].key in old(m)
      ensures head == old(head)[i := Without(old(head)[i], j)]
    {
      StoresLess(head, log, m, i, j);
      ghost var k := head[i][j].key;
      assert m == (m - {k})[k := m[k]];
      head := head[i := Without(head[i], j)];
      entries := entries - 1;
      m := m - {k};
    }

    method Replace(i: nat, j: nat, v: V)
      requires Valid() && log >= 0 && i < |head| && j < |head[i]|
      modifies this`head, this`m
      ensures Valid() && m == old(m)[old(head)[i][j].key := v]
    {
      StoresOther(head, log, m, i, j, v);
      ghost var k := head[i][j].key;
      assert m[k := v].Keys == m.Keys;
      head := head[i := head[i][j := Node(head[i][j].key, v)]];
      m := m[k := v];
    }

    /** GC_grow_table: double the number of chains, unless there is no memory for that. */
    method Grow(memory: bool) returns (ok: bool)
      requires Valid()
      modifies this`head, this`log
      ensures Valid()
      ensures memory ==> ok
      ensures log == if ok then old(log) + 1 else old(log)
    {
      var given: bool := *;
      ok := memory || given;
      if !ok {
        return;
      }
      var newLog: nat := log + 1;
      var table := Chains<V>(Pow2(newLog));
      EmptyStores<V>(newLog);
      if log >= 0 {
        table := Rehash(newLog, table);
      }
      head, log := table, newLog;
    }

    method Rehash(newLog: nat, empty: seq<Chain<V>>) returns (table: seq<Chain<V>>)
      requires Valid() && log >= 0 && Stores(empty, newLog, map[])
      ensures Stores(table, newLog, m)
    {
      hide Hash, Pow2, Passed, Stores;
      table := empty;
      ghost var done: map<int, V> := map[];
      PassedNone(head, log);
      var i := 0;
      while i < |head|
        invariant i <= |head| && Stores(table, newLog, done) && Moved(done, i, 0)
      {
        table, done := MoveChain(i, newLog, table, done);
        i := i + 1;
      }
      PassedAll(head, log, m);
      forall k | k in m ensures k in done {
        assert Passed(head, log, i, 0, k);
      }
      assert done.Keys == m.Keys by {
        assert forall k :: k in done ==> k in m;
      }
      assert forall k :: k in done ==> done[k] == m[k];
      assert done == m;
    }

    /** What has been moved is what the walk has passed. */
    ghost predicate Moved(done: map<int, V>, i: nat, j: nat)
      reads this
      requires log >= 0 && (i < |head| ==> j <= |head[i]|)
    {
      && (forall k :: k in done <==> k in m && Passed(head, log, i, j, k))
      && (forall k :: k in done ==> k in m && done[k] == m[k])
    }

    method MoveChain(i: nat, newLog: nat, table0: seq<Chain<V>>, ghost done0: map<int, V>)
      returns (table: seq<Chain<V>>, ghost done: map<int, V>)
      requires Valid() && log >= 0 && i < |head| && Stores(table0, newLog, done0) && Moved(done0, i, 0)
      ensures Stores(table, newLog, done) && Moved(done, i + 1, 0)
    {
      hide Hash, Passed;
      table, done := table0, done0;
      var j := 0;
      while j < |head[i]|
        invariant j <= |head[i]| && Stores(table, newLog, done) && Moved(done, i, j)
      {
        var p := head[i][j];
        PassedNext(head, log, m, i, j);
        assert Filed(head[i][j], i, log, m);
        StoresNew(table, newLog, done, p.key, p.val);
        var t := Hash(p.key, newLog);
        table := table[t := [Node(p.key, p.val)] + table[t]];
        done := done[p.key := p.val];
        j := j + 1;
      }
      PassedChain(head, log, m, i);
    }

    /** Are there about as many chains as entries, or more? */
    predicate Wide()
      reads this
    {
      log >= 0 && entries <= Pow2(log) + 1
    }

    /** Make room for one more entry if the chains are getting long.  The first time there must be memory for that,
        or else the program aborts. */
    method Prepare(memory: bool) returns (ok: bool)
      requires Valid()
      modifies this`head, this`log
      ensures Valid() && (ok <==> log >= 0) && (old(log) >= 0 || memory ==> ok)
      ensures log != old(log) ==> log == old(log) + 1 && (old(log) == -1 || entries > Pow2(old(log)))
      ensures memory && (old(log) == -1 || old(Wide())) ==> entries <= Pow2(log)
    {
      if log == -1 || entries > Pow2(log) {
        var grown := Grow(memory);
      }
      ok := log != -1;
    }

    /** Enter a value for key k, or change the one there is.  Without memory for an entry or for the first table this
        fails; if there always is memory, chains stay short on average. */
    method Register(k: int, v: V, memory: bool) returns (r: Outcome)
      requires Valid()
      modifies this
      ensures Valid()
      ensures r == Duplicate ==> k in old(m) && m == old(m)[k := v]
      ensures r == Success ==> k !in old(m) && m == old(m)[k := v]
      ensures r == NoMemory ==> k !in old(m) && m == old(m)
      ensures r == Aborted ==> old(log) == log == -1 && m == old(m)
      ensures r != NotFound && (memory ==> r != NoMemory && r != Aborted)
      ensures memory && (old(log) == -1 || old(Wide())) ==> Wide()
    {
      hide Hash, Stores, Pow2;
      var ok := Prepare(memory);
      if !ok {
        return Aborted;
      }
      var i, j := Search(k);
      if j < |head[i]| {
        Replace(i, j, v);
        return Duplicate;
      }
      var given: bool := *;
      if !memory && !given {
        return NoMemory;
      }
      Insert(i, k, v);
      r := Success;
    }

    /** Take key k out. */
    method Unregister(k: int) returns (found: bool)
      requires Valid()
      modifies this`head, this`entries, this`m
      ensures Valid()
      ensures found <==> k in old(m)
      ensures m == old(m) - {k}
    {
      hide Hash, Stores, Pow2;
      if log == -1 {
        return false;
      }
      var i, j := Search(k);
      found := j < |head[i]|;
      if found {
        Delete(i, j);
      }
    }

    /** Move the value of key k to key k'. */
    method Move(k: int, k': int) returns (r: Outcome)
      requires Valid()
      modifies this`head, this`entries, this`m
      ensures Valid()
      ensures r == NotFound <==> k !in old(m)
      ensures r == Duplicate <==> k in old(m) && k' in old(m) && k != k'
      ensures r == NotFound || r == Duplicate || r == Success
      ensures r != Success ==> m == old(m)
      ensures r == Success ==> m == (old(m) - {k})[k' := old(m)[k]]
    {
      hide Hash, Stores, Pow2;
      if log == -1 {
        return NotFound;
      }
      var i, j := Search(k);
      if j == |head[i]| {
        return NotFound;
      }
      if k == k' {
        assert (m - {k})[k := m[k]] == m;
        return Success;
      }
      var i', j' := Search(k');
      if j' < |head[i']| {
        return Duplicate;
      }
      var v := head[i][j].val;
      Delete(i, j);
      Insert(i', k', v);
      r := Success;
    }
  }
}
