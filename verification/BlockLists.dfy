/**
 Doubly linked lists of blocks, threaded through the hb_next and hb_prev fields of their headers.
 */
module BlockLists {
  import opened Sequences

  type Addr = nat  // a heap block, by number; 0 stands for the null pointer
  type Links = map<Addr, Addr>

  /** The list that starts at `head` consists of the blocks of s, in this order. */
  ghost predicate Linked(next: Links, prev: Links, head: Addr, s: seq<Addr>) {
    && head == At(s, 0)
    && forall k :: 0 <= k < |s| ==> Node(next, prev, s, k)
  }

  ghost predicate Node(next: Links, prev: Links, s: seq<Addr>, k: int)
    requires 0 <= k < |s|
  {
    && s[k] != 0
    && s[k] in next && next[s[k]] == At(s, k + 1)
    && s[k] in prev && prev[s[k]] == At(s, k - 1)
  }

  ghost function At(s: seq<Addr>, k: int): Addr {
    if 0 <= k < |s| then s[k] else 0
  }

  ghost predicate NoDup(s: seq<Addr>) {
    forall i, j :: 0 <= i < j < |s| ==> s[i] != s[j]
  }

  ghost function Replaced(s: seq<Addr>, k: int, b: Addr): seq<Addr>
    requires 0 <= k < |s|
  {
    s[..k] + [b] + s[k + 1..]
  }

  /** A list is not disturbed by what happens to the links of other blocks. */
  lemma LinkedFrame(next: Links, prev: Links, next': Links, prev': Links, head: Addr, s: seq<Addr>)
    requires Linked(next, prev, head, s)
    requires forall x :: x in s ==> x in next' && x in next && next'[x] == next[x]
    requires forall x :: x in s ==> x in prev' && x in prev && prev'[x] == prev[x]
    ensures Linked(next', prev', head, s)
  {
    forall k | 0 <= k < |s| ensures Node(next', prev', s, k) {
      assert Node(next, prev, s, k);
    }
  }

  /** Unlinking the k-th block. */
  lemma UnlinkKeeps(next: Links, prev: Links, head: Addr, s: seq<Addr>, k: nat, next': Links, prev': Links)
    requires Linked(next, prev, head, s) && NoDup(s) && k < |s|
    requires next' == if k == 0 then next else next[s[k - 1] := At(s, k + 1)]
    requires prev' == if k + 1 == |s| then prev else prev[s[k + 1] := At(s, k - 1)]
    ensures Linked(next', prev', if k == 0 then At(s, 1) else head, Without(s, k))
    ensures NoDup(Without(s, k))
  {
    var r := Without(s, k);
    forall j | 0 <= j < |r| ensures Node(next', prev', r, j) {
      var i := if j < k then j else j + 1;
      assert Node(next, prev, s, i);
    }
  }

  /** Linking a new block in front. */
  lemma PushFrontKeeps(next: Links, prev: Links, head: Addr, s: seq<Addr>, b: Addr, next': Links, prev': Links)
    requires Linked(next, prev, head, s) && NoDup(s) && b != 0 && b !in s
    requires next' == next[b := head]
    requires prev' == if head == 0 then prev[b := 0] else prev[b := 0][head := b]
    ensures Linked(next', prev', b, [b] + s)
    ensures NoDup([b] + s)
  {
    var r := [b] + s;
    if s != [] {
      assert Node(next, prev, s, 0);
    }
    forall j | 0 <= j < |r| ensures Node(next', prev', r, j) {
      if j > 0 {
        assert Node(next, prev, s, j - 1);
      }
    }
  }

  /** Putting block b in the place of the k-th one. */
  lemma ReplaceKeeps(next: Links, prev: Links, head: Addr, s: seq<Addr>, k: nat, b: Addr, next': Links, prev': Links)
    requires Linked(next, prev, head, s) && NoDup(s) && k < |s| && b != 0 && b !in s
    requires var n := next[b := At(s, k + 1)]; next' == if k == 0 then n else n[s[k - 1] := b]
    requires var p := prev[b := At(s, k - 1)]; prev' == if k + 1 == |s| then p else p[s[k + 1] := b]
    ensures Linked(next', prev', if k == 0 then b else head, Replaced(s, k, b))
    ensures NoDup(Replaced(s, k, b))
  {
    var r := Replaced(s, k, b);
    forall j | 0 <= j < |r| ensures Node(next', prev', r, j) {
      assert Node(next, prev, s, j);
    }
  }

  // ---------- A family of lists ----------

  /** Well-formed lists, no block on two of them. */
  ghost predicate AllLinked(next: Links, prev: Links, heads: seq<Addr>, lists: seq<seq<Addr>>) {
    && |heads| == |lists|
    && (forall i :: 0 <= i < |lists| ==> Linked(next, prev, heads[i], lists[i]) && NoDup(lists[i]))
    && OnOneList(lists)
  }

  ghost predicate OnOneList(lists: seq<seq<Addr>>) {
    forall i, j, x :: 0 <= i < |lists| && 0 <= j < |lists| && x in lists[i] && x in lists[j] ==> i == j
  }

  ghost predicate NotListed(lists: seq<seq<Addr>>, x: Addr) {
    forall j :: 0 <= j < |lists| ==> x !in lists[j]
  }

  lemma UnlinkAll(next: Links, prev: Links, heads: seq<Addr>, lists: seq<seq<Addr>>, m: nat, k: nat, next': Links,
                  prev': Links)
    requires AllLinked(next, prev, heads, lists) && m < |lists| && k < |lists[m]|
    requires var s := lists[m]; next' == if k == 0 then next else next[s[k - 1] := At(s, k + 1)]
    requires var s := lists[m]; prev' == if k + 1 == |s| then prev else prev[s[k + 1] := At(s, k - 1)]
    ensures var heads' := if k == 0 then heads[m := At(lists[m], 1)] else heads;
            AllLinked(next', prev', heads', lists[m := Without(lists[m], k)])
    ensures NotListed(lists[m := Without(lists[m], k)], lists[m][k])
  {
    var s := lists[m];
    UnlinkKeeps(next, prev, heads[m], s, k, next', prev');
    WithoutMembers(s, k);
    hide Linked, NoDup, Without;
    forall j | 0 <= j < |lists| && j != m ensures Linked(next', prev', heads[j], lists[j]) {
      InLinks(next, prev, heads[j], lists[j]);
      LinkedFrame(next, prev, next', prev', heads[j], lists[j]);
    }
  }

  lemma WithoutMembers(s: seq<Addr>, k: nat)
    requires k < |s|
    ensures forall x :: x in Without(s, k) ==> x in s
    ensures NoDup(s) ==> s[k] !in Without(s, k)
  {
  }

  lemma InLinks(next: Links, prev: Links, head: Addr, s: seq<Addr>)
    requires Linked(next, prev, head, s)
    ensures forall x :: x in s ==> x != 0 && x in next && x in prev
  {
    forall x | x in s ensures x != 0 && x in next && x in prev {
      var k :| 0 <= k < |s| && s[k] == x;
      assert Node(next, prev, s, k);
    }
  }

  lemma PushFrontAll(next: Links, prev: Links, heads: seq<Addr>, lists: seq<seq<Addr>>, m: nat, b: Addr, next': Links,
                     prev': Links)
    requires AllLinked(next, prev, heads, lists) && m < |lists| && b != 0
    requires NotListed(lists, b)
    requires next' == next[b := heads[m]]
    requires prev' == if heads[m] == 0 then prev[b := 0] else prev[b := 0][heads[m] := b]
    ensures AllLinked(next', prev', heads[m := b], lists[m := [b] + lists[m]])
  {
    var s := lists[m];
    PushFrontKeeps(next, prev, heads[m], s, b, next', prev');
    InLinks(next, prev, heads[m], s);
    forall j | 0 <= j < |lists| && j != m ensures Linked(next', prev', heads[j], lists[j]) {
      InLinks(next, prev, heads[j], lists[j]);
      assert heads[m] != 0 ==> heads[m] in lists[m];
      LinkedFrame(next, prev, next', prev', heads[j], lists[j]);
    }
  }

  lemma ReplacedMembers(s: seq<Addr>, k: nat, b: Addr)
    requires k < |s|
    ensures forall x :: x in Replaced(s, k, b) ==> x in s || x == b
    ensures NoDup(s) && b !in s ==> s[k] !in Replaced(s, k, b)
  {
  }

  lemma ReplaceAll(next: Links, prev: Links, heads: seq<Addr>, lists: seq<seq<Addr>>, m: nat, k: nat, b: Addr,
                   next': Links, prev': Links)
    requires AllLinked(next, prev, heads, lists) && m < |lists| && k < |lists[m]| && b != 0
    requires NotListed(lists, b)
    requires var s, n := lists[m], next[b := At(lists[m], k + 1)]; next' == if k == 0 then n else n[s[k - 1] := b]
    requires var s, p := lists[m], prev[b := At(lists[m], k - 1)]; prev' == if k + 1 == |s| then p else p[s[k + 1] := b]
    ensures var heads' := if k == 0 then heads[m := b] else heads;
            AllLinked(next', prev', heads', lists[m := Replaced(lists[m], k, b)])
    ensures NotListed(lists[m := Replaced(lists[m], k, b)], lists[m][k])
  {
    var s := lists[m];
    ReplaceKeeps(next, prev, heads[m], s, k, b, next', prev');
    ReplacedMembers(s, k, b);
    hide Linked, NoDup, Replaced;
    forall j | 0 <= j < |lists| && j != m ensures Linked(next', prev', heads[j], lists[j]) {
      InLinks(next, prev, heads[j], lists[j]);
      LinkedFrame(next, prev, next', prev', heads[j], lists[j]);
    }
  }
}
