/**
 Disappearing links: a pass over a table of links that keeps some of them.
 */
module Links {
  import opened MarkHeap
  import opened Sequences
  import opened HashTable

  /** The pass over the links t0, seen when it has come to position j of chain i and t is left: it took out only
      links that are not to be kept, and left none of those behind. */
  ghost predicate Swept(t0: map<Addr, ObjId>, t: map<Addr, ObjId>, head: seq<Chain<ObjId>>, log: nat, i: nat, j: nat,
                        keep: set<Addr>)
    requires i < |head| ==> j <= |head[i]|
  {
    && (forall k :: k in t ==> k in t0 && t[k] == t0[k])
    && (forall k :: k in t0 && k in keep ==> k in t)
    && (forall k :: k in t && Passed(head, log, i, j, k) ==> k in keep)
  }

  lemma SweptStep(t0: map<Addr, ObjId>, t: map<Addr, ObjId>, head: seq<Chain<ObjId>>, log: nat, i: nat, j: nat,
                  keep: set<Addr>)
    requires Stores(head, log, t) && i < |head| && j < |head[i]| && Swept(t0, t, head, log, i, j, keep)
    ensures var k := head[i][j].key;
            && k in t0 && t0[k] == t[k] == head[i][j].val
            && if k in keep then Swept(t0, t, head, log, i, j + 1, keep)
               else Swept(t0, t - {k}, head[i := Without(head[i], j)], log, i, j, keep)
                    && t0.Keys - (t - {k}).Keys == t0.Keys - t.Keys + {k}
  {
    var k := head[i][j].key;
    StoresLess(head, log, t, i, j);
    PassedNext(head, log, t, i, j);
    hide Passed, Stores, Hash;
    if k !in keep {
      PassedLess(head, log, i, j);
    }
  }

  lemma SweptChain(t0: map<Addr, ObjId>, t: map<Addr, ObjId>, head: seq<Chain<ObjId>>, log: nat, i: nat,
                   keep: set<Addr>)
    requires Stores(head, log, t) && i < |head| && Swept(t0, t, head, log, i, |head[i]|, keep)
    ensures Swept(t0, t, head, log, i + 1, 0, keep)
  {
    PassedChain(head, log, t, i);
  }

  lemma SweptStart(t: map<Addr, ObjId>, head: seq<Chain<ObjId>>, log: nat, keep: set<Addr>)
    ensures Swept(t, t, head, log, 0, 0, keep)
  {
    PassedNone(head, log);
  }

  /** What is left of t0 are the links to be kept. */
  ghost function Only(t0: map<Addr, ObjId>, keep: set<Addr>): map<Addr, ObjId> {
    map k | k in t0 && k in keep :: t0[k]
  }

  lemma SweptEnd(t0: map<Addr, ObjId>, t: map<Addr, ObjId>, head: seq<Chain<ObjId>>, log: nat, keep: set<Addr>)
    requires Stores(head, log, t) && Swept(t0, t, head, log, |head|, 0, keep)
    ensures t == Only(t0, keep) && t0.Keys - t.Keys == t0.Keys - keep
  {
    PassedAll(head, log, t);
    hide Passed, Stores;
    assert forall k :: k in t <==> k in t0 && k in keep;
    var r := Only(t0, keep);
    assert forall k :: k in t <==> k in r;
    assert forall k :: k in t ==> t[k] == r[k];
    assert t == r;
  }

  /** What two passes keep, the second one for dangling links. */
  lemma KeptTwice(t0: map<Addr, ObjId>, holder: map<Addr, ObjId>, marked: set<ObjId>, marked': set<ObjId>)
    ensures var t1 := Only(t0, Kept(t0, holder, marked, false));
            Only(t1, Kept(t1, holder, marked', true)) == Survivors(t0, holder, marked, marked')
    ensures t0.Keys - Kept(t0, holder, marked, false) == Stale(t0, marked)
  {
    var t1 := Only(t0, Kept(t0, holder, marked, false));
    assert forall k :: k in t1 ==> t1[k] == t0[k];
    var t2 := Only(t1, Kept(t1, holder, marked', true));
    assert forall k :: k in t2 <==> k in Survivors(t0, holder, marked, marked');
    assert t2.Keys == Survivors(t0, holder, marked, marked').Keys;
  }

  /** The links whose target was marked then, and whose cell lies outside the heap or in an object marked by now. */
  ghost function Survivors(t0: map<Addr, ObjId>, holder: map<Addr, ObjId>, marked: set<ObjId>,
                           marked': set<ObjId>): map<Addr, ObjId> {
    map k | k in t0 && t0[k] in marked && (k !in holder || holder[k] in marked') :: t0[k]
  }

  /** The cells of links whose target is not marked. */
  ghost function Stale(t0: map<Addr, ObjId>, marked: set<ObjId>): set<Addr> {
    set k | k in t0 && t0[k] !in marked
  }

  /** The links that a pass keeps: those whose target is marked, or, when dangling ones are removed, those whose cell
      lies outside the heap or in a marked object. */
  ghost function Kept(t0: map<Addr, ObjId>, holder: map<Addr, ObjId>, marked: set<ObjId>, dangling: bool): set<Addr> {
    set k | k in t0 && if dangling then k !in holder || holder[k] in marked else t0[k] in marked
  }
}
