/**
 Registrations of finalizers: each is in the table, then in the queue of those ready, until its finalizer is invoked.
 */
module Registrations {
  import opened MarkHeap

  /** A registration: its identity, the finalizer, its client data, and the size of the object. */
  datatype Fo = Fo(id: nat, fn: int, cd: int, size: nat)
  /** What is reported of the previous registration. */
  datatype Previous = NotReported | Previous(fn: int, cd: int)

  datatype Queued = Queued(base: ObjId, fo: Fo)

  ghost function Bases(q: seq<Queued>): set<ObjId> {
    set a | 0 <= a < |q| :: q[a].base
  }

  /** The registered objects that are not marked. */
  ghost function Due(r: map<ObjId, Fo>, marked: set<ObjId>): set<ObjId> {
    set k | k in r && k !in marked
  }

  lemma DueIsUnmarked(r: map<ObjId, Fo>, marked: set<ObjId>)
    ensures Due(r, marked) !! marked
  {
  }

  lemma DueLess(r: map<ObjId, Fo>, marked: set<ObjId>, marked': set<ObjId>)
    requires marked <= marked'
    ensures Due(r, marked') <= Due(r, marked)
    ensures Due(r, marked) - Due(r, marked') <= marked'
    ensures Due(r, marked) * marked' <= Due(r, marked) - Due(r, marked')
  {
  }

  /** The registrations `enq` were taken out of the table r0, which left r. */
  ghost predicate Moves(r0: map<ObjId, Fo>, r: map<ObjId, Fo>, enq: seq<Queued>) {
    && r == r0 - Bases(enq)
    && (forall a :: 0 <= a < |enq| ==> enq[a].base in r0 && enq[a].fo == r0[enq[a].base])
    && (forall a, b :: 0 <= a < b < |enq| ==> enq[a].base != enq[b].base)
  }

  lemma MovesOne(r0: map<ObjId, Fo>, r: map<ObjId, Fo>, enq: seq<Queued>, k: ObjId)
    requires Moves(r0, r, enq) && k in r
    ensures Moves(r0, r - {k}, [Queued(k, r[k])] + enq)
    ensures Bases([Queued(k, r[k])] + enq) == Bases(enq) + {k}
  {
    BasesFront(enq, Queued(k, r[k]));
    hide Bases;
    assert r - {k} == r0 - (Bases(enq) + {k});
  }

  lemma NothingMoved(r: map<ObjId, Fo>)
    ensures Moves(r, r, []) && Bases([]) == {}
  {
    assert r - Bases([]) == r;
  }

  lemma MovesIn(r0: map<ObjId, Fo>, r: map<ObjId, Fo>, enq: seq<Queued>, k: ObjId)
    requires Moves(r0, r, enq) && k in r
    ensures k in r0
  {
  }

  /** When nothing unmarked is left, exactly the unmarked ones were moved. */
  lemma AllMoved(r0: map<ObjId, Fo>, marked0: set<ObjId>, r: map<ObjId, Fo>, enq: seq<Queued>)
    requires Moves(r0, r, enq) && Bases(enq) !! marked0
    requires forall k :: k in r ==> k in marked0 + Bases(enq)
    ensures Bases(enq) == Due(r0, marked0)
  {
    forall k | k in Bases(enq) ensures k in r0 {
      var a :| 0 <= a < |enq| && enq[a].base == k;
    }
    assert forall k :: k in r0 ==> k in Bases(enq) || k in r;
    assert forall k :: k in r0 ==> k in Bases(enq) || k in marked0;
  }

  lemma MovedAll(r0: map<ObjId, Fo>, enq: seq<Queued>)
    requires Moves(r0, map[], enq)
    ensures Bases(enq) == r0.Keys
  {
    forall k | k in Bases(enq) ensures k in r0 {
      var a :| 0 <= a < |enq| && enq[a].base == k;
    }
    assert forall k :: k in r0 ==> k in Bases(enq) || k in r0 - Bases(enq);
  }

  lemma BasesFront(q: seq<Queued>, x: Queued)
    ensures Bases([x] + q) == Bases(q) + {x.base}
    ensures forall a :: 0 <= a < |q| ==> q[a].base in Bases(q)
  {
    var s := [x] + q;
    forall b | b in Bases(q) ensures b in Bases(s) {
      var a :| 0 <= a < |q| && q[a].base == b;
      assert s[a + 1].base == b;
    }
    assert s[0] == x;
  }

  // ---------- Where each registration is ----------

  ghost predicate InTable(r: map<ObjId, Fo>, id: nat) {
    exists k :: k in r && r[k].id == id
  }

  ghost predicate InQueue(q: seq<Queued>, id: nat) {
    exists a :: 0 <= a < |q| && q[a].fo.id == id
  }

  /** Registration `id`, if it was ever made, is in exactly one place. */
  ghost predicate InOnePlace(r: map<ObjId, Fo>, q: seq<Queued>, invoked: seq<nat>, dropped: set<nat>, issued: nat,
                             id: nat) {
    && (InTable(r, id) || InQueue(q, id) || id in invoked || id in dropped <==> id < issued)
    && !(InTable(r, id) && InQueue(q, id))
    && !(InTable(r, id) && (id in invoked || id in dropped))
    && !(InQueue(q, id) && (id in invoked || id in dropped))
    && !(id in invoked && id in dropped)
  }

  /** Of the registrations made so far, each is in the table, or in the queue, or was invoked, or was withdrawn, and
      nowhere twice. */
  ghost predicate Accounts(r: map<ObjId, Fo>, q: seq<Queued>, invoked: seq<nat>, dropped: set<nat>, issued: nat) {
    && DistinctIds(r)
    && (forall a, b :: 0 <= a < b < |q| ==> q[a].fo.id != q[b].fo.id)
    && (forall a, b :: 0 <= a < b < |invoked| ==> invoked[a] != invoked[b])
    && (forall id: nat :: InOnePlace(r, q, invoked, dropped, issued, id))
  }

  ghost predicate DistinctIds(r: map<ObjId, Fo>) {
    forall k, k' :: k in r && k' in r && r[k].id == r[k'].id ==> k == k'
  }

  lemma NoneRegistered()
    ensures Accounts(map[], [], [], {}, 0)
  {
  }

  lemma QueueOne(r: map<ObjId, Fo>, q: seq<Queued>, invoked: seq<nat>, dropped: set<nat>, issued: nat, k: ObjId)
    requires Accounts(r, q, invoked, dropped, issued) && k in r
    ensures Accounts(r - {k}, [Queued(k, r[k])] + q, invoked, dropped, issued)
  {
    var r', q' := r - {k}, [Queued(k, r[k])] + q;
    LessInTable(r, k);
    MoreInQueue(q, Queued(k, r[k]));
    hide InQueue, InTable;
    assert InOnePlace(r, q, invoked, dropped, issued, r[k].id);
    forall a, b | 0 <= a < b < |q'| ensures q'[a].fo.id != q'[b].fo.id {
      QueueHas(q, b - 1);
    }
    forall id: nat ensures InOnePlace(r', q', invoked, dropped, issued, id) {
      assert InOnePlace(r, q, invoked, dropped, issued, id);
    }
  }

  lemma LessInTable(r: map<ObjId, Fo>, k: ObjId)
    requires k in r && DistinctIds(r)
    ensures forall id: nat :: InTable(r - {k}, id) <==> InTable(r, id) && id != r[k].id
    ensures InTable(r, r[k].id)
  {
    forall id: nat | InTable(r, id) && id != r[k].id ensures InTable(r - {k}, id) {
      var x :| x in r && r[x].id == id;
      assert x in r - {k};
    }
  }

  lemma MoreInQueue(q: seq<Queued>, x: Queued)
    ensures forall id: nat :: InQueue([x] + q, id) <==> InQueue(q, id) || id == x.fo.id
  {
    var q' := [x] + q;
    forall id: nat | InQueue(q, id) ensures InQueue(q', id) {
      var a :| 0 <= a < |q| && q[a].fo.id == id;
      assert q'[a + 1].fo.id == id;
    }
    assert q'[0] == x;
  }

  lemma QueueHas(q: seq<Queued>, a: nat)
    ensures a < |q| ==> InQueue(q, q[a].fo.id)
  {
  }

  /** The first in the queue is invoked. */
  lemma InvokeOne(r: map<ObjId, Fo>, q: seq<Queued>, invoked: seq<nat>, dropped: set<nat>, issued: nat)
    requires Accounts(r, q, invoked, dropped, issued) && q != []
    ensures q[0].fo.id !in invoked
    ensures Accounts(r, q[1..], invoked + [q[0].fo.id], dropped, issued)
  {
    var q', x, invoked' := q[1..], q[0], invoked + [q[0].fo.id];
    assert q == [x] + q';
    MoreInQueue(q', x);
    QueueHas(q, 0);
    assert InOnePlace(r, q, invoked, dropped, issued, x.fo.id);
    assert !InQueue(q', x.fo.id);
    hide InQueue, InTable;
    assert forall id :: id in invoked' <==> id in invoked || id == x.fo.id;
    forall id: nat ensures InOnePlace(r, q', invoked', dropped, issued, id) {
      assert InOnePlace(r, q, invoked, dropped, issued, id);
    }
  }

  /** A new registration, or another finalizer for one there is already, or one withdrawn. */
  lemma RegisterOne(r: map<ObjId, Fo>, q: seq<Queued>, invoked: seq<nat>, dropped: set<nat>, issued: nat, k: ObjId,
                    v: Fo)
    requires Accounts(r, q, invoked, dropped, issued)
    requires if k in r then v.id == r[k].id else v.id == issued
    ensures Accounts(r[k := v], q, invoked, dropped, if k in r then issued else issued + 1)
  {
    var r', issued' := r[k := v], if k in r then issued else issued + 1;
    assert InOnePlace(r, q, invoked, dropped, issued, v.id);
    SetInTable(r, k, v);
    hide InQueue, InTable;
    forall id: nat ensures InOnePlace(r', q, invoked, dropped, issued', id) {
      assert InOnePlace(r, q, invoked, dropped, issued, id);
    }
  }

  lemma SetInTable(r: map<ObjId, Fo>, k: ObjId, v: Fo)
    requires DistinctIds(r) && if k in r then v.id == r[k].id else !InTable(r, v.id)
    ensures DistinctIds(r[k := v])
    ensures forall id: nat :: InTable(r[k := v], id) <==> InTable(r, id) || id == v.id
    ensures k in r ==> InTable(r, v.id)
  {
    var r' := r[k := v];
    forall id: nat | InTable(r, id) ensures InTable(r', id) {
      var x :| x in r && r[x].id == id;
      assert r'[x].id == id;
    }
    assert r'[k].id == v.id;
    assert forall x :: x in r ==> InTable(r, r[x].id);
  }

  lemma WithdrawOne(r: map<ObjId, Fo>, q: seq<Queued>, invoked: seq<nat>, dropped: set<nat>, issued: nat, k: ObjId)
    requires Accounts(r, q, invoked, dropped, issued) && k in r
    ensures Accounts(r - {k}, q, invoked, dropped + {r[k].id}, issued)
  {
    LessInTable(r, k);
    hide InQueue, InTable;
    forall id: nat ensures InOnePlace(r - {k}, q, invoked, dropped + {r[k].id}, issued, id) {
      assert InOnePlace(r, q, invoked, dropped, issued, id);
    }
  }
}
