/** The list queries of the three document stores:
    `Model.find(filter).sort({ createdAt: -1 })` — every document the filter
    selects, each once, newest first. */
module Listing {
  import opened Common
  import opened Sorting

  /** The (id, document) pairs among the keys `ks` that `keep` selects. */
  ghost function Selected<V>(m: map<Id, V>, keep: V -> bool, ks: set<Id>): set<(Id, V)>
    requires ks <= m.Keys
  {
    set k | k in ks && keep(m[k]) :: (k, m[k])
  }

  /** The `{ createdAt: -1 }` order on (id, document) pairs. */
  function NewerFirst<V>(stamp: V -> int): ((Id, V), (Id, V)) -> bool
  {
    (a: (Id, V), b: (Id, V)) => stamp(a.1) >= stamp(b.1)
  }

  lemma NewerFirstIsPreorder<V(!new)>(stamp: V -> int)
    ensures TotalPreorder(NewerFirst(stamp))
  {
  }

  /** Processing one more key adds its pair exactly when `keep` selects it. */
  lemma SelectedStep<V>(m: map<Id, V>, keep: V -> bool, done: set<Id>, k: Id)
    requires done <= m.Keys && k in m && k !in done
    ensures keep(m[k]) ==> (k, m[k]) !in Selected(m, keep, done)
    ensures keep(m[k]) ==> Selected(m, keep, done + {k}) == Selected(m, keep, done) + {(k, m[k])}
    ensures !keep(m[k]) ==> Selected(m, keep, done + {k}) == Selected(m, keep, done)
  {
  }

  /** A sequence holding the selected pairs once each lists exactly them. */
  lemma SelectedMembers<V>(m: map<Id, V>, keep: V -> bool, r: seq<(Id, V)>)
    requires multiset(r) == multiset(Selected(m, keep, m.Keys))
    ensures forall i :: 0 <= i < |r| ==> r[i].0 in m && r[i].1 == m[r[i].0] && keep(r[i].1)
    ensures forall k :: k in m && keep(m[k]) ==> (k, m[k]) in r
  {
    forall i | 0 <= i < |r|
      ensures r[i].0 in m && r[i].1 == m[r[i].0] && keep(r[i].1)
    {
      assert r[i] in multiset(r);
    }
    forall k | k in m && keep(m[k])
      ensures (k, m[k]) in r
    {
      assert (k, m[k]) in multiset(Selected(m, keep, m.Keys));
    }
  }

  /** Every document of `m` that `keep` selects, exactly once, ordered by
      `stamp` from the largest (newest) down. */
  method NewestFirst<V(!new)>(m: map<Id, V>, keep: V -> bool, stamp: V -> int)
    returns (r: seq<(Id, V)>)
    ensures multiset(r) == multiset(Selected(m, keep, m.Keys))
    ensures forall i :: 0 <= i < |r| ==> r[i].0 in m && r[i].1 == m[r[i].0] && keep(r[i].1)
    ensures forall k :: k in m && keep(m[k]) ==> (k, m[k]) in r
    ensures forall i, j :: 0 <= i < j < |r| ==> stamp(r[i].1) >= stamp(r[j].1)
  {
    var le := NewerFirst(stamp);
    NewerFirstIsPreorder(stamp);
    var rest := m.Keys;
    r := [];
    while rest != {}
      invariant rest <= m.Keys
      invariant multiset(r) == multiset(Selected(m, keep, m.Keys - rest))
      invariant SortedBy(le, r)
      decreases rest
    {
      var k :| k in rest;
      var done := m.Keys - rest;
      SelectedStep(m, keep, done, k);
      if keep(m[k]) {
        assert multiset(Selected(m, keep, done + {k})) == multiset(Selected(m, keep, done)) + multiset{(k, m[k])};
        InsertSorted(le, (k, m[k]), r);
        r := Insert(le, (k, m[k]), r);
      }
      assert m.Keys - (rest - {k}) == done + {k};
      rest := rest - {k};
    }
    assert m.Keys - rest == m.Keys;
    SelectedMembers(m, keep, r);
  }
}
