/** Vocabulary shared by every part of the AcademicPro model: identifiers,
    optional values, fields of a JSON request body, route parameters, and the
    store-issued fresh identifier. */
module Common {

  /** Document identifiers (MongoDB ObjectIds) are abstracted to naturals. */
  type Id = nat

  datatype Option<+T> = None | Some(value: T)

  /** A field of a JSON request body: absent (`undefined`) or given. */
  datatype Field<+T> = Undefined | Given(value: T)

  /** The `:id` route parameter: either it casts to an identifier or the
      document mapper rejects it with a cast error. */
  datatype IdParam = Parsed(id: Id) | Malformed

  /** JavaScript truthiness of a string-valued body field. */
  predicate Truthy(f: Field<string>)
  {
    f.Given? && f.value != ""
  }

  /** The `field || current` idiom used by the partial-update handlers. */
  function OrKeep(f: Field<string>, current: string): string
  {
    if Truthy(f) then f.value else current
  }

  /** The `field !== undefined ? field : current` idiom. */
  function IfDefined<T>(f: Field<T>, current: T): T
  {
    if f.Given? then f.value else current
  }

  /** A field that is absent from the request stays absent in the document. */
  function FieldToOption<T>(f: Field<T>): Option<T>
  {
    if f.Given? then Some(f.value) else None
  }

  /** A set of naturals holding all of 0 .. n-1 has at least n elements. */
  lemma {:induction false} PrefixBound(s: set<nat>, n: nat)
    requires forall i: nat :: i < n ==> i in s
    ensures n <= |s|
  {
    if n > 0 {
      PrefixBound(s - {n - 1}, n - 1);
    }
  }

  /** The least identifier at or above `k` that `s` does not use. */
  function FirstFreeFrom(s: set<nat>, k: nat): (r: nat)
    requires forall i: nat :: i < k ==> i in s
    ensures r !in s && k <= r
    ensures forall i: nat :: i < r ==> i in s
    decreases |s| - k
  {
    PrefixBound(s, k);
    if k in s then
      PrefixBound(s, k + 1);
      FirstFreeFrom(s, k + 1)
    else
      k
  }

  /** The identifier the store issues to a new document: the least one not
      yet in use. The real store draws a fresh ObjectId; only freshness
      matters to the model. */
  function FreshId<V>(m: map<Id, V>): (k: Id)
    ensures k !in m
    ensures k <= |m|
  {
    var k := FirstFreeFrom(m.Keys, 0);
    PrefixBound(m.Keys, k);
    k
  }

  /** Elements of `s` satisfying `p`, in their original order
      (JavaScript's `Array.prototype.filter`). */
  function Filter<T(!new)>(p: T -> bool, s: seq<T>): (r: seq<T>)
    ensures |r| <= |s|
    ensures forall x :: x in r <==> x in s && p(x)
    ensures multiset(r) <= multiset(s)
  {
    if s == [] then []
    else
      assert s == [s[0]] + s[1..];
      if p(s[0]) then [s[0]] + Filter(p, s[1..]) else Filter(p, s[1..])
  }

  /** The first element is kept exactly when it passes. */
  lemma FilterCons<T(!new)>(p: T -> bool, s: seq<T>)
    requires s != []
    ensures |Filter(p, s)| == (if p(s[0]) then 1 else 0) + |Filter(p, s[1..])|
  {
  }

  /** Filtering distributes over concatenation: the kept elements keep
      their relative order. */
  lemma {:induction false} FilterAppend<T(!new)>(p: T -> bool, a: seq<T>, b: seq<T>)
    ensures Filter(p, a + b) == Filter(p, a) + Filter(p, b)
  {
    if a == [] {
      assert a + b == b;
    } else {
      assert (a + b)[0] == a[0];
      assert (a + b)[1..] == a[1..] + b;
      FilterAppend(p, a[1..], b);
    }
  }

  /** Two predicates that agree on every element of `s` keep the same
      elements of it. */
  lemma {:induction false} FilterAgree<T(!new)>(p: T -> bool, q: T -> bool, s: seq<T>)
    requires forall i :: 0 <= i < |s| ==> p(s[i]) == q(s[i])
    ensures Filter(p, s) == Filter(q, s)
  {
    if s != [] {
      FilterAgree(p, q, s[1..]);
    }
  }

  /** Filtering with a predicate every element satisfies changes nothing. */
  lemma {:induction false} FilterKeepsAll<T(!new)>(p: T -> bool, s: seq<T>)
    requires forall i :: 0 <= i < |s| ==> p(s[i])
    ensures Filter(p, s) == s
  {
    if s != [] {
      FilterKeepsAll(p, s[1..]);
    }
  }

  predicate Distinct<T(==)>(s: seq<T>)
  {
    forall i, j :: 0 <= i < j < |s| ==> s[i] != s[j]
  }

  /** Filtering never introduces a duplicate. */
  lemma {:induction false} FilterDistinct<T(!new)>(p: T -> bool, s: seq<T>)
    requires Distinct(s)
    ensures Distinct(Filter(p, s))
  {
    if s != [] {
      FilterDistinct(p, s[1..]);
      var r := Filter(p, s[1..]);
      assert s[0] !in s[1..];
      assert s[0] !in r;
    }
  }

  /** `s.filter(x => x !== v)`: drops every occurrence of `v`. */
  function Without<T(==,!new)>(s: seq<T>, v: T): (r: seq<T>)
    ensures v !in r
    ensures forall x :: x != v ==> (x in r <==> x in s)
    ensures v !in s ==> r == s
    ensures Distinct(s) ==> Distinct(r)
  {
    var r := Filter(x => x != v, s);
    assert Distinct(s) ==> Distinct(r) by {
      if Distinct(s) {
        FilterDistinct(x => x != v, s);
      }
    }
    assert v !in s ==> r == s by {
      if v !in s {
        FilterKeepsAll(x => x != v, s);
      }
    }
    r
  }
}
