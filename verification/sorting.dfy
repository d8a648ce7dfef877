/** Stable insertion sort over an arbitrary comparison, standing in for
    JavaScript's (stable) `Array.prototype.sort` and for the store's
    `sort({ createdAt: -1 })`. */
module Sorting {
  import opened Common

  /** Every earlier element is related to every later one. */
  predicate SortedBy<T>(le: (T, T) -> bool, s: seq<T>)
  {
    forall i, j :: 0 <= i < j < |s| ==> le(s[i], s[j])
  }

  /** `le` is a total preorder: any two values compare, and comparison
      chains. Comparators built from `localeCompare` or from timestamps are
      of this kind. */
  ghost predicate TotalPreorder<T(!new)>(le: (T, T) -> bool)
  {
    && (forall a, b :: le(a, b) || le(b, a))
    && (forall a, b, c :: le(a, b) && le(b, c) ==> le(a, c))
  }

  /** Inserts `x` after every element of the prefix that is not above it,
      so that equal elements keep their arrival order. */
  function Insert<T>(le: (T, T) -> bool, x: T, s: seq<T>): (r: seq<T>)
    ensures multiset(r) == multiset(s) + multiset{x}
    ensures |r| == |s| + 1
  {
    if s == [] then [x]
    else
      assert s == [s[0]] + s[1..];
      if le(s[0], x) then [s[0]] + Insert(le, x, s[1..]) else [x] + s
  }

  /** Sorts `s` by inserting its elements one after another. */
  function Sort<T>(le: (T, T) -> bool, s: seq<T>): (r: seq<T>)
    ensures multiset(r) == multiset(s)
    ensures |r| == |s|
  {
    if s == [] then []
    else
      assert s == s[..|s| - 1] + [s[|s| - 1]];
      Insert(le, s[|s| - 1], Sort(le, s[..|s| - 1]))
  }

  lemma {:induction false} InsertSorted<T(!new)>(le: (T, T) -> bool, x: T, s: seq<T>)
    requires TotalPreorder(le)
    requires SortedBy(le, s)
    ensures SortedBy(le, Insert(le, x, s))
  {
    if s != [] && le(s[0], x) {
      var t := s[1..];
      InsertSorted(le, x, t);
      var r := Insert(le, x, t);
      forall y | y in r
        ensures le(s[0], y)
      {
        assert y in multiset(r);
        assert y in multiset(t) || y == x;
      }
      assert Insert(le, x, s) == [s[0]] + r;
    }
  }

  /** Under a total preorder the sort returns a sorted permutation. */
  lemma {:induction false} SortSorted<T(!new)>(le: (T, T) -> bool, s: seq<T>)
    requires TotalPreorder(le)
    ensures SortedBy(le, Sort(le, s))
  {
    if s != [] {
      SortSorted(le, s[..|s| - 1]);
      InsertSorted(le, s[|s| - 1], Sort(le, s[..|s| - 1]));
    }
  }

  /** The test "compares equal to `x` both ways": the elements tied with
      `x`. */
  function TiedWith<T>(le: (T, T) -> bool, x: T): T -> bool
  {
    y => le(x, y) && le(y, x)
  }

  /** The sort is stable: the elements tied with any `x` come out in the
      order they went in. */
  lemma {:induction false} SortStable<T(!new)>(le: (T, T) -> bool, s: seq<T>, x: T)
    requires TotalPreorder(le)
    ensures Filter(TiedWith(le, x), Sort(le, s)) == Filter(TiedWith(le, x), s)
  {
    if s != [] {
      var init, last := s[..|s| - 1], s[|s| - 1];
      SortStable(le, init, x);
      SortSorted(le, init);
      InsertTies(le, x, last, Sort(le, init));
      assert s == init + [last];
      FilterAppend(TiedWith(le, x), init, [last]);
    }
  }

  /** Inserting `y` into a sorted sequence puts it after every element
      tied with it. */
  lemma {:induction false} InsertTies<T(!new)>(le: (T, T) -> bool, x: T, y: T, t: seq<T>)
    requires TotalPreorder(le)
    requires SortedBy(le, t)
    ensures Filter(TiedWith(le, x), Insert(le, y, t)) == Filter(TiedWith(le, x), t) + Filter(TiedWith(le, x), [y])
  {
    if t != [] {
      if le(t[0], y) {
        SortedTail(le, t);
        InsertTies(le, x, y, t[1..]);
        InsertTiesStep(le, x, y, t);
      } else {
        assert Insert(le, y, t) == [y] + t;
        FilterAppend(TiedWith(le, x), [y], t);
        if TiedWith(le, x)(y) {
          NoTiesAfter(le, x, y, t);
        }
      }
    }
  }

  lemma SortedTail<T>(le: (T, T) -> bool, t: seq<T>)
    requires t != [] && SortedBy(le, t)
    ensures SortedBy(le, t[1..])
  {
  }

  /** The step of `InsertTies` past a head that sorts no later than `y`. */
  lemma InsertTiesStep<T(!new)>(le: (T, T) -> bool, x: T, y: T, t: seq<T>)
    requires t != [] && le(t[0], y)
    requires Filter(TiedWith(le, x), Insert(le, y, t[1..])) == Filter(TiedWith(le, x), t[1..]) + Filter(TiedWith(le, x), [y])
    ensures Filter(TiedWith(le, x), Insert(le, y, t)) == Filter(TiedWith(le, x), t) + Filter(TiedWith(le, x), [y])
  {
    var p, rest := TiedWith(le, x), t[1..];
    InsertPastHead(le, y, t);
    FilterConsStep(p, t[0], Insert(le, y, rest), rest, Filter(p, [y]));
  }

  lemma InsertPastHead<T>(le: (T, T) -> bool, y: T, t: seq<T>)
    requires t != [] && le(t[0], y)
    ensures Insert(le, y, t) == [t[0]] + Insert(le, y, t[1..])
    ensures t == [t[0]] + t[1..]
  {
  }

  /** Putting the same head in front of two sequences keeps a suffix
      relation between what the filter keeps of them. */
  lemma FilterConsStep<T(!new)>(p: T -> bool, h: T, u: seq<T>, v: seq<T>, w: seq<T>)
    requires Filter(p, u) == Filter(p, v) + w
    ensures Filter(p, [h] + u) == Filter(p, [h] + v) + w
  {
    FilterAppend(p, [h], u);
    FilterAppend(p, [h], v);
    Associate(Filter(p, [h]), Filter(p, v), w);
  }

  lemma Associate<T>(a: seq<T>, b: seq<T>, c: seq<T>)
    ensures a + (b + c) == (a + b) + c
  {
  }

  /** When `y` sorts before the head of a sorted sequence, nothing in it
      is tied with `x` while `y` is. */
  lemma NoTiesAfter<T(!new)>(le: (T, T) -> bool, x: T, y: T, t: seq<T>)
    requires TotalPreorder(le)
    requires SortedBy(le, t)
    requires t != [] && !le(t[0], y) && TiedWith(le, x)(y)
    ensures Filter(TiedWith(le, x), t) == []
  {
    forall i | 0 <= i < |t|
      ensures !TiedWith(le, x)(t[i])
    {
      assert i == 0 || le(t[0], t[i]);
    }
  }

  /** A permutation has the same elements. */
  lemma PermutationMembers<T>(a: seq<T>, b: seq<T>)
    requires multiset(a) == multiset(b)
    ensures forall x :: x in a <==> x in b
  {
    forall x
      ensures x in a <==> x in b
    {
      assert x in a <==> x in multiset(a);
      assert x in b <==> x in multiset(b);
    }
  }
}
