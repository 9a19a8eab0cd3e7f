/**
 Python's ordering primitives: `sorted` with a key (a stable sort), the order of strings, and the order of tuples
 of numbers.
 */
module Ordering {
  import opened Sequences

  ghost predicate TotalPreorder<T(!new)>(le: (T, T) -> bool) {
    && (forall x, y :: le(x, y) || le(y, x))
    && (forall x, y, z :: le(x, y) && le(y, z) ==> le(x, z))
  }

  ghost predicate SortedBy<T>(le: (T, T) -> bool, s: seq<T>) {
    forall i, j :: 0 <= i < j < |s| ==> le(s[i], s[j])
  }

  function Insert<T>(le: (T, T) -> bool, x: T, s: seq<T>): seq<T> {
    if s == [] || le(x, s[0]) then [x] + s else [s[0]] + Insert(le, x, s[1..])
  }

  /** `sorted(s, key=...)`: a stable sort by the order `le` of the keys. */
  function SortBy<T>(le: (T, T) -> bool, s: seq<T>): seq<T> {
    if s == [] then [] else Insert(le, s[0], SortBy(le, s[1..]))
  }

  lemma {:induction false} InsertPermutes<T>(le: (T, T) -> bool, x: T, s: seq<T>)
    ensures multiset(Insert(le, x, s)) == multiset(s) + multiset{x}
  {
    if s != [] && !le(x, s[0]) {
      InsertPermutes(le, x, s[1..]);
      assert s == [s[0]] + s[1..];
    }
  }

  lemma {:induction false} SortPermutes<T>(le: (T, T) -> bool, s: seq<T>)
    ensures multiset(SortBy(le, s)) == multiset(s)
    ensures |SortBy(le, s)| == |s|
    ensures forall x :: x in SortBy(le, s) <==> x in s
  {
    if s != [] {
      SortPermutes(le, s[1..]);
      InsertPermutes(le, s[0], SortBy(le, s[1..]));
      assert s == [s[0]] + s[1..];
    }
    SameMembers(SortBy(le, s), s);
  }

  lemma {:induction false} InsertSorts<T(!new)>(le: (T, T) -> bool, x: T, s: seq<T>)
    requires TotalPreorder(le) && SortedBy(le, s)
    ensures SortedBy(le, Insert(le, x, s))
  {
    if s != [] && !le(x, s[0]) {
      InsertSorts(le, x, s[1..]);
      var rest := Insert(le, x, s[1..]);
      InsertPermutes(le, x, s[1..]);
      forall y | y in rest
        ensures le(s[0], y)
      {
        assert y in multiset(rest);
        assert y == x || y in multiset(s[1..]);
      }
    } else if s != [] {
      assert forall y <- s :: le(x, y);
    }
  }

  lemma {:induction false} SortSorts<T(!new)>(le: (T, T) -> bool, s: seq<T>)
    requires TotalPreorder(le)
    ensures SortedBy(le, SortBy(le, s))
  {
    if s != [] {
      SortSorts(le, s[1..]);
      InsertSorts(le, s[0], SortBy(le, s[1..]));
    }
  }

  lemma SortKeepsDistinct<T>(le: (T, T) -> bool, s: seq<T>)
    requires Distinct(s)
    ensures Distinct(SortBy(le, s))
  {
    SortPermutes(le, s);
    assert Elements(SortBy(le, s)) == Elements(s);
    DistinctCount(s);
    RepeatsMeans(SortBy(le, s));
  }

  /** `y` ties with `x`: their keys are equal. */
  function Tied<T>(le: (T, T) -> bool, x: T): T -> bool {
    y => le(x, y) && le(y, x)
  }

  lemma {:induction false} InsertIsStable<T(!new)>(le: (T, T) -> bool, x: T, s: seq<T>, z: T)
    requires TotalPreorder(le)
    ensures Filter(Tied(le, z), Insert(le, x, s)) == Filter(Tied(le, z), [x] + s)
  {
    if s != [] && !le(x, s[0]) {
      InsertIsStable(le, x, s[1..], z);
      assert ([x] + s)[1..] == s && ([x] + s[1..])[1..] == s[1..];
    }
  }

  /** Elements with equal keys keep their order. */
  lemma {:induction false} SortIsStable<T(!new)>(le: (T, T) -> bool, s: seq<T>, z: T)
    requires TotalPreorder(le)
    ensures Filter(Tied(le, z), SortBy(le, s)) == Filter(Tied(le, z), s)
  {
    if s != [] {
      SortIsStable(le, s[1..], z);
      InsertIsStable(le, s[0], SortBy(le, s[1..]), z);
      assert ([s[0]] + SortBy(le, s[1..]))[1..] == SortBy(le, s[1..]);
    }
  }

  /** The first of a sorted tuple is least, and comes from the tuple that was sorted. */
  lemma SortHeadIsLeast<T(!new)>(le: (T, T) -> bool, s: seq<T>)
    requires TotalPreorder(le) && s != []
    ensures SortBy(le, s) != [] && SortBy(le, s)[0] in s
    ensures forall x <- s :: le(SortBy(le, s)[0], x)
  {
    SortPermutes(le, s);
    SortSorts(le, s);
    var t := SortBy(le, s);
    assert t[0] in t;
    forall x | x in s
      ensures le(t[0], x)
    {
      var i :| 0 <= i < |t| && t[i] == x;
    }
  }

  ghost predicate TiesAreEqual<T>(le: (T, T) -> bool, s: seq<T>) {
    forall x, y :: x in s && y in s && le(x, y) && le(y, x) ==> x == y
  }

  lemma SameHead<T(!new)>(le: (T, T) -> bool, a: seq<T>, b: seq<T>)
    requires TotalPreorder(le) && SortedBy(le, a) && SortedBy(le, b) && TiesAreEqual(le, a)
    requires a != [] && multiset(a) == multiset(b)
    ensures b != [] && a[0] == b[0]
  {
    SameMembers(a, b);
    assert a[0] in b && b[0] in a;
  }

  lemma TailStaysSorted<T>(le: (T, T) -> bool, s: seq<T>)
    requires s != [] && SortedBy(le, s)
    ensures SortedBy(le, s[1..])
    ensures TiesAreEqual(le, s) ==> TiesAreEqual(le, s[1..])
  {
  }

  /** Sorting leaves one possible result when no two different elements tie. */
  lemma {:induction false} SortedUnique<T(!new)>(le: (T, T) -> bool, a: seq<T>, b: seq<T>)
    requires TotalPreorder(le) && SortedBy(le, a) && SortedBy(le, b)
    requires multiset(a) == multiset(b) && TiesAreEqual(le, a)
    ensures a == b
  {
    hide TotalPreorder, SortedBy, TiesAreEqual;
    SameMembers(a, b);
    if a != [] {
      SameHead(le, a, b);
      TailMultiset(a);
      TailMultiset(b);
      TailStaysSorted(le, a);
      TailStaysSorted(le, b);
      SortedUnique(le, a[1..], b[1..]);
    }
  }

  lemma SortIsInvariant<T(!new)>(le: (T, T) -> bool, a: seq<T>, b: seq<T>)
    requires TotalPreorder(le) && multiset(a) == multiset(b) && TiesAreEqual(le, a)
    ensures SortBy(le, a) == SortBy(le, b)
  {
    SortPermutes(le, a);
    SortPermutes(le, b);
    SortSorts(le, a);
    SortSorts(le, b);
    SortedUnique(le, SortBy(le, a), SortBy(le, b));
  }

  /** Python's order of strings, by code point. */
  predicate StringLe(a: string, b: string) {
    if a == "" then true
    else if b == "" then false
    else if a[0] == b[0] then StringLe(a[1..], b[1..])
    else a[0] < b[0]
  }

  lemma {:induction false} StringLeTotal(a: string, b: string)
    ensures StringLe(a, b) || StringLe(b, a)
    ensures StringLe(a, b) && StringLe(b, a) ==> a == b
  {
    if a != "" && b != "" && a[0] == b[0] {
      StringLeTotal(a[1..], b[1..]);
      assert a == [a[0]] + a[1..] && b == [b[0]] + b[1..];
    }
  }

  lemma {:induction false} StringLeTransitive(a: string, b: string, c: string)
    requires StringLe(a, b) && StringLe(b, c)
    ensures StringLe(a, c)
  {
    if a != "" && a[0] == b[0] == c[0] {
      StringLeTransitive(a[1..], b[1..], c[1..]);
    }
  }

  lemma StringLeIsOrder()
    ensures TotalPreorder(StringLe)
  {
    forall a, b ensures StringLe(a, b) || StringLe(b, a) {
      StringLeTotal(a, b);
    }
    forall a, b, c | StringLe(a, b) && StringLe(b, c) ensures StringLe(a, c) {
      StringLeTransitive(a, b, c);
    }
  }

  /** The strings agree before `k` and differ there. */
  ghost predicate StringsPartAt(a: string, b: string, k: nat) {
    k < |a| && k < |b| && a[..k] == b[..k] && a[k] < b[k]
  }

  /** A string comes first when the other extends it, or by the first character at which they differ. */
  lemma {:induction false} StringLeExactly(a: string, b: string)
    ensures StringLe(a, b) <==> a <= b || exists k: nat :: StringsPartAt(a, b, k)
  {
    if a != "" && b != "" && a[0] == b[0] {
      StringLeExactly(a[1..], b[1..]);
      if k: nat :| StringsPartAt(a[1..], b[1..], k) {
        assert a[..k + 1] == [a[0]] + a[1..][..k] && b[..k + 1] == [b[0]] + b[1..][..k];
        assert StringsPartAt(a, b, k + 1);
      }
      if k: nat :| StringsPartAt(a, b, k) {
        assert k > 0 && a[1..][..k - 1] == a[..k][1..] && b[1..][..k - 1] == b[..k][1..];
        assert StringsPartAt(a[1..], b[1..], k - 1);
      }
      assert a <= b <==> a[1..] <= b[1..] by {
        assert a == [a[0]] + a[1..] && b == [b[0]] + b[1..];
      }
    } else if a != "" && b != "" && a[0] < b[0] {
      assert StringsPartAt(a, b, 0);
    }
  }

  /** Python's order of tuples of numbers. */
  predicate TupleLe(a: seq<real>, b: seq<real>) {
    if a == [] then true
    else if b == [] then false
    else if a[0] == b[0] then TupleLe(a[1..], b[1..])
    else a[0] < b[0]
  }

  lemma {:induction false} TupleLeTotal(a: seq<real>, b: seq<real>)
    ensures TupleLe(a, b) || TupleLe(b, a)
    ensures TupleLe(a, b) && TupleLe(b, a) ==> a == b
  {
    if a != [] && b != [] && a[0] == b[0] {
      TupleLeTotal(a[1..], b[1..]);
      assert a == [a[0]] + a[1..] && b == [b[0]] + b[1..];
    }
  }

  lemma {:induction false} TupleLeTransitive(a: seq<real>, b: seq<real>, c: seq<real>)
    requires TupleLe(a, b) && TupleLe(b, c)
    ensures TupleLe(a, c)
  {
    if a != [] && a[0] == b[0] == c[0] {
      TupleLeTransitive(a[1..], b[1..], c[1..]);
    }
  }

  lemma {:induction false} TupleLePrefix(a: seq<real>, b: seq<real>, x: seq<real>, y: seq<real>)
    requires |a| == |b| && TupleLe(a + x, b + y)
    ensures TupleLe(a, b)
  {
    if a != [] && a[0] == b[0] {
      assert (a + x)[1..] == a[1..] + x && (b + y)[1..] == b[1..] + y;
      TupleLePrefix(a[1..], b[1..], x, y);
    }
  }

  /** The tuples agree before `k`, and there `a` is smaller. */
  ghost predicate TuplesPartAt(a: seq<real>, b: seq<real>, k: nat) {
    k < |a| == |b| && a[..k] == b[..k] && a[k] < b[k]
  }

  /** The order of two tuples is decided at their first difference, and by what follows if there is none. */
  lemma {:induction false} TupleLeExactly(a: seq<real>, b: seq<real>, x: seq<real>, y: seq<real>)
    requires |a| == |b|
    ensures TupleLe(a + x, b + y) <==> (exists k: nat :: TuplesPartAt(a, b, k)) || (a == b && TupleLe(x, y))
  {
    if a == [] {
      assert a + x == x && b + y == y;
    } else {
      assert (a + x)[1..] == a[1..] + x && (b + y)[1..] == b[1..] + y;
      assert a == [a[0]] + a[1..] && b == [b[0]] + b[1..];
      TupleLeExactly(a[1..], b[1..], x, y);
      if a[0] < b[0] {
        assert TuplesPartAt(a, b, 0);
      }
      if k: nat :| TuplesPartAt(a[1..], b[1..], k) && a[0] == b[0] {
        assert a[..k + 1] == [a[0]] + a[1..][..k] && b[..k + 1] == [b[0]] + b[1..][..k];
        assert TuplesPartAt(a, b, k + 1);
      }
      if k: nat :| TuplesPartAt(a, b, k) && a[0] >= b[0] {
        assert k > 0 && a[..k][0] == b[..k][0];
        assert a[1..][..k - 1] == a[..k][1..] && b[1..][..k - 1] == b[..k][1..];
        assert TuplesPartAt(a[1..], b[1..], k - 1);
      }
    }
  }
}
