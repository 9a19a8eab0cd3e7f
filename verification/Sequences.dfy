/** Finite sequences and sets: distinctness, elements, filtering, mapping, deduplication, counting. */
module Sequences {

  ghost predicate Distinct<T>(s: seq<T>) {
    forall i, j :: 0 <= i < j < |s| ==> s[i] != s[j]
  }

  function Elements<V(==)>(s: seq<V>): set<V> {
    set x | x in s
  }

  lemma ElementsAppend<V>(s: seq<V>, x: V)
    ensures Elements(s + [x]) == Elements(s) + {x}
  {
  }

  lemma ElementsPrepend<T>(x: T, s: seq<T>)
    ensures Elements([x] + s) == {x} + Elements(s)
  {
  }

  lemma DistinctCount<V>(s: seq<V>)
    requires Distinct(s)
    ensures |Elements(s)| == |s|
  {
    if s != [] {
      var init, x := s[..|s| - 1], s[|s| - 1];
      assert Elements(s) == Elements(init) + {x};
      DistinctCount(init);
    }
  }

  lemma SubsetSameSize<V>(a: set<V>, b: set<V>)
    requires a <= b && |a| == |b|
    ensures a == b
  {
    assert |b - a| == |b| - |a|;
  }

  lemma SubsetIsSmaller<T>(a: set<T>, b: set<T>)
    requires a <= b
    ensures |a| <= |b|
  {
    assert b == a + (b - a);
  }

  predicate Repeats<T(==)>(s: seq<T>) {
    |Elements(s)| != |s|
  }

  lemma {:induction false} RepeatsMeans<T>(s: seq<T>)
    ensures Repeats(s) <==> !Distinct(s)
    ensures |Elements(s)| <= |s|
  {
    if s != [] {
      var init, x := s[..|s| - 1], s[|s| - 1];
      RepeatsMeans(init);
      assert s == init + [x];
      ElementsAppend(init, x);
      assert Distinct(s) <==> Distinct(init) && x !in init;
      assert x in init <==> x in Elements(init);
      if x in init {
        assert Elements(s) == Elements(init);
      }
    }
  }

  lemma Pigeonhole<T>(p: seq<T>, s: set<T>) returns (i: nat, j: nat)
    requires |p| > |s| && forall x <- p :: x in s
    ensures i < j < |p| && p[i] == p[j]
  {
    var last := |p| - 1;
    var x := p[last];
    if x in p[..last] {
      i :| 0 <= i < last && p[..last][i] == x;
      j := last;
    } else {
      assert forall y <- p[..last] :: y in s - {x};
      i, j := Pigeonhole(p[..last], s - {x});
    }
  }

  method Enumerate<V(==)>(s: set<V>) returns (q: seq<V>)
    ensures Elements(q) == s && Distinct(q)
  {
    q := [];
    var rest := s;
    while rest != {}
      invariant rest <= s && Elements(q) == s - rest && Distinct(q)
      decreases rest
    {
      var x :| x in rest;
      ElementsAppend(q, x);
      q, rest := q + [x], rest - {x};
    }
  }

  lemma HeadAndTail<V>(queue: seq<V>)
    requires queue != [] && Distinct(queue)
    ensures Elements(queue) == Elements(queue[1..]) + {queue[0]}
    ensures queue[0] !in queue[1..] && Distinct(queue[1..])
  {
    assert queue == [queue[0]] + queue[1..];
  }

  function Map<A, B>(f: A -> B, s: seq<A>): (r: seq<B>)
    ensures |r| == |s| && forall i :: 0 <= i < |s| ==> r[i] == f(s[i])
  {
    seq(|s|, i requires 0 <= i < |s| => f(s[i]))
  }

  function Take<T>(s: seq<T>, n: nat): seq<T> {
    if |s| <= n then s else s[..n]
  }

  function Filter<T>(p: T -> bool, s: seq<T>): seq<T> {
    if s == [] then [] else (if p(s[0]) then [s[0]] else []) + Filter(p, s[1..])
  }

  lemma FilterMembers<T>(p: T -> bool, s: seq<T>)
    ensures forall x :: x in Filter(p, s) <==> x in s && p(x)
  {
    if s != [] {
      FilterMembers(p, s[1..]);
    }
  }

  lemma FilterAll<T>(p: T -> bool, s: seq<T>)
    requires forall x <- s :: p(x)
    ensures Filter(p, s) == s
  {
  }

  /** Filtering what another filter has already kept. */
  lemma {:induction false} FilterTwice<T>(p: T -> bool, q: T -> bool, both: T -> bool, s: seq<T>)
    requires forall x <- s :: both(x) <==> p(x) && q(x)
    ensures Filter(p, Filter(q, s)) == Filter(both, s)
  {
    if s != [] {
      FilterTwice(p, q, both, s[1..]);
      var rest := Filter(q, s[1..]);
      assert [] + rest == rest && ([s[0]] + rest)[1..] == rest;
    }
  }

  lemma FilterAppend<T>(p: T -> bool, a: seq<T>, x: T)
    ensures Filter(p, a + [x]) == Filter(p, a) + (if p(x) then [x] else [])
  {
    if a != [] {
      FilterAppend(p, a[1..], x);
      assert (a + [x])[1..] == a[1..] + [x];
    }
  }

  lemma {:induction false} FilterSplit<T>(p: T -> bool, s: seq<T>, n: nat)
    requires n <= |s|
    ensures Filter(p, s) == Filter(p, s[..n]) + Filter(p, s[n..])
  {
    if n == 0 {
      assert s[0..] == s;
    } else {
      FilterSplit(p, s[1..], n - 1);
      assert s[1..][..n - 1] == s[..n][1..] && s[1..][n - 1..] == s[n..];
    }
  }

  lemma FilterShrinks<T>(p: T -> bool, s: seq<T>)
    ensures multiset(Filter(p, s)) <= multiset(s)
  {
    if s != [] {
      FilterShrinks(p, s[1..]);
      assert s == [s[0]] + s[1..];
    }
  }

  /** `dict.fromkeys`: keeps the first of equal elements. */
  function Dedup<T(==)>(s: seq<T>): seq<T> {
    if s == [] then []
    else
      var init := Dedup(s[..|s| - 1]);
      if s[|s| - 1] in init then init else init + [s[|s| - 1]]
  }

  lemma DedupMembers<T>(s: seq<T>)
    ensures forall x :: x in Dedup(s) <==> x in s
    ensures Distinct(Dedup(s))
  {
    if s != [] {
      DedupMembers(s[..|s| - 1]);
      assert s == s[..|s| - 1] + [s[|s| - 1]];
    }
  }

  lemma {:induction false} FilterKeepsDistinct<T>(p: T -> bool, s: seq<T>)
    requires Distinct(s)
    ensures Distinct(Filter(p, s))
  {
    if s != [] {
      HeadAndTail(s);
      FilterKeepsDistinct(p, s[1..]);
      FilterMembers(p, s[1..]);
    }
  }

  /** What is deduplicated first stays in front. */
  lemma {:induction false} DedupKeepsFirst<T>(s: seq<T>, n: nat)
    requires n <= |s|
    ensures Dedup(s[..n]) <= Dedup(s)
  {
    if n < |s| {
      DedupKeepsFirst(s[..|s| - 1], n);
      assert s[..|s| - 1][..n] == s[..n];
    } else {
      assert s[..n] == s;
    }
  }

  lemma SameMembers<T>(a: seq<T>, b: seq<T>)
    requires multiset(a) == multiset(b)
    ensures |a| == |b| && forall x :: x in a <==> x in b
  {
    assert |multiset(a)| == |multiset(b)|;
    forall x
      ensures x in a <==> x in b
    {
      assert x in a <==> x in multiset(a);
      assert x in b <==> x in multiset(b);
    }
  }

  lemma TailMultiset<T>(a: seq<T>)
    requires a != []
    ensures multiset(a[1..]) == multiset(a) - multiset{a[0]}
    ensures a == [a[0]] + a[1..]
  {
    assert a == [a[0]] + a[1..];
  }

  lemma FilterWithout<T>(p: T -> bool, b: seq<T>, i: nat)
    requires i < |b|
    ensures multiset(Filter(p, b))
         == multiset(Filter(p, b[..i] + b[i + 1..])) + (if p(b[i]) then multiset{b[i]} else multiset{})
  {
    var rest := b[..i] + b[i + 1..];
    FilterSplit(p, b, i);
    FilterSplit(p, rest, i);
    assert rest[..i] == b[..i] && rest[i..] == b[i + 1..] && b[i..][1..] == b[i + 1..];
  }

  lemma {:induction false} FilterPermutes<T>(p: T -> bool, a: seq<T>, b: seq<T>)
    requires multiset(a) == multiset(b)
    ensures multiset(Filter(p, a)) == multiset(Filter(p, b))
    decreases a
  {
    SameMembers(a, b);
    if a != [] {
      var x := a[0];
      assert x in a;
      var i :| 0 <= i < |b| && b[i] == x;
      TailMultiset(a);
      assert b == b[..i] + ([b[i]] + b[i + 1..]);
      FilterPermutes(p, a[1..], b[..i] + b[i + 1..]);
      FilterWithout(p, b, i);
    }
  }

  lemma {:induction false} DistinctMultiset<T>(s: seq<T>)
    requires Distinct(s)
    ensures multiset(s) == multiset(Elements(s))
  {
    if s != [] {
      var init, x := s[..|s| - 1], s[|s| - 1];
      DistinctMultiset(init);
      assert s == init + [x];
      ElementsAppend(init, x);
      assert x !in Elements(init);
    }
  }

  /** Two distinct listings of the same elements are permutations of each other. */
  lemma DistinctListings<T>(a: seq<T>, b: seq<T>)
    requires Distinct(a) && Distinct(b) && Elements(a) == Elements(b)
    ensures multiset(a) == multiset(b)
  {
    DistinctMultiset(a);
    DistinctMultiset(b);
  }
}
