/** Python's `sorted`: a stable sort, and the orders the program sorts by. */
module Ordering {

  // ---- Sequences without repetition ------------------------------------------------

  ghost predicate Distinct<T(!new)>(s: seq<T>) {
    forall i, j :: 0 <= i < j < |s| ==> s[i] != s[j]
  }

  ghost predicate Ascending(p: seq<nat>) {
    forall i, j :: 0 <= i < j < |p| ==> p[i] < p[j]
  }

  lemma AscendingNext(at: seq<nat>, n: nat)
    requires Ascending(at) && forall i :: i in at ==> i < n
    ensures Ascending(at + [n]) && forall i: nat :: i in at + [n] <==> i in at || i == n
  {
    forall i, j | 0 <= i < j < |at + [n]| ensures (at + [n])[i] < (at + [n])[j] { assert at[i] in at; }
  }

  /** Concatenation associates. */
  lemma Regrouped<T>(a: seq<T>, b: seq<T>, c: seq<T>)
    ensures a + (b + c) == (a + b) + c
  {
  }

  lemma DistinctAppend<T(!new)>(a: seq<T>, b: seq<T>)
    requires Distinct(a) && Distinct(b) && forall x :: x in a ==> x !in b
    ensures Distinct(a + b)
  {
    var s := a + b;
    forall i, j | 0 <= i < j < |s| ensures s[i] != s[j] {
      if i < |a| <= j { assert s[i] in a && s[j] in b; }
    }
  }

  ghost function Elements<T(!new)>(s: seq<T>): set<T> {
    set x | x in s
  }

  lemma IndexOf<T>(s: seq<T>, x: T) returns (i: nat)
    requires x in s
    ensures i < |s| && s[i] == x
  {
    i :| 0 <= i < |s| && s[i] == x;
  }

  /** A sequence has at most as many distinct elements as positions, and exactly as many
      when nothing repeats. */
  lemma {:induction false} DistinctSize<T(!new)>(s: seq<T>)
    ensures |Elements(s)| <= |s|
    ensures Distinct(s) <==> |Elements(s)| == |s|
  {
    if s == [] {
      assert Elements(s) == {};
    } else {
      var n := |s| - 1;
      var p, x := s[..n], s[n];
      DistinctSize(p);
      assert s == p + [x];
      assert Elements(s) == Elements(p) + {x};
      if x in p {
        var i :| 0 <= i < n && p[i] == x;
        assert Elements(s) == Elements(p);
        assert s[i] == s[n];
      } else if Distinct(p) {
        assert forall i, j :: 0 <= i < j < |s| ==> s[i] != s[j];
      } else {
        var i, j :| 0 <= i < j < n && p[i] == p[j];
        assert s[i] == s[j];
      }
    }
  }

  /** The numbers 0 .. n-1. */
  function Range(n: nat): seq<int> {
    seq(n, i => i)
  }

  lemma {:induction false} RangeElements(n: nat)
    ensures |Elements(Range(n))| == n
    ensures forall x :: x in Elements(Range(n)) <==> 0 <= x < n
  {
    DistinctSize(Range(n));
    forall x ensures x in Elements(Range(n)) <==> 0 <= x < n {
      if 0 <= x < n { assert Range(n)[x] == x; }
    }
  }

  /** Pigeonhole: numbers below n without repetition are at most n many, and n of them
      are all of them. */
  lemma Pigeonhole(s: seq<int>, n: nat)
    requires Distinct(s)
    requires forall x :: x in s ==> 0 <= x < n
    ensures |s| <= n
    ensures |s| == n ==> forall x :: 0 <= x < n ==> x in s
  {
    DistinctSize(s);
    RangeElements(n);
    var all := Elements(Range(n));
    assert Elements(s) <= all;
    SubsetSize(Elements(s), all);
    if |s| == n {
      forall x | 0 <= x < n ensures x in s { assert x in all; }
    }
  }

  lemma SubsetSize<T>(a: set<T>, b: set<T>)
    requires a <= b
    ensures |a| <= |b|
    ensures |a| == |b| ==> a == b
  {
    assert b == a + (b - a);
    assert |b| == |a| + |b - a|;
  }

  // ---- Stable sorting --------------------------------------------------------------

  ghost predicate TotalPreorder<T(!new)>(leq: (T, T) -> bool) {
    && (forall x, y :: leq(x, y) || leq(y, x))
    && (forall x, y, z :: leq(x, y) && leq(y, z) ==> leq(x, z))
  }

  ghost predicate SortedBy<T>(s: seq<T>, leq: (T, T) -> bool) {
    forall i, j :: 0 <= i < j < |s| ==> leq(s[i], s[j])
  }

  /** Elements of s that the order cannot tell apart are equal. */
  ghost predicate Separates<T>(leq: (T, T) -> bool, s: seq<T>) {
    forall i, j :: 0 <= i < |s| && 0 <= j < |s| && leq(s[i], s[j]) && leq(s[j], s[i]) ==> s[i] == s[j]
  }

  function Insert<T>(x: T, s: seq<T>, leq: (T, T) -> bool): seq<T> {
    if s == [] || leq(x, s[0]) then [x] + s else [s[0]] + Insert(x, s[1..], leq)
  }

  /** `sorted(xs, key=...)`: stable, with leq comparing the keys. */
  function SortBy<T>(xs: seq<T>, leq: (T, T) -> bool): seq<T> {
    if xs == [] then [] else Insert(xs[0], SortBy(xs[1..], leq), leq)
  }

  lemma {:induction false} InsertPermutes<T>(x: T, s: seq<T>, leq: (T, T) -> bool)
    ensures multiset(Insert(x, s, leq)) == multiset(s) + multiset{x}
    ensures |Insert(x, s, leq)| == |s| + 1
  {
    if s == [] || leq(x, s[0]) {
    } else {
      InsertPermutes(x, s[1..], leq);
      assert s == [s[0]] + s[1..];
    }
  }

  lemma {:induction false} SortPermutes<T>(xs: seq<T>, leq: (T, T) -> bool)
    ensures multiset(SortBy(xs, leq)) == multiset(xs)
    ensures |SortBy(xs, leq)| == |xs|
  {
    if xs != [] {
      SortPermutes(xs[1..], leq);
      InsertPermutes(xs[0], SortBy(xs[1..], leq), leq);
      assert xs == [xs[0]] + xs[1..];
    }
  }

  lemma {:induction false} SortMembers<T>(xs: seq<T>, leq: (T, T) -> bool)
    ensures forall x :: x in SortBy(xs, leq) <==> x in xs
  {
    SortPermutes(xs, leq);
    forall x ensures x in SortBy(xs, leq) <==> x in xs {
      assert x in SortBy(xs, leq) <==> x in multiset(SortBy(xs, leq));
      assert x in xs <==> x in multiset(xs);
    }
  }

  lemma {:induction false} InsertSorted<T(!new)>(x: T, s: seq<T>, leq: (T, T) -> bool)
    requires TotalPreorder(leq) && SortedBy(s, leq)
    ensures SortedBy(Insert(x, s, leq), leq)
  {
    if s == [] {
    } else if leq(x, s[0]) {
      forall i | 0 <= i < |s| ensures leq(x, s[i]) {
        if i > 0 { assert leq(s[0], s[i]); }
      }
    } else {
      InsertSorted(x, s[1..], leq);
      var r := Insert(x, s[1..], leq);
      InsertPermutes(x, s[1..], leq);
      forall i | 0 <= i < |r| ensures leq(s[0], r[i]) {
        assert r[i] in multiset(r);
        if r[i] != x {
          assert r[i] in multiset(s[1..]);
          var k :| 0 <= k < |s| - 1 && s[1..][k] == r[i];
          assert s[k + 1] == r[i];
        }
      }
    }
  }

  lemma {:induction false} SortSorts<T(!new)>(xs: seq<T>, leq: (T, T) -> bool)
    requires TotalPreorder(leq)
    ensures SortedBy(SortBy(xs, leq), leq)
  {
    if xs != [] {
      SortSorts(xs[1..], leq);
      InsertSorted(xs[0], SortBy(xs[1..], leq), leq);
    }
  }

  /** A sequence already in order is left as it is. */
  lemma {:induction false} SortKeepsSorted<T(!new)>(xs: seq<T>, leq: (T, T) -> bool)
    requires SortedBy(xs, leq)
    ensures SortBy(xs, leq) == xs
  {
    if xs != [] {
      assert SortedBy(xs[1..], leq);
      SortKeepsSorted(xs[1..], leq);
      if |xs| > 1 { assert leq(xs[0], xs[1]); }
      assert xs == [xs[0]] + xs[1..];
    }
  }

  lemma SortedTail<T(!new)>(a: seq<T>, leq: (T, T) -> bool)
    requires SortedBy(a, leq) && a != []
    ensures SortedBy(a[1..], leq) && multiset(a[1..]) == multiset(a) - multiset{a[0]}
  {
    assert a == [a[0]] + a[1..];
  }

  lemma SeparatesTail<T(!new)>(a: seq<T>, leq: (T, T) -> bool)
    requires Separates(leq, a) && a != []
    ensures Separates(leq, a[1..])
  {
  }

  lemma SameLeast<T(!new)>(a: seq<T>, b: seq<T>, leq: (T, T) -> bool)
    requires TotalPreorder(leq) && SortedBy(a, leq) && SortedBy(b, leq) && Separates(leq, a)
    requires a != [] && b != [] && b[0] in a && a[0] in b
    ensures a[0] == b[0]
  {
    var i := IndexOf(a, b[0]);
    var j := IndexOf(b, a[0]);
    assert leq(a[0], a[0]) && leq(b[0], b[0]);
    assert leq(a[0], a[i]) && leq(b[0], b[j]);
  }

  /** Two ordered arrangements of the same elements are the same sequence when the order
      separates the elements. */
  lemma {:induction false} SortedUnique<T(!new)>(a: seq<T>, b: seq<T>, leq: (T, T) -> bool)
    requires TotalPreorder(leq) && SortedBy(a, leq) && SortedBy(b, leq)
    requires multiset(a) == multiset(b)
    requires Separates(leq, a)
    ensures a == b
  {
    assert |a| == |multiset(a)| == |multiset(b)| == |b|;
    if a != [] {
      assert b[0] in multiset(a) && a[0] in multiset(b);
      SameLeast(a, b, leq);
      SortedTail(a, leq);
      SortedTail(b, leq);
      SeparatesTail(a, leq);
      SortedUnique(a[1..], b[1..], leq);
      assert a == [a[0]] + a[1..] && b == [b[0]] + b[1..];
    }
  }

  /** The same without multiplicities, for arrangements that repeat nothing. */
  lemma {:induction false} SortedSetUnique<T(!new)>(a: seq<T>, b: seq<T>, leq: (T, T) -> bool)
    requires TotalPreorder(leq) && SortedBy(a, leq) && SortedBy(b, leq)
    requires Distinct(a) && Distinct(b) && forall x :: x in a <==> x in b
    requires Separates(leq, a)
    ensures a == b
  {
    assert b != [] ==> b[0] in b && b[0] in a;
    if a != [] {
      assert a[0] in a && a[0] in b;
      assert b[0] in b && b[0] in a;
      SameLeast(a, b, leq);
      assert a == [a[0]] + a[1..] && b == [b[0]] + b[1..];
      forall x ensures x in a[1..] <==> x in b[1..] {
        assert x in a <==> x == a[0] || x in a[1..];
        assert x in b <==> x == b[0] || x in b[1..];
        assert a[0] !in a[1..] && b[0] !in b[1..];
      }
      assert Separates(leq, a[1..]);
      SortedSetUnique(a[1..], b[1..], leq);
    }
  }

  /** Sorting forgets the order of its input when the order separates the elements. */
  lemma {:induction false} SortForgetsOrder<T(!new)>(a: seq<T>, b: seq<T>, leq: (T, T) -> bool)
    requires TotalPreorder(leq) && multiset(a) == multiset(b)
    requires Separates(leq, a)
    ensures SortBy(a, leq) == SortBy(b, leq)
  {
    SortPermutes(a, leq);
    SortPermutes(b, leq);
    SortSorts(a, leq);
    SortSorts(b, leq);
    var s := SortBy(a, leq);
    forall i, j | 0 <= i < |s| && 0 <= j < |s| && leq(s[i], s[j]) && leq(s[j], s[i])
      ensures s[i] == s[j]
    {
      assert s[i] in multiset(s) && s[j] in multiset(s);
      var k :| 0 <= k < |a| && a[k] == s[i];
      var l :| 0 <= l < |a| && a[l] == s[j];
    }
    SortedUnique(s, SortBy(b, leq), leq);
  }

  lemma DistinctPermutes<T(!new)>(a: seq<T>, b: seq<T>)
    requires Distinct(a) && multiset(a) == multiset(b)
    ensures Distinct(b) && |a| == |b|
  {
    assert |a| == |multiset(a)| == |multiset(b)| == |b|;
    forall x ensures x in a <==> x in b {
      assert x in a <==> x in multiset(a);
      assert x in b <==> x in multiset(b);
    }
    assert Elements(a) == Elements(b);
    DistinctSize(a);
    DistinctSize(b);
  }

  lemma {:induction false} SortKeepsDistinct<T(!new)>(xs: seq<T>, leq: (T, T) -> bool)
    requires Distinct(xs)
    ensures Distinct(SortBy(xs, leq))
  {
    SortPermutes(xs, leq);
    SortMembers(xs, leq);
    assert Elements(SortBy(xs, leq)) == Elements(xs);
    DistinctSize(xs);
    DistinctSize(SortBy(xs, leq));
  }

  function MapSeq<A, B>(xs: seq<A>, f: A -> B): (r: seq<B>)
    ensures |r| == |xs| && forall i :: 0 <= i < |xs| ==> r[i] == f(xs[i])
  {
    seq(|xs|, i requires 0 <= i < |xs| => f(xs[i]))
  }

  /** [x for x in xs if p(x)] */
  function Filter<A>(xs: seq<A>, p: A -> bool): seq<A> {
    if xs == [] then []
    else Filter(xs[..|xs| - 1], p) + if p(xs[|xs| - 1]) then [xs[|xs| - 1]] else []
  }

  lemma {:induction false} FilterKeepsAll<A>(xs: seq<A>, p: A -> bool)
    requires forall i :: 0 <= i < |xs| ==> p(xs[i])
    ensures Filter(xs, p) == xs
  {
    if xs != [] {
      FilterKeepsAll(xs[..|xs| - 1], p);
    }
  }

  /** Filters by opposite conditions share out the elements. */
  lemma {:induction false} FilterPartitions<A>(xs: seq<A>, p: A -> bool, q: A -> bool)
    requires forall i :: 0 <= i < |xs| ==> p(xs[i]) == !q(xs[i])
    ensures multiset(Filter(xs, p)) + multiset(Filter(xs, q)) == multiset(xs)
    ensures |Filter(xs, p)| + |Filter(xs, q)| == |xs|
  {
    if xs != [] {
      var n := |xs| - 1;
      FilterPartitions(xs[..n], p, q);
      assert xs == xs[..n] + [xs[n]];
      assert multiset(xs) == multiset(xs[..n]) + multiset{xs[n]};
      if p(xs[n]) {
        assert Filter(xs, q) == Filter(xs[..n], q);
      } else {
        assert Filter(xs, p) == Filter(xs[..n], p);
      }
    }
  }

  lemma {:induction false} FilterSorted<A(!new)>(xs: seq<A>, p: A -> bool, leq: (A, A) -> bool)
    requires SortedBy(xs, leq)
    ensures SortedBy(Filter(xs, p), leq)
    ensures forall x :: x in Filter(xs, p) <==> x in xs && p(x)
  {
    if xs != [] {
      var n := |xs| - 1;
      FilterSorted(xs[..n], p, leq);
      assert xs == xs[..n] + [xs[n]];
      var t := Filter(xs[..n], p);
      forall i | 0 <= i < |t| ensures leq(t[i], xs[n]) {
        assert t[i] in t;
        var k := IndexOf(xs[..n], t[i]);
        assert leq(xs[k], xs[n]);
      }
    }
  }

  lemma MapAppends<A, B>(xs: seq<A>, ys: seq<A>, f: A -> B)
    ensures MapSeq(xs + ys, f) == MapSeq(xs, f) + MapSeq(ys, f)
  {
  }

  /** Mapping keeps permutations. */
  lemma {:induction false} MapPermutes<A, B>(xs: seq<A>, ys: seq<A>, f: A -> B)
    requires multiset(xs) == multiset(ys)
    ensures multiset(MapSeq(xs, f)) == multiset(MapSeq(ys, f))
  {
    if xs == [] {
      assert |multiset(ys)| == |ys|;
    } else {
      assert xs[0] in multiset(ys);
      var k := IndexOf(ys, xs[0]);
      var front, back := ys[..k], ys[k + 1..];
      assert xs == [xs[0]] + xs[1..];
      assert ys == (front + [xs[0]]) + back;
      MovedToFront(front, xs[0], back, xs[1..]);
      MapPermutes(xs[1..], front + back, f);
      MapAppends([xs[0]], xs[1..], f);
      MapAppends(front, back, f);
      MapAppends(front + [xs[0]], back, f);
      MapAppends(front, [xs[0]], f);
      assert MapSeq([xs[0]], f) == [f(xs[0])];
    }
  }

  lemma MovedToFront<A>(front: seq<A>, x: A, back: seq<A>, tail: seq<A>)
    requires multiset([x] + tail) == multiset(front + [x] + back)
    ensures multiset(tail) == multiset(front + back)
  {
    assert multiset(tail) == multiset([x] + tail) - multiset{x};
    assert multiset(front + back) == multiset(front + [x] + back) - multiset{x};
  }

  lemma {:induction false} FilterFirst<A>(x: A, s: seq<A>, p: A -> bool)
    ensures Filter([x] + s, p) == (if p(x) then [x] else []) + Filter(s, p)
  {
    if s != [] {
      var n := |s| - 1;
      assert ([x] + s)[..n + 1] == [x] + s[..n];
      FilterFirst(x, s[..n], p);
    }
  }

  lemma {:induction false} InsertFilter<A>(x: A, s: seq<A>, leq: (A, A) -> bool, p: A -> bool)
    requires p(x) ==> forall i :: 0 <= i < |s| && p(s[i]) ==> leq(x, s[i])
    ensures Filter(Insert(x, s, leq), p) == (if p(x) then [x] else []) + Filter(s, p)
  {
    if s == [] || leq(x, s[0]) {
      FilterFirst(x, s, p);
    } else {
      assert s == [s[0]] + s[1..];
      InsertFilter(x, s[1..], leq, p);
      FilterFirst(s[0], Insert(x, s[1..], leq), p);
      FilterFirst(s[0], s[1..], p);
    }
  }

  /** Sorting is stable: elements that the order cannot tell apart stay in the order in which they came. */
  lemma {:induction false} SortIsStable<A>(xs: seq<A>, leq: (A, A) -> bool, p: A -> bool)
    requires forall i, j :: 0 <= i < |xs| && 0 <= j < |xs| && p(xs[i]) && p(xs[j]) ==> leq(xs[i], xs[j])
    ensures Filter(SortBy(xs, leq), p) == Filter(xs, p)
  {
    if xs != [] {
      assert xs == [xs[0]] + xs[1..];
      SortIsStable(xs[1..], leq, p);
      SortPermutes(xs[1..], leq);
      var t := SortBy(xs[1..], leq);
      forall i | p(xs[0]) && 0 <= i < |t| && p(t[i]) ensures leq(xs[0], t[i]) {
        assert t[i] in multiset(t);
        assert t[i] in multiset(xs[1..]);
        var k := IndexOf(xs[1..], t[i]);
        assert xs[k + 1] == t[i];
      }
      InsertFilter(xs[0], t, leq, p);
      FilterFirst(xs[0], xs[1..], p);
    }
  }

  // ---- Lexicographic orders --------------------------------------------------------

  /** Sequences of code points or code units, compared at the first difference. */
  function LexLeq(a: seq<int>, b: seq<int>): bool {
    if a == [] then true
    else if b == [] then false
    else if a[0] != b[0] then a[0] < b[0]
    else LexLeq(a[1..], b[1..])
  }

  lemma {:induction false} LexTotal(a: seq<int>, b: seq<int>)
    ensures LexLeq(a, b) || LexLeq(b, a)
    ensures LexLeq(a, b) && LexLeq(b, a) ==> a == b
  {
    if a != [] && b != [] && a[0] == b[0] {
      LexTotal(a[1..], b[1..]);
      assert a == [a[0]] + a[1..] && b == [b[0]] + b[1..];
    }
  }

  lemma {:induction false} LexTransitive(a: seq<int>, b: seq<int>, c: seq<int>)
    requires LexLeq(a, b) && LexLeq(b, c)
    ensures LexLeq(a, c)
  {
    if a != [] && a[0] == b[0] == c[0] {
      LexTransitive(a[1..], b[1..], c[1..]);
    }
  }

  /** The code points of a string. */
  function Points(s: string): (r: seq<int>)
    ensures |r| == |s| && forall i :: 0 <= i < |s| ==> r[i] == s[i] as int
  {
    seq(|s|, i requires 0 <= i < |s| => s[i] as int)
  }

  /** Python compares strings by code point. */
  predicate StrLeq(a: string, b: string) {
    LexLeq(Points(a), Points(b))
  }

  lemma StrOrder(a: string, b: string)
    ensures StrLeq(a, b) || StrLeq(b, a)
    ensures StrLeq(a, a)
    ensures StrLeq(a, b) && StrLeq(b, a) ==> a == b
  {
    LexTotal(Points(a), Points(b));
    LexTotal(Points(a), Points(a));
    if Points(a) == Points(b) {
      assert |a| == |b|;
      forall i | 0 <= i < |a| ensures a[i] == b[i] {
        assert Points(a)[i] == Points(b)[i];
      }
    }
  }

  /** Strings are in order when the first is a beginning of the second, or has the smaller code point where
      they first differ. */
  lemma StrLeqIff(a: string, b: string)
    ensures StrLeq(a, b)
            <==> a <= b || exists k :: 0 <= k < |a| && k < |b| && a[..k] == b[..k] && (a[k] as int) < b[k] as int
  {
    LexLeqIff(Points(a), Points(b));
    if k :| 0 <= k < |a| && k < |b| && a[..k] == b[..k] && (a[k] as int) < b[k] as int {
      assert Points(a)[..k] == Points(a[..k]) && Points(b)[..k] == Points(b[..k]);
    }
    if k :| 0 <= k < |a| && k < |b| && Points(a)[..k] == Points(b)[..k] && Points(a)[k] < Points(b)[k] {
      forall i | 0 <= i < k ensures a[i] == b[i] { assert Points(a)[..k][i] == Points(b)[..k][i]; }
      assert a[..k] == b[..k];
    }
    if Points(a) <= Points(b) {
      forall i | 0 <= i < |a| ensures a[i] == b[i] { assert Points(a)[i] == Points(b)[..|a|][i]; }
      assert a == b[..|a|];
    }
    if a <= b { assert Points(a) == Points(b)[..|a|]; }
  }

  lemma {:induction false} LexLeqIff(a: seq<int>, b: seq<int>)
    ensures LexLeq(a, b) <==> a <= b || exists k :: 0 <= k < |a| && k < |b| && a[..k] == b[..k] && a[k] < b[k]
  {
    if a != [] && b != [] {
      if a[0] == b[0] {
        var x, y := a[1..], b[1..];
        LexLeqIff(x, y);
        assert a == [a[0]] + x && b == [b[0]] + y;
        if k :| 0 <= k < |x| && k < |y| && x[..k] == y[..k] && x[k] < y[k] {
          assert a[..k + 1] == [a[0]] + x[..k] && b[..k + 1] == [b[0]] + y[..k];
          assert a[k + 1] < b[k + 1];
        }
        if k :| 0 <= k < |a| && k < |b| && a[..k] == b[..k] && a[k] < b[k] {
          assert k > 0 && x[..k - 1] == a[..k][1..] && y[..k - 1] == b[..k][1..];
          assert x[k - 1] < y[k - 1];
        }
      } else {
        assert a[..0] == b[..0];
        forall k | 0 < k < |a| && k < |b| ensures a[..k] != b[..k] { assert a[..k][0] != b[..k][0]; }
      }
    }
  }

  lemma StrTransitive(a: string, b: string, c: string)
    requires StrLeq(a, b) && StrLeq(b, c)
    ensures StrLeq(a, c)
  {
    LexTransitive(Points(a), Points(b), Points(c));
  }

  lemma StrTotal()
    ensures TotalPreorder(StrLeq)
    ensures forall a, b :: StrLeq(a, b) && StrLeq(b, a) ==> a == b
  {
    forall a, b
      ensures StrLeq(a, b) || StrLeq(b, a)
      ensures StrLeq(a, b) && StrLeq(b, a) ==> a == b
    {
      StrOrder(a, b);
    }
    forall a, b, c | StrLeq(a, b) && StrLeq(b, c) ensures StrLeq(a, c) {
      StrTransitive(a, b, c);
    }
  }
}
