/** Optional values, and filters and sums over sequences. */
module Common {

  datatype Option<+T> = None | Some(value: T)

  function AbsInt(x: int): int { if x < 0 then -x else x }

  function AbsReal(x: real): real { if x < 0.0 then -x else x }

  /** The elements of s that satisfy p, in order. */
  function Filter<T>(p: T -> bool, s: seq<T>): seq<T> {
    if s == [] then []
    else if p(s[|s| - 1]) then Filter(p, s[..|s| - 1]) + [s[|s| - 1]]
    else Filter(p, s[..|s| - 1])
  }

  lemma {:induction false} FilterMembers<T(!new)>(p: T -> bool, s: seq<T>)
    ensures forall x :: x in Filter(p, s) <==> x in s && p(x)
  {
    if s != [] {
      FilterMembers(p, s[..|s| - 1]);
      assert s == s[..|s| - 1] + [s[|s| - 1]];
    }
  }

  /** One more element, as a loop sees it. */
  lemma FilterNext<T>(p: T -> bool, s: seq<T>, i: nat)
    requires i < |s|
    ensures Filter(p, s[..i + 1]) == if p(s[i]) then Filter(p, s[..i]) + [s[i]] else Filter(p, s[..i])
  {
    assert s[..i + 1][..i] == s[..i];
  }

  /** The sum of f over s. */
  function SumBy<T>(f: T -> real, s: seq<T>): real {
    if s == [] then 0.0 else SumBy(f, s[..|s| - 1]) + f(s[|s| - 1])
  }

  /** A weighted value lies between the bounds, times the weight. */
  ghost predicate Bounded(value: real, weight: real, low: real, high: real) {
    weight >= 0.0 && low * weight <= value <= high * weight
  }

  /** Sums of bounded values are bounded. */
  lemma {:induction false} SumBounds<T(!new)>(value: T -> real, weight: T -> real, s: seq<T>, low: real, high: real)
    requires forall x :: x in s ==> Bounded(value(x), weight(x), low, high)
    ensures Bounded(SumBy(value, s), SumBy(weight, s), low, high)
  {
    if s != [] {
      var init, last := s[..|s| - 1], s[|s| - 1];
      SumBounds(value, weight, init, low, high);
      assert last in s;
      AddBounded(SumBy(value, init), SumBy(weight, init), value(last), weight(last), low, high);
    }
  }

  lemma AddBounded(v: real, w: real, v': real, w': real, low: real, high: real)
    requires Bounded(v, w, low, high) && Bounded(v', w', low, high)
    ensures Bounded(v + v', w + w', low, high)
  {
    Distributes(low, w, w');
    Distributes(high, w, w');
  }

  lemma Distributes(a: real, b: real, c: real)
    ensures a * (b + c) == a * b + a * c
  {
  }

  lemma ScaledBounds(x: real, weight: real, low: real, high: real)
    requires weight >= 0.0 && low <= x <= high
    ensures Bounded(x * weight, weight, low, high)
  {
  }

  lemma AverageBounds(value: real, weight: real, low: real, high: real)
    requires weight > 0.0 && Bounded(value, weight, low, high)
    ensures low <= value / weight <= high
  {
    var average := value / weight;
    assert average * weight == value;
    QuotientBound(low, average, weight);
    QuotientBound(average, high, weight);
  }

  lemma QuotientBound(a: real, b: real, weight: real)
    requires weight > 0.0 && a * weight <= b * weight
    ensures a <= b
  {
  }

  lemma {:induction false} SumAgrees<T>(f: T -> real, g: T -> real, s: seq<T>)
    requires forall i :: 0 <= i < |s| ==> f(s[i]) == g(s[i])
    ensures SumBy(f, s) == SumBy(g, s)
  {
    if s != [] {
      SumAgrees(f, g, s[..|s| - 1]);
    }
  }

  lemma FilterSingle<T>(p: T -> bool, x: T)
    ensures Filter(p, [x]) == if p(x) then [x] else []
  {
    assert [x][..0] == [];
    assert Filter(p, [x][..0]) == [];
  }

  lemma {:induction false} FilterAppend<T>(p: T -> bool, a: seq<T>, b: seq<T>)
    ensures Filter(p, a + b) == Filter(p, a) + Filter(p, b)
  {
    if b == [] {
      assert a + b == a;
    } else {
      assert (a + b)[..|a + b| - 1] == a + b[..|b| - 1];
      FilterAppend(p, a, b[..|b| - 1]);
    }
  }

  lemma {:induction false} FilterNone<T(!new)>(p: T -> bool, s: seq<T>)
    requires forall x :: x in s ==> !p(x)
    ensures Filter(p, s) == []
  {
    if s != [] {
      FilterNone(p, s[..|s| - 1]);
    }
  }

  /** A filter depends only on what the predicate says of the elements. */
  lemma {:induction false} FilterAgrees<T(!new)>(p: T -> bool, q: T -> bool, s: seq<T>)
    requires forall x :: x in s ==> p(x) == q(x)
    ensures Filter(p, s) == Filter(q, s)
  {
    if s != [] {
      FilterAgrees(p, q, s[..|s| - 1]);
    }
  }

  lemma {:induction false} SumAppend<T>(f: T -> real, a: seq<T>, b: seq<T>)
    ensures SumBy(f, a + b) == SumBy(f, a) + SumBy(f, b)
  {
    if b == [] {
      assert a + b == a;
    } else {
      assert (a + b)[..|a + b| - 1] == a + b[..|b| - 1];
      SumAppend(f, a, b[..|b| - 1]);
    }
  }

  /** Position i of s, cut out. */
  lemma CutOut<T>(s: seq<T>, i: nat)
    requires i < |s|
    ensures s == s[..i] + [s[i]] + s[i + 1..]
    ensures multiset(s) == multiset(s[..i] + s[i + 1..]) + multiset{s[i]}
  {
    assert s == s[..i] + [s[i]] + s[i + 1..];
  }

  lemma CutLast<T>(s: seq<T>)
    requires s != []
    ensures s == s[..|s| - 1] + [s[|s| - 1]]
    ensures multiset(s) == multiset(s[..|s| - 1]) + multiset{s[|s| - 1]}
  {
    assert s == s[..|s| - 1] + [s[|s| - 1]];
  }

  lemma SumWithout<T>(f: T -> real, s: seq<T>, i: nat)
    requires i < |s|
    ensures SumBy(f, s) == SumBy(f, s[..i] + s[i + 1..]) + f(s[i])
  {
    CutOut(s, i);
    SumAppend(f, s[..i], s[i + 1..]);
    SumAppend(f, s[..i] + [s[i]], s[i + 1..]);
    assert (s[..i] + [s[i]])[..i] == s[..i];
  }

  /** Where the last element of a is in its permutation b, and that the rest is one. */
  lemma FindLast<T>(a: seq<T>, b: seq<T>) returns (i: nat)
    requires a != [] && multiset(a) == multiset(b)
    ensures i < |b| && b[i] == a[|a| - 1] && multiset(a[..|a| - 1]) == multiset(b[..i] + b[i + 1..])
  {
    var last := a[|a| - 1];
    assert last in multiset(b);
    i :| 0 <= i < |b| && b[i] == last;
    CutLast(a);
    CutOut(b, i);
    assert multiset(a[..|a| - 1]) == multiset(a) - multiset{last};
  }

  lemma {:induction false} SumPermuted<T>(f: T -> real, a: seq<T>, b: seq<T>)
    requires multiset(a) == multiset(b)
    ensures SumBy(f, a) == SumBy(f, b)
  {
    if a == [] {
      assert |b| == |multiset(b)| == 0;
    } else {
      var i := FindLast(a, b);
      SumPermuted(f, a[..|a| - 1], b[..i] + b[i + 1..]);
      SumWithout(f, b, i);
    }
  }

  lemma {:induction false} FilterMultiplicity<T(!new)>(p: T -> bool, s: seq<T>, x: T)
    ensures multiset(Filter(p, s))[x] == if p(x) then multiset(s)[x] else 0
  {
    if s != [] {
      FilterMultiplicity(p, s[..|s| - 1], x);
      assert s == s[..|s| - 1] + [s[|s| - 1]];
    }
  }

  lemma FilterPermuted<T(!new)>(p: T -> bool, a: seq<T>, b: seq<T>)
    requires multiset(a) == multiset(b)
    ensures multiset(Filter(p, a)) == multiset(Filter(p, b))
  {
    forall x: T
      ensures multiset(Filter(p, a))[x] == multiset(Filter(p, b))[x]
    {
      FilterMultiplicity(p, a, x);
      FilterMultiplicity(p, b, x);
    }
  }

  /** What a filter adds for the last element. */
  lemma FilterSum<T>(f: T -> real, p: T -> bool, s: seq<T>)
    requires s != []
    ensures SumBy(f, Filter(p, s)) ==
            SumBy(f, Filter(p, s[..|s| - 1])) + if p(s[|s| - 1]) then f(s[|s| - 1]) else 0.0
  {
    if p(s[|s| - 1]) {
      assert Filter(p, s)[..|Filter(p, s)| - 1] == Filter(p, s[..|s| - 1]);
    }
  }

  lemma {:induction false} SumOfDisjoint<T(!new)>(
    f: T -> real, p: T -> bool, q: T -> bool, either: T -> bool, s: seq<T>)
    requires forall x :: x in s ==> (either(x) <==> p(x) || q(x)) && !(p(x) && q(x))
    ensures SumBy(f, Filter(either, s)) == SumBy(f, Filter(p, s)) + SumBy(f, Filter(q, s))
  {
    if s != [] {
      SumOfDisjoint(f, p, q, either, s[..|s| - 1]);
      FilterSum(f, p, s);
      FilterSum(f, q, s);
      FilterSum(f, either, s);
    }
  }

  lemma {:induction false} FilterCommutes<T>(p: T -> bool, q: T -> bool, s: seq<T>)
    ensures Filter(p, Filter(q, s)) == Filter(q, Filter(p, s))
  {
    if s != [] {
      var init, last := s[..|s| - 1], s[|s| - 1];
      FilterCommutes(p, q, init);
      if q(last) {
        assert (Filter(q, init) + [last])[..|Filter(q, init)|] == Filter(q, init);
      }
      if p(last) {
        assert (Filter(p, init) + [last])[..|Filter(p, init)|] == Filter(p, init);
      }
    }
  }

  lemma {:induction false} FilterAll<T(!new)>(p: T -> bool, s: seq<T>)
    requires forall x :: x in s ==> p(x)
    ensures Filter(p, s) == s
  {
    if s != [] {
      FilterAll(p, s[..|s| - 1]);
    }
  }

  // ---- Replacing each element by a sequence ----

  function FlatMap<A, B>(f: A -> seq<B>, s: seq<A>): seq<B> {
    if s == [] then [] else FlatMap(f, s[..|s| - 1]) + f(s[|s| - 1])
  }

  lemma FlatMapNext<A, B>(f: A -> seq<B>, s: seq<A>, i: nat)
    requires i < |s|
    ensures FlatMap(f, s[..i + 1]) == FlatMap(f, s[..i]) + f(s[i])
  {
    assert s[..i + 1][..i] == s[..i];
  }

  lemma {:induction false} FlatMapMembers<A(!new), B(!new)>(f: A -> seq<B>, s: seq<A>)
    ensures forall y :: y in FlatMap(f, s) <==> exists x :: x in s && y in f(x)
  {
    if s != [] {
      FlatMapMembers(f, s[..|s| - 1]);
      assert s == s[..|s| - 1] + [s[|s| - 1]];
    }
  }

  /** Filtering what elements become, element by element. */
  lemma {:induction false} FilterFlatMap<A(!new), B>(p: B -> bool, f: A -> seq<B>, g: A -> seq<B>, s: seq<A>)
    requires forall x :: g(x) == Filter(p, f(x))
    ensures Filter(p, FlatMap(f, s)) == FlatMap(g, s)
  {
    if s != [] {
      FilterFlatMap(p, f, g, s[..|s| - 1]);
      FilterAppend(p, FlatMap(f, s[..|s| - 1]), f(s[|s| - 1]));
    }
  }

  /** When every element becomes itself or several, a list is unchanged exactly when each element is. */
  lemma {:induction false} FlatMapFixed<A(!new)>(f: A -> seq<A>, s: seq<A>)
    requires forall x :: f(x) == [x] || |f(x)| > 1
    ensures |FlatMap(f, s)| >= |s|
    ensures |FlatMap(f, s)| == |s| <==> forall x :: x in s ==> f(x) == [x]
    ensures FlatMap(f, s) == s <==> forall x :: x in s ==> f(x) == [x]
  {
    if s != [] {
      FlatMapFixed(f, s[..|s| - 1]);
      assert s == s[..|s| - 1] + [s[|s| - 1]];
    }
  }
}
