/** The list algebra the fields use from lodash: `uniq` (inside `union` and
    `intersection`), `filter`, `union`, `difference`, `intersection`.
    Lodash compares elements with SameValueZero; here that is Dafny's `==`. */
module Lists {

  /** No element occurs twice. */
  predicate Distinct<T(==,!new)>(s: seq<T>) {
    forall i, j :: 0 <= i < j < |s| ==> s[i] != s[j]
  }

  /** `a` is `b` with some elements deleted, the rest in their order. */
  predicate Subsequence<T(==,!new)>(a: seq<T>, b: seq<T>)
    decreases |b|
  {
    if a == [] then true
    else if b == [] then false
    else if a[0] == b[0] then Subsequence(a[1..], b[1..])
    else Subsequence(a, b[1..])
  }

  /** Lodash's duplicate-free copy: walks `s` left to right and pushes each
      element not seen before, so the first occurrence of each value is kept. */
  function Uniq<T(==,!new)>(s: seq<T>): (r: seq<T>)
    ensures Distinct(r)
    ensures forall x :: x in r <==> x in s
    ensures |r| <= |s|
  {
    if s == [] then []
    else
      var r := Uniq(s[..|s| - 1]);
      assert s == s[..|s| - 1] + [s[|s| - 1]];
      if s[|s| - 1] in r then r else r + [s[|s| - 1]]
  }

  /** Lodash's `filter`: the elements of `s` that satisfy `keep`, in order. */
  function Filter<T(==,!new)>(s: seq<T>, keep: T -> bool): (r: seq<T>)
    ensures |r| <= |s|
    ensures forall x :: x in r <==> x in s && keep(x)
  {
    if s == [] then []
    else
      assert s == [s[0]] + s[1..];
      (if keep(s[0]) then [s[0]] else []) + Filter(s[1..], keep)
  }

  /** `_.filter(s, y => y !== x)`: every occurrence of `x` removed. */
  function Without<T(==,!new)>(s: seq<T>, x: T): (r: seq<T>)
    ensures x !in r
    ensures forall y :: y in r <==> y in s && y != x
    ensures |r| <= |s|
  {
    Filter(s, y => y != x)
  }

  /** `_.union(a, b)`: the values of `a` then `b`, duplicates dropped. */
  function Union<T(==,!new)>(a: seq<T>, b: seq<T>): (r: seq<T>)
    ensures Distinct(r)
    ensures forall x :: x in r <==> x in a || x in b
  {
    Uniq(a + b)
  }

  /** `_.difference(a, b)`: the elements of `a` that are not in `b`, in order
      and with their repetitions. */
  function Difference<T(==,!new)>(a: seq<T>, b: seq<T>): (r: seq<T>)
    ensures |r| <= |a|
    ensures forall x :: x in r <==> x in a && x !in b
  {
    Filter(a, x => x !in b)
  }

  /** `_.intersection(a, b)`: the distinct values of `a` that are also in `b`,
      in the order of `a`. */
  function Intersection<T(==,!new)>(a: seq<T>, b: seq<T>): (r: seq<T>)
    ensures Distinct(r)
    ensures forall x :: x in r <==> x in a && x in b
  {
    Uniq(Kept(a, b))
  }

  /** The elements of `a` that are in `b`, in order and with repetitions. */
  function Kept<T(==,!new)>(a: seq<T>, b: seq<T>): (r: seq<T>)
    ensures |r| <= |a|
    ensures forall x :: x in r <==> x in a && x in b
  {
    Filter(a, x => x in b)
  }

  // ---------------------------------------------------------------------------
  // Properties

  /** Filtering keeps every occurrence of a kept value and none of the others. */
  lemma {:induction false} FilterCounts<T(!new)>(s: seq<T>, keep: T -> bool)
    ensures forall x :: multiset(Filter(s, keep))[x] == if keep(x) then multiset(s)[x] else 0
  {
    if s != [] {
      FilterCounts(s[1..], keep);
      assert s == [s[0]] + s[1..];
    }
  }

  lemma {:induction false} FilterAppend<T(!new)>(a: seq<T>, b: seq<T>, keep: T -> bool)
    ensures Filter(a + b, keep) == Filter(a, keep) + Filter(b, keep)
  {
    if a == [] {
      assert a + b == b;
    } else {
      assert (a + b)[0] == a[0];
      assert (a + b)[1..] == a[1..] + b;
      FilterAppend(a[1..], b, keep);
    }
  }

  /** Filtering keeps the surviving elements in their original order. */
  lemma {:induction false} FilterSubsequence<T(!new)>(s: seq<T>, keep: T -> bool)
    ensures Subsequence(Filter(s, keep), s)
  {
    if s != [] {
      FilterSubsequence(s[1..], keep);
      var rest := Filter(s[1..], keep);
      if keep(s[0]) {
        assert Filter(s, keep) == [s[0]] + rest;
        assert ([s[0]] + rest)[1..] == rest;
      } else {
        assert Filter(s, keep) == rest;
        if rest != [] {
          assert rest[0] in rest;
        }
      }
    }
  }

  /** Removing every occurrence of `x` keeps all other elements, with their
      counts and in their order. */
  lemma WithoutKeepsOthers<T(!new)>(s: seq<T>, x: T)
    ensures x !in Without(s, x)
    ensures forall y :: y != x ==> multiset(Without(s, x))[y] == multiset(s)[y]
    ensures Subsequence(Without(s, x), s)
  {
    FilterSubsequence(s, y => y != x);
    FilterCounts(s, y => y != x);
  }

  /** Exactly the empty list has no members. */
  lemma NothingIn<T(!new)>(s: seq<T>)
    ensures (forall x :: x !in s) <==> s == []
  {
    if s != [] {
      assert s[0] in s;
    }
  }

  /** Taking away a superset of `a` leaves nothing. */
  lemma DifferenceOfSuperset<T(!new)>(a: seq<T>, b: seq<T>)
    requires forall x :: x in a ==> x in b
    ensures Difference(a, b) == []
  {
    NothingIn(Difference(a, b));
  }

  /** Removing a value the list does not hold changes nothing. */
  lemma WithoutAbsent<T(!new)>(s: seq<T>, x: T)
    requires x !in s
    ensures Without(s, x) == s
  {
    FilterAll(s, y => y != x);
  }

  /** Removing a value from a list that starts with it once leaves the rest. */
  lemma WithoutFront<T(!new)>(x: T, rest: seq<T>)
    requires x !in rest
    ensures Without([x] + rest, x) == rest
  {
    WithoutAbsent(rest, x);
    assert ([x] + rest)[1..] == rest;
  }

  /** A filter every element passes changes nothing. */
  lemma {:induction false} FilterAll<T(!new)>(s: seq<T>, keep: T -> bool)
    requires forall x :: x in s ==> keep(x)
    ensures Filter(s, keep) == s
  {
    if s != [] {
      assert forall x :: x in s[1..] ==> x in s;
      FilterAll(s[1..], keep);
      assert s == [s[0]] + s[1..];
    }
  }

  /** A duplicate-free list is its own `uniq`. */
  lemma {:induction false} UniqOfDistinct<T(!new)>(s: seq<T>)
    requires Distinct(s)
    ensures Uniq(s) == s
  {
    if s != [] {
      var p := s[..|s| - 1];
      assert Distinct(p) by {
        forall i, j | 0 <= i < j < |p| ensures p[i] != p[j] {
          assert p[i] == s[i] && p[j] == s[j];
        }
      }
      UniqOfDistinct(p);
      assert s[|s| - 1] !in p by {
        forall i | 0 <= i < |p| ensures p[i] != s[|s| - 1] {
          assert p[i] == s[i];
        }
      }
      assert s == p + [s[|s| - 1]];
    }
  }

  /** Appending one element to the input of `uniq` appends it to the output
      unless it was already there. */
  lemma UniqSnoc<T(!new)>(q: seq<T>, y: T)
    ensures Uniq(q + [y]) == if y in Uniq(q) then Uniq(q) else Uniq(q) + [y]
  {
    assert (q + [y])[..|q + [y]| - 1] == q;
  }

  lemma DifferenceSnoc<T(!new)>(b: seq<T>, y: T, a: seq<T>)
    ensures Difference(b + [y], a) == Difference(b, a) + (if y in a then [] else [y])
  {
    FilterAppend(b, [y], x => x !in a);
    assert [y][1..] == [];
  }

  /** `union(a, b)` is `uniq(a)` followed by the distinct values of `b` that
      `a` does not hold, in the order of `b`. */
  lemma {:induction false} UnionSplit<T(!new)>(a: seq<T>, b: seq<T>)
    ensures Union(a, b) == Uniq(a) + Uniq(Difference(b, a))
  {
    if b == [] {
      assert a + b == a;
      assert Difference(b, a) == [];
    } else {
      var b', y := b[..|b| - 1], b[|b| - 1];
      assert b == b' + [y];
      UnionSplit(a, b');
      if y in a {
        UnionStepHeld(a, b', y);
      } else {
        UnionStepNew(a, b', y);
      }
    }
  }

  /** `union(a, b)` grows with its last argument as `uniq` does. */
  lemma UnionSnoc<T(!new)>(a: seq<T>, b: seq<T>, y: T)
    ensures Union(a, b + [y]) == if y in Union(a, b) then Union(a, b) else Union(a, b) + [y]
  {
    assert a + (b + [y]) == (a + b) + [y];
    UniqSnoc(a + b, y);
  }

  /** The step of `UnionSplit` for a value `a` already holds. */
  lemma UnionStepHeld<T(!new)>(a: seq<T>, b: seq<T>, y: T)
    requires y in a
    requires Union(a, b) == Uniq(a) + Uniq(Difference(b, a))
    ensures Union(a, b + [y]) == Uniq(a) + Uniq(Difference(b + [y], a))
  {
    UnionSnoc(a, b, y);
    assert Difference(b + [y], a) == Difference(b, a) by {
      DifferenceSnoc(b, y, a);
      assert Difference(b, a) + [] == Difference(b, a);
    }
  }

  /** The step of `UnionSplit` for a value `a` does not hold. */
  lemma UnionStepNew<T(!new)>(a: seq<T>, b: seq<T>, y: T)
    requires y !in a
    requires Union(a, b) == Uniq(a) + Uniq(Difference(b, a))
    ensures Union(a, b + [y]) == Uniq(a) + Uniq(Difference(b + [y], a))
  {
    UnionSnoc(a, b, y);
    assert Difference(b + [y], a) == Difference(b, a) + [y] by {
      DifferenceSnoc(b, y, a);
    }
    UniqSnoc(Difference(b, a), y);
    AppendAfter(Uniq(a), Uniq(Difference(b, a)), y);
  }

  /** Appending `y` to `p + q` unless it occurs there is appending it to `q`
      unless it occurs there, when `y` is not in `p`. */
  lemma AppendAfter<T>(p: seq<T>, q: seq<T>, y: T)
    requires y in p + q <==> y in q
    ensures (if y in p + q then p + q else (p + q) + [y]) == p + (if y in q then q else q + [y])
  {
    if y !in q {
      assert (p + q) + [y] == p + (q + [y]);
    }
  }

  /** The intersection of a duplicate-free `a` with `b` is `a` filtered. */
  lemma IntersectionOfDistinct<T(!new)>(a: seq<T>, b: seq<T>)
    requires Distinct(a)
    ensures Intersection(a, b) == Kept(a, b)
    ensures Subsequence(Intersection(a, b), a)
  {
    var f := Kept(a, b);
    assert Distinct(f) by {
      FilterCounts(a, x => x in b);
      DistinctMultiset(a);
      DistinctMultiset(f);
    }
    UniqOfDistinct(f);
    FilterSubsequence(a, x => x in b);
  }

  lemma KeptAppend<T(!new)>(a1: seq<T>, a2: seq<T>, b: seq<T>)
    ensures Kept(a1 + a2, b) == Kept(a1, b) + Kept(a2, b)
  {
    FilterAppend(a1, a2, x => x in b);
  }

  lemma KeptAll<T(!new)>(a: seq<T>, b: seq<T>)
    requires forall x :: x in a ==> x in b
    ensures Kept(a, b) == a
  {
    FilterAll(a, x => x in b);
  }

  /** Keeping what `front + back` holds drops a `y` it does not hold from
      between them. */
  lemma KeptDropOne<T(!new)>(front: seq<T>, y: T, back: seq<T>)
    requires y !in front + back
    ensures Kept(front + [y] + back, front + back) == front + back
  {
    var vals := front + back;
    assert forall x :: x in front ==> x in vals;
    assert forall x :: x in back ==> x in vals;
    KeptAll(front, vals);
    KeptAll(back, vals);
    NothingIn(Kept([y], vals));
    KeptAppend(front, [y], vals);
    KeptAppend(front + [y], back, vals);
    calc {
      Kept(front + [y] + back, vals);
      Kept(front + [y], vals) + Kept(back, vals);
      Kept(front, vals) + Kept([y], vals) + Kept(back, vals);
      front + [] + back;
      { assert front + [] == front; }
      vals;
    }
  }

  /** Nothing to take away leaves the list as it is. */
  lemma DifferenceOfNothing<T(!new)>(a: seq<T>)
    ensures Difference(a, []) == a
  {
    FilterAll(a, x => x !in []);
  }

  /** Duplicate-freedom means every value occurs at most once. */
  lemma {:induction false} DistinctMultiset<T(!new)>(s: seq<T>)
    ensures Distinct(s) <==> forall x :: multiset(s)[x] <= 1
  {
    if s != [] {
      var t := s[1..];
      assert s == [s[0]] + t;
      DistinctMultiset(t);
      if Distinct(s) {
        assert Distinct(t) by {
          forall i, j | 0 <= i < j < |t| ensures t[i] != t[j] {
            assert t[i] == s[i + 1] && t[j] == s[j + 1];
          }
        }
        assert s[0] !in t by {
          forall i | 0 <= i < |t| ensures t[i] != s[0] {
            assert t[i] == s[i + 1];
          }
        }
      }
      if forall x :: multiset(s)[x] <= 1 {
        assert forall x :: multiset(t)[x] <= multiset(s)[x];
        assert multiset(t)[s[0]] == 0;
        forall i, j | 0 <= i < j < |s| ensures s[i] != s[j] {
          if i == 0 {
            assert s[j] == t[j - 1];
          } else {
            assert s[i] == t[i - 1] && s[j] == t[j - 1];
          }
        }
      }
    }
  }
}
