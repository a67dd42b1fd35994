/** Python's `sorted` applied to a set or to a list that may repeat values:
    the result is the ascending arrangement of exactly the given elements. */
module Sorting {
  import opened Orders

  /** No later element sorts strictly below an earlier one. */
  ghost predicate Sorted<T>(xs: seq<T>, lt: (T, T) -> bool)
  {
    forall i, j :: 0 <= i < j < |xs| ==> !lt(xs[j], xs[i])
  }

  /** Every element sorts strictly below every later one (so none repeats). */
  ghost predicate StrictlySorted<T>(xs: seq<T>, lt: (T, T) -> bool)
  {
    forall i, j :: 0 <= i < j < |xs| ==> lt(xs[i], xs[j])
  }

  /** `xs` is the ascending list of the elements of `s`, each once. */
  ghost predicate Lists<T(!new)>(xs: seq<T>, s: set<T>, lt: (T, T) -> bool)
  {
    && StrictlySorted(xs, lt)
    && (forall x :: x in xs <==> x in s)
  }

  /** `x` is an element of `m` that no element of `m` sorts below. */
  ghost predicate IsLeast<T>(x: T, m: multiset<T>, lt: (T, T) -> bool)
  {
    x in m && forall y :: y in m ==> !lt(y, x)
  }

  lemma {:induction false} LeastExists<T(!new)>(m: multiset<T>, lt: (T, T) -> bool)
    requires StrictTotalOrder(lt)
    requires |m| > 0
    ensures exists x :: IsLeast(x, m, lt)
    decreases |m|
  {
    var z :| z in m;
    var rest := m - multiset{z};
    if |rest| == 0 {
      assert rest == multiset{};
      assert m == rest + multiset{z};
      assert IsLeast(z, m, lt);
    } else {
      LeastExists(rest, lt);
      var x :| IsLeast(x, rest, lt);
      if lt(z, x) {
        assert IsLeast(z, m, lt);
      } else {
        assert IsLeast(x, m, lt);
      }
    }
  }

  /** The ascending arrangement of all elements of `m`, repeats included. */
  function SortMultiset<T(==,!new)>(m: multiset<T>, lt: (T, T) -> bool): (r: seq<T>)
    requires StrictTotalOrder(lt)
    ensures multiset(r) == m
    ensures Sorted(r, lt)
    decreases |m|
  {
    if |m| == 0 then []
    else
      LeastExists(m, lt);
      var x :| x in m && forall y :: y in m ==> !lt(y, x);
      var rest := SortMultiset(m - multiset{x}, lt);
      PrependLeast(x, rest, m, lt);
      [x] + rest
  }

  lemma PrependLeast<T>(x: T, rest: seq<T>, m: multiset<T>, lt: (T, T) -> bool)
    requires x in m && forall y :: y in m ==> !lt(y, x)
    requires multiset(rest) == m - multiset{x}
    requires Sorted(rest, lt)
    ensures multiset([x] + rest) == m
    ensures Sorted([x] + rest, lt)
  {
    var r := [x] + rest;
    forall i, j | 0 <= i < j < |r| ensures !lt(r[j], r[i])
    {
      if i == 0 {
        assert r[j] == rest[j - 1];
        assert rest[j - 1] in multiset(rest);
      } else {
        assert r[i] == rest[i - 1] && r[j] == rest[j - 1];
      }
    }
  }

  lemma CountsAtMostOneMeansDistinct<T>(r: seq<T>)
    requires forall x :: x in r ==> multiset(r)[x] <= 1
    ensures forall i, j :: 0 <= i < j < |r| ==> r[i] != r[j]
  {
    forall i, j | 0 <= i < j < |r|
      ensures r[i] != r[j]
    {
      assert r == r[..j] + r[j..];
      assert multiset(r) == multiset(r[..j]) + multiset(r[j..]);
      assert r[..j][i] == r[i];
      assert r[j..][0] == r[j];
      assert r[i] in r;
      assert multiset(r[..j])[r[i]] >= 1;
      assert multiset(r[j..])[r[j]] >= 1;
    }
  }

  /** The ascending list of the elements of a set, each exactly once. */
  function SortSet<T(==,!new)>(s: set<T>, lt: (T, T) -> bool): (r: seq<T>)
    requires StrictTotalOrder(lt)
    ensures Lists(r, s, lt)
    ensures |r| == |s|
  {
    var r := SortMultiset(multiset(s), lt);
    assert forall x :: x in r <==> x in multiset(r);
    CountsAtMostOneMeansDistinct(r);
    assert |multiset(r)| == |r|;
    r
  }

  /** The first element of an ascending listing is below every other element. */
  lemma HeadIsLeast<T(!new)>(xs: seq<T>, s: set<T>, lt: (T, T) -> bool)
    requires Lists(xs, s, lt) && |xs| > 0
    ensures xs[0] in s
    ensures forall x :: x in s ==> x == xs[0] || lt(xs[0], x)
  {
    forall x | x in s ensures x == xs[0] || lt(xs[0], x) {
      assert x in xs;
      var k :| 0 <= k < |xs| && xs[k] == x;
      if k > 0 {
        assert lt(xs[0], xs[k]);
      }
    }
  }

  /** Removing the head of an ascending listing of `s` lists the rest of `s`. */
  lemma TailLists<T(!new)>(xs: seq<T>, s: set<T>, lt: (T, T) -> bool)
    requires StrictTotalOrder(lt)
    requires Lists(xs, s, lt) && |xs| > 0
    ensures Lists(xs[1..], s - {xs[0]}, lt)
  {
    forall x ensures x in xs[1..] <==> x in s - {xs[0]} {
      if x in xs[1..] {
        var k :| 1 <= k < |xs| && xs[k] == x;
        assert lt(xs[0], xs[k]);
      }
      if x in s - {xs[0]} {
        assert x in xs;
        var k :| 0 <= k < |xs| && xs[k] == x;
        assert xs[1..][k - 1] == x;
      }
    }
  }

  /** A set has only one ascending listing. */
  lemma {:induction false} ListsUnique<T(!new)>(xs: seq<T>, ys: seq<T>, s: set<T>, lt: (T, T) -> bool)
    requires StrictTotalOrder(lt)
    requires Lists(xs, s, lt) && Lists(ys, s, lt)
    ensures xs == ys
    decreases |xs|
  {
    assert |xs| == 0 <==> |ys| == 0 by {
      assert |xs| > 0 ==> xs[0] in ys;
      assert |ys| > 0 ==> ys[0] in xs;
    }
    if |xs| > 0 {
      assert xs[0] == ys[0] by {
        HeadIsLeast(xs, s, lt);
        HeadIsLeast(ys, s, lt);
      }
      TailLists(xs, s, lt);
      TailLists(ys, s, lt);
      ListsUnique(xs[1..], ys[1..], s - {xs[0]}, lt);
      assert xs == [xs[0]] + xs[1..];
      assert ys == [ys[0]] + ys[1..];
    }
  }

  /** A multiset has only one ascending arrangement. */
  lemma {:induction false} SortedUnique<T(!new)>(xs: seq<T>, ys: seq<T>, lt: (T, T) -> bool)
    requires StrictTotalOrder(lt)
    requires Sorted(xs, lt) && Sorted(ys, lt)
    requires multiset(xs) == multiset(ys)
    ensures xs == ys
    decreases |xs|
  {
    if |xs| > 0 {
      assert |ys| == |multiset(ys)| == |multiset(xs)| == |xs|;
      assert xs[0] == ys[0] by {
        assert xs[0] in multiset(ys);
        assert ys[0] in multiset(xs);
        var i :| 0 <= i < |ys| && ys[i] == xs[0];
        var j :| 0 <= j < |xs| && xs[j] == ys[0];
        assert !lt(xs[j], xs[0]);
        assert !lt(ys[i], ys[0]);
      }
      assert xs == [xs[0]] + xs[1..];
      assert ys == [ys[0]] + ys[1..];
      assert multiset(xs) == multiset{xs[0]} + multiset(xs[1..]);
      assert multiset(ys) == multiset{ys[0]} + multiset(ys[1..]);
      assert multiset(xs[1..]) == multiset(xs) - multiset{xs[0]};
      assert multiset(ys[1..]) == multiset(ys) - multiset{ys[0]};
      SortedUnique(xs[1..], ys[1..], lt);
    }
  }

  /** `proj` applied to each element of `xs`, in order. */
  function Project<T, P>(xs: seq<T>, proj: T --> P): (r: seq<P>)
    requires forall x :: x in xs ==> proj.requires(x)
  {
    seq(|xs|, i requires 0 <= i < |xs| => proj(xs[i]))
  }

  /** The elements of `s` that `proj` sends to `p`. */
  ghost function Preimage<T, P>(s: set<T>, proj: T --> P, p: P): set<T>
  {
    set t | t in s && proj.requires(t) && proj(t) == p
  }

  /** `ys` is the ascending list holding `proj(t)` once for every `t` in `s`:
      a value appears as often as there are elements of `s` projecting to it. */
  ghost predicate ListsImage<T, P(!new)>(ys: seq<P>, s: set<T>, proj: T --> P, lt: (P, P) -> bool)
  {
    && Sorted(ys, lt)
    && (forall p :: multiset(ys)[p] == |Preimage(s, proj, p)|)
  }

  lemma {:induction false} ProjectCount<T, P>(xs: seq<T>, s: set<T>, proj: T --> P, p: P)
    requires forall x :: x in xs <==> x in s
    requires forall x :: x in xs ==> proj.requires(x)
    requires forall i, j :: 0 <= i < j < |xs| ==> xs[i] != xs[j]
    ensures multiset(Project(xs, proj))[p] == |Preimage(s, proj, p)|
    decreases |xs|
  {
    if |xs| == 0 {
      assert Preimage(s, proj, p) == {};
    } else {
      var a, rest := xs[0], xs[1..];
      var s' := s - {a};
      assert forall x :: x in rest <==> x in s' by {
        forall k | 0 <= k < |rest| ensures rest[k] != a {
          assert rest[k] == xs[k + 1];
        }
        assert xs == [a] + rest;
      }
      ProjectCount(rest, s', proj, p);
      ProjectHead(xs, proj);
      PreimageOfHead(s, a, proj, p);
    }
  }

  lemma ProjectHead<T, P>(xs: seq<T>, proj: T --> P)
    requires |xs| > 0
    requires forall x :: x in xs ==> proj.requires(x)
    ensures Project(xs, proj) == [proj(xs[0])] + Project(xs[1..], proj)
  {
  }

  lemma PreimageOfHead<T, P>(s: set<T>, a: T, proj: T --> P, p: P)
    requires a in s && proj.requires(a)
    ensures |Preimage(s, proj, p)| == (if proj(a) == p then 1 else 0) + |Preimage(s - {a}, proj, p)|
  {
    if proj(a) == p {
      assert Preimage(s, proj, p) == {a} + Preimage(s - {a}, proj, p);
    } else {
      assert Preimage(s, proj, p) == Preimage(s - {a}, proj, p);
    }
  }

  /** Python's `sorted(map(f, s))` for a set `s`: the projections of the
      elements of `s`, ascending, repeats kept. */
  function SortImage<T(==,!new), P(==,!new)>(s: set<T>, proj: T --> P, ltT: (T, T) -> bool, ltP: (P, P) -> bool): (r: seq<P>)
    requires StrictTotalOrder(ltT) && StrictTotalOrder(ltP)
    requires forall t :: t in s ==> proj.requires(t)
    ensures ListsImage(r, s, proj, ltP)
    ensures |r| == |s|
  {
    var xs := SortSet(s, ltT);
    forall p ensures multiset(Project(xs, proj))[p] == |Preimage(s, proj, p)| {
      ProjectCount(xs, s, proj, p);
    }
    var r := SortMultiset(multiset(Project(xs, proj)), ltP);
    assert |r| == |multiset(r)|;
    r
  }
}
