/** The orderings Python 2's `sorted` applies to the values the diff engine
    sorts: strings compare code point by code point with a proper prefix
    first, `None` compares below every string, and tuples compare field by
    field. */
module Orders {
  import opened Wrappers

  /** `lt` is irreflexive, transitive and relates any two distinct values. */
  ghost predicate StrictTotalOrder<T(!new)>(lt: (T, T) -> bool)
  {
    && (forall x :: !lt(x, x))
    && (forall x, y, z :: lt(x, y) && lt(y, z) ==> lt(x, z))
    && (forall x, y :: x != y ==> lt(x, y) || lt(y, x))
  }

  /** Lexicographic order on strings. */
  predicate StrLt(a: string, b: string)
  {
    if |a| == 0 then |b| > 0
    else if |b| == 0 then false
    else if a[0] != b[0] then a[0] < b[0]
    else StrLt(a[1..], b[1..])
  }

  lemma {:induction false} StrLtIrreflexive(a: string)
    ensures !StrLt(a, a)
  {
    if |a| > 0 {
      StrLtIrreflexive(a[1..]);
    }
  }

  lemma {:induction false} StrLtTransitive(a: string, b: string, c: string)
    requires StrLt(a, b) && StrLt(b, c)
    ensures StrLt(a, c)
    decreases |a|
  {
    if |a| > 0 && |b| > 0 && |c| > 0 && a[0] == b[0] && b[0] == c[0] {
      StrLtTransitive(a[1..], b[1..], c[1..]);
    }
  }

  lemma {:induction false} StrLtConnected(a: string, b: string)
    requires a != b
    ensures StrLt(a, b) || StrLt(b, a)
    decreases |a|
  {
    if |a| > 0 && |b| > 0 && a[0] == b[0] {
      assert a == [a[0]] + a[1..] && b == [b[0]] + b[1..];
      StrLtConnected(a[1..], b[1..]);
    }
  }

  lemma StrLtIsStrictTotalOrder()
    ensures StrictTotalOrder(StrLt)
  {
    forall a | true ensures !StrLt(a, a) { StrLtIrreflexive(a); }
    forall a, b, c | StrLt(a, b) && StrLt(b, c) ensures StrLt(a, c) { StrLtTransitive(a, b, c); }
    forall a, b | a != b ensures StrLt(a, b) || StrLt(b, a) { StrLtConnected(a, b); }
  }

  /** Python 2 order on optional strings: `None` sorts first. */
  predicate OptLt(a: Option<string>, b: Option<string>)
  {
    match (a, b)
    case (None, None) => false
    case (None, Some(_)) => true
    case (Some(_), None) => false
    case (Some(x), Some(y)) => StrLt(x, y)
  }

  lemma OptLtIsStrictTotalOrder()
    ensures StrictTotalOrder(OptLt)
  {
    forall a | true ensures !OptLt(a, a) {
      if a.Some? { StrLtIrreflexive(a.value); }
    }
    forall a, b, c | OptLt(a, b) && OptLt(b, c) ensures OptLt(a, c) {
      if a.Some? { StrLtTransitive(a.value, b.value, c.value); }
    }
    forall a, b | a != b ensures OptLt(a, b) || OptLt(b, a) {
      if a.Some? && b.Some? { StrLtConnected(a.value, b.value); }
    }
  }
}
