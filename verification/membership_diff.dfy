/** The membership diff (diffcomps.py, `diff_list`): for every member key of
    two reverse indexes, the tuples the target adds and the tuples the source
    loses, the latter reported through a projection (`itemgetter(0)`). */
module MembershipDiff {
  import opened Wrappers
  import opened Orders
  import opened Sorting
  import opened Comps

  /** One fact of a member's record: `{'new': ...}` or `{'removed': ...}`. */
  datatype MemberFact<T, P> = Added(members: seq<T>) | Dropped(owners: seq<P>)

  /** The projection is defined on every tuple `diff_list` reports removed. */
  ghost predicate ProjectsRemovals<K(!new), T(!new), P>(source: map<K, set<T>>, target: map<K, set<T>>, proj: T --> P)
  {
    forall k, t :: k in source && t in source[k] && (k !in target || t !in target[k]) ==> proj.requires(t)
  }

  /** `rec` reports a member whose tuple set changed: the added tuples,
      ascending, when there are any, followed by the projections of the
      removed tuples, ascending, when there are any. */
  ghost predicate ReportsChange<T(!new), P(!new)>(rec: seq<MemberFact<T, P>>, adds: set<T>, rems: set<T>,
                                                proj: T --> P, ltT: (T, T) -> bool, ltP: (P, P) -> bool)
  {
    && |rec| == (if adds != {} then 1 else 0) + (if rems != {} then 1 else 0)
    && (adds != {} ==> rec[0].Added? && Lists(rec[0].members, adds, ltT))
    && (rems != {} ==> rec[|rec| - 1].Dropped? && ListsImage(rec[|rec| - 1].owners, rems, proj, ltP))
  }

  /** The facts for a member whose tuple set went from `s` to `t`. */
  function ChangeFacts<T(==,!new), P(==,!new)>(s: set<T>, t: set<T>, proj: T --> P,
                                              ltT: (T, T) -> bool, ltP: (P, P) -> bool): (r: seq<MemberFact<T, P>>)
    requires StrictTotalOrder(ltT) && StrictTotalOrder(ltP)
    requires forall x :: x in s - t ==> proj.requires(x)
    ensures ReportsChange(r, t - s, s - t, proj, ltT, ltP)
  {
    var adds, rems := t - s, s - t;
    if adds == {} && rems == {} then []
    else if rems == {} then [Added(SortSet(adds, ltT))]
    else if adds == {} then [Dropped(SortImage(rems, proj, ltT, ltP))]
    else [Added(SortSet(adds, ltT)), Dropped(SortImage(rems, proj, ltT, ltP))]
  }

  /** What the pass over the source appends for a member key `k`. */
  function SourceFacts<K, T(==,!new), P(==,!new)>(source: map<K, set<T>>, target: map<K, set<T>>, k: K, proj: T --> P,
                                                 ltT: (T, T) -> bool, ltP: (P, P) -> bool): (r: seq<MemberFact<T, P>>)
    requires StrictTotalOrder(ltT) && StrictTotalOrder(ltP)
    requires k in source
    requires forall t :: t in source[k] && (k !in target || t !in target[k]) ==> proj.requires(t)
    ensures k !in target ==> |r| == 1 && r[0].Dropped? && ListsImage(r[0].owners, source[k], proj, ltP)
    ensures k in target && source[k] == target[k] ==> r == []
    ensures k in target && source[k] != target[k] ==>
      ReportsChange(r, target[k] - source[k], source[k] - target[k], proj, ltT, ltP)
  {
    if k !in target then [Dropped(SortImage(source[k], proj, ltT, ltP))]
    else if source[k] == target[k] then []
    else ChangeFacts(source[k], target[k], proj, ltT, ltP)
  }

  lemma RemovalsProjectable<K(!new), T(!new), P>(source: map<K, set<T>>, target: map<K, set<T>>, proj: T --> P)
    requires ProjectsRemovals(source, target, proj)
    ensures forall k :: k in source ==>
      forall t :: t in source[k] && (k !in target || t !in target[k]) ==> proj.requires(t)
  {
  }

  /** `d` is a membership diff of `source` against `target`: it has an entry
      for exactly the members whose sets differ (a missing member counting as
      different); a member only in the target gets its tuples, ascending, as
      one `new` fact; a member only in the source gets the projections of its
      tuples, ascending, as one `removed` fact; any other member gets the
      facts `ReportsChange` describes. */
  ghost predicate DescribesMembership<K(!new), T(!new), P(!new)>(d: map<K, seq<MemberFact<T, P>>>,
                                                               source: map<K, set<T>>, target: map<K, set<T>>,
                                                               proj: T --> P, ltT: (T, T) -> bool, ltP: (P, P) -> bool)
  {
    && (forall k :: k in d <==> (k in source || k in target) && (k in source && k in target ==> source[k] != target[k]))
    && (forall k :: k in target && k !in source ==>
          |d[k]| == 1 && d[k][0].Added? && Lists(d[k][0].members, target[k], ltT))
    && (forall k :: k in source && k !in target ==>
          |d[k]| == 1 && d[k][0].Dropped? && ListsImage(d[k][0].owners, source[k], proj, ltP))
    && (forall k :: k in source && k in target && source[k] != target[k] ==>
          ReportsChange(d[k], target[k] - source[k], source[k] - target[k], proj, ltT, ltP))
  }

  /** `diff_list`: a pass over the target records members the source lacks
      with all their tuples; a pass over the source records members the
      target lacks with the projections of all their tuples, and for every
      other member whose set differs, the added tuples and the projections of
      the removed ones. Members with equal sets get no entry. */
  function DiffMembership<K(==,!new), T(==,!new), P(==,!new)>(source: map<K, set<T>>, target: map<K, set<T>>, proj: T --> P,
                                                            ltT: (T, T) -> bool, ltP: (P, P) -> bool)
    : (d: map<K, seq<MemberFact<T, P>>>)
    requires StrictTotalOrder(ltT) && StrictTotalOrder(ltP)
    requires ProjectsRemovals(source, target, proj)
    ensures DescribesMembership(d, source, target, proj, ltT, ltP)
  {
    RemovalsProjectable(source, target, proj);
    PassesKeys(source, target, proj, ltT, ltP);
    PassesTargetSide(source, target, proj, ltT, ltP);
    PassesSourceSide(source, target, proj, ltT, ltP);
    SourcePass(FirstPass<K, T, P>(source, target, ltT), source, target, proj, ltT, ltP)
  }

  /** The pass over the target: one `new` fact per member the source lacks. */
  function FirstPass<K(==), T(==,!new), P>(source: map<K, set<T>>, target: map<K, set<T>>, ltT: (T, T) -> bool)
    : map<K, seq<MemberFact<T, P>>>
    requires StrictTotalOrder(ltT)
  {
    map k | k in target && k !in source :: [Added(SortSet(target[k], ltT))]
  }

  /** The pass over the source, appending to what the first pass recorded. */
  function SourcePass<K(==,!new), T(==,!new), P(==,!new)>(first: map<K, seq<MemberFact<T, P>>>,
                                                   source: map<K, set<T>>, target: map<K, set<T>>, proj: T --> P,
                                                   ltT: (T, T) -> bool, ltP: (P, P) -> bool): map<K, seq<MemberFact<T, P>>>
    requires StrictTotalOrder(ltT) && StrictTotalOrder(ltP)
    requires ProjectsRemovals(source, target, proj)
  {
    RemovalsProjectable(source, target, proj);
    var touched := set k | k in source && (k !in target || source[k] != target[k]);
    map k | k in first.Keys + touched ::
      ListAt(first, k) + (if k in source then SourceFacts(source, target, k, proj, ltT, ltP) else [])
  }

  lemma PassesKeys<K(!new), T(!new), P(!new)>(source: map<K, set<T>>, target: map<K, set<T>>, proj: T --> P,
                                                     ltT: (T, T) -> bool, ltP: (P, P) -> bool)
    requires StrictTotalOrder(ltT) && StrictTotalOrder(ltP)
    requires ProjectsRemovals(source, target, proj)
    ensures var d := SourcePass(FirstPass<K, T, P>(source, target, ltT), source, target, proj, ltT, ltP);
      forall k :: k in d <==> (k in source || k in target) && (k in source && k in target ==> source[k] != target[k])
  {
    RemovalsProjectable(source, target, proj);
  }

  lemma PassesTargetSide<K(!new), T(!new), P(!new)>(source: map<K, set<T>>, target: map<K, set<T>>, proj: T --> P,
                                                           ltT: (T, T) -> bool, ltP: (P, P) -> bool)
    requires StrictTotalOrder(ltT) && StrictTotalOrder(ltP)
    requires ProjectsRemovals(source, target, proj)
    ensures var d := SourcePass(FirstPass<K, T, P>(source, target, ltT), source, target, proj, ltT, ltP);
      forall k :: k in target && k !in source ==>
        k in d && |d[k]| == 1 && d[k][0].Added? && Lists(d[k][0].members, target[k], ltT)
  {
    RemovalsProjectable(source, target, proj);
  }

  lemma PassesSourceSide<K(!new), T(!new), P(!new)>(source: map<K, set<T>>, target: map<K, set<T>>, proj: T --> P,
                                                           ltT: (T, T) -> bool, ltP: (P, P) -> bool)
    requires StrictTotalOrder(ltT) && StrictTotalOrder(ltP)
    requires ProjectsRemovals(source, target, proj)
    ensures var d := SourcePass(FirstPass<K, T, P>(source, target, ltT), source, target, proj, ltT, ltP);
      forall k :: k in source && (k !in target || source[k] != target[k]) ==>
        k in d && d[k] == SourceFacts(source, target, k, proj, ltT, ltP)
  {
    RemovalsProjectable(source, target, proj);
  }

  /** The tuples a record reports added. */
  ghost function AddedMembers<T, P>(rec: seq<MemberFact<T, P>>): set<T>
  {
    if |rec| > 0 && rec[0].Added? then set x | x in rec[0].members else {}
  }

  /** The projections a record reports removed, as a set. */
  ghost function DroppedOwners<T, P>(rec: seq<MemberFact<T, P>>): set<P>
  {
    if |rec| > 0 && rec[|rec| - 1].Dropped? then
      var owners := rec[|rec| - 1].owners;
      set p | p in owners
    else {}
  }

  /** The tuple set of member `k`, empty when the index lacks `k`. */
  ghost function SetAt<K, T>(m: map<K, set<T>>, k: K): set<T>
  {
    if k in m then m[k] else {}
  }

  lemma ListedSet<T(!new)>(xs: seq<T>, s: set<T>, lt: (T, T) -> bool)
    requires Lists(xs, s, lt)
    ensures (set x | x in xs) == s
  {
  }

  lemma ListedImage<T, P(!new)>(ys: seq<P>, s: set<T>, proj: T --> P, lt: (P, P) -> bool)
    requires forall x :: x in s ==> proj.requires(x)
    requires ListsImage(ys, s, proj, lt)
    ensures (set p | p in ys) == (set x | x in s :: proj(x))
  {
    var image := set x | x in s :: proj(x);
    forall p | p in ys ensures p in image
    {
      assert multiset(ys)[p] > 0;
      var x :| x in Preimage(s, proj, p);
    }
    forall p | p in image ensures p in ys
    {
      var x :| x in s && proj(x) == p;
      assert x in Preimage(s, proj, p);
      assert multiset(ys)[p] > 0;
    }
  }

  /** Every member's record of `diff_list` tells, before projection, what
      the target added, and the projection of what the source lost; the
      source's set plus the additions is the target's set plus the
      removals. */
  lemma MembershipDiffAccountsForChange<K(!new), T(!new), P(!new)>(d: map<K, seq<MemberFact<T, P>>>,
                                                                  source: map<K, set<T>>, target: map<K, set<T>>,
                                                                  proj: T --> P, ltT: (T, T) -> bool, ltP: (P, P) -> bool, k: K)
    requires ProjectsRemovals(source, target, proj)
    requires DescribesMembership(d, source, target, proj, ltT, ltP)
    ensures forall x :: x in SetAt(source, k) - SetAt(target, k) ==> proj.requires(x)
    ensures AddedMembers(ListAt(d, k)) == SetAt(target, k) - SetAt(source, k)
    ensures DroppedOwners(ListAt(d, k)) == (set x | x in SetAt(source, k) - SetAt(target, k) :: proj(x))
    ensures SetAt(source, k) + AddedMembers(ListAt(d, k)) == SetAt(target, k) + (SetAt(source, k) - SetAt(target, k))
  {
    var s, t := SetAt(source, k), SetAt(target, k);
    var rec := ListAt(d, k);
    if k in d {
      if k in source && k in target {
        if t - s != {} {
          ListedSet(rec[0].members, t - s, ltT);
        }
        if s - t != {} {
          ListedImage(rec[|rec| - 1].owners, s - t, proj, ltP);
        }
      } else if k in target {
        ListedSet(rec[0].members, t, ltT);
      } else {
        ListedImage(rec[0].owners, s, proj, ltP);
      }
    }
  }

  /** The map obtained by taking the removals out of every member's set and
      putting the additions in; members left with no tuple disappear. */
  ghost function PatchMembership<K, T>(source: map<K, set<T>>, d: map<K, seq<MemberFact<T, T>>>): map<K, set<T>>
  {
    map k | k in source.Keys + d.Keys && Patched(source, d, k) != {} :: Patched(source, d, k)
  }

  ghost function Patched<K, T>(source: map<K, set<T>>, d: map<K, seq<MemberFact<T, T>>>, k: K): set<T>
  {
    (SetAt(source, k) - DroppedOwners(ListAt(d, k))) + AddedMembers(ListAt(d, k))
  }

  /** With the identity as projection, the membership diff is invertible:
      patching the source index with it gives back the target index (both
      indexes keep only non-empty sets, as the reverse indexes do). */
  lemma PatchRecoversTarget<K(!new), T(!new)>(d: map<K, seq<MemberFact<T, T>>>, source: map<K, set<T>>, target: map<K, set<T>>,
                                              proj: T --> T, lt: (T, T) -> bool)
    requires forall x :: proj.requires(x) && proj(x) == x
    requires forall k :: k in source ==> source[k] != {}
    requires forall k :: k in target ==> target[k] != {}
    requires DescribesMembership(d, source, target, proj, lt, lt)
    ensures PatchMembership(source, d) == target
  {
    var r := PatchMembership(source, d);
    forall k | k in target ensures k in r && r[k] == target[k]
    {
      PatchedAt(d, source, target, proj, lt, k);
      assert k in source.Keys + d.Keys;
    }
    forall k | k in r ensures k in target
    {
      PatchedAt(d, source, target, proj, lt, k);
    }
    SameMaps(r, target);
  }

  lemma PatchedAt<K(!new), T(!new)>(d: map<K, seq<MemberFact<T, T>>>, source: map<K, set<T>>, target: map<K, set<T>>,
                                    proj: T --> T, lt: (T, T) -> bool, k: K)
    requires forall x :: proj.requires(x) && proj(x) == x
    requires DescribesMembership(d, source, target, proj, lt, lt)
    ensures Patched(source, d, k) == SetAt(target, k)
  {
    MembershipDiffAccountsForChange(d, source, target, proj, lt, lt, k);
    var s, t := SetAt(source, k), SetAt(target, k);
    assert (set x | x in s - t :: proj(x)) == s - t;
  }

  /** The inverse of `DiffMembership` under the identity projection. */
  lemma DiffMembershipIsInvertible<K(!new), T(!new)>(source: map<K, set<T>>, target: map<K, set<T>>,
                                                          proj: T --> T, lt: (T, T) -> bool)
    requires StrictTotalOrder(lt)
    requires forall x :: proj.requires(x) && proj(x) == x
    requires forall k :: k in source ==> source[k] != {}
    requires forall k :: k in target ==> target[k] != {}
    ensures PatchMembership(source, DiffMembership(source, target, proj, lt, lt)) == target
  {
    PatchRecoversTarget(DiffMembership(source, target, proj, lt, lt), source, target, proj, lt);
  }

  /** A member with equal sets on both sides gets no record at all. */
  lemma MembershipSelfDiff<K(!new), T(!new), P(!new)>(m: map<K, set<T>>, proj: T --> P, ltT: (T, T) -> bool, ltP: (P, P) -> bool)
    requires StrictTotalOrder(ltT) && StrictTotalOrder(ltP)
    ensures ProjectsRemovals(m, m, proj)
    ensures DiffMembership(m, m, proj, ltT, ltP) == map[]
  {
    var d := DiffMembership(m, m, proj, ltT, ltP);
    assert d.Keys == {};
  }

  /** `diff_list`'s projection for package tuples (`itemgetter(0)`): the owning group. */
  function OwningGroup(t: PkgTuple): string
  {
    t.group
  }

  /** `diff_list`'s projection for category ids (`itemgetter(0)` on a plain
      string): the first character of the id, not the id. */
  function FirstChar(c: string): (r: string)
    requires |c| > 0
    ensures |r| == 1 && r[0] == c[0]
  {
    c[..1]
  }

  /** The `packagelist` section: `diff_list` over two package indexes. */
  function DiffPackageList(source: map<string, set<PkgTuple>>, target: map<string, set<PkgTuple>>)
    : (d: map<string, seq<MemberFact<PkgTuple, string>>>)
    ensures DescribesMembership(d, source, target, OwningGroup, PkgTupleLt, StrLt)
  {
    PkgTupleLtIsStrictTotalOrder();
    StrLtIsStrictTotalOrder();
    DiffMembership(source, target, OwningGroup, PkgTupleLt, StrLt)
  }

  /** The `grouplist` section: `diff_list` over two category indexes. Every
      category id reported removed must have a first character. */
  function DiffGroupList(source: map<string, set<string>>, target: map<string, set<string>>)
    : (d: map<string, seq<MemberFact<string, string>>>)
    requires ProjectsRemovals(source, target, FirstChar)
    ensures DescribesMembership(d, source, target, FirstChar, StrLt, StrLt)
  {
    StrLtIsStrictTotalOrder();
    DiffMembership(source, target, FirstChar, StrLt, StrLt)
  }

  /** In the `packagelist` section, a package is reported removed from group
      `g` exactly when the source lists it in `g` with some requirement and
      type that the target no longer lists: `itemgetter(0)` keeps the group
      and drops the qualifiers. `DiffPackageList` meets the requires. */
  lemma PackageRemovalsNameGroups(d: map<string, seq<MemberFact<PkgTuple, string>>>,
                                  source: map<string, set<PkgTuple>>, target: map<string, set<PkgTuple>>,
                                  n: string, g: string)
    requires DescribesMembership(d, source, target, OwningGroup, PkgTupleLt, StrLt)
    ensures g in DroppedOwners(ListAt(d, n)) <==>
      exists t :: t in SetAt(source, n) && t !in SetAt(target, n) && t.group == g
  {
    MembershipDiffAccountsForChange(d, source, target, OwningGroup, PkgTupleLt, StrLt, n);
    if exists t :: t in SetAt(source, n) && t !in SetAt(target, n) && t.group == g {
      var t :| t in SetAt(source, n) && t !in SetAt(target, n) && t.group == g;
      assert OwningGroup(t) == g;
    }
  }

  /** A package whose requirement or type changed within one group is
      reported both as a new tuple and as removed from that group. */
  lemma RetypedPackageShowsBoth(source: map<string, set<PkgTuple>>, target: map<string, set<PkgTuple>>,
                                n: string, before: PkgTuple, after: PkgTuple)
    requires n in source && n in target
    requires before in source[n] && before !in target[n]
    requires after in target[n] && after !in source[n]
    requires before.group == after.group
    ensures var d := DiffPackageList(source, target);
      && n in d && |d[n]| == 2
      && d[n][0].Added? && after in d[n][0].members
      && d[n][1].Dropped? && after.group in d[n][1].owners
  {
    PkgTupleLtIsStrictTotalOrder();
    StrLtIsStrictTotalOrder();
    AddedAndDropped(DiffPackageList(source, target), source, target, OwningGroup, PkgTupleLt, StrLt, n, before, after);
  }

  /** A member that gains one tuple and loses another gets exactly two
      facts: one listing the gained tuple, then one listing the lost tuple's
      projection. */
  lemma AddedAndDropped<K(!new), T(!new), P(!new)>(d: map<K, seq<MemberFact<T, P>>>,
                                                  source: map<K, set<T>>, target: map<K, set<T>>,
                                                  proj: T --> P, ltT: (T, T) -> bool, ltP: (P, P) -> bool,
                                                  k: K, gone: T, come: T)
    requires DescribesMembership(d, source, target, proj, ltT, ltP)
    requires k in source && k in target
    requires gone in source[k] && gone !in target[k] && proj.requires(gone)
    requires come in target[k] && come !in source[k]
    ensures k in d && |d[k]| == 2
    ensures d[k][0].Added? && come in d[k][0].members
    ensures d[k][1].Dropped? && proj(gone) in d[k][1].owners
  {
    assert gone in source[k] - target[k];
    assert come in target[k] - source[k];
    var owners := d[k][1].owners;
    assert gone in Preimage(source[k] - target[k], proj, proj(gone));
    assert multiset(owners)[proj(gone)] > 0;
  }

  lemma PairOf<X>(xs: seq<X>, a: X, b: X)
    requires |xs| == 2 && xs[0] == a && xs[1] == b
    ensures xs == [a, b]
  {
  }

  lemma SingletonMap<K, V>(d: map<K, V>, k: K, v: V)
    requires d.Keys == {k} && d[k] == v
    ensures d == map[k := v]
  {
  }

  lemma SingleImage<T, P(!new)>(ys: seq<P>, x: T, proj: T --> P, lt: (P, P) -> bool)
    requires proj.requires(x)
    requires ListsImage(ys, {x}, proj, lt)
    ensures ys == [proj(x)]
  {
    forall p ensures multiset(ys)[p] == multiset{proj(x)}[p]
    {
      if p == proj(x) {
        assert Preimage({x}, proj, p) == {x};
      } else {
        assert Preimage({x}, proj, p) == {};
      }
    }
    assert multiset(ys) == multiset{proj(x)};
    assert |ys| == 1;
    assert ys[0] in multiset(ys);
  }

  lemma SingleListed<T(!new)>(xs: seq<T>, x: T, lt: (T, T) -> bool)
    requires StrictTotalOrder(lt)
    requires Lists(xs, {x}, lt)
    ensures xs == [x]
  {
    ListsUnique(xs, [x], {x}, lt);
  }

  /** `vim` moves from mandatory to default in group `g1`: the record holds
      the new tuple and then the group it was removed from. */
  lemma RetypedVimScenario()
    ensures DiffPackageList(map["vim" := {PkgTuple("g1", None, Some("mandatory"))}],
                            map["vim" := {PkgTuple("g1", None, Some("default"))}])
      == map["vim" := [Added([PkgTuple("g1", None, Some("default"))]), Dropped(["g1"])]]
  {
    PkgTupleLtIsStrictTotalOrder();
    StrLtIsStrictTotalOrder();
    var source, target := map["vim" := {PkgTuple("g1", None, Some("mandatory"))}],
                          map["vim" := {PkgTuple("g1", None, Some("default"))}];
    RetypedVimRecord(DiffPackageList(source, target));
  }

  lemma RetypedVimRecord(d: map<string, seq<MemberFact<PkgTuple, string>>>)
    requires StrictTotalOrder(PkgTupleLt) && StrictTotalOrder(StrLt)
    requires DescribesMembership(d, map["vim" := {PkgTuple("g1", None, Some("mandatory"))}],
                                 map["vim" := {PkgTuple("g1", None, Some("default"))}], OwningGroup, PkgTupleLt, StrLt)
    ensures d == map["vim" := [Added([PkgTuple("g1", None, Some("default"))]), Dropped(["g1"])]]
  {
    var before, after := PkgTuple("g1", None, Some("mandatory")), PkgTuple("g1", None, Some("default"));
    VimRecordShape(d);
    var rec := d["vim"];
    SingleListed(rec[0].members, after, PkgTupleLt);
    SingleImage(rec[1].owners, before, OwningGroup, StrLt);
    PairOf(rec, Added([after]), Dropped(["g1"]));
    SingletonMap(d, "vim", rec);
  }

  /** The shape of the `vim` record: one fact listing the new tuple, then
      one listing the projection of the old tuple. */
  lemma VimRecordShape(d: map<string, seq<MemberFact<PkgTuple, string>>>)
    requires DescribesMembership(d, map["vim" := {PkgTuple("g1", None, Some("mandatory"))}],
                                 map["vim" := {PkgTuple("g1", None, Some("default"))}], OwningGroup, PkgTupleLt, StrLt)
    ensures d.Keys == {"vim"} && |d["vim"]| == 2
    ensures d["vim"][0].Added? && Lists(d["vim"][0].members, {PkgTuple("g1", None, Some("default"))}, PkgTupleLt)
    ensures d["vim"][1].Dropped? && ListsImage(d["vim"][1].owners, {PkgTuple("g1", None, Some("mandatory"))}, OwningGroup, StrLt)
  {
    var before, after := PkgTuple("g1", None, Some("mandatory")), PkgTuple("g1", None, Some("default"));
    var source, target := map["vim" := {before}], map["vim" := {after}];
    assert source["vim"] - target["vim"] == {before};
    assert target["vim"] - source["vim"] == {after};
  }

  lemma FirstCharsOfAppsAndAdmin(p: string)
    ensures Preimage({"apps", "admin"}, FirstChar, p) == if p == "a" then {"apps", "admin"} else {}
  {
    var pre := Preimage({"apps", "admin"}, FirstChar, p);
    assert FirstChar("apps") == "a" && FirstChar("admin") == "a";
    if p == "a" {
      assert "apps" in pre && "admin" in pre;
    }
  }

  lemma TwiceOf<X>(ys: seq<X>, p: X)
    requires multiset(ys) == multiset{p, p}
    ensures ys == [p, p]
  {
    assert |ys| == 2;
    assert ys[0] in multiset(ys) && ys[1] in multiset(ys);
  }

  /** A group dropped from categories `apps` and `admin`: the record reports
      the first character of each category id, `a` twice. */
  lemma CategoryRemovalReportsFirstChars()
    ensures ProjectsRemovals(map["base" := {"apps", "admin"}], map[], FirstChar)
    ensures DiffGroupList(map["base" := {"apps", "admin"}], map[]) == map["base" := [Dropped(["a", "a"])]]
  {
    StrLtIsStrictTotalOrder();
    var source: map<string, set<string>> := map["base" := {"apps", "admin"}];
    FirstCharsRecord(DiffGroupList(source, map[]));
  }

  /** The only membership diff of `base` leaving categories `apps` and
      `admin` reports `a` twice. */
  lemma FirstCharsRecord(d: map<string, seq<MemberFact<string, string>>>)
    requires DescribesMembership(d, map["base" := {"apps", "admin"}], map[], FirstChar, StrLt, StrLt)
    ensures d == map["base" := [Dropped(["a", "a"])]]
  {
    var rec := d["base"];
    assert d.Keys == {"base"} && |rec| == 1 && rec[0].Dropped?;
    var ys := rec[0].owners;
    FirstCharsCounted(ys);
    TwiceOf(ys, "a");
    assert rec == [Dropped(["a", "a"])];
    SingletonMap(d, "base", rec);
  }

  lemma FirstCharsCounted(ys: seq<string>)
    requires ListsImage(ys, {"apps", "admin"}, FirstChar, StrLt)
    ensures multiset(ys) == multiset{"a", "a"}
  {
    forall p ensures multiset(ys)[p] == multiset{"a", "a"}[p]
    {
      FirstCharsOfAppsAndAdmin(p);
    }
  }
}
