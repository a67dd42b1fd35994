/** The reverse indexes a catalog derives from its member lists: for every
    member key, the set of qualifying tuples of the entities that list it
    (diffcomps.py, properties `Groups.packages` and `Categories.groups`). */
module Index {
  import opened Comps

  /** Some owner in `owners` lists a member `m` with `key(m) == k` and
      `qual(owner, m) == t`. */
  ghost predicate Contributes<M, K, T>(cat: Catalog<M>, owners: set<string>,
                                      key: M -> K, qual: (string, M) -> T, k: K, t: T)
  {
    exists o, m :: o in owners && o in cat && m in cat[o].members && key(m) == k && qual(o, m) == t
  }

  /** One of the first `i` members of owner `o` has key `k` and tuple `t`. */
  ghost predicate ContributesBefore<M, K, T>(o: string, members: seq<M>, i: int,
                                            key: M -> K, qual: (string, M) -> T, k: K, t: T)
  {
    exists j :: 0 <= j < i && j < |members| && key(members[j]) == k && qual(o, members[j]) == t
  }

  /** `idx` is the reverse index of the members of `owners`: a key is present
      only with a non-empty set, and holds exactly the tuples contributed. */
  ghost predicate IndexOf<M, K(!new), T(!new)>(idx: map<K, set<T>>, cat: Catalog<M>, owners: set<string>,
                                             key: M -> K, qual: (string, M) -> T)
  {
    && (forall k :: k in idx ==> idx[k] != {})
    && (forall k, t :: k in idx && t in idx[k] <==> Contributes(cat, owners, key, qual, k, t))
  }

  lemma AddOwner<M, K, T>(cat: Catalog<M>, done: set<string>, o: string,
                          key: M -> K, qual: (string, M) -> T, k: K, t: T)
    requires o in cat
    ensures Contributes(cat, done + {o}, key, qual, k, t) <==>
      Contributes(cat, done, key, qual, k, t) || ContributesBefore(o, cat[o].members, |cat[o].members|, key, qual, k, t)
  {
    var ms := cat[o].members;
    if ContributesBefore(o, ms, |ms|, key, qual, k, t) {
      var j :| 0 <= j < |ms| && key(ms[j]) == k && qual(o, ms[j]) == t;
      assert ms[j] in cat[o].members;
    }
    if Contributes(cat, done + {o}, key, qual, k, t) {
      var o', m :| o' in done + {o} && o' in cat && m in cat[o'].members && key(m) == k && qual(o', m) == t;
      if o' == o {
        var j :| 0 <= j < |ms| && ms[j] == m;
        assert ContributesBefore(o, ms, |ms|, key, qual, k, t);
      }
    }
  }

  lemma InsertTuple<K, T>(before: map<K, set<T>>, after: map<K, set<T>>, k: K, t: T)
    requires after == before[k := (if k in before then before[k] else {}) + {t}]
    ensures forall k', t' :: k' in after && t' in after[k'] <==> (k' in before && t' in before[k']) || (k' == k && t' == t)
  {
  }

  lemma NextMember<M, K, T>(o: string, members: seq<M>, i: int, key: M -> K, qual: (string, M) -> T, k: K, t: T)
    requires 0 <= i < |members|
    ensures ContributesBefore(o, members, i + 1, key, qual, k, t) <==>
      ContributesBefore(o, members, i, key, qual, k, t) || (k == key(members[i]) && t == qual(o, members[i]))
  {
    if ContributesBefore(o, members, i + 1, key, qual, k, t) {
      var j :| 0 <= j < i + 1 && j < |members| && key(members[j]) == k && qual(o, members[j]) == t;
      if j < i {
        assert ContributesBefore(o, members, i, key, qual, k, t);
      }
    }
    if k == key(members[i]) && t == qual(o, members[i]) {
      assert ContributesBefore(o, members, i + 1, key, qual, k, t);
    }
    if ContributesBefore(o, members, i, key, qual, k, t) {
      var j :| 0 <= j < i && j < |members| && key(members[j]) == k && qual(o, members[j]) == t;
      assert 0 <= j < i + 1;
    }
  }

  /** Halfway through owner `o`: `idx` indexes the owners in `done` and the
      first `i` members of `o`. */
  ghost predicate IndexedUpTo<M, K(!new), T(!new)>(idx: map<K, set<T>>, cat: Catalog<M>, done: set<string>,
                                                 o: string, i: int, key: M -> K, qual: (string, M) -> T)
    requires o in cat
  {
    && (forall k :: k in idx ==> idx[k] != {})
    && (forall k, t :: k in idx && t in idx[k] <==>
          Contributes(cat, done, key, qual, k, t) || ContributesBefore(o, cat[o].members, i, key, qual, k, t))
  }

  lemma StartOwner<M, K(!new), T(!new)>(idx: map<K, set<T>>, cat: Catalog<M>, done: set<string>,
                                         o: string, key: M -> K, qual: (string, M) -> T)
    requires o in cat
    requires IndexOf(idx, cat, done, key, qual)
    ensures IndexedUpTo(idx, cat, done, o, 0, key, qual)
  {
  }

  lemma AddMember<M, K(!new), T(!new)>(before: map<K, set<T>>, idx: map<K, set<T>>, cat: Catalog<M>, done: set<string>,
                                        o: string, i: int, key: M -> K, qual: (string, M) -> T)
    requires o in cat && 0 <= i < |cat[o].members|
    requires IndexedUpTo(before, cat, done, o, i, key, qual)
    requires var m := cat[o].members[i];
      idx == before[key(m) := (if key(m) in before then before[key(m)] else {}) + {qual(o, m)}]
    ensures IndexedUpTo(idx, cat, done, o, i + 1, key, qual)
  {
    var members := cat[o].members;
    var k, t := key(members[i]), qual(o, members[i]);
    InsertTuple(before, idx, k, t);
    forall k', t' ensures k' in idx && t' in idx[k'] <==>
      Contributes(cat, done, key, qual, k', t') || ContributesBefore(o, members, i + 1, key, qual, k', t')
    {
      NextMember(o, members, i, key, qual, k', t');
    }
  }

  lemma FinishOwner<M, K(!new), T(!new)>(idx: map<K, set<T>>, cat: Catalog<M>, done: set<string>,
                                          o: string, key: M -> K, qual: (string, M) -> T)
    requires o in cat
    requires IndexedUpTo(idx, cat, done, o, |cat[o].members|, key, qual)
    ensures IndexOf(idx, cat, done + {o}, key, qual)
  {
    forall k, t ensures Contributes(cat, done + {o}, key, qual, k, t) <==>
      Contributes(cat, done, key, qual, k, t) || ContributesBefore(o, cat[o].members, |cat[o].members|, key, qual, k, t)
    {
      AddOwner(cat, done, o, key, qual, k, t);
    }
  }

  /** Builds the reverse index owner by owner, member by member, adding each
      member's tuple to the set under its key (a `defaultdict(set)`). */
  method ReverseIndex<M, K(==,!new), T(==,!new)>(cat: Catalog<M>, key: M -> K, qual: (string, M) -> T)
    returns (idx: map<K, set<T>>)
    ensures IndexOf(idx, cat, cat.Keys, key, qual)
  {
    idx := map[];
    var todo := cat.Keys;
    while todo != {}
      invariant todo <= cat.Keys
      invariant IndexOf(idx, cat, cat.Keys - todo, key, qual)
      decreases todo
    {
      var o :| o in todo;
      var members := cat[o].members;
      StartOwner(idx, cat, cat.Keys - todo, o, key, qual);
      var i := 0;
      while i < |members|
        invariant 0 <= i <= |members|
        invariant IndexedUpTo(idx, cat, cat.Keys - todo, o, i, key, qual)
      {
        var k, t := key(members[i]), qual(o, members[i]);
        ghost var before := idx;
        idx := idx[k := (if k in idx then idx[k] else {}) + {t}];
        AddMember(before, idx, cat, cat.Keys - todo, o, i, key, qual);
        i := i + 1;
      }
      FinishOwner(idx, cat, cat.Keys - todo, o, key, qual);
      assert cat.Keys - (todo - {o}) == (cat.Keys - todo) + {o};
      todo := todo - {o};
    }
    assert cat.Keys - todo == cat.Keys;
  }

  /** Two catalogs whose owners list the same members, in any order and with
      any repetition, have the same reverse index: duplicate memberships
      collapse because the index holds sets. */
  lemma {:induction false} IndexIgnoresOrderAndRepeats<M, K(!new), T(!new)>(
    c1: Catalog<M>, c2: Catalog<M>, key: M -> K, qual: (string, M) -> T,
    i1: map<K, set<T>>, i2: map<K, set<T>>)
    requires c1.Keys == c2.Keys
    requires forall o, m :: o in c1 ==> (m in c1[o].members <==> m in c2[o].members)
    requires IndexOf(i1, c1, c1.Keys, key, qual) && IndexOf(i2, c2, c2.Keys, key, qual)
    ensures i1 == i2
  {
    forall k, t ensures Contributes(c1, c1.Keys, key, qual, k, t) <==> Contributes(c2, c2.Keys, key, qual, k, t) {
      if Contributes(c1, c1.Keys, key, qual, k, t) {
        var o, m :| o in c1.Keys && o in c1 && m in c1[o].members && key(m) == k && qual(o, m) == t;
        assert m in c2[o].members;
      }
      if Contributes(c2, c2.Keys, key, qual, k, t) {
        var o, m :| o in c2.Keys && o in c2 && m in c2[o].members && key(m) == k && qual(o, m) == t;
        assert m in c1[o].members;
      }
    }
    forall k | k in i1 ensures k in i2 && i1[k] == i2[k] {
      var t :| t in i1[k];
      assert t in i2[k];
    }
    forall k | k in i2 ensures k in i1 {
      var t :| t in i2[k];
      assert t in i1[k];
    }
  }

  /** Key of a package membership: the package name. */
  function PackageName(p: Package): string
  {
    p.name
  }

  /** Tuple of a package membership: owning group with the requirement and type. */
  function PackageMembership(group: string, p: Package): PkgTuple
  {
    PkgTuple(group, p.requirement, p.kind)
  }

  /** `idx` maps every package name to the `(group, requires, type)` tuples
      of the groups listing it, and holds no other name. */
  ghost predicate IndexesPackages(idx: map<string, set<PkgTuple>>, groups: Catalog<Package>)
  {
    && (forall n :: n in idx ==> idx[n] != {})
    && (forall n, t :: n in idx && t in idx[n] <==>
          t.group in groups && Package(n, t.requirement, t.kind) in groups[t.group].members)
  }

  /** `idx` maps every group id to the ids of the categories listing it, and
      holds no other group id. */
  ghost predicate IndexesGroups(idx: map<string, set<string>>, categories: Catalog<string>)
  {
    && (forall g :: g in idx ==> idx[g] != {})
    && (forall g, c :: g in idx && c in idx[g] <==> c in categories && g in categories[c].members)
  }

  /** `Groups.packages`: package name to the `(group, requires, type)`
      tuples of the groups listing it. */
  method PackageIndex(groups: Catalog<Package>) returns (idx: map<string, set<PkgTuple>>)
    ensures IndexesPackages(idx, groups)
  {
    idx := ReverseIndex(groups, PackageName, PackageMembership);
    forall n, t ensures Contributes(groups, groups.Keys, PackageName, PackageMembership, n, t) <==>
      t.group in groups && Package(n, t.requirement, t.kind) in groups[t.group].members
    {
      var m := Package(n, t.requirement, t.kind);
      if t.group in groups && m in groups[t.group].members {
        assert PackageName(m) == n && PackageMembership(t.group, m) == t;
      }
    }
  }

  /** Key of a category membership: the group id itself. */
  function GroupKey(group: string): string
  {
    group
  }

  /** Tuple of a category membership: the owning category id alone. */
  function OwningCategory(category: string, group: string): string
  {
    category
  }

  /** `Categories.groups`: group id to the ids of the categories listing it. */
  method GroupIndex(categories: Catalog<string>) returns (idx: map<string, set<string>>)
    ensures IndexesGroups(idx, categories)
  {
    idx := ReverseIndex(categories, GroupKey, OwningCategory);
    forall g, c ensures Contributes(categories, categories.Keys, GroupKey, OwningCategory, g, c) <==>
      c in categories && g in categories[c].members
    {
      if c in categories && g in categories[c].members {
        assert GroupKey(g) == g && OwningCategory(c, g) == c;
      }
    }
  }
}
