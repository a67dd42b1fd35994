/** The entity diff (diffcomps.py, `diff_comps` with its inner `diff_dicts`):
    one record per id of either catalog, saying whether the entity is new,
    removed, or which of its attributes and localized texts changed. */
module EntityDiff {
  import opened Wrappers
  import opened Orders
  import opened Sorting
  import opened Comps

  /** What `diff_dicts` finds between two language maps: pairs the target
      adds, tags the target drops, and triples for tags whose text differs. */
  datatype DictDiff = DictDiff(additions: set<(Lang, Text)>, removals: set<Lang>,
                               changes: set<(Lang, Text, Text)>)

  function DiffDicts(s: TextMap, t: TextMap): (r: DictDiff)
  {
    DictDiff(
      set k | k in t && k !in s :: (k, t[k]),
      set k | k in s && k !in t,
      set k | k in s && k in t && s[k] != t[k] :: (k, s[k], t[k]))
  }

  /** The language map obtained by dropping the removed tags from `s`, then
      writing the added pairs and the new side of the changed triples. */
  ghost function PatchText(s: TextMap, d: DictDiff): TextMap
  {
    var tags := (s.Keys - d.removals) + (set a | a in d.additions :: a.0);
    map k | k in tags :: PatchedText(s, d, k)
  }

  ghost function PatchedText(s: TextMap, d: DictDiff, k: Lang): Text
  {
    if exists v :: (k, v) in d.additions then
      var v :| (k, v) in d.additions; v
    else if exists a, b :: (k, a, b) in d.changes then
      var a, b :| (k, a, b) in d.changes; b
    else if k in s then s[k]
    else None
  }

  /** `diff_dicts` loses nothing the target needs: patching the source with
      it gives back the target. */
  lemma DiffDictsPatchesSourceToTarget(s: TextMap, t: TextMap)
    ensures PatchText(s, DiffDicts(s, t)) == t
  {
    var d := DiffDicts(s, t);
    var p := PatchText(s, d);
    forall k | k in t ensures k in p && p[k] == t[k]
    {
      if k !in s {
        assert (k, t[k]) in d.additions;
      } else if s[k] != t[k] {
        assert (k, s[k], t[k]) in d.changes;
      }
    }
    forall k | k in p ensures k in t
    {
    }
    SameMaps(p, t);
  }

  /** The reported change of one text field: tags whose text is new or
      altered, and tags no longer present, each list ascending. */
  datatype TextDiff = TextDiff(newKeys: seq<Lang>, removedKeys: seq<Lang>)

  /** Tags the target has that the source lacks or carries other text for. */
  ghost function NewLangs(s: TextMap, t: TextMap): set<Lang>
  {
    set k | k in t && (k !in s || s[k] != t[k])
  }

  /** `d` reports the change from `s` to `t`. */
  ghost predicate DescribesTextChange(d: TextDiff, s: TextMap, t: TextMap)
  {
    && Lists(d.newKeys, NewLangs(s, t), OptLt)
    && Lists(d.removedKeys, s.Keys - t.Keys, OptLt)
  }

  /** The tags of `additions | changes` from `diff_dicts`. */
  function ReportedTags(d: DictDiff): set<Lang>
  {
    (set a | a in d.additions :: a.0) + (set c | c in d.changes :: c.0)
  }

  /** One `{tag: {'new': ..., 'removed': ...}}` fact: an altered text counts
      as a new tag; the old text is not reported. */
  function DiffText(s: TextMap, t: TextMap): (r: TextDiff)
    ensures DescribesTextChange(r, s, t)
  {
    OptLtIsStrictTotalOrder();
    var d := DiffDicts(s, t);
    assert ReportedTags(d) == NewLangs(s, t) by {
      forall k | k in NewLangs(s, t) ensures k in ReportedTags(d) {
        if k in s {
          assert (k, s[k], t[k]) in d.changes;
        } else {
          assert (k, t[k]) in d.additions;
        }
      }
    }
    TextDiff(SortSet(ReportedTags(d), OptLt), SortSet(d.removals, OptLt))
  }

  /** The target's tags are the source's minus the removed ones plus the new
      ones, and a tag of both maps that is not reported keeps its text. */
  lemma DiffTextAccountsForEveryTag(s: TextMap, t: TextMap)
    ensures forall k :: k in t <==> (k in s && k !in DiffText(s, t).removedKeys) || k in DiffText(s, t).newKeys
    ensures forall k :: k in s && k in t && k !in DiffText(s, t).newKeys ==> s[k] == t[k]
    ensures forall k :: !(k in DiffText(s, t).newKeys && k in DiffText(s, t).removedKeys)
  {
  }

  /** Diffing a language map against itself reports nothing. */
  lemma DiffTextSelf(m: TextMap)
    ensures DiffText(m, m) == TextDiff([], [])
  {
    DiffTextSelfDescribed(DiffText(m, m), m);
  }

  lemma DiffTextSelfDescribed(r: TextDiff, m: TextMap)
    requires DescribesTextChange(r, m, m)
    ensures r == TextDiff([], [])
  {
    OptLtIsStrictTotalOrder();
    assert NewLangs(m, m) == {};
    assert m.Keys - m.Keys == {};
    ListsUnique(r.newKeys, [], {}, OptLt);
    ListsUnique(r.removedKeys, [], {}, OptLt);
  }

  /** An injective map preserves the size of a set. */
  lemma {:induction false} InjectiveImageSize<X, Y>(s: set<X>, image: set<Y>, f: X -> Y)
    requires forall x :: x in s ==> f(x) in image
    requires forall y :: y in image ==> exists x :: x in s && f(x) == y
    requires forall a, b :: a in s && b in s && f(a) == f(b) ==> a == b
    ensures |image| == |s|
    decreases |s|
  {
    if s != {} {
      var x :| x in s;
      var s', image' := s - {x}, image - {f(x)};
      forall y | y in image' ensures exists x' :: x' in s' && f(x') == y {
        var x' :| x' in s && f(x') == y;
        assert x' in s';
      }
      InjectiveImageSize(s', image', f);
    }
  }

  function TagOfAddition(a: (Lang, Text)): Lang
  {
    a.0
  }

  function TagOfChange(c: (Lang, Text, Text)): Lang
  {
    c.0
  }

  lemma AdditionTagsCount(s: TextMap, t: TextMap)
    ensures |set a | a in DiffDicts(s, t).additions :: a.0| == |DiffDicts(s, t).additions|
  {
    var adds := DiffDicts(s, t).additions;
    var tags := set a | a in adds :: a.0;
    forall y | y in tags ensures exists a :: a in adds && TagOfAddition(a) == y {
      var a :| a in adds && a.0 == y;
      assert TagOfAddition(a) == y;
    }
    InjectiveImageSize(adds, tags, TagOfAddition);
  }

  lemma ChangeTagsCount(s: TextMap, t: TextMap)
    ensures |set c | c in DiffDicts(s, t).changes :: c.0| == |DiffDicts(s, t).changes|
  {
    var changes := DiffDicts(s, t).changes;
    var tags := set c | c in changes :: c.0;
    forall y | y in tags ensures exists c :: c in changes && TagOfChange(c) == y {
      var c :| c in changes && c.0 == y;
      assert TagOfChange(c) == y;
    }
    InjectiveImageSize(changes, tags, TagOfChange);
  }

  /** Projecting `additions | changes` to their tags loses nothing: the
      Python list of new tags has one entry per addition and per change, so
      no tag is listed twice. */
  lemma NewTagsNeverRepeat(s: TextMap, t: TextMap)
    ensures |DiffText(s, t).newKeys| == |DiffDicts(s, t).additions| + |DiffDicts(s, t).changes|
  {
    OptLtIsStrictTotalOrder();
    var d := DiffDicts(s, t);
    AdditionTagsCount(s, t);
    ChangeTagsCount(s, t);
    var added := set a | a in d.additions :: a.0;
    var changed := set c | c in d.changes :: c.0;
    assert added !! changed;
    assert |ReportedTags(d)| == |added| + |changed|;
    assert |DiffText(s, t).newKeys| == |SortSet(ReportedTags(d), OptLt)|;
  }

  /** The value of every allow-listed attribute whose value differs, taken
      from the target (`None` when the target lacks it). */
  function ChangedAttributes(s: map<string, Text>, t: map<string, Text>, attributes: seq<string>): (r: map<string, Text>)
    ensures forall a :: a in r <==> a in attributes && Get(s, a) != Get(t, a)
    ensures forall a :: a in r ==> r[a] == Get(t, a)
    decreases |attributes|
  {
    if |attributes| == 0 then map[]
    else
      var a := attributes[|attributes| - 1];
      var r := ChangedAttributes(s, t, attributes[..|attributes| - 1]);
      assert attributes == attributes[..|attributes| - 1] + [a];
      if Get(s, a) != Get(t, a) then r[a := Get(t, a)] else r
  }

  /** Overriding the source's attributes with the changes gives the target's
      value for every allow-listed attribute and keeps every other one. */
  lemma {:induction false} ChangesPatchSourceToTarget(s: map<string, Text>, t: map<string, Text>, attributes: seq<string>)
    ensures forall a :: a in attributes ==> Get(s + ChangedAttributes(s, t, attributes), a) == Get(t, a)
    ensures forall a :: a !in attributes ==> Get(s + ChangedAttributes(s, t, attributes), a) == Get(s, a)
  {
    var r := ChangedAttributes(s, t, attributes);
    forall a ensures Get(s + r, a) == if a in r then r[a] else Get(s, a) {
    }
  }

  /** A group that loses its `default` attribute: the change map holds
      `default` with the target's value, `None`. */
  lemma DroppedDefaultScenario()
    ensures ChangedAttributes(map["default" := Some("true")], map[], GroupAttrs) == map["default" := None]
  {
    var s: map<string, Text> := map["default" := Some("true")];
    var r := ChangedAttributes(s, map[], GroupAttrs);
    assert Get(s, "default") != Get(map[], "default");
    assert "default" in r;
    assert r.Keys == {"default"};
  }

  /** One fact of an entity's diff record. */
  datatype Fact =
    | NewTag
    | RemovedTag
    | AttributeChanges(changes: map<string, Text>)
    | TextChanges(field: TextField, diff: TextDiff)

  /** `rec` is the fixed-shape record of an id present in both catalogs:
      attribute changes, then the names diff, then the descriptions diff. */
  ghost predicate ComparesAs<M>(rec: seq<Fact>, s: Entity<M>, t: Entity<M>, attributes: seq<string>)
  {
    && |rec| == 3
    && rec[0].AttributeChanges?
    && (forall a :: a in rec[0].changes <==> a in attributes && Get(s.attrs, a) != Get(t.attrs, a))
    && (forall a :: a in rec[0].changes ==> rec[0].changes[a] == Get(t.attrs, a))
    && rec[1].TextChanges? && rec[1].field == Names && DescribesTextChange(rec[1].diff, s.names, t.names)
    && rec[2].TextChanges? && rec[2].field == Descriptions
    && DescribesTextChange(rec[2].diff, s.descriptions, t.descriptions)
  }

  /** The record of an id present in both catalogs. */
  function CompareEntities<M>(s: Entity<M>, t: Entity<M>, attributes: seq<string>): (r: seq<Fact>)
    ensures ComparesAs(r, s, t, attributes)
  {
    [AttributeChanges(ChangedAttributes(s.attrs, t.attrs, attributes)),
     TextChanges(Names, DiffText(s.names, t.names)),
     TextChanges(Descriptions, DiffText(s.descriptions, t.descriptions))]
  }

  /** `d` is an entity diff of `source` against `target`: an entry for every
      id of either catalog; `[new]` for an id only the target has,
      `[removed]` for one only the source has, and the fixed-shape
      comparison record for an id of both. */
  ghost predicate DescribesEntities<M>(d: map<string, seq<Fact>>, source: Catalog<M>, target: Catalog<M>,
                                       attributes: seq<string>)
  {
    && d.Keys == source.Keys + target.Keys
    && (forall id :: id in d && id !in source ==> d[id] == [NewTag])
    && (forall id :: id in d && id !in target ==> d[id] == [RemovedTag])
    && (forall id :: id in source && id in target ==> ComparesAs(d[id], source[id], target[id], attributes))
  }

  /** What the pass over the source appends for `id`. */
  function SourcePass<M>(source: Catalog<M>, target: Catalog<M>, attributes: seq<string>, id: string): seq<Fact>
  {
    if id !in source then []
    else if id !in target then [RemovedTag]
    else CompareEntities(source[id], target[id], attributes)
  }

  /** The pass over the target: `new` for every id the source lacks. */
  function NewIds<M>(source: Catalog<M>, target: Catalog<M>): map<string, seq<Fact>>
  {
    map id | id in target && id !in source :: [NewTag]
  }

  /** Both passes, the second appending to what the first recorded. */
  function BothPasses<M>(source: Catalog<M>, target: Catalog<M>, attributes: seq<string>): map<string, seq<Fact>>
  {
    var firstPass := NewIds(source, target);
    map id | id in firstPass.Keys + source.Keys :: ListAt(firstPass, id) + SourcePass(source, target, attributes, id)
  }

  lemma BothPassesKeys<M>(source: Catalog<M>, target: Catalog<M>, attributes: seq<string>)
    ensures BothPasses(source, target, attributes).Keys == source.Keys + target.Keys
  {
  }

  lemma BothPassesOneSided<M>(source: Catalog<M>, target: Catalog<M>, attributes: seq<string>)
    ensures var d := BothPasses(source, target, attributes);
      && (forall id :: id in d && id !in source ==> d[id] == [NewTag])
      && (forall id :: id in d && id !in target ==> d[id] == [RemovedTag])
  {
    var d := BothPasses(source, target, attributes);
    forall id | id in d && id !in target ensures d[id] == [RemovedTag] {
      assert ListAt(NewIds(source, target), id) == [];
    }
  }

  lemma BothPassesShared<M>(source: Catalog<M>, target: Catalog<M>, attributes: seq<string>)
    ensures var d := BothPasses(source, target, attributes);
      forall id :: id in source && id in target ==> id in d && d[id] == CompareEntities(source[id], target[id], attributes)
  {
    var d := BothPasses(source, target, attributes);
    forall id | id in source && id in target
      ensures id in d && d[id] == CompareEntities(source[id], target[id], attributes)
    {
      assert ListAt(NewIds(source, target), id) == [];
    }
  }

  /** `diff_comps`: a pass over the target tags the ids the source lacks as
      new, then a pass over the source tags the ids the target lacks as
      removed and records the changes of every other id. */
  function DiffEntities<M>(source: Catalog<M>, target: Catalog<M>, attributes: seq<string>): (d: map<string, seq<Fact>>)
    ensures DescribesEntities(d, source, target, attributes)
  {
    BothPassesKeys(source, target, attributes);
    BothPassesOneSided(source, target, attributes);
    BothPassesShared(source, target, attributes);
    BothPasses(source, target, attributes)
  }

  /** No record of an entity diff carries both existence tags. */
  lemma NoTagClash<M>(d: map<string, seq<Fact>>, source: Catalog<M>, target: Catalog<M>, attributes: seq<string>)
    requires DescribesEntities(d, source, target, attributes)
    ensures forall id :: id in d ==> !(NewTag in d[id] && RemovedTag in d[id])
    ensures forall id :: id in source && id in target ==> NewTag !in d[id] && RemovedTag !in d[id]
  {
    forall id | id in d
      ensures !(NewTag in d[id] && RemovedTag in d[id])
      ensures id in source && id in target ==> NewTag !in d[id] && RemovedTag !in d[id]
    {
      if id in source && id in target {
        var r := d[id];
        assert ComparesAs(r, source[id], target[id], attributes);
        assert r == [r[0], r[1], r[2]];
        assert r[0] != NewTag && r[1] != NewTag && r[2] != NewTag;
        assert r[0] != RemovedTag && r[1] != RemovedTag && r[2] != RemovedTag;
      }
    }
  }

  /** No id is tagged both new and removed, and an id of both catalogs
      carries neither tag. */
  lemma NoIdIsBothNewAndRemoved<M>(source: Catalog<M>, target: Catalog<M>, attributes: seq<string>)
    ensures forall id :: id in DiffEntities(source, target, attributes) ==>
      !(NewTag in DiffEntities(source, target, attributes)[id] && RemovedTag in DiffEntities(source, target, attributes)[id])
    ensures forall id :: id in source && id in target ==>
      NewTag !in DiffEntities(source, target, attributes)[id] && RemovedTag !in DiffEntities(source, target, attributes)[id]
  {
    NoTagClash(DiffEntities(source, target, attributes), source, target, attributes);
  }

  /** Any record of a catalog diffed against itself is the empty comparison
      for every id. */
  lemma SelfRecords<M>(d: map<string, seq<Fact>>, c: Catalog<M>, attributes: seq<string>)
    requires DescribesEntities(d, c, c, attributes)
    ensures d.Keys == c.Keys
    ensures forall id :: id in c ==>
      d[id] == [AttributeChanges(map[]), TextChanges(Names, TextDiff([], [])), TextChanges(Descriptions, TextDiff([], []))]
  {
    forall id | id in c ensures d[id] ==
      [AttributeChanges(map[]), TextChanges(Names, TextDiff([], [])), TextChanges(Descriptions, TextDiff([], []))]
    {
      var r := d[id];
      assert ComparesAs(r, c[id], c[id], attributes);
      DiffTextSelfDescribed(r[1].diff, c[id].names);
      DiffTextSelfDescribed(r[2].diff, c[id].descriptions);
      assert r[0].changes.Keys == {};
      assert r == [r[0], r[1], r[2]];
    }
  }

  /** Diffing a catalog against itself records, for every id, no attribute
      change and empty tag lists for names and descriptions. */
  lemma EntitySelfDiff<M>(c: Catalog<M>, attributes: seq<string>)
    ensures DiffEntities(c, c, attributes).Keys == c.Keys
    ensures forall id :: id in c ==> (DiffEntities(c, c, attributes)[id] ==
      [AttributeChanges(map[]), TextChanges(Names, TextDiff([], [])), TextChanges(Descriptions, TextDiff([], []))])
  {
    SelfRecords(DiffEntities(c, c, attributes), c, attributes);
  }

  /** Swapping source and target swaps the `new` and `removed` tags. */
  lemma SwappedTags<M>(d: map<string, seq<Fact>>, e: map<string, seq<Fact>>, s: Catalog<M>, t: Catalog<M>,
                       attributes: seq<string>)
    requires DescribesEntities(d, s, t, attributes) && DescribesEntities(e, t, s, attributes)
    ensures forall id :: (id in d && d[id] == [NewTag]) <==> (id in e && e[id] == [RemovedTag])
  {
    forall id | id in s && id in t
      ensures d[id] != [NewTag] && e[id] != [RemovedTag]
    {
      assert |d[id]| == 3 && |e[id]| == 3;
    }
  }

  /** The ids tagged new when diffing `s` against `t` are exactly those
      tagged removed when diffing `t` against `s`. */
  lemma EntityDiffSwapsNewAndRemoved<M>(s: Catalog<M>, t: Catalog<M>, attributes: seq<string>)
    ensures forall id ::
      ((id in DiffEntities(s, t, attributes) && DiffEntities(s, t, attributes)[id] == [NewTag])
       <==> (id in DiffEntities(t, s, attributes) && DiffEntities(t, s, attributes)[id] == [RemovedTag]))
  {
    SwappedTags(DiffEntities(s, t, attributes), DiffEntities(t, s, attributes), s, t, attributes);
  }
}
