/** The catalog a comps document parses into: groups and categories keyed by
    id, each with language-keyed names and descriptions, a fixed allow-list of
    scalar attributes and an ordered member list (diffcomps.py, class `Comps`
    and its subclasses `Groups` and `Categories`). */
module Comps {
  import opened Wrappers
  import opened Orders

  /** A `packagereq` of a group: package name and its optional `requires`
      and `type` attributes (`requirement` and `kind` here). */
  datatype Package = Package(name: string, requirement: Option<string>, kind: Option<string>)

  /** What the package reverse index records for one membership: the owning
      group id, `requires` and `type`. */
  datatype PkgTuple = PkgTuple(group: string, requirement: Option<string>, kind: Option<string>)

  /** Python 2 tuple order on `(group, requires, type)`. */
  predicate PkgTupleLt(a: PkgTuple, b: PkgTuple)
  {
    || StrLt(a.group, b.group)
    || (a.group == b.group && OptLt(a.requirement, b.requirement))
    || (a.group == b.group && a.requirement == b.requirement && OptLt(a.kind, b.kind))
  }

  lemma PkgTupleLtIsStrictTotalOrder()
    ensures StrictTotalOrder(PkgTupleLt)
  {
    StrLtIsStrictTotalOrder();
    OptLtIsStrictTotalOrder();
    forall a | true ensures !PkgTupleLt(a, a) {
    }
    forall a, b, c | PkgTupleLt(a, b) && PkgTupleLt(b, c) ensures PkgTupleLt(a, c) {
    }
    forall a, b | a != b ensures PkgTupleLt(a, b) || PkgTupleLt(b, a) {
    }
  }

  /** A language tag; `None` when the element carries no attribute. */
  type Lang = Option<string>

  /** Element text; ElementTree yields `None` for an element without text. */
  type Text = Option<string>

  /** Language tag to text, the shape of `names` and `descriptions`. */
  type TextMap = map<Lang, Text>

  /** One `name` or `description` child of an entity node. */
  datatype TextEntry = TextEntry(lang: Lang, text: Text)

  /** The two localized text fields of an entity. */
  datatype TextField = Names | Descriptions

  /** A `group` or `category` node as the document parser presents it: the
      `id` text, the `name` and `description` children in document order, the
      text of the first child element of each tag (`node.find(tag)`), and the
      member list (`packagereq` entries or `groupid` texts). */
  datatype Node<M> = Node(id: string, names: seq<TextEntry>, descriptions: seq<TextEntry>,
                          fields: map<string, Text>, members: seq<M>)

  /** The parsed data of one group or category. */
  datatype Entity<M> = Entity(names: TextMap, descriptions: TextMap,
                              attrs: map<string, Text>, members: seq<M>)

  /** All entities of one kind from one document, keyed by id. */
  type Catalog<M> = map<string, Entity<M>>

  /** The assertions the parser aborts on. */
  datatype ParseError =
    | DuplicateLanguage(id: string, field: TextField, lang: Lang)
    | DuplicateId(id: string)

  /** Allow-listed scalar attributes of a group (`Groups.ATTRS`). */
  const GroupAttrs: seq<string> := ["default", "uservisible", "langonly"]

  /** Allow-listed scalar attributes of a category (`Categories.ATTRS`). */
  const CategoryAttrs: seq<string> := ["display_order"]

  /** No language tag occurs twice among the entries. */
  ghost predicate DistinctLangs(entries: seq<TextEntry>)
  {
    forall i, j :: 0 <= i < j < |entries| ==> entries[i].lang != entries[j].lang
  }

  /** `m` maps exactly the entries' language tags, each to its entry's text. */
  ghost predicate HoldsExactly(m: TextMap, entries: seq<TextEntry>)
  {
    && (forall l :: l in m ==> exists i :: 0 <= i < |entries| && entries[i].lang == l)
    && (forall i :: 0 <= i < |entries| ==> entries[i].lang in m && m[entries[i].lang] == entries[i].text)
  }

  /** Two entries of `entries` share the language tag `l`. */
  ghost predicate Repeats(entries: seq<TextEntry>, l: Lang)
  {
    exists i, j :: 0 <= i < j < |entries| && entries[i].lang == l && entries[j].lang == l
  }

  lemma RepeatInPrefix(entries: seq<TextEntry>, l: Lang)
    requires |entries| > 0 && Repeats(entries[..|entries| - 1], l)
    ensures Repeats(entries, l) && !DistinctLangs(entries)
  {
    var prior := entries[..|entries| - 1];
    var i, j :| 0 <= i < j < |prior| && prior[i].lang == l && prior[j].lang == l;
    assert entries[i] == prior[i] && entries[j] == prior[j];
  }

  lemma RepeatOfLast(entries: seq<TextEntry>, m: TextMap)
    requires |entries| > 0
    requires HoldsExactly(m, entries[..|entries| - 1])
    requires entries[|entries| - 1].lang in m
    ensures Repeats(entries, entries[|entries| - 1].lang) && !DistinctLangs(entries)
  {
    var prior := entries[..|entries| - 1];
    var l := entries[|entries| - 1].lang;
    var i :| 0 <= i < |prior| && prior[i].lang == l;
    assert entries[i] == prior[i];
  }

  lemma ExtendByLast(entries: seq<TextEntry>, m: TextMap)
    requires |entries| > 0
    requires DistinctLangs(entries[..|entries| - 1])
    requires HoldsExactly(m, entries[..|entries| - 1])
    requires entries[|entries| - 1].lang !in m
    ensures DistinctLangs(entries)
    ensures HoldsExactly(m[entries[|entries| - 1].lang := entries[|entries| - 1].text], entries)
  {
    var prior := entries[..|entries| - 1];
    var last := entries[|entries| - 1];
    assert forall i :: 0 <= i < |prior| ==> entries[i] == prior[i];
    forall i, j | 0 <= i < j < |entries| ensures entries[i].lang != entries[j].lang {
      if j == |entries| - 1 {
        assert prior[i].lang in m;
      }
    }
    var m' := m[last.lang := last.text];
    forall l | l in m' ensures exists i :: 0 <= i < |entries| && entries[i].lang == l {
      if l != last.lang {
        var i :| 0 <= i < |prior| && prior[i].lang == l;
        assert entries[i].lang == l;
      }
    }
  }

  /** The language map of one text field, built entry by entry; a tag seen
      a second time aborts with that tag. */
  function BuildTextMap(entries: seq<TextEntry>): (r: Result<TextMap, Lang>)
    ensures r.Success? <==> DistinctLangs(entries)
    ensures r.Success? ==> HoldsExactly(r.value, entries)
    ensures r.Failure? ==> Repeats(entries, r.error)
    decreases |entries|
  {
    if |entries| == 0 then Success(map[])
    else
      var last := entries[|entries| - 1];
      match BuildTextMap(entries[..|entries| - 1])
      case Failure(l) =>
        RepeatInPrefix(entries, l);
        Failure(l)
      case Success(m) =>
        if last.lang in m then
          RepeatOfLast(entries, m);
          Failure(last.lang)
        else
          ExtendByLast(entries, m);
          Success(m[last.lang := last.text])
  }

  /** One entity node parsed: names first, then descriptions, each aborting on
      a repeated language tag; the allow-listed attributes present as child
      elements are copied with their text; the member list is kept as is. */
  function ParseNode<M>(n: Node<M>, attributes: seq<string>): (r: Result<Entity<M>, ParseError>)
    ensures r.Success? <==> DistinctLangs(n.names) && DistinctLangs(n.descriptions)
    ensures r.Failure? ==> r.error.DuplicateLanguage? && r.error.id == n.id
    ensures r.Failure? ==> (r.error.field == Names <==> !DistinctLangs(n.names))
    ensures r.Failure? && r.error.field == Names ==> Repeats(n.names, r.error.lang)
    ensures r.Failure? && r.error.field == Descriptions ==> Repeats(n.descriptions, r.error.lang)
    ensures r.Success? ==> HoldsExactly(r.value.names, n.names)
    ensures r.Success? ==> HoldsExactly(r.value.descriptions, n.descriptions)
    ensures r.Success? ==> r.value.members == n.members
    ensures r.Success? ==> forall a :: a in r.value.attrs <==> a in attributes && a in n.fields
    ensures r.Success? ==> forall a :: a in r.value.attrs ==> r.value.attrs[a] == n.fields[a]
  {
    match BuildTextMap(n.names)
    case Failure(l) => Failure(DuplicateLanguage(n.id, Names, l))
    case Success(names) =>
      match BuildTextMap(n.descriptions)
      case Failure(l) => Failure(DuplicateLanguage(n.id, Descriptions, l))
      case Success(descriptions) =>
        var attrs := map a | a in attributes && a in n.fields :: n.fields[a];
        Success(Entity(names, descriptions, attrs, n.members))
  }

  /** No id occurs on two nodes. */
  ghost predicate DistinctIds<M>(nodes: seq<Node<M>>)
  {
    forall i, j :: 0 <= i < j < |nodes| ==> nodes[i].id != nodes[j].id
  }

  /** Every node parses without a repeated language tag. */
  ghost predicate AllParse<M>(nodes: seq<Node<M>>, attributes: seq<string>)
  {
    forall i :: 0 <= i < |nodes| ==> ParseNode(nodes[i], attributes).Success?
  }

  /** `c` holds exactly the nodes' ids, each mapped to its parsed entity. */
  ghost predicate CatalogOf<M>(c: Catalog<M>, nodes: seq<Node<M>>, attributes: seq<string>)
    requires AllParse(nodes, attributes)
  {
    && (forall id :: id in c ==> exists i :: 0 <= i < |nodes| && nodes[i].id == id)
    && (forall i :: 0 <= i < |nodes| ==>
          nodes[i].id in c && c[nodes[i].id] == ParseNode(nodes[i], attributes).value)
  }

  lemma ParseFailureInPrefix<M>(nodes: seq<Node<M>>, attributes: seq<string>)
    requires |nodes| > 0
    requires !AllParse(nodes[..|nodes| - 1], attributes) || !DistinctIds(nodes[..|nodes| - 1])
    ensures !AllParse(nodes, attributes) || !DistinctIds(nodes)
  {
    var prior := nodes[..|nodes| - 1];
    assert forall i :: 0 <= i < |prior| ==> nodes[i] == prior[i];
  }

  lemma NewIdKeepsDistinct<M>(nodes: seq<Node<M>>)
    requires |nodes| > 0 && DistinctIds(nodes[..|nodes| - 1])
    requires forall i :: 0 <= i < |nodes| - 1 ==> nodes[i].id != nodes[|nodes| - 1].id
    ensures DistinctIds(nodes)
  {
    var prior := nodes[..|nodes| - 1];
    forall i, j | 0 <= i < j < |nodes| ensures nodes[i].id != nodes[j].id {
      if j < |nodes| - 1 {
        assert nodes[i] == prior[i] && nodes[j] == prior[j];
      }
    }
  }

  lemma ExtendCatalog<M>(nodes: seq<Node<M>>, attributes: seq<string>, c: Catalog<M>)
    requires |nodes| > 0
    requires AllParse(nodes[..|nodes| - 1], attributes) && DistinctIds(nodes[..|nodes| - 1])
    requires CatalogOf(c, nodes[..|nodes| - 1], attributes)
    requires ParseNode(nodes[|nodes| - 1], attributes).Success?
    requires nodes[|nodes| - 1].id !in c
    ensures AllParse(nodes, attributes) && DistinctIds(nodes)
    ensures CatalogOf(c[nodes[|nodes| - 1].id := ParseNode(nodes[|nodes| - 1], attributes).value], nodes, attributes)
  {
    var prior := nodes[..|nodes| - 1];
    var last := nodes[|nodes| - 1];
    AllParseExtends(nodes, attributes);
    forall i | 0 <= i < |nodes| - 1 ensures nodes[i].id != last.id {
      assert nodes[i] == prior[i];
      assert prior[i].id in c;
    }
    NewIdKeepsDistinct(nodes);
    CatalogExtends(nodes, attributes, c);
  }

  lemma AllParseExtends<M>(nodes: seq<Node<M>>, attributes: seq<string>)
    requires |nodes| > 0
    requires AllParse(nodes[..|nodes| - 1], attributes)
    requires ParseNode(nodes[|nodes| - 1], attributes).Success?
    ensures AllParse(nodes, attributes)
  {
    var prior := nodes[..|nodes| - 1];
    forall i | 0 <= i < |nodes| ensures ParseNode(nodes[i], attributes).Success? {
      if i < |prior| {
        assert nodes[i] == prior[i];
      }
    }
  }

  lemma CatalogExtends<M>(nodes: seq<Node<M>>, attributes: seq<string>, c: Catalog<M>)
    requires |nodes| > 0
    requires AllParse(nodes, attributes) && DistinctIds(nodes)
    requires AllParse(nodes[..|nodes| - 1], attributes)
    requires CatalogOf(c, nodes[..|nodes| - 1], attributes)
    requires nodes[|nodes| - 1].id !in c
    ensures CatalogOf(c[nodes[|nodes| - 1].id := ParseNode(nodes[|nodes| - 1], attributes).value], nodes, attributes)
  {
    var last := nodes[|nodes| - 1];
    var c' := c[last.id := ParseNode(last, attributes).value];
    CatalogKeysExtend(nodes, attributes, c);
    CatalogEntriesExtend(nodes, attributes, c);
  }

  lemma CatalogKeysExtend<M>(nodes: seq<Node<M>>, attributes: seq<string>, c: Catalog<M>)
    requires |nodes| > 0
    requires AllParse(nodes, attributes)
    requires AllParse(nodes[..|nodes| - 1], attributes)
    requires CatalogOf(c, nodes[..|nodes| - 1], attributes)
    ensures forall id :: id in c ==> exists i :: 0 <= i < |nodes| && nodes[i].id == id
  {
    var prior := nodes[..|nodes| - 1];
    var last := nodes[|nodes| - 1];
    forall id | id in c && id != last.id ensures exists i :: 0 <= i < |nodes| && nodes[i].id == id {
      var i :| 0 <= i < |prior| && prior[i].id == id;
      assert nodes[i] == prior[i];
    }
  }

  lemma CatalogEntriesExtend<M>(nodes: seq<Node<M>>, attributes: seq<string>, c: Catalog<M>)
    requires |nodes| > 0
    requires AllParse(nodes, attributes)
    requires AllParse(nodes[..|nodes| - 1], attributes)
    requires CatalogOf(c, nodes[..|nodes| - 1], attributes)
    requires nodes[|nodes| - 1].id !in c
    ensures var c' := c[nodes[|nodes| - 1].id := ParseNode(nodes[|nodes| - 1], attributes).value];
      forall i :: 0 <= i < |nodes| ==> nodes[i].id in c' && c'[nodes[i].id] == ParseNode(nodes[i], attributes).value
  {
    PriorEntriesKept(nodes, attributes, c);
  }

  lemma PriorEntriesKept<M>(nodes: seq<Node<M>>, attributes: seq<string>, c: Catalog<M>)
    requires |nodes| > 0
    requires AllParse(nodes, attributes)
    requires AllParse(nodes[..|nodes| - 1], attributes)
    requires CatalogOf(c, nodes[..|nodes| - 1], attributes)
    requires nodes[|nodes| - 1].id !in c
    ensures forall i :: 0 <= i < |nodes| - 1 ==>
      nodes[i].id in c && nodes[i].id != nodes[|nodes| - 1].id && c[nodes[i].id] == ParseNode(nodes[i], attributes).value
  {
    var prior := nodes[..|nodes| - 1];
    forall i | 0 <= i < |prior|
      ensures nodes[i].id in c && c[nodes[i].id] == ParseNode(nodes[i], attributes).value
    {
      assert nodes[i] == prior[i];
    }
  }

  lemma DuplicateIdOfLast<M>(nodes: seq<Node<M>>, attributes: seq<string>, c: Catalog<M>)
    requires |nodes| > 0
    requires AllParse(nodes[..|nodes| - 1], attributes)
    requires CatalogOf(c, nodes[..|nodes| - 1], attributes)
    requires nodes[|nodes| - 1].id in c
    ensures exists i :: 0 <= i < |nodes| - 1 && nodes[i].id == nodes[|nodes| - 1].id
    ensures !DistinctIds(nodes)
  {
    var prior := nodes[..|nodes| - 1];
    var i :| 0 <= i < |prior| && prior[i].id == nodes[|nodes| - 1].id;
    assert nodes[i] == prior[i];
  }

  /** The catalog of one document: nodes parsed in document order, each id
      checked against those already stored. The first node that repeats a
      language tag or an id aborts the whole catalog. */
  function ParseCatalog<M>(nodes: seq<Node<M>>, attributes: seq<string>): (r: Result<Catalog<M>, ParseError>)
    ensures r.Success? <==> AllParse(nodes, attributes) && DistinctIds(nodes)
    ensures r.Success? ==> CatalogOf(r.value, nodes, attributes)
    ensures r.Failure? && r.error.DuplicateId? ==>
      exists i, j :: 0 <= i < j < |nodes| && nodes[i].id == r.error.id && nodes[j].id == r.error.id
    ensures r.Failure? && r.error.DuplicateLanguage? ==>
      exists i :: 0 <= i < |nodes| && ParseNode(nodes[i], attributes) == Failure(r.error)
    decreases |nodes|
  {
    if |nodes| == 0 then Success(map[])
    else
      var last := nodes[|nodes| - 1];
      var prior := nodes[..|nodes| - 1];
      match ParseCatalog(prior, attributes)
      case Failure(e) =>
        ParseFailureInPrefix(nodes, attributes);
        assert forall i :: 0 <= i < |prior| ==> nodes[i] == prior[i];
        Failure(e)
      case Success(c) =>
        match ParseNode(last, attributes)
        case Failure(e) => Failure(e)
        case Success(entity) =>
          if last.id in c then
            DuplicateIdOfLast(nodes, attributes, c);
            Failure(DuplicateId(last.id))
          else
            ExtendCatalog(nodes, attributes, c);
            Success(c[last.id := entity])
  }
}
