/** The report diffcomps.py assembles from two comps documents: both
    documents' groups and categories parsed, in that order, then the four
    diff sections. */
module Assembly {
  import opened Wrappers
  import opened Comps
  import opened Index
  import opened EntityDiff
  import opened MembershipDiff

  /** One comps document, as the tree parser hands over its group and
      category nodes in document order. */
  datatype Document = Document(groups: seq<Node<Package>>, categories: seq<Node<string>>)

  /** The four sections of the output. */
  datatype Report = Report(groups: map<string, seq<Fact>>,
                           packagelist: map<string, seq<MemberFact<PkgTuple, string>>>,
                           categories: map<string, seq<Fact>>,
                           grouplist: map<string, seq<MemberFact<string, string>>>)

  /** Every category id of a document has a first character. */
  ghost predicate CategoryIdsNonEmpty(doc: Document)
  {
    forall i :: 0 <= i < |doc.categories| ==> |doc.categories[i].id| > 0
  }

  /** A catalog parsed from nodes whose ids are all non-empty has only
      non-empty ids. */
  lemma CatalogIdsNonEmpty(nodes: seq<Node<string>>, c: Catalog<string>)
    requires forall i :: 0 <= i < |nodes| ==> |nodes[i].id| > 0
    requires AllParse(nodes, CategoryAttrs)
    requires CatalogOf(c, nodes, CategoryAttrs)
    ensures forall x :: x in c ==> |x| > 0
  {
    forall x | x in c ensures |x| > 0
    {
      var i :| 0 <= i < |nodes| && nodes[i].id == x;
    }
  }

  /** The category index of a catalog with non-empty ids lets `diff_list`
      project every removal. */
  lemma GroupIndexProjectable(si: map<string, set<string>>, ti: map<string, set<string>>, c: Catalog<string>)
    requires forall x :: x in c ==> |x| > 0
    requires IndexesGroups(si, c)
    ensures ProjectsRemovals(si, ti, FirstChar)
  {
    forall g, x | g in si && x in si[g] ensures |x| > 0
    {
      assert x in c;
    }
  }

  /** The four sections for catalogs already parsed. */
  method Sections(sg: Catalog<Package>, tg: Catalog<Package>, sc: Catalog<string>, tc: Catalog<string>)
    returns (rep: Report)
    requires forall x :: x in sc ==> |x| > 0
    ensures rep.groups == DiffEntities(sg, tg, GroupAttrs)
    ensures rep.categories == DiffEntities(sc, tc, CategoryAttrs)
    ensures exists si, ti :: IndexesPackages(si, sg) && IndexesPackages(ti, tg) && rep.packagelist == DiffPackageList(si, ti)
    ensures exists si, ti :: IndexesGroups(si, sc) && IndexesGroups(ti, tc) && ProjectsRemovals(si, ti, FirstChar)
                             && rep.grouplist == DiffGroupList(si, ti)
  {
    var sPackages := PackageIndex(sg);
    var tPackages := PackageIndex(tg);
    var sGroups := GroupIndex(sc);
    var tGroups := GroupIndex(tc);
    GroupIndexProjectable(sGroups, tGroups, sc);
    rep := Report(DiffEntities(sg, tg, GroupAttrs), DiffPackageList(sPackages, tPackages),
                  DiffEntities(sc, tc, CategoryAttrs), DiffGroupList(sGroups, tGroups));
  }

  /** `__main__`: parse the source's groups, the target's groups, the
      source's categories and the target's categories, stopping at the first
      malformed catalog; then diff groups, package memberships, categories
      and group memberships. */
  method CompareDocuments(source: Document, target: Document) returns (r: Result<Report, ParseError>)
    requires CategoryIdsNonEmpty(source)
    ensures var sg, tg := ParseCatalog(source.groups, GroupAttrs), ParseCatalog(target.groups, GroupAttrs);
      var sc, tc := ParseCatalog(source.categories, CategoryAttrs), ParseCatalog(target.categories, CategoryAttrs);
      && (r.Success? <==> sg.Success? && tg.Success? && sc.Success? && tc.Success?)
      && (sg.Failure? ==> r == Failure(sg.error))
      && (sg.Success? && tg.Failure? ==> r == Failure(tg.error))
      && (sg.Success? && tg.Success? && sc.Failure? ==> r == Failure(sc.error))
      && (sg.Success? && tg.Success? && sc.Success? && tc.Failure? ==> r == Failure(tc.error))
    ensures r.Success? ==>
      var sg, tg := ParseCatalog(source.groups, GroupAttrs).value, ParseCatalog(target.groups, GroupAttrs).value;
      var sc, tc := ParseCatalog(source.categories, CategoryAttrs).value, ParseCatalog(target.categories, CategoryAttrs).value;
      && r.value.groups == DiffEntities(sg, tg, GroupAttrs)
      && r.value.categories == DiffEntities(sc, tc, CategoryAttrs)
      && (exists si, ti :: IndexesPackages(si, sg) && IndexesPackages(ti, tg) && r.value.packagelist == DiffPackageList(si, ti))
      && (exists si, ti :: IndexesGroups(si, sc) && IndexesGroups(ti, tc) && ProjectsRemovals(si, ti, FirstChar)
                           && r.value.grouplist == DiffGroupList(si, ti))
  {
    var sg := ParseCatalog(source.groups, GroupAttrs);
    if sg.Failure? {
      return Failure(sg.error);
    }
    var tg := ParseCatalog(target.groups, GroupAttrs);
    if tg.Failure? {
      return Failure(tg.error);
    }
    var sc := ParseCatalog(source.categories, CategoryAttrs);
    if sc.Failure? {
      return Failure(sc.error);
    }
    var tc := ParseCatalog(target.categories, CategoryAttrs);
    if tc.Failure? {
      return Failure(tc.error);
    }
    CatalogIdsNonEmpty(source.categories, sc.value);
    var rep := Sections(sg.value, tg.value, sc.value, tc.value);
    r := Success(rep);
  }
}
