# diffcomps in Dafny

This project models the diff engine of `diffcomps.py`. The tool compares two
comps documents. A comps document is the XML file that describes package
groups and categories. The model covers four things:

- parsing a document's `group` and `category` nodes into catalogs keyed by
  id, where each entity holds language-keyed names and descriptions, a fixed
  allow-list of scalar attributes, and a member list;
- deriving the two reverse indexes: package name → `(group, requires, type)`
  tuples, and group id → owning category ids;
- the entity diff (`diff_comps` with its inner `diff_dicts`): `new`,
  `removed`, or a fixed three-fact record per id;
- the membership diff (`diff_list`): per member key, the tuples added and
  the owners the source lost.

The model is functional. Documents, catalogs and indexes are immutable
Dafny values. Python's `None` is `Option.None`. Python 2's `sorted` is a
verified sort under Python 2's ordering: `None` sorts first, strings compare
character by character with a proper prefix first, and tuples compare field
by field.

Modules, leaf first:

- `Wrappers`: `Option`, `Result`, `dict.get`, a `defaultdict(list)` read, and map equality.
- `Orders`: Python 2 orderings, proved to be strict total orders.
- `Sorting`: sorting a set, and sorting the image of a set under a
  projection, with duplicates kept as Python keeps them.
- `Comps`: entity nodes, text maps, and catalog parsing with its two abort
  conditions.
- `Index`: the reverse indexes, built by a loop over owners and members.
- `EntityDiff`: `diff_dicts` and `diff_comps`.
- `MembershipDiff`: `diff_list` with the removal projection as a parameter.
- `Assembly`: the `__main__` sequence of four parses and four diffs.

`diff_list` reports removals through `itemgetter(0)`. For package tuples that
is the owning group. For the category index the elements are plain category
ids, so `itemgetter(0)` yields the id's **first character**. The model
follows the code: `MembershipDiff.FirstChar` is the projection for the
`grouplist` section. `CategoryRemovalReportsFirstChars`
shows the consequence: a group dropped from categories `apps` and `admin` is
reported as removed from `["a", "a"]`.

## Model

| member | source | states |
|---|---|---|
| Orders.StrLtIsStrictTotalOrder | diffcomps.py:187-188 | The string order `sorted` applies to language tags and ids is irreflexive, transitive and total. |
| Orders.OptLtIsStrictTotalOrder | diffcomps.py:187-188 | Language tags may be `None`; the order that puts `None` before every string is a strict total order. |
| Comps.PkgTupleLtIsStrictTotalOrder | diffcomps.py:199 | Python's tuple order on `(group, requires, type)` is a strict total order, so sorting tuples is well defined. |
| Sorting.SortMultiset | diffcomps.py:205 | `sorted` of a list with repeats gives an ascending list with the same elements, counted with repeats. |
| Sorting.SortSet | diffcomps.py:187-188 | `sorted` of a set lists every element exactly once, in strictly ascending order, and the length equals the set's size. |
| Sorting.ListsUnique | diffcomps.py:199 | A set has exactly one strictly ascending listing, so the sorted output is determined by the set alone. |
| Sorting.SortImage | diffcomps.py:204-205 | `sorted(map(itemgetter(0), s))` is ascending, and each projected value occurs once per element of `s` that projects to it. |
| Comps.BuildTextMap | diffcomps.py:23-39 | A text map succeeds iff no language tag repeats. It then maps exactly the given tags, with `None` for a missing attribute, to their texts. On failure it names a tag that occurs twice. |
| Comps.ParseNode | diffcomps.py:62-79 | A node parses iff neither names nor descriptions repeat a tag, and names are checked first. The allow-listed attributes present are copied with their text, and the member list is kept. |
| Comps.ParseCatalog | diffcomps.py:43-48 | A catalog parses iff every node parses and no id repeats. On success it maps each node's id to its parsed entity. A duplicate-id error names an id carried by two nodes. |
| Index.ReverseIndex | diffcomps.py:84-93 | The loop's index holds a key exactly when some owner lists a member with that key. Under the key it holds exactly the owners' tuples, and never an empty set. |
| Index.PackageIndex | diffcomps.py:84-93 | `(g, req, typ)` is in `packages[n]` iff group `g` lists `Package(n, req, typ)`, and names listed by no group are absent. |
| Index.GroupIndex | diffcomps.py:120-128 | `c` is in `groups[g]` iff category `c` lists `g`, and groups listed by no category are absent. |
| Index.IndexIgnoresOrderAndRepeats | diffcomps.py:88-92 | Member lists with the same elements, in any order and with any repetition, give the same index: duplicate memberships collapse. |
| EntityDiff.DiffDictsPatchesSourceToTarget | diffcomps.py:148-158 | Removing the reported tags from the source, then writing the added pairs and the new side of the changed triples, gives back the target exactly. |
| EntityDiff.DiffText | diffcomps.py:183-188 | `new` lists, ascending and once each, the target tags that are absent from the source or carry other text. `removed` lists the source tags absent from the target. |
| EntityDiff.DiffTextAccountsForEveryTag | diffcomps.py:183-188 | A tag is in the target iff it is reported new or is a source tag not reported removed. An unreported tag of both maps keeps its text, and no tag is both new and removed. |
| EntityDiff.NewTagsNeverRepeat | diffcomps.py:186 | Taking the tag of each addition and change loses nothing: the `new` list is as long as additions and changes together. |
| EntityDiff.DiffTextSelf | diffcomps.py:183-188 | Diffing a text map against itself reports empty `new` and `removed` lists. |
| EntityDiff.ChangedAttributes | diffcomps.py:173-180 | The change map holds exactly the allow-listed attributes whose values differ, with an absent attribute reading as `None`. Each maps to the target's value, which may be `None`. |
| EntityDiff.ChangesPatchSourceToTarget | diffcomps.py:173-180 | Overriding the source's attributes with the change map gives the target's value for every allow-listed attribute and leaves every other attribute as it was. |
| EntityDiff.DroppedDefaultScenario | diffcomps.py:176-179 | A group that loses `default="true"` reports `default` mapped to `None`. |
| EntityDiff.CompareEntities | diffcomps.py:171-188 | The record of an id in both catalogs is exactly three facts in this order: attribute changes, the names diff, the descriptions diff. |
| EntityDiff.DiffEntities | diffcomps.py:160-190 | Records exist for exactly the ids of either catalog. A target-only id gets `[new]`, a source-only id gets `[removed]`, and a shared id gets the three-fact comparison. |
| EntityDiff.NoIdIsBothNewAndRemoved | diffcomps.py:162-169 | No record holds both `new` and `removed`, and an id of both catalogs holds neither. |
| EntityDiff.EntitySelfDiff | diffcomps.py:166-188 | Diffing a catalog against itself gives every id, and only those ids, an empty attribute map and empty tag lists for names and descriptions. |
| EntityDiff.SelfRecords | diffcomps.py:166-188 | Any entity diff of a catalog against itself has exactly the catalog's ids, each with an empty attribute map and empty tag lists. |
| EntityDiff.EntityDiffSwapsNewAndRemoved | diffcomps.py:162-169 | The ids tagged `new` when diffing source against target are exactly those tagged `removed` when diffing target against source. |
| MembershipDiff.ChangeFacts | diffcomps.py:209-217 | For differing sets, the facts are: `new` with the sorted additions if there are any, then `removed` with the sorted projections of the removals if there are any. |
| MembershipDiff.SourceFacts | diffcomps.py:201-217 | The source pass gives a member the target lacks one `removed` fact with all its projections. It gives nothing to a member with equal sets, and the change facts otherwise. |
| MembershipDiff.DiffMembership | diffcomps.py:193-219 | Records exist for exactly the members whose sets differ, a missing member counting as different. Target-only members get `[new: sorted tuples]`, source-only members get `[removed: sorted projections]`, and the rest get the change facts. |
| MembershipDiff.MembershipDiffAccountsForChange | diffcomps.py:209-217 | A member's `new` tuples are exactly target − source, and its `removed` owners are exactly the projections of source − target. Before projection, source ∪ additions equals target ∪ (source − target). |
| MembershipDiff.DiffMembershipIsInvertible | diffcomps.py:193-219 | With the identity as projection, patching the source index with the diff gives back the target index. |
| MembershipDiff.PatchRecoversTarget | diffcomps.py:193-219 | Any membership diff with the identity projection, applied to the source index, gives the target index, with members left empty dropped. |
| MembershipDiff.MembershipSelfDiff | diffcomps.py:210 | Members with equal sets are omitted, so diffing an index against itself is empty. |
| MembershipDiff.DiffPackageList | diffcomps.py:240 | The `packagelist` section is the membership diff of the two package indexes with the owning group as removal projection: records for exactly the package names whose tuple sets differ, with `new` tuples and `removed` group ids. |
| MembershipDiff.OwningGroup | diffcomps.py:205 | `itemgetter(0)` on a package tuple: the owning group. It has no contract of its own; `PackageRemovalsNameGroups` states what it means for the report. |
| MembershipDiff.PackageRemovalsNameGroups | diffcomps.py:201-217 | In any `packagelist` report (the one `DiffPackageList` returns included), a package is reported removed from group `g` iff the source lists it in `g` with a requirement and type that the target does not list. |
| MembershipDiff.DiffGroupList | diffcomps.py:243-244 | The `grouplist` section is the membership diff of the two category indexes with the first character of each category id as removal projection. |
| MembershipDiff.FirstChar | diffcomps.py:205 | `itemgetter(0)` on a category id yields a one-character string holding the id's first character. |
| MembershipDiff.RetypedPackageShowsBoth | diffcomps.py:209-217 | A package whose `requires` or `type` changes within one group is reported twice: as a new tuple, then as removed from that group. |
| MembershipDiff.AddedAndDropped | diffcomps.py:209-217 | For any key, index types and projection: a member that gains one tuple and loses another gets exactly two facts. The first lists the gained tuple and the second lists the lost tuple's projection. |
| MembershipDiff.RetypedVimScenario | diffcomps.py:209-217 | `vim` moving from mandatory to default in `g1` gives exactly `[new: [(g1, None, default)], removed: [g1]]`. |
| MembershipDiff.VimRecordShape | diffcomps.py:209-217 | In the `vim` example, the record is a `new` fact listing exactly the default tuple, followed by a `removed` fact listing the projection of the mandatory tuple. |
| MembershipDiff.CategoryRemovalReportsFirstChars | diffcomps.py:201-205 | A group dropped from categories `apps` and `admin` is reported as removed from `["a", "a"]`, not from the category ids. |
| MembershipDiff.FirstCharsRecord | diffcomps.py:201-205 | Any diff of the `base` example satisfying the membership-diff description is exactly `base ↦ [removed: ["a", "a"]]`. |
| Assembly.Sections | diffcomps.py:239-244 | The four sections are: the entity diff of groups; the membership diff of the package indexes; the entity diff of categories; the membership diff of the group indexes. |
| Assembly.CompareDocuments | diffcomps.py:227-244 | The report is produced iff all four catalogs parse. Otherwise the first failure wins, in this order: source groups, target groups, source categories, target categories. On success the four sections are those of `Sections`. |

## Left out

- XML reading and tree navigation (`parse_xml`, `ElementTree`'s `find`, `iter`, `text` and `get`) are foreign library calls. A node is given as its id, its name and description entries in document order, the text of the first child of each attribute tag, and its member list.
- The language tag is taken from an element's first attribute, whatever its name. The model receives the tag directly.
- A node without an `id` child, or whose `id`, package name or `groupid` entry has no text, is not modelled. Ids, package names and a category's group ids are plain strings. For a text-less `groupid` the source would file the category under a `None` key in `Categories.groups` and report a `None` member in `grouplist`; the model cannot represent that key.
- Member lists are always present, empty when the `packagelist` or `grouplist` element is missing. The source raises `KeyError` in that case when it builds an index.
- Assembly.CompareDocuments: requires every source category id to be non-empty, so that the first-character projection is defined. ElementTree never yields an empty string as element text, so parsed ids satisfy it.
- Assembly.Sections: requires the same non-empty source category ids, for the same reason.
- MembershipDiff.DiffGroupList: carries the same non-empty requirement on the category ids it reports removed. On an empty id, Python's `itemgetter(0)` would raise `IndexError`.
- The parser's aborts are Python `assert`s, which `python -O` disables. The model always aborts.
- `time.clock` timing, `logging`, argument parsing and `json.dumps` output are I/O and glue. The report is returned as a value.
- Python 2 dict and `defaultdict` iteration order is unspecified, so records are keyed maps, not ordered documents. The order of facts inside a record and the order of sorted lists are modelled.
- The lazy caching of the reverse indexes (`_pkgacc`, `_grpacc`) is not modelled: each index is computed once, on demand.
- The Python 2 distinction between `str` and `unicode` is not modelled. Strings are sequences of characters compared by code point.
- EntityDiff.DiffDicts: has no contract of its own. `DiffDictsPatchesSourceToTarget` states what it computes, and `DiffText` states what the report keeps of it.
- MembershipDiff.DiffMembershipIsInvertible: invertibility is stated only for the identity projection. With a lossy projection such as `itemgetter(0)` the removed tuples cannot be recovered from the report.
