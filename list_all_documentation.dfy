/**
 * The `list-all-documentation` tool: a docs list (every `docs`-typed or
 * `.mdx`-backed entry, one per id), a component list (every group with a
 * story that is not `.mdx`-backed), and a Markdown listing that links docs to
 * their pages and components to their docs page or first story.
 */
module ListAllDocumentation {
  import opened Wrappers
  import opened Strings
  import opened Seqs
  import JsMap
  import opened Types
  import opened StorybookScraper

  // ---------------------------------------------------------------------------
  // The docs list

  /** The record a documentation entry contributes. */
  function DocRecord(e: Entry): DocListEntry
  {
    DocListEntry(e.id, e.title, DocsKind, e.importPath)
  }

  /** The `docsSet.set(e.id, …)` calls the collection loop makes over the entries `es`, in order. */
  function DocSets(es: seq<Entry>): (ps: seq<(string, DocListEntry)>)
    ensures |ps| <= |es|
    ensures forall j :: 0 <= j < |ps| ==> ps[j].1.id == ps[j].0 && ps[j].1.kind == DocsKind
  {
    if es == [] then []
    else
      var e := es[|es| - 1];
      DocSets(es[..|es| - 1]) + (if IsDocLike(e) then [(e.id, DocRecord(e))] else [])
  }

  /** `Array.from(docsSet.values())` after the collection loop. */
  function DocsList(es: seq<Entry>): seq<DocListEntry>
  {
    JsMap.MapValues(DocSets(es))
  }

  /** The docs collection loop of `list-all-documentation`. */
  method CollectDocs(index: StorybookIndex) returns (docs: seq<DocListEntry>)
    ensures docs == DocsList(Values(index.entries))
  {
    var es := Values(index.entries);
    var docsSet := new JsMap.OrderedMap<string, DocListEntry>();
    for i := 0 to |es|
      invariant docsSet.Valid()
      invariant (docsSet.keys, docsSet.values) == JsMap.MapState(DocSets(es[..i]))
    {
      DocSetsStep(es, i);
      var e := es[i];
      var isDocType := e.Docs?;
      var isMdx := IsMdxPath(e.importPath);
      if isDocType || isMdx {
        docsSet.Set(e.id, DocRecord(e));
      }
    }
    PrefixAll(es);
    JsMap.MapStateValues(DocSets(es));
    docs := docsSet.Values();
  }

  /** One turn of the collection loop: a documentation entry is set under its id, any other skipped. */
  lemma DocSetsStep(es: seq<Entry>, i: nat)
    requires i < |es|
    ensures !IsDocLike(es[i]) ==> JsMap.MapState(DocSets(es[..i + 1])) == JsMap.MapState(DocSets(es[..i]))
    ensures IsDocLike(es[i]) ==> (
      var (keys, values) := JsMap.MapState(DocSets(es[..i]));
      JsMap.MapState(DocSets(es[..i + 1])) ==
        (if es[i].id in keys then keys else keys + [es[i].id], values[es[i].id := DocRecord(es[i])]))
  {
    PrefixSnoc(es, i);
    var ps := DocSets(es[..i]);
    if IsDocLike(es[i]) {
      JsMap.MapStateSnoc(ps, es[i].id, DocRecord(es[i]));
    } else {
      assert DocSets(es[..i + 1]) == ps + [];
      assert ps + [] == ps;
    }
  }

  /** Every `set` call comes from a documentation entry. */
  lemma {:induction false} DocSetsFrom(es: seq<Entry>, j: nat)
    requires j < |DocSets(es)|
    ensures exists k :: 0 <= k < |es| && IsDocLike(es[k]) && DocSets(es)[j] == (es[k].id, DocRecord(es[k]))
  {
    var q := es[..|es| - 1];
    if j < |DocSets(q)| {
      DocSetsFrom(q, j);
      var k :| 0 <= k < |q| && IsDocLike(q[k]) && DocSets(q)[j] == (q[k].id, DocRecord(q[k]));
      assert es[k] == q[k];
    } else {
      assert DocSets(es)[j] == (es[|es| - 1].id, DocRecord(es[|es| - 1]));
    }
  }

  /** Every documentation entry makes a `set` call. */
  lemma {:induction false} DocSetsHas(es: seq<Entry>, k: nat)
    requires k < |es| && IsDocLike(es[k])
    ensures (es[k].id, DocRecord(es[k])) in DocSets(es)
  {
    var q := es[..|es| - 1];
    if k < |q| {
      assert es[k] == q[k];
      DocSetsHas(q, k);
    }
  }

  /** An id that no documentation entry has is never set. */
  lemma {:induction false} DocSetsKeyAbsent(es: seq<Entry>, x: string)
    requires forall k :: 0 <= k < |es| && IsDocLike(es[k]) ==> es[k].id != x
    ensures x !in JsMap.Keys(DocSets(es))
  {
    if es != [] {
      var q, e := es[..|es| - 1], es[|es| - 1];
      assert forall k :: 0 <= k < |q| ==> es[k] == q[k];
      DocSetsKeyAbsent(q, x);
      JsMap.KeysSnoc(DocSets(q), (e.id, DocRecord(e)));
    }
  }

  /** The entries' ids are pairwise distinct. */
  predicate DistinctIds(es: seq<Entry>) {
    forall i, j :: 0 <= i < j < |es| ==> es[i].id != es[j].id
  }

  /** Distinct entry ids give distinct `set` keys. */
  lemma {:induction false} DocSetsDistinct(es: seq<Entry>)
    requires DistinctIds(es)
    ensures NoDup(JsMap.Keys(DocSets(es)))
  {
    if es != [] {
      var q, e := es[..|es| - 1], es[|es| - 1];
      assert forall k :: 0 <= k < |q| ==> es[k] == q[k];
      assert DistinctIds(q);
      DocSetsDistinct(q);
      if IsDocLike(e) {
        DocSetsKeyAbsent(q, e.id);
        JsMap.KeysSnoc(DocSets(q), (e.id, DocRecord(e)));
      }
    }
  }

  /** The docs list holds one record per id: the last record set under it, at the place of its first. */
  lemma DocsListAt(es: seq<Entry>, i: nat)
    requires i < |DocsList(es)|
    ensures Dedup(JsMap.Keys(DocSets(es)))[i] in JsMap.Keys(DocSets(es))
    ensures DocsList(es)[i] == JsMap.LastValue(DocSets(es), Dedup(JsMap.Keys(DocSets(es)))[i])
    ensures DocsList(es)[i].id == Dedup(JsMap.Keys(DocSets(es)))[i]
  {
    var ps := DocSets(es);
    var x := Dedup(JsMap.Keys(ps))[i];
    assert x in JsMap.Keys(ps);
    var j := JsMap.LastIndex(ps, x);
  }

  /** No two records of the docs list share an id. */
  lemma DocsListDistinctIds(es: seq<Entry>)
    ensures forall i, j :: 0 <= i < j < |DocsList(es)| ==> DocsList(es)[i].id != DocsList(es)[j].id
  {
    forall i, j | 0 <= i < j < |DocsList(es)| ensures DocsList(es)[i].id != DocsList(es)[j].id {
      DocsListAt(es, i);
      DocsListAt(es, j);
    }
  }

  /** Every record of the docs list is that of a documentation entry: kind `docs`, path its import path. */
  lemma DocsListFromEntries(es: seq<Entry>, i: nat)
    requires i < |DocsList(es)|
    ensures exists k :: 0 <= k < |es| && IsDocLike(es[k]) && DocsList(es)[i] == DocRecord(es[k])
    ensures DocsList(es)[i].kind == DocsKind
  {
    DocsListAt(es, i);
    var ps := DocSets(es);
    var j := JsMap.LastIndex(ps, Dedup(JsMap.Keys(ps))[i]);
    DocSetsFrom(es, j);
  }

  /** Every documentation entry has a record of its id in the docs list. */
  lemma DocsListCovers(es: seq<Entry>, k: nat)
    requires k < |es| && IsDocLike(es[k])
    ensures exists i :: 0 <= i < |DocsList(es)| && DocsList(es)[i].id == es[k].id
  {
    var ps := DocSets(es);
    DocSetsHas(es, k);
    var j :| 0 <= j < |ps| && ps[j] == (es[k].id, DocRecord(es[k]));
    assert JsMap.Keys(ps)[j] == es[k].id;
    var d := Dedup(JsMap.Keys(ps));
    assert es[k].id in d;
    var i :| 0 <= i < |d| && d[i] == es[k].id;
    DocsListAt(es, i);
  }

  /** With pairwise distinct ids every documentation entry keeps its own record, in entry order. */
  lemma DocsListInOrder(es: seq<Entry>)
    requires DistinctIds(es)
    ensures |DocsList(es)| == |DocSets(es)|
    ensures forall j :: 0 <= j < |DocSets(es)| ==> DocsList(es)[j] == DocSets(es)[j].1
  {
    DocSetsDistinct(es);
    JsMap.MapValuesOfDistinct(DocSets(es));
  }

  // ---------------------------------------------------------------------------
  // The component list

  /** Some entry of the group is a story not backed by an `.mdx` file. */
  predicate HasNonMdxStory(g: seq<Entry>) {
    exists e :: e in g && e.Story? && !IsMdxPath(e.importPath)
  }

  /** The listing row of a component group: its first import path, or `''` if it has none. */
  function ComponentRecord(c: ComponentIndexEntry): DocListEntry
  {
    DocListEntry(c.baseId, c.title, Component, if |c.importPaths| > 0 then c.importPaths[0] else "")
  }

  /** `rs.filter(hasNonMdxStory).map(…)`, the groups' entries taken from `es`. */
  function ComponentsOf(es: seq<Entry>, rs: seq<ComponentIndexEntry>): (cs: seq<DocListEntry>)
    ensures |cs| <= |rs|
  {
    if rs == [] then []
    else
      var r := rs[|rs| - 1];
      ComponentsOf(es, rs[..|rs| - 1])
        + (if HasNonMdxStory(Group(Keyed(es), r.baseId)) then [ComponentRecord(r)] else [])
  }

  /** The component list: the component index filtered to groups with a non-`.mdx` story. */
  function ComponentsList(es: seq<Entry>): seq<DocListEntry>
  {
    ComponentsOf(es, IndexRecords(es))
  }

  /** Exactly the records of the kept groups are listed. */
  lemma {:induction false} ComponentsOfMembers(es: seq<Entry>, rs: seq<ComponentIndexEntry>)
    ensures forall d :: d in ComponentsOf(es, rs) <==>
      exists r :: r in rs && HasNonMdxStory(Group(Keyed(es), r.baseId)) && d == ComponentRecord(r)
  {
    if rs != [] {
      var q := rs[..|rs| - 1];
      assert rs == q + [rs[|rs| - 1]];
      ComponentsOfMembers(es, q);
    }
  }

  /** Filtering keeps the records' order: a rank that increases along `rs` increases along the listing. */
  lemma {:induction false} ComponentsOfOrdered(es: seq<Entry>, rs: seq<ComponentIndexEntry>, rank: string -> int)
    requires forall i, j :: 0 <= i < j < |rs| ==> rank(rs[i].baseId) < rank(rs[j].baseId)
    ensures forall i, j :: 0 <= i < j < |ComponentsOf(es, rs)| ==>
      rank(ComponentsOf(es, rs)[i].id) < rank(ComponentsOf(es, rs)[j].id)
  {
    if rs != [] {
      var q := rs[..|rs| - 1];
      var r := rs[|rs| - 1];
      var cq := ComponentsOf(es, q);
      var cs := ComponentsOf(es, rs);
      assert forall i :: 0 <= i < |q| ==> q[i] == rs[i];
      ComponentsOfOrdered(es, q, rank);
      if HasNonMdxStory(Group(Keyed(es), r.baseId)) {
        assert cs == cq + [ComponentRecord(r)];
        ComponentsOfBefore(es, q, rank, r.baseId);
        forall i, j | 0 <= i < j < |cs|
          ensures rank(cs[i].id) < rank(cs[j].id)
        {
          assert cs[i] == cq[i];
          if j < |cq| {
            assert cs[j] == cq[j];
          }
        }
      } else {
        assert cs == cq;
      }
    }
  }

  /** Every record listed from `q` ranks below `b` when all of `q`'s baseIds do. */
  lemma ComponentsOfBefore(es: seq<Entry>, q: seq<ComponentIndexEntry>, rank: string -> int, b: string)
    requires forall i :: 0 <= i < |q| ==> rank(q[i].baseId) < rank(b)
    ensures forall i :: 0 <= i < |ComponentsOf(es, q)| ==> rank(ComponentsOf(es, q)[i].id) < rank(b)
  {
    var cq := ComponentsOf(es, q);
    ComponentsOfMembers(es, q);
    forall i | 0 <= i < |cq| ensures rank(cq[i].id) < rank(b) {
      assert cq[i] in cq;
      var a :| a in q && cq[i] == ComponentRecord(a);
      var n :| 0 <= n < |q| && q[n] == a;
    }
  }

  /** Filtering lists only records of `rs`, so only baseIds that all of `rs`'s lie in. */
  lemma {:induction false} ComponentsOfWithin(es: seq<Entry>, rs: seq<ComponentIndexEntry>, keys: seq<string>)
    requires forall i :: 0 <= i < |rs| ==> rs[i].baseId in keys
    ensures forall i :: 0 <= i < |ComponentsOf(es, rs)| ==> ComponentsOf(es, rs)[i].id in keys
  {
    if rs != [] {
      var q := rs[..|rs| - 1];
      var r := rs[|rs| - 1];
      var cq := ComponentsOf(es, q);
      var cs := ComponentsOf(es, rs);
      assert forall i :: 0 <= i < |q| ==> q[i] == rs[i];
      ComponentsOfWithin(es, q, keys);
      if HasNonMdxStory(Group(Keyed(es), r.baseId)) {
        assert cs == cq + [ComponentRecord(r)];
        assert forall i :: 0 <= i < |cq| ==> cs[i] == cq[i];
      } else {
        assert cs == cq;
      }
    }
  }

  /** Every listed component's baseId is some entry's. */
  lemma ComponentsListFromEntries(es: seq<Entry>)
    ensures forall i :: 0 <= i < |ComponentsList(es)| ==> ComponentsList(es)[i].id in JsMap.Keys(Keyed(es))
  {
    var rs := IndexRecords(es);
    var keys := JsMap.Keys(Keyed(es));
    ComponentIndexOnlyEntries(es);
    forall i | 0 <= i < |rs| ensures rs[i].baseId in keys {
      var k :| 0 <= k < |es| && keys[k] == rs[i].baseId;
    }
    ComponentsOfWithin(es, rs, keys);
  }

  /** The component list follows the first appearance of each baseId among the entries. */
  lemma ComponentsListOrder(es: seq<Entry>)
    ensures forall i :: 0 <= i < |ComponentsList(es)| ==> ComponentsList(es)[i].id in JsMap.Keys(Keyed(es))
    ensures forall i, j :: 0 <= i < j < |ComponentsList(es)| ==>
      FirstIndex(JsMap.Keys(Keyed(es)), ComponentsList(es)[i].id) < FirstIndex(JsMap.Keys(Keyed(es)), ComponentsList(es)[j].id)
  {
    var keys := JsMap.Keys(Keyed(es));
    var rank := (x: string) => if x in keys then FirstIndex(keys, x) else -1;
    ComponentIndexOrder(es);
    ComponentsOfOrdered(es, IndexRecords(es), rank);
    ComponentsListFromEntries(es);
  }

  /** No component is listed twice. */
  lemma ComponentsListDistinct(es: seq<Entry>)
    ensures forall i, j :: 0 <= i < j < |ComponentsList(es)| ==> ComponentsList(es)[i].id != ComponentsList(es)[j].id
  {
    ComponentsListOrder(es);
  }

  /** A listed component's group has a story not backed by `.mdx`. */
  lemma ComponentListedOnlyIf(es: seq<Entry>, d: DocListEntry)
    requires d in ComponentsList(es)
    ensures exists k :: (0 <= k < |es| && ComponentBaseIdFromTitle(es[k].title) == d.id
      && es[k].Story? && !IsMdxPath(es[k].importPath))
  {
    var ks := Keyed(es);
    ComponentsOfMembers(es, IndexRecords(es));
    var r :| r in IndexRecords(es) && HasNonMdxStory(Group(ks, r.baseId)) && d == ComponentRecord(r);
    var e :| e in Group(ks, r.baseId) && e.Story? && !IsMdxPath(e.importPath);
    GroupMemberAt(es, r.baseId, e);
  }

  /** A kept group's record is listed. */
  lemma ComponentsOfHas(es: seq<Entry>, rs: seq<ComponentIndexEntry>, i: nat)
    requires i < |rs| && HasNonMdxStory(Group(Keyed(es), rs[i].baseId))
    ensures ComponentRecord(rs[i]) in ComponentsOf(es, rs)
  {
    ComponentsOfMembers(es, rs);
    assert rs[i] in rs;
  }

  /** Every entry belongs to the group of its own baseId. */
  lemma EntryInOwnGroup(es: seq<Entry>, k: nat)
    requires k < |es|
    ensures es[k] in Group(Keyed(es), ComponentBaseIdFromTitle(es[k].title))
  {
    var ks := Keyed(es);
    KeyedAt(es, k);
    GroupMembers(ks, ComponentBaseIdFromTitle(es[k].title));
    assert ks[k] in ks;
  }

  /** Every member of a group is an entry whose title gives the group's baseId. */
  lemma GroupMemberAt(es: seq<Entry>, b: string, e: Entry)
    requires e in Group(Keyed(es), b)
    ensures exists k :: 0 <= k < |es| && es[k] == e && ComponentBaseIdFromTitle(es[k].title) == b
  {
    var ks := Keyed(es);
    GroupMembers(ks, b);
    assert (b, e) in ks;
    var k :| 0 <= k < |ks| && ks[k] == (b, e);
    KeyedAt(es, k);
  }

  /** A group with a story not backed by `.mdx` is listed. */
  lemma ComponentListedIf(es: seq<Entry>, k: nat)
    requires k < |es| && es[k].Story? && !IsMdxPath(es[k].importPath)
    ensures exists d :: d in ComponentsList(es) && d.id == ComponentBaseIdFromTitle(es[k].title)
  {
    var b := ComponentBaseIdFromTitle(es[k].title);
    BaseIdOfEntry(es, k);
    ComponentIndexCoversEntries(es);
    var i :| 0 <= i < |IndexRecords(es)| && IndexRecords(es)[i].baseId == JsMap.Keys(Keyed(es))[k];
    EntryInOwnGroup(es, k);
    ComponentsOfHas(es, IndexRecords(es), i);
  }

  /**
   * A listed component is a group of the index: its id the baseId, its title
   * that of the group's last entry, its path the group's first import path.
   */
  lemma ComponentListedFields(es: seq<Entry>, d: DocListEntry)
    requires d in ComponentsList(es)
    ensures d.kind == Component && d.id in JsMap.Keys(Keyed(es))
    ensures d.title == JsMap.LastValue(Keyed(es), d.id).title
    ensures d.path == Group(Keyed(es), d.id)[0].importPath
  {
    var ks := Keyed(es);
    ComponentsOfMembers(es, IndexRecords(es));
    var r :| r in IndexRecords(es) && HasNonMdxStory(Group(ks, r.baseId)) && d == ComponentRecord(r);
    var i :| 0 <= i < |IndexRecords(es)| && IndexRecords(es)[i] == r;
    IndexRecordsAreGroupRecords(es);
    var b := Dedup(JsMap.Keys(ks))[i];
    assert r == GroupRecord(ks, b);
    GroupRecordContents(ks, b);
    GroupRecordFirsts(ks, b);
  }

  /** A story backed by `.mdx`, alone in its group, is listed as docs and not as a component. */
  lemma MdxStoryAloneIsDocs(es: seq<Entry>, k: nat)
    requires k < |es| && es[k].Story? && IsMdxPath(es[k].importPath)
    requires forall j :: 0 <= j < |es| && j != k ==>
      ComponentBaseIdFromTitle(es[j].title) != ComponentBaseIdFromTitle(es[k].title)
    ensures exists i :: 0 <= i < |DocsList(es)| && DocsList(es)[i].id == es[k].id
    ensures forall d :: d in ComponentsList(es) ==> d.id != ComponentBaseIdFromTitle(es[k].title)
  {
    DocsListCovers(es, k);
    forall d | d in ComponentsList(es) ensures d.id != ComponentBaseIdFromTitle(es[k].title) {
      ComponentListedOnlyIf(es, d);
      var j :| 0 <= j < |es| && ComponentBaseIdFromTitle(es[j].title) == d.id
        && es[j].Story? && !IsMdxPath(es[j].importPath);
      assert j != k;
    }
  }

  // ---------------------------------------------------------------------------
  // The Markdown listing: links

  /** The first line of the listing, written in two pieces so that facts about its characters stay cheap. */
  const Header: string := "These are the available documentation " + "files and components:"

  /** `` `- [${title}](${url}): ${desc}`.trimEnd() `` with the empty description: only the space goes. */
  function Bullet(title: string, url: string): (line: string)
    ensures line == "- [" + title + "](" + url + "):"
  {
    var desc := "";
    var s := "- [" + title + "](" + url + "):";
    assert s[|s| - 1] == ':';
    assert "- [" + title + "](" + url + "): " + desc == s + " ";
    TrimEndOneSpace(s);
    TrimEnd("- [" + title + "](" + url + "): " + desc)
  }

  /**
   * `resolvePublicUrlForEntry(index.entries[id], base)`. The base URL is
   * normalised first; a missing key then yields `undefined`, whose `type`
   * cannot be read.
   */
  function EntryUrl(index: StorybookIndex, id: string, storybookBaseUrl: string): (r: Result<string, Error>)
    ensures r.Success? <==> (NormalizeBaseUrl(storybookBaseUrl).Success? &&
      exists i :: 0 <= i < |index.entries| && index.entries[i].0 == id)
    ensures r.Failure? ==> r.error == if NormalizeBaseUrl(storybookBaseUrl).Failure? then EmptyBaseUrl else EntryNotFound(id)
    ensures r.Success? ==> exists i :: (0 <= i < |index.entries| && index.entries[i].0 == id
      && r == ResolvePublicUrlForEntry(index.entries[i].1, storybookBaseUrl))
  {
    match GetEntryById(index, id)
    case None => if NormalizeBaseUrl(storybookBaseUrl).Failure? then Failure(EmptyBaseUrl) else Failure(EntryNotFound(id))
    case Some(e) => ResolvePublicUrlForEntry(e, storybookBaseUrl)
  }

  /** The `docByBaseId.set(baseId, d)` calls, in order. */
  function DocBases(docs: seq<DocListEntry>): (ps: seq<(string, DocListEntry)>)
    ensures |ps| == |docs|
    ensures forall i :: 0 <= i < |docs| ==> ps[i] == (ComponentBaseIdFromTitle(docs[i].title), docs[i])
  {
    if docs == [] then []
    else DocBases(docs[..|docs| - 1]) + [(ComponentBaseIdFromTitle(docs[|docs| - 1].title), docs[|docs| - 1])]
  }

  /** `docByBaseId.get(b)` once every doc is set: the last doc whose title gives baseId `b`. */
  function DocFor(docs: seq<DocListEntry>, b: string): (r: Option<DocListEntry>)
    ensures r.Some? <==> exists i :: 0 <= i < |docs| && ComponentBaseIdFromTitle(docs[i].title) == b
    ensures r.Some? ==> exists i :: (0 <= i < |docs| && docs[i] == r.value && ComponentBaseIdFromTitle(docs[i].title) == b
      && forall j :: i < j < |docs| ==> ComponentBaseIdFromTitle(docs[j].title) != b)
  {
    var ps := DocBases(docs);
    if b in JsMap.Keys(ps) then
      var i := JsMap.LastIndex(ps, b);
      assert ps[i] == (ComponentBaseIdFromTitle(docs[i].title), docs[i]);
      Some(JsMap.LastValue(ps, b))
    else
      assert forall i :: 0 <= i < |docs| ==> JsMap.Keys(ps)[i] == ComponentBaseIdFromTitle(docs[i].title);
      None
  }

  /** The map the first loop of `buildMdxOutput` fills answers `get` as `DocFor` says. */
  lemma DocForOfMap(docs: seq<DocListEntry>, b: string)
    ensures (b in JsMap.MapState(DocBases(docs)).1) == DocFor(docs, b).Some?
    ensures b in JsMap.MapState(DocBases(docs)).1 ==> JsMap.MapState(DocBases(docs)).1[b] == DocFor(docs, b).value
  {
    JsMap.MapStateModels(DocBases(docs));
  }

  /** `rs.find((ci) => ci.baseId === b)`: the first record of baseId `b`. */
  function FindRecord(rs: seq<ComponentIndexEntry>, b: string): (r: Option<ComponentIndexEntry>)
    ensures r.None? <==> forall i :: 0 <= i < |rs| ==> rs[i].baseId != b
    ensures r.Some? ==> exists i :: (0 <= i < |rs| && rs[i] == r.value && r.value.baseId == b
      && forall j :: 0 <= j < i ==> rs[j].baseId != b)
  {
    if rs == [] then None
    else if rs[0].baseId == b then Some(rs[0])
    else
      var r := FindRecord(rs[1..], b);
      assert forall i :: 0 <= i < |rs| - 1 ==> rs[1..][i] == rs[i + 1];
      if r.Some? then
        var i :| 0 <= i < |rs| - 1 && rs[1..][i] == r.value && r.value.baseId == b
          && forall j :: 0 <= j < i ==> rs[1..][j].baseId != b;
        assert rs[i + 1] == r.value;
        r
      else
        r
  }

  /** `find(…)?.stories[0]`: nothing when no record has baseId `b` or its record has no story. */
  function FirstStoryId(rs: seq<ComponentIndexEntry>, b: string): (r: Option<string>)
    ensures (forall i :: 0 <= i < |rs| ==> rs[i].baseId != b) ==> r.None?
    ensures (exists i :: (0 <= i < |rs| && rs[i].baseId == b && |rs[i].stories| > 0
      && forall j :: 0 <= j < i ==> rs[j].baseId != b)) ==> r.Some?
    ensures r.Some? ==> exists i :: (0 <= i < |rs| && rs[i].baseId == b && |rs[i].stories| > 0
      && r.value == rs[i].stories[0] && forall j :: 0 <= j < i ==> rs[j].baseId != b)
  {
    match FindRecord(rs, b)
    case None => None
    case Some(ci) => if |ci.stories| > 0 then Some(ci.stories[0]) else None
  }

  /** Over the component index, the first story id of `b` is that of the group's first `story` entry. */
  lemma FirstStoryIdOfIndex(es: seq<Entry>, b: string)
    ensures FirstStoryId(IndexRecords(es), b) ==
      if StoryIdsOf(Group(Keyed(es), b)) == [] then None else Some(StoryIdsOf(Group(Keyed(es), b))[0])
  {
    var ks := Keyed(es);
    if b in JsMap.Keys(ks) {
      FindRecordOfIndex(es, b);
      GroupRecordFirsts(ks, b);
    } else {
      FindRecordAbsent(es, b);
    }
  }

  /** The search finds the group record of a baseId some entry has. */
  lemma FindRecordOfIndex(es: seq<Entry>, b: string)
    requires b in JsMap.Keys(Keyed(es))
    ensures FindRecord(IndexRecords(es), b) == Some(GroupRecord(Keyed(es), b))
  {
    var ks, rs := Keyed(es), IndexRecords(es);
    var k :| 0 <= k < |ks| && JsMap.Keys(ks)[k] == b;
    ComponentIndexCoversEntries(es);
    var i0 :| 0 <= i0 < |rs| && rs[i0].baseId == JsMap.Keys(ks)[k];
    var r := FindRecord(rs, b);
    assert r.Some?;
    var i :| 0 <= i < |rs| && rs[i] == r.value && r.value.baseId == b;
    IndexRecordOf(es, i);
  }

  /** No record has a baseId that no entry has. */
  lemma FindRecordAbsent(es: seq<Entry>, b: string)
    requires b !in JsMap.Keys(Keyed(es))
    ensures FindRecord(IndexRecords(es), b).None?
  {
    var rs := IndexRecords(es);
    forall i | 0 <= i < |rs| ensures rs[i].baseId != b {
      IndexRecordOf(es, i);
    }
  }

  /** The first story id is the id of a `story` entry of baseId `b`. */
  lemma FirstStoryIdIsStory(es: seq<Entry>, b: string)
    requires FirstStoryId(IndexRecords(es), b).Some?
    ensures exists k :: (0 <= k < |es| && es[k].Story? && ComponentBaseIdFromTitle(es[k].title) == b
      && es[k].id == FirstStoryId(IndexRecords(es), b).value)
  {
    var ks := Keyed(es);
    var g := Group(ks, b);
    FirstStoryIdOfIndex(es, b);
    StoryIdsOfMembers(g);
    var x := StoryIdsOf(g)[0];
    assert x in StoryIdsOf(g);
    var e :| e in g && e.Story? && e.id == x;
    GroupMemberAt(es, b, e);
  }

  /**
   * The link of component `c`: the page of the doc that shares its baseId,
   * else the group's first story; a missing or empty story id leaves `''`.
   */
  function ComponentUrl(docs: seq<DocListEntry>, index: StorybookIndex, c: DocListEntry, storybookBaseUrl: string)
    : (r: Result<string, Error>)
  {
    var baseId := ComponentBaseIdFromTitle(c.title);
    match DocFor(docs, baseId)
    case Some(d) => EntryUrl(index, d.id, storybookBaseUrl)
    case None =>
      var firstStoryId := FirstStoryId(IndexRecords(Values(index.entries)), baseId);
      if firstStoryId.Some? && firstStoryId.value != "" then EntryUrl(index, firstStoryId.value, storybookBaseUrl)
      else Success("")
  }

  /** A component links to the last doc of its baseId; without one, to its group's first story, if any. */
  lemma ComponentUrlOfGroup(docs: seq<DocListEntry>, index: StorybookIndex, c: DocListEntry, storybookBaseUrl: string)
    ensures var b := ComponentBaseIdFromTitle(c.title);
      var ids := StoryIdsOf(Group(Keyed(Values(index.entries)), b));
      ComponentUrl(docs, index, c, storybookBaseUrl) ==
        if DocFor(docs, b).Some? then EntryUrl(index, DocFor(docs, b).value.id, storybookBaseUrl)
        else if ids != [] && ids[0] != "" then EntryUrl(index, ids[0], storybookBaseUrl)
        else Success("")
  {
    FirstStoryIdOfIndex(Values(index.entries), ComponentBaseIdFromTitle(c.title));
  }

  /** A listed component's title gives back its own id, so its doc is the one of baseId `c.id`. */
  lemma ComponentTitleBaseId(es: seq<Entry>, c: DocListEntry)
    requires c in ComponentsList(es)
    ensures ComponentBaseIdFromTitle(c.title) == c.id
  {
    var ks := Keyed(es);
    ComponentListedFields(es, c);
    var i := JsMap.LastIndex(ks, c.id);
    KeyedAt(es, i);
  }

  // ---------------------------------------------------------------------------
  // The Markdown listing: lines

  /** The bullets `items` (title, URL) pushed in order; the first URL that fails ends the listing. */
  function Lines(items: seq<(string, Result<string, Error>)>): Result<seq<string>, Error>
  {
    if items == [] then Success([])
    else
      match Lines(items[..|items| - 1])
      case Failure(e) => Failure(e)
      case Success(ls) =>
        match items[|items| - 1].1
        case Failure(e) => Failure(e)
        case Success(u) => Success(ls + [Bullet(items[|items| - 1].0, u)])
  }

  /** The lines are complete exactly when every URL resolves, one bullet per item. */
  lemma {:induction false} LinesSuccess(items: seq<(string, Result<string, Error>)>)
    ensures Lines(items).Success? <==> forall i :: 0 <= i < |items| ==> items[i].1.Success?
    ensures Lines(items).Success? ==> (|Lines(items).value| == |items| &&
      forall i :: 0 <= i < |items| ==> items[i].1.Success? && Lines(items).value[i] == Bullet(items[i].0, items[i].1.value))
  {
    if items != [] {
      var q := items[..|items| - 1];
      LinesSuccess(q);
      assert forall i :: 0 <= i < |q| ==> q[i] == items[i];
    }
  }

  /** A failure is that of the first URL that fails. */
  lemma {:induction false} LinesFailure(items: seq<(string, Result<string, Error>)>)
    requires Lines(items).Failure?
    ensures exists i :: (0 <= i < |items| && items[i].1 == Failure(Lines(items).error)
      && forall j :: 0 <= j < i ==> items[j].1.Success?)
  {
    var q, last := items[..|items| - 1], items[|items| - 1];
    assert forall i :: 0 <= i < |q| ==> q[i] == items[i];
    if Lines(q).Failure? {
      LinesFailure(q);
      var i :| 0 <= i < |q| && q[i].1 == Failure(Lines(q).error) && forall j :: 0 <= j < i ==> q[j].1.Success?;
      assert items[i] == q[i];
    } else {
      LinesSuccess(q);
      assert last.1 == Failure(Lines(items).error);
    }
  }

  /** Once a prefix fails, the whole listing fails the same way. */
  lemma {:induction false} LinesFailExtends(items: seq<(string, Result<string, Error>)>, n: nat)
    requires n <= |items| && Lines(items[..n]).Failure?
    ensures Lines(items) == Lines(items[..n])
  {
    if n == |items| {
      assert items[..n] == items;
    } else {
      var q := items[..|items| - 1];
      assert q[..n] == items[..n];
      LinesFailExtends(q, n);
    }
  }

  /** One more URL that resolves adds its bullet. */
  lemma LinesPush(items: seq<(string, Result<string, Error>)>, n: nat, u: string)
    requires n < |items| && Lines(items[..n]).Success? && items[n].1 == Success(u)
    ensures Lines(items[..n + 1]) == Success(Lines(items[..n]).value + [Bullet(items[n].0, u)])
  {
    assert items[..n + 1][..n] == items[..n];
  }

  /** One more URL that fails ends the whole listing with its error. */
  lemma LinesThrow(items: seq<(string, Result<string, Error>)>, n: nat)
    requires n < |items| && Lines(items[..n]).Success? && items[n].1.Failure?
    ensures Lines(items) == Failure(items[n].1.error)
  {
    assert items[..n + 1][..n] == items[..n];
    LinesFailExtends(items, n + 1);
  }

  /** The lines of two runs of bullets are those of the first, then those of the second. */
  lemma {:induction false} LinesAppend(a: seq<(string, Result<string, Error>)>, b: seq<(string, Result<string, Error>)>)
    ensures Lines(a + b) ==
      match Lines(a)
      case Failure(e) => Failure(e)
      case Success(x) =>
        match Lines(b)
        case Failure(e) => Failure(e)
        case Success(y) => Success(x + y)
  {
    if b == [] {
      assert a + b == a;
      if Lines(a).Success? {
        assert Lines(a).value + [] == Lines(a).value;
      }
    } else {
      var q, last := b[..|b| - 1], b[|b| - 1];
      assert (a + b)[..|a + b| - 1] == a + q;
      assert (a + b)[|a + b| - 1] == last;
      LinesAppend(a, q);
      if Lines(a).Success? && Lines(q).Success? && last.1.Success? {
        SnocAssoc(Lines(a).value, Lines(q).value, Bullet(last.0, last.1.value));
      }
    }
  }

  /** The doc bullets: each doc with the page of the entry stored under its id. */
  function DocItems(docs: seq<DocListEntry>, index: StorybookIndex, storybookBaseUrl: string)
    : (items: seq<(string, Result<string, Error>)>)
    ensures |items| == |docs|
  {
    if docs == [] then []
    else
      var d := docs[|docs| - 1];
      DocItems(docs[..|docs| - 1], index, storybookBaseUrl) + [(d.title, EntryUrl(index, d.id, storybookBaseUrl))]
  }

  lemma {:induction false} DocItemsAt(docs: seq<DocListEntry>, index: StorybookIndex, storybookBaseUrl: string, i: nat)
    requires i < |docs|
    ensures DocItems(docs, index, storybookBaseUrl)[i] == (docs[i].title, EntryUrl(index, docs[i].id, storybookBaseUrl))
  {
    if i < |docs| - 1 {
      DocItemsAt(docs[..|docs| - 1], index, storybookBaseUrl, i);
    }
  }

  /** The component bullets: each component with its link. */
  function ComponentItems(docs: seq<DocListEntry>, index: StorybookIndex, components: seq<DocListEntry>, storybookBaseUrl: string)
    : (items: seq<(string, Result<string, Error>)>)
    ensures |items| == |components|
  {
    if components == [] then []
    else
      var c := components[|components| - 1];
      ComponentItems(docs, index, components[..|components| - 1], storybookBaseUrl)
        + [(c.title, ComponentUrl(docs, index, c, storybookBaseUrl))]
  }

  lemma {:induction false} ComponentItemsAt(docs: seq<DocListEntry>, index: StorybookIndex, components: seq<DocListEntry>,
                                            storybookBaseUrl: string, j: nat)
    requires j < |components|
    ensures ComponentItems(docs, index, components, storybookBaseUrl)[j]
      == (components[j].title, ComponentUrl(docs, index, components[j], storybookBaseUrl))
  {
    if j < |components| - 1 {
      ComponentItemsAt(docs, index, components[..|components| - 1], storybookBaseUrl, j);
    }
  }

  /** The bullets of the listing: every doc with its page, then every component with its link. */
  function MdxItems(docs: seq<DocListEntry>, index: StorybookIndex, components: seq<DocListEntry>, storybookBaseUrl: string)
    : seq<(string, Result<string, Error>)>
  {
    DocItems(docs, index, storybookBaseUrl) + ComponentItems(docs, index, components, storybookBaseUrl)
  }

  /** `buildMdxOutput`: the header and the bullets, joined by newlines, or the error a URL throws. */
  function MdxOutput(docs: seq<DocListEntry>, index: StorybookIndex, components: seq<DocListEntry>, storybookBaseUrl: string)
    : Result<string, Error>
  {
    match Lines(MdxItems(docs, index, components, storybookBaseUrl))
    case Failure(e) => Failure(e)
    case Success(ls) => Success(Join([Header] + ls, "\n"))
  }

  /** Split at its newlines, a listing without newlines in its bullets is the header and one bullet per item. */
  lemma MdxOutputLines(docs: seq<DocListEntry>, index: StorybookIndex, components: seq<DocListEntry>, storybookBaseUrl: string)
    requires var items := MdxItems(docs, index, components, storybookBaseUrl);
      forall i :: 0 <= i < |items| ==> '\n' !in items[i].0 && (items[i].1.Success? ==> '\n' !in items[i].1.value)
    ensures var items := MdxItems(docs, index, components, storybookBaseUrl);
      var out := MdxOutput(docs, index, components, storybookBaseUrl);
      out.Success? ==> (Split(out.value, '\n') == [Header] + Lines(items).value && |Lines(items).value| == |items|)
  {
    var items := MdxItems(docs, index, components, storybookBaseUrl);
    LinesSuccess(items);
    if Lines(items).Success? {
      var parts := [Header] + Lines(items).value;
      HeaderOneLine();
      forall i | 0 <= i < |parts| ensures '\n' !in parts[i] {
        if i > 0 {
          assert parts[i] == Bullet(items[i - 1].0, items[i - 1].1.value);
          BulletNoNewline(items[i - 1].0, items[i - 1].1.value);
        }
      }
      SplitJoin(parts, '\n');
    }
  }

  lemma HeaderOneLine()
    ensures '\n' !in Header
  {
  }

  /** A bullet holds a newline only if its title or URL does. */
  lemma BulletNoNewline(title: string, url: string)
    requires '\n' !in title && '\n' !in url
    ensures '\n' !in Bullet(title, url)
  {
  }

  /** The first loop of `buildMdxOutput`: each doc set under the baseId of its title. */
  method DocsByBaseId(docs: seq<DocListEntry>) returns (docByBaseId: JsMap.OrderedMap<string, DocListEntry>)
    ensures fresh(docByBaseId) && docByBaseId.Valid()
    ensures (docByBaseId.keys, docByBaseId.values) == JsMap.MapState(DocBases(docs))
  {
    docByBaseId := new JsMap.OrderedMap<string, DocListEntry>();
    for i := 0 to |docs|
      invariant docByBaseId.Valid()
      invariant (docByBaseId.keys, docByBaseId.values) == JsMap.MapState(DocBases(docs[..i]))
    {
      var baseId := ComponentBaseIdFromTitle(docs[i].title);
      PrefixSnoc(docs, i);
      JsMap.MapStateSnoc(DocBases(docs[..i]), baseId, docs[i]);
      docByBaseId.Set(baseId, docs[i]);
    }
    PrefixAll(docs);
  }

  /** The link of one component in the last loop of `buildMdxOutput`, looked up in the filled map. */
  method ComponentLink(docByBaseId: JsMap.OrderedMap<string, DocListEntry>, docs: seq<DocListEntry>, index: StorybookIndex,
                       c: DocListEntry, storybookBaseUrl: string) returns (url: Result<string, Error>)
    requires (docByBaseId.keys, docByBaseId.values) == JsMap.MapState(DocBases(docs))
    ensures url == ComponentUrl(docs, index, c, storybookBaseUrl)
  {
    var baseId := ComponentBaseIdFromTitle(c.title);
    url := Success("");
    var maybeDoc := docByBaseId.Get(baseId);
    DocForOfMap(docs, baseId);
    if maybeDoc.Some? {
      url := EntryUrl(index, maybeDoc.value.id, storybookBaseUrl);
    } else {
      var cis := BuildComponentIndex(index);
      var firstStoryId := FirstStoryId(cis, baseId);
      if firstStoryId.Some? && firstStoryId.value != "" {
        url := EntryUrl(index, firstStoryId.value, storybookBaseUrl);
      }
    }
  }

  /** The docs loop of `buildMdxOutput`: the bullets it pushes, or the error a URL throws. */
  method DocBullets(docs: seq<DocListEntry>, index: StorybookIndex, storybookBaseUrl: string)
    returns (r: Result<seq<string>, Error>)
    ensures r == Lines(DocItems(docs, index, storybookBaseUrl))
  {
    ghost var items := DocItems(docs, index, storybookBaseUrl);
    var bullets: seq<string> := [];
    for i := 0 to |docs|
      invariant Lines(items[..i]) == Success(bullets)
    {
      var d := docs[i];
      var url := EntryUrl(index, d.id, storybookBaseUrl);
      DocItemsAt(docs, index, storybookBaseUrl, i);
      if url.Failure? {
        LinesThrow(items, i);
        return Failure(url.error);
      }
      LinesPush(items, i, url.value);
      bullets := bullets + [Bullet(d.title, url.value)];
    }
    PrefixAll(items);
    r := Success(bullets);
  }

  /** The components loop of `buildMdxOutput`, over the filled doc map. */
  method ComponentBullets(docByBaseId: JsMap.OrderedMap<string, DocListEntry>, docs: seq<DocListEntry>, index: StorybookIndex,
                          components: seq<DocListEntry>, storybookBaseUrl: string)
    returns (r: Result<seq<string>, Error>)
    requires (docByBaseId.keys, docByBaseId.values) == JsMap.MapState(DocBases(docs))
    ensures r == Lines(ComponentItems(docs, index, components, storybookBaseUrl))
  {
    ghost var items := ComponentItems(docs, index, components, storybookBaseUrl);
    var bullets: seq<string> := [];
    for j := 0 to |components|
      invariant Lines(items[..j]) == Success(bullets)
    {
      var c := components[j];
      var url := ComponentLink(docByBaseId, docs, index, c, storybookBaseUrl);
      ComponentItemsAt(docs, index, components, storybookBaseUrl, j);
      if url.Failure? {
        LinesThrow(items, j);
        return Failure(url.error);
      }
      LinesPush(items, j, url.value);
      bullets := bullets + [Bullet(c.title, url.value)];
    }
    PrefixAll(items);
    r := Success(bullets);
  }

  /** `buildMdxOutput`: the header, then the doc bullets and the component bullets, joined by newlines. */
  method BuildMdxOutput(docs: seq<DocListEntry>, index: StorybookIndex, components: seq<DocListEntry>, storybookBaseUrl: string)
    returns (r: Result<string, Error>)
    ensures r == MdxOutput(docs, index, components, storybookBaseUrl)
  {
    var lines := [Header];
    var docByBaseId := DocsByBaseId(docs);
    LinesAppend(DocItems(docs, index, storybookBaseUrl), ComponentItems(docs, index, components, storybookBaseUrl));
    var docLines := DocBullets(docs, index, storybookBaseUrl);
    if docLines.Failure? {
      return Failure(docLines.error);
    }
    lines := lines + docLines.value;
    var componentLines := ComponentBullets(docByBaseId, docs, index, components, storybookBaseUrl);
    if componentLines.Failure? {
      return Failure(componentLines.error);
    }
    lines := lines + componentLines.value;
    AppendAssoc([Header], docLines.value, componentLines.value);
    r := Success(Join(lines, "\n"));
  }

  // ---------------------------------------------------------------------------
  // When the listing succeeds

  /** Every key of the index is its entry's own id, as Storybook writes `index.json`. */
  predicate KeysAreIds(index: StorybookIndex) {
    forall i :: 0 <= i < |index.entries| ==> index.entries[i].0 == index.entries[i].1.id
  }

  /** Looking up an entry by its own id finds it, and its page is resolved from it. */
  lemma EntryUrlOfEntry(index: StorybookIndex, k: nat, storybookBaseUrl: string)
    requires KeysAreIds(index) && k < |index.entries|
    ensures EntryUrl(index, index.entries[k].1.id, storybookBaseUrl) == ResolvePublicUrlForEntry(index.entries[k].1, storybookBaseUrl)
  {
    GetEntryByKey(index, k);
  }

  /** Over a usable base URL, every doc of the docs list links to its page. */
  lemma DocUrlSucceeds(index: StorybookIndex, storybookBaseUrl: string, i: nat)
    requires KeysAreIds(index) && NormalizeBaseUrl(storybookBaseUrl).Success?
    requires i < |DocsList(Values(index.entries))|
    ensures EntryUrl(index, DocsList(Values(index.entries))[i].id, storybookBaseUrl).Success?
  {
    var es := Values(index.entries);
    DocsListFromEntries(es, i);
    var k :| 0 <= k < |es| && IsDocLike(es[k]) && DocsList(es)[i] == DocRecord(es[k]);
    EntryUrlOfEntry(index, k, storybookBaseUrl);
  }

  /** Over a usable base URL, every component's link resolves (possibly to `''`). */
  lemma ComponentUrlSucceeds(index: StorybookIndex, storybookBaseUrl: string, c: DocListEntry)
    requires KeysAreIds(index) && NormalizeBaseUrl(storybookBaseUrl).Success?
    ensures ComponentUrl(DocsList(Values(index.entries)), index, c, storybookBaseUrl).Success?
  {
    var es := Values(index.entries);
    var docs := DocsList(es);
    var b := ComponentBaseIdFromTitle(c.title);
    var maybeDoc := DocFor(docs, b);
    if maybeDoc.Some? {
      var i :| 0 <= i < |docs| && docs[i] == maybeDoc.value && ComponentBaseIdFromTitle(docs[i].title) == b;
      DocUrlSucceeds(index, storybookBaseUrl, i);
    } else {
      var firstStoryId := FirstStoryId(IndexRecords(es), b);
      if firstStoryId.Some? && firstStoryId.value != "" {
        FirstStoryIdIsStory(es, b);
        var k :| 0 <= k < |es| && es[k].Story? && ComponentBaseIdFromTitle(es[k].title) == b
          && es[k].id == firstStoryId.value;
        EntryUrlOfEntry(index, k, storybookBaseUrl);
      }
    }
  }

  /**
   * Over a usable base URL and an index whose keys are its ids, the
   * listing of the tool's own docs and components always renders.
   */
  lemma MdxOutputSucceeds(index: StorybookIndex, storybookBaseUrl: string)
    requires KeysAreIds(index) && NormalizeBaseUrl(storybookBaseUrl).Success?
    ensures MdxOutput(DocsList(Values(index.entries)), index, ComponentsList(Values(index.entries)), storybookBaseUrl).Success?
  {
    var es := Values(index.entries);
    var docs, components := DocsList(es), ComponentsList(es);
    var docItems := DocItems(docs, index, storybookBaseUrl);
    var componentItems := ComponentItems(docs, index, components, storybookBaseUrl);
    forall i | 0 <= i < |docItems| ensures docItems[i].1.Success? {
      DocItemsAt(docs, index, storybookBaseUrl, i);
      DocUrlSucceeds(index, storybookBaseUrl, i);
    }
    forall j | 0 <= j < |componentItems| ensures componentItems[j].1.Success? {
      ComponentItemsAt(docs, index, components, storybookBaseUrl, j);
      ComponentUrlSucceeds(index, storybookBaseUrl, components[j]);
    }
    LinesSuccess(docItems);
    LinesSuccess(componentItems);
    LinesAppend(docItems, componentItems);
  }

  // ---------------------------------------------------------------------------
  // The tool

  /**
   * `list-all-documentation`: the input must name a base URL; the index is
   * the one fetched from it. The reply is the Markdown listing and the
   * entries, components first and docs after.
   */
  method ListAllDocumentation(storybookBaseUrl: Option<string>, index: StorybookIndex)
    returns (r: Result<(string, seq<DocListEntry>), Error>)
    ensures storybookBaseUrl.None? || storybookBaseUrl.value == "" ==> r == Failure(MissingBaseUrl)
    ensures storybookBaseUrl.Some? && storybookBaseUrl.value != "" && NormalizeBaseUrl(storybookBaseUrl.value).Failure?
      ==> r == Failure(EmptyBaseUrl)
    ensures storybookBaseUrl.Some? && NormalizeBaseUrl(storybookBaseUrl.value).Success? ==>
      var es := Values(index.entries);
      r == match MdxOutput(DocsList(es), index, ComponentsList(es), storybookBaseUrl.value)
           case Failure(e) => Failure(e)
           case Success(text) => Success((text, ComponentsList(es) + DocsList(es)))
  {
    if storybookBaseUrl.None? || storybookBaseUrl.value == "" {
      return Failure(MissingBaseUrl);
    }
    var input := storybookBaseUrl.value;
    var indexUrl := IndexUrl(input);
    if indexUrl.Failure? {
      return Failure(indexUrl.error);
    }
    var docs := CollectDocs(index);
    var componentIndex := BuildComponentIndex(index);
    var components := ComponentsOf(Values(index.entries), componentIndex);
    var entries := components + docs;
    var text := BuildMdxOutput(docs, index, components, input);
    if text.Failure? {
      return Failure(text.error);
    }
    r := Success((text.value, entries));
  }
}
