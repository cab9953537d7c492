/**
 * The `list-all-components` tool: one component per story id prefix, taken
 * from the first qualifying story in key order, with uninformative tags
 * dropped, and a Markdown listing that links each component's story.
 */
module ListAllComponents {
  import opened Wrappers
  import opened Strings
  import opened Seqs
  import opened Types
  import StorybookScraper

  // ---------------------------------------------------------------------------
  // Component id and tags

  /** `e.id.includes('--') ? e.id.split('--')[0] : e.id`: the id up to its first `--`. */
  function ComponentIdOf(id: string): (r: string)
    ensures |r| <= |id| && r == id[..|r|]
    ensures r == id <==> IndexOf(id, "--").None?
    ensures r != id ==> OccursAt(id, "--", |r|)
    ensures r != id ==> forall j :: 0 <= j < |r| ==> !OccursAt(id, "--", j)
    ensures forall j :: 0 <= j <= |r| ==> !OccursAt(r, "--", j)
  {
    match IndexOf(id, "--")
    case None => id
    case Some(i) =>
      NoOccurrenceInPrefix(id, "--", i);
      id[..i]
  }

  /** A prefix without `--` that does not end in `-`, followed by `--`, is the component id. */
  lemma ComponentIdOfJoined(prefix: string, rest: string)
    requires forall j :: 0 <= j <= |prefix| ==> !OccursAt(prefix, "--", j)
    requires prefix == [] || prefix[|prefix| - 1] != '-'
    ensures ComponentIdOf(prefix + "--" + rest) == prefix
  {
    var id := prefix + "--" + rest;
    assert OccursAt(id, "--", |prefix|);
    forall j | 0 <= j < |prefix| ensures !OccursAt(id, "--", j) {
      if j + 2 <= |prefix| {
        assert id[j..j + 2] == prefix[j..j + 2];
        assert !OccursAt(prefix, "--", j);
      } else {
        assert id[j] == prefix[j] && j == |prefix| - 1;
      }
    }
    assert IndexOf(id, "--") == Some(|prefix|);
  }

  /** An id without `--` names its component as it is. */
  lemma ComponentIdOfPlain(id: string)
    requires forall j :: 0 <= j <= |id| ==> !OccursAt(id, "--", j)
    ensures ComponentIdOf(id) == id
  {
  }

  /** `['dev', 'test', 'autodocs'].includes(t)`. */
  predicate IsUninformativeTag(t: string) {
    t == "dev" || t == "test" || t == "autodocs"
  }

  /** `tags.filter((t) => !['dev', 'test', 'autodocs'].includes(t))`. */
  function FilterTags(tags: seq<string>): (r: seq<string>)
    ensures |r| <= |tags|
    ensures forall i :: 0 <= i < |r| ==> !IsUninformativeTag(r[i])
    ensures forall i :: 0 <= i < |tags| && !IsUninformativeTag(tags[i]) ==> tags[i] in r
  {
    if tags == [] then []
    else
      var t := tags[|tags| - 1];
      FilterTags(tags[..|tags| - 1]) + (if IsUninformativeTag(t) then [] else [t])
  }

  /** Exactly the informative tags are kept. */
  lemma {:induction false} FilterTagsMembers(tags: seq<string>)
    ensures forall t :: t in FilterTags(tags) <==> t in tags && !IsUninformativeTag(t)
  {
    if tags != [] {
      var p := tags[..|tags| - 1];
      assert tags == p + [tags[|tags| - 1]];
      FilterTagsMembers(p);
    }
  }

  /** The filter keeps the tags' order: it distributes over concatenation. */
  lemma {:induction false} FilterTagsAppend(a: seq<string>, b: seq<string>)
    ensures FilterTags(a + b) == FilterTags(a) + FilterTags(b)
  {
    if b == [] {
      assert a + b == a;
    } else {
      var b' := b[..|b| - 1];
      assert (a + b)[..|a + b| - 1] == a + b';
      FilterTagsAppend(a, b');
    }
  }

  /** Filtering twice removes nothing more. */
  lemma {:induction false} FilterTagsIdempotent(tags: seq<string>)
    ensures FilterTags(FilterTags(tags)) == FilterTags(tags)
  {
    if tags != [] {
      var p, t := tags[..|tags| - 1], tags[|tags| - 1];
      FilterTagsIdempotent(p);
      var single := if IsUninformativeTag(t) then [] else [t];
      FilterTagsAppend(FilterTags(p), single);
      assert FilterTags(single) == single by {
        if !IsUninformativeTag(t) {
          assert [t][..0] == [];
        }
      }
    }
  }

  /** `(e.tags ?? []).filter(…)`. */
  function TagsOf(e: Entry): (ts: seq<string>)
    ensures e.tags.None? ==> ts == []
    ensures forall t :: t in ts <==> e.tags.Some? && t in e.tags.value && !IsUninformativeTag(t)
  {
    FilterTagsMembers(e.tags.GetOr([]));
    FilterTags(e.tags.GetOr([]))
  }

  // ---------------------------------------------------------------------------
  // The dedupe loop

  /** Not skipped by the loop: not documentation, and a story. */
  predicate Qualifies(e: Entry) {
    !IsDocLike(e) && e.Story?
  }

  /** The component pushed for a kept story. */
  function MakeComponent(e: Entry): (c: ComponentEntry)
    ensures c.id == ComponentIdOf(e.id) && |c.id| <= |e.id| && c.id == e.id[..|c.id|]
    ensures c.title == e.title && c.importPath == e.importPath
    ensures c.componentPath == (if e.Story? then e.componentPath else None)
    ensures forall t :: t in c.tags <==> e.tags.Some? && t in e.tags.value && !IsUninformativeTag(t)
  {
    ComponentEntry(ComponentIdOf(e.id), e.title, e.importPath,
      if e.Story? then e.componentPath else None, TagsOf(e))
  }

  /** The ids of components, as the `seen` set holds them. */
  function IdSet(cs: seq<ComponentEntry>): (ids: set<string>)
  {
    if cs == [] then {} else IdSet(cs[..|cs| - 1]) + {cs[|cs| - 1].id}
  }

  /** The components the loop has pushed after visiting the entries `ps`. */
  function Kept(ps: seq<(string, Entry)>): seq<ComponentEntry>
  {
    if ps == [] then []
    else
      var cs := Kept(ps[..|ps| - 1]);
      var e := ps[|ps| - 1].1;
      if Qualifies(e) && ComponentIdOf(e.id) !in IdSet(cs) then cs + [MakeComponent(e)] else cs
  }

  /** The `for (const id of orderedIds)` loop of `list-all-components`. */
  method CollectComponents(index: StorybookIndex) returns (components: seq<ComponentEntry>)
    ensures components == Kept(index.entries)
  {
    var ps: seq<(string, Entry)> := index.entries;
    components := [];
    var seen: set<string> := {};
    for i := 0 to |ps|
      invariant components == Kept(ps[..i])
      invariant seen == IdSet(components)
    {
      PrefixSnoc(ps, i);
      var e := ps[i].1;
      var isDocType := e.Docs?;
      var isMdx := IsMdxPath(e.importPath);
      if isDocType || isMdx {
        continue;
      }
      if !e.Story? {
        continue;
      }
      var componentBaseId := ComponentIdOf(e.id);
      if componentBaseId in seen {
        continue;
      }
      seen := seen + {componentBaseId};
      IdSetSnoc(components, MakeComponent(e));
      components := components + [MakeComponent(e)];
    }
    PrefixAll(ps);
  }

  lemma IdSetSnoc(cs: seq<ComponentEntry>, c: ComponentEntry)
    ensures IdSet(cs + [c]) == IdSet(cs) + {c.id}
  {
    assert (cs + [c])[..|cs|] == cs;
  }

  lemma {:induction false} IdSetMembers(cs: seq<ComponentEntry>)
    ensures forall x :: x in IdSet(cs) <==> exists i :: 0 <= i < |cs| && cs[i].id == x
  {
    if cs != [] {
      var p := cs[..|cs| - 1];
      IdSetMembers(p);
      assert forall i :: 0 <= i < |p| ==> cs[i] == p[i];
    }
  }

  /** Story `k` is the first qualifying entry whose component id is its own. */
  predicate FirstOfComponent(ps: seq<(string, Entry)>, k: nat) {
    && k < |ps|
    && Qualifies(ps[k].1)
    && forall j :: 0 <= j < k ==> !(Qualifies(ps[j].1) && ComponentIdOf(ps[j].1.id) == ComponentIdOf(ps[k].1.id))
  }

  /** Visiting more entries only appends components. */
  lemma {:induction false} KeptPrefix(ps: seq<(string, Entry)>, n: nat)
    requires n <= |ps|
    ensures |Kept(ps[..n])| <= |Kept(ps)| && Kept(ps[..n]) == Kept(ps)[..|Kept(ps[..n])|]
    decreases |ps| - n
  {
    if n < |ps| {
      var q := ps[..|ps| - 1];
      assert q[..n] == ps[..n];
      KeptPrefix(q, n);
    } else {
      assert ps[..n] == ps;
    }
  }

  /** The component ids collected are pairwise distinct. */
  lemma {:induction false} KeptDistinct(ps: seq<(string, Entry)>)
    ensures forall i, j :: 0 <= i < j < |Kept(ps)| ==> Kept(ps)[i].id != Kept(ps)[j].id
  {
    if ps != [] {
      var q := ps[..|ps| - 1];
      KeptDistinct(q);
      var cs := Kept(q);
      IdSetMembers(cs);
    }
  }

  /** Being the first of its component survives visiting more entries. */
  lemma FirstOfComponentExtend(ps: seq<(string, Entry)>, k: nat)
    requires |ps| > 0 && FirstOfComponent(ps[..|ps| - 1], k)
    ensures FirstOfComponent(ps, k)
  {
    var q := ps[..|ps| - 1];
    assert forall j :: 0 <= j < |q| ==> ps[j] == q[j];
  }

  /** The first of its component among all entries is the first among those before a later one. */
  lemma FirstOfComponentRestrict(ps: seq<(string, Entry)>, k: nat)
    requires FirstOfComponent(ps, k) && k < |ps| - 1
    ensures FirstOfComponent(ps[..|ps| - 1], k)
  {
    var q := ps[..|ps| - 1];
    assert forall j :: 0 <= j < |q| ==> ps[j] == q[j];
  }

  /** Every component comes from the first qualifying story with its id. */
  lemma {:induction false} KeptFromFirst(ps: seq<(string, Entry)>, i: nat)
    requires i < |Kept(ps)|
    ensures exists k: nat :: FirstOfComponent(ps, k) && Kept(ps)[i] == MakeComponent(ps[k].1)
  {
    var q := ps[..|ps| - 1];
    var cs := Kept(q);
    if i < |cs| {
      KeptFromFirst(q, i);
      var k: nat :| FirstOfComponent(q, k) && cs[i] == MakeComponent(q[k].1);
      FirstOfComponentExtend(ps, k);
      assert ps[k] == q[k];
    } else {
      var e := ps[|ps| - 1].1;
      var k := |ps| - 1;
      forall j | 0 <= j < k
        ensures !(Qualifies(ps[j].1) && ComponentIdOf(ps[j].1.id) == ComponentIdOf(e.id))
      {
        assert ps[j] == q[j];
        if Qualifies(ps[j].1) {
          KeptCoversPrefix(q, j);
        }
      }
      assert FirstOfComponent(ps, k);
    }
  }

  /** Every qualifying story has a component of its id. */
  lemma {:induction false} KeptCoversPrefix(ps: seq<(string, Entry)>, k: nat)
    requires k < |ps| && Qualifies(ps[k].1)
    ensures ComponentIdOf(ps[k].1.id) in IdSet(Kept(ps))
  {
    var q := ps[..|ps| - 1];
    var cs := Kept(q);
    var e := ps[|ps| - 1].1;
    if k < |q| {
      assert q[k] == ps[k];
      KeptCoversPrefix(q, k);
      if Qualifies(e) && ComponentIdOf(e.id) !in IdSet(cs) {
        IdSetSnoc(cs, MakeComponent(e));
      }
    } else if ComponentIdOf(e.id) !in IdSet(cs) {
      IdSetSnoc(cs, MakeComponent(e));
    }
  }

  /** An id that no qualifying story has gets no component. */
  lemma {:induction false} KeptIdAbsent(ps: seq<(string, Entry)>, x: string)
    requires forall j :: 0 <= j < |ps| ==> !(Qualifies(ps[j].1) && ComponentIdOf(ps[j].1.id) == x)
    ensures x !in IdSet(Kept(ps))
  {
    if ps != [] {
      var q := ps[..|ps| - 1];
      var cs := Kept(q);
      var e := ps[|ps| - 1].1;
      assert forall j :: 0 <= j < |q| ==> ps[j] == q[j];
      KeptIdAbsent(q, x);
      if Qualifies(e) && ComponentIdOf(e.id) !in IdSet(cs) {
        IdSetSnoc(cs, MakeComponent(e));
      }
    }
  }

  /** The ids listed are exactly the component ids of the qualifying stories. */
  lemma KeptIds(ps: seq<(string, Entry)>)
    ensures IdSet(Kept(ps)) == set k | 0 <= k < |ps| && Qualifies(ps[k].1) :: ComponentIdOf(ps[k].1.id)
  {
    var ids := set k | 0 <= k < |ps| && Qualifies(ps[k].1) :: ComponentIdOf(ps[k].1.id);
    forall x | x in ids ensures x in IdSet(Kept(ps)) {
      var k :| 0 <= k < |ps| && Qualifies(ps[k].1) && x == ComponentIdOf(ps[k].1.id);
      KeptCoversPrefix(ps, k);
    }
    forall x | x !in ids ensures x !in IdSet(Kept(ps)) {
      KeptIdAbsent(ps, x);
    }
  }

  /** The first qualifying story with a given id is the one kept. */
  lemma {:induction false} KeptFirst(ps: seq<(string, Entry)>, k: nat)
    requires FirstOfComponent(ps, k)
    ensures MakeComponent(ps[k].1) in Kept(ps)
  {
    var q := ps[..|ps| - 1];
    var e := ps[|ps| - 1].1;
    if k == |ps| - 1 {
      assert forall j :: 0 <= j < |q| ==> ps[j] == q[j];
      KeptIdAbsent(q, ComponentIdOf(e.id));
    } else {
      FirstOfComponentRestrict(ps, k);
      KeptFirst(q, k);
      assert q[k] == ps[k];
    }
  }

  // ---------------------------------------------------------------------------
  // Markdown

  const Header: string := "These are the available components:"

  /** ``- [${c.title}](${base}?path=/story/${c.id}): ${desc} [${tagsText}]`.trimEnd()` with an empty description. */
  function ComponentLine(c: ComponentEntry, storybookBaseUrl: string): (line: string)
    ensures line == "- [" + c.title + "](" + storybookBaseUrl + "?path=/story/" + c.id + "):  [" + Join(c.tags, ", ") + "]"
  {
    var desc := "";
    var s := "- [" + c.title + "](" + storybookBaseUrl + "?path=/story/" + c.id + "): " + desc + " [" + Join(c.tags, ", ") + "]";
    assert s[|s| - 1] == ']';
    TrimEndKeeps(s);
    TrimEnd(s)
  }

  /** The bullet lines, one per component, in order. */
  function ComponentLines(cs: seq<ComponentEntry>, storybookBaseUrl: string): (lines: seq<string>)
    ensures |lines| == |cs|
    ensures forall i :: 0 <= i < |cs| ==> lines[i] == ComponentLine(cs[i], storybookBaseUrl)
  {
    if cs == [] then [] else ComponentLines(cs[..|cs| - 1], storybookBaseUrl) + [ComponentLine(cs[|cs| - 1], storybookBaseUrl)]
  }

  /** The Markdown text: the header, then one line per component, joined by newlines. */
  function Markdown(cs: seq<ComponentEntry>, storybookBaseUrl: string): string
  {
    Join([Header] + ComponentLines(cs, storybookBaseUrl), "\n")
  }

  /** Split at its newlines, a text whose lines hold no newline is the header and one line per component. */
  lemma MarkdownLines(cs: seq<ComponentEntry>, storybookBaseUrl: string)
    requires forall i :: 0 <= i < |cs| ==> '\n' !in ComponentLine(cs[i], storybookBaseUrl)
    ensures Split(Markdown(cs, storybookBaseUrl), '\n') == [Header] + ComponentLines(cs, storybookBaseUrl)
    ensures |Split(Markdown(cs, storybookBaseUrl), '\n')| == |cs| + 1
  {
    var parts := [Header] + ComponentLines(cs, storybookBaseUrl);
    HeaderOneLine();
    forall i | 0 <= i < |parts| ensures '\n' !in parts[i] {
      if i > 0 {
        assert parts[i] == ComponentLine(cs[i - 1], storybookBaseUrl);
      }
    }
    SplitJoin(parts, '\n');
  }

  lemma HeaderOneLine()
    ensures '\n' !in Header
  {
  }

  /** `buildMdxOutput` of `list-all-components`. */
  method BuildMdxOutput(components: seq<ComponentEntry>, storybookBaseUrl: string) returns (text: string)
    ensures text == Markdown(components, storybookBaseUrl)
  {
    var lines := [Header];
    for i := 0 to |components|
      invariant lines == [Header] + ComponentLines(components[..i], storybookBaseUrl)
    {
      PrefixSnoc(components, i);
      var c := components[i];
      lines := lines + [ComponentLine(c, storybookBaseUrl)];
    }
    PrefixAll(components);
    text := Join(lines, "\n");
  }

  // ---------------------------------------------------------------------------
  // The tool

  /**
   * The `list-all-components` reply: the Markdown text and the structured
   * components.  The base URL is normalised only to fetch the index, which
   * fails on a blank one; the links use it as given.
   */
  method ListAllComponents(storybookBaseUrl: string, index: StorybookIndex)
    returns (r: Result<(string, seq<ComponentEntry>), Error>)
    ensures StorybookScraper.IndexUrl(storybookBaseUrl).Failure? ==> r == Failure(EmptyBaseUrl)
    ensures StorybookScraper.IndexUrl(storybookBaseUrl).Success? ==>
      r == Success((Markdown(Kept(index.entries), storybookBaseUrl), Kept(index.entries)))
  {
    var indexUrl := StorybookScraper.IndexUrl(storybookBaseUrl);
    if indexUrl.Failure? {
      return Failure(indexUrl.error);
    }
    var components := CollectComponents(index);
    var text := BuildMdxOutput(components, storybookBaseUrl);
    r := Success((text, components));
  }
}
