/**
 * The shared catalog helpers: base-URL normalisation, the index URL,
 * docs/story classification, the group identifier (baseId) derived from a
 * title, the single-pass component aggregator and viewer URL resolution.
 */
module StorybookScraper {
  import opened Wrappers
  import opened Strings
  import opened Seqs
  import JsMap
  import opened Types

  // ---------------------------------------------------------------------------
  // Base URL

  /** Trimmed, with one `/` appended unless it already ends in `/`; blank input is an error. */
  function NormalizeBaseUrl(baseUrl: string): (r: Result<string, Error>)
    ensures r.Failure? <==> forall i :: 0 <= i < |baseUrl| ==> IsSpace(baseUrl[i])
    ensures r.Failure? ==> r.error == EmptyBaseUrl
    ensures r.Success? ==> EndsWith(r.value, "/")
    ensures r.Success? ==> r.value == Trim(baseUrl) || r.value == Trim(baseUrl) + "/"
    ensures r.Success? ==> (r.value == Trim(baseUrl) <==> EndsWith(Trim(baseUrl), "/"))
  {
    var trimmed := Trim(baseUrl);
    if trimmed == [] then Failure(EmptyBaseUrl)
    else if EndsWith(trimmed, "/") then Success(trimmed)
    else Success(trimmed + "/")
  }

  /** Normalising a normalised base URL changes nothing. */
  lemma NormalizeBaseUrlIdempotent(baseUrl: string)
    requires NormalizeBaseUrl(baseUrl).Success?
    ensures NormalizeBaseUrl(NormalizeBaseUrl(baseUrl).value) == NormalizeBaseUrl(baseUrl)
  {
    var r := NormalizeBaseUrl(baseUrl).value;
    var t := Trim(baseUrl);
    assert r[0] == t[0];
    TrimOfTrimmed(r);
  }

  /** `trimStart` never reaches a non-space character appended at the end. */
  lemma {:induction false} TrimStartAppendSlash(s: string)
    ensures TrimStart(s + "/") == TrimStart(s) + "/"
  {
    if s != [] && IsSpace(s[0]) {
      assert (s + "/")[1..] == s[1..] + "/";
      TrimStartAppendSlash(s[1..]);
    }
  }

  /**
   * A base URL and the same URL with one `/` added normalise alike (the URL
   * must not already end in `/` or in whitespace).
   */
  lemma NormalizeBaseUrlTrailingSlash(baseUrl: string)
    requires baseUrl != [] && !IsSpace(baseUrl[|baseUrl| - 1]) && !EndsWith(baseUrl, "/")
    ensures NormalizeBaseUrl(baseUrl).Success?
    ensures NormalizeBaseUrl(baseUrl + "/") == NormalizeBaseUrl(baseUrl)
  {
    TrimAppendSlash(baseUrl);
    var t := Trim(baseUrl);
    assert !EndsWith(t, "/");
    assert EndsWith(t + "/", "/");
  }

  /** Appending `/` to a string ending in a non-space character appends it to the trim. */
  lemma TrimAppendSlash(s: string)
    requires s != [] && !IsSpace(s[|s| - 1])
    ensures Trim(s + "/") == Trim(s) + "/"
    ensures Trim(s) != [] && Trim(s)[|Trim(s)| - 1] == s[|s| - 1]
  {
    TrimStartAppendSlash(s);
    TrimOfNonSpaceEnd(s);
    TrimOfNonSpaceEnd(s + "/");
  }

  /** With a non-space last character only `trimStart` has work to do, and it keeps that character. */
  lemma TrimOfNonSpaceEnd(s: string)
    requires s != [] && !IsSpace(s[|s| - 1])
    ensures Trim(s) == TrimStart(s)
    ensures TrimStart(s) != [] && TrimStart(s)[|TrimStart(s)| - 1] == s[|s| - 1]
  {
    var t := TrimStart(s);
    assert t != [] && t[|t| - 1] == s[|s| - 1] by {
      assert t == s[|s| - |t|..];
    }
    TrimEndKeeps(t);
  }

  /** A base URL that already ends in `/` is kept as it is: `//` is not collapsed. */
  lemma NormalizeBaseUrlOfSlashed(baseUrl: string)
    requires baseUrl != [] && !IsSpace(baseUrl[0]) && EndsWith(baseUrl, "/")
    ensures NormalizeBaseUrl(baseUrl) == Success(baseUrl)
  {
    assert baseUrl[|baseUrl| - 1] == '/';
    TrimOfTrimmed(baseUrl);
  }

  /** The URL of the shared `index.json`: `<normalised base>index.json`. */
  function IndexUrl(baseUrl: string): (r: Result<string, Error>)
    ensures r.Failure? <==> NormalizeBaseUrl(baseUrl).Failure?
    ensures r.Success? ==> r.value == NormalizeBaseUrl(baseUrl).value + "index.json"
  {
    match NormalizeBaseUrl(baseUrl)
    case Failure(e) => Failure(e)
    case Success(base) => Success(base + "index.json")
  }

  /** With or without one trailing `/`, a base URL fetches the same `index.json`. */
  lemma IndexUrlTrailingSlash(baseUrl: string)
    requires baseUrl != [] && !IsSpace(baseUrl[|baseUrl| - 1]) && !EndsWith(baseUrl, "/")
    ensures IndexUrl(baseUrl).Success?
    ensures IndexUrl(baseUrl + "/") == IndexUrl(baseUrl)
  {
    NormalizeBaseUrlTrailingSlash(baseUrl);
  }

  /** Both spellings of the example base URL fetch the same `index.json`. */
  lemma IndexUrlExample()
    ensures IndexUrl("https://example.com/storybook/") == Success("https://example.com/storybook/index.json")
    ensures IndexUrl("https://example.com/storybook") == Success("https://example.com/storybook/index.json")
  {
    var b := "https://example.com/storybook";
    assert b + "/" == "https://example.com/storybook/";
    NormalizeBaseUrlOfSlashed(b + "/");
    assert (b + "/") + "index.json" == "https://example.com/storybook/index.json";
    assert b[|b| - 1] == 'k';
    IndexUrlTrailingSlash(b);
  }

  // ---------------------------------------------------------------------------
  // Classification

  /** The `docs` entries, in order. */
  function DocsOf(es: seq<Entry>): (r: seq<Entry>)
    ensures forall e :: e in r <==> e in es && e.Docs?
  {
    if es == [] then []
    else
      var p := DocsOf(es[..|es| - 1]);
      assert es == es[..|es| - 1] + [es[|es| - 1]];
      if es[|es| - 1].Docs? then p + [es[|es| - 1]] else p
  }

  /** The `story` entries, in order. */
  function StoriesOf(es: seq<Entry>): (r: seq<Entry>)
    ensures forall e :: e in r <==> e in es && e.Story?
  {
    if es == [] then []
    else
      var p := StoriesOf(es[..|es| - 1]);
      assert es == es[..|es| - 1] + [es[|es| - 1]];
      if es[|es| - 1].Story? then p + [es[|es| - 1]] else p
  }

  /** `listDocs`: the `docs` entries of the index. */
  function ListDocs(index: StorybookIndex): (r: seq<Entry>)
    ensures forall k :: 0 <= k < |index.entries| ==> (index.entries[k].1 in r <==> index.entries[k].1.Docs?)
    ensures forall e :: e in r ==> e.Docs? && exists k :: 0 <= k < |index.entries| && index.entries[k].1 == e
  {
    DocsOf(Values(index.entries))
  }

  /** `listStories`: the `story` entries of the index. */
  function ListStories(index: StorybookIndex): (r: seq<Entry>)
    ensures forall k :: 0 <= k < |index.entries| ==> (index.entries[k].1 in r <==> index.entries[k].1.Story?)
    ensures forall e :: e in r ==> e.Story? && exists k :: 0 <= k < |index.entries| && index.entries[k].1 == e
  {
    StoriesOf(Values(index.entries))
  }

  /** The docs filter keeps index order: it distributes over concatenation. */
  lemma {:induction false} DocsOfAppend(a: seq<Entry>, b: seq<Entry>)
    ensures DocsOf(a + b) == DocsOf(a) + DocsOf(b)
  {
    if b == [] {
      assert a + b == a;
    } else {
      var b' := b[..|b| - 1];
      assert (a + b)[..|a + b| - 1] == a + b';
      DocsOfAppend(a, b');
    }
  }

  /** The stories filter keeps index order: it distributes over concatenation. */
  lemma {:induction false} StoriesOfAppend(a: seq<Entry>, b: seq<Entry>)
    ensures StoriesOf(a + b) == StoriesOf(a) + StoriesOf(b)
  {
    if b == [] {
      assert a + b == a;
    } else {
      var b' := b[..|b| - 1];
      assert (a + b)[..|a + b| - 1] == a + b';
      StoriesOfAppend(a, b');
    }
  }

  /** Every entry is a doc or a story and not both: the two lists partition the index. */
  lemma {:induction false} ClassifyPartition(es: seq<Entry>)
    ensures multiset(DocsOf(es)) + multiset(StoriesOf(es)) == multiset(es)
    ensures |DocsOf(es)| + |StoriesOf(es)| == |es|
  {
    if es != [] {
      var p, x := es[..|es| - 1], es[|es| - 1];
      ClassifyPartition(p);
      assert es == p + [x];
      if x.Docs? {
        assert DocsOf(es) == DocsOf(p) + [x] && StoriesOf(es) == StoriesOf(p);
      } else {
        assert DocsOf(es) == DocsOf(p) && StoriesOf(es) == StoriesOf(p) + [x];
      }
    }
  }

  // ---------------------------------------------------------------------------
  // Group identifier

  /** The characters a baseId is made of: no whitespace, `/`, `_` or upper case. */
  predicate IsBaseIdChar(c: char) {
    !IsSpace(c) && c != '/' && c != '_' && !IsUpper(c)
  }

  predicate IsBaseIdLike(s: string) {
    forall i :: 0 <= i < |s| ==> IsBaseIdChar(s[i])
  }

  /** Trim, whitespace runs to `-`, each `_` to `-`, lower case; camel case is not split. */
  function NormalizeSegment(segment: string): (r: string)
    ensures forall i :: 0 <= i < |r| ==> !IsSpace(r[i]) && r[i] != '_' && !IsUpper(r[i])
    ensures '/' !in segment ==> IsBaseIdLike(r)
  {
    var trimmed := Trim(segment);
    var dashed := CollapseSpaces(trimmed);
    var replaced := ReplaceChar(dashed, '_', '-');
    var r := Lower(replaced);
    if '/' !in segment then
      TrimAbsent(segment, '/');
      CollapseSpacesIntroducesOnlyDash(trimmed, '/');
      LowerReplacedChars(dashed);
      r
    else
      LowerReplacedChars(dashed);
      r
  }

  /** Over a whitespace-free string, `_` to `-` then lower case leaves no whitespace, `_` or upper case, and adds no `/`. */
  lemma LowerReplacedChars(dashed: string)
    requires NoSpace(dashed)
    ensures var r := Lower(ReplaceChar(dashed, '_', '-'));
      forall i :: 0 <= i < |r| ==> !IsSpace(r[i]) && r[i] != '_' && !IsUpper(r[i])
    ensures '/' !in dashed ==> IsBaseIdLike(Lower(ReplaceChar(dashed, '_', '-')))
  {
    var replaced := ReplaceChar(dashed, '_', '-');
    var r := Lower(replaced);
    forall i | 0 <= i < |r| ensures !IsSpace(r[i]) && r[i] != '_' && !IsUpper(r[i]) && ('/' !in dashed ==> r[i] != '/') {
      assert dashed[i] in dashed;
      assert replaced[i] != '_';
    }
  }

  /** The segment normalisation leaves a baseId-like string as it is. */
  lemma NormalizeSegmentOfBaseIdLike(s: string)
    requires IsBaseIdLike(s)
    ensures NormalizeSegment(s) == s
  {
    assert NoSpace(s);
    TrimNoSpace(s);
    CollapseSpacesOfNoSpace(s);
    assert ReplaceChar(s, '_', '-') == s;
    assert Lower(s) == s;
  }

  /** A segment without whitespace or `_` is only lower-cased. */
  lemma NormalizeSegmentOfPlain(s: string)
    requires NoSpace(s) && '_' !in s
    ensures NormalizeSegment(s) == Lower(s)
  {
    TrimNoSpace(s);
    CollapseSpacesOfNoSpace(s);
    assert ReplaceChar(s, '_', '-') == s;
  }

  /** The segments, each normalised, joined by `-`. */
  function NormalizeAndJoin(segments: seq<string>): string
  {
    if |segments| == 0 then []
    else if |segments| == 1 then NormalizeSegment(segments[0])
    else NormalizeSegment(segments[0]) + "-" + NormalizeAndJoin(segments[1..])
  }

  lemma {:induction false} NormalizeAndJoinBaseIdLike(segments: seq<string>)
    requires forall i :: 0 <= i < |segments| ==> '/' !in segments[i]
    ensures IsBaseIdLike(NormalizeAndJoin(segments))
  {
    if |segments| > 1 {
      var rest := segments[1..];
      assert forall i :: 0 <= i < |rest| ==> rest[i] == segments[i + 1];
      NormalizeAndJoinBaseIdLike(rest);
      assert '/' !in segments[0];
      BaseIdLikeJoin(NormalizeSegment(segments[0]), NormalizeAndJoin(rest));
    }
  }

  lemma BaseIdLikeJoin(a: string, b: string)
    requires IsBaseIdLike(a) && IsBaseIdLike(b)
    ensures IsBaseIdLike(a + "-" + b)
  {
    var s := a + "-" + b;
    forall i | 0 <= i < |s| ensures IsBaseIdChar(s[i]) {
      if i < |a| {
        assert s[i] == a[i];
      } else if i > |a| {
        assert s[i] == b[i - |a| - 1];
      }
    }
  }

  /** `componentBaseIdFromTitle`: the `/`-segments of the title, normalised and joined by `-`. */
  function ComponentBaseIdFromTitle(title: string): (b: string)
    ensures IsBaseIdLike(b)
  {
    NormalizeAndJoinBaseIdLike(Split(title, '/'));
    NormalizeAndJoin(Split(title, '/'))
  }

  /** A title made of `/`-separated segments gives their normalisations joined by `-`. */
  lemma BaseIdOfSegments(segments: seq<string>)
    requires |segments| >= 1
    requires forall i :: 0 <= i < |segments| ==> '/' !in segments[i]
    ensures ComponentBaseIdFromTitle(Join(segments, "/")) == NormalizeAndJoin(segments)
  {
    SplitJoin(segments, '/');
  }

  /** Re-deriving a baseId from a baseId returns it unchanged. */
  lemma BaseIdIdempotent(title: string)
    ensures ComponentBaseIdFromTitle(ComponentBaseIdFromTitle(title)) == ComponentBaseIdFromTitle(title)
  {
    var b := ComponentBaseIdFromTitle(title);
    assert '/' !in b;
    SplitNoSep(b, '/');
    NormalizeSegmentOfBaseIdLike(b);
  }

  /** Segments without whitespace or `_` are lower-cased and joined by `-`; camel case is not split. */
  lemma {:induction false} NormalizeAndJoinOfPlain(segments: seq<string>)
    requires forall i :: 0 <= i < |segments| ==> NoSpace(segments[i]) && '_' !in segments[i]
    ensures NormalizeAndJoin(segments) == Lower(Join(segments, "-"))
  {
    if |segments| == 1 {
      NormalizeSegmentOfPlain(segments[0]);
    } else if |segments| > 1 {
      var rest := segments[1..];
      assert forall i :: 0 <= i < |rest| ==> rest[i] == segments[i + 1];
      NormalizeSegmentOfPlain(segments[0]);
      NormalizeAndJoinOfPlain(rest);
      LowerAppend(segments[0] + "-", Join(rest, "-"));
      LowerAppend(segments[0], "-");
      assert Lower("-") == "-";
    }
  }

  /**
   * A title of plain segments gets the lower-cased `-`-join of its segments,
   * so `UI-Library/Code/CodeBlockWithTabs` has baseId
   * `ui-library-code-codeblockwithtabs`.
   */
  lemma BaseIdOfPlainTitle(segments: seq<string>)
    requires |segments| >= 1
    requires forall i :: 0 <= i < |segments| ==> '/' !in segments[i] && NoSpace(segments[i]) && '_' !in segments[i]
    ensures ComponentBaseIdFromTitle(Join(segments, "/")) == Lower(Join(segments, "-"))
  {
    BaseIdOfSegments(segments);
    NormalizeAndJoinOfPlain(segments);
  }

  /** A run of whitespace inside a segment becomes one `-`, so `Design Tokens` gives `design-tokens`. */
  lemma NormalizeSegmentOfSpaceRun(a: string, w: string, b: string)
    requires a != [] && b != [] && NoSpace(a) && NoSpace(b) && '_' !in a && '_' !in b
    requires |w| > 0 && forall i :: 0 <= i < |w| ==> IsSpace(w[i])
    ensures NormalizeSegment(a + w + b) == Lower(a + "-" + b)
  {
    var s := a + w + b;
    TrimOfTrimmed(s);
    CollapseSpacesRun(a, w, b);
    assert ReplaceChar(a + "-" + b, '_', '-') == a + "-" + b;
  }

  /** Each `_` becomes its own `-`: underscores are never merged. */
  lemma NormalizeSegmentUnderscores(s: string)
    requires NoSpace(s)
    ensures NormalizeSegment(s) == Lower(ReplaceChar(s, '_', '-'))
    ensures |NormalizeSegment(s)| == |s|
  {
    TrimNoSpace(s);
    CollapseSpacesOfNoSpace(s);
  }

  // ---------------------------------------------------------------------------
  // Component index: the specification

  /** Every entry paired with its baseId, in index order. */
  function Keyed(es: seq<Entry>): (ks: seq<(string, Entry)>)
    ensures |ks| == |es|
  {
    if es == [] then []
    else Keyed(es[..|es| - 1]) + [(ComponentBaseIdFromTitle(es[|es| - 1].title), es[|es| - 1])]
  }

  lemma KeyedSnoc(es: seq<Entry>, e: Entry)
    ensures Keyed(es + [e]) == Keyed(es) + [(ComponentBaseIdFromTitle(e.title), e)]
  {
    assert (es + [e])[..|es|] == es;
  }

  /** Each entry is keyed by the baseId of its own title. */
  lemma {:induction false} KeyedAt(es: seq<Entry>, i: nat)
    requires i < |es|
    ensures i < |Keyed(es)| && Keyed(es)[i] == (ComponentBaseIdFromTitle(es[i].title), es[i])
  {
    if i < |es| - 1 {
      KeyedAt(es[..|es| - 1], i);
    }
  }

  /** The entries keyed `b`, in index order. */
  function Group(ks: seq<(string, Entry)>, b: string): (g: seq<Entry>)
    ensures |g| > 0 <==> b in JsMap.Keys(ks)
  {
    if ks == [] then []
    else
      var p := Group(ks[..|ks| - 1], b);
      var k := ks[|ks| - 1];
      assert ks == ks[..|ks| - 1] + [k];
      JsMap.KeysSnoc(ks[..|ks| - 1], k);
      if k.0 == b then p + [k.1] else p
  }

  /** The import path of every entry, in order. */
  function ImportPathsOf(g: seq<Entry>): (r: seq<string>)
    ensures |r| == |g|
    ensures forall i :: 0 <= i < |g| ==> r[i] == g[i].importPath
  {
    if g == [] then [] else ImportPathsOf(g[..|g| - 1]) + [g[|g| - 1].importPath]
  }

  /** The ids of the `story` entries, in order. */
  function StoryIdsOf(g: seq<Entry>): seq<string>
  {
    if g == [] then []
    else
      var p := StoryIdsOf(g[..|g| - 1]);
      var e := g[|g| - 1];
      if e.Story? then p + [e.id] else p
  }

  predicate AnyDocs(g: seq<Entry>) {
    exists e :: e in g && e.Docs?
  }

  /** The record of group `b`: what the loop in `buildComponentIndex` holds for `b` at the end. */
  function GroupRecord(ks: seq<(string, Entry)>, b: string): (r: ComponentIndexEntry)
    requires b in JsMap.Keys(ks)
    ensures r.baseId == b
  {
    var g := Group(ks, b);
    ComponentIndexEntry(b, g[|g| - 1].title, Dedup(ImportPathsOf(g)), AnyDocs(g), Dedup(StoryIdsOf(g)))
  }

  // ---------------------------------------------------------------------------
  // Component index: the loop

  lemma GroupSnoc(s: seq<(string, Entry)>, k: (string, Entry), b: string)
    ensures Group(s + [k], b) == if k.0 == b then Group(s, b) + [k.1] else Group(s, b)
  {
    assert (s + [k])[..|s|] == s;
  }

  /** The group of `b` holds exactly the entries keyed `b`. */
  lemma {:induction false} GroupMembers(ks: seq<(string, Entry)>, b: string)
    ensures forall e :: e in Group(ks, b) <==> (b, e) in ks
  {
    if ks != [] {
      var s, k := ks[..|ks| - 1], ks[|ks| - 1];
      assert ks == s + [k];
      GroupMembers(s, b);
      GroupSnoc(s, k, b);
    }
  }

  /** The story ids of a group are the ids of its `story` entries. */
  lemma {:induction false} StoryIdsOfMembers(g: seq<Entry>)
    ensures forall x :: x in StoryIdsOf(g) <==> exists e :: e in g && e.Story? && e.id == x
  {
    if g != [] {
      var p, e := g[..|g| - 1], g[|g| - 1];
      assert g == p + [e];
      StoryIdsOfMembers(p);
    }
  }

  lemma ImportPathsOfSnoc(g: seq<Entry>, e: Entry)
    ensures ImportPathsOf(g + [e]) == ImportPathsOf(g) + [e.importPath]
  {
    assert (g + [e])[..|g|] == g;
  }

  lemma StoryIdsOfSnoc(g: seq<Entry>, e: Entry)
    ensures StoryIdsOf(g + [e]) == StoryIdsOf(g) + (if e.Story? then [e.id] else [])
  {
    assert (g + [e])[..|g|] == g;
  }

  lemma AnyDocsSnoc(g: seq<Entry>, e: Entry)
    ensures AnyDocs(g + [e]) <==> AnyDocs(g) || e.Docs?
  {
    var g' := g + [e];
    if e.Docs? { assert e in g'; }
    if AnyDocs(g) {
      var d :| d in g && d.Docs?;
      assert d in g';
    }
  }

  /** Merging an entry of another group leaves the record of group `b` as it was. */
  lemma GroupRecordOther(s: seq<(string, Entry)>, k: (string, Entry), b: string)
    requires b in JsMap.Keys(s + [k]) && k.0 != b
    ensures b in JsMap.Keys(s) && GroupRecord(s + [k], b) == GroupRecord(s, b)
  {
    JsMap.KeysSnoc(s, k);
    GroupSnoc(s, k, b);
  }

  /** The record that merging entry `e` into the record `prev` of its group yields. */
  function MergeEntry(prev: Option<ComponentIndexEntry>, b: string, e: Entry): (r: ComponentIndexEntry)
    ensures r.baseId == b && r.title == e.title
    ensures NoDup(r.importPaths)
    ensures forall p :: p in r.importPaths <==> p == e.importPath || (prev.Some? && p in prev.value.importPaths)
    ensures NoDup(r.stories)
    ensures forall x :: x in r.stories <==> (e.Story? && x == e.id) || (prev.Some? && x in prev.value.stories)
    ensures r.hasDocs <==> e.Docs? || (prev.Some? && prev.value.hasDocs)
  {
    var paths := if prev.Some? then prev.value.importPaths else [];
    var stories := if prev.Some? then prev.value.stories else [];
    var added := if e.Story? then [e.id] else [];
    assert forall x :: x in stories + added <==> x in stories || x in added;
    ComponentIndexEntry(b, e.title, Dedup(paths + [e.importPath]),
      (prev.Some? && prev.value.hasDocs) || e.Docs?,
      Dedup(stories + added))
  }

  /** The first entry of a group makes its record. */
  lemma GroupRecordFirst(s: seq<(string, Entry)>, k: (string, Entry))
    requires k.0 !in JsMap.Keys(s)
    ensures k.0 in JsMap.Keys(s + [k])
    ensures GroupRecord(s + [k], k.0) == MergeEntry(None, k.0, k.1)
    ensures GroupRecord(s + [k], k.0) == ComponentIndexEntry(
      k.0, k.1.title, [k.1.importPath], k.1.Docs?, if k.1.Story? then [k.1.id] else [])
  {
    JsMap.KeysSnoc(s, k);
    GroupSnoc(s, k, k.0);
    var e := k.1;
    assert Group(s, k.0) == [];
    assert Group(s + [k], k.0) == [e];
    ImportPathsOfSnoc([], e);
    StoryIdsOfSnoc([], e);
    AnyDocsSnoc([], e);
    assert [] + [e.importPath] == [e.importPath];
    assert [] + (if e.Story? then [e.id] else []) == (if e.Story? then [e.id] else []);
  }

  /** A later entry of a group adds its path and story id to the sets and replaces the title. */
  lemma GroupRecordMerge(s: seq<(string, Entry)>, k: (string, Entry))
    requires k.0 in JsMap.Keys(s)
    ensures k.0 in JsMap.Keys(s + [k])
    ensures GroupRecord(s + [k], k.0) == MergeEntry(Some(GroupRecord(s, k.0)), k.0, k.1)
  {
    JsMap.KeysSnoc(s, k);
    GroupSnoc(s, k, k.0);
    var g, e := Group(s, k.0), k.1;
    ImportPathsOfSnoc(g, e);
    StoryIdsOfSnoc(g, e);
    AnyDocsSnoc(g, e);
    DedupAppendOne(ImportPathsOf(g), e.importPath);
    if e.Story? {
      DedupAppendOne(StoryIdsOf(g), e.id);
    } else {
      DedupOfNoDup(Dedup(StoryIdsOf(g)));
      assert Dedup(StoryIdsOf(g)) + [] == Dedup(StoryIdsOf(g));
      assert StoryIdsOf(g) + [] == StoryIdsOf(g);
    }
  }

  /** The keys and records the loop's map holds after merging the entries `es`. */
  function IndexState(es: seq<Entry>): (st: (seq<string>, map<string, ComponentIndexEntry>))
  {
    if es == [] then ([], map[])
    else
      var (keys, recs) := IndexState(es[..|es| - 1]);
      var e := es[|es| - 1];
      var b := ComponentBaseIdFromTitle(e.title);
      var prev := if b in recs then Some(recs[b]) else None;
      (if b in keys then keys else keys + [b], recs[b := MergeEntry(prev, b, e)])
  }

  /** The map's keys are the distinct baseIds in order of first appearance, and exactly those have a record. */
  lemma {:induction false} IndexStateKeys(es: seq<Entry>)
    ensures IndexState(es).0 == Dedup(JsMap.Keys(Keyed(es)))
    ensures forall b :: b in IndexState(es).1 <==> b in JsMap.Keys(Keyed(es))
  {
    if es != [] {
      var t, e := es[..|es| - 1], es[|es| - 1];
      IndexStateKeys(t);
      var s := Keyed(t);
      var k := (ComponentBaseIdFromTitle(e.title), e);
      assert Keyed(es) == s + [k];
      JsMap.KeysSnoc(s, k);
      DedupSnoc(JsMap.Keys(s), k.0);
    }
  }

  /** The record the map holds for a baseId is that of the baseId's group. */
  lemma {:induction false} IndexStateRecord(es: seq<Entry>, b: string)
    requires b in IndexState(es).1
    ensures b in JsMap.Keys(Keyed(es))
    ensures IndexState(es).1[b] == GroupRecord(Keyed(es), b)
  {
    IndexStateKeys(es);
    var t, e := es[..|es| - 1], es[|es| - 1];
    IndexStateKeys(t);
    var s := Keyed(t);
    var k := (ComponentBaseIdFromTitle(e.title), e);
    assert Keyed(es) == s + [k];
    var recs := IndexState(t).1;
    if k.0 != b {
      IndexStateRecord(t, b);
      GroupRecordOther(s, k, b);
    } else if b in recs {
      IndexStateRecord(t, b);
      GroupRecordMerge(s, k);
    } else {
      GroupRecordFirst(s, k);
    }
  }

  /** The records the loop leaves in its map, listed in key order. */
  function IndexRecords(es: seq<Entry>): seq<ComponentIndexEntry>
  {
    JsMap.ListValues(IndexState(es).0, IndexState(es).1)
  }

  /**
   * The component index holds one record per distinct baseId, in order of
   * each baseId's first appearance, and that record is the baseId's group record.
   */
  lemma {:induction false} IndexRecordsAreGroupRecords(es: seq<Entry>)
    ensures |IndexRecords(es)| == |Dedup(JsMap.Keys(Keyed(es)))|
    ensures forall i :: 0 <= i < |IndexRecords(es)| ==>
      Dedup(JsMap.Keys(Keyed(es)))[i] in JsMap.Keys(Keyed(es)) &&
      IndexRecords(es)[i] == GroupRecord(Keyed(es), Dedup(JsMap.Keys(Keyed(es)))[i])
  {
    IndexStateKeys(es);
    var (keys, recs) := IndexState(es);
    JsMap.ListValuesAt(keys, recs);
    forall i | 0 <= i < |keys|
      ensures keys[i] in JsMap.Keys(Keyed(es)) && recs[keys[i]] == GroupRecord(Keyed(es), keys[i])
    {
      IndexStateRecord(es, keys[i]);
    }
  }

  /** Each record of the component index is the group record of its own baseId. */
  lemma IndexRecordOf(es: seq<Entry>, i: nat)
    requires i < |IndexRecords(es)|
    ensures IndexRecords(es)[i].baseId in JsMap.Keys(Keyed(es))
    ensures IndexRecords(es)[i] == GroupRecord(Keyed(es), IndexRecords(es)[i].baseId)
  {
    IndexRecordsAreGroupRecords(es);
    IndexRecordsBaseIds(es);
  }

  /** The component index lists the distinct baseIds, in order of first appearance. */
  lemma IndexRecordsBaseIds(es: seq<Entry>)
    ensures |IndexRecords(es)| == |Dedup(JsMap.Keys(Keyed(es)))|
    ensures forall i :: 0 <= i < |IndexRecords(es)| ==> IndexRecords(es)[i].baseId == Dedup(JsMap.Keys(Keyed(es)))[i]
  {
    IndexStateKeys(es);
    var (keys, recs) := IndexState(es);
    JsMap.ListValuesAt(keys, recs);
    forall i | 0 <= i < |keys|
      ensures recs[keys[i]].baseId == keys[i]
    {
      IndexStateRecord(es, keys[i]);
    }
  }

  /** `buildComponentIndex`: one pass over the entries, merging each into its group's record. */
  method BuildComponentIndex(index: StorybookIndex) returns (r: seq<ComponentIndexEntry>)
    ensures r == IndexRecords(Values(index.entries))
  {
    var es := Values(index.entries);
    var m := new JsMap.OrderedMap<string, ComponentIndexEntry>();
    for i := 0 to |es|
      invariant m.Valid()
      invariant (m.keys, m.values) == IndexState(es[..i])
    {
      var entry := es[i];
      var baseId := ComponentBaseIdFromTitle(entry.title);
      var existing := m.Get(baseId);
      IndexStateStep(es, i, baseId);
      m.Set(baseId, MergeEntry(existing, baseId, entry));
    }
    PrefixAll(es);
    r := m.Values();
  }

  /** One more entry is one more `set` on the map state. */
  lemma IndexStateStep(es: seq<Entry>, i: nat, b: string)
    requires i < |es| && b == ComponentBaseIdFromTitle(es[i].title)
    ensures var (keys, recs) := IndexState(es[..i]);
      IndexState(es[..i + 1])
      == (if b in keys then keys else keys + [b],
          recs[b := MergeEntry(if b in recs then Some(recs[b]) else None, b, es[i])])
  {
    var p := es[..i + 1];
    assert p[..|p| - 1] == es[..i] && p[|p| - 1] == es[i];
  }

  // ---------------------------------------------------------------------------
  // Component index: its properties

  /** No two records of the component index share a baseId. */
  lemma ComponentIndexDistinct(es: seq<Entry>)
    ensures forall i, j :: 0 <= i < j < |IndexRecords(es)| ==> IndexRecords(es)[i].baseId != IndexRecords(es)[j].baseId
  {
    IndexRecordsBaseIds(es);
    ListedKeysDistinct(IndexRecords(es), JsMap.Keys(Keyed(es)));
  }

  /** Every entry's baseId has a record. */
  lemma ComponentIndexCoversEntries(es: seq<Entry>)
    ensures forall k :: 0 <= k < |es| ==>
      exists i :: 0 <= i < |IndexRecords(es)| && IndexRecords(es)[i].baseId == JsMap.Keys(Keyed(es))[k]
  {
    IndexRecordsBaseIds(es);
    ListedKeysCoverKeys(IndexRecords(es), JsMap.Keys(Keyed(es)), |es|);
  }

  /** Every record's baseId is some entry's. */
  lemma ComponentIndexOnlyEntries(es: seq<Entry>)
    ensures forall i :: 0 <= i < |IndexRecords(es)| ==>
      exists k :: 0 <= k < |es| && JsMap.Keys(Keyed(es))[k] == IndexRecords(es)[i].baseId
  {
    IndexRecordsBaseIds(es);
    ListedKeysOnlyKeys(IndexRecords(es), JsMap.Keys(Keyed(es)), |es|);
  }

  /** The records follow the first appearance of their baseIds among the entries. */
  lemma ComponentIndexOrder(es: seq<Entry>)
    ensures forall i, j :: 0 <= i < j < |IndexRecords(es)| ==>
      IndexRecords(es)[i].baseId in JsMap.Keys(Keyed(es)) && IndexRecords(es)[j].baseId in JsMap.Keys(Keyed(es)) &&
      FirstIndex(JsMap.Keys(Keyed(es)), IndexRecords(es)[i].baseId) < FirstIndex(JsMap.Keys(Keyed(es)), IndexRecords(es)[j].baseId)
  {
    IndexRecordsBaseIds(es);
    ListedKeysOrder(IndexRecords(es), JsMap.Keys(Keyed(es)));
  }

  /** Records listed along the deduplicated keys carry distinct keys. */
  lemma ListedKeysDistinct(rs: seq<ComponentIndexEntry>, keys: seq<string>)
    requires |rs| == |Dedup(keys)|
    requires forall i :: 0 <= i < |rs| ==> rs[i].baseId == Dedup(keys)[i]
    ensures forall i, j :: 0 <= i < j < |rs| ==> rs[i].baseId != rs[j].baseId
  {
  }

  /** Every key has a record listed along the deduplicated keys. */
  lemma ListedKeysCoverKeys(rs: seq<ComponentIndexEntry>, keys: seq<string>, n: nat)
    requires |rs| == |Dedup(keys)| && |keys| == n
    requires forall i :: 0 <= i < |rs| ==> rs[i].baseId == Dedup(keys)[i]
    ensures forall k :: 0 <= k < n ==> exists i :: 0 <= i < |rs| && rs[i].baseId == keys[k]
  {
    var d := Dedup(keys);
    forall k | 0 <= k < n
      ensures exists i :: 0 <= i < |rs| && rs[i].baseId == keys[k]
    {
      assert keys[k] in d;
      var i :| 0 <= i < |d| && d[i] == keys[k];
      assert rs[i].baseId == keys[k];
    }
  }

  /** Every record listed along the deduplicated keys carries a key. */
  lemma ListedKeysOnlyKeys(rs: seq<ComponentIndexEntry>, keys: seq<string>, n: nat)
    requires |rs| == |Dedup(keys)| && |keys| == n
    requires forall i :: 0 <= i < |rs| ==> rs[i].baseId == Dedup(keys)[i]
    ensures forall i :: 0 <= i < |rs| ==> exists k :: 0 <= k < n && keys[k] == rs[i].baseId
  {
    var d := Dedup(keys);
    forall i | 0 <= i < |rs|
      ensures exists k :: 0 <= k < n && keys[k] == rs[i].baseId
    {
      assert d[i] in keys;
      var k :| 0 <= k < |keys| && keys[k] == d[i];
      assert keys[k] == rs[i].baseId;
    }
  }

  /** Records listed along the deduplicated keys follow the keys' first occurrences. */
  lemma ListedKeysOrder(rs: seq<ComponentIndexEntry>, keys: seq<string>)
    requires |rs| == |Dedup(keys)|
    requires forall i :: 0 <= i < |rs| ==> rs[i].baseId == Dedup(keys)[i]
    ensures forall i, j :: 0 <= i < j < |rs| ==>
      rs[i].baseId in keys && rs[j].baseId in keys &&
      FirstIndex(keys, rs[i].baseId) < FirstIndex(keys, rs[j].baseId)
  {
    var d := Dedup(keys);
    forall i, j | 0 <= i < j < |rs|
      ensures rs[i].baseId in keys && rs[j].baseId in keys
      ensures FirstIndex(keys, rs[i].baseId) < FirstIndex(keys, rs[j].baseId)
    {
      assert d[i] in d && d[j] in d;
      DedupFirstSeenOrder(keys, i, j);
    }
  }

  /** The `k`-th baseId is that of the `k`-th entry's title. */
  lemma BaseIdOfEntry(es: seq<Entry>, k: nat)
    requires k < |es|
    ensures JsMap.Keys(Keyed(es))[k] == ComponentBaseIdFromTitle(es[k].title)
  {
    KeyedAt(es, k);
  }

  /** The last entry of the group is the last entry keyed `b`. */
  lemma {:induction false} GroupLast(ks: seq<(string, Entry)>, b: string)
    requires b in JsMap.Keys(ks)
    ensures Group(ks, b)[|Group(ks, b)| - 1] == JsMap.LastValue(ks, b)
  {
    var p, e := ks[..|ks| - 1], ks[|ks| - 1];
    assert ks == p + [e];
    GroupSnoc(p, e, b);
    JsMap.LastValueSnoc(p, e, b);
    if e.0 != b {
      GroupLast(p, b);
    }
  }

  /** The import paths of a group are those of the entries filed under its baseId. */
  lemma ImportPathsOfMembers(ks: seq<(string, Entry)>, b: string)
    ensures forall p :: p in ImportPathsOf(Group(ks, b)) <==> exists e :: (b, e) in ks && e.importPath == p
  {
    var g := Group(ks, b);
    GroupMembers(ks, b);
    var paths := ImportPathsOf(g);
    forall p ensures p in paths <==> exists e :: (b, e) in ks && e.importPath == p {
      if p in paths {
        var i :| 0 <= i < |paths| && paths[i] == p;
        assert g[i] in g;
      }
      if exists e :: (b, e) in ks && e.importPath == p {
        var e :| (b, e) in ks && e.importPath == p;
        var i :| 0 <= i < |g| && g[i] == e;
        assert paths[i] == p;
      }
    }
  }

  /**
   * What a group's record holds: its import paths and story ids without
   * duplicates and exactly those of the group's entries, `hasDocs` exactly
   * when some entry of the group is `docs`-typed (the import path is not
   * consulted), and the title of the group's last entry.
   */
  lemma GroupRecordContents(ks: seq<(string, Entry)>, b: string)
    requires b in JsMap.Keys(ks)
    ensures GroupRecord(ks, b).baseId == b
    ensures NoDup(GroupRecord(ks, b).importPaths)
    ensures forall p :: p in GroupRecord(ks, b).importPaths <==> exists e :: (b, e) in ks && e.importPath == p
    ensures NoDup(GroupRecord(ks, b).stories)
    ensures forall x :: x in GroupRecord(ks, b).stories <==> exists e :: (b, e) in ks && e.Story? && e.id == x
    ensures GroupRecord(ks, b).hasDocs <==> exists e :: (b, e) in ks && e.Docs?
    ensures GroupRecord(ks, b).title == JsMap.LastValue(ks, b).title
  {
    GroupRecordPaths(ks, b);
    GroupRecordStories(ks, b);
    GroupRecordDocsAndTitle(ks, b);
  }

  lemma GroupRecordPaths(ks: seq<(string, Entry)>, b: string)
    requires b in JsMap.Keys(ks)
    ensures NoDup(GroupRecord(ks, b).importPaths)
    ensures forall p :: p in GroupRecord(ks, b).importPaths <==> exists e :: (b, e) in ks && e.importPath == p
  {
    ImportPathsOfMembers(ks, b);
  }

  lemma GroupRecordStories(ks: seq<(string, Entry)>, b: string)
    requires b in JsMap.Keys(ks)
    ensures NoDup(GroupRecord(ks, b).stories)
    ensures forall x :: x in GroupRecord(ks, b).stories <==> exists e :: (b, e) in ks && e.Story? && e.id == x
  {
    GroupMembers(ks, b);
    StoryIdsOfMembers(Group(ks, b));
  }

  lemma GroupRecordDocsAndTitle(ks: seq<(string, Entry)>, b: string)
    requires b in JsMap.Keys(ks)
    ensures GroupRecord(ks, b).hasDocs <==> exists e :: (b, e) in ks && e.Docs?
    ensures GroupRecord(ks, b).title == JsMap.LastValue(ks, b).title
  {
    GroupMembers(ks, b);
    GroupLast(ks, b);
  }

  /** The group's first import path is that of the group's first entry; likewise its first story. */
  lemma GroupRecordFirsts(ks: seq<(string, Entry)>, b: string)
    requires b in JsMap.Keys(ks)
    ensures |GroupRecord(ks, b).importPaths| > 0 && GroupRecord(ks, b).importPaths[0] == Group(ks, b)[0].importPath
    ensures |StoryIdsOf(Group(ks, b))| > 0 ==>
      |GroupRecord(ks, b).stories| > 0 && GroupRecord(ks, b).stories[0] == StoryIdsOf(Group(ks, b))[0]
  {
    var g := Group(ks, b);
    DedupHead(ImportPathsOf(g));
    if |StoryIdsOf(g)| > 0 {
      DedupHead(StoryIdsOf(g));
    }
  }

  /** Every entry's import path is listed in the record of its own baseId. */
  lemma EntryInComponentIndex(es: seq<Entry>, k: nat)
    requires k < |es|
    ensures exists i :: (0 <= i < |IndexRecords(es)| &&
      IndexRecords(es)[i].baseId == ComponentBaseIdFromTitle(es[k].title) &&
      es[k].importPath in IndexRecords(es)[i].importPaths)
  {
    var ks := Keyed(es);
    var b := ComponentBaseIdFromTitle(es[k].title);
    KeyedAt(es, k);
    var keys := JsMap.Keys(ks);
    var d := Dedup(keys);
    assert keys[k] == b;
    assert b in d;
    var i :| 0 <= i < |d| && d[i] == b;
    IndexRecordsAreGroupRecords(es);
    GroupRecordContents(ks, b);
    assert (b, es[k]) in ks;
    assert IndexRecords(es)[i] == GroupRecord(ks, b);
  }

  // ---------------------------------------------------------------------------
  // Viewer URLs and lookup

  /** `resolvePublicUrlForEntry`: `?path=/docs/<id>` for docs entries, `?path=/story/<id>` otherwise. */
  function ResolvePublicUrlForEntry(entry: Entry, storybookBaseUrl: string): (r: Result<string, Error>)
    ensures r.Failure? <==> NormalizeBaseUrl(storybookBaseUrl).Failure?
    ensures r.Failure? ==> r.error == EmptyBaseUrl
    ensures r.Success? ==> EndsWith(r.value, entry.id)
    ensures r.Success? ==> (r.value == NormalizeBaseUrl(storybookBaseUrl).value
      + (if entry.Docs? then "?path=/docs/" else "?path=/story/") + entry.id)
  {
    match NormalizeBaseUrl(storybookBaseUrl)
    case Failure(e) => Failure(e)
    case Success(base) =>
      var url := base + ViewerPath(entry) + entry.id;
      assert url[|url| - |entry.id|..] == entry.id;
      Success(url)
  }

  /** `?path=/${prefix}/` with `prefix` `docs` for a docs entry and `story` otherwise. */
  function ViewerPath(entry: Entry): (p: string)
    ensures p == if entry.Docs? then "?path=/docs/" else "?path=/story/"
  {
    var prefix := if entry.Docs? then "docs" else "story";
    "?path=/" + prefix + "/"
  }

  /** A base URL with or without one trailing `/` resolves to the same URL. */
  lemma ResolvePublicUrlTrailingSlash(entry: Entry, baseUrl: string)
    requires baseUrl != [] && !IsSpace(baseUrl[|baseUrl| - 1]) && !EndsWith(baseUrl, "/")
    ensures ResolvePublicUrlForEntry(entry, baseUrl + "/") == ResolvePublicUrlForEntry(entry, baseUrl)
    ensures ResolvePublicUrlForEntry(entry, baseUrl).Success?
  {
    NormalizeBaseUrlTrailingSlash(baseUrl);
  }

  /** Over a normalised base, docs entries open `?path=/docs/<id>` and stories `?path=/story/<id>`. */
  lemma ResolvePublicUrlOfSlashed(entry: Entry, base: string)
    requires base != [] && !IsSpace(base[0]) && EndsWith(base, "/")
    ensures ResolvePublicUrlForEntry(entry, base)
      == Success(base + (if entry.Docs? then "?path=/docs/" else "?path=/story/") + entry.id)
  {
    NormalizeBaseUrlOfSlashed(base);
  }

  /** The entry stored under key `id`, if any. */
  function Lookup(entries: seq<(string, Entry)>, id: string): (r: Option<Entry>)
    ensures r.Some? <==> exists i :: 0 <= i < |entries| && entries[i].0 == id
    ensures r.Some? ==> exists i :: 0 <= i < |entries| && entries[i] == (id, r.value)
  {
    if entries == [] then None
    else if entries[0].0 == id then Some(entries[0].1)
    else
      var r := Lookup(entries[1..], id);
      assert forall i :: 0 <= i < |entries| - 1 ==> entries[1..][i] == entries[i + 1];
      r
  }

  /** `getEntryById`: `index.entries[id]`. */
  function GetEntryById(index: StorybookIndex, id: string): (r: Option<Entry>)
    ensures r.Some? <==> exists i :: 0 <= i < |index.entries| && index.entries[i].0 == id
    ensures r.Some? ==> exists i :: 0 <= i < |index.entries| && index.entries[i] == (id, r.value)
  {
    Lookup(index.entries, id)
  }

  /** Keys are unique, so the lookup by a key returns the entry stored under it. */
  lemma GetEntryByKey(index: StorybookIndex, i: nat)
    requires i < |index.entries|
    ensures GetEntryById(index, index.entries[i].0) == Some(index.entries[i].1)
  {
    var entries: seq<(string, Entry)> := index.entries;
    var r := GetEntryById(index, entries[i].0);
    var j :| 0 <= j < |entries| && entries[j] == (entries[i].0, r.value);
    assert UniqueKeys(entries);
    assert i == j;
  }
}
