/**
 * The records of a Storybook `index.json` and the listings built from it.
 */
module Types {
  import opened Wrappers
  import opened Strings

  datatype StorySubtype = SubtypeStory | SubtypeDocs

  /** One entry of the index, discriminated by its `type` field. */
  datatype Entry =
    | Docs(id: string, title: string, name: string, importPath: string,
           tags: Option<seq<string>>, storiesImports: Option<seq<string>>)
    | Story(id: string, title: string, name: string, importPath: string,
            tags: Option<seq<string>>, subtype: Option<StorySubtype>,
            exportName: Option<string>, componentPath: Option<string>)

  /** An object's own keys are distinct. */
  predicate UniqueKeys(entries: seq<(string, Entry)>) {
    forall i, j :: 0 <= i < j < |entries| ==> entries[i].0 != entries[j].0
  }

  /** `Record<string, StorybookEntry>`, as its keys are enumerated: in insertion order. */
  type Entries = entries: seq<(string, Entry)> | UniqueKeys(entries)

  datatype StorybookIndex = StorybookIndex(v: int, entries: Entries)

  /** The group record that `buildComponentIndex` produces per baseId. */
  datatype ComponentIndexEntry = ComponentIndexEntry(
    baseId: string, title: string, importPaths: seq<string>, hasDocs: bool, stories: seq<string>)

  datatype Kind = Component | DocsKind

  /** A row of the documentation listing. */
  datatype DocListEntry = DocListEntry(id: string, title: string, kind: Kind, path: string)

  /** A row of the component listing. */
  datatype ComponentEntry = ComponentEntry(
    id: string, title: string, importPath: string, componentPath: Option<string>, tags: seq<string>)

  /** The errors a tool call can end in. */
  datatype Error =
    | MissingBaseUrl      // `Missing required Actor input: storybookBaseUrl`
    | EmptyBaseUrl        // `storybookBaseUrl is empty`, thrown by the base-URL normalisation
    | EntryNotFound(id: string)  // reading `type` of the `undefined` a missing key yields

  /** `importPath.toLowerCase().endsWith('.mdx')`. */
  function IsMdxPath(importPath: string): (b: bool)
    ensures b <==> |importPath| >= 4 && Lower(importPath[|importPath| - 4..]) == ".mdx"
  {
    var low := Lower(importPath);
    if |importPath| >= 4 then
      assert low[|low| - 4..] == Lower(importPath[|importPath| - 4..]);
      EndsWith(low, ".mdx")
    else
      EndsWith(low, ".mdx")
  }

  /** Documentation rather than a component: `docs`-typed, or backed by an `.mdx` file. */
  function IsDocLike(e: Entry): (b: bool)
    ensures !b <==> e.Story? && !IsMdxPath(e.importPath)
  {
    e.Docs? || IsMdxPath(e.importPath)
  }

  /** `Object.values(index.entries)`. */
  function Values(entries: seq<(string, Entry)>): (es: seq<Entry>)
    ensures |es| == |entries|
    ensures forall i :: 0 <= i < |entries| ==> es[i] == entries[i].1
  {
    if entries == [] then []
    else Values(entries[..|entries| - 1]) + [entries[|entries| - 1].1]
  }
}
