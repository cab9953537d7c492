# Storybook catalog tools, modelled in Dafny

This project models the core of an MCP server that answers questions about a
shared Storybook. The server reads Storybook's `index.json` (a record of
`docs` and `story` entries keyed by id) and offers three catalog tools:

- `list-all-documentation` lists the documentation pages and the components.
  A component is a group of entries whose titles share a baseId. The tool
  returns a Markdown bullet list with viewer links, plus structured entries.
- `list-all-components` lists one component per story-id prefix (the id
  before `--`). It skips documentation, drops uninformative tags and links
  each component to its story.
- `get-story-urls` turns story ids into viewer URLs and reports how many it
  resolved.

They share a scraper module that does four things:

- normalises the base URL: it trims it and appends a `/` unless the URL
  already ends in one. A blank URL is an error;
- classifies entries;
- derives a component's baseId from its title (split on `/`, normalise each
  segment, join with `-`);
- builds the component index, one record per baseId, in an insertion-ordered
  `Map`.

## How the model is organised

| file | module | models |
|---|---|---|
| `wrappers.dfy` | `Wrappers` | `Option` / `Result`; a thrown error is a `Failure` |
| `strings.dfy` | `Strings` | the ASCII behaviour of the string built-ins used: `trim`, `trimEnd`, `toLowerCase`, `split`, `join`, `replace(/\s+/g, '-')`, `includes`/`indexOf`, decimal formatting |
| `seqs.dfy` | `Seqs` | `Array.from(new Set(s))` as `Dedup`, with its first-seen order |
| `jsmap.dfy` | `JsMap` | a JavaScript `Map`. Its keys keep first-insertion order and `set` overwrites. It is modelled twice: as a class whose `Set` updates its fields, and as the sequence of `set` calls it has seen |
| `types.dfy` | `Types` | index entries, component records, listing rows, errors |
| `storybook_scraper.dfy` | `StorybookScraper` | the scraper module |
| `list_all_documentation.dfy` | `ListAllDocumentation` | the `list-all-documentation` tool |
| `list_all_components.dfy` | `ListAllComponents` | the `list-all-components` tool |
| `get_story_urls.dfy` | `GetStoryUrls` | the `get-story-urls` tool |

Where the source works by changing state, the model does too. Loops that fill
a `Map` or an array are `method`s with `while`/`for` loops over a
`JsMap.OrderedMap` object or a `seq` variable. Each method is proved equal to
a function. The properties the tools promise are then proved about those
functions:

- `BuildComponentIndex` against `IndexRecords`;
- `CollectDocs` against `DocsList`;
- `CollectComponents` against `Kept`;
- both `BuildMdxOutput`s against `MdxOutput` and `Markdown`.

The index is a sequence of `(key, entry)` pairs with distinct keys, in the
order in which `Object.values` / `Object.keys` enumerate them.

### Behaviour of the code worth noting

- `hasDocs` is set only by `docs`-typed entries (`storybook_scraper.ts:72`). A
  story backed by an `.mdx` file does not set it.
- A component record keeps the title of the group's *last* entry, because
  every `map.set` overwrites it (`storybook_scraper.ts:70`). The first-seen
  title is not kept.
- The base URL is normalised inside `resolvePublicUrlForEntry` before the
  entry is read (`storybook_scraper.ts:80-84`). A blank base URL is
  therefore reported as `EmptyBaseUrl` even when the entry is missing.
- In `list-all-documentation`, a bullet for an id that is not a key of the
  index ends the call with an error (`EntryNotFound`,
  `list-all-documentation.ts:26`). This holds for a doc id and
  for a component's first story id, because reading `type` of `undefined`
  throws. `MdxOutputSucceeds` shows this cannot happen when every key equals
  its entry's id.
- A first story id that is the empty string is falsy, so that component gets
  an empty link (`list-all-documentation.ts:42`).

## Model

| member | source | states |
|---|---|---|
| StorybookScraper.NormalizeBaseUrl | src/storybook_scraper.ts:11-15 | fails (with `EmptyBaseUrl`) exactly when the input is all whitespace; otherwise the result is the trimmed input, with `/` appended exactly when the trimmed input does not already end in `/`, so it always ends in `/` |
| StorybookScraper.NormalizeBaseUrlIdempotent | src/storybook_scraper.ts:11-15 | normalising a normalised base URL returns it unchanged |
| StorybookScraper.NormalizeBaseUrlTrailingSlash | src/storybook_scraper.ts:11-15 | a URL with and without one trailing `/` normalise to the same value |
| StorybookScraper.NormalizeBaseUrlOfSlashed | src/storybook_scraper.ts:11-15 | a trimmed URL that ends in `/` is kept as is (`//` is not collapsed) |
| StorybookScraper.TrimStartAppendSlash | src/storybook_scraper.ts:12 | leading-whitespace trimming never reaches a `/` appended at the end |
| StorybookScraper.TrimAppendSlash | src/storybook_scraper.ts:12 | for a URL ending in a non-space character, trimming `url + "/"` gives `trim(url) + "/"`, and `trim(url)` keeps that last character |
| StorybookScraper.TrimOfNonSpaceEnd | src/storybook_scraper.ts:12 | with a non-space last character only the leading whitespace is trimmed, and the last character survives |
| StorybookScraper.IndexUrl | src/storybook_scraper.ts:19-20 | the index URL is the normalised base followed by `index.json`; it fails exactly when normalisation fails |
| StorybookScraper.IndexUrlTrailingSlash | src/storybook_scraper.ts:19-20 | a base URL with or without its trailing `/` gives the same index URL |
| StorybookScraper.IndexUrlExample | src/storybook_scraper.ts:19-20 | `https://example.com/storybook` and `https://example.com/storybook/` both fetch `https://example.com/storybook/index.json` |
| StorybookScraper.ListDocs | src/storybook_scraper.ts:33-35 | an entry of the index is listed exactly when it is a `docs` entry, and only entries of the index are listed |
| StorybookScraper.ListStories | src/storybook_scraper.ts:37-39 | an entry of the index is listed exactly when it is a `story` entry, and only entries of the index are listed |
| StorybookScraper.DocsOf | src/storybook_scraper.ts:33-35 | the result holds exactly the `docs` entries of the input |
| StorybookScraper.StoriesOf | src/storybook_scraper.ts:37-39 | the result holds exactly the `story` entries of the input |
| StorybookScraper.DocsOfAppend | src/storybook_scraper.ts:33-35 | filtering preserves order: it distributes over concatenation |
| StorybookScraper.StoriesOfAppend | src/storybook_scraper.ts:37-39 | filtering preserves order: it distributes over concatenation |
| StorybookScraper.ClassifyPartition | src/storybook_scraper.ts:33-39 | `listDocs` and `listStories` together are a permutation of all entries: every entry is in exactly one |
| StorybookScraper.NormalizeSegment | src/storybook_scraper.ts:42-48 | a normalised segment has no whitespace, no `_` and no upper-case letter, and no `/` if the segment had none |
| StorybookScraper.NormalizeSegmentOfBaseIdLike | src/storybook_scraper.ts:42-48 | a segment already in baseId form is unchanged |
| StorybookScraper.NormalizeSegmentOfPlain | src/storybook_scraper.ts:42-48 | a segment without whitespace or `_` is only lower-cased; camel case is not split |
| StorybookScraper.NormalizeSegmentOfSpaceRun | src/storybook_scraper.ts:42-48 | any run of whitespace between two words becomes a single `-` (`Design Tokens` gives `design-tokens`) |
| StorybookScraper.NormalizeSegmentUnderscores | src/storybook_scraper.ts:42-48 | without whitespace, the segment is the lower-cased text with each `_` replaced by `-`, and its length is kept |
| StorybookScraper.NormalizeAndJoinBaseIdLike | src/storybook_scraper.ts:53 | segments without `/` normalise and join into a baseId-shaped string |
| StorybookScraper.BaseIdLikeJoin | src/storybook_scraper.ts:53 | joining two baseId-shaped strings with `-` is baseId-shaped |
| StorybookScraper.ComponentBaseIdFromTitle | src/storybook_scraper.ts:52-54 | every baseId is free of whitespace, `/`, `_` and upper-case letters |
| StorybookScraper.BaseIdOfSegments | src/storybook_scraper.ts:52-54 | the baseId of a title built from `/`-separated segments is the normalised join of those segments |
| StorybookScraper.BaseIdIdempotent | src/storybook_scraper.ts:52-54 | the baseId of a baseId is itself |
| StorybookScraper.NormalizeAndJoinOfPlain | src/storybook_scraper.ts:53 | plain segments give the lower-cased `-`-join of the segments |
| StorybookScraper.BaseIdOfPlainTitle | src/storybook_scraper.ts:50-54 | `UI-Library/Code/CodeBlockWithTabs`-like titles give `ui-library-code-codeblockwithtabs`-like baseIds: lower-cased segments joined by `-` |
| StorybookScraper.Keyed | src/storybook_scraper.ts:59-60 | one `(baseId, entry)` pair per entry |
| StorybookScraper.KeyedAt | src/storybook_scraper.ts:59-60 | the `i`-th pair is the `i`-th entry under the baseId of its title |
| StorybookScraper.Group | src/storybook_scraper.ts:59-61 | a baseId's group is non-empty exactly when some entry has that baseId |
| StorybookScraper.GroupMembers | src/storybook_scraper.ts:59-61 | the group of `b` holds exactly the entries filed under `b` |
| StorybookScraper.StoryIdsOfMembers | src/storybook_scraper.ts:65-66 | a group's story ids are exactly the ids of its `story` entries |
| StorybookScraper.ImportPathsOfMembers | src/storybook_scraper.ts:62-63 | a group's import paths are exactly those of the entries filed under its baseId |
| StorybookScraper.MergeEntry | src/storybook_scraper.ts:61-74 | the merged record carries the group's baseId and the entry's title; its import paths are distinct and are the earlier ones plus the entry's; its story ids are distinct and are the earlier ones plus the entry's id if it is a story; `hasDocs` holds when it held before or the entry is `docs` |
| StorybookScraper.GroupRecordFirst | src/storybook_scraper.ts:61-74 | the first entry of a baseId creates the record `{baseId, title, [importPath], type === 'docs', [id] if a story}` |
| StorybookScraper.GroupRecordMerge | src/storybook_scraper.ts:61-74 | a later entry merges into the existing record: its path and story id are added to the sets, `hasDocs` is or-ed, and its title replaces the old one |
| StorybookScraper.GroupRecordOther | src/storybook_scraper.ts:68-74 | setting one baseId leaves every other baseId's record unchanged |
| StorybookScraper.IndexStateKeys | src/storybook_scraper.ts:58-75 | after the loop, the map's keys are the distinct baseIds in first-appearance order, and exactly those have a record |
| StorybookScraper.IndexStateRecord | src/storybook_scraper.ts:58-75 | the record the map holds for a baseId is that baseId's group record |
| StorybookScraper.IndexStateStep | src/storybook_scraper.ts:59-74 | one more entry is one more `set` of the merged record on the map state |
| StorybookScraper.BuildComponentIndex | src/storybook_scraper.ts:57-77 | the loop over a `Map` object returns `IndexRecords` of the entries |
| StorybookScraper.IndexRecordsAreGroupRecords | src/storybook_scraper.ts:57-77 | the `i`-th record is the group record of the `i`-th distinct baseId, and there are as many records as distinct baseIds |
| StorybookScraper.IndexRecordOf | src/storybook_scraper.ts:57-77 | every record is the group record of a baseId that occurs among the entries |
| StorybookScraper.IndexRecordsBaseIds | src/storybook_scraper.ts:76 | the records' baseIds are the distinct baseIds, in first-seen order |
| StorybookScraper.ComponentIndexDistinct | src/storybook_scraper.ts:57-77 | no two records share a baseId |
| StorybookScraper.ComponentIndexCoversEntries | src/storybook_scraper.ts:57-77 | every entry's baseId has a record |
| StorybookScraper.ComponentIndexOnlyEntries | src/storybook_scraper.ts:57-77 | every record's baseId belongs to some entry |
| StorybookScraper.ComponentIndexOrder | src/storybook_scraper.ts:76 | records come in the order in which their baseIds first appear among the entries |
| StorybookScraper.GroupLast | src/storybook_scraper.ts:68-70 | the last member of a group is the last entry set under its baseId |
| StorybookScraper.GroupRecordContents | src/storybook_scraper.ts:61-74 | a record has: distinct import paths that are exactly those of its entries; distinct story ids that are exactly its story entries' ids; `hasDocs` exactly when some entry is `docs`; the title of its last entry |
| StorybookScraper.GroupRecordPaths | src/storybook_scraper.ts:62-63 | a record's import paths are distinct and are exactly its entries' paths |
| StorybookScraper.GroupRecordStories | src/storybook_scraper.ts:65-66 | a record's story ids are distinct and are exactly its story entries' ids |
| StorybookScraper.GroupRecordDocsAndTitle | src/storybook_scraper.ts:70-72 | `hasDocs` is set exactly when some entry is `docs`, and the title is the last entry's |
| StorybookScraper.GroupRecordFirsts | src/storybook_scraper.ts:62-73 | a record's first import path is its first entry's, and its first story is the group's first story |
| StorybookScraper.EntryInComponentIndex | src/storybook_scraper.ts:57-77 | every entry's import path is listed in the record of its own baseId |
| StorybookScraper.ResolvePublicUrlForEntry | src/storybook_scraper.ts:80-84 | fails (with `EmptyBaseUrl`) exactly when the base URL is blank; on success the URL is the normalised base, then `?path=/docs/` for a `docs` entry or `?path=/story/` otherwise, then the entry's id |
| StorybookScraper.ResolvePublicUrlOfSlashed | src/storybook_scraper.ts:80-84 | over a normalised base, a `docs` entry gets `base?path=/docs/<id>` and any other entry `base?path=/story/<id>` |
| StorybookScraper.ResolvePublicUrlTrailingSlash | src/storybook_scraper.ts:80-84 | a base URL with or without its trailing `/` gives the same entry URL, and that URL resolves |
| StorybookScraper.Lookup | src/storybook_scraper.ts:87-89 | a key lookup finds an entry exactly when some pair has that key, and then returns that pair's entry |
| StorybookScraper.GetEntryById | src/storybook_scraper.ts:87-89 | `index.entries[id]` finds an entry exactly when some key of the index is `id`, and the entry found is the one stored under `id` |
| StorybookScraper.GetEntryByKey | src/storybook_scraper.ts:87-89 | looking up an existing key returns its entry |
| ListAllDocumentation.DocSets | src/tools/list-all-documentation.ts:80-92 | one `set(id, row)` per doc-like entry (a `docs` entry or an `.mdx` path), keyed by the entry id, with kind `docs` |
| ListAllDocumentation.CollectDocs | src/tools/list-all-documentation.ts:80-93 | the loop over a `Map` object returns `DocsList` of the entries |
| ListAllDocumentation.DocSetsStep | src/tools/list-all-documentation.ts:81-91 | a non-doc entry leaves the map as it is; a doc-like entry sets its row under its id |
| ListAllDocumentation.DocSetsFrom | src/tools/list-all-documentation.ts:81-91 | every `set` comes from a doc-like entry |
| ListAllDocumentation.DocSetsHas | src/tools/list-all-documentation.ts:81-91 | every doc-like entry issues its `set` |
| ListAllDocumentation.DocSetsKeyAbsent | src/tools/list-all-documentation.ts:81-91 | an id that no doc-like entry carries is never a key |
| ListAllDocumentation.DocSetsDistinct | src/tools/list-all-documentation.ts:81-91 | with distinct entry ids the `set` keys are distinct |
| ListAllDocumentation.DocsListAt | src/tools/list-all-documentation.ts:93 | the `i`-th doc row is the last row set under the `i`-th distinct id |
| ListAllDocumentation.DocsListDistinctIds | src/tools/list-all-documentation.ts:80-93 | no two doc rows share an id |
| ListAllDocumentation.DocsListFromEntries | src/tools/list-all-documentation.ts:80-93 | every doc row is the row of some doc-like entry, with kind `docs` |
| ListAllDocumentation.DocsListCovers | src/tools/list-all-documentation.ts:80-93 | every doc-like entry's id is listed |
| ListAllDocumentation.DocsListInOrder | src/tools/list-all-documentation.ts:80-93 | with distinct entry ids the docs list is the doc-like entries' rows in index order |
| ListAllDocumentation.ComponentsOf | src/tools/list-all-documentation.ts:96-108 | the filter keeps at most all records |
| ListAllDocumentation.ComponentsOfMembers | src/tools/list-all-documentation.ts:96-108 | a row is listed exactly when it comes from a record whose group has a non-`.mdx` story |
| ListAllDocumentation.ComponentListedOnlyIf | src/tools/list-all-documentation.ts:97-102 | a listed component has a `story` entry with a non-`.mdx` path under its baseId |
| ListAllDocumentation.ComponentListedIf | src/tools/list-all-documentation.ts:97-102 | every `story` entry with a non-`.mdx` path gets its baseId listed as a component |
| ListAllDocumentation.ComponentsOfOrdered | src/tools/list-all-documentation.ts:96-108 | the filter keeps the records' order: any ranking that increases along the records increases along the rows |
| ListAllDocumentation.ComponentsOfBefore | src/tools/list-all-documentation.ts:96-108 | every row the filter keeps comes from an earlier record |
| ListAllDocumentation.ComponentsOfWithin | src/tools/list-all-documentation.ts:96-108 | the rows' ids are among the records' baseIds |
| ListAllDocumentation.ComponentsListFromEntries | src/tools/list-all-documentation.ts:96-108 | every component row's id is the baseId of some entry |
| ListAllDocumentation.ComponentsListOrder | src/tools/list-all-documentation.ts:96-108 | the component rows follow the order in which their baseIds first appear among the entries |
| ListAllDocumentation.ComponentsListDistinct | src/tools/list-all-documentation.ts:96-108 | no two component rows share an id |
| ListAllDocumentation.ComponentsOfHas | src/tools/list-all-documentation.ts:97-108 | a record that passes the filter is listed |
| ListAllDocumentation.EntryInOwnGroup | src/tools/list-all-documentation.ts:98 | every entry belongs to the group of its own baseId |
| ListAllDocumentation.GroupMemberAt | src/tools/list-all-documentation.ts:98 | a group member is an entry whose baseId is the group's |
| ListAllDocumentation.ComponentListedFields | src/tools/list-all-documentation.ts:103-108 | a component row has kind `component`, the baseId as id, the title of the group's last entry, and the first entry's import path as path |
| ListAllDocumentation.ComponentTitleBaseId | src/tools/list-all-documentation.ts:33 | a listed component's title maps back to its own id as baseId |
| ListAllDocumentation.MdxStoryAloneIsDocs | src/__tests__/list-all-documentation.test.ts:70-94 | a story backed by `.mdx`, alone in its group, is listed as docs and not as a component |
| ListAllDocumentation.Bullet | src/tools/list-all-documentation.ts:28 | with an empty description, the trimmed bullet is `- [title](url):` |
| ListAllDocumentation.EntryUrl | src/tools/list-all-documentation.ts:26 | succeeds exactly when the base URL is not blank and the id is a key; fails with `EmptyBaseUrl` for a blank base, else `EntryNotFound(id)`; on success it is the resolved URL of the entry under that key |
| ListAllDocumentation.DocBases | src/tools/list-all-documentation.ts:19-22 | one `(baseId of title, doc)` `set` call per doc, in order |
| ListAllDocumentation.DocFor | src/tools/list-all-documentation.ts:35 | a doc is found exactly when some doc has that baseId, and the one found is the last such doc |
| ListAllDocumentation.DocForOfMap | src/tools/list-all-documentation.ts:18-22 | the `docByBaseId` map answers `get(b)` as `DocFor` does |
| ListAllDocumentation.FindRecord | src/tools/list-all-documentation.ts:40-41 | `find` returns the first record with that baseId, and nothing exactly when none has it |
| ListAllDocumentation.FindRecordOfIndex | src/tools/list-all-documentation.ts:40-41 | in the component index, a baseId that occurs is found with its group record |
| ListAllDocumentation.FindRecordAbsent | src/tools/list-all-documentation.ts:40-41 | in the component index, a baseId that does not occur is not found |
| ListAllDocumentation.FirstStoryId | src/tools/list-all-documentation.ts:40-41 | a story id exactly when the first record with the baseId has stories, and then it is that record's first story; nothing when no record has the baseId or that record has no story |
| ListAllDocumentation.FirstStoryIdOfIndex | src/tools/list-all-documentation.ts:40-41 | the first story id is the group's first story id, or nothing when the group has no story |
| ListAllDocumentation.FirstStoryIdIsStory | src/tools/list-all-documentation.ts:40-43 | a first story id is the id of a `story` entry with that baseId |
| ListAllDocumentation.ComponentUrlOfGroup | src/tools/list-all-documentation.ts:32-46 | `ComponentUrl`: a component links to its doc if one has its baseId; otherwise to its group's first story if that id is non-empty; otherwise to nothing |
| ListAllDocumentation.LinesSuccess | src/tools/list-all-documentation.ts:24-49 | the bullets are built exactly when every link resolves, one bullet per item, in order |
| ListAllDocumentation.LinesFailure | src/tools/list-all-documentation.ts:24-49 | a failure is the error of the first link that does not resolve |
| ListAllDocumentation.LinesFailExtends | src/tools/list-all-documentation.ts:24-49 | after a failure, later items change nothing |
| ListAllDocumentation.LinesPush | src/tools/list-all-documentation.ts:28 | a resolved link pushes its bullet |
| ListAllDocumentation.LinesThrow | src/tools/list-all-documentation.ts:26 | an unresolved link ends the whole output with its error |
| ListAllDocumentation.LinesAppend | src/tools/list-all-documentation.ts:24-49 | the docs loop then the components loop is the loop over both lists |
| ListAllDocumentation.DocItemsAt | src/tools/list-all-documentation.ts:25-29 | the `i`-th doc bullet links the doc's title to its entry URL |
| ListAllDocumentation.ComponentItemsAt | src/tools/list-all-documentation.ts:32-49 | the `j`-th component bullet links the component's title to its component URL |
| ListAllDocumentation.MdxOutputLines | src/tools/list-all-documentation.ts:8-53 | `MdxOutput`: when no title or URL holds a newline, the produced text splits at its newlines into the header line and one bullet per doc and component |
| ListAllDocumentation.HeaderOneLine | src/tools/list-all-documentation.ts:15 | the header is a single line |
| ListAllDocumentation.BulletNoNewline | src/tools/list-all-documentation.ts:28 | a bullet is a single line when its title and URL are |
| ListAllDocumentation.DocsByBaseId | src/tools/list-all-documentation.ts:18-22 | the loop fills a fresh `Map` object to the state of the doc `set` calls |
| ListAllDocumentation.ComponentLink | src/tools/list-all-documentation.ts:33-46 | the link computed from the map object is the component URL |
| ListAllDocumentation.DocBullets | src/tools/list-all-documentation.ts:25-29 | the docs loop returns the doc bullets, or the first error |
| ListAllDocumentation.ComponentBullets | src/tools/list-all-documentation.ts:32-49 | the components loop returns the component bullets, or the first error |
| ListAllDocumentation.BuildMdxOutput | src/tools/list-all-documentation.ts:8-53 | the output is the header line followed by the doc bullets and then the component bullets, joined by newlines, or the first error |
| ListAllDocumentation.EntryUrlOfEntry | src/tools/list-all-documentation.ts:26 | when every key equals its entry's id, looking up an entry's id resolves that entry |
| ListAllDocumentation.DocUrlSucceeds | src/tools/list-all-documentation.ts:26 | in such an index, under a non-blank base, every doc link resolves |
| ListAllDocumentation.ComponentUrlSucceeds | src/tools/list-all-documentation.ts:35-45 | in such an index, under a non-blank base, every component link resolves |
| ListAllDocumentation.MdxOutputSucceeds | src/tools/list-all-documentation.ts:8-53 | in such an index, under a non-blank base, the Markdown output is always produced |
| ListAllDocumentation.ListAllDocumentation | src/tools/list-all-documentation.ts:71-118 | a missing or empty base URL gives `MissingBaseUrl`; a blank one gives `EmptyBaseUrl`; otherwise the reply is the Markdown from `buildMdxOutput` and the entries `components` followed by `docs` |
| ListAllComponents.ComponentIdOf | src/tools/list_all_components.ts:58 | the component id is the prefix of the id up to the first occurrence of `--` (no `--` starts earlier), or the whole id exactly when there is none; it holds no `--` |
| ListAllComponents.ComponentIdOfJoined | src/tools/list_all_components.ts:58 | for `prefix--rest`, where the prefix has no `--` and does not end in `-`, the component id is the prefix |
| ListAllComponents.ComponentIdOfPlain | src/tools/list_all_components.ts:58 | an id without `--` is its own component id |
| ListAllComponents.FilterTags | src/tools/list_all_components.ts:62 | no more tags than given; no kept tag is `dev`, `test` or `autodocs`, and every other given tag is kept |
| ListAllComponents.FilterTagsMembers | src/tools/list_all_components.ts:62 | the kept tags are exactly those other than `dev`, `test` and `autodocs` |
| ListAllComponents.FilterTagsAppend | src/tools/list_all_components.ts:62 | the filter keeps order: it distributes over concatenation |
| ListAllComponents.FilterTagsIdempotent | src/tools/list_all_components.ts:62 | filtering twice is filtering once |
| ListAllComponents.TagsOf | src/tools/list_all_components.ts:62 | `(e.tags ?? [])` filtered: no tags when the entry has none, otherwise exactly its tags other than `dev`, `test` and `autodocs` |
| ListAllComponents.MakeComponent | src/tools/list_all_components.ts:57-69 | the pushed record: the component id (the id up to the first `--`, a prefix of the entry id), the entry's title, importPath and componentPath, and exactly its informative tags |
| ListAllComponents.CollectComponents | src/tools/list_all_components.ts:47-70 | the loop with its `seen` set returns `Kept` of the entries |
| ListAllComponents.IdSetSnoc | src/tools/list_all_components.ts:59-60 | pushing a component adds its id to `seen` |
| ListAllComponents.IdSetMembers | src/tools/list_all_components.ts:59-60 | `seen` holds exactly the ids of the pushed components |
| ListAllComponents.KeptPrefix | src/tools/list_all_components.ts:51-70 | visiting more entries only appends components |
| ListAllComponents.KeptDistinct | src/tools/list_all_components.ts:59-60 | no two components share an id |
| ListAllComponents.FirstOfComponentExtend | src/tools/list_all_components.ts:51-60 | the first qualifying story of an id stays the first when more entries follow |
| ListAllComponents.FirstOfComponentRestrict | src/tools/list_all_components.ts:51-60 | the first qualifying story of an id is still the first in any prefix that contains it |
| ListAllComponents.KeptFromFirst | src/tools/list_all_components.ts:53-69 | every component is built from the first qualifying story of its id: not docs, not `.mdx`, a story |
| ListAllComponents.KeptCoversPrefix | src/tools/list_all_components.ts:53-60 | every qualifying story's component id is listed |
| ListAllComponents.KeptIdAbsent | src/tools/list_all_components.ts:53-60 | an id no qualifying story produces is not listed |
| ListAllComponents.KeptIds | src/tools/list_all_components.ts:47-70 | `Kept`: the ids listed are exactly the component ids of the stories that are neither docs nor `.mdx` |
| ListAllComponents.KeptFirst | src/tools/list_all_components.ts:59-69 | the first qualifying story of each id is listed, with its title, import path, component path and filtered tags |
| ListAllComponents.ComponentLine | src/tools/list_all_components.ts:17-20 | a line is `- [title](base?path=/story/id):  [tags joined by ", "]`; the base URL is used as given |
| ListAllComponents.ComponentLines | src/tools/list_all_components.ts:16-21 | one line per component, in order |
| ListAllComponents.MarkdownLines | src/tools/list_all_components.ts:10-23 | `Markdown`: when no line holds a newline, the text splits at its newlines into the header line and one line per component, in order |
| ListAllComponents.HeaderOneLine | src/tools/list_all_components.ts:15 | the header is a single line |
| ListAllComponents.BuildMdxOutput | src/tools/list_all_components.ts:10-23 | the loop returns the header line and then one line per component, joined by newlines |
| ListAllComponents.ListAllComponents | src/tools/list_all_components.ts:42-76 | a blank base URL fails the index fetch with `EmptyBaseUrl`; otherwise the reply is the Markdown and the kept components |
| GetStoryUrls.StoryUrl | src/tools/get_story_urls.ts:30 | the URL is the base URL as given, then `?path=/story/`, then the id |
| GetStoryUrls.IdOfStoryUrlInverse | src/tools/get_story_urls.ts:30 | the id can be read back from its URL |
| GetStoryUrls.StoryUrlInjective | src/tools/get_story_urls.ts:30 | over one base URL, different ids give different URLs |
| GetStoryUrls.StoryUrls | src/tools/get_story_urls.ts:28-31 | one `{id, url}` per requested id, in request order |
| GetStoryUrls.StoryUrlsAppend | src/tools/get_story_urls.ts:28-31 | the mapping distributes over concatenation of the requests |
| GetStoryUrls.StoryUrlsRecoverIds | src/tools/get_story_urls.ts:28-31 | each result's URL names the id requested at that position |
| GetStoryUrls.ResultMessage | src/tools/get_story_urls.ts:37 | `Resolved <n> story URL.` for one URL, and `Resolved <n> story URLs.` for any other count |
| GetStoryUrls.ResultMessageOne | src/tools/get_story_urls.ts:37 | a single URL gives `Resolved 1 story URL.` |
| GetStoryUrls.ResultMessageOther | src/tools/get_story_urls.ts:37 | zero or several URLs give the plural |
| GetStoryUrls.ResultMessageCount | src/tools/get_story_urls.ts:37 | the digits after `Resolved ` are exactly the decimal count |
| GetStoryUrls.ResultMessageInjective | src/tools/get_story_urls.ts:37 | different counts give different messages |
| GetStoryUrls.GetStoryUrls | src/tools/get_story_urls.ts:25-42 | the reply text counts the requested ids, and the `stories` hold one `{id, url}` per id, in order |
| JsMap.OrderedMap.Set | src/storybook_scraper.ts:68-74 | `map.set`: the value is overwritten, and a new key goes last while an existing key keeps its place |
| JsMap.OrderedMap.Get | src/storybook_scraper.ts:61 | `map.get`: a value exactly for the keys present |
| JsMap.OrderedMap.Values | src/storybook_scraper.ts:76 | `Array.from(map.values())`: the values in key order |
| JsMap.ModelsSnoc | src/storybook_scraper.ts:68-74 | one more `set` keeps the map in step with the calls made so far: keys in first-set order, each holding the last value set |
| JsMap.MapStateModels | src/tools/list-all-documentation.ts:18-22 | the state of a fresh map after a sequence of `set` calls is the one those calls describe |
| JsMap.MapStateValues | src/tools/list-all-documentation.ts:93 | listing that state gives the last value of each key, in first-set order |
| JsMap.MapValuesOfDistinct | src/tools/list-all-documentation.ts:93 | with distinct keys the map keeps every value, in call order |
| JsMap.LastValueSnoc | src/tools/list-all-documentation.ts:21 | a later `set` of the same key replaces the value; other keys are untouched |
| Seqs.Dedup | src/storybook_scraper.ts:62-63 | `Array.from(new Set(s))` has no duplicates and holds exactly the elements of `s` |
| Seqs.DedupSnoc | src/storybook_scraper.ts:63 | `set.add(x)` appends `x` only if it is new |
| Seqs.DedupAppendOne | src/storybook_scraper.ts:62-63 | rebuilding a set from an earlier set's array and adding one element is the set of the whole sequence |
| Seqs.DedupHead | src/storybook_scraper.ts:71 | the first element added leads the array |
| Seqs.DedupOfNoDup | src/storybook_scraper.ts:71 | a duplicate-free sequence is its own set order |
| Seqs.DedupFirstSeenOrder | src/storybook_scraper.ts:71-73 | a set lists its elements in the order of their first insertion |
| Strings.Trim | src/storybook_scraper.ts:12 | the trimmed string is a slice of the input with only whitespace before and after it; it starts and ends with a non-space character, and is empty exactly when the input is all whitespace |
| Strings.TrimOfTrimmed | src/storybook_scraper.ts:12 | a string with non-space ends is its own trim |
| Strings.TrimEnd | src/tools/list-all-documentation.ts:28 | `trimEnd` keeps a prefix of the input that does not end in whitespace, and everything it drops is whitespace |
| Strings.TrimEndOneSpace | src/tools/list-all-documentation.ts:28 | `trimEnd` removes only the space an empty description leaves |
| Strings.Split | src/storybook_scraper.ts:53 | `split('/')` gives at least one piece, no piece contains `/`, and joining the pieces with `/` restores the input |
| Strings.SplitJoin | src/storybook_scraper.ts:53 | splitting a `/`-join of `/`-free segments gives back the segments |
| Strings.JoinSnoc | src/tools/list_all_components.ts:22 | `Join` (`parts.join(sep)`): joining one more part appends the separator and that part to the join of the others |
| Strings.JoinEnds | src/tools/list-all-documentation.ts:51 | `Join`: a non-empty join starts with its first part and ends with its last part |
| Strings.CollapseSpaces | src/storybook_scraper.ts:45 | `replace(/\s+/g, '-')` leaves no whitespace |
| Strings.CollapseSpacesAppend | src/storybook_scraper.ts:45 | a whitespace-free prefix is kept as it is and the rest is replaced on its own |
| Strings.CollapseSpacesOfNoSpace | src/storybook_scraper.ts:45 | a string without whitespace is unchanged |
| Strings.CollapseSpacesRunThen | src/storybook_scraper.ts:45 | a leading whitespace run becomes one `-`, and the rest, from its first non-space character, is replaced on its own |
| Strings.CollapseSpacesOfSpaces | src/storybook_scraper.ts:45 | a string of whitespace only, such as a trailing run, becomes one `-` |
| Strings.CollapseSpacesLeadingRun | src/storybook_scraper.ts:45 | a whitespace run before a whitespace-free word becomes one `-` |
| Strings.CollapseSpacesRun | src/storybook_scraper.ts:45 | a whitespace run between two words becomes one `-` |
| Strings.ReplaceChar | src/storybook_scraper.ts:46 | `replace(/_/g, '-')` replaces each `_` with `-` and keeps everything else |
| Strings.Lower | src/storybook_scraper.ts:47 | `toLowerCase` maps each character and keeps the length |
| Strings.IndexOfFrom | src/tools/list_all_components.ts:58 | the search finds the first occurrence of the pattern at or after a position, or reports that there is none |
| Strings.NatToString | src/tools/get_story_urls.ts:37 | a count prints as decimal digits without a leading zero |
| Strings.NatToStringInjective | src/tools/get_story_urls.ts:37 | different counts print differently |
| Types.IsMdxPath | src/tools/list-all-documentation.ts:83 | `importPath.toLowerCase().endsWith('.mdx')`: true exactly when the last four characters, lower-cased, are `.mdx` |
| Types.IsDocLike | src/tools/list-all-documentation.ts:82-84 | an entry is documentation unless it is a `story` whose importPath is not `.mdx` |
| Types.Values | src/storybook_scraper.ts:59 | `Object.values` lists the entries in key order |

## Left out

- I/O is not modelled: fetching `index.json` over HTTP, its HTTP status
  handling and its JSON parsing (`storybook_scraper.ts:21-30`). The index is
  a parameter of the tool models. The fetch's only modelled effect is that a
  blank base URL fails it with `EmptyBaseUrl` (`IndexUrl`).
- Logging (`log.info`, `log.debug`, `log.error`) has no effect on results.
- The Apify calls `Actor.charge` and `Actor.getInput` are left out. The
  input they return becomes an `Option<string>` parameter of
  `ListAllDocumentation`.
- The zod input and output schemas (`CONFIG_SCHEMA`) describe types the model
  already has.
- `src/main.ts` and the tools `get_component_documentation` and
  `get_ui_building_instructions` are not part of this model.
- Strings.Trim, Strings.Lower and Strings.CollapseSpaces: whitespace and case
  are ASCII only (space, tab, newline, carriage return, vertical tab, form
  feed; `A`-`Z`). JavaScript's Unicode whitespace and Unicode case mapping
  are not modelled.
- Types.Values: `Object.values`/`Object.keys` are modelled in insertion
  order. JavaScript lists integer-like keys first, in numeric order; that is
  not modelled.
- StorybookScraper.Lookup: a key inherited from `Object.prototype` (such as
  `constructor`) would be found by `index.entries[id]` but is not modelled.
- ListAllDocumentation.ComponentsOf: its own contract only bounds its length.
  Its meaning is stated in `ComponentsOfMembers`, `ComponentListedIf`,
  `ComponentListedOnlyIf`, `ComponentsListOrder` and `ComponentsListDistinct`.
- Strings.Join: it has no contract of its own. Its meaning is stated in
  `JoinSnoc`, `JoinEnds` and `SplitJoin`. Contracts on `Join` itself make
  every proof that goes through `Split` much more costly.
- StorybookScraper.Keyed: its own contract only fixes its length. The pair
  at each position is stated in `KeyedAt`, which the component-index proofs
  call where they need it.
- Exceptions are modelled as `Result` failures carrying one `Error` value,
  not as JavaScript error messages.
- Reading `type` off a missing entry, which throws a `TypeError`, is modelled
  as `EntryNotFound(id)`.
- In `list-all-components`, `e.importPath.toLowerCase()` on a missing
  `importPath` is not modelled. `importPath` is a required field of every
  entry.
