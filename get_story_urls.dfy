/**
 * The `get-story-urls` tool: each requested story id becomes a link into the
 * Storybook viewer, in request order, and the reply text counts them.
 */
module GetStoryUrls {
  import opened Strings

  /** One resolved story: `{ id, url }`. */
  datatype StoryLink = StoryLink(id: string, url: string)

  /** The query that opens a story in the viewer. */
  const StoryPath: string := "?path=/story/"

  /** `${storybookBaseUrl}?path=/story/${id}`: the base URL is used as given, not normalised. */
  function StoryUrl(storybookBaseUrl: string, id: string): (url: string)
    ensures |url| == |storybookBaseUrl| + |StoryPath| + |id|
    ensures url[..|storybookBaseUrl|] == storybookBaseUrl
    ensures url[|storybookBaseUrl|..|storybookBaseUrl| + |StoryPath|] == StoryPath
    ensures url[|storybookBaseUrl| + |StoryPath|..] == id
  {
    storybookBaseUrl + StoryPath + id
  }

  /** The id a story URL over a known base names: what follows the base and the story query. */
  function IdOfStoryUrl(storybookBaseUrl: string, url: string): string
    requires |storybookBaseUrl| + |StoryPath| <= |url|
  {
    url[|storybookBaseUrl| + |StoryPath|..]
  }

  /** The id can be read back from its URL. */
  lemma IdOfStoryUrlInverse(storybookBaseUrl: string, id: string)
    ensures |storybookBaseUrl| + |StoryPath| <= |StoryUrl(storybookBaseUrl, id)|
    ensures IdOfStoryUrl(storybookBaseUrl, StoryUrl(storybookBaseUrl, id)) == id
  {
  }

  /** Over one base, different ids give different URLs. */
  lemma StoryUrlInjective(storybookBaseUrl: string, a: string, b: string)
    requires StoryUrl(storybookBaseUrl, a) == StoryUrl(storybookBaseUrl, b)
    ensures a == b
  {
    IdOfStoryUrlInverse(storybookBaseUrl, a);
    IdOfStoryUrlInverse(storybookBaseUrl, b);
  }

  /** `ids.map((id) => ({ id, url }))`. */
  function StoryUrls(ids: seq<string>, storybookBaseUrl: string): (rs: seq<StoryLink>)
    ensures |rs| == |ids|
    ensures forall i :: 0 <= i < |ids| ==> rs[i].id == ids[i]
    ensures forall i :: 0 <= i < |ids| ==> rs[i].url == StoryUrl(storybookBaseUrl, ids[i])
  {
    if ids == [] then []
    else StoryUrls(ids[..|ids| - 1], storybookBaseUrl) + [StoryLink(ids[|ids| - 1], StoryUrl(storybookBaseUrl, ids[|ids| - 1]))]
  }

  /** The mapping is order-preserving: it distributes over concatenation. */
  lemma StoryUrlsAppend(a: seq<string>, b: seq<string>, storybookBaseUrl: string)
    ensures StoryUrls(a + b, storybookBaseUrl) == StoryUrls(a, storybookBaseUrl) + StoryUrls(b, storybookBaseUrl)
  {
    var l, r, s := StoryUrls(a + b, storybookBaseUrl), StoryUrls(a, storybookBaseUrl), StoryUrls(b, storybookBaseUrl);
    assert |l| == |r + s|;
    forall i | 0 <= i < |l| ensures l[i] == (r + s)[i] {
      if i < |a| {
        assert (a + b)[i] == a[i];
      } else {
        assert (a + b)[i] == b[i - |a|];
      }
    }
  }

  /** The ids of the results are the requested ids, and each URL names its own id. */
  lemma StoryUrlsRecoverIds(ids: seq<string>, storybookBaseUrl: string, i: nat)
    requires i < |ids|
    ensures IdOfStoryUrl(storybookBaseUrl, StoryUrls(ids, storybookBaseUrl)[i].url) == ids[i]
  {
    IdOfStoryUrlInverse(storybookBaseUrl, ids[i]);
  }

  /** `Resolved ${n} story URL${n !== 1 ? 's' : ''}.` */
  function ResultMessage(n: nat): (text: string)
    ensures text == "Resolved " + NatToString(n) + (if n == 1 then " story URL." else " story URLs.")
  {
    "Resolved " + NatToString(n) + " story URL" + (if n != 1 then "s" else "") + "."
  }

  /** One id gives the singular message. */
  lemma ResultMessageOne()
    ensures ResultMessage(1) == "Resolved 1 story URL."
  {
    assert NatToString(1) == "1";
  }

  /** Any other count, zero included, gives the plural. */
  lemma ResultMessageOther(n: nat)
    requires n != 1
    ensures ResultMessage(n) == "Resolved " + NatToString(n) + " story URLs."
  {
  }

  /** The count can be read back: the digit run after `Resolved ` is its decimal form. */
  lemma ResultMessageCount(n: nat)
    ensures |ResultMessage(n)| >= 9
    ensures DigitRun(ResultMessage(n)[9..]) == |NatToString(n)|
    ensures ResultMessage(n)[9..][..|NatToString(n)|] == NatToString(n)
  {
    var a := NatToString(n);
    var sa := if n == 1 then " story URL." else " story URLs.";
    assert ResultMessage(n)[9..] == a + sa;
    DigitRunOfDigits(a, sa);
    assert a == (a + sa)[..|a|];
  }

  /** The message tells the count: different counts give different messages. */
  lemma ResultMessageInjective(m: nat, n: nat)
    requires ResultMessage(m) == ResultMessage(n)
    ensures m == n
  {
    ResultMessageCount(m);
    ResultMessageCount(n);
    NatToStringInjective(m, n);
  }

  /** The `get-story-urls` reply: its text and the structured `stories`. */
  function GetStoryUrls(ids: seq<string>, storybookBaseUrl: string): (reply: (string, seq<StoryLink>))
    ensures reply.0 == ResultMessage(|ids|)
    ensures |reply.1| == |ids|
    ensures forall i :: 0 <= i < |ids| ==> reply.1[i] == StoryLink(ids[i], StoryUrl(storybookBaseUrl, ids[i]))
  {
    var results := StoryUrls(ids, storybookBaseUrl);
    (ResultMessage(|results|), results)
  }
}
