/**
 * `fetchAllNews` of scripts/fetch-news.js: merge the configured sources
 * over the defaults, fetch every feed of every category, keep the first
 * article seen for each link, sort newest first and report the top twenty.
 *
 * The network, `new URL(..).hostname`, `new Date(..)` and the clock are
 * parameters: `Env.fetch` gives a feed's body or `None` when the request
 * fails, `Env.hostOf` gives a URL's host or `None` when the URL does not
 * parse, a `dateKey` maps a date text to its time value.
 */
module Aggregator {
  import opened Wrappers
  import opened Strings
  import opened FeedParser
  import opened NewsSort

  // ---------------------------------------------------------------------
  // Sources: `{ ...defaultSources, ...customSources }`
  // ---------------------------------------------------------------------

  /** One entry of a sources object: a category and its feed URLs. */
  datatype Source = Source(category: string, urls: seq<string>)

  const DefaultSources: seq<Source> := [
    Source("design", ["https://www.smashingmagazine.com/feed"]),
    Source("tech", ["https://www.theverge.com/rss/index.xml", "https://techcrunch.com/feed"]),
    Source("photography", ["https://iso.500px.com/feed"])
  ]

  /** The categories, in the order the object enumerates them. */
  function Categories(ss: seq<Source>): (r: seq<string>)
    ensures |r| == |ss|
  {
    if ss == [] then [] else [ss[0].category] + Categories(ss[1..])
  }

  /** The URLs of a category, as a property read finds them. */
  function Lookup(ss: seq<Source>, c: string): Option<seq<string>> {
    if ss == [] then None
    else if ss[0].category == c then Some(ss[0].urls)
    else Lookup(ss[1..], c)
  }

  /** An object has each key once. */
  ghost predicate DistinctCategories(ss: seq<Source>) {
    forall i, j :: 0 <= i < j < |ss| ==> ss[i].category != ss[j].category
  }

  /** Assigning a property: an existing key keeps its place and takes the
      new value, a new key goes last. */
  function Put(ss: seq<Source>, c: string, urls: seq<string>): (r: seq<Source>)
    ensures |ss| <= |r| <= |ss| + 1
  {
    if ss == [] then [Source(c, urls)]
    else if ss[0].category == c then [Source(c, urls)] + ss[1..]
    else [ss[0]] + Put(ss[1..], c, urls)
  }

  /** The entries of `custom` spread over `base`, one after the other: the
      base's entries stay, and each custom entry adds at most one. */
  function MergeSources(base: seq<Source>, custom: seq<Source>): (r: seq<Source>)
    ensures |base| <= |r| <= |base| + |custom|
    decreases |custom|
  {
    if custom == [] then base
    else MergeSources(Put(base, custom[0].category, custom[0].urls), custom[1..])
  }

  /** The URLs the last entry of `custom` for `c` gives, if any. */
  function LastUrls(custom: seq<Source>, c: string): Option<seq<string>> {
    if custom == [] then None
    else match LastUrls(custom[1..], c)
      case Some(u) => Some(u)
      case None => if custom[0].category == c then Some(custom[0].urls) else None
  }

  /** The sources a run uses: the defaults when the sources file is missing
      or does not parse (`None`), else the file's entries over the defaults. */
  function SourcesFor(custom: Option<seq<Source>>): (r: seq<Source>)
    ensures custom.None? ==> r == DefaultSources
    ensures custom.Some? ==> |DefaultSources| <= |r| <= |DefaultSources| + |custom.value|
  {
    match custom
    case None => DefaultSources
    case Some(c) => MergeSources(DefaultSources, c)
  }

  lemma {:induction false} LookupCategories(ss: seq<Source>, c: string)
    ensures Lookup(ss, c).Some? <==> c in Categories(ss)
  {
    if ss != [] {
      LookupCategories(ss[1..], c);
    }
  }

  /** After `Put`, `c` reads the new URLs and every other key reads what it
      read before. */
  lemma {:induction false} PutLookup(ss: seq<Source>, c: string, urls: seq<string>, d: string)
    ensures Lookup(Put(ss, c, urls), d) == if d == c then Some(urls) else Lookup(ss, d)
  {
    if ss != [] && ss[0].category != c {
      PutLookup(ss[1..], c, urls, d);
    }
  }

  /** `Put` keeps the keys in place and appends a new one. */
  lemma {:induction false} PutCategories(ss: seq<Source>, c: string, urls: seq<string>)
    ensures Categories(Put(ss, c, urls)) == if c in Categories(ss) then Categories(ss) else Categories(ss) + [c]
  {
    if ss != [] && ss[0].category != c {
      PutCategories(ss[1..], c, urls);
      assert Categories(ss) == [ss[0].category] + Categories(ss[1..]);
    }
  }

  /** A key read in the merged sources gives the last custom entry for it,
      or the base's when `custom` has none. */
  lemma {:induction false} MergeLookup(base: seq<Source>, custom: seq<Source>, c: string)
    ensures Lookup(MergeSources(base, custom), c) == match LastUrls(custom, c)
      case Some(u) => Some(u)
      case None => Lookup(base, c)
    decreases |custom|
  {
    if custom != [] {
      MergeLookup(Put(base, custom[0].category, custom[0].urls), custom[1..], c);
      PutLookup(base, custom[0].category, custom[0].urls, c);
    }
  }

  /** The base's keys stay first, in their order. */
  lemma {:induction false} MergeKeepsOrder(base: seq<Source>, custom: seq<Source>)
    ensures |Categories(base)| <= |Categories(MergeSources(base, custom))|
    ensures Categories(MergeSources(base, custom))[..|base|] == Categories(base)
    decreases |custom|
  {
    if custom != [] {
      var b := Put(base, custom[0].category, custom[0].urls);
      PutCategories(base, custom[0].category, custom[0].urls);
      MergeKeepsOrder(b, custom[1..]);
      assert Categories(b)[..|base|] == Categories(base);
    }
  }

  lemma {:induction false} CategoriesIndex(ss: seq<Source>, i: nat)
    requires i < |ss|
    ensures Categories(ss)[i] == ss[i].category
  {
    if i > 0 {
      CategoriesIndex(ss[1..], i - 1);
    }
  }

  lemma {:induction false} PutDistinct(ss: seq<Source>, c: string, urls: seq<string>)
    requires DistinctCategories(ss)
    ensures DistinctCategories(Put(ss, c, urls))
  {
    var r := Put(ss, c, urls);
    PutCategories(ss, c, urls);
    forall i, j | 0 <= i < j < |r| ensures r[i].category != r[j].category {
      CategoriesIndex(r, i);
      CategoriesIndex(r, j);
      if j < |ss| {
        CategoriesIndex(ss, i);
        CategoriesIndex(ss, j);
      } else {
        forall k | 0 <= k < |ss| ensures Categories(ss)[k] != c {
          CategoriesIndex(ss, k);
        }
      }
    }
  }

  /** The merged sources are still an object: no key twice. */
  lemma {:induction false} MergeDistinct(base: seq<Source>, custom: seq<Source>)
    requires DistinctCategories(base)
    ensures DistinctCategories(MergeSources(base, custom))
    decreases |custom|
  {
    if custom != [] {
      PutDistinct(base, custom[0].category, custom[0].urls);
      MergeDistinct(Put(base, custom[0].category, custom[0].urls), custom[1..]);
    }
  }

  /** Without a sources file the run uses the three default categories; with
      one, the defaults keep their order and only the file's own categories
      change or are added. */
  lemma SourcesForShape(custom: Option<seq<Source>>, c: string)
    ensures DistinctCategories(SourcesFor(custom))
    ensures 3 <= |SourcesFor(custom)|
    ensures Categories(SourcesFor(custom))[..3] == ["design", "tech", "photography"]
    ensures custom.Some? && LastUrls(custom.value, c).Some? ==> Lookup(SourcesFor(custom), c) == LastUrls(custom.value, c)
    ensures (custom.None? || LastUrls(custom.value, c).None?) ==> Lookup(SourcesFor(custom), c) == Lookup(DefaultSources, c)
  {
    assert Categories(DefaultSources) == ["design", "tech", "photography"];
    if custom.Some? {
      MergeDistinct(DefaultSources, custom.value);
      MergeKeepsOrder(DefaultSources, custom.value);
      MergeLookup(DefaultSources, custom.value, c);
    }
  }

  // ---------------------------------------------------------------------
  // The stories one run collects, in visiting order
  // ---------------------------------------------------------------------

  /** `{ ...article, category }`. */
  datatype Story = Story(article: Article, category: string)

  /** What the run cannot compute itself. */
  datatype Env = Env(fetch: string -> Option<string>, hostOf: string -> Option<string>, now: string)

  /** The source name of a feed: its host with the first `www.` removed, or
      `None` when the URL does not parse. */
  function SourceName(url: string, env: Env): Option<string> {
    match env.hostOf(url)
    case None => None
    case Some(h) => Some(RemoveFirst(h, "www."))
  }

  /** The source name and body of a feed the run parses: the URL parses,
      the request succeeds and the trimmed body is at least 100 UTF-16 code
      units long (`xmlData.trim().length`). */
  function Fetched(url: string, env: Env): (r: Option<(string, string)>)
    ensures r.Some? <==> SourceName(url, env).Some? && env.fetch(url).Some? && Utf16Length(Trim(env.fetch(url).value)) >= 100
    ensures r.Some? ==> r.value == (SourceName(url, env).value, env.fetch(url).value)
  {
    match SourceName(url, env)
    case None => None
    case Some(host) =>
      match env.fetch(url)
      case None => None
      case Some(xml) => if Utf16Length(Trim(xml)) < 100 then None else Some((host, xml))
  }

  function Tag(articles: seq<Article>, category: string): (r: seq<Story>)
    ensures |r| == |articles|
    ensures forall k :: 0 <= k < |r| ==> r[k] == Story(articles[k], category)
  {
    seq(|articles|, k requires 0 <= k < |articles| => Story(articles[k], category))
  }

  /** The stories one feed URL contributes before duplicates are dropped. */
  function UrlStories(url: string, category: string, env: Env): (r: seq<Story>)
    ensures Fetched(url, env).None? ==> r == []
    ensures r != [] ==> Fetched(url, env).Some?
    ensures forall k :: 0 <= k < |r| ==> r[k].category == category && r[k].article.source == Fetched(url, env).value.0
  {
    match Fetched(url, env)
    case None => []
    case Some((host, xml)) => Tag(ParseSpec(xml, host, env.now), category)
  }

  /** The stories each URL of a category contributes. */
  function Visit(category: string, env: Env): string -> seq<Story> {
    url => UrlStories(url, category, env)
  }

  /** The stories of `urls`, in URL order, `visit` giving each URL's. */
  function Concat(urls: seq<string>, visit: string -> seq<Story>): seq<Story> {
    if urls == [] then [] else Concat(urls[..|urls| - 1], visit) + visit(urls[|urls| - 1])
  }

  /** The stories of a category's URLs, in URL order. */
  function CategoryStories(category: string, urls: seq<string>, env: Env): (r: seq<Story>)
    ensures forall k :: 0 <= k < |r| ==> r[k].category == category
  {
    ConcatFiled(urls, Visit(category, env), category);
    Concat(urls, Visit(category, env))
  }

  /** A visit whose every URL gives stories filed under `category` gives
      only such stories. */
  lemma {:induction false} ConcatFiled(urls: seq<string>, visit: string -> seq<Story>, category: string)
    requires forall u, k :: 0 <= k < |visit(u)| ==> visit(u)[k].category == category
    ensures forall k :: 0 <= k < |Concat(urls, visit)| ==> Concat(urls, visit)[k].category == category
    decreases |urls|
  {
    if urls != [] {
      var a, b := Concat(urls[..|urls| - 1], visit), visit(urls[|urls| - 1]);
      ConcatFiled(urls[..|urls| - 1], visit, category);
      assert Concat(urls, visit) == a + b;
      assert forall k :: 0 <= k < |a + b| ==> (a + b)[k] == if k < |a| then a[k] else b[k - |a|];
    }
  }

  /** The stories of all sources, in category order. */
  function AllStories(sources: seq<Source>, env: Env): (r: seq<Story>)
    ensures forall k :: 0 <= k < |r| ==> r[k].category in Categories(sources)
  {
    if sources == [] then []
    else
      var last := sources[|sources| - 1];
      var a, b := AllStories(sources[..|sources| - 1], env), CategoryStories(last.category, last.urls, env);
      JoinFiled(a, b, sources);
      a + b
  }

  /** Stories filed under the categories before the last one, then stories
      filed under the last one, are filed under the categories of all. */
  lemma JoinFiled(a: seq<Story>, b: seq<Story>, sources: seq<Source>)
    requires sources != []
    requires forall k :: 0 <= k < |a| ==> a[k].category in Categories(sources[..|sources| - 1])
    requires forall k :: 0 <= k < |b| ==> b[k].category == sources[|sources| - 1].category
    ensures forall k :: 0 <= k < |a + b| ==> (a + b)[k].category in Categories(sources)
  {
    CategoriesSnoc(sources);
    forall k | 0 <= k < |a + b| ensures (a + b)[k].category in Categories(sources) {
      if k < |a| {
        assert (a + b)[k] == a[k];
      } else {
        assert (a + b)[k] == b[k - |a|];
      }
    }
  }

  lemma {:induction false} CategoriesSnoc(ss: seq<Source>)
    requires ss != []
    ensures Categories(ss) == Categories(ss[..|ss| - 1]) + [ss[|ss| - 1].category]
  {
    if |ss| > 1 {
      CategoriesSnoc(ss[1..]);
      assert ss[1..][..|ss[1..]| - 1] == ss[..|ss| - 1][1..];
    }
  }

  lemma {:induction false} ConcatAppend(a: seq<string>, b: seq<string>, visit: string -> seq<Story>)
    ensures Concat(a + b, visit) == Concat(a, visit) + Concat(b, visit)
    decreases |b|
  {
    if b == [] {
      assert a + b == a;
    } else {
      var init := b[..|b| - 1];
      ConcatAppend(a, init, visit);
      assert (a + b)[..|a + b| - 1] == a + init;
    }
  }

  /** A URL with no stories can be dropped from the visit. */
  lemma {:induction false} ConcatSkip(urls: seq<string>, k: nat, visit: string -> seq<Story>)
    requires k < |urls| && visit(urls[k]) == []
    ensures Concat(urls, visit) == Concat(urls[..k] + urls[k + 1..], visit)
  {
    assert urls == urls[..k] + ([urls[k]] + urls[k + 1..]);
    ConcatDrop(urls[..k], urls[k], urls[k + 1..], visit);
  }

  lemma {:induction false} ConcatDrop(pre: seq<string>, url: string, post: seq<string>, visit: string -> seq<Story>)
    requires visit(url) == []
    ensures Concat(pre + ([url] + post), visit) == Concat(pre + post, visit)
  {
    ConcatAppend(pre, [url] + post, visit);
    ConcatAppend([url], post, visit);
    ConcatAppend(pre, post, visit);
    ConcatOne(url, visit);
  }

  lemma ConcatOne(url: string, visit: string -> seq<Story>)
    ensures Concat([url], visit) == visit(url)
  {
    assert [url][..0] == [];
  }

  /** A URL that does not parse, whose request fails or whose body is too
      short adds nothing, and the URLs after it are still visited. */
  lemma CategoryStoriesSkip(category: string, urls: seq<string>, k: nat, env: Env)
    requires k < |urls| && Fetched(urls[k], env).None?
    ensures CategoryStories(category, urls, env) == CategoryStories(category, urls[..k] + urls[k + 1..], env)
  {
    assert Visit(category, env)(urls[k]) == [];
    ConcatSkip(urls, k, Visit(category, env));
  }

  // ---------------------------------------------------------------------
  // Keeping the first story for each link
  // ---------------------------------------------------------------------

  /** `seenLinks`: the links of the stories kept so far. */
  function LinkSet(xs: seq<Story>): set<string> {
    if xs == [] then {} else LinkSet(xs[..|xs| - 1]) + {xs[|xs| - 1].article.link}
  }

  /** One step of `articles.forEach`: push the story unless its link was seen. */
  function Step(kept: seq<Story>, x: Story): seq<Story> {
    if x.article.link in LinkSet(kept) then kept else kept + [x]
  }

  /** The kept stories after offering `xs` one after the other. */
  function Extend(kept: seq<Story>, xs: seq<Story>): (r: seq<Story>)
    ensures |kept| <= |r| <= |kept| + |xs|
    decreases |xs|
  {
    if xs == [] then kept else Extend(Step(kept, xs[0]), xs[1..])
  }

  function Dedup(xs: seq<Story>): (r: seq<Story>)
    ensures |r| <= |xs|
  {
    Extend([], xs)
  }

  /** Reference reading of the filter: a story stays exactly when no
      earlier story, and nothing in `seen`, has its link. */
  function Firsts(xs: seq<Story>, seen: set<string>): seq<Story>
    decreases |xs|
  {
    if xs == [] then []
    else if xs[0].article.link in seen then Firsts(xs[1..], seen)
    else [xs[0]] + Firsts(xs[1..], seen + {xs[0].article.link})
  }

  ghost predicate DistinctLinks(xs: seq<Story>) {
    forall i, j :: 0 <= i < j < |xs| ==> xs[i].article.link != xs[j].article.link
  }

  lemma LinkSetSnoc(xs: seq<Story>, x: Story)
    ensures LinkSet(xs + [x]) == LinkSet(xs) + {x.article.link}
  {
    assert (xs + [x])[..|xs|] == xs;
  }

  lemma {:induction false} LinkSetMeans(xs: seq<Story>, l: string)
    ensures l in LinkSet(xs) <==> exists i :: 0 <= i < |xs| && xs[i].article.link == l
    decreases |xs|
  {
    if xs != [] {
      var init := xs[..|xs| - 1];
      LinkSetMeans(init, l);
      if l in LinkSet(init) {
        var i :| 0 <= i < |init| && init[i].article.link == l;
        assert xs[i] == init[i];
      }
      if exists i :: 0 <= i < |xs| && xs[i].article.link == l {
        var i :| 0 <= i < |xs| && xs[i].article.link == l;
        if i < |init| {
          assert init[i] == xs[i];
        }
      }
    }
  }

  /** Offering `a` and then `b` is offering `a + b`. */
  lemma {:induction false} ExtendAppend(kept: seq<Story>, a: seq<Story>, b: seq<Story>)
    ensures Extend(kept, a + b) == Extend(Extend(kept, a), b)
    decreases |a|
  {
    if a == [] {
      assert a + b == b;
    } else {
      assert (a + b)[1..] == a[1..] + b;
      ExtendAppend(Step(kept, a[0]), a[1..], b);
    }
  }

  lemma ExtendSnoc(kept: seq<Story>, a: seq<Story>, x: Story)
    ensures Extend(kept, a + [x]) == Step(Extend(kept, a), x)
  {
    ExtendAppend(kept, a, [x]);
    assert [x][1..] == [];
  }

  /** The loop's filter is the reference reading: the first story for each
      link not yet seen, in order. */
  lemma {:induction false} ExtendIsFirsts(kept: seq<Story>, xs: seq<Story>)
    ensures Extend(kept, xs) == kept + Firsts(xs, LinkSet(kept))
    decreases |xs|
  {
    if xs == [] {
      assert kept + [] == kept;
    } else {
      var x := xs[0];
      if x.article.link in LinkSet(kept) {
        ExtendIsFirsts(kept, xs[1..]);
      } else {
        ExtendIsFirsts(kept + [x], xs[1..]);
        LinkSetSnoc(kept, x);
        assert (kept + [x]) + Firsts(xs[1..], LinkSet(kept) + {x.article.link})
          == kept + ([x] + Firsts(xs[1..], LinkSet(kept) + {x.article.link}));
      }
    }
  }

  /** The filter keeps no link twice and none of `seen`. */
  lemma {:induction false} FirstsDistinct(xs: seq<Story>, seen: set<string>)
    ensures DistinctLinks(Firsts(xs, seen))
    ensures forall k :: 0 <= k < |Firsts(xs, seen)| ==> Firsts(xs, seen)[k].article.link !in seen
    decreases |xs|
  {
    if xs != [] {
      var x := xs[0];
      if x.article.link in seen {
        FirstsDistinct(xs[1..], seen);
      } else {
        var seen' := seen + {x.article.link};
        FirstsDistinct(xs[1..], seen');
        var t := Firsts(xs[1..], seen');
        var r := [x] + t;
        assert Firsts(xs, seen) == r;
        forall i, j | 0 <= i < j < |r| ensures r[i].article.link != r[j].article.link {
          assert r[j] == t[j - 1];
          if i > 0 {
            assert r[i] == t[i - 1];
          }
        }
      }
    }
  }

  /** The filter keeps a link for every link of `xs` not in `seen`. */
  lemma {:induction false} FirstsLinks(xs: seq<Story>, seen: set<string>)
    ensures LinkSet(Firsts(xs, seen)) == LinkSet(xs) - seen
    decreases |xs|
  {
    if xs != [] {
      var x := xs[0];
      var l := x.article.link;
      assert xs == [x] + xs[1..];
      LinkSetFront(x, xs[1..]);
      if l in seen {
        FirstsLinks(xs[1..], seen);
      } else {
        FirstsLinks(xs[1..], seen + {l});
        LinkSetFront(x, Firsts(xs[1..], seen + {l}));
      }
    }
  }

  /** The filter keeps only stories of `xs`. */
  lemma {:induction false} FirstsIn(xs: seq<Story>, seen: set<string>)
    ensures forall e :: e in Firsts(xs, seen) ==> e in xs
    decreases |xs|
  {
    if xs != [] {
      var x := xs[0];
      var seen' := if x.article.link in seen then seen else seen + {x.article.link};
      FirstsIn(xs[1..], seen');
      assert xs == [x] + xs[1..];
    }
  }

  lemma {:induction false} LinkSetFront(x: Story, xs: seq<Story>)
    ensures LinkSet([x] + xs) == {x.article.link} + LinkSet(xs)
    decreases |xs|
  {
    if xs == [] {
      assert [x] + xs == [x];
      assert [x][..0] == [];
    } else {
      var init := xs[..|xs| - 1];
      LinkSetFront(x, init);
      assert ([x] + xs)[..|xs|] == [x] + init;
    }
  }

  /** A story whose link is new, and whose link no earlier story has, is
      kept. */
  lemma {:induction false} FirstsKeepsFirst(xs: seq<Story>, seen: set<string>, i: nat)
    requires i < |xs| && xs[i].article.link !in seen
    requires forall j :: 0 <= j < i ==> xs[j].article.link != xs[i].article.link
    ensures xs[i] in Firsts(xs, seen)
    decreases |xs|
  {
    if i > 0 {
      var x := xs[0];
      var seen' := if x.article.link in seen then seen else seen + {x.article.link};
      forall j | 0 <= j < i - 1 ensures xs[1..][j].article.link != xs[1..][i - 1].article.link {
        assert xs[1..][j] == xs[j + 1];
      }
      FirstsKeepsFirst(xs[1..], seen', i - 1);
    }
  }

  /** `Dedup` keeps exactly one story for each link, the first one. */
  lemma DedupFirsts(xs: seq<Story>)
    ensures Dedup(xs) == Firsts(xs, {})
    ensures DistinctLinks(Dedup(xs))
    ensures LinkSet(Dedup(xs)) == LinkSet(xs)
    ensures forall e :: e in Dedup(xs) ==> e in xs
  {
    ExtendIsFirsts([], xs);
    assert [] + Firsts(xs, {}) == Firsts(xs, {});
    FirstsDistinct(xs, {});
    FirstsLinks(xs, {});
    FirstsIn(xs, {});

  }

  /** The first story with a link is the one kept for it. */
  lemma DedupKeepsFirst(xs: seq<Story>, i: nat)
    requires i < |xs| && forall j :: 0 <= j < i ==> xs[j].article.link != xs[i].article.link
    ensures xs[i] in Dedup(xs)
  {
    ExtendIsFirsts([], xs);
    assert [] + Firsts(xs, {}) == Firsts(xs, {});
    FirstsKeepsFirst(xs, {}, i);
  }

  // ---------------------------------------------------------------------
  // The result
  // ---------------------------------------------------------------------

  /** The saved result: the run's timestamp, the number of unique stories
      and the newest twenty of them. */
  datatype NewsResult = NewsResult(timestamp: string, count: nat, articles: seq<Story>)

  const TopCount := 20

  /** The sort key: the time value of the story's date. */
  function StoryKey(dateKey: string -> int): Story -> int {
    (s: Story) => dateKey(s.article.pubDate)
  }

  /** What `fetchAllNews` returns and saves. */
  function NewsSpec(custom: Option<seq<Source>>, env: Env, dateKey: string -> int, timestamp: string): (r: NewsResult)
    ensures r.timestamp == timestamp && |r.articles| == Min(TopCount, r.count) <= TopCount
  {
    var all := Dedup(AllStories(SourcesFor(custom), env));
    NewsResult(timestamp, |all|, SortNewest(all, StoryKey(dateKey))[..Min(TopCount, |all|)])
  }

  /** A story the feed at `url` contributes to `category`: one of the
      articles parsed from that feed's body, well formed, named after the
      feed's host and filed under `category`. */
  ghost predicate FromFeed(s: Story, category: string, url: string, env: Env) {
    Fetched(url, env).Some?
    && s.article in ParseSpec(Fetched(url, env).value.1, Fetched(url, env).value.0, env.now)
    && s.category == category
    && SourceName(url, env) == Some(s.article.source)
    && WellFormed(s.article, s.article.source)
  }

  /** A story of the run: it comes from the feed at some URL of some
      category of `sources`, and is filed under that category. */
  ghost predicate Reportable(s: Story, sources: seq<Source>, env: Env) {
    exists i, u :: 0 <= i < |sources| && u in sources[i].urls && FromFeed(s, sources[i].category, u, env)
  }

  /** Every story one URL contributes is an article of its feed, filed under
      the category. */
  lemma UrlStoriesFromFeed(url: string, category: string, env: Env)
    ensures forall k :: 0 <= k < |UrlStories(url, category, env)| ==> FromFeed(UrlStories(url, category, env)[k], category, url, env)
  {
    match Fetched(url, env)
    case None =>
    case Some((host, xml)) =>
      var articles := ParseSpec(xml, host, env.now);
      forall k | 0 <= k < |UrlStories(url, category, env)| ensures FromFeed(UrlStories(url, category, env)[k], category, url, env) {
        assert UrlStories(url, category, env)[k] == Story(articles[k], category);
        assert WellFormed(articles[k], host);
      }
  }

  /** A story the feed at one of `urls` contributes to `category`. */
  ghost predicate FromFeeds(s: Story, category: string, urls: seq<string>, env: Env) {
    exists u :: u in urls && FromFeed(s, category, u, env)
  }

  /** Every story of a category is an article of the feed at one of its
      URLs, filed under that category. */
  lemma CategoryStoriesReportable(category: string, urls: seq<string>, env: Env)
    ensures forall k :: 0 <= k < |CategoryStories(category, urls, env)| ==>
      FromFeeds(CategoryStories(category, urls, env)[k], category, urls, env)
  {
    var cs := CategoryStories(category, urls, env);
    ConcatFrom(urls, Visit(category, env));
    forall k | 0 <= k < |cs| ensures FromFeeds(cs[k], category, urls, env) {
      assert FromSome(cs[k], urls, Visit(category, env));
      var u :| u in urls && cs[k] in Visit(category, env)(u);
      VisitFromFeed(cs[k], category, u, env);
      assert u in urls && FromFeed(cs[k], category, u, env);
    }
  }

  lemma VisitFromFeed(s: Story, category: string, url: string, env: Env)
    requires s in Visit(category, env)(url)
    ensures FromFeed(s, category, url, env)
  {
    UrlStoriesFromFeed(url, category, env);
    var j :| 0 <= j < |UrlStories(url, category, env)| && UrlStories(url, category, env)[j] == s;
  }

  /** `s` is among what `visit` gives for one of `urls`. */
  ghost predicate FromSome(s: Story, urls: seq<string>, visit: string -> seq<Story>) {
    exists u :: u in urls && s in visit(u)
  }

  /** Every story of a visit comes from one of the URLs visited. */
  lemma {:induction false} ConcatFrom(urls: seq<string>, visit: string -> seq<Story>)
    ensures forall k :: 0 <= k < |Concat(urls, visit)| ==> FromSome(Concat(urls, visit)[k], urls, visit)
    decreases |urls|
  {
    if urls != [] {
      var init := urls[..|urls| - 1];
      var last := urls[|urls| - 1];
      ConcatFrom(init, visit);
      var a := Concat(init, visit);
      var b := visit(last);
      var cs := Concat(urls, visit);
      assert cs == a + b;
      forall k | 0 <= k < |cs| ensures FromSome(cs[k], urls, visit) {
        if k >= |a| {
          assert cs[k] == b[k - |a|];
          assert last in urls && cs[k] in visit(last);
        } else {
          assert cs[k] == a[k];
          assert FromSome(a[k], init, visit);
          var u :| u in init && a[k] in visit(u);
          assert u in urls && cs[k] in visit(u);
        }
      }
    } else {
      assert Concat(urls, visit) == [];
    }
  }

  /** The visit of each category's URLs, by category. */
  function Visits(env: Env): string -> string -> seq<Story> {
    category => Visit(category, env)
  }

  /** `s` is among what the visit of a category of `sources` gives. */
  ghost predicate Contributed(s: Story, sources: seq<Source>, visits: string -> string -> seq<Story>) {
    exists i :: 0 <= i < |sources| && FromSome(s, sources[i].urls, visits(sources[i].category))
  }

  /** Every story of the run comes from the visit of one of the sources. */
  lemma {:induction false} AllStoriesContributed(sources: seq<Source>, env: Env)
    ensures forall k :: 0 <= k < |AllStories(sources, env)| ==> Contributed(AllStories(sources, env)[k], sources, Visits(env))
    decreases |sources|
  {
    if sources != [] {
      var n := |sources| - 1;
      var init := sources[..n];
      var last := sources[n];
      AllStoriesContributed(init, env);
      assert Visits(env)(last.category) == Visit(last.category, env);
      ConcatFrom(last.urls, Visits(env)(last.category));
      var a := AllStories(init, env);
      var b := Concat(last.urls, Visits(env)(last.category));
      assert AllStories(sources, env) == a + b;
      ContributedJoin(a, b, sources, Visits(env));
    } else {
      assert AllStories(sources, env) == [];
    }
  }

  /** The stories of the sources before the last one, then those of the
      last one, all come from the sources. */
  lemma ContributedJoin(a: seq<Story>, b: seq<Story>, sources: seq<Source>, visits: string -> string -> seq<Story>)
    requires sources != []
    requires forall k :: 0 <= k < |a| ==> Contributed(a[k], sources[..|sources| - 1], visits)
    requires forall k :: 0 <= k < |b| ==> FromSome(b[k], sources[|sources| - 1].urls, visits(sources[|sources| - 1].category))
    ensures forall k :: 0 <= k < |a + b| ==> Contributed((a + b)[k], sources, visits)
  {
    var n := |sources| - 1;
    forall k | 0 <= k < |a + b| ensures Contributed((a + b)[k], sources, visits) {
      if k >= |a| {
        assert (a + b)[k] == b[k - |a|];
        assert FromSome((a + b)[k], sources[n].urls, visits(sources[n].category));
      } else {
        assert (a + b)[k] == a[k];
        var init := sources[..n];
        var i :| 0 <= i < |init| && FromSome(a[k], init[i].urls, visits(init[i].category));
        assert init[i] == sources[i];
        assert FromSome((a + b)[k], sources[i].urls, visits(sources[i].category));
      }
    }
  }

  /** A story of a visit is an article of its feed. */
  lemma ContributedFromFeed(s: Story, sources: seq<Source>, env: Env)
    requires Contributed(s, sources, Visits(env))
    ensures Reportable(s, sources, env) && s.category in Categories(sources)
  {
    var i :| 0 <= i < |sources| && FromSome(s, sources[i].urls, Visits(env)(sources[i].category));
    var c := sources[i].category;
    assert Visits(env)(c) == Visit(c, env);
    var u :| u in sources[i].urls && s in Visit(c, env)(u);
    VisitFromFeed(s, c, u, env);
    CategoriesIndex(sources, i);
  }

  /** Every story of the run comes from the feed at a URL of one of the
      sources, filed under that source's category. */
  lemma AllStoriesReportable(sources: seq<Source>, env: Env)
    ensures forall k :: 0 <= k < |AllStories(sources, env)| ==>
      Reportable(AllStories(sources, env)[k], sources, env) && AllStories(sources, env)[k].category in Categories(sources)
  {
    AllStoriesContributed(sources, env);
    forall k | 0 <= k < |AllStories(sources, env)|
      ensures Reportable(AllStories(sources, env)[k], sources, env) && AllStories(sources, env)[k].category in Categories(sources)
    {
      ContributedFromFeed(AllStories(sources, env)[k], sources, env);
    }
  }

  /** The unique stories of a run, in the order they were first seen. */
  function Unique(custom: Option<seq<Source>>, env: Env): seq<Story> {
    Dedup(AllStories(SourcesFor(custom), env))
  }

  /** The result carries the run's timestamp, counts every unique story and
      reports the twenty newest, or all of them when there are fewer. */
  lemma NewsSpecTop(custom: Option<seq<Source>>, env: Env, dateKey: string -> int, timestamp: string)
    ensures var r := NewsSpec(custom, env, dateKey, timestamp);
      var sorted := SortNewest(Unique(custom, env), StoryKey(dateKey));
      r.timestamp == timestamp && r.count == |Unique(custom, env)|
      && |r.articles| == Min(TopCount, r.count) <= TopCount
      && r.articles == sorted[..|r.articles|]
      && NewestFirst(sorted, StoryKey(dateKey))
      && multiset(sorted) == multiset(Unique(custom, env))
  {
    SortNewestSorted(Unique(custom, env), StoryKey(dateKey));
    SortNewestPermutes(Unique(custom, env), StoryKey(dateKey));
  }

  /** A reported story is at least as new as every unique story left out. */
  lemma NewsSpecNewest(custom: Option<seq<Source>>, env: Env, dateKey: string -> int, timestamp: string)
    ensures var r := NewsSpec(custom, env, dateKey, timestamp);
      var sorted := SortNewest(Unique(custom, env), StoryKey(dateKey));
      forall i, j :: 0 <= i < |r.articles| <= j < |sorted| ==>
        dateKey(r.articles[i].article.pubDate) >= dateKey(sorted[j].article.pubDate)
  {
    var r := NewsSpec(custom, env, dateKey, timestamp);
    var sorted := SortNewest(Unique(custom, env), StoryKey(dateKey));
    SortNewestSorted(Unique(custom, env), StoryKey(dateKey));
    forall i, j | 0 <= i < |r.articles| <= j < |sorted|
      ensures dateKey(r.articles[i].article.pubDate) >= dateKey(sorted[j].article.pubDate)
    {
      assert r.articles[i] == sorted[i];
      assert StoryKey(dateKey)(sorted[i]) >= StoryKey(dateKey)(sorted[j]);
    }
  }

  /** No link is reported twice. */
  lemma NewsSpecDistinct(custom: Option<seq<Source>>, env: Env, dateKey: string -> int, timestamp: string)
    ensures DistinctLinks(NewsSpec(custom, env, dateKey, timestamp).articles)
  {
    var all := Unique(custom, env);
    var sorted := SortNewest(all, StoryKey(dateKey));
    var top := NewsSpec(custom, env, dateKey, timestamp).articles;
    DedupFirsts(AllStories(SourcesFor(custom), env));
    SortNewestPermutes(all, StoryKey(dateKey));
    forall i, j | 0 <= i < j < |top| ensures top[i].article.link != top[j].article.link {
      assert top[i] == sorted[i] && top[j] == sorted[j];
      SortedLinksDistinct(all, sorted, i, j);
    }
  }

  /** Every reported story is an article of the feed at a URL of one of
      the run's categories, filed under that category. */
  lemma NewsSpecReportable(custom: Option<seq<Source>>, env: Env, dateKey: string -> int, timestamp: string)
    ensures var top := NewsSpec(custom, env, dateKey, timestamp).articles;
      forall k :: 0 <= k < |top| ==>
        Reportable(top[k], SourcesFor(custom), env) && top[k].category in Categories(SourcesFor(custom))
  {
    var sources := SourcesFor(custom);
    var xs := AllStories(sources, env);
    var all := Unique(custom, env);
    var sorted := SortNewest(all, StoryKey(dateKey));
    var top := NewsSpec(custom, env, dateKey, timestamp).articles;
    DedupFirsts(xs);
    SortNewestPermutes(all, StoryKey(dateKey));
    AllStoriesContributed(sources, env);
    forall k | 0 <= k < |top| ensures Reportable(top[k], sources, env) && top[k].category in Categories(sources) {
      assert top[k] == sorted[k];
      assert sorted[k] in multiset(sorted);
      assert sorted[k] in all;
      var p :| 0 <= p < |xs| && xs[p] == sorted[k];
      ContributedFromFeed(top[k], sources, env);
    }
  }

  /** A permutation of distinct-link stories has distinct links. */
  lemma SortedLinksDistinct(all: seq<Story>, sorted: seq<Story>, i: nat, j: nat)
    requires DistinctLinks(all) && multiset(sorted) == multiset(all)
    requires i < j < |sorted|
    ensures sorted[i].article.link != sorted[j].article.link
  {
    if sorted[i].article.link == sorted[j].article.link {
      assert sorted[i] in multiset(all) && sorted[j] in multiset(all);
      var p :| 0 <= p < |all| && all[p] == sorted[i];
      var q :| 0 <= q < |all| && all[q] == sorted[j];
      assert p == q;
      MultisetOnce(all, p);
      MultisetTwice(sorted, i, j);
    }
  }

  /** An element at two positions occurs at least twice. */
  lemma MultisetTwice(xs: seq<Story>, i: nat, j: nat)
    requires i < j < |xs| && xs[i] == xs[j]
    ensures multiset(xs)[xs[i]] >= 2
  {
    assert xs == xs[..i] + [xs[i]] + xs[i + 1..j] + [xs[j]] + xs[j + 1..];
  }

  /** An element no other element equals occurs once. */
  lemma {:induction false} MultisetOnce(xs: seq<Story>, p: nat)
    requires p < |xs| && forall m :: 0 <= m < |xs| && m != p ==> xs[m] != xs[p]
    ensures multiset(xs)[xs[p]] == 1
  {
    var x := xs[p];
    assert xs == xs[..p] + [x] + xs[p + 1..];
    assert x !in xs[..p] by {
      forall m | 0 <= m < p ensures xs[..p][m] != x {
        assert xs[..p][m] == xs[m];
      }
    }
    var t := xs[p + 1..];
    assert x !in t by {
      forall m | 0 <= m < |t| ensures t[m] != x {
        assert t[m] == xs[p + 1 + m];
      }
    }
  }

  // ---------------------------------------------------------------------
  // fetchAllNews itself
  // ---------------------------------------------------------------------

  /** `articles.forEach(..)`: push each article, tagged with its category,
      whose link was not seen, and record the link. */
  method AddArticles(allNews: seq<Story>, seenLinks: set<string>, articles: seq<Article>, category: string)
    returns (news: seq<Story>, seen: set<string>)
    requires seenLinks == LinkSet(allNews)
    ensures news == Extend(allNews, Tag(articles, category))
    ensures seen == LinkSet(news)
  {
    news, seen := allNews, seenLinks;
    for i := 0 to |articles|
      invariant news == Extend(allNews, Tag(articles[..i], category))
      invariant seen == LinkSet(news)
    {
      var story := Story(articles[i], category);
      assert Tag(articles[..i + 1], category) == Tag(articles[..i], category) + [story];
      ExtendSnoc(allNews, Tag(articles[..i], category), story);
      if story.article.link !in seen {
        LinkSetSnoc(news, story);
        seen := seen + {story.article.link};
        news := news + [story];
      }
    }
    assert articles[..|articles|] == articles;
  }

  /** The stories of one category's URLs, offered to the filter. */
  method FetchCategory(allNews: seq<Story>, seenLinks: set<string>, category: string, urls: seq<string>, env: Env)
    returns (news: seq<Story>, seen: set<string>)
    requires seenLinks == LinkSet(allNews)
    ensures news == Extend(allNews, CategoryStories(category, urls, env))
    ensures seen == LinkSet(news)
  {
    news, seen := allNews, seenLinks;
    for i := 0 to |urls|
      invariant news == Extend(allNews, CategoryStories(category, urls[..i], env))
      invariant seen == LinkSet(news)
    {
      var url := urls[i];
      assert urls[..i + 1][..i] == urls[..i];
      ExtendAppend(allNews, CategoryStories(category, urls[..i], env), UrlStories(url, category, env));
      var host := env.hostOf(url);
      if host.Some? {
        var hostname := RemoveFirst(host.value, "www.");
        var xmlData := env.fetch(url);
        if xmlData.Some? && Utf16Length(Trim(xmlData.value)) >= 100 {
          var articles := ParseRSS(xmlData.value, hostname, env.now);
          news, seen := AddArticles(news, seen, articles, category);
        } else {
          assert UrlStories(url, category, env) == [];
        }
      } else {
        assert UrlStories(url, category, env) == [];
      }
    }
    assert urls[..|urls|] == urls;
  }

  /** The loop over categories: every category's stories offered to the
      filter in turn, starting from nothing seen. */
  method FetchSources(sources: seq<Source>, env: Env) returns (allNews: seq<Story>)
    ensures allNews == Dedup(AllStories(sources, env))
  {
    allNews := [];
    var seenLinks: set<string> := {};
    for i := 0 to |sources|
      invariant allNews == Dedup(AllStories(sources[..i], env))
      invariant seenLinks == LinkSet(allNews)
    {
      assert sources[..i + 1][..i] == sources[..i];
      ExtendAppend([], AllStories(sources[..i], env), CategoryStories(sources[i].category, sources[i].urls, env));
      allNews, seenLinks := FetchCategory(allNews, seenLinks, sources[i].category, sources[i].urls, env);
    }
    assert sources[..|sources|] == sources;
  }

  /** `fetchAllNews()` up to the file write: the merged sources, the
      filtered stories sorted in place, the count and the top twenty. */
  method FetchAllNews(custom: Option<seq<Source>>, env: Env, dateKey: string -> int, timestamp: string)
    returns (result: NewsResult)
    ensures result == NewsSpec(custom, env, dateKey, timestamp)
  {
    var sources := DefaultSources;
    if custom.Some? {
      sources := MergeSources(DefaultSources, custom.value);
    }
    assert sources == SourcesFor(custom);
    var allNews := FetchSources(sources, env);
    var top := SortTop(allNews, dateKey);
    result := NewsResult(timestamp, |allNews|, top);
  }

  /** `allNews.sort(..)` on the array, then `slice(0, 20)`. */
  method SortTop(allNews: seq<Story>, dateKey: string -> int) returns (top: seq<Story>)
    ensures top == SortNewest(allNews, StoryKey(dateKey))[..Min(TopCount, |allNews|)]
  {
    var news := new Story[|allNews|](k requires 0 <= k < |allNews| => allNews[k]);
    assert news[..] == allNews;
    SortInPlace(news, StoryKey(dateKey));
    top := news[..Min(TopCount, news.Length)];
  }
}
