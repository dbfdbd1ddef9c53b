# Report center feed scripts, modelled in Dafny

The report center is a static dashboard. Its page shows AI news and trending tools. The data comes from JSON files that standalone scripts produce. This project models the logic of those scripts and proves properties of the model:

- **scripts/fetch-news.js** is the RSS ingestion pipeline.
  - `cleanCDATAText` unwraps CDATA sections.
  - `extractBetween` finds the first case-insensitive `start…end` span. It then unwraps CDATA, turns tags into spaces, collapses whitespace and trims.
  - `parseRSS` drops the XML declaration and comments. It then walks the `<item…</item>` fragments in document order and keeps the items that have a title and a link.
  - `fetchAllNews` merges the custom sources over the defaults and fetches every feed of every category in order. It skips failed or too-short responses, keeps the first article for each link, sorts stably newest first, counts, and keeps the top twenty.
- **scripts/update-briefing.py** covers:
  - turning search results into news items (`format_news_item`);
  - the curated fallback list (`get_fallback_news`) and how `main` chooses between that list and the API results;
  - the hero and list entries that `update_app_js` builds, with single quotes escaped in titles.
- **scripts/fetch-tools.js** covers:
  - the first-eight-products normalisation of `fetchProductHunt`, with its field defaults and the day stamp;
  - the curated list of `getFallbackTools`, used when the response cannot be used.

## Modules

- `Wrappers` (wrappers.dfy): `Option` and `Min`.
- `Strings` (strings.dfy): text helpers.
  - The JavaScript `\s` set.
  - ASCII case folding. This is what the `i` flag does for the ASCII patterns the scripts use.
  - Literal pattern search, `trim`, and the string form of `replace`.
- `FeedText` (feed_text.dfy): `cleanCDATAText` and `extractBetween`. Each regular expression becomes a left-to-right scanner that follows that expression's matching rules.
- `FeedParser` (feed_parser.dfy): `parseRSS`.
  - `ParseRSS` is a method with the source's `while` loop over the item matches.
  - `ParseSpec` is the function that specifies it.
- `NewsSort` (news_sort.dfy): the sort.
  - `SortInPlace` is an in-place stable insertion sort on an array.
  - `SortNewest` is the function that specifies it. It is proved newest first, a permutation and stable.
- `Aggregator` (aggregator.dfy): `fetchAllNews`.
  - Source merging.
  - The nested loops: `FetchAllNews`, `FetchSources`, `FetchCategory` and `AddArticles`.
  - The first-seen link filter. `Dedup` is the loop's reading and `Firsts` is the reference reading of it.
  - `NewsSpec`, which specifies the result.
- `Briefing` (briefing.dfy): update-briefing.py.
- `Tools` (tools.dfy): fetch-tools.js.

## External inputs

What the scripts take from the outside world becomes parameters:

- **Aggregator** (`Env`):
  - `fetch`: the network. It gives the body, or `None` when the request rejects.
  - `hostOf`: `new URL(url).hostname`. It gives `None` when the URL does not parse.
  - `now`: `new Date().toISOString()`, the default date.
- **Sorting**: `dateKey`, which is `new Date(..)` as an integer time value.
- **Result**: `timestamp`, the time of the run.
- **Briefing**: the search results as `Option` (`None` means the request failed) and `today` (`now.strftime('%B %d')`).
- **Tools**:
  - the parsed response as `Option` (`None` means `JSON.parse` failed or gave something other than an array);
  - the run's timestamp.

## Model

| member | source | states |
|---|---|---|
| Strings.Lower | scripts/fetch-news.js:48 | ASCII capitals map to lower-case letters; every other character is unchanged |
| Strings.LowerAll | scripts/fetch-news.js:48 | folding a text keeps its length, character for character |
| Strings.LowerAllSlice | scripts/fetch-news.js:48-49 | folding commutes with taking a piece: the folded piece is the piece of the folded text |
| Strings.FoldedMatch | scripts/fetch-news.js:48 | a case-insensitive match at a position is exactly a match of the folded pattern in the folded text at that position |
| Strings.Find | scripts/fetch-news.js:66-69 | the result is a match at or after `from` with no match between `from` and it; `None` only when there is no match at or after `from` |
| Strings.TrimStart | scripts/fetch-news.js:53 | the result is a suffix of the input that does not start with whitespace, and everything cut off is whitespace |
| Strings.TrimEnd | scripts/fetch-news.js:53 | the result is a prefix of the input that does not end with whitespace, and everything cut off is whitespace |
| Strings.Trim | scripts/fetch-news.js:53 | the result is a contiguous piece of the input with no whitespace at either end |
| Strings.TrimCutsSpace | scripts/fetch-news.js:118 | everything `trim` removes, before and after the kept piece, is whitespace |
| Strings.RemoveFirst | scripts/fetch-news.js:113 | with no occurrence of the pattern the text is unchanged; otherwise exactly the first occurrence is removed |
| Strings.Utf16Length | scripts/fetch-news.js:118 | `.length` counts UTF-16 code units: at least one and at most two per character, and exactly one per character exactly when every character is in the Basic Multilingual Plane |
| Strings.Utf16LengthEmoji | scripts/fetch-news.js:118 | one emoji character counts as two code units |
| FeedText.CleanCDATA | scripts/fetch-news.js:42-45 | unwrapping never makes the text longer |
| FeedText.CleanCDATAIdentity | scripts/fetch-news.js:42-45 | text with no CDATA opener is returned unchanged |
| FeedText.CleanCDATAUnwrap | scripts/fetch-news.js:44 | a CDATA section is replaced by its contents, up to the first `]]>` (shortest match), and scanning resumes after it |
| FeedText.CleanCDATAPlain | scripts/fetch-news.js:44 | any text without a CDATA opener, followed by text that is empty or starts with `<`, passes through unchanged, and the scan goes on after it |
| FeedText.CleanCDATASection | scripts/fetch-news.js:44 | text without an opener, then a section whose contents hold no `]]>`, then the rest: the text and the contents are kept, the markers dropped, and the rest is unwrapped in turn |
| FeedText.StripTags | scripts/fetch-news.js:53 | replacing tags never makes the text longer |
| FeedText.StripTagsNoTag | scripts/fetch-news.js:53 | after the tag replacement no `<x…>` tag is left |
| FeedText.StripTagsIdentity | scripts/fetch-news.js:53 | text without a tag is unchanged by the tag replacement |
| FeedText.StripTagsChars | scripts/fetch-news.js:53 | the tag replacement adds no character other than a space |
| FeedText.NoTagMeans | scripts/fetch-news.js:53 | in tag-free text, every `<` followed later by a `>` is immediately followed by `>` |
| FeedText.Collapse | scripts/fetch-news.js:53 | the result is never longer than the input, and text starting with a non-space character keeps that character; what collapsing means is stated by CollapseCollapsed and CollapsedMeans |
| FeedText.CollapseCollapsed | scripts/fetch-news.js:53 | after collapsing, every whitespace character stands alone |
| FeedText.CollapsedMeans | scripts/fetch-news.js:53 | collapsed text has only spaces as whitespace, and no two whitespace characters side by side |
| FeedText.CollapseIdentity | scripts/fetch-news.js:53 | collapsing already collapsed text changes nothing |
| FeedText.CollapseNoTag | scripts/fetch-news.js:53 | collapsing does not create a tag |
| FeedText.CollapseChars | scripts/fetch-news.js:53 | collapsing adds no character other than a space |
| FeedText.TrimNormalized | scripts/fetch-news.js:53 | trimming tag-free, collapsed text gives normalised text |
| FeedText.Normalize | scripts/fetch-news.js:53 | the replacement chain always gives normalised text: tag-free, collapsed, no whitespace at either end |
| FeedText.NormalizeIdempotent | scripts/fetch-news.js:53 | normalised text is a fixed point of the chain |
| FeedText.SpanFrom | scripts/fetch-news.js:48-49 | the span found is the leftmost start match followed by an end match, and the end is the first end match after it |
| FeedText.FindSpan | scripts/fetch-news.js:48-49 | `None` exactly when no start match is followed by an end match; otherwise the first such start, closed by the first end after it |
| FeedText.FindSpanCI | scripts/fetch-news.js:48-49 | the case-insensitive span lies within the content |
| FeedText.FindSpanCIFirst | scripts/fetch-news.js:48-50 | the span read on the original text: a case-insensitive start tag, closed by the first end tag after it, with no earlier start tag followed by an end tag; `None` exactly when no start tag is followed by an end tag |
| FeedText.ExtractBetween | scripts/fetch-news.js:47-57 | `""` without a span; otherwise the CDATA-unwrapped, normalised text of the first span only; always normalised |
| FeedText.ExtractBetweenShape | scripts/fetch-news.js:52-54 | the result has no whitespace at either end, no whitespace but single spaces, and no `<x…>` tag |
| FeedParser.DeclLength | scripts/fetch-news.js:63 | a declaration match spans at least `<?xml?>` and stays within the text |
| FeedParser.StripDecl | scripts/fetch-news.js:63 | removing declarations never makes the text longer |
| FeedParser.StripDeclIdentity | scripts/fetch-news.js:63 | text in which `<?xml` matches nowhere (case-insensitively) is unchanged |
| FeedParser.StripDeclDrops | scripts/fetch-news.js:63 | an XML declaration with no `>` inside is removed |
| FeedParser.CommentLength | scripts/fetch-news.js:63 | a comment match spans at least `<!---->` and stays within the text |
| FeedParser.StripComments | scripts/fetch-news.js:63 | removing comments never makes the text longer |
| FeedParser.StripCommentsIdentity | scripts/fetch-news.js:63 | text with no comment opener is unchanged |
| FeedParser.StripCommentsDrops | scripts/fetch-news.js:63 | a comment is removed up to its first `-->` |
| FeedParser.StripCommentsPlain | scripts/fetch-news.js:63 | any text without `<!--`, followed by text that is empty or starts with `<`, passes through unchanged, and the scan goes on after it |
| FeedParser.CommentedOut | scripts/fetch-news.js:63-69 | text without `<!--`, then a comment whose body holds no `-->`, then the rest: the text is kept and the whole comment, items included, is gone before items are scanned |
| FeedParser.ItemEndAt | scripts/fetch-news.js:66 | an item match at a position opens with `<item`, ends with `</item>` and stays within the text |
| FeedParser.NextItem | scripts/fetch-news.js:66-69 | the next item match starts at or after the scan position and lies within the text |
| FeedParser.NextItemFirst | scripts/fetch-news.js:66-69 | the next item is the leftmost position where the item pattern matches; `None` exactly when it matches nowhere further on |
| FeedParser.ItemsFrom | scripts/fetch-news.js:66-69 | the item fragments lie within the text, in document order, without overlap |
| FeedParser.ItemsFromMatch | scripts/fetch-news.js:66-69 | each fragment is a match of the item pattern, and each scan resumes after the previous match |
| FeedParser.Items | scripts/fetch-news.js:63-69 | the fragments of the cleaned feed lie within it |
| FeedParser.ArticleOf | scripts/fetch-news.js:72-85 | an item gives an article exactly when the title and link extracted from it are non-empty; the article is well formed and carries the source name |
| FeedParser.Assemble | scripts/fetch-news.js:77-85 | an article exists exactly when title and link are non-empty; it keeps them, defaults the description to `Click to read more` and the date to the run's timestamp, and carries the source name |
| FeedParser.ItemArticleWellFormed | scripts/fetch-news.js:72-85 | every article made from an item is well formed |
| FeedParser.Yield | scripts/fetch-news.js:77-85 | an item adds its article, or nothing when it has none |
| FeedParser.ArticlesFrom | scripts/fetch-news.js:66-86 | no more articles than item fragments |
| FeedParser.ArticlesFromWellFormed | scripts/fetch-news.js:69-86 | every article is well formed when the conversion makes only well-formed articles |
| FeedParser.ParseSpec | scripts/fetch-news.js:59-89 | at most one article per item fragment of the cleaned feed; each has a non-empty title, link and description and the feed's source name |
| FeedParser.ParseSpans | scripts/fetch-news.js:69-86 | at most one article per fragment |
| FeedParser.ArticlesFromSpans | scripts/fetch-news.js:66-86 | the scan's articles are the fragments' articles, fragment by fragment |
| FeedParser.ParseOrder | scripts/fetch-news.js:69-86 | the articles of two runs of fragments are the first run's followed by the second's (document order) |
| FeedParser.ParseKeepsWellFormedItems | scripts/fetch-news.js:77-85 | when every fragment has a title and a link, there is exactly one article per fragment |
| FeedParser.ScanItems | scripts/fetch-news.js:66-88 | the `while` loop over the item matches yields the articles of the successive fragments |
| FeedParser.ParseRSS | scripts/fetch-news.js:59-89 | the result is `ParseSpec` of the feed: at most one article per fragment, all well formed |
| NewsSort.Insert | scripts/fetch-news.js:141 | inserting adds one element |
| NewsSort.SortNewest | scripts/fetch-news.js:141 | the sorted list has the input's length |
| NewsSort.InsertElements | scripts/fetch-news.js:141 | inserting adds exactly the element |
| NewsSort.InsertSorted | scripts/fetch-news.js:141 | inserting into a newest-first list keeps it newest first |
| NewsSort.InsertStable | scripts/fetch-news.js:141 | the inserted element goes after the elements with its key |
| NewsSort.SortNewestSorted | scripts/fetch-news.js:141 | the sorted list is newest first |
| NewsSort.SortNewestPermutes | scripts/fetch-news.js:141 | the sorted list is a permutation of the input |
| NewsSort.SortNewestStable | scripts/fetch-news.js:141 | elements with equal keys keep their order (the sort is stable) |
| NewsSort.SortNewestSortedIdentity | scripts/fetch-news.js:141 | a newest-first list is left as it is |
| NewsSort.Sink | scripts/fetch-news.js:141 | moving an element left past the strictly older ones inserts it into the part before it and leaves the rest alone |
| NewsSort.SortInPlace | scripts/fetch-news.js:141 | the array ends up as the stable newest-first sort of its old contents |
| Aggregator.Categories | scripts/fetch-news.js:108 | one category per entry |
| Aggregator.LookupCategories | scripts/fetch-news.js:97 | a category can be looked up exactly when it is one of the keys |
| Aggregator.PutLookup | scripts/fetch-news.js:97 | after assigning a key, that key reads the new URLs and every other key reads what it read before |
| Aggregator.PutCategories | scripts/fetch-news.js:97 | assigning keeps the keys in place and appends a new key last |
| Aggregator.MergeSources | scripts/fetch-news.js:97 | the merged sources keep every default entry and add at most one per custom entry |
| Aggregator.MergeLookup | scripts/fetch-news.js:92-97 | in the merged sources a key reads the last custom list for it, whole, or the default list when the custom map lacks it |
| Aggregator.MergeKeepsOrder | scripts/fetch-news.js:97 | the default keys stay first, in their order |
| Aggregator.PutDistinct | scripts/fetch-news.js:97 | assigning keeps each key once |
| Aggregator.MergeDistinct | scripts/fetch-news.js:97 | the merged sources have each key once |
| Aggregator.SourcesFor | scripts/fetch-news.js:92-101 | without a sources file the defaults exactly; with one, the defaults plus at most one entry per custom entry |
| Aggregator.SourcesForShape | scripts/fetch-news.js:92-101 | with or without a sources file, the sources have distinct keys and start with design, tech and photography; a custom category takes its custom URL list, any other keeps its default |
| Aggregator.Fetched | scripts/fetch-news.js:112-121 | a feed is parsed exactly when its URL parses, the request succeeds and the trimmed body is at least 100 UTF-16 code units long; the source name is the host without its first `www.` |
| Aggregator.UrlStories | scripts/fetch-news.js:112-130 | a URL whose feed is not fetched adds nothing; every story it adds is filed under the category and carries the URL's source name |
| Aggregator.UrlStoriesFromFeed | scripts/fetch-news.js:112-130 | every story a URL adds is a well-formed article parsed from that URL's feed, with the URL's source name, filed under the category |
| Aggregator.CategoryStories | scripts/fetch-news.js:111-137 | every story of a category is filed under it |
| Aggregator.ConcatFiled | scripts/fetch-news.js:111-137 | when every visit files its stories under one category, so does the whole URL loop |
| Aggregator.ConcatFrom | scripts/fetch-news.js:111-137 | every story of the URL loop comes from the visit of one of the URLs |
| Aggregator.AllStories | scripts/fetch-news.js:108-138 | every story of the run is filed under one of the run's categories |
| Aggregator.AllStoriesContributed | scripts/fetch-news.js:108-138 | every story of the run comes from the visit of one URL of one of the sources |
| Aggregator.ContributedJoin | scripts/fetch-news.js:108-138 | the stories of the earlier categories followed by those of the last one all come from some category's visit |
| Aggregator.ContributedFromFeed | scripts/fetch-news.js:108-130 | a story from some category's visit is an article parsed from the feed at one of that category's URLs, with that URL's source name, filed under that category |
| Aggregator.Tag | scripts/fetch-news.js:129 | every article is tagged with the category, in order |
| Aggregator.ConcatAppend | scripts/fetch-news.js:111-137 | visiting two URL lists one after the other is visiting their concatenation |
| Aggregator.ConcatSkip | scripts/fetch-news.js:111-137 | a URL that adds nothing can be dropped without changing what the others add |
| Aggregator.CategoryStoriesSkip | scripts/fetch-news.js:112-121 | a URL whose host, request or body fails adds nothing, and the URLs after it are still visited |
| Aggregator.Extend | scripts/fetch-news.js:126-131 | the filter keeps what was kept and adds at most one story per offered story |
| Aggregator.Dedup | scripts/fetch-news.js:126-131 | the filter never yields more stories than offered |
| Aggregator.LinkSetMeans | scripts/fetch-news.js:127-128 | a link is in the seen set exactly when a kept story has it |
| Aggregator.ExtendAppend | scripts/fetch-news.js:126-131 | offering two lists of stories in turn is offering their concatenation |
| Aggregator.ExtendSnoc | scripts/fetch-news.js:126-131 | offering one more story is one more filter step |
| Aggregator.ExtendIsFirsts | scripts/fetch-news.js:126-131 | the loop's filter equals the reference reading: the first story for each link not yet seen, in order |
| Aggregator.FirstsDistinct | scripts/fetch-news.js:126-131 | the filter keeps no link twice and no link already seen |
| Aggregator.FirstsLinks | scripts/fetch-news.js:126-131 | the filter keeps a story for every link not already seen |
| Aggregator.FirstsIn | scripts/fetch-news.js:126-131 | the filter keeps only offered stories |
| Aggregator.FirstsKeepsFirst | scripts/fetch-news.js:126-131 | a story whose link is new and not held by any earlier story is kept |
| Aggregator.DedupFirsts | scripts/fetch-news.js:126-131 | the kept stories have distinct links, cover every offered link, and come from the offered stories |
| Aggregator.DedupKeepsFirst | scripts/fetch-news.js:126-131 | the first story with a link is the one kept, with the category it came with |
| Aggregator.LinkSetFront | scripts/fetch-news.js:127-128 | the links of a story followed by others are its link and theirs |
| Aggregator.CategoryStoriesReportable | scripts/fetch-news.js:111-137 | every story of a category is a well-formed article parsed from the feed at one of its URLs, whose source is that URL's host without `www.`, filed under that category |
| Aggregator.AllStoriesReportable | scripts/fetch-news.js:108-138 | every story of the run is a well-formed article parsed from the feed at some URL of some category, whose source is that URL's host without `www.`, filed under that category, which is one of the run's |
| Aggregator.NewsSpec | scripts/fetch-news.js:141-147 | the result has the run's timestamp and reports `min(20, count)` stories, never more than twenty |
| Aggregator.NewsSpecTop | scripts/fetch-news.js:141-147 | the result has the run's timestamp, counts the unique stories before truncating, and reports the first `min(20, count)` of them sorted newest first, the sorted list being a permutation of the unique stories |
| Aggregator.NewsSpecNewest | scripts/fetch-news.js:141-146 | every reported story is at least as new as every unique story left out |
| Aggregator.NewsSpecDistinct | scripts/fetch-news.js:126-146 | no link is reported twice |
| Aggregator.NewsSpecReportable | scripts/fetch-news.js:108-146 | every reported story is a well-formed article parsed from the feed at some URL of some category of the merged sources, whose source is that URL's host without `www.`, filed under that category |
| Aggregator.SortedLinksDistinct | scripts/fetch-news.js:141 | sorting keeps links distinct |
| Aggregator.AddArticles | scripts/fetch-news.js:126-131 | the `forEach` pushes the tagged articles whose links are new and keeps `seenLinks` equal to the links pushed |
| Aggregator.FetchCategory | scripts/fetch-news.js:111-137 | the URL loop offers every URL's stories to the filter in order, skipping failed URLs |
| Aggregator.FetchSources | scripts/fetch-news.js:103-138 | the category loop yields the first story for each link over all categories and URLs in order |
| Aggregator.SortTop | scripts/fetch-news.js:141-146 | sorting the array in place and slicing gives the first `min(20, n)` stories of the stable newest-first order |
| Aggregator.FetchAllNews | scripts/fetch-news.js:91-147 | the run's result is `NewsSpec`: merged sources, filtered stories, stable newest-first sort, count, top twenty |
| Briefing.Prefix | scripts/update-briefing.py:54 | `s[:n]` is the first `min(len(s), n)` characters |
| Briefing.FormatNewsItem | scripts/update-briefing.py:45-58 | the title is a prefix of the result's title (`""` if absent) of at most 100 characters; the source follows the dict, truthy and falsy cases; a missing age is `Just now` and a missing url is `#` |
| Briefing.FormatNewsItemStable | scripts/update-briefing.py:45-58 | the index has no effect, and formatting a formatted item changes nothing |
| Briefing.FallbackNews | scripts/update-briefing.py:60-100 | six items, all with url `#` and a non-empty title and source; the first title carries the day |
| Briefing.ChooseNews | scripts/update-briefing.py:197-202 | the fallback list exactly when the results are `None` or empty; otherwise one formatted item per result, in order; never empty |
| Briefing.Escape | scripts/update-briefing.py:117 | the escaped title grows by exactly one character per quote |
| Briefing.EscapeGuardsQuotes | scripts/update-briefing.py:117 | every quote of the escaped title follows a backslash |
| Briefing.EscapeRoundTrip | scripts/update-briefing.py:117 | removing the inserted backslashes gives the title back |
| Briefing.EscapeStart | scripts/update-briefing.py:117 | an escaped title never starts with a quote |
| Briefing.EntryOf | scripts/update-briefing.py:117-124 | the entry's title unescapes to the item's title; source and time are the item's, unescaped |
| Briefing.TemplateToken | scripts/update-briefing.py:147-153 | a template escape that `re.sub` accepts takes at least two characters and stays within the template |
| Briefing.ExpandPlain | scripts/update-briefing.py:147-153 | `re.sub` copies a template piece without a backslash as it is |
| Briefing.ExpandEscape | scripts/update-briefing.py:117-153 | a quote-escaped title without other backslashes is copied by `re.sub` as it is |
| Briefing.WrittenPlain | scripts/update-briefing.py:121-153 | a field without a backslash lands in app.js as it is, whatever the match |
| Briefing.WrittenEscaped | scripts/update-briefing.py:117-153 | an escaped title without other backslashes lands in app.js as escaped |
| Briefing.EscapedTitleReadsBack | scripts/update-briefing.py:117-153 | a title without backslashes or line breaks reads back from app.js as itself |
| Briefing.Selection | scripts/update-briefing.py:116 | `news_items[1:7]`: the items after the first, at most six, in order |
| Briefing.SelectionSkipsHero | scripts/update-briefing.py:116-127 | at most six list items, all from indices 1 to 6, so the hero (index 0) is never among them |
| Briefing.UpdateAppJs | scripts/update-briefing.py:108-130 | nothing exactly for an empty list; otherwise the hero entry of item 0 and one entry per selected item, in order, titles escaped |
| Briefing.UpdateAppJsTitles | scripts/update-briefing.py:116-117 | each listed title unescapes to its item's title |
| Briefing.EscapeMisreadsBackslash | scripts/update-briefing.py:117-153 | the title `\n` (backslash, `n`) is left as it is by the escaping, `re.sub` writes a raw line break in its place and the literal no longer reads back; the title `\d` makes `re.sub` raise |
| Briefing.EntryBreaksOnQuotedSource | scripts/update-briefing.py:121-153 | the source `Tom's Hardware` is put in the entry unescaped, `re.sub` writes it as it is, and the literal does not read back |
| Briefing.EscapeJsRoundTrip | scripts/update-briefing.py:117 | escaping backslashes, quotes and line breaks makes every text read back as itself |
| Briefing.ExpandProtect | scripts/update-briefing.py:147-153 | with every backslash doubled, `re.sub` writes exactly the text |
| Briefing.WrittenProtect | scripts/update-briefing.py:147-153 | a field with its backslashes doubled lands in app.js as the field, whatever the match |
| Briefing.SafeField | scripts/update-briefing.py:117-153 | a field escaped for JavaScript and then for `re.sub` reads back from app.js as the text, whatever the match |
| Briefing.SafeEntryOf | scripts/update-briefing.py:117-153 | with every quoted field escaped, title, source and time all read back from app.js as the item's, whatever the match |
| Briefing.EscapeJsAgrees | scripts/update-briefing.py:117 | for a title with no backslash or line break the corrected escaping is the original one |
| Briefing.EscapeJsPlain | scripts/update-briefing.py:121-122 | a field with nothing to escape is written as it is |
| Briefing.SafeEntryAgrees | scripts/update-briefing.py:116-153 | for every item the original handles correctly, app.js gets the same entry fields from the corrected code as from the original |
| Tools.OrText | scripts/fetch-tools.js:21-24 | `v \|\| d` for a string field: the value when present and non-empty, else the default |
| Tools.DatePart | scripts/fetch-tools.js:26 | the text before the first `T` (all of it without one): a prefix with no `T`, followed by `T` when shorter |
| Tools.ToolOf | scripts/fetch-tools.js:20-27 | name defaults to `Unknown`, tagline, description and url to `""`, votes to 0; the tool carries the day |
| Tools.ToolOfIdempotent | scripts/fetch-tools.js:20-27 | normalising a normalised tool changes nothing |
| Tools.FallbackTools | scripts/fetch-tools.js:38-49 | eight tools with strictly decreasing votes and non-empty names, none with a day |
| Tools.FetchProductHunt | scripts/fetch-tools.js:17-31 | at most eight tools |
| Tools.FetchProductHuntShape | scripts/fetch-tools.js:17-31 | an unusable response gives exactly the fallback list; a usable one gives one normalised tool per product among the first eight, in order |
| Tools.FetchProductHuntDay | scripts/fetch-tools.js:20-27 | all tools carry the same day and none has an empty name |

## Left out

- Network I/O (`httpGet`, `https.get`, their timeouts and chunk accumulation) is left out. Bodies, failures and host names are parameters.
- File reads and writes, `existsSync`, `mkdirSync` and JSON serialisation are left out. A missing or unparseable sources file is `None`, and so is an unusable Product Hunt response.
- Date parsing, `toISOString`, `datetime.now` and `strftime` are parameters.
- Sorting with unparseable dates is left out. There the comparator gives `NaN`, and the engine's order is unspecified.
- FeedParser.Assemble: every item without a date gets the one instant `env.now`. The source calls `new Date()` when it parses each item (scripts/fetch-news.js:82), which is after that URL's request has finished (scripts/fetch-news.js:116), and each request can take up to 15 seconds (scripts/fetch-news.js:35). So later feeds give their dateless items later times, seconds apart, and the sort at scripts/fetch-news.js:141 puts them before the dateless items of earlier feeds; a dated item can fall between the two. The model ties all dateless items on one instant, so they keep their visiting order. The order of the top twenty, and which stories make it, can therefore differ from the source.
- Tools.ToolOf: every product gets the same day. The source calls `new Date()` once per product; the model uses one timestamp for the run.
- `new URL(..).hostname` is a parameter. Only the removal of the first `www.` is modelled.
- Aggregator.SourcesForShape: the JavaScript rule that integer-like keys enumerate first is not modelled. Keys keep insertion order, which is right for the category names the scripts use.
- Non-string JSON values are not modelled: numbers or booleans as a title or name, and `votes` of any type other than integer or absent. `str(..)` of a non-dict source is given as its text and truth value.
- `ReadLiteral` reads back only the single-character escapes of JavaScript string literals. The `\x`, `\u`, digit and line-continuation forms give `None`.
- Case-insensitive matching folds ASCII letters only. Every pattern the scripts match is ASCII, and JavaScript does not fold a non-ASCII character onto an ASCII one, so this is exact for these patterns.
- Briefing: the text of app.js around the two matches, and the reading and writing of the file, are left out. The match `re.sub` replaces is the parameter `whole`. The expansion of the replacement template is modelled.
- Briefing.TemplateToken: in `\g<…>` only names made of ASCII `0`s are read as the whole match, and every other name is an error. Python also reads a name of non-ASCII zero digits as the whole match; the model does not.
- `update_news_json`, the Brave request and `git_commit_push` are left out.
- server.js and js/app.js are not part of this model.
- All console logging is left out.
- The network error path of `fetchProductHunt` (`.on('error', reject)`) is left out. It rejects before any normalisation.
- Briefing.UpdateAppJs: models the code as written. Titles get only the quote escape, and source and time are not escaped (see Findings).
- The code, and so the model, has no Atom parsing and no redirect following.
- A custom category replaces the default URL list for that category; it does not extend it.
- An item without a date gets the run's timestamp.
- A sources.json category whose value is not an array of strings is not modelled. With `null` the URL loop (scripts/fetch-news.js:111) throws outside the per-URL `try`, `fetchAllNews` rejects and `main` exits with status 1 without writing (scripts/fetch-news.js:156-164). With a string the loop visits its characters one by one as URLs.

## Findings

| source | as written | input that shows it | evidently intended | confidence | as-written member | corrected member |
|---|---|---|---|---|---|---|
| scripts/update-briefing.py:117 | only `'` is escaped in titles, and the entry is then used as a `re.sub` template (line 153), which reads backslashes itself | the title `\n` (backslash, `n`) is written by `re.sub` as a raw line break, which ends the JavaScript literal; the title `\d` makes `re.sub` raise `re.error` | the title reads back from app.js unchanged | not executed | Briefing.EscapeMisreadsBackslash | Briefing.SafeField |
| scripts/update-briefing.py:121-122 | source and time are put between single quotes without escaping | the source `Tom's Hardware` ends the literal at its quote, and the entry no longer reads back | every quoted field reads back unchanged | not executed | Briefing.EntryBreaksOnQuotedSource | Briefing.SafeEntryOf |
