/**
 * `parseRSS` of scripts/fetch-news.js: strip the XML declaration and the
 * comments, walk the `<item...</item>` fragments in document order and keep
 * the ones with a title and a link.
 */
module FeedParser {
  import opened Wrappers
  import opened Strings
  import opened FeedText

  /** An article as `parseRSS` builds it. `pubDate` is the date text of the
      feed, or the run's timestamp when the item has none. */
  datatype Article = Article(title: string, link: string, description: string, pubDate: string, source: string)

  const DefaultDescription := "Click to read more"
  const ItemOpen := "<item"
  const ItemClose := "</item>"
  const CommentOpen := "<!--"
  const CommentClose := "-->"
  /** The tags of the four fields `parseRSS` extracts from an item. */
  const TitleOpen := "<title>"
  const TitleClose := "</title>"
  const LinkOpen := "<link>"
  const LinkClose := "</link>"
  const DescriptionOpen := "<description>"
  const DescriptionClose := "</description>"
  const DateOpen := "<pubDate>"
  const DateClose := "</pubDate>"

  /** What `parseRSS` guarantees of each article it returns. */
  predicate WellFormed(a: Article, sourceName: string) {
    a.title != "" && a.link != "" && a.description != "" && a.source == sourceName
  }

  // ---------------------------------------------------------------------
  // .replace(/<\?xml[^>]*\?>/gi, ''): drop XML declarations
  // ---------------------------------------------------------------------

  /** Length of the declaration that opens `s`: `<?xml` in any case, then
      characters other than `>` ending in `?`, then `>`. */
  function DeclLength(s: string): (r: Option<nat>)
    ensures r.Some? ==> 7 <= r.value <= |s|
  {
    if Matches(s, 0, "<?xml", true) then
      match Find(s, ">", 5, false)
      case Some(j) => if j >= 6 && s[j - 1] == '?' then Some(j + 1) else None
      case None => None
    else None
  }

  function StripDecl(s: string): (r: string)
    ensures |r| <= |s|
    decreases |s|
  {
    if s == [] then []
    else match DeclLength(s)
      case Some(n) => StripDecl(s[n..])
      case None => [s[0]] + StripDecl(s[1..])
  }

  /** A declaration at the head is dropped whole. */
  lemma StripDeclDrops(attrs: string, rest: string)
    requires '>' !in attrs
    ensures StripDecl("<?xml" + attrs + "?>" + rest) == StripDecl(rest)
  {
    var s := "<?xml" + attrs + "?>" + rest;
    var e := 5 + |attrs| + 1;
    assert s[0..5] == "<?xml";
    assert Matches(s, 0, "<?xml", true);
    assert s[e] == '>' && s[e - 1] == '?';
    MatchesChar(s, e, '>');
    forall j | 5 <= j < e ensures !Matches(s, j, ">", false) {
      MatchesChar(s, j, '>');
      if j < e - 1 { assert s[j] == attrs[j - 5]; }
    }
    FindIs(s, ">", 5, false, e);
    assert DeclLength(s) == Some(e + 1);
    assert s[e + 1..] == rest;
  }

  /** Text in which `<?xml` occurs nowhere, in any case, comes back
      unchanged. */
  lemma {:induction false} StripDeclIdentity(s: string)
    requires forall j :: 0 <= j <= |s| ==> !Matches(s, j, "<?xml", true)
    ensures StripDecl(s) == s
    decreases |s|
  {
    if s != [] {
      assert !Matches(s, 0, "<?xml", true);
      forall j | 0 <= j <= |s[1..]| ensures !Matches(s[1..], j, "<?xml", true) {
        MatchesSuffix(s, 1, j, "<?xml", true);
      }
      StripDeclIdentity(s[1..]);
    }
  }

  // ---------------------------------------------------------------------
  // .replace(/<!--[\s\S]*?-->/gi, ''): drop comments (shortest match)
  // ---------------------------------------------------------------------

  /** Length of the comment that opens `s`, up to the first `-->`. */
  function CommentLength(s: string): (r: Option<nat>)
    ensures r.Some? ==> 7 <= r.value <= |s|
  {
    if Matches(s, 0, CommentOpen, false) then
      match Find(s, CommentClose, 4, false)
      case Some(j) => Some(j + 3)
      case None => None
    else None
  }

  function StripComments(s: string): (r: string)
    ensures |r| <= |s|
    decreases |s|
  {
    if s == [] then []
    else match CommentLength(s)
      case Some(n) => StripComments(s[n..])
      case None => [s[0]] + StripComments(s[1..])
  }

  /** Text without a comment opener comes back unchanged. */
  lemma {:induction false} StripCommentsIdentity(s: string)
    requires Absent(s, CommentOpen)
    ensures StripComments(s) == s
    decreases |s|
  {
    if s != [] {
      assert !Matches(s, 0, CommentOpen, false);
      forall j | 0 <= j <= |s[1..]| ensures !Matches(s[1..], j, CommentOpen, false) {
        MatchesSuffix(s, 1, j, CommentOpen, false);
      }
      StripCommentsIdentity(s[1..]);
    }
  }

  /** A comment is dropped whole, with everything in it, items included. */
  lemma StripCommentsDrops(body: string, rest: string)
    requires Absent(body, CommentClose)
    ensures StripComments(CommentOpen + body + CommentClose + rest) == StripComments(rest)
  {
    var s := CommentOpen + body + CommentClose + rest;
    var e := 4 + |body|;
    assert s[..4] == CommentOpen;
    assert s[e..e + 3] == CommentClose;
    forall j | 4 <= j < e ensures !Matches(s, j, CommentClose, false) {
      if j + 3 <= e {
        assert s[j..j + 3] == body[j - 4..j - 4 + 3];
        assert !Matches(body, j - 4, CommentClose, false);
      } else {
        assert s[e] == '-' && s[e + 1] == '-';
        assert s[j..j + 3] != CommentClose by { assert s[j..j + 3][2] == s[j + 2]; }
      }
    }
    FindIs(s, CommentClose, 4, false, e);
    assert CommentLength(s) == Some(e + 3);
    assert s[e + 3..] == rest;
  }

  lemma CommentOpenHeads()
    ensures CommentOpen[0] == '<' && forall k :: 1 <= k < |CommentOpen| ==> CommentOpen[k] != '<'
  {
  }

  /** Text without a comment opener, up to a tag or the end, is kept as it
      is. */
  lemma {:induction false} StripCommentsPlain(p: string, t: string)
    requires Absent(p, CommentOpen) && (t == [] || t[0] == '<')
    ensures StripComments(p + t) == p + StripComments(t)
    decreases |p|
  {
    if p != [] {
      StripCommentsHead(p, t);
      AbsentTail(p, CommentOpen);
      StripCommentsPlain(p[1..], t);
      ConsThrough(p, StripComments(p + t), StripComments(p[1..] + t), StripComments(t));
    } else {
      assert p + t == t;
    }
  }

  /** The first character of such text is copied. */
  lemma StripCommentsHead(p: string, t: string)
    requires p != [] && Absent(p, CommentOpen) && (t == [] || t[0] == '<')
    ensures StripComments(p + t) == [p[0]] + StripComments(p[1..] + t)
  {
    CommentNotAcross(p, t);
    StripCommentsShift(p, t);
  }

  lemma CommentNotAcross(p: string, t: string)
    requires p != [] && Absent(p, CommentOpen) && (t == [] || t[0] == '<')
    ensures !Matches(p + t, 0, CommentOpen, false)
  {
    CommentOpenHeads();
    NoMatchAcross(p, t, CommentOpen);
  }

  /** A text that does not open a comment keeps its first character. */
  lemma StripCommentsShift(p: string, t: string)
    requires p != [] && !Matches(p + t, 0, CommentOpen, false)
    ensures StripComments(p + t) == [p[0]] + StripComments(p[1..] + t)
  {
    assert CommentLength(p + t).None?;
    assert (p + t)[0] == p[0] && (p + t)[1..] == p[1..] + t;
  }

  /** Items inside a comment never reach the item scan, wherever the
      comment stands: `<rss><channel><!-- <item>..</item> -->z` leaves
      `<rss><channel>` and the cleaning of `z`. */
  lemma CommentedOut(p: string, body: string, rest: string)
    requires Absent(p, CommentOpen) && Absent(body, CommentClose)
    ensures StripComments(p + CommentOpen + body + CommentClose + rest) == p + StripComments(rest)
  {
    assert p + CommentOpen + body + CommentClose + rest == p + (CommentOpen + body + CommentClose + rest);
    StripCommentsPlain(p, CommentOpen + body + CommentClose + rest);
    StripCommentsDrops(body, rest);
  }

  /** The text the item scan runs over. */
  function CleanData(xml: string): string {
    StripComments(StripDecl(xml))
  }

  // ---------------------------------------------------------------------
  // /<item[\s\S]*?<\/item>/gi: successive item fragments
  // ---------------------------------------------------------------------

  /** End (exclusive) of the item fragment the pattern matches at `i` of
      the folded text `s`. */
  function ItemEndAt(s: string, i: nat): (r: Option<nat>)
    ensures r.Some? ==> i + |ItemOpen| + |ItemClose| <= r.value <= |s|
    ensures r.Some? ==> Matches(s, i, ItemOpen, false) && Matches(s, r.value - |ItemClose|, ItemClose, false)
  {
    if Matches(s, i, ItemOpen, false) then
      match Find(s, ItemClose, i + |ItemOpen|, false)
      case Some(j) => Some(j + |ItemClose|)
      case None => None
    else None
  }

  /** `itemRegex.exec` with `lastIndex == from`: the nearest opener at or
      after `from`, closed by the nearest closer after it (see
      `NextItemFirst` for why this is the first fragment). */
  function NextItem(s: string, from: nat): (r: Option<(nat, nat)>)
    ensures r.Some? ==> from <= r.value.0 && r.value.0 + |ItemOpen| + |ItemClose| <= r.value.1 <= |s|
  {
    match Find(s, ItemOpen, from, false)
    case None => None
    case Some(p) =>
      match Find(s, ItemClose, p + |ItemOpen|, false)
      case None => None
      case Some(j) => Some((p, j + |ItemClose|))
  }

  /** `NextItem` finds a fragment, and no fragment starts between `from`
      and the one it finds; when it finds none, no fragment starts at or
      after `from`. */
  lemma NextItemFirst(s: string, from: nat)
    ensures NextItem(s, from).Some? ==>
      ItemEndAt(s, NextItem(s, from).value.0) == Some(NextItem(s, from).value.1)
      && forall i :: from <= i < NextItem(s, from).value.0 ==> ItemEndAt(s, i).None?
    ensures NextItem(s, from).None? ==> forall i :: from <= i ==> ItemEndAt(s, i).None?
  {
    match Find(s, ItemOpen, from, false)
    case None =>
    case Some(p) =>
      var c := Find(s, ItemClose, p + |ItemOpen|, false);
      if c.None? {
        forall i | from <= i ensures ItemEndAt(s, i).None? {
          if i >= p && Matches(s, i, ItemOpen, false) {
            NoCloserAfter(s, p + |ItemOpen|, i + |ItemOpen|);
          }
        }
      }
  }

  /** Without a closer from `a` on, there is none from any later `b` on. */
  lemma NoCloserAfter(s: string, a: nat, b: nat)
    requires a <= b
    requires Find(s, ItemClose, a, false).None?
    ensures Find(s, ItemClose, b, false).None?
  {
  }

  /** The spans `[start, end)` of the fragments the loop visits from `from`
      on: they lie in `s`, at or after `from`, in document order without
      overlap (see `ItemsFromMatch`). */
  function ItemsFrom(s: string, from: nat): (r: seq<(nat, nat)>)
    ensures forall k :: 0 <= k < |r| ==> from <= r[k].0 && r[k].0 + |ItemOpen| + |ItemClose| <= r[k].1 <= |s|
    ensures forall k, l :: 0 <= k < l < |r| ==> r[k].1 <= r[l].0
    decreases |s| - from
  {
    match NextItem(s, from)
    case None => []
    case Some((a, b)) => [(a, b)] + ItemsFrom(s, b)
  }

  /** Every visited span is a whole fragment. */
  lemma {:induction false} ItemsFromMatch(s: string, from: nat)
    ensures forall k :: 0 <= k < |ItemsFrom(s, from)| ==> ItemEndAt(s, ItemsFrom(s, from)[k].0) == Some(ItemsFrom(s, from)[k].1)
    decreases |s| - from
  {
    NextItemFirst(s, from);
    match NextItem(s, from)
    case None =>
    case Some((a, b)) =>
      ItemsFromMatch(s, b);
      var r := ItemsFrom(s, from);
      assert r == [(a, b)] + ItemsFrom(s, b);
      forall k | 0 <= k < |r| ensures ItemEndAt(s, r[k].0) == Some(r[k].1) {
        if k > 0 {
          assert r[k] == ItemsFrom(s, b)[k - 1];
        }
      }
  }

  /** The fragments of `s`: matching with the `i` flag is exact matching
      of the folded text, at the same positions. */
  function Items(s: string): (r: seq<(nat, nat)>)
    ensures forall k :: 0 <= k < |r| ==> r[k].0 <= r[k].1 <= |s|
  {
    ItemsFrom(LowerAll(s), 0)
  }

  ghost predicate SpansIn(s: string, spans: seq<(nat, nat)>) {
    forall k :: 0 <= k < |spans| ==> spans[k].0 <= spans[k].1 <= |s|
  }

  // ---------------------------------------------------------------------
  // One item, and the whole parse
  // ---------------------------------------------------------------------

  /** The article the four extracted texts of one item make: none without
      a title or a link, the default description for an empty one, and
      the run's timestamp for an empty date. */
  function Assemble(title: string, link: string, description: string, pubDate: string,
                    sourceName: string, now: string): (r: Option<Article>)
    ensures r.Some? <==> title != "" && link != ""
    ensures r.Some? ==> WellFormed(r.value, sourceName)
    ensures r.Some? ==> (r.value.title == title && r.value.link == link
      && r.value.description == (if description != "" then description else DefaultDescription)
      && r.value.pubDate == (if pubDate != "" then pubDate else now))
  {
    if title != "" && link != "" then
      Some(Article(title, link, if description != "" then description else DefaultDescription,
                   if pubDate != "" then pubDate else now, sourceName))
    else None
  }

  /** The article an item fragment yields: its title, link, description
      and date each extracted from the fragment. */
  function ArticleOf(item: string, sourceName: string, now: string): (r: Option<Article>)
    ensures r.Some? <==> ExtractBetween(item, TitleOpen, TitleClose) != "" && ExtractBetween(item, LinkOpen, LinkClose) != ""
    ensures r.Some? ==> WellFormed(r.value, sourceName) && r.value.source == sourceName
  {
    var title, link := ExtractBetween(item, TitleOpen, TitleClose), ExtractBetween(item, LinkOpen, LinkClose);
    Assemble(title, link, ExtractBetween(item, DescriptionOpen, DescriptionClose),
             ExtractBetween(item, DateOpen, DateClose), sourceName, now)
  }

  function Fragment(s: string, span: (nat, nat)): string
    requires span.0 <= span.1 <= |s|
  {
    s[span.0..span.1]
  }

  /** The conversion `parseRSS` applies to each item fragment. */
  function ItemArticle(sourceName: string, now: string): string -> Option<Article> {
    item => ArticleOf(item, sourceName, now)
  }

  /** Every article the conversion makes is well formed. */
  lemma ItemArticleWellFormed(sourceName: string, now: string)
    ensures forall item :: ItemArticle(sourceName, now)(item).Some? ==> WellFormed(ItemArticle(sourceName, now)(item).value, sourceName)
  {
  }

  /** The article list one fragment contributes. */
  function Yield(o: Option<Article>): (r: seq<Article>)
    ensures |r| <= 1
    ensures o.Some? ==> r == [o.value]
    ensures o.None? <==> r == []
  {
    match o
    case Some(a) => [a]
    case None => []
  }

  /** The articles that the loop pushes from index `from` of `s` on, one
      fragment after the other, each fragment converted by `f`: at most one
      article per fragment. */
  function ArticlesFrom(s: string, from: nat, f: string -> Option<Article>): (r: seq<Article>)
    ensures |r| <= |ItemsFrom(LowerAll(s), from)|
    decreases |s| - from
  {
    match NextItem(LowerAll(s), from)
    case None => []
    case Some((a, b)) => Yield(f(s[a..b])) + ArticlesFrom(s, b, f)
  }

  /** A conversion that only makes well-formed articles gives only
      well-formed articles along the scan. */
  lemma {:induction false} ArticlesFromWellFormed(s: string, from: nat, f: string -> Option<Article>, sourceName: string)
    requires forall item :: f(item).Some? ==> WellFormed(f(item).value, sourceName)
    ensures forall k :: 0 <= k < |ArticlesFrom(s, from, f)| ==> WellFormed(ArticlesFrom(s, from, f)[k], sourceName)
    decreases |s| - from
  {
    match NextItem(LowerAll(s), from)
    case None =>
    case Some((a, b)) =>
      ArticlesFromWellFormed(s, b, f, sourceName);
      WellFormedJoin(Yield(f(s[a..b])), ArticlesFrom(s, b, f), sourceName);
  }

  lemma WellFormedJoin(y: seq<Article>, rest: seq<Article>, sourceName: string)
    requires forall k :: 0 <= k < |y| ==> WellFormed(y[k], sourceName)
    requires forall k :: 0 <= k < |rest| ==> WellFormed(rest[k], sourceName)
    ensures forall k :: 0 <= k < |y + rest| ==> WellFormed((y + rest)[k], sourceName)
  {
    forall k | 0 <= k < |y + rest| ensures WellFormed((y + rest)[k], sourceName) {
      if k < |y| {
        assert (y + rest)[k] == y[k];
      } else {
        assert (y + rest)[k] == rest[k - |y|];
      }
    }
  }

  /** What `parseRSS(xmlData, sourceName)` returns, `now` standing for
      `new Date().toISOString()`. */
  function ParseSpec(xml: string, sourceName: string, now: string): (r: seq<Article>)
    ensures |r| <= |Items(CleanData(xml))|
    ensures forall k :: 0 <= k < |r| ==> WellFormed(r[k], sourceName)
  {
    ItemArticleWellFormed(sourceName, now);
    ArticlesFromWellFormed(CleanData(xml), 0, ItemArticle(sourceName, now), sourceName);
    ArticlesFrom(CleanData(xml), 0, ItemArticle(sourceName, now))
  }

  /** The articles that the fragments `spans` of `s` yield under `f`, in
      the order of `spans`. */
  function ParseSpans(s: string, spans: seq<(nat, nat)>, f: string -> Option<Article>): (r: seq<Article>)
    requires SpansIn(s, spans)
    ensures |r| <= |spans|
    decreases |spans|
  {
    if spans == [] then []
    else Yield(f(Fragment(s, spans[0]))) + ParseSpans(s, spans[1..], f)
  }

  /** The scan yields exactly the articles of the fragments it visits, in
      document order. */
  lemma {:induction false} ArticlesFromSpans(s: string, from: nat, f: string -> Option<Article>)
    ensures SpansIn(s, ItemsFrom(LowerAll(s), from))
    ensures ArticlesFrom(s, from, f) == ParseSpans(s, ItemsFrom(LowerAll(s), from), f)
    decreases |s| - from
  {
    match NextItem(LowerAll(s), from)
    case None =>
    case Some((a, b)) =>
      ArticlesFromSpans(s, b, f);
      assert ItemsFrom(LowerAll(s), from)[1..] == ItemsFrom(LowerAll(s), b);
  }

  /** Parsing two consecutive runs of fragments concatenates their
      articles. */
  lemma {:induction false} ParseOrder(s: string, a: seq<(nat, nat)>, b: seq<(nat, nat)>, f: string -> Option<Article>)
    requires SpansIn(s, a) && SpansIn(s, b)
    ensures SpansIn(s, a + b)
    ensures ParseSpans(s, a + b, f) == ParseSpans(s, a, f) + ParseSpans(s, b, f)
    decreases |a|
  {
    if a == [] {
      assert a + b == b;
    } else {
      assert (a + b)[0] == a[0] && (a + b)[1..] == a[1..] + b;
      assert SpansIn(s, a[1..]);
      ParseOrder(s, a[1..], b, f);
      var h := Yield(f(Fragment(s, a[0])));
      assert ParseSpans(s, a + b, f) == h + ParseSpans(s, a[1..] + b, f);
      AppendAssoc(h, ParseSpans(s, a[1..], f), ParseSpans(s, b, f));
    }
  }

  /** Fragments that all convert give one article per fragment. */
  lemma {:induction false} ParseKeepsWellFormedItems(s: string, spans: seq<(nat, nat)>, f: string -> Option<Article>)
    requires SpansIn(s, spans)
    requires forall k :: 0 <= k < |spans| ==> f(Fragment(s, spans[k])).Some?
    ensures |ParseSpans(s, spans, f)| == |spans|
    decreases |spans|
  {
    if spans != [] {
      assert f(Fragment(s, spans[0])).Some?;
      ParseKeepsWellFormedItems(s, spans[1..], f);
    }
  }

  // ---------------------------------------------------------------------
  // parseRSS itself
  // ---------------------------------------------------------------------

  lemma AppendAssoc<T>(a: seq<T>, b: seq<T>, c: seq<T>)
    ensures (a + b) + c == a + (b + c)
  {
  }

  lemma AppendNil<T>(a: seq<T>)
    ensures a + [] == a
  {
  }

  /** The `while ((match = itemRegex.exec(cleanData)) !== null)` loop, with
      the body's field extraction and push given as the conversion `f`. */
  method ScanItems(cleanData: string, f: string -> Option<Article>) returns (articles: seq<Article>)
    ensures articles == ArticlesFrom(cleanData, 0, f)
  {
    articles := [];
    var folded := LowerAll(cleanData);
    var lastIndex := 0;
    var m := NextItem(folded, lastIndex);
    while m.Some?
      invariant m == NextItem(folded, lastIndex)
      invariant articles + ArticlesFrom(cleanData, lastIndex, f) == ArticlesFrom(cleanData, 0, f)
      decreases |cleanData| - lastIndex
    {
      var (start, end) := m.value;
      var itemContent := cleanData[start..end];
      var article := f(itemContent);
      ghost var before := articles;
      if article.Some? {
        articles := articles + [article.value];
      }
      ScanStep(cleanData, lastIndex, f, before, articles);
      lastIndex := end;
      m := NextItem(folded, lastIndex);
    }
    AppendNil(articles);
  }

  /** One pass of the loop: pushing the fragment's article, if any, and
      resuming after the fragment keeps the articles still to come. */
  lemma ScanStep(s: string, from: nat, f: string -> Option<Article>, before: seq<Article>, after: seq<Article>)
    requires NextItem(LowerAll(s), from).Some?
    requires var (a, b) := NextItem(LowerAll(s), from).value;
      var o := f(s[a..b]); after == if o.Some? then before + [o.value] else before
    ensures var (a, b) := NextItem(LowerAll(s), from).value;
      after + ArticlesFrom(s, b, f) == before + ArticlesFrom(s, from, f)
  {
    var (a, b) := NextItem(LowerAll(s), from).value;
    var o := f(s[a..b]);
    ArticlesFromStep(s, from, f);
    AppendNil(before);
    AppendAssoc(before, Yield(o), ArticlesFrom(s, b, f));
  }

  lemma ArticlesFromStep(s: string, from: nat, f: string -> Option<Article>)
    requires NextItem(LowerAll(s), from).Some?
    ensures var (a, b) := NextItem(LowerAll(s), from).value;
      a <= b <= |s| && ArticlesFrom(s, from, f) == Yield(f(s[a..b])) + ArticlesFrom(s, b, f)
  {
  }

  method ParseRSS(xmlData: string, sourceName: string, now: string) returns (articles: seq<Article>)
    ensures articles == ParseSpec(xmlData, sourceName, now)
    ensures |articles| <= |Items(CleanData(xmlData))|
    ensures forall k :: 0 <= k < |articles| ==> WellFormed(articles[k], sourceName)
  {
    var cleanData := StripComments(StripDecl(xmlData));
    articles := ScanItems(cleanData, ItemArticle(sourceName, now));
  }
}
