/**
 * The record handling of scripts/update-briefing.py: turning search results
 * into news items, the curated fallback list, the choice between them, and
 * the hero and list entries (with single quotes escaped in titles) that
 * `update_app_js` writes into app.js.
 */
module Briefing {
  import opened Wrappers
  import opened Strings

  // ---------------------------------------------------------------------
  // format_news_item
  // ---------------------------------------------------------------------

  /** The `"source"` value of a search result: absent, a dict with or
      without a `"name"`, or any other value, given by its `str(..)` text and
      its truth value. */
  datatype SourceField = Missing | Dict(name: Option<string>) | Scalar(text: string, truthy: bool)

  /** A search result; `None` is an absent key. */
  datatype SearchResult = SearchResult(title: Option<string>, source: SourceField, age: Option<string>, url: Option<string>)

  /** An item of news.json. */
  datatype NewsItem = NewsItem(title: string, source: string, time: string, url: string)

  const TitleLimit := 100

  /** `s[:n]`: the first `n` characters, or all of them. */
  function Prefix(s: string, n: nat): (r: string)
    ensures |r| == Min(|s|, n)
    ensures r == s[..|r|]
  {
    if |s| <= n then s else s[..n]
  }

  /** The source name: a dict gives its `"name"` (absent: `"Unknown"`), as
      does a missing source, read as the empty dict; any other value gives
      its text when it is truthy and `"Unknown"` when it is not. */
  function SourceName(f: SourceField): string {
    match f
    case Missing => "Unknown"
    case Dict(name) => name.GetOr("Unknown")
    case Scalar(text, truthy) => if truthy then text else "Unknown"
  }

  /** `format_news_item(result, index)`; `index` is not used. */
  function FormatNewsItem(result: SearchResult, index: int): (r: NewsItem)
    ensures |r.title| <= TitleLimit && |r.title| <= |result.title.GetOr("")|
    ensures r.title == result.title.GetOr("")[..|r.title|]
    ensures |result.title.GetOr("")| <= TitleLimit ==> r.title == result.title.GetOr("")
    ensures r.time == result.age.GetOr("Just now") && r.url == result.url.GetOr("#")
    ensures result.source.Dict? ==> r.source == result.source.name.GetOr("Unknown")
    ensures result.source.Scalar? ==> r.source == if result.source.truthy then result.source.text else "Unknown"
    ensures result.source.Missing? ==> r.source == "Unknown"
  {
    NewsItem(Prefix(result.title.GetOr(""), TitleLimit), SourceName(result.source),
             result.age.GetOr("Just now"), result.url.GetOr("#"))
  }

  /** A news item read back as a search result. */
  function AsResult(item: NewsItem): SearchResult {
    SearchResult(Some(item.title), Dict(Some(item.source)), Some(item.time), Some(item.url))
  }

  /** Formatting an item that was already formatted changes nothing, and
      the position of a result never matters. */
  lemma FormatNewsItemStable(result: SearchResult, i: int, j: int)
    ensures FormatNewsItem(AsResult(FormatNewsItem(result, i)), j) == FormatNewsItem(result, i)
    ensures FormatNewsItem(result, i) == FormatNewsItem(result, j)
  {
    var t := FormatNewsItem(result, i).title;
    assert |t| <= TitleLimit;
  }

  // ---------------------------------------------------------------------
  // get_fallback_news and the choice in main
  // ---------------------------------------------------------------------

  /** The curated list; `today` is `now.strftime('%B %d')`. */
  function FallbackNews(today: string): (r: seq<NewsItem>)
    ensures |r| == 6
    ensures forall k :: 0 <= k < |r| ==> r[k].url == "#" && r[k].title != "" && r[k].source != ""
    ensures r[0].title == "AI Developments Continue at Rapid Pace - " + today
  {
    [ NewsItem("AI Developments Continue at Rapid Pace - " + today, "Industry News", "Today", "#"),
      NewsItem("New Machine Learning Models Set Performance Records", "Tech Weekly", "4 hours ago", "#"),
      NewsItem("Enterprise AI Adoption Accelerates in Q1", "Business Insider", "6 hours ago", "#"),
      NewsItem("Open Source AI Tools Gain Popularity", "Developer News", "8 hours ago", "#"),
      NewsItem("AI Regulations Discussion Continues Globally", "Policy Watch", "12 hours ago", "#"),
      NewsItem("Breakthrough in Natural Language Processing", "Research Daily", "1 day ago", "#") ]
  }

  /** The items `main` writes: the fallback list when the search failed
      (`None`) or found nothing, else one formatted item per result. */
  function ChooseNews(results: Option<seq<SearchResult>>, today: string): (r: seq<NewsItem>)
    ensures r != []
    ensures (results.None? || results.value == []) ==> r == FallbackNews(today)
    ensures results.Some? && results.value != [] ==>
      |r| == |results.value| && forall k :: 0 <= k < |r| ==> r[k] == FormatNewsItem(results.value[k], k)
  {
    if results.Some? && results.value != [] then
      seq(|results.value|, k requires 0 <= k < |results.value| => FormatNewsItem(results.value[k], k))
    else FallbackNews(today)
  }

  // ---------------------------------------------------------------------
  // .replace("'", "\\'")
  // ---------------------------------------------------------------------

  /** Every `'` preceded by a backslash: one more character per quote. */
  function Escape(t: string): (r: string)
    ensures |r| == |t| + Count(t, '\'')
  {
    if t == [] then [] else (if t[0] == '\'' then "\\'" else [t[0]]) + Escape(t[1..])
  }

  /** Removes the backslash of every `\'`, reading from the left. */
  function Unescape(s: string): string {
    if s == [] then []
    else if |s| >= 2 && s[0] == '\\' && s[1] == '\'' then "'" + Unescape(s[2..])
    else [s[0]] + Unescape(s[1..])
  }

  lemma {:induction false} EscapeStart(t: string)
    ensures Escape(t) == [] || Escape(t)[0] != '\''
  {
  }

  /** Every quote of the escaped title follows a backslash. */
  lemma {:induction false} EscapeGuardsQuotes(t: string)
    ensures forall k :: 0 <= k < |Escape(t)| && Escape(t)[k] == '\'' ==> 0 < k && Escape(t)[k - 1] == '\\'
  {
    if t != [] {
      EscapeGuardsQuotes(t[1..]);
      EscapeStart(t[1..]);
      var h := if t[0] == '\'' then "\\'" else [t[0]];
      var e := Escape(t[1..]);
      assert Escape(t) == h + e;
      forall k | 0 <= k < |h + e| && (h + e)[k] == '\'' ensures 0 < k && (h + e)[k - 1] == '\\' {
        if k >= |h| {
          assert (h + e)[k] == e[k - |h|];
          if k - |h| > 0 {
            assert (h + e)[k - 1] == e[k - |h| - 1];
          }
        }
      }
    }
  }

  /** Removing the inserted backslashes gives the title back. */
  lemma {:induction false} EscapeRoundTrip(t: string)
    ensures Unescape(Escape(t)) == t
  {
    if t != [] {
      EscapeRoundTrip(t[1..]);
      EscapeStart(t[1..]);
      var e := Escape(t[1..]);
      if t[0] == '\'' {
        assert ("\\'" + e)[2..] == e;
      } else {
        assert ([t[0]] + e)[1..] == e;
      }
    }
  }

  // ---------------------------------------------------------------------
  // The entries update_app_js builds
  // ---------------------------------------------------------------------

  /** The quoted fields of one entry of app.js, as they appear between the
      single quotes. */
  datatype JsEntry = JsEntry(title: string, source: string, time: string)

  /** The new hero and news list. */
  datatype AppJs = AppJs(hero: JsEntry, list: seq<JsEntry>)

  const ListLimit := 6

  /** The entry of an item: the title escaped, source and time as they are. */
  function EntryOf(item: NewsItem): (r: JsEntry)
    ensures Unescape(r.title) == item.title && r.source == item.source && r.time == item.time
  {
    EscapeRoundTrip(item.title);
    JsEntry(Escape(item.title), item.source, item.time)
  }

  /** `news_items[1:7]`: the items after the hero, at most six. */
  function Selection(items: seq<NewsItem>): (r: seq<NewsItem>)
    ensures |r| == if |items| <= 1 then 0 else Min(|items|, ListLimit + 1) - 1
    ensures forall k :: 0 <= k < |r| ==> r[k] == items[k + 1]
  {
    if |items| <= 1 then [] else items[1..Min(|items|, ListLimit + 1)]
  }

  /** The hero is item 0 and the list holds items 1 to 6: at most six
      entries, none of them the hero's, in item order. */
  lemma SelectionSkipsHero(items: seq<NewsItem>)
    ensures |Selection(items)| <= ListLimit
    ensures forall k :: 0 <= k < |Selection(items)| ==> 1 <= k + 1 <= ListLimit && Selection(items)[k] == items[k + 1]
    ensures |items| > ListLimit ==> Selection(items) == items[1..ListLimit + 1]
  {
  }

  /** `update_app_js(news_items)` up to the file rewrite: nothing for an
      empty list, else the hero entry of item 0 and a list entry for each of
      items 1 to 6. */
  method UpdateAppJs(items: seq<NewsItem>) returns (r: Option<AppJs>)
    ensures r.None? <==> items == []
    ensures r.Some? ==> r.value.hero == EntryOf(items[0])
    ensures r.Some? ==> |r.value.list| == |Selection(items)|
    ensures r.Some? ==> forall k :: 0 <= k < |r.value.list| ==> r.value.list[k] == EntryOf(Selection(items)[k])
  {
    if items == [] {
      return None;
    }
    var list: seq<JsEntry> := [];
    var n := Min(|items|, ListLimit + 1);
    for i := 1 to n
      invariant |list| == i - 1
      invariant forall k :: 0 <= k < |list| ==> list[k] == EntryOf(items[k + 1])
    {
      var titleEscaped := Escape(items[i].title);
      list := list + [JsEntry(titleEscaped, items[i].source, items[i].time)];
    }
    var hero := items[0];
    r := Some(AppJs(JsEntry(Escape(hero.title), hero.source, hero.time), list));
  }

  /** Each listed title unescapes to its item's title. */
  lemma UpdateAppJsTitles(items: seq<NewsItem>, k: nat)
    requires 0 < k < Min(|items|, ListLimit + 1)
    ensures Unescape(EntryOf(items[k]).title) == items[k].title
  {
    EscapeRoundTrip(items[k].title);
  }

  // ---------------------------------------------------------------------
  // How app.js reads the quoted fields back
  // ---------------------------------------------------------------------

  /** The character an escape sequence `\c` stands for inside a JavaScript
      string literal: the single-character escapes, and `c` itself for any
      other character that is not a digit, `x`, `u` or a line terminator
      (those forms are `None` here). */
  function EscapedChar(c: char): Option<char> {
    if c == 'n' then Some('\n')
    else if c == 'r' then Some('\r')
    else if c == 't' then Some('\t')
    else if c == 'b' then Some('\U{8}')
    else if c == 'f' then Some('\U{C}')
    else if c == 'v' then Some('\U{B}')
    else if ('0' <= c <= '9') || c == 'x' || c == 'u' || c == '\n' || c == '\r' || c == '\U{2028}' || c == '\U{2029}' then None
    else Some(c)
  }

  /** The value of `'s'` in JavaScript: `None` when the text between the
      quotes ends the literal early (a bare `'`), breaks it (a bare line
      break, or a final backslash that escapes the closing quote) or uses an
      escape form not modelled. */
  function ReadLiteral(s: string): Option<string> {
    if s == [] then Some([])
    else if s[0] == '\'' || s[0] == '\n' || s[0] == '\r' then None
    else if s[0] == '\\' then
      if |s| == 1 || EscapedChar(s[1]).None? then None
      else match ReadLiteral(s[2..])
        case Some(rest) => Some([EscapedChar(s[1]).value] + rest)
        case None => None
    else match ReadLiteral(s[1..])
      case Some(rest) => Some([s[0]] + rest)
      case None => None
  }

  // ---------------------------------------------------------------------
  // re.sub(pattern, template, content): what the template expands to
  // ---------------------------------------------------------------------

  /** The one-character escapes of a replacement template: `\a`, `\b`,
      `\f`, `\n`, `\r`, `\t`, `\v` and `\\`. */
  function TemplateChar(c: char): Option<char> {
    if c == 'a' then Some('\U{7}')
    else if c == 'b' then Some('\U{8}')
    else if c == 'f' then Some('\U{C}')
    else if c == 'n' then Some('\n')
    else if c == 'r' then Some('\r')
    else if c == 't' then Some('\t')
    else if c == 'v' then Some('\U{B}')
    else if c == '\\' then Some('\\')
    else None
  }

  predicate IsOctal(c: char) {
    '0' <= c <= '7'
  }

  predicate IsAsciiLetter(c: char) {
    ('a' <= c <= 'z') || ('A' <= c <= 'Z')
  }

  /** The escape at the head of `t`, for a pattern without groups: the text
      it stands for and its length in `t`, or `None` where Python raises
      `re.error`. `\g<0>` (any number of `0`s) is the whole match `whole`;
      `\0` with up to two more octal digits and `\` with three octal digits
      are characters; any other `\g`, `\1`..`\9` (group references) and any
      other escaped ASCII letter are errors; any other escaped character is
      kept with its backslash. */
  function TemplateToken(t: string, whole: string): (r: Option<(string, nat)>)
    requires |t| >= 2 && t[0] == '\\'
    ensures r.Some? ==> 2 <= r.value.1 <= |t|
  {
    var c := t[1];
    if c == 'g' then
      if |t| < 3 || t[2] != '<' then None
      else match Find(t, ">", 3, false)
        case None => None
        case Some(j) => if j > 3 && forall k :: 3 <= k < j ==> t[k] == '0' then Some((whole, j + 1)) else None
    else if c == '0' then
      if |t| > 2 && IsOctal(t[2]) then
        if |t| > 3 && IsOctal(t[3]) then Some(([((t[2] as int - '0' as int) * 8 + (t[3] as int - '0' as int)) as char], 4))
        else Some(([(t[2] as int - '0' as int) as char], 3))
      else Some(("\U{0}", 2))
    else if '1' <= c <= '9' then
      if IsOctal(c) && |t| > 3 && IsOctal(t[2]) && IsOctal(t[3]) then
        var v := (c as int - '0' as int) * 64 + (t[2] as int - '0' as int) * 8 + (t[3] as int - '0' as int);
        if v > 255 then None else Some(([v as char], 4))
      else None
    else match TemplateChar(c)
      case Some(e) => Some(([e], 2))
      case None => if IsAsciiLetter(c) then None else Some((['\\', c], 2))
  }

  /** `p` followed by the expansion, if there is one. */
  function Prepend(p: string, r: Option<string>): Option<string> {
    match r
    case None => None
    case Some(e) => Some(p + e)
  }

  lemma PrependNil(r: Option<string>)
    ensures Prepend([], r) == r
  {
    if r.Some? {
      assert [] + r.value == r.value;
    }
  }

  lemma PrependPrepend(a: string, b: string, r: Option<string>)
    ensures Prepend(a, Prepend(b, r)) == Prepend(a + b, r)
  {
    if r.Some? {
      assert a + (b + r.value) == (a + b) + r.value;
    }
  }

  /** What `re.sub` writes in place of a match when `t` is its replacement
      and the pattern has no groups (both patterns of `update_app_js`);
      `None` when it raises `re.error`. */
  function Expand(t: string, whole: string): Option<string>
    decreases |t|
  {
    if t == [] then Some([])
    else if t[0] != '\\' then Prepend([t[0]], Expand(t[1..], whole))
    else if |t| == 1 then None
    else match TemplateToken(t, whole)
      case None => None
      case Some((piece, n)) => Prepend(piece, Expand(t[n..], whole))
  }

  /** Text without a backslash is written as it is. */
  lemma {:induction false} ExpandPlain(x: string, y: string, whole: string)
    requires forall k :: 0 <= k < |x| ==> x[k] != '\\'
    ensures Expand(x + y, whole) == Prepend(x, Expand(y, whole))
    decreases |x|
  {
    if x == [] {
      assert x + y == y;
      PrependNil(Expand(y, whole));
    } else {
      assert (x + y)[1..] == x[1..] + y;
      assert forall k :: 0 <= k < |x[1..]| ==> x[1..][k] == x[k + 1];
      ExpandPlain(x[1..], y, whole);
      PrependPrepend([x[0]], x[1..], Expand(y, whole));
      assert [x[0]] + x[1..] == x;
    }
  }

  /** The quote-escaped text of a title without backslashes is written as
      it is: `re.sub` keeps `\'`. */
  lemma {:induction false} ExpandEscape(t: string, y: string, whole: string)
    requires forall k :: 0 <= k < |t| ==> t[k] != '\\'
    ensures Expand(Escape(t) + y, whole) == Prepend(Escape(t), Expand(y, whole))
    decreases |t|
  {
    if t == [] {
      assert Escape(t) + y == y;
      PrependNil(Expand(y, whole));
    } else {
      var h := if t[0] == '\'' then "\\'" else [t[0]];
      var e := Escape(t[1..]);
      assert Escape(t) + y == h + (e + y);
      assert forall k :: 0 <= k < |t[1..]| ==> t[1..][k] == t[k + 1];
      ExpandEscape(t[1..], y, whole);
      ExpandEscapedHead(h, e + y, whole);
      PrependPrepend(h, e, Expand(y, whole));
    }
  }

  /** The piece `Escape` writes for one character other than a backslash
      is written as it is. */
  lemma ExpandEscapedHead(h: string, rest: string, whole: string)
    requires h == "\\'" || (|h| == 1 && h[0] != '\\')
    ensures Expand(h + rest, whole) == Prepend(h, Expand(rest, whole))
  {
    var u := h + rest;
    if h == "\\'" {
      assert u[0] == '\\' && u[1] == '\'' && u[2..] == rest;
      assert TemplateToken(u, whole) == Some(("\\'", 2));
    } else {
      assert u[0] == h[0] && u[1..] == rest && [h[0]] == h;
    }
  }

  /** The text app.js holds between a field's quotes after `re.sub`. The
      field is expanded together with the quote that closes it, because a
      final backslash of the field takes that quote into its escape; the
      text around the fields has no backslash and is written as it is.
      `None` when `re.sub` raises. */
  function Written(field: string, whole: string): Option<string> {
    match Expand(field + "'", whole)
    case None => None
    case Some(w) => if w != [] && w[|w| - 1] == '\'' then Some(w[..|w| - 1]) else None
  }

  /** A field without a backslash lands in app.js as it is. */
  lemma WrittenPlain(x: string, whole: string)
    requires forall k :: 0 <= k < |x| ==> x[k] != '\\'
    ensures Written(x, whole) == Some(x)
  {
    ExpandPlain(x, "'", whole);
    QuoteExpands(whole);
    assert (x + "'")[..|x|] == x;
  }

  /** A title without a backslash lands in app.js with its quotes escaped. */
  lemma WrittenEscaped(t: string, whole: string)
    requires forall k :: 0 <= k < |t| ==> t[k] != '\\'
    ensures Written(Escape(t), whole) == Some(Escape(t))
  {
    ExpandEscape(t, "'", whole);
    QuoteExpands(whole);
    assert (Escape(t) + "'")[..|Escape(t)|] == Escape(t);
  }

  lemma QuoteExpands(whole: string)
    ensures Expand("'", whole) == Some("'")
  {
    assert "'"[1..] == [];
    assert Expand([], whole) == Some([]);
    assert "'" + [] == "'";
  }

  /** The value JavaScript reads from a field of app.js; `None` when
      `re.sub` raises or the literal does not read back. */
  function ReadBack(field: string, whole: string): Option<string> {
    match Written(field, whole)
    case None => None
    case Some(w) => ReadLiteral(w)
  }

  /** The fields of an entry as app.js holds them after `re.sub`. */
  function WrittenEntry(e: JsEntry, whole: string): Option<JsEntry> {
    match (Written(e.title, whole), Written(e.source, whole), Written(e.time, whole))
    case (Some(t), Some(s), Some(m)) => Some(JsEntry(t, s, m))
    case _ => None
  }

  /** As written, a title with a backslash breaks app.js: the title `\n`
      (backslash, `n`) is handed to `re.sub` as it is, `re.sub` writes a raw
      line break in its place, and a line break ends the literal; the title
      `\d` makes `re.sub` raise. */
  lemma EscapeMisreadsBackslash(whole: string)
    ensures Escape("\\n") == "\\n"
    ensures Written(Escape("\\n"), whole) == Some("\n")
    ensures ReadBack(Escape("\\n"), whole) == None
    ensures Written(Escape("\\d"), whole) == None
  {
    var s := "\\n";
    assert Escape(s) == "\\" + Escape("n");
    var t := s + "'";
    assert TemplateToken(t, whole) == Some(("\n", 2));
    assert t[2..] == "'";
    QuoteExpands(whole);
    assert "\n" + "'" == "\n'";
    assert Expand(t, whole) == Some("\n'");
    var d := "\\d" + "'";
    assert Escape("\\d") == "\\" + Escape("d");
    assert TemplateToken(d, whole).None?;
  }

  /** Where the code as written is right: a title without backslashes or
      line breaks reads back from app.js as itself. */
  lemma EscapedTitleReadsBack(t: string, whole: string)
    requires forall k :: 0 <= k < |t| ==> t[k] != '\\' && t[k] != '\n' && t[k] != '\r'
    ensures ReadBack(Escape(t), whole) == Some(t)
  {
    EscapeJsAgrees(t);
    WrittenEscaped(t, whole);
    EscapeJsRoundTrip(t);
  }

  /** As written, a source or time with a quote ends its literal early: a
      source named `Tom's Hardware` is written as it is and does not read
      back at all. */
  lemma EntryBreaksOnQuotedSource(whole: string)
    ensures EntryOf(NewsItem("t", "Tom's Hardware", "now", "#")).source == "Tom's Hardware"
    ensures Written("Tom's Hardware", whole) == Some("Tom's Hardware")
    ensures ReadBack("Tom's Hardware", whole) == None
  {
    var s := "Tom's Hardware";
    WrittenPlain(s, whole);
    assert s[1..][1..][1..] == "'s Hardware" && ReadLiteral(s[1..][1..][1..]) == None;
    assert ReadLiteral(s[1..][1..]) == None;
    assert ReadLiteral(s[1..]) == None;
  }

  // ---------------------------------------------------------------------
  // The corrected fields
  // ---------------------------------------------------------------------

  /** The escaping a JavaScript literal needs: backslashes, quotes and line
      breaks all written as escape sequences. */
  function EscapeJs(t: string): string {
    if t == [] then []
    else
      var c := t[0];
      (if c == '\\' then "\\\\" else if c == '\'' then "\\'" else if c == '\n' then "\\n"
       else if c == '\r' then "\\r" else [c]) + EscapeJs(t[1..])
  }

  /** Every text escaped this way reads back as itself. */
  lemma {:induction false} EscapeJsRoundTrip(t: string)
    ensures ReadLiteral(EscapeJs(t)) == Some(t)
  {
    if t != [] {
      EscapeJsRoundTrip(t[1..]);
      var c := t[0];
      assert t == [c] + t[1..];
      var e := EscapeJs(t[1..]);
      if c == '\\' || c == '\'' || c == '\n' || c == '\r' {
        var h := if c == '\\' then "\\\\" else if c == '\'' then "\\'" else if c == '\n' then "\\n" else "\\r";
        assert EscapeJs(t) == h + e;
        assert (h + e)[0] == '\\' && (h + e)[1] == h[1] && (h + e)[2..] == e;
        assert EscapedChar(h[1]) == Some(c);
      } else {
        assert EscapeJs(t) == [c] + e;
        assert ([c] + e)[1..] == e;
      }
    }
  }

  /** The escaping a `re.sub` template needs: every backslash doubled. */
  function Protect(t: string): string {
    if t == [] then [] else (if t[0] == '\\' then "\\\\" else [t[0]]) + Protect(t[1..])
  }

  /** `re.sub` writes a protected text as the text itself. */
  lemma {:induction false} ExpandProtect(x: string, y: string, whole: string)
    ensures Expand(Protect(x) + y, whole) == Prepend(x, Expand(y, whole))
    decreases |x|
  {
    if x == [] {
      assert Protect(x) + y == y;
      PrependNil(Expand(y, whole));
    } else {
      var h := if x[0] == '\\' then "\\\\" else [x[0]];
      var e := Protect(x[1..]);
      assert Protect(x) + y == h + (e + y);
      ExpandProtect(x[1..], y, whole);
      var u := h + (e + y);
      if x[0] == '\\' {
        assert u[0] == '\\' && u[1] == '\\' && u[2..] == e + y;
        assert TemplateToken(u, whole) == Some(("\\", 2));
      } else {
        assert u[0] == x[0] && u[1..] == e + y;
      }
      PrependPrepend([x[0]], x[1..], Expand(y, whole));
      assert [x[0]] + x[1..] == x;
    }
  }

  /** A protected field lands in app.js as it is, whatever the match. */
  lemma WrittenProtect(x: string, whole: string)
    ensures Written(Protect(x), whole) == Some(x)
  {
    ExpandProtect(x, "'", whole);
    QuoteExpands(whole);
    assert (x + "'")[..|x|] == x;
  }

  /** The field of a text, escaped for JavaScript and then for `re.sub`. */
  function SafeField(t: string): (r: string)
    ensures forall whole :: ReadBack(r, whole) == Some(t)
  {
    EscapeJsRoundTrip(t);
    forall whole ensures Written(Protect(EscapeJs(t)), whole) == Some(EscapeJs(t)) {
      WrittenProtect(EscapeJs(t), whole);
    }
    Protect(EscapeJs(t))
  }

  /** The entry of an item with every quoted field escaped: title, source
      and time all read back from app.js as the item's. */
  function SafeEntryOf(item: NewsItem): (r: JsEntry)
    ensures forall whole :: ReadBack(r.title, whole) == Some(item.title)
    ensures forall whole :: ReadBack(r.source, whole) == Some(item.source)
    ensures forall whole :: ReadBack(r.time, whole) == Some(item.time)
  {
    JsEntry(SafeField(item.title), SafeField(item.source), SafeField(item.time))
  }

  /** With no backslash or line break, `EscapeJs` is `Escape`. */
  lemma {:induction false} EscapeJsAgrees(t: string)
    requires forall k :: 0 <= k < |t| ==> t[k] != '\\' && t[k] != '\n' && t[k] != '\r'
    ensures EscapeJs(t) == Escape(t)
  {
    if t != [] {
      assert forall k :: 0 <= k < |t[1..]| ==> t[1..][k] == t[k + 1];
      EscapeJsAgrees(t[1..]);
    }
  }

  /** A text with nothing to escape is written as it is. */
  lemma {:induction false} EscapeJsPlain(t: string)
    requires forall k :: 0 <= k < |t| ==> t[k] != '\\' && t[k] != '\'' && t[k] != '\n' && t[k] != '\r'
    ensures EscapeJs(t) == t
  {
    if t != [] {
      assert forall k :: 0 <= k < |t[1..]| ==> t[1..][k] == t[k + 1];
      EscapeJsPlain(t[1..]);
      assert t == [t[0]] + t[1..];
    }
  }

  /** Where the code as written is right, app.js ends up the same with the
      corrected entry. */
  lemma SafeEntryAgrees(item: NewsItem, whole: string)
    requires forall k :: 0 <= k < |item.title| ==> item.title[k] != '\\' && item.title[k] != '\n' && item.title[k] != '\r'
    requires forall k :: 0 <= k < |item.source| ==> item.source[k] != '\\' && item.source[k] != '\'' && item.source[k] != '\n' && item.source[k] != '\r'
    requires forall k :: 0 <= k < |item.time| ==> item.time[k] != '\\' && item.time[k] != '\'' && item.time[k] != '\n' && item.time[k] != '\r'
    ensures WrittenEntry(SafeEntryOf(item), whole) == WrittenEntry(EntryOf(item), whole)
  {
    EscapeJsAgrees(item.title);
    EscapeJsPlain(item.source);
    EscapeJsPlain(item.time);
    WrittenProtect(EscapeJs(item.title), whole);
    WrittenProtect(item.source, whole);
    WrittenProtect(item.time, whole);
    WrittenEscaped(item.title, whole);
    WrittenPlain(item.source, whole);
    WrittenPlain(item.time, whole);
  }
}
