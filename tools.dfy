/**
 * The normalisation of scripts/fetch-tools.js: the first eight products of
 * the Product Hunt response, each with its field defaults and the day of
 * the run, or the curated list when the response cannot be used.
 */
module Tools {
  import opened Wrappers
  import opened Strings

  /** The fields of one product; `None` is an absent field. Only string
      and integer values are modelled. */
  datatype Product = Product(name: Option<string>, tagline: Option<string>, description: Option<string>,
                             url: Option<string>, votes: Option<int>)

  /** An element of the parsed array: `null`, or a value whose fields are
      read (a value that is not an object has none of them). */
  datatype Element = Null | Value(product: Product)

  /** A tool as tools.json holds it; the curated tools have no `day`. */
  datatype Tool = Tool(name: string, tagline: string, description: string, url: string, votes: int, day: Option<string>)

  const TopTools := 8

  /** `v || d` for a string field: the value unless it is absent or empty. */
  function OrText(v: Option<string>, d: string): (r: string)
    ensures v.Some? && v.value != "" ==> r == v.value
    ensures (v.None? || v.value == "") ==> r == d
  {
    if v.Some? && v.value != "" then v.value else d
  }

  /** `new Date().toISOString().split('T')[0]`: the text before the first
      `T`, all of it when there is none. */
  function DatePart(timestamp: string): (r: string)
    ensures |r| <= |timestamp| && r == timestamp[..|r|]
    ensures forall k :: 0 <= k < |r| ==> r[k] != 'T'
    ensures |r| < |timestamp| ==> timestamp[|r|] == 'T'
  {
    match Find(timestamp, "T", 0, false)
    case None =>
      NoTSeparator(timestamp);
      timestamp
    case Some(i) =>
      forall k | 0 <= k < i ensures timestamp[k] != 'T' {
        assert !Matches(timestamp, k, "T", false);
        assert timestamp[k..k + 1] == [timestamp[k]];
      }
      assert timestamp[i..i + 1] == "T";
      timestamp[..i]
  }

  lemma NoTSeparator(s: string)
    requires forall k :: 0 <= k < |s| ==> !Matches(s, k, "T", false)
    ensures forall k :: 0 <= k < |s| ==> s[k] != 'T'
  {
    forall k | 0 <= k < |s| ensures s[k] != 'T' {
      assert !Matches(s, k, "T", false);
      assert s[k..k + 1] == [s[k]];
    }
  }

  /** The tool the `map` callback makes of one product. */
  function ToolOf(p: Product, day: string): (r: Tool)
    ensures r.name != "" && r.day == Some(day)
    ensures r.name == OrText(p.name, "Unknown") && r.tagline == OrText(p.tagline, "")
    ensures r.description == OrText(p.description, "") && r.url == OrText(p.url, "")
    ensures r.votes == p.votes.GetOr(0)
  {
    Tool(OrText(p.name, "Unknown"), OrText(p.tagline, ""), OrText(p.description, ""),
         OrText(p.url, ""), p.votes.GetOr(0), Some(day))
  }

  /** A tool read back as a product. */
  function AsProduct(t: Tool): Product {
    Product(Some(t.name), Some(t.tagline), Some(t.description), Some(t.url), Some(t.votes))
  }

  /** Normalising a normalised tool changes nothing. */
  lemma ToolOfIdempotent(p: Product, day: string)
    ensures ToolOf(AsProduct(ToolOf(p, day)), day) == ToolOf(p, day)
  {
  }

  /** `getFallbackTools()`. */
  function FallbackTools(): (r: seq<Tool>)
    ensures |r| == TopTools
    ensures forall i, j :: 0 <= i < j < |r| ==> r[i].votes > r[j].votes
    ensures forall k :: 0 <= k < |r| ==> r[k].day.None? && r[k].name != ""
  {
    [ Tool("Cursor", "AI-first code editor", "Fork of VS Code with AI built-in", "https://cursor.sh", 850, None),
      Tool("bolt.new", "AI-first AI IDE", "Full-stack development in browser", "https://bolt.new", 720, None),
      Tool("Lovable", "Build apps with plain language", "AI-powered app builder", "https://lovable.dev", 680, None),
      Tool("Screen Studio", "Beautiful screen recordings", "Effortless screen capture", "https://screen.studio", 620, None),
      Tool("Wispr Flow", "AI-powered text expansion", "Smart shortcuts for text", "https://flow.wispr.com", 580, None),
      Tool("Framer", "Design and ship sites", "No-code design platform", "https://framer.com", 550, None),
      Tool("Replit", "IDE for teams", "Collaborative coding", "https://replit.com", 520, None),
      Tool("Claude Code", "Autonomous coding agent", "CLI for Claude", "https://claude.com/claude-code", 490, None) ]
  }

  /** The callback reads a field of every element it is given, so a `null`
      among the first eight throws. */
  predicate AllValues(es: seq<Element>) {
    forall k :: 0 <= k < |es| ==> es[k].Value?
  }

  /** What `fetchProductHunt` resolves to for a response body: `None` when
      `JSON.parse` fails or gives something other than an array, else the
      parsed array; `timestamp` is `new Date().toISOString()`. */
  function FetchProductHunt(response: Option<seq<Element>>, timestamp: string): (r: seq<Tool>)
    ensures |r| <= TopTools
  {
    match response
    case None => FallbackTools()
    case Some(es) =>
      var top := es[..Min(TopTools, |es|)];
      if AllValues(top) then seq(|top|, k requires 0 <= k < |top| => ToolOf(top[k].product, DatePart(timestamp)))
      else FallbackTools()
  }

  /** An unusable response gives exactly the curated list; a usable one
      gives one tool per product among the first eight, in order, each a
      normalised copy stamped with the run's day. */
  lemma FetchProductHuntShape(response: Option<seq<Element>>, timestamp: string)
    ensures var r := FetchProductHunt(response, timestamp);
      (response.None? || !AllValues(response.value[..Min(TopTools, |response.value|)])) ==> r == FallbackTools()
    ensures var r := FetchProductHunt(response, timestamp);
      response.Some? && AllValues(response.value[..Min(TopTools, |response.value|)]) ==>
        |r| == Min(TopTools, |response.value|)
        && forall k :: 0 <= k < |r| ==> r[k] == ToolOf(response.value[k].product, DatePart(timestamp))
  {
    if response.Some? {
      var es := response.value;
      var top := es[..Min(TopTools, |es|)];
      forall k | 0 <= k < |top| ensures top[k] == es[k] {
      }
    }
  }

  /** Every tool of a usable response carries the same day, and none of
      them has an empty name. */
  lemma FetchProductHuntDay(response: Option<seq<Element>>, timestamp: string, i: nat, j: nat)
    requires i < |FetchProductHunt(response, timestamp)| && j < |FetchProductHunt(response, timestamp)|
    ensures FetchProductHunt(response, timestamp)[i].day == FetchProductHunt(response, timestamp)[j].day
    ensures FetchProductHunt(response, timestamp)[i].name != ""
  {
  }
}
