/**
 * Text extraction of the RSS fetcher (scripts/fetch-news.js): unwrapping
 * CDATA sections and extracting the normalised text between two tags.
 * Each regular-expression replacement is written as a left-to-right scanner
 * with the semantics of that one pattern.
 */
module FeedText {
  import opened Wrappers
  import opened Strings

  const CDataOpen := "<![CDATA["
  const CDataClose := "]]>"

  // ---------------------------------------------------------------------
  // Matching lemmas
  // ---------------------------------------------------------------------

  /** Shifting a string shifts every match in it. */
  lemma MatchesSuffix(s: string, d: nat, j: nat, pat: string, ci: bool)
    requires d <= |s|
    ensures Matches(s[d..], j, pat, ci) == Matches(s, d + j, pat, ci)
  {
    if j + |pat| <= |s| - d {
      assert s[d..][j..j + |pat|] == s[d + j..d + j + |pat|];
    }
  }

  /** A one-character pattern matches exactly where that character is. */
  lemma MatchesChar(s: string, j: nat, c: char)
    ensures Matches(s, j, [c], false) <==> j < |s| && s[j] == c
  {
    if j < |s| {
      assert s[j..j + 1] == [s[j]];
    }
  }

  /** `Find` returns the unique first match. */
  lemma FindIs(s: string, pat: string, from: nat, ci: bool, p: nat)
    requires from <= p && Matches(s, p, pat, ci)
    requires forall j :: from <= j < p ==> !Matches(s, j, pat, ci)
    ensures Find(s, pat, from, ci) == Some(p)
  {
  }

  // ---------------------------------------------------------------------
  // cleanCDATAText: replace every <![CDATA[x]]> (shortest x) by x
  // ---------------------------------------------------------------------

  /** Where the body of a CDATA section opening `s` ends, if it is closed. */
  function CDataEnd(s: string): (r: Option<nat>)
    ensures r.Some? ==> |CDataOpen| <= r.value && r.value + |CDataClose| <= |s|
  {
    if Matches(s, 0, CDataOpen, false) then Find(s, CDataClose, |CDataOpen|, false) else None
  }

  function CleanCDATA(s: string): (r: string)
    ensures |r| <= |s|
    decreases |s|
  {
    if s == [] then []
    else match CDataEnd(s)
      case Some(j) => s[|CDataOpen|..j] + CleanCDATA(s[j + |CDataClose|..])
      case None => [s[0]] + CleanCDATA(s[1..])
  }

  /** Text that holds no CDATA opener comes back unchanged. */
  lemma {:induction false} CleanCDATAIdentity(s: string)
    requires Absent(s, CDataOpen)
    ensures CleanCDATA(s) == s
    decreases |s|
  {
    if s != [] {
      assert !Matches(s, 0, CDataOpen, false);
      forall j | 0 <= j <= |s[1..]| ensures !Matches(s[1..], j, CDataOpen, false) {
        MatchesSuffix(s, 1, j, CDataOpen, false);
      }
      CleanCDATAIdentity(s[1..]);
    }
  }

  /** A complete CDATA section whose body holds no `]]>` is replaced by its
      body, and scanning goes on right after the section. */
  lemma CleanCDATAUnwrap(x: string, rest: string)
    requires Absent(x, CDataClose)
    ensures CleanCDATA(CDataOpen + x + CDataClose + rest) == x + CleanCDATA(rest)
  {
    var s := CDataOpen + x + CDataClose + rest;
    var e := |CDataOpen| + |x|;
    assert s[..|CDataOpen|] == CDataOpen;
    assert Matches(s, 0, CDataOpen, false);
    assert s[e..e + 3] == CDataClose;
    forall j | |CDataOpen| <= j < e ensures !Matches(s, j, CDataClose, false) {
      if j + 3 <= e {
        assert s[j..j + 3] == x[j - 9..j - 9 + 3];
        assert !Matches(x, j - 9, CDataClose, false);
      } else {
        assert s[e] == ']' && s[e + 1] == ']';
        assert j + 2 == e || j + 2 == e + 1;
        assert j + 3 <= |s| ==> s[j..j + 3][2] == s[j + 2] != CDataClose[2];
      }
    }
    FindIs(s, CDataClose, |CDataOpen|, false, e);
    assert CDataEnd(s) == Some(e);
    assert s[|CDataOpen|..e] == x;
    assert s[e + 3..] == rest;
  }

  /** Dropping the first character keeps a pattern absent. */
  lemma AbsentTail(s: string, pat: string)
    requires s != [] && Absent(s, pat)
    ensures Absent(s[1..], pat)
  {
    forall j | 0 <= j <= |s[1..]| ensures !Matches(s[1..], j, pat, false) {
      MatchesSuffix(s, 1, j, pat, false);
    }
  }

  /** A pattern that starts with its only `<` cannot straddle a text
      without it and a text that starts with `<` (or is empty). */
  lemma NoMatchAcross(p: string, t: string, pat: string)
    requires p != [] && Absent(p, pat) && (t == [] || t[0] == '<')
    requires pat != [] && pat[0] == '<' && forall k :: 1 <= k < |pat| ==> pat[k] != '<'
    ensures !Matches(p + t, 0, pat, false)
  {
    var s := p + t;
    if |p| >= |pat| {
      assert s[0..|pat|] == p[0..|pat|];
      assert !Matches(p, 0, pat, false);
    } else if |pat| <= |s| {
      assert s[0..|pat|][|p|] == s[|p|] == t[0];
    }
  }

  lemma CDataOpenHeads()
    ensures CDataOpen[0] == '<' && forall k :: 1 <= k < |CDataOpen| ==> CDataOpen[k] != '<'
  {
  }

  /** Text without a CDATA opener, up to a tag or the end, is copied as it
      is. */
  lemma {:induction false} CleanCDATAPlain(p: string, t: string)
    requires Absent(p, CDataOpen) && (t == [] || t[0] == '<')
    ensures CleanCDATA(p + t) == p + CleanCDATA(t)
    decreases |p|
  {
    if p != [] {
      CleanCDATAHead(p, t);
      AbsentTail(p, CDataOpen);
      CleanCDATAPlain(p[1..], t);
      ConsThrough(p, CleanCDATA(p + t), CleanCDATA(p[1..] + t), CleanCDATA(t));
    } else {
      assert p + t == t;
    }
  }

  /** The first character of such text is copied. */
  lemma CleanCDATAHead(p: string, t: string)
    requires p != [] && Absent(p, CDataOpen) && (t == [] || t[0] == '<')
    ensures CleanCDATA(p + t) == [p[0]] + CleanCDATA(p[1..] + t)
  {
    CDataNotAcross(p, t);
    CleanCDATAShift(p, t);
  }

  lemma CDataNotAcross(p: string, t: string)
    requires p != [] && Absent(p, CDataOpen) && (t == [] || t[0] == '<')
    ensures !Matches(p + t, 0, CDataOpen, false)
  {
    CDataOpenHeads();
    NoMatchAcross(p, t, CDataOpen);
  }

  /** A text that does not open a CDATA section keeps its first character. */
  lemma CleanCDATAShift(p: string, t: string)
    requires p != [] && !Matches(p + t, 0, CDataOpen, false)
    ensures CleanCDATA(p + t) == [p[0]] + CleanCDATA(p[1..] + t)
  {
    assert CDataEnd(p + t).None?;
    assert (p + t)[0] == p[0] && (p + t)[1..] == p[1..] + t;
  }

  /** A text whose first character is copied in front of the rest. */
  lemma ConsThrough(p: string, a: string, b: string, c: string)
    requires p != [] && a == [p[0]] + b && b == p[1..] + c
    ensures a == p + c
  {
    assert [p[0]] + (p[1..] + c) == ([p[0]] + p[1..]) + c;
    assert [p[0]] + p[1..] == p;
  }

  /** A CDATA section after any text without an opener is unwrapped in
      place: `<b>x</b><![CDATA[y]]>z` becomes `<b>x</b>y` and the cleaning of
      `z`. */
  lemma CleanCDATASection(p: string, x: string, rest: string)
    requires Absent(p, CDataOpen) && Absent(x, CDataClose)
    ensures CleanCDATA(p + CDataOpen + x + CDataClose + rest) == p + x + CleanCDATA(rest)
  {
    var t := CDataOpen + x + CDataClose + rest;
    assert p + CDataOpen + x + CDataClose + rest == p + t;
    CleanCDATAPlain(p, t);
    CleanCDATAUnwrap(x, rest);
  }

  // ---------------------------------------------------------------------
  // .replace(/<[^>]+>/g, ' '): every tag becomes one space
  // ---------------------------------------------------------------------

  /** The head of `s` opens no tag: it is not a `<`, or a `>` comes right
      after it, or no `>` follows it at all. */
  predicate OpensNoTag(s: string)
    requires s != []
  {
    s[0] == '<' ==> (|s| >= 2 && s[1] == '>') || '>' !in s[1..]
  }

  /** No position of `s` opens a tag, so the tag pattern matches nowhere. */
  predicate NoTag(s: string) {
    s == [] || (OpensNoTag(s) && NoTag(s[1..]))
  }

  /** Index of the `>` closing a tag that opens `s`: the first `>` after the
      `<`, with at least one character between them. */
  function TagEnd(s: string): (r: Option<nat>)
    ensures r.Some? ==> 2 <= r.value < |s|
  {
    if s != [] && s[0] == '<' then
      match Find(s, ">", 1, false)
      case Some(j) => (MatchesChar(s, j, '>'); if j >= 2 then Some(j) else None)
      case None => None
    else None
  }

  function StripTags(s: string): (r: string)
    ensures |r| <= |s|
    decreases |s|
  {
    if s == [] then []
    else match TagEnd(s)
      case Some(j) => " " + StripTags(s[j + 1..])
      case None => [s[0]] + StripTags(s[1..])
  }

  lemma {:induction false} NoTagSuffix(s: string, a: nat)
    requires a <= |s| && NoTag(s)
    ensures NoTag(s[a..])
    decreases a
  {
    if a > 0 {
      NoTagSuffix(s[1..], a - 1);
      assert s[1..][a - 1..] == s[a..];
    }
  }

  lemma {:induction false} NoTagPrefix(s: string, b: nat)
    requires b <= |s| && NoTag(s)
    ensures NoTag(s[..b])
    decreases b
  {
    if b > 0 {
      var t := s[..b];
      NoTagPrefix(s[1..], b - 1);
      assert t[1..] == s[1..][..b - 1];
      if t[0] == '<' && !(|t| >= 2 && t[1] == '>') {
        if b >= 2 {
          assert s[1] != '>';
          assert '>' !in s[1..];
          assert forall k :: 0 <= k < |t[1..]| ==> t[1..][k] == s[1..][k];
        }
      }
    }
  }

  lemma NoTagSlice(s: string, a: nat, b: nat)
    requires a <= b <= |s| && NoTag(s)
    ensures NoTag(s[a..b])
  {
    NoTagSuffix(s, a);
    NoTagPrefix(s[a..], b - a);
    assert s[a..][..b - a] == s[a..b];
  }

  /** The tag pattern matches at the head of `s` exactly when the head opens
      a tag. */
  lemma TagEndOpens(s: string)
    requires s != []
    ensures TagEnd(s).None? <==> OpensNoTag(s)
  {
    if s[0] == '<' {
      match Find(s, ">", 1, false)
      case Some(j) =>
        MatchesChar(s, j, '>');
        if j == 1 {
        } else {
          MatchesChar(s, 1, '>');
          assert s[1..][j - 1] == '>';
        }
      case None =>
        forall k | 0 <= k < |s| - 1 ensures s[1..][k] != '>' {
          MatchesChar(s, k + 1, '>');
        }
    }
  }

  /** What `NoTag` means: every `<` that some later `>` follows is followed
      by a `>` at once, so no `<x...>` tag with a non-empty inside is left. */
  lemma {:induction false} NoTagMeans(s: string)
    requires NoTag(s)
    ensures forall i, j :: 0 <= i < j < |s| && s[i] == '<' && s[j] == '>' ==> s[i + 1] == '>'
    decreases |s|
  {
    if s != [] {
      NoTagMeans(s[1..]);
      forall i, j | 0 <= i < j < |s| && s[i] == '<' && s[j] == '>' ensures s[i + 1] == '>' {
        if i == 0 {
          assert s[1..][j - 1] == '>';
        } else {
          assert s[1..][i - 1] == '<' && s[1..][j - 1] == '>';
        }
      }
    }
  }

  /** Tag stripping adds no character other than a space. */
  lemma {:induction false} StripTagsChars(s: string, c: char)
    requires c != ' ' && c !in s
    ensures c !in StripTags(s)
    decreases |s|
  {
    if s != [] {
      match TagEnd(s)
      case Some(j) =>
        assert s == s[..j + 1] + s[j + 1..];
        StripTagsChars(s[j + 1..], c);
      case None =>
        assert s == [s[0]] + s[1..];
        StripTagsChars(s[1..], c);
    }
  }

  /** After tag stripping no tag is left. */
  lemma {:induction false} StripTagsNoTag(s: string)
    ensures NoTag(StripTags(s))
    decreases |s|
  {
    if s != [] {
      var r := StripTags(s);
      match TagEnd(s)
      case Some(j) =>
        StripTagsNoTag(s[j + 1..]);
        assert r[1..] == StripTags(s[j + 1..]);
      case None =>
        StripTagsNoTag(s[1..]);
        StripTagsKeepsHead(s);
    }
  }

  /** One step of `StripTagsNoTag`: a head that opens no tag is kept, and
      opens none in the result either. */
  lemma StripTagsKeepsHead(s: string)
    requires s != [] && TagEnd(s).None? && NoTag(StripTags(s[1..]))
    ensures NoTag(StripTags(s))
  {
    var t := s[1..];
    var r := StripTags(s);
    assert r == [s[0]] + StripTags(t) && r[1..] == StripTags(t);
    TagEndOpens(s);
    if s[0] == '<' {
      if |s| >= 2 && s[1] == '>' {
        assert TagEnd(t).None?;
        assert r[1] == StripTags(t)[0] == '>';
      } else {
        StripTagsChars(t, '>');
      }
    }
    assert OpensNoTag(r);
  }

  /** Tag-free text comes back unchanged. */
  lemma {:induction false} StripTagsIdentity(s: string)
    requires NoTag(s)
    ensures StripTags(s) == s
    decreases |s|
  {
    if s != [] {
      TagEndOpens(s);
      StripTagsIdentity(s[1..]);
    }
  }

  // ---------------------------------------------------------------------
  // .replace(/\s+/g, ' '): every whitespace run becomes one space
  // ---------------------------------------------------------------------

  /** Every whitespace character is a plain space and is not followed by
      another whitespace character. */
  predicate Collapsed(s: string) {
    s == [] || ((IsSpace(s[0]) ==> s[0] == ' ' && (|s| == 1 || !IsSpace(s[1]))) && Collapsed(s[1..]))
  }

  function Collapse(s: string): (r: string)
    ensures |r| <= |s|
    ensures s != [] && !IsSpace(s[0]) ==> r != [] && r[0] == s[0]
    ensures s != [] && IsSpace(s[0]) ==> r != [] && r[0] == ' '
    decreases |s|
  {
    if s == [] then []
    else if IsSpace(s[0]) then " " + Collapse(TrimStart(s))
    else [s[0]] + Collapse(s[1..])
  }

  lemma {:induction false} CollapsedSuffix(s: string, a: nat)
    requires a <= |s| && Collapsed(s)
    ensures Collapsed(s[a..])
    decreases a
  {
    if a > 0 {
      CollapsedSuffix(s[1..], a - 1);
      assert s[1..][a - 1..] == s[a..];
    }
  }

  lemma {:induction false} CollapsedPrefix(s: string, b: nat)
    requires b <= |s| && Collapsed(s)
    ensures Collapsed(s[..b])
    decreases b
  {
    if b > 0 {
      CollapsedPrefix(s[1..], b - 1);
      assert s[..b][1..] == s[1..][..b - 1];
    }
  }

  lemma CollapsedSlice(s: string, a: nat, b: nat)
    requires a <= b <= |s| && Collapsed(s)
    ensures Collapsed(s[a..b])
  {
    CollapsedSuffix(s, a);
    CollapsedPrefix(s[a..], b - a);
    assert s[a..][..b - a] == s[a..b];
  }

  /** What `Collapsed` means: every whitespace character is a space, and no
      two whitespace characters are adjacent. */
  lemma {:induction false} CollapsedMeans(s: string)
    requires Collapsed(s)
    ensures forall i :: 0 <= i < |s| && IsSpace(s[i]) ==> s[i] == ' '
    ensures forall i :: 0 <= i < |s| - 1 ==> !(IsSpace(s[i]) && IsSpace(s[i + 1]))
    decreases |s|
  {
    if s != [] {
      CollapsedMeans(s[1..]);
      assert forall i :: 1 <= i < |s| ==> s[i] == s[1..][i - 1];
    }
  }

  /** Collapsing adds no character other than a space. */
  lemma {:induction false} CollapseChars(s: string, c: char)
    requires c != ' ' && c !in s
    ensures c !in Collapse(s)
    decreases |s|
  {
    if s != [] {
      if IsSpace(s[0]) {
        var t := TrimStart(s);
        assert forall k :: 0 <= k < |t| ==> t[k] == s[|s| - |t| + k];
        CollapseChars(t, c);
      } else {
        CollapseChars(s[1..], c);
      }
    }
  }

  /** After collapsing, no two whitespace characters are adjacent and every
      whitespace character is a space. */
  lemma {:induction false} CollapseCollapsed(s: string)
    ensures Collapsed(Collapse(s))
    decreases |s|
  {
    if s != [] {
      var r := Collapse(s);
      if IsSpace(s[0]) {
        var t := TrimStart(s);
        CollapseCollapsed(t);
        assert r[1..] == Collapse(t);
      } else {
        CollapseCollapsed(s[1..]);
        assert r[1..] == Collapse(s[1..]);
      }
    }
  }

  /** Collapsing keeps tag-free text tag-free. */
  lemma {:induction false} CollapseNoTag(s: string)
    requires NoTag(s)
    ensures NoTag(Collapse(s))
    decreases |s|
  {
    if s != [] {
      var r := Collapse(s);
      if IsSpace(s[0]) {
        var t := TrimStart(s);
        NoTagSuffix(s, |s| - |t|);
        CollapseNoTag(t);
        assert r[1..] == Collapse(t);
      } else {
        var t := s[1..];
        CollapseNoTag(t);
        assert r[1..] == Collapse(t);
        if s[0] == '<' && !(|s| >= 2 && s[1] == '>') {
          CollapseChars(t, '>');
        }
      }
    }
  }

  /** Collapsed text comes back unchanged. */
  lemma {:induction false} CollapseIdentity(s: string)
    requires Collapsed(s)
    ensures Collapse(s) == s
    decreases |s|
  {
    if s != [] {
      var t := s[1..];
      CollapseIdentity(t);
      if IsSpace(s[0]) {
        assert TrimStart(t) == t;
        assert TrimStart(s) == t;
      }
    }
  }

  // ---------------------------------------------------------------------
  // The whole normalisation: strip tags, collapse whitespace, trim
  // ---------------------------------------------------------------------

  /** What `extractBetween` promises of its text. */
  ghost predicate Normalized(s: string) {
    NoTag(s) && Collapsed(s) && (s == [] || (!IsSpace(s[0]) && !IsSpace(s[|s| - 1])))
  }

  /** Trimming keeps tag-free, collapsed text so and removes the whitespace
      at either end. */
  lemma TrimNormalized(b: string)
    requires NoTag(b) && Collapsed(b)
    ensures Normalized(Trim(b))
  {
    var r := Trim(b);
    var off := |b| - |TrimStart(b)|;
    assert off + |r| <= |b| && r == b[off..off + |r|];
    assert NoTag(r) by { NoTagSlice(b, off, off + |r|); }
    assert Collapsed(r) by { CollapsedSlice(b, off, off + |r|); }
  }

  function Normalize(t: string): (r: string)
    ensures Normalized(r)
  {
    StripTagsNoTag(t);
    CollapseNoTag(StripTags(t));
    CollapseCollapsed(StripTags(t));
    TrimNormalized(Collapse(StripTags(t)));
    Trim(Collapse(StripTags(t)))
  }

  /** Normalising twice is normalising once. */
  lemma NormalizeIdempotent(s: string)
    requires Normalized(s)
    ensures Normalize(s) == s
  {
    StripTagsIdentity(s);
    CollapseIdentity(s);
  }

  // ---------------------------------------------------------------------
  // extractBetween: the first case-insensitive start...end span
  // ---------------------------------------------------------------------

  /** No start-tag occurrence before `i` is followed by an end tag. */
  ghost predicate NoSpanBefore(c: string, start: string, end: string, i: nat) {
    forall p, q :: 0 <= p < i && p + |start| <= q && Matches(c, p, start, false) ==> !Matches(c, q, end, false)
  }

  function SpanFrom(c: string, start: string, end: string, i: nat): (r: Option<(nat, nat)>)
    requires NoSpanBefore(c, start, end, i)
    ensures r.None? ==> NoSpanBefore(c, start, end, |c| + 1)
    ensures r.Some? ==> var (b, e) := r.value;
      |start| <= b <= e && Matches(c, b - |start|, start, false) && Matches(c, e, end, false)
      && (forall q :: b <= q < e ==> !Matches(c, q, end, false))
      && NoSpanBefore(c, start, end, b - |start|)
    decreases |c| - i
  {
    if i + |start| > |c| then None
    else if Matches(c, i, start, false) && Find(c, end, i + |start|, false).Some? then
      Some((i + |start|, Find(c, end, i + |start|, false).value))
    else SpanFrom(c, start, end, i + 1)
  }

  /** The body positions of the first span that the lazy pattern
      `start([\s\S]*?)end` matches in `c`: the earliest start tag that some
      later end tag follows, closed by the nearest such end tag. */
  function FindSpan(c: string, start: string, end: string): (r: Option<(nat, nat)>)
    ensures r.None? ==> forall p, q :: 0 <= p && p + |start| <= q && Matches(c, p, start, false) ==> !Matches(c, q, end, false)
    ensures r.Some? ==> var (b, e) := r.value;
      |start| <= b <= e && Matches(c, b - |start|, start, false) && Matches(c, e, end, false)
      && (forall q :: b <= q < e ==> !Matches(c, q, end, false))
      && (forall p, q :: 0 <= p < b - |start| && p + |start| <= q && Matches(c, p, start, false) ==> !Matches(c, q, end, false))
  {
    SpanFrom(c, start, end, 0)
  }

  /** The first span of the pattern with the `i` flag: since the tags are
      ASCII, it is the first span of the folded tags in the folded text, at
      the same positions. */
  function FindSpanCI(c: string, start: string, end: string): (r: Option<(nat, nat)>)
    ensures r.Some? ==> r.value.0 <= r.value.1 <= |c|
  {
    FindSpan(LowerAll(c), LowerAll(start), LowerAll(end))
  }

  /** The span `FindSpanCI` picks, read on the text itself: it lies between
      a case-insensitive start tag and the first end tag after it, and no
      earlier start tag is followed by an end tag; `None` when no start tag
      is followed by an end tag at all. */
  lemma FindSpanCIFirst(c: string, start: string, end: string)
    ensures FindSpanCI(c, start, end).None? ==>
      forall p, q :: 0 <= p && p + |start| <= q && Matches(c, p, start, true) ==> !Matches(c, q, end, true)
    ensures FindSpanCI(c, start, end).Some? ==> var (b, e) := FindSpanCI(c, start, end).value;
      |start| <= b <= e && Matches(c, b - |start|, start, true) && Matches(c, e, end, true)
      && (forall q :: b <= q < e ==> !Matches(c, q, end, true))
      && (forall p, q :: 0 <= p < b - |start| && p + |start| <= q && Matches(c, p, start, true) ==> !Matches(c, q, end, true))
  {
    FoldedEverywhere(c, start);
    FoldedEverywhere(c, end);
  }

  lemma FoldedEverywhere(c: string, pat: string)
    ensures forall p: nat :: Matches(LowerAll(c), p, LowerAll(pat), false) == Matches(c, p, pat, true)
  {
    forall p: nat ensures Matches(LowerAll(c), p, LowerAll(pat), false) == Matches(c, p, pat, true) {
      FoldedMatch(c, p, pat);
    }
  }

  /** `extractBetween(content, startTag, endTag)`: the unwrapped, tag-free,
      collapsed and trimmed text of the first span, or `""` without one. */
  function ExtractBetween(c: string, start: string, end: string): (r: string)
    ensures Normalized(r)
    ensures FindSpanCI(c, start, end).None? ==> r == ""
    ensures FindSpanCI(c, start, end).Some? ==>
      var (b, e) := FindSpanCI(c, start, end).value; r == Normalize(CleanCDATA(c[b..e]))
  {
    match FindSpanCI(c, start, end)
    case None => ""
    case Some((b, e)) => Normalize(CleanCDATA(c[b..e]))
  }

  /** The text `extractBetween` returns, spelled out: no whitespace at
      either end, every whitespace character a single space with no other
      whitespace beside it, and no `<...>` tag left. */
  lemma ExtractBetweenShape(c: string, start: string, end: string)
    ensures var r := ExtractBetween(c, start, end);
      && (r == [] || (!IsSpace(r[0]) && !IsSpace(r[|r| - 1])))
      && (forall i :: 0 <= i < |r| && IsSpace(r[i]) ==> r[i] == ' ')
      && (forall i :: 0 <= i < |r| - 1 ==> !(IsSpace(r[i]) && IsSpace(r[i + 1])))
      && (forall i, j :: 0 <= i < j < |r| && r[i] == '<' && r[j] == '>' ==> r[i + 1] == '>')
  {
    var r := ExtractBetween(c, start, end);
    NoTagMeans(r);
    CollapsedMeans(r);
  }
}
