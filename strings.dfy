/**
 * String primitives shared by the models of the scripts: the JavaScript
 * whitespace class, ASCII case folding, literal pattern search and trim.
 */
module Strings {
  import opened Wrappers

  /** The characters matched by `\s` in a JavaScript regular expression,
      which are also the characters `String.prototype.trim` removes. */
  predicate IsSpace(c: char) {
    c == ' ' || c == '\t' || c == '\n' || c == '\r' || c == '\U{B}' || c == '\U{C}'
    || c == '\U{A0}' || c == '\U{1680}' || ('\U{2000}' <= c <= '\U{200A}')
    || c == '\U{2028}' || c == '\U{2029}' || c == '\U{202F}' || c == '\U{205F}'
    || c == '\U{3000}' || c == '\U{FEFF}'
  }

  /** ASCII case folding. Every pattern the scripts match case-insensitively
      is ASCII, and JavaScript never folds a non-ASCII character onto an ASCII
      one, so folding ASCII letters is exactly the `i` flag for them. */
  function Lower(c: char): (r: char)
    ensures 'A' <= c <= 'Z' ==> 'a' <= r <= 'z' && r as int == c as int + 32
    ensures !('A' <= c <= 'Z') ==> r == c
  {
    if 'A' <= c <= 'Z' then (c as int + 32) as char else c
  }

  /** `s` with every ASCII letter folded to lower case. */
  function LowerAll(s: string): (r: string)
    ensures |r| == |s|
  {
    if s == [] then [] else [Lower(s[0])] + LowerAll(s[1..])
  }

  /** `pat` occurs in `s` at position `i`, exactly (`ci` false) or up to
      ASCII case (`ci` true). */
  predicate Matches(s: string, i: nat, pat: string, ci: bool) {
    i + |pat| <= |s| &&
    if ci then LowerAll(s[i..i + |pat|]) == LowerAll(pat) else s[i..i + |pat|] == pat
  }

  lemma {:induction false} LowerAllPrefix(s: string, j: nat)
    requires j <= |s|
    ensures LowerAll(s)[..j] == LowerAll(s[..j])
  {
    if j > 0 {
      LowerAllPrefix(s[1..], j - 1);
      assert s[..j][1..] == s[1..][..j - 1];
    }
  }

  lemma {:induction false} LowerAllSlice(s: string, i: nat, j: nat)
    requires i <= j <= |s|
    ensures LowerAll(s)[i..j] == LowerAll(s[i..j])
  {
    if i == 0 {
      LowerAllPrefix(s, j);
    } else {
      LowerAllSlice(s[1..], i - 1, j - 1);
      assert s[1..][i - 1..j - 1] == s[i..j];
    }
  }

  /** Matching up to case is exact matching of the folded texts, at the same
      positions. */
  lemma FoldedMatch(s: string, i: nat, pat: string)
    ensures Matches(LowerAll(s), i, LowerAll(pat), false) <==> Matches(s, i, pat, true)
  {
    if i + |pat| <= |s| {
      LowerAllSlice(s, i, i + |pat|);
    }
  }

  /** The first position at or after `from` where `pat` occurs, as a regular
      expression search for a literal pattern finds it. */
  function Find(s: string, pat: string, from: nat, ci: bool): (r: Option<nat>)
    ensures r.Some? ==> from <= r.value && Matches(s, r.value, pat, ci)
    ensures r.Some? ==> forall j :: from <= j < r.value ==> !Matches(s, j, pat, ci)
    ensures r.None? ==> forall j :: from <= j ==> !Matches(s, j, pat, ci)
    decreases |s| - from
  {
    if from + |pat| > |s| then None
    else if Matches(s, from, pat, ci) then Some(from)
    else Find(s, pat, from + 1, ci)
  }

  /** `pat` occurs nowhere in `s`. */
  predicate Absent(s: string, pat: string) {
    forall j :: 0 <= j <= |s| ==> !Matches(s, j, pat, false)
  }

  /** Number of occurrences of `c` in `s`. */
  function Count(s: string, c: char): nat {
    if s == [] then 0 else (if s[0] == c then 1 else 0) + Count(s[1..], c)
  }

  /** JavaScript's `.length`: the number of UTF-16 code units, one for a
      character up to U+FFFF and two (a surrogate pair) above it. */
  function Utf16Length(s: string): (r: nat)
    ensures |s| <= r <= 2 * |s|
    ensures (forall k :: 0 <= k < |s| ==> s[k] as int <= 0xFFFF) <==> r == |s|
  {
    if s == [] then 0 else (if s[0] as int > 0xFFFF then 2 else 1) + Utf16Length(s[1..])
  }

  /** A character outside the Basic Multilingual Plane counts twice. */
  lemma Utf16LengthEmoji()
    ensures |"\U{1F600}"| == 1 && Utf16Length("\U{1F600}") == 2
  {
  }

  /** `s` without its leading run of whitespace. */
  function TrimStart(s: string): (r: string)
    ensures |r| <= |s| && r == s[|s| - |r|..]
    ensures r == [] || !IsSpace(r[0])
    ensures forall k {:trigger IsSpace(s[k])} :: 0 <= k < |s| - |r| ==> IsSpace(s[k])
  {
    if s != [] && IsSpace(s[0]) then TrimStart(s[1..]) else s
  }

  /** `s` without its trailing run of whitespace. */
  function TrimEnd(s: string): (r: string)
    ensures |r| <= |s| && r == s[..|r|]
    ensures r == [] || !IsSpace(r[|r| - 1])
    ensures forall k {:trigger IsSpace(s[k])} :: |r| <= k < |s| ==> IsSpace(s[k])
  {
    if s != [] && IsSpace(s[|s| - 1]) then TrimEnd(s[..|s| - 1]) else s
  }

  /** `String.prototype.trim`: a contiguous part of `s` that neither starts
      nor ends with whitespace (see `TrimCutsSpace` for what it cuts). */
  function Trim(s: string): (r: string)
    ensures r == [] || (!IsSpace(r[0]) && !IsSpace(r[|r| - 1]))
    ensures var a := |s| - |TrimStart(s)|; a + |r| <= |s| && r == s[a..a + |r|]
  {
    var t := TrimStart(s);
    var r := TrimEnd(t);
    SliceOfSlice(s, t, r);
    r
  }

  lemma SliceOfSlice(s: string, t: string, r: string)
    requires |t| <= |s| && t == s[|s| - |t|..] && |r| <= |t| && r == t[..|r|]
    ensures r == s[|s| - |t|..|s| - |t| + |r|] && (r != [] ==> r[0] == t[0])
  {
  }

  /** Trimming cuts only whitespace, on either side. */
  lemma TrimCutsSpace(s: string)
    ensures var a := |s| - |TrimStart(s)|;
      (forall k :: 0 <= k < a ==> IsSpace(s[k]))
      && (forall k :: a + |Trim(s)| <= k < |s| ==> IsSpace(s[k]))
  {
    var t := TrimStart(s);
    var a := |s| - |t|;
    forall k | a + |Trim(s)| <= k < |s| ensures IsSpace(s[k]) {
      assert s[k] == t[k - a];
    }
  }

  /** `s.replace(pat, "")` with a string pattern: only the first occurrence
      is removed. */
  function RemoveFirst(s: string, pat: string): (r: string)
    ensures Find(s, pat, 0, false).None? ==> r == s
    ensures Find(s, pat, 0, false).Some? ==>
      var i := Find(s, pat, 0, false).value; r == s[..i] + s[i + |pat|..]
  {
    match Find(s, pat, 0, false)
    case None => s
    case Some(i) => s[..i] + s[i + |pat|..]
  }
}
