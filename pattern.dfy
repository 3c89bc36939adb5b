/**
 * The textual side of the occurrence analysis. `build_url_dest_regex(url)`
 * is the regular expression `\(\s*URL\s*\)` with the URL escaped, so it
 * matches an opening parenthesis, whitespace, the URL literally, whitespace
 * and a closing parenthesis. This module spells out how Python's `re` finds
 * that pattern (leftmost, non-overlapping, the first `\s*` greedy with
 * backtracking) as a scanner over the text. The same scanner gives both the
 * count of `get_textual_counts` (`re.findall`) and the rewrite of `execute`
 * (`re.sub`), so the two agree on what a match is.
 */
module UrlPattern {
  import opened Strings
  import opened Wrappers

  /** The number of whitespace characters starting at `p`. */
  function SpaceRun(s: string, p: nat): (n: nat)
    requires p <= |s|
    ensures p + n <= |s|
    ensures forall q :: p <= q < p + n ==> IsSpace(s[q])
    ensures p + n == |s| || !IsSpace(s[p + n])
    decreases |s| - p
  {
    if p < |s| && IsSpace(s[p]) then 1 + SpaceRun(s, p + 1) else 0
  }

  /** `s[lo..hi]` is all whitespace. */
  predicate Spaces(s: string, lo: int, hi: int) {
    0 <= lo <= hi <= |s| && forall q :: lo <= q < hi ==> IsSpace(s[q])
  }

  /** `s[p..q]` is all whitespace exactly when `q` lies within the run at `p`. */
  lemma SpaceRunCovers(s: string, p: nat, q: nat)
    requires p <= q <= |s|
    ensures Spaces(s, p, q) <==> q <= p + SpaceRun(s, p)
  {
  }

  // ---------------------------------------------------------------------------
  // What a match is.

  /** `s[i..e]` is `(`, whitespace, the URL starting at `k`, whitespace, `)`. */
  predicate IsMatchWith(s: string, url: string, i: int, k: int, e: int) {
    0 <= i < k && k + |url| < e <= |s|
    && s[i] == '(' && Spaces(s, i + 1, k)
    && OccursAt(s, url, k)
    && Spaces(s, k + |url|, e - 1) && s[e - 1] == ')'
  }

  /** The closing part `\s*\)` spans `s[p..e]`. */
  predicate ClosesAt(s: string, p: int, e: int) {
    0 <= p < e <= |s| && Spaces(s, p, e - 1) && s[e - 1] == ')'
  }

  /** `\s*\)` from `p`: the greedy `\s*` takes the whole run and a `)` must
      follow; since `)` is not whitespace, backing off never helps. */
  function CloseParen(s: string, p: nat): (r: Option<nat>)
    requires p <= |s|
    ensures r.Some? ==> p < r.value <= |s|
  {
    var m := p + SpaceRun(s, p);
    if m < |s| && s[m] == ')' then Some(m + 1) else None
  }

  /** CloseParen finds the closing part exactly where it is. */
  lemma {:induction false} CloseParenSpec(s: string, p: nat)
    requires p <= |s|
    ensures forall e :: ClosesAt(s, p, e) <==> CloseParen(s, p) == Some(e)
  {
    forall q | p <= q <= |s| ensures Spaces(s, p, q) <==> q <= p + SpaceRun(s, p) {
      SpaceRunCovers(s, p, q);
    }
  }

  /** The URL starts at `k` and the closing part follows it. */
  predicate UrlFits(s: string, url: string, k: nat) {
    OccursAt(s, url, k) && CloseParen(s, k + |url|).Some?
  }

  /** The leading `\s*` backing off one character at a time: the rightmost
      position in `lo..k` where the URL and the closing part fit. */
  function RightmostFit(s: string, url: string, lo: nat, k: nat): (r: Option<nat>)
    requires lo <= k
    ensures r.Some? ==> lo <= r.value <= k && UrlFits(s, url, r.value)
    decreases k - lo
  {
    if UrlFits(s, url, k) then Some(k)
    else if k == lo then None
    else RightmostFit(s, url, lo, k - 1)
  }

  lemma {:induction false} RightmostFitSpec(s: string, url: string, lo: nat, k: nat)
    requires lo <= k
    ensures forall j :: lo <= j <= k && UrlFits(s, url, j) ==>
              RightmostFit(s, url, lo, k).Some? && j <= RightmostFit(s, url, lo, k).value
    decreases k - lo
  {
    if !UrlFits(s, url, k) && k != lo {
      RightmostFitSpec(s, url, lo, k - 1);
    }
  }

  /** Where the URL of a match starting at `i` begins: the leading `\s*`
      is greedy, so the rightmost place after `(` and its whitespace. */
  function UrlStart(s: string, url: string, i: nat): (r: Option<nat>)
    requires i < |s|
    ensures r.Some? ==> i < r.value && UrlFits(s, url, r.value)
  {
    var lo := i + 1;
    RightmostFit(s, url, lo, lo + SpaceRun(s, lo))
  }

  /** The match of the pattern starting at index `i`, as its end index. */
  function MatchAt(s: string, url: string, i: nat): (r: Option<nat>)
    requires i <= |s|
    ensures r.Some? ==> i < r.value <= |s|
  {
    if i < |s| && s[i] == '(' then
      var f := UrlStart(s, url, i);
      if f.Some? then CloseParen(s, f.value + |url|) else None
    else
      None
  }

  /** What MatchAt finds is a match. */
  lemma MatchAtSound(s: string, url: string, i: nat)
    requires i <= |s| && MatchAt(s, url, i).Some?
    ensures i < |s| && UrlStart(s, url, i).Some?
    ensures IsMatchWith(s, url, i, UrlStart(s, url, i).value, MatchAt(s, url, i).value)
  {
    var lo := i + 1;
    var k := UrlStart(s, url, i).value;
    SpaceRunCovers(s, lo, k);
    CloseParenSpec(s, k + |url|);
    assert ClosesAt(s, k + |url|, MatchAt(s, url, i).value);
  }

  /** The URL of a match lies within the whitespace run after `(`, and the
      closing part fits after it. */
  lemma MatchFits(s: string, url: string, i: nat, k: int, e: int)
    requires IsMatchWith(s, url, i, k, e)
    ensures i + 1 <= k <= i + 1 + SpaceRun(s, i + 1)
    ensures UrlFits(s, url, k)
  {
    SpaceRunCovers(s, i + 1, k);
    assert ClosesAt(s, k + |url|, e);
    CloseParenSpec(s, k + |url|);
  }

  /** Every match starting at `i` is found, and none puts the URL further
      right than the one found. */
  lemma MatchAtComplete(s: string, url: string, i: nat, k: int, e: int)
    requires IsMatchWith(s, url, i, k, e)
    ensures MatchAt(s, url, i).Some? && UrlStart(s, url, i).Some?
    ensures k <= UrlStart(s, url, i).value
  {
    MatchFits(s, url, i, k, e);
    UrlStartMaximal(s, url, i, k);
  }

  lemma UrlStartMaximal(s: string, url: string, i: nat, k: nat)
    requires i < |s| && i + 1 <= k <= i + 1 + SpaceRun(s, i + 1) && UrlFits(s, url, k)
    ensures UrlStart(s, url, i).Some? && k <= UrlStart(s, url, i).value
  {
    RightmostFitSpec(s, url, i + 1, i + 1 + SpaceRun(s, i + 1));
  }

  /** A match starts at `i` exactly when MatchAt finds one, and the one it
      finds puts the URL as far right as the greedy `\s*` allows. */
  lemma MatchAtSpec(s: string, url: string, i: nat)
    requires i <= |s|
    ensures (exists k, e :: IsMatchWith(s, url, i, k, e)) <==> MatchAt(s, url, i).Some?
    ensures MatchAt(s, url, i).Some? ==>
              exists k :: IsMatchWith(s, url, i, k, MatchAt(s, url, i).value)
                       && forall k', e' :: IsMatchWith(s, url, i, k', e') ==> k' <= k
  {
    forall k, e | IsMatchWith(s, url, i, k, e)
      ensures MatchAt(s, url, i).Some? && UrlStart(s, url, i).Some? && k <= UrlStart(s, url, i).value
    {
      MatchAtComplete(s, url, i, k, e);
    }
    if MatchAt(s, url, i).Some? {
      MatchAtSound(s, url, i);
    }
  }

  /** When the URL does not start with whitespace (every URL starting with
      "http" qualifies), a match starting at `i` is unique. */
  lemma {:induction false} MatchUnique(s: string, url: string, i: nat, k1: int, e1: int, k2: int, e2: int)
    requires url != [] && !IsSpace(url[0])
    requires IsMatchWith(s, url, i, k1, e1) && IsMatchWith(s, url, i, k2, e2)
    ensures k1 == k2 && e1 == e2
  {
    assert s[k1] == url[0] by { assert s[k1..k1 + |url|][0] == url[0]; }
    assert s[k2] == url[0] by { assert s[k2..k2 + |url|][0] == url[0]; }
    assert ClosesAt(s, k1 + |url|, e1) && ClosesAt(s, k1 + |url|, e2);
    CloseParenSpec(s, k1 + |url|);
  }

  // ---------------------------------------------------------------------------
  // Scanning: `re.findall` and `re.sub` both take the leftmost match, resume
  // after it, and otherwise advance one character. The scan reads the matches
  // through a table holding, for each start position, what MatchAt finds there.

  /** `m[i]` is the end of the match starting at `i`, if any. */
  predicate MatchTable(m: seq<Option<nat>>) {
    forall i :: 0 <= i < |m| && m[i].Some? ==> i < m[i].value <= |m|
  }

  function Matches(s: string, url: string): (m: seq<Option<nat>>)
    ensures |m| == |s| && MatchTable(m)
    ensures forall i :: 0 <= i < |s| ==> m[i] == MatchAt(s, url, i)
  {
    seq(|s|, i requires 0 <= i < |s| => MatchAt(s, url, i))
  }

  /** The spans of the matches the scan takes, from position `p` on. */
  function Scan(m: seq<Option<nat>>, p: nat): (r: seq<(nat, nat)>)
    requires MatchTable(m) && p <= |m|
    ensures forall j :: 0 <= j < |r| ==> p <= r[j].0 < r[j].1 <= |m|
    ensures forall j, j' :: 0 <= j < j' < |r| ==> r[j].1 <= r[j'].0
    decreases |m| - p
  {
    if p == |m| then []
    else if m[p].Some? then
      var rest := Scan(m, m[p].value);
      var r := [(p, m[p].value)] + rest;
      assert forall j :: 0 < j < |r| ==> r[j] == rest[j - 1];
      r
    else
      Scan(m, p + 1)
  }

  /** Each span is the match at its start. */
  lemma {:induction false} ScanTakesMatches(m: seq<Option<nat>>, p: nat, j: nat)
    requires MatchTable(m) && p <= |m| && j < |Scan(m, p)|
    ensures m[Scan(m, p)[j].0] == Some(Scan(m, p)[j].1)
    decreases |m| - p
  {
    if m[p].Some? {
      if j > 0 {
        ScanTakesMatches(m, m[p].value, j - 1);
      }
    } else {
      ScanTakesMatches(m, p + 1, j);
    }
  }

  /** The scan is leftmost: every position where a match starts is the start
      of a span or lies inside an earlier one. */
  lemma {:induction false} ScanLeftmost(m: seq<Option<nat>>, p: nat, q: nat)
    requires MatchTable(m) && p <= q < |m| && m[q].Some?
    ensures exists j :: 0 <= j < |Scan(m, p)| && Scan(m, p)[j].0 <= q < Scan(m, p)[j].1
    decreases |m| - p
  {
    var r := Scan(m, p);
    if m[p].Some? {
      var e := m[p].value;
      var rest := Scan(m, e);
      if q < e {
        assert r[0].0 <= q < r[0].1;
      } else {
        ScanLeftmost(m, e, q);
        var j :| 0 <= j < |rest| && rest[j].0 <= q < rest[j].1;
        assert r[j + 1] == rest[j];
      }
    } else {
      ScanLeftmost(m, p + 1, q);
    }
  }

  /** The scan's output with every match replaced by `rep`. */
  function ScanReplace(s: string, m: seq<Option<nat>>, rep: string, p: nat): string
    requires |m| == |s| && MatchTable(m) && p <= |s|
    decreases |s| - p
  {
    if p == |s| then []
    else if m[p].Some? then rep + ScanReplace(s, m, rep, m[p].value)
    else [s[p]] + ScanReplace(s, m, rep, p + 1)
  }

  /** `s` from `p` on with every span replaced by `rep`. */
  function Splice(s: string, spans: seq<(nat, nat)>, rep: string, p: nat): string
    requires p <= |s|
    requires forall j :: 0 <= j < |spans| ==> p <= spans[j].0 <= spans[j].1 <= |s|
    requires forall j, j' :: 0 <= j < j' < |spans| ==> spans[j].1 <= spans[j'].0
    decreases |spans|
  {
    if spans == [] then s[p..]
    else s[p..spans[0].0] + rep + Splice(s, spans[1..], rep, spans[0].1)
  }

  /** A character before the first span is kept as it is. */
  lemma SpliceKeeps(s: string, spans: seq<(nat, nat)>, rep: string, p: nat)
    requires p < |s|
    requires forall j :: 0 <= j < |spans| ==> p + 1 <= spans[j].0 <= spans[j].1 <= |s|
    requires forall j, j' :: 0 <= j < j' < |spans| ==> spans[j].1 <= spans[j'].0
    ensures Splice(s, spans, rep, p) == [s[p]] + Splice(s, spans, rep, p + 1)
  {
    if spans != [] {
      assert s[p..spans[0].0] == [s[p]] + s[p + 1..spans[0].0];
    } else {
      assert s[p..] == [s[p]] + s[p + 1..];
    }
  }

  lemma {:induction false} ScanReplaceIsSplice(s: string, m: seq<Option<nat>>, rep: string, p: nat)
    requires |m| == |s| && MatchTable(m) && p <= |s|
    ensures ScanReplace(s, m, rep, p) == Splice(s, Scan(m, p), rep, p)
    decreases |s| - p
  {
    if p < |s| {
      if m[p].Some? {
        var e := m[p].value;
        ScanReplaceIsSplice(s, m, rep, e);
        var spans := Scan(m, p);
        assert spans == [(p, e)] + Scan(m, e);
        assert spans[1..] == Scan(m, e);
        assert s[p..p] == [];
      } else {
        ScanReplaceIsSplice(s, m, rep, p + 1);
        SpliceKeeps(s, Scan(m, p + 1), rep, p);
      }
    }
  }

  // ---------------------------------------------------------------------------
  // The count and the substitution, both from the same scan.

  /** The non-overlapping leftmost matches of the pattern in `s`. */
  function MatchSpans(s: string, url: string): seq<(nat, nat)> {
    Scan(Matches(s, url), 0)
  }

  /** `len(re.findall(build_url_dest_regex(url), s))`. */
  function TextualCount(s: string, url: string): nat {
    |MatchSpans(s, url)|
  }

  /** `re.sub(build_url_dest_regex(url), rep, s)`, with `rep` taken literally. */
  function Substitute(s: string, url: string, rep: string): string {
    ScanReplace(s, Matches(s, url), rep, 0)
  }

  /** The spans counted are matches of the pattern, in order and disjoint. */
  lemma MatchSpansAreMatches(s: string, url: string, j: nat)
    requires j < |MatchSpans(s, url)|
    ensures MatchSpans(s, url)[j].0 < MatchSpans(s, url)[j].1 <= |s|
    ensures MatchAt(s, url, MatchSpans(s, url)[j].0) == Some(MatchSpans(s, url)[j].1)
    ensures forall j' :: j < j' < |MatchSpans(s, url)| ==> MatchSpans(s, url)[j].1 <= MatchSpans(s, url)[j'].0
  {
    ScanTakesMatches(Matches(s, url), 0, j);
  }

  /** No match is skipped: every position where the pattern matches is the
      start of a span or lies inside one. */
  lemma MatchSpansLeftmost(s: string, url: string, q: nat)
    requires q < |s| && MatchAt(s, url, q).Some?
    ensures exists j :: 0 <= j < |MatchSpans(s, url)| && MatchSpans(s, url)[j].0 <= q < MatchSpans(s, url)[j].1
  {
    var m := Matches(s, url);
    assert m[q] == MatchAt(s, url, q);
    ScanLeftmost(m, 0, q);
    var j :| 0 <= j < |Scan(m, 0)| && Scan(m, 0)[j].0 <= q < Scan(m, 0)[j].1;
    assert MatchSpans(s, url) == Scan(m, 0);
  }

  /** The substitution replaces exactly the spans the count counts and keeps
      every character between them. */
  lemma SubstituteIsSplice(s: string, url: string, rep: string)
    ensures Substitute(s, url, rep) == Splice(s, MatchSpans(s, url), rep, 0)
  {
    ScanReplaceIsSplice(s, Matches(s, url), rep, 0);
  }

  /** A text in which the pattern never matches is left as it is. */
  lemma SubstituteWithoutMatch(s: string, url: string, rep: string)
    requires TextualCount(s, url) == 0
    ensures Substitute(s, url, rep) == s
  {
    SubstituteIsSplice(s, url, rep);
  }

  /** `get_textual_counts`: the number of textual occurrences of each URL. */
  method GetTextualCounts(mdSource: string, urls: seq<string>) returns (counts: map<string, nat>)
    ensures forall u :: u in counts <==> u in urls
    ensures forall u :: u in counts ==> counts[u] == TextualCount(mdSource, u)
  {
    counts := map[];
    for i := 0 to |urls|
      invariant forall u :: u in counts <==> u in urls[..i]
      invariant forall u :: u in counts ==> counts[u] == TextualCount(mdSource, u)
    {
      assert urls[..i + 1] == urls[..i] + [urls[i]];
      counts := counts[urls[i] := TextualCount(mdSource, urls[i])];
    }
  }
}
