/**
 * The `url(...)` pattern of `replace_css_url` and PHP's `preg_replace_callback`
 * over it.
 */
module CssUrls {
  import opened PhpValues
  import opened PhpStrings

  // ---------------------------------------------------------------------------
  // Character runs
  // ---------------------------------------------------------------------------

  predicate IsQuote(c: char) {
    c == '\'' || c == '"'
  }

  /** A character of the class `[^'")]`. */
  predicate IsGroupChar(c: char) {
    !IsQuote(c) && c != ')'
  }

  /** The character classes of the pattern: `\s`, `['"]` and `[^'")]`. */
  datatype CharClass = Space | Quote | GroupChar

  predicate In(c: char, k: CharClass) {
    match k
    case Space => IsSpace(c)
    case Quote => IsQuote(c)
    case GroupChar => IsGroupChar(c)
  }

  /** Every character of s[i..j] is of class P. */
  predicate AllIn(s: string, i: nat, j: nat, P: CharClass)
    requires i <= j <= |s|
  {
    forall k :: i <= k < j ==> In(s[k], P)
  }

  /** The end of the longest run of characters of class P that starts at i. */
  function RunEnd(s: string, i: nat, P: CharClass): (r: nat)
    requires i <= |s|
    ensures i <= r <= |s|
    ensures r == |s| || !In(s[r], P)
    ensures i < r ==> In(s[i], P) && In(s[r - 1], P)
    decreases |s| - i
  {
    if i < |s| && In(s[i], P) then RunEnd(s, i + 1, P) else i
  }

  /** Every character of the run is of class P. */
  lemma {:induction false} RunEndSpan(s: string, i: nat, P: CharClass)
    requires i <= |s|
    ensures AllIn(s, i, RunEnd(s, i, P), P)
    decreases |s| - i
  {
    if i < |s| && In(s[i], P) {
      RunEndSpan(s, i + 1, P);
    }
  }

  lemma {:induction false} RunEndCovers(s: string, i: nat, j: nat, P: CharClass)
    requires i <= j <= |s| && AllIn(s, i, j, P)
    ensures j <= RunEnd(s, i, P)
    ensures RunEnd(s, j, P) == RunEnd(s, i, P)
    decreases j - i
  {
    if i < j {
      RunEndCovers(s, i + 1, j, P);
    }
  }

  // ---------------------------------------------------------------------------
  // The pattern #url\s*\(\s*['"]*?([^'"\)]+)['"]*\s*\)#i
  // ---------------------------------------------------------------------------

  /** "url" in any letter case at position p. */
  predicate UrlAt(s: string, p: nat) {
    p + 3 <= |s| && LowerChar(s[p]) == 'u' && LowerChar(s[p + 1]) == 'r' && LowerChar(s[p + 2]) == 'l'
  }

  /**
   * The pattern matches s[p..close + 1] with this split: "url", spaces, '(' at
   * open, spaces up to spacesEnd, quotes up to groupStart, the group
   * s[groupStart..groupEnd], quotes up to quotesEnd, spaces, ')' at close.
   */
  predicate Shape(s: string, p: nat, open: nat, spacesEnd: nat, groupStart: nat, groupEnd: nat, quotesEnd: nat, close: nat) {
    && UrlAt(s, p)
    && p + 3 <= open && open + 1 <= spacesEnd && spacesEnd <= groupStart < groupEnd <= quotesEnd <= close < |s|
    && AllIn(s, p + 3, open, Space) && s[open] == '('
    && AllIn(s, open + 1, spacesEnd, Space)
    && AllIn(s, spacesEnd, groupStart, Quote)
    && AllIn(s, groupStart, groupEnd, GroupChar)
    && AllIn(s, groupEnd, quotesEnd, Quote)
    && AllIn(s, quotesEnd, close, Space) && s[close] == ')'
  }

  datatype UrlMatch = UrlMatch(open: nat, spacesEnd: nat, groupStart: nat, groupEnd: nat, quotesEnd: nat, close: nat)

  /** After the group: greedy quotes, greedy spaces, then the closing parenthesis. */
  function TailAt(s: string, e: nat): Option<(nat, nat)>
    requires e <= |s|
  {
    var q := RunEnd(s, e, Quote);
    var z := RunEnd(s, q, Space);
    if z < |s| && s[z] == ')' then Some((q, z)) else None
  }

  /**
   * The match the backtracking engine finds at position p, if any. `\s*` before
   * '(' can only be the whole run of spaces. Inside the parentheses the engine
   * first takes all spaces, skips the quotes lazily and takes the longest group;
   * shortening the group never lets the rest match. When that fails it gives back
   * one space, which then starts the group (the group class admits spaces);
   * giving back more spaces leads to the same end of group and the same failure.
   */
  function MatchAt(s: string, p: nat): (r: Option<UrlMatch>)
    ensures r.Some? ==> p + 3 <= r.value.open < r.value.groupStart < r.value.groupEnd <= r.value.close < |s|
  {
    if !UrlAt(s, p) then None
    else
      var open := RunEnd(s, p + 3, Space);
      if open >= |s| || s[open] != '(' then None
      else MatchInside(s, open)
  }

  /** What follows "url" and the spaces: '(' at open, then the inside of the parentheses. */
  predicate InsideShape(s: string, open: nat, spacesEnd: nat, groupStart: nat, groupEnd: nat, quotesEnd: nat, close: nat) {
    && open + 1 <= spacesEnd && spacesEnd <= groupStart < groupEnd <= quotesEnd <= close < |s|
    && AllIn(s, open + 1, spacesEnd, Space)
    && AllIn(s, spacesEnd, groupStart, Quote)
    && AllIn(s, groupStart, groupEnd, GroupChar)
    && AllIn(s, groupEnd, quotesEnd, Quote)
    && AllIn(s, quotesEnd, close, Space) && s[close] == ')'
  }

  /** The engine's search inside the parentheses opened at open. */
  function MatchInside(s: string, open: nat): (r: Option<UrlMatch>)
    requires open < |s|
    ensures r.Some? ==> r.value.open == open < r.value.groupStart < r.value.groupEnd <= r.value.close < |s|
  {
    var a := RunEnd(s, open + 1, Space);
    var b := RunEnd(s, a, Quote);
    var first := if b < |s| && IsGroupChar(s[b]) then GroupMatch(s, open, a, b) else None;
    if first.Some? then first
    else if a > open + 1 then GroupMatch(s, open, a - 1, a - 1)
    else None
  }

  /** The longest group from groupStart, followed by the tail. */
  function GroupMatch(s: string, open: nat, spacesEnd: nat, groupStart: nat): (r: Option<UrlMatch>)
    requires groupStart < |s| && IsGroupChar(s[groupStart])
    ensures r.Some? ==> r.value.open == open && r.value.spacesEnd == spacesEnd && r.value.groupStart == groupStart
    ensures r.Some? ==> groupStart < r.value.groupEnd <= r.value.quotesEnd <= r.value.close < |s|
  {
    var e := RunEnd(s, groupStart, GroupChar);
    match TailAt(s, e)
    case Some((q, z)) => Some(UrlMatch(open, spacesEnd, groupStart, e, q, z))
    case None => None
  }

  lemma GroupMatchSound(s: string, open: nat, spacesEnd: nat, groupStart: nat)
    requires open + 1 <= spacesEnd <= groupStart < |s| && IsGroupChar(s[groupStart])
    requires AllIn(s, open + 1, spacesEnd, Space) && AllIn(s, spacesEnd, groupStart, Quote)
    ensures var r := GroupMatch(s, open, spacesEnd, groupStart);
            r.Some? ==> InsideShape(s, open, r.value.spacesEnd, r.value.groupStart, r.value.groupEnd, r.value.quotesEnd, r.value.close)
  {
    var e := RunEnd(s, groupStart, GroupChar);
    RunEndSpan(s, groupStart, GroupChar);
    var q := RunEnd(s, e, Quote);
    RunEndSpan(s, e, Quote);
    RunEndSpan(s, q, Space);
  }

  /** Every match MatchInside reports has the shape of the pattern. */
  lemma MatchInsideSound(s: string, open: nat)
    requires open < |s|
    ensures var r := MatchInside(s, open);
            r.Some? ==> InsideShape(s, open, r.value.spacesEnd, r.value.groupStart, r.value.groupEnd, r.value.quotesEnd, r.value.close)
  {
    var a := RunEnd(s, open + 1, Space);
    var b := RunEnd(s, a, Quote);
    if b < |s| && IsGroupChar(s[b]) && GroupMatch(s, open, a, b).Some? {
      assert MatchInside(s, open) == GroupMatch(s, open, a, b);
      FirstAttemptSound(s, open);
    } else if a > open + 1 {
      MatchInsideFallbackIs(s, open);
      FallbackSound(s, open);
    } else {
      assert MatchInside(s, open).None?;
    }
  }

  lemma FirstAttemptSound(s: string, open: nat)
    requires open < |s|
    requires var b := RunEnd(s, RunEnd(s, open + 1, Space), Quote);
             b < |s| && IsGroupChar(s[b])
    ensures var a := RunEnd(s, open + 1, Space);
            var g := GroupMatch(s, open, a, RunEnd(s, a, Quote));
            g.Some? ==> InsideShape(s, open, g.value.spacesEnd, g.value.groupStart, g.value.groupEnd, g.value.quotesEnd, g.value.close)
  {
    var a := RunEnd(s, open + 1, Space);
    RunEndSpan(s, open + 1, Space);
    RunEndSpan(s, a, Quote);
    GroupMatchSound(s, open, a, RunEnd(s, a, Quote));
  }

  lemma FallbackSound(s: string, open: nat)
    requires open < |s| && RunEnd(s, open + 1, Space) > open + 1
    ensures var a := RunEnd(s, open + 1, Space);
            var g := GroupMatch(s, open, a - 1, a - 1);
            g.Some? ==> InsideShape(s, open, g.value.spacesEnd, g.value.groupStart, g.value.groupEnd, g.value.quotesEnd, g.value.close)
  {
    var a := RunEnd(s, open + 1, Space);
    SpacesBeforeLast(s, open);
    assert IsGroupChar(s[a - 1]);
    GroupMatchSound(s, open, a - 1, a - 1);
  }

  lemma MatchInsideFallbackIs(s: string, open: nat)
    requires open < |s|
    requires var a := RunEnd(s, open + 1, Space);
             var b := RunEnd(s, a, Quote);
             !(b < |s| && IsGroupChar(s[b]) && GroupMatch(s, open, a, b).Some?) && a > open + 1
    ensures var a := RunEnd(s, open + 1, Space);
            MatchInside(s, open) == GroupMatch(s, open, a - 1, a - 1)
  {
  }

  lemma SpacesBeforeLast(s: string, open: nat)
    requires open < |s| && RunEnd(s, open + 1, Space) > open + 1
    ensures AllIn(s, open + 1, RunEnd(s, open + 1, Space) - 1, Space)
  {
    RunEndSpan(s, open + 1, Space);
  }

  /** Every match MatchAt reports has the shape of the pattern. */
  lemma MatchAtSound(s: string, p: nat)
    ensures var r := MatchAt(s, p);
            r.Some? ==> Shape(s, p, r.value.open, r.value.spacesEnd, r.value.groupStart, r.value.groupEnd, r.value.quotesEnd, r.value.close)
  {
    if UrlAt(s, p) {
      var open := RunEnd(s, p + 3, Space);
      RunEndSpan(s, p + 3, Space);
      if open < |s| && s[open] == '(' {
        MatchInsideSound(s, open);
      }
    }
  }

  lemma TailAtExact(s: string, e: nat, q: nat, z: nat)
    requires e <= q <= z < |s| && AllIn(s, e, q, Quote) && AllIn(s, q, z, Space) && s[z] == ')'
    ensures TailAt(s, e) == Some((q, z))
  {
    RunEndCovers(s, e, q, Quote);
    RunEndCovers(s, q, z, Space);
  }

  /** A group that can be followed by the tail makes the longest group from its start succeed too. */
  lemma GroupTail(s: string, gs: nat, ge: nat, q: nat, z: nat)
    requires gs < ge <= q <= z < |s| && AllIn(s, gs, ge, GroupChar)
    requires AllIn(s, ge, q, Quote) && AllIn(s, q, z, Space) && s[z] == ')'
    ensures TailAt(s, RunEnd(s, gs, GroupChar)).Some?
  {
    var e := RunEnd(s, gs, GroupChar);
    RunEndCovers(s, gs, ge, GroupChar);
    if ge < e {
      assert IsGroupChar(s[ge]);
      assert q == ge;
      assert AllIn(s, ge, z, GroupChar);
      RunEndCovers(s, ge, z, GroupChar);
      RunEndCovers(s, gs, ge, GroupChar);
      assert e == z;
      TailAtExact(s, e, e, e);
    } else {
      TailAtExact(s, e, q, z);
    }
  }

  /** Whitespace belongs to the group's character class. */
  lemma SpacesAreGroupChars(s: string, i: nat, j: nat)
    requires i <= j <= |s| && AllIn(s, i, j, Space)
    ensures AllIn(s, i, j, GroupChar)
  {
    forall k | i <= k < j ensures IsGroupChar(s[k]) {
      assert IsSpace(s[k]);
    }
  }

  /** A group from gs that can be followed by the tail makes GroupMatch succeed from gs. */
  lemma GroupMatchSome(s: string, open: nat, se: nat, gs: nat, ge: nat, q: nat, z: nat)
    requires gs < ge <= q <= z < |s| && AllIn(s, gs, ge, GroupChar)
    requires AllIn(s, ge, q, Quote) && AllIn(s, q, z, Space) && s[z] == ')'
    ensures GroupMatch(s, open, se, gs).Some?
  {
    GroupTail(s, gs, ge, q, z);
  }

  /** The first attempt succeeds when a group starts right after the leading spaces and quotes. */
  lemma MatchInsideFirst(s: string, open: nat, ge: nat, q: nat, z: nat)
    requires open < |s|
    requires var b := RunEnd(s, RunEnd(s, open + 1, Space), Quote);
             b < ge <= q <= z < |s| && AllIn(s, b, ge, GroupChar)
    requires AllIn(s, ge, q, Quote) && AllIn(s, q, z, Space) && s[z] == ')'
    ensures MatchInside(s, open).Some?
  {
    var a := RunEnd(s, open + 1, Space);
    var b := RunEnd(s, a, Quote);
    assert IsGroupChar(s[b]);
    GroupMatchSome(s, open, a, b, ge, q, z);
  }

  /** The fallback succeeds when a group that starts with the last leading space can be followed by the tail. */
  lemma MatchInsideFallback(s: string, open: nat)
    requires open < |s|
    requires var a := RunEnd(s, open + 1, Space);
             a > open + 1 && TailAt(s, RunEnd(s, a - 1, GroupChar)).Some?
    ensures MatchInside(s, open).Some?
  {
    var a := RunEnd(s, open + 1, Space);
    assert IsSpace(s[a - 1]);
    assert GroupMatch(s, open, a - 1, a - 1).Some?;
  }

  /** Wherever the pattern can match inside the parentheses, MatchInside finds a match. */
  lemma MatchInsideComplete(s: string, open: nat, spacesEnd: nat, groupStart: nat, groupEnd: nat, quotesEnd: nat, close: nat)
    requires InsideShape(s, open, spacesEnd, groupStart, groupEnd, quotesEnd, close)
    ensures MatchInside(s, open).Some?
  {
    var a := RunEnd(s, open + 1, Space);
    RunEndCovers(s, open + 1, spacesEnd, Space);
    if spacesEnd == a {
      RunEndCovers(s, a, groupStart, Quote);
      MatchInsideFirst(s, open, groupEnd, quotesEnd, close);
    } else {
      RunEndSpan(s, open + 1, Space);
      assert IsSpace(s[spacesEnd]);
      assert groupStart == spacesEnd;
      BacktrackedGroup(s, open, groupStart, groupEnd, quotesEnd, close);
    }
  }

  /** A match whose group starts inside the leading spaces is found by the fallback. */
  lemma BacktrackedGroup(s: string, open: nat, gs: nat, ge: nat, q: nat, z: nat)
    requires open < |s| && open + 1 <= gs < RunEnd(s, open + 1, Space)
    requires gs < ge <= q <= z < |s| && AllIn(s, gs, ge, GroupChar)
    requires AllIn(s, ge, q, Quote) && AllIn(s, q, z, Space) && s[z] == ')'
    ensures MatchInside(s, open).Some?
  {
    SameGroupEnd(s, open, gs);
    GroupTail(s, gs, ge, q, z);
    MatchInsideFallback(s, open);
  }

  /** A group starting anywhere in the leading spaces ends where one starting at the last of them does. */
  lemma SameGroupEnd(s: string, open: nat, gs: nat)
    requires open < |s| && open + 1 <= gs < RunEnd(s, open + 1, Space)
    ensures RunEnd(s, RunEnd(s, open + 1, Space) - 1, GroupChar) == RunEnd(s, gs, GroupChar)
  {
    var a := RunEnd(s, open + 1, Space);
    RunEndSpan(s, open + 1, Space);
    SpacesAreGroupChars(s, gs, a - 1);
    RunEndCovers(s, gs, a - 1, GroupChar);
  }

  /** Wherever the pattern can match at p, MatchAt finds a match at p. */
  lemma MatchAtComplete(s: string, p: nat, open: nat, spacesEnd: nat, groupStart: nat, groupEnd: nat, quotesEnd: nat, close: nat)
    requires Shape(s, p, open, spacesEnd, groupStart, groupEnd, quotesEnd, close)
    ensures MatchAt(s, p).Some?
  {
    RunEndCovers(s, p + 3, open, Space);
    assert RunEnd(s, p + 3, Space) == open;
    assert InsideShape(s, open, spacesEnd, groupStart, groupEnd, quotesEnd, close);
    MatchInsideComplete(s, open, spacesEnd, groupStart, groupEnd, quotesEnd, close);
  }

  // ---------------------------------------------------------------------------
  // preg_replace_callback
  // ---------------------------------------------------------------------------

  /** A match at the start of a text: where it ends, and the span of its first group. */
  datatype Found = Found(end: nat, groupStart: nat, groupEnd: nat)

  /** A pattern, seen as what it matches at the start of each text: a non-empty prefix holding its group. */
  ghost predicate Matcher(pattern: string -> Option<Found>) {
    forall t :: pattern(t).Some? ==> 0 < pattern(t).value.end <= |t| && pattern(t).value.groupStart <= pattern(t).value.groupEnd <= pattern(t).value.end
  }

  /**
   * `preg_replace_callback( $pattern, $callback, $s )`: scanning from the left,
   * each match is replaced by the callback's value for (whole match, group 1),
   * and the scan resumes after the match.
   */
  function ReplaceCallback(s: string, pattern: string -> Option<Found>, callback: (string, string) -> string): string
    requires Matcher(pattern)
    decreases |s|
  {
    if s == [] then []
    else
      match pattern(s)
      case Some(f) => callback(s[..f.end], s[f.groupStart..f.groupEnd]) + ReplaceCallback(s[f.end..], pattern, callback)
      case None => [s[0]] + ReplaceCallback(s[1..], pattern, callback)
  }

  /** A callback that gives back the whole match leaves the text unchanged. */
  lemma {:induction false} ReplaceCallbackIdentity(s: string, pattern: string -> Option<Found>, callback: (string, string) -> string)
    requires Matcher(pattern)
    requires forall m, g :: callback(m, g) == m
    ensures ReplaceCallback(s, pattern, callback) == s
    decreases |s|
  {
    if s != [] {
      match pattern(s)
      case Some(f) =>
        ReplaceCallbackIdentity(s[f.end..], pattern, callback);
        assert s[..f.end] + s[f.end..] == s;
      case None =>
        ReplaceCallbackIdentity(s[1..], pattern, callback);
        assert [s[0]] + s[1..] == s;
    }
  }

  /** A text in which the pattern matches nowhere is left unchanged. */
  lemma {:induction false} ReplaceCallbackNoMatch(s: string, pattern: string -> Option<Found>, callback: (string, string) -> string)
    requires Matcher(pattern)
    requires forall k :: 0 <= k < |s| ==> pattern(s[k..]).None?
    ensures ReplaceCallback(s, pattern, callback) == s
    decreases |s|
  {
    if s != [] {
      assert pattern(s[0..]).None?;
      assert s[0..] == s;
      forall k | 0 <= k < |s[1..]| ensures pattern(s[1..][k..]).None? {
        assert s[1..][k..] == s[k + 1..];
      }
      ReplaceCallbackNoMatch(s[1..], pattern, callback);
      assert [s[0]] + s[1..] == s;
    }
  }

  /**
   * When every match is at least n long (n >= 1) and the callback gives at least
   * two characters for such a match, the result is at least as long as the text
   * or two characters long.
   */
  lemma {:induction false} ReplaceCallbackLength(s: string, pattern: string -> Option<Found>, callback: (string, string) -> string, n: nat)
    requires Matcher(pattern)
    requires forall t :: pattern(t).Some? ==> pattern(t).value.end >= n
    requires forall m, g :: |m| >= n ==> |callback(m, g)| >= 2
    ensures |ReplaceCallback(s, pattern, callback)| >= if |s| >= 2 then 2 else |s|
    decreases |s|
  {
    if s != [] {
      match pattern(s)
      case Some(f) =>
        assert |s[..f.end]| >= n;
      case None =>
        ReplaceCallbackLength(s[1..], pattern, callback, n);
    }
  }

  /** The url pattern as a matcher at the start of a text; a match is at least six characters long. */
  function UrlPattern(t: string): (r: Option<Found>)
    ensures r.Some? ==> 6 <= r.value.end <= |t| && r.value.groupStart < r.value.groupEnd < r.value.end
  {
    match MatchAt(t, 0)
    case Some(m) => Some(Found(m.close + 1, m.groupStart, m.groupEnd))
    case None => None
  }

  lemma UrlPatternMatcher()
    ensures Matcher(UrlPattern)
  {
  }

  /** `preg_replace_callback( '#url\s*\(\s*[\'"]*?([^\'"\)]+)[\'"]*\s*\)#i', $callback, $s )`. */
  function ReplaceUrls(s: string, callback: (string, string) -> string): string {
    UrlPatternMatcher();
    ReplaceCallback(s, UrlPattern, callback)
  }

  /** A callback that gives back the whole match leaves the text unchanged. */
  lemma ReplaceUrlsIdentity(s: string, callback: (string, string) -> string)
    requires forall m, g :: callback(m, g) == m
    ensures ReplaceUrls(s, callback) == s
  {
    UrlPatternMatcher();
    ReplaceCallbackIdentity(s, UrlPattern, callback);
  }

  /** Text without "url" in any letter case is left unchanged. */
  lemma ReplaceUrlsNoUrl(s: string, callback: (string, string) -> string)
    requires forall p :: 0 <= p < |s| ==> !UrlAt(s, p)
    ensures ReplaceUrls(s, callback) == s
  {
    UrlPatternMatcher();
    forall k | 0 <= k < |s| ensures UrlPattern(s[k..]).None? {
      assert !UrlAt(s, k);
      assert !UrlAt(s[k..], 0);
    }
    ReplaceCallbackNoMatch(s, UrlPattern, callback);
  }

  /**
   * With a callback whose value has at least two characters for every match,
   * a truthy text stays truthy.
   */
  lemma ReplaceUrlsTruthy(s: string, callback: (string, string) -> string)
    requires forall m, g :: |m| >= 6 ==> |callback(m, g)| >= 2
    requires Truthy(Str(s))
    ensures Truthy(Str(ReplaceUrls(s, callback)))
  {
    UrlPatternMatcher();
    ReplaceCallbackLength(s, UrlPattern, callback, 6);
    if |s| == 1 {
      assert UrlPattern(s).None?;
      assert ReplaceCallback(s, UrlPattern, callback) == [s[0]] + ReplaceCallback([], UrlPattern, callback);
    }
  }
}
