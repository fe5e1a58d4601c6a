/**
 * The PHP and WordPress string built-ins the compiler and the array helpers
 * call, written out as total functions on `seq<char>`: `strpos`, `explode`,
 * `implode`, `str_replace`, `dirname`, `rtrim`/`ltrim`/`trim`,
 * `trailingslashit`, `strtolower`/`stripos` and `substr( $s, 0, $n )`.
 */
module PhpStrings {
  import opened PhpValues

  /** p occurs in s starting at position j. */
  predicate OccursAt(s: string, p: string, j: int) {
    0 <= j && j + |p| <= |s| && s[j..j + |p|] == p
  }

  /** `strpos( $s, $p, $i )`: the first occurrence of p in s at or after position i. */
  function IndexFrom(s: string, p: string, i: nat): (r: Option<nat>)
    requires |p| > 0
    ensures r.Some? ==> i <= r.value && OccursAt(s, p, r.value)
    ensures r.Some? ==> forall j :: i <= j < r.value ==> !OccursAt(s, p, j)
    ensures r.None? ==> forall j :: i <= j ==> !OccursAt(s, p, j)
    decreases |s| - i
  {
    if i + |p| > |s| then None
    else if s[i..i + |p|] == p then Some(i)
    else IndexFrom(s, p, i + 1)
  }

  predicate Contains(s: string, p: string)
    requires |p| > 0
  {
    IndexFrom(s, p, 0).Some?
  }

  predicate StartsWith(s: string, p: string) {
    |p| <= |s| && s[..|p|] == p
  }

  // ---------------------------------------------------------------------------
  // explode, implode, str_replace
  // ---------------------------------------------------------------------------

  /** `explode( $d, $s )`: the pieces of s between the non-overlapping occurrences of d. */
  function Explode(s: string, d: string): (parts: seq<string>)
    requires |d| > 0
    ensures |parts| >= 1
    decreases |s|
  {
    match IndexFrom(s, d, 0)
    case None => [s]
    case Some(i) => [s[..i]] + Explode(s[i + |d|..], d)
  }

  /** `implode( $d, $parts )`. */
  function Join(parts: seq<string>, d: string): string
    requires |parts| >= 1
    decreases |parts|
  {
    if |parts| == 1 then parts[0] else parts[0] + d + Join(parts[1..], d)
  }

  /** Imploding what explode produced gives back the original string. */
  lemma {:induction false} ExplodeJoin(s: string, d: string)
    requires |d| > 0
    ensures Join(Explode(s, d), d) == s
    decreases |s|
  {
    match IndexFrom(s, d, 0)
    case None =>
    case Some(i) =>
      var rest := s[i + |d|..];
      var parts := Explode(s, d);
      assert parts == [s[..i]] + Explode(rest, d);
      ExplodeJoin(rest, d);
      assert parts[1..] == Explode(rest, d);
      calc {
        Join(parts, d);
        parts[0] + d + Join(parts[1..], d);
        s[..i] + d + rest;
        { assert s[i..i + |d|] == d; }
        s;
      }
  }

  /** No piece explode produces contains the delimiter. */
  lemma {:induction false} ExplodePartsFree(s: string, d: string)
    requires |d| > 0
    ensures forall k :: 0 <= k < |Explode(s, d)| ==> !Contains(Explode(s, d)[k], d)
    decreases |s|
  {
    match IndexFrom(s, d, 0)
    case None =>
    case Some(i) =>
      var rest := s[i + |d|..];
      ExplodePartsFree(rest, d);
      var head := s[..i];
      forall j | 0 <= j ensures !OccursAt(head, d, j) {
        if OccursAt(head, d, j) {
          assert head[j..j + |d|] == s[j..j + |d|];
          assert OccursAt(s, d, j);
        }
      }
      assert !Contains(head, d);
      assert Explode(s, d) == [head] + Explode(rest, d);
  }

  /** A string without the delimiter explodes to itself alone. */
  lemma ExplodeAbsent(s: string, d: string)
    requires |d| > 0 && !Contains(s, d)
    ensures Explode(s, d) == [s]
  {
  }

  /** `str_replace( $p, $r, $s )` for one search string: leftmost, non-overlapping replacement. */
  function ReplaceAll(s: string, p: string, r: string): string
    requires |p| > 0
    decreases |s|
  {
    if |s| < |p| then s
    else if s[..|p|] == p then r + ReplaceAll(s[|p|..], p, r)
    else [s[0]] + ReplaceAll(s[1..], p, r)
  }

  lemma {:induction false} ReplaceAllSkip(s: string, p: string, r: string, k: nat)
    requires |p| > 0 && k <= |s|
    requires forall j :: 0 <= j < k ==> !OccursAt(s, p, j)
    ensures ReplaceAll(s, p, r) == s[..k] + ReplaceAll(s[k..], p, r)
    decreases k
  {
    if k > 0 {
      if |s| < |p| {
        assert s[k..] == s[k..][..];
        assert |s[k..]| < |p|;
      } else {
        assert !OccursAt(s, p, 0);
        assert s[..|p|] != p;
        var t := s[1..];
        forall j | 0 <= j < k - 1 ensures !OccursAt(t, p, j) {
          assert !OccursAt(s, p, j + 1);
          if j + |p| <= |t| {
            assert t[j..j + |p|] == s[j + 1..j + 1 + |p|];
          }
        }
        ReplaceAllSkip(t, p, r, k - 1);
        assert t[k - 1..] == s[k..];
        assert [s[0]] + t[..k - 1] == s[..k];
      }
    }
  }

  /** The first occurrence of p is replaced, and the scan resumes after it. */
  lemma ReplaceAllFirst(s: string, p: string, r: string, i: nat)
    requires |p| > 0 && OccursAt(s, p, i)
    requires forall j :: 0 <= j < i ==> !OccursAt(s, p, j)
    ensures ReplaceAll(s, p, r) == s[..i] + r + ReplaceAll(s[i + |p|..], p, r)
  {
    ReplaceAllSkip(s, p, r, i);
    var t := s[i..];
    assert t[..|p|] == p && t[|p|..] == s[i + |p|..];
    ReplaceAllHead(t, p, r);
  }

  lemma ReplaceAllHead(t: string, p: string, r: string)
    requires |p| > 0 && |p| <= |t| && t[..|p|] == p
    ensures ReplaceAll(t, p, r) == r + ReplaceAll(t[|p|..], p, r)
  {
  }

  /** `str_replace` is implode of the replacement over explode of the search string. */
  lemma {:induction false} ReplaceAllIsJoinExplode(s: string, p: string, r: string)
    requires |p| > 0
    ensures ReplaceAll(s, p, r) == Join(Explode(s, p), r)
    decreases |s|
  {
    match IndexFrom(s, p, 0)
    case None =>
      ReplaceAllSkip(s, p, r, |s|);
      assert s[..|s|] == s;
    case Some(i) =>
      var rest := s[i + |p|..];
      ReplaceAllFirst(s, p, r, i);
      ReplaceAllIsJoinExplode(rest, p, r);
      var parts := Explode(s, p);
      assert parts == [s[..i]] + Explode(rest, p);
      assert parts[1..] == Explode(rest, p);
      assert Join(parts, r) == s[..i] + r + Join(Explode(rest, p), r);
  }

  /** Replacing a string that does not occur changes nothing. */
  lemma ReplaceAllAbsent(s: string, p: string, r: string)
    requires |p| > 0 && !Contains(s, p)
    ensures ReplaceAll(s, p, r) == s
  {
    ReplaceAllIsJoinExplode(s, p, r);
  }

  /** Replacing a string by itself changes nothing. */
  lemma ReplaceAllSame(s: string, p: string)
    requires |p| > 0
    ensures ReplaceAll(s, p, p) == s
  {
    ReplaceAllIsJoinExplode(s, p, p);
    ExplodeJoin(s, p);
  }

  // ---------------------------------------------------------------------------
  // Trimming and paths
  // ---------------------------------------------------------------------------

  /** `rtrim( $s, $cs )`. */
  function RTrim(s: string, cs: set<char>): (r: string)
    ensures |r| <= |s| && r == s[..|r|]
    ensures r == [] || r[|r| - 1] !in cs
    ensures forall i :: |r| <= i < |s| ==> s[i] in cs
    decreases |s|
  {
    if s != [] && s[|s| - 1] in cs then RTrim(s[..|s| - 1], cs) else s
  }

  /** `ltrim( $s, $cs )`. */
  function LTrim(s: string, cs: set<char>): (r: string)
    ensures |r| <= |s| && r == s[|s| - |r|..]
    ensures r == [] || r[0] !in cs
    ensures forall i :: 0 <= i < |s| - |r| ==> s[i] in cs
    decreases |s|
  {
    if s != [] && s[0] in cs then LTrim(s[1..], cs) else s
  }

  /** The characters `trim()` strips by default: space, tab, line feed, carriage return, NUL, vertical tab. */
  predicate IsTrimChar(c: char) {
    c == ' ' || c == '\t' || c == '\n' || c == '\r' || c == '\0' || c == '\U{000B}'
  }

  const TrimChars: set<char> := {' ', '\t', '\n', '\r', '\0', '\U{000B}'}

  lemma TrimCharsMembers(c: char)
    ensures c in TrimChars <==> IsTrimChar(c)
  {
  }

  /** `trim( $s )`. */
  function Trim(s: string): (r: string)
    ensures r == [] || (!IsTrimChar(r[0]) && !IsTrimChar(r[|r| - 1]))
  {
    var r := LTrim(RTrim(s, TrimChars), TrimChars);
    if r == [] then r
    else
      TrimCharsMembers(r[0]);
      TrimCharsMembers(r[|r| - 1]);
      r
  }

  /** `trim()` leaves a string unchanged exactly when neither end is a trimmed character. */
  lemma TrimFixed(s: string)
    ensures Trim(s) == s <==> (s == [] || (!IsTrimChar(s[0]) && !IsTrimChar(s[|s| - 1])))
  {
    if s != [] && !IsTrimChar(s[0]) && !IsTrimChar(s[|s| - 1]) {
      TrimCharsMembers(s[0]);
      TrimCharsMembers(s[|s| - 1]);
      assert RTrim(s, TrimChars) == s;
      assert LTrim(s, TrimChars) == s;
    }
  }

  /** WordPress `trailingslashit()`: strip trailing '/' and '\', then append one '/'. */
  function TrailingSlashIt(s: string): (r: string)
    ensures |r| >= 1 && r[|r| - 1] == '/'
  {
    RTrim(s, {'/', '\\'}) + "/"
  }

  /** The prefix left after removing the characters after the last '/'. */
  function RStripNonSlashes(s: string): (r: string)
    ensures |r| <= |s| && r == s[..|r|]
    ensures r == [] || r[|r| - 1] == '/'
    ensures forall i :: |r| <= i < |s| ==> s[i] != '/'
    decreases |s|
  {
    if s != [] && s[|s| - 1] != '/' then RStripNonSlashes(s[..|s| - 1]) else s
  }

  /**
   * PHP's `dirname()` on a POSIX path: trailing slashes are dropped, then the last
   * component, then the slashes before it; a path without a slash gives ".", a path
   * made of slashes (or a component directly under the root) gives "/".
   */
  function Dirname(path: string): string {
    if path == "" then ""
    else
      var a := RTrim(path, {'/'});
      if a == "" then "/"
      else
        var b := RStripNonSlashes(a);
        if b == "" then "."
        else
          var c := RTrim(b, {'/'});
          if c == "" then "/" else c
  }

  /**
   * dirname gives "", "." or "/", or a proper prefix of the path that is
   * followed by a '/' in it.
   */
  lemma DirnameShape(path: string)
    ensures var d := Dirname(path);
            || (d == "" && path == "")
            || d == "."
            || d == "/"
            || (|d| < |path| && d == path[..|d|] && path[|d|] == '/' && d[|d| - 1] != '/')
  {
    if path != "" {
      var a := RTrim(path, {'/'});
      if a != "" {
        var b := RStripNonSlashes(a);
        if b != "" {
          var c := RTrim(b, {'/'});
          if c != "" {
            assert b[|c|] == '/';
            assert path[..|c|] == c;
          }
        }
      }
    }
  }

  /** "." and "/" are where repeated dirname calls settle. */
  lemma DirnameFixpoints()
    ensures Dirname(".") == "." && Dirname("/") == "/"
  {
    assert RTrim(".", {'/'}) == ".";
    assert RStripNonSlashes(".") == "";
    assert RTrim("/", {'/'}) == "";
  }

  // ---------------------------------------------------------------------------
  // Characters
  // ---------------------------------------------------------------------------

  /** PCRE's `\s`: space, and tab, line feed, vertical tab, form feed, carriage return (codes 9 to 13). */
  predicate IsSpace(c: char) {
    c == ' ' || '\t' <= c <= '\r'
  }

  function LowerChar(c: char): char {
    if 'A' <= c <= 'Z' then (c as int + 32) as char else c
  }

  /** `strtolower()` on ASCII letters. */
  function Lower(s: string): (r: string)
    ensures |r| == |s| && forall i :: 0 <= i < |s| ==> r[i] == LowerChar(s[i])
  {
    seq(|s|, i requires 0 <= i < |s| => LowerChar(s[i]))
  }

  /** `stripos( $s, $p ) !== false`. */
  predicate ContainsIgnoreCase(s: string, p: string)
    requires |p| > 0
  {
    Contains(Lower(s), Lower(p))
  }

  /** `substr( $s, 0, $n )`. */
  function Prefix(s: string, n: nat): (r: string)
    ensures |r| == if |s| < n then |s| else n
    ensures r == s[..|r|]
  {
    if |s| < n then s else s[..n]
  }
}
