/**
 * Reading a query-string variable out of a URL, as `add_content_media_query`
 * does with `parse_url()` and `parse_str()`.
 */
module CssQuery {
  import opened PhpValues
  import opened PhpStrings

  // ---------------------------------------------------------------------------
  // Query strings: parse_url( ... )['query'] and parse_str()
  // ---------------------------------------------------------------------------

  function FirstIndexOf(s: string, c: char): (r: Option<nat>)
    ensures r.Some? ==> r.value < |s| && s[r.value] == c && c !in s[..r.value]
    ensures r.None? ==> c !in s
  {
    if s == [] then None
    else if s[0] == c then Some(0)
    else match FirstIndexOf(s[1..], c)
      case None => None
      case Some(i) => assert s[..i + 1] == [s[0]] + s[1..][..i]; Some(i + 1)
  }

  /** The query component `parse_url()` reports: after the first '?' that comes before any '#'. */
  function QueryOf(url: string): Option<string> {
    var head := (match FirstIndexOf(url, '#') case Some(h) => url[..h] case None => url);
    match FirstIndexOf(head, '?')
    case Some(i) => Some(head[i + 1..])
    case None => None
  }

  /** How `parse_str()` stores a variable name: leading spaces dropped, ' ' and '.' become '_'. */
  function NormalizeName(name: string): (r: string)
    ensures '.' !in r && ' ' !in r
  {
    var t := LTrim(name, {' '});
    seq(|t|, i requires 0 <= i < |t| => if t[i] == ' ' || t[i] == '.' then '_' else t[i])
  }

  /** A pair's name: what precedes its first '=', or the whole pair. */
  function PairName(pair: string): string {
    match IndexFrom(pair, "=", 0)
    case Some(i) => pair[..i]
    case None => pair
  }

  /** A pair's value: what follows its first '=', or "". */
  function PairValue(pair: string): string {
    match IndexFrom(pair, "=", 0)
    case Some(i) => pair[i + 1..]
    case None => ""
  }

  /** The pair sets the variable `name`. */
  predicate PairNamed(pair: string, name: string, urlDecode: string -> string) {
    NormalizeName(urlDecode(PairName(pair))) == name
  }

  /** The position of the last pair that `named` accepts. */
  function LastWhere(pairs: seq<string>, named: string -> bool): (r: Option<nat>)
    ensures r.Some? ==> r.value < |pairs| && named(pairs[r.value])
    ensures r.Some? ==> forall j :: r.value < j < |pairs| ==> !named(pairs[j])
    ensures r.None? ==> forall j :: 0 <= j < |pairs| ==> !named(pairs[j])
    decreases |pairs|
  {
    if pairs == [] then None
    else if named(pairs[|pairs| - 1]) then Some(|pairs| - 1)
    else
      var r := LastWhere(pairs[..|pairs| - 1], named);
      assert forall j :: 0 <= j < |pairs| - 1 ==> pairs[..|pairs| - 1][j] == pairs[j];
      r
  }

  /**
   * The value `parse_str()` gives the variable `name`: the value of the last
   * '&'-separated pair whose decoded, normalised name is `name`; null when none is.
   */
  function QueryParam(pairs: seq<string>, name: string, urlDecode: string -> string): Value {
    match LastWhere(pairs, pair => PairNamed(pair, name, urlDecode))
    case None => Null
    case Some(i) => Str(urlDecode(PairValue(pairs[i])))
  }

  /** The variable is null exactly when no pair sets it. */
  lemma QueryParamNull(pairs: seq<string>, name: string, urlDecode: string -> string)
    ensures QueryParam(pairs, name, urlDecode).Null? <==> forall i :: 0 <= i < |pairs| ==> !PairNamed(pairs[i], name, urlDecode)
  {
    var named := pair => PairNamed(pair, name, urlDecode);
    match LastWhere(pairs, named)
    case None =>
    case Some(k) => assert named(pairs[k]);
  }

  /** When some pair sets the variable, the last such pair gives its value. */
  lemma QueryParamLast(pairs: seq<string>, name: string, urlDecode: string -> string, i: nat)
    requires i < |pairs| && PairNamed(pairs[i], name, urlDecode)
    requires forall j :: i < j < |pairs| ==> !PairNamed(pairs[j], name, urlDecode)
    ensures QueryParam(pairs, name, urlDecode) == Str(urlDecode(PairValue(pairs[i])))
  {
    var named := pair => PairNamed(pair, name, urlDecode);
    assert named(pairs[i]);
    match LastWhere(pairs, named)
    case None =>
    case Some(k) => assert k == i;
  }

  /** `beans_get( $name, wp_parse_args( $query ) )`. */
  function ParseStrGet(query: string, name: string, urlDecode: string -> string): Value {
    QueryParam(Explode(query, "&"), name, urlDecode)
  }

  /** A variable no pair of the query sets reads as the empty string. */
  lemma ParseStrGetUnset(query: string, name: string, urlDecode: string -> string)
    requires forall j :: 0 <= j < |Explode(query, "&")| ==> !PairNamed(Explode(query, "&")[j], name, urlDecode)
    ensures ToStr(ParseStrGet(query, name, urlDecode)) == ""
  {
    QueryParamNull(Explode(query, "&"), name, urlDecode);
  }

  /** A URL without '#' whose part before the first '?' is `base` has the query `q`. */
  lemma QueryOfPlain(base: string, q: string)
    requires '?' !in base && '#' !in base && '#' !in q
    ensures QueryOf(base + "?" + q) == Some(q)
    ensures QueryOf(base) == None
  {
    var url := base + "?" + q;
    assert url == base + ['?'] + q;
    assert '#' !in url;
    FirstIndexOfAt(base, '?', q);
  }

  lemma {:induction false} FirstIndexOfAt(a: string, c: char, b: string)
    requires c !in a
    ensures FirstIndexOf(a + [c] + b, c) == Some(|a|)
    decreases |a|
  {
    if a != [] {
      assert (a + [c] + b)[1..] == a[1..] + [c] + b;
      FirstIndexOfAt(a[1..], c, b);
    }
  }
}
