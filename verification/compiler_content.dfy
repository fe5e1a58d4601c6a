/**
 * What `combine_fragments()` does with one fragment: fetch its content, drop it
 * when it is empty or an HTML page, and for styles rewrite its relative
 * `url(...)` references and wrap it in the media query its URL asks for; and
 * how the kept pieces are joined.
 */
module CompilerContent {
  import opened PhpValues
  import opened PhpStrings
  import opened CssUrls
  import opened CssQuery
  import opened CompilerEnv

  // ---------------------------------------------------------------------------
  // replace_css_url_callback()
  // ---------------------------------------------------------------------------

  /** dirname() applied n times. */
  function DirnameN(path: string, n: nat): string {
    if n == 0 then path else Dirname(DirnameN(path, n - 1))
  }

  /** The rebuilt reference: `url("` + path_to_url( trailingslashit( base ) + ltrim( last, '/' ) ) + `")`. */
  function UrlOf(env: Env, base: string, last: string): string {
    "url(\"" + env.pathToUrl(TrailingSlashIt(base) + LTrim(last, {'/'})) + "\")"
  }

  /**
   * `replace_css_url_callback()` for a match `whole` whose group is `uri`, while
   * the compiler works on `fragment`: an absolute URI is kept; otherwise the
   * fragment's path goes up once per '../'-separated piece of the URI (one more
   * time than there are '../'), "." becomes "", and the last piece is appended.
   */
  function UrlCallback(env: Env, fragment: Value, whole: string, uri: string): string {
    if env.isUri(uri) then whole
    else UrlOf(env, UpBase(ToStr(fragment), |Explode(uri, "../")|), LastPiece(uri))
  }

  /** The last '../'-separated piece of a URI. */
  function LastPiece(uri: string): string {
    var paths := Explode(uri, "../");
    paths[|paths| - 1]
  }

  /** The path `n` directories up, with dirname()'s "." read as "". */
  function UpBase(path: string, n: nat): string {
    var base := DirnameN(path, n);
    if base == "." then "" else base
  }

  /** The non-URI case of `UrlCallback`, for the loop that computes it step by step. */
  /** `replace_css_url( $content )` while the compiler works on `fragment`. */
  function ReplaceCssUrl(env: Env, fragment: Value, content: string): string {
    ReplaceUrls(content, (m, g) => UrlCallback(env, fragment, m, g))
  }

  lemma UrlOfShape(env: Env, base: string, last: string)
    ensures |UrlOf(env, base, last)| >= 7 && StartsWith(UrlOf(env, base, last), "url(\"")
  {
    var u := UrlOf(env, base, last);
    assert u[..5] == "url(\"";
  }

  /** The callback keeps a match or gives a longer `url("...")`, so it never shortens a match below two characters. */
  lemma UrlCallbackLong(env: Env, fragment: Value, whole: string, uri: string)
    ensures |UrlCallback(env, fragment, whole, uri)| >= if |whole| < 7 then |whole| else 7
    ensures env.isUri(uri) ==> UrlCallback(env, fragment, whole, uri) == whole
    ensures !env.isUri(uri) ==> StartsWith(UrlCallback(env, fragment, whole, uri), "url(\"")
  {
    if !env.isUri(uri) {
      UrlOfShape(env, UpBase(ToStr(fragment), |Explode(uri, "../")|), LastPiece(uri));
    }
  }

  /** `k` times "../". */
  function Ups(k: nat): string {
    if k == 0 then "" else "../" + Ups(k - 1)
  }

  /** A URI made of k "../" and a rest without "../" explodes into k empty pieces and the rest. */
  lemma {:induction false} ExplodeUps(k: nat, rest: string)
    requires !Contains(rest, "../")
    ensures |Explode(Ups(k) + rest, "../")| == k + 1
    ensures Explode(Ups(k) + rest, "../")[k] == rest
    decreases k
  {
    if k == 0 {
      assert Ups(0) + rest == rest;
      ExplodeAbsent(rest, "../");
    } else {
      assert Ups(k) + rest == "../" + (Ups(k - 1) + rest);
      ExplodeAfterUp(Ups(k - 1) + rest);
      ExplodeUps(k - 1, rest);
    }
  }

  lemma ExplodeAfterUp(t: string)
    ensures Explode("../" + t, "../") == [""] + Explode(t, "../")
  {
    var s := "../" + t;
    assert s[..3] == "../";
    assert IndexFrom(s, "../", 0) == Some(0);
    assert s[3..] == t;
  }

  /**
   * A relative URI with k leading "../" takes the fragment's path through dirname
   * k + 1 times, and keeps what follows the "../".
   */
  lemma UrlCallbackRelative(env: Env, fragment: Value, whole: string, k: nat, rest: string)
    requires !Contains(rest, "../") && !env.isUri(Ups(k) + rest)
    ensures UrlCallback(env, fragment, whole, Ups(k) + rest) == UrlOf(env, UpBase(ToStr(fragment), k + 1), rest)
  {
    ExplodeUps(k, rest);
    var paths := Explode(Ups(k) + rest, "../");
    assert paths[|paths| - 1] == rest;
  }

  lemma {:induction false} RStripChild(a: string, b: string)
    requires '/' !in b
    ensures RStripNonSlashes(a + "/" + b) == a + "/"
    decreases |b|
  {
    var s := a + "/" + b;
    if b != [] {
      assert s[|s| - 1] == b[|b| - 1];
      assert s[..|s| - 1] == a + "/" + b[..|b| - 1];
      RStripChild(a, b[..|b| - 1]);
    }
  }

  /** dirname() of `a/b`, where b is a name and a does not end in '/', is a. */
  lemma DirnameOfChild(a: string, b: string)
    requires a != "" && a[|a| - 1] != '/'
    requires b != "" && '/' !in b
    ensures Dirname(a + "/" + b) == a
  {
    var s := a + "/" + b;
    assert s[|s| - 1] == b[|b| - 1];
    assert RTrim(s, {'/'}) == s;
    RStripChild(a, b);
    var t := a + "/";
    assert t[..|t| - 1] == a;
    assert RTrim(t, {'/'}) == RTrim(a, {'/'});
    assert RTrim(a, {'/'}) == a;
  }

  /**
   * The unit test's cases in general form: for a fragment `dir/name`, a URI without
   * "../" is resolved against `dir`; for a fragment `parent/leaf/name`, a URI
   * "../rest" is resolved against `parent`.
   */
  lemma UrlCallbackSameDir(env: Env, dir: string, name: string, whole: string, rest: string)
    requires dir != "" && dir[|dir| - 1] != '/' && dir != "."
    requires name != "" && '/' !in name
    requires !Contains(rest, "../") && !env.isUri(rest)
    ensures UrlCallback(env, Str(dir + "/" + name), whole, rest) == UrlOf(env, dir, rest)
  {
    var path := dir + "/" + name;
    assert Ups(0) + rest == rest;
    UrlCallbackRelative(env, Str(path), whole, 0, rest);
    DirnameOfChild(dir, name);
    assert DirnameN(path, 1) == dir;
    assert UpBase(path, 1) == dir;
  }

  lemma UrlCallbackUpOne(env: Env, parent: string, leaf: string, name: string, whole: string, rest: string)
    requires parent != "" && parent[|parent| - 1] != '/' && parent != "."
    requires leaf != "" && '/' !in leaf && name != "" && '/' !in name
    requires !Contains(rest, "../") && !env.isUri("../" + rest)
    ensures UrlCallback(env, Str(parent + "/" + leaf + "/" + name), whole, "../" + rest) == UrlOf(env, parent, rest)
  {
    var dir := parent + "/" + leaf;
    var path := dir + "/" + name;
    assert Ups(1) + rest == "../" + rest;
    UrlCallbackRelative(env, Str(path), whole, 1, rest);
    assert dir[|dir| - 1] == leaf[|leaf| - 1];
    DirnameOfChild(dir, name);
    DirnameOfChild(parent, leaf);
    assert DirnameN(path, 1) == dir;
    assert DirnameN(path, 2) == parent;
  }

  // ---------------------------------------------------------------------------
  // add_content_media_query()
  // ---------------------------------------------------------------------------

  const MediaQueryVar := "beans_compiler_media_query"

  /** The fragment's URL carries a non-empty query that mentions beans_compiler_media_query, in any letter case. */
  predicate WantsMediaQuery(env: Env, fragment: Value) {
    && !IsFunction(env, fragment)
    && QueryOf(ToStr(fragment)).Some?
    && var q := QueryOf(ToStr(fragment)).value;
       Truthy(Str(q)) && ContainsIgnoreCase(q, MediaQueryVar)
  }

  /** `add_content_media_query( $content )` while the compiler works on `fragment`. */
  function AddContentMediaQuery(env: Env, fragment: Value, content: string): string {
    if !WantsMediaQuery(env, fragment) then content
    else
      var media := ParseStrGet(QueryOf(ToStr(fragment)).value, MediaQueryVar, env.urlDecode);
      "@media " + ToStr(media) + " {\n" + content + "\n}\n"
  }

  /** The value of beans_compiler_media_query in the fragment's query, as text. */
  function MediaValue(env: Env, fragment: Value): string
    requires QueryOf(ToStr(fragment)).Some?
  {
    ToStr(ParseStrGet(QueryOf(ToStr(fragment)).value, MediaQueryVar, env.urlDecode))
  }

  /**
   * The content is changed exactly when the fragment asks for a media query, and
   * then it is wrapped whole in an `@media` block whose condition is the value of
   * beans_compiler_media_query.
   */
  lemma MediaQueryWraps(env: Env, fragment: Value, content: string)
    ensures var r := AddContentMediaQuery(env, fragment, content);
            && (r == content <==> !WantsMediaQuery(env, fragment))
            && (WantsMediaQuery(env, fragment) ==>
                  r == "@media " + MediaValue(env, fragment) + " {\n" + content + "\n}\n")
  {
    if WantsMediaQuery(env, fragment) {
      var r := AddContentMediaQuery(env, fragment, content);
      assert |r| > |content|;
    }
  }

  /** The condition is the decoded value of the last pair of the query that sets beans_compiler_media_query. */
  lemma MediaQueryValue(env: Env, fragment: Value, content: string, i: nat)
    requires WantsMediaQuery(env, fragment)
    requires var pairs := Explode(QueryOf(ToStr(fragment)).value, "&");
             && i < |pairs| && PairNamed(pairs[i], MediaQueryVar, env.urlDecode)
             && forall j :: i < j < |pairs| ==> !PairNamed(pairs[j], MediaQueryVar, env.urlDecode)
    ensures var pairs := Explode(QueryOf(ToStr(fragment)).value, "&");
            AddContentMediaQuery(env, fragment, content)
              == "@media " + env.urlDecode(PairValue(pairs[i])) + " {\n" + content + "\n}\n"
  {
    var pairs := Explode(QueryOf(ToStr(fragment)).value, "&");
    QueryParamLast(pairs, MediaQueryVar, env.urlDecode, i);
  }

  /**
   * The query is found with a case-insensitive search but read with a
   * case-sensitive one: when no pair sets beans_compiler_media_query exactly
   * (`?BEANS_COMPILER_MEDIA_QUERY=print`, say), the block has an empty condition.
   */
  lemma MediaQueryUnnamed(env: Env, fragment: Value, content: string)
    requires WantsMediaQuery(env, fragment)
    requires var pairs := Explode(QueryOf(ToStr(fragment)).value, "&");
             forall j :: 0 <= j < |pairs| ==> !PairNamed(pairs[j], MediaQueryVar, env.urlDecode)
    ensures AddContentMediaQuery(env, fragment, content) == "@media " + " {\n" + content + "\n}\n"
  {
    var q := QueryOf(ToStr(fragment)).value;
    ParseStrGetUnset(q, MediaQueryVar, env.urlDecode);
    var m := MediaValue(env, fragment);
    assert m == "";
    MediaQueryWraps(env, fragment, content);
    assert "@media " + m == "@media ";
  }

  // ---------------------------------------------------------------------------
  // One fragment of combine_fragments()
  // ---------------------------------------------------------------------------

  /** `preg_match( '#^\s*\<#', $s )`: after any leading white space the text starts with '<'. */
  predicate HtmlLike(s: string) {
    var k := RunEnd(s, 0, Space);
    k < |s| && s[k] == '<'
  }

  lemma HtmlLikeMeaning(s: string)
    ensures HtmlLike(s) <==> exists k :: 0 <= k < |s| && AllIn(s, 0, k, Space) && s[k] == '<'
  {
    var r := RunEnd(s, 0, Space);
    RunEndSpan(s, 0, Space);
    forall k | 0 <= k < |s| && AllIn(s, 0, k, Space) && s[k] == '<' ensures r == k {
      RunEndCovers(s, 0, k, Space);
      assert !IsSpace(s[k]);
    }
    if HtmlLike(s) {
      assert AllIn(s, 0, r, Space);
    }
  }

  /** The `$get_content` of a fragment: a function's value, else the file's content, else the remote content. */
  function Content(env: Env, fragment: Value): Value {
    if IsFunction(env, fragment) then FunctionContent(env, fragment)
    else
      var internal := InternalContent(env, ToStr(fragment));
      if Truthy(internal) then internal else RemoteContent(env, fragment)
  }

  /** `is_function()` accepts any array, but an array that cannot be called yields false and adds nothing. */
  lemma UncallableArraySkipped(env: Env, style: bool, fragment: Value)
    requires fragment.Arr? && !env.isCallable(fragment)
    ensures IsFunction(env, fragment)
    ensures Piece(env, style, fragment) == None
  {
  }

  /**
   * A fragment that is not a file and whose URL maps to an empty file is not read
   * locally: its content is fetched over HTTP.
   */
  lemma EmptyLocalFileFetchedRemotely(env: Env, fragment: Value)
    requires !IsFunction(env, fragment) && !env.fileExists(ToStr(fragment))
    requires env.fileSize(env.urlToPath(ToStr(fragment))) == Int(0)
    ensures Content(env, fragment) == RemoteContent(env, fragment)
  {
  }

  /** What one fragment adds to the combined content, if anything. */
  function Piece(env: Env, style: bool, fragment: Value): Option<string> {
    if !Truthy(fragment) then None
    else
      var c := Content(env, fragment);
      if !Truthy(c) || HtmlLike(ToStr(c)) then None
      else if style then Some(AddContentMediaQuery(env, fragment, ReplaceCssUrl(env, fragment, ToStr(c))))
      else Some(ToStr(c))
  }

  /** Every piece is a truthy string, so the running content is truthy once a piece is in it. */
  lemma PieceTruthy(env: Env, style: bool, fragment: Value)
    requires Piece(env, style, fragment).Some?
    ensures Truthy(Str(Piece(env, style, fragment).value))
  {
    var c := Content(env, fragment);
    TruthyToStr(c);
    if style {
      var cb := (m, g) => UrlCallback(env, fragment, m, g);
      forall m, g | |m| >= 6 ensures |cb(m, g)| >= 2 {
        UrlCallbackLong(env, fragment, m, g);
      }
      ReplaceUrlsTruthy(ToStr(c), cb);
      MediaQueryWraps(env, fragment, ReplaceCssUrl(env, fragment, ToStr(c)));
    }
  }

  /** The pieces of the fragments, in their order. */
  function PiecesOf(env: Env, style: bool, fragments: Entries): seq<string>
    decreases |fragments|
  {
    if fragments == [] then []
    else
      var front := PiecesOf(env, style, fragments[..|fragments| - 1]);
      match Piece(env, style, fragments[|fragments| - 1].1)
      case Some(p) => front + [p]
      case None => front
  }

  /** Pieces are taken fragment by fragment: the pieces of a concatenation are the concatenated pieces. */
  lemma {:induction false} PiecesAppend(env: Env, style: bool, a: Entries, b: Entries)
    ensures PiecesOf(env, style, a + b) == PiecesOf(env, style, a) + PiecesOf(env, style, b)
    decreases |b|
  {
    if b == [] {
      assert a + b == a;
    } else {
      var b' := b[..|b| - 1];
      assert (a + b)[..|a + b| - 1] == a + b';
      assert (a + b)[|a + b| - 1] == b[|b| - 1];
      PiecesAppend(env, style, a, b');
    }
  }

  /** A fragment that yields nothing can be dropped from the list without changing the result. */
  lemma SkippedFragment(env: Env, style: bool, a: Entries, f: (Key, Value), b: Entries)
    requires Piece(env, style, f.1).None?
    ensures PiecesOf(env, style, a + [f] + b) == PiecesOf(env, style, a + b)
  {
    PiecesAppend(env, style, a + [f], b);
    PiecesAppend(env, style, a, [f]);
    PiecesAppend(env, style, a, b);
    assert PiecesOf(env, style, [f]) == [] by {
      assert [f][..0] == [];
    }
  }

  /** When no fragment yields a piece (in particular for an empty list) the combined content is "". */
  lemma {:induction false} NothingCombined(env: Env, style: bool, fragments: Entries)
    requires forall i :: 0 <= i < |fragments| ==> Piece(env, style, fragments[i].1).None?
    ensures PiecesOf(env, style, fragments) == [] && Glue(PiecesOf(env, style, fragments)) == ""
    decreases |fragments|
  {
    if fragments != [] {
      var front := fragments[..|fragments| - 1];
      assert forall i :: 0 <= i < |front| ==> front[i] == fragments[i];
      NothingCombined(env, style, front);
    }
  }

  lemma {:induction false} PiecesTruthy(env: Env, style: bool, fragments: Entries)
    ensures forall i :: 0 <= i < |PiecesOf(env, style, fragments)| ==> Truthy(Str(PiecesOf(env, style, fragments)[i]))
    decreases |fragments|
  {
    if fragments != [] {
      PiecesTruthy(env, style, fragments[..|fragments| - 1]);
      var f := fragments[|fragments| - 1].1;
      if Piece(env, style, f).Some? {
        PieceTruthy(env, style, f);
      }
    }
  }

  // ---------------------------------------------------------------------------
  // Joining the pieces
  // ---------------------------------------------------------------------------

  /** The pieces joined by "\n\n", with no separator before the first; no pieces give "". */
  function Glue(pieces: seq<string>): string {
    if pieces == [] then "" else Join(pieces, "\n\n")
  }

  lemma {:induction false} JoinSnoc(parts: seq<string>, p: string, d: string)
    requires |parts| >= 1
    ensures Join(parts + [p], d) == Join(parts, d) + d + p
    decreases |parts|
  {
    if |parts| > 1 {
      assert (parts + [p])[1..] == parts[1..] + [p];
      JoinSnoc(parts[1..], p, d);
    }
  }

  /**
   * The step of the `foreach` in `combine_fragments()`: appending a piece adds
   * "\n\n" and the piece, the separator only when something came before.
   */
  lemma GlueSnoc(pieces: seq<string>, p: string)
    requires forall i :: 0 <= i < |pieces| ==> Truthy(Str(pieces[i]))
    ensures Truthy(Str(Glue(pieces))) <==> pieces != []
    ensures Glue(pieces + [p]) == Glue(pieces) + (if Truthy(Str(Glue(pieces))) then "\n\n" else "") + p
  {
    if pieces != [] {
      JoinSnoc(pieces, p, "\n\n");
      if |pieces| > 1 {
        assert |Glue(pieces)| >= 2;
      }
    } else {
      assert [] + [p] == [p];
    }
  }

  /** The joined text starts with the first piece and ends with the last one. */
  lemma {:induction false} GlueEnds(pieces: seq<string>)
    requires pieces != []
    ensures StartsWith(Glue(pieces), pieces[0])
    ensures var g := Glue(pieces);
            var last := pieces[|pieces| - 1];
            |last| <= |g| && g[|g| - |last|..] == last
    decreases |pieces|
  {
    if |pieces| > 1 {
      GlueEnds(pieces[1..]);
      var g := Glue(pieces);
      assert g == pieces[0] + "\n\n" + Glue(pieces[1..]);
      assert g[..|pieces[0]|] == pieces[0];
    }
  }
}
