/**
 * What the compiler asks of the outside world, and the three ways it obtains
 * a fragment's content. WordPress, the filesystem, the HTTP client, MD5 and
 * `serialize`, the LESS compiler and JSMin are not modelled; each is a field
 * of `Env`, fixed for one compiler run.
 */
module CompilerEnv {
  import opened PhpValues
  import opened PhpStrings

  /** The outcome of `wp_remote_get()`: a `WP_Error`, or a response code and a body when one is set. */
  datatype Response = WpError | Reply(code: int, body: Option<string>)

  datatype Env = Env(
    digest: Value -> string,        // md5( @serialize( $v ) )
    isCallable: Value -> bool,      // is_callable( $v )
    call: Value -> Value,           // call_user_func( $v )
    fileExists: string -> bool,     // file_exists( $path )
    fileSize: string -> Value,      // @filesize( $path ): an Int, or Bool(false)
    fileMtime: string -> Value,     // @filemtime( $path ): an Int, or Bool(false)
    getContents: string -> Value,   // $wp_filesystem->get_contents( $path ): a Str, or Bool(false)
    isDir: string -> bool,          // @is_dir( $path ), relative to the working directory
    urlToPath: string -> string,    // beans_url_to_path()
    pathToUrl: string -> string,    // beans_path_to_url()
    siteUrl: string -> string,      // site_url( $path )
    fetch: string -> Response,      // wp_remote_get( $url )
    isUri: string -> bool,          // _beans_is_uri()
    urlDecode: string -> string,    // urldecode(), as parse_str() applies it
    lessCompile: string -> string,  // ( new Beans_Lessc() )->compile()
    jsMin: string -> string,        // ( new JSMin( $s ) )->min()
    compilerDir: string,            // beans_get_compiler_dir( is_admin() )
    compilerUrl: string,            // beans_get_compiler_url( is_admin() )
    ssl: bool,                      // is_ssl()
    devMode: bool)                  // _beans_is_compiler_dev_mode()

  // ---------------------------------------------------------------------------
  // hash() and is_function()
  // ---------------------------------------------------------------------------

  /** `hash( $v )`: the first seven characters of the digest of the serialised value. */
  function Hash(env: Env, v: Value): (r: string)
    ensures |r| == if |env.digest(v)| < 7 then |env.digest(v)| else 7
    ensures r == env.digest(v)[..|r|]
  {
    Prefix(env.digest(v), 7)
  }

  predicate IsHexDigit(c: char) {
    '0' <= c <= '9' || 'a' <= c <= 'f'
  }

  predicate IsHex(s: string) {
    forall i :: 0 <= i < |s| ==> IsHexDigit(s[i])
  }

  /** An MD5 digest is lower-case hex, so a hash holds neither the '-' nor the '.' of a cache file name. */
  lemma HashHasNoSeparators(env: Env, v: Value)
    requires IsHex(env.digest(v))
    ensures IsHex(Hash(env, v))
    ensures '-' !in Hash(env, v) && '.' !in Hash(env, v)
  {
    var h := Hash(env, v);
    assert forall i :: 0 <= i < |h| ==> h[i] == env.digest(v)[i];
  }

  /** `is_function( $fragment )`: an array (even one that cannot be called) or a callable. */
  predicate IsFunction(env: Env, fragment: Value) {
    fragment.Arr? || env.isCallable(fragment)
  }

  // ---------------------------------------------------------------------------
  // get_function_content(), get_internal_content(), get_remote_content()
  // ---------------------------------------------------------------------------

  /** `get_function_content()`: what the fragment returns when called, false when it is not callable. */
  function FunctionContent(env: Env, fragment: Value): Value {
    if !env.isCallable(fragment) then Bool(false) else env.call(fragment)
  }

  /**
   * `get_internal_content()`: the file named by the fragment; when there is none,
   * the file its URL maps to, unless that is missing or empty.
   */
  function InternalContent(env: Env, fragment: string): Value {
    if env.fileExists(fragment) then env.getContents(fragment)
    else
      var p := env.urlToPath(fragment);
      if !env.fileExists(p) || env.fileSize(p) == Int(0) then Bool(false) else env.getContents(p)
  }

  /** The URL `get_remote_content()` requests: a protocol-relative URL gets "http:", a root-relative one the site URL. */
  function RemoteUrl(env: Env, fragment: string): string {
    if Prefix(fragment, 2) == "//" then "http:" + fragment
    else if Prefix(fragment, 1) == "/" then env.siteUrl(fragment)
    else fragment
  }

  /** A file that exists is read as it is: the URL-to-path mapping is not consulted. */
  lemma InternalContentPrefersFile(env: Env, fragment: string, mapping: string -> string)
    requires env.fileExists(fragment)
    ensures InternalContent(env.(urlToPath := mapping), fragment) == InternalContent(env, fragment)
  {
  }

  /** On an https site a URL that starts with "http://" starts with "https://" after the rewrite. */
  lemma HttpsRewrite(rest: string)
    ensures ReplaceAll("http://" + rest, "http://", "https://") == "https://" + ReplaceAll(rest, "http://", "https://")
  {
    var s := "http://" + rest;
    assert s[..7] == "http://";
    assert s[7..] == rest;
  }

  /**
   * A protocol-relative fragment is requested over http, and its retry over
   * https: the second request never goes to the same URL as the first.
   */
  lemma RemoteProtocolRelative(env: Env, fragment: string)
    requires StartsWith(fragment, "//")
    ensures StartsWith(RemoteUrl(env, fragment), "http://")
    ensures !StartsWith(RemoteUrl(env, fragment), "https://")
    ensures StartsWith(ReplaceAll(RemoteUrl(env, fragment), "http://", "https://"), "https://")
  {
    assert fragment[..2] == "//";
    assert Prefix(fragment, 2) == "//";
    var u := "http:" + fragment;
    assert u == "http://" + fragment[2..];
    HttpsRewrite(fragment[2..]);
    assert u[..7] == "http://";
    assert u[4] == ':' && "https://"[4] == 's';
  }

  predicate Good(r: Response) {
    r.Reply? && r.body.Some? && r.code == 200
  }

  /**
   * `get_remote_content()`: false for an empty fragment; '' when the request
   * errs; otherwise the body of a 200 response, asking once more over https
   * when the first answer is not one and the URL was not https already.
   */
  function RemoteContent(env: Env, fragment: Value): (r: Value)
    ensures !Truthy(fragment) ==> r == Bool(false)
    ensures r == Bool(false) || r.Str?
  {
    if !Truthy(fragment) then Bool(false)
    else
      var u := RemoteUrl(env, ToStr(fragment));
      var first := env.fetch(u);
      if first.WpError? then Str("")
      else
        var second := if !Good(first) && Prefix(u, 8) != "https://" then env.fetch(ReplaceAll(u, "http://", "https://")) else first;
        if Good(second) then Str(second.body.value) else Bool(false)
  }

  /** A good first answer is used as it is; no second request is made. */
  lemma RemoteContentFirst(env: Env, fragment: Value)
    requires Truthy(fragment)
    requires Good(env.fetch(RemoteUrl(env, ToStr(fragment))))
    ensures RemoteContent(env, fragment) == Str(env.fetch(RemoteUrl(env, ToStr(fragment))).body.value)
  {
  }

  /** After a bad answer for a non-https URL, the content is the body of the https retry, or false. */
  lemma RemoteContentRetry(env: Env, fragment: Value)
    requires Truthy(fragment)
    requires var u := RemoteUrl(env, ToStr(fragment));
             var first := env.fetch(u);
             first.Reply? && !Good(first) && !StartsWith(u, "https://")
    ensures var second := env.fetch(ReplaceAll(RemoteUrl(env, ToStr(fragment)), "http://", "https://"));
            RemoteContent(env, fragment) == if Good(second) then Str(second.body.value) else Bool(false)
  {
    var u := RemoteUrl(env, ToStr(fragment));
    assert Prefix(u, 8) != "https://";
  }
}
