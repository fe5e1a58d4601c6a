/**
 * `_Beans_Compiler`: one compiler run turns a configured list of fragments
 * (files, URLs or functions) into one cached CSS or JavaScript file whose name
 * is derived from the configuration and the fragments' modification times.
 */
module Compiler {
  import opened PhpValues
  import opened PhpStrings
  import opened CssMinify
  import opened CompilerEnv
  import opened CompilerCache
  import opened CompilerContent

  // ---------------------------------------------------------------------------
  // init_config()
  // ---------------------------------------------------------------------------

  const Defaults: Entries := [
    (StrKey("id"), Bool(false)),
    (StrKey("type"), Bool(false)),
    (StrKey("format"), Bool(false)),
    (StrKey("fragments"), Arr([])),
    (StrKey("dependencies"), Bool(false)),
    (StrKey("in_footer"), Bool(false)),
    (StrKey("minify_js"), Bool(false)),
    (StrKey("version"), Bool(false))
  ]

  lemma DefaultsUnique()
    ensures UniqueKeys(Defaults)
  {
  }

  /** A set "depedencies" (sic) entry is moved to "dependencies". */
  function FixDependencies(c: Entries): (r: Entries)
    requires UniqueKeys(c)
    ensures UniqueKeys(r)
  {
    if Isset(c, StrKey("depedencies"))
    then Unset(Put(c, StrKey("dependencies"), Lookup(c, StrKey("depedencies")).value), StrKey("depedencies"))
    else c
  }

  /** `init_config( $config )`: the fixed configuration merged over the defaults. */
  function InitConfig(c: Entries): Entries
    requires UniqueKeys(c)
  {
    ArrayMerge(Defaults, FixDependencies(c))
  }

  /** Every default key is present: with the caller's value when the caller gave one, with the default otherwise. */
  lemma InitConfigDefaults(c: Entries, i: nat)
    requires UniqueKeys(c) && i < |Defaults|
    ensures var k := Defaults[i].0;
            var fixed := FixDependencies(c);
            Lookup(InitConfig(c), k) == if k in KeySet(fixed) then Lookup(fixed, k) else Some(Defaults[i].1)
  {
    DefaultsUnique();
    var k := Defaults[i].0;
    KeyIndexAt(Defaults, k, i);
    ArrayMergeStringKey(Defaults, FixDependencies(c), k);
  }

  /**
   * After init_config() "dependencies" holds what the caller passed as
   * "depedencies" (when set), else as "dependencies", else false; and
   * "depedencies" is never set.
   */
  lemma InitConfigDependencies(c: Entries)
    requires UniqueKeys(c)
    ensures Lookup(InitConfig(c), StrKey("dependencies")) == Some(GivenDependencies(c))
    ensures !Isset(InitConfig(c), StrKey("depedencies"))
  {
    DefaultsUnique();
    DefaultDependencies();
    ArrayMergeStringKey(Defaults, FixDependencies(c), StrKey("dependencies"));
    ArrayMergeStringKey(Defaults, FixDependencies(c), StrKey("depedencies"));
  }

  lemma DefaultDependencies()
    ensures Lookup(Defaults, StrKey("dependencies")) == Some(Bool(false))
    ensures Lookup(Defaults, StrKey("depedencies")) == None
  {
    DefaultsUnique();
    KeyIndexAt(Defaults, StrKey("dependencies"), 4);
    forall i | 0 <= i < |Defaults| ensures Defaults[i].0 != StrKey("depedencies") {
      assert |Defaults[i].0.s| != |"depedencies"|;
    }
  }

  /** The dependencies the caller of the constructor asked for, under either spelling. */
  function GivenDependencies(c: Entries): Value {
    if Isset(c, StrKey("depedencies")) then Lookup(c, StrKey("depedencies")).value
    else if StrKey("dependencies") in KeySet(c) then Lookup(c, StrKey("dependencies")).value
    else Bool(false)
  }

  // ---------------------------------------------------------------------------
  // enqueue_file(): the arguments of the WordPress call
  // ---------------------------------------------------------------------------

  /** A `wp_enqueue_style()` or `wp_enqueue_script()` call, or none. */
  datatype Enqueue =
    | EnqueueStyle(handle: Value, src: string, deps: Value, ver: Value)
    | EnqueueScript(handle: Value, src: string, deps: Value, ver: Value, inFooter: Value)
    | NoEnqueue

  /** `enqueue_file()` as written: the dependencies are read from the "depedencies" key. */
  function EnqueueCall(config: Entries, src: string): Enqueue {
    EnqueueWith(config, src, Field(config, "depedencies"))
  }

  /** `enqueue_file()` reading the "dependencies" key that init_config() fills. */
  function EnqueueCallFixed(config: Entries, src: string): Enqueue {
    EnqueueWith(config, src, Field(config, "dependencies"))
  }

  /** The call `enqueue_file()` makes for the configured type, with the given dependencies. */
  function EnqueueWith(config: Entries, src: string, deps: Value): Enqueue {
    var t := Field(config, "type");
    if t == Str("style") then EnqueueStyle(Field(config, "id"), src, deps, Field(config, "version"))
    else if t == Str("script") then EnqueueScript(Field(config, "id"), src, deps, Field(config, "version"), Field(config, "in_footer"))
    else NoEnqueue
  }

  /** As written, every asset is enqueued with null dependencies, whatever the caller asked for. */
  lemma EnqueueDropsDependencies(c: Entries, src: string)
    requires UniqueKeys(c)
    ensures EnqueueCall(InitConfig(c), src).NoEnqueue? || EnqueueCall(InitConfig(c), src).deps == Null
  {
    InitConfigDependencies(c);
  }

  /** A style that asks for jQuery is enqueued without it. */
  lemma EnqueueDropsDependenciesExample(src: string)
    ensures var c := [(StrKey("type"), Str("style")), (StrKey("depedencies"), Str("jquery"))];
            && UniqueKeys(c)
            && GivenDependencies(c) == Str("jquery")
            && EnqueueCall(InitConfig(c), src).EnqueueStyle?
            && EnqueueCall(InitConfig(c), src).deps == Null
  {
    var c := [(StrKey("type"), Str("style")), (StrKey("depedencies"), Str("jquery"))];
    assert |"type"| != |"depedencies"|;
    assert UniqueKeys(c);
    KeyIndexAt(c, StrKey("type"), 0);
    KeyIndexAt(c, StrKey("depedencies"), 1);
    assert GivenDependencies(c) == Str("jquery");
    StyleTypeKept(c);
    EnqueueDropsDependencies(c, src);
  }

  /** A "type" the caller gives survives init_config(). */
  lemma StyleTypeKept(c: Entries)
    requires UniqueKeys(c) && Lookup(c, StrKey("type")) == Some(Str("style"))
    ensures Field(InitConfig(c), "type") == Str("style")
  {
    LetterKey("type");
    assert Defaults[1].0 == StrKey("type");
    InitConfigDefaults(c, 1);
    var fixed := FixDependencies(c);
    assert Lookup(fixed, StrKey("type")) == Some(Str("style"));
  }

  /** A name starting with a letter is a string key. */
  lemma LetterKey(s: string)
    requires |s| > 0 && 'a' <= s[0] <= 'z'
    ensures StrToKey(s) == StrKey(s)
  {
  }

  /** Reading "dependencies" instead passes on what the caller asked for. */
  lemma EnqueueFixedKeepsDependencies(c: Entries, src: string)
    requires UniqueKeys(c)
    ensures EnqueueCallFixed(InitConfig(c), src).NoEnqueue? || EnqueueCallFixed(InitConfig(c), src).deps == GivenDependencies(c)
  {
    InitConfigDependencies(c);
  }

  // ---------------------------------------------------------------------------
  // set_fragments(), minus the filter hook
  // ---------------------------------------------------------------------------

  /** `$array[ $key ]`; a missing key, or an index into a non-array, reads as null. */
  function Index(v: Value, key: Value): Value {
    match v
    case Arr(es) =>
      (match OffsetKey(key)
       case Some(k) => (match Lookup(es, k) case Some(x) => x case None => Null)
       case None => Null)
    case _ => Null
  }

  /** `beans_get( $config['id'], $_beans_compiler_added_fragments[ $config['format'] ] )`. */
  function Added(config: Entries, registry: Value): Value {
    match OffsetKey(Field(config, "id"))
    case Some(id) => BeansGet(id, Index(registry, Field(config, "format")), Null)
    case None => Null
  }

  /** The configuration after set_fragments(): truthy added fragments are array_merge'd after the configured ones. */
  function WithAddedFragments(config: Entries, added: Value): Entries {
    if Truthy(added) then Put(config, StrKey("fragments"), ArrayMergeValues(Field(config, "fragments"), added))
    else config
  }

  /** Added fragments given as lists come after the configured ones, in their order. */
  lemma AddedFragmentsAppend(config: Entries, added: Value)
    requires Field(config, "fragments").Arr? && IsList(Field(config, "fragments").entries)
    requires added.Arr? && added.entries != [] && IsList(added.entries)
    ensures var f := Field(WithAddedFragments(config, added), "fragments");
            f.Arr? && Values(f.entries) == Values(Field(config, "fragments").entries) + Values(added.entries)
  {
    ArrayMergeLists(Field(config, "fragments").entries, added.entries);
  }

  // ---------------------------------------------------------------------------
  // The cache file name
  // ---------------------------------------------------------------------------

  /** The fragments the `foreach` loops visit; a non-array gives none. */
  function FragmentsOf(config: Entries): Entries {
    match Field(config, "fragments")
    case Arr(es) => es
    case _ => []
  }

  /** The extension `get_extension()` gives for a configuration. */
  function Extension(config: Entries): (r: Option<string>)
    ensures r == Some("css") <==> Field(config, "type") == Str("style")
    ensures r == Some("js") <==> Field(config, "type") == Str("script")
    ensures r.None? <==> Field(config, "type") != Str("style") && Field(config, "type") != Str("script")
  {
    if Field(config, "type") == Str("style") then Some("css")
    else if Field(config, "type") == Str("script") then Some("js")
    else None
  }

  /** The extension as `'.' . get_extension()` writes it: null is "". */
  function ExtensionText(config: Entries): string {
    match Extension(config)
    case Some(e) => e
    case None => ""
  }

  /** The name `set_filename()` sets: `<hash(config)>[-<hash(mtimes)>].<ext>`. */
  function CacheFileName(env: Env, config: Entries): string {
    var mt := Filemtimes(env, FragmentsOf(config));
    var base := Hash(env, Arr(config));
    (if mt == [] then base else base + "-" + Hash(env, Arr(mt))) + "." + ExtensionText(config)
  }

  /**
   * With MD5's hex digests the name splits back into the extension and the
   * '-'-separated hashes: the base hash alone when no fragment has a
   * modification time, the base hash and the modification-time hash otherwise.
   */
  lemma CacheFileNameParts(env: Env, config: Entries)
    requires IsHex(env.digest(Arr(config)))
    requires IsHex(env.digest(Arr(Filemtimes(env, FragmentsOf(config)))))
    ensures var name := CacheFileName(env, config);
            var mt := Filemtimes(env, FragmentsOf(config));
            && PathExtension(name) == ExtensionText(config)
            && Explode(PathFilename(name), "-")
                 == if mt == [] then [Hash(env, Arr(config))] else [Hash(env, Arr(config)), Hash(env, Arr(mt))]
  {
    var mt := Filemtimes(env, FragmentsOf(config));
    var base := Hash(env, Arr(config));
    HashHasNoSeparators(env, Arr(config));
    HashHasNoSeparators(env, Arr(mt));
    var ext := ExtensionText(config);
    assert '.' !in ext;
    if mt == [] {
      PathInfoOfName(base, ext);
      NoDashAbsent(base);
      ExplodeAbsent(base, "-");
    } else {
      NameParts(base, Hash(env, Arr(mt)), ext);
    }
  }

  /** The clean-up that set_filename() runs never deletes the file it names. */
  lemma CacheFileNotStale(env: Env, config: Entries)
    requires IsHex(env.digest(Arr(config)))
    requires IsHex(env.digest(Arr(Filemtimes(env, FragmentsOf(config)))))
    requires Filemtimes(env, FragmentsOf(config)) != []
    ensures var mt := Filemtimes(env, FragmentsOf(config));
            !IsStale(env.isDir, CacheFileName(env, config), Hash(env, Arr(config)), Hash(env, Arr(mt)), Extension(config))
  {
    var mt := Filemtimes(env, FragmentsOf(config));
    HashHasNoSeparators(env, Arr(config));
    HashHasNoSeparators(env, Arr(mt));
    if Extension(config).Some? {
      CurrentFileKept(env.isDir, Hash(env, Arr(config)), Hash(env, Arr(mt)), Hash(env, Arr(mt)), ExtensionText(config));
    }
  }

  // ---------------------------------------------------------------------------
  // format_content()
  // ---------------------------------------------------------------------------

  /**
   * `format_content( $content )`: styles are LESS-compiled when the format is
   * less and stripped of white space outside development mode; scripts are
   * minified outside development mode when minify_js is set; anything else is
   * returned as it is.
   */
  function FormatContent(env: Env, config: Entries, content: string): (r: string)
    ensures Field(config, "type") != Str("style") && Field(config, "type") != Str("script") ==> r == content
    ensures Field(config, "type") == Str("script") ==>
              r == if !env.devMode && Truthy(Field(config, "minify_js")) then env.jsMin(content) else content
    ensures Field(config, "type") == Str("style") ==>
              var compiled := if Field(config, "format") == Str("less") then env.lessCompile(content) else content;
              r == if env.devMode then compiled else StripWhitespace(compiled)
  {
    if Field(config, "type") == Str("style") then
      var compiled := if Field(config, "format") == Str("less") then env.lessCompile(content) else content;
      if !env.devMode then StripWhitespace(compiled) else compiled
    else if Field(config, "type") == Str("script") && !env.devMode && Truthy(Field(config, "minify_js")) then
      env.jsMin(content)
    else content
  }

  /** CSS that is already minified comes out of a non-LESS style compile unchanged. */
  lemma FormatMinifiedStyle(env: Env, config: Entries, content: string)
    requires Field(config, "type") == Str("style") && Field(config, "format") != Str("less")
    requires forall i :: 0 <= i < |content| ==> !IsSpace(content[i]) && content[i] != '\\' && content[i] != '\0'
    requires !Contains(content, "/*") && !Contains(content, ";}")
    ensures FormatContent(env, config, content) == content
  {
    if !env.devMode {
      StripWhitespaceMinified(content);
    }
  }

  // ---------------------------------------------------------------------------
  // The compiler object
  // ---------------------------------------------------------------------------

  /** The last non-empty fragment of the list, the one `current_fragment` is left at. */
  function LastFragment(fragments: Entries, init: Value): Value
    decreases |fragments|
  {
    if fragments == [] then init
    else if Truthy(fragments[|fragments| - 1].1) then fragments[|fragments| - 1].1
    else LastFragment(fragments[..|fragments| - 1], init)
  }

  class Compiler {
    var config: Entries
    const dir: string
    const url: string
    var currentFragment: Value
    const env: Env
    const cache: CacheDir

    /** `__construct( $config )`; PHP arrays have distinct keys. */
    constructor(config0: Entries, env: Env, cache: CacheDir)
      requires UniqueKeys(config0)
      ensures config == InitConfig(config0)
      ensures dir == env.compilerDir + ToStr(Field(config, "id"))
      ensures url == env.compilerUrl + ToStr(Field(config, "id"))
      ensures currentFragment == Null && this.env == env && this.cache == cache
    {
      var c := InitConfig(config0);
      config := c;
      dir := env.compilerDir + ToStr(Field(c, "id"));
      url := env.compilerUrl + ToStr(Field(c, "id"));
      currentFragment := Null;
      this.env := env;
      this.cache := cache;
    }

    /** `set_fragments()`, with `$_beans_compiler_added_fragments` passed in as the registry. */
    method SetFragments(registry: Value)
      modifies this
      ensures config == WithAddedFragments(old(config), Added(old(config), registry))
      ensures currentFragment == old(currentFragment)
    {
      var added := Added(config, registry);
      if Truthy(added) {
        config := Put(config, StrKey("fragments"), ArrayMergeValues(Field(config, "fragments"), added));
      }
    }

    function GetExtension(): Option<string>
      reads this
    {
      Extension(config)
    }

    /** `get_fragments_filemtime()`. */
    method GetFragmentsFilemtime() returns (m: Entries)
      ensures m == Filemtimes(env, FragmentsOf(config))
    {
      var fragments := FragmentsOf(config);
      m := [];
      var i := 0;
      while i < |fragments|
        invariant 0 <= i <= |fragments|
        invariant m == Filemtimes(env, fragments[..i])
      {
        var (index, fragment) := fragments[i];
        assert fragments[..i + 1][..i] == fragments[..i];
        if !IsFunction(env, fragment) && env.fileExists(ToStr(fragment)) {
          m := Put(m, index, env.fileMtime(ToStr(fragment)));
        }
        i := i + 1;
      }
      assert fragments[..i] == fragments;
    }

    /** `remove_modified_files( $hash, $mtHash )`: deletes the stale entries of the listing, after the first two. */
    method RemoveModifiedFiles(hash: string, mtHash: string)
      modifies cache
      ensures cache.names == Without(old(cache.names), StaleSet(env.isDir, Listed(old(cache.names)), hash, mtHash, Extension(config)))
    {
      var items := Listed(cache.names);
      ghost var names0 := cache.names;
      StaleSetEmpty(env.isDir, items, hash, mtHash, Extension(config));
      if items == [] {
        return;
      }
      var ext := GetExtension();
      var i := 0;
      while i < |items|
        invariant 0 <= i <= |items|
        invariant cache.names == Without(names0, StaleSet(env.isDir, items[..i], hash, mtHash, ext))
      {
        var item := items[i];
        ghost var gone := StaleSet(env.isDir, items[..i], hash, mtHash, ext);
        StaleSetSnoc(env.isDir, items, i, hash, mtHash, ext);
        if !env.isDir(item) && ext == Some(PathExtension(item)) && Contains(item, "-") {
          var parts := Explode(PathFilename(item), "-");
          if parts[0] == hash && !(|parts| > 1 && parts[1] == mtHash) {
            assert IsStale(env.isDir, item, hash, mtHash, ext);
            WithoutTwice(names0, gone, {item});
            cache.Unlink(item);
            assert cache.names == Without(names0, gone + {item});
            assert StaleSet(env.isDir, items[..i + 1], hash, mtHash, ext) == gone + {item};
          } else {
            assert !IsStale(env.isDir, item, hash, mtHash, ext);
            assert StaleSet(env.isDir, items[..i + 1], hash, mtHash, ext) == gone;
          }
        } else {
          assert !IsStale(env.isDir, item, hash, mtHash, ext);
          assert StaleSet(env.isDir, items[..i + 1], hash, mtHash, ext) == gone;
        }
        assert cache.names == Without(names0, StaleSet(env.isDir, items[..i + 1], hash, mtHash, ext));
        i := i + 1;
      }
      assert items[..i] == items;
    }

    /** `get_new_hash( $hash, $mtimes )`: the base hash alone for an empty map; else the clean-up runs and the hashes are joined by '-'. */
    method GetNewHash(hash: string, mtimes: Entries) returns (h: string)
      modifies cache
      ensures mtimes == [] ==> h == hash && cache.names == old(cache.names)
      ensures mtimes != [] ==> h == hash + "-" + Hash(env, Arr(mtimes))
      ensures mtimes != [] ==>
                cache.names == Without(old(cache.names), StaleSet(env.isDir, Listed(old(cache.names)), hash, Hash(env, Arr(mtimes)), Extension(config)))
    {
      if mtimes == [] {
        return hash;
      }
      var mtHash := Hash(env, Arr(mtimes));
      RemoveModifiedFiles(hash, mtHash);
      h := hash + "-" + mtHash;
    }

    /** `set_filename()`: sets the "filename" key, after clearing stale files when the name has an mtime part. */
    method SetFilename()
      modifies this, cache
      ensures config == Put(old(config), StrKey("filename"), Str(CacheFileName(env, old(config))))
      ensures currentFragment == old(currentFragment)
      ensures var mt := Filemtimes(env, FragmentsOf(old(config)));
              cache.names == if mt == [] then old(cache.names)
                             else Without(old(cache.names), StaleSet(env.isDir, Listed(old(cache.names)), Hash(env, Arr(old(config))), Hash(env, Arr(mt)), Extension(old(config))))
    {
      var hash := Hash(env, Arr(config));
      var mtimes := GetFragmentsFilemtime();
      hash := GetNewHash(hash, mtimes);
      config := Put(config, StrKey("filename"), Str(hash + "." + ExtensionText(config)));
    }

    /** `get_filename()`: the cache file's path once a name is set, "" before. */
    function GetFilename(): (r: string)
      reads this
      ensures r == "" <==> !Isset(config, StrKey("filename"))
    {
      if Isset(config, StrKey("filename")) then dir + "/" + ToStr(Lookup(config, StrKey("filename")).value) else ""
    }

    /** `cache_file_exist()`. */
    function CacheFileExist(): (r: bool)
      reads this
      ensures r <==> Isset(config, StrKey("filename")) && env.fileExists(GetFilename())
    {
      var filename := GetFilename();
      assert filename != "" ==> filename[|dir|] == '/';
      if !Truthy(Str(filename)) then false else env.fileExists(filename)
    }

    /** The URL before the https rewrite: the cache URL, '/', and the file name ("" when none is set). */
    function PlainUrl(): string
      reads this
    {
      TrailingSlashIt(url) + ToStr(BeansGet(StrKey("filename"), Arr(config), Null))
    }

    /** `get_url()`: on https sites every "http://" of the URL becomes "https://". */
    function GetUrl(): (r: string)
      reads this
      ensures !env.ssl ==> r == PlainUrl()
      ensures env.ssl ==> r == Join(Explode(PlainUrl(), "http://"), "https://")
    {
      var u := PlainUrl();
      if env.ssl then ReplaceAllIsJoinExplode(u, "http://", "https://"); ReplaceAll(u, "http://", "https://") else u
    }

    /** `replace_css_url_callback( $matches )` for the match `whole` and its group `uri`. */
    method ReplaceCssUrlCallback(whole: string, uri: string) returns (r: string)
      ensures r == UrlCallback(env, currentFragment, whole, uri)
    {
      if env.isUri(uri) {
        return whole;
      }
      var fragment := currentFragment;
      var path := ToStr(fragment);
      var paths := Explode(uri, "../");
      var base := GoUp(path, |paths|);
      if base == "." {
        base := "";
      }
      var last := paths[|paths| - 1];
      assert base == UpBase(path, |paths|) && last == LastPiece(uri);
      r := UrlOf(env, base, last);
    }

    /**
     * `combine_fragments()`: the pieces of the non-empty fragments, in order,
     * joined by "\n\n", then formatted.
     */
    method CombineFragments() returns (r: string)
      modifies this
      ensures config == old(config)
      ensures r == FormatContent(env, config, Glue(PiecesOf(env, Field(config, "type") == Str("style"), FragmentsOf(config))))
      ensures currentFragment == LastFragment(FragmentsOf(config), old(currentFragment))
    {
      var fragments := FragmentsOf(config);
      var style := Field(config, "type") == Str("style");
      var content := "";
      var i := 0;
      while i < |fragments|
        invariant 0 <= i <= |fragments|
        invariant config == old(config)
        invariant content == Glue(PiecesOf(env, style, fragments[..i]))
        invariant currentFragment == LastFragment(fragments[..i], old(currentFragment))
      {
        var fragment := fragments[i].1;
        assert fragments[..i + 1][..i] == fragments[..i];
        PiecesTruthy(env, style, fragments[..i]);
        if Truthy(fragment) {
          currentFragment := fragment;
          var got: Value;
          if IsFunction(env, currentFragment) {
            got := FunctionContent(env, currentFragment);
          } else {
            got := InternalContent(env, ToStr(currentFragment));
            if !Truthy(got) {
              got := RemoteContent(env, currentFragment);
            }
          }
          if Truthy(got) && !HtmlLike(ToStr(got)) {
            var text := ToStr(got);
            if style {
              text := ReplaceCssUrl(env, currentFragment, text);
              text := AddContentMediaQuery(env, currentFragment, text);
            }
            GlueSnoc(PiecesOf(env, style, fragments[..i]), text);
            content := content + (if Truthy(Str(content)) then "\n\n" else "") + text;
          }
        }
        i := i + 1;
      }
      assert fragments[..i] == fragments;
      r := FormatContent(env, config, content);
    }
  }

  /** The callback's `foreach ( $paths as $path )`, applying dirname() once per piece. */
  method GoUp(path: string, n: nat) returns (base: string)
    ensures base == DirnameN(path, n)
  {
    base := path;
    var i := 0;
    while i < n
      invariant 0 <= i <= n
      invariant base == DirnameN(path, i)
    {
      base := Dirname(base);
      i := i + 1;
    }
  }

  /** Before the loop nothing is deleted. */
  lemma StaleSetEmpty(isDir: string -> bool, items: seq<string>, hash: string, mtHash: string, ext: Option<string>)
    ensures StaleSet(isDir, items[..0], hash, mtHash, ext) == {}
    ensures forall names :: Without(names, StaleSet(isDir, items[..0], hash, mtHash, ext)) == names
  {
    assert StaleSet(isDir, items[..0], hash, mtHash, ext) == {};
    forall names: seq<string> ensures Without(names, {}) == names {
      WithoutEmpty(names);
    }
  }

  lemma {:induction false} WithoutEmpty(names: seq<string>)
    ensures Without(names, {}) == names
    decreases |names|
  {
    if names != [] {
      WithoutEmpty(names[..|names| - 1]);
      assert names[..|names| - 1] + [names[|names| - 1]] == names;
    }
  }

  lemma StaleSetSnoc(isDir: string -> bool, items: seq<string>, i: nat, hash: string, mtHash: string, ext: Option<string>)
    requires i < |items|
    ensures StaleSet(isDir, items[..i + 1], hash, mtHash, ext)
              == StaleSet(isDir, items[..i], hash, mtHash, ext)
                 + (if IsStale(isDir, items[i], hash, mtHash, ext) then {items[i]} else {})
  {
    assert items[..i + 1] == items[..i] + [items[i]];
  }
}
