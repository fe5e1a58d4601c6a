# Beans asset compiler and array utilities, in Dafny

This project models two parts of the Beans WordPress theme framework.

**The asset compiler `_Beans_Compiler`** (lib/api/compiler/class-beans-compiler.php).
A compiler object holds three things:

- a configuration array (id, type, format, fragments, ...);
- a cache directory and URL;
- the fragment it is currently working on.

It turns the fragments (files, URLs or functions) into one cached CSS or JavaScript file.

- The cache file's name is `<hash(config)>[-<hash(mtimes)>].<ext>`.
- When the modification-time part changes, the stale files with the same base hash are deleted.
- The fragments' contents are joined in order by a blank line.
- Styles have their relative `url(...)` references rebuilt against the fragment's directory.
- Styles are wrapped in a media query when the fragment's URL asks for one.
- The result is LESS-compiled, stripped of white space or minified, depending on the type, the format, development mode and `minify_js`.

**The array utilities** (lib/api/utilities/array-functions.php) are recursive functions over nested PHP arrays:

- a depth-limited count;
- a deep value search and a deep key search;
- `{a.b}` shortcode substitution;
- the `array_replace_recursive` fallback;
- removal of the first matching element.

Modules, one file each:

- `PhpValues` (php_values.dfy): PHP values. An array is a `seq` of key/value entries in insertion order. Also covers truthiness, string conversion, the integer-string key rule, `isset`, assignment, `unset`, `array_merge` and `beans_get`.
- `PhpStrings` (php_strings.dfy): the string functions used (`strpos`, `explode`/`implode`, `str_replace`, `trim`/`rtrim`/`ltrim`, `trailingslashit`, `dirname`, `stripos`, `substr`).
- `ArrayFunctions` (array_functions.dfy): the array utilities.
- `CssUrls` (css_urls.dfy): the `url(...)` pattern of `replace_css_url()` as a backtracking matcher, and `preg_replace_callback`.
- `CssQuery` (css_query.dfy): the query part of `parse_url()`, and `parse_str()` for one variable.
- `CssMinify` (css_minify.dfy): `strip_whitespace()`.
- `CompilerEnv` (compiler_env.dfy): the outside world the compiler calls, as one `Env` value of total functions. Also `hash()`, `is_function()` and the three content getters.
- `CompilerCache` (compiler_cache.dfy): `pathinfo()`, the staleness rule of `remove_modified_files()`, the cache directory as a class, and the modification-time map.
- `CompilerContent` (compiler_content.dfy): the `url(...)` callback, the media-query wrap, the per-fragment piece and the joining of pieces.
- `Compiler` (compiler.dfy): `init_config()` and the `Compiler` class with the stateful methods. Also the enqueue arguments and `format_content()`.

The methods that work by steps in the source are `while` loops with invariants, proved equal to a specification function. The functions' properties are then proved as lemmas. These methods are the fragment loops, the directory clean-up, the `dirname` loop, the count and shortcode loops, and the replace loop.

## Model

| member | source | states |
|---|---|---|
| PhpValues.Put | lib/api/utilities/array-functions.php:174-176 | `$a[$k] = $v`: k then holds v, every other key keeps its value, the key set gains k, distinct keys stay distinct. |
| PhpValues.Unset | lib/api/utilities/array-functions.php:202 | `unset`: the key is gone, every other key keeps its value, keys stay distinct. |
| PhpValues.BeansGet | lib/api/utilities/array-functions.php:140 | `beans_get`: the needle's value when it is set in the array, the default otherwise. |
| PhpValues.DecimalKeyRoundTrip | lib/api/utilities/array-functions.php:140 | An integer written in decimal is read back as that integer key, so `beans_get('3', ...)` finds index 3. |
| PhpValues.ArrayMergeLists | lib/api/compiler/class-beans-compiler.php:155 | `array_merge` of two lists is a list of the first list's values followed by the second's. |
| PhpValues.ArrayMergeStringKey | lib/api/compiler/class-beans-compiler.php:720 | With `array_merge(a, b)` a string key takes its value from b when b has it, from a otherwise. |
| PhpStrings.ExplodeJoin | lib/api/compiler/class-beans-compiler.php:550 | `implode(d, explode(d, s)) == s`. |
| PhpStrings.ReplaceAllIsJoinExplode | lib/api/compiler/class-beans-compiler.php:283-285 | `str_replace(p, r, s)` equals `implode(r, explode(p, s))`. |
| PhpStrings.ReplaceAllAbsent | lib/api/compiler/class-beans-compiler.php:283-285 | A URL without "http://" is not changed by the https rewrite. |
| PhpStrings.TrimFixed | lib/api/compiler/class-beans-compiler.php:605 | `trim` leaves a string unchanged exactly when neither end is a trimmed character. |
| PhpStrings.DirnameShape | lib/api/compiler/class-beans-compiler.php:558 | `dirname` gives "." for a path without '/', and otherwise a proper prefix without trailing '/' (or "/"). |
| PhpStrings.DirnameFixpoints | lib/api/compiler/class-beans-compiler.php:558 | `dirname(".") == "."` and `dirname("/") == "/"`, so walking up past the root stops there. |
| ArrayFunctions.CountRecursive | lib/api/utilities/array-functions.php:29-56 | The loop computes `CountSpec`: 0 for a non-array, the top-level count for depth 1, the full recursive count for a non-numeric depth, else the parents (when counted) plus 1 per scalar plus the count at depth-1 per array. |
| ArrayFunctions.CountDeepIsLeaves | lib/api/utilities/array-functions.php:43-54 | At depth <= 0 without parents, the count is the number of scalars at every level. |
| ArrayFunctions.CountDeepWithParents | lib/api/utilities/array-functions.php:43-54 | At depth <= 0 with parents, the count is `count(COUNT_RECURSIVE)` plus the number of scalars. |
| ArrayFunctions.CountParentsMonotone | lib/api/utilities/array-functions.php:43 | Leaving the parents out never gives a larger count. |
| ArrayFunctions.CountFlatPair | lib/api/utilities/array-functions.php:35-54 | A flat pair counts 2 at depth 1 and recursively, 4 at depth 2 with parents (each scalar is counted twice). |
| ArrayFunctions.InMultiArrayIff | lib/api/utilities/array-functions.php:70-84 | `beans_in_multi_array` is true iff the needle is a top-level value (strict when asked) or a value of a nested array at some path (always loose). |
| ArrayFunctions.InMultiArraySound | lib/api/utilities/array-functions.php:70-84 | A true answer has a path to a matching value. |
| ArrayFunctions.InMultiArrayComplete | lib/api/utilities/array-functions.php:70-84 | A matching value at any path gives a true answer. |
| ArrayFunctions.MultiArrayKeyExistsIff | lib/api/utilities/array-functions.php:96-110 | `beans_multi_array_key_exists` is true iff some array along some path, the top one included, has the key. |
| ArrayFunctions.KeyExistsSound | lib/api/utilities/array-functions.php:96-110 | A true answer has an array along a path that holds the key. |
| ArrayFunctions.KeyExistsComplete | lib/api/utilities/array-functions.php:96-110 | A key in any nested array gives a true answer. |
| ArrayFunctions.CloseAt | lib/api/utilities/array-functions.php:128 | The lazy `.*?}` ends at the first '}' with no line break before it, or fails. |
| ArrayFunctions.Needles | lib/api/utilities/array-functions.php:128 | The shortcode names `preg_match_all('#{(.*?)}#')` finds hold neither '}' nor a line break. |
| ArrayFunctions.ArrayShortcodes | lib/api/utilities/array-functions.php:126-151 | The nested loops compute `ShortcodesSpec`: each found `{needle}` is replaced by its dotted lookup when truthy. |
| ArrayFunctions.ShortcodesUnchanged | lib/api/utilities/array-functions.php:128-130 | Content without a '{' or without a '}' comes back unchanged. |
| ArrayFunctions.ResolvePlain | lib/api/utilities/array-functions.php:134-142 | A name without '.' resolves to `beans_get(name, haystack)`. |
| ArrayFunctions.ResolveDotted | lib/api/utilities/array-functions.php:134-142 | `a.b` looks b up in a's value when that is truthy, and in the top-level haystack otherwise. |
| ArrayFunctions.ShortcodeWhole | lib/api/utilities/array-functions.php:126-151 | `{name}` alone becomes its value when the value is truthy, and stays otherwise. |
| ArrayFunctions.ArrayReplaceRecursive | lib/api/utilities/array-functions.php:165-182 | The loop computes `ReplaceRecursive`: the base when either side is not an array, else the key-by-key fold. |
| ArrayFunctions.ReplaceStepEffect | lib/api/utilities/array-functions.php:173-177 | One pass sets the key to its replacement (merged when both sides hold arrays) and changes no other key. |
| ArrayFunctions.ReplaceRecursiveLookup | lib/api/utilities/array-functions.php:165-182 | A replacement key holds its replacement, merged recursively where both sides hold arrays; a base-only key keeps the base's value. |
| ArrayFunctions.ReplaceRecursiveKeys | lib/api/utilities/array-functions.php:165-182 | The result's keys are the base's keys plus the replacement keys. |
| ArrayFunctions.ReplaceRecursiveUnique | lib/api/utilities/array-functions.php:165-182 | Distinct keys in the base stay distinct. |
| ArrayFunctions.ArraySearch | lib/api/utilities/array-functions.php:197 | `array_search`: the first position of a loosely equal value, or none. |
| ArrayFunctions.RemoveFirstMatch | lib/api/utilities/array-functions.php:195-204 | The array is unchanged when nothing matches; otherwise exactly the first match's entry is removed. |
| ArrayFunctions.RemoveFirstMatchEffect | lib/api/utilities/array-functions.php:202 | The removed entry's key is gone, every other key keeps its value, keys stay distinct. |
| ArrayFunctions.RemoveArrayElement | lib/api/utilities/array-functions.php:195-204 | The by-reference array becomes `RemoveFirstMatch` of the old one, and that array is returned. |
| CssUrls.MatchAtSound | lib/api/compiler/class-beans-compiler.php:525 | Every reported match has the pattern's shape: "url", spaces, '(', spaces, lazy quotes, the group, quotes, spaces, ')'. |
| CssUrls.MatchAtComplete | lib/api/compiler/class-beans-compiler.php:525 | Wherever the pattern can match, a match is reported. |
| CssUrls.ReplaceUrlsIdentity | lib/api/compiler/class-beans-compiler.php:523-529 | A callback that returns the whole match leaves the CSS unchanged. |
| CssUrls.ReplaceUrlsNoUrl | lib/api/compiler/class-beans-compiler.php:523-529 | CSS without "url" (any case) is left unchanged. |
| CssUrls.ReplaceUrlsTruthy | lib/api/compiler/class-beans-compiler.php:523-529 | With a callback giving at least two characters per match, non-empty content stays truthy. |
| CssQuery.NormalizeName | lib/api/compiler/class-beans-compiler.php:468 | A `parse_str` variable name holds neither ' ' nor '.'. |
| CssQuery.QueryOfPlain | lib/api/compiler/class-beans-compiler.php:457-458 | The query of `base?q` (no '#') is q; a URL without '?' has none. |
| CssQuery.QueryParamNull | lib/api/compiler/class-beans-compiler.php:468 | A variable reads as null exactly when no pair of the query sets it. |
| CssQuery.QueryParamLast | lib/api/compiler/class-beans-compiler.php:468 | Of several pairs setting the variable, the last one gives its value. |
| CssMinify.StripCommentsChanges | lib/api/compiler/class-beans-compiler.php:582 | Comment stripping changes the text exactly when it holds a complete `/* ... */`. |
| CssMinify.CollapseNoAdjacentSpaces | lib/api/compiler/class-beans-compiler.php:583 | After `\s\s+` to ' ', no two white-space characters are adjacent. |
| CssMinify.CollapseVisible | lib/api/compiler/class-beans-compiler.php:583 | The collapse keeps the non-white-space characters, in order. |
| CssMinify.StripWhitespaceMinified | lib/api/compiler/class-beans-compiler.php:580-606 | CSS without white space, backslash, NUL, comment start or ";}" is a fixpoint of `strip_whitespace`. |
| CssMinify.ReplaceEachAbsent | lib/api/compiler/class-beans-compiler.php:603-605 | The array `str_replace` table changes nothing when no search string occurs. |
| CssMinify.StripTableKeepsLineFeeds | lib/api/compiler/class-beans-compiler.php:588-604 | The table removes the two-character text backslash-n, never a real line feed: no search string holds one, so no line feed is lost. |
| CssMinify.ReplaceAllKeeps | lib/api/compiler/class-beans-compiler.php:604 | Replacing a search string that lacks a character never lowers that character's count. |
| CompilerEnv.Hash | lib/api/compiler/class-beans-compiler.php:195-197 | `hash` is the first seven characters of the digest (all of it when shorter). |
| CompilerEnv.HashHasNoSeparators | lib/api/compiler/class-beans-compiler.php:195-197 | A hash of a hex digest holds neither '-' nor '.'. |
| CompilerEnv.InternalContentPrefersFile | lib/api/compiler/class-beans-compiler.php:364-380 | A fragment that names an existing file is read from it, whatever the URL-to-path mapping says. |
| CompilerEnv.RemoteProtocolRelative | lib/api/compiler/class-beans-compiler.php:396-416 | A "//" fragment is requested over http (not https), and its retry goes to the https form of that URL. |
| CompilerEnv.RemoteContent | lib/api/compiler/class-beans-compiler.php:389-423 | False for an empty fragment; otherwise false or a string. |
| CompilerEnv.RemoteContentFirst | lib/api/compiler/class-beans-compiler.php:403-422 | A good first answer's body is the content. |
| CompilerEnv.RemoteContentRetry | lib/api/compiler/class-beans-compiler.php:409-420 | After a bad answer for a non-https URL, the content comes from the https retry, or is false. |
| CompilerCache.LastIndexOf | lib/api/compiler/class-beans-compiler.php:804 | The position of the last occurrence, or none when the character is absent. |
| CompilerCache.PathInfoJoin | lib/api/compiler/class-beans-compiler.php:804-813 | `pathinfo` filename, '.', extension gives the name back. |
| CompilerCache.PathInfoOfName | lib/api/compiler/class-beans-compiler.php:183 | `<stem>.<ext>` splits back into stem and ext. |
| CompilerCache.ExplodeDashTwo | lib/api/compiler/class-beans-compiler.php:813 | `explode('-', a.'-'.b)` is `[a, b]` for dash-free a and b. |
| CompilerCache.CurrentFileKept | lib/api/compiler/class-beans-compiler.php:787-826 | The current `<hash>-<mtHash>.<ext>` is never deleted; a file differing only in the mtime hash is deleted unless it is a directory. |
| CompilerCache.PlainFileKept | lib/api/compiler/class-beans-compiler.php:808-810 | A `<hash>.<ext>` file without a mtime part is never deleted. |
| CompilerCache.Without | lib/api/compiler/class-beans-compiler.php:825 | After deletion a name is listed iff it was listed and not deleted. |
| CompilerCache.WithoutAppend | lib/api/compiler/class-beans-compiler.php:794-826 | Deletion goes name by name: a one-name listing keeps or loses that name, and a split listing is handled part by part, so the order of the kept names is the listing's. |
| CompilerCache.WithoutTwice | lib/api/compiler/class-beans-compiler.php:794-826 | Deleting a then b is deleting a and b. |
| CompilerCache.CacheDir.Unlink | lib/api/compiler/class-beans-compiler.php:825 | `unlink` removes that name from the directory and nothing else. |
| CompilerCache.FilemtimesContents | lib/api/compiler/class-beans-compiler.php:730-746 | The mtime map has an entry exactly for the non-function fragments whose path exists, under the fragment's index, holding its mtime; no other keys. |
| CompilerCache.FilemtimesEmpty | lib/api/compiler/class-beans-compiler.php:730-746 | Only functions or missing files give an empty map. |
| CompilerContent.UrlCallbackLong | lib/api/compiler/class-beans-compiler.php:540-571 | An absolute URI keeps the whole match; otherwise the result starts with `url("`. |
| CompilerContent.ExplodeUps | lib/api/compiler/class-beans-compiler.php:550 | `explode('../', '../'^k . rest)` is k empty pieces and rest. |
| CompilerContent.UrlCallbackRelative | lib/api/compiler/class-beans-compiler.php:547-570 | With k leading "../" the fragment's path goes through `dirname` k+1 times, and the rest is appended. |
| CompilerContent.DirnameOfChild | lib/api/compiler/class-beans-compiler.php:558 | `dirname(a.'/'.b) == a` for a leaf b. |
| CompilerContent.UrlCallbackSameDir | lib/api/compiler/class-beans-compiler.php:540-571 | For fragment `dir/name` a URI without "../" resolves against dir. |
| CompilerContent.UrlCallbackUpOne | lib/api/compiler/class-beans-compiler.php:540-571 | For fragment `parent/leaf/name`, "../rest" resolves against parent (the `hero.less` / `../images/hero-2.jpg` case of tests/phpunit/unit/api/compiler/beans-compiler/replaceCssUrl.php). |
| CompilerContent.MediaQueryWraps | lib/api/compiler/class-beans-compiler.php:450-471 | The content is unchanged iff the fragment is not a function with a truthy query mentioning `beans_compiler_media_query` (any case); otherwise it is `@media <value> {\n<content>\n}\n` with the value `parse_str` gives that variable. |
| CompilerContent.MediaQueryValue | lib/api/compiler/class-beans-compiler.php:466-470 | The condition is the URL-decoded value of the last query pair that sets `beans_compiler_media_query`. |
| CompilerContent.MediaQueryUnnamed | lib/api/compiler/class-beans-compiler.php:461-470 | When the case-insensitive test passes but no pair sets the variable exactly (as with `?BEANS_COMPILER_MEDIA_QUERY=print`), the block is `@media  {` with an empty condition. |
| CompilerContent.HtmlLikeMeaning | lib/api/compiler/class-beans-compiler.php:340 | `^\s*<` holds iff some '<' is preceded only by white space. |
| CompilerContent.UncallableArraySkipped | lib/api/compiler/class-beans-compiler.php:320-342 | An array that cannot be called counts as a function (lines 617-619) but yields false (lines 432-439), so it adds no piece. |
| CompilerContent.EmptyLocalFileFetchedRemotely | lib/api/compiler/class-beans-compiler.php:320-342 | A missing file whose URL maps to an empty file is fetched remotely instead (lines 364-380). |
| CompilerContent.PieceTruthy | lib/api/compiler/class-beans-compiler.php:340-351 | Every kept piece is a truthy string. |
| CompilerContent.PiecesAppend | lib/api/compiler/class-beans-compiler.php:317-352 | Pieces are taken fragment by fragment, so their relative order is the fragments' order. |
| CompilerContent.SkippedFragment | lib/api/compiler/class-beans-compiler.php:320-342 | A fragment that yields nothing can be dropped without changing the result. |
| CompilerContent.NothingCombined | tests/phpunit/unit/api/compiler/beans-compiler/combineFragments.php:72-91 | When no fragment yields a piece, empty list included, the combined content is "". |
| CompilerContent.GlueSnoc | lib/api/compiler/class-beans-compiler.php:351 | Appending a piece adds "\n\n" and the piece, with no leading separator. |
| CompilerContent.GlueEnds | lib/api/compiler/class-beans-compiler.php:351 | The joined text starts with the first piece and ends with the last. |
| Compiler.FixDependencies | lib/api/compiler/class-beans-compiler.php:703-707 | The configuration keeps distinct keys after the rename. |
| Compiler.InitConfigDefaults | lib/api/compiler/class-beans-compiler.php:702-721 | Each default key holds the caller's value when given, the default otherwise. |
| Compiler.InitConfigDependencies | lib/api/compiler/class-beans-compiler.php:702-721 | "dependencies" holds the "depedencies" value when set, else the caller's "dependencies", else false; "depedencies" is never set. |
| Compiler.EnqueueDropsDependencies | lib/api/compiler/class-beans-compiler.php:261-266 | As written, every enqueue after `init_config` passes null dependencies. |
| Compiler.EnqueueDropsDependenciesExample | lib/api/compiler/class-beans-compiler.php:261 | A style configured with `depedencies => 'jquery'` is enqueued with null dependencies. |
| Compiler.EnqueueFixedKeepsDependencies | lib/api/compiler/class-beans-compiler.php:704-707 | Reading "dependencies" passes on what the caller asked for. |
| Compiler.AddedFragmentsAppend | lib/api/compiler/class-beans-compiler.php:149-156 | Added list fragments come after the configured ones, in order. |
| Compiler.Extension | lib/api/compiler/class-beans-compiler.php:296-305 | "css" iff type is style, "js" iff type is script, nothing otherwise. |
| Compiler.CacheFileNameParts | lib/api/compiler/class-beans-compiler.php:178-197 | The name's extension is ext; its stem splits on '-' into the base hash alone (empty mtime map) or base hash and mtime hash. |
| Compiler.CacheFileNotStale | lib/api/compiler/class-beans-compiler.php:758-826 | The clean-up that `set_filename` runs never deletes the file it names. |
| CompilerEnv.HttpsRewrite | lib/api/compiler/class-beans-compiler.php:282-285 | A URL starting with "http://" starts with "https://" after the rewrite, followed by the rewritten rest. |
| Compiler.FormatContent | lib/api/compiler/class-beans-compiler.php:480-512 | Another type is unchanged; a script is minified iff not in dev mode and `minify_js`; a style is LESS-compiled iff format is less and stripped iff not in dev mode. |
| Compiler.FormatMinifiedStyle | lib/api/compiler/class-beans-compiler.php:480-499 | Already minified non-LESS CSS comes out unchanged. |
| Compiler.GoUp | lib/api/compiler/class-beans-compiler.php:557-559 | The loop applies `dirname` once per piece. |
| Compiler.Compiler.constructor | lib/api/compiler/class-beans-compiler.php:57-61 | The configuration is `init_config`'s result; dir and URL are the compiler's dir and URL plus the id. |
| Compiler.Compiler.SetFragments | lib/api/compiler/class-beans-compiler.php:149-156 | Truthy added fragments are `array_merge`d after the configured ones; nothing else changes. |
| Compiler.Compiler.GetFragmentsFilemtime | lib/api/compiler/class-beans-compiler.php:730-746 | The loop builds the map `Filemtimes` of the configured fragments. |
| Compiler.Compiler.RemoveModifiedFiles | lib/api/compiler/class-beans-compiler.php:787-826 | The directory afterwards is the old listing without exactly the stale entries after the first two; everything else is untouched. |
| Compiler.Compiler.GetNewHash | lib/api/compiler/class-beans-compiler.php:758-771 | An empty map gives the base hash and deletes nothing; otherwise `<hash>-<mtHash>` after the clean-up. |
| Compiler.Compiler.SetFilename | lib/api/compiler/class-beans-compiler.php:178-184 | "filename" becomes `CacheFileName` of the configuration before the key is set; the clean-up runs only for a non-empty map. |
| Compiler.Compiler.GetFilename | lib/api/compiler/class-beans-compiler.php:223-229 | "" exactly when no file name is set. |
| Compiler.Compiler.CacheFileExist | lib/api/compiler/class-beans-compiler.php:206-214 | True iff a file name is set and that path exists. |
| Compiler.Compiler.GetUrl | lib/api/compiler/class-beans-compiler.php:279-287 | The cache URL, '/', and the file name; on https sites every "http://" is replaced, which is `implode('https://', explode('http://', url))`. |
| Compiler.Compiler.ReplaceCssUrlCallback | lib/api/compiler/class-beans-compiler.php:540-571 | The method with its `dirname` loop computes `UrlCallback` for the current fragment. |
| Compiler.Compiler.CombineFragments | lib/api/compiler/class-beans-compiler.php:314-355 | The configuration is unchanged; the result is `format_content` of the kept pieces joined by "\n\n"; the current fragment ends at the last non-empty one. |

## Left out

- MD5 and `serialize`: `hash()` takes a digest function on values; only its seven-character prefix is modelled.
- The LESS compiler and JSMin are opaque string functions in `Env`.
- `wp_remote_get` is a function from URL to response. HTTP itself is not modelled.
- A `WP_Error` from the https retry (line 415) is read as "no good response", and the model returns false and carries on. In PHP 7 `isset( $request['body'] )` at line 418 then throws the Error "Cannot use object of type WP_Error as array", so `combine_fragments()` stops there.
- WordPress itself is not modelled: the filesystem object, `maybe_make_dir`, `cache_file`, `run_compiler`, `kill`, `report`, hook registration and the `wp_enqueue_*` calls. For `enqueue_file()` only the arguments it passes are modelled.
- `apply_filters` in `set_fragments()` is left out; only the `array_merge` of the added fragments is modelled.
- The `__get` accessor and the deprecated `set_filname` are left out.
- `is_dir`, `file_exists`, `filesize` and `filemtime` are uninterpreted functions.
- `is_dir( $item )` is applied to the bare name, relative to the working directory, as the source does.
- The directory listing (`CacheDir.names`) and `file_exists` are independent. Deleting a file does not change what `file_exists` reports.
- A `scandir` failure is not modelled; the listing is always a sequence.
- `parse_url()` is modelled only for its query component: after the first '?', before any '#'. Malformed URLs, for which it returns false, are not modelled.
- `parse_str()` array syntax in variable names (`a[]`, `a[b]`) is not modelled.
- Floats and objects are not PHP values in this model. Callables are the values `Env.isCallable` accepts.
- PHP's loose `==` is a parameter of the search functions.
- `beans_get` with a `false` haystack reads `$_GET` in Beans; the model reads it as empty.
- A fragment that is an array, when passed to `dirname` or `parse_url`, reads as the string "Array".
- CssMinify.StripWhitespace: the two regular expressions are modelled by their effect on the text. `/\*.*?\*/` removes each complete comment, and `\s\s+` collapses each run of two or more white-space characters into one space. PCRE's `\s` is taken to be space, tab, line feed, carriage return, vertical tab and form feed.
- CompilerEnv.Hash: the base hash is taken over the whole configuration as the code passes it. The digest function is free, so no collision-freedom is assumed.
- Compiler.Compiler.constructor: PHP arrays always have distinct keys, so the constructor requires `UniqueKeys` of the configuration it is given.
- The tests read the combined content from a `compiled_content` property. The code of `combine_fragments()` returns it, and the model follows the code.

## Findings

| source | as written | input that shows it | evidently intended | confidence | as-written member | corrected member |
|---|---|---|---|---|---|---|
| lib/api/compiler/class-beans-compiler.php:261-266 | `enqueue_file()` passes `$this->config['depedencies']`, a key that `init_config()` (lines 704-707) always removes | a style configured with `'depedencies' => 'jquery'`: `init_config` moves it to "dependencies", and the enqueue passes null | pass `$this->config['dependencies']`, where `init_config` keeps the caller's value | high (not executed) | Compiler.EnqueueDropsDependenciesExample | Compiler.EnqueueFixedKeepsDependencies |
