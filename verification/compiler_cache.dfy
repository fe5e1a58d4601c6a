/**
 * The cache side of the compiler: the name of a compiled file, the
 * modification-time map that makes the name change when a fragment changes,
 * and which files of the cache directory `remove_modified_files()` deletes.
 */
module CompilerCache {
  import opened PhpValues
  import opened PhpStrings
  import opened CompilerEnv

  // ---------------------------------------------------------------------------
  // pathinfo() on a file name
  // ---------------------------------------------------------------------------

  /** The position of the last c in s. */
  function LastIndexOf(s: string, c: char): (r: Option<nat>)
    ensures r.Some? ==> r.value < |s| && s[r.value] == c && c !in s[r.value + 1..]
    ensures r.None? ==> c !in s
    decreases |s|
  {
    if s == [] then None
    else if s[|s| - 1] == c then Some(|s| - 1)
    else
      match LastIndexOf(s[..|s| - 1], c)
      case None => assert s == s[..|s| - 1] + [s[|s| - 1]]; None
      case Some(i) => assert s[i + 1..] == s[..|s| - 1][i + 1..] + [s[|s| - 1]]; Some(i)
  }

  /** `pathinfo( $name, PATHINFO_EXTENSION )` for a name without '/': what follows the last '.', or "". */
  function PathExtension(name: string): string {
    match LastIndexOf(name, '.')
    case Some(i) => name[i + 1..]
    case None => ""
  }

  /** `pathinfo( $name, PATHINFO_FILENAME )` for a name without '/': what precedes the last '.', or the whole name. */
  function PathFilename(name: string): string {
    match LastIndexOf(name, '.')
    case Some(i) => name[..i]
    case None => name
  }

  /** Splitting a name at its last '.' and joining the halves with a '.' gives the name back. */
  lemma PathInfoJoin(name: string)
    requires '.' in name
    ensures PathFilename(name) + "." + PathExtension(name) == name
  {
    var i := LastIndexOf(name, '.').value;
    assert name == name[..i] + [name[i]] + name[i + 1..];
  }

  lemma {:induction false} LastIndexOfAt(a: string, c: char, b: string)
    requires c !in b
    ensures LastIndexOf(a + [c] + b, c) == Some(|a|)
    decreases |b|
  {
    var s := a + [c] + b;
    if b != [] {
      var b' := b[..|b| - 1];
      assert s[|s| - 1] == b[|b| - 1];
      assert s[..|s| - 1] == a + [c] + b';
      LastIndexOfAt(a, c, b');
    }
  }

  /** The name `set_filename()` gives a compiled file splits back into its stem and its extension. */
  lemma PathInfoOfName(stem: string, ext: string)
    requires '.' !in ext
    ensures PathExtension(stem + "." + ext) == ext
    ensures PathFilename(stem + "." + ext) == stem
  {
    LastIndexOfAt(stem, '.', ext);
    var s := stem + "." + ext;
    assert s == stem + ['.'] + ext;
    assert s[|stem| + 1..] == ext;
    assert s[..|stem|] == stem;
  }

  // ---------------------------------------------------------------------------
  // Explode on '-'
  // ---------------------------------------------------------------------------

  lemma DashOccurs(s: string, j: int)
    ensures OccursAt(s, "-", j) <==> 0 <= j < |s| && s[j] == '-'
  {
    if 0 <= j < |s| {
      assert s[j..j + 1] == [s[j]];
    }
  }

  lemma NoDashAbsent(s: string)
    requires '-' !in s
    ensures !Contains(s, "-")
  {
    match IndexFrom(s, "-", 0)
    case None =>
    case Some(i) => DashOccurs(s, i);
  }

  lemma ExplodeDashTwo(a: string, b: string)
    requires '-' !in a && '-' !in b
    ensures Explode(a + "-" + b, "-") == [a, b]
  {
    var s := a + "-" + b;
    DashOccurs(s, |a|);
    forall j | 0 <= j < |a| ensures !OccursAt(s, "-", j) {
      DashOccurs(s, j);
      assert s[j] == a[j];
    }
    var r := IndexFrom(s, "-", 0);
    assert r == Some(|a|);
    assert s[..|a|] == a && s[|a| + 1..] == b;
    NoDashAbsent(b);
    ExplodeAbsent(b, "-");
  }

  // ---------------------------------------------------------------------------
  // remove_modified_files(): which directory entries are stale
  // ---------------------------------------------------------------------------

  /**
   * An entry of the cache directory that `remove_modified_files( $hash, $mtHash )`
   * deletes: not a directory, of the compiled file's extension, with a '-' in its
   * name, whose first '-'-separated part of the stem is the base hash and whose
   * second part is not the modification-time hash (a missing second part reads
   * as null, which differs from any hash). The extension is None when the type is
   * neither style nor script; pathinfo() always gives a string, so nothing matches.
   */
  predicate IsStale(isDir: string -> bool, name: string, hash: string, mtHash: string, ext: Option<string>) {
    && !isDir(name)
    && ext == Some(PathExtension(name))
    && Contains(name, "-")
    && var parts := Explode(PathFilename(name), "-");
       parts[0] == hash && !(|parts| > 1 && parts[1] == mtHash)
  }

  /** The entries `scandir()` lists after `unset( $items[0], $items[1] )`. */
  function Listed(names: seq<string>): seq<string> {
    if |names| <= 2 then [] else names[2..]
  }

  ghost function StaleSet(isDir: string -> bool, items: seq<string>, hash: string, mtHash: string, ext: Option<string>): set<string> {
    set n | n in items && IsStale(isDir, n, hash, mtHash, ext)
  }

  /**
   * The file `set_filename()` names, `<hash>-<mtHash>.<ext>`, is never deleted by the
   * clean-up run with the same hashes; a file that differs from it only in the
   * modification-time hash is deleted unless it is a directory.
   */
  lemma CurrentFileKept(isDir: string -> bool, hash: string, mtHash: string, other: string, ext: string)
    requires '-' !in hash && '.' !in hash && '-' !in mtHash && '.' !in mtHash
    requires '-' !in other && '.' !in other && '.' !in ext
    ensures !IsStale(isDir, hash + "-" + mtHash + "." + ext, hash, mtHash, Some(ext))
    ensures IsStale(isDir, hash + "-" + other + "." + ext, hash, mtHash, Some(ext)) <==>
              other != mtHash && !isDir(hash + "-" + other + "." + ext)
  {
    NameParts(hash, mtHash, ext);
    NameParts(hash, other, ext);
  }

  lemma NameParts(hash: string, mt: string, ext: string)
    requires '-' !in hash && '-' !in mt && '.' !in ext
    ensures var name := hash + "-" + mt + "." + ext;
            && PathExtension(name) == ext
            && Explode(PathFilename(name), "-") == [hash, mt]
            && Contains(name, "-")
  {
    var name := hash + "-" + mt + "." + ext;
    PathInfoOfName(hash + "-" + mt, ext);
    ExplodeDashTwo(hash, mt);
    DashOccurs(name, |hash|);
  }

  /** A file with no modification-time part, `<hash>.<ext>`, is not deleted. */
  lemma PlainFileKept(isDir: string -> bool, hash: string, mtHash: string, ext: string)
    requires '-' !in hash && '.' !in ext && '-' !in ext
    ensures !IsStale(isDir, hash + "." + ext, hash, mtHash, Some(ext))
  {
    var name := hash + "." + ext;
    forall j | true ensures !OccursAt(name, "-", j) {
      DashOccurs(name, j);
      if 0 <= j < |name| {
        assert j < |hash| ==> name[j] == hash[j];
        assert j > |hash| ==> name[j] == ext[j - |hash| - 1];
      }
    }
  }

  // ---------------------------------------------------------------------------
  // The cache directory
  // ---------------------------------------------------------------------------

  /** The names left after deleting the given ones, in their order. */
  function Without(names: seq<string>, gone: set<string>): (r: seq<string>)
    ensures |r| <= |names|
    ensures forall n :: n in r <==> n in names && n !in gone
    decreases |names|
  {
    if names == [] then []
    else
      var r := Without(names[..|names| - 1], gone);
      var last := names[|names| - 1];
      assert names == names[..|names| - 1] + [last];
      if last in gone then r else r + [last]
  }

  /** Deletion works name by name and keeps the order: a one-name listing, and a listing split in two. */
  lemma {:induction false} WithoutAppend(a: seq<string>, b: seq<string>, gone: set<string>)
    ensures Without(a + b, gone) == Without(a, gone) + Without(b, gone)
    ensures |a| == 1 ==> Without(a, gone) == if a[0] in gone then [] else a
    decreases |b|
  {
    if |a| == 1 {
      assert a[..0] == [];
    }
    if b == [] {
      assert a + b == a;
    } else {
      var front := b[..|b| - 1];
      var last := b[|b| - 1];
      WithoutAppend(a, front, gone);
      assert (a + b)[..|a + b| - 1] == a + front;
      assert (a + b)[|a + b| - 1] == last;
    }
  }

  lemma {:induction false} WithoutTwice(names: seq<string>, a: set<string>, b: set<string>)
    ensures Without(Without(names, a), b) == Without(names, a + b)
    decreases |names|
  {
    if names != [] {
      var front := names[..|names| - 1];
      var last := names[|names| - 1];
      WithoutTwice(front, a, b);
      var w := Without(front, a);
      if last !in a {
        assert (w + [last])[..|w + [last]| - 1] == w;
      }
    }
  }

  /** A directory, as the sequence of names `scandir()` lists, "." and ".." first. */
  class CacheDir {
    var names: seq<string>

    constructor(names0: seq<string>)
      ensures names == names0
    {
      names := names0;
    }

    /** `@unlink( $dir . '/' . $name )`. */
    method Unlink(name: string)
      modifies this
      ensures names == Without(old(names), {name})
    {
      names := Without(names, {name});
    }
  }

  // ---------------------------------------------------------------------------
  // get_fragments_filemtime()
  // ---------------------------------------------------------------------------

  /** A fragment gets an entry in the modification-time map: it is not a function and its path exists. */
  predicate HasMtime(env: Env, fragment: Value) {
    !IsFunction(env, fragment) && env.fileExists(ToStr(fragment))
  }

  /** The modification-time map of the first fragments, keyed by each fragment's index. */
  function Filemtimes(env: Env, fragments: Entries): Entries
    decreases |fragments|
  {
    if fragments == [] then []
    else
      var (index, fragment) := fragments[|fragments| - 1];
      var m := Filemtimes(env, fragments[..|fragments| - 1]);
      if HasMtime(env, fragment) then Put(m, index, env.fileMtime(ToStr(fragment))) else m
  }

  /**
   * The map has an entry for exactly the fragments that are neither functions nor
   * missing files, under the fragment's index, holding that file's modification time.
   */
  lemma {:induction false} FilemtimesContents(env: Env, fragments: Entries)
    requires UniqueKeys(fragments)
    ensures UniqueKeys(Filemtimes(env, fragments))
    ensures forall i :: 0 <= i < |fragments| ==>
              Lookup(Filemtimes(env, fragments), fragments[i].0)
                == if HasMtime(env, fragments[i].1) then Some(env.fileMtime(ToStr(fragments[i].1))) else None
    ensures forall k :: k !in KeySet(fragments) ==> Lookup(Filemtimes(env, fragments), k) == None
    decreases |fragments|
  {
    if fragments != [] {
      var front := fragments[..|fragments| - 1];
      var (index, fragment) := fragments[|fragments| - 1];
      assert UniqueKeys(front);
      FilemtimesContents(env, front);
      assert index !in KeySet(front) by {
        forall j | 0 <= j < |front| ensures front[j].0 != index {
          assert front[j] == fragments[j];
        }
      }
      forall i | 0 <= i < |front| ensures front[i].0 != index && fragments[i] == front[i] {
        assert fragments[i] == front[i];
      }
      forall k | k !in KeySet(fragments) ensures k !in KeySet(front) && k != index {
        forall j | 0 <= j < |front| ensures front[j].0 != k {
          assert front[j] == fragments[j];
        }
        assert fragments[|fragments| - 1].0 == index;
      }
    }
  }

  /** A list holding only functions, or only missing files, gives an empty map: the name gets no mtime part. */
  lemma {:induction false} FilemtimesEmpty(env: Env, fragments: Entries)
    requires forall i :: 0 <= i < |fragments| ==> !HasMtime(env, fragments[i].1)
    ensures Filemtimes(env, fragments) == []
    decreases |fragments|
  {
    if fragments != [] {
      var front := fragments[..|fragments| - 1];
      assert forall i :: 0 <= i < |front| ==> front[i] == fragments[i];
      FilemtimesEmpty(env, front);
    }
  }
}
