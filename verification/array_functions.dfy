/**
 * Beans' array helpers (lib/api/utilities/array-functions.php): the
 * depth-limited recursive count, the deep value and key searches, `{a.b}`
 * shortcode substitution, the `array_replace_recursive` fallback and the
 * in-place removal of the first matching element.
 *
 * PHP's loose comparison `==` is a parameter `looseEq`: it depends on PHP's
 * type-juggling table, which is not modelled; the strict comparison `===` is
 * structural equality of values.
 */
module ArrayFunctions {
  import opened PhpValues
  import opened PhpStrings

  // ---------------------------------------------------------------------------
  // beans_count_recursive
  // ---------------------------------------------------------------------------

  /** The `$depth` argument: `false` (the default) or another non-numeric value, or an integer. */
  datatype Depth = NonNumeric | Numeric(n: int)

  /** `count( $a, COUNT_RECURSIVE )`: the elements of the array at every level. */
  function FullCount(v: Value): nat
    decreases v, 1
  {
    match v
    case Arr(es) => |es| + FullCountList(v, |es|)
    case _ => 0
  }

  function FullCountList(v: Value, k: nat): nat
    requires v.Arr? && k <= |v.entries|
    decreases v, 0, k
  {
    if k == 0 then 0 else FullCountList(v, k - 1) + FullCount(v.entries[k - 1].1)
  }

  /** The non-array elements of an array, at every level. */
  function Leaves(v: Value): nat
    decreases v, 1
  {
    match v
    case Arr(es) => LeavesList(v, |es|)
    case _ => 0
  }

  function LeavesList(v: Value, k: nat): nat
    requires v.Arr? && k <= |v.entries|
    decreases v, 0, k
  {
    if k == 0 then 0
    else
      var c := v.entries[k - 1].1;
      LeavesList(v, k - 1) + (if c.Arr? then Leaves(c) else 1)
  }

  /** What `beans_count_recursive( $v, $depth, $count_parent )` returns. */
  function CountSpec(v: Value, d: Depth, countParent: bool): nat
    decreases v, 1
  {
    if !v.Arr? then 0
    else if d == Numeric(1) then |v.entries|
    else if d.NonNumeric? then FullCount(v)
    else (if countParent then |v.entries| else 0) + CountEntries(v, |v.entries|, d.n - 1, countParent)
  }

  /** The loop's contribution of the first k elements: 1 per scalar, the count at depth n per array. */
  function CountEntries(v: Value, k: nat, n: int, countParent: bool): nat
    requires v.Arr? && k <= |v.entries|
    decreases v, 0, k
  {
    if k == 0 then 0
    else
      var c := v.entries[k - 1].1;
      CountEntries(v, k - 1, n, countParent) + (if c.Arr? then CountSpec(c, Numeric(n), countParent) else 1)
  }

  /** `beans_count_recursive()`. */
  method CountRecursive(v: Value, d: Depth, countParent: bool) returns (count: nat)
    ensures count == CountSpec(v, d, countParent)
    decreases v
  {
    if !v.Arr? {
      return 0;
    }
    if d == Numeric(1) {
      return |v.entries|;
    }
    if d.NonNumeric? {
      return FullCount(v);
    }
    count := if countParent then |v.entries| else 0;
    var i := 0;
    while i < |v.entries|
      invariant 0 <= i <= |v.entries|
      invariant count == (if countParent then |v.entries| else 0) + CountEntries(v, i, d.n - 1, countParent)
    {
      var child := v.entries[i].1;
      if child.Arr? {
        var c := CountRecursive(child, Numeric(d.n - 1), countParent);
        count := count + c;
      } else {
        count := count + 1;
      }
      i := i + 1;
    }
  }

  /**
   * At a depth that never reaches 1 (zero or negative) and without the parents,
   * the count is the number of scalar elements at every level.
   */
  lemma {:induction false} CountDeepIsLeaves(v: Value, n: int)
    requires v.Arr? && n <= 0
    ensures CountSpec(v, Numeric(n), false) == Leaves(v)
    decreases v, 1
  {
    CountDeepIsLeavesList(v, |v.entries|, n);
  }

  lemma {:induction false} CountDeepIsLeavesList(v: Value, k: nat, n: int)
    requires v.Arr? && k <= |v.entries| && n <= 0
    ensures CountEntries(v, k, n - 1, false) == LeavesList(v, k)
    decreases v, 0, k
  {
    if k > 0 {
      CountDeepIsLeavesList(v, k - 1, n);
      var c := v.entries[k - 1].1;
      if c.Arr? {
        CountDeepIsLeaves(c, n - 1);
      }
    }
  }

  /**
   * At such a depth, counting the parents as well gives the full recursive count
   * plus the scalars once more: every scalar is counted by `count()` of its array
   * and again by the loop.
   */
  lemma {:induction false} CountDeepWithParents(v: Value, n: int)
    requires v.Arr? && n <= 0
    ensures CountSpec(v, Numeric(n), true) == FullCount(v) + Leaves(v)
    decreases v, 1
  {
    CountDeepWithParentsList(v, |v.entries|, n);
  }

  lemma {:induction false} CountDeepWithParentsList(v: Value, k: nat, n: int)
    requires v.Arr? && k <= |v.entries| && n <= 0
    ensures CountEntries(v, k, n - 1, true) == FullCountList(v, k) + LeavesList(v, k)
    decreases v, 0, k
  {
    if k > 0 {
      CountDeepWithParentsList(v, k - 1, n);
      var c := v.entries[k - 1].1;
      if c.Arr? {
        CountDeepWithParents(c, n - 1);
      }
    }
  }

  /** Leaving the parents out never gives a larger count. */
  lemma {:induction false} CountParentsMonotone(v: Value, d: Depth)
    ensures CountSpec(v, d, false) <= CountSpec(v, d, true)
    decreases v, 1
  {
    if v.Arr? && d.Numeric? && d.n != 1 {
      CountParentsMonotoneList(v, |v.entries|, d.n - 1);
    }
  }

  lemma {:induction false} CountParentsMonotoneList(v: Value, k: nat, n: int)
    requires v.Arr? && k <= |v.entries|
    ensures CountEntries(v, k, n, false) <= CountEntries(v, k, n, true)
    decreases v, 0, k
  {
    if k > 0 {
      CountParentsMonotoneList(v, k - 1, n);
      var c := v.entries[k - 1].1;
      if c.Arr? {
        CountParentsMonotone(c, Numeric(n));
      }
    }
  }

  /** A flat list of two scalars counts 2 at depth 1 or recursively, but 4 at depth 2 with parents. */
  lemma CountFlatPair()
    ensures var v := Arr([(IntKey(0), Int(1)), (IntKey(1), Int(2))]);
            && CountSpec(v, Numeric(1), true) == 2
            && CountSpec(v, NonNumeric, true) == 2
            && CountSpec(v, Numeric(2), true) == 4
            && CountSpec(v, Numeric(2), false) == 2
  {
    var v := Arr([(IntKey(0), Int(1)), (IntKey(1), Int(2))]);
    assert FullCountList(v, 2) == 0;
    assert CountEntries(v, 2, 1, true) == 2;
    assert CountEntries(v, 2, 1, false) == 2;
  }

  // ---------------------------------------------------------------------------
  // Paths into nested arrays (the reference for the deep searches)
  // ---------------------------------------------------------------------------

  /** The value reached by following a path of entry positions, one per level. */
  function Reach(v: Value, path: seq<nat>): Option<Value>
    decreases |path|
  {
    if path == [] then Some(v)
    else if v.Arr? && path[0] < |v.entries| then Reach(v.entries[path[0]].1, path[1..])
    else None
  }

  lemma ReachCons(v: Value, i: nat, q: seq<nat>)
    requires v.Arr? && i < |v.entries|
    ensures Reach(v, [i] + q) == Reach(v.entries[i].1, q)
  {
    assert ([i] + q)[1..] == q;
  }

  // ---------------------------------------------------------------------------
  // beans_in_multi_array
  // ---------------------------------------------------------------------------

  /** The comparison `in_array` uses: `===` when strict, `==` otherwise. */
  predicate Matches(needle: Value, x: Value, strict: bool, looseEq: (Value, Value) -> bool) {
    if strict then x == needle else looseEq(needle, x)
  }

  /** `in_array( $needle, $es, $strict )`. */
  predicate InArray(needle: Value, es: Entries, strict: bool, looseEq: (Value, Value) -> bool) {
    exists i :: 0 <= i < |es| && Matches(needle, es[i].1, strict, looseEq)
  }

  /** `beans_in_multi_array( $needle, $haystack, $strict )`; the haystack is declared `array`. */
  predicate InMultiArray(needle: Value, haystack: Value, strict: bool, looseEq: (Value, Value) -> bool)
    requires haystack.Arr?
    decreases haystack, 1
  {
    InArray(needle, haystack.entries, strict, looseEq) || InNested(needle, haystack, 0, looseEq)
  }

  /** The foreach from position k on: some array element holds the needle (searched non-strictly). */
  predicate InNested(needle: Value, haystack: Value, k: nat, looseEq: (Value, Value) -> bool)
    requires haystack.Arr? && k <= |haystack.entries|
    decreases haystack, 0, |haystack.entries| - k
  {
    k < |haystack.entries|
    && (|| (haystack.entries[k].1.Arr? && InMultiArray(needle, haystack.entries[k].1, false, looseEq))
        || InNested(needle, haystack, k + 1, looseEq))
  }

  /**
   * The needle is found at a path: a top-level value compared with `$strict`, or a
   * value at any deeper level compared loosely.
   */
  ghost predicate FoundAt(needle: Value, haystack: Value, strict: bool, looseEq: (Value, Value) -> bool, path: seq<nat>) {
    |path| >= 1 && Reach(haystack, path).Some?
    && Matches(needle, Reach(haystack, path).value, strict && |path| == 1, looseEq)
  }

  lemma {:induction false} InMultiArraySound(needle: Value, haystack: Value, strict: bool, looseEq: (Value, Value) -> bool)
    requires haystack.Arr? && InMultiArray(needle, haystack, strict, looseEq)
    ensures exists path :: FoundAt(needle, haystack, strict, looseEq, path)
    decreases haystack, 1
  {
    if InArray(needle, haystack.entries, strict, looseEq) {
      var i :| 0 <= i < |haystack.entries| && Matches(needle, haystack.entries[i].1, strict, looseEq);
      ReachCons(haystack, i, []);
      assert FoundAt(needle, haystack, strict, looseEq, [i]);
    } else {
      var p := InNestedSound(needle, haystack, 0, looseEq);
      assert FoundAt(needle, haystack, strict, looseEq, p);
    }
  }

  lemma {:induction false} InNestedSound(needle: Value, haystack: Value, k: nat, looseEq: (Value, Value) -> bool)
      returns (path: seq<nat>)
    requires haystack.Arr? && k <= |haystack.entries| && InNested(needle, haystack, k, looseEq)
    ensures |path| >= 2 && FoundAt(needle, haystack, false, looseEq, path)
    decreases haystack, 0, |haystack.entries| - k
  {
    var c := haystack.entries[k].1;
    if c.Arr? && InMultiArray(needle, c, false, looseEq) {
      InMultiArraySound(needle, c, false, looseEq);
      var q :| FoundAt(needle, c, false, looseEq, q);
      ReachCons(haystack, k, q);
      path := [k] + q;
    } else {
      path := InNestedSound(needle, haystack, k + 1, looseEq);
    }
  }

  lemma {:induction false} InNestedAt(needle: Value, haystack: Value, k: nat, i: nat, looseEq: (Value, Value) -> bool)
    requires haystack.Arr? && k <= i < |haystack.entries|
    requires haystack.entries[i].1.Arr? && InMultiArray(needle, haystack.entries[i].1, false, looseEq)
    ensures InNested(needle, haystack, k, looseEq)
    decreases i - k
  {
    if k < i {
      InNestedAt(needle, haystack, k + 1, i, looseEq);
    }
  }

  lemma {:induction false} InMultiArrayComplete(needle: Value, haystack: Value, strict: bool, looseEq: (Value, Value) -> bool, path: seq<nat>)
    requires haystack.Arr? && FoundAt(needle, haystack, strict, looseEq, path)
    ensures InMultiArray(needle, haystack, strict, looseEq)
    decreases |path|
  {
    var i := path[0];
    var c := haystack.entries[i].1;
    var q := path[1..];
    ReachCons(haystack, i, q);
    assert path == [i] + q;
    if q == [] {
      assert Matches(needle, haystack.entries[i].1, strict, looseEq);
    } else {
      assert c.Arr?;
      assert FoundAt(needle, c, false, looseEq, q);
      InMultiArrayComplete(needle, c, false, looseEq, q);
      InNestedAt(needle, haystack, 0, i, looseEq);
    }
  }

  /** `beans_in_multi_array` is true exactly when the needle is found at some path. */
  lemma InMultiArrayIff(needle: Value, haystack: Value, strict: bool, looseEq: (Value, Value) -> bool)
    requires haystack.Arr?
    ensures InMultiArray(needle, haystack, strict, looseEq) <==> exists path :: FoundAt(needle, haystack, strict, looseEq, path)
  {
    if InMultiArray(needle, haystack, strict, looseEq) {
      InMultiArraySound(needle, haystack, strict, looseEq);
    }
    if exists path :: FoundAt(needle, haystack, strict, looseEq, path) {
      var path :| FoundAt(needle, haystack, strict, looseEq, path);
      InMultiArrayComplete(needle, haystack, strict, looseEq, path);
    }
  }

  // ---------------------------------------------------------------------------
  // beans_multi_array_key_exists
  // ---------------------------------------------------------------------------

  /** `beans_multi_array_key_exists( $needle, $haystack )`, the needle already converted to a key. */
  predicate MultiArrayKeyExists(key: Key, haystack: Value)
    requires haystack.Arr?
    decreases haystack, 1
  {
    key in KeySet(haystack.entries) || KeyInNested(key, haystack, 0)
  }

  predicate KeyInNested(key: Key, haystack: Value, k: nat)
    requires haystack.Arr? && k <= |haystack.entries|
    decreases haystack, 0, |haystack.entries| - k
  {
    k < |haystack.entries|
    && (|| (haystack.entries[k].1.Arr? && MultiArrayKeyExists(key, haystack.entries[k].1))
        || KeyInNested(key, haystack, k + 1))
  }

  /** The array reached by the path, at any level including the top, has the key. */
  ghost predicate KeyFoundAt(key: Key, haystack: Value, path: seq<nat>) {
    Reach(haystack, path).Some? && Reach(haystack, path).value.Arr?
    && key in KeySet(Reach(haystack, path).value.entries)
  }

  lemma {:induction false} KeyExistsSound(key: Key, haystack: Value)
    requires haystack.Arr? && MultiArrayKeyExists(key, haystack)
    ensures exists path :: KeyFoundAt(key, haystack, path)
    decreases haystack, 1
  {
    if key in KeySet(haystack.entries) {
      assert KeyFoundAt(key, haystack, []);
    } else {
      var p := KeyInNestedSound(key, haystack, 0);
      assert KeyFoundAt(key, haystack, p);
    }
  }

  lemma {:induction false} KeyInNestedSound(key: Key, haystack: Value, k: nat) returns (path: seq<nat>)
    requires haystack.Arr? && k <= |haystack.entries| && KeyInNested(key, haystack, k)
    ensures KeyFoundAt(key, haystack, path)
    decreases haystack, 0, |haystack.entries| - k
  {
    var c := haystack.entries[k].1;
    if c.Arr? && MultiArrayKeyExists(key, c) {
      KeyExistsSound(key, c);
      var q :| KeyFoundAt(key, c, q);
      ReachCons(haystack, k, q);
      path := [k] + q;
    } else {
      path := KeyInNestedSound(key, haystack, k + 1);
    }
  }

  lemma {:induction false} KeyInNestedAt(key: Key, haystack: Value, k: nat, i: nat)
    requires haystack.Arr? && k <= i < |haystack.entries|
    requires haystack.entries[i].1.Arr? && MultiArrayKeyExists(key, haystack.entries[i].1)
    ensures KeyInNested(key, haystack, k)
    decreases i - k
  {
    if k < i {
      KeyInNestedAt(key, haystack, k + 1, i);
    }
  }

  lemma {:induction false} KeyExistsComplete(key: Key, haystack: Value, path: seq<nat>)
    requires haystack.Arr? && KeyFoundAt(key, haystack, path)
    ensures MultiArrayKeyExists(key, haystack)
    decreases |path|
  {
    if path != [] {
      var i := path[0];
      var c := haystack.entries[i].1;
      var q := path[1..];
      ReachCons(haystack, i, q);
      assert path == [i] + q;
      assert KeyFoundAt(key, c, q);
      if q != [] {
        assert c.Arr?;
      }
      KeyExistsComplete(key, c, q);
      KeyInNestedAt(key, haystack, 0, i);
    }
  }

  /** `beans_multi_array_key_exists` is true exactly when some array along some path has the key. */
  lemma MultiArrayKeyExistsIff(key: Key, haystack: Value)
    requires haystack.Arr?
    ensures MultiArrayKeyExists(key, haystack) <==> exists path :: KeyFoundAt(key, haystack, path)
  {
    if MultiArrayKeyExists(key, haystack) {
      KeyExistsSound(key, haystack);
    }
    if exists path :: KeyFoundAt(key, haystack, path) {
      var path :| KeyFoundAt(key, haystack, path);
      KeyExistsComplete(key, haystack, path);
    }
  }

  // ---------------------------------------------------------------------------
  // beans_array_shortcodes
  // ---------------------------------------------------------------------------

  /**
   * The first `}` at or after position i, provided no line feed comes first: where the
   * lazy `(.*?)}` of the pattern stops (`.` does not match a line feed).
   */
  function CloseAt(s: string, i: nat): (r: Option<nat>)
    ensures r.Some? ==> i <= r.value < |s| && s[r.value] == '}'
    ensures r.Some? ==> forall j :: i <= j < r.value ==> s[j] != '}' && s[j] != '\n'
    ensures r.None? ==> forall j :: i <= j < |s| && s[j] == '}' ==> exists m :: i <= m < j && s[m] == '\n'
    decreases |s| - i
  {
    if i >= |s| then None
    else if s[i] == '}' then Some(i)
    else if s[i] == '\n' then None
    else CloseAt(s, i + 1)
  }

  /** The first groups of the matches `preg_match_all( '#{(.*?)}#', $s )` finds, in order. */
  function Needles(s: string): (r: seq<string>)
    ensures forall k :: 0 <= k < |r| ==> '}' !in r[k] && '\n' !in r[k]
    decreases |s|
  {
    if s == [] then []
    else if s[0] == '{' then
      match CloseAt(s, 1)
      case Some(j) => [s[1..j]] + Needles(s[j + 1..])
      case None => Needles(s[1..])
    else Needles(s[1..])
  }

  /** Without a `{`, or without a `}`, there is no shortcode. */
  lemma {:induction false} NeedlesNone(s: string)
    requires '{' !in s || '}' !in s
    ensures Needles(s) == []
    decreases |s|
  {
    if s != [] {
      assert '{' !in s[1..] || '}' !in s[1..];
      if s[0] == '{' {
        assert CloseAt(s, 1).None?;
      }
      NeedlesNone(s[1..]);
    }
  }

  /** The value the sub-keys lead to: each step reads the previous value if truthy, else the haystack. */
  function ResolveKeys(subKeys: seq<string>, haystack: Value): Value
    decreases |subKeys|
  {
    if subKeys == [] then Bool(false)
    else
      var previous := ResolveKeys(subKeys[..|subKeys| - 1], haystack);
      var search := if Truthy(previous) then previous else haystack;
      BeansGet(StrToKey(subKeys[|subKeys| - 1]), search, Null)
  }

  /** The value a shortcode `{needle}` stands for. */
  function Resolve(needle: string, haystack: Value): Value {
    ResolveKeys(Explode(needle, "."), haystack)
  }

  /** One pass of the outer loop: the shortcode is replaced when its value is truthy. */
  function ApplyShortcode(content: string, needle: string, haystack: Value): string {
    var value := Resolve(needle, haystack);
    if Truthy(value) then ReplaceAll(content, "{" + needle + "}", ToStr(value)) else content
  }

  function ApplyShortcodes(content: string, needles: seq<string>, haystack: Value): string
    decreases |needles|
  {
    if needles == [] then content
    else ApplyShortcode(ApplyShortcodes(content, needles[..|needles| - 1], haystack), needles[|needles| - 1], haystack)
  }

  /** What `beans_array_shortcodes( $content, $haystack )` returns. */
  function ShortcodesSpec(content: string, haystack: Value): string {
    ApplyShortcodes(content, Needles(content), haystack)
  }

  /** `beans_array_shortcodes()`. */
  method ArrayShortcodes(content: string, haystack: Value) returns (result: string)
    requires haystack.Arr?
    ensures result == ShortcodesSpec(content, haystack)
  {
    var matches := Needles(content);
    if matches == [] {
      return content;
    }
    result := content;
    var i := 0;
    while i < |matches|
      invariant 0 <= i <= |matches|
      invariant result == ApplyShortcodes(content, matches[..i], haystack)
    {
      var needle := matches[i];
      var subKeys := Explode(needle, ".");
      var value := Bool(false);
      var j := 0;
      while j < |subKeys|
        invariant 0 <= j <= |subKeys|
        invariant value == ResolveKeys(subKeys[..j], haystack)
      {
        assert subKeys[..j + 1][..j] == subKeys[..j];
        var search := if Truthy(value) then value else haystack;
        value := BeansGet(StrToKey(subKeys[j]), search, Null);
        j := j + 1;
      }
      assert subKeys[..j] == subKeys;
      if Truthy(value) {
        result := ReplaceAll(result, "{" + needle + "}", ToStr(value));
      }
      assert matches[..i + 1][..i] == matches[..i];
      i := i + 1;
    }
    assert matches[..i] == matches;
  }

  /** Content without a `{`, or without a `}`, comes back unchanged. */
  lemma ShortcodesUnchanged(content: string, haystack: Value)
    requires '{' !in content || '}' !in content
    ensures ShortcodesSpec(content, haystack) == content
  {
    NeedlesNone(content);
  }

  lemma CharContained(s: string, c: char)
    ensures Contains(s, [c]) ==> c in s
  {
    if Contains(s, [c]) {
      var j := IndexFrom(s, [c], 0).value;
      assert s[j..j + 1][0] == s[j];
    }
  }

  /** A shortcode without a dot is the haystack's value at that key. */
  lemma ResolvePlain(name: string, haystack: Value)
    requires '.' !in name
    ensures Resolve(name, haystack) == BeansGet(StrToKey(name), haystack, Null)
  {
    CharContained(name, '.');
    ExplodeAbsent(name, ".");
    assert Explode(name, ".") == [name];
    assert ResolveKeys([name], haystack) == BeansGet(StrToKey(name), haystack, Null) by {
      assert [name][..0] == [];
    }
  }

  /**
   * `{a.b}` reads b inside the value at a when that value is truthy, and b in the
   * top-level haystack otherwise.
   */
  lemma ResolveDotted(a: string, b: string, haystack: Value)
    requires '.' !in a && '.' !in b
    ensures var first := BeansGet(StrToKey(a), haystack, Null);
            Resolve(a + "." + b, haystack) == BeansGet(StrToKey(b), if Truthy(first) then first else haystack, Null)
  {
    var s := a + "." + b;
    forall j | 0 <= j < |a| ensures !OccursAt(s, ".", j) {
      assert s[j] == a[j];
      assert s[j..j + 1] == [s[j]];
    }
    assert OccursAt(s, ".", |a|) by { assert s[|a|..|a| + 1] == "."; }
    assert IndexFrom(s, ".", 0) == Some(|a|);
    assert s[..|a|] == a;
    assert s[|a| + 1..] == b;
    CharContained(b, '.');
    ExplodeAbsent(b, ".");
    assert Explode(s, ".") == [s[..|a|]] + Explode(s[|a| + 1..], ".");
    assert Explode(s, ".") == [a, b];
    assert [a, b][..1] == [a];
    assert [a][..0] == [];
    var first := BeansGet(StrToKey(a), haystack, Null);
    assert ResolveKeys([a], haystack) == first;
    assert ResolveKeys([a, b], haystack) == BeansGet(StrToKey(b), if Truthy(first) then first else haystack, Null);
  }

  /**
   * Content that is exactly one shortcode `{name}` with a plain name becomes the
   * string conversion of its value when that value is truthy, and stays as it is
   * otherwise.
   */
  lemma ShortcodeWhole(name: string, haystack: Value)
    requires '.' !in name && '}' !in name && '\n' !in name
    ensures var value := BeansGet(StrToKey(name), haystack, Null);
            ShortcodesSpec("{" + name + "}", haystack) == if Truthy(value) then ToStr(value) else "{" + name + "}"
  {
    var s := "{" + name + "}";
    assert CloseAt(s, 1) == Some(|name| + 1) by {
      forall j | 1 <= j < |name| + 1 ensures s[j] != '}' && s[j] != '\n' {
        assert s[j] == name[j - 1];
      }
      CloseAtFirst(s, 1, |name| + 1);
    }
    assert s[1..|name| + 1] == name;
    assert s[|name| + 2..] == [];
    assert Needles(s) == [name];
    ResolvePlain(name, haystack);
    assert [name][..0] == [];
    var value := BeansGet(StrToKey(name), haystack, Null);
    assert ApplyShortcodes(s, [name], haystack) == ApplyShortcode(ApplyShortcodes(s, [], haystack), name, haystack);
    assert ShortcodesSpec(s, haystack) == ApplyShortcode(s, name, haystack);
    assert ReplaceAll(s, s, ToStr(value)) == ToStr(value) by {
      assert s[..|s|] == s;
      assert s[|s|..] == [];
      assert ReplaceAll([], s, ToStr(value)) == [];
    }
  }

  lemma {:induction false} CloseAtFirst(s: string, i: nat, j: nat)
    requires i <= j < |s| && s[j] == '}'
    requires forall m :: i <= m < j ==> s[m] != '}' && s[m] != '\n'
    ensures CloseAt(s, i) == Some(j)
    decreases j - i
  {
    if i < j {
      CloseAtFirst(s, i + 1, j);
    }
  }

  // ---------------------------------------------------------------------------
  // array_replace_recursive (the fallback for PHP versions without it)
  // ---------------------------------------------------------------------------

  /** The value a replacement entry writes: a recursive merge when both sides hold arrays. */
  function Replacement(fromBase: Value, value: Value): Value
    decreases value, 2
  {
    if value.Arr? && fromBase.Arr? then ReplaceRecursive(fromBase, value) else value
  }

  /** `array_replace_recursive( $base, $replacements )`. */
  function ReplaceRecursive(base: Value, replacements: Value): Value
    decreases replacements, 1
  {
    if !base.Arr? || !replacements.Arr? then base
    else Arr(ReplaceFold(base.entries, replacements, |replacements.entries|))
  }

  /** The base after the loop has handled the first k replacement entries. */
  function ReplaceFold(base: Entries, replacements: Value, k: nat): Entries
    requires replacements.Arr? && k <= |replacements.entries|
    decreases replacements, 0, k
  {
    if k == 0 then base
    else ReplaceStep(ReplaceFold(base, replacements, k - 1), replacements.entries[k - 1].0, replacements.entries[k - 1].1)
  }

  /** One pass of the loop: `$base[ $key ]` receives the value, merged with what the base holds there. */
  function ReplaceStep(b: Entries, key: Key, value: Value): Entries
    decreases value, 4
  {
    Put(b, key, Replacement(BeansGet(key, Arr(b), Null), value))
  }

  /** One pass sets the key to its expected value and leaves every other key alone. */
  lemma ReplaceStepEffect(b: Entries, key: Key, value: Value)
    ensures var r := ReplaceStep(b, key, value);
            && Lookup(r, key) == Some(Expected(b, key, value))
            && (forall k' :: k' != key ==> Lookup(r, k') == Lookup(b, k'))
            && KeySet(r) == KeySet(b) + {key}
            && (UniqueKeys(b) ==> UniqueKeys(r))
  {
    var fromBase := BeansGet(key, Arr(b), Null);
    assert fromBase.Arr? <==> Lookup(b, key).Some? && Lookup(b, key).value.Arr?;
  }

  /** What a key ends up holding: its replacement, merged with the base's array when both are arrays. */
  function Expected(base: Entries, key: Key, value: Value): Value
    decreases value, 3
  {
    match Lookup(base, key)
    case Some(b) => Replacement(b, value)
    case None => value
  }

  lemma KeySetSnoc(es: Entries, k: nat)
    requires k < |es|
    ensures KeySet(es[..k + 1]) == KeySet(es[..k]) + {es[k].0}
  {
    var a, b := es[..k + 1], es[..k];
    assert forall j :: 0 <= j < k ==> a[j] == b[j];
    assert a[k] == es[k];
    forall x | x in KeySet(a) ensures x in KeySet(b) + {es[k].0} {
      var j :| 0 <= j < k + 1 && a[j].0 == x;
    }
  }

  lemma UniquePrefixExcludes(es: Entries, k: nat)
    requires UniqueKeys(es) && k < |es|
    ensures es[k].0 !in KeySet(es[..k])
  {
    var b := es[..k];
    forall j | 0 <= j < k ensures b[j].0 != es[k].0 {
      assert b[j] == es[j];
    }
  }

  lemma {:induction false} ReplaceFoldKeys(base: Entries, replacements: Value, k: nat)
    requires replacements.Arr? && k <= |replacements.entries|
    ensures KeySet(ReplaceFold(base, replacements, k)) == KeySet(base) + KeySet(replacements.entries[..k])
    ensures UniqueKeys(base) ==> UniqueKeys(ReplaceFold(base, replacements, k))
    decreases k
  {
    if k > 0 {
      var e := replacements.entries[k - 1];
      ReplaceFoldKeys(base, replacements, k - 1);
      KeySetSnoc(replacements.entries, k - 1);
      ReplaceStepEffect(ReplaceFold(base, replacements, k - 1), e.0, e.1);
    }
  }

  /** The array merge keeps every key of the base and adds every replacement key. */
  lemma ReplaceRecursiveKeys(base: Value, replacements: Value)
    requires base.Arr? && replacements.Arr?
    ensures ReplaceRecursive(base, replacements).Arr?
    ensures KeySet(ReplaceRecursive(base, replacements).entries) == KeySet(base.entries) + KeySet(replacements.entries)
    ensures UniqueKeys(base.entries) ==> UniqueKeys(ReplaceRecursive(base, replacements).entries)
  {
    var n := |replacements.entries|;
    assert replacements.entries[..n] == replacements.entries;
    ReplaceFoldKeys(base.entries, replacements, n);
  }

  lemma {:induction false} ReplaceFoldLookup(base: Entries, replacements: Value, k: nat, key: Key)
    requires replacements.Arr? && k <= |replacements.entries| && UniqueKeys(replacements.entries)
    requires key in KeySet(replacements.entries[..k])
    ensures Lookup(ReplaceFold(base, replacements, k), key) == Some(Expected(base, key, Lookup(replacements.entries, key).value))
    decreases k
  {
    var es := replacements.entries;
    var j :| 0 <= j < k && es[..k][j].0 == key;
    if key == es[k - 1].0 {
      ReplaceFoldHit(base, replacements, k);
    } else {
      KeySetSnoc(es, k - 1);
      ReplaceFoldLookup(base, replacements, k - 1, key);
      ReplaceFoldOther(base, replacements, k, key);
    }
  }

  /** The key of the `k`-th replacement entry, when keys are distinct, holds what that entry brings. */
  lemma ReplaceFoldHit(base: Entries, replacements: Value, k: nat)
    requires replacements.Arr? && 0 < k <= |replacements.entries| && UniqueKeys(replacements.entries)
    ensures var key := replacements.entries[k - 1].0;
            && key in KeySet(replacements.entries[..k])
            && Lookup(ReplaceFold(base, replacements, k), key)
                 == Some(Expected(base, key, Lookup(replacements.entries, key).value))
  {
    var es := replacements.entries;
    KeySetSnoc(es, k - 1);
    UniquePrefixExcludes(es, k - 1);
    KeyIndexAt(es, es[k - 1].0, k - 1);
    ReplaceFoldLast(base, replacements, k);
  }

  /** The last replacement entry folded in sets its own key. */
  lemma ReplaceFoldLast(base: Entries, replacements: Value, k: nat)
    requires replacements.Arr? && 0 < k <= |replacements.entries|
    requires replacements.entries[k - 1].0 !in KeySet(replacements.entries[..k - 1])
    ensures var key := replacements.entries[k - 1].0;
            Lookup(ReplaceFold(base, replacements, k), key)
              == Some(Expected(base, key, replacements.entries[k - 1].1))
  {
    var e := replacements.entries[k - 1];
    ReplaceFoldUntouched(base, replacements, k - 1, e.0);
    ReplaceStepEffect(ReplaceFold(base, replacements, k - 1), e.0, e.1);
  }

  /** A key the last replacement entry does not name is left as the earlier entries left it. */
  lemma ReplaceFoldOther(base: Entries, replacements: Value, k: nat, key: Key)
    requires replacements.Arr? && 0 < k <= |replacements.entries|
    requires key != replacements.entries[k - 1].0
    ensures Lookup(ReplaceFold(base, replacements, k), key) == Lookup(ReplaceFold(base, replacements, k - 1), key)
  {
    var e := replacements.entries[k - 1];
    ReplaceStepEffect(ReplaceFold(base, replacements, k - 1), e.0, e.1);
  }

  /** A key no replacement entry among the first `k` names still holds the base's value. */
  lemma {:induction false} ReplaceFoldUntouched(base: Entries, replacements: Value, k: nat, key: Key)
    requires replacements.Arr? && k <= |replacements.entries|
    requires key !in KeySet(replacements.entries[..k])
    ensures Lookup(ReplaceFold(base, replacements, k), key) == Lookup(base, key)
    decreases k
  {
    if k > 0 {
      KeySetSnoc(replacements.entries, k - 1);
      ReplaceFoldUntouched(base, replacements, k - 1, key);
      ReplaceFoldOther(base, replacements, k, key);
    }
  }

  /**
   * Every replacement key ends up with its replacement value, merged recursively
   * where the base held an array too; every key only in the base keeps its value.
   */
  lemma ReplaceRecursiveLookup(base: Value, replacements: Value, key: Key)
    requires base.Arr? && replacements.Arr? && UniqueKeys(replacements.entries)
    ensures var r := ReplaceRecursive(base, replacements).entries;
            && (key in KeySet(replacements.entries) ==>
                  Lookup(r, key) == Some(Expected(base.entries, key, Lookup(replacements.entries, key).value)))
            && (key !in KeySet(replacements.entries) ==> Lookup(r, key) == Lookup(base.entries, key))
  {
    var n := |replacements.entries|;
    assert replacements.entries[..n] == replacements.entries;
    if key in KeySet(replacements.entries) {
      ReplaceFoldLookup(base.entries, replacements, n, key);
    } else {
      ReplaceFoldUntouched(base.entries, replacements, n, key);
    }
  }

  /** The result of merging into an array with distinct keys has distinct keys. */
  lemma ReplaceRecursiveUnique(base: Value, replacements: Value)
    requires base.Arr? && replacements.Arr? && UniqueKeys(base.entries)
    ensures UniqueKeys(ReplaceRecursive(base, replacements).entries)
  {
    ReplaceFoldKeys(base.entries, replacements, |replacements.entries|);
  }

  /** The polyfill: `$base[ $key ]` is assigned once per replacement entry, in order. */
  method ArrayReplaceRecursive(base: Value, replacements: Value) returns (result: Value)
    ensures result == ReplaceRecursive(base, replacements)
    decreases replacements
  {
    if !base.Arr? || !replacements.Arr? {
      return base;
    }
    var b := base.entries;
    var i := 0;
    while i < |replacements.entries|
      invariant 0 <= i <= |replacements.entries|
      invariant b == ReplaceFold(base.entries, replacements, i)
    {
      var (key, value) := replacements.entries[i];
      var fromBase := BeansGet(key, Arr(b), Null);
      if value.Arr? && fromBase.Arr? {
        var merged := ArrayReplaceRecursive(fromBase, value);
        b := Put(b, key, merged);
      } else {
        b := Put(b, key, value);
      }
      assert b == ReplaceStep(ReplaceFold(base.entries, replacements, i), key, value);
      i := i + 1;
    }
    result := Arr(b);
  }

  // ---------------------------------------------------------------------------
  // beans_remove_array_element
  // ---------------------------------------------------------------------------

  /** `array_search( $needle, $es )`: the position of the first value loosely equal to the needle. */
  function ArraySearch(needle: Value, es: Entries, looseEq: (Value, Value) -> bool): (r: Option<nat>)
    ensures r.Some? ==> r.value < |es| && looseEq(needle, es[r.value].1)
    ensures r.Some? ==> forall j :: 0 <= j < r.value ==> !looseEq(needle, es[j].1)
    ensures r.None? ==> forall j :: 0 <= j < |es| ==> !looseEq(needle, es[j].1)
  {
    if es == [] then None
    else if looseEq(needle, es[0].1) then Some(0)
    else
      match ArraySearch(needle, es[1..], looseEq)
      case None =>
        assert forall j :: 1 <= j < |es| ==> es[j] == es[1..][j - 1];
        None
      case Some(i) =>
        assert forall j :: 1 <= j < i + 1 ==> es[j] == es[1..][j - 1];
        Some(i + 1)
  }

  /** A PHP array passed by reference. */
  class ArrayRef {
    var entries: Entries

    ghost predicate Valid()
      reads this
    {
      UniqueKeys(entries)
    }

    constructor (es: Entries)
      requires UniqueKeys(es)
      ensures Valid() && entries == es
    {
      entries := es;
    }
  }

  /** The array after removing the first element loosely equal to the needle. */
  function RemoveFirstMatch(needle: Value, es: Entries, looseEq: (Value, Value) -> bool): (r: Entries)
    requires UniqueKeys(es)
    ensures ArraySearch(needle, es, looseEq).None? ==> r == es
    ensures ArraySearch(needle, es, looseEq).Some? ==>
              var i := ArraySearch(needle, es, looseEq).value;
              r == es[..i] + es[i + 1..]
  {
    match ArraySearch(needle, es, looseEq)
    case None => es
    case Some(i) =>
      var key := es[i].0;
      KeyIndexAt(es, key, i);
      Unset(es, key)
  }

  /** Removing the first match takes out exactly that one entry and keeps distinct keys. */
  lemma RemoveFirstMatchEffect(needle: Value, es: Entries, looseEq: (Value, Value) -> bool)
    requires UniqueKeys(es) && ArraySearch(needle, es, looseEq).Some?
    ensures var i := ArraySearch(needle, es, looseEq).value;
            var r := RemoveFirstMatch(needle, es, looseEq);
            && |r| == |es| - 1
            && multiset(r) + multiset{es[i]} == multiset(es)
            && UniqueKeys(r)
            && KeySet(r) == KeySet(es) - {es[i].0}
  {
    var i := ArraySearch(needle, es, looseEq).value;
    var r := RemoveFirstMatch(needle, es, looseEq);
    KeyIndexAt(es, es[i].0, i);
    assert r == Unset(es, es[i].0);
    assert es == es[..i] + [es[i]] + es[i + 1..];
    assert multiset(es) == multiset(es[..i]) + multiset{es[i]} + multiset(es[i + 1..]);
  }

  /**
   * `beans_remove_array_element( $needle, &$haystack )`: the array is changed in
   * place and also returned.
   */
  method RemoveArrayElement(needle: Value, haystack: ArrayRef, looseEq: (Value, Value) -> bool)
      returns (result: Entries)
    requires haystack.Valid()
    modifies haystack
    ensures haystack.Valid()
    ensures haystack.entries == RemoveFirstMatch(needle, old(haystack.entries), looseEq)
    ensures result == haystack.entries
  {
    var index := ArraySearch(needle, haystack.entries, looseEq);
    if index.None? {
      return haystack.entries;
    }
    KeyIndexAt(haystack.entries, haystack.entries[index.value].0, index.value);
    haystack.entries := Unset(haystack.entries, haystack.entries[index.value].0);
    result := haystack.entries;
  }
}
