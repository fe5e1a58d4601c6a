/**
 * PHP values as the Beans sources use them: scalars and ordered arrays
 * (ordered maps from integer or string keys to values), with the few
 * language rules the modelled code relies on: truthiness (`if ( $x )`,
 * `empty()`), string conversion, array-key normalisation, `isset`, `unset`,
 * `$a[$k] = $v`, `array_merge` and Beans' own `beans_get` accessor.
 */
module PhpValues {

  datatype Option<T> = None | Some(value: T)

  /** An array key. PHP turns a string holding a canonical decimal integer into an integer key. */
  datatype Key = IntKey(i: int) | StrKey(s: string)

  /** A PHP value; floats, objects and resources are not part of this model. */
  datatype Value =
    | Null
    | Bool(b: bool)
    | Int(n: int)
    | Str(s: string)
    | Arr(entries: seq<(Key, Value)>)

  /** The entries of a PHP array, in iteration order. */
  type Entries = seq<(Key, Value)>

  // ---------------------------------------------------------------------------
  // Truthiness and string conversion
  // ---------------------------------------------------------------------------

  /** PHP's boolean conversion: null, false, 0, "", "0" and the empty array are falsy. */
  predicate Truthy(v: Value) {
    match v
    case Null => false
    case Bool(b) => b
    case Int(n) => n != 0
    case Str(s) => s != "" && s != "0"
    case Arr(es) => es != []
  }

  function DigitChar(d: nat): char
    requires d < 10
  {
    "0123456789"[d]
  }

  function DigitValue(c: char): nat
  {
    if '0' <= c <= '9' then (c as int - '0' as int) as nat else 0
  }

  predicate IsDigit(c: char) {
    '0' <= c <= '9'
  }

  predicate AllDigits(s: string) {
    forall i :: 0 <= i < |s| ==> IsDigit(s[i])
  }

  /** The decimal digits of a natural number, most significant first. */
  function NatToDecimal(n: nat): (s: string)
    ensures |s| >= 1 && AllDigits(s)
    ensures s[0] == '0' <==> n == 0
    decreases n
  {
    if n < 10 then [DigitChar(n)] else NatToDecimal(n / 10) + [DigitChar(n % 10)]
  }

  /** PHP's integer-to-string conversion. */
  function IntToDecimal(n: int): string {
    if n < 0 then "-" + NatToDecimal(-n) else NatToDecimal(n)
  }

  /** The value of a string of decimal digits. */
  function ParseNat(s: string): nat
    decreases |s|
  {
    if s == [] then 0 else ParseNat(s[..|s| - 1]) * 10 + DigitValue(s[|s| - 1])
  }

  /** PHP's string conversion of a value (an array converts to "Array", with a notice). */
  function ToStr(v: Value): string {
    match v
    case Null => ""
    case Bool(b) => if b then "1" else ""
    case Int(n) => IntToDecimal(n)
    case Str(s) => s
    case Arr(_) => "Array"
  }

  /** The string conversion of a truthy value is itself a truthy string. */
  lemma TruthyToStr(v: Value)
    requires Truthy(v)
    ensures Truthy(Str(ToStr(v)))
  {
    match v
    case Int(n) =>
      if n < 0 {
        var d := NatToDecimal(-n);
        assert ToStr(v) == "-" + d;
        assert |ToStr(v)| >= 2;
      } else {
        var d := NatToDecimal(n);
        assert ToStr(v) == d && d[0] != '0';
      }
    case _ =>
  }

  // ---------------------------------------------------------------------------
  // Array keys
  // ---------------------------------------------------------------------------

  /** A string PHP stores as an integer key: "0", or an optional '-' then a non-zero digit then digits. */
  predicate IsCanonicalInt(s: string) {
    || s == "0"
    || (|s| >= 1 && '1' <= s[0] <= '9' && AllDigits(s[1..]))
    || (|s| >= 2 && s[0] == '-' && '1' <= s[1] <= '9' && AllDigits(s[2..]))
  }

  /** The key PHP uses for a string offset. */
  function StrToKey(s: string): Key {
    if !IsCanonicalInt(s) then StrKey(s)
    else if s[0] == '-' then IntKey(0 - ParseNat(s[1..]) as int)
    else IntKey(ParseNat(s))
  }

  /** The key PHP uses for a value used as an offset; an array is an illegal offset. */
  function OffsetKey(v: Value): Option<Key> {
    match v
    case Null => Some(StrKey(""))
    case Bool(b) => Some(IntKey(if b then 1 else 0))
    case Int(n) => Some(IntKey(n))
    case Str(s) => Some(StrToKey(s))
    case Arr(_) => None
  }

  lemma DigitRoundTrip(d: nat)
    requires d < 10
    ensures DigitValue(DigitChar(d)) == d
  {
  }

  lemma {:induction false} ParseNatToDecimal(n: nat)
    ensures ParseNat(NatToDecimal(n)) == n
    decreases n
  {
    var s := NatToDecimal(n);
    if n < 10 {
      DigitRoundTrip(n);
      assert s[..0] == [];
    } else {
      var a := NatToDecimal(n / 10);
      var d := n % 10;
      assert s == a + [DigitChar(d)];
      assert s[..|s| - 1] == a;
      ParseNatToDecimal(n / 10);
      DigitRoundTrip(d);
      assert ParseNat(s) == ParseNat(a) * 10 + DigitValue(s[|s| - 1]);
      assert n == n / 10 * 10 + d;
    }
  }

  /** Writing an integer as a string and using it as an array key gives back the integer key. */
  lemma DecimalKeyRoundTrip(n: int)
    ensures StrToKey(IntToDecimal(n)) == IntKey(n)
  {
    if n < 0 {
      var d := NatToDecimal(-n);
      var s := "-" + d;
      assert s[1..] == d && s[2..] == d[1..];
      assert IsCanonicalInt(s);
      ParseNatToDecimal(-n);
    } else {
      var d := NatToDecimal(n);
      ParseNatToDecimal(n);
      assert IsDigit(d[0]);
      assert IsCanonicalInt(d);
    }
  }

  // ---------------------------------------------------------------------------
  // Array access
  // ---------------------------------------------------------------------------

  function KeySet(es: Entries): set<Key> {
    set i | 0 <= i < |es| :: es[i].0
  }

  /** Every PHP array has pairwise distinct keys. */
  predicate UniqueKeys(es: Entries) {
    forall i, j :: 0 <= i < j < |es| ==> es[i].0 != es[j].0
  }

  /** The position of key k. */
  function KeyIndex(es: Entries, k: Key): (r: Option<nat>)
    ensures r.Some? ==> r.value < |es| && es[r.value].0 == k
    ensures r.Some? ==> forall j :: 0 <= j < r.value ==> es[j].0 != k
    ensures r.None? <==> k !in KeySet(es)
  {
    if es == [] then None
    else if es[0].0 == k then Some(0)
    else
      match KeyIndex(es[1..], k)
      case None =>
        assert forall j :: 1 <= j < |es| ==> es[j].0 == es[1..][j - 1].0;
        None
      case Some(i) => Some(i + 1)
  }

  /** The first position holding key k is the one KeyIndex reports. */
  lemma KeyIndexAt(es: Entries, k: Key, i: nat)
    requires i < |es| && es[i].0 == k
    requires forall j :: 0 <= j < i ==> es[j].0 != k
    ensures KeyIndex(es, k) == Some(i)
  {
    assert k in KeySet(es);
  }

  /** `$a[$k]` when the key exists. */
  function Lookup(es: Entries, k: Key): (r: Option<Value>)
    ensures r.Some? <==> k in KeySet(es)
  {
    match KeyIndex(es, k)
    case None => None
    case Some(i) => Some(es[i].1)
  }

  /** `$a[$name]` for a string-named field; a missing field reads as null. */
  function Field(es: Entries, name: string): Value {
    match Lookup(es, StrToKey(name))
    case None => Null
    case Some(v) => v
  }

  /** `isset( $a[$k] )`: the key exists and its value is not null. */
  predicate Isset(es: Entries, k: Key) {
    Lookup(es, k).Some? && Lookup(es, k).value != Null
  }

  /** `$a[$k] = $v`: an existing key keeps its position, a new key goes last. */
  function Put(es: Entries, k: Key, v: Value): (r: Entries)
    ensures Lookup(r, k) == Some(v)
    ensures forall k' :: k' != k ==> Lookup(r, k') == Lookup(es, k')
    ensures KeySet(r) == KeySet(es) + {k}
    ensures UniqueKeys(es) ==> UniqueKeys(r)
    ensures |r| == if k in KeySet(es) then |es| else |es| + 1
  {
    match KeyIndex(es, k)
    case None => PutAppend(es, k, v); es + [(k, v)]
    case Some(i) => PutReplace(es, k, v, i); es[i := (k, v)]
  }

  lemma PutAppend(es: Entries, k: Key, v: Value)
    requires k !in KeySet(es)
    ensures Lookup(es + [(k, v)], k) == Some(v)
    ensures forall k' :: k' != k ==> Lookup(es + [(k, v)], k') == Lookup(es, k')
    ensures KeySet(es + [(k, v)]) == KeySet(es) + {k}
  {
    var r := es + [(k, v)];
    KeyIndexAt(r, k, |es|);
    forall k' | k' != k ensures Lookup(r, k') == Lookup(es, k') {
      if k' in KeySet(es) {
        KeyIndexAt(r, k', KeyIndex(es, k').value);
      } else {
        assert k' !in KeySet(r);
      }
    }
    assert KeySet(r) == KeySet(es) + {k} by {
      forall x | x in KeySet(r) ensures x in KeySet(es) + {k} {
        var j :| 0 <= j < |r| && r[j].0 == x;
        if j < |es| { assert es[j].0 == x; }
      }
      forall x | x in KeySet(es) ensures x in KeySet(r) {
        var j :| 0 <= j < |es| && es[j].0 == x;
        assert r[j].0 == x;
      }
    }
  }

  lemma PutReplace(es: Entries, k: Key, v: Value, i: nat)
    requires KeyIndex(es, k) == Some(i)
    ensures Lookup(es[i := (k, v)], k) == Some(v)
    ensures forall k' :: k' != k ==> Lookup(es[i := (k, v)], k') == Lookup(es, k')
    ensures KeySet(es[i := (k, v)]) == KeySet(es)
  {
    var r := es[i := (k, v)];
    KeyIndexAt(r, k, i);
    forall k' | k' != k ensures Lookup(r, k') == Lookup(es, k') {
      if k' in KeySet(es) {
        KeyIndexAt(r, k', KeyIndex(es, k').value);
      } else {
        forall j | 0 <= j < |r| ensures r[j].0 != k' {
          assert j != i ==> r[j] == es[j];
        }
        assert k' !in KeySet(r);
      }
    }
    assert KeySet(r) == KeySet(es) by {
      forall x | x in KeySet(r) ensures x in KeySet(es) {
        var j :| 0 <= j < |r| && r[j].0 == x;
        assert es[j].0 == x;
      }
      forall x | x in KeySet(es) ensures x in KeySet(r) {
        var j :| 0 <= j < |es| && es[j].0 == x;
        assert r[j].0 == x;
      }
    }
  }

  /** `unset( $a[$k] )`. */
  function Unset(es: Entries, k: Key): (r: Entries)
    requires UniqueKeys(es)
    ensures UniqueKeys(r)
    ensures KeySet(r) == KeySet(es) - {k}
    ensures Lookup(r, k) == None
    ensures forall k' :: k' != k ==> Lookup(r, k') == Lookup(es, k')
  {
    match KeyIndex(es, k)
    case None => es
    case Some(i) =>
      RemoveAtKeys(es, i);
      RemoveAtLookup(es, i);
      es[..i] + es[i + 1..]
  }

  /** Taking out one entry of an array with distinct keys takes out its key and no other. */
  lemma RemoveAtKeys(es: Entries, i: nat)
    requires UniqueKeys(es) && i < |es|
    ensures var r := es[..i] + es[i + 1..];
            UniqueKeys(r) && KeySet(r) == KeySet(es) - {es[i].0}
  {
    var r := es[..i] + es[i + 1..];
    assert forall j :: 0 <= j < |r| ==> r[j] == if j < i then es[j] else es[j + 1];
    forall x | x in KeySet(es) - {es[i].0} ensures x in KeySet(r) {
      var j :| 0 <= j < |es| && es[j].0 == x;
      assert r[if j < i then j else j - 1].0 == x;
    }
  }

  /** Taking out one entry leaves the value of every other key as it was. */
  lemma RemoveAtLookup(es: Entries, i: nat)
    requires UniqueKeys(es) && i < |es|
    ensures var r := es[..i] + es[i + 1..];
            forall k' :: k' != es[i].0 ==> Lookup(r, k') == Lookup(es, k')
  {
    var r := es[..i] + es[i + 1..];
    RemoveAtKeys(es, i);
    forall k' | k' != es[i].0 ensures Lookup(r, k') == Lookup(es, k') {
      if k' in KeySet(es) {
        var j := KeyIndex(es, k').value;
        var j' := if j < i then j else j - 1;
        assert r[j'] == es[j];
        forall m | 0 <= m < j' ensures r[m].0 != k' {
          assert r[m] == if m < i then es[m] else es[m + 1];
        }
        KeyIndexAt(r, k', j');
      }
    }
  }

  /** The values of an array, in order. */
  function Values(es: Entries): (r: seq<Value>)
    ensures |r| == |es| && forall i :: 0 <= i < |es| ==> r[i] == es[i].1
  {
    if es == [] then [] else Values(es[..|es| - 1]) + [es[|es| - 1].1]
  }

  // ---------------------------------------------------------------------------
  // (array) casts, beans_get, array_merge
  // ---------------------------------------------------------------------------

  /** `(array) $v`. */
  function ArrayCast(v: Value): Entries {
    match v
    case Null => []
    case Arr(es) => es
    case _ => [(IntKey(0), v)]
  }

  /**
   * Beans' `beans_get( $needle, $haystack, $default )`: the haystack is cast to an
   * array and the needle's value is returned when it is set, the default otherwise.
   * A `false` haystack makes beans_get read the request's query parameters, which
   * this model takes to be empty.
   */
  function BeansGet(needle: Key, haystack: Value, default: Value): (r: Value)
    ensures haystack.Arr? && Isset(haystack.entries, needle) ==> r == Lookup(haystack.entries, needle).value
    ensures haystack.Arr? && !Isset(haystack.entries, needle) ==> r == default
  {
    var es := if haystack == Bool(false) then [] else ArrayCast(haystack);
    if Isset(es, needle) then Lookup(es, needle).value else default
  }

  function CountIntKeys(es: Entries): nat {
    if es == [] then 0
    else CountIntKeys(es[..|es| - 1]) + (if es[|es| - 1].0.IntKey? then 1 else 0)
  }

  /** One element of `array_merge`: integer keys are renumbered and appended, string keys overwrite. */
  function MergeStep(acc: Entries, e: (Key, Value)): Entries {
    if e.0.IntKey? then acc + [(IntKey(CountIntKeys(acc)), e.1)] else Put(acc, e.0, e.1)
  }

  function MergeInto(acc: Entries, es: Entries): Entries
    decreases |es|
  {
    if es == [] then acc else MergeStep(MergeInto(acc, es[..|es| - 1]), es[|es| - 1])
  }

  /** `array_merge( $a, $b )`. */
  function ArrayMerge(a: Entries, b: Entries): Entries {
    MergeInto(MergeInto([], a), b)
  }

  /** `array_merge` on two values; PHP 7 returns null when either is not an array. */
  function ArrayMergeValues(a: Value, b: Value): Value {
    if a.Arr? && b.Arr? then Arr(ArrayMerge(a.entries, b.entries)) else Null
  }

  predicate IsList(es: Entries) {
    forall i :: 0 <= i < |es| ==> es[i].0.IntKey?
  }

  lemma ValuesSnoc(es: Entries, e: (Key, Value))
    ensures Values(es + [e]) == Values(es) + [e.1]
  {
    assert (es + [e])[..|es|] == es;
  }

  lemma MergeStepList(m: Entries, e: (Key, Value))
    requires IsList(m) && e.0.IntKey?
    ensures IsList(MergeStep(m, e))
    ensures Values(MergeStep(m, e)) == Values(m) + [e.1]
  {
    var n := (IntKey(CountIntKeys(m)), e.1);
    assert MergeStep(m, e) == m + [n];
    ValuesSnoc(m, n);
    forall i | 0 <= i < |m + [n]| ensures (m + [n])[i].0.IntKey? {
      if i < |m| {
        assert (m + [n])[i] == m[i];
      }
    }
  }

  lemma {:induction false} MergeIntoList(acc: Entries, es: Entries)
    requires IsList(acc) && IsList(es)
    ensures IsList(MergeInto(acc, es))
    ensures Values(MergeInto(acc, es)) == Values(acc) + Values(es)
    decreases |es|
  {
    if es != [] {
      var front := es[..|es| - 1];
      var last := es[|es| - 1];
      assert IsList(front);
      MergeIntoList(acc, front);
      MergeStepList(MergeInto(acc, front), last);
      assert Values(es) == Values(front) + [last.1];
    }
  }

  /** Merging two lists keeps every value of the first, then every value of the second, in order. */
  lemma ArrayMergeLists(a: Entries, b: Entries)
    requires IsList(a) && IsList(b)
    ensures IsList(ArrayMerge(a, b))
    ensures Values(ArrayMerge(a, b)) == Values(a) + Values(b)
  {
    var m := MergeInto([], a);
    MergeIntoList([], a);
    assert Values(m) == Values(a) by { assert Values([]) == []; }
    MergeIntoList(m, b);
  }

  /** The value a string key ends with: the last one given for it in es, else the one in acc. */
  function LastLookup(acc: Entries, es: Entries, k: Key): Option<Value>
    decreases |es|
  {
    if es == [] then Lookup(acc, k)
    else if es[|es| - 1].0 == k then Some(es[|es| - 1].1)
    else LastLookup(acc, es[..|es| - 1], k)
  }

  lemma {:induction false} MergeIntoStringKey(acc: Entries, es: Entries, k: Key)
    requires k.StrKey?
    ensures Lookup(MergeInto(acc, es), k) == LastLookup(acc, es, k)
    decreases |es|
  {
    if es != [] {
      var m := MergeInto(acc, es[..|es| - 1]);
      MergeIntoStringKey(acc, es[..|es| - 1], k);
      var e := es[|es| - 1];
      if e.0.IntKey? {
        var r := m + [(IntKey(CountIntKeys(m)), e.1)];
        if k in KeySet(m) {
          KeyIndexAt(r, k, KeyIndex(m, k).value);
        } else {
          assert k !in KeySet(r);
        }
      }
    }
  }

  lemma {:induction false} LastLookupUnique(acc: Entries, es: Entries, k: Key)
    requires UniqueKeys(es)
    ensures LastLookup(acc, es, k) == if k in KeySet(es) then Lookup(es, k) else Lookup(acc, k)
    decreases |es|
  {
    if es != [] {
      var front := es[..|es| - 1];
      assert UniqueKeys(front);
      LastLookupUnique(acc, front, k);
      if es[|es| - 1].0 == k {
        KeyIndexAt(es, k, |es| - 1);
      } else if k in KeySet(front) {
        KeyIndexAt(es, k, KeyIndex(front, k).value);
      } else {
        assert k !in KeySet(es);
      }
    }
  }

  /**
   * With `array_merge( $a, $b )` a string key takes its value from b when b has it
   * and from a otherwise.
   */
  lemma ArrayMergeStringKey(a: Entries, b: Entries, k: Key)
    requires UniqueKeys(a) && UniqueKeys(b) && k.StrKey?
    ensures Lookup(ArrayMerge(a, b), k) == if k in KeySet(b) then Lookup(b, k) else Lookup(a, k)
  {
    MergeIntoStringKey(MergeInto([], a), b, k);
    LastLookupUnique(MergeInto([], a), b, k);
    MergeIntoStringKey([], a, k);
    LastLookupUnique([], a, k);
  }
}
