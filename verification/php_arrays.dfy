/** PHP's ordered array, as far as the repository uses it: an insertion-ordered
    sequence of key/value entries with unique keys. String keys that spell a
    canonical in-range decimal integer are stored as integer keys, assignment
    to an existing key overwrites it in place, and assignment to a new key
    appends. Values are `null`, strings (what the XML parser produces) and
    nested arrays. */
module PhpArrays {
  import opened Results
  import opened Strings

  datatype Key = IntKey(i: int) | StrKey(s: string)

  datatype Value = Null | Scalar(text: string) | Arr(entries: seq<Entry>)

  datatype Entry = Entry(key: Key, val: Value)

  type PArray = seq<Entry>

  /** PHP_INT_MIN and PHP_INT_MAX on a 64-bit build. */
  const IntMin: int := -0x8000_0000_0000_0000
  const IntMax: int := 0x7FFF_FFFF_FFFF_FFFF

  predicate IsDigit(c: char) {
    '0' <= c <= '9'
  }

  predicate AllDigits(s: string) {
    forall i :: 0 <= i < |s| ==> IsDigit(s[i])
  }

  /** The number a run of decimal digits denotes. */
  function DigitsValue(s: string): nat
    requires AllDigits(s)
    decreases |s|
  {
    if s == [] then 0
    else DigitsValue(s[..|s| - 1]) * 10 + (s[|s| - 1] as int - '0' as int)
  }

  /** The canonical decimal spelling of an integer: an optional minus sign,
      then digits without a leading zero; "0" is canonical, "-0" is not. */
  predicate IsCanonicalInt(s: string) {
    var d := if s != [] && s[0] == '-' then s[1..] else s;
    d != [] && AllDigits(d) && (d[0] != '0' || s == "0")
  }

  /** The key PHP stores for the string key `s`. */
  function NormalizeKey(s: string): (k: Key)
    ensures k.StrKey? ==> k.s == s
    ensures k.IntKey? ==> IsCanonicalInt(s) && IntMin <= k.i <= IntMax
  {
    if IsCanonicalInt(s) then
      var v: int := if s[0] == '-' then 0 - (DigitsValue(s[1..]) as int) else DigitsValue(s);
      if IntMin <= v <= IntMax then IntKey(v) else StrKey(s)
    else StrKey(s)
  }

  /** A string holding a character that is neither a digit nor a minus sign
      is always kept as a string key. */
  lemma NormalizeKeepsText(s: string, i: nat)
    requires i < |s| && !IsDigit(s[i]) && s[i] != '-'
    ensures NormalizeKey(s) == StrKey(s)
  {
  }

  /** Mantissa of a PHP numeric string: digits with at most one decimal
      point, and at least one digit. */
  predicate IsMantissa(m: string) {
    && (exists i :: 0 <= i < |m| && IsDigit(m[i]))
    && (forall i :: 0 <= i < |m| ==> IsDigit(m[i]) || m[i] == '.')
    && (forall i, j :: 0 <= i < j < |m| && m[i] == '.' ==> m[j] != '.')
  }

  function DropSign(s: string): string {
    if s != [] && (s[0] == '+' || s[0] == '-') then s[1..] else s
  }

  /** A numeric string without surrounding whitespace: optional sign,
      mantissa, optional exponent. */
  predicate IsNumericBody(t: string) {
    var u := DropSign(t);
    || IsMantissa(u)
    || exists i :: 0 < i < |u| && (u[i] == 'e' || u[i] == 'E')
                   && IsMantissa(u[..i])
                   && DropSign(u[i + 1..]) != [] && AllDigits(DropSign(u[i + 1..]))
  }

  /** PHP 8 `is_numeric` on a string: leading and trailing whitespace
      allowed around the numeric body. */
  predicate IsNumericString(s: string) {
    IsNumericBody(Trim(s))
  }

  /** `is_numeric($key)` on an array key. */
  predicate IsNumericKey(k: Key) {
    k.IntKey? || IsNumericString(k.s)
  }

  /** PHP `empty()` on the values the model carries. */
  predicate IsEmpty(v: Value) {
    v == Null || v == Scalar("") || v == Scalar("0") || v == Arr([])
  }

  predicate UniqueKeys(a: PArray) {
    forall i, j :: 0 <= i < j < |a| ==> a[i].key != a[j].key
  }

  predicate StringKeyed(a: PArray) {
    forall i :: 0 <= i < |a| ==> a[i].key.StrKey?
  }

  /** Position of the entry with key `k`, if any. */
  function IndexOf(a: PArray, k: Key): (r: Option<nat>)
    ensures r.Some? ==> r.value < |a| && a[r.value].key == k
    ensures r.Some? ==> forall j :: 0 <= j < r.value ==> a[j].key != k
    ensures r.None? ==> forall j :: 0 <= j < |a| ==> a[j].key != k
    decreases |a|
  {
    if a == [] then None
    else if a[0].key == k then Some(0)
    else match IndexOf(a[1..], k)
      case None => None
      case Some(i) => Some(i + 1)
  }

  /** `array_key_exists($k, $a)`. */
  predicate KeyExists(a: PArray, k: Key) {
    IndexOf(a, k).Some?
  }

  /** `$a[$k]` when the key exists, `None` otherwise. */
  function Lookup(a: PArray, k: Key): Option<Value> {
    match IndexOf(a, k)
    case Some(i) => Some(a[i].val)
    case None => None
  }

  /** `$a[$k]` as an expression: a missing key reads as `null`. */
  function Index(a: PArray, k: Key): Value {
    Lookup(a, k).GetOr(Null)
  }

  /** `$a[$k] = $v`: an existing key keeps its position, a new key goes to
      the end. */
  function Set(a: PArray, k: Key, v: Value): (r: PArray)
    ensures Lookup(r, k) == Some(v)
    ensures forall k' :: k' != k ==> Lookup(r, k') == Lookup(a, k')
    ensures KeyExists(a, k) ==> |r| == |a| && forall i :: 0 <= i < |a| ==> r[i].key == a[i].key
    ensures !KeyExists(a, k) ==> r == a + [Entry(k, v)]
    ensures UniqueKeys(a) ==> UniqueKeys(r)
  {
    match IndexOf(a, k)
    case Some(i) =>
      var r := a[i := Entry(k, v)];
      assert forall k' :: k' != k ==> IndexOf(r, k') == IndexOf(a, k') by {
        forall k' | k' != k ensures IndexOf(r, k') == IndexOf(a, k') {
          IndexOfUpdate(a, i, Entry(k, v), k');
        }
      }
      IndexOfFirst(r, i, k);
      r
    case None =>
      var r := a + [Entry(k, v)];
      assert forall k' :: k' != k ==> IndexOf(r, k') == IndexOf(a, k') by {
        forall k' | k' != k ensures IndexOf(r, k') == IndexOf(a, k') {
          IndexOfAppend(a, Entry(k, v), k');
        }
      }
      IndexOfFirst(r, |a|, k);
      r
  }

  /** The greatest integer key, if there is one. */
  function MaxIntKey(a: PArray): (r: Option<int>)
    ensures r.Some? ==> exists i :: 0 <= i < |a| && a[i].key == IntKey(r.value)
    ensures r.Some? ==> forall i :: 0 <= i < |a| && a[i].key.IntKey? ==> a[i].key.i <= r.value
    ensures r.None? ==> forall i :: 0 <= i < |a| ==> a[i].key.StrKey?
    decreases |a|
  {
    if a == [] then None
    else
      var init := a[..|a| - 1];
      var rest := MaxIntKey(init);
      assert forall i :: 0 <= i < |init| ==> init[i] == a[i];
      match a[|a| - 1].key
      case StrKey(_) => rest
      case IntKey(n) =>
        if rest.Some? && rest.value >= n then rest else Some(n)
  }

  /** The key `$a[] = $v` uses: one past the greatest integer key, or 0 when
      there is none. */
  function NextIndex(a: PArray): (n: int)
    ensures forall i :: 0 <= i < |a| && a[i].key.IntKey? ==> a[i].key.i < n
  {
    match MaxIntKey(a)
    case None => 0
    case Some(m) => m + 1
  }

  /** `$a[] = $v`. */
  function Push(a: PArray, v: Value): (r: PArray)
    ensures r == a + [Entry(IntKey(NextIndex(a)), v)]
    ensures UniqueKeys(a) ==> UniqueKeys(r)
  {
    a + [Entry(IntKey(NextIndex(a)), v)]
  }

  /** A list: keys 0, 1, 2, ... in order. */
  predicate IsList(a: PArray) {
    forall i :: 0 <= i < |a| ==> a[i].key == IntKey(i)
  }

  lemma {:induction false} ListNextIndex(a: PArray)
    requires IsList(a)
    ensures NextIndex(a) == |a|
    decreases |a|
  {
    if a != [] {
      var init := a[..|a| - 1];
      assert IsList(init) by {
        forall i | 0 <= i < |init| ensures init[i].key == IntKey(i) {
          assert init[i] == a[i];
        }
      }
      ListNextIndex(init);
      assert MaxIntKey(init) == (if init == [] then None else Some(|init| - 1)) by {
        if init != [] {
          assert init[|init| - 1].key == IntKey(|init| - 1);
        }
      }
    }
  }

  // ------------------------------------------------------- IndexOf helpers

  lemma IndexOfFirst(a: PArray, i: nat, k: Key)
    requires i < |a| && a[i].key == k
    requires forall j :: 0 <= j < i ==> a[j].key != k
    ensures IndexOf(a, k) == Some(i)
  {
    var r := IndexOf(a, k);
  }

  lemma IndexOfUpdate(a: PArray, i: nat, e: Entry, k: Key)
    requires i < |a| && a[i].key == e.key && e.key != k
    ensures IndexOf(a[i := e], k) == IndexOf(a, k)
  {
    var b := a[i := e];
    match IndexOf(a, k)
    case Some(j) => IndexOfFirst(b, j, k);
    case None =>
  }

  lemma IndexOfAppend(a: PArray, e: Entry, k: Key)
    requires e.key != k
    ensures IndexOf(a + [e], k) == IndexOf(a, k)
  {
    var b := a + [e];
    match IndexOf(a, k)
    case Some(j) => IndexOfFirst(b, j, k);
    case None =>
  }

  // ------------------------------------------------------------ key sets

  /** The keys of an array. */
  function Keys(a: PArray): (r: set<Key>)
    ensures forall k :: k in r <==> KeyExists(a, k)
  {
    var r := set i | 0 <= i < |a| :: a[i].key;
    assert forall k :: k in r ==> KeyExists(a, k) by {
      forall k | k in r ensures KeyExists(a, k) {
        var i :| 0 <= i < |a| && a[i].key == k;
        assert IndexOf(a, k).Some?;
      }
    }
    r
  }

  /** Assignment adds its key and keeps every other. */
  lemma SetKeys(a: PArray, k: Key, v: Value)
    ensures Keys(Set(a, k, v)) == Keys(a) + {k}
  {
    var r := Set(a, k, v);
    forall k' ensures k' in Keys(r) <==> k' in Keys(a) + {k} {
      if k' != k {
        assert Lookup(r, k') == Lookup(a, k');
      }
    }
  }

  /** In front of an array, entries with other keys do not change where a
      key is found. */
  lemma IndexOfShift(out: PArray, x: PArray, k: Key)
    requires !KeyExists(out, k)
    ensures IndexOf(out + x, k) == match IndexOf(x, k) case None => None case Some(i) => Some(|out| + i)
  {
    var u := out + x;
    match IndexOf(x, k)
    case Some(i) =>
      forall j | 0 <= j < |out| + i ensures u[j].key != k {
        if j < |out| {
          assert u[j] == out[j];
        } else {
          assert u[j] == x[j - |out|];
        }
      }
      IndexOfFirst(u, |out| + i, k);
    case None =>
      forall j | 0 <= j < |u| ensures u[j].key != k {
        if j < |out| {
          assert u[j] == out[j];
        } else {
          assert u[j] == x[j - |out|];
        }
      }
  }

  /** ... so lookups and assignments of such a key only see the back part. */
  lemma SetShift(out: PArray, x: PArray, k: Key, v: Value)
    requires !KeyExists(out, k)
    ensures Lookup(out + x, k) == Lookup(x, k)
    ensures Set(out + x, k, v) == out + Set(x, k, v)
  {
    IndexOfShift(out, x, k);
    match IndexOf(x, k)
    case Some(i) =>
      assert (out + x)[|out| + i] == x[i];
      assert (out + x)[|out| + i := Entry(k, v)] == out + x[i := Entry(k, v)];
    case None =>
      assert (out + x) + [Entry(k, v)] == out + (x + [Entry(k, v)]);
  }
}
