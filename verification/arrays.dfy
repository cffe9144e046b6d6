/** `Arrays`: the dotted-path helpers the API client uses on parsed responses.
    The PHP file declares `strict_types=1`, so handing an integer array key to
    `strncmp` raises a `TypeError`; the model returns `Err` there. */
module Arrays {
  import opened Results
  import opened Strings
  import opened PhpArrays

  const StrncmpTypeError: string := "strncmp(): Argument #1 ($string1) must be of type string, int given"
  const PushOnStringError: string := "[] operator not supported for strings"

  /** The key is a string that starts with `p`. */
  predicate KeyHasPrefix(k: Key, p: string) {
    k.StrKey? && IsPrefix(p, k.s)
  }

  // ------------------------------------------------ str_ends_with / str_starts_with

  /** `Arrays::str_ends_with`: false for an empty needle, otherwise a suffix test. */
  function StrEndsWith(haystack: string, needle: string): (r: bool)
    ensures r <==> needle != [] && |needle| <= |haystack|
                   && forall i :: 0 <= i < |needle| ==> haystack[|haystack| - |needle| + i] == needle[i]
  {
    var r := needle != [] && IsSuffix(needle, haystack);
    assert r <== needle != [] && |needle| <= |haystack|
                 && forall i :: 0 <= i < |needle| ==> haystack[|haystack| - |needle| + i] == needle[i] by {
      if needle != [] && |needle| <= |haystack|
         && forall i :: 0 <= i < |needle| ==> haystack[|haystack| - |needle| + i] == needle[i] {
        assert haystack[|haystack| - |needle|..] == needle;
      }
    }
    r
  }

  /** `Arrays::str_starts_with`: false for an empty needle; otherwise
      `strncmp`, which rejects an integer haystack. */
  function StrStartsWith(haystack: Key, needle: string): (r: Result<bool>)
    ensures needle == [] ==> r == Ok(false)
    ensures r.Err? <==> needle != [] && haystack.IntKey?
    ensures r == Ok(true) <==> needle != [] && haystack.StrKey? && |needle| <= |haystack.s|
                               && forall i :: 0 <= i < |needle| ==> haystack.s[i] == needle[i]
  {
    if needle == [] then Ok(false)
    else match haystack
      case IntKey(_) => Err(StrncmpTypeError)
      case StrKey(s) =>
        assert IsPrefix(needle, s) <== |needle| <= |s| && forall i :: 0 <= i < |needle| ==> s[i] == needle[i] by {
          if |needle| <= |s| && forall i :: 0 <= i < |needle| ==> s[i] == needle[i] {
            assert s[..|needle|] == needle;
          }
        }
        Ok(IsPrefix(needle, s))
  }

  // ------------------------------------------------------------------ has_key

  /** `Arrays::has_key`: scans the keys in order and answers true at the
      first one that starts with `prefix`; an integer key reached before
      that is a type error. */
  function HasKey(prefix: string, a: PArray): (r: Result<bool>)
    ensures r.Err? <==> exists i :: 0 <= i < |a| && a[i].key.IntKey?
                                    && forall j :: 0 <= j < i ==> a[j].key.StrKey? && !IsPrefix(prefix, a[j].key.s)
    ensures r.Ok? ==> (r.value <==> exists i :: 0 <= i < |a| && KeyHasPrefix(a[i].key, prefix))
    decreases |a|
  {
    if a == [] then Ok(false)
    else match a[0].key
      case IntKey(_) => Err(StrncmpTypeError)
      case StrKey(s) =>
        if IsPrefix(prefix, s) then Ok(true)
        else
          var r := HasKey(prefix, a[1..]);
          assert forall i :: 1 <= i < |a| ==> a[i] == a[1..][i - 1];
          TypeErrorShift(prefix, a, r);
          r
  }

  /** A type error found in the tail is a type error of the whole array. */
  lemma TypeErrorShift(prefix: string, a: PArray, r: Result<bool>)
    requires a != [] && a[0].key.StrKey? && !IsPrefix(prefix, a[0].key.s)
    requires r.Err? ==> exists i :: 0 <= i < |a[1..]| && a[1..][i].key.IntKey?
                          && forall j :: 0 <= j < i ==> a[1..][j].key.StrKey? && !IsPrefix(prefix, a[1..][j].key.s)
    ensures r.Err? ==> exists i :: 0 <= i < |a| && a[i].key.IntKey?
                         && forall j :: 0 <= j < i ==> a[j].key.StrKey? && !IsPrefix(prefix, a[j].key.s)
  {
    if r.Err? {
      var i :| 0 <= i < |a[1..]| && a[1..][i].key.IntKey?
              && forall j :: 0 <= j < i ==> a[1..][j].key.StrKey? && !IsPrefix(prefix, a[1..][j].key.s);
      forall j | 0 <= j < i + 1 ensures a[j].key.StrKey? && !IsPrefix(prefix, a[j].key.s) {
        if j > 0 {
          assert a[j] == a[1..][j - 1];
        }
      }
      assert a[i + 1].key.IntKey?;
    }
  }

  /** On an array with only string keys, `has_key` is the prefix query. */
  lemma HasKeyStringKeyed(prefix: string, a: PArray)
    requires StringKeyed(a)
    ensures HasKey(prefix, a) == Ok(exists i :: 0 <= i < |a| && KeyHasPrefix(a[i].key, prefix))
  {
  }

  /** The empty prefix matches the first string key: on a string-keyed array
      `has_key("", a)` holds exactly when `a` is non-empty. */
  lemma HasKeyEmptyPrefix(a: PArray)
    requires StringKeyed(a)
    ensures HasKey("", a) == Ok(|a| > 0)
  {
    if |a| > 0 {
      assert KeyHasPrefix(a[0].key, "");
    }
  }

  // ---------------------------------------------------------------------- get

  /** `Arrays::get` switches to prefix mode on keys ending in `.*`. */
  predicate IsWildcard(key: string) {
    StrEndsWith(key, ".*")
  }

  /** `rtrim($s, $c)` for a single character. */
  function RTrimChar(s: string, c: char): (r: string)
    ensures IsPrefix(r, s)
    ensures r == [] || r[|r| - 1] != c
    ensures forall i :: |r| <= i < |s| ==> s[i] == c
    decreases |s|
  {
    if s != [] && s[|s| - 1] == c then
      var r := RTrimChar(s[..|s| - 1], c);
      assert s[..|r|] == s[..|s| - 1][..|r|];
      r
    else s
  }

  /** `rtrim($key, '*')` on a wildcard key drops exactly the final `*`. */
  lemma WildcardPrefix(key: string)
    requires IsWildcard(key)
    ensures RTrimChar(key, '*') == key[..|key| - 1]
  {
    var r := RTrimChar(key, '*');
    assert key[|key| - 2] == '.';
    assert key[|key| - 1] == '*';
    assert |r| == |key| - 1;
  }

  /** The key an entry gets in a wildcard result: every occurrence of the
      prefix removed (`str_replace`), then PHP's key normalisation. */
  function StripKey(k: string, prefix: string): Key {
    NormalizeKey(ReplaceAll(k, prefix, ""))
  }

  /** The foreach loop of the wildcard branch. */
  function Collect(a: PArray, prefix: string, out: PArray): (r: Result<PArray>)
    requires prefix != []
    ensures r.Err? <==> exists i :: 0 <= i < |a| && a[i].key.IntKey?
    decreases |a|
  {
    if a == [] then Ok(out)
    else
      var hit :- StrStartsWith(a[0].key, prefix);
      var r := if !hit then Collect(a[1..], prefix, out)
               else Collect(a[1..], prefix, Set(out, StripKey(a[0].key.s, prefix), a[0].val));
      assert forall i :: 1 <= i < |a| ==> a[i] == a[1..][i - 1];
      assert r.Err? ==> exists i :: 0 <= i < |a| && a[i].key.IntKey? by {
        if r.Err? {
          var i :| 0 <= i < |a[1..]| && a[1..][i].key.IntKey?;
          assert a[i + 1].key.IntKey?;
        }
      }
      r
  }

  /** `Arrays::get`. */
  function Get(key: string, a: PArray, default: Value): (r: Result<Value>)
    ensures !IsWildcard(key) ==> forall i :: 0 <= i < |a| && a[i].key == NormalizeKey(key) && UniqueKeys(a)
                                           ==> r == Ok(a[i].val)
    ensures !IsWildcard(key) && (forall i :: 0 <= i < |a| ==> a[i].key != NormalizeKey(key))
            ==> r == Ok(default)
    ensures IsWildcard(key) ==> (r.Err? <==> exists i :: 0 <= i < |a| && a[i].key.IntKey?)
  {
    if !IsWildcard(key) then
      Ok(Lookup(a, NormalizeKey(key)).GetOr(default))
    else
      var prefix := RTrimChar(key, '*');
      WildcardPrefix(key);
      var out :- Collect(a, prefix, []);
      Ok(if out == [] then default else Arr(out))
  }

  /** The entries whose key starts with `p`, in their original order. */
  function Matching(a: PArray, p: string): (m: PArray)
    ensures |m| <= |a|
    ensures forall i :: 0 <= i < |m| ==> KeyHasPrefix(m[i].key, p)
    decreases |a|
  {
    if a == [] then []
    else if KeyHasPrefix(a[0].key, p) then [a[0]] + Matching(a[1..], p)
    else Matching(a[1..], p)
  }

  /** Matching entries re-keyed by `StripKey`. */
  function Stripped(m: PArray, p: string): (r: PArray)
    requires forall i :: 0 <= i < |m| ==> m[i].key.StrKey?
    ensures |r| == |m|
    ensures forall i :: 0 <= i < |m| ==> r[i] == Entry(StripKey(m[i].key.s, p), m[i].val)
  {
    seq(|m|, i requires 0 <= i < |m| && m[i].key.StrKey? => Entry(StripKey(m[i].key.s, p), m[i].val))
  }

  /** The assignments `$out[$k] = $v` of the loop, one per entry of `es`
      in order: a key seen before is overwritten in place. */
  function SetAll(out: PArray, es: PArray): (r: PArray)
    ensures UniqueKeys(out) ==> UniqueKeys(r)
    ensures |out| <= |r| && (r == [] <==> out == [] && es == [])
    decreases |es|
  {
    if es == [] then out else SetAll(Set(out, es[0].key, es[0].val), es[1..])
  }

  /** The value of the last entry of `es` with key `k`. */
  function LastValue(es: PArray, k: Key): (r: Option<Value>)
    ensures r.None? <==> !KeyExists(es, k)
    decreases |es|
  {
    if es == [] then None
    else
      match LastValue(es[1..], k)
      case Some(v) => Some(v)
      case None =>
        assert forall j :: 1 <= j < |es| ==> es[j] == es[1..][j - 1];
        if es[0].key == k then Some(es[0].val) else None
  }

  /** After the assignments each key holds the value last assigned to it,
      and keys never assigned keep what they had. */
  lemma {:induction false} SetAllLookup(out: PArray, es: PArray, k: Key)
    ensures Lookup(SetAll(out, es), k) == if KeyExists(es, k) then LastValue(es, k) else Lookup(out, k)
    decreases |es|
  {
    if es != [] {
      SetAllLookup(Set(out, es[0].key, es[0].val), es[1..], k);
    }
  }

  /** Without repeated keys the assignments simply append. */
  lemma {:induction false} SetAllFresh(out: PArray, es: PArray)
    requires UniqueKeys(out + es)
    ensures SetAll(out, es) == out + es
    decreases |es|
  {
    if es != [] {
      var e := es[0];
      assert es == [e] + es[1..];
      FreshKeyAppends(out, e, es[1..]);
      ConcatAssoc(out, [e], es[1..]);
      SetAllFresh(out + [e], es[1..]);
    }
  }

  /** The loop of the wildcard branch assigns the matching entries,
      re-keyed, in their original order. When two of them get the same key
      (`p.a` and `p.p.a` under the prefix `p.`), the later value replaces
      the earlier one at the earlier one's place. */
  lemma {:induction false} CollectSets(a: PArray, p: string, out: PArray)
    requires p != [] && StringKeyed(a)
    ensures Collect(a, p, out) == Ok(SetAll(out, Stripped(Matching(a, p), p)))
    decreases |a|
  {
    if a != [] {
      StringKeyedTail(a);
      if KeyHasPrefix(a[0].key, p) {
        var e := Entry(StripKey(a[0].key.s, p), a[0].val);
        var tail := Stripped(Matching(a[1..], p), p);
        CollectHitShape(a, p, e);
        assert ([e] + tail)[1..] == tail;
        CollectSets(a[1..], p, Set(out, e.key, e.val));
        CollectStep(a, p, out, Set(out, e.key, e.val));
      } else {
        assert Matching(a, p) == Matching(a[1..], p);
        CollectSets(a[1..], p, out);
        CollectStep(a, p, out, out);
      }
    }
  }

  /** When the re-keyed entries do not collide, the loop appends them all. */
  lemma CollectDistinct(a: PArray, p: string, out: PArray)
    requires p != [] && StringKeyed(a)
    requires UniqueKeys(out + Stripped(Matching(a, p), p))
    ensures Collect(a, p, out) == Ok(out + Stripped(Matching(a, p), p))
  {
    CollectSets(a, p, out);
    SetAllFresh(out, Stripped(Matching(a, p), p));
  }

  lemma StringKeyedTail(a: PArray)
    requires a != [] && StringKeyed(a)
    ensures StringKeyed(a[1..])
  {
    forall i | 0 <= i < |a[1..]| ensures a[1..][i].key.StrKey? {
      assert a[1..][i] == a[i + 1];
    }
  }

  /** One turn of the loop of `Collect`. */
  lemma CollectStep(a: PArray, p: string, out: PArray, next: PArray)
    requires p != [] && a != [] && a[0].key.StrKey?
    requires next == if KeyHasPrefix(a[0].key, p) then Set(out, StripKey(a[0].key.s, p), a[0].val) else out
    ensures Collect(a, p, out) == Collect(a[1..], p, next)
  {
    assert StrStartsWith(a[0].key, p) == Ok(KeyHasPrefix(a[0].key, p));
  }

  /** A matching first entry is stripped and kept in front. */
  lemma CollectHitShape(a: PArray, p: string, e: Entry)
    requires p != [] && a != [] && StringKeyed(a) && KeyHasPrefix(a[0].key, p)
    requires e == Entry(StripKey(a[0].key.s, p), a[0].val)
    ensures StringKeyed(a[1..])
    ensures Stripped(Matching(a, p), p) == [e] + Stripped(Matching(a[1..], p), p)
  {
    StringKeyedTail(a);
    assert Matching(a, p) == [a[0]] + Matching(a[1..], p);
  }

  /** Setting a key that appears after `out` in a duplicate-free array appends it. */
  lemma FreshKeyAppends(out: PArray, e: Entry, rest: PArray)
    requires UniqueKeys(out + ([e] + rest))
    ensures Set(out, e.key, e.val) == out + [e]
  {
    assert !KeyExists(out, e.key) by {
      var u := out + ([e] + rest);
      assert u[|out|] == e;
      forall j | 0 <= j < |out| ensures out[j].key != e.key {
        assert u[j] == out[j];
      }
    }
  }

  /** Wildcard `get` on a string-keyed array assigns the entries whose key
      starts with the prefix, prefix removed, in their original order, or
      returns the default when none matches. When the stripped keys do not
      collide, the result is exactly those entries. */
  lemma GetWildcard(key: string, a: PArray, default: Value)
    requires IsWildcard(key) && StringKeyed(a)
    ensures var p := key[..|key| - 1];
            var m := Matching(a, p);
            Get(key, a, default) == Ok(if m == [] then default else Arr(SetAll([], Stripped(m, p))))
    ensures var p := key[..|key| - 1];
            var m := Matching(a, p);
            UniqueKeys(Stripped(m, p)) ==> Get(key, a, default) == Ok(if m == [] then default else Arr(Stripped(m, p)))
  {
    var p := key[..|key| - 1];
    var es := Stripped(Matching(a, p), p);
    GetWildcardSets(key, a, default);
    if UniqueKeys(es) {
      assert [] + es == es;
      SetAllFresh([], es);
    }
  }

  lemma GetWildcardSets(key: string, a: PArray, default: Value)
    requires IsWildcard(key) && StringKeyed(a)
    ensures var p := key[..|key| - 1];
            var out := SetAll([], Stripped(Matching(a, p), p));
            Get(key, a, default) == Ok(if out == [] then default else Arr(out))
  {
    WildcardPrefix(key);
    CollectSets(a, key[..|key| - 1], []);
  }

  /** Two matching keys that collide once stripped: the later value takes
      the place of the first. */
  lemma GetWildcardCollision()
    ensures Get("p.*", [Entry(StrKey("p.a"), Scalar("1")), Entry(StrKey("p.p.a"), Scalar("2"))], Null)
            == Ok(Arr([Entry(StrKey("a"), Scalar("2"))]))
  {
    var a := [Entry(StrKey("p.a"), Scalar("1")), Entry(StrKey("p.p.a"), Scalar("2"))];
    var k := StrKey("a");
    CollisionEntries(a);
    OverwriteInPlace(k, Scalar("1"), Scalar("2"));
    GetWildcardSets("p.*", a, Null);
  }

  lemma CollisionEntries(a: PArray)
    requires a == [Entry(StrKey("p.a"), Scalar("1")), Entry(StrKey("p.p.a"), Scalar("2"))]
    ensures "p.*"[..|"p.*"| - 1] == "p." && IsWildcard("p.*") && StringKeyed(a)
    ensures Stripped(Matching(a, "p."), "p.") == [Entry(StrKey("a"), Scalar("1")), Entry(StrKey("a"), Scalar("2"))]
  {
    CollisionKeys();
    assert Matching(a, "p.") == a by {
      assert Matching(a[1..], "p.") == a[1..];
    }
  }

  lemma CollisionKeys()
    ensures StripKey("p.a", "p.") == StrKey("a") && StripKey("p.p.a", "p.") == StrKey("a")
  {
    assert ReplaceFrom("a", "p.", "") == "a";
    assert ReplaceAll("p.a", "p.", "") == "a";
    assert ReplaceAll("p.p.a", "p.", "") == "a";
    NormalizeKeepsText("a", 0);
  }

  /** Assigning one key twice leaves one entry with the second value. */
  lemma OverwriteInPlace(k: Key, v: Value, w: Value)
    ensures SetAll([], [Entry(k, v), Entry(k, w)]) == [Entry(k, w)]
  {
    var es := [Entry(k, v), Entry(k, w)];
    var one := Set([], k, v);
    assert one == [Entry(k, v)];
    var two := Set(one, k, w);
    assert KeyExists(one, k);
    assert two == [Entry(k, w)] by {
      assert |two| == 1 && two[0].key == k;
      assert Lookup(two, k) == Some(w);
    }
    assert es[1..] == [Entry(k, w)];
    assert SetAll(two, es[1..][1..]) == two;
  }

  /** The entries with key `k`. */
  function OnlyKey(a: PArray, k: Key): (r: PArray)
    ensures forall i :: 0 <= i < |r| ==> r[i].key == k
    decreases |a|
  {
    if a == [] then []
    else if a[0].key == k then [a[0]] + OnlyKey(a[1..], k)
    else OnlyKey(a[1..], k)
  }

  lemma {:induction false} LookupOnlyKey(a: PArray, k: Key)
    ensures Lookup(a, k) == Lookup(OnlyKey(a, k), k)
    decreases |a|
  {
    if a != [] && a[0].key != k {
      LookupOnlyKey(a[1..], k);
      assert IndexOf(a, k) == (match IndexOf(a[1..], k) case None => None case Some(i) => Some(i + 1));
    }
  }

  /** An exact `get` depends on the entries with that key only. */
  lemma GetIgnoresOthers(key: string, a: PArray, default: Value)
    requires !IsWildcard(key)
    ensures Get(key, a, default) == Get(key, OnlyKey(a, NormalizeKey(key)), default)
  {
    LookupOnlyKey(a, NormalizeKey(key));
  }

  // ------------------------------------------------------------------ flatten

  /** No value is itself an array. */
  predicate Flat(a: PArray) {
    forall i :: 0 <= i < |a| ==> !a[i].val.Arr?
  }

  /** `Arrays::flatten`: collapses nested arrays into `parent.child` keys. */
  function Flatten(a: PArray): (r: Result<PArray>)
    ensures r.Ok? ==> UniqueKeys(r.value)
    decreases Arr(a), 1
  {
    FlattenFrom([], a, 0)
  }

  /** The outer foreach of `flatten` from entry `i` on, with the output built
      so far. */
  function FlattenFrom(out: PArray, a: PArray, i: nat): (r: Result<PArray>)
    requires UniqueKeys(out) && i <= |a|
    ensures r.Ok? ==> UniqueKeys(r.value)
    decreases Arr(a), 0, |a| - i
  {
    if i == |a| then Ok(out)
    else
      var next :- FlattenEntry(out, a[i]);
      FlattenFrom(next, a, i + 1)
  }

  /** One turn of the outer foreach: a nested array is flattened first and
      then stored under a numeric key or merged under a string key; any
      other value is assigned. */
  function FlattenEntry(out: PArray, e: Entry): (r: Result<PArray>)
    requires UniqueKeys(out)
    ensures r.Ok? ==> UniqueKeys(r.value)
    decreases e.val, 2
  {
    match e.val
    case Arr(children) =>
      var rec :- Flatten(children);
      if IsNumericKey(e.key) then Ok(Set(out, e.key, Arr(rec)))
      else MergeChildren(out, e.key.s, rec)
    case _ => Ok(Set(out, e.key, e.val))
  }

  /** `$out[$key][] = $value`: appends to the list under `key`, creating it
      when the key is absent or null; a string there cannot be appended to. */
  function AppendUnder(out: PArray, key: Key, v: Value): (r: Result<PArray>)
    ensures UniqueKeys(out) && r.Ok? ==> UniqueKeys(r.value)
    ensures r.Err? <==> (exists t :: Lookup(out, key) == Some(Scalar(t)))
  {
    match Lookup(out, key)
    case Some(Scalar(t)) => Err(PushOnStringError)
    case Some(Arr(xs)) => Ok(Set(out, key, Arr(Push(xs, v))))
    case _ => Ok(Set(out, key, Arr(Push([], v))))
  }

  /** The composed key `"{$key}.{$child}"`. */
  function Compose(key: string, child: string): Key {
    NormalizeKey(key + "." + child)
  }

  /** The inner foreach of `flatten` for a nested array under the string key
      `key`: numeric child keys are appended to a list under `key`, string
      child keys become `key.child`. */
  function MergeChildren(out: PArray, key: string, rec: PArray): (r: Result<PArray>)
    requires UniqueKeys(out)
    ensures r.Ok? ==> UniqueKeys(r.value)
    decreases |rec|
  {
    if rec == [] then Ok(out)
    else
      var c := rec[0];
      if IsNumericKey(c.key) then
        var next :- AppendUnder(out, StrKey(key), c.val);
        MergeChildren(next, key, rec[1..])
      else
        MergeChildren(Set(out, Compose(key, c.key.s), c.val), key, rec[1..])
  }

  lemma {:induction false} FlattenFromFlat(out: PArray, a: PArray, i: nat)
    requires i <= |a| && Flat(a) && UniqueKeys(out) && UniqueKeys(out + a[i..])
    ensures FlattenFrom(out, a, i) == Ok(out + a[i..])
    decreases |a| - i
  {
    var u := out + a[i..];
    if i < |a| {
      var e := a[i];
      assert u[|out|] == e;
      assert !KeyExists(out, e.key) by {
        forall j | 0 <= j < |out| ensures out[j].key != e.key {
          assert u[j] == out[j];
        }
      }
      assert Set(out, e.key, e.val) == out + [e];
      assert (out + [e]) + a[i + 1..] == u;
      FlattenFromFlat(out + [e], a, i + 1);
    } else {
      assert out + a[i..] == out;
    }
  }

  /** On an array with no nested arrays `flatten` is the identity. */
  lemma FlattenFlat(a: PArray)
    requires Flat(a) && UniqueKeys(a)
    ensures Flatten(a) == Ok(a)
  {
    assert [] + a[0..] == a;
    FlattenFromFlat([], a, 0);
  }

  // ------------------------------------------------ flatten, piece by piece

  /** The outer loop handles entries one after another: flattening `a + b`
      carries on from the output for `a` with the entries of `b`. */
  lemma FlattenConcat(a: PArray, b: PArray)
    ensures Flatten(a + b) == match Flatten(a) case Ok(fa) => FlattenFrom(fa, b, 0) case Err(m) => Err(m)
  {
    FromPrefix([], a, b, 0);
    match Flatten(a)
    case Ok(fa) => FromSuffix(fa, a, b, 0);
    case Err(_) =>
  }

  lemma {:induction false} FromPrefix(out: PArray, a: PArray, b: PArray, i: nat)
    requires UniqueKeys(out) && i <= |a|
    ensures FlattenFrom(out, a + b, i)
            == match FlattenFrom(out, a, i) case Ok(o) => FlattenFrom(o, a + b, |a|) case Err(m) => Err(m)
    decreases |a| - i
  {
    if i < |a| {
      assert (a + b)[i] == a[i];
      var nx := FlattenEntry(out, a[i]);
      if nx.Ok? {
        FromPrefix(nx.value, a, b, i + 1);
      }
    }
  }

  lemma {:induction false} FromSuffix(out: PArray, a: PArray, b: PArray, j: nat)
    requires UniqueKeys(out) && j <= |b|
    ensures FlattenFrom(out, a + b, |a| + j) == FlattenFrom(out, b, j)
    decreases |b| - j
  {
    if j < |b| {
      assert (a + b)[|a| + j] == b[j];
      var nx := FlattenEntry(out, b[j]);
      if nx.Ok? {
        FromSuffix(nx.value, a, b, j + 1);
      }
    }
  }

  /** When the two flattenings share no key, flattening the concatenation
      concatenates them: no entry of `b` lands on, or extends a list of,
      an entry of `a`. */
  lemma FlattenConcatDisjoint(a: PArray, b: PArray)
    requires Flatten(a).Ok? && Flatten(b).Ok?
    requires Keys(Flatten(a).value) !! Keys(Flatten(b).value)
    ensures Flatten(a + b) == Ok(Flatten(a).value + Flatten(b).value)
  {
    var fa := Flatten(a).value;
    FlattenConcat(a, b);
    assert fa + [] == fa;
    FromShift(fa, [], b, 0);
  }

  /** The output only grows: keys once present stay. */
  lemma {:induction false} FromKeys(out: PArray, a: PArray, i: nat)
    requires UniqueKeys(out) && i <= |a| && FlattenFrom(out, a, i).Ok?
    ensures Keys(out) <= Keys(FlattenFrom(out, a, i).value)
    decreases |a| - i
  {
    if i < |a| {
      var nx := FlattenEntry(out, a[i]).value;
      EntryKeys(out, a[i]);
      FromKeys(nx, a, i + 1);
    }
  }

  lemma EntryKeys(out: PArray, e: Entry)
    requires UniqueKeys(out) && FlattenEntry(out, e).Ok?
    ensures Keys(out) <= Keys(FlattenEntry(out, e).value)
  {
    match e.val
    case Arr(children) =>
      var rec := Flatten(children).value;
      if IsNumericKey(e.key) {
        SetKeys(out, e.key, Arr(rec));
      } else {
        MergeKeys(out, e.key.s, rec);
      }
    case _ =>
      SetKeys(out, e.key, e.val);
  }

  lemma {:induction false} MergeKeys(out: PArray, key: string, rec: PArray)
    requires UniqueKeys(out) && MergeChildren(out, key, rec).Ok?
    ensures Keys(out) <= Keys(MergeChildren(out, key, rec).value)
    decreases |rec|
  {
    if rec != [] {
      var c := rec[0];
      if IsNumericKey(c.key) {
        var nx := AppendUnder(out, StrKey(key), c.val).value;
        AppendUnderKeys(out, StrKey(key), c.val);
        MergeKeys(nx, key, rec[1..]);
      } else {
        SetKeys(out, Compose(key, c.key.s), c.val);
        MergeKeys(Set(out, Compose(key, c.key.s), c.val), key, rec[1..]);
      }
    }
  }

  lemma AppendUnderKeys(out: PArray, key: Key, v: Value)
    requires AppendUnder(out, key, v).Ok?
    ensures Keys(AppendUnder(out, key, v).value) == Keys(out) + {key}
  {
    match Lookup(out, key)
    case Some(Arr(xs)) => SetKeys(out, key, Arr(Push(xs, v)));
    case _ => SetKeys(out, key, Arr(Push([], v)));
  }

  /** Entries in front whose keys the loop never touches are carried along
      unchanged. */
  lemma {:induction false} FromShift(out: PArray, x: PArray, a: PArray, i: nat)
    requires UniqueKeys(x) && UniqueKeys(out + x) && i <= |a| && FlattenFrom(x, a, i).Ok?
    requires Keys(out) !! Keys(FlattenFrom(x, a, i).value)
    ensures FlattenFrom(out + x, a, i) == Ok(out + FlattenFrom(x, a, i).value)
    decreases |a| - i
  {
    if i < |a| {
      var nx := FlattenEntry(x, a[i]).value;
      FromKeys(nx, a, i + 1);
      EntryShift(out, x, a[i]);
      FromShift(out, nx, a, i + 1);
    } else {
      assert FlattenFrom(out + x, a, i) == Ok(out + x);
    }
  }

  lemma EntryShift(out: PArray, x: PArray, e: Entry)
    requires UniqueKeys(x) && UniqueKeys(out + x) && FlattenEntry(x, e).Ok?
    requires Keys(out) !! Keys(FlattenEntry(x, e).value)
    ensures FlattenEntry(out + x, e) == Ok(out + FlattenEntry(x, e).value)
  {
    match e.val
    case Arr(children) =>
      var rec := Flatten(children).value;
      if IsNumericKey(e.key) {
        SetKeys(x, e.key, Arr(rec));
        SetShift(out, x, e.key, Arr(rec));
      } else {
        MergeShift(out, x, e.key.s, rec);
      }
    case _ =>
      SetKeys(x, e.key, e.val);
      SetShift(out, x, e.key, e.val);
  }

  lemma {:induction false} MergeShift(out: PArray, x: PArray, key: string, rec: PArray)
    requires UniqueKeys(x) && UniqueKeys(out + x) && MergeChildren(x, key, rec).Ok?
    requires Keys(out) !! Keys(MergeChildren(x, key, rec).value)
    ensures MergeChildren(out + x, key, rec) == Ok(out + MergeChildren(x, key, rec).value)
    decreases |rec|
  {
    if rec != [] {
      var c := rec[0];
      if IsNumericKey(c.key) {
        var nx := AppendUnder(x, StrKey(key), c.val).value;
        AppendUnderKeys(x, StrKey(key), c.val);
        MergeKeys(nx, key, rec[1..]);
        SetShift(out, x, StrKey(key), Arr([]));
        AppendUnderShift(out, x, StrKey(key), c.val);
        MergeShift(out, nx, key, rec[1..]);
      } else {
        var k := Compose(key, c.key.s);
        var nx := Set(x, k, c.val);
        SetKeys(x, k, c.val);
        MergeKeys(nx, key, rec[1..]);
        SetShift(out, x, k, c.val);
        MergeShift(out, nx, key, rec[1..]);
      }
    }
  }

  lemma AppendUnderShift(out: PArray, x: PArray, key: Key, v: Value)
    requires !KeyExists(out, key) && AppendUnder(x, key, v).Ok?
    ensures AppendUnder(out + x, key, v) == Ok(out + AppendUnder(x, key, v).value)
  {
    SetShift(out, x, key, Arr([]));
    match Lookup(x, key)
    case Some(Arr(xs)) => SetShift(out, x, key, Arr(Push(xs, v)));
    case _ => SetShift(out, x, key, Arr(Push([], v)));
  }

  /** A nested array under a numeric key is stored, flattened, under that key. */
  lemma FlattenNumericNested(k: Key, children: PArray)
    requires IsNumericKey(k) && Flatten(children).Ok?
    ensures Flatten([Entry(k, Arr(children))]) == Ok([Entry(k, Arr(Flatten(children).value))])
  {
    var rec := Flatten(children).value;
    var a := [Entry(k, Arr(children))];
    assert Set([], k, Arr(rec)) == [Entry(k, Arr(rec))];
    assert FlattenFrom([Entry(k, Arr(rec))], a, 1) == Ok([Entry(k, Arr(rec))]);
    assert FlattenFrom([], a, 0) == FlattenFrom([Entry(k, Arr(rec))], a, 1);
  }

  /** Children under the string key `k`, re-keyed as `k.child`. */
  function Composed(k: string, rec: PArray): (r: PArray)
    requires StringKeyed(rec)
    ensures |r| == |rec|
    ensures forall i :: 0 <= i < |rec| ==> r[i] == Entry(StrKey(k + "." + rec[i].key.s), rec[i].val)
  {
    seq(|rec|, i requires 0 <= i < |rec| && rec[i].key.StrKey? => Entry(StrKey(k + "." + rec[i].key.s), rec[i].val))
  }

  /** The values of `rec`, re-keyed 0, 1, 2, ... in order. */
  function Listed(rec: PArray): (r: PArray)
    ensures |r| == |rec| && IsList(r)
    ensures forall i :: 0 <= i < |rec| ==> r[i].val == rec[i].val
  {
    seq(|rec|, i requires 0 <= i < |rec| => Entry(IntKey(i), rec[i].val))
  }

  /** A composed key keeps its text: it holds a dot, so PHP never turns it
      into an integer. */
  lemma ComposeIsString(k: string, c: string)
    ensures Compose(k, c) == StrKey(k + "." + c)
  {
    NormalizeKeepsText(k + "." + c, |k|);
  }

  /** Distinct children give distinct composed keys. */
  lemma ComposedUnique(k: string, rec: PArray)
    requires StringKeyed(rec) && UniqueKeys(rec)
    ensures UniqueKeys(Composed(k, rec))
  {
    var r := Composed(k, rec);
    forall i, j | 0 <= i < j < |r| ensures r[i].key != r[j].key {
      var a := rec[i].key.s;
      var b := rec[j].key.s;
      assert rec[i].key != rec[j].key;
      assert (k + "." + a)[|k| + 1..] == a;
      assert (k + "." + b)[|k| + 1..] == b;
    }
  }

  /** Splitting a key-unique concatenation at one entry. */
  lemma UniqueSplit(out: PArray, e: Entry, tail: PArray)
    requires UniqueKeys(out + ([e] + tail))
    ensures !KeyExists(out, e.key) && UniqueKeys(out + [e]) && UniqueKeys((out + [e]) + tail)
  {
    var u := out + ([e] + tail);
    assert u[|out|] == e;
    forall j | 0 <= j < |out| ensures out[j].key != e.key {
      assert u[j] == out[j];
    }
    assert (out + [e]) + tail == u;
    forall i, j | 0 <= i < j < |out| + 1 ensures (out + [e])[i].key != (out + [e])[j].key {
      assert (out + [e])[i] == u[i] && (out + [e])[j] == u[j];
    }
  }

  lemma ComposedCons(k: string, rec: PArray)
    requires rec != [] && StringKeyed(rec)
    ensures StringKeyed(rec[1..])
    ensures Composed(k, rec) == [Entry(StrKey(k + "." + rec[0].key.s), rec[0].val)] + Composed(k, rec[1..])
  {
    assert forall i :: 0 <= i < |rec[1..]| ==> rec[1..][i] == rec[i + 1];
  }

  lemma MergeStepNamed(out: PArray, k: string, rec: PArray)
    requires UniqueKeys(out) && rec != [] && StringKeyed(rec)
    requires forall i :: 0 <= i < |rec| ==> !IsNumericKey(rec[i].key)
    ensures forall i :: 0 <= i < |rec[1..]| ==> !IsNumericKey(rec[1..][i].key)
    ensures MergeChildren(out, k, rec)
            == MergeChildren(Set(out, Compose(k, rec[0].key.s), rec[0].val), k, rec[1..])
  {
    assert forall i :: 0 <= i < |rec[1..]| ==> rec[1..][i] == rec[i + 1];
  }

  lemma {:induction false} MergeNamed(out: PArray, k: string, rec: PArray)
    requires StringKeyed(rec) && (forall i :: 0 <= i < |rec| ==> !IsNumericKey(rec[i].key))
    requires UniqueKeys(out) && UniqueKeys(out + Composed(k, rec))
    ensures MergeChildren(out, k, rec) == Ok(out + Composed(k, rec))
    decreases |rec|
  {
    if rec != [] {
      var c := rec[0];
      var e := Entry(StrKey(k + "." + c.key.s), c.val);
      var tail := Composed(k, rec[1..]);
      var next := out + [e];
      assert Composed(k, rec) == [e] + tail by {
        ComposedCons(k, rec);
      }
      assert MergeChildren(out, k, rec) == MergeChildren(next, k, rec[1..]) by {
        MergeStepNamed(out, k, rec);
        ComposeIsString(k, c.key.s);
        UniqueSplit(out, e, tail);
        assert Set(out, e.key, e.val) == next;
      }
      assert StringKeyed(rec[1..]) && (forall i :: 0 <= i < |rec[1..]| ==> !IsNumericKey(rec[1..][i].key))
             && UniqueKeys(next) && UniqueKeys(next + tail) by {
        ComposedCons(k, rec);
        MergeStepNamed(out, k, rec);
        UniqueSplit(out, e, tail);
      }
      MergeNamed(next, k, rec[1..]);
      ConcatAssoc(out, [e], tail);
    } else {
      assert out + Composed(k, rec) == out;
    }
  }

  /** Under a string key `k`, a nested array whose flattened children all
      have string keys becomes the entries `k.child`, in order. */
  lemma FlattenStringNestedNamed(k: string, children: PArray)
    requires !IsNumericKey(StrKey(k)) && Flatten(children).Ok?
    requires var rec := Flatten(children).value;
             StringKeyed(rec) && forall i :: 0 <= i < |rec| ==> !IsNumericKey(rec[i].key)
    ensures Flatten([Entry(StrKey(k), Arr(children))]) == Ok(Composed(k, Flatten(children).value))
  {
    var rec := Flatten(children).value;
    var a := [Entry(StrKey(k), Arr(children))];
    ComposedUnique(k, rec);
    assert [] + Composed(k, rec) == Composed(k, rec);
    MergeNamed([], k, rec);
    assert FlattenFrom(Composed(k, rec), a, 1) == Ok(Composed(k, rec));
    assert FlattenFrom([], a, 0) == FlattenFrom(Composed(k, rec), a, 1);
  }

  lemma {:induction false} MergeListed(k: string, rec: PArray, j: nat)
    requires 1 <= j <= |rec| && forall i :: 0 <= i < |rec| ==> IsNumericKey(rec[i].key)
    ensures MergeChildren([Entry(StrKey(k), Arr(Listed(rec[..j])))], k, rec[j..])
            == Ok([Entry(StrKey(k), Arr(Listed(rec)))])
    decreases |rec| - j
  {
    var out := [Entry(StrKey(k), Arr(Listed(rec[..j])))];
    if j < |rec| {
      var l := Listed(rec[..j]);
      ListNextIndex(l);
      assert Lookup(out, StrKey(k)) == Some(Arr(l));
      assert Push(l, rec[j].val) == Listed(rec[..j + 1]);
      assert Set(out, StrKey(k), Arr(Listed(rec[..j + 1]))) == [Entry(StrKey(k), Arr(Listed(rec[..j + 1])))];
      assert rec[j..][1..] == rec[j + 1..];
      MergeListed(k, rec, j + 1);
    } else {
      assert rec[..j] == rec;
    }
  }

  /** Under a string key `k`, a nested array whose flattened children all
      have numeric keys becomes one list under `k`, renumbered from 0. */
  lemma FlattenStringNestedList(k: string, children: PArray)
    requires !IsNumericKey(StrKey(k)) && Flatten(children).Ok?
    requires var rec := Flatten(children).value;
             rec != [] && forall i :: 0 <= i < |rec| ==> IsNumericKey(rec[i].key)
    ensures Flatten([Entry(StrKey(k), Arr(children))])
            == Ok([Entry(StrKey(k), Arr(Listed(Flatten(children).value)))])
  {
    var rec := Flatten(children).value;
    var a := [Entry(StrKey(k), Arr(children))];
    var first := [Entry(StrKey(k), Arr(Listed(rec[..1])))];
    assert NextIndex([]) == 0;
    assert Push([], rec[0].val) == Listed(rec[..1]);
    assert Set([], StrKey(k), Arr(Listed(rec[..1]))) == first;
    assert AppendUnder([], StrKey(k), rec[0].val) == Ok(first);
    assert rec[1..] == rec[1..];
    MergeListed(k, rec, 1);
    assert MergeChildren([], k, rec) == Ok([Entry(StrKey(k), Arr(Listed(rec)))]);
    assert FlattenFrom([Entry(StrKey(k), Arr(Listed(rec)))], a, 1) == Ok([Entry(StrKey(k), Arr(Listed(rec)))]);
    assert FlattenFrom([], a, 0) == FlattenFrom([Entry(StrKey(k), Arr(Listed(rec)))], a, 1);
  }
}
