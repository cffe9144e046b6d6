/** String primitives of PHP that the repository leans on, over `seq<char>`:
    prefix and suffix tests, searching, `str_replace` for one search string,
    and trimming of PCRE whitespace (`\s`). */
module Strings {
  import opened Results

  predicate IsPrefix(p: string, s: string) {
    |p| <= |s| && s[..|p|] == p
  }

  predicate IsSuffix(p: string, s: string) {
    |p| <= |s| && s[|s| - |p|..] == p
  }

  /** `d` occurs in `s` starting at index `i`. */
  predicate OccursAt(s: string, d: string, i: int) {
    0 <= i && i + |d| <= |s| && s[i..i + |d|] == d
  }

  /** The first index at or after `from` at which `d` occurs in `s`
      (`strpos` with an offset). */
  function Find(s: string, d: string, from: nat): (r: Option<nat>)
    ensures r.Some? ==> from <= r.value && OccursAt(s, d, r.value)
    ensures forall k :: from <= k && (r.None? || k < r.value) ==> !OccursAt(s, d, k)
    decreases |s| - from
  {
    if from + |d| > |s| then None
    else if s[from..from + |d|] == d then Some(from)
    else Find(s, d, from + 1)
  }

  /** `strpos($s, $d) !== false`. */
  predicate Contains(s: string, d: string) {
    Find(s, d, 0).Some?
  }

  /** PHP `str_replace($from, $to, $s)` with a single search string: every
      non-overlapping occurrence, scanned left to right, is replaced, and an
      empty search string leaves the subject as it is. */
  function ReplaceAll(s: string, from: string, to: string): string {
    if from == [] then s else ReplaceFrom(s, from, to)
  }

  function ReplaceFrom(s: string, from: string, to: string): string
    requires from != []
    decreases |s|
  {
    if s == [] then []
    else if IsPrefix(from, s) then to + ReplaceFrom(s[|from|..], from, to)
    else [s[0]] + ReplaceFrom(s[1..], from, to)
  }

  /** Independent reference for replacing one character by another. */
  function MapChar(s: string, a: char, b: char): (r: string)
    ensures |r| == |s|
    ensures forall i :: 0 <= i < |s| ==> r[i] == (if s[i] == a then b else s[i])
  {
    seq(|s|, i requires 0 <= i < |s| => if s[i] == a then b else s[i])
  }

  /** PCRE's `\s`: space, and tab, line feed, vertical tab, form feed and
      carriage return, which are the codes 9 to 13. */
  predicate IsSpace(c: char) {
    c == ' ' || '\t' <= c <= '\r'
  }

  /** The length of the run of `\s` characters starting at `i`. */
  function SpaceRun(s: string, i: nat): (n: nat)
    requires i <= |s|
    ensures i + n <= |s|
    ensures forall k :: i <= k < i + n ==> IsSpace(s[k])
    ensures i + n == |s| || !IsSpace(s[i + n])
    decreases |s| - i
  {
    if i < |s| && IsSpace(s[i]) then 1 + SpaceRun(s, i + 1) else 0
  }

  /** The length of `s[..n]` without its trailing run of `\s` characters. */
  function KeptLength(s: string, n: nat): (k: nat)
    requires n <= |s|
    ensures k <= n
    ensures k == 0 || !IsSpace(s[k - 1])
    ensures forall i :: k <= i < n ==> IsSpace(s[i])
    decreases n
  {
    if n > 0 && IsSpace(s[n - 1]) then KeptLength(s, n - 1) else n
  }

  /** Drops the leading run of `\s` characters. */
  function TrimStart(s: string): (r: string)
    ensures IsSuffix(r, s)
    ensures r == [] || !IsSpace(r[0])
    ensures forall i :: 0 <= i < |s| - |r| ==> IsSpace(s[i])
  {
    s[SpaceRun(s, 0)..]
  }

  /** Drops the trailing run of `\s` characters. */
  function TrimEnd(s: string): (r: string)
    ensures IsPrefix(r, s)
    ensures r == [] || !IsSpace(r[|r| - 1])
    ensures forall i :: |r| <= i < |s| ==> IsSpace(s[i])
  {
    s[..KeptLength(s, |s|)]
  }

  function Trim(s: string): string {
    TrimEnd(TrimStart(s))
  }

  // ---------------------------------------------------------------- lemmas

  /** A text that lacks the first character of `d` cannot contain `d`. */
  lemma NoFirstCharNotContained(s: string, d: string)
    requires d != [] && d[0] !in s
    ensures !Contains(s, d)
  {
  }

  /** An occurrence in a tail is an occurrence in the whole text. */
  lemma OccursInTail(s: string, d: string, k: nat)
    requires s != [] && OccursAt(s[1..], d, k)
    ensures OccursAt(s, d, k + 1)
  {
    assert s[k + 1..k + 1 + |d|] == s[1..][k..k + |d|];
  }

  lemma SliceOfSlice(s: string, j: nat, e: nat, a: nat, b: nat)
    requires j <= e <= |s| && a <= b <= e - j
    ensures s[j..e][a..b] == s[j + a..j + b]
  {
    assert forall i :: 0 <= i < b - a ==> s[j..e][a..b][i] == s[j + a + i];
  }

  /** `Find` stops at the first occurrence from where it starts. */
  lemma FindAt(s: string, d: string, from: nat, q: nat)
    requires from <= q && OccursAt(s, d, q)
    requires forall k :: from <= k < q ==> !OccursAt(s, d, k)
    ensures Find(s, d, from) == Some(q)
  {
  }

  lemma ConcatAssoc<T>(a: seq<T>, b: seq<T>, c: seq<T>)
    ensures a + b + c == a + (b + c)
  {
  }

  /** The middle part of a three-part concatenation. */
  lemma MiddleSlice<T>(x: seq<T>, t: seq<T>, y: seq<T>)
    ensures (x + t + y)[|x|..|x| + |t|] == t
  {
  }

  /** A slice inside the left part of a concatenation. */
  lemma LeftSlice<T>(a: seq<T>, b: seq<T>, i: nat, j: nat)
    requires i <= j <= |a|
    ensures (a + b)[i..j] == a[i..j]
  {
  }

  lemma SpaceRunExact(s: string, i: nat, n: nat)
    requires i + n < |s| && !IsSpace(s[i + n])
    requires forall k :: i <= k < i + n ==> IsSpace(s[k])
    ensures SpaceRun(s, i) == n
  {
  }

  /** `str_replace` leaves a subject without the search string unchanged. */
  lemma {:induction false} ReplaceAbsent(s: string, from: string, to: string)
    requires !Contains(s, from)
    ensures ReplaceAll(s, from, to) == s
    decreases |s|
  {
    if from != [] && s != [] {
      assert !OccursAt(s, from, 0);
      if Contains(s[1..], from) {
        OccursInTail(s, from, Find(s[1..], from, 0).value);
        assert false;
      }
      ReplaceAbsent(s[1..], from, to);
      assert s == [s[0]] + s[1..];
    }
  }

  /** A prefix that lacks the first character of the search string is
      copied through unchanged. */
  lemma {:induction false} ReplaceSkip(a: string, t: string, from: string, to: string)
    requires from != [] && from[0] !in a
    ensures ReplaceAll(a + t, from, to) == a + ReplaceAll(t, from, to)
    decreases |a|
  {
    if a != [] {
      assert !IsPrefix(from, a + t) by {
        assert (a + t)[0] == a[0];
        if |from| <= |a + t| {
          assert (a + t)[..|from|][0] == a[0];
        }
      }
      ReplaceHeadKept(a, t, from, to);
      ReplaceSkip(a[1..], t, from, to);
      ConsRest(a, ReplaceAll(t, from, to));
    } else {
      assert a + t == t;
    }
  }

  /** A prefix in which no occurrence starts is copied through unchanged. */
  lemma {:induction false} ReplacePassOver(a: string, t: string, from: string, to: string)
    requires from != [] && forall k :: 0 <= k < |a| ==> !OccursAt(a + t, from, k)
    ensures ReplaceAll(a + t, from, to) == a + ReplaceAll(t, from, to)
    decreases |a|
  {
    if a != [] {
      PassOverHead(a, t, from);
      ReplaceHeadKept(a, t, from, to);
      ReplacePassOver(a[1..], t, from, to);
      ConsRest(a, ReplaceAll(t, from, to));
    } else {
      assert a + t == t;
    }
  }

  /** One step of `ReplaceFrom` when no occurrence starts at the front. */
  lemma ReplaceHeadKept(a: string, t: string, from: string, to: string)
    requires from != [] && a != [] && !IsPrefix(from, a + t)
    ensures ReplaceAll(a + t, from, to) == [a[0]] + ReplaceAll(a[1..] + t, from, to)
  {
    assert (a + t)[0] == a[0];
    assert (a + t)[1..] == a[1..] + t;
  }

  lemma ConsRest<T>(a: seq<T>, r: seq<T>)
    requires a != []
    ensures [a[0]] + (a[1..] + r) == a + r
  {
    ConcatAssoc([a[0]], a[1..], r);
    assert [a[0]] + a[1..] == a;
  }

  lemma PassOverHead(a: string, t: string, from: string)
    requires from != [] && a != [] && forall k :: 0 <= k < |a| ==> !OccursAt(a + t, from, k)
    ensures !IsPrefix(from, a + t) && (a + t)[0] == a[0] && (a + t)[1..] == a[1..] + t
    ensures forall k :: 0 <= k < |a| - 1 ==> !OccursAt(a[1..] + t, from, k)
  {
    var s := a + t;
    assert !OccursAt(s, from, 0);
    if |from| <= |s| {
      assert s[..|from|] == s[0..|from|];
    }
    assert s[1..] == a[1..] + t;
    forall k | 0 <= k < |a| - 1 ensures !OccursAt(a[1..] + t, from, k) {
      assert !OccursAt(s, from, k + 1);
      if k + |from| <= |s| - 1 {
        assert s[1..][k..k + |from|] == s[k + 1..k + 1 + |from|];
      }
    }
  }

  /** An occurrence at the front is replaced and scanning resumes after it. */
  lemma ReplaceFront(t: string, from: string, to: string)
    requires from != []
    ensures ReplaceAll(from + t, from, to) == to + ReplaceAll(t, from, to)
  {
    assert (from + t)[..|from|] == from;
    assert (from + t)[|from|..] == t;
  }

  /** A single occurrence, flanked by text without its first character, is
      spliced out and replaced. */
  lemma ReplaceOnce(x: string, p: string, v: string, y: string)
    requires p != [] && p[0] !in x && p[0] !in y
    ensures ReplaceAll(x + p + y, p, v) == x + v + y
  {
    ConcatAssoc(x, p, y);
    ReplaceSkip(x, p + y, p, v);
    ReplaceFront(y, p, v);
    NoFirstCharNotContained(y, p);
    ReplaceAbsent(y, p, v);
  }

  /** Replacing one character by another is the character map. */
  lemma {:induction false} ReplaceCharIsMap(s: string, a: char, b: char)
    ensures ReplaceAll(s, [a], [b]) == MapChar(s, a, b)
    decreases |s|
  {
    if s != [] {
      ReplaceCharIsMap(s[1..], a, b);
      assert MapChar(s, a, b) == [if s[0] == a then b else s[0]] + MapChar(s[1..], a, b);
      if s[0] == a {
        assert IsPrefix([a], s);
      }
    }
  }

  /** Trimming a text padded by whitespace returns the text when its own ends
      are not whitespace. */
  lemma TrimPadded(l: string, e: string, r: string)
    requires forall i :: 0 <= i < |l| ==> IsSpace(l[i])
    requires forall i :: 0 <= i < |r| ==> IsSpace(r[i])
    requires e != [] && !IsSpace(e[0]) && !IsSpace(e[|e| - 1])
    ensures Trim(l + e + r) == e
  {
    var s := l + e + r;
    var t := TrimStart(s);
    assert s[|l|] == e[0];
    assert t == e + r;
    var u := TrimEnd(t);
    assert t[|e| - 1] == e[|e| - 1];
    assert u == t[..|u|];
  }
}
