/** Every matcher of `Patterns` reads the subject only from the index it is
    given onwards. Hence the scan resumed after the first `d` characters is
    the scan of what follows them: `preg_replace` and `preg_match_all` work
    tag by tag.

    The lemmas name each index into the whole text separately (`e` for
    `d + i`), so that the terms they state match the ones the definitions
    unfold to. */
module Locality {
  import opened Results
  import opened Strings
  import opened Patterns

  /** `y` is what follows the first `d` characters of `s`. */
  predicate Tail(s: string, y: string, d: nat) {
    d + |y| == |s| && s[d..] == y
  }

  function ShiftIndex(r: Option<nat>, d: nat): Option<nat> {
    match r
    case None => None
    case Some(i) => Some(d + i)
  }

  function ShiftPair(r: Option<(nat, nat)>, d: nat): Option<(nat, nat)> {
    match r
    case None => None
    case Some((t, e)) => Some((d + t, d + e))
  }

  function ShiftMatch(r: Option<Match>, d: nat): Option<Match> {
    match r
    case None => None
    case Some(m) => Some(Match(d + m.end, m.first, m.second))
  }

  function ShiftFound(r: Option<(nat, Match)>, d: nat): Option<(nat, Match)> {
    match r
    case None => None
    case Some((j, m)) => Some((d + j, Match(d + m.end, m.first, m.second)))
  }

  /** The moved results, one constructor at a time: with these the
      lemmas below close their goals by rewriting alone. */
  lemma ShiftIndexSome(d: nat, i: nat, ei: nat)
    requires ei == d + i
    ensures ShiftIndex(Some(i), d) == Some(ei)
  {
  }

  lemma ShiftPairSome(d: nat, t: nat, e: nat, et: nat, ee: nat)
    requires et == d + t && ee == d + e
    ensures ShiftPair(Some((t, e)), d) == Some((et, ee))
  {
  }

  lemma ShiftMatchSome(d: nat, e: nat, ee: nat, f: string, b: string)
    requires ee == d + e
    ensures ShiftMatch(Some(Match(e, f, b)), d) == Some(Match(ee, f, b))
  {
  }

  lemma ShiftFoundSome(d: nat, j: nat, ej: nat, e: nat, ee: nat, f: string, b: string)
    requires ej == d + j && ee == d + e
    ensures ShiftFound(Some((j, Match(e, f, b))), d) == Some((ej, Match(ee, f, b)))
  {
  }

  lemma ShiftIndexNone(d: nat)
    ensures ShiftIndex(None, d) == None
  {
  }

  lemma ShiftPairNone(d: nat)
    ensures ShiftPair(None, d) == None
  {
  }

  lemma ShiftMatchNone(d: nat)
    ensures ShiftMatch(None, d) == None
  {
  }

  lemma ShiftFoundNone(d: nat)
    ensures ShiftFound(None, d) == None
  {
  }

  lemma TailLength(s: string, y: string, d: nat)
    requires Tail(s, y, d)
    ensures d + |y| == |s|
  {
  }

  lemma OccursBound(s: string, t: string, i: nat)
    requires OccursAt(s, t, i)
    ensures i + |t| <= |s|
  {
  }

  // ------------------------------------------------------ characters

  lemma CharShift(s: string, y: string, d: nat, k: nat, e: nat)
    requires Tail(s, y, d) && k < |y| && e == d + k
    ensures e < |s| && s[e] == y[k]
  {
    assert s[d..][k] == s[d + k];
  }

  lemma SliceShift(s: string, y: string, d: nat, a: nat, b: nat, ea: nat, eb: nat)
    requires Tail(s, y, d) && a <= b <= |y| && ea == d + a && eb == d + b
    ensures eb <= |s| && s[ea..eb] == y[a..b]
  {
    assert s[d..][a..b] == s[d + a..d + b];
  }

  lemma OccursShift(s: string, y: string, d: nat, t: string, k: nat, e: nat)
    requires Tail(s, y, d) && e == d + k
    ensures OccursAt(s, t, e) <==> OccursAt(y, t, k)
  {
    if k + |t| <= |y| {
      SliceShift(s, y, d, k, k + |t|, e, e + |t|);
    }
  }

  lemma OccursCiShift(s: string, y: string, d: nat, t: string, k: nat, e: nat)
    requires Tail(s, y, d) && e == d + k
    ensures OccursAtCi(s, t, e) <==> OccursAtCi(y, t, k)
  {
    if k + |t| <= |y| {
      forall m | k <= m < k + |t| ensures s[d + m] == y[m] {
        CharShift(s, y, d, m, d + m);
      }
    }
  }

  // ------------------------------------------------------ searching

  /** `Find` in the whole text from `d + i` is `Find` in the tail from
      `i`, moved. */
  lemma {:induction false} FindShift(s: string, y: string, d: nat, t: string, i: nat, e: nat)
    requires Tail(s, y, d) && e == d + i
    ensures Find(s, t, e) == ShiftIndex(Find(y, t, i), d)
    decreases |y| - i
  {
    if i + |t| <= |y| {
      OccursShift(s, y, d, t, i, e);
      if OccursAt(y, t, i) {
        ShiftIndexSome(d, i, e);
      } else {
        FindShift(s, y, d, t, i + 1, e + 1);
      }
    }
  }

  lemma FindSome(s: string, y: string, d: nat, t: string, i: nat, e: nat, q: nat, eq: nat)
    requires Tail(s, y, d) && e == d + i && Find(y, t, i) == Some(q) && eq == d + q
    ensures Find(s, t, e) == Some(eq)
  {
    FindShift(s, y, d, t, i, e);
  }

  lemma FindNone(s: string, y: string, d: nat, t: string, i: nat, e: nat)
    requires Tail(s, y, d) && e == d + i && Find(y, t, i) == None
    ensures Find(s, t, e) == None
  {
    FindShift(s, y, d, t, i, e);
  }

  lemma {:induction false} SpaceRunShift(s: string, y: string, d: nat, i: nat, e: nat)
    requires Tail(s, y, d) && i <= |y| && e == d + i
    ensures e <= |s| && SpaceRun(s, e) == SpaceRun(y, i)
    decreases |y| - i
  {
    if i < |y| {
      CharShift(s, y, d, i, e);
      SpaceRunShift(s, y, d, i + 1, e + 1);
    }
  }

  lemma SkipShift(s: string, y: string, d: nat, i: nat, e: nat, c: char)
    requires Tail(s, y, d) && e == d + i
    ensures SkipOpt(s, e, c) == d + SkipOpt(y, i, c)
  {
    if i < |y| {
      CharShift(s, y, d, i, e);
    }
  }

  lemma {:induction false} KeywordShift(s: string, y: string, d: nat, i: nat, e: nat, kws: seq<string>)
    requires Tail(s, y, d) && e == d + i
    ensures KeywordAt(s, e, kws) == KeywordAt(y, i, kws)
    decreases |kws|
  {
    if kws != [] {
      OccursCiShift(s, y, d, kws[0], i, e);
      KeywordShift(s, y, d, i, e, kws[1..]);
    }
  }

  lemma HeadShift(s: string, y: string, d: nat, j: nat, e: nat, kws: seq<string>)
    requires Tail(s, y, d) && j + 2 <= |y| && e == d + j
    ensures e + 2 <= |s| && HeadEnd(s, e, kws) == ShiftIndex(HeadEnd(y, j, kws), d)
  {
    SkipShift(s, y, d, j + 2, e + 2, ' ');
    var i := SkipOpt(y, j + 2, ' ');
    KeywordShift(s, y, d, i, SkipOpt(s, e + 2, ' '), kws);
    match KeywordAt(y, i, kws)
    case None =>
      HeadNone(y, j, kws);
      HeadNone(s, e, kws);
    case Some(kw) =>
      HeadSome(y, j, kws, i, kw);
      HeadSome(s, e, kws, SkipOpt(s, e + 2, ' '), kw);
      ShiftIndexSome(d, i + |kw|, SkipOpt(s, e + 2, ' ') + |kw|);
  }

  lemma HeadNone(s: string, j: nat, kws: seq<string>)
    requires j + 2 <= |s| && KeywordAt(s, SkipOpt(s, j + 2, ' '), kws) == None
    ensures HeadEnd(s, j, kws) == None
  {
  }

  lemma HeadSome(s: string, j: nat, kws: seq<string>, i: nat, kw: string)
    requires j + 2 <= |s| && i == SkipOpt(s, j + 2, ' ') && KeywordAt(s, i, kws) == Some(kw)
    ensures HeadEnd(s, j, kws) == Some(i + |kw|)
  {
  }

  // ------------------------------------------------------ the matchers

  lemma EnclosedShift(s: string, y: string, d: nat, j: nat, e: nat, o: string, c: string)
    requires Tail(s, y, d) && o != [] && c != [] && OccursAt(y, o, j) && e == d + j
    ensures OccursAt(s, o, e)
    ensures EnclosedAt(s, e, o, c) == ShiftMatch(EnclosedAt(y, j, o, c), d)
  {
    hide *;
    OccursShift(s, y, d, o, j, e);
    OccursBound(y, o, j);
    SpaceRunShift(s, y, d, j + |o|, e + |o|);
    var n := SpaceRun(y, j + |o|);
    EnclosedAfterShift(s, y, d, j + |o|, e + |o|, n, c);
    EnclosedStages(y, j, o, c, n);
    EnclosedStages(s, e, o, c, n);
  }

  lemma EnclosedStages(s: string, j: nat, o: string, c: string, n: nat)
    requires o != [] && c != [] && OccursAt(s, o, j) && SpaceRun(s, j + |o|) == n
    ensures EnclosedAt(s, j, o, c) == EnclosedAfter(s, j + |o|, n, c)
  {
  }

  lemma EnclosedAfterShift(s: string, y: string, d: nat, a: nat, ea: nat, n: nat, c: string)
    requires Tail(s, y, d) && c != [] && a + n <= |y| && (a + n < |y| ==> !IsSpace(y[a + n]))
    requires ea == d + a
    ensures ea + n <= |s| && (ea + n < |s| ==> !IsSpace(s[ea + n]))
    ensures EnclosedAfter(s, ea, n, c) == ShiftMatch(EnclosedAfter(y, a, n, c), d)
  {
    if a + n < |y| {
      CharShift(s, y, d, a + n, ea + n);
    }
    match Find(y, c, a + n + 1)
    case Some(q) => EnclosedAfterShiftFound(s, y, d, a, ea, n, c, q);
    case None => EnclosedAfterShiftMissing(s, y, d, a, ea, n, c);
  }

  lemma EnclosedAfterShiftFound(s: string, y: string, d: nat, a: nat, ea: nat, n: nat, c: string, q: nat)
    requires Tail(s, y, d) && c != [] && a + n <= |y| && (a + n < |y| ==> !IsSpace(y[a + n]))
    requires ea == d + a && (ea + n < |s| ==> !IsSpace(s[ea + n]))
    requires Find(y, c, a + n + 1) == Some(q)
    ensures EnclosedAfter(s, ea, n, c) == ShiftMatch(EnclosedAfter(y, a, n, c), d)
  {
    hide *;
    OccursBound(y, c, q);
    FindSome(s, y, d, c, a + n + 1, ea + n + 1, q, d + q);
    SliceShift(s, y, d, a + n, q, ea + n, d + q);
    var g := y[a + n..q];
    EnclosedAfterFound(s, ea, n, c, d + q, g);
    EnclosedAfterFound(y, a, n, c, q, g);
    ShiftMatchSome(d, q + |c|, d + q + |c|, TrimEnd(g), []);
  }

  lemma EnclosedAfterShiftMissing(s: string, y: string, d: nat, a: nat, ea: nat, n: nat, c: string)
    requires Tail(s, y, d) && c != [] && a + n <= |y| && (a + n < |y| ==> !IsSpace(y[a + n]))
    requires ea == d + a && (ea + n < |s| ==> !IsSpace(s[ea + n]))
    requires Find(y, c, a + n + 1) == None
    ensures EnclosedAfter(s, ea, n, c) == ShiftMatch(EnclosedAfter(y, a, n, c), d)
  {
    FindNone(s, y, d, c, a + n + 1, ea + n + 1);
    OccursShift(s, y, d, c, a + n, ea + n);
    EnclosedAfterMissing(y, a, n, c);
    EnclosedAfterMissing(s, ea, n, c);
    if n > 0 && OccursAt(y, c, a + n) {
      CharShift(s, y, d, a + n - 1, ea + n - 1);
      ShiftMatchSome(d, a + n + |c|, ea + n + |c|, [y[a + n - 1]], []);
    }
  }

  lemma EnclosedAfterFound(s: string, a: nat, n: nat, c: string, q: nat, g: string)
    requires c != [] && a + n <= |s| && (a + n < |s| ==> !IsSpace(s[a + n]))
    requires Find(s, c, a + n + 1) == Some(q) && s[a + n..q] == g
    ensures EnclosedAfter(s, a, n, c) == Some(Match(q + |c|, TrimEnd(g), []))
  {
  }

  lemma EnclosedAfterMissing(s: string, a: nat, n: nat, c: string)
    requires c != [] && a + n <= |s| && (a + n < |s| ==> !IsSpace(s[a + n]))
    requires Find(s, c, a + n + 1) == None
    ensures EnclosedAfter(s, a, n, c)
            == if n > 0 && OccursAt(s, c, a + n) then Some(Match(a + n + |c|, [s[a + n - 1]], [])) else None
  {
  }

  /** `DirectiveAt` once the head has been looked for. */
  function DirectiveAfterHead(s: string, h: Option<nat>, quoted: bool): Option<Match>
    requires h.Some? ==> h.value <= |s|
  {
    match h
    case None => None
    case Some(h) =>
      var k := ArgStart(s, h, quoted);
      DirectiveRest(s, k, Find(s, "%}", k), quoted)
  }

  /** Where the group starts once the optional space, and for a quoted
      directive the optional quote, after the head ending at `h` are passed. */
  function ArgStart(s: string, h: nat, quoted: bool): nat {
    var k0 := SkipOpt(s, h, ' ');
    if quoted then SkipOpt(s, k0, '\'') else k0
  }

  /** `DirectiveAt` once the close has been looked for from `k`. */
  function DirectiveRest(s: string, k: nat, f: Option<nat>, quoted: bool): Option<Match>
    requires f.Some? ==> k <= f.value <= |s|
  {
    match f
    case None => None
    case Some(q) =>
      var g := s[k..q];
      if '\n' in g then None
      else Some(Match(q + 2, ArgText(g, quoted), []))
  }

  lemma DirectiveStages(s: string, j: nat, kws: seq<string>, quoted: bool)
    requires OccursAt(s, "{%", j)
    ensures DirectiveAt(s, j, kws, quoted) == DirectiveAfterHead(s, HeadEnd(s, j, kws), quoted)
  {
    match HeadEnd(s, j, kws)
    case None =>
    case Some(h) =>
      var k := ArgStart(s, h, quoted);
      assert k == if quoted then SkipOpt(s, SkipOpt(s, h, ' '), '\'') else SkipOpt(s, h, ' ');
      assert DirectiveAfterHead(s, Some(h), quoted) == DirectiveRest(s, k, Find(s, "%}", k), quoted);
      match Find(s, "%}", k)
      case None =>
      case Some(q) =>
        assert DirectiveRest(s, k, Some(q), quoted)
            == if '\n' in s[k..q] then None else Some(Match(q + 2, ArgText(s[k..q], quoted), []));
  }

  lemma DirectiveShift(s: string, y: string, d: nat, j: nat, e: nat, kws: seq<string>, quoted: bool)
    requires Tail(s, y, d) && OccursAt(y, "{%", j) && e == d + j
    ensures OccursAt(s, "{%", e)
    ensures DirectiveAt(s, e, kws, quoted) == ShiftMatch(DirectiveAt(y, j, kws, quoted), d)
  {
    OccursShift(s, y, d, "{%", j, e);
    HeadShift(s, y, d, j, e, kws);
    DirectiveStages(y, j, kws, quoted);
    DirectiveStages(s, e, kws, quoted);
    DirectiveHeadShift(s, y, d, HeadEnd(y, j, kws), HeadEnd(s, e, kws), quoted);
  }

  lemma DirectiveHeadShift(s: string, y: string, d: nat, h: Option<nat>, hs: Option<nat>, quoted: bool)
    requires Tail(s, y, d) && (h.Some? ==> h.value <= |y|) && hs == ShiftIndex(h, d)
    ensures hs.Some? ==> hs.value <= |s|
    ensures DirectiveAfterHead(s, hs, quoted) == ShiftMatch(DirectiveAfterHead(y, h, quoted), d)
  {
    if h.Some? {
      DirectiveArgShift(s, y, d, h.value, hs.value, quoted);
    }
  }

  lemma DirectiveArgShift(s: string, y: string, d: nat, h: nat, eh: nat, quoted: bool)
    requires Tail(s, y, d) && h <= |y| && eh == d + h
    ensures DirectiveAfterHead(s, Some(eh), quoted) == ShiftMatch(DirectiveAfterHead(y, Some(h), quoted), d)
  {
    ArgStartShift(s, y, d, h, eh, quoted);
    var k := ArgStart(y, h, quoted);
    var ek := ArgStart(s, eh, quoted);
    DirectiveCloseShift(s, y, d, k, ek, quoted);
    DirectiveArgStages(y, h, k, quoted);
    DirectiveArgStages(s, eh, ek, quoted);
  }

  lemma DirectiveArgStages(s: string, h: nat, k: nat, quoted: bool)
    requires h <= |s| && k == ArgStart(s, h, quoted)
    ensures DirectiveAfterHead(s, Some(h), quoted) == DirectiveRest(s, k, Find(s, "%}", k), quoted)
  {
  }

  lemma ArgStartShift(s: string, y: string, d: nat, h: nat, eh: nat, quoted: bool)
    requires Tail(s, y, d) && eh == d + h
    ensures ArgStart(s, eh, quoted) == d + ArgStart(y, h, quoted)
  {
    SkipShift(s, y, d, h, eh, ' ');
    SkipShift(s, y, d, SkipOpt(y, h, ' '), SkipOpt(s, eh, ' '), '\'');
  }

  lemma DirectiveCloseShift(s: string, y: string, d: nat, k: nat, ek: nat, quoted: bool)
    requires Tail(s, y, d) && ek == d + k
    ensures DirectiveRest(s, ek, Find(s, "%}", ek), quoted)
            == ShiftMatch(DirectiveRest(y, k, Find(y, "%}", k), quoted), d)
  {
    hide *;
    FindShift(s, y, d, "%}", k, ek);
    match Find(y, "%}", k)
    case None =>
      ShiftIndexNone(d);
      DirectiveRestNone(y, k, quoted);
      DirectiveRestNone(s, ek, quoted);
      ShiftMatchNone(d);
    case Some(q) =>
      ShiftIndexSome(d, q, d + q);
      OccursBound(y, "%}", q);
      SliceShift(s, y, d, k, q, ek, d + q);
      var g := y[k..q];
      DirectiveRestSome(s, ek, d + q, quoted, g);
      DirectiveRestSome(y, k, q, quoted, g);
      if '\n' !in g {
        ShiftMatchSome(d, q + 2, d + q + 2, ArgText(g, quoted), []);
      } else {
        ShiftMatchNone(d);
      }
  }

  lemma DirectiveRestNone(s: string, k: nat, quoted: bool)
    ensures DirectiveRest(s, k, None, quoted) == None
  {
  }

  lemma DirectiveRestSome(s: string, k: nat, q: nat, quoted: bool, g: string)
    requires k <= q <= |s| && s[k..q] == g
    ensures DirectiveRest(s, k, Some(q), quoted)
            == if '\n' in g then None else Some(Match(q + 2, ArgText(g, quoted), []))
  {
  }

  lemma EndTagShift(s: string, y: string, d: nat, t: nat, et: nat)
    requires Tail(s, y, d) && et == d + t
    ensures EndTagAt(s, et) == ShiftIndex(EndTagAt(y, t), d)
  {
    OccursShift(s, y, d, "{%", t, et);
    if OccursAt(y, "{%", t) {
      HeadShift(s, y, d, t, et, ["endblock"]);
      match HeadEnd(y, t, ["endblock"])
      case None =>
      case Some(h) =>
        SkipShift(s, y, d, h, d + h, ' ');
        var u := SkipOpt(y, h, ' ');
        var eu := SkipOpt(s, d + h, ' ');
        OccursShift(s, y, d, "%}", u, eu);
        EndTagSome(y, t, h, u);
        EndTagSome(s, et, d + h, eu);
        ShiftIndexSome(d, u + 2, eu + 2);
    }
  }

  lemma EndTagSome(s: string, t: nat, h: nat, u: nat)
    requires OccursAt(s, "{%", t) && HeadEnd(s, t, ["endblock"]) == Some(h) && u == SkipOpt(s, h, ' ')
    ensures EndTagAt(s, t) == if OccursAt(s, "%}", u) then Some(u + 2) else None
  {
  }

  lemma {:induction false} FindEndTagShift(s: string, y: string, d: nat, from: nat, ef: nat)
    requires Tail(s, y, d) && ef == d + from
    ensures FindEndTag(s, ef) == ShiftPair(FindEndTag(y, from), d)
    decreases |y| - from, 1
  {
    hide *;
    TailLength(s, y, d);
    if from + 2 <= |y| {
      EndTagShift(s, y, d, from, ef);
      match EndTagAt(y, from)
      case Some(e) =>
        ShiftIndexSome(d, e, d + e);
        FindEndTagHere(y, from, e);
        FindEndTagHere(s, ef, d + e);
        ShiftPairSome(d, from, e, ef, d + e);
      case None =>
        ShiftIndexNone(d);
        FindEndTagOnShift(s, y, d, from, ef);
    } else {
      FindEndTagPast(y, from);
      FindEndTagPast(s, ef);
      ShiftPairNone(d);
    }
  }

  lemma {:induction false} FindEndTagOnShift(s: string, y: string, d: nat, from: nat, ef: nat)
    requires Tail(s, y, d) && ef == d + from && from < |y|
    requires EndTagAt(y, from) == None && EndTagAt(s, ef) == None
    ensures FindEndTag(s, ef) == ShiftPair(FindEndTag(y, from), d)
    decreases |y| - from, 0
  {
    hide *;
    FindEndTagOn(y, from);
    FindEndTagOn(s, ef);
    FindEndTagShift(s, y, d, from + 1, ef + 1);
  }

  lemma FindEndTagHere(s: string, from: nat, e: nat)
    requires EndTagAt(s, from) == Some(e)
    ensures FindEndTag(s, from) == Some((from, e))
  {
  }

  lemma FindEndTagOn(s: string, from: nat)
    requires EndTagAt(s, from) == None
    ensures FindEndTag(s, from) == FindEndTag(s, from + 1)
  {
  }

  lemma FindEndTagPast(s: string, from: nat)
    requires |s| < from + 2
    ensures FindEndTag(s, from) == None
  {
  }

  lemma BlockShift(s: string, y: string, d: nat, j: nat, e: nat)
    requires Tail(s, y, d) && OccursAt(y, "{%", j) && e == d + j
    ensures OccursAt(s, "{%", e)
    ensures BlockAt(s, e) == ShiftMatch(BlockAt(y, j), d)
  {
    hide *;
    OccursBound(y, "{%", j);
    OccursShift(s, y, d, "{%", j, e);
    HeadShift(s, y, d, j, e, ["block"]);
    match HeadEnd(y, j, ["block"])
    case None =>
      ShiftIndexNone(d);
      BlockNoHead(y, j);
      BlockNoHead(s, e);
      ShiftMatchNone(d);
    case Some(h) =>
      ShiftIndexSome(d, h, d + h);
      SkipShift(s, y, d, h, d + h, ' ');
      var k := SkipOpt(y, h, ' ');
      var ek := SkipOpt(s, d + h, ' ');
      BlockHeadShift(s, y, d, k, ek);
      BlockHead(y, j, h, k);
      BlockHead(s, e, d + h, ek);
  }

  lemma BlockNoHead(s: string, j: nat)
    requires OccursAt(s, "{%", j) && HeadEnd(s, j, ["block"]) == None
    ensures BlockAt(s, j) == None
  {
  }

  lemma BlockHead(s: string, j: nat, h: nat, k: nat)
    requires OccursAt(s, "{%", j) && HeadEnd(s, j, ["block"]) == Some(h) && k == SkipOpt(s, h, ' ')
    ensures BlockAt(s, j) == BlockAfterHead(s, k)
  {
  }

  lemma BlockHeadShift(s: string, y: string, d: nat, k: nat, ek: nat)
    requires Tail(s, y, d) && ek == d + k
    ensures BlockAfterHead(s, ek) == ShiftMatch(BlockAfterHead(y, k), d)
  {
    hide *;
    FindShift(s, y, d, "%}", k, ek);
    match Find(y, "%}", k)
    case None =>
      ShiftIndexNone(d);
      BlockNoClose(y, k);
      BlockNoClose(s, ek);
      ShiftMatchNone(d);
    case Some(q) =>
      ShiftIndexSome(d, q, d + q);
      BlockNameShift(s, y, d, k, ek, q, d + q);
      BlockClose(y, k, q);
      BlockClose(s, ek, d + q);
  }

  lemma BlockNoClose(s: string, k: nat)
    requires Find(s, "%}", k) == None
    ensures BlockAfterHead(s, k) == None
  {
  }

  lemma BlockClose(s: string, k: nat, q: nat)
    requires Find(s, "%}", k) == Some(q)
    ensures BlockAfterHead(s, k) == BlockAfterName(s, k, q)
  {
  }

  lemma BlockNameShift(s: string, y: string, d: nat, k: nat, ek: nat, q: nat, eq: nat)
    requires Tail(s, y, d) && k <= q && OccursAt(y, "%}", q) && ek == d + k && eq == d + q
    ensures OccursAt(s, "%}", eq)
    ensures BlockAfterName(s, ek, eq) == ShiftMatch(BlockAfterName(y, k, q), d)
  {
    hide *;
    OccursBound(y, "%}", q);
    OccursShift(s, y, d, "%}", q, eq);
    FindEndTagShift(s, y, d, q + 2, eq + 2);
    match FindEndTag(y, q + 2)
    case None =>
      ShiftPairNone(d);
      BlockNameNone(y, k, q);
      BlockNameNone(s, ek, eq);
      ShiftMatchNone(d);
    case Some((t, e)) =>
      ShiftPairSome(d, t, e, d + t, d + e);
      SliceShift(s, y, d, k, q, ek, eq);
      SliceShift(s, y, d, q + 2, t, eq + 2, d + t);
      var g := y[k..q];
      var b := y[q + 2..t];
      BlockNameSome(y, k, q, t, e, g, b);
      BlockNameSome(s, ek, eq, d + t, d + e, g, b);
      ShiftMatchSome(d, e, d + e, StripOne(g, ' '), b);
  }

  lemma BlockNameNone(s: string, k: nat, q: nat)
    requires k <= q && OccursAt(s, "%}", q) && FindEndTag(s, q + 2) == None
    ensures BlockAfterName(s, k, q) == None
  {
  }

  lemma BlockNameSome(s: string, k: nat, q: nat, t: nat, e: nat, g: string, b: string)
    requires k <= q && OccursAt(s, "%}", q) && FindEndTag(s, q + 2) == Some((t, e))
    requires s[k..q] == g && s[q + 2..t] == b
    ensures BlockAfterName(s, k, q) == Some(Match(e, StripOne(g, ' '), b))
  {
  }

  lemma {:induction false} SpellingShift(s: string, y: string, d: nat, j: nat, e: nat, alts: seq<string>)
    requires Tail(s, y, d) && e == d + j
    ensures FirstSpellingAt(s, e, alts) == FirstSpellingAt(y, j, alts)
    decreases |alts|
  {
    if alts != [] {
      OccursShift(s, y, d, alts[0], j, e);
      SpellingShift(s, y, d, j, e, alts[1..]);
    }
  }

  lemma YieldShift(s: string, y: string, d: nat, j: nat, e: nat, n: string)
    requires Tail(s, y, d) && e == d + j
    ensures YieldTagAt(s, e, n) == ShiftIndex(YieldTagAt(y, j, n), d)
  {
    var alts := YieldSpellings(n);
    SpellingShift(s, y, d, j, e, alts);
    match FirstSpellingAt(y, j, alts)
    case None =>
    case Some(i) => ShiftIndexSome(d, j + |alts[i]|, e + |alts[i]|);
  }

  /** The attempt at `d + j` is the attempt at `j` in the tail, moved. */
  lemma MatchShift(p: Pattern, s: string, y: string, d: nat, j: nat, e: nat)
    requires Tail(s, y, d) && Valid(p) && OccursAt(y, Lead(p), j) && e == d + j
    ensures OccursAt(s, Lead(p), e)
    ensures MatchAt(p, s, e) == ShiftMatch(MatchAt(p, y, j), d)
  {
    match p
    case Enclosed(o, c) => EnclosedShift(s, y, d, j, e, o, c);
    case Directive(kws, quoted) => DirectiveShift(s, y, d, j, e, kws, quoted);
    case BlockSection => BlockShift(s, y, d, j, e);
    case YieldOf(n) =>
      OccursShift(s, y, d, "{%", j, e);
      YieldShift(s, y, d, j, e, n);
      match YieldTagAt(y, j, n)
      case None =>
      case Some(x) => ShiftMatchSome(d, x, d + x, [], []);
  }

  // ------------------------------------------------------------ the scan

  lemma {:induction false} NextMatchShift(p: Pattern, s: string, y: string, d: nat, i: nat, e: nat)
    requires Tail(s, y, d) && Valid(p) && i <= |y| && e == d + i
    ensures NextMatch(p, s, e) == ShiftFound(NextMatch(p, y, i), d)
    decreases |y| - i, 1
  {
    hide *;
    TailLength(s, y, d);
    FindShift(s, y, d, Lead(p), i, e);
    match Find(y, Lead(p), i)
    case None =>
      ShiftIndexNone(d);
      NextMatchAbsent(p, y, i);
      NextMatchAbsent(p, s, e);
      ShiftFoundNone(d);
    case Some(j) =>
      ShiftIndexSome(d, j, d + j);
      NextMatchAtShift(p, s, y, d, i, e, j, d + j);
  }

  /** `NextMatchShift` once the lead has been found at `j`. */
  lemma {:induction false} NextMatchAtShift(p: Pattern, s: string, y: string, d: nat, i: nat, e: nat, j: nat, ej: nat)
    requires Tail(s, y, d) && Valid(p) && i <= |y| && e == d + i && ej == d + j
    requires Find(y, Lead(p), i) == Some(j) && Find(s, Lead(p), e) == Some(ej)
    ensures NextMatch(p, s, e) == ShiftFound(NextMatch(p, y, i), d)
    decreases |y| - i, 0
  {
    hide *;
    TailLength(s, y, d);
    OccursBound(y, Lead(p), j);
    MatchShift(p, s, y, d, j, ej);
    match MatchAt(p, y, j)
    case Some(Match(me, mf, mb)) =>
      ShiftMatchSome(d, me, d + me, mf, mb);
      NextMatchFound(p, y, i, j, Match(me, mf, mb));
      NextMatchFound(p, s, e, ej, Match(d + me, mf, mb));
      ShiftFoundSome(d, j, ej, me, d + me, mf, mb);
    case None =>
      ShiftMatchNone(d);
      NextMatchMiss(p, y, i, j);
      NextMatchMiss(p, s, e, ej);
      NextMatchShift(p, s, y, d, j + 1, ej + 1);
  }

  lemma NextMatchAbsent(p: Pattern, s: string, i: nat)
    requires Valid(p) && i <= |s| && Find(s, Lead(p), i) == None
    ensures NextMatch(p, s, i) == None
  {
    assert NextMatch(p, s, i) == TryFrom(p, s, None);
  }

  lemma NextMatchFound(p: Pattern, s: string, i: nat, j: nat, m: Match)
    requires Valid(p) && i <= |s| && Find(s, Lead(p), i) == Some(j) && MatchAt(p, s, j) == Some(m)
    ensures NextMatch(p, s, i) == Some((j, m))
  {
    assert NextMatch(p, s, i) == TryFrom(p, s, Some(j));
  }

  /** The scan of the whole text resumed at `d + i` is the scan of the
      tail resumed at `i`: the pieces hold text only, and that text is the
      same. */
  lemma {:induction false} ScanShift(p: Pattern, s: string, y: string, d: nat, i: nat, e: nat)
    requires Tail(s, y, d) && Valid(p) && i <= |y| && e == d + i
    ensures ScanFrom(p, s, e) == ScanFrom(p, y, i)
    decreases |y| - i, 1
  {
    hide *;
    TailLength(s, y, d);
    NextMatchShift(p, s, y, d, i, e);
    match NextMatch(p, y, i)
    case None =>
      ShiftFoundNone(d);
      SliceShift(s, y, d, i, |y|, e, |s|);
      ScanEnds(p, y, i, y[i..|y|]);
      ScanEnds(p, s, e, y[i..|y|]);
    case Some((j, Match(me, mf, mb))) =>
      ShiftFoundSome(d, j, d + j, me, d + me, mf, mb);
      ScanOnShift(p, s, y, d, i, e, j, d + j, me, d + me, mf, mb);
  }

  /** `ScanShift` once the next tag has been found. */
  lemma {:induction false} ScanOnShift(p: Pattern, s: string, y: string, d: nat, i: nat, e: nat,
                                       j: nat, ej: nat, me: nat, eme: nat, mf: string, mb: string)
    requires Tail(s, y, d) && Valid(p) && i <= |y| && e == d + i && ej == d + j && eme == d + me
    requires NextMatch(p, y, i) == Some((j, Match(me, mf, mb)))
    requires e <= |s| && NextMatch(p, s, e) == Some((ej, Match(eme, mf, mb)))
    ensures ScanFrom(p, s, e) == ScanFrom(p, y, i)
    decreases |y| - i, 0
  {
    hide *;
    SliceShift(s, y, d, i, j, e, ej);
    SliceShift(s, y, d, j, me, ej, eme);
    ScanShift(p, s, y, d, me, eme);
    var lit := y[i..j];
    var whole := y[j..me];
    ScanGoesOn(p, y, i, j, Match(me, mf, mb), lit, whole);
    ScanGoesOn(p, s, e, ej, Match(eme, mf, mb), lit, whole);
  }

  lemma ScanEnds(p: Pattern, s: string, i: nat, rest: string)
    requires Valid(p) && i <= |s| && NextMatch(p, s, i) == None && s[i..|s|] == rest
    ensures ScanFrom(p, s, i) == [Lit(rest)]
  {
    assert s[i..] == s[i..|s|];
  }

  lemma ScanGoesOn(p: Pattern, s: string, i: nat, j: nat, m: Match, lit: string, whole: string)
    requires Valid(p) && i <= |s| && NextMatch(p, s, i) == Some((j, m))
    requires i <= j <= m.end <= |s| && s[i..j] == lit && s[j..m.end] == whole
    ensures ScanFrom(p, s, i) == [Lit(lit), Tag(whole, m.first, m.second)] + ScanFrom(p, s, m.end)
  {
  }

  // -------------------------------------------------- one tag at a time

  /** The scan of `x + t + y` when its first match is `t`, right after
      `x`: the text `x`, the tag, then the scan of `y` on its own. */
  lemma ScanStep(p: Pattern, x: string, t: string, y: string, f: string, b: string)
    requires Valid(p) && Lead(p)[0] !in x
    requires OccursAt(x + t + y, Lead(p), |x|)
    requires MatchAt(p, x + t + y, |x|) == Some(Match(|x| + |t|, f, b))
    ensures Scan(p, x + t + y) == [Lit(x), Tag(t, f, b)] + Scan(p, y)
  {
    var s := x + t + y;
    var j := |x|;
    var e := j + |t|;
    assert s[0..j] == x && s[j..e] == t && s[e..] == y;
    forall k | 0 <= k < j ensures s[k] != Lead(p)[0] {
      assert s[k] == x[k];
    }
    NoOccurrence(s, Lead(p), 0, j);
    FindAt(s, Lead(p), 0, j);
    NextMatchFound(p, s, 0, j, Match(e, f, b));
    ScanGoesOn(p, s, 0, j, Match(e, f, b), x, t);
    ScanShift(p, s, y, e, 0, e);
  }

  /** `preg_replace` one tag at a time: the tag right after `x` is
      replaced and the rest is replaced on its own. */
  lemma ReplaceStep(p: Pattern, x: string, t: string, y: string, f: string, b: string, rep: Repl)
    requires Valid(p) && Lead(p)[0] !in x
    requires OccursAt(x + t + y, Lead(p), |x|)
    requires MatchAt(p, x + t + y, |x|) == Some(Match(|x| + |t|, f, b))
    ensures Replace(p, x + t + y, rep) == x + Substitute(f, rep) + Replace(p, y, rep)
  {
    ScanStep(p, x, t, y, f, b);
    RenderTwo(x, Tag(t, f, b), Scan(p, y), rep);
  }

  /** `preg_match_all` one tag at a time. */
  lemma MatchAllStep(p: Pattern, x: string, t: string, y: string, f: string, b: string)
    requires Valid(p) && Lead(p)[0] !in x
    requires OccursAt(x + t + y, Lead(p), |x|)
    requires MatchAt(p, x + t + y, |x|) == Some(Match(|x| + |t|, f, b))
    ensures MatchAll(p, x + t + y) == [Tag(t, f, b)] + MatchAll(p, y)
  {
    ScanStep(p, x, t, y, f, b);
    TagsTwo(x, Tag(t, f, b), Scan(p, y));
  }

  /** Text in which no match starts is copied through, and the rest is
      replaced on its own. */
  lemma ReplaceSkip(p: Pattern, z: string, y: string, rep: Repl)
    requires Valid(p)
    requires forall k :: 0 <= k < |z| && OccursAt(z + y, Lead(p), k) ==> MatchAt(p, z + y, k).None?
    ensures Replace(p, z + y, rep) == z + Replace(p, y, rep)
  {
    var s := z + y;
    var e := |z|;
    assert s[0..e] == z && s[e..] == y;
    NextMatchSkip(p, s, 0, e);
    RenderFrom(p, s, 0, e, rep);
    ScanShift(p, s, y, e, 0, e);
  }

  lemma RenderTwo(x: string, t: Piece, rest: seq<Piece>, rep: Repl)
    requires t.Tag?
    ensures Render([Lit(x), t] + rest, rep) == x + Substitute(t.first, rep) + Render(rest, rep)
  {
    assert ([Lit(x), t] + rest)[1..] == [t] + rest;
    assert ([t] + rest)[1..] == rest;
  }

  lemma TagsTwo(x: string, t: Piece, rest: seq<Piece>)
    requires t.Tag?
    ensures Tags([Lit(x), t] + rest) == [t] + Tags(rest)
  {
    assert ([Lit(x), t] + rest)[1..] == [t] + rest;
    assert ([t] + rest)[1..] == rest;
  }

  lemma RenderLit(a: string, rep: Repl)
    ensures Render([Lit(a)], rep) == a
  {
  }

  /** The rendering of the scan from `i` when the next match is the one
      from `j` on: the text between is copied. */
  lemma RenderFrom(p: Pattern, s: string, i: nat, j: nat, rep: Repl)
    requires Valid(p) && i <= j <= |s| && NextMatch(p, s, i) == NextMatch(p, s, j)
    ensures Render(ScanFrom(p, s, i), rep) == s[i..j] + Render(ScanFrom(p, s, j), rep)
  {
    hide *;
    match NextMatch(p, s, j)
    case None => RenderFromEnd(p, s, i, j, rep);
    case Some((k, Match(me, mf, mb))) => RenderFromTag(p, s, i, j, k, me, mf, mb, rep);
  }

  lemma RenderFromEnd(p: Pattern, s: string, i: nat, j: nat, rep: Repl)
    requires Valid(p) && i <= j <= |s| && NextMatch(p, s, i) == None && NextMatch(p, s, j) == None
    ensures Render(ScanFrom(p, s, i), rep) == s[i..j] + Render(ScanFrom(p, s, j), rep)
  {
    hide *;
    ScanEnds(p, s, i, s[i..|s|]);
    ScanEnds(p, s, j, s[j..|s|]);
    RenderLit(s[i..|s|], rep);
    RenderLit(s[j..|s|], rep);
    assert s[i..|s|] == s[i..j] + s[j..|s|];
  }

  lemma RenderFromTag(p: Pattern, s: string, i: nat, j: nat, k: nat, me: nat, mf: string, mb: string, rep: Repl)
    requires Valid(p) && i <= j <= |s|
    requires NextMatch(p, s, i) == Some((k, Match(me, mf, mb))) && NextMatch(p, s, j) == Some((k, Match(me, mf, mb)))
    ensures Render(ScanFrom(p, s, i), rep) == s[i..j] + Render(ScanFrom(p, s, j), rep)
  {
    hide *;
    var t := Tag(s[k..me], mf, mb);
    ScanGoesOn(p, s, i, k, Match(me, mf, mb), s[i..k], s[k..me]);
    ScanGoesOn(p, s, j, k, Match(me, mf, mb), s[j..k], s[k..me]);
    var rest := ScanFrom(p, s, me);
    RenderTwo(s[i..k], t, rest, rep);
    RenderTwo(s[j..k], t, rest, rep);
    SliceSplit(s, i, j, k);
    Regroup(s[i..j], s[j..k], Substitute(mf, rep), Render(rest, rep));
  }

  lemma SliceSplit(s: string, i: nat, j: nat, k: nat)
    requires i <= j <= k <= |s|
    ensures s[i..k] == s[i..j] + s[j..k]
  {
  }

  lemma Regroup(a: string, b: string, c: string, d: string)
    ensures a + b + c + d == a + (b + c + d)
  {
  }
}
