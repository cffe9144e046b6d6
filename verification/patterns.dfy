/** The fixed regular expressions of the template compiler, each written out
    as the deterministic matcher that a backtracking PCRE engine amounts to on
    that one pattern, plus the generic left-to-right scan behind
    `preg_match_all` and `preg_replace`.

    Four pattern shapes occur:
    - `Enclosed(o, c)`:  `o\s*(.+?)\s*c` with flags `is` (echo, escaped echo,
      statement tags);
    - `Directive(kws, quoted)`: `{% ?(kw1|kw2) ?'?(.*?)'? ?%}` with flag `i`
      when `quoted`, or `{% ?kw ?(.*?) ?%}` otherwise (include and yield
      clean-up);
    - `BlockSection`: `{% ?block ?(.*?) ?%}(.*?){% ?endblock ?%}` with flags
      `is`;
    - `YieldOf(n)`: `{% ?yield ?n ?%}` with no flags, the name taken as
      literal text. */
module Patterns {
  import opened Results
  import opened Strings

  datatype Pattern =
    | Enclosed(open: string, close: string)
    | Directive(keywords: seq<string>, quoted: bool)
    | BlockSection
    | YieldOf(name: string)

  /** A match starting at some index: where it ends, and its capture
      groups (the second is empty for one-group patterns). */
  datatype Match = Match(end: nat, first: string, second: string)

  /** Delimiters are never empty. */
  predicate Valid(p: Pattern) {
    p.Enclosed? ==> p.open != [] && p.close != []
  }

  /** Every match begins with this text, so the scan only tries positions
      where it occurs. */
  function Lead(p: Pattern): (r: string)
    requires Valid(p)
    ensures r != []
  {
    match p
    case Enclosed(o, _) => o
    case _ => "{%"
  }

  // ------------------------------------------------------- matching pieces

  /** ASCII case folding, as the `i` flag does without the `u` flag. */
  function LowerAscii(c: char): (r: char)
    ensures 'A' <= c <= 'Z' ==> 'a' <= r <= 'z'
    ensures !('A' <= c <= 'Z') ==> r == c
  {
    if 'A' <= c <= 'Z' then (c as int - 'A' as int + 'a' as int) as char else c
  }

  /** The lower-case word `d` occurs at `i` in any letter case. */
  predicate OccursAtCi(s: string, d: string, i: nat) {
    i + |d| <= |s| && forall k :: 0 <= k < |d| ==> LowerAscii(s[i + k]) == d[k]
  }

  /** A greedy optional character `c?` at index `i`. */
  function SkipOpt(s: string, i: nat, c: char): (r: nat)
    ensures r == i || (r == i + 1 && i < |s| && s[i] == c)
    ensures i < |s| && s[i] == c ==> r == i + 1
  {
    if i < |s| && s[i] == c then i + 1 else i
  }

  /** The first of the alternatives `kws` found at `i`, in their order. */
  function KeywordAt(s: string, i: nat, kws: seq<string>): (r: Option<string>)
    ensures r.Some? ==> r.value in kws && OccursAtCi(s, r.value, i)
    ensures r.None? ==> forall kw :: kw in kws ==> !OccursAtCi(s, kw, i)
    decreases |kws|
  {
    if kws == [] then None
    else if OccursAtCi(s, kws[0], i) then Some(kws[0])
    else KeywordAt(s, i, kws[1..])
  }

  /** Where `{% ?(kws)` ends when it matches at `j`. The optional space is
      greedy and a keyword never starts with a space, so backtracking over
      it never helps. */
  function HeadEnd(s: string, j: nat, kws: seq<string>): (r: Option<nat>)
    requires j + 2 <= |s|
    ensures r.Some? ==> j + 2 <= r.value <= |s|
  {
    var i := SkipOpt(s, j + 2, ' ');
    match KeywordAt(s, i, kws)
    case Some(kw) => Some(i + |kw|)
    case None => None
  }

  /** Where `{% ?endblock ?%}` ends when it matches at `t`. */
  function EndTagAt(s: string, t: nat): (r: Option<nat>)
    ensures r.Some? ==> OccursAt(s, "{%", t) && t + 12 <= r.value <= |s|
    ensures r.Some? ==> OccursAt(s, "%}", r.value - 2)
  {
    if !OccursAt(s, "{%", t) then None
    else
      match HeadEnd(s, t, ["endblock"])
      case None => None
      case Some(h) =>
        var u := SkipOpt(s, h, ' ');
        if OccursAt(s, "%}", u) then Some(u + 2) else None
  }

  /** The first index at or after `from` where an end-block tag matches. */
  function FindEndTag(s: string, from: nat): (r: Option<(nat, nat)>)
    ensures r.Some? ==> from <= r.value.0 && EndTagAt(s, r.value.0) == Some(r.value.1)
    ensures forall t :: from <= t && (r.None? || t < r.value.0) ==> EndTagAt(s, t).None?
    decreases |s| - from
  {
    if from + 2 > |s| then None
    else
      match EndTagAt(s, from)
      case Some(e) => Some((from, e))
      case None => FindEndTag(s, from + 1)
  }

  /** The lazy group of ` ?%}` before the close: one trailing `c` comes
      off. */
  function StripOne(g: string, c: char): (r: string)
    ensures IsPrefix(r, g) && |g| - 1 <= |r|
    ensures r == g <==> (g == [] || g[|g| - 1] != c)
  {
    if g != [] && g[|g| - 1] == c then g[..|g| - 1] else g
  }

  /** The lazy group of `'? ?%}` before the close at `p`: one trailing
      `' `, `'` or space comes off. */
  function StripQuoteSpace(g: string): (r: string)
    ensures IsPrefix(r, g) && |g| - 2 <= |r|
    ensures |g| >= 2 && g[|g| - 2..] == "' " ==> r == g[..|g| - 2]
  {
    if |g| >= 2 && g[|g| - 2..] == "' " then g[..|g| - 2]
    else if g != [] && (g[|g| - 1] == '\'' || g[|g| - 1] == ' ') then g[..|g| - 1]
    else g
  }

  /** `o\s*(.+?)\s*c` at `j`. `\s*` is greedy; `.+?` then grows until
      `\s*c` follows. When the close already follows the spaces and no later
      close exists, the engine gives the last space back to the group. */
  function EnclosedAt(s: string, j: nat, o: string, c: string): (r: Option<Match>)
    requires o != [] && c != [] && OccursAt(s, o, j)
    ensures r.Some? ==> j + |o| + |c| <= r.value.end <= |s|
    ensures r.Some? ==> r.value.first != [] && r.value.second == []
    ensures r.Some? ==> OccursAt(s, c, r.value.end - |c|)
  {
    var a := j + |o|;
    EnclosedAfter(s, a, SpaceRun(s, a), c)
  }

  /** The rest of `EnclosedAt` once the spaces after the open are known to
      run from `a` to `a + w`. */
  function EnclosedAfter(s: string, a: nat, w: nat, c: string): (r: Option<Match>)
    requires c != [] && a + w <= |s| && (a + w < |s| ==> !IsSpace(s[a + w]))
    ensures r.Some? ==> a + |c| <= r.value.end <= |s|
    ensures r.Some? ==> r.value.first != [] && r.value.second == []
    ensures r.Some? ==> OccursAt(s, c, r.value.end - |c|)
  {
    match Find(s, c, a + w + 1)
    case Some(q) =>
      assert s[a + w..q][0] == s[a + w];
      Some(Match(q + |c|, TrimEnd(s[a + w..q]), []))
    case None =>
      if w > 0 && OccursAt(s, c, a + w) then Some(Match(a + w + |c|, [s[a + w - 1]], []))
      else None
  }

  /** `{% ?(kws) ?'?(.*?)'? ?%}` (`quoted`) or `{% ?(kws) ?(.*?) ?%}` at
      `j`. Every optional part before the group is greedy and cannot start a
      close, so backtracking over them never finds another match. Without
      the `s` flag `.` does not match a line feed, so when one lies between
      the head and the first close the attempt fails: the group cannot reach
      that close, and no earlier close exists for it to stop at. */
  function DirectiveAt(s: string, j: nat, kws: seq<string>, quoted: bool): (r: Option<Match>)
    requires OccursAt(s, "{%", j)
    ensures r.Some? ==> j + 4 <= r.value.end <= |s| && OccursAt(s, "%}", r.value.end - 2)
    ensures r.Some? ==> r.value.second == [] && '\n' !in r.value.first
  {
    match HeadEnd(s, j, kws)
    case None => None
    case Some(h) =>
      var k0 := SkipOpt(s, h, ' ');
      var k := if quoted then SkipOpt(s, k0, '\'') else k0;
      match Find(s, "%}", k)
      case None => None
      case Some(q) =>
        var g := s[k..q];
        if '\n' in g then None
        else Some(Match(q + 2, ArgText(g, quoted), []))
  }

  /** The captured group of a directive: quotes and spaces off a quoted one,
      one trailing space off the others. */
  function ArgText(g: string, quoted: bool): string {
    if quoted then StripQuoteSpace(g) else StripOne(g, ' ')
  }

  /** `{% ?block ?(.*?) ?%}(.*?){% ?endblock ?%}` at `j`: the name runs to
      the first `%}`, the body to the first end-block tag after it. */
  function BlockAt(s: string, j: nat): (r: Option<Match>)
    requires OccursAt(s, "{%", j)
    ensures r.Some? ==> j + 4 <= r.value.end <= |s| && OccursAt(s, "%}", r.value.end - 2)
  {
    match HeadEnd(s, j, ["block"])
    case None => None
    case Some(h) => BlockAfterHead(s, SkipOpt(s, h, ' '))
  }

  /** The rest of `BlockAt` once the head `{% block ` ends at `k`. */
  function BlockAfterHead(s: string, k: nat): (r: Option<Match>)
    ensures r.Some? ==> k + 4 <= r.value.end <= |s| && OccursAt(s, "%}", r.value.end - 2)
  {
    match Find(s, "%}", k)
    case None => None
    case Some(q) => BlockAfterName(s, k, q)
  }

  /** The rest of `BlockAt` once the name is known to run from `k` to the
      close at `q`. */
  function BlockAfterName(s: string, k: nat, q: nat): (r: Option<Match>)
    requires k <= q && OccursAt(s, "%}", q)
    ensures r.Some? ==> q + 4 <= r.value.end <= |s| && OccursAt(s, "%}", r.value.end - 2)
  {
    match FindEndTag(s, q + 2)
    case None => None
    case Some((t, e)) => Some(Match(e, StripOne(s[k..q], ' '), s[q + 2..t]))
  }

  /** The match of `p` at `j`, where its lead text occurs. */
  function MatchAt(p: Pattern, s: string, j: nat): (r: Option<Match>)
    requires Valid(p) && OccursAt(s, Lead(p), j)
    ensures r.Some? ==> j < r.value.end <= |s|
  {
    match p
    case Enclosed(o, c) => EnclosedAt(s, j, o, c)
    case Directive(kws, quoted) => DirectiveAt(s, j, kws, quoted)
    case BlockSection => BlockAt(s, j)
    case YieldOf(n) =>
      match YieldTagAt(s, j, n)
      case None => None
      case Some(e) => Some(Match(e, [], []))
  }

  /** The text `{% ?yield ?n ?%}` can match, for each choice of the three
      optional spaces. */
  function YieldSpelling(n: string, b1: bool, b2: bool, b3: bool): string {
    "{%" + (if b1 then " " else "") + "yield" + (if b2 then " " else "") + n
    + (if b3 then " " else "") + "%}"
  }

  /** The eight spellings in the order the engine tries them: each optional
      space is first taken, then left out. */
  function YieldSpellings(n: string): (r: seq<string>)
    ensures |r| == 8 && r[0] == YieldSpelling(n, true, true, true)
  {
    [ YieldSpelling(n, true, true, true), YieldSpelling(n, true, true, false)
    , YieldSpelling(n, true, false, true), YieldSpelling(n, true, false, false)
    , YieldSpelling(n, false, true, true), YieldSpelling(n, false, true, false)
    , YieldSpelling(n, false, false, true), YieldSpelling(n, false, false, false) ]
  }

  /** Index of the first alternative that occurs at `j`. */
  function FirstSpellingAt(s: string, j: nat, alts: seq<string>): (r: Option<nat>)
    ensures r.Some? ==> r.value < |alts| && OccursAt(s, alts[r.value], j)
    ensures r.Some? ==> forall i :: 0 <= i < r.value ==> !OccursAt(s, alts[i], j)
    ensures r.None? ==> forall i :: 0 <= i < |alts| ==> !OccursAt(s, alts[i], j)
    decreases |alts|
  {
    if alts == [] then None
    else if OccursAt(s, alts[0], j) then Some(0)
    else
      match FirstSpellingAt(s, j, alts[1..])
      case None => None
      case Some(i) => Some(i + 1)
  }

  /** End of the yield tag for `n` at `j`, if one is there. */
  function YieldTagAt(s: string, j: nat, n: string): (r: Option<nat>)
    ensures r.Some? ==> j < r.value <= |s|
  {
    var alts := YieldSpellings(n);
    match FirstSpellingAt(s, j, alts)
    case None => None
    case Some(i) => Some(j + |alts[i]|)
  }

  // ------------------------------------------------------------- the scan

  /** The subject cut into the text between matches and the matches. */
  datatype Piece = Lit(text: string) | Tag(whole: string, first: string, second: string)

  /** Gluing the pieces back together. */
  function Unscan(ps: seq<Piece>): string
    decreases |ps|
  {
    if ps == [] then []
    else (match ps[0] case Lit(t) => t case Tag(w, _, _) => w) + Unscan(ps[1..])
  }

  /** The first match at or after `i`, as PCRE looks for it: the pattern
      is tried at each position where its lead text occurs, and a failed
      attempt moves on by one character. */
  function NextMatch(p: Pattern, s: string, i: nat): (r: Option<(nat, Match)>)
    requires Valid(p) && i <= |s|
    ensures r.Some? ==> i <= r.value.0 < r.value.1.end <= |s|
    decreases |s| - i, 1
  {
    TryFrom(p, s, Find(s, Lead(p), i))
  }

  /** The attempt at the occurrence `f` of the lead text, and the search
      after it when the attempt fails. */
  function TryFrom(p: Pattern, s: string, f: Option<nat>): (r: Option<(nat, Match)>)
    requires Valid(p) && (f.Some? ==> OccursAt(s, Lead(p), f.value))
    ensures r.Some? ==> f.Some? && f.value <= r.value.0 < r.value.1.end <= |s|
    decreases if f.Some? then |s| - f.value else 0, 0
  {
    match f
    case None => None
    case Some(j) =>
      match MatchAt(p, s, j)
      case Some(m) => Some((j, m))
      case None => NextMatch(p, s, j + 1)
  }

  /** Non-overlapping matches from `i` on, left to right, as
      `preg_match_all` and `preg_replace` find them: after a match the
      search resumes at its end. */
  function ScanFrom(p: Pattern, s: string, i: nat): (r: seq<Piece>)
    requires Valid(p) && i <= |s|
    ensures r != [] && r[|r| - 1].Lit?
    decreases |s| - i
  {
    match NextMatch(p, s, i)
    case None => [Lit(s[i..])]
    case Some((j, m)) =>
      [Lit(s[i..j]), Tag(s[j..m.end], m.first, m.second)] + ScanFrom(p, s, m.end)
  }

  function Scan(p: Pattern, s: string): (r: seq<Piece>)
    requires Valid(p)
    ensures Unscan(r) == s
  {
    ScanLossless(p, s, 0);
    ScanFrom(p, s, 0)
  }

  /** The replacement of `preg_replace`: the first group between two fixed
      texts (`'<?php echo $1 ?>'`), or fixed text. */
  datatype Repl = Wrap(pre: string, post: string) | Text(t: string)

  /** What a match with first group `g` is replaced by. */
  function Substitute(g: string, rep: Repl): string {
    match rep
    case Wrap(a, b) => a + g + b
    case Text(t) => t
  }

  function Render(ps: seq<Piece>, rep: Repl): string
    decreases |ps|
  {
    if ps == [] then []
    else
      (match ps[0]
       case Lit(t) => t
       case Tag(_, g, _) => Substitute(g, rep))
      + Render(ps[1..], rep)
  }

  /** `preg_replace(p, rep, s)`. */
  function Replace(p: Pattern, s: string, rep: Repl): string
    requires Valid(p)
  {
    Render(Scan(p, s), rep)
  }

  /** The matches of `preg_match_all(p, s, $m, PREG_SET_ORDER)`. */
  function Tags(ps: seq<Piece>): (r: seq<Piece>)
    ensures forall i :: 0 <= i < |r| ==> r[i].Tag?
    decreases |ps|
  {
    if ps == [] then []
    else if ps[0].Tag? then [ps[0]] + Tags(ps[1..])
    else Tags(ps[1..])
  }

  function MatchAll(p: Pattern, s: string): seq<Piece>
    requires Valid(p)
  {
    Tags(Scan(p, s))
  }

  // --------------------------------------------------------------- lemmas

  lemma UnscanCons(x: Piece, ps: seq<Piece>)
    ensures Unscan([x] + ps) == Unscan([x]) + Unscan(ps)
  {
    assert ([x] + ps)[1..] == ps;
  }

  /** The scan loses nothing: gluing the pieces gives back the subject. */
  lemma {:induction false} ScanLossless(p: Pattern, s: string, i: nat)
    requires Valid(p) && i <= |s|
    ensures Unscan(ScanFrom(p, s, i)) == s[i..]
    decreases |s| - i
  {
    var nm := NextMatch(p, s, i);
    if nm.Some? {
      var e := nm.value.1.end;
      ScanLossless(p, s, e);
      ScanStep(p, s, i);
    } else {
      assert ScanFrom(p, s, i) == [Lit(s[i..])];
      assert Unscan([Lit(s[i..])]) == s[i..];
    }
  }

  lemma ScanStep(p: Pattern, s: string, i: nat)
    requires Valid(p) && i <= |s| && NextMatch(p, s, i).Some?
    requires var e := NextMatch(p, s, i).value.1.end; Unscan(ScanFrom(p, s, e)) == s[e..]
    ensures Unscan(ScanFrom(p, s, i)) == s[i..]
  {
    var (j, m) := NextMatch(p, s, i).value;
    var rest := ScanFrom(p, s, m.end);
    assert ScanFrom(p, s, i) == [Lit(s[i..j]), Tag(s[j..m.end], m.first, m.second)] + rest;
    UnscanPair(s[i..j], s[j..m.end], m.first, m.second, rest);
    SliceSplit(s, i, j, m.end);
  }

  lemma SliceSplit(s: string, i: nat, j: nat, e: nat)
    requires i <= j <= e <= |s|
    ensures s[i..] == s[i..j] + s[j..e] + s[e..]
  {
  }

  lemma UnscanPair(a: string, w: string, g1: string, g2: string, rest: seq<Piece>)
    ensures Unscan([Lit(a), Tag(w, g1, g2)] + rest) == a + w + Unscan(rest)
  {
    var t := Tag(w, g1, g2);
    UnscanCons(Lit(a), [t] + rest);
    UnscanCons(t, rest);
    assert [Lit(a), t] + rest == [Lit(a)] + ([t] + rest);
  }

  /** Positions where the search text does not occur are skipped over. */
  lemma FindSkip(s: string, d: string, from: nat, to: nat)
    requires from <= to
    requires forall k :: from <= k < to ==> !OccursAt(s, d, k)
    ensures Find(s, d, from) == Find(s, d, to)
  {
  }

  /** The search text cannot occur where its first character is missing. */
  lemma NoOccurrence(s: string, d: string, lo: nat, hi: nat)
    requires d != []
    requires forall k :: lo <= k < hi && k < |s| ==> s[k] != d[0]
    ensures forall k :: lo <= k < hi ==> !OccursAt(s, d, k)
  {
    forall k | lo <= k < hi ensures !OccursAt(s, d, k) {
      if k + |d| <= |s| {
        assert s[k..k + |d|][0] == s[k];
      }
    }
  }

  /** The scan of a text in which the lead text occurs neither before `j`
      nor after the match found at `j`. */
  lemma ScanOnlyMatch(p: Pattern, s: string, j: nat)
    requires Valid(p) && OccursAt(s, Lead(p), j) && MatchAt(p, s, j).Some?
    requires forall k :: 0 <= k < j ==> !OccursAt(s, Lead(p), k)
    requires forall k :: MatchAt(p, s, j).value.end <= k ==> !OccursAt(s, Lead(p), k)
    ensures var m := MatchAt(p, s, j).value;
            Scan(p, s) == [Lit(s[..j]), Tag(s[j..m.end], m.first, m.second), Lit(s[m.end..])]
  {
    var m := MatchAt(p, s, j).value;
    FindSkip(s, Lead(p), 0, j);
    assert Find(s, Lead(p), 0) == Some(j);
    assert NextMatch(p, s, 0) == Some((j, m));
    NextMatchNone(p, s, m.end);
    assert ScanFrom(p, s, m.end) == [Lit(s[m.end..])];
  }

  /** The same when the lead text also occurs before `j`, but the pattern
      does not match there. */
  lemma ScanMatchAfterMisses(p: Pattern, s: string, j: nat)
    requires Valid(p) && OccursAt(s, Lead(p), j) && MatchAt(p, s, j).Some?
    requires forall k :: 0 <= k < j && OccursAt(s, Lead(p), k) ==> MatchAt(p, s, k).None?
    requires forall k :: MatchAt(p, s, j).value.end <= k ==> !OccursAt(s, Lead(p), k)
    ensures var m := MatchAt(p, s, j).value;
            Scan(p, s) == [Lit(s[..j]), Tag(s[j..m.end], m.first, m.second), Lit(s[m.end..])]
  {
    var m := MatchAt(p, s, j).value;
    NextMatchSkip(p, s, 0, j);
    NextMatchHere(p, s, j);
    NextMatchNone(p, s, m.end);
    assert ScanFrom(p, s, m.end) == [Lit(s[m.end..])];
  }

  lemma NextMatchHere(p: Pattern, s: string, j: nat)
    requires Valid(p) && OccursAt(s, Lead(p), j) && MatchAt(p, s, j).Some?
    ensures NextMatch(p, s, j) == Some((j, MatchAt(p, s, j).value))
  {
    FindSkip(s, Lead(p), j, j);
    assert Find(s, Lead(p), j) == Some(j);
  }

  /** Positions where the pattern fails to match are passed over. */
  lemma {:induction false} NextMatchSkip(p: Pattern, s: string, i: nat, j: nat)
    requires Valid(p) && i <= j <= |s|
    requires forall k :: i <= k < j && OccursAt(s, Lead(p), k) ==> MatchAt(p, s, k).None?
    ensures NextMatch(p, s, i) == NextMatch(p, s, j)
    decreases j - i
  {
    var d := Lead(p);
    var f := Find(s, d, i);
    if f.Some? && f.value < j {
      NextMatchMiss(p, s, i, f.value);
      NextMatchSkip(p, s, f.value + 1, j);
    } else {
      FindSkip(s, d, i, j);
      NextMatchSameFind(p, s, i, j);
    }
  }

  lemma NextMatchMiss(p: Pattern, s: string, i: nat, k: nat)
    requires Valid(p) && i <= |s| && Find(s, Lead(p), i) == Some(k)
    requires MatchAt(p, s, k).None?
    ensures NextMatch(p, s, i) == NextMatch(p, s, k + 1)
  {
    NextMatchTries(p, s, i);
    TryFromMiss(p, s, k);
  }

  lemma NextMatchTries(p: Pattern, s: string, i: nat)
    requires Valid(p) && i <= |s|
    ensures NextMatch(p, s, i) == TryFrom(p, s, Find(s, Lead(p), i))
  {
  }

  lemma TryFromMiss(p: Pattern, s: string, k: nat)
    requires Valid(p) && OccursAt(s, Lead(p), k) && MatchAt(p, s, k).None?
    ensures TryFrom(p, s, Some(k)) == NextMatch(p, s, k + 1)
  {
  }

  lemma NextMatchSameFind(p: Pattern, s: string, i: nat, j: nat)
    requires Valid(p) && i <= |s| && j <= |s| && Find(s, Lead(p), i) == Find(s, Lead(p), j)
    ensures NextMatch(p, s, i) == NextMatch(p, s, j)
  {
    assert NextMatch(p, s, i) == TryFrom(p, s, Find(s, Lead(p), i));
    assert NextMatch(p, s, j) == TryFrom(p, s, Find(s, Lead(p), j));
  }

  /** ... and of one in which the lead text occurs only at `j`, where the
      pattern does not match. */
  lemma ScanOnlyMiss(p: Pattern, s: string, j: nat)
    requires Valid(p) && (OccursAt(s, Lead(p), j) ==> MatchAt(p, s, j).None?)
    requires forall k :: k != j ==> !OccursAt(s, Lead(p), k)
    ensures Scan(p, s) == [Lit(s)]
  {
    var d := Lead(p);
    if OccursAt(s, d, j) {
      FindSkip(s, d, 0, j);
      assert Find(s, d, 0) == Some(j);
      NextMatchNone(p, s, j + 1);
      assert NextMatch(p, s, 0) == None;
    } else {
      NextMatchNone(p, s, 0);
    }
  }

  lemma NextMatchNone(p: Pattern, s: string, i: nat)
    requires Valid(p) && i <= |s|
    requires forall k :: i <= k ==> !OccursAt(s, Lead(p), k)
    ensures NextMatch(p, s, i) == None
  {
    FindSkip(s, Lead(p), i, |s| + 1);
  }

  /** A text in which the lead text does not occur has no match. */
  lemma ScanNone(p: Pattern, s: string, rep: Repl)
    requires Valid(p) && forall k :: !OccursAt(s, Lead(p), k)
    ensures Scan(p, s) == [Lit(s)]
    ensures Replace(p, s, rep) == s
  {
    NextMatchNone(p, s, 0);
    assert Render([Lit(s)], rep) == s + Render([], rep);
  }

  /** A pass leaves alone text that lacks some character of its lead. */
  lemma Untouched(p: Pattern, s: string, i: nat, rep: Repl)
    requires Valid(p) && i < |Lead(p)| && Lead(p)[i] !in s
    ensures forall k :: !OccursAt(s, Lead(p), k)
    ensures Scan(p, s) == [Lit(s)] && Replace(p, s, rep) == s
  {
    var d := Lead(p);
    forall k ensures !OccursAt(s, d, k) {
      if 0 <= k && k + |d| <= |s| {
        assert s[k..k + |d|][i] == s[k + i];
      }
    }
    ScanNone(p, s, rep);
  }

  lemma RenderThree(x: string, t: Piece, y: string, rep: Repl)
    requires t.Tag?
    ensures Render([Lit(x), t, Lit(y)], rep) == x + Substitute(t.first, rep) + y
  {
    var r := Substitute(t.first, rep);
    assert [Lit(x), t, Lit(y)][1..] == [t, Lit(y)];
    assert [t, Lit(y)][1..] == [Lit(y)];
    assert Render([Lit(y)], rep) == y;
    assert Render([t, Lit(y)], rep) == r + y;
  }

  /** `TrimEnd` drops exactly a whitespace tail. */
  lemma TrimEndPadded(e: string, r: string)
    requires forall i :: 0 <= i < |r| ==> IsSpace(r[i])
    requires e != [] && !IsSpace(e[|e| - 1])
    ensures TrimEnd(e + r) == e
  {
    var t := e + r;
    var u := TrimEnd(t);
    assert t[|e| - 1] == e[|e| - 1];
    assert u == t[..|u|];
    assert t[..|e|] == e;
  }

  /** `EnclosedAt` when the spaces after the open run to `a + w` and the
      close first occurs at `q`. */
  lemma EnclosedMatch(s: string, j: nat, o: string, c: string, w: nat, q: nat)
    requires o != [] && c != [] && OccursAt(s, o, j)
    requires j + |o| + w < q && OccursAt(s, c, q)
    requires forall k :: j + |o| <= k < j + |o| + w ==> IsSpace(s[k])
    requires !IsSpace(s[j + |o| + w])
    requires forall k :: j + |o| + w + 1 <= k < q ==> s[k] != c[0]
    ensures EnclosedAt(s, j, o, c) == Some(Match(q + |c|, TrimEnd(s[j + |o| + w..q]), []))
  {
    assert SpaceRun(s, j + |o|) == w by {
      SpaceRunExact(s, j + |o|, w);
    }
    assert Find(s, c, j + |o| + w + 1) == Some(q) by {
      NoOccurrence(s, c, j + |o| + w + 1, q);
      FindAt(s, c, j + |o| + w + 1, q);
    }
    EnclosedFirstClose(s, j, o, c, w, q);
  }

  /** The branch of `EnclosedAt` taken when a close follows the first
      character of the group. */
  lemma EnclosedFirstClose(s: string, j: nat, o: string, c: string, w: nat, q: nat)
    requires o != [] && c != [] && OccursAt(s, o, j)
    requires j + |o| + w < |s| && !IsSpace(s[j + |o| + w])
    requires SpaceRun(s, j + |o|) == w && Find(s, c, j + |o| + w + 1) == Some(q)
    ensures EnclosedAt(s, j, o, c) == Some(Match(q + |c|, TrimEnd(s[j + |o| + w..q]), []))
  {
  }

  /** `EnclosedMatch` when the text before the close is an expression
      followed by spaces: the group is the bare expression. */
  lemma EnclosedTrimmed(s: string, j: nat, o: string, c: string, w: nat, q: nat, e: string, r: string)
    requires o != [] && c != [] && OccursAt(s, o, j)
    requires j + |o| + w < q && OccursAt(s, c, q)
    requires forall k :: j + |o| <= k < j + |o| + w ==> IsSpace(s[k])
    requires !IsSpace(s[j + |o| + w])
    requires forall k :: j + |o| + w + 1 <= k < q ==> s[k] != c[0]
    requires s[j + |o| + w..q] == e + r && e != [] && !IsSpace(e[|e| - 1])
    requires forall i :: 0 <= i < |r| ==> IsSpace(r[i])
    ensures MatchAt(Enclosed(o, c), s, j) == Some(Match(q + |c|, e, []))
  {
    EnclosedMatch(s, j, o, c, w, q);
    TrimEndPadded(e, r);
  }
}
