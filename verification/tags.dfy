/** How the patterns read single, well-formed tags: the block section, the
    include tag and the yield tag, each in its usual spelling. */
module TagFacts {
  import opened Results
  import opened Strings
  import opened Patterns
  import Locality

  /** The characters of a slice known to equal `h`. */
  lemma CharsOf(s: string, j: nat, h: string)
    requires j + |h| <= |s| && s[j..j + |h|] == h
    ensures forall i :: 0 <= i < |h| ==> s[j + i] == h[i]
  {
    forall i | 0 <= i < |h| ensures s[j + i] == h[i] {
      assert s[j..j + |h|][i] == s[j + i];
    }
  }

  /** No `{` means no tag can start, so no end-block tag either. */
  lemma NoEndTagWithout(s: string, from: nat, t: nat)
    requires forall k :: from <= k < t && k < |s| ==> s[k] != '{'
    ensures forall u :: from <= u < t ==> EndTagAt(s, u).None?
  {
    forall u | from <= u < t ensures EndTagAt(s, u).None? {
      if u + 2 <= |s| {
        assert s[u..u + 2][0] == s[u];
      }
    }
  }

  lemma FindEndTagAt(s: string, from: nat, t: nat, e: nat)
    requires from <= t && EndTagAt(s, t) == Some(e)
    requires forall u :: from <= u < t ==> EndTagAt(s, u).None?
    ensures FindEndTag(s, from) == Some((t, e))
  {
  }

  // ------------------------------------------------------------- blocks

  /** The head `{% block n %}` of a section at `j`. */
  lemma BlockHead(s: string, j: nat, n: string)
    requires j + |n| + 12 <= |s| && s[j..j + |n| + 12] == "{% block " + n + " %}"
    requires '%' !in n
    ensures OccursAt(s, "{%", j) && HeadEnd(s, j, ["block"]) == Some(j + 8)
    ensures SkipOpt(s, j + 8, ' ') == j + 9
    ensures Find(s, "%}", j + 9) == Some(j + |n| + 10)
    ensures StripOne(s[j + 9..j + |n| + 10], ' ') == n
  {
    BlockKeyword(s, j, n);
    NameAt(s, j, "{% block ", n);
  }

  lemma BlockKeyword(s: string, j: nat, n: string)
    requires j + |n| + 12 <= |s| && s[j..j + |n| + 12] == "{% block " + n + " %}"
    ensures OccursAt(s, "{%", j) && HeadEnd(s, j, ["block"]) == Some(j + 8)
    ensures SkipOpt(s, j + 8, ' ') == j + 9
  {
    HeadPrefix(s, j, "{% block ", n);
    KeywordHead(s, j, "block", ["block"]);
  }

  /** The first nine characters of a tag `head + n + " %}"`. */
  lemma HeadPrefix(s: string, j: nat, head: string, n: string)
    requires |head| == 9 && j + |n| + 12 <= |s| && s[j..j + |n| + 12] == head + n + " %}"
    ensures s[j..j + 9] == head
  {
    SliceOfSlice(s, j, j + |n| + 12, 0, 9);
    assert (head + n + " %}")[..9] == head;
  }

  /** A tag head `{% kw ` at `j`, with a lower-case keyword listed first. */
  lemma KeywordHead(s: string, j: nat, kw: string, kws: seq<string>)
    requires j + |kw| + 4 <= |s| && s[j..j + |kw| + 4] == "{% " + kw + " "
    requires kws != [] && kws[0] == kw && forall k :: 0 <= k < |kw| ==> 'a' <= kw[k] <= 'z'
    ensures OccursAt(s, "{%", j) && HeadEnd(s, j, kws) == Some(j + |kw| + 3)
    ensures SkipOpt(s, j + |kw| + 3, ' ') == j + |kw| + 4
  {
    var h := "{% " + kw + " ";
    CharsOf(s, j, h);
    assert OccursAt(s, "{%", j) by {
      assert h[..2] == "{%";
      assert s[j..j + 2] == h[..2];
    }
    assert s[j + 2] == h[2] == ' ';
    assert OccursAtCi(s, kw, j + 3) by {
      forall k | 0 <= k < |kw| ensures LowerAscii(s[j + 3 + k]) == kw[k] {
        assert s[j + 3 + k] == h[3 + k] == kw[k];
      }
    }
    HeadFrom(s, j, j + 3, kws, kw, j + |kw| + 3);
    assert s[j + |kw| + 3] == h[|kw| + 3] == ' ';
  }

  /** The name in a nine-character head such as `{% block ` or
      `{% yield `, up to ` %}`. */
  lemma NameAt(s: string, j: nat, head: string, n: string)
    requires |head| == 9 && '%' !in n
    requires j + |n| + 12 <= |s| && s[j..j + |n| + 12] == head + n + " %}"
    ensures Find(s, "%}", j + 9) == Some(j + |n| + 10)
    ensures StripOne(s[j + 9..j + |n| + 10], ' ') == n
  {
    NamePieces(s, j, head, n);
    assert '%' !in n + " ";
    FirstCloseAfter(s, j + 9, j + |n| + 10, n + " ");
    assert (n + " ")[..|n|] == n;
  }

  /** The name and the close of a nine-character head. */
  lemma NamePieces(s: string, j: nat, head: string, n: string)
    requires |head| == 9
    requires j + |n| + 12 <= |s| && s[j..j + |n| + 12] == head + n + " %}"
    ensures s[j + 9..j + |n| + 10] == n + " "
    ensures s[j + |n| + 10..j + |n| + 12] == "%}"
  {
    var h := head + n + " %}";
    SliceOfSlice(s, j, j + |n| + 12, 9, |n| + 10);
    assert h[9..|n| + 10] == n + " ";
    SliceOfSlice(s, j, j + |n| + 12, |n| + 10, |n| + 12);
    assert h[|n| + 10..] == "%}";
  }

  /** The first `%}` after a stretch without `%`. */
  lemma FirstCloseAfter(s: string, a: nat, q: nat, m: string)
    requires a <= q && q + 2 <= |s| && s[a..q] == m && '%' !in m && s[q..q + 2] == "%}"
    ensures Find(s, "%}", a) == Some(q)
  {
    forall k | a <= k < q ensures !OccursAt(s, "%}", k) {
      assert s[k] == m[k - a];
      DiffersAt(s, "%}", k, 0);
    }
    FindAt(s, "%}", a, q);
  }

  /** `{% endblock %}` at `t` is an end-block tag. */
  lemma BlockEnd(s: string, t: nat)
    requires t + 14 <= |s| && s[t..t + 14] == "{% endblock %}"
    ensures EndTagAt(s, t) == Some(t + 14)
  {
    var h := "{% endblock %}";
    assert h[..2] == "{%" && h[3..11] == "endblock" && h[12..] == "%}";
    CharsOf(s, t, h);
    assert OccursAt(s, "{%", t) by {
      assert s[t..t + 2] == h[..2];
    }
    assert HeadEnd(s, t, ["endblock"]) == Some(t + 11) by {
      assert SkipOpt(s, t + 2, ' ') == t + 3;
      assert OccursAtCi(s, "endblock", t + 3);
      HeadFrom(s, t, t + 3, ["endblock"], "endblock", t + 11);
    }
    assert SkipOpt(s, t + 11, ' ') == t + 12;
    assert OccursAt(s, "%}", t + 12) by {
      assert s[t + 12..t + 14] == h[12..];
    }
    EndTagFrom(s, t, t + 11, t + 12, t + 14);
  }

  /** `HeadEnd` when the first keyword is found after the optional space. */
  lemma HeadFrom(s: string, j: nat, i: nat, kws: seq<string>, kw: string, h: nat)
    requires j + 2 <= |s| && SkipOpt(s, j + 2, ' ') == i
    requires kws != [] && kws[0] == kw && OccursAtCi(s, kw, i) && h == i + |kw|
    ensures HeadEnd(s, j, kws) == Some(h)
  {
    KeywordFirst(s, i, kws);
    HeadAfter(s, j, i, kws, kw, h);
  }

  /** `HeadEnd` from the keyword found after the optional space. */
  lemma HeadAfter(s: string, j: nat, i: nat, kws: seq<string>, kw: string, h: nat)
    requires j + 2 <= |s| && SkipOpt(s, j + 2, ' ') == i
    requires KeywordAt(s, i, kws) == Some(kw) && h == i + |kw|
    ensures HeadEnd(s, j, kws) == Some(h)
  {
  }

  /** The keyword list is tried in order. */
  lemma KeywordFirst(s: string, i: nat, kws: seq<string>)
    requires kws != [] && OccursAtCi(s, kws[0], i)
    ensures KeywordAt(s, i, kws) == Some(kws[0])
  {
  }

  lemma KeywordSecond(s: string, i: nat, kws: seq<string>)
    requires |kws| >= 2 && !OccursAtCi(s, kws[0], i) && OccursAtCi(s, kws[1], i)
    ensures KeywordAt(s, i, kws) == Some(kws[1])
  {
    assert kws[1..][0] == kws[1];
    KeywordFirst(s, i, kws[1..]);
  }

  /** `EndTagAt` from the results of its steps. */
  lemma EndTagFrom(s: string, t: nat, h: nat, u: nat, e: nat)
    requires OccursAt(s, "{%", t) && HeadEnd(s, t, ["endblock"]) == Some(h)
    requires SkipOpt(s, h, ' ') == u && OccursAt(s, "%}", u) && e == u + 2
    ensures EndTagAt(s, t) == Some(e)
  {
  }

  /** A whole section at `j`: its name and body are captured. */
  lemma BlockMatch(s: string, j: nat, n: string, body: string)
    requires j + |n| + |body| + 26 <= |s|
    requires s[j..j + |n| + |body| + 26] == "{% block " + n + " %}" + body + "{% endblock %}"
    requires '%' !in n && '{' !in body
    ensures OccursAt(s, "{%", j)
    ensures BlockAt(s, j) == Some(Match(j + |n| + |body| + 26, n, body))
  {
    BlockPieces(s, j, n, body);
    BlockMatchPieces(s, j, n, body);
  }

  /** The three parts of a section at `j`. */
  lemma BlockPieces(s: string, j: nat, n: string, body: string)
    requires j + |n| + |body| + 26 <= |s|
    requires s[j..j + |n| + |body| + 26] == "{% block " + n + " %}" + body + "{% endblock %}"
    ensures s[j..j + |n| + 12] == "{% block " + n + " %}"
    ensures s[j + |n| + 12..j + |n| + |body| + 12] == body
    ensures s[j + |n| + |body| + 12..j + |n| + |body| + 26] == "{% endblock %}"
  {
    var e := j + |n| + |body| + 26;
    var a := j + |n| + 12;
    var t := a + |body|;
    var head := "{% block " + n + " %}";
    var w := head + body + "{% endblock %}";
    assert w[..a - j] == head && w[a - j..t - j] == body && w[t - j..] == "{% endblock %}";
    SliceOfSlice(s, j, e, 0, a - j);
    SliceOfSlice(s, j, e, a - j, t - j);
    SliceOfSlice(s, j, e, t - j, e - j);
  }

  lemma BlockMatchPieces(s: string, j: nat, n: string, body: string)
    requires j + |n| + |body| + 26 <= |s|
    requires s[j..j + |n| + 12] == "{% block " + n + " %}"
    requires s[j + |n| + 12..j + |n| + |body| + 12] == body
    requires s[j + |n| + |body| + 12..j + |n| + |body| + 26] == "{% endblock %}"
    requires '%' !in n && '{' !in body
    ensures OccursAt(s, "{%", j)
    ensures BlockAt(s, j) == Some(Match(j + |n| + |body| + 26, n, body))
  {
    var q := j + |n| + 10;
    var a := j + |n| + 12;
    var t := j + |n| + |body| + 12;
    var e := j + |n| + |body| + 26;
    BlockHead(s, j, n);
    BlockTail(s, j, q, a, t, e, n, body);
  }

  /** `BlockAt` once the head of the section is read. */
  lemma BlockTail(s: string, j: nat, q: nat, a: nat, t: nat, e: nat, n: string, body: string)
    requires a == q + 2 && a <= t && e == t + 14 && e <= |s| && s[a..t] == body
    requires s[t..e] == "{% endblock %}" && '{' !in body
    requires OccursAt(s, "{%", j) && HeadEnd(s, j, ["block"]) == Some(j + 8)
    requires SkipOpt(s, j + 8, ' ') == j + 9 && Find(s, "%}", j + 9) == Some(q)
    requires StripOne(s[j + 9..q], ' ') == n
    ensures BlockAt(s, j) == Some(Match(e, n, body))
  {
    EndTagAfter(s, a, t, e);
    BlockAtFrom(s, j, q, a, t, e, n, body);
  }

  /** The first end-block tag after a text without `{`. */
  lemma EndTagAfter(s: string, a: nat, t: nat, e: nat)
    requires a <= t && e == t + 14 && e <= |s| && '{' !in s[a..t] && s[t..e] == "{% endblock %}"
    ensures FindEndTag(s, a) == Some((t, e))
  {
    BlockEnd(s, t);
    forall k | a <= k < t ensures s[k] != '{' {
      assert s[k] == s[a..t][k - a];
    }
    NoEndTagWithout(s, a, t);
    FindEndTagAt(s, a, t, t + 14);
  }

  /** `BlockAt` from the results of its steps. */
  lemma BlockAtFrom(s: string, j: nat, q: nat, a: nat, t: nat, e: nat, n: string, body: string)
    requires OccursAt(s, "{%", j) && HeadEnd(s, j, ["block"]) == Some(j + 8)
    requires SkipOpt(s, j + 8, ' ') == j + 9 && Find(s, "%}", j + 9) == Some(q)
    requires StripOne(s[j + 9..q], ' ') == n && a == q + 2
    requires FindEndTag(s, a) == Some((t, e)) && a <= t <= |s| && s[a..t] == body
    ensures BlockAt(s, j) == Some(Match(e, n, body))
  {
    BlockAtHead(s, j, j + 8, j + 9);
    BlockAfterHeadFound(s, j + 9, q);
    BlockAfterNameFound(s, j + 9, q, t, e);
  }

  /** The steps of `BlockAt`, one at a time. */
  lemma BlockAtHead(s: string, j: nat, h: nat, k: nat)
    requires OccursAt(s, "{%", j) && HeadEnd(s, j, ["block"]) == Some(h) && SkipOpt(s, h, ' ') == k
    ensures BlockAt(s, j) == BlockAfterHead(s, k)
  {
  }

  lemma BlockAfterHeadFound(s: string, k: nat, q: nat)
    requires Find(s, "%}", k) == Some(q)
    ensures k <= q && OccursAt(s, "%}", q)
    ensures BlockAfterHead(s, k) == BlockAfterName(s, k, q)
  {
  }

  lemma BlockAfterNameFound(s: string, k: nat, q: nat, t: nat, e: nat)
    requires k <= q && OccursAt(s, "%}", q) && FindEndTag(s, q + 2) == Some((t, e))
    ensures q + 2 <= t <= |s|
    ensures BlockAfterName(s, k, q) == Some(Match(e, StripOne(s[k..q], ' '), s[q + 2..t]))
  {
  }

  /** A section alone in a text without other tags is the one match. */
  lemma BlockOnce(x: string, n: string, body: string, y: string)
    requires '{' !in x && '{' !in y && '{' !in body && '%' !in n
    ensures var w := "{% block " + n + " %}" + body + "{% endblock %}";
            Scan(BlockSection, x + w + y) == [Lit(x), Tag(w, n, body), Lit(y)]
  {
    var w := "{% block " + n + " %}" + body + "{% endblock %}";
    var s := x + w + y;
    var j := |x|;
    var e := j + |w|;
    assert s[..j] == x && s[j..e] == w && s[e..] == y;
    BlockMatch(s, j, n, body);
    forall k | 0 <= k < j ensures s[k] != '{' {
      assert s[k] == x[k];
    }
    forall k | e <= k < |s| ensures s[k] != '{' {
      assert s[k] == y[k - e];
    }
    NoOccurrence(s, "{%", 0, j);
    NoOccurrence(s, "{%", e, |s|);
    ScanOnlyMatch(BlockSection, s, j);
  }

  // -------------------------------------------------------------- yields

  predicate IsIdentChar(c: char) {
    'a' <= c <= 'z' || 'A' <= c <= 'Z' || '0' <= c <= '9' || c == '_'
  }

  /** A block name made of word characters only. */
  predicate IsIdent(n: string) {
    n != [] && forall i :: 0 <= i < |n| ==> IsIdentChar(n[i])
  }

  /** The usual spelling of a yield tag. */
  function YieldText(n: string): (r: string)
    ensures |r| == |n| + 12
  {
    "{% yield " + n + " %}"
  }

  /** `d` does not occur at `j` when one of its characters differs. */
  lemma DiffersAt(s: string, d: string, j: nat, i: nat)
    requires i < |d| && (j + i < |s| ==> s[j + i] != d[i])
    ensures !OccursAt(s, d, j)
  {
    if j + |d| <= |s| {
      assert s[j..j + |d|][i] == s[j + i];
    }
  }

  /** The tag of `n` at `j` is none of the spellings of another name `m`. */
  lemma SpellingMismatch(s: string, j: nat, n: string, m: string, b1: bool, b2: bool, b3: bool)
    requires IsIdent(n) && IsIdent(m) && m != n
    requires j + |n| + 12 <= |s| && s[j..j + |n| + 12] == YieldText(n)
    ensures !OccursAt(s, YieldSpelling(m, b1, b2, b3), j)
  {
    var t := YieldText(n);
    var sp := YieldSpelling(m, b1, b2, b3);
    CharsOf(s, j, t);
    if !b1 {
      assert sp[2] == 'y' && t[2] == ' ';
      DiffersAt(s, sp, j, 2);
    } else if !b2 {
      assert sp[8] == m[0] && t[8] == ' ';
      DiffersAt(s, sp, j, 8);
    } else if |m| < |n| {
      assert sp[9 + |m|] == ' ' || sp[9 + |m|] == '%';
      assert t[9 + |m|] == n[|m|];
      DiffersAt(s, sp, j, 9 + |m|);
    } else if |m| > |n| {
      assert sp[9 + |n|] == m[|n|] && t[9 + |n|] == ' ';
      DiffersAt(s, sp, j, 9 + |n|);
    } else {
      var i :| 0 <= i < |m| && m[i] != n[i];
      assert sp[9 + i] == m[i] && t[9 + i] == n[i];
      DiffersAt(s, sp, j, 9 + i);
    }
  }

  /** The tag of `n` is read as a yield of `n`, whole. */
  lemma YieldMatch(s: string, j: nat, n: string)
    requires j + |n| + 12 <= |s| && s[j..j + |n| + 12] == YieldText(n)
    ensures OccursAt(s, "{%", j)
    ensures MatchAt(YieldOf(n), s, j) == Some(Match(j + |n| + 12, [], []))
  {
    assert s[j..j + 2] == s[j..j + |n| + 12][..2];
    assert YieldSpellings(n)[0] == YieldText(n);
    assert FirstSpellingAt(s, j, YieldSpellings(n)) == Some(0);
  }

  /** The tag of `n` is not a yield of any other name. */
  lemma YieldMismatch(s: string, j: nat, n: string, m: string)
    requires IsIdent(n) && IsIdent(m) && m != n
    requires j + |n| + 12 <= |s| && s[j..j + |n| + 12] == YieldText(n)
    ensures OccursAt(s, "{%", j)
    ensures MatchAt(YieldOf(m), s, j).None?
  {
    assert s[j..j + 2] == s[j..j + |n| + 12][..2];
    forall a | a in YieldSpellings(m) ensures !OccursAt(s, a, j) {
      var b1, b2, b3 :| a == YieldSpelling(m, b1, b2, b3);
      SpellingMismatch(s, j, n, m, b1, b2, b3);
    }
  }

  /** In `x + YieldText(n) + y` a tag can only start at the yield tag. */
  lemma YieldLayout(x: string, n: string, y: string)
    requires '{' !in x && '{' !in y && IsIdent(n)
    ensures var s := x + YieldText(n) + y;
            && s[..|x|] == x && s[|x|..|x| + |n| + 12] == YieldText(n) && s[|x| + |n| + 12..] == y
            && forall k :: k != |x| ==> !OccursAt(s, "{%", k)
  {
    var t := YieldText(n);
    var s := x + t + y;
    var j := |x|;
    assert s[..j] == x && s[j..j + |t|] == t && s[j + |t|..] == y;
    forall k | 0 <= k < |s| && k != j ensures s[k] != '{' {
      if k < j {
        assert s[k] == x[k];
      } else if k < j + |t| {
        assert s[k] == t[k - j];
        assert t[k - j] != '{' by {
          if 9 <= k - j < 9 + |n| {
            assert t[k - j] == n[k - j - 9];
          }
        }
      } else {
        assert s[k] == y[k - j - |t|];
      }
    }
    forall k | k != j ensures !OccursAt(s, "{%", k) {
      if 0 <= k && k + 2 <= |s| {
        assert s[k..k + 2][0] == s[k];
      }
    }
  }

  /** A yield of `n` alone in the text is the one match for `n`. */
  lemma YieldScanHit(x: string, n: string, y: string)
    requires '{' !in x && '{' !in y && IsIdent(n)
    ensures Scan(YieldOf(n), x + YieldText(n) + y) == [Lit(x), Tag(YieldText(n), [], []), Lit(y)]
  {
    var s := x + YieldText(n) + y;
    YieldLayout(x, n, y);
    YieldMatch(s, |x|, n);
    ScanOnlyMatch(YieldOf(n), s, |x|);
  }

  /** ... and no match at all for another name. */
  lemma YieldScanMiss(x: string, n: string, m: string, y: string)
    requires '{' !in x && '{' !in y && IsIdent(n) && IsIdent(m) && m != n
    ensures Scan(YieldOf(m), x + YieldText(n) + y) == [Lit(x + YieldText(n) + y)]
  {
    var s := x + YieldText(n) + y;
    YieldLayout(x, n, y);
    YieldMismatch(s, |x|, n, m);
    ScanOnlyMiss(YieldOf(m), s, |x|);
  }

  /** The cleanup pattern `{% ?yield ?(.*?) ?%}` reads the same tag, with
      the name as its group. */
  lemma AnyYieldMatch(s: string, j: nat, n: string)
    requires IsIdent(n)
    requires j + |n| + 12 <= |s| && s[j..j + |n| + 12] == YieldText(n)
    ensures OccursAt(s, "{%", j)
    ensures DirectiveAt(s, j, ["yield"], false) == Some(Match(j + |n| + 12, n, []))
  {
    YieldKeyword(s, j, n);
    IdentNoPercent(n);
    NameAt(s, j, "{% yield ", n);
    NamePieces(s, j, "{% yield ", n);
    assert '\n' !in n + " ";
    DirectiveFrom(s, j, ["yield"], false, j + 8, j + 9, j + 9, j + |n| + 10, j + |n| + 12, n);
  }

  lemma YieldKeyword(s: string, j: nat, n: string)
    requires j + |n| + 12 <= |s| && s[j..j + |n| + 12] == YieldText(n)
    ensures OccursAt(s, "{%", j) && HeadEnd(s, j, ["yield"]) == Some(j + 8)
    ensures SkipOpt(s, j + 8, ' ') == j + 9
  {
    HeadPrefix(s, j, "{% yield ", n);
    KeywordHead(s, j, "yield", ["yield"]);
  }

  lemma AnyYieldScan(x: string, n: string, y: string)
    requires '{' !in x && '{' !in y && IsIdent(n)
    ensures Scan(Directive(["yield"], false), x + YieldText(n) + y) == [Lit(x), Tag(YieldText(n), n, []), Lit(y)]
  {
    var s := x + YieldText(n) + y;
    YieldLayout(x, n, y);
    AnyYieldMatch(s, |x|, n);
    ScanOnlyMatch(Directive(["yield"], false), s, |x|);
  }

  // ------------------------------------------------- layouts with blocks

  /** The usual spelling of a block section. */
  function BlockText(n: string, body: string): (r: string)
    ensures |r| == |n| + |body| + 26
  {
    "{% block " + n + " %}" + body + "{% endblock %}"
  }

  /** A yield tag is not the head of a block section. */
  lemma BlockMissAtYield(s: string, j: nat, n: string)
    requires j + |n| + 12 <= |s| && s[j..j + |n| + 12] == YieldText(n)
    ensures OccursAt(s, "{%", j) && BlockAt(s, j).None?
  {
    var h := "{% yield ";
    HeadPrefix(s, j, h, n);
    CharsOf(s, j, h);
    assert OccursAt(s, "{%", j) by {
      assert h[..2] == "{%";
      assert s[j..j + 2] == h[..2];
    }
    assert s[j + 2] == h[2] == ' ';
    assert !OccursAtCi(s, "block", j + 3) by {
      assert s[j + 3 + 0] == h[3] == 'y';
      assert LowerAscii(s[j + 3 + 0]) != "block"[0];
    }
    NoBlockHead(s, j, j + 3);
  }

  /** No section starts where the keyword after `{%` is not `block`. */
  lemma NoBlockHead(s: string, j: nat, i: nat)
    requires OccursAt(s, "{%", j) && SkipOpt(s, j + 2, ' ') == i && !OccursAtCi(s, "block", i)
    ensures BlockAt(s, j).None?
  {
    assert KeywordAt(s, i, ["block"]).None?;
    assert HeadEnd(s, j, ["block"]).None?;
  }

  /** The section text between `j` and `e` is the block match at `j`. */
  lemma BlockTextMatch(s: string, j: nat, e: nat, n: string, body: string)
    requires e <= |s| && j <= e && s[j..e] == BlockText(n, body) && '%' !in n && '{' !in body
    ensures OccursAt(s, "{%", j) && MatchAt(BlockSection, s, j) == Some(Match(e, n, body))
  {
    assert e == j + |n| + |body| + 26;
    BlockMatch(s, j, n, body);
  }

  lemma IdentNoPercent(n: string)
    requires IsIdent(n)
    ensures '%' !in n && '{' !in n && '\n' !in n
  {
    forall i | 0 <= i < |n| ensures n[i] != '%' && n[i] != '{' && n[i] != '\n' {
      assert IsIdentChar(n[i]);
    }
  }

  /** Where a tag can start in `x + YieldText(n) + y + BlockText(n, body) + z`. */
  lemma LayoutLayout(x: string, n: string, y: string, body: string, z: string)
    requires '{' !in x && '{' !in y && '{' !in z && '{' !in body && IsIdent(n)
    ensures var p := x + YieldText(n) + y;
            var w := BlockText(n, body);
            var s := p + w + z;
            && s[..|p|] == p && s[|p|..|p| + |w|] == w && s[|p| + |w|..] == z
            && s[|x|..|x| + |n| + 12] == YieldText(n)
            && (forall k :: 0 <= k < |p| && k != |x| ==> s[k] != '{')
            && (forall k :: 0 <= k < |p| && k != |x| ==> !OccursAt(s, "{%", k))
            && (forall k :: |p| + |w| <= k ==> !OccursAt(s, "{%", k))
  {
    var t := YieldText(n);
    var p := x + t + y;
    var w := BlockText(n, body);
    var s := p + w + z;
    assert s[..|p|] == p && s[|p|..|p| + |w|] == w && s[|p| + |w|..] == z;
    assert s[|x|..|x| + |t|] == t by {
      MiddleSlice(x, t, y);
      ConcatAssoc(p, w, z);
      LeftSlice(p, w + z, |x|, |x| + |t|);
    }
    forall k | 0 <= k < |p| && k != |x| ensures s[k] != '{' {
      assert s[k] == p[k];
      if k < |x| {
        assert p[k] == x[k];
      } else if k < |x| + |t| {
        assert p[k] == t[k - |x|];
        assert t[k - |x|] != '{' by {
          if 9 <= k - |x| < 9 + |n| {
            assert t[k - |x|] == n[k - |x| - 9];
          }
        }
      } else {
        assert p[k] == y[k - |x| - |t|];
      }
    }
    forall k | |p| + |w| <= k < |s| ensures s[k] != '{' {
      assert s[k] == z[k - |p| - |w|];
    }
    forall k | 0 <= k ensures (k < |p| && k != |x|) || |p| + |w| <= k ==> !OccursAt(s, "{%", k) {
      if k + 2 <= |s| {
        assert s[k..k + 2][0] == s[k];
      }
    }
  }

  /** In a layout that yields `n` and then defines it, the section is the
      one block match; the yield tag is passed over. */
  lemma BlockAfterYield(x: string, n: string, y: string, body: string, z: string)
    requires '{' !in x && '{' !in y && '{' !in z && '{' !in body && IsIdent(n)
    ensures var p := x + YieldText(n) + y;
            var w := BlockText(n, body);
            Scan(BlockSection, p + w + z) == [Lit(p), Tag(w, n, body), Lit(z)]
  {
    var p := x + YieldText(n) + y;
    var w := BlockText(n, body);
    var s := p + w + z;
    var e := |p| + |w|;
    LayoutLayout(x, n, y, body, z);
    IdentNoPercent(n);
    SectionAfterYield(s, |x|, |p|, e, n, body);
  }

  /** The same on the whole text: the yield at `i` is passed over and the
      section from `j` to `e` is the one block match. */
  lemma SectionAfterYield(s: string, i: nat, j: nat, e: nat, n: string, body: string)
    requires i + |n| + 12 <= j <= e <= |s| && s[i..i + |n| + 12] == YieldText(n)
    requires s[j..e] == BlockText(n, body) && '%' !in n && '{' !in body
    requires forall k :: 0 <= k < j && k != i ==> !OccursAt(s, "{%", k)
    requires forall k :: e <= k ==> !OccursAt(s, "{%", k)
    ensures Scan(BlockSection, s) == [Lit(s[..j]), Tag(s[j..e], n, body), Lit(s[e..])]
  {
    BlockTextMatch(s, j, e, n, body);
    BlockMissAtYield(s, i, n);
    assert Lead(BlockSection) == "{%";
    assert forall k :: 0 <= k < j && OccursAt(s, "{%", k) ==> MatchAt(BlockSection, s, k).None? by {
      forall k | 0 <= k < j && OccursAt(s, "{%", k) ensures MatchAt(BlockSection, s, k).None? {
        assert k == i;
      }
    }
    ScanMatchAfterMisses(BlockSection, s, j);
  }

  /** The section text occurs only where it stands. */
  lemma SectionOnlyOnce(x: string, n: string, y: string, body: string, z: string)
    requires '{' !in x && '{' !in y && '{' !in z && '{' !in body && IsIdent(n)
    ensures var p := x + YieldText(n) + y;
            forall k :: 0 <= k < |p| ==> !OccursAt(p + (BlockText(n, body) + z), BlockText(n, body), k)
  {
    var p := x + YieldText(n) + y;
    var w := BlockText(n, body);
    var s := p + w + z;
    LayoutLayout(x, n, y, body, z);
    assert p + (w + z) == s;
    assert w[..2] == "{%" && w[3] == 'b';
    forall k | 0 <= k < |p| ensures !OccursAt(s, w, k) {
      if k == |x| {
        CharsOf(s, |x|, YieldText(n));
        DiffersAt(s, w, k, 3);
      } else {
        DiffersAt(s, w, k, 0);
      }
    }
  }

  // ------------------------------------------------------------ includes

  /** `{% include 'g' %}` or `{% extends 'g' %}`. */
  function IncludeText(kw: string, g: string): (r: string)
    requires kw == "include" || kw == "extends"
    ensures |r| == |g| + 16
  {
    "{% " + kw + " '" + g + "' %}"
  }

  lemma IncludeKeyword(s: string, j: nat, kw: string, g: string)
    requires kw == "include" || kw == "extends"
    requires j + |g| + 16 <= |s| && s[j..j + |g| + 16] == IncludeText(kw, g)
    ensures OccursAt(s, "{%", j) && HeadEnd(s, j, ["extends", "include"]) == Some(j + 10)
    ensures SkipOpt(s, j + 10, ' ') == j + 11 && SkipOpt(s, j + 11, '\'') == j + 12
  {
    IncludeChars(s, j, kw, g);
    assert OccursAt(s, "{%", j) by {
      assert s[j..j + 2] == "{%";
    }
    assert SkipOpt(s, j + 2, ' ') == j + 3;
    assert OccursAtCi(s, kw, j + 3) by {
      forall k | 0 <= k < |kw| ensures LowerAscii(s[j + 3 + k]) == kw[k] {
        assert s[j + 3 + k] == kw[k];
        if kw == "include" {
          assert kw[k] in "include";
        } else {
          assert kw[k] in "extends";
        }
      }
    }
    if kw == "include" {
      assert !OccursAtCi(s, "extends", j + 3) by {
        assert LowerAscii(s[j + 3 + 0]) != "extends"[0];
      }
      KeywordSecond(s, j + 3, ["extends", "include"]);
    } else {
      KeywordFirst(s, j + 3, ["extends", "include"]);
    }
    HeadAfter(s, j, j + 3, ["extends", "include"], kw, j + 10);
  }

  /** The fixed characters of an include tag. */
  lemma IncludeChars(s: string, j: nat, kw: string, g: string)
    requires kw == "include" || kw == "extends"
    requires j + |g| + 16 <= |s| && s[j..j + |g| + 16] == IncludeText(kw, g)
    ensures s[j] == '{' && s[j + 1] == '%' && s[j + 2] == ' '
    ensures s[j + 10] == ' ' && s[j + 11] == '\''
    ensures forall k :: 0 <= k < |kw| ==> s[j + 3 + k] == kw[k]
  {
    var t := IncludeText(kw, g);
    CharsOf(s, j, t);
    assert t[0] == '{' && t[1] == '%' && t[2] == ' ' && t[10] == ' ' && t[11] == '\'';
    forall k | 0 <= k < |kw| ensures s[j + 3 + k] == kw[k] {
      assert t[3 + k] == kw[k];
    }
  }

  lemma IncludeName(s: string, j: nat, kw: string, g: string)
    requires kw == "include" || kw == "extends"
    requires '%' !in g
    requires j + |g| + 16 <= |s| && s[j..j + |g| + 16] == IncludeText(kw, g)
    ensures Find(s, "%}", j + 12) == Some(j + |g| + 14)
    ensures StripQuoteSpace(s[j + 12..j + |g| + 14]) == g
  {
    IncludePieces(s, j, kw, g);
    assert '%' !in g + "' ";
    FirstCloseAfter(s, j + 12, j + |g| + 14, g + "' ");
    assert (g + "' ")[|g|..] == "' ";
    assert (g + "' ")[..|g|] == g;
  }

  /** The quoted name and the close of an include tag. */
  lemma IncludePieces(s: string, j: nat, kw: string, g: string)
    requires kw == "include" || kw == "extends"
    requires j + |g| + 16 <= |s| && s[j..j + |g| + 16] == IncludeText(kw, g)
    ensures s[j + 12..j + |g| + 14] == g + "' "
    ensures s[j + |g| + 14..j + |g| + 16] == "%}"
  {
    var t := IncludeText(kw, g);
    SliceOfSlice(s, j, j + |g| + 16, 12, |g| + 14);
    assert t[12..|g| + 14] == g + "' ";
    SliceOfSlice(s, j, j + |g| + 16, |g| + 14, |g| + 16);
    assert t[|g| + 14..] == "%}";
  }

  /** An include tag is read whole, with the quoted name as its group. */
  lemma IncludeMatch(s: string, j: nat, kw: string, g: string)
    requires kw == "include" || kw == "extends"
    requires '%' !in g && '\n' !in g
    requires j + |g| + 16 <= |s| && s[j..j + |g| + 16] == IncludeText(kw, g)
    ensures OccursAt(s, "{%", j)
    ensures DirectiveAt(s, j, ["extends", "include"], true) == Some(Match(j + |g| + 16, g, []))
  {
    IncludeKeyword(s, j, kw, g);
    IncludeName(s, j, kw, g);
    IncludePieces(s, j, kw, g);
    assert '\n' !in g + "' ";
    DirectiveFrom(s, j, ["extends", "include"], true, j + 10, j + 11, j + 12, j + |g| + 14, j + |g| + 16, g);
  }

  /** A line feed inside the quoted name stops the include pattern: the
      tag is not a match. */
  lemma IncludeAcrossLines(s: string, j: nat, kw: string, g: string)
    requires kw == "include" || kw == "extends"
    requires '%' !in g && '\n' in g
    requires j + |g| + 16 <= |s| && s[j..j + |g| + 16] == IncludeText(kw, g)
    ensures OccursAt(s, "{%", j)
    ensures DirectiveAt(s, j, ["extends", "include"], true) == None
  {
    IncludeKeyword(s, j, kw, g);
    IncludeName(s, j, kw, g);
    IncludePieces(s, j, kw, g);
    assert '\n' in g + "' ";
    DirectiveBroken(s, j, ["extends", "include"], true, j + 10, j + 11, j + 12, j + |g| + 14);
  }

  /** `DirectiveAt` fails when a line feed lies before the first close. */
  lemma DirectiveBroken(s: string, j: nat, kws: seq<string>, quoted: bool, h: nat, k0: nat, k: nat, q: nat)
    requires OccursAt(s, "{%", j) && HeadEnd(s, j, kws) == Some(h) && SkipOpt(s, h, ' ') == k0
    requires k == (if quoted then SkipOpt(s, k0, '\'') else k0)
    requires Find(s, "%}", k) == Some(q) && '\n' in s[k..q]
    ensures DirectiveAt(s, j, kws, quoted) == None
  {
  }

  /** An include tag whose name spans lines is left in the text. */
  lemma IncludeScanAcrossLines(x: string, kw: string, g: string, y: string)
    requires kw == "include" || kw == "extends"
    requires '{' !in x && '{' !in y && '{' !in g && '%' !in g && '\n' in g
    ensures var s := x + IncludeText(kw, g) + y;
            Scan(Directive(["extends", "include"], true), s) == [Lit(s)]
  {
    var t := IncludeText(kw, g);
    var s := x + t + y;
    var j := |x|;
    var e := j + |t|;
    assert s[..j] == x && s[j..e] == t && s[e..] == y;
    IncludeAcrossLines(s, j, kw, g);
    IncludeOnlyOpen(x, t, y, kw, g);
    ScanOnlyMiss(Directive(["extends", "include"], true), s, j);
  }

  /** In `x + t + y` the only `{%` is the head of the include tag `t`. */
  lemma IncludeOnlyOpen(x: string, t: string, y: string, kw: string, g: string)
    requires kw == "include" || kw == "extends"
    requires t == IncludeText(kw, g) && '{' !in x && '{' !in y && '{' !in g
    ensures forall k :: k != |x| ==> !OccursAt(x + t + y, "{%", k)
  {
    var s := x + t + y;
    var j := |x|;
    var e := j + |t|;
    forall k | 0 <= k < j ensures s[k] != '{' {
      assert s[k] == x[k];
    }
    forall k | e <= k < |s| ensures s[k] != '{' {
      assert s[k] == y[k - e];
    }
    NoOccurrence(s, "{%", 0, j);
    NoOccurrence(s, "{%", e, |s|);
    assert '{' !in t[1..] by {
      assert t[1..] == "% " + kw + " '" + g + "' %}";
    }
    forall k | j + 1 <= k < e ensures s[k] != '{' {
      assert s[k] == t[1..][k - j - 1];
    }
    NoOccurrence(s, "{%", j + 1, e);
  }

  /** `DirectiveAt` from the results of its steps. */
  lemma DirectiveFrom(s: string, j: nat, kws: seq<string>, quoted: bool,
                      h: nat, k0: nat, k: nat, q: nat, e: nat, g: string)
    requires OccursAt(s, "{%", j) && HeadEnd(s, j, kws) == Some(h) && SkipOpt(s, h, ' ') == k0
    requires k == (if quoted then SkipOpt(s, k0, '\'') else k0)
    requires Find(s, "%}", k) == Some(q) && e == q + 2 && '\n' !in s[k..q]
    requires g == (if quoted then StripQuoteSpace(s[k..q]) else StripOne(s[k..q], ' '))
    ensures DirectiveAt(s, j, kws, quoted) == Some(Match(e, g, []))
  {
  }

  /** An include tag alone in a text without other tags is the one match. */
  lemma IncludeScan(x: string, kw: string, g: string, y: string)
    requires kw == "include" || kw == "extends"
    requires '{' !in x && '{' !in y && '{' !in g && '%' !in g && '\n' !in g
    ensures var t := IncludeText(kw, g);
            Scan(Directive(["extends", "include"], true), x + t + y) == [Lit(x), Tag(t, g, []), Lit(y)]
  {
    var t := IncludeText(kw, g);
    var s := x + t + y;
    var j := |x|;
    var e := j + |t|;
    assert s[..j] == x && s[j..e] == t && s[e..] == y;
    IncludeMatch(s, j, kw, g);
    forall k | 0 <= k < j ensures s[k] != '{' {
      assert s[k] == x[k];
    }
    forall k | e <= k < |s| ensures s[k] != '{' {
      assert s[k] == y[k - e];
    }
    NoOccurrence(s, "{%", 0, j);
    NoOccurrence(s, "{%", e, |s|);
    ScanOnlyMatch(Directive(["extends", "include"], true), s, j);
  }

  // ------------------------------------ one tag followed by any text

  /** Only the first character of a yield tag is a brace. */
  lemma YieldTextBraces(n: string)
    requires IsIdent(n)
    ensures forall k :: 0 < k < |YieldText(n)| ==> YieldText(n)[k] != '{'
  {
    var t := YieldText(n);
    forall k | 0 < k < |t| ensures t[k] != '{' {
      if 9 <= k < 9 + |n| {
        assert t[k] == n[k - 9];
      }
    }
  }

  /** A yield of `n` after text without tags is replaced, and the rest of
      the text is replaced on its own. */
  lemma YieldStep(x: string, n: string, y: string, v: string)
    requires '{' !in x && IsIdent(n)
    ensures Replace(YieldOf(n), x + YieldText(n) + y, Text(v)) == x + v + Replace(YieldOf(n), y, Text(v))
  {
    hide *;
    var t := YieldText(n);
    var s := x + t + y;
    MiddleSlice(x, t, y);
    YieldMatch(s, |x|, n);
    TagLead(YieldOf(n));
    SubstituteText([], v);
    Locality.ReplaceStep(YieldOf(n), x, t, y, [], [], Text(v));
  }

  /** A yield of another name is copied through. */
  lemma YieldOtherStep(x: string, n: string, m: string, y: string, rep: Repl)
    requires '{' !in x && IsIdent(n) && IsIdent(m) && m != n
    ensures Replace(YieldOf(m), x + YieldText(n) + y, rep) == x + YieldText(n) + Replace(YieldOf(m), y, rep)
  {
    var t := YieldText(n);
    var z := x + t;
    var s := z + y;
    assert s[|x|..|x| + |n| + 12] == t;
    YieldMismatch(s, |x|, n, m);
    YieldTextBraces(n);
    forall k | 0 <= k < |z| && k != |x| ensures !OccursAt(s, "{%", k) {
      assert s[k] == z[k];
      if k < |x| {
        assert z[k] == x[k];
      } else {
        assert z[k] == t[k - |x|];
      }
      DiffersAt(s, "{%", k, 0);
    }
    Locality.ReplaceSkip(YieldOf(m), z, y, rep);
  }

  /** The cleanup pattern deletes a yield tag after text without tags. */
  lemma AnyYieldStep(x: string, n: string, y: string)
    requires '{' !in x && IsIdent(n)
    ensures Replace(Directive(["yield"], false), x + YieldText(n) + y, Text(""))
            == x + Replace(Directive(["yield"], false), y, Text(""))
  {
    hide *;
    var t := YieldText(n);
    var s := x + t + y;
    MiddleSlice(x, t, y);
    AnyYieldMatch(s, |x|, n);
    DirectiveMatchAt(s, |x|, ["yield"], false, Match(|x| + |n| + 12, n, []));
    Locality.ReplaceStep(Directive(["yield"], false), x, t, y, n, [], Text(""));
    SubstituteText(n, "");
    assert x + "" == x;
  }

  /** A section after text without tags is the first section found; the
      rest are those of the text after it. */
  lemma BlockStep(x: string, n: string, body: string, y: string)
    requires '{' !in x && '{' !in body && '%' !in n
    ensures MatchAll(BlockSection, x + BlockText(n, body) + y)
            == [Tag(BlockText(n, body), n, body)] + MatchAll(BlockSection, y)
  {
    hide *;
    var w := BlockText(n, body);
    var s := x + w + y;
    MiddleSlice(x, w, y);
    BlockTextSpelled(n, body);
    BlockMatch(s, |x|, n, body);
    BlockMatchAt(s, |x|, Match(|x| + |n| + |body| + 26, n, body));
    Locality.MatchAllStep(BlockSection, x, w, y, n, body);
  }

  /** An include tag after text without tags is the first include found;
      the rest are those of the text after it. */
  lemma IncludeStep(x: string, kw: string, g: string, y: string)
    requires kw == "include" || kw == "extends"
    requires '{' !in x && '%' !in g && '\n' !in g
    ensures MatchAll(Directive(["extends", "include"], true), x + IncludeText(kw, g) + y)
            == [Tag(IncludeText(kw, g), g, [])] + MatchAll(Directive(["extends", "include"], true), y)
  {
    hide *;
    var t := IncludeText(kw, g);
    var s := x + t + y;
    MiddleSlice(x, t, y);
    IncludeMatch(s, |x|, kw, g);
    DirectiveMatchAt(s, |x|, ["extends", "include"], true, Match(|x| + |g| + 16, g, []));
    Locality.MatchAllStep(Directive(["extends", "include"], true), x, t, y, g, []);
  }

  lemma BlockTextSpelled(n: string, body: string)
    ensures BlockText(n, body) == "{% block " + n + " %}" + body + "{% endblock %}"
  {
  }

  lemma SubstituteText(g: string, v: string)
    ensures Substitute(g, Text(v)) == v
  {
  }

  lemma TagLead(p: Pattern)
    requires !p.Enclosed?
    ensures Valid(p) && Lead(p) == "{%"
  {
  }

  lemma BlockMatchAt(s: string, j: nat, m: Match)
    requires OccursAt(s, "{%", j) && BlockAt(s, j) == Some(m)
    ensures Lead(BlockSection) == "{%" && MatchAt(BlockSection, s, j) == Some(m)
  {
  }

  lemma DirectiveMatchAt(s: string, j: nat, kws: seq<string>, quoted: bool, m: Match)
    requires OccursAt(s, "{%", j) && DirectiveAt(s, j, kws, quoted) == Some(m)
    ensures Lead(Directive(kws, quoted)) == "{%" && MatchAt(Directive(kws, quoted), s, j) == Some(m)
  {
  }
}
