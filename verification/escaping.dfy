/** Hiding PHP's own tags in template text. `includeFiles` turns every
    `<?` into `<|?` and then every `?>` into `?|>`, so that an XML
    declaration in a template is not executed when the compiled template is
    included; `view` undoes both after rendering. Both are `str_replace` with
    two search strings, applied one after the other over the whole text. */
module Escaping {
  import opened Strings

  /** `str_replace(array('<?', '?>'), array('<|?', '?|>'), $s)`: a `|` is
      inserted inside every `<?` and `?>` of the original, including the
      two pairs of `<?>`. */
  function Escape(s: string): (r: string)
    ensures r == MarkBoth(s)
  {
    ReplaceIsMark(s, '<', '?');
    ReplaceIsMark(Mark(s, '<', '?'), '?', '>');
    MarkOpenThenClose(s);
    ReplaceAll(ReplaceAll(s, "<?", "<|?"), "?>", "?|>")
  }

  /** `str_replace(array('<|?', '?|>'), array('<?', '?>'), $s)`: text
      holding neither escape is left as it is. */
  function Restore(s: string): (r: string)
    ensures !Contains(s, "<|?") && !Contains(s, "?|>") ==> r == s
  {
    if !Contains(s, "<|?") && !Contains(s, "?|>") then
      ReplaceAbsent(s, "<|?", "<?");
      ReplaceAbsent(s, "?|>", "?>");
      ReplaceAll(ReplaceAll(s, "<|?", "<?"), "?|>", "?>")
    else ReplaceAll(ReplaceAll(s, "<|?", "<?"), "?|>", "?>")
  }

  /** Text without `|` holds neither escape. */
  lemma NoBarNoEscape(s: string)
    requires '|' !in s
    ensures !Contains(s, "<|?") && !Contains(s, "?|>")
  {
    forall k: nat | k + 3 <= |s| ensures !OccursAt(s, "<|?", k) && !OccursAt(s, "?|>", k) {
      assert s[k..k + 3][1] == s[k + 1];
    }
  }

  /** A `|` inserted between every adjacent `a`, `b`. */
  function Mark(s: string, a: char, b: char): (r: string)
    ensures s != [] ==> r != [] && r[0] == s[0]
    decreases |s|
  {
    if |s| < 2 then s
    else if s[0] == a && s[1] == b then [a, '|'] + Mark(s[1..], a, b)
    else [s[0]] + Mark(s[1..], a, b)
  }

  /** A `|` inserted inside every `<?` and every `?>` at once. */
  function MarkBoth(s: string): (r: string)
    ensures s != [] ==> r != [] && r[0] == s[0]
    decreases |s|
  {
    if |s| < 2 then s
    else if (s[0] == '<' && s[1] == '?') || (s[0] == '?' && s[1] == '>') then [s[0], '|'] + MarkBoth(s[1..])
    else [s[0]] + MarkBoth(s[1..])
  }

  /** No `|` right after an `a`. */
  predicate NoPipeAfter(t: string, a: char) {
    forall i :: 0 <= i < |t| - 1 ==> !(t[i] == a && t[i + 1] == '|')
  }

  // ---------------------------------------------------------------- lemmas

  /** Replacing `ab` by `a|b` is marking, since two occurrences of `ab`
      cannot overlap when `a != b`. */
  lemma {:induction false} ReplaceIsMark(s: string, a: char, b: char)
    requires a != b
    ensures ReplaceAll(s, [a, b], [a, '|', b]) == Mark(s, a, b)
    decreases |s|
  {
    if |s| >= 2 {
      if s[0] == a && s[1] == b {
        ReplaceIsMark(s[2..], a, b);
        MarkPairStep(s, a, b);
      } else {
        ReplaceIsMark(s[1..], a, b);
        MarkOtherStep(s, a, b);
      }
    } else if |s| == 1 {
      assert !IsPrefix([a, b], s);
      assert ReplaceFrom(s[1..], [a, b], [a, '|', b]) == [];
    }
  }

  lemma MarkPairStep(s: string, a: char, b: char)
    requires a != b && |s| >= 2 && s[0] == a && s[1] == b
    requires ReplaceAll(s[2..], [a, b], [a, '|', b]) == Mark(s[2..], a, b)
    ensures ReplaceAll(s, [a, b], [a, '|', b]) == Mark(s, a, b)
  {
    assert s[..2] == [a, b];
    assert ReplaceAll(s, [a, b], [a, '|', b]) == [a, '|', b] + Mark(s[2..], a, b);
    assert s[1..][1..] == s[2..];
    assert Mark(s[1..], a, b) == [b] + Mark(s[2..], a, b);
  }

  lemma MarkOtherStep(s: string, a: char, b: char)
    requires |s| >= 2 && !(s[0] == a && s[1] == b)
    requires ReplaceAll(s[1..], [a, b], [a, '|', b]) == Mark(s[1..], a, b)
    ensures ReplaceAll(s, [a, b], [a, '|', b]) == Mark(s, a, b)
  {
    assert s[..2][0] == s[0] && s[..2][1] == s[1];
    assert !IsPrefix([a, b], s);
  }

  /** Removing the marks again gives back the text, provided it had no `|`
      after an `a` of its own. */
  lemma {:induction false} UnmarkMark(t: string, a: char, b: char)
    requires a != b && a != '|' && b != '|' && NoPipeAfter(t, a)
    ensures ReplaceAll(Mark(t, a, b), [a, '|', b], [a, b]) == t
    decreases |t|
  {
    var m := Mark(t, a, b);
    if |t| >= 2 {
      assert NoPipeAfter(t[1..], a) by {
        forall i | 0 <= i < |t[1..]| - 1 ensures !(t[1..][i] == a && t[1..][i + 1] == '|') {
          assert t[1..][i] == t[i + 1] && t[1..][i + 1] == t[i + 2];
        }
      }
      if t[0] == a && t[1] == b {
        var rest := t[2..];
        assert t[1..][1..] == rest;
        assert NoPipeAfter(rest, a) by {
          forall i | 0 <= i < |rest| - 1 ensures !(rest[i] == a && rest[i + 1] == '|') {
            assert rest[i] == t[i + 2] && rest[i + 1] == t[i + 3];
          }
        }
        assert Mark(t[1..], a, b) == [b] + Mark(rest, a, b);
        assert m == [a, '|', b] + Mark(rest, a, b);
        assert IsPrefix([a, '|', b], m);
        assert m[3..] == Mark(rest, a, b);
        UnmarkMark(rest, a, b);
        assert t == [a, b] + rest;
      } else {
        var n := Mark(t[1..], a, b);
        assert m == [t[0]] + n;
        assert n[0] == t[1];
        if |m| >= 3 {
          assert m[..3][0] == t[0] && m[..3][1] == t[1];
          assert t[0] != a || t[1] != '|';
        }
        assert m[1..] == n;
        UnmarkMark(t[1..], a, b);
        assert t == [t[0]] + t[1..];
      }
    } else if |t| == 1 {
      assert !IsPrefix([a, '|', b], m);
      assert ReplaceFrom(m[1..], [a, '|', b], [a, b]) == [];
    }
  }

  lemma MarkCons(c: char, t: string, a: char, b: char)
    requires !(c == a && t != [] && t[0] == b)
    ensures Mark([c] + t, a, b) == [c] + Mark(t, a, b)
  {
    assert ([c] + t)[1..] == t;
  }

  lemma MarkPairCons(t: string, a: char, b: char)
    requires t != [] && t[0] == b
    ensures Mark([a] + t, a, b) == [a] + (['|'] + Mark(t, a, b))
  {
    assert ([a] + t)[1..] == t;
    PairConcat(a, '|', Mark(t, a, b));
  }

  /** One step of `MarkBoth`. */
  lemma MarkBothCons(s: string)
    requires |s| >= 2
    ensures (s[0] == '<' && s[1] == '?') || (s[0] == '?' && s[1] == '>') ==>
              MarkBoth(s) == [s[0]] + (['|'] + MarkBoth(s[1..]))
    ensures !((s[0] == '<' && s[1] == '?') || (s[0] == '?' && s[1] == '>')) ==>
              MarkBoth(s) == [s[0]] + MarkBoth(s[1..])
  {
    PairConcat(s[0], '|', MarkBoth(s[1..]));
  }

  lemma PairConcat<T>(x: T, y: T, r: seq<T>)
    ensures [x, y] + r == [x] + ([y] + r)
  {
  }

  /** Marking `<?` and then `?>` marks both at once. */
  lemma {:induction false} MarkOpenThenClose(s: string)
    ensures Mark(Mark(s, '<', '?'), '?', '>') == MarkBoth(s)
    decreases |s|
  {
    if |s| >= 2 {
      MarkOpenThenClose(s[1..]);
      if s[0] == '<' && s[1] == '?' {
        OpenThenCloseAtOpen(s);
      } else if s[0] == '?' && s[1] == '>' {
        OpenThenCloseAtClose(s);
      } else {
        OpenThenCloseElsewhere(s);
      }
    }
  }

  lemma OpenThenCloseAtOpen(s: string)
    requires |s| >= 2 && s[0] == '<' && s[1] == '?'
    requires Mark(Mark(s[1..], '<', '?'), '?', '>') == MarkBoth(s[1..])
    ensures Mark(Mark(s, '<', '?'), '?', '>') == MarkBoth(s)
  {
    var t := s[1..];
    var m1 := Mark(t, '<', '?');
    assert Mark(s, '<', '?') == ['<'] + (['|'] + m1) by {
      assert s == ['<'] + t;
      MarkPairCons(t, '<', '?');
    }
    assert Mark(['<'] + (['|'] + m1), '?', '>') == ['<'] + (['|'] + MarkBoth(t)) by {
      MarkCons('<', ['|'] + m1, '?', '>');
      MarkCons('|', m1, '?', '>');
    }
    MarkBothCons(s);
  }

  lemma OpenThenCloseAtClose(s: string)
    requires |s| >= 2 && s[0] == '?' && s[1] == '>'
    requires Mark(Mark(s[1..], '<', '?'), '?', '>') == MarkBoth(s[1..])
    ensures Mark(Mark(s, '<', '?'), '?', '>') == MarkBoth(s)
  {
    var t := s[1..];
    var m1 := Mark(t, '<', '?');
    assert Mark(s, '<', '?') == ['?'] + m1 by {
      assert s == ['?'] + t;
      MarkCons('?', t, '<', '?');
    }
    assert Mark(['?'] + m1, '?', '>') == ['?'] + (['|'] + MarkBoth(t)) by {
      MarkPairCons(m1, '?', '>');
    }
    MarkBothCons(s);
  }

  lemma OpenThenCloseElsewhere(s: string)
    requires |s| >= 2 && !(s[0] == '<' && s[1] == '?') && !(s[0] == '?' && s[1] == '>')
    requires Mark(Mark(s[1..], '<', '?'), '?', '>') == MarkBoth(s[1..])
    ensures Mark(Mark(s, '<', '?'), '?', '>') == MarkBoth(s)
  {
    var t := s[1..];
    var m1 := Mark(t, '<', '?');
    assert Mark(s, '<', '?') == [s[0]] + m1 by {
      assert s == [s[0]] + t;
      MarkCons(s[0], t, '<', '?');
    }
    assert Mark([s[0]] + m1, '?', '>') == [s[0]] + MarkBoth(t) by {
      MarkCons(s[0], m1, '?', '>');
    }
    MarkBothCons(s);
  }

  /** ... and so does marking `?>` and then `<?`. */
  lemma {:induction false} MarkCloseThenOpen(s: string)
    ensures Mark(Mark(s, '?', '>'), '<', '?') == MarkBoth(s)
    decreases |s|
  {
    if |s| >= 2 {
      MarkCloseThenOpen(s[1..]);
      if s[0] == '<' && s[1] == '?' {
        CloseThenOpenAtOpen(s);
      } else if s[0] == '?' && s[1] == '>' {
        CloseThenOpenAtClose(s);
      } else {
        CloseThenOpenElsewhere(s);
      }
    }
  }

  lemma CloseThenOpenAtOpen(s: string)
    requires |s| >= 2 && s[0] == '<' && s[1] == '?'
    requires Mark(Mark(s[1..], '?', '>'), '<', '?') == MarkBoth(s[1..])
    ensures Mark(Mark(s, '?', '>'), '<', '?') == MarkBoth(s)
  {
    var t := s[1..];
    var m2 := Mark(t, '?', '>');
    assert Mark(s, '?', '>') == ['<'] + m2 by {
      assert s == ['<'] + t;
      MarkCons('<', t, '?', '>');
    }
    assert Mark(['<'] + m2, '<', '?') == ['<'] + (['|'] + MarkBoth(t)) by {
      MarkPairCons(m2, '<', '?');
    }
    MarkBothCons(s);
  }

  lemma CloseThenOpenAtClose(s: string)
    requires |s| >= 2 && s[0] == '?' && s[1] == '>'
    requires Mark(Mark(s[1..], '?', '>'), '<', '?') == MarkBoth(s[1..])
    ensures Mark(Mark(s, '?', '>'), '<', '?') == MarkBoth(s)
  {
    var t := s[1..];
    var m2 := Mark(t, '?', '>');
    assert Mark(s, '?', '>') == ['?'] + (['|'] + m2) by {
      assert s == ['?'] + t;
      MarkPairCons(t, '?', '>');
    }
    assert Mark(['?'] + (['|'] + m2), '<', '?') == ['?'] + (['|'] + MarkBoth(t)) by {
      MarkCons('?', ['|'] + m2, '<', '?');
      MarkCons('|', m2, '<', '?');
    }
    MarkBothCons(s);
  }

  lemma CloseThenOpenElsewhere(s: string)
    requires |s| >= 2 && !(s[0] == '<' && s[1] == '?') && !(s[0] == '?' && s[1] == '>')
    requires Mark(Mark(s[1..], '?', '>'), '<', '?') == MarkBoth(s[1..])
    ensures Mark(Mark(s, '?', '>'), '<', '?') == MarkBoth(s)
  {
    var t := s[1..];
    var m2 := Mark(t, '?', '>');
    assert Mark(s, '?', '>') == [s[0]] + m2 by {
      assert s == [s[0]] + t;
      MarkCons(s[0], t, '?', '>');
    }
    assert Mark([s[0]] + m2, '<', '?') == [s[0]] + MarkBoth(t) by {
      MarkCons(s[0], m2, '<', '?');
    }
    MarkBothCons(s);
  }

  /** Marks only ever follow an `a`. */
  lemma {:induction false} MarkPipes(s: string, a: char, b: char, c: char)
    requires '|' !in s && c != a
    ensures NoPipeAfter(Mark(s, a, b), c)
    decreases |s|
  {
    var m := Mark(s, a, b);
    if |s| >= 2 {
      var n := Mark(s[1..], a, b);
      MarkPipes(s[1..], a, b, c);
      assert n[0] == s[1] && s[1] != '|';
      if s[0] == a && s[1] == b {
        assert m == [a, '|'] + n;
        forall i | 0 <= i < |m| - 1 ensures !(m[i] == c && m[i + 1] == '|') {
          if i >= 2 {
            assert m[i] == n[i - 2] && m[i + 1] == n[i - 1];
          } else if i == 1 {
            assert m[2] == n[0];
          }
        }
      } else {
        assert m == [s[0]] + n;
        forall i | 0 <= i < |m| - 1 ensures !(m[i] == c && m[i + 1] == '|') {
          if i >= 1 {
            assert m[i] == n[i - 1] && m[i + 1] == n[i];
          }
        }
      }
    }
  }

  /** Template text without `|` survives escaping and restoring unchanged:
      the escaping of `includeFiles` is undone exactly by `view`. */
  lemma EscapeRoundTrip(s: string)
    requires '|' !in s
    ensures Restore(Escape(s)) == s
  {
    ReplaceIsMark(s, '<', '?');
    ReplaceIsMark(Mark(s, '<', '?'), '?', '>');
    MarkOpenThenClose(s);
    MarkCloseThenOpen(s);
    var t := Mark(s, '?', '>');
    MarkPipes(s, '?', '>', '<');
    UnmarkMark(t, '<', '?');
    UnmarkMark(s, '?', '>');
  }

  /** No `a` directly followed by `b`. */
  predicate NoAdjacent(t: string, a: char, b: char) {
    forall i :: 0 <= i < |t| - 1 ==> !(t[i] == a && t[i + 1] == b)
  }

  lemma {:induction false} MarkBothSeparates(s: string)
    ensures NoAdjacent(MarkBoth(s), '<', '?') && NoAdjacent(MarkBoth(s), '?', '>')
    decreases |s|
  {
    var m := MarkBoth(s);
    if |s| >= 2 {
      var n := MarkBoth(s[1..]);
      MarkBothSeparates(s[1..]);
      assert n[0] == s[1];
      if (s[0] == '<' && s[1] == '?') || (s[0] == '?' && s[1] == '>') {
        assert m == [s[0], '|'] + n;
        forall i | 0 <= i < |m| - 1
          ensures !(m[i] == '<' && m[i + 1] == '?') && !(m[i] == '?' && m[i + 1] == '>')
        {
          if i >= 2 {
            assert m[i] == n[i - 2] && m[i + 1] == n[i - 1];
          }
        }
      } else {
        assert m == [s[0]] + n;
        forall i | 0 <= i < |m| - 1
          ensures !(m[i] == '<' && m[i + 1] == '?') && !(m[i] == '?' && m[i + 1] == '>')
        {
          if i >= 1 {
            assert m[i] == n[i - 1] && m[i + 1] == n[i];
          }
        }
      }
    }
  }

  lemma NoAdjacentNotContained(t: string, a: char, b: char)
    requires NoAdjacent(t, a, b)
    ensures !Contains(t, [a, b])
  {
    forall k: nat | k + 2 <= |t| ensures !OccursAt(t, [a, b], k) {
      assert t[k..k + 2][0] == t[k] && t[k..k + 2][1] == t[k + 1];
    }
  }

  /** Escaped template text opens and closes no PHP block: neither `<?`
      nor `?>` survives escaping, so only the tags the compiler writes are
      executed. */
  lemma EscapeHidesTags(s: string)
    ensures !Contains(Escape(s), "<?") && !Contains(Escape(s), "?>")
  {
    MarkBothSeparates(s);
    NoAdjacentNotContained(Escape(s), '<', '?');
    NoAdjacentNotContained(Escape(s), '?', '>');
  }

  /** Marking adds no character but `|`. */
  lemma {:induction false} MarkBothChars(s: string, c: char)
    requires c != '|' && c !in s
    ensures c !in MarkBoth(s)
    decreases |s|
  {
    if |s| >= 2 {
      MarkBothChars(s[1..], c);
    }
  }

  /** Text without `?` has nothing to mark. */
  lemma {:induction false} MarkBothNoQuery(s: string)
    requires '?' !in s
    ensures MarkBoth(s) == s
    decreases |s|
  {
    if |s| >= 2 {
      MarkBothNoQuery(s[1..]);
      assert s == [s[0]] + s[1..];
    }
  }

  /** Marking works piecewise when no `<?` or `?>` straddles the seam. */
  lemma {:induction false} MarkBothConcat(a: string, b: string)
    requires a == [] || b == [] || !(a[|a| - 1] in "<?" && b[0] in "?>")
    ensures MarkBoth(a + b) == MarkBoth(a) + MarkBoth(b)
    decreases |a|
  {
    if a == [] {
      assert a + b == b;
    } else if b == [] {
      assert a + b == a;
    } else if |a| == 1 {
      assert (a + b)[1..] == b;
    } else {
      assert (a + b)[1..] == a[1..] + b;
      MarkBothConcat(a[1..], b);
    }
  }

  /** Characters other than `|` survive escaping exactly where they were
      missing. */
  lemma EscapeKeepsOut(s: string, c: char)
    requires c != '|' && c !in s
    ensures c !in Escape(s)
  {
    MarkBothChars(s, c);
  }

  /** Escaping leaves a piece without `?`, that neither starts with `?` or
      `>` nor ends with `<` or `?`, in place. */
  lemma EscapeAround(x: string, t: string, y: string)
    requires t != [] && '?' !in t && t[0] != '>' && t[|t| - 1] != '<'
    ensures Escape(x + t + y) == Escape(x) + t + Escape(y)
  {
    MarkAround(x, t, y);
  }

  lemma MarkAround(x: string, t: string, y: string)
    requires t != [] && '?' !in t && t[0] != '>' && t[|t| - 1] != '<'
    ensures MarkBoth(x + t + y) == MarkBoth(x) + t + MarkBoth(y)
  {
    calc {
      MarkBoth(x + t + y);
      { ConcatAssoc(x, t, y); }
      MarkBoth(x + (t + y));
      { MarkBothConcat(x, t + y); }
      MarkBoth(x) + MarkBoth(t + y);
      { MarkBothConcat(t, y); }
      MarkBoth(x) + (MarkBoth(t) + MarkBoth(y));
      { MarkBothNoQuery(t); }
      MarkBoth(x) + t + MarkBoth(y);
    }
  }
}
