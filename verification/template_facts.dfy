/** What the template compiler does to single tags, and how the passes,
    the registry, the includes and the cache fit together. */
module TemplateFacts {
  import opened Results
  import opened Strings
  import opened Patterns
  import opened Escaping
  import opened Template
  import opened TagFacts
  import Locality

  predicate AllSpace(s: string) {
    forall i :: 0 <= i < |s| ==> IsSpace(s[i])
  }

  /** An expression as the passes capture it: not empty, and with no
      whitespace at either end. */
  predicate Trimmed(e: string) {
    e != [] && !IsSpace(e[0]) && !IsSpace(e[|e| - 1])
  }

  lemma Regroup(x: string, a: string, e: string, b: string, y: string)
    ensures x + (a + e + b) + y == x + a + e + b + y
  {
  }

  /** One tag `o l e r c` between texts without the tag's first character:
      the scan finds exactly that tag, with the trimmed expression `e` as
      its group. */
  lemma EnclosedOnce(o: string, c: string, x: string, l: string, e: string, r: string, y: string)
    requires o != [] && c != [] && !IsSpace(c[0])
    requires o[0] !in x && o[0] !in y && c[0] !in e
    requires AllSpace(l) && AllSpace(r) && Trimmed(e)
    ensures Scan(Enclosed(o, c), x + o + l + e + r + c + y)
            == [Lit(x), Tag(o + l + e + r + c, e, []), Lit(y)]
  {
    hide *;
    var t := o + l + e + r + c;
    TagGroups(x, o, l, e, r, c, y);
    EnclosedTagAt(o, c, x, l, e, r, y);
    EnclosedLead(o, c);
    Locality.ScanStep(Enclosed(o, c), x, t, y, e, []);
    Untouched(Enclosed(o, c), y, 0, Text(""));
    assert [Lit(x), Tag(t, e, [])] + [Lit(y)] == [Lit(x), Tag(t, e, []), Lit(y)];
  }

  /** One well-formed tag of an enclosed pattern, alone in the text, is
      replaced by its trimmed inside wrapped in `pre` and `post`. */
  lemma WrapOnce(o: string, c: string, pre: string, post: string,
                 x: string, l: string, e: string, r: string, y: string)
    requires o != [] && c != [] && !IsSpace(c[0])
    requires o[0] !in x && o[0] !in y && c[0] !in e
    requires AllSpace(l) && AllSpace(r) && Trimmed(e)
    ensures Replace(Enclosed(o, c), x + o + l + e + r + c + y, Wrap(pre, post)) == x + pre + e + post + y
  {
    var t := Tag(o + l + e + r + c, e, []);
    assert Scan(Enclosed(o, c), x + o + l + e + r + c + y) == [Lit(x), t, Lit(y)] by {
      EnclosedOnce(o, c, x, l, e, r, y);
    }
    RenderThree(x, t, y, Wrap(pre, post));
    Regroup(x, pre, e, post, y);
  }

  /** `{{ e }}` becomes `<?php echo e ?>`, the spaces around `e` dropped. */
  lemma EchoCompiles(x: string, l: string, e: string, r: string, y: string)
    requires '{' !in x && '{' !in y && '}' !in e
    requires AllSpace(l) && AllSpace(r) && Trimmed(e)
    ensures CompileEchos(x + "{{" + l + e + r + "}}" + y) == x + EchoPre + e + EchoPost + y
  {
    WrapOnce("{{", "}}", EchoPre, EchoPost, x, l, e, r, y);
  }

  /** `{{{ e }}}` becomes an echo of `htmlentities(e, ENT_QUOTES, 'UTF-8')`. */
  lemma EscapedEchoCompiles(x: string, l: string, e: string, r: string, y: string)
    requires '{' !in x && '{' !in y && '}' !in e
    requires AllSpace(l) && AllSpace(r) && Trimmed(e)
    ensures CompileEscapedEchos(x + "{{{" + l + e + r + "}}}" + y) == x + EscapedPre + e + EscapedPost + y
  {
    WrapOnce("{{{", "}}}", EscapedPre, EscapedPost, x, l, e, r, y);
  }

  /** `{% s %}` becomes `<?php s ?>`. */
  lemma StatementCompiles(x: string, l: string, e: string, r: string, y: string)
    requires '{' !in x && '{' !in y && '%' !in e
    requires AllSpace(l) && AllSpace(r) && Trimmed(e)
    ensures CompilePHP(x + "{%" + l + e + r + "%}" + y) == x + PhpPre + e + PhpPost + y
  {
    WrapOnce("{%", "%}", PhpPre, PhpPost, x, l, e, r, y);
  }

  // --------------------------------------------------------- no-op passes

  /** Yield substitution leaves alone text that lacks `{` or `%`. */
  lemma {:induction false} SubstituteUntouched(code: string, slots: Blocks, i: nat)
    requires i < 2 && "{%"[i] !in code
    ensures SubstituteYields(code, slots) == code
    decreases |slots|
  {
    if slots != [] {
      Untouched(YieldOf(slots[0].name), code, i, Text(slots[0].content));
      SubstituteUntouched(code, slots[1..], i);
    }
  }

  /** Block and yield passes leave alone text with no `%` in it, and the
      registry with it. */
  lemma BlockYieldUntouched(code: string, b: Blocks)
    requires '%' !in code
    ensures CompileBlock(code, b) == (code, b)
    ensures CompileYield(code, b) == code
  {
    Untouched(BlockSection, code, 1, Text(""));
    assert Tags([Lit(code)]) == Tags([]) by {
      assert [Lit(code)][1..] == [];
    }
    SubstituteUntouched(code, b, 1);
    Untouched(AnyYield, code, 1, Text(""));
  }

  /** Through the whole of `compileCode`, a triple-brace echo comes out
      escaped and is not also taken for a double-brace echo. */
  lemma EscapedEchoPipeline(x: string, l: string, e: string, r: string, y: string, b: Blocks)
    requires '{' !in x && '{' !in y && '{' !in e && '}' !in e
    requires '%' !in x && '%' !in y && '%' !in e
    requires AllSpace(l) && AllSpace(r) && Trimmed(e)
    ensures CompileCode(x + "{{{" + l + e + r + "}}}" + y, b) == (x + EscapedPre + e + EscapedPost + y, b)
  {
    var s := x + "{{{" + l + e + r + "}}}" + y;
    var u := x + EscapedPre + e + EscapedPost + y;
    EscapedEchoQuiet(x, l, e, r, y, b);
    EscapedEchoCompiles(x, l, e, r, y);
    EscapedEchoFinal(x, e, y);
    CodeSteps(s, b, u);
  }

  /** The echo and statement passes leave alone text with no `{`. */
  lemma EchoStatementUntouched(u: string)
    requires '{' !in u
    ensures CompilePHP(CompileEchos(u)) == u
  {
    Untouched(RawEcho, u, 0, Wrap(EchoPre, EchoPost));
    Untouched(Statement, u, 0, Wrap(PhpPre, PhpPost));
  }

  lemma CodeSteps(s: string, b: Blocks, u: string)
    requires CompileBlock(s, b) == (s, b) && CompileYield(s, b) == s
    requires CompilePHP(CompileEchos(CompileEscapedEchos(s))) == u
    ensures CompileCode(s, b) == (u, b)
  {
  }

  lemma CodeStages(s: string, b: Blocks, c1: string, b1: Blocks, c2: string, u: string)
    requires CompileBlock(s, b) == (c1, b1) && CompileYield(c1, b1) == c2
    requires CompilePHP(CompileEchos(CompileEscapedEchos(c2))) == u
    ensures CompileCode(s, b) == (u, b1)
  {
  }

  lemma EscapedEchoQuiet(x: string, l: string, e: string, r: string, y: string, b: Blocks)
    requires '%' !in x && '%' !in y && '%' !in e
    requires AllSpace(l) && AllSpace(r)
    ensures var s := x + "{{{" + l + e + r + "}}}" + y;
            CompileBlock(s, b) == (s, b) && CompileYield(s, b) == s
  {
    assert '%' !in l && '%' !in r;
    BlockYieldUntouched(x + "{{{" + l + e + r + "}}}" + y, b);
  }

  lemma EscapedEchoFinal(x: string, e: string, y: string)
    requires '{' !in x && '{' !in y && '{' !in e
    ensures var u := x + EscapedPre + e + EscapedPost + y;
            CompilePHP(CompileEchos(u)) == u
  {
    assert '{' !in EscapedPre && '{' !in EscapedPost;
    EchoStatementUntouched(x + EscapedPre + e + EscapedPost + y);
  }

  // -------------------------------------------------------------- blocks

  /** A block section is cut out of the code and recorded under its name. */
  lemma BlockCompiles(x: string, n: string, body: string, y: string, b: Blocks)
    requires '{' !in x && '{' !in y && '{' !in body && '%' !in n
    ensures CompileBlock(x + "{% block " + n + " %}" + body + "{% endblock %}" + y, b)
            == (x + y, UpdateBlock(b, n, body))
  {
    var w := "{% block " + n + " %}" + body + "{% endblock %}";
    assert x + "{% block " + n + " %}" + body + "{% endblock %}" + y == x + w + y;
    BlockFound(x, n, body, y);
    ApplyOne(x + w + y, b, Tag(w, n, body));
    ReplaceOnce(x, w, "", y);
    assert x + "" + y == x + y;
  }

  lemma BlockFound(x: string, n: string, body: string, y: string)
    requires '{' !in x && '{' !in y && '{' !in body && '%' !in n
    ensures var w := "{% block " + n + " %}" + body + "{% endblock %}";
            MatchAll(BlockSection, x + w + y) == [Tag(w, n, body)]
  {
    var w := "{% block " + n + " %}" + body + "{% endblock %}";
    BlockOnce(x, n, body, y);
    TagsOfThree(x, Tag(w, n, body), y);
  }

  lemma TagsOfThree(x: string, t: Piece, y: string)
    requires t.Tag?
    ensures Tags([Lit(x), t, Lit(y)]) == [t]
  {
    assert [Lit(x), t, Lit(y)][1..] == [t, Lit(y)];
    assert [t, Lit(y)][1..] == [Lit(y)];
    assert Tags([Lit(y)]) == Tags([Lit(y)][1..]);
  }

  lemma ApplyOne(code: string, b: Blocks, t: Piece)
    requires t.Tag?
    ensures ApplyBlocks(code, b, [t]) == (ReplaceAll(code, t.whole, ""), UpdateBlock(b, t.first, t.second))
  {
    assert [t][1..] == [];
  }

  /** `@parent` in a new body is replaced by what the block held before
      (nothing when it was unset); a body without it replaces the block. */
  lemma ParentSplice(b: Blocks, n: string, u: string, v: string)
    requires '@' !in u && '@' !in v
    ensures Content(UpdateBlock(b, n, u + "@parent" + v), n) == Some(u + Content(b, n).GetOr("") + v)
    ensures Content(UpdateBlock(b, n, u + v), n) == Some(u + v)
  {
    var body := u + "@parent" + v;
    assert OccursAt(body, "@parent", |u|) by {
      assert body[|u|..|u| + 7] == "@parent";
    }
    assert Contains(body, "@parent");
    ReplaceOnce(u, "@parent", Content(b, n).GetOr(""), v);
    NoFirstCharNotContained(u + v, "@parent");
  }

  // -------------------------------------------------------------- yields

  predicate NamesAreIdents(b: Blocks) {
    forall i :: 0 <= i < |b| ==> IsIdent(b[i].name)
  }

  lemma RenderLit(s: string, rep: Repl)
    ensures Render([Lit(s)], rep) == s
  {
    assert [Lit(s)][1..] == [];
  }

  /** The substitution loop puts the content of the first slot named `n`
      in place of the tag; every other slot leaves the text alone. */
  lemma {:induction false} SubstituteHit(x: string, n: string, y: string, slots: Blocks)
    requires '{' !in x && '{' !in y && IsIdent(n) && NamesAreIdents(slots)
    requires Content(slots, n).Some? && '{' !in Content(slots, n).value
    ensures SubstituteYields(x + YieldText(n) + y, slots) == x + Content(slots, n).value + y
    decreases |slots|
  {
    var s := x + YieldText(n) + y;
    var v := Content(slots, n).value;
    if slots[0].name == n {
      assert slots[0].content == v;
      YieldScanHit(x, n, y);
      RenderThree(x, Tag(YieldText(n), [], []), y, Text(v));
      SubstituteUntouched(x + v + y, slots[1..], 0);
    } else {
      YieldScanMiss(x, n, slots[0].name, y);
      RenderLit(s, Text(slots[0].content));
      assert Content(slots[1..], n) == Content(slots, n);
      SubstituteHit(x, n, y, slots[1..]);
    }
  }

  /** No slot named `n`: the substitution loop leaves the tag alone. */
  lemma {:induction false} SubstituteMiss(x: string, n: string, y: string, slots: Blocks)
    requires '{' !in x && '{' !in y && IsIdent(n) && NamesAreIdents(slots)
    requires Content(slots, n).None?
    ensures SubstituteYields(x + YieldText(n) + y, slots) == x + YieldText(n) + y
    decreases |slots|
  {
    if slots != [] {
      var s := x + YieldText(n) + y;
      YieldScanMiss(x, n, slots[0].name, y);
      RenderLit(s, Text(slots[0].content));
      SubstituteMiss(x, n, y, slots[1..]);
    }
  }

  /** `{% yield n %}` becomes the content of block `n` when it is set. */
  lemma YieldCompiles(x: string, n: string, y: string, b: Blocks)
    requires '{' !in x && '{' !in y && IsIdent(n) && NamesAreIdents(b)
    requires Content(b, n).Some? && '{' !in Content(b, n).value
    ensures CompileYield(x + YieldText(n) + y, b) == x + Content(b, n).value + y
  {
    var v := Content(b, n).value;
    SubstituteHit(x, n, y, b);
    Untouched(AnyYield, x + v + y, 0, Text(""));
  }

  /** ... and disappears when it is not. */
  lemma YieldUnsetCompiles(x: string, n: string, y: string, b: Blocks)
    requires '{' !in x && '{' !in y && IsIdent(n) && NamesAreIdents(b)
    requires Content(b, n).None?
    ensures CompileYield(x + YieldText(n) + y, b) == x + y
  {
    SubstituteMiss(x, n, y, b);
    AnyYieldScan(x, n, y);
    RenderThree(x, Tag(YieldText(n), n, []), y, Text(""));
    assert x + "" + y == x + y;
  }

  // ------------------------------------------------------------- layouts

  /** A body without `@parent` is stored as it is. */
  lemma PlainBody(b: Blocks, n: string, body: string)
    requires '@' !in body
    ensures Content(UpdateBlock(b, n, body), n) == Some(body)
    ensures NamesAreIdents(b) && IsIdent(n) ==> NamesAreIdents(UpdateBlock(b, n, body))
  {
    NoFirstCharNotContained(body, "@parent");
  }

  /** The block pass on a layout that yields `n` and then defines it: the
      section is cut out and recorded, the yield tag stays for the next
      pass. */
  lemma LayoutBlockPass(x: string, n: string, y: string, body: string, z: string, b: Blocks)
    requires '{' !in x && '{' !in y && '{' !in z && '{' !in body && IsIdent(n)
    ensures CompileBlock(x + YieldText(n) + y + BlockText(n, body) + z, b)
            == (x + YieldText(n) + y + z, UpdateBlock(b, n, body))
  {
    var p := x + YieldText(n) + y;
    var w := BlockText(n, body);
    LayoutSectionFound(x, n, y, body, z);
    ApplyOne(p + w + z, b, Tag(w, n, body));
    LayoutCut(x, n, y, body, z);
  }

  lemma LayoutSectionFound(x: string, n: string, y: string, body: string, z: string)
    requires '{' !in x && '{' !in y && '{' !in z && '{' !in body && IsIdent(n)
    ensures var p := x + YieldText(n) + y;
            var w := BlockText(n, body);
            MatchAll(BlockSection, p + w + z) == [Tag(w, n, body)]
  {
    var p := x + YieldText(n) + y;
    var w := BlockText(n, body);
    BlockAfterYield(x, n, y, body, z);
    TagsOfThree(p, Tag(w, n, body), z);
  }

  lemma LayoutCut(x: string, n: string, y: string, body: string, z: string)
    requires '{' !in x && '{' !in y && '{' !in z && '{' !in body && IsIdent(n)
    ensures var p := x + YieldText(n) + y;
            var w := BlockText(n, body);
            ReplaceAll(p + w + z, w, "") == p + z
  {
    var p := x + YieldText(n) + y;
    var w := BlockText(n, body);
    SectionOnlyOnce(x, n, y, body, z);
    ConcatAssoc(p, w, z);
    ReplacePassOver(p, w + z, w, "");
    ReplaceFront(z, w, "");
    NoFirstCharNotContained(z, w);
    ReplaceAbsent(z, w, "");
  }

  /** Layout inheritance in one template: the content of the section
      appears where the layout yields it, and the section is recorded in
      the registry. */
  lemma LayoutCompiles(x: string, n: string, y: string, body: string, z: string, b: Blocks)
    requires '{' !in x && '{' !in y && '{' !in z && '{' !in body && '@' !in body
    requires IsIdent(n) && NamesAreIdents(b)
    ensures CompileCode(x + YieldText(n) + y + BlockText(n, body) + z, b)
            == (x + body + y + z, UpdateBlock(b, n, body))
  {
    var s := x + YieldText(n) + y + BlockText(n, body) + z;
    var c1 := x + YieldText(n) + y + z;
    var b1 := UpdateBlock(b, n, body);
    var u := x + body + y + z;
    assert CompileBlock(s, b) == (c1, b1) by {
      LayoutBlockPass(x, n, y, body, z, b);
    }
    assert CompileYield(c1, b1) == u by {
      PlainBody(b, n, body);
      ConcatAssoc(x + YieldText(n), y, z);
      YieldCompiles(x, n, y + z, b1);
      ConcatAssoc(x + body, y, z);
    }
    assert CompilePHP(CompileEchos(CompileEscapedEchos(u))) == u by {
      Untouched(EscapedEcho, u, 0, Wrap(EscapedPre, EscapedPost));
      EchoStatementUntouched(u);
    }
    CodeStages(s, b, c1, b1, u, u);
  }

  // ------------------------------------------------------------ includes

  /** A template without tags is only escaped. */
  lemma IncludeLeaf(files: map<string, string>, f: string, fuel: nat)
    requires f in files && fuel >= 1 && '{' !in files[f]
    ensures IncludeFiles(files, f, fuel) == Ok(Escape(files[f]))
    ensures '{' !in Escape(files[f])
  {
    var code := Escape(files[f]);
    EscapeKeepsOut(files[f], '{');
    Untouched(IncludeTag, code, 0, Text(""));
    assert MatchAll(IncludeTag, code) == [] by {
      assert Tags([Lit(code)]) == Tags([]) by {
        assert [Lit(code)][1..] == [];
      }
    }
  }

  lemma InlineOne(files: map<string, string>, code: string, t: Piece, fuel: nat)
    requires t.Tag?
    ensures var r := IncludeFiles(files, t.first, fuel);
            r.Ok? ==> InlineAll(files, code, [t], fuel) == Ok(ReplaceAll(code, t.whole, r.value))
    ensures var r := IncludeFiles(files, t.first, fuel);
            r.Err? ==> InlineAll(files, code, [t], fuel) == r
  {
    assert [t][1..] == [];
  }

  lemma IncludeTextNoQuery(kw: string, g: string)
    requires kw == "include" || kw == "extends"
    requires '?' !in g
    ensures var t := IncludeText(kw, g); t != [] && t[0] == '{' && t[|t| - 1] == '}' && '?' !in t
  {
  }

  /** The escaped template around one include tag, and the tag found. */
  lemma IncludeFound(x: string, kw: string, g: string, y: string)
    requires kw == "include" || kw == "extends"
    requires '{' !in x && '{' !in y && '{' !in g && '%' !in g && '?' !in g && '\n' !in g
    ensures var t := IncludeText(kw, g);
            && Escape(x + t + y) == Escape(x) + t + Escape(y)
            && '{' !in Escape(x) && '{' !in Escape(y)
            && MatchAll(IncludeTag, Escape(x + t + y)) == [Tag(t, g, [])]
  {
    var t := IncludeText(kw, g);
    IncludeTextNoQuery(kw, g);
    EscapeAround(x, t, y);
    EscapeKeepsOut(x, '{');
    EscapeKeepsOut(y, '{');
    IncludeScan(Escape(x), kw, g, Escape(y));
    TagsOfThree(Escape(x), Tag(t, g, []), Escape(y));
  }

  /** An include tag whose name runs over a line break is not read as a
      tag: the escaped template comes back as it is, tag included, for the
      later passes to see. */
  lemma IncludeAcrossLinesKept(files: map<string, string>, f: string, x: string, kw: string, g: string,
                               y: string, fuel: nat)
    requires kw == "include" || kw == "extends"
    requires f in files && files[f] == x + IncludeText(kw, g) + y
    requires '{' !in x && '{' !in y && '{' !in g && '%' !in g && '?' !in g && '\n' in g
    requires fuel >= 1
    ensures IncludeFiles(files, f, fuel) == Ok(Escape(x) + IncludeText(kw, g) + Escape(y))
  {
    var t := IncludeText(kw, g);
    var code := Escape(files[f]);
    IncludeTextNoQuery(kw, g);
    EscapeAround(x, t, y);
    EscapeKeepsOut(x, '{');
    EscapeKeepsOut(y, '{');
    IncludeScanAcrossLines(Escape(x), kw, g, Escape(y));
    assert MatchAll(IncludeTag, code) == [] by {
      assert Tags([Lit(code)]) == Tags([]) by {
        assert [Lit(code)][1..] == [];
      }
    }
    assert Replace(IncludeTag, code, Text("")) == code by {
      assert Render([Lit(code)], Text("")) == code + Render([], Text(""));
    }
    IncludeUnfold(files, f, fuel);
  }

  /** One level of `includeFiles`, unfolded. */
  lemma IncludeUnfold(files: map<string, string>, f: string, fuel: nat)
    requires f in files && fuel >= 1
    ensures var code := Escape(files[f]);
            var r := InlineAll(files, code, MatchAll(IncludeTag, code), fuel - 1);
            && (r.Ok? ==> IncludeFiles(files, f, fuel) == Ok(Replace(IncludeTag, r.value, Text(""))))
            && (r.Err? ==> IncludeFiles(files, f, fuel) == Err(r.message))
  {
  }

  /** An include tag is replaced by the included template, itself
      processed first. */
  lemma IncludeOne(files: map<string, string>, f: string, x: string, kw: string, g: string, y: string,
                   fuel: nat, inc: string)
    requires kw == "include" || kw == "extends"
    requires f in files && files[f] == x + IncludeText(kw, g) + y
    requires '{' !in x && '{' !in y && '{' !in g && '%' !in g && '?' !in g && '\n' !in g
    requires fuel >= 1 && IncludeFiles(files, g, fuel - 1) == Ok(inc) && '{' !in inc
    ensures IncludeFiles(files, f, fuel) == Ok(Escape(x) + inc + Escape(y))
  {
    var t := IncludeText(kw, g);
    var code := Escape(files[f]);
    var u := Escape(x) + inc + Escape(y);
    assert InlineAll(files, code, MatchAll(IncludeTag, code), fuel - 1) == Ok(u) by {
      IncludeFound(x, kw, g, y);
      InlineOne(files, code, Tag(t, g, []), fuel - 1);
      ReplaceOnce(Escape(x), t, inc, Escape(y));
    }
    assert Replace(IncludeTag, u, Text("")) == u by {
      IncludeFound(x, kw, g, y);
      Untouched(IncludeTag, u, 0, Text(""));
    }
    IncludeUnfold(files, f, fuel);
  }

  /** A failure inside an included template fails the whole template. */
  lemma IncludeFails(files: map<string, string>, f: string, x: string, kw: string, g: string, y: string,
                     fuel: nat)
    requires kw == "include" || kw == "extends"
    requires f in files && files[f] == x + IncludeText(kw, g) + y
    requires '{' !in x && '{' !in y && '{' !in g && '%' !in g && '?' !in g && '\n' !in g
    requires fuel >= 1 && IncludeFiles(files, g, fuel - 1).Err?
    ensures IncludeFiles(files, f, fuel) == IncludeFiles(files, g, fuel - 1)
  {
    var t := IncludeText(kw, g);
    var code := Escape(files[f]);
    assert InlineAll(files, code, MatchAll(IncludeTag, code), fuel - 1) == IncludeFiles(files, g, fuel - 1) by {
      IncludeFound(x, kw, g, y);
      InlineOne(files, code, Tag(t, g, []), fuel - 1);
    }
    IncludeUnfold(files, f, fuel);
  }

  // --------------------------------------------------------------- cache

  /** A fresh enough cached file is used as it is: nothing is compiled and
      neither the cache nor the registry changes. */
  lemma CacheHit(cfg: Settings, st: State, files: map<string, string>, file: string,
                 sourceMtime: Option<int>, now: int, fuel: nat)
    requires cfg.enabled && CachePath(cfg.cacheDir, file) in st.store
    requires sourceMtime.None? || sourceMtime.value <= st.store[CachePath(cfg.cacheDir, file)].mtime
    ensures Cache(cfg, st, files, file, sourceMtime, now, fuel) == Ok((CachePath(cfg.cacheDir, file), st))
  {
  }

  /** Otherwise the template is compiled against the current registry and
      written with the current time; other cached files stay as they were. */
  lemma CacheMiss(cfg: Settings, st: State, files: map<string, string>, file: string,
                  sourceMtime: Option<int>, now: int, fuel: nat)
    requires var path := CachePath(cfg.cacheDir, file);
             !cfg.enabled || path !in st.store
             || (sourceMtime.Some? && st.store[path].mtime < sourceMtime.value)
    requires IncludeFiles(files, file, fuel).Ok?
    ensures var path := CachePath(cfg.cacheDir, file);
            var r := Cache(cfg, st, files, file, sourceMtime, now, fuel);
            var compiled := CompileCode(IncludeFiles(files, file, fuel).value, st.blocks);
            && r.Ok? && r.value.1.store[path] == CachedFile(compiled.0, now)
            && r.value.1.blocks == compiled.1
            && (forall p :: p != path && p in st.store ==> p in r.value.1.store && r.value.1.store[p] == st.store[p])
  {
  }

  /** A failing template is not cached. */
  lemma CacheFails(cfg: Settings, st: State, files: map<string, string>, file: string,
                   sourceMtime: Option<int>, now: int, fuel: nat)
    requires var path := CachePath(cfg.cacheDir, file);
             !cfg.enabled || path !in st.store
             || (sourceMtime.Some? && st.store[path].mtime < sourceMtime.value)
    requires IncludeFiles(files, file, fuel).Err?
    ensures Cache(cfg, st, files, file, sourceMtime, now, fuel) == Err(IncludeFiles(files, file, fuel).message)
  {
  }

  /** With caching on, asking again for a template whose source is not
      newer than the write finds the cached file: the second call changes
      nothing. */
  lemma {:induction false} CacheSettles(cfg: Settings, st: State, files: map<string, string>, file: string,
                     sourceMtime: Option<int>, now: int, later: int, fuel: nat)
    requires cfg.enabled && Cache(cfg, st, files, file, sourceMtime, now, fuel).Ok?
    requires sourceMtime.None? || sourceMtime.value <= now
    ensures var st1 := Cache(cfg, st, files, file, sourceMtime, now, fuel).value.1;
            Cache(cfg, st1, files, file, sourceMtime, later, fuel) == Ok((CachePath(cfg.cacheDir, file), st1))
  {
    var path := CachePath(cfg.cacheDir, file);
    var st1 := Cache(cfg, st, files, file, sourceMtime, now, fuel).value.1;
    var cached := if path in st.store then Some(st.store[path].mtime) else None;
    if MustRecompile(cfg.enabled, cached, sourceMtime) {
      assert st1.store[path].mtime == now;
    } else {
      assert st1 == st;
    }
    CacheHit(cfg, st1, files, file, sourceMtime, later, fuel);
  }

  /** The cache file name is the template name with `/` mapped to `_`,
      so two templates that differ only there share one cached file. */
  lemma CachePathIsMap(cacheDir: string, file: string)
    ensures CachePath(cacheDir, file) == cacheDir + MapChar(file + ".xml", '/', '_')
  {
    ReplaceCharIsMap(file + ".xml", '/', '_');
  }

  lemma CachePathCollision(cacheDir: string)
    ensures CachePath(cacheDir, "a/b") == CachePath(cacheDir, "a_b")
  {
    CachePathIsMap(cacheDir, "a/b");
    CachePathIsMap(cacheDir, "a_b");
    assert MapChar("a/b.xml", '/', '_') == "a_b.xml";
    assert MapChar("a_b.xml", '/', '_') == "a_b.xml";
  }

  // ---------------------------------------------------------------- view

  /** What `view` returns is the rendered text with the escaping of
      `includeFiles` undone: plain template text comes back unchanged. */
  lemma ViewShowsText(files: map<string, string>, f: string, fuel: nat, b: Blocks)
    requires f in files && fuel >= 1 && '{' !in files[f] && '|' !in files[f]
    ensures IncludeFiles(files, f, fuel).Ok?
    ensures var code := IncludeFiles(files, f, fuel).value;
            CompileCode(code, b) == (code, b) && ViewText(code) == files[f]
  {
    var code := Escape(files[f]);
    IncludeLeaf(files, f, fuel);
    TextOnlyCompiles(code, b);
    EscapeRoundTrip(files[f]);
  }

  lemma TextOnlyCompiles(code: string, b: Blocks)
    requires '{' !in code
    ensures CompileCode(code, b) == (code, b)
  {
    Untouched(BlockSection, code, 0, Text(""));
    assert Tags([Lit(code)]) == Tags([]) by {
      assert [Lit(code)][1..] == [];
    }
    SubstituteUntouched(code, b, 0);
    Untouched(AnyYield, code, 0, Text(""));
    Untouched(EscapedEcho, code, 0, Wrap(EscapedPre, EscapedPost));
    EchoStatementUntouched(code);
    CodeSteps(code, b, code);
  }

  // ------------------------------------------------ any number of tags

  /** A pass copies through text without the first character of its lead
      and goes on with the rest. */
  lemma ReplacePlain(p: Pattern, z: string, w: string, rep: Repl)
    requires Valid(p) && Lead(p)[0] !in z
    ensures Replace(p, z + w, rep) == z + Replace(p, w, rep)
  {
    var s := z + w;
    forall k | 0 <= k < |z| ensures s[k] != Lead(p)[0] {
      assert s[k] == z[k];
    }
    NoOccurrence(s, Lead(p), 0, |z|);
    Locality.ReplaceSkip(p, z, w, rep);
  }

  /** One enclosed tag after text without its first character is wrapped,
      and the rest of the text is compiled on its own. */
  lemma WrapStep(o: string, c: string, pre: string, post: string,
                 x: string, l: string, e: string, r: string, y: string)
    requires o != [] && c != [] && !IsSpace(c[0])
    requires o[0] !in x && c[0] !in e
    requires AllSpace(l) && AllSpace(r) && Trimmed(e)
    ensures Replace(Enclosed(o, c), x + o + l + e + r + c + y, Wrap(pre, post))
            == x + pre + e + post + Replace(Enclosed(o, c), y, Wrap(pre, post))
  {
    hide *;
    var t := o + l + e + r + c;
    TagGroups(x, o, l, e, r, c, y);
    EnclosedTagAt(o, c, x, l, e, r, y);
    EnclosedLead(o, c);
    Locality.ReplaceStep(Enclosed(o, c), x, t, y, e, [], Wrap(pre, post));
    SubstituteWrap(e, pre, post);
    Regroup(x, pre, e, post, Replace(Enclosed(o, c), y, Wrap(pre, post)));
  }

  /** The tag right after `x` is read whole, with the trimmed expression
      as its group. */
  lemma EnclosedTagAt(o: string, c: string, x: string, l: string, e: string, r: string, y: string)
    requires o != [] && c != [] && !IsSpace(c[0])
    requires o[0] !in x && c[0] !in e
    requires AllSpace(l) && AllSpace(r) && Trimmed(e)
    ensures var s := x + o + l + e + r + c + y;
            && OccursAt(s, o, |x|)
            && MatchAt(Enclosed(o, c), s, |x|) == Some(Match(|x| + |o| + |l| + |e| + |r| + |c|, e, []))
  {
    hide *;
    var s := x + o + l + e + r + c + y;
    var q := |x| + |o| + |l| + |e| + |r|;
    EnclosedTagLayout(s, |x|, |l|, q, o, c, x, l, e, r, y);
    EnclosedSliced(s, |x|, o, c, |l|, q, e, r);
  }

  /** Where the parts of the tag right after `x` lie. */
  lemma EnclosedTagLayout(s: string, j: nat, w: nat, q: nat, o: string, c: string, x: string, l: string, e: string, r: string, y: string)
    requires s == x + o + l + e + r + c + y
    requires j == |x| && w == |l| && q == |x| + |o| + |l| + |e| + |r|
    ensures OccursAt(s, o, j) && j + |o| + w <= q && OccursAt(s, c, q)
    ensures s[j + |o|..j + |o| + w] == l && s[j + |o| + w..q] == e + r
  {
    assert s == x + (o + (l + ((e + r) + (c + y))));
  }

  /** `EnclosedTrimmed` with the group's parts given as slices of the
      text. */
  lemma EnclosedSliced(s: string, j: nat, o: string, c: string, w: nat, q: nat, e: string, r: string)
    requires o != [] && c != [] && !IsSpace(c[0]) && c[0] !in e
    requires OccursAt(s, o, j) && j + |o| + w <= q && OccursAt(s, c, q)
    requires AllSpace(s[j + |o|..j + |o| + w]) && s[j + |o| + w..q] == e + r
    requires Trimmed(e) && AllSpace(r)
    ensures MatchAt(Enclosed(o, c), s, j) == Some(Match(q + |c|, e, []))
  {
    var a := j + |o| + w;
    assert s[a] == e[0] by {
      assert s[a] == s[a..q][0];
    }
    forall k | j + |o| <= k < a ensures IsSpace(s[k]) {
      assert s[k] == s[j + |o|..a][k - j - |o|];
    }
    forall k | a + 1 <= k < q ensures s[k] != c[0] {
      assert s[k] == (e + r)[k - a];
    }
    EnclosedTrimmed(s, j, o, c, w, q, e, r);
  }

  lemma TagGroups(x: string, o: string, l: string, e: string, r: string, c: string, y: string)
    ensures x + o + l + e + r + c + y == x + (o + l + e + r + c) + y
  {
  }

  lemma EnclosedLead(o: string, c: string)
    requires o != [] && c != []
    ensures Valid(Enclosed(o, c)) && Lead(Enclosed(o, c)) == o
  {
  }

  lemma SubstituteWrap(g: string, pre: string, post: string)
    ensures Substitute(g, Wrap(pre, post)) == pre + g + post
  {
  }

  /** `compileEchos` one tag at a time. */
  lemma EchoStep(x: string, l: string, e: string, r: string, y: string)
    requires '{' !in x && '}' !in e
    requires AllSpace(l) && AllSpace(r) && Trimmed(e)
    ensures CompileEchos(x + "{{" + l + e + r + "}}" + y) == x + EchoPre + e + EchoPost + CompileEchos(y)
  {
    WrapStep("{{", "}}", EchoPre, EchoPost, x, l, e, r, y);
  }

  /** `compileEscapedEchos` one tag at a time. */
  lemma EscapedEchoStep(x: string, l: string, e: string, r: string, y: string)
    requires '{' !in x && '}' !in e
    requires AllSpace(l) && AllSpace(r) && Trimmed(e)
    ensures CompileEscapedEchos(x + "{{{" + l + e + r + "}}}" + y)
            == x + EscapedPre + e + EscapedPost + CompileEscapedEchos(y)
  {
    WrapStep("{{{", "}}}", EscapedPre, EscapedPost, x, l, e, r, y);
  }

  /** `compilePHP` one tag at a time. */
  lemma StatementStep(x: string, l: string, e: string, r: string, y: string)
    requires '{' !in x && '%' !in e
    requires AllSpace(l) && AllSpace(r) && Trimmed(e)
    ensures CompilePHP(x + "{%" + l + e + r + "%}" + y) == x + PhpPre + e + PhpPost + CompilePHP(y)
  {
    WrapStep("{%", "%}", PhpPre, PhpPost, x, l, e, r, y);
  }

  /** Text without tags, then an enclosed tag: spaces `l`, the expression
      `e`, spaces `r`. */
  datatype Span = Span(before: string, l: string, e: string, r: string)

  predicate SpanOk(o: string, c: string, sp: Span)
    requires o != [] && c != []
  {
    o[0] !in sp.before && c[0] !in sp.e && AllSpace(sp.l) && AllSpace(sp.r) && Trimmed(sp.e)
  }

  /** The template: each span with its tag between `o` and `c`, then `y`. */
  function Enclosing(o: string, c: string, sps: seq<Span>, y: string): string
    decreases |sps|
  {
    if sps == [] then y
    else
      var sp := sps[0];
      sp.before + o + sp.l + sp.e + sp.r + c + Enclosing(o, c, sps[1..], y)
  }

  /** The compiled text: each expression between `pre` and `post`. */
  function Wrapping(pre: string, post: string, sps: seq<Span>, y: string): string
    decreases |sps|
  {
    if sps == [] then y
    else sps[0].before + pre + sps[0].e + post + Wrapping(pre, post, sps[1..], y)
  }

  /** Every tag of a template of enclosed tags is wrapped, in order. */
  lemma {:induction false} WrapAll(o: string, c: string, pre: string, post: string, sps: seq<Span>, y: string)
    requires o != [] && c != [] && !IsSpace(c[0]) && o[0] !in y
    requires forall i :: 0 <= i < |sps| ==> SpanOk(o, c, sps[i])
    ensures Replace(Enclosed(o, c), Enclosing(o, c, sps, y), Wrap(pre, post)) == Wrapping(pre, post, sps, y)
    decreases |sps|
  {
    if sps == [] {
      Untouched(Enclosed(o, c), y, 0, Wrap(pre, post));
    } else {
      var sp := sps[0];
      assert SpanOk(o, c, sp);
      WrapStep(o, c, pre, post, sp.before, sp.l, sp.e, sp.r, Enclosing(o, c, sps[1..], y));
      WrapAll(o, c, pre, post, sps[1..], y);
    }
  }

  /** `compileEchos` on a template of any number of echo tags. */
  lemma EchosCompile(sps: seq<Span>, y: string)
    requires '{' !in y && forall i :: 0 <= i < |sps| ==> SpanOk("{{", "}}", sps[i])
    ensures CompileEchos(Enclosing("{{", "}}", sps, y)) == Wrapping(EchoPre, EchoPost, sps, y)
  {
    WrapAll("{{", "}}", EchoPre, EchoPost, sps, y);
  }

  /** `compileEscapedEchos` on a template of any number of escaped echoes. */
  lemma EscapedEchosCompile(sps: seq<Span>, y: string)
    requires '{' !in y && forall i :: 0 <= i < |sps| ==> SpanOk("{{{", "}}}", sps[i])
    ensures CompileEscapedEchos(Enclosing("{{{", "}}}", sps, y)) == Wrapping(EscapedPre, EscapedPost, sps, y)
  {
    WrapAll("{{{", "}}}", EscapedPre, EscapedPost, sps, y);
  }

  /** `compilePHP` on a template of any number of statement tags. */
  lemma StatementsCompile(sps: seq<Span>, y: string)
    requires '{' !in y && forall i :: 0 <= i < |sps| ==> SpanOk("{%", "%}", sps[i])
    ensures CompilePHP(Enclosing("{%", "%}", sps, y)) == Wrapping(PhpPre, PhpPost, sps, y)
  {
    WrapAll("{%", "%}", PhpPre, PhpPost, sps, y);
  }

  // yields

  predicate PlainContents(b: Blocks) {
    forall i :: 0 <= i < |b| ==> '{' !in b[i].content
  }

  /** The substitution loop copies through text without tags. */
  lemma {:induction false} SubstitutePlain(z: string, w: string, slots: Blocks)
    requires '{' !in z
    ensures SubstituteYields(z + w, slots) == z + SubstituteYields(w, slots)
    decreases |slots|
  {
    if slots != [] {
      var rep := Text(slots[0].content);
      ReplacePlain(YieldOf(slots[0].name), z, w, rep);
      SubstitutePlain(z, Replace(YieldOf(slots[0].name), w, rep), slots[1..]);
    }
  }

  /** The substitution loop one tag at a time: a yield of `n` becomes the
      content of the first slot named `n`, or stays when there is none. */
  lemma {:induction false} SubstituteStep(x: string, n: string, w: string, slots: Blocks)
    requires '{' !in x && IsIdent(n) && NamesAreIdents(slots) && PlainContents(slots)
    ensures SubstituteYields(x + YieldText(n) + w, slots)
            == x + Content(slots, n).GetOr(YieldText(n)) + SubstituteYields(w, slots)
    decreases |slots|
  {
    if slots != [] {
      var m := slots[0].name;
      var rep := Text(slots[0].content);
      if m == n {
        var v := slots[0].content;
        YieldStep(x, n, w, v);
        assert '{' !in x + v;
        SubstitutePlain(x + v, Replace(YieldOf(n), w, rep), slots[1..]);
      } else {
        YieldOtherStep(x, n, m, w, rep);
        assert NamesAreIdents(slots[1..]) && PlainContents(slots[1..]);
        assert Content(slots[1..], n) == Content(slots, n);
        SubstituteStep(x, n, Replace(YieldOf(m), w, rep), slots[1..]);
      }
    }
  }

  /** `compileYield` one tag at a time: a yield of `n` after text without
      tags becomes the content of block `n`, or nothing when it is unset. */
  lemma CompileYieldStep(x: string, n: string, w: string, b: Blocks)
    requires '{' !in x && IsIdent(n) && NamesAreIdents(b) && PlainContents(b)
    ensures CompileYield(x + YieldText(n) + w, b) == x + Content(b, n).GetOr("") + CompileYield(w, b)
  {
    SubstituteStep(x, n, w, b);
    var r := SubstituteYields(w, b);
    match Content(b, n)
    case Some(v) =>
      assert Content(b, n) == Some(v);
      ReplacePlain(AnyYield, x + v, r, Text(""));
    case None =>
      AnyYieldStep(x, n, r);
      assert x + "" == x;
  }

  /** Text without tags, then a yield of `name`. */
  datatype YieldSite = YieldSite(before: string, name: string)

  function YieldTemplate(ys: seq<YieldSite>, y: string): string
    decreases |ys|
  {
    if ys == [] then y else ys[0].before + YieldText(ys[0].name) + YieldTemplate(ys[1..], y)
  }

  /** Each yield replaced by its block's content, or by nothing. */
  function Yielded(ys: seq<YieldSite>, b: Blocks, y: string): string
    decreases |ys|
  {
    if ys == [] then y else ys[0].before + Content(b, ys[0].name).GetOr("") + Yielded(ys[1..], b, y)
  }

  /** `compileYield` on a template of any number of yields. */
  lemma {:induction false} YieldsCompile(ys: seq<YieldSite>, y: string, b: Blocks)
    requires '{' !in y && NamesAreIdents(b) && PlainContents(b)
    requires forall i :: 0 <= i < |ys| ==> '{' !in ys[i].before && IsIdent(ys[i].name)
    ensures CompileYield(YieldTemplate(ys, y), b) == Yielded(ys, b, y)
    decreases |ys|
  {
    if ys == [] {
      SubstituteUntouched(y, b, 0);
      Untouched(AnyYield, y, 0, Text(""));
    } else {
      CompileYieldStep(ys[0].before, ys[0].name, YieldTemplate(ys[1..], y), b);
      YieldsCompile(ys[1..], y, b);
    }
  }

  // sections and includes

  /** Text without tags, then a section `name` holding `body`. */
  datatype Section = Section(before: string, name: string, body: string)

  predicate SectionOk(sc: Section) {
    '{' !in sc.before && '{' !in sc.body && '%' !in sc.name
  }

  function SectionTemplate(ss: seq<Section>, y: string): string
    decreases |ss|
  {
    if ss == [] then y else ss[0].before + BlockText(ss[0].name, ss[0].body) + SectionTemplate(ss[1..], y)
  }

  function SectionTags(ss: seq<Section>): (r: seq<Piece>)
    ensures |r| == |ss|
    decreases |ss|
  {
    if ss == [] then [] else [Tag(BlockText(ss[0].name, ss[0].body), ss[0].name, ss[0].body)] + SectionTags(ss[1..])
  }

  /** `compileBlock` finds every section of the template, in order, each
      with its name and body. */
  lemma {:induction false} SectionsFound(ss: seq<Section>, y: string)
    requires '{' !in y && forall i :: 0 <= i < |ss| ==> SectionOk(ss[i])
    ensures MatchAll(BlockSection, SectionTemplate(ss, y)) == SectionTags(ss)
    decreases |ss|
  {
    if ss == [] {
      Untouched(BlockSection, y, 0, Text(""));
      assert Tags([Lit(y)]) == Tags([]) by {
        assert [Lit(y)][1..] == [];
      }
    } else {
      assert SectionOk(ss[0]);
      BlockStep(ss[0].before, ss[0].name, ss[0].body, SectionTemplate(ss[1..], y));
      SectionsFound(ss[1..], y);
    }
  }

  /** Text without tags, then an include or extends tag naming `name`. */
  datatype Inclusion = Inclusion(before: string, kw: string, name: string)

  predicate InclusionOk(inc: Inclusion) {
    && (inc.kw == "include" || inc.kw == "extends")
    && '{' !in inc.before && '%' !in inc.name && '\n' !in inc.name
  }

  function IncludeTemplate(incs: seq<Inclusion>, y: string): string
    requires forall i :: 0 <= i < |incs| ==> InclusionOk(incs[i])
    decreases |incs|
  {
    if incs == [] then y
    else
      assert InclusionOk(incs[0]);
      incs[0].before + IncludeText(incs[0].kw, incs[0].name) + IncludeTemplate(incs[1..], y)
  }

  function IncludeTags(incs: seq<Inclusion>): (r: seq<Piece>)
    requires forall i :: 0 <= i < |incs| ==> InclusionOk(incs[i])
    ensures |r| == |incs|
    decreases |incs|
  {
    if incs == [] then []
    else
      assert InclusionOk(incs[0]);
      [Tag(IncludeText(incs[0].kw, incs[0].name), incs[0].name, [])] + IncludeTags(incs[1..])
  }

  /** `includeFiles` finds every include tag of the template, in order,
      each with the name it quotes. */
  lemma {:induction false} IncludesFound(incs: seq<Inclusion>, y: string)
    requires '{' !in y && forall i :: 0 <= i < |incs| ==> InclusionOk(incs[i])
    ensures MatchAll(IncludeTag, IncludeTemplate(incs, y)) == IncludeTags(incs)
    decreases |incs|
  {
    if incs == [] {
      Untouched(IncludeTag, y, 0, Text(""));
      assert Tags([Lit(y)]) == Tags([]) by {
        assert [Lit(y)][1..] == [];
      }
    } else {
      assert InclusionOk(incs[0]);
      IncludeStep(incs[0].before, incs[0].kw, incs[0].name, IncludeTemplate(incs[1..], y));
      IncludesFound(incs[1..], y);
    }
  }
}
