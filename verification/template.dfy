/** The template compiler of `Templates\Template`: include inlining, the
    five compile passes in their fixed order, the process-wide block
    registry, the cache decision and cache file name, and the restoring of
    processing-instruction delimiters after rendering.

    The registry `Template::$blocks` lives for the whole PHP process and is
    never cleared; here it is an explicit value threaded through the passes.
    It is an ordered list rather than a map because `compileYield` walks it
    in insertion order, and that order decides what a block that yields
    another block produces. */
module Template {
  import opened Results
  import opened Strings
  import opened Patterns
  import opened Escaping

  // ------------------------------------------------------------ registry

  datatype Slot = Slot(name: string, content: string)

  type Blocks = seq<Slot>

  predicate UniqueNames(b: Blocks) {
    forall i, j :: 0 <= i < j < |b| ==> b[i].name != b[j].name
  }

  /** Position of the block called `n`. */
  function SlotIndex(b: Blocks, n: string): (r: Option<nat>)
    ensures r.Some? ==> r.value < |b| && b[r.value].name == n
    ensures r.Some? ==> forall i :: 0 <= i < r.value ==> b[i].name != n
    ensures r.None? ==> forall i :: 0 <= i < |b| ==> b[i].name != n
    decreases |b|
  {
    if b == [] then None
    else if b[0].name == n then Some(0)
    else
      match SlotIndex(b[1..], n)
      case None => None
      case Some(i) => Some(i + 1)
  }

  /** `self::$blocks[$n]`, when set. */
  function Content(b: Blocks, n: string): Option<string> {
    match SlotIndex(b, n)
    case Some(i) => Some(b[i].content)
    case None => None
  }

  /** `self::$blocks[$n] = $v`: an existing block keeps its place, a new
      one goes last. */
  function Put(b: Blocks, n: string, v: string): (r: Blocks)
    ensures Content(r, n) == Some(v)
    ensures forall m :: m != n ==> Content(r, m) == Content(b, m)
    ensures Content(b, n).Some? ==> |r| == |b| && forall i :: 0 <= i < |b| ==> r[i].name == b[i].name
    ensures Content(b, n).None? ==> r == b + [Slot(n, v)]
    ensures UniqueNames(b) ==> UniqueNames(r)
  {
    match SlotIndex(b, n)
    case Some(i) =>
      var r := b[i := Slot(n, v)];
      forall m | m != n ensures SlotIndex(r, m) == SlotIndex(b, m) {
        SlotIndexUpdate(b, i, Slot(n, v), m);
      }
      SlotIndexFirst(r, i, n);
      r
    case None =>
      var r := b + [Slot(n, v)];
      forall m | m != n ensures SlotIndex(r, m) == SlotIndex(b, m) {
        SlotIndexAppend(b, Slot(n, v), m);
      }
      SlotIndexFirst(r, |b|, n);
      r
  }

  lemma SlotIndexFirst(b: Blocks, i: nat, n: string)
    requires i < |b| && b[i].name == n
    requires forall j :: 0 <= j < i ==> b[j].name != n
    ensures SlotIndex(b, n) == Some(i)
  {
    var r := SlotIndex(b, n);
  }

  lemma SlotIndexUpdate(b: Blocks, i: nat, x: Slot, m: string)
    requires i < |b| && b[i].name == x.name && x.name != m
    ensures SlotIndex(b[i := x], m) == SlotIndex(b, m)
  {
    match SlotIndex(b, m)
    case Some(j) => SlotIndexFirst(b[i := x], j, m);
    case None =>
  }

  lemma SlotIndexAppend(b: Blocks, x: Slot, m: string)
    requires x.name != m
    ensures SlotIndex(b + [x], m) == SlotIndex(b, m)
  {
    match SlotIndex(b, m)
    case Some(j) => SlotIndexFirst(b + [x], j, m);
    case None =>
  }

  /** One iteration of the loop of `compileBlock`: the block's previous
      content (empty when unset) replaces every `@parent` of the new body;
      a body without `@parent` replaces the block outright. */
  function UpdateBlock(b: Blocks, n: string, body: string): (r: Blocks)
    ensures forall m :: m != n ==> Content(r, m) == Content(b, m)
    ensures Content(r, n).Some?
    ensures UniqueNames(b) ==> UniqueNames(r)
  {
    var prev := Content(b, n).GetOr("");
    if !Contains(body, "@parent") then Put(b, n, body)
    else Put(b, n, ReplaceAll(body, "@parent", prev))
  }

  // ---------------------------------------------------------- the passes

  const EscapedEcho: Pattern := Enclosed("{{{", "}}}")
  const RawEcho: Pattern := Enclosed("{{", "}}")
  const Statement: Pattern := Enclosed("{%", "%}")
  const IncludeTag: Pattern := Directive(["extends", "include"], true)
  const AnyYield: Pattern := Directive(["yield"], false)

  const EscapedPre := "<?php echo htmlentities("
  const EscapedPost := ", ENT_QUOTES, 'UTF-8') ?>"
  const EchoPre := "<?php echo "
  const EchoPost := " ?>"
  const PhpPre := "<?php "
  const PhpPost := " ?>"

  /** `compileEscapedEchos`. Only the tags are rewritten: code without
      `{` comes out as it went in. */
  function CompileEscapedEchos(code: string): (r: string)
    ensures '{' !in code ==> r == code
  {
    if '{' in code then Replace(EscapedEcho, code, Wrap(EscapedPre, EscapedPost))
    else
      Untouched(EscapedEcho, code, 0, Wrap(EscapedPre, EscapedPost));
      Replace(EscapedEcho, code, Wrap(EscapedPre, EscapedPost))
  }

  /** `compileEchos`. */
  function CompileEchos(code: string): (r: string)
    ensures '{' !in code ==> r == code
  {
    if '{' in code then Replace(RawEcho, code, Wrap(EchoPre, EchoPost))
    else
      Untouched(RawEcho, code, 0, Wrap(EchoPre, EchoPost));
      Replace(RawEcho, code, Wrap(EchoPre, EchoPost))
  }

  /** `compilePHP`. */
  function CompilePHP(code: string): (r: string)
    ensures '{' !in code ==> r == code
  {
    if '{' in code then Replace(Statement, code, Wrap(PhpPre, PhpPost))
    else
      Untouched(Statement, code, 0, Wrap(PhpPre, PhpPost));
      Replace(Statement, code, Wrap(PhpPre, PhpPost))
  }

  /** The loop of `compileBlock` over the sections found, each recorded in
      the registry and then deleted, with every copy of its text, from the
      code. */
  function ApplyBlocks(code: string, b: Blocks, ms: seq<Piece>): (r: (string, Blocks))
    requires forall i :: 0 <= i < |ms| ==> ms[i].Tag?
    ensures UniqueNames(b) ==> UniqueNames(r.1)
    ensures forall m :: (forall i :: 0 <= i < |ms| ==> ms[i].first != m) ==> Content(r.1, m) == Content(b, m)
    decreases |ms|
  {
    if ms == [] then (code, b)
    else
      var m := ms[0];
      ApplyBlocks(ReplaceAll(code, m.whole, ""), UpdateBlock(b, m.first, m.second), ms[1..])
  }

  /** `compileBlock`: the sections are all found first, in the code as it
      was passed in. */
  function CompileBlock(code: string, b: Blocks): (r: (string, Blocks))
    ensures UniqueNames(b) ==> UniqueNames(r.1)
    ensures '{' !in code ==> r == (code, b)
  {
    if '{' in code then ApplyBlocks(code, b, MatchAll(BlockSection, code))
    else
      Untouched(BlockSection, code, 0, Text(""));
      assert Tags([Lit(code)]) == [] by {
        assert [Lit(code)][1..] == [];
      }
      ApplyBlocks(code, b, MatchAll(BlockSection, code))
  }

  /** The loop of `compileYield`: every yield tag of each registered block,
      in registry order, becomes the block's content. Code without `{`
      has no yield tag to replace. */
  function SubstituteYields(code: string, slots: Blocks): (r: string)
    ensures '{' !in code ==> r == code
    decreases |slots|
  {
    if slots == [] then code
    else
      var next := Replace(YieldOf(slots[0].name), code, Text(slots[0].content));
      if '{' in code then SubstituteYields(next, slots[1..])
      else
        Untouched(YieldOf(slots[0].name), code, 0, Text(slots[0].content));
        SubstituteYields(next, slots[1..])
  }

  /** `compileYield`: registered yields are substituted, then every yield
      tag left is deleted. */
  function CompileYield(code: string, b: Blocks): (r: string)
    ensures '{' !in code ==> r == code
  {
    var s := SubstituteYields(code, b);
    if '{' in code then Replace(AnyYield, s, Text(""))
    else
      Untouched(AnyYield, s, 0, Text(""));
      Replace(AnyYield, s, Text(""))
  }

  /** `compileCode`: block, yield, escaped echo, echo, statement. */
  function CompileCode(code: string, b: Blocks): (r: (string, Blocks))
    ensures r.1 == CompileBlock(code, b).1
  {
    var (c1, b1) := CompileBlock(code, b);
    var c2 := CompileYield(c1, b1);
    (CompilePHP(CompileEchos(CompileEscapedEchos(c2))), b1)
  }

  // ------------------------------------------------------------ includes

  /** Under `strict_types`, `file_get_contents` of a missing file returns
      `false` and the `str_replace` that follows throws. */
  const MissingTemplate := "str_replace(): Argument #3 ($subject) must be of type array|string, bool given"

  /** Include nesting deeper than the fuel given (a cycle never ends in
      the PHP code). */
  const IncludeTooDeep := "include nesting too deep"

  /** `includeFiles($file)`: the template is read, PHP tags are escaped,
      every include or extends tag found is replaced (all copies of its
      text) by the recursively included file, depth first in order, and any
      such tag left afterwards is deleted. `files` maps template names to
      contents. */
  function IncludeFiles(files: map<string, string>, file: string, fuel: nat): (r: Result<string>)
    ensures file !in files && fuel > 0 ==> r == Err(MissingTemplate)
    ensures r.Ok? ==> file in files
    ensures r.Err? ==> r.message == MissingTemplate || r.message == IncludeTooDeep
    decreases fuel, 0
  {
    if fuel == 0 then Err(IncludeTooDeep)
    else if file !in files then Err(MissingTemplate)
    else
      var code := Escape(files[file]);
      var inlined :- InlineAll(files, code, MatchAll(IncludeTag, code), fuel - 1);
      Ok(Replace(IncludeTag, inlined, Text("")))
  }

  /** The loop of `includeFiles` over the tags found: it stops at the
      first file that cannot be included, and without tags the code is
      kept. */
  function InlineAll(files: map<string, string>, code: string, ms: seq<Piece>, fuel: nat): (r: Result<string>)
    requires forall i :: 0 <= i < |ms| ==> ms[i].Tag?
    ensures r.Err? ==> r.message == MissingTemplate || r.message == IncludeTooDeep
    ensures ms == [] ==> r == Ok(code)
    decreases fuel, 1, |ms|
  {
    if ms == [] then Ok(code)
    else
      var inc :- IncludeFiles(files, ms[0].first, fuel);
      InlineAll(files, ReplaceAll(code, ms[0].whole, inc), ms[1..], fuel)
  }

  // --------------------------------------------------------------- cache

  /** The static settings `$cache_path` and `$cache_enabled`. */
  datatype Settings = Settings(cacheDir: string, enabled: bool)

  datatype CachedFile = CachedFile(code: string, mtime: int)

  /** The cache directory's files by path, and the block registry. */
  datatype State = State(store: map<string, CachedFile>, blocks: Blocks)

  /** The cached file's path: the template name with `.xml` appended and
      every `/` turned into `_`, under the cache directory. */
  function CachePath(cacheDir: string, file: string): (r: string)
    ensures IsPrefix(cacheDir, r) && |r| == |cacheDir| + |file| + 4
    ensures '/' !in r[|cacheDir|..]
  {
    ReplaceCharIsMap(file + ".xml", '/', '_');
    cacheDir + ReplaceAll(file + ".xml", "/", "_")
  }

  /** The test of `cache`: `filemtime` of a missing source is `false`, and
      no integer is below `false`, so a missing source never forces a
      rebuild of an existing cached file. */
  function MustRecompile(enabled: bool, cachedMtime: Option<int>, sourceMtime: Option<int>): (r: bool)
    ensures !enabled || cachedMtime.None? ==> r
    ensures enabled && cachedMtime.Some? && sourceMtime.None? ==> !r
    ensures enabled && cachedMtime.Some? && sourceMtime.Some? ==> (r <==> cachedMtime.value < sourceMtime.value)
  {
    !enabled || cachedMtime.None? || (sourceMtime.Some? && cachedMtime.value < sourceMtime.value)
  }

  /** `cache($file)`: the path of the cached compiled template, compiling
      and storing it first when needed. `now` is the time the write gives
      the cached file; `sourceMtime` is `filemtime($file)`. */
  function Cache(cfg: Settings, st: State, files: map<string, string>, file: string,
                 sourceMtime: Option<int>, now: int, fuel: nat): (r: Result<(string, State)>)
    ensures r.Ok? ==> r.value.0 == CachePath(cfg.cacheDir, file)
    ensures r.Ok? ==> r.value.0 in r.value.1.store
  {
    var path := CachePath(cfg.cacheDir, file);
    var cached := if path in st.store then Some(st.store[path].mtime) else None;
    if MustRecompile(cfg.enabled, cached, sourceMtime) then
      var code :- IncludeFiles(files, file, fuel);
      var (compiled, blocks) := CompileCode(code, st.blocks);
      Ok((path, State(st.store[path := CachedFile(compiled, now)], blocks)))
    else Ok((path, st))
  }

  /** The text `view` returns, before XML re-formatting, for the output
      `rendered` of the compiled template. */
  function ViewText(rendered: string): (r: string)
    ensures '|' !in rendered ==> r == rendered
  {
    if '|' in rendered then Restore(rendered)
    else
      NoBarNoEscape(rendered);
      Restore(rendered)
  }
}
