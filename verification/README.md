# irnic-api core, modelled in Dafny

irnic-api is a PHP client for the IRNIC domain registry. It has three parts,
and this project models the deterministic core of each:

- **`Arrays`** holds helpers over dotted keys. The client applies them to
  flattened XML responses: `flatten`, `has_key`, `get` (with the `.*`
  wildcard), `str_starts_with` and `str_ends_with`.
- **`Templates\Template`** is a small template compiler. The registry
  requests are XML views written in it.
  - `includeFiles` inlines includes and escapes `<?`/`?>`.
  - Five passes run in a fixed order: block sections, yields, escaped echo,
    echo and statements.
  - A process-wide block registry stores block contents.
  - `cache` decides when to recompile and names the cache file.
  - `view` restores `<|?` and `?|>` after rendering.
- **`IrNic`** is the client itself. The model covers:
  - the reseller-handle rule of the constructor;
  - the argument checks of `domainCreate`, `domainRenew`,
    `domainUpdateContact` and `domainUpdateNS`;
  - the reshaping of nameserver lists;
  - the expiry day that `domainRenew` derives;
  - the error-field fallback of `getResponseMeta`.

Files:

- `results.dfy`: `Option` and `Result`. An `Err` carries the message the PHP
  code would throw.
- `strings.dfy`: prefix and suffix tests, `strpos` (`Find`), `str_replace`
  for one search string (`ReplaceAll`), and trimming of PCRE whitespace.
- `php_arrays.dfy`: PHP's ordered array.
  - Keys are unique. Canonical integer strings become integer keys.
  - Assignment overwrites a key in place or appends a new one; `$a[]` is
    push.
  - Also models `is_numeric` and `empty`.
- `arrays.dfy`: `Arrays`.
- `patterns.dfy`: each fixed regular expression of the compiler as the
  deterministic matcher that a backtracking engine amounts to on that
  pattern. Also the left-to-right scan behind `preg_match_all` and
  `preg_replace`.
- `locality.dfy`: each matcher reads only from its start onwards. So a
  scan resumed after a prefix is the scan of what follows, and
  `preg_replace` and `preg_match_all` work one tag at a time.
- `tags.dfy`: what the matchers find in texts built from the usual
  spellings of the tags.
- `escaping.dfy`: the `<?` escaping of `includeFiles` and its undoing in
  `view`.
- `template.dfy`: the compiler. The registry is an explicit ordered value
  threaded through the passes. The cache directory is a map from path to
  (code, mtime). The template files are a map from name to text.
- `template_facts.dfy`: the compiler's behaviour on whole templates.
- `irnic.dfy`: the client checks.

The model makes no network calls. Registry answers enter as parameters:
the result of `domainInfo`, and the outcome of `_checkPermissibleContacts`.
Each client operation returns the request it would send. Clock readings and
file modification times are also parameters.

## Model

| member | source | states |
|---|---|---|
| Arrays.StrEndsWith | src/Arrays.php:105-108 | true exactly when the needle is non-empty and the haystack ends with it, character by character |
| Arrays.StrStartsWith | src/Arrays.php:118-122 | an empty needle gives false; otherwise an integer key fails, because strict types reject it in `strncmp`; a string key gives true exactly when it starts with the needle |
| Arrays.HasKey | src/Arrays.php:48-57 | fails exactly when an integer key is reached before any matching key; otherwise true exactly when some key starts with the prefix |
| Arrays.HasKeyStringKeyed | src/Arrays.php:48-57 | on string keys, never fails and answers whether some key has the prefix |
| Arrays.HasKeyEmptyPrefix | src/Arrays.php:48-57 | with the empty prefix the answer is whether the array is non-empty (`strncmp` over length 0) |
| Arrays.Get | src/Arrays.php:72-95 | an exact key gives its stored value, or the default when absent; a wildcard lookup fails exactly when some key is an integer |
| Arrays.GetIgnoresOthers | src/Arrays.php:74-79 | an exact lookup depends only on the entries with that key |
| Arrays.RTrimChar | src/Arrays.php:82 | the result is the longest prefix that does not end in the trimmed character; only that character was removed |
| Arrays.WildcardPrefix | src/Arrays.php:82 | on a `.*` key, `rtrim(…, '*')` removes exactly the final star |
| Arrays.Collect | src/Arrays.php:84-90 | the loop fails exactly when some key of the array is an integer, since `strncmp` rejects it |
| Arrays.SetAll | src/Arrays.php:89 | repeated `$out[$k] = $v` keeps keys unique, never shrinks the output, and is empty only when both inputs are |
| Arrays.SetAllLookup | src/Arrays.php:89 | after the assignments each assigned key holds the value last assigned to it; every other key keeps its value |
| Arrays.SetAllFresh | src/Arrays.php:89 | when no key repeats, the assignments append the entries in order |
| Arrays.CollectSets | src/Arrays.php:84-90 | the loop assigns the entries whose key has the prefix, each re-keyed by `str_replace`, in their original order; a stripped key seen before is overwritten in place |
| Arrays.CollectDistinct | src/Arrays.php:84-90 | when the stripped keys do not collide, the loop appends exactly the matching entries, re-keyed, in order |
| Arrays.GetWildcard | src/Arrays.php:81-94 | a wildcard lookup on string keys gives the default when no key matches; otherwise the matching entries re-keyed and assigned in order, a later one overwriting an earlier one with the same stripped key at the earlier one's place; without such collisions, exactly the re-keyed entries |
| Arrays.GetWildcardCollision | src/Arrays.php:88-89 | under `p.*` the keys `p.a` and `p.p.a` both become `a`, and the result is one entry `a` holding the second value |
| Arrays.Flatten | src/Arrays.php:15-39 | a successful flatten has unique keys |
| Arrays.FlattenFrom | src/Arrays.php:18-36 | the outer loop keeps the output's keys unique |
| Arrays.FromKeys | src/Arrays.php:18-36 | keys already in the output stay there: the loop only assigns and appends |
| Arrays.MergeChildren | src/Arrays.php:25-31 | the inner loop keeps the output's keys unique |
| Arrays.AppendUnder | src/Arrays.php:27 | pushing under a key fails exactly when that key already holds a string; otherwise keys stay unique |
| Arrays.AppendUnderKeys | src/Arrays.php:27 | a push adds exactly its key to the output's keys |
| Arrays.FlattenFlat | src/Arrays.php:33-35 | an array without nested arrays flattens to itself |
| Arrays.FlattenConcat | src/Arrays.php:18-36 | flattening `a + b` fails if flattening `a` fails, and otherwise continues from the output for `a` with the entries of `b` |
| Arrays.FromShift | src/Arrays.php:18-36 | output entries whose keys the rest of the loop never produces are carried along unchanged in front |
| Arrays.FlattenConcatDisjoint | src/Arrays.php:15-39 | when the flattenings of `a` and `b` succeed and share no key, the flattening of `a + b` is their concatenation |
| Arrays.FlattenNumericNested | src/Arrays.php:19-23 | under a numeric key, a nested array is kept as its own flattening |
| Arrays.MergeNamed | src/Arrays.php:25-31 | string child keys are appended as `key.child`, in order |
| Arrays.FlattenStringNestedNamed | src/Arrays.php:28-30 | under a string key, children with string keys become `key.child` entries, in order |
| Arrays.FlattenStringNestedList | src/Arrays.php:25-27 | under a string key, children with numeric keys become one list renumbered from 0 |
| Escaping.Escape | src/Templates/Template.php:95 | replacing every `<?` and then every `?>` is the same as inserting a bar inside every adjacent `<?` and `?>` pair of the original at once, including pairs that share a `?` |
| Escaping.Restore | src/Templates/Template.php:29 | text that holds neither escaped delimiter is left as it is |
| Escaping.ReplaceIsMark | src/Templates/Template.php:95 | replacing a two-character pair by the pair with a bar between is inserting a bar inside every such adjacent pair, since occurrences cannot overlap |
| Escaping.EscapeHidesTags | src/Templates/Template.php:95 | an escaped template contains neither `<?` nor `?>` |
| Escaping.EscapeAround | src/Templates/Template.php:95 | escaping works piecewise around a stretch without `?` that cannot join a pair |
| Escaping.UnmarkMark | src/Templates/Template.php:29 | removing the inserted bars undoes the marking of a text that had no bar after the first character |
| Escaping.EscapeRoundTrip | src/Templates/Template.php:29 | the restore in `view` gives back any template text without a bar character |
| Patterns.EnclosedAt | src/Templates/Template.php:112 | a match of `o\s*(.+?)\s*c` ends with the close, lies inside the text, and has a non-empty group and no second group |
| Patterns.DirectiveAt | src/Templates/Template.php:96-100 | a match of the include or yield pattern ends with `%}` inside the text, and its group holds no line feed: PCRE's `.` stops at one without the `s` flag |
| Patterns.BlockAt | src/Templates/Template.php:147 | a match of the section pattern ends with `%}` inside the text |
| Patterns.ScanLossless | src/Templates/Template.php:147 | the text between and inside the matches gives back the whole input |
| Patterns.Untouched | src/Templates/Template.php:110-113 | a pass finds no match in, and leaves unchanged, text that lacks some character of its lead text |
| Locality.MatchShift | src/Templates/Template.php:112 | the attempt at a position of the whole text is the attempt at the same place in the tail after a prefix, moved by the prefix's length |
| Locality.ScanShift | src/Templates/Template.php:112 | the scan of the whole text resumed in the tail after a prefix is the scan of that tail |
| Locality.ScanStep | src/Templates/Template.php:96 | when a match starts right after a text without the lead's first character, the scan gives that text, the tag, and then the scan of what follows on its own |
| Locality.ReplaceStep | src/Templates/Template.php:112 | `preg_replace` then substitutes that tag and works on what follows on its own |
| Locality.MatchAllStep | src/Templates/Template.php:96 | `preg_match_all` then lists that tag followed by the matches of what follows |
| Locality.ReplaceSkip | src/Templates/Template.php:171 | a stretch in which no attempt matches is copied through, and the rest is replaced on its own |
| Template.Put | src/Templates/Template.php:149-153 | after assignment the block has the new content and every other block keeps its own; an existing block keeps its place, a new one goes last |
| Template.UpdateBlock | src/Templates/Template.php:149-154 | one step of `compileBlock` defines the block and leaves every other block as it was |
| Template.ApplyBlocks | src/Templates/Template.php:148-156 | blocks not named by any section found keep their content |
| Template.CompileBlock | src/Templates/Template.php:145-158 | block names stay unique; code without `{` and the registry pass through unchanged |
| Template.SubstituteYields | src/Templates/Template.php:168-170 | code without `{` holds no yield tag and comes out unchanged |
| Template.CompileYield | src/Templates/Template.php:166-173 | code without `{` comes out unchanged |
| Template.CompileEscapedEchos | src/Templates/Template.php:134-137 | code without `{` comes out unchanged |
| Template.CompileEchos | src/Templates/Template.php:122-125 | code without `{` comes out unchanged |
| Template.CompilePHP | src/Templates/Template.php:110-113 | code without `{` comes out unchanged |
| Template.CompileCode | src/Templates/Template.php:76-84 | the registry after compiling is the one the block pass leaves: the later passes do not touch it |
| TemplateFacts.ParentSplice | src/Templates/Template.php:150-154 | `@parent` in a body is replaced by the block's previous content, or by the empty text when the block was unset; a body without it replaces the block |
| TemplateFacts.PlainBody | src/Templates/Template.php:150-151 | a body without `@` is stored as it is |
| TagFacts.BlockOnce | src/Templates/Template.php:147 | the section pattern finds exactly the one section in a text with no other `{`, with its name and body as groups |
| TagFacts.BlockStep | src/Templates/Template.php:147 | a section after text without `{` is the first section found, and the rest are the sections of what follows |
| TemplateFacts.SectionsFound | src/Templates/Template.php:147 | in a template of any number of sections between texts without `{`, `compileBlock` finds every section, in order, with its name and body |
| TemplateFacts.BlockCompiles | src/Templates/Template.php:145-158 | compiling a block section removes it from the code and records its body under its name |
| TagFacts.YieldScanHit | src/Templates/Template.php:169 | the yield pattern for `n` matches `{% yield n %}` |
| TagFacts.YieldScanMiss | src/Templates/Template.php:169 | the yield pattern for another identifier matches nothing there |
| TagFacts.YieldStep | src/Templates/Template.php:169 | a yield of `n` after text without `{` becomes the given content, and the rest is replaced on its own |
| TagFacts.YieldOtherStep | src/Templates/Template.php:169 | a yield of another name after text without `{` is copied through, and the rest is replaced on its own |
| TagFacts.AnyYieldScan | src/Templates/Template.php:171 | the clean-up pattern matches any yield tag and captures its name |
| TagFacts.AnyYieldStep | src/Templates/Template.php:171 | the clean-up pattern deletes a yield tag after text without `{`, and the rest is cleaned on its own |
| TemplateFacts.SubstituteStep | src/Templates/Template.php:168-170 | the substitution loop turns a yield of `n` after text without `{` into the content of the first block named `n`, or keeps it when there is none; the rest goes on its own |
| TemplateFacts.CompileYieldStep | src/Templates/Template.php:166-173 | a yield of `n` after text without `{` becomes block `n`'s content, or nothing when it is unset; the rest is compiled on its own |
| TemplateFacts.YieldsCompile | src/Templates/Template.php:166-173 | in a template of any number of yields, each yield becomes its block's content or nothing, in order |
| TemplateFacts.YieldCompiles | src/Templates/Template.php:166-173 | a yield of a registered block becomes the block's content |
| TemplateFacts.YieldUnsetCompiles | src/Templates/Template.php:171 | a yield of an unregistered block is deleted |
| TemplateFacts.EnclosedOnce | src/Templates/Template.php:124 | an enclosed tag is matched from its open to the first close, with surrounding whitespace trimmed from the group |
| TemplateFacts.WrapStep | src/Templates/Template.php:112 | an enclosed tag after text without its first character becomes the trimmed expression between the replacement's two halves, and the rest is replaced on its own |
| TemplateFacts.WrapAll | src/Templates/Template.php:112 | in a template of any number of enclosed tags, every tag is wrapped, in order, and the text between them is kept |
| TemplateFacts.EchoStep | src/Templates/Template.php:122-125 | an echo tag after text without `{` becomes `<?php echo e ?>`, and the rest is compiled on its own |
| TemplateFacts.EscapedEchoStep | src/Templates/Template.php:134-137 | an escaped echo after text without `{` becomes the `htmlentities` echo, and the rest is compiled on its own |
| TemplateFacts.StatementStep | src/Templates/Template.php:110-113 | a statement tag after text without `{` becomes `<?php e ?>`, and the rest is compiled on its own |
| TemplateFacts.EchosCompile | src/Templates/Template.php:122-125 | any number of `{{ e }}` tags each become `<?php echo e ?>`, in order |
| TemplateFacts.EscapedEchosCompile | src/Templates/Template.php:134-137 | any number of `{{{ e }}}` tags each become the `htmlentities` echo, in order |
| TemplateFacts.StatementsCompile | src/Templates/Template.php:110-113 | any number of `{% e %}` tags each become `<?php e ?>`, in order |
| TemplateFacts.EchoCompiles | src/Templates/Template.php:122-125 | `{{ e }}` becomes `<?php echo e ?>`, and the text around it is unchanged |
| TemplateFacts.EscapedEchoCompiles | src/Templates/Template.php:134-137 | `{{{ e }}}` becomes the `htmlentities` echo, and the text around it is unchanged |
| TemplateFacts.StatementCompiles | src/Templates/Template.php:110-113 | `{% e %}` becomes `<?php e ?>`, and the text around it is unchanged |
| TemplateFacts.EscapedEchoPipeline | src/Templates/Template.php:76-84 | through all five passes, an escaped echo compiles to one `htmlentities` echo; the later echo pass does not wrap it again; the registry is untouched |
| TemplateFacts.LayoutCompiles | src/Templates/Template.php:76-84 | a layout's yield followed by the child's block compiles to the layout with the body in place of the yield, and the block is registered |
| TemplateFacts.TextOnlyCompiles | src/Templates/Template.php:76-84 | code without `{` passes through all five passes unchanged |
| Template.IncludeFiles | src/Templates/Template.php:92-102 | a missing template is an error, success means the template exists, and the only errors are a missing template and nesting deeper than the fuel |
| Template.InlineAll | src/Templates/Template.php:97-99 | without tags the code is kept; the loop's only errors are a missing template and nesting too deep |
| TemplateFacts.IncludeLeaf | src/Templates/Template.php:94-95 | a template without tags is returned escaped |
| TagFacts.IncludeScan | src/Templates/Template.php:96 | the include pattern finds the one `include` or `extends` tag, whose name holds no line feed, and captures the quoted name |
| TagFacts.IncludeStep | src/Templates/Template.php:96 | an include tag after text without `{` is the first include found, and the rest are the includes of what follows |
| TemplateFacts.IncludesFound | src/Templates/Template.php:96 | in a template of any number of include tags between texts without `{`, every tag is found, in order, with the name it quotes |
| TagFacts.IncludeAcrossLines | src/Templates/Template.php:96 | an include tag whose name holds a line feed is not a match |
| TagFacts.IncludeScanAcrossLines | src/Templates/Template.php:96-100 | a text whose one include tag has a line feed in its name has no match: the scan gives the whole text back |
| TemplateFacts.IncludeAcrossLinesKept | src/Templates/Template.php:92-102 | such a tag is neither inlined nor deleted: the escaped template comes back with the tag in it |
| TemplateFacts.InlineOne | src/Templates/Template.php:97-99 | an included file's text replaces every copy of its tag; its error stops the loop |
| TemplateFacts.IncludeOne | src/Templates/Template.php:92-102 | a template with one include tag becomes its escaped text around the included file's result |
| TemplateFacts.IncludeFails | src/Templates/Template.php:97-99 | an error while including a file is the error of the whole template |
| Template.CachePath | src/Templates/Template.php:49 | the cache path is the directory followed by a name with no `/` and four characters longer than the template name |
| TemplateFacts.CachePathIsMap | src/Templates/Template.php:49 | the name is the template name plus `.xml`, with every `/` turned into `_` |
| TemplateFacts.CachePathCollision | src/Templates/Template.php:49 | `a/b` and `a_b` share one cache file |
| Template.MustRecompile | src/Templates/Template.php:50 | a disabled cache or a missing cached file always recompiles; a missing source never does; otherwise recompiles exactly when the cached file is strictly older than the source |
| Template.Cache | src/Templates/Template.php:44-56 | the returned path is the cache path, and it is present in the cache afterwards |
| TemplateFacts.CacheHit | src/Templates/Template.php:50 | with caching on, a cached file no older than its source is reused and nothing changes |
| TemplateFacts.CacheMiss | src/Templates/Template.php:50-53 | with caching off, no cached file, or a newer source, the compiled code is written with the current time and other cached files are kept |
| TemplateFacts.CacheFails | src/Templates/Template.php:51 | an include error during recompilation is the error of `cache` |
| TemplateFacts.CacheSettles | src/Templates/Template.php:50-53 | once a file has been compiled, a second `cache` of an unchanged source is a hit that changes nothing |
| Template.ViewText | src/Templates/Template.php:29 | rendered output without a bar comes back unchanged from the restore |
| TemplateFacts.ViewShowsText | src/Templates/Template.php:20-29 | a template of plain text comes back from include, compile and restore exactly as written |
| IrNic.Construct | src/IrNic.php:118-130 | fails exactly when the reseller handle lacks `-irnic`; otherwise keeps token, password and reseller handle, and the NIC handle is shorter |
| IrNic.ConstructHandle | src/IrNic.php:120-129 | `h-irnic` is accepted and gives the NIC handle `h` |
| IrNic.ConstructAcceptsInfix | src/IrNic.php:120-122 | `x-irnicy`, with `y` non-empty, does not end with `-irnic` and is still accepted, with NIC handle `xy` |
| IrNic.ConstructSuffix | src/IrNic.php:115-129 | with the documented test, fails exactly when the handle does not end with `-irnic`; on success the NIC handle followed by `-irnic` is the reseller handle |
| IrNic.ConstructSuffixAgrees | src/IrNic.php:120-129 | both tests agree on `h-irnic`; on an infix `-irnic` only the substring test accepts |
| IrNic.CheckPeriod | src/IrNic.php:509-511 | only 12 and 60 pass; anything else gives the period message |
| IrNic.CheckNsCount | src/IrNic.php:527-530 | only 2 to 4 nameservers pass |
| IrNic.RoleCheck | src/IrNic.php:513-520 | a role passes exactly when present and not empty; absence gives the "is not set" message and emptiness the "is empty" one |
| IrNic.CheckRoles | src/IrNic.php:513-520 | passes exactly when every role passes; otherwise gives the error of the first role that fails |
| IrNic.DomainCreate | src/IrNic.php:503-548 | the request is built exactly when period, all four roles, permissibility and nameserver count pass; the checks apply in that order |
| IrNic.CreateNeedsHolder | src/IrNic.php:513-517 | with a valid period, a missing holder is reported whatever else is wrong |
| IrNic.CreateKeepsNameServers | src/IrNic.php:538-548 | the request lists each nameserver entry reshaped, in the given order |
| IrNic.NormalizeNameServers | src/IrNic.php:538-548 | same length and order; a numeric key makes the value the host name with no address; a string key is the host name and the value its address |
| IrNic.NormalizeList | src/IrNic.php:538-542 | a plain list of names gives host names without addresses |
| IrNic.NormalizeNamed | src/IrNic.php:543-547 | a map from non-numeric names to addresses keeps both |
| IrNic.NormalizeConcat | src/IrNic.php:656-666 | entries are reshaped independently, so the result of a concatenation is the concatenation of the results |
| IrNic.SameNameServers | src/IrNic.php:656-666 | `domainUpdateNS` sends the same nameserver list that `domainCreate` would |
| IrNic.DomainUpdateNS | src/IrNic.php:650-672 | the count is checked before the domain lookup; an unknown domain is "Domain not found"; success carries the old list and the reshaped new list |
| IrNic.ArraySearch | src/IrNic.php:622 | returns the first index of a role equal to the key, or nothing |
| IrNic.SupportedAsWritten | src/IrNic.php:620-624 | as written, the accepted keys are exactly admin, tech, bill and reseller |
| IrNic.HolderRejected | src/IrNic.php:620-624 | as written, a contact update that starts with the holder is refused with the message listing holder as supported |
| IrNic.SupportedInArray | src/IrNic.php:620-624 | with a membership test, exactly the five listed roles are accepted |
| IrNic.HolderAccepted | src/IrNic.php:620-628 | with the membership test, a non-empty holder handle passes |
| IrNic.ContactCheck | src/IrNic.php:620-628 | an entry passes exactly when its key is supported and its value is not empty |
| IrNic.CheckContacts | src/IrNic.php:620-628 | passes exactly when every entry passes; otherwise gives the error of the first entry that fails |
| IrNic.DomainUpdateContact | src/IrNic.php:618-633 | the request is built exactly when every key is one of the five roles and every value is non-empty |
| IrNic.ExpiryDay | src/IrNic.php:589-590 | a prefix of the timestamp without `T`, ending at the first `T` or at the end |
| IrNic.ExpiryDayOf | src/IrNic.php:589-590 | `dateTtime` gives `date` |
| IrNic.DomainRenew | src/IrNic.php:577-591 | fails exactly on a bad period; a given date is used as is; without one, a failed lookup returns the info response, and otherwise the date part of the expiry is used |
| IrNic.RenewUsesExpiryDay | src/IrNic.php:584-591 | without a given date, a renewal uses the day of the registry's expiry timestamp |
| IrNic.ResponseMeta | src/IrNic.php:293-306 | code and transaction ids are the direct lookups of their keys |
| IrNic.MetaKeepsValue | src/IrNic.php:298 | a non-null `result.value` is the error field |
| IrNic.MetaFallsBack | src/IrNic.php:299-301 | when `result.value` is missing or null, the errors are null when no key has the `result.extValue.` prefix, and otherwise those entries with the prefix removed, assigned in order so that a later entry overwrites an earlier one with the same stripped key; without such collisions, exactly the stripped entries |
| IrNic.MetaFailure | src/IrNic.php:298-301 | the only failure is the fallback meeting an integer key |

## Findings

| source | as written | input that shows it | evidently intended | confidence | as-written member | corrected member |
|---|---|---|---|---|---|---|
| src/IrNic.php:120-122 | `strpos` accepts a reseller handle containing `-irnic` anywhere | `ab-irnicx` is accepted, with NIC handle `abx` | the handle must end with `-irnic`, as the message and the doc comment at line 115 say | high; not executed | IrNic.ConstructAcceptsInfix | IrNic.ConstructSuffix |
| src/IrNic.php:622-624 | `!array_search($key, $_contacts)` also treats index 0 as not found, so `holder` is refused | `['holder' => 'ab12-irnic']` throws "this handler only supports holder, admin, tech, bill, reseller" | every listed role is accepted (`in_array`) | high; not executed | IrNic.HolderRejected | IrNic.SupportedInArray |

`IrNic.DomainUpdateContact` uses the corrected membership test. The
corrected constructor strips only the final `-irnic`. The code as written
deletes every `-irnic`. Both give the same NIC handle for a handle of the
documented shape (`IrNic.ConstructSuffixAgrees`).

## Left out

- Network and parsing:
  - Guzzle calls, `Xml2Array` parsing and debug logging in `callApi`. These
    are network and foreign-library code.
  - Everything after a request is sent, including the result-code tests on
    the registry's answer.
  - `contentInfo`, `contentCheck`, `domainInfo` and the other
    response-mapping bodies, `ERROR_CODES`, `generateUniqueId` and
    `Reseller.php`. They depend on live responses.
- IrNic.DomainCreate: `_checkPermissibleContacts` is a parameter. So is the
  `var_export` text of its result, which is the error message.
- IrNic.NormalizeNameServers: the `type` field from `getTypeIP`. It relies
  on PHP's `filter_var`.
- IrNic.DomainUpdateNS: the `domainInfo` result code is taken as an
  integer. The PHP code compares the parsed string loosely with 1000.
- IrNic.DomainRenew: the `(int)` cast of the result code is taken as
  already done.
- IrNic.ArraySearch: no numeric comparison is modelled. No role name is a
  numeric string, so PHP 8's loose comparison comes down to equal text.
- Template rendering:
  - Running the compiled PHP (`ob_start`, `extract`, `include`).
  - The `DOMDocument` re-formatting in `view`.
  - What `htmlentities` computes.
  - `pathFixer`, `mkdir`, `file_put_contents` failures and `clearCache`.
  These are I/O or foreign code. `view` is modelled from the rendered
  output to the restore.
- Template.IncludeFiles: cyclic includes never end in PHP, so the model
  gives an error once a fuel bound runs out. Nesting deeper than the fuel
  is not modelled.
- Template.IncludeFiles: the contract does not state that no include tag
  survives. The clean-up `preg_replace` can itself splice a tag together.
  Take `{% inc{% incl{% include 'a' %}ude 'q' %}lude 'b' %}` with an empty
  template `a`. Inlining gives `{% inc{% include 'q' %}lude 'b' %}`, and
  deleting `{% include 'q' %}` leaves `{% include 'b' %}`.
- TagFacts.YieldScanHit: yield names are taken as literal text. PHP
  interpolates the block name into the regular expression, so
  metacharacters in a name are not modelled.
- TemplateFacts.YieldCompiles: the block content is inserted literally.
  `$1` or `\1` references in a content are not expanded as `preg_replace`
  would.
- The whole-template lemmas cover only the usual spellings: `{% block n %}`,
  `{% yield n %}`, `{% include 'x' %}`, and texts whose only `{` are those
  tags. The matchers themselves follow the patterns exactly. That includes
  `.` not matching a line feed where the pattern lacks the `s` flag: a
  yield or include tag whose name runs over a line break is not a match
  (`TagFacts.IncludeScanAcrossLines`), and `includeFiles` leaves it in the
  text (`TemplateFacts.IncludeAcrossLinesKept`).
- TemplateFacts.SectionsFound: for a template with several sections, only
  the sections found are stated. The deletion of each section and the
  registry after all of them are stated for one section
  (`TemplateFacts.BlockCompiles`).
- TemplateFacts.IncludesFound: for a template with several include tags,
  only the tags found are stated. The inlining is stated for one tag
  (`TemplateFacts.IncludeOne`).
- Template.CompileCode: the five passes are composed for a single tag
  (`TemplateFacts.EscapedEchoPipeline`, `TemplateFacts.LayoutCompiles`) and
  for text without tags. Templates mixing several kinds of tag are stated
  pass by pass, not through all five passes.
- Template.Put: the registry keys stay strings. PHP turns a numeric block
  name into an integer key, which changes neither lookup nor order here.
- PhpArrays.NextIndex: there is no 64-bit overflow when pushing past
  `PHP_INT_MAX`.
