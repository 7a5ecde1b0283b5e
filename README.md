# fizzy core: the ordered-rule lexer and the variable engine

This project models two Ruby components of fizzy, a dotfile manager: `Fizzy::BaseLexer` and `Fizzy::Vars`. It also proves properties of the model.

- **`Fizzy::BaseLexer`** is a tokenizer.
  - Rules are registered in order with `ignore`, `tokens`, `token` and `keyword`.
  - A `StringScanner` cursor walks the input.
  - At each position the first rule whose pattern matches wins, even when a later rule's match would be longer.
  - `next_token` hands out one token at a time from a buffer and drops the tokens named `:SKIP`.
  - When the buffer is empty, `build_tokens` refills it by scanning the rest of the input, then appends the end-of-stream token `[false, false]`.
- **`Fizzy::Vars`** loads named variable sets from YAML files or JSON environment variables.
  - A set can name parent sets in a comment directive, `# => inherits: a, b <= #` in YAML or `/* => inherits: a, b <= */` in JSON.
  - Parents are resolved recursively. Sibling parents must agree on every dotted key they share.
  - The parents are deep-merged from the left, and the set's own values are merged over them.
  - The resolved structure is read with dotted, optionally typed lookups (`get_var`, `get_var!`) and with feature gates (`has_feature?`, `data_for_features`).

Modules, one per file:

- `Wrappers` (wrappers.dfy): `Option` and `Result`.
- `Lexer` (lexer.dfy): the class `BaseLexer`, with a `seq` of rules, a cursor and a token buffer. Its methods are proved against the specification functions `StepAt` (one `find_tokens`), `Scan` (the `build_tokens` loop) and `FirstVisible` (the token `next_token` hands out).
- `Values` (values.dfy): the value structure YAML and JSON produce.
  - `deep_merge` and `fqkeys`, two library extensions the source calls but does not define. `deep_merge` merges two maps key by key, and a non-map on the right replaces the left side. `fqkeys` is the set of dotted paths to the leaves.
  - The dotted walk of `_get_var`.
  - Ruby's `to_s`.
- `Access` (access.dfy): `_typize_var`, `_ensure_type!`, `get_var`, `get_var!`, `has_feature?`, `data_for_features` and Ruby's `Integer()`.
- `Directive` (directive.dfy): `_parse_parents_vars`. Its regular expression is modelled the way Ruby's backtracking matcher runs it: leftmost line start, greedy `\s*`, optional `(:\s+)`, greedy `.+`. This is followed by `split(",")`, `strip` and the `/none|nothing/i` filter.
- `Resolve` (resolve.dfy): `_read_vars`, `_parse_vars`, `_get_vars_collisions`, `_merge_parents_vars`, `_merge_with_parents_vars` and `_setup_vars`.
  - The loops are methods proved equal to specification functions.
  - The functions are then characterised by lemmas.

Where the code and its comments disagree, the model follows the code: tokens are built as `[name, value]` (src/grammars/base_lexer.rb:50, :56), not `[value, token_name]` as the comment at :36 says.

Two facts about the code that shape the model:

- `deep_merge` is not associative when a non-map value sits between two maps (`Values.DeepMergeNotAssociative`), so the left-to-right order of the fold over the parents matters.
- The collision check compares the parents' own resolved values before the child's values are merged (src/utils/vars.rb:220-230). A child that overrides a key therefore does not rescue it from a collision between its parents.

Resolution recurses through parents with no cycle guard. The model asks only that no cycle be reachable from the set being resolved; inputs where the source would stop with an error before reaching such a cycle are excluded as well (see "## Left out"). A ghost `rank` map gives a depth to that set and to every stored set it inherits from, directly or not. Every parent that is stored has a smaller depth than its child (`Resolve.Ranked`, `Resolve.Covered`). Sets that the resolved one never reaches are unconstrained, even when they form cycles among themselves. A set whose parents are all unstored always has such a map (`Resolve.RankedAlone`).

## Model

| member | source | states |
|---|---|---|
| Lexer.BaseLexer.constructor | src/grammars/base_lexer.rb:5-9 | a new lexer is over the given input, with the cursor at the start, no rules and an empty buffer |
| Lexer.BaseLexer.Ignore | src/grammars/base_lexer.rb:11-13 | appends exactly one rule at the end, all of whose tokens are named `:SKIP`, and leaves earlier rules untouched (corrected form, see Findings) |
| Lexer.BaseLexer.Tokens | src/grammars/base_lexer.rb:15-17 | appends exactly one rule with the declared list of names, after all earlier rules |
| Lexer.BaseLexer.Token | src/grammars/base_lexer.rb:19-21 | appends exactly one rule with the single declared name |
| Lexer.BaseLexer.Keyword | src/grammars/base_lexer.rb:23-25 | appends exactly one rule that matches the name's own text and names its token after it |
| Lexer.Literal | src/grammars/base_lexer.rb:24 | the keyword pattern matches at a position exactly when the input there spells the word; it consumes the word's length and has no groups |
| Lexer.Captures | src/grammars/base_lexer.rb:52-53 | the captures are groups 1, 2, … in order, all present, stopping just before the first absent group |
| Lexer.Emit | src/grammars/base_lexer.rb:47-56 | with no group 1: one token `[name, matched text]` when exactly one name is declared, else the one-name error; with captures: the names zipped with the captures in order when the counts agree, else the count error |
| Lexer.EmitForBareSymbol | src/grammars/base_lexer.rb:47-56 | as written, a rule registered by `ignore` fails on every match, whatever the pattern captures |
| Lexer.FirstMatch | src/grammars/base_lexer.rb:44-46 | the rule chosen matches at the cursor and no earlier rule does; none is chosen exactly when no rule matches |
| Lexer.StepAt | src/grammars/base_lexer.rb:43-61 | a successful step advances the cursor and yields only real tokens; "Unexpected characters" comes exactly when no rule matches, with the cursor left in place |
| Lexer.BaseLexer.FindTokens | src/grammars/base_lexer.rb:43-61 | returns the tokens or the error of one step and moves the cursor to where that step leaves it |
| Lexer.Scan | src/grammars/base_lexer.rb:39 | the scan stops within the input, and reaches its end when no error occurred; it yields only real tokens |
| Lexer.ScanStep | src/grammars/base_lexer.rb:39 | scanning from a position is one step followed by scanning from where it ends, or stops at a failing step |
| Lexer.BaseLexer.BuildTokens | src/grammars/base_lexer.rb:37-41 | the buffer becomes every token of the rest of the input followed by one end-of-stream token, or the tokens found before an error; the cursor stops where the scan stopped |
| Lexer.FirstVisible | src/grammars/base_lexer.rb:29-30 | the position of the first token not named `:SKIP`, every token before it being named `:SKIP` |
| Lexer.BufferedAfterScan | src/grammars/base_lexer.rb:40 | a rebuilt buffer always holds a token `next_token` can return: the end-of-stream token |
| Lexer.AllSkippedThenEos | src/grammars/base_lexer.rb:29-30 | when every scanned token is named `:SKIP`, the token handed out is end-of-stream |
| Lexer.BaseLexer.NextToken | src/grammars/base_lexer.rb:27-31 | rebuilds the buffer only when it is empty, drops the `:SKIP` tokens before the first visible one and returns that one; never returns a `:SKIP` token, and after end-of-stream the buffer is empty at the end of the input |
| Lexer.SkipRulesYieldOnlyEos | src/grammars/base_lexer.rb:27-41 | with only `ignore` rules, no scanned token is visible, so a successful scan hands out end-of-stream first |
| Lexer.EmptyInputFirstToken | src/grammars/base_lexer.rb:37-41 | on empty input the first `next_token` returns end-of-stream, whatever the pattern of the registered rule |
| Lexer.EosRepeats | src/grammars/base_lexer.rb:27-41 | once end-of-stream has been handed out, the next call hands it out again |
| Lexer.SkipOnlyFirstToken | src/grammars/base_lexer.rb:11-13 | a lexer whose only rule is an `ignore` rule hands out end-of-stream first, or an error, never another token |
| Values.DeepMerge | src/utils/vars.rb:194-196 | two maps merge into a map with the union of their keys; any other overriding value replaces the base |
| Values.DeepMergeOverWins | src/utils/vars.rb:194-196 | every non-map leaf the overriding side defines is what the merge holds at that path |
| Values.DeepMergeKeepsBase | src/utils/vars.rb:194-196 | at a path the overriding side does not mention at any level, the merge holds what the base holds |
| Values.DeepMergeIdempotent | src/utils/vars.rb:232-234 | merging a structure over itself gives it back |
| Values.DeepMergeIntoEmpty | src/utils/vars.rb:232-234 | the empty map the fold starts from is neutral: merging any value over it gives that value |
| Values.DeepMergeExample | src/utils/vars.rb:194-196 | `{a:1,b:{x:1}}` over `{b:{x:2,y:3},c:4}` gives `{a:1,b:{x:1,y:3},c:4}` |
| Values.DeepMergeNotAssociative | src/utils/vars.rb:232-234 | the order of the fold matters: with a scalar between two maps, merging left-first and right-first differ |
| Values.Components | src/utils/vars.rb:140-142 | the components of a dotted name are non-empty and contain no dot |
| Values.ComponentsOfJoin | src/utils/vars.rb:140-142 | a dot only separates: the components of `a.b` are those of `a` followed by those of `b`, so empty components vanish and order is kept |
| Values.ComponentsOfPlain | src/utils/vars.rb:140-142 | a non-empty name without a dot is its own single component |
| Values.ComponentsOfDotted | src/utils/vars.rb:140-142 | splitting the dotted join of plain keys gives the keys back |
| Values.FqKeyIsLeaf | src/utils/vars.rb:201-205 | every dotted key of a structure leads, component by component, to a non-map leaf |
| Values.LeafIsFqKey | src/utils/vars.rb:201-205 | every path to a non-map leaf, dotted, is a key of the structure |
| Values.WalkFailsOnNonMap | src/utils/vars.rb:144 | the only way a lookup fails is `has_key?` sent to a value that is not a map |
| Values.WalkSound | src/utils/vars.rb:139-151 | a lookup that returns a non-`nil` value returns what is stored at the path |
| Values.WalkFindsTruthy | src/utils/vars.rb:139-151 | a value other than `nil` and `false` stored at the path is what the lookup returns |
| Values.WalkFalsyIsNull | src/utils/vars.rb:149 | a `nil` or `false` met on the path makes the lookup return `nil` |
| Values.WalkMissingIsNull | src/utils/vars.rb:144-149 | an absent key on the path makes the lookup return `nil`, not an error |
| Values.WalkThroughLeafFails | src/utils/vars.rb:144 | descending past a truthy value that is not a map is the `has_key?` error |
| Access.IntegerRoundTrip | src/utils/vars.rb:89-90 | `Integer()` of an integer's decimal `to_s` gives the integer back, negative ones included |
| Access.EnsureType | src/utils/vars.rb:130-137 | the value is returned unchanged exactly when it has an accepted class; otherwise it is an error |
| Access.TypizeUntouched | src/utils/vars.rb:83 | with no type, or a type ending in `?` and a `nil` value, the value comes back unchanged |
| Access.TypizeBoolean | src/utils/vars.rb:94-105 | non-strict boolean: `true`/`"true"` give true, `false`/`"false"` give false, `nil` gives `nil`, and every other value is an error, each in both directions |
| Access.TypizeStrictBoolean | src/utils/vars.rb:92-93 | strict boolean succeeds exactly on an actual boolean and returns it unchanged |
| Access.TypizeString | src/utils/vars.rb:85-86 | non-strict string coercion always succeeds, with the value's `to_s` |
| Access.TypizeUnknown | src/utils/vars.rb:124-127 | an unknown type tag is always the unhandled-type error, strict or not, unless `?`-suffixed with a `nil` value |
| Access.TypizeInteger | src/utils/vars.rb:89-90 | non-strict integer coercion of an integer written as a string gives that integer |
| Access.TypizeIntegerRejects | src/utils/vars.rb:89-90 | non-strict integer coercion of a string without a decimal digit is the conversion error |
| Access.TypizeIntegerOther | src/utils/vars.rb:89-90 | non-strict integer coercion of a value that is neither an integer nor a string is the conversion error |
| Access.GetVarRequired | src/utils/vars.rb:67-71 | `get_var!` returns what `get_var` returns when that is not `nil`, fails with the undefined-variable error exactly when it is `nil`, and passes other errors on |
| Access.GetVarUntyped | src/utils/vars.rb:78-80 | an untyped `get_var` of a dotted path of plain keys returns the stored value, or `nil` when the stored value is `false` or `nil` |
| Access.FeaturesVariable | src/utils/vars.rb:32 | the features list is read with `get_var!("features")`: the raw lookup, with `nil` an undefined-variable error |
| Access.HasFeatureFails | src/utils/vars.rb:31-33 | `has_feature?` answers exactly when the `features` variable is defined and supports `include?` |
| Access.HasFeatureInList | src/utils/vars.rb:31-33 | with a list of features, a feature is enabled exactly when its name, as a string, is in the list |
| Access.FeatureDataFails | src/utils/vars.rb:38-49 | the data is available exactly when no feature has to be asked about or `has_feature?` can answer |
| Access.FeatureDataSplit | src/utils/vars.rb:41-49 | the data of a concatenation is the concatenation of the data, in order, and it fails when a part fails |
| Access.FeatureDataEntry | src/utils/vars.rb:42-47 | one entry contributes its evaluated value exactly when its feature is enabled, and nothing otherwise |
| Access.FeatureDataStep | src/utils/vars.rb:41-49 | each entry is asked about in order: its contribution, then the rest |
| Access.DataForFeatures | src/utils/vars.rb:38-49 | the loop returns the specified data: the values of the enabled features, in the order given |
| Directive.SkipSpace | src/utils/vars.rb:170-171 | `\s*` is greedy: every character it passes is a space and the next one is not |
| Directive.LineEnd | src/utils/vars.rb:170-171 | `.` reaches up to, not across, the next newline |
| Directive.LongestCapture | src/utils/vars.rb:170-171 | greedy `.+`: the longest capture end that the closing part can follow, no longer one working |
| Directive.FirstSome | src/utils/vars.rb:170-171 | the first attempt, in order, that succeeds, every earlier one failing, and none when all fail |
| Directive.FirstCapture | src/utils/vars.rb:170-171 | the first start, in backtracking order, whose greedy capture succeeds, with the end `LongestCapture` gives there; every earlier start fails, and none is found exactly when every start fails |
| Directive.InheritsEnd | src/utils/vars.rb:170-171 | the fixed part `#\s*=>\s*inherits` (or its JSON form) matched at a position: it opens with the format's marker and ends just after the word `inherits` |
| Directive.CaptureOnOneLine | src/utils/vars.rb:170-171 | a successful capture is non-empty and holds no newline |
| Directive.MatchAt | src/utils/vars.rb:170-171 | a directive matched at a position opens with the format's marker and captures non-empty text within one line |
| Directive.DirectiveMatch | src/utils/vars.rb:170-171 | on the line `# => inherits: T <= #` (or its JSON form), with `T` one line not starting with a blank, the regex captures `T` followed by the space before `<=`; greedy `.+` gives back only that space |
| Directive.Attempts | src/utils/vars.rb:174 | `^` allows a match only at the start of the content or of a line |
| Directive.Leftmost | src/utils/vars.rb:174 | the first position that matches, none before it |
| Directive.Search | src/utils/vars.rb:174 | `content.match` finds the leftmost line start where the directive matches, and none before it does |
| Directive.Pieces | src/utils/vars.rb:175 | splitting on `,` yields at least one piece and no piece holds a comma |
| Directive.DropTrailingEmpty | src/utils/vars.rb:175 | Ruby's `split` drops the trailing empty pieces and only those |
| Directive.Strip | src/utils/vars.rb:175 | a stripped name neither starts nor ends with a blank and holds only characters of the original |
| Directive.StripTrims | src/utils/vars.rb:175 | `strip` returns a contiguous slice of the name, and everything cut from either end is blank |
| Directive.StripBlankEnd | src/utils/vars.rb:175 | a trailing space, such as the one the regex leaves on the last name, disappears under `strip` |
| Directive.RejectDummies | src/utils/vars.rb:168-175 | keeps exactly the names that do not match `/none|nothing/i`, in their order |
| Directive.RejectDummiesConcat | src/utils/vars.rb:175 | `reject` works element by element: filtering a concatenation concatenates the filtered parts |
| Directive.RejectDummiesOne | src/utils/vars.rb:168-175 | a single name is dropped exactly when it matches `/none|nothing/i` |
| Directive.StripAll | src/utils/vars.rb:175 | `map(&:strip)` strips each name in place |
| Directive.ParseParents | src/utils/vars.rb:167-179 | fails exactly on an unrecognised format; otherwise every parent name is stripped, comma-free and not a placeholder |
| Directive.PiecesOfSplit | src/utils/vars.rb:175 | every name that survives splitting, stripping and filtering is clean |
| Directive.NoDirectiveNoParents | src/utils/vars.rb:174-178 | without a line that opens with the directive marker there are no parents |
| Directive.FirstDirectiveWins | src/utils/vars.rb:174-175 | the parents are those of the first line whose directive matches |
| Directive.PiecesOfJoin | src/utils/vars.rb:175 | splitting the comma-join of comma-free names gives the names back |
| Directive.ParentNamesOfJoin | src/utils/vars.rb:175 | a comma-joined list of clean names parses back to the same list |
| Directive.ParentNamesOfJoinSpaced | src/utils/vars.rb:175 | the captured text of comma-free, non-placeholder pieces, with the regex's trailing space, splits and strips to the stripped pieces |
| Directive.DirectiveOfPieces | src/utils/vars.rb:167-179 | end to end: `_parse_parents_vars` of a directive line listing comma-free, non-placeholder pieces on one line returns exactly those pieces, stripped, in order |
| Directive.DirectiveOfJoin | src/utils/vars.rb:167-179 | end to end: a directive line listing clean names, separated by commas, parses to exactly those names |
| Directive.StripClean | src/utils/vars.rb:175 | stripping names that are already clean changes nothing |
| Directive.RejectNoDummies | src/utils/vars.rb:175 | filtering a list with no placeholder changes nothing |
| Resolve.Read | src/utils/vars.rb:153-165 | a set is found exactly when a YAML file or an environment variable holds it, and the YAML file comes first |
| Resolve.ParseVars | src/utils/vars.rb:181-192 | parsing fails exactly on unparsable content or an unknown format; a YAML result is always truthy (`|| {}`): the parsed structure when that is truthy, `{}` when it is `nil` or `false`; JSON is taken as parsed |
| Resolve.KeyClashFailure | src/utils/vars.rb:207-208 | reading a common key fails only with the `has_key?` error |
| Resolve.KeyClashSymmetric | src/utils/vars.rb:207-211 | a key clashes between `a` and `b` exactly as between `b` and `a`, with the same pair of values |
| Resolve.PairClashesSymmetric | src/utils/vars.rb:205-211 | two sets report the same clashes, and fail alike, in either order |
| Resolve.RowMeaning | src/utils/vars.rb:202-213 | one parent's row fails exactly when some pair with a different parent fails, and holds exactly the clashes of those pairs |
| Resolve.RowsMeaning | src/utils/vars.rb:200-214 | the nested loops fail exactly when some ordered pair of different parents fails, and otherwise report exactly the clashes of all such pairs |
| Resolve.CollisionsMeaning | src/utils/vars.rb:198-218 | `_get_vars_collisions` fails exactly when reading a shared key fails, with the `has_key?` error, and otherwise reports exactly the clashes of some pair of different parents |
| Resolve.CollisionsGrow | src/utils/vars.rb:221-230 | collisions only accumulate as parents are added: a prefix of a clean list is clean, and its collisions stay reported |
| Resolve.AgreeingParentsNoCollision | src/utils/vars.rb:198-218 | when every two different parents read the same value on every dotted key they share, there is no collision |
| Resolve.NoCommonKeyNoCollision | src/utils/vars.rb:205-206 | parents with pairwise disjoint dotted keys never collide |
| Resolve.OrderMattersWithoutCollision | src/utils/vars.rb:220-235 | `{a: 1}` and `{a: {b: 2}}` do not collide, yet merging them in the two orders gives different results |
| Resolve.PairCollisions | src/utils/vars.rb:201-212 | one pair's collisions: fails exactly when a shared key's lookup fails, otherwise exactly the clashes of the shared keys |
| Resolve.ScanKeys | src/utils/vars.rb:206-212 | the loop over the keys fails exactly when some key's lookups fail, with that key's error, and otherwise collects exactly the keys' clashes |
| Resolve.RowCollisions | src/utils/vars.rb:203-213 | the inner loop returns the specified row of one parent |
| Resolve.GetVarsCollisions | src/utils/vars.rb:198-218 | the nested loops return the specified collisions |
| Resolve.Merged | src/utils/vars.rb:232-234 | the fold of parents is a map unless the last parent itself replaces it |
| Resolve.LastParentWins | src/utils/vars.rb:232-234 | a leaf the last parent defines is what the fold holds there |
| Resolve.MergeCheckedMeaning | src/utils/vars.rb:221-234 | with a check that only accumulates, the merge succeeds exactly when every resolution succeeds and the whole list is clean, and then gives the left fold |
| Resolve.ParentsMerged | src/utils/vars.rb:220-235 | `_merge_parents_vars` succeeds exactly when every parent resolves and no two of them collide, and then returns their merge from the left |
| Resolve.OneParent | src/utils/vars.rb:220-235 | a single parent is taken exactly as it resolves, error included |
| Resolve.MergeParentsVars | src/utils/vars.rb:220-235 | resolving each parent only after the earlier ones were collected without collision, the inject loops return the specified merge, failing at the first resolution error or collision |
| Resolve.RankedAlone | src/utils/vars.rb:237-244 | the depth requirement is met by a set whose parents are all unstored, with a map ranking that set alone |
| Resolve.SetupVars | src/utils/vars.rb:237-244 | the recursive method returns the specified resolution of the named set |
| Resolve.SetupUnknown | src/utils/vars.rb:238-239 | a name that no file or environment variable holds is the invalid-vars error |
| Resolve.SetupOwnWins | src/utils/vars.rb:194-196 | the set's own leaves override whatever its parents define, and a path it does not mention reads as in the merged parents |
| Resolve.SetupWithoutParents | src/utils/vars.rb:240-243 | a set that names no parents resolves to its own parsed values |

## Left out

- Output and termination: `info` logging is not modelled. `error` becomes an `Err` value; it does not print and exit.
- `setup_vars` stores the result in `@vars`, and `get_var` reads it from there (src/utils/vars.rb:21-24, :78-80). In the model the resolved structure is returned by `Resolve.SetupVars` and passed explicitly to every accessor.
- `avail_vars` (src/utils/vars.rb:10-12) is a directory glob. File-system listing is not modelled.
- `_read_vars`: `find_yaml_path`, `File.read` and `ENV` become the maps of `Resolve.Source`, and the case of a `nil` directory or name is folded into a name being absent from both.
- `YAML.load` and `JSON.parse` are foreign parsers. A stored document carries the structure its parser yields, or `None` when the parser rejects it.
- `_typize_var` path types: `File.exist?`, `file?` and `directory?` consult a `FileSystem` map, and `Pathname` is a tagged string.
- Regexp patterns of the lexer are abstract `Matcher` functions. Each consumes at least one character, because an empty match would make `build_tokens` loop forever.
- `keyword` builds `Regexp.new(name)`; the model matches the name literally, so regular-expression metacharacters in a keyword are not interpreted. `Lexer.Literal` of the empty name never matches, whereas `Regexp.new("")` matches the empty string everywhere and `build_tokens` then loops without end (src/grammars/base_lexer.rb:24, :39); the model does not capture that non-termination.
- Only the inheritance regex of `_parse_parents_vars` is modelled, not a general engine.
- Case folding of `/none|nothing/i` covers ASCII letters only.
- `Integer()`: the model parses a sign, a radix prefix and digits. Underscores, surrounding whitespace and non-string, non-integer arguments are left out; the last are treated as a conversion failure.
- `to_s` of a hash needs Ruby's insertion order, which a map value does not keep, so the model gives it a placeholder text. Error message texts are not modelled either; each error is a constructor with its data.
- `data_for_features` redefines `inspect` on its result, using `first` for one element and `join(sep)` with a separator (src/utils/vars.rb:51-59). This is display-only and is not modelled, and the `sep:` argument is ignored.
- `_ensure_type!` refers to an undefined `type` in its message (src/utils/vars.rb:135), so a strict type mismatch raises a NameError instead. The model reports the intended invalid-value error; both stop the program.
- `_get_vars_collisions`: the result is a set of `Clash` values, each with a key and the unordered pair of values, which is the identity `uniq` uses (src/utils/vars.rb:215-217). The order of the collision list is not modelled, nor is the `ArgumentError` that `sort` raises on values `<=>` cannot compare (values of different classes, or lists such as `[1]` and `["a"]`).
- `deep_merge` and `fqkeys` are library extensions the source calls but does not define. The model defines them as described above. A value that is not a hash has no `fqkeys`.
- Setup, SetupVars, MergeParentsVars: a cycle reachable from the set makes the source recurse without end, unless an earlier step fails first. Such a step is an unstored or unparsable parent, a collision between earlier parents, or the set's own parse error, and the source then stops with that error (src/utils/vars.rb:221-226, :238-242). The model requires that no cycle be reachable from the set (`Resolve.Ranked` with `Resolve.Covered` of that set). It excludes both kinds of input, so it neither models the endless recursion nor promises the error that would stop a cyclic chain before it recurses.
- Inspect: strings are rendered without Ruby's escaping, so a quote, a backslash or a control character inside a string appears as is. This affects only the `to_s` of a list that holds such a string, as used by the non-strict string, symbol and boolean coercions.
- Resolving twice gives equal results because the model is a function of the stored sources; a change to the files between calls is not modelled.
- `Directive.ParseParents` is total on the two formats the reader produces; the unrecognised-format branch is kept, although `_read_vars` never yields such a format.

## Findings

| source | as written | input that shows it | evidently intended | confidence | as-written member | corrected member |
|---|---|---|---|---|---|---|
| src/grammars/base_lexer.rb:12 | `ignore` stores the bare symbol `:SKIP` as the rule's names. `find_tokens` then takes its `length` (4 for `:SKIP`) and calls `first` or `zip` on it, so every match of an ignore rule raises the one-name error, a count error or a NoMethodError | any input at which an `ignore` rule's pattern matches, e.g. `ignore(/\s+/)` on `" "` | the rule's names are the one-element list `[:SKIP]`, so skipped text yields `:SKIP` tokens that `next_token` drops | not executed | Lexer.EmitForBareSymbol | Lexer.BaseLexer.Ignore, Lexer.SkipRulesYieldOnlyEos |
