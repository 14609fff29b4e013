# CSS custom-property usage analysis, in Dafny

This project models the core of a small build-time toolkit. The toolkit finds where CSS custom properties (`--name`) are used. Its parts:

- `balancedVar` finds the first balanced `var( … )` call in a declaration value. It splits the value into the text before the call, the call's body and the text after it.
- `resolveValue` resolves every `var()` call of a declaration against a map from variable names to their declarations. It picks the declaration that wins the cascade, taking scope, source order and `!important` into account. Otherwise it uses a cached value or the fallback, and it warns about undefined variables. It also reports the names used and hands every call to an optional `collectVar` callback.
- `scssVarUsages` scans SCSS sources line by line. For each `property: value` line it records every `var()` used in the value, with its file, line number, property and default value. Usages that are already listed are skipped.
- The webpack plugin combines the per-file maps of CSS variable usages into one map, keyed by variable name.
- `mergeVarUsages` joins the combined CSS map with the SCSS map. It produces one record per CSS variable, carrying the SCSS usages as `sourceUsages`, or `null` when there are none.

The model is organised as follows:

- Pure code is written as functions: `balancedVar` and `mergeVarUsages`.
- The loops of `resolveValue`, `grabVars`, `scssVarUsages` and the plugin's reduce are methods with loop invariants. Each is proved equal to a specification function.
- The properties the code promises are proved as lemmas about those functions.
- JavaScript objects used as dictionaries are `JsObjects.Dict`: a key order plus a map, as `Object.keys` reports them.
- Strings are `seq<char>`. The string built-ins the code uses are small functions in `JsStrings`, each with its own contract: `split`, `join`, `trim`, `indexOf`/`replace` of the first occurrence.

## Model

| member | source | states |
|---|---|---|
| BalancedMatch.Balanced | lib/balanced-var.js:6-9 | The `balanced('(', ')', …)` match: when found, pre + "(" + body + ")" + post is the value, the body is balanced, and its `(` is the first one in the value that has a matching `)`. The result is absent exactly when no `(` has a matching `)`. |
| BalancedMatch.NoSpanMeansNoBalancedPair | lib/balanced-var.js:6-9 | When there is no match, no `(`…`)` pair in the value encloses balanced text. |
| VarSpans.BalancedVar | lib/balanced-var.js:5-41 | A call that is found reassembles the value as pre + "var(" + body + ")" + post. Its body is balanced, and its `pre` does not end inside an identifier. A value with no balanced parentheses has no call. |
| VarSpans.CallIsFound | lib/balanced-var.js:5-41 | Whenever the value is p + "var(" + b + ")" + q with `b` balanced and `p` not ending inside an identifier, `balancedVar` finds a call, and that call starts no later than this one. |
| VarSpans.VarCallFoundIff | lib/balanced-var.js:5-41 | `balancedVar` finds a call exactly when the value holds a `var(` … `)` call with a balanced body that does not follow an identifier character (`HasVarCall`). |
| BalancedMatch.NoCloseInsidePair | lib/balanced-var.js:6 | Text that starts before a balanced pair's `(` and ends inside that pair is not balanced, so no balanced span straddles the opening of another. |
| VarSpans.OuterCallPreferred | lib/balanced-var.js:10-17 | When the first balanced pair is preceded by a standalone `var` (the test `EndsWithVarToken`), that pair is the call, and the `var` token is cut from `pre`. |
| VarSpans.SearchContinuesPastSpan | lib/balanced-var.js:18-38 | Otherwise the call found lies after the pair's opening. A call inside the pair's body is always found, and it ends before the pair's closing parenthesis. |
| VarSpans.CallIsBalancedPair | lib/balanced-var.js:5-41 | The parentheses of the call found are a balanced `(`…`)` pair of the value. |
| VarSpans.AtSpan | lib/balanced-var.js:12-16 | Cutting `var` from `pre` reassembles the same value and leaves `pre` on an identifier boundary. |
| VarSpans.InBody | lib/balanced-var.js:22-26 | A call rebuilt from the body's call reassembles the outer value, and it lies strictly inside the pair. |
| VarSpans.InPost | lib/balanced-var.js:33-37 | A call rebuilt from the post's call reassembles the outer value, and it starts after the pair. |
| VarArgs.ParseReferenceParts | lib/resolve-value.js:70-74 | `ParseReference`: the name is the trimmed text before the first comma. The fallback is the trimmed text after it, and it is absent when there is no comma. |
| VarArgs.ParseOccurrence | lib/scss-var-usages.js:14-21 | The name is the one `resolveValue` reads. The default value is empty when there is no comma; otherwise, split at commas, it gives the trimmed pieces after the first. |
| VarArgs.Occurrences | lib/scss-var-usages.js:11-26 | The calls found one after another: none exactly when the value has no call, and at most one per four characters, so the loop ends. |
| VarArgs.Remainder | lib/scss-var-usages.js:23 | The text left after removing the call's wrapper and its name is no longer than the fragments. |
| VarArgs.OccurrencesUnfold | lib/scss-var-usages.js:11-24 | One turn of the loop: the call found is recorded, and the scan continues on a strictly shorter remainder. |
| JsStrings.Split | lib/resolve-value.js:70 | `split`: at least one piece, no piece contains the separator, and there is a single piece exactly when the separator does not occur. |
| JsStrings.JoinSplit | lib/resolve-value.js:74 | `Join` (`.join`) is the inverse of `Split`: joining the pieces of a split with the same separator gives back the text. |
| JsStrings.Trim | lib/resolve-value.js:73 | `trim` removes a white-space prefix and a white-space suffix and nothing else; what is left neither starts nor ends with white space. |
| JsStrings.RemoveFirst | lib/resolve-value.js:52 | `replace(name, '')` removes the first occurrence of the name, and changes nothing when the name does not occur. |
| ScssVarUsages.GrabVars | lib/scss-var-usages.js:6-27 | The loop returns exactly the occurrences of the value, in order. |
| ScssVarUsages.GrabVarsEmpty | lib/scss-var-usages.js:11 | A value yields no variable exactly when it holds no `var(` … `)` call with a balanced body on an identifier boundary (`HasVarCall` is false). |
| ScssVarUsages.ParseLineMatches | lib/scss-var-usages.js:43-47 | `ParseLine`: a line is skipped exactly when the pattern `^\s*([\w\-]+): (.*)` matches it nowhere. |
| ScssVarUsages.ParseLineCaptures | lib/scss-var-usages.js:43-48 | On a match, the property is the word after the leading white space, and the value is the text after ": " up to the first line terminator. The match is the only one possible. |
| ScssVarUsages.MatchIsUnique | lib/scss-var-usages.js:43 | Any match of the pattern starts and ends where the parser looks. |
| ScssVarUsages.LineRecordsOf | lib/scss-var-usages.js:50-55 | A declaration line gives one record per call in its value, each holding the file, line number, property and default value. |
| ScssVarUsages.Lines | lib/scss-var-usages.js:37 | Splitting a file at `\n` gives at least one line. |
| ScssVarUsages.AddUsage | lib/scss-var-usages.js:57-67 | A missing name gets an entry at the end of the key order. The usage is pushed unless an equal one is listed. Other names are untouched. |
| ScssVarUsages.AddAllAppend | lib/scss-var-usages.js:35-69 | Adding records in two batches is the same as adding them in one. |
| ScssVarUsages.HarvestKeys | lib/scss-var-usages.js:59-63 | The keys are the names recorded, each once, in order of first use. |
| ScssVarUsages.HarvestContents | lib/scss-var-usages.js:57-67 | Each entry lists the distinct usages of its name in order of first appearance. No entry is empty. |
| ScssVarUsages.UsagesAreDistinct | lib/scss-var-usages.js:64-66 | No usage is listed twice under a name. |
| ScssVarUsages.NoNameNoUsages | lib/scss-var-usages.js:57-67 | A name that is never recorded collects no usages. |
| ScssVarUsages.AddRecord | lib/scss-var-usages.js:58-66 | The body of the inner `forEach`: the map after one record. |
| ScssVarUsages.AddLine | lib/scss-var-usages.js:41-67 | The map after one line is the map with that line's records added. |
| ScssVarUsages.AddFile | lib/scss-var-usages.js:37-68 | The map after one file is the map with the records of all its lines added. Line i gets line number i + 2. |
| ScssVarUsages.ScssVarUsagesOf | lib/scss-var-usages.js:29-72 | The returned map is the one built from the records of all files in order, which `HarvestContents` describes. |
| Sequences.DedupSound | lib/resolve-value.js:49-55 | `Object.keys` of a map used as a set holds each name once, and exactly the names inserted. |
| Sequences.DedupFirstSeenOrder | lib/resolve-value.js:55 | Those keys come in order of first insertion. |
| ValueResolver.VariablesUsed | lib/resolve-value.js:30-55 | The names used are distinct, and they are exactly the names of the calls the discovery loop finds. |
| ValueResolver.CollectedCalls | lib/resolve-value.js:37-46 | One `collectVar` call per call found. Each carries the name, the rule's selector, the property and the joined default value. |
| ValueResolver.DiscoverVariables | lib/resolve-value.js:29-55 | The discovery loop returns the names used, and the `collectVar` calls when a callback is given, none otherwise. |
| ValueResolver.LastQualifying | lib/resolve-value.js:76-93 | The index of the last declaration in scope (of the `!important` ones, when asked). No later one qualifies, and none at all when there is no such index. |
| ValueResolver.SelectDeclaration | lib/resolve-value.js:76-93 | The `forEach` over the declarations picks the cascade winner `CascadeWinner`. |
| ValueResolver.CascadeWinnerIsLastVisible | lib/resolve-value.js:76-93 | The `CascadeWinner` is in scope. There is none exactly when nothing is in scope. When some declaration in scope is `!important`, the winner is `!important`. |
| ValueResolver.ReplacementPrecedence | lib/resolve-value.js:95-119 | A usable match with no circular or self reference is resolved and wins. Otherwise a truthy cached value wins. With no match and no fallback the value is `undefined`. |
| ValueResolver.WarningsFor | lib/resolve-value.js:121-124 | One warning per undefined replacement: none exactly when every replacement is defined, each on the declaration, and the last undefined step is warned last. |
| ValueResolver.RunIsTrace | lib/resolve-value.js:65-128 | A finished resolution loop (`Run`) replaces, step by step, the call `balancedVar` finds in the current text with the step's replacement, rendered as `undefined` when absent (`Render`), and it ends at a text where `balancedVar` finds nothing. |
| ValueResolver.RunStepsAreNextSteps | lib/resolve-value.js:69-119 | Each step of a finished loop is the step computed for its call (`NextStep`): the name parsed from the call's body, and the replacement computed from that name's cascade winner, cached value and fallback. |
| ValueResolver.ReplacementValue | lib/resolve-value.js:95-119 | The replacement the method computes is the one the specification gives. |
| ValueResolver.FallbackValueOf | lib/resolve-value.js:96-105 | The cached value, else the resolved non-empty fallback, else the fallback as written. |
| ValueResolver.ResolveValue | lib/resolve-value.js:19-138 | The method's result is the specification's resolution `Resolve`: value, names used and warnings, or out of fuel. It also returns the `collectVar` calls. |
| ValueResolver.NoReferenceKeepsValue | lib/resolve-value.js:22-23 | A value for which `HasVarCall` is false, so that `balancedVar` finds nothing, resolves to itself, with no names used and no warnings. |
| ValueResolver.ResolvedValueHasNoCall | lib/resolve-value.js:65 | A defined resolved value holds no further `var(` … `)` call with a balanced body on an identifier boundary: `balancedVar` finds nothing and `HasVarCall` is false. |
| ValueResolver.TraceEndsWithoutCall | lib/resolve-value.js:65 | A run of the loop stops only at a text where `balancedVar` finds nothing, which is a text for which `HasVarCall` is false. |
| ValueResolver.UndefinedIsWarned | lib/resolve-value.js:121-137 | An `undefined` result (`FinalValue` is absent) comes with at least one warning. With no warnings the value is defined, and every warning is about the declaration itself. |
| ValueResolver.VariablesUsedInOrder | lib/resolve-value.js:49-55 | `variablesUsed` lists the names called in the value, each once, in order of first appearance. |
| ValueResolver.RunAdvances | lib/resolve-value.js:65-128 | One turn of the loop appends the step to the trace and continues on the substituted text. |
| VariableCombinePlugin.AddContribution | variableCombinePlugin.js:7-12 | One `[k, v]` pair: a missing `k` gets `{name: k, usages: []}` at the end of the key order, then `v.usages` (or nothing) is appended. Other keys are untouched. |
| VariableCombinePlugin.AddFileVars | variableCombinePlugin.js:7-12 | The inner `forEach` over a file's entries is the fold of its contributions in key order. |
| VariableCombinePlugin.CombineVars | variableCombinePlugin.js:6-15 | The reduce over all files is the specification's combined map. |
| VariableCombinePlugin.CombineContents | variableCombinePlugin.js:6-15 | The combined keys are every file's keys, each once, in order of first appearance. Each entry is named by its key and holds the usages of all files under it, in file order. |
| VariableCombinePlugin.CombineKeySet | variableCombinePlugin.js:8-10 | A name has an entry exactly when some file has it. |
| VariableCombinePlugin.GatherAppend | variableCombinePlugin.js:6-15 | Folding contributions in two batches is the same as folding them in one. |
| VariableCombinePlugin.GatherContents | variableCombinePlugin.js:7-12 | The folded map holds each contributed name once, with all its usages in order. |
| VariableCombinePlugin.KeyContributionsUsages | variableCombinePlugin.js:11 | Within one file, a name contributes its own usages once (`v.usages || []`, `UsagesOrEmpty`), or nothing when the file lacks it. |
| VariableCombinePlugin.AbsentNameNoUsages | variableCombinePlugin.js:11 | A name never contributed collects no usages. |
| VariableCombinePlugin.OutputFilename | variableCombinePlugin.js:17 | The given file name when it is non-empty, `css-variables.json` otherwise. |
| MergeVarUsages.MergeVarUsages | lib/merge-var-usages.js:1-4 | One record per CSS key, in key order, copying the entry's `name` and `usages`. `sourceUsages` is `null` exactly when the SCSS map lacks the key; otherwise it is that entry's usages. |
| MergeVarUsages.MergedNamesAreCssKeys | lib/merge-var-usages.js:1-4 | For a map whose entries are named by their keys, the records are named by the CSS keys, without repeats and without SCSS-only names. |
| MergeVarUsages.MergeCombinedWithHarvest | lib/merge-var-usages.js:1-4 | End to end: merging the combined CSS map with the SCSS map yields every CSS variable once, in order of first appearance, with all its CSS usages. Its source usages are the distinct SCSS usages of the name, or `null` when the SCSS never uses it. |

## Left out

- Reading files: the glob over `sourceDir`, `fs.readFileSync` and the file's encoding. Each SCSS file is given as a path and its text, in glob order.
- Writing the JSON file in the plugin (`fs.writeFile`, `JSON.stringify`, the console message) and the webpack `done` hook registration. The plugin is modelled from the reduce that builds the map, and the output file name is modelled; the write itself is not.
- The helpers `resolveValue` imports from modules outside this core are parameters of `ValueResolver.Env`. They are `isNodeUnderScope`, `gatherVariableDependencies` (only its `hasCircularOrSelfReference` answer), the `generateScopeList` / `findNodeAncestorWithSelector` / `cloneSpliceParentOntoNodeWhen` splice (only the parent it gives the clone) and a rule's selector.
- The `balanced-match` package is modelled by its contract: the first `(` that has a matching `)`, with the shortest balanced body. Its handling of unmatched delimiters inside a match is not modelled.
- Regular expressions are explicit predicates: the `var` test in `balancedVar` and the declaration pattern of `scssVarUsages`. `\s`, `.` and `trim` use the ECMAScript white space and line terminator sets as listed in `JsStrings`.
- MergeVarUsages.MergeVarUsages: entries of the CSS map are taken to be `{name, usages}`, as the plugin builds them. Other fields an entry might carry, and a `sourceUsages` it already holds, are not modelled.
- `shallowEqualObjects` is structural equality of the usage record, which has only flat fields.
- JavaScript object quirks: integer-like keys, which `Object.keys` lists first, and inherited prototype keys (`constructor`, …) that make `!allVars[name]` false are not modelled. Keys are kept in insertion order.
- `collectVar` is a callback in the source. The model returns the list of calls it would receive, and the `typeof collectVar === 'function'` test is a boolean option.
- The `_debugIsInternal` option, the debug indentation and commented-out logging, and the unused `isRoot` / `underScope` locals are not modelled.
- `String(decl.value)` is taken to be the value itself, and `(match.pre || '')` is the same as `match.pre` for strings.
- ValueResolver.Resolve: resolution can recurse or loop without bound in the source, for example through long reference chains or a cached value that contains a `var()`. The model carries a `Fuel` budget for nesting depth and substitutions per value, and it returns `None` when the budget runs out. What the source does beyond any budget is not captured.
- UTF-16 code units, surrogate pairs and Unicode-aware trimming beyond the listed white space are not modelled: strings are sequences of characters.
- The line number recorded for the first line of a file is 2, because the counter starts at 1 and is incremented before use. The model keeps that behaviour as written.
