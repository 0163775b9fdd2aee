# Placeholder expansion in custom-gradle-dist-gradle-plugin, in Dafny

The plugin builds a custom Gradle distribution: it copies the base archive and
adds init scripts to `gradle-<version>/init.d/`. While copying a script it
replaces every `$key$` placeholder with a replacement value. A multi-line value
is re-indented to the placeholder's column. Values may themselves contain
placeholders, which are resolved recursively, and a cycle aborts the build
with a report of the chain.

The repository holds two engines, and both are modelled:

- **The current engine** (`BuildCustomGradleDistributionTask`). Replacement
  values come from `replacements.properties` and from the files of a utility
  directory. A key defined in both is an error. Every value is then expanded
  once, through a `TemplateExpansionContext` that caches finished values and
  keeps a stack of the keys in progress. Scripts are expanded against the
  finished map.
- **The legacy engine** (`CustomGradleDistributionPlugin.applyTemplates`).
  A placeholder names an include file `<name>.gradle` or `<name>.gradle.kts`.
  That file is expanded recursively on every use, with no cache, and a stack
  of names detects cycles.

Both engines share the scan loop, `getIndent` and `indentText`.

Modules:

- `Common`:
  - `Option` and `Result`;
  - sequence helpers;
  - the cycle report's header and link text.
- `Placeholder`: the regular expression `\$(\S+)\$` as Java runs it.
  - `find` picks the leftmost start.
  - `\S+` is greedy, so a match ends at the last `$` of its non-whitespace run.
  - `next()` resumes after the match.
  - `\s` is Java's six ASCII whitespace characters.
- `Indentation`: `getIndent`, Kotlin's `lines()`, and `indentText`.
- `Expansion`: the scan loop.
  - The provider's answer for each placeholder is an input, so one loop
    serves both engines.
  - `Splice` is the function the loop is proved to compute.
- `Replacements`:
  - Kotlin's `LinkedHashMap` as a key order plus a map;
  - loading the properties and the utility files;
  - the duplicate check;
  - `properties + files`.
- `Layout`:
  - archive entry paths;
  - exclusion rules;
  - archive names;
  - the list of distributions.
- `ExpansionState`: the current engine's state as values.
  - `KeyOutcome`, `ProvideOutcome`, `AskOutcome`, `ValueOutcome` and
    `ExpandAll` are the engine as functions of the cache and the stack.
  - `Solved` says every cached value is its raw text expanded against the
    cache.
  - `HasCycle` says some replacements name each other in a ring.
  - The cycle report, and the loop that builds it.
- `TaskEngine`: the current engine.
  - `TemplateExpansionContext` is a class whose methods change the cache and
    the stack. Each method is proved to compute the matching function of
    `ExpansionState`.
  - A ghost rank orders the cached keys, which shows that an input without a
    cycle succeeds.
- `LegacyEngine`: the legacy engine.
  - `IncludeResolver` is a class holding the stack of names.
  - Its methods are proved equal to the recursive functions `Resolve`,
    `Answers` and `ExpandInclude`.

How the provider is modelled. In the source, the scan loop calls the
provider once per placeholder, left to right, and a thrown error ends
everything. The model asks the provider about every placeholder in the same
order first, then runs the loop with the answers. The two are the same:

- the provider never sees the buffer;
- the matches do not depend on the answers;
- the first error aborts both.

## Model

| member | source | states |
|---|---|---|
| Placeholder.KeyOfMatch | src/main/kotlin/tech/harmonysoft/oss/gradle/dist/BuildCustomGradleDistributionTask.kt:244 | the key of an occurrence is what lies between its two `$`: putting the `$` back gives the occurrence, and the key is a non-empty run without whitespace |
| Placeholder.RunEndCorrect | src/main/kotlin/tech/harmonysoft/oss/gradle/dist/BuildCustomGradleDistributionTask.kt:488 | the `\S+` run starting at `i` holds no Java `\s` character (space, tab, newline, vertical tab, form feed, carriage return) and stops at one, or at the end of the text |
| Placeholder.LastDollarCorrect | src/main/kotlin/tech/harmonysoft/oss/gradle/dist/BuildCustomGradleDistributionTask.kt:488 | backtracking the greedy group stops at the last `$` of the range: no `$` follows the one found, and the range holds no `$` when none is found |
| Placeholder.GreedyEnd | src/main/kotlin/tech/harmonysoft/oss/gradle/dist/BuildCustomGradleDistributionTask.kt:488 | a match that starts at `p` ends at least two characters later, inside the text |
| Placeholder.GreedyEndCorrect | src/main/kotlin/tech/harmonysoft/oss/gradle/dist/BuildCustomGradleDistributionTask.kt:488 | a match starts at `p` if and only if `GreedyEnd` finds one; it is an occurrence of `$<non-whitespace>$` and no occurrence starting at `p` ends later |
| Placeholder.FindPlaceholder | src/main/kotlin/tech/harmonysoft/oss/gradle/dist/BuildCustomGradleDistributionTask.kt:240 | `find` reports a match at or after the search position and inside the text |
| Placeholder.FindPlaceholderCorrect | src/main/kotlin/tech/harmonysoft/oss/gradle/dist/BuildCustomGradleDistributionTask.kt:240 | `find` reports nothing exactly when no occurrence starts at or after the search position; otherwise it reports an occurrence, no occurrence starts earlier, and none starting at the same place ends later |
| Placeholder.PlaceholdersFrom | src/main/kotlin/tech/harmonysoft/oss/gradle/dist/BuildCustomGradleDistributionTask.kt:240-257 | the matches visited by `find` and repeated `next()` are in order, lie inside the text and never overlap |
| Placeholder.FindFirst | src/main/kotlin/tech/harmonysoft/oss/gradle/dist/BuildCustomGradleDistributionTask.kt:240 | the first `find` reports the first match of the sequence |
| Placeholder.FindNext | src/main/kotlin/tech/harmonysoft/oss/gradle/dist/BuildCustomGradleDistributionTask.kt:257 | `next()` after the `i`-th match reports the `i + 1`-st, and nothing after the last |
| Placeholder.PlaceholdersAreMatches | src/main/kotlin/tech/harmonysoft/oss/gradle/dist/BuildCustomGradleDistributionTask.kt:488 | every visited match is an occurrence of the pattern |
| Placeholder.Keys | src/main/kotlin/tech/harmonysoft/oss/gradle/dist/BuildCustomGradleDistributionTask.kt:244 | one key per match, in order, each the text between that match's two `$` |
| Placeholder.PlaceholdersCover | src/main/kotlin/tech/harmonysoft/oss/gradle/dist/BuildCustomGradleDistributionTask.kt:240-257 | every `$...$` occurrence in the text starts inside some visited match: the scan never skips a placeholder |
| Placeholder.CoveringMatch | src/main/kotlin/tech/harmonysoft/oss/gradle/dist/BuildCustomGradleDistributionTask.kt:240-257 | for an occurrence starting at or after the search position, names the visited match that covers its start |
| Placeholder.GreedyExample | src/main/kotlin/tech/harmonysoft/oss/gradle/dist/BuildCustomGradleDistributionTask.kt:488 | `$a$b$` holds one placeholder, with key `a$b` (the match is greedy) |
| Placeholder.DollarKeyExample | src/main/kotlin/tech/harmonysoft/oss/gradle/dist/BuildCustomGradleDistributionTask.kt:488 | `$$$` holds one placeholder, with key `$` |
| Placeholder.WhitespaceExample | src/main/kotlin/tech/harmonysoft/oss/gradle/dist/BuildCustomGradleDistributionTask.kt:488 | `$a b$` holds no placeholder: whitespace cannot be part of a key |
| Indentation.Indent | src/main/kotlin/tech/harmonysoft/oss/gradle/dist/BuildCustomGradleDistributionTask.kt:270-280 | the indent counts back from the placeholder over non-newline characters, stops after a newline, never inspects index 0, and is 0 at offset 0 |
| Indentation.IndentVersusColumn | src/main/kotlin/tech/harmonysoft/oss/gradle/dist/BuildCustomGradleDistributionTask.kt:270-280 | after an earlier newline the indent equals the placeholder's column; on the first line it is one less than the column |
| Indentation.GetIndent | src/main/kotlin/tech/harmonysoft/oss/gradle/dist/BuildCustomGradleDistributionTask.kt:270-280 | the `getIndent` loop returns `Indent(text, offset)` |
| Indentation.Lines | src/main/kotlin/tech/harmonysoft/oss/gradle/dist/BuildCustomGradleDistributionTask.kt:286 | `lines()` yields at least one line, and no line holds a line terminator |
| Indentation.JoinSnoc | src/main/kotlin/tech/harmonysoft/oss/gradle/dist/BuildCustomGradleDistributionTask.kt:287-293 | joining one more line appends a newline and the line |
| Indentation.JoinPrefix | src/main/kotlin/tech/harmonysoft/oss/gradle/dist/BuildCustomGradleDistributionTask.kt:287-293 | the first `i + 1` lines joined are the first `i` joined, a newline and line `i` |
| Indentation.LinesOfJoin | src/main/kotlin/tech/harmonysoft/oss/gradle/dist/BuildCustomGradleDistributionTask.kt:286 | splitting lines joined with newlines gives back the same lines |
| Indentation.LinesOfPrefix | src/main/kotlin/tech/harmonysoft/oss/gradle/dist/BuildCustomGradleDistributionTask.kt:286 | a line without terminators glues onto the first line of what follows it |
| Indentation.JoinOfLines | src/main/kotlin/tech/harmonysoft/oss/gradle/dist/BuildCustomGradleDistributionTask.kt:286 | a text without carriage returns is its own lines joined with newlines |
| Indentation.IndentLines | src/main/kotlin/tech/harmonysoft/oss/gradle/dist/BuildCustomGradleDistributionTask.kt:287-294 | one output line per input line |
| Indentation.Indented | src/main/kotlin/tech/harmonysoft/oss/gradle/dist/BuildCustomGradleDistributionTask.kt:282-297 | what `indentText` returns: the lines of the text, the first as it is and every later non-blank one prefixed with `indent` spaces, joined with newlines; `IndentText`, `IndentedLines`, `IndentedZero` and `IndentedNormalisesLineEnds` state its properties |
| Indentation.IndentText | src/main/kotlin/tech/harmonysoft/oss/gradle/dist/BuildCustomGradleDistributionTask.kt:282-297 | the `indentText` loop returns `Indented(text, indent)` |
| Indentation.IndentedLines | src/main/kotlin/tech/harmonysoft/oss/gradle/dist/BuildCustomGradleDistributionTask.kt:282-297 | `indentText` keeps the line structure: the result's lines are the input's lines, the first unchanged and every later non-blank one padded |
| Indentation.IndentedZero | src/main/kotlin/tech/harmonysoft/oss/gradle/dist/BuildCustomGradleDistributionTask.kt:282-297 | with indent 0, a text without carriage returns comes back unchanged |
| Indentation.IndentedNormalisesLineEnds | src/main/kotlin/tech/harmonysoft/oss/gradle/dist/BuildCustomGradleDistributionTask.kt:286 | a `\r\n` line end comes back as `\n` |
| Expansion.Consumed | src/main/kotlin/tech/harmonysoft/oss/gradle/dist/BuildCustomGradleDistributionTask.kt:255 | `start` stays within the text, never passes the next match, and is non-zero exactly when some earlier placeholder was replaced |
| Expansion.Splice | src/main/kotlin/tech/harmonysoft/oss/gradle/dist/BuildCustomGradleDistributionTask.kt:239-268 | the result of the scan loop for given answers: the text since the previous replacement and the indented value for every resolved placeholder, then the rest of the text, or the original text when that buffer is empty; `ExpandWith` is proved to compute it and the `Unresolved*`, `NothingResolved` and `SingleReplacement` lemmas state what it keeps |
| Expansion.NextPlaceholder | src/main/kotlin/tech/harmonysoft/oss/gradle/dist/BuildCustomGradleDistributionTask.kt:248 | `match.next()` yields the next match of the sequence, or nothing after the last |
| Expansion.AppendReplacement | src/main/kotlin/tech/harmonysoft/oss/gradle/dist/BuildCustomGradleDistributionTask.kt:252-255 | a resolved placeholder appends the text since `start` and the indented value |
| Expansion.ExpandWith | src/main/kotlin/tech/harmonysoft/oss/gradle/dist/BuildCustomGradleDistributionTask.kt:239-268 | the scan loop returns `Splice(text, outcomes)` |
| Expansion.ExpandWithMap | src/main/kotlin/tech/harmonysoft/oss/gradle/dist/BuildCustomGradleDistributionTask.kt:456-461 | expanding against a finished map with the provider `replacements[it]` returns `ExpandAgainst(text, map)` |
| Expansion.NothingConsumedEmptyBuffer | src/main/kotlin/tech/harmonysoft/oss/gradle/dist/BuildCustomGradleDistributionTask.kt:259-261 | while no placeholder was replaced the buffer stays empty |
| Expansion.NothingResolved | src/main/kotlin/tech/harmonysoft/oss/gradle/dist/BuildCustomGradleDistributionTask.kt:263-267 | when the provider resolves nothing the text comes back unchanged |
| Expansion.UnknownKeysUnchanged | src/main/kotlin/tech/harmonysoft/oss/gradle/dist/BuildCustomGradleDistributionTask.kt:246-250 | a text whose keys are all unknown to the map comes back unchanged |
| Expansion.UnresolvedKept | src/main/kotlin/tech/harmonysoft/oss/gradle/dist/BuildCustomGradleDistributionTask.kt:246-250 | an unresolved placeholder is never consumed by later replacements |
| Expansion.UnresolvedSurvives | src/main/kotlin/tech/harmonysoft/oss/gradle/dist/BuildCustomGradleDistributionTask.kt:246-250 | an unresolved placeholder appears verbatim, `$key$`, in the output |
| Expansion.UnresolvedInOutput | src/main/kotlin/tech/harmonysoft/oss/gradle/dist/BuildCustomGradleDistributionTask.kt:259-267 | an unresolved placeholder appears verbatim in the output for any ordered matches |
| Expansion.SingleReplacement | src/main/kotlin/tech/harmonysoft/oss/gradle/dist/BuildCustomGradleDistributionTask.kt:252-261 | with one placeholder resolved to `v` the output is the text before it, `v` indented, and the text after it (or the original text if that is empty) |
| Expansion.OnePlaceholderA | src/main/kotlin/tech/harmonysoft/oss/gradle/dist/BuildCustomGradleDistributionTask.kt:488 | `$a$` holds one placeholder with key `a` |
| Expansion.EmptyBufferQuirk | src/main/kotlin/tech/harmonysoft/oss/gradle/dist/BuildCustomGradleDistributionTask.kt:263-267 | `$a$` with `a` mapped to the empty string comes back as `$a$`, not as the empty string |
| Expansion.BlockPlaceholder | src/main/kotlin/tech/harmonysoft/oss/gradle/dist/BuildCustomGradleDistributionTask.kt:253 | in `    $B$` the placeholder starts at column 4 and its indent is 3 |
| Expansion.TwoLinesIndented | src/main/kotlin/tech/harmonysoft/oss/gradle/dist/BuildCustomGradleDistributionTask.kt:282-297 | `x\ny` indented by 3 is `x\n   y` |
| Expansion.FirstLineIndentExample | src/main/kotlin/tech/harmonysoft/oss/gradle/dist/BuildCustomGradleDistributionTask.kt:252-254 | `    $B$` with `B = x\ny` expands to `    x\n   y` |
| Replacements.Put | src/main/kotlin/tech/harmonysoft/oss/gradle/dist/BuildCustomGradleDistributionTask.kt:483 | `put` keeps the keys listed once; a new key goes to the end, an existing key keeps its place and takes the new value |
| Replacements.EmptyMap | src/main/kotlin/tech/harmonysoft/oss/gradle/dist/BuildCustomGradleDistributionTask.kt:161 | the empty map has no keys |
| Replacements.PutAll | src/main/kotlin/tech/harmonysoft/oss/gradle/dist/BuildCustomGradleDistributionTask.kt:155 | putting entries in order keeps the map well formed |
| Replacements.KeysOf | src/main/kotlin/tech/harmonysoft/oss/gradle/dist/BuildCustomGradleDistributionTask.kt:179 | the keys of the entries, in order |
| Replacements.PutAllMembers | src/main/kotlin/tech/harmonysoft/oss/gradle/dist/BuildCustomGradleDistributionTask.kt:155 | after putting entries a key is present exactly when it was before or some entry names it |
| Replacements.PutAllLast | src/main/kotlin/tech/harmonysoft/oss/gradle/dist/BuildCustomGradleDistributionTask.kt:179-183 | a key takes the value of the last entry that names it |
| Replacements.PutAllUntouched | src/main/kotlin/tech/harmonysoft/oss/gradle/dist/BuildCustomGradleDistributionTask.kt:155 | a key no entry names keeps its value |
| Replacements.PutAllFresh | src/main/kotlin/tech/harmonysoft/oss/gradle/dist/BuildCustomGradleDistributionTask.kt:155 | entries with new, distinct keys are appended in order |
| Replacements.IndexOf | src/main/kotlin/tech/harmonysoft/oss/gradle/dist/BuildCustomGradleDistributionTask.kt:180 | `indexOf('.')` finds the first `.` or reports that there is none |
| Replacements.FileKey | src/main/kotlin/tech/harmonysoft/oss/gradle/dist/BuildCustomGradleDistributionTask.kt:180-181 | a utility file's key is its name cut before the first `.`; the name is kept whole when it has no `.` or starts with one |
| Replacements.FileKeyCutsAtDot | src/main/kotlin/tech/harmonysoft/oss/gradle/dist/BuildCustomGradleDistributionTask.kt:180-181 | `init.gradle` is keyed `init` |
| Replacements.FileKeyLeadingDot | src/main/kotlin/tech/harmonysoft/oss/gradle/dist/BuildCustomGradleDistributionTask.kt:180 | `.x` is keyed `.x` |
| Replacements.FileEntries | src/main/kotlin/tech/harmonysoft/oss/gradle/dist/BuildCustomGradleDistributionTask.kt:177-182 | at most one entry per listed file |
| Replacements.FileEntryKeys | src/main/kotlin/tech/harmonysoft/oss/gradle/dist/BuildCustomGradleDistributionTask.kt:177-181 | a key comes from the utility files exactly when some file other than `replacements.properties` has that key |
| Replacements.LoadFromFiles | src/main/kotlin/tech/harmonysoft/oss/gradle/dist/BuildCustomGradleDistributionTask.kt:172-184 | the utility files load into a well-formed map (empty without a directory) |
| Replacements.LoadFromFilesLastWins | src/main/kotlin/tech/harmonysoft/oss/gradle/dist/BuildCustomGradleDistributionTask.kt:179-183 | of several files with the same key, the last one listed supplies the value and the description `include file <name>` |
| Replacements.LoadFromProperties | src/main/kotlin/tech/harmonysoft/oss/gradle/dist/BuildCustomGradleDistributionTask.kt:158-170 | the properties load into a well-formed map (empty without a file); `LoadFromPropertiesContents` and `LoadFromPropertiesOrder` state its contents and order |
| Replacements.PropertyEntries | src/main/kotlin/tech/harmonysoft/oss/gradle/dist/BuildCustomGradleDistributionTask.kt:166-169 | each property becomes its value described as `property from file <name>` |
| Replacements.LoadFromPropertiesContents | src/main/kotlin/tech/harmonysoft/oss/gradle/dist/BuildCustomGradleDistributionTask.kt:158-170 | without a file the map is empty; with one, a key is present exactly when some property names it, and it holds the last such property's value described as `property from file <name>` |
| Replacements.LoadFromPropertiesOrder | src/main/kotlin/tech/harmonysoft/oss/gradle/dist/BuildCustomGradleDistributionTask.kt:158-170 | with distinct property keys, as a `Properties` table has, the keys keep the order in which the properties are given |
| Replacements.EntryIndex | src/main/kotlin/tech/harmonysoft/oss/gradle/dist/BuildCustomGradleDistributionTask.kt:179-182 | where a file's entry sits among the entries, with its key, text and description |
| Replacements.EntriesAfter | src/main/kotlin/tech/harmonysoft/oss/gradle/dist/BuildCustomGradleDistributionTask.kt:177-182 | the entries after a file's entry are those of the later files |
| Replacements.DuplicateMessage | src/main/kotlin/tech/harmonysoft/oss/gradle/dist/BuildCustomGradleDistributionTask.kt:193-196 | the failure text: the property key, the properties file's canonical path and the description of the utility file that defines the same key; `DuplicateError` and `TaskEngine.PrepareReplacements` state when it is raised |
| Replacements.FirstShared | src/main/kotlin/tech/harmonysoft/oss/gradle/dist/BuildCustomGradleDistributionTask.kt:191-192 | the first property key, in iteration order, that the utility files also define |
| Replacements.DuplicateError | src/main/kotlin/tech/harmonysoft/oss/gradle/dist/BuildCustomGradleDistributionTask.kt:186-199 | the check fails exactly when some property key is also a utility file's key, and then reports the first such key |
| Replacements.Merge | src/main/kotlin/tech/harmonysoft/oss/gradle/dist/BuildCustomGradleDistributionTask.kt:155 | `properties + files` is a well-formed map |
| Replacements.MergeDisjoint | src/main/kotlin/tech/harmonysoft/oss/gradle/dist/BuildCustomGradleDistributionTask.kt:155 | merging maps without a shared key lists the first map's keys and then the second's, with the values of both |
| Replacements.MergeKeysDisjoint | src/main/kotlin/tech/harmonysoft/oss/gradle/dist/BuildCustomGradleDistributionTask.kt:155 | merging maps without a shared key lists the first map's keys and then the second's |
| Replacements.MergeValues | src/main/kotlin/tech/harmonysoft/oss/gradle/dist/BuildCustomGradleDistributionTask.kt:155 | merging maps without a shared key keeps every key and every value of both |
| Replacements.SecondValue | src/main/kotlin/tech/harmonysoft/oss/gradle/dist/BuildCustomGradleDistributionTask.kt:155 | a key of the second map takes the second map's value |
| Layout.EntryPathInjective | src/main/kotlin/tech/harmonysoft/oss/gradle/dist/BuildCustomGradleDistributionTask.kt:443-444 | two scripts under the same root never share an archive entry |
| Layout.FirstExclusion | src/main/kotlin/tech/harmonysoft/oss/gradle/dist/BuildCustomGradleDistributionTask.kt:449-452 | the first exclusion rule whose root is a prefix of the script's canonical path, and no earlier rule's root is; none when no rule's root is |
| Layout.RootRuleExcludesAll | src/main/kotlin/tech/harmonysoft/oss/gradle/dist/BuildCustomGradleDistributionTask.kt:449-452 | a rule whose root is the include root itself, such as `.`, excludes every script under the root |
| Layout.ExclusionIsStringPrefix | src/main/kotlin/tech/harmonysoft/oss/gradle/dist/BuildCustomGradleDistributionTask.kt:449-452 | the rule `a` also excludes `/r/ab/x.gradle`: the test compares strings, not path components |
| Layout.ArchiveName | src/main/kotlin/tech/harmonysoft/oss/gradle/dist/CustomGradleDistributionPlugin.kt:215-220 | the archive name `gradle-<gradle version>-<name>-<version>[-<distribution>].zip`; the three lemmas below state its shape and that names differ |
| Layout.ArchiveNameInsertsDistribution | src/main/kotlin/tech/harmonysoft/oss/gradle/dist/CustomGradleDistributionPlugin.kt:215-220 | a named distribution's archive name is the single archive's name with `-<distribution>` before `.zip` |
| Layout.ArchiveNamesDiffer | src/main/kotlin/tech/harmonysoft/oss/gradle/dist/CustomGradleDistributionPlugin.kt:215-220 | different distributions get different archive names |
| Layout.ArchiveNameExample | src/test/kotlin/tech/harmonysoft/oss/gradle/dist/CustomGradleDistributionPluginTest.kt:243-250 | with Gradle 8.3, project `my-project` and version `1.0` (the constants at lines 301-303 of the same test), the names `gradle-8.3-my-project-1.0-a.zip` and `gradle-8.3-my-project-1.0.zip` |
| Layout.BuildsFromListing | src/main/kotlin/tech/harmonysoft/oss/gradle/dist/BuildCustomGradleDistributionTask.kt:52-68 | fewer than two sub-directories of `init.d` build one unnamed distribution, not one named after the single sub-directory; more build one distribution per sub-directory, in listing order |
| Layout.ArchivesDistinct | src/main/kotlin/tech/harmonysoft/oss/gradle/dist/CustomGradleDistributionPlugin.kt:32-48 | every distribution built gets its own archive |
| ExpansionState.CycleReport | src/main/kotlin/tech/harmonysoft/oss/gradle/dist/BuildCustomGradleDistributionTask.kt:211-222 | the current engine's cycle report: the header, then `'key' (description)` for every entry in progress, oldest first, and for the key that closes the cycle, linked by `\n  \|\n`; `BuildCycleMessage` is proved to build it and `ReportedCycle` shows it names a real cycle |
| ExpansionState.BuildCycleMessage | src/main/kotlin/tech/harmonysoft/oss/gradle/dist/BuildCustomGradleDistributionTask.kt:211-222 | the `forEachIndexed` loop builds `CycleReport` for a non-empty stack |
| ExpansionState.CycleReportExample | src/main/kotlin/tech/harmonysoft/oss/gradle/dist/BuildCustomGradleDistributionTask.kt:210-222 | `A` -> `B` -> `A` is reported as `'A' (a.gradle)`, `'B' (b.gradle)`, `'A' (a.gradle)` |
| ExpansionState.ClosedGrows | src/main/kotlin/tech/harmonysoft/oss/gradle/dist/BuildCustomGradleDistributionTask.kt:232 | caching more values keeps a text's placeholders resolved |
| ExpansionState.ExpandAgainstAgree | src/main/kotlin/tech/harmonysoft/oss/gradle/dist/BuildCustomGradleDistributionTask.kt:227-233 | a text expands alike against a cache and any larger cache |
| ExpansionState.FinishedLater | src/main/kotlin/tech/harmonysoft/oss/gradle/dist/BuildCustomGradleDistributionTask.kt:232 | a finished value stays finished as the cache grows |
| ExpansionState.CacheKeepsFinished | src/main/kotlin/tech/harmonysoft/oss/gradle/dist/BuildCustomGradleDistributionTask.kt:232 | caching a new finished value keeps every cached value finished |
| ExpansionState.CacheNew | src/main/kotlin/tech/harmonysoft/oss/gradle/dist/BuildCustomGradleDistributionTask.kt:232 | caching a key's expanded value keeps the cache solved: every cached value is its raw text expanded against the cache |
| ExpansionState.PushOk | src/main/kotlin/tech/harmonysoft/oss/gradle/dist/BuildCustomGradleDistributionTask.kt:225 | pushing a replacement that is not on the stack keeps the stack a sequence of distinct replacements with their raw values |
| ExpansionState.StackKeys | src/main/kotlin/tech/harmonysoft/oss/gradle/dist/BuildCustomGradleDistributionTask.kt:210-225 | a valid stack holds as many distinct keys as entries, all of them replacement keys |
| ExpansionState.StackBound | src/main/kotlin/tech/harmonysoft/oss/gradle/dist/BuildCustomGradleDistributionTask.kt:210-225 | a stack of distinct replacement keys is never deeper than there are replacements, so the recursion ends |
| ExpansionState.KeyOutcome | src/main/kotlin/tech/harmonysoft/oss/gradle/dist/BuildCustomGradleDistributionTask.kt:209-237 | `expand(key, value, context)` as a function of the cache and the stack: a key on the stack fails with `CycleReport`; otherwise the key is pushed, its value expanded, and on success cached; `ExpandKey` is proved to compute it |
| ExpansionState.ProvideOutcome | src/main/kotlin/tech/harmonysoft/oss/gradle/dist/BuildCustomGradleDistributionTask.kt:228-230 | the nested provider: the cached value, else nothing for an unknown key, else the key's `KeyOutcome`; `Provide` is proved to compute it |
| ExpansionState.AskOutcome | src/main/kotlin/tech/harmonysoft/oss/gradle/dist/BuildCustomGradleDistributionTask.kt:243-257 | the provider asked about the keys left to right, each seeing the cache the previous one left, the first failure aborting; on success one answer per key |
| ExpansionState.ValueOutcome | src/main/kotlin/tech/harmonysoft/oss/gradle/dist/BuildCustomGradleDistributionTask.kt:239-268 | a value's answers spliced into it by the scan loop, or the first failure |
| ExpansionState.ExpandAll | src/main/kotlin/tech/harmonysoft/oss/gradle/dist/BuildCustomGradleDistributionTask.kt:201-207 | `expandReplacements`: every replacement in iteration order expanded with an empty stack, the first failure aborting; `ExpandReplacements` is proved to compute it and to fail exactly on a cycle |
| ExpansionState.CycleAtIsCycle | src/main/kotlin/tech/harmonysoft/oss/gradle/dist/BuildCustomGradleDistributionTask.kt:210-224 | a key named by the top of a chained stack and already on it closes a cycle of dependencies among the replacements |
| ExpansionState.CycleAbove | src/main/kotlin/tech/harmonysoft/oss/gradle/dist/BuildCustomGradleDistributionTask.kt:210-224 | the stack entries from the repeated key up to the top, with the top naming that key, form a cycle |
| ExpansionState.ReportedCycle | src/main/kotlin/tech/harmonysoft/oss/gradle/dist/BuildCustomGradleDistributionTask.kt:210-224 | every cycle report the engine can produce names an actual cycle and starts with the report header |
| ExpansionState.RankAlong | src/main/kotlin/tech/harmonysoft/oss/gradle/dist/BuildCustomGradleDistributionTask.kt:227-232 | along a chain of dependencies between ranked replacements the rank drops at every step |
| ExpansionState.RankedAcyclic | src/main/kotlin/tech/harmonysoft/oss/gradle/dist/BuildCustomGradleDistributionTask.kt:201-207 | once every replacement has a rank below those of the replacements it names, there is no cycle: the success side of the cycle check |
| ExpansionState.PushChained | src/main/kotlin/tech/harmonysoft/oss/gradle/dist/BuildCustomGradleDistributionTask.kt:225-231 | pushing a key named by the top, and not on the stack, keeps the stack a chain of distinct replacements |
| ExpansionState.CacheRank | src/main/kotlin/tech/harmonysoft/oss/gradle/dist/BuildCustomGradleDistributionTask.kt:232 | caching a key after every replacement its value names, with the next rank, keeps the cache ranked |
| ExpansionState.CacheConsistent | src/main/kotlin/tech/harmonysoft/oss/gradle/dist/BuildCustomGradleDistributionTask.kt:232 | caching the finished value of a new key keeps the context's whole invariant: solved, ranked, and the stack a valid chain |
| TaskEngine.TemplateExpansionContext.constructor | src/main/kotlin/tech/harmonysoft/oss/gradle/dist/BuildCustomGradleDistributionTask.kt:482-485 | a new context holds the raw replacements, an empty cache and an empty stack |
| TaskEngine.TemplateExpansionContext.ExpandKey | src/main/kotlin/tech/harmonysoft/oss/gradle/dist/BuildCustomGradleDistributionTask.kt:209-237 | returns `KeyOutcome` and leaves its cache; a key already in progress fails and changes nothing; on success the value is cached; every failure is a cycle report; the stack is the same afterwards and the cache only grows |
| TaskEngine.TemplateExpansionContext.ExpandFresh | src/main/kotlin/tech/harmonysoft/oss/gradle/dist/BuildCustomGradleDistributionTask.kt:225-236 | for a key not in progress: push, expand the value, cache it, pop; returns `KeyOutcome` with the same stack afterwards |
| TaskEngine.TemplateExpansionContext.Cache | src/main/kotlin/tech/harmonysoft/oss/gradle/dist/BuildCustomGradleDistributionTask.kt:232 | `parsedReplacements[key] = value` for a finished value keeps the context's invariant |
| TaskEngine.TemplateExpansionContext.Provide | src/main/kotlin/tech/harmonysoft/oss/gradle/dist/BuildCustomGradleDistributionTask.kt:228-230 | returns `ProvideOutcome`: the cached value, else the expansion of a known key (then cached), else nothing with the cache unchanged; a failure is a cycle report |
| TaskEngine.TemplateExpansionContext.Ask | src/main/kotlin/tech/harmonysoft/oss/gradle/dist/BuildCustomGradleDistributionTask.kt:243-257 | returns `AskOutcome`: the answers, left to right, are the lookups in the grown cache, every known key ends cached, and a failure is a cycle report |
| TaskEngine.TemplateExpansionContext.AskNext | src/main/kotlin/tech/harmonysoft/oss/gradle/dist/BuildCustomGradleDistributionTask.kt:245 | one call of the provider moves the loop of `Ask` one key on, or ends it with the provider's error |
| TaskEngine.TemplateExpansionContext.ExpandValue | src/main/kotlin/tech/harmonysoft/oss/gradle/dist/BuildCustomGradleDistributionTask.kt:227-233 | returns `ValueOutcome`: the value expanded against the grown cache, with every placeholder naming a replacement resolved; a failure is a cycle report |
| TaskEngine.AnsweredAll | src/main/kotlin/tech/harmonysoft/oss/gradle/dist/BuildCustomGradleDistributionTask.kt:243-257 | answers read one by one from a growing cache are the lookups of the final cache, and every replacement asked about is cached |
| TaskEngine.ExpandReplacements | src/main/kotlin/tech/harmonysoft/oss/gradle/dist/BuildCustomGradleDistributionTask.kt:201-207 | returns `ExpandAll`; fails exactly when the replacements hold a cycle, and then with a cycle report; on success every replacement, and nothing else, has a finished value |
| TaskEngine.MutualCycle | src/main/kotlin/tech/harmonysoft/oss/gradle/dist/BuildCustomGradleDistributionTask.kt:210-224 | `A = $B$` and `B = $A$`, iterated `A` first, fail with the report `'A'`, `'B'`, `'A'` |
| TaskEngine.PrepareReplacements | src/main/kotlin/tech/harmonysoft/oss/gradle/dist/BuildCustomGradleDistributionTask.kt:146-156 | a property key shared with a utility file fails with the duplicate message; otherwise the result is `ExpandAll` of `properties + files`, fails exactly on a cycle, and on success covers the keys of both sources and is solved |
| TaskEngine.MergeKeysDisjointValues | src/main/kotlin/tech/harmonysoft/oss/gradle/dist/BuildCustomGradleDistributionTask.kt:155 | with no clash the merged keys are those of both sources |
| TaskEngine.ScriptContent | src/main/kotlin/tech/harmonysoft/oss/gradle/dist/BuildCustomGradleDistributionTask.kt:449-471 | an excluded script is written as it is, any other expanded against the finished replacements |
| TaskEngine.NestedResolution | src/main/kotlin/tech/harmonysoft/oss/gradle/dist/BuildCustomGradleDistributionTask.kt:227-233 | with `A = $B$x` and `B = v`, the finished value of `A` is `vx` |
| TaskEngine.OneLeadingPlaceholder | src/main/kotlin/tech/harmonysoft/oss/gradle/dist/BuildCustomGradleDistributionTask.kt:252-261 | `$B$x` against a map with `B = v` expands to `vx` |
| LegacyEngine.IncludeText | src/main/kotlin/tech/harmonysoft/oss/gradle/dist/CustomGradleDistributionPlugin.kt:401-405 | `<name>.gradle` is preferred, else `<name>.gradle.kts`, else there is no include |
| LegacyEngine.IncludedName | src/main/kotlin/tech/harmonysoft/oss/gradle/dist/CustomGradleDistributionPlugin.kt:401-405 | a name with an include file is one of the directory's include names |
| LegacyEngine.Push | src/main/kotlin/tech/harmonysoft/oss/gradle/dist/CustomGradleDistributionPlugin.kt:406 | pushing a new include name keeps the stack distinct and no deeper than the number of include names |
| LegacyEngine.LegacyCycleReport | src/main/kotlin/tech/harmonysoft/oss/gradle/dist/CustomGradleDistributionPlugin.kt:385-398 | the legacy report: the header and one label per name in progress and the repeated name, the first with the script's path and each later one with `<dir>/<previous name>.gradle`, linked by `\n  \|\n`; `BuildLegacyCycleMessage` is proved to build it |
| LegacyEngine.BuildLegacyCycleMessage | src/main/kotlin/tech/harmonysoft/oss/gradle/dist/CustomGradleDistributionPlugin.kt:385-398 | the `forEachIndexed` loop builds `LegacyCycleReport` |
| LegacyEngine.Resolve | src/main/kotlin/tech/harmonysoft/oss/gradle/dist/CustomGradleDistributionPlugin.kt:383-418 | the `withDefault` provider: a name in progress fails with `LegacyCycleReport`; a name without an include file gets nothing; otherwise the include's text is expanded with the name pushed; `IncludeResolver.ResolveName` is proved to compute it |
| LegacyEngine.Answers | src/main/kotlin/tech/harmonysoft/oss/gradle/dist/CustomGradleDistributionPlugin.kt:441-455 | on success there is one answer per key |
| LegacyEngine.ExpandInclude | src/main/kotlin/tech/harmonysoft/oss/gradle/dist/CustomGradleDistributionPlugin.kt:437-465 | the legacy scan loop: the answers for the text's placeholders spliced into it, or the first failure; `IncludeResolver.ExpandText` is proved to compute it |
| LegacyEngine.ApplyTemplates | src/main/kotlin/tech/harmonysoft/oss/gradle/dist/CustomGradleDistributionPlugin.kt:373-431 | `applyTemplates`: the script as it is without an include directory, else its expansion with nothing in progress; `ApplyTemplatesTo` is proved to compute it |
| LegacyEngine.NoIncludeDirectory | src/main/kotlin/tech/harmonysoft/oss/gradle/dist/CustomGradleDistributionPlugin.kt:375-380 | without an include directory the script is left as it is |
| LegacyEngine.AnswerAt | src/main/kotlin/tech/harmonysoft/oss/gradle/dist/CustomGradleDistributionPlugin.kt:443 | the `i`-th answer is what the provider returns for the `i`-th key |
| LegacyEngine.SameNameSameText | src/main/kotlin/tech/harmonysoft/oss/gradle/dist/CustomGradleDistributionPlugin.kt:383-418 | nothing is cached: every reference to a name with an include file is answered by expanding that file afresh from the same stack with the name pushed, so two references to one name get the same text |
| LegacyEngine.UnknownNames | src/main/kotlin/tech/harmonysoft/oss/gradle/dist/CustomGradleDistributionPlugin.kt:415-416 | names without an include file get no answer |
| LegacyEngine.NoIncludesUnchanged | src/main/kotlin/tech/harmonysoft/oss/gradle/dist/CustomGradleDistributionPlugin.kt:421-426 | a script whose placeholders name no include file comes back unchanged |
| LegacyEngine.MissingIncludeLeftAsIs | src/main/kotlin/tech/harmonysoft/oss/gradle/dist/CustomGradleDistributionPlugin.kt:444-447 | a placeholder whose name has no include file survives verbatim |
| LegacyEngine.ErrorAborts | src/main/kotlin/tech/harmonysoft/oss/gradle/dist/CustomGradleDistributionPlugin.kt:443 | the first failing include aborts the whole expansion with its error |
| LegacyEngine.SelfReference | src/main/kotlin/tech/harmonysoft/oss/gradle/dist/CustomGradleDistributionPlugin.kt:384-399 | `a.gradle` holding `$a$` is reported as `'a' (<script>)` then `'a' (<dir>/a.gradle)` |
| LegacyEngine.SelfReferenceExpands | src/main/kotlin/tech/harmonysoft/oss/gradle/dist/CustomGradleDistributionPlugin.kt:437-465 | `$a$` expands to the error its only name resolves to |
| LegacyEngine.SelfReferenceReport | src/main/kotlin/tech/harmonysoft/oss/gradle/dist/CustomGradleDistributionPlugin.kt:385-398 | the report for `a` on the stack `[a]` |
| LegacyEngine.IncludeResolver.constructor | src/main/kotlin/tech/harmonysoft/oss/gradle/dist/CustomGradleDistributionPlugin.kt:381-383 | a new resolver has an empty stack |
| LegacyEngine.IncludeResolver.ResolveName | src/main/kotlin/tech/harmonysoft/oss/gradle/dist/CustomGradleDistributionPlugin.kt:383-418 | the `withDefault` provider returns `Resolve` for the stack it started with, and leaves the stack as it was on success |
| LegacyEngine.IncludeResolver.Ask | src/main/kotlin/tech/harmonysoft/oss/gradle/dist/CustomGradleDistributionPlugin.kt:441-455 | the provider asked about every key returns `Answers`, and leaves the stack as it was on success |
| LegacyEngine.IncludeResolver.ExpandText | src/main/kotlin/tech/harmonysoft/oss/gradle/dist/CustomGradleDistributionPlugin.kt:437-465 | expanding a text returns `ExpandInclude`, and leaves the stack as it was on success |
| LegacyEngine.AnswersStep | src/main/kotlin/tech/harmonysoft/oss/gradle/dist/CustomGradleDistributionPlugin.kt:441-455 | the answers for `keys[i..]` are the answer for `keys[i]` followed by those for `keys[i + 1..]` |
| LegacyEngine.ApplyTemplatesTo | src/main/kotlin/tech/harmonysoft/oss/gradle/dist/CustomGradleDistributionPlugin.kt:373-431 | `applyTemplates` returns `ApplyTemplates` for a fresh resolver |
| LegacyEngine.LegacyScriptContent | src/main/kotlin/tech/harmonysoft/oss/gradle/dist/CustomGradleDistributionPlugin.kt:357-368 | an excluded script is written as it is, any other through `applyTemplates` |

## Left out

- File I/O is left out: reading scripts and utility files, temporary files, and writing or copying zip entries. Texts and directory listings are parameters.
- Parsing of `replacements.properties` is left out. The parsed key/value pairs, in iteration order, are a parameter.
- Downloading and caching the base distribution, deleting the output directory, Gradle task wiring and logging are left out. They have no effect on the expanded text.
- Canonical paths are given strings: the script's path, the include root's path and the path of each exclusion rule's root (`File(includeRootDir, rule).canonicalPath`). `..`, `.`, symbolic links and doubled separators are not resolved by the model.
- LegacyEngine.IncludeText: an include name is used as a file name as it is, so `$./a$` finds `a.gradle` in the source through `File`, but not in the model, whose include directory is keyed by plain file names.
- Layout.EntryPath: the entry is built as a string. The zip file system's `getPath` folding the doubled separator after `init.d/` is not modelled.
- Indentation.Indent: offsets count Kotlin `Char`s, which are UTF-16 code units. The model counts Dafny characters, so a character outside the Basic Multilingual Plane counts once instead of twice: for `"\n😀$B$"` the source gives indent 2 and the model 1.
- The order of `listFiles()` is an input. The file system decides it.
- The file name mapper of the current engine (`customDistributionFileNameMapper`) is a user-supplied function. Only the legacy engine's fixed archive name is modelled.
- LegacyEngine.IncludeResolver.ResolveName: after an error the stack is not popped, as in the source. The model only states that the old stack is a prefix of the new one, because the build aborts anyway.
- Integers are unbounded. The source's `Int` offsets cannot overflow for texts that fit in a JVM string.

## Behaviour of the code

Each of these follows from the code and is stated by the lemma named.

- A placeholder is the longest possible match: `\S+` is greedy, so `$a$b$` is one placeholder with key `a$b` (`Placeholder.GreedyExample`, `Placeholder.GreedyEndCorrect`).
- On the first line of a text the indent is one less than the placeholder's column, because `getIndent` never inspects index 0 (`Indentation.IndentVersusColumn`). `    $B$` with `B = x\ny` gives `    x\n   y` (`Expansion.FirstLineIndentExample`).
- The original text is returned whenever the assembled buffer is empty. That includes a text whose placeholders all resolve to empty values: `$a$` with `a` empty stays `$a$` (`Expansion.EmptyBufferQuirk`).
- Two utility files with the same key do not fail the build. The duplicate check compares property keys with utility-file keys only (`Replacements.DuplicateError`), and of several utility files with one key the last one listed wins (`Replacements.LoadFromFilesLastWins`).
- A legacy cycle report labels each later name with `<dir>/<previous name>.gradle`, also when the include that was read is `<previous name>.gradle.kts` (`LegacyEngine.LegacyCycleReport`, `LegacyEngine.SelfReference`).
- An exclusion rule is a string-prefix test on canonical paths, not a test on path components: the rule `a` also covers `ab/x.gradle` (`Layout.ExclusionIsStringPrefix`). The rule `.` excludes every script (`Layout.RootRuleExcludesAll`).
- The current engine fails exactly when the replacements name each other in a ring, and the report names such a ring (`TaskEngine.ExpandReplacements`, `ExpansionState.ReportedCycle`).
