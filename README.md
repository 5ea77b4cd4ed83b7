# haraka-plugin-log-reader, modelled in Dafny

This is a model of the Haraka log-reader plugin in `index.js`. The plugin serves
`/logs/:uuid`. For a transaction id it greps the mail log and turns the matching lines
into an HTML page that explains a karma rejection. The page holds:

- the karma rules that fired, looked up in the `[result_awards]` table of `karma.ini`;
- the steps to resolve them;
- the log lines, with syslog prefixes removed.

The model has nine modules, one file each:

| file | module(s) | what it holds |
|---|---|---|
| `wrappers.dfy` | `Wrappers` | `Option` |
| `text.dfy` | `Text` | character classes, maximal runs, `split`/`join` on one character |
| `patterns.dfy` | `Patterns` | the fixed regular expressions of `index.js` as scanners; leftmost-match `Search`, non-global `Replace` and `Test` |
| `transaction_id.dfy` | `TransactionId` | the id gate of `get_logs` and the `.N` suffix strip of `grepWithShell` |
| `rule_table.dfy` | `RuleTable` | the seven-field rule record; the first-whitespace collapse and pipe split of `load_karma_ini`; the merge into the table |
| `line_normaliser.dfy` | `LineNormaliser`, `LineNormaliserProperties` | the loop of `asHtml` over the lines (method `NormaliseLines` and the functions that specify it); the award-code extraction |
| `awards.dfy` | `Awards`, `AwardsProperties` | `sortByAward`; a stable sort; the lookups of `getAwards` and `getResolutions` and their list items; resolution de-duplication |
| `html.dfy` | `Html`, `HtmlProperties` | `htmlHead` as a constant; `htmlBody` and its optional sections |
| `log_reader.dfy` | `LogReader`, `LogReaderProperties` | class `Plugin` with its field `resultAwards`, and the methods `LoadKarma`, `GetAwards`, `GetResolutions`, `AsHtml`, `GetLogs` |

JavaScript values:

- A rule field that may be `undefined` is an `Option<string>`.
- String concatenation prints `None` as `undefined`.
- A field is truthy when it is defined and non-empty.
- `plugin.result_awards` is an `Option<Table>`. It is `None` until a karma.ini with a
  `[result_awards]` section has been loaded.
- Looking up a non-empty code while the table is undefined throws a `TypeError`. The model
  returns `None` for that request (predicate `Awards.Throws`).

The output of `grep --text key logfile` is the parameter `grep: string -> string` of
`GetLogs`. The model reads an award only when it is written as an integer,
`[+-]?[0-9]+`. It treats any other award as NaN (`None` in `Awards.AwardKey`), and
`sortByAward` then answers 0. This is a simplification: `parseFloat` also reads `2.5`,
` 3`, `3pt` and `1e2` as numbers (see "## Left out").

Three behaviours of the code that are easy to misread:

- Loading karma.ini merges into the existing table instead of replacing it (index.js:38-40).
- `sortByAward` sorts in ascending order of award, so the most negative award comes first
  (index.js:225-229).
- No search error is ever shown. The `'end'` listener of the grep stream passes no
  argument, so the `if (err)` branch at index.js:74 is dead; `GetLogs` has no such path.

## Model

| member | source | states |
|---|---|---|
| Text.Run | index.js:139-143 | the run of characters satisfying `p` from `i` is maximal: every character in it satisfies `p` and the next one does not |
| Text.JoinSplitOn | index.js:110 | joining the pieces of `split(sep)` with `sep` gives back the string |
| Text.SplitJoinOn | index.js:154 | splitting the `sep`-join of separator-free pieces gives back the pieces |
| Text.SplitOnPiecesLackSeparator | index.js:110 | no piece of `split(sep)` contains `sep` |
| Patterns.IdTokenAt | index.js:127 | finds `[` + 12-40 id characters + `] ` at a position exactly when that shape is there |
| Patterns.PidAtComplete | index.js:139 | `PidAt` finds ` haraka[` digits `]: ` whenever that shape is there |
| Patterns.PidShapeIsRun | index.js:139 | the pid digits are the maximal digit run, so at most one pid shape starts at a position |
| Patterns.HostAt | index.js:140 | a found host is a lower-case/`.`/`-` run followed by the haraka tag |
| Patterns.HostAtComplete | index.js:140-143 | when no host is found, no host run is followed by the tag |
| Patterns.FirstMatch | index.js:127-143 | the leftmost-match scan: the position found matches and no earlier one does; None means none matches |
| Patterns.Search | index.js:127-143 | `regex.exec`: the leftmost match position and its end; None when the pattern matches nowhere |
| Patterns.Replace | index.js:133-143 | non-global `replace`: when the pattern matches at `p` (ending at `e`) and at no earlier position, the result is `s[..p] + rep + s[e..]`; when it matches nowhere, `s` is unchanged |
| Patterns.SearchFinds | index.js:127-143 | the first matching position from `from` is what `Search` returns |
| Patterns.SpacedSearchFindsFirstId | index.js:127-134 | when the first `[id] ` token follows a space, the spaced pattern of line 127 finds that same token |
| Patterns.PidMarkerImpliesPrefix | index.js:139-140 | when the marker ` haraka[pid]: ` occurs, the prefix pattern of line 140 matches too |
| Patterns.NoPidMarkerImpliesPrefix | index.js:142-143 | when ` haraka: [` occurs, the prefix pattern of line 143 matches too |
| TransactionId.HasDash | index.js:64 | definition of `/-/.test(uuid)`: the id contains `-` |
| TransactionId.MatchesIdPattern | index.js:67 | definition of `/^[0-9A-F\-.]{12,40}$/.test(uuid)`: 12-40 characters, all from `0-9A-F.-` |
| TransactionId.IsValidId | index.js:64-69 | definition: both gate checks pass; `Plugin.GetLogs` states what the gate guards |
| TransactionId.TxnSuffixLength | index.js:87 | the `.N` suffix (1-2 digits) is found exactly when the id ends in one, and it has that length |
| TransactionId.TxnNumber | index.js:127-131 | the digits after the last `.`: 1-2 digits, with the id equal to its prefix + `.` + the digits |
| TransactionId.SearchKey | index.js:85-90 | the key is a prefix of the id, at most 3 characters shorter; it differs from the id exactly when the id ends in `.` plus 1-2 digits, and then it is the id without that suffix |
| TransactionId.SearchKeyNotIdempotent | index.js:87-90 | a valid id ending in `.1.2` loses only `.2`: one strip, not repeated |
| RuleTable.CollapseFirstSpace | index.js:42 | `replace(/\s+/, ' ')`: the first whitespace run becomes one space and the rest of the string is kept; a string without whitespace is unchanged |
| RuleTable.CollapseAt | index.js:42 | the collapse changes nothing exactly when the first run is one plain space |
| RuleTable.CollapseUnchanged | index.js:42 | the collapse changes nothing exactly when there is no whitespace or the first run is a single `' '` |
| RuleTable.FirstSpaceRunIsRuns | index.js:42 | there is exactly one first whitespace run: it starts after the leading non-space run |
| RuleTable.SplitOnPipes | index.js:43 | `split(/\s*\|\s*/)` yields at least one piece |
| RuleTable.PiecesTrimmed | index.js:43 | the `\s*` on both sides of the separator: for every string, no piece before the last ends in whitespace and no piece after the first starts with it |
| RuleTable.PiecesClean | index.js:43 | every split gives fields without pipes and without whitespace next to a pipe, and splitting their pipe-join again gives the same pieces |
| RuleTable.PiecesLackPipe | index.js:43 | no piece holds a `\|` |
| RuleTable.PieceCount | index.js:43 | there is one more piece than the string has pipes |
| RuleTable.SplitJoinPipes | index.js:43 | splitting the pipe-join of fields without pipes and without whitespace next to a pipe gives back the fields |
| RuleTable.SplitPaddedJoin | index.js:43 | the same fields joined with any whitespace on either side of each pipe (`geoip \| distance \|gt`) split back into exactly those fields, empty fields included |
| RuleTable.FromPieces | index.js:44-52 | definition: piece i goes to field i (`pi_name` to `resolution`), an absent piece is `undefined`, and `id` is unset; `ParseJoinedFields` states it for parsed rules |
| RuleTable.ParseRule | index.js:41-53 | the record has no `id`, and its `award` is defined exactly when there are at least five pieces |
| RuleTable.ParseJoinedFields | index.js:41-53 | for clean fields, field i of the record is the i-th piece for i < 7 and `undefined` when the piece is absent |
| RuleTable.ParsePaddedFields | index.js:41-53 | a rule string laid out as clean fields with whitespace around the pipes, whose first whitespace run (if any) is one space, loads as the record of those fields in order |
| RuleTable.Reload | index.js:37-54 | no section leaves the table as it was; otherwise the keys are the old keys plus the section's, every section key holds its parsed rule, and every other key keeps its old record |
| RuleTable.ReloadMerges | index.js:38-54 | a reload is the old table (empty if undefined) overridden by the parsed section |
| RuleTable.ParsedBy | index.js:40-54 | the parsed section has the section's keys, each holding the parse of its rule string |
| LineNormaliser.MonthDayLength | index.js:108 | the date stamp `Mmm d` / `Mmm  dd` is found exactly when the line starts with that shape, and it has that shape's length |
| LineNormaliser.StripMonthDay | index.js:135 | the line is its date stamp + a space + the result; unchanged when there is no stamp |
| LineNormaliser.TagOfId | index.js:128-131 | the replacement tag is empty or `[N] ` for 1-2 digits N |
| LineNormaliser.TagFor | index.js:127-131 | `replaceString`: empty when no ` [id] ` token occurs; for the leftmost such token, `[N] ` when its id ends in `.N` (N the 1-2 trailing digits) and empty otherwise |
| LineNormaliser.NormaliseLines | index.js:110-149 | the loop returns the concatenated raw log of all lines, the first date stamp and the last decision line, each as functions of the `\n`-split lines |
| LineNormaliser.TrimLine | index.js:133-143 | one line is rewritten as `NormaliseLine` says: id token, then date stamp, then host prefix |
| LineNormaliser.AppendLine | index.js:112-145 | an empty line adds nothing; any other adds its rewrite + `<br>` |
| LineNormaliser.NoteMonthDay | index.js:116-125 | the stamp is kept once found; before that, a non-empty line with a stamp sets it and any other line leaves it empty |
| LineNormaliser.NoteDecision | index.js:146-148 | a non-empty line containing `[karma` and `awards` becomes the decision line |
| LineNormaliser.PrefixStep | index.js:110-149 | one more line extends the three loop results exactly as one pass of the loop body does |
| LineNormaliser.AwardCodes | index.js:151-155 | no decision line gives no codes; every code is all digits; there are codes exactly when the decision line has a non-empty digit/comma run right after its first `awards: `, and then their comma-join is that run |
| LineNormaliserProperties.AwardCodesArePieces | index.js:151-155 | the codes are exactly `run.split(',')` for the digit/comma run after the first `awards: `, and none when that run is empty |
| LineNormaliser.NormaliseLine | index.js:133-143 | definition of `trimmed`: the id token rewrite, then the date stamp strip, then the host strip, in the code's order; `UntouchedLine` and `RewriteSpacedToken` state its effect |
| LineNormaliser.StripHost | index.js:138-143 | definition: the with-pid test picks the line-140 replace, else the without-pid test picks the line-143 replace; `PidMarkerImpliesPrefix` and `NoPidMarkerImpliesPrefix` show the chosen replace always finds a match |
| LineNormaliser.KeptAsDecision | index.js:112-148 | definition: a line becomes `lastKarmaLine` when it is non-empty and contains `[karma` and `awards`; `LastKarmaIsLastDecision` states the result |
| LineNormaliser.LastWhereIsLast | index.js:146-148 | the last line satisfying `keep` is found, and None means no line does |
| LineNormaliserProperties.MonthDayEmptyIffNoStamp | index.js:116-125 | `monthDay` stays empty exactly when no line has a date stamp |
| LineNormaliserProperties.MonthDayIsFirstStamp | index.js:116-125 | `monthDay` is the stamp of the first line that has one; lines without one do not stop the search |
| LineNormaliserProperties.LastKarmaIsLastDecision | index.js:146-148 | `lastKarmaLine` is the last line containing `[karma` and `awards`, and undefined when there is none |
| LineNormaliserProperties.DecisionLineNotEmpty | index.js:112-147 | a decision line is never empty, so skipping empty lines loses none |
| LineNormaliserProperties.RawLogsAppend | index.js:110-145 | the raw log of two runs of lines is the two raw logs joined, in input order |
| LineNormaliserProperties.RawLogsSingle | index.js:112-145 | one line contributes its rewrite + `<br>`, or nothing when it is empty |
| LineNormaliserProperties.UntouchedLine | index.js:133-145 | a line without id token, date stamp or haraka prefix is kept unchanged |
| LineNormaliserProperties.RewriteSpacedToken | index.js:127-134 | the first `[id] ` token, when preceded by a space, becomes `[N] ` for an id ending in `.N` and is deleted otherwise |
| Awards.CompareKeys | index.js:225-229 | the comparator returns -1, 0 or 1: negative exactly when the first award is smaller, positive exactly when it is larger, 0 when either is NaN |
| Awards.SortByAward | index.js:225-229 | `sortByAward` on two records orders them by their integer awards, ascending |
| Awards.AwardKey | index.js:226-227 | definition: the award's value when it is integer text, else NaN (`None`); see "## Left out" |
| Awards.AwardItem | index.js:194-200 | definition: `<li> award,  reason (value)</li>` when the reason is truthy, else `<li> award,  pi_name property value</li>`, with `undefined` printed for absent fields |
| Awards.ResolutionItem | index.js:220 | definition: `<li>` + resolution + `</li>` |
| Awards.Dedup | index.js:215-219 | the intended de-duplication; `DedupElements`, `DedupDistinct` and `DedupFirstOccurrenceOrder` state its properties |
| Awards.DedupAsWritten | index.js:215-219 | the de-duplication as written, which also skips prototype names; `PrototypeNameDropped` and `DedupAsWrittenAgrees` relate it to `Dedup` |
| Awards.KnownCodes | index.js:186-187 | a code is kept exactly when it occurs in the input, is non-empty and is in the table |
| Awards.RecordsOf | index.js:209-212 | one record per code, the table's record for that code |
| Awards.StampIds | index.js:188 | the keys are unchanged, and exactly the codes resolved get `id` set to themselves |
| Awards.AwardItemsOf | index.js:193-201 | one list item per record, in order |
| Awards.AwardItems | index.js:182-203 | the award list is undefined (the request throws) exactly when a non-empty code is looked up in an undefined table |
| Awards.Resolutions | index.js:217 | a text is listed exactly when some record has it as a truthy resolution; no listed text is empty |
| AwardsProperties.ResolutionsAppend | index.js:216-217 | the filter keeps input order: the resolutions of `a + b` are those of `a` followed by those of `b` |
| AwardsProperties.ResolutionsSingle | index.js:217 | one record gives its resolution when truthy, else nothing |
| AwardsProperties.KnownCodesAppend | index.js:186-187 | the codes kept keep input order: the codes of `a + b` are those of `a` followed by those of `b` |
| AwardsProperties.KnownCodesSingle | index.js:187 | one code is kept exactly when it is non-empty and in the table |
| AwardsProperties.ResolutionListAsWritten | index.js:215-219 | without prototype-named resolutions, the as-written de-duplication gives the corrected list |
| Awards.ResolutionItemsOf | index.js:220 | one `<li>` item per resolution, in order |
| Awards.ResolutionItems | index.js:205-223 | the resolution list is undefined exactly when a non-empty code is looked up in an undefined table |
| AwardsProperties.SortPermutes | index.js:193 | the sort is a permutation of the records |
| AwardsProperties.SortAscends | index.js:225-229 | for integer awards, the sorted records are in non-decreasing award order |
| AwardsProperties.SortIsStable | index.js:193 | records with equal awards keep their input order |
| AwardsProperties.SortKeepsRecords | index.js:216 | a record is in the sorted list exactly when it is in the input |
| AwardsProperties.SortByPermutes | index.js:193 | the generic stable sort is a permutation |
| AwardsProperties.SortByAscends | index.js:193 | the generic stable sort ascends by key |
| AwardsProperties.SortByIsStable | index.js:193 | the generic stable sort keeps the order of equal keys |
| AwardsProperties.KnownCodesCount | index.js:186-187 | each non-empty code in the table is kept as often as it occurs (duplicates kept); the others never |
| AwardsProperties.StampedRecordsOf | index.js:186-190 | the records pushed after stamping are the stored records with `id` set to their code |
| AwardsProperties.AwardRecordsAreKnownCodes | index.js:186-193 | every sorted award record is the stamped record of a resolved code |
| AwardsProperties.AwardRecordsCount | index.js:186-193 | the stamped record of a code occurs in the sorted list as often as the code is listed |
| AwardsProperties.AwardRecordsOrder | index.js:186-193 | the sorted award records ascend by award, and records of equal award keep their input order |
| AwardsProperties.DedupElements | index.js:215-221 | de-duplication keeps exactly the texts that occur |
| AwardsProperties.DedupDistinct | index.js:215-221 | no two kept resolution texts are equal |
| AwardsProperties.DedupFirstOccurrenceOrder | index.js:215-221 | the kept texts are in the order of their first occurrences |
| AwardsProperties.DedupAsWrittenAgrees | index.js:215-219 | the as-written dedup equals the intended one when no text names an `Object.prototype` member |
| AwardsProperties.PrototypeNameDropped | index.js:215-219 | the resolution `toString` is dropped as written, but kept by the intended dedup |
| AwardsProperties.AwardListEmptyIffNoKnownCode | index.js:182-201 | the joined award items are empty exactly when no code is resolved |
| AwardsProperties.ResolutionsEmpty | index.js:217 | no resolutions exactly when no record has a truthy resolution |
| AwardsProperties.ResolutionItemsEmpty | index.js:214-221 | the joined resolution items are empty exactly when there are no resolutions |
| AwardsProperties.KnownCodesSameKeys | index.js:210 | two tables with the same keys resolve the same codes |
| AwardsProperties.RecordsOfCodes | index.js:209-212 | the records pushed are exactly the table's records of the codes |
| AwardsProperties.ResolutionListEmptyIffNoResolution | index.js:205-223 | the joined resolution list is empty exactly when no resolved record has a truthy resolution |
| AwardsProperties.JoinedItemsEmpty | index.js:161-162 | a `join('')` of non-empty items is empty exactly when there are no items |
| Html.HtmlBody | index.js:244-268 | definition: the intro, the optional award and resolution sections, then the raw-log heading with the title; `AwardsSectionIffItems` and `ResolveSectionIffItems` state when each section is there |
| Html.Title | index.js:160 | definition: `for connection ${uuid} on ${monthDay}` |
| Html.Page | index.js:157-165 | definition: head + body + raw logs + the closing tags |
| HtmlProperties.AwardsSectionIffItems | index.js:252-255 | the body's "Policy Rules Matched" section is present, right after the intro, exactly when the award text is non-empty |
| HtmlProperties.ResolveSectionIffItems | index.js:257-260 | the "Steps to Resolve" section follows the award section exactly when the resolution text is non-empty |
| LogReader.Report | index.js:151-165 | definition of the page for a grep output: codes from the last decision line, the award text, the resolution text read from the stamped table, and the raw logs; None when a lookup throws; `Plugin.AsHtml` is proved to return it |
| LogReader.MergeSection | index.js:40-54 | the per-key loop leaves the old table overridden by every parsed rule of the section |
| LogReader.StampFrom | index.js:186-190 | the stamping loop throws exactly as `Throws` says; otherwise it pushes the stamped record of every resolved code in order and leaves the table stamped |
| LogReader.CollectFrom | index.js:209-212 | the collecting loop throws exactly as `Throws` says; otherwise it pushes the stored record of every resolved code in order |
| LogReader.AwardList | index.js:193-201 | each sorted record becomes its award item, in order |
| LogReader.ResolutionList | index.js:214-221 | each first occurrence of a truthy resolution becomes an item, in sorted order |
| LogReader.Plugin.constructor | index.js:9-13 | `register`: the table is what loading karma.ini into an undefined table gives |
| LogReader.Plugin.LoadKarma | index.js:32-55 | the new table is the reload (merge) of the old one with the section |
| LogReader.Plugin.StampAndCollect | index.js:186-190 | the records pushed are the stamped records of the resolved codes; the stored table is stamped |
| LogReader.Plugin.GetAwards | index.js:182-203 | the items are the award items of the sorted stamped records, and the stored table has `id` written into every resolved record |
| LogReader.Plugin.GetResolutions | index.js:205-223 | the items are the de-duplicated resolutions of the sorted records, and the table is not changed |
| LogReader.Plugin.AsHtml | index.js:103-166 | the page is the head, the body built from the decision line's codes and the raw logs; the table is stamped with those codes |
| LogReader.Plugin.GetLogs | index.js:61-80 | an id failing either gate check gets the Invalid Request page, with no search and no change; a valid id is searched with its search key and answered with the page for grep's output |
| LogReaderProperties.AwardTextIffKnownCode | index.js:161 | the award text handed to `htmlBody` is non-empty exactly when some code is resolved |
| LogReaderProperties.ResolutionTextIffResolution | index.js:162 | the resolution text handed to `htmlBody` is non-empty exactly when some resolved record has a truthy resolution; the `id`s written by `getAwards` do not change this |

## Left out

- Spawning `grep` and reading its stdout stream (index.js:92-100): the search output is the
  abstract parameter `grep` of `GetLogs`, so grep's own regex reading of the key is not modelled.
- HTTP routing, `res.send` and `get_rules` (index.js:15-19, 57-59, 65, 68, 77): `GetLogs`
  returns the page instead of sending it; `JSON.stringify` of the table is not modelled.
- Reading `log.reader.ini`, the log file path, and the configuration-change callbacks
  (index.js:21-30, 33-35): `LoadKarma` takes the parsed `[result_awards]` section as an
  argument (None when karma.ini has none).
- The logging calls for lines without a date stamp (index.js:122-123): side effects only.
- The `if (err)` branch of `get_logs` (index.js:74): it is unreachable, as said above.
- The commented-out `grepWithFs` (index.js:168-180): dead code.
- `htmlHead` (index.js:231-242) is an opaque constant string; the lemmas about sections are
  stated about `htmlBody`, not about the whole page.
- Strings are sequences of characters; JavaScript's UTF-16 code units, and regex
  character-class behaviour outside ASCII, are not distinguished.
- Awards.AwardKey: `parseFloat` is modelled for integer text only; decimals, exponents,
  trailing garbage and `Infinity` count as NaN, so records with such awards compare as equal.
- AwardsProperties.SortAscends: the ascending order is proved for records whose awards are
  all integers; with a NaN award, `sortByAward` is not a consistent comparator, and the
  order of `Array.prototype.sort` is then unspecified.
- Awards.Sort: `Array.prototype.sort` is a stable insertion sort function here, not the
  engine's own algorithm; only its result (a stable permutation) is relied on.
- LogReader.Plugin.LoadKarma: `Object.keys` order is abstracted by an arbitrary choice of the
  next key; no order is observable, because every key is written once.
- LogReader.Plugin.StampAndCollect: the loop runs on the table's value and writes the field
  once at the end. Nothing reads the table in between, so the end state is the same.
- LogReader.Plugin.GetLogs: a request that throws a `TypeError` (a code looked up while the
  table is undefined) yields `None`. In the code the exception is thrown inside the grep
  stream's `'end'` listener (index.js:98, then 76, then 161), after `get_logs` has returned.
  It is uncaught, so no answer is sent at all; the process-level effect is not modelled.
- Awards.ResolutionItems, LogReader.ResolutionList, LogReader.Plugin.GetResolutions,
  LogReader.Plugin.AsHtml and LogReader.Plugin.GetLogs use the corrected de-duplication
  `Awards.Dedup` (see "## Findings"). A truthy resolution whose text names an
  `Object.prototype` member, such as `toString`, is listed by the model but skipped by
  index.js:218. `AwardsProperties.ResolutionListAsWritten` proves that the two lists agree
  whenever no resolution has such a name.
- AwardsProperties.ResolutionListEmptyIffNoResolution: it is stated for the corrected list.
  As written, the list is also empty when every truthy resolution is a prototype name.
- LogReaderProperties.ResolutionTextIffResolution: the same restriction, for the resolution
  text handed to `htmlBody`.

## Findings

| source | as written | input that shows it | evidently intended | confidence | as-written member | corrected member |
|---|---|---|---|---|---|---|
| index.js:215-219 | `resolutionSeen` is a plain object `{}`, so `resolutionSeen[a.resolution]` is truthy for a text naming an inherited `Object.prototype` member | a rule whose resolution is `toString` (or `constructor`, `valueOf`, ...): it is never listed | every distinct truthy resolution is listed once | not executed | Awards.DedupAsWritten, AwardsProperties.PrototypeNameDropped | Awards.Dedup, AwardsProperties.DedupDistinct |

The rest of the model uses the corrected `Awards.Dedup`.
`AwardsProperties.DedupAsWrittenAgrees` shows that the two agree on every list without
such a name.
