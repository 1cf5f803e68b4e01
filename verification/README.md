# license-checker, modelled in Dafny

license-checker audits the licences of a JavaScript project's dependencies. It
lists every dependency with its licence (from `yarn licenses ls --json`). It
compares that list with a file of known-good licences and fails the build when
something is not approved. In interactive mode it asks a human about each
unapproved licence and writes the approvals back to the file.

This project models the decision logic of that tool as pure Dafny functions
and proves what they guarantee:

- `seqs.dfy` (module `Seqs`): sequence vocabulary. It defines duplicate-free
  sequences, the subsequence order and first-occurrence deduplication.
- `deps.dfy` (module `Deps`): the shared entities. A dependency is a
  (project, licence) pair. A JavaScript `Map` keyed by project is an
  insertion-ordered sequence of pairs with distinct projects, with `get`,
  `set`, `delete` and repeated `set`. A JavaScript `Set` of licences is a
  duplicate-free sequence in insertion order. `process.exit` is an `Exit`
  value, returned together with whatever was written to the approval file.
- `report.dfy` (module `Report`): the reconciler `findUnapprovedLicenses` and
  the known-good set read from the file.
- `yarn.dfy` (module `Yarn`): the projection of yarn's JSON-lines output onto
  a project-to-licence map. It finds the first `table` record, locates the
  `Name` and `License` columns and folds the rows into a map. The same code
  appears a second time in `src/report.js`; it is modelled once.
- `interactive.dfy` (module `Interactive`): the question loop. It asks once
  per distinct licence. Then the accepted licences are merged into the
  known-good set, the set is persisted, and the run fails with status 3 when
  anything was rejected.
- `cli.dfy` (module `Cli`): mode selection from the command line, the
  non-interactive verdict, and the script that ties them together.
- `legacy.dfy` (module `Legacy`): the older single-file iteration. Its
  known-good file maps each project to a licence. It produces a three-way diff
  (added, wrong licence, removed) and runs a per-project question loop that
  has an accept-all answer.

Standard input is a scripted sequence of characters: each read contributes its
first character. Running yarn and `JSON.parse` are represented by their
results: a line of yarn output comes with the record parsed from it, or
`None` where parsing throws. The file contents read and written are values.

## Model

| member | source | states |
|---|---|---|
| Report.FindUnapprovedLicenses | src/report.js:13-30 | an entry is reported exactly when it is in the current map and its licence is not known to be good; the report keeps the current map's order |
| Report.UnapprovedCounts | src/report.js:17-27 | no deduplication: each unapproved entry is reported as often as it occurs in the current map, and an approved entry never is |
| Report.UnapprovedEmpty | src/report.js:15-29 | the report is empty exactly when every current licence is known to be good |
| Report.UnapprovedShape | src/report.js:15-29 | the report is never longer than the current map, and it keeps the map's one-entry-per-project shape |
| Report.UnapprovedOfConcat | src/report.js:17-27 | reconciling a concatenated map is reconciling each part and concatenating the reports, so order is preserved piecewise (the induction step is `Report.UnapprovedConcatSnoc`) |
| Report.NothingKnownReportsAll | test/report.test.js:6-22 | with an empty known-good set every current entry is reported, in order |
| Report.UnapprovedCompose | src/report.js:17-27 | reconciling against one set and then another equals reconciling once against their union |
| Report.MoreKnownGoodReportsLess | src/report.js:17-27 | a larger known-good set yields a subsequence of the report |
| Report.ReportScenarioNoneApproved | test/report.test.js:6-22 | {a: MIT, b: ISC} with nothing approved reports both pairs in insertion order |
| Report.ReportScenarioSharedLicense | src/report.js:17-27 | two projects on an approved licence vanish from the report and the third stays |
| Report.ReportScenarioNoDedup | src/report.js:17-27 | two projects sharing an unapproved licence give two report entries |
| Report.GetKnownGoodLicenses | src/report.js:33-35 | a missing file gives the empty set; otherwise the set is the file's licences with every repeat after the first occurrence removed |
| Deps.Lookup | check-licenses.js:89-91 | `Map.prototype.get` finds a licence exactly for the projects the map holds, and on a well-formed map it is that project's entry |
| Deps.MapSet | src/license-finders/yarn.js:21 | `Map.prototype.set` makes the key map to the new licence and leaves every other key alone; the keys become the old keys plus the new one, and a new key is appended at the end |
| Deps.MapSetInPlace | src/license-finders/yarn.js:21 | setting a key the map already holds replaces the entry at that key's first position and changes no other position |
| Deps.MapSetEntries | src/license-finders/yarn.js:21 | setting a key on a well-formed map replaces that key's entry and keeps one entry per project |
| Deps.MapSetOverwrite | src/license-finders/yarn.js:19-23 | setting a project again overwrites its licence in place, without a second entry |
| Deps.Delete | check-licenses.js:97 | `Map.prototype.delete` removes exactly the entry for the key and keeps the map well formed |
| Deps.DeleteInPlace | check-licenses.js:97 | deleting a held project removes the entry at its first position and keeps every other entry in order; deleting an absent project changes nothing |
| Deps.SetAllEntries | check-licenses.js:251-253 | setting every entry of a list into a map keeps it well formed; its entries come from the map or the list, and every entry of a one-per-project list ends up in it |
| Deps.SetAll | check-licenses.js:191 | setting every entry of a list into a map yields exactly the keys of both |
| Deps.SetAllFresh | check-licenses.js:251-253 | setting projects the map does not yet hold appends them in order |
| Deps.AddAll | src/interactive-mode.js:23 | adding licences to the insertion-ordered set keeps the old elements as a prefix, adds exactly the new licences without duplicates, and appends them in the order they are added |
| Deps.AddAllFirstOccurrence | src/interactive-mode.js:23 | on a duplicate-free set, the result is the old elements followed by the added licences, each kept at its first occurrence only |
| Yarn.TrimStart | src/license-finders/yarn.js:28 | what is dropped is leading whitespace, and what is kept is a suffix that starts with a non-whitespace character |
| Yarn.TrimEnd | src/license-finders/yarn.js:28 | what is dropped is trailing whitespace, and what is kept is a prefix that ends with a non-whitespace character |
| Yarn.BlankIffAllWhitespace | src/license-finders/yarn.js:28-30 | a line is skipped as blank exactly when every character of it is ECMAScript whitespace |
| Yarn.FindRawData | src/license-finders/yarn.js:26-39 | no table is found exactly when every line is blank or a non-table record; a parse failure names a line of the input that does not parse |
| Yarn.FirstTableWins | src/license-finders/yarn.js:27-35 | skippable lines before a line are ignored, the first line that is not skippable decides the result, and what follows it is never read |
| Yarn.NoTableGivesEmptyMap | src/license-finders/yarn.js:14-17 | with no table record the map is empty |
| Yarn.FieldToIndex | src/license-finders/yarn.js:48-56 | the result is -1 exactly when the field is absent, and otherwise the first position of the field |
| Yarn.ParseProjectAndLicense | src/license-finders/yarn.js:41-46 | an entry taken from a row consists of cells of that row (the column choice is stated by `Yarn.ParseColumns`) |
| Yarn.ParseColumns | src/license-finders/yarn.js:41-46 | a row yields an entry exactly when both columns exist and the row reaches them; the entry is the pair of cells under the first `Name` and the first `License` column |
| Yarn.FoldRows | src/license-finders/yarn.js:19-23 | the folded map holds one entry per project |
| Yarn.FoldLastRowWins | src/license-finders/yarn.js:19-23 | the map has a key exactly for the projects some row names, and the licence for a project is the one in the last row naming it |
| Yarn.ParseRawOutput | src/license-finders/yarn.js:13-24 | the result is a map with one entry per project, or a parse failure exactly when the scan hits a line that does not parse |
| Yarn.FirstTableGivesItsRows | src/license-finders/yarn.js:13-24 | the map is the fold of the rows of the first table record, whatever comes after it |
| Yarn.YarnTableExample | src/license-finders/yarn.js:19-23 | in yarn's column layout, a project listed twice keeps the position of its first row and takes the licence of its last row |
| Interactive.AskQuestion | src/interactive-mode.js:88-98 | y, n and q are taken as they are, and every other first character counts as ? |
| Interactive.InteractFrom | src/interactive-mode.js:51-83 | from any point on, a finished loop only ever adds to the accepted and rejected lists |
| Interactive.InteractFromDecided | src/interactive-mode.js:51-85 | from a state where every licence seen so far is decided exactly once, the loop ends in such a state for the whole list |
| Interactive.Interact | src/interactive-mode.js:42-86 | on completion every dependency's licence is accepted or rejected, nothing else is; the two lists are disjoint, free of duplicates, and in order of first occurrence |
| Interactive.DecidedLicenseNotAskedAgain | src/interactive-mode.js:54-57 | an entry whose licence is already decided costs no answer |
| Interactive.HelpAsksAgain | src/interactive-mode.js:75-81 | ? or an unrecognised answer asks about the same entry again |
| Interactive.AcceptAdvances | src/interactive-mode.js:65-67 | y records the licence as accepted and moves to the next entry |
| Interactive.RejectAdvances | src/interactive-mode.js:68-70 | n records the licence as rejected and moves to the next entry |
| Interactive.AbortEnds | src/interactive-mode.js:72-73 | q at any undecided entry ends the loop, whatever input follows |
| Interactive.AcceptEverything | src/interactive-mode.js:51-85 | answering y throughout takes exactly one answer per distinct licence and accepts the licences in order of first occurrence |
| Interactive.SharedLicenseAskedOnce | src/interactive-mode.js:54-57 | two projects on one licence: a single y approves both |
| Interactive.UnrecognisedAnswerReasks | src/interactive-mode.js:93-97 | an unrecognised answer and a ? are each followed by the same question |
| Interactive.InteractiveMode | src/interactive-mode.js:7-40 | nothing unapproved means nothing written; q writes nothing; the written set extends the old one by licences of unapproved entries only; success covers every unapproved licence; a failure is status 3, after writing, and leaves a rejected licence out |
| Interactive.InteractiveModeVerdict | src/interactive-mode.js:14-35 | q quits, a finished loop writes the old set extended by the accepted licences, and the run fails with status 3 exactly when something was rejected |
| Interactive.RejectOnlyLicense | src/interactive-mode.js:27-35 | rejecting the only unapproved licence fails with status 3 and writes the known-good set unchanged |
| Interactive.QuitOnFirstQuestion | src/interactive-mode.js:72-73 | q on the first question ends the run with status 0 and writes nothing |
| Cli.FindMode | src/check-licenses.js:32-45 | exactly one mode per command line: no user arguments checks, exactly `--interactive` asks, anything else is invalid |
| Cli.ModeOfUserArguments | src/check-licenses.js:32-45 | the same three cases, stated in terms of the arguments after the node binary and the script path |
| Cli.CheckLicenses | src/check-licenses.js:47-60 | the check fails with status 1 exactly when the unapproved list is non-empty |
| Cli.CheckFailsIffUnknownLicense | src/check-licenses.js:47-60 | the non-interactive check fails exactly when some current licence is not known to be good |
| Cli.CheckLicensesScript | src/check-licenses.js:11-30 | an invalid command line exits 2 and writes nothing; a check writes nothing and fails with status 1 exactly when some current licence is not in the known-good file; an interactive success leaves nothing unapproved, and an interactive failure is status 3 with something still unapproved |
| Cli.InteractiveOutcome | src/check-licenses.js:17-24 | after the question loop, success means the written known-good set approves every current licence, and failure means it does not |
| Cli.InvalidArgumentsDoNoWork | src/check-licenses.js:11-14 | with an invalid command line the outcome does not depend on the dependencies, the file or the input |
| Legacy.ReportFromAdded | check-licenses.js:88-100 | the report loop marks a current entry as added exactly when the known-good map has no entry for its project |
| Legacy.ReportFrom | check-licenses.js:88-111 | along the report loop the added and wrong-licence lists only grow (the classifications are stated by the three lemmas that follow) |
| Legacy.ReportFromWrong | check-licenses.js:88-106 | the report loop records a change exactly when the two maps give the project different licences |
| Legacy.ReportFromRemoved | check-licenses.js:94-97 | what the loop leaves of the known-good map is exactly the entries whose project is not current |
| Legacy.GenerateLicenseReport | check-licenses.js:76-114 | added entries are the current ones with unknown projects; wrong-licence records pair a current and a known-good licence that differ for one project; removed entries are the known-good ones no longer current |
| Legacy.ReportPartition | check-licenses.js:99-111 | a current project is never both added and wrong, and a project whose licence matches appears in neither |
| Legacy.CheckLicenses | check-licenses.js:32-74 | the intended verdict: status 1 exactly when something was added, removed or changed |
| Legacy.CheckLicensesAsWritten | check-licenses.js:37-72 | the verdict as written: status 1 exactly when something was added or changed, whatever was removed |
| Legacy.RemovedProjectSlipsThrough | check-licenses.js:48 | a known project that disappeared passes the verdict as written and fails the intended one |
| Legacy.EmptyReportMapsAgree | check-licenses.js:76-114 | an empty report means the two maps hold the same entries |
| Legacy.NonEmptyReportMapsDiffer | check-licenses.js:76-114 | a non-empty report names an entry that is in one map but not the other |
| Legacy.CheckPassesIffMapsAgree | check-licenses.js:32-114 | the intended check passes exactly when the current map and the known-good map hold the same entries |
| Legacy.ReadAnswer | check-licenses.js:237-240 | y, n, a and q are taken as they are, and every other first character counts as ? |
| Legacy.InteractFrom | check-licenses.js:230-266 | the input left when the loop ends is a suffix of the input (the suffix facts are `Legacy.SuffixOfTail`), and at most one character is taken per entry |
| Legacy.InteractFromMembers | check-licenses.js:230-265 | the loop records only entries from the list being asked about, besides those it started with, and keeps each map at one entry per project |
| Legacy.ExhaustedInputPassesOver | check-licenses.js:237-240 | with no input left, every read counts as ?, so the remaining entries are passed over and nothing is recorded |
| Legacy.Interact | check-licenses.js:224-268 | every recorded entry is one of the dependencies asked about, each map holds one entry per project, and at most one character of input is taken per entry |
| Legacy.AcceptAppends | check-licenses.js:243-245 | y records the entry under its project in the yes map |
| Legacy.RejectAppends | check-licenses.js:246-248 | n records the entry under its project in the no map |
| Legacy.AbortEnds | check-licenses.js:256-257 | q at any question ends the loop, whatever was answered before and whatever input follows |
| Legacy.SkipLeaves | check-licenses.js:238-264 | ? or any other unrecognised answer leaves both maps alone and moves on to the next entry |
| Legacy.AnswerEachEntry | check-licenses.js:230-264 | given at least one answer per entry and none of them a or q, exactly one answer is taken per entry, even for entries that share a licence, and y and n record exactly the entries answered that way, in order (the y and n steps go through `Legacy.AcceptRest` and `Legacy.RejectRest`) |
| Legacy.AcceptAllStops | check-licenses.js:250-254 | a ends the loop with every entry set into the yes map |
| Legacy.AcceptAllTakesEveryEntry | check-licenses.js:250-254 | a puts every entry in the yes map and leaves the no map as it was |
| Legacy.RejectThenAcceptAll | check-licenses.js:246-254 | n on the first entry followed by a accepts every entry and also keeps the rejection |
| Legacy.AcceptAllAfterReject | check-licenses.js:246-254 | the same on a three-project list |
| Legacy.ChangedEntries | check-licenses.js:198-200 | the second round asks about each changed project, in report order, under its current licence |
| Legacy.AskedEntriesAreNew | check-licenses.js:188-203 | both rounds of questions ask only about current entries that the known-good map lacks; the first round's projects are unknown to it and the second round's are known |
| Legacy.Round | check-licenses.js:188-208 | a round with nothing to ask takes no input and accepts nothing; otherwise it accepts only entries it asks about, one per project |
| Legacy.SavedInOrder | check-licenses.js:186-204 | setting the first round's accepted entries and then the second's into an empty map lists the first round's, then the second's, each in the order accepted |
| Legacy.InteractiveMode | check-licenses.js:184-222 | the run either saves or quits; q in either round quits without saving; otherwise the saved map is the first round's accepted entries followed by the second round's, one entry per project, all current entries the known-good map lacked |
| Legacy.QuitInSecondRound | check-licenses.js:197-257 | q as the first answer of the second round ends the run with status 0 and saves nothing, even after the first round accepted entries |
| Legacy.QuitOnFirstQuestion | check-licenses.js:256-257 | q as the first answer, when some new project is asked about, ends the run with status 0 and saves nothing |
| Legacy.KnownGoodNotCarriedOver | check-licenses.js:186-212 | an entry of the known-good map is never in the saved map: earlier approvals are not carried over |
| Legacy.CheckLicensesScript | check-licenses.js:6-16 | no arguments runs the intended check, which passes exactly when the maps agree, and writes nothing; `--interactive` runs the question rounds; anything else exits 2 and writes nothing |

## Left out

- Running `yarn licenses ls --json` is not modelled. The output lines are an input, and `JSON.parse` is a function parameter that yields `None` where parsing throws. A throwing line ends the parse with `ParseFailure`, where the program would crash.
- Reading the known-good file (`fs.readFileSync` with the ENOENT fallback in `src/report.js`, `require` in `check-licenses.js`) is not modelled. The parsed contents are an input. The same goes for writing the file and for `JSON.stringify`. The output is the written value.
- The older script loads the known-good file with `require`. That looks the name up among modules rather than in the working directory, and gives a plain object without `Map` methods. The model takes the known-good map as a well-formed `Map` instead.
- Reading `/dev/stdin` is modelled as a scripted sequence of characters, one per read. All `console.log` and prompt text is dropped.
- When the input is exhausted, the newer loop reads a NUL byte, takes it as ?, and asks the same question forever. The model ends that loop with `OutOfInput`, which the run reports as `Blocked`.
- `Yarn.FoldRows`: rows the program stores with `undefined` in them are dropped. Without a `Name` column, or with a row too short to reach it, the program stores the row under an `undefined` key. With `Name` reached but the `License` column missing or out of reach, it sets the project to `undefined`, overwriting any licence an earlier row gave it. The model drops such a row, so the earlier licence stays.
- `Yarn.ParseProjectAndLicense`: its own contract only states that both cells come from the row. The full property, which columns and when, is stated by `Yarn.ParseColumns`.
- `Interactive.InteractFrom`: its own contract only states that the two lists grow. The per-state invariant is stated by `Interactive.InteractFromDecided`.
- `Legacy.InteractFrom`: its own contract only states how much input it takes. What it records is stated by `Legacy.InteractFromMembers`, `Legacy.AnswerEachEntry` and the accept-all lemmas.
- `Legacy.ReportFrom`: its own contract only states that the lists grow. The three classifications are stated by `Legacy.ReportFromAdded`, `Legacy.ReportFromWrong` and `Legacy.ReportFromRemoved`.
- `src/check-licenses.js` imports a `generateReport` that `src/report.js` does not export. It passes the report object to `interactiveMode`, which expects the unapproved list and the known-good set, and it reads a `currentLicense` field. `Cli.CheckLicensesScript` wires the pieces as their own signatures require instead: reconcile, then check or ask. The second write of the approvals after `interactiveMode` returns is not modelled.
- `src/non-interactive-mode.js` is not part of this model. It only prints the list and exits 1 when the list is non-empty, which `Cli.CheckLicenses` covers.
- The test file is used as evidence only. Its third argument to `findUnapprovedLicenses` (approved projects) is ignored by the two-argument function and is not modelled.
- Purity of `findUnapprovedLicenses` needs no statement: Dafny functions are pure and cannot mutate their arguments.
- In the older report loop, a matching project is pushed onto `removed`. That push has no effect, because `removed` is reassigned after the loop; the model keeps only the final assignment.

## Findings

| source | as written | input that shows it | evidently intended | confidence | as-written member | corrected member |
|---|---|---|---|---|---|---|
| check-licenses.js:48, 111 | `report.removed` is reassigned to `knownGood.values()`, an iterator whose `length` is undefined, so the removed test never fires | known-good map {left-pad: MIT} with no current dependencies: the report has one removed entry and the check exits 0 | a removed project fails the check with status 1, like an added or changed one, as the message printed at line 49 announces | not executed; high | Legacy.CheckLicensesAsWritten (with Legacy.RemovedProjectSlipsThrough) | Legacy.CheckLicenses (with Legacy.CheckPassesIffMapsAgree) |
