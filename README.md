# pathy: a verified model of the path-list core

pathy is a command-line tool for inspecting and editing `PATH` and similar
colon-separated environment variables. A shell wrapper evaluates the
`export VAR=value` line that the editing commands write to file descriptor 3.
This project models the in-memory core of `pathy.go` in Dafny and proves what
that code promises.

The core covers:
- splitting the variable into raw entries;
- normalising one entry (Go's lexical `filepath.Clean`, then stripping trailing `/`);
- cleaning a list: normalise every entry and keep the first occurrence of each;
- joining a list back into a value, and the `export` line;
- the list transforms behind `put-first`, `put-last` and `rm`, with `rm`'s yes/no question;
- the `doctor` lint engine: its five rules, its two passes, its report and its count;
- the stable, case-insensitive sort and the sorted key listing;
- the name grouping behind `shadow`;
- the command dispatch.

Modules, one per file:
- `Strings` (strings.dfy). The parts of Go's `strings` and `fmt` the code relies on:
  - `Split` and `JoinWith` with one-character separators;
  - byte-order comparison `Less`;
  - ASCII `Lower` and `TrimSpace`;
  - decimal output `Decimal`.
- `FilePath` (filepath.dfy). `filepath.Clean` on Unix, written as Go documents it:
  - split at `/` and resolve the elements against a stack;
  - `""` becomes `"."`;
  - rooted paths keep one leading `/`;
  - it is proved idempotent.
- `PathList` (pathlist.dfy). `getRawPathList`, `cleanPathEntry`, `cleanPathList`,
  `quotedPathFromPathList` and `exportFromPathList`.
  - The functions `CleanEntry`, `CleanList` and `Join` say what the code computes.
  - The methods `CleanPathEntry`, `CleanPathList` and `QuotedPathFromPathList` keep
    the source's loops, with a seen-set and an accumulator, and are proved equal to
    those functions.
- `Answers` (answers.dfy). `confirm`:
  - `Classify` is the decision on one typed word;
  - `Confirm` is the re-prompting loop over the sequence of words the user types.
- `Edit` (edit.dfy). `setCleanPathList`, `cmdPutFirst`, `cmdPutLast` and `cmdRm`.
  - Each returns an `Outcome`: the line published on fd 3, the fatal error, or rm's
    "path is empty" notice.
- `Doctor` (doctor.dfy). The problem table and `cmdDoctor`.
  - `RunDoctor` returns the count, the lines printed and the list the second pass builds.
- `Ordering` (ordering.dfy). `sortInPlace` as an insertion sort on an `array`, plus
  `sortedPathList` and `sortedKeys`.
  - A stable sort by a key has a single correct result, so the insertion sort gives
    exactly what Go's `sort.SliceStable` gives.
- `Shadow` (shadow.dfy). The two map loops of `cmdShadow`.
- `Dispatch` (dispatch.dfy). `commandFuncByName` and `main`'s choice of command.

Parameters stand for what the core reads from the outside world:
- `env` is the variable's value, which the program reads with `os.Getenv`.
- `pathVar` is the variable's name (the `-V` flag).
- `args` are the command-line arguments after the command.
- `fd3IsPipe` says whether fd 3 is a pipe.
- `answers` is the sequence of words typed at the prompts. Once they run out, Go's
  `fmt.Scanln` leaves the word empty, and an empty word means "no".
- `keyMatches` is the command line's regular-expression filter (`someKeyMatches`).
- `listing` gives the names a directory's glob yields.

Three facts about the code that a reader might not expect:
- Entry normalisation is not idempotent: `cleanPathEntry("/")` is `""`, and cleaning
  `""` gives `"."`. `PathList.CleanEntryIdempotentUnlessRoot` proves that cleaning
  twice equals cleaning once exactly when `filepath.Clean` does not return the root.
  The root case is listed under Findings.
- Joining the raw entries gives back the value exactly when the value is empty or its
  first entry is non-blank (`PathList.RawJoinRoundTrip`). Blank entries further on
  survive a split and a join; leading blank entries are dropped
  (`PathList.JoinRoundTrip`).
- The `rm` branch that prints "Path is empty" can never run. The clean list of any
  value, even `""`, has at least one entry (`PathList.CleanRawListNonEmpty`).
  `Edit.Rm` still models that branch for an empty list.

## Model

| member | source | states |
|---|---|---|
| Strings.JoinSplit | pathy.go:239-241 | joining the pieces of `strings.Split` with the separator gives back the string |
| Strings.SplitJoin | pathy.go:239-241 | splitting a join of separator-free pieces (blank pieces included) gives back the pieces |
| Strings.DecimalRoundTrip | pathy.go:210-211 | the digits `%d` writes for a count read back as that count |
| Strings.TrimSpaceIgnoresSurroundingSpace | pathy.go:82 | white space around a word does not change what `strings.TrimSpace` makes of it |
| FilePath.CleanShape | pathy.go:244 | `filepath.Clean` never returns "" and ends in `/` only when it returns the root |
| FilePath.CleanIdempotent | pathy.go:244 | cleaning a cleaned path changes nothing |
| PathList.RawPathList | pathy.go:239-241 | the raw list is never empty, no entry contains `:`, and joining it with `:` gives back the value |
| PathList.CleanEntryShape | pathy.go:243-249 | the entry never ends in `/`; it is "" exactly when `filepath.Clean` gives the root, and otherwise it is `filepath.Clean`'s result |
| PathList.CleanPathEntry | pathy.go:243-249 | the trimming loop returns `CleanEntry` of its argument |
| PathList.CleanEntryEdgeCases | pathy.go:243-249 | "" becomes "." and "/" becomes the blank entry |
| PathList.CleanEntryIdempotentUnlessRoot | pathy.go:243-249 | normalising twice equals normalising once if and only if `filepath.Clean` does not return the root |
| PathList.Dedup | pathy.go:251-262 | first occurrences only: no duplicates, the same set of elements, never longer |
| PathList.DedupFirstOccurrenceOrder | pathy.go:254-260 | kept entries appear in the order of their first occurrence in the input |
| PathList.DedupOfDistinct | pathy.go:251-262 | a list without duplicates comes out unchanged |
| PathList.CleanListProperties | pathy.go:251-262 | the clean list has no duplicates, holds exactly the normalised input entries, and is never longer than the input |
| PathList.CleanPathList | pathy.go:251-262 | the loop with the seen-map returns the clean list, with the properties above |
| PathList.CleanRawListNonEmpty | pathy.go:264-266 | the clean list of any value, "" included, is never empty, so the "Path is empty" branch of `rm` never runs |
| PathList.DedupAppend | pathy.go:251-262 | deduplicating `a + b` gives `a` deduplicated, then the first occurrences of `b` that `a` lacks |
| PathList.CleanListOfConcat | pathy.go:488-494 | cleaning `front + back` gives the clean `front` unchanged, then the clean entries of `back` that `front` does not clean to |
| PathList.JoinIsJoinWithoutLeadingBlanks | pathy.go:268-278 | the accumulator loop's value is the `:`-join of the list once its leading blank entries are dropped |
| PathList.JoinRoundTrip | pathy.go:268-278 | splitting the joined value gives back the list without its leading blanks, or [""] when nothing is left, provided no entry contains `:` |
| PathList.RawJoinRoundTrip | pathy.go:268-278 | joining the raw entries gives back the value exactly when the value is empty or does not start with `:` |
| PathList.QuotedPathFromPathList | pathy.go:268-278 | the loop returns `Join` of the list, and the round trip above holds of its result |
| PathList.ExportFromPathList | pathy.go:280-282 | the line is `export `, the name, `=` and the joined value |
| PathList.RootBecomesBlank | pathy.go:243-249 | as written: "/" is cleaned to the blank entry; `["/usr/bin", "/"]` cleans to `["/usr/bin", ""]` and exports as `/usr/bin:` |
| PathList.CleanEntryKeepingRootProperties | pathy.go:243-249 | corrected: the entry is never blank, ends in `/` only when it is the root, and normalising it again changes nothing |
| Answers.ClassifyIgnoresCase | pathy.go:82-87 | the answer to a word does not depend on letter case |
| Answers.ClassifyIgnoresSurroundingSpace | pathy.go:82-87 | the answer to a word does not depend on surrounding white space |
| Answers.Decide | pathy.go:76-89 | the words left unread are a suffix of the words typed |
| Answers.DecideByFirstDecisive | pathy.go:78-88 | the first word that is neither yes nor no decides the answer, and reading stops after it; with no such word the answer is no |
| Answers.Confirm | pathy.go:76-89 | the prompt loop returns the answer and the unread words `Decide` gives |
| Edit.SetCleanPathList | pathy.go:284-288 | when fd 3 is not a pipe the run fails with "fd 3 is not a pipe"; otherwise the export line of the clean list is published |
| Edit.PutFirst | pathy.go:488-490 | publishes the clean arguments first, then the clean current entries they do not already name, in their order |
| Edit.PutLast | pathy.go:492-494 | publishes the clean current list unchanged, then only the clean arguments it lacks; entries already present keep their place |
| Edit.RmPass | pathy.go:496-515 | rm keeps at most as many entries as it is given, and the unread words are a suffix of the typed words; what it keeps and removes is stated by the lemmas below |
| Edit.RmPassMembers | pathy.go:503-508 | every kept entry comes from the list, and every entry the filter does not select is kept |
| Edit.RmPassNoDuplicates | pathy.go:496-515 | what rm keeps of a list without duplicates has none |
| Edit.RmPassDefaultKeeps | pathy.go:506 | when no typed word means yes, every entry is kept |
| Edit.RmPassRemoves | pathy.go:505-508 | in a list without duplicates, an entry is removed exactly when the filter selects it and the answer read for it, from the words earlier entries left unread, is yes |
| Edit.RmPassAllYes | pathy.go:505-508 | when every word typed means yes and there is one per entry, rm keeps exactly the entries the filter does not select, in order |
| Edit.Unselected | pathy.go:505 | an entry is among the unselected entries exactly when it is in the list and the filter does not select it |
| Edit.RmPassOrder | pathy.go:499-508 | the kept entries are the list with some entries left out and the rest in their order |
| Edit.Rm | pathy.go:496-515 | an empty list gives the "path is empty" notice; otherwise rm publishes the clean list of the entries it kept, or fails when fd 3 is not a pipe |
| Edit.CleanListOfStableEntries | pathy.go:510 | re-cleaning a duplicate-free list of already normalised entries changes nothing |
| Doctor.ApplyRule | pathy.go:124-146 | no rule replaces an entry by anything but itself or "", and no rule fixes what it does not find |
| Doctor.RuleVerdicts | pathy.go:124-146 | `noFix` and `fixCwdNotLast` never report; `fixBlankEntry` reports and fixes exactly "" and replaces it by ""; `fixCwd` reports exactly "."; `fixRelative` reports exactly non-blank entries other than "." that do not start with `/` |
| Doctor.DiagnoseEntry | pathy.go:186-208 | the inner loop counts the findings, prints the header once before the first finding, and appends what each rule leaves |
| Doctor.OneFindingUnlessAbsolute | pathy.go:148-164 | exactly one rule reports an entry that is not absolute, and none reports an absolute one |
| Doctor.HeaderAtMostOnce | pathy.go:193-196 | an entry's header is printed once, followed by its single finding, exactly when the entry is not absolute |
| Doctor.ContributionRepeats | pathy.go:203-207 | as written: the second pass appends five copies of a non-blank entry and four blanks for a blank entry |
| Doctor.DuplicatePass | pathy.go:169-184 | the first loop counts the entries equal to an earlier entry and prints a header and "* Duplicate entry in path" for each |
| Doctor.RulePass | pathy.go:185-209 | the second loop totals the rule findings, prints each entry's lines, and builds the new list |
| Doctor.RunDoctor | pathy.go:166-217 | the total is the duplicates plus the rule findings; the report is the two passes' lines and then the summary for that total |
| Doctor.DuplicateCountIsDedupGap | pathy.go:169-177 | the number of duplicates reported is the input length less the length of its first-occurrence list |
| Doctor.DoctorTotal | pathy.go:166-209 | doctor's total is the number of repeated entries plus the number of entries that are not absolute paths |
| Doctor.SummaryDeterminesCount | pathy.go:210-216 | two totals with the same summary line are equal |
| Doctor.NewPathListShape | pathy.go:203-207 | as written: the built list holds only input entries and is five times the input length, less one per blank entry |
| Doctor.FixesOnlyBlank | pathy.go:148-164 | among the first `k` rules of the table, only the blank-entry rule, the second, fixes anything, and it fixes exactly a blank entry |
| Doctor.NetFixDropsOnlyBlank | pathy.go:203-207 | corrected: each entry contributes at most once, and only blank entries are dropped |
| Doctor.FixedPathListIsNonBlank | pathy.go:203-207 | corrected: the new list is the input without its blank entries, in order, never longer |
| Ordering.StableSortPermutes | pathy.go:91-98 | the sorted list is a permutation of the input |
| Ordering.StableSortSorted | pathy.go:91-98 | the sorted list is in ascending order of keys |
| Ordering.StableSortStable | pathy.go:91-98 | for every key, the elements with that key keep their input order |
| Ordering.InsertAt | pathy.go:91-98 | one insertion step puts the next element into the sorted prefix and leaves the rest of the array alone |
| Ordering.SortInPlace | pathy.go:91-98 | the array afterwards holds the stable sort by the key of what it held before |
| Ordering.SortedPathList | pathy.go:100-105 | the copy is sorted stably by lower-cased entry and is a permutation of the argument |
| Ordering.SortedKeys | pathy.go:107-116 | every key of the set is listed exactly once, in strictly ascending order |
| Shadow.GroupsAreDirsWith | pathy.go:374-383 | the map records, for every selected name, every directory that holds it, in list order |
| Shadow.DirsWithHold | pathy.go:374-383 | every directory recorded for a name is in the list and holds the name |
| Shadow.ShadowedNames | pathy.go:372-389 | a name is kept exactly when the filter selects it and at least two places hold it, and its directories are those places |
| Shadow.ShadowGroups | pathy.go:372-389 | the two loops build the name map and delete every name held by fewer than two places |
| Dispatch.Lookup | pathy.go:604-608 | the table search finds nothing exactly when no entry has the name, and otherwise returns the command of an entry with that name |
| Dispatch.LookupFirst | pathy.go:604-608 | the first entry with the name decides |
| Dispatch.TableNames | pathy.go:549-580 | every table entry is named by its command's own name, no two entries share a name, and neither "complete" nor "help" is in the table |
| Dispatch.CommandByNameRoundTrip | pathy.go:598-611 | every command, "complete" and "help" included, is selected by its own name |
| Dispatch.UnknownNameRunsHelp | pathy.go:598-611 | a name that is neither "complete", "help" nor in the table selects help |
| Dispatch.HelpOnlyWhenUnknown | pathy.go:598-611 | help is selected only for "help" and for names the table does not have |
| Dispatch.Dispatch | pathy.go:613-622 | with no argument, help runs |

## Left out

- Strings.Lower: ASCII letters only. `strings.ToLower` also lowers non-ASCII letters, but no non-ASCII letter lowers to a word `confirm` accepts, so `Answers.Classify` decides every word as Go does. The sort key of `sortedPathList` differs from Go's for non-ASCII letters.
- Strings.Less compares code points. Go compares UTF-8 bytes, which gives the same order for valid strings.
- File descriptor 3: `writeToFd3`'s `fstat` and write are reduced to the `fd3IsPipe` parameter. Its other failures are not modelled: fd 3 not open, a `Stat` error, a write error.
- `getRawPathList` reads the variable with `os.Getenv`; here the value is the parameter `env`.
- `someKeyMatches` (the `regexp` filter over the command line) is the uninterpreted parameter `keyMatches`.
- Directory reads are the parameter `listing`. This covers `filepath.Glob` in `cmdShadow` and Go's `path.Base`.
- `cmdShadow` prints the kept groups in Go's map iteration order, which is random. Only the map is modelled, not the printed order.
- Printing-only commands are not modelled beyond the list logic above: `cmdLs` (`os.Stat` and colour), `cmdLsNames`, `cmdLsFiles`, `cmdWhich` (`os.Lstat`), `cmdExport` (prints `ExportFromPathList` of the clean list), `cmdVersion`, `cmdHelp`, and `cmdComplete`'s completion output.
- `cmdEdit`, `cmdRunFiles` and `cmdActivate` start subprocesses, create temporary files or print constant shell text.
- The `KnownPathVars` table is unused by the core.
- Flag parsing is not modelled; `Dispatch.Dispatch` takes the remaining arguments.
- The empty stubs `clean`, `listStyleProblems` and `listSecurityProblems` do nothing.
- The prompt text that `confirm` and `cmdRm` print is not part of the model.
- `rm`'s "Path is empty" goes to stderr through Go's built-in `print`; `Edit.Rm` returns it as an outcome.
- `log.Fatal`'s exit status is not modelled.
- The C and Lua sources are not part of this model.
- Doctor's second pass builds `newPathList` but never uses it. The model returns it, as written, so its repetition can be stated.

## Findings

| source | as written | input that shows it | evidently intended | confidence | as-written member | corrected member |
|---|---|---|---|---|---|---|
| pathy.go:245-247 | the loop strips every trailing `/` from the cleaned entry; `filepath.Clean` only leaves one on the root, so the loop's only effect is to turn "/" into the blank entry, which the shell reads as the current directory (and which `doctor` itself reports as a security problem) | `put-last /` on `PATH=/usr/bin` publishes `export PATH=/usr/bin:` | keep the root as "/" and strip only the slashes `filepath.Clean` leaves | high, not executed | PathList.RootBecomesBlank | PathList.CleanEntryKeepingRootProperties |
| pathy.go:203-207 | the append of the entry or its replacement sits inside the loop over the five rules, so every entry is appended once per rule that did not fix it | raw list `["/usr/bin"]` gives a new list of five copies of "/usr/bin"; `[""]` gives four blank entries although the blank rule dropped it | one net change per entry: dropped when a fix blanks it, replaced when one rule fixes it, otherwise kept once | high, not executed (the list is never used, so no output shows it) | Doctor.ContributionRepeats | Doctor.FixedPathListIsNonBlank |
