# jntool core, modelled in Dafny

This project models the logic of the `jntool` command-line tool that manages
Helm chart values files and moves files by filter. It covers four parts.

- **The `@{KEY}` placeholder grammar** (`placeholder.dfy`). This is the
  regular expression `@\{([^}]+)\}` as Go's `regexp` scans it: leftmost
  matches, taken whole, with no overlap. It also covers the replacement
  callback of `helm apply-vars` and the capture groups `helm values`
  collects. The scanner is a function (`Scan`). The model proves it meets an
  independent description of a leftmost tokenization (`Tokenization`) and
  that it is the only sequence of pieces that does.
- **Backup naming** (`backup.dfy`, `decimal.dfy`). `apply-vars` writes
  `name.N.bak` at the first free number. `install` reads the backup with the
  largest number. Both are loops proved against specification functions, and
  the two rules are compared.
- **The `apply-vars`, `values` and `install` commands** (`applyvars.dfy`,
  `values.dfy`, `install.dfy`) as state changes of an abstract chart
  directory. `files.dfy` defines that directory: names to contents, plus the
  names that cannot be read or written, so a file that is missing or
  locked from the start fails the command the way Go does. Each command is a method whose result equals a specification
  function, and lemmas state what each outcome leaves behind:
  - what is written, and in which order;
  - what is left untouched on each error path;
  - the `install` cleanup that runs on every path.
- **`fileops move`** (`move.dfy`). It covers the selection filters, the
  rename, and the loops over entries and destination folders.

YAML and JSON decoding, YAML validity, YAML encoding and Helm itself are
outside the model. They enter as function-valued parameters (`Decoders`,
`Libraries`), so every property holds for any behaviour of those libraries.

Three behaviours of the code are worth knowing:

- `getNextBackupName` takes the first missing number, not the largest plus
  one: it probes `name.1.bak`, `name.2.bak`, … in turn. `findLatestBackup`
  takes the largest number. `Backup.GapExample` shows the two rules apart:
  with backups 1, 2 and 5, apply-vars writes 3 and install reads 5.
- An install without backups still restores the defaults, because the
  restore is deferred before the backups are looked up
  (`Install.InstallWithoutBackups`).
- An empty `values.yaml` decodes to a nil map. If `values-tag.yaml` is then
  non-empty, the merge loop writes into a nil map, which panics in Go. The
  model gives this case its own error outcome, `MergePanic`. The deferred
  restore runs during the unwinding, as it does in Go.

## Model

| member | source | states |
|---|---|---|
| Placeholder.FirstClose | jntool/helm/apply_vars.go:54 | the index found holds a `}` and no earlier character does; None means the text has no `}` |
| Placeholder.TokenAt | jntool/helm/apply_vars.go:54 | a match found at the front is a well-formed key (non-empty, no `}`) and the text starts with `@{key}` |
| Placeholder.TokenAtToken | jntool/helm/apply_vars.go:54 | `@{k}` followed by anything is matched, and its capture is exactly `k`, ending at the first `}` |
| Placeholder.EmptyBracesAreNotAToken | jntool/helm/apply_vars.go:54 | `@{}` starts no match, whatever follows |
| Placeholder.Scan | jntool/helm/apply_vars.go:62 | the pieces of the scan spell the input exactly |
| Placeholder.ScanIsTokenization | jntool/helm/apply_vars.go:62 | the scan meets the independent description: the pieces spell the input, every key is well formed, and no match could start where a character is copied |
| Placeholder.TokenizationIsUnique | jntool/helm/apply_vars.go:62 | any sequence of pieces meeting that description is the scan, so the leftmost non-overlapping reading is unique |
| Placeholder.CallbackKeyOfToken | jntool/helm/apply_vars.go:63 | trimming `@{` and `}` off a matched token recovers exactly the regex capture |
| Placeholder.Replacement | jntool/helm/apply_vars.go:63-67 | the callback returns its match or a value of the map; for a match `@{k}` it returns the value of `k` when `k` is defined and the match itself otherwise |
| Placeholder.Substitute | jntool/helm/apply_vars.go:62-68 | a text without `@` comes out unchanged |
| Placeholder.Matches | jntool/helm/values.go:66 | every capture `FindAllStringSubmatch` returns is a well-formed key: non-empty and free of `}` |
| Placeholder.Captures | jntool/helm/values.go:66 | there are no more captures than pieces |
| Placeholder.CapturesAreKeys | jntool/helm/values.go:66-72 | every collected key is non-empty and holds no `}` |
| Placeholder.RenderWithoutDefinedKeys | jntool/helm/apply_vars.go:62-68 | pieces whose keys are all undefined render as the text they cover |
| Placeholder.SubstituteWithoutDefinedKeys | jntool/helm/apply_vars.go:67 | when no key found is in the map, substitution returns the text unchanged, tokens byte for byte |
| Placeholder.SubstituteEmptyMap | jntool/helm/apply_vars.go:62-68 | an empty variable map leaves every text unchanged |
| Placeholder.SubstituteAtToken | jntool/helm/apply_vars.go:62-67 | a token at the front becomes its value when the key is defined and stays itself otherwise, delimiters included; scanning resumes right after it |
| Placeholder.ScanAtToken | jntool/helm/apply_vars.go:62 | a token at the front is one match and the scan continues after it |
| Placeholder.SubstituteAtChar | jntool/helm/apply_vars.go:62 | where no token starts, one character is copied and the scan moves on by one |
| Placeholder.ValuesAreNotRescanned | jntool/helm/apply_vars.go:62-66 | an inserted value that looks like a token is not replaced again |
| Placeholder.MatchesWithoutAt | jntool/helm/values.go:66 | text without `@` yields no keys |
| Placeholder.DefiningAllKeysCanLeaveTokens | jntool/helm/apply_vars.go:62-68 | defining every key of `@{a}{b}` can still leave a token: with `a` mapped to `@` the result is `@{b}`, which holds the key `b` |
| Decimal.Show | jntool/helm/apply_vars.go:116 | `%d` output is a non-empty digit string that starts with `0` only for zero |
| Decimal.Value | jntool/helm/install.go:132 | `Atoi` of a digit string is zero exactly when every digit is `0` |
| Decimal.ValueOfShow | jntool/helm/install.go:132 | reading back with `Atoi` what `%d` printed gives the number again |
| Decimal.ShowInjective | jntool/helm/apply_vars.go:116 | different numbers print differently |
| Files.Read | jntool/helm/apply_vars.go:58 | a read succeeds exactly for a present, readable name and returns its content |
| Files.Write | jntool/helm/apply_vars.go:75 | a write succeeds exactly for a writable name and sets only that name's content |
| Files.Copy | jntool/helm/apply_vars.go:96-111 | a copy succeeds exactly when the source reads and the target is writable, and then the target holds the source content |
| Backup.ParseSuffix | jntool/helm/install.go:124-132 | an entry is recognised only when it starts with the base name literally |
| Backup.ParseSuffixForm | jntool/helm/install.go:124-136 | an entry is recognised exactly when it is `base.<digits>.bak` with one or more digits, and the number read is the value of those digits, leading zeros included |
| Backup.ParseBackupName | jntool/helm/install.go:124-132 | every name apply-vars writes is recognised by install, with the same number |
| Backup.BackupNameInjective | jntool/helm/apply_vars.go:116 | different numbers give different backup names |
| Backup.ZeroPaddedBackup | jntool/helm/install.go:131-141 | `x.007.bak` is read as number 7 and reported under the name `x.7.bak` |
| Backup.TakenBound | jntool/helm/apply_vars.go:115-119 | the numbers in use from 1 upward are bounded by the directory size, so the probe loop ends |
| Backup.FreeIndexFrom | jntool/helm/apply_vars.go:115-119 | probing from `i`, with all earlier names present, finds a number at least `i` that is the first free one |
| Backup.FreeIndex | jntool/helm/apply_vars.go:114-121 | the number chosen is at least 1, its name is missing, and every lower number's name exists |
| Backup.FirstFreeUnique | jntool/helm/apply_vars.go:114-121 | only one number has that property |
| Backup.NextBackupName | jntool/helm/apply_vars.go:114-121 | the probe loop returns the first free name, which is not in the directory |
| Backup.LatestBackup | jntool/helm/install.go:123-142 | a failed lookup reports the missing backups of that base; a found name is a backup name of that base whose number is present in the listing |
| Backup.BackupNumbersAdd | jntool/helm/install.go:130-136 | adding an entry adds its number, if it carries one |
| Backup.MaxOf | jntool/helm/install.go:140-141 | the value taken after sorting is in the set and bounds every element |
| Backup.FindLatestBackup | jntool/helm/install.go:123-142 | the loop over the listing answers the specification, which depends only on the set of names and not on their order |
| Backup.LatestBackupFailsIffNone | jntool/helm/install.go:137-139 | lookup fails exactly when no entry has the form `base.<digits>.bak` |
| Backup.LatestBackupIsMax | jntool/helm/install.go:140-141 | on success the name carries a present number that no other present number exceeds |
| Backup.GapFreeIndex | jntool/helm/apply_vars.go:114-121 | with backups 1, 2 and 5 the next number written is 3 |
| Backup.GapLatest | jntool/helm/install.go:123-142 | with backups 1, 2 and 5 the backup read is number 5 |
| Backup.GapExample | jntool/helm/install.go:123-142 | the two rules disagree: with backups 1, 2 and 5, apply-vars writes 3 and install reads 5 |
| Backup.WrittenBackupIsLatestIff | jntool/helm/install.go:123-142 | the backup apply-vars just wrote is the one install picks exactly when no present backup has a larger number |
| Backup.FreeIndexOnlyReadsBackups | jntool/helm/apply_vars.go:114-121 | the number chosen depends only on which backup names exist |
| Values.CollectKeys | jntool/helm/values.go:68-73 | the map's keys are exactly the captures, each mapped to `""`, with repeats collapsed, so it is no larger than the list |
| Values.ExtractValues | jntool/helm/values.go:59-75 | fails exactly when the file cannot be read, with that error; otherwise the keys are exactly the keys of the same scan substitution uses, all values are `""`, every key is well formed, and the map is empty exactly when there is no token |
| Values.OutputFormat | jntool/helm/values.go:22-47 | an empty flag or `json` selects JSON, `yaml` selects YAML, and every other flag is an unsupported-format error naming it |
| Values.ValuesCommand | jntool/helm/values.go:20-48 | a read error comes first; then the command fails exactly for an unsupported format, and otherwise returns the format and the extracted keys, every one mapped to `""` |
| ApplyVars.SnapshotsStayFailed | jntool/helm/apply_vars.go:33-39 | after a failed snapshot copy the remaining copies are not attempted |
| ApplyVars.ProcessStaysFailed | jntool/helm/apply_vars.go:56-78 | after a failed target the remaining targets are not processed |
| ApplyVars.ApplyVarsSpec | jntool/helm/apply_vars.go:24-88 | the command never changes which names cannot be read or written |
| ApplyVars.ApplyVars | jntool/helm/apply_vars.go:24-88 | the step-by-step command ends in exactly the directory and outcome of the specification |
| ApplyVars.SnapshotsFrame | jntool/helm/apply_vars.go:33-40 | step 1 changes no name other than the snapshots and never changes which names fail |
| ApplyVars.TargetFrame | jntool/helm/apply_vars.go:56-77 | processing one target writes at most its next backup name |
| ApplyVars.NewBackupUnaffected | jntool/helm/apply_vars.go:114-121 | the next backup name of a file depends only on that file's backups |
| ApplyVars.SnapshotsTouch | jntool/helm/apply_vars.go:33-40 | the first `k` snapshot copies change no name outside their targets |
| ApplyVars.SnapshotsWritten | jntool/helm/apply_vars.go:33-40 | when step 1 passes, each `.default` holds the original content of its file |
| ApplyVars.SnapshotsFailure | jntool/helm/apply_vars.go:37-39 | a failed step 1 names the first pair whose copy failed, after the earlier copies were made |
| ApplyVars.ProcessFaults | jntool/helm/apply_vars.go:56-78 | step 3 never changes which names fail |
| ApplyVars.ProcessFrame | jntool/helm/apply_vars.go:56-78 | step 3 leaves every name that is not a backup of a processed target unchanged |
| ApplyVars.ProcessBeforeTarget | jntool/helm/apply_vars.go:56-78 | before a target is processed, its content and next backup name are still the original ones |
| ApplyVars.ProcessWritten | jntool/helm/apply_vars.go:56-78 | when step 3 passes, each target's next backup holds the substituted original, which is valid YAML |
| ApplyVars.ProcessFailure | jntool/helm/apply_vars.go:59-77 | a failed step 3 is the failure of the first failing target, after the earlier targets were written; an invalid-YAML error names that target |
| ApplyVars.BackupVarsFrame | jntool/helm/apply_vars.go:80-84 | step 4 writes only the next backup of `variables.json`, and on success it holds that file's content |
| ApplyVars.ApplyVarsFrame | jntool/helm/apply_vars.go:24-88 | the command writes only snapshot and backup names; the working files are never modified, whatever happens |
| ApplyVars.SnapshotsKeepNewBackup | jntool/helm/apply_vars.go:28-40 | step 1 does not change the next backup name of any managed file |
| ApplyVars.ProcessKeepsVars | jntool/helm/apply_vars.go:53-78 | step 3 leaves `variables.json`, its backups and its next backup name unchanged |
| ApplyVars.ApplyVarsPassSteps | jntool/helm/apply_vars.go:24-88 | a successful run passed the snapshots, read and decoded the variables, processed both targets, and ended with step 4 |
| ApplyVars.ApplyVarsSuccessSnapshots | jntool/helm/apply_vars.go:28-40 | after a successful run each `.default` holds its file's original content |
| ApplyVars.ApplyVarsSuccessTargets | jntool/helm/apply_vars.go:56-78 | after a successful run each values file's next backup holds its substituted original, which is valid YAML |
| ApplyVars.ApplyVarsSuccessVars | jntool/helm/apply_vars.go:80-84 | after a successful run the next backup of `variables.json` holds its content |
| ApplyVars.ApplyVarsBacksUpVarsLast | jntool/helm/apply_vars.go:80-84 | a failed run leaves every backup of `variables.json` unchanged |
| ApplyVars.ApplyVarsSnapshotFailure | jntool/helm/apply_vars.go:33-40 | when a snapshot copy fails nothing but snapshot names has changed |
| ApplyVars.ApplyVarsStopsAtInvalidYaml | jntool/helm/apply_vars.go:71-73 | an invalid-YAML failure names a target and writes no backup of it |
| ApplyVars.ProcessReadsTargets | jntool/helm/apply_vars.go:58-61 | when both values files can be read at the start, step 3 never fails to read one, since step 1 writes neither |
| ApplyVars.ApplyVarsRereadsSucceed | jntool/helm/apply_vars.go:44-61 | `read variables.json` and `read <target>` never fail: when step 1 passes it has already read those files, and nothing in the run changes them |
| Install.MergeValues | jntool/helm/install.go:62-64 | the merge panics exactly when the base is nil and the tag is not empty; otherwise the keys are the union, a tag entry wins, and a base-only entry is kept |
| Install.MergeIsUnion | jntool/helm/install.go:62-64 | those three facts make the result exactly the tag map laid over the base map |
| Install.ShallowMerge | jntool/helm/install.go:62-64 | merging `{image: {tag: 2.0}}` into `{image: {repo: nginx, tag: 1.0}}` gives `{image: {tag: 2.0}}`: a nested mapping in the tag replaces the base's whole mapping |
| Install.MergeExample | jntool/helm/install.go:62-64 | merging `{b:9,c:3}` into `{a:1,b:2}` gives `{a:1,b:9,c:3}`: keys of both files survive and the tag's value wins on a shared key |
| Install.RestoreUndoesSnapshots | jntool/helm/install.go:146-150 | the restore pairs are the apply-vars snapshot pairs reversed, in the same order |
| Install.RestoreDefaults | jntool/helm/install.go:145-154 | the loop attempts all three copies, ignores failures, and ends in the specified directory |
| Install.RestoredBetween | jntool/helm/install.go:151-153 | copies whose target is not `n` leave `n` unchanged and never change which names fail |
| Install.RestoreFrame | jntool/helm/install.go:145-154 | the restore changes only the three working files |
| Install.RestoreEffect | jntool/helm/install.go:151-153 | each working file ends with its snapshot's content when that copy can succeed, and is otherwise untouched, whatever the other copies do |
| Install.ListDir | jntool/helm/install.go:125 | the listing names exactly the files of the directory |
| Install.InstallSteps | jntool/helm/install.go:30-109 | the body never fails with `write merged values.yaml`: the backup copy has already written that name |
| Install.InstallBody | jntool/helm/install.go:25-112 | the steps up to the return end in exactly the directory and outcome of the specification |
| Install.Install | jntool/helm/install.go:22-113 | the command, with its deferred restore, ends in exactly the directory and outcome of the specification |
| Install.InstallWithoutBackups | jntool/helm/install.go:31-38 | install reports a missing backup exactly when a values file has no numbered backup, and the defaults are still restored |
| Install.MergeAndDeploy | jntool/helm/install.go:47-109 | merging and deploying writes only `values.yaml`, never changes which names fail, never reports a missing backup, and fails to write the merge only when `values.yaml` cannot be written |
| Install.InstallStepsFrame | jntool/helm/install.go:30-109 | the body writes only `values.yaml` and `values-tag.yaml` |
| Install.InstallFrame | jntool/helm/install.go:22-113 | install changes only the three working files and never changes which names fail |
| Install.InstallRestoresDefaults | jntool/helm/install.go:24 | when the snapshots read and the working files can be written, install ends with every working file equal to its `.default`, on every path |
| Install.ApplyVarsThenInstall | jntool/helm/install.go:145-154 | after a successful apply-vars, install returns the three working files to their contents before apply-vars |
| Install.MergeAndDeploySuccess | jntool/helm/install.go:47-109 | a successful deploy read two decodable documents, did not panic, marshalled their merge, and Helm accepted the merged map with a directory whose `values.yaml` holds that text |
| Install.InstallStepsSuccess | jntool/helm/install.go:30-44 | a successful body found both latest backups and continued from copies of them |
| Install.InstallSuccess | jntool/helm/install.go:22-113 | a successful install deployed the merge of the two latest backups, and Helm accepted it |
| Move.ToLower | jntool/fileops/move.go:48 | lower-casing keeps the length and lowers each character |
| Move.Ext | jntool/fileops/move.go:42 | the extension is a suffix of the name, starts with a dot, and holds no further dot or slash; it is empty only when every dot lies before a slash |
| Move.ExtMatch | jntool/fileops/move.go:40-46 | the loop with `break` answers: no extensions given, or the name's extension equals one of them up to case |
| Move.EqualFold | jntool/fileops/move.go:42 | two names are equal up to case exactly when they have the same length and agree letter by letter after lower-casing |
| Move.StrMatch | jntool/fileops/move.go:48 | an empty substring always matches, and a match needs a name at least as long |
| Move.StrMatchFolds | jntool/fileops/move.go:48 | a non-empty substring selects a name exactly when some window of the name equals it up to case |
| Move.Selects | jntool/fileops/move.go:34-55 | a selected entry is a file that matches one filter, and both under `and` |
| Move.ReplaceAll | jntool/fileops/move.go:62 | a replacement no longer than the pattern never lengthens the name, and one no shorter never shortens it |
| Move.NewName | jntool/fileops/move.go:60-63 | without the rename flag, or with an empty pattern, the name is kept |
| Move.MkdirAll | jntool/fileops/move.go:66 | creating a folder fails exactly when it cannot be created; otherwise the folder is added and nothing else changes |
| Move.MoveFile | jntool/fileops/move.go:92-112 | a move fails exactly for a missing source; otherwise the content arrives at the target and leaves the source, and no other file or folder changes |
| Move.ToDestsStayFailed | jntool/fileops/move.go:65-73 | after a failed destination the remaining ones are not attempted |
| Move.RunStepsStayFailed | jntool/fileops/move.go:33-73 | after a failed entry the remaining entries are not processed |
| Move.MoveToDests | jntool/fileops/move.go:65-73 | the destination loop ends in the specified tree and outcome |
| Move.EntryStep | jntool/fileops/move.go:34-63 | the filters and the rename choose the specified step for the entry |
| Move.MoveCommand | jntool/fileops/move.go:33-73 | the command over the listing ends in the specified tree and outcome |
| Move.DirectoriesNeverSelected | jntool/fileops/move.go:34-36 | a directory is never selected |
| Move.OneFilterSelectsAll | jntool/fileops/move.go:50-55 | under any condition but `and`, giving one filter only selects every file |
| Move.AndNeedsBoth | jntool/fileops/move.go:50-52 | under `and`, a file is selected exactly when both filters match |
| Move.OrNeedsEither | jntool/fileops/move.go:50-55 | under any condition other than `and` (the default is `or`), a file is selected exactly when at least one filter matches |
| Move.ExtWithoutDotNeverMatches | jntool/fileops/move.go:40-46 | an extension given without its dot never matches |
| Move.ExtOfSuffix | jntool/fileops/move.go:42 | a name ending in a dot and a suffix without dots or slashes has that suffix, dot included, as its extension |
| Move.ExtWithoutDot | jntool/fileops/move.go:42 | a name without a dot has no extension |
| Move.ExtMatchIgnoresCase | jntool/fileops/move.go:42 | `.pdf` selects `b.PDF` |
| Move.ExtMatchNeedsDot | jntool/fileops/move.go:40-46 | `pdf` does not select `b.pdf` |
| Move.SubstringIgnoresCase | jntool/fileops/move.go:48 | `doc` selects `a-DOC` |
| Move.ReplaceAllAbsent | jntool/fileops/move.go:60-63 | a name without the pattern is left as it is |
| Move.ReplaceAllSelf | jntool/fileops/move.go:60-63 | replacing a pattern by itself changes nothing |
| Move.ReplaceAllSplit | jntool/fileops/move.go:62 | when the first occurrence of the pattern follows the prefix `a`, the result is `a`, the replacement, then the replacement of the rest: the leftmost occurrence is replaced and the scan resumes after it |
| Move.ReplaceAllExamples | jntool/fileops/move.go:62 | occurrences are replaced left to right without overlap: `aaa` with `aa` to `b` gives `ba` |
| Move.NoDestinationsNoChange | jntool/fileops/move.go:65-73 | with no destination the command changes nothing and succeeds |
| Move.ToDestsKeepsContent | jntool/fileops/move.go:65-73 | the destination loop only moves existing content and never changes which folders cannot be created |
| Move.RunSteps | jntool/fileops/move.go:33-73 | the entry loop never changes which folders cannot be created |
| Move.RunKeepsContent | jntool/fileops/move.go:33-73 | the entry loop never invents content: every content afterwards was there before |
| Move.SecondDestinationFails | jntool/fileops/move.go:65-73 | with two or more destinations a file's second move fails, because the first move took it away |
| Move.RelocationFails | jntool/fileops/move.go:33-73 | once an entry is moved with two or more destinations, the command has failed |
| Move.MultipleDestinationsFail | jntool/fileops/move.go:33-73 | with two or more destinations, the first one not the source folder, any selected file makes the command fail |
| Move.OneDestinationStep | jntool/fileops/move.go:65-72 | with one creatable destination and an existing source, the file moves there |
| Move.SingleDestinationRun | jntool/fileops/move.go:33-73 | with one creatable destination, moves of distinct files all succeed and each lands under its new name |
| Move.SingleDestinationMovesAll | jntool/fileops/move.go:33-73 | with one creatable destination other than the source folder and distinct names, the command succeeds, and every selected file has left the source and a file is present under its new name |
| Move.SingleDestinationKeepsContent | jntool/fileops/move.go:33-73 | under the same conditions, when the selected files also get distinct new names, each one's new location holds the content it had in the source folder |

## Left out

- Move.ToLower: folds ASCII letters only. `strings.ToLower` also folds other Unicode letters.
- Move.EqualFold: folds ASCII letters only. `strings.EqualFold` also matches other Unicode letters under simple case folding.
- Decimal.Value: reads digit strings as unbounded naturals. `strconv.Atoi` fails when the number is out of range, and such a backup is skipped in Go but counted here.
- Backup.NextBackupName: a name counts as taken exactly when it is present. In Go, an `os.Stat` error other than "does not exist" also counts as taken.
- ReadVarsFailed, ReadTargetFailed, WriteMergedFailed: `read variables.json` (apply_vars.go:44-47), `read <target>` (apply_vars.go:58-61) and `write merged values.yaml` (install.go:74-76) can fail in Go only on an error outside the model: another process changing the directory during the run, a full disk or quota (the merged text can be larger than the backup just copied), or an I/O error. The model has none of these, so these outcomes cannot occur (`ApplyVars.ApplyVarsRereadsSucceed`, `Install.InstallSteps`).
- Install.InstallSteps, Move.MoveEntries: the directory listing cannot fail here. The `os.ReadDir` errors of `findLatestBackup` and `fileops move` are left out.
- Move.MoveFile: a move either happens whole or not at all. The rename-then-copy fallback can leave partial states (a copy without the removal), and these are not modelled.
- Files.Copy: a failed copy leaves the target untouched. A copy cut short in Go can leave a truncated target.
- Paths are names within one chart directory, or pairs of folder and name for `fileops move`. `filepath.Join` cleaning, symlinks and permissions are left out.
- YAML and JSON decoding, YAML validation, YAML encoding, and the Helm client (configuration, chart lookup and loading, install) are parameters. Helm's effects outside the chart directory are not modelled.
- The `values` command returns the `@{KEY}` keys of the file, each mapped to `""`, as `extractValues` (jntool/helm/values.go:59-75) computes them. The repository's tests (tests/helm_test.go:25-92) expect the command to echo the file's YAML mapping instead; the model follows the code, not the tests.
- The `values` command returns the chosen format and the key map. The encoding and printing are left out; encoding a map of strings to `""` cannot fail.
- Output printing, the cobra command and flag wiring, and the debug output of the merged values are left out.
- Two processes numbering backups at the same time are not modelled, since the tool has no concurrency of its own.
