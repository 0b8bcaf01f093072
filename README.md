# Scriptable-Logger in Dafny

A model of the core of `Logger.js`, the MidnightRocket/Scriptable-Logger module. It is a per-script logger for the Scriptable app that keeps its entries on the device's file system:

- The logger owns a directory named after its script.
- The directory holds one bucket per calendar day, named `yyyy-MM-dd`.
- A bucket holds a `logs` directory with one file per entry, named by the entry's ISO timestamp and tagged with its kind. It also holds `dump-…` files written by `dump`.
- On start-up, when today's `logs` directory already exists, the logger deletes the buckets at or before a retention cutoff.
- `exportLogs` copies the remaining days to an export destination. Each exported day gets its dumps and a `log.txt` with one line per entry.

The model covers:

- the bounded worker scheduler `createThreads`:
  - the round-robin partition onto lanes;
  - per-lane sequential execution, as a state machine whose caller picks the lane that advances next;
  - cancellation;
  - the round-robin merge of the lane results;
- the day-bucket keys and retention (`#parseDateAsNumber`, `#getCurrentLogs`, `#getOldLogs`, `trim`);
- the persistence rules of `#writeLog`, `log`, `warn`, `error`, `drop` and `dump`;
- the export rules:
  - `parseLogType` and the line format;
  - the `pathsToCopy` selection;
  - what an exported day holds and which days are skipped;
  - the non-interactive destination table and the first step of the interactive branch;
- the `"!"` / `" !"` label classification of `createAlert`.

The files:

- `wrappers.dfy`: `Option` and `Result`.
- `strings.dfy`: digits and `Number`/`String` on them, `startsWith`, `join`, the default string order of `sort`, and the sorted listing of a set of names.
- `threads.dfy`: `createThreads`. It holds the partition (`CreateLanes`, `Partition`), the merge loop (`CollectOutput`, `RoundRobin`) and their round trip. The class `Threads` holds the scheduler state: output chains, rejected lanes, the `cancelled` flag, cancel callbacks, the callbacks that fired, and the calls made to the work function.
- `daykeys.dfy`: parsing bucket names, current and old buckets, and the result of a trim.
- `entries.dfy`: the stored form of entries and dumps. It holds the collision-retry loop (`PickFresh`), the entry `#writeLog` stores, the `error` message, and extension normalisation and dump names.
- `export.dfy`: the pure export rules and the export loop `ExportEach`.
- `alerts.dfy`: `createAlert`.
- `logger.dfy`: the class `Logger`. The logger's directory is its field `root`. The class holds the constructor (which trims), `Trim`, `WriteLog`, `Log`, `Warn`, `Error`, `Drop`, `Dump`, `DoExport` and `ExportLogs`.

Where the environment comes in, the model takes it as a parameter:

- The clock readings `new Date().toISOString()` would return in turn are a sequence `stamps`. The caller promises that one of them is free, which is what makes the retry loop stop.
- A failure while writing an entry is an optional error, `writeError`.
- The timestamp formatting of an export (`reformatDate`) is a function `reformat`.
- The destination listing is `dest`.
- The result of `isDirectory` is a predicate `isDirectory`.
- Whether iCloud is available is an optional default path, `defaultPath`.

The merge loop of `createThreads` (`Logger.js:106-109`) stops at the first lane whose head is missing, `null` or `undefined`; it does not skip exhausted lanes. The model does the same (`Threads.RoundRobin`). `Threads.RoundRobinPartition` proves that it still gives back the results in input order, up to the first `null`/`undefined` result. When every item is dealt round-robin, the first exhausted lane is met only after every item has been taken.

## Model

| member | source | states |
|---|---|---|
| `Threads.CreateThreads` | Logger.js:47-91 | A lane count below 1 fails with the `RangeError` message, before any lane is set up or any work runs. Otherwise it gives a valid scheduler whose lanes are the partition and whose output chains all start empty, as from `Promise.resolve([])`. No lane has rejected. It has made no calls, registered and fired no callbacks, and has no failure. It is already fulfilled with `[]` on empty input. |
| `Threads.CreateLanes` | Logger.js:52-59 | The `forEach` with its wrapping `thread` counter builds exactly `Partition(items, threads)`. |
| `Threads.PartitionPlacesItem` | Logger.js:52-59 | Item `i` lands on lane `i mod threads`, at position `i div threads`. |
| `Threads.PartitionLaneContents` | Logger.js:52-59 | Position `k` of lane `j` holds item `j + k*threads`. So each lane keeps input order. There are `min(items, threads)` lanes, and the lane is not empty. |
| `Threads.PartitionLanesNonEmpty` | Logger.js:52-59 | There is one lane per item up to the lane count, `min(items, threads)` lanes in all, and none of them is empty. |
| `Threads.PartitionSnoc` | Logger.js:54-58 | One more input item has two cases. While there are fewer items than lanes it opens a new lane. Otherwise it is appended to lane `n mod threads`, and no other lane changes. |
| `Threads.CollectOutput` | Logger.js:102-115 | The `while`/`shift` loop yields `RoundRobin(result, 0)`. With no lanes, the `TypeError` is caught and the output is `[]`. |
| `Threads.TakeUntilNonePrefix` | Logger.js:106-109 | The merge's reference output is the longest run of present results at the front of the input. It is followed by a missing result or by the end of the input. |
| `Threads.RoundRobinPartition` | Logger.js:52-115 | Merging the partitioned results round-robin gives the results in input order, up to the first `null`/`undefined` one. Empty input gives `[]`. |
| `Threads.RoundRobinPartitionAllPresent` | Logger.js:102-115 | When no result is `null`/`undefined`, the merge returns every result, in input order. |
| `Threads.ChainsResolvedPush` | Logger.js:70-72 | Pushing a settled item's result onto its lane's chain keeps each chain equal to the results of its lane's first items. |
| `Threads.Threads.constructor` | Logger.js:52-63 | The lanes are the partition. Every output chain is empty. Nothing is cancelled, registered, fired or called. |
| `Threads.Threads.Cancel` | Logger.js:94-99 | Only the first call sets the flag and invokes the registered callbacks, in registration order. Later calls fire nothing, so cancel is idempotent. Nothing else changes. |
| `Threads.Threads.Advance` | Logger.js:65-119 | A lane with nothing left to run changes nothing. Two cases follow for a lane with an item left. Before cancellation the work function is called on the lane's next item and its cancel callback is registered; a resolution pushes the result onto that lane's chain; a rejection fails the run with its reason, after cancel has fired every registered callback. After cancellation the work function is not called and the item rejects with `"Cancelled"`. |
| `Threads.Threads.Outcome` | Logger.js:102-115 | Once every lane has finished, the run yields the results in input order, up to the first `null`/`undefined` one, whatever order the lanes advanced in. With every result present it yields all of them. A failed run yields its first rejection. |
| `Threads.Threads.OutputChainsArePartition` | Logger.js:85-91 | When every lane has finished without a rejection, the output chains are the partition of the results. |
| `Strings.DigitsValueAppend` | Logger.js:331 | The number read from concatenated digit groups is the left group's value shifted by the right group's length, plus the right group's value. |
| `Strings.NatToStringRoundTrip` | Logger.js:265 | Reading back the digits `String(n)` writes gives `n`. |
| `Strings.JoinSplitRoundTrip` | Logger.js:493 | Lines joined with a one-character separator that none of them contains are given back by cutting the result at that character. |
| `Strings.JoinAppend` | Logger.js:493 | Joining two non-empty groups of lines is joining their joins with one separator. |
| `Strings.LessIrreflexive` | Logger.js:475 | No name sorts strictly before itself. |
| `Strings.LessTransitive` | Logger.js:475 | The sort order is transitive. |
| `Strings.LessTotal` | Logger.js:475 | Any two distinct names are ordered one way or the other. |
| `Strings.LessAsymmetric` | Logger.js:475 | Two names are never ordered both ways. |
| `Strings.LeastExists` | Logger.js:475 | Every non-empty listing has a least name. |
| `Strings.Least` | Logger.js:475 | The chosen name is in the listing and before every other name of it. |
| `Strings.StrictlySortedUnique` | Logger.js:475 | Two strictly ascending sequences with the same names are equal, so sorting a listing has exactly one result. |
| `Strings.SortedListing` | Logger.js:475 | `listContents(logsDirectory).sort()` is strictly ascending and holds exactly the listed names. |
| `Strings.SortedListingSize` | Logger.js:475 | The sorted listing has exactly as many names as the directory. |
| `DayKeys.KeyDigits` | Logger.js:331 | The three groups of a matching name, joined, are all digits and two characters shorter than the name. |
| `DayKeys.PartsMatch` | Logger.js:331 | Two conditions make `y-m-d` match `^(\d{1,4})-(\d{2})-(\d{2})$`: a 1-4 digit year, and 2-digit month and day. Its groups, joined, are `y + m + d`. |
| `DayKeys.GroupsValue` | Logger.js:331 | `Number` of the joined groups is `year*10000 + month*100 + day`. |
| `DayKeys.ParseDateOfParts` | Logger.js:329-335 | A name built from a 1-4 digit year, a 2-digit month and a 2-digit day parses to `year*10000 + month*100 + day`. |
| `DayKeys.ParseDateShape` | Logger.js:329-335 | Conversely, every name that parses is such a year, month and day joined by dashes, with that value. |
| `DayKeys.ParseDateExample` | Logger.js:329-335 | `"2024-01-05"` parses to 20240105. |
| `DayKeys.ParseDateExamples` | Logger.js:329-335 | `"2024-01-01"`, `"2024-01-05"` and `"2024-01-10"` parse to 20240101, 20240105 and 20240110. |
| `DayKeys.ParseDateRejects` | Logger.js:329-335 | `"not-a-date"`, `"logs"` and `"2024-1-05"` give `null`. |
| `DayKeys.DaysPartition` | Logger.js:337-357 | The current names (`> oldestDayToKeep`) and the old names (`<= oldestDayToKeep`) are disjoint. Together they are exactly the parseable names. |
| `DayKeys.TrimmedKeeps` | Logger.js:360-366 | A bucket survives the trim if and only if it is unparseable or newer than the cutoff. What survives keeps its contents. |
| `DayKeys.TrimmedIdempotent` | Logger.js:360-366 | After a trim no old bucket is left, so a second trim with the same cutoff changes nothing. |
| `DayKeys.TrimExample` | Logger.js:348-366 | With cutoff 20240104, buckets 2024-01-05 and 2024-01-10 stay and 2024-01-01 goes. |
| `Entries.WriteTypesFor` | Logger.js:199 | `writeTypes` is `"dump"` followed by the requested kinds. A kind is in it if and only if it is `"dump"` or was requested. |
| `Entries.DefaultWriteTypesFor` | Logger.js:198-199 | With the default argument `["log", "warn", "error"]`, the logger persists exactly `dump`, `log`, `warn` and `error`, in that order. |
| `Entries.FirstFresh` | Logger.js:237-241 | The retry loop stops at the first candidate name not already present. Every earlier candidate was taken. |
| `Entries.FirstFreshUnique` | Logger.js:237-241 | Any index whose earlier candidates are all taken and whose own candidate is free is that first free one. |
| `Entries.PickFresh` | Logger.js:237-241 | The `while (fileExists(path))` loop returns the first free candidate. |
| `Entries.StoredEntry` | Logger.js:243-249 | The stored kind is the requested one or `"error"`. Without a write error the entry holds the message under the requested kind. With one, its kind is `"error"`, its text starts with `"Failed to write log:"`, and what follows that prefix is exactly the error's text. |
| `Entries.WithLogEffects` | Logger.js:232-245 | A write under a new name adds exactly that name to today's `logs`, creating the directory when needed. No other entry, file or bucket changes. |
| `Entries.WithFileEffects` | Logger.js:291 | Writing a file in today's bucket adds or replaces exactly that file. No other file, entry or bucket changes. |
| `Entries.WriteLogSpec` | Logger.js:232-249 | A kind outside `writeTypes` writes nothing. Otherwise exactly one entry is added, under a timestamp not already present. It gets the given kind and message. On the fallback path it gets kind `"error"`, and the error's text follows the fallback prefix. The only bucket that may be added is today's. No existing entry or file of today changes, and no other bucket changes. |
| `Entries.ErrorTextStructured` | Logger.js:263-269 | For a `line` of at least 1, a structured error is logged as `"Error on line " + (line-1) + ": " + message`, and the number in that text reads back as `line - 1`. Smaller lines print a negative number; `ErrorTextExample` shows line 0. |
| `Entries.ErrorTextExample` | Logger.js:263-269 | Line 10 with `"boom"` gives `"Error on line 9: boom"`. Line 0 gives `"Error on line -1: boom"`. Anything else is logged as it is. |
| `Entries.NormalizeExtension` | Logger.js:277-279 | The extension used is empty or starts with `"."`. |
| `Entries.NormalizeExtensionExamples` | Logger.js:277-279 | `"txt"` and `".txt"` both become `".txt"`, and `""` stays `""`. |
| `Entries.NormalizeExtensionIdempotent` | Logger.js:277-279 | Normalising twice is normalising once. It changes an extension if and only if the extension is non-empty and has no leading dot, and then only by adding the dot. |
| `Entries.DumpMessageNamesFile` | Logger.js:282-289 | The dump message starts with `"(dump-"`, and the file name read back out of it is the dump's file name. So both embed the same `"dump-" + date + ext`. |
| `Entries.DumpCandidates` | Logger.js:281-286 | The names the dump retry loop tries are `"dump-" + date + ext` for each clock reading in turn. Each starts with `"dump-"`, and two of them are equal if and only if their clock readings are. So a clock that moves on always offers a new name. |
| `Entries.DumpDefaults` | Logger.js:276-289 | The default extension `".txt"` is used as it is. The default empty message leaves only `"(" + fileName + "): "`. |
| `Entries.DumpNameIsDump` | Logger.js:282 | A dump's name starts with `"dump-"`, which is how export picks it up, and is never the `logs` directory. |
| `Export.LogTypeTable` | Logger.js:388-401 | Both rows of the label table cover exactly `log`, `warn`, `error` and `dump`. |
| `Export.ParseLogTypeKnown` | Logger.js:387-403 | Distinct known kinds get distinct labels, so a known kind's label reads back as that kind. |
| `Export.ParseLogTypeFallback` | Logger.js:402 | A missing kind prints as `"?"`, and a kind outside the table passes through unchanged. |
| `Export.ParseLogTypeExamples` | Logger.js:387-403 | `warn` gives `"W"`, `dump` with emoji gives the package emoji, `custom` stays `custom`, and a missing kind gives `"?"`. |
| `Export.LabelsHaveNoBracket` | Logger.js:388-401 | No label of a known kind contains `]`. |
| `Export.ExportLineRoundTrip` | Logger.js:461 | A line `ts[label]: content` whose label has no `]` splits back into its timestamp, label and content. |
| `Export.EntryLineRoundTrip` | Logger.js:453-461 | A known-kind entry's line splits back into its reformatted name, its label and its text. The label reads back as the entry's kind. |
| `Export.LogLinesRoundTrip` | Logger.js:453-493 | Each line of `log.txt` for an entry of a known kind splits back into the entry's reformatted name, its kind's label and its text, and that label gives the kind back. |
| `Export.LogLinesThroughLanes` | Logger.js:490-493 | Running `processLog` over the sorted names on two lanes and merging gives exactly those lines, in sorted order. |
| `Export.DumpIsExported` | Logger.js:282-291 | A file written by `dump` is among its bucket's exported dumps, with its content, beside the earlier dumps. `log.txt` is never a dump, so it cannot replace one. |
| `Export.DayExportContents` | Logger.js:471-497 | An exported day holds every dump under its own name with its content, and `log.txt`. `log.txt` holds the entry lines in strictly ascending name order, one per entry, joined with newlines. |
| `Export.DayExportLogText` | Logger.js:475-497 | Suppose no entry's reformatted name, kind or text holds a newline. Then `log.txt` of a day with entries cuts at its newlines into exactly one line per entry, the entries' lines in ascending name order. |
| `Export.DayExportSkipsAndFails` | Logger.js:471-510 | A day fails if and only if it has no `logs` directory, and the failure is that error. It is skipped if and only if it has neither entries nor dumps. |
| `Export.PathsToCopySpec` | Logger.js:527-531 | The selection is the current buckets not in the destination listing, plus today whenever today is current, even if already exported. |
| `Export.ExportedNone` | Logger.js:534 | Exporting no day leaves the destination as it was. |
| `Export.ExportedAddDay` | Logger.js:483-497 | Exporting one more day changes only that day's entry, writing its files over what was there. A skipped day changes nothing. |
| `Export.ExportSeqSet` | Logger.js:534 | Exporting distinct days one after another gives the same destination whatever the order. |
| `Export.ExportedIdempotent` | Logger.js:527-536 | A second export with no new writes in between selects a subset of the first selection. It leaves the destination exactly as the first left it. |
| `Export.ExportEach` | Logger.js:534 | The export loop fails if and only if some selected day fails, and then with that day's error. Otherwise it gives the destination with every selected day written in. |
| `Export.DestinationTable` | Logger.js:582-592 | Four cases. A given directory is used. The iCloud default is used only when no path is given. A given path that is not a directory is rejected, even when the default exists. With neither, the export is rejected. |
| `Export.InteractiveStartSpec` | Logger.js:551-568 | Outside the app the export is refused. An invalid path is refused as in the non-interactive case. With no path, the menu offers `"Select location"` first, and `"Use default location"` exactly when iCloud is available. |
| `Alerts.CreateAlertLabels` | Logger.js:30-45 | The labels of the alert's actions are exactly the labels it was given, in order, and every action can be written as a label. |
| `Alerts.CreateAlertFromActions` | Logger.js:30-45 | Any sequence of expressible actions is exactly what the alert shows when it is given those actions' labels. |
| `Alerts.ClassifyLabelFor` | Logger.js:36-42 | Every expressible action is recovered from its label. |
| `Alerts.LabelForClassify` | Logger.js:36-42 | Every label is the label of the action it yields, so labels and expressible actions correspond one to one. |
| `Alerts.UnreachableTitle` | Logger.js:38-39 | No label yields a normal action titled `" !…"`, because the escape removes only the space. |
| `Alerts.ClassifyExamples` | Logger.js:36-42 | `"!Delete All Logs"` is destructive, `" !Keep"` is a normal `"!Keep"`, and `"Export"` is a normal `"Export"`. |
| `LoggerModel.Logger.constructor` | Logger.js:198-215 | The fields hold the given name, day, kinds and cutoff. The directory is trimmed exactly when today's `logs` directory already exists. |
| `LoggerModel.Logger.DumpIsWritten` | Logger.js:182-199 | `"dump"` is always persisted, and comes first in `writeTypes`. |
| `LoggerModel.Logger.Trim` | Logger.js:360-366 | Removing the listed old buckets one at a time leaves exactly `Trimmed(root, oldestDayToKeep)`. |
| `LoggerModel.Logger.WriteLog` | Logger.js:218-251 | The directory becomes the one `WriteLogSpec` describes. It returns a name if and only if the kind is in `writeTypes`, and that name is the first free timestamp. |
| `LoggerModel.Logger.Log` | Logger.js:255-257 | `#writeLog` with kind `"log"`. |
| `LoggerModel.Logger.Warn` | Logger.js:259-261 | `#writeLog` with kind `"warn"`. |
| `LoggerModel.Logger.Error` | Logger.js:263-269 | `#writeLog` of the error's message with kind `"error"`. |
| `LoggerModel.Logger.Drop` | Logger.js:271-274 | Logs exactly as `error` does, then throws the same error. |
| `LoggerModel.Logger.Dump` | Logger.js:276-292 | Picks the first free dump name, logs the dump message naming it under kind `"dump"`, then writes the content to that file. |
| `LoggerModel.Logger.DumpEffects` | Logger.js:276-292 | A dump adds one new `dump-<date><ext>` file holding the content. It also adds one new entry, the one `#writeLog` stores: of kind `"dump"` with a message naming that same file, or, when that write fails, the fallback `"error"` entry. The file is written in both cases. Every earlier file and entry of today keeps its content. The only bucket that may be added is today's, and no other bucket changes. |
| `LoggerModel.Logger.DoExport` | Logger.js:406-537 | The export is rejected when some selected bucket has no `logs` directory. Otherwise it resolves with `path/name` and the destination with every selected day written into it. |
| `LoggerModel.Logger.ExportOutcomeContents` | Logger.js:471-531 | Three cases. A bucket not selected keeps what the destination had. A selected bucket with dumps or entries gets its export written over it. A selected empty bucket is skipped: it is in the result exactly when it was already in the destination, and then with the same contents. A bucket is selected if and only if it is current and is today or not yet exported. |
| `LoggerModel.Logger.ExportIdempotent` | Logger.js:527-531 | Exporting twice to the same place with no new writes in between gives the same result as exporting once. Past days are not copied again, and today is rewritten with the same contents. |
| `LoggerModel.Logger.ExportLogs` | Logger.js:582-592 | The non-interactive `exportLogs` is rejected with the decision table's message, or exports to the destination the table chooses. |

## Definitions

The functions that define the modelled behaviour, the source lines they follow, and the members above that state what they promise:

- `Threads.Partition`, `Threads.LaneFrom` (Logger.js:52-59): the lanes. Stated by `PartitionPlacesItem`, `PartitionLaneContents` and `PartitionSnoc`.
- `Threads.RoundRobin` (Logger.js:102-115): the merge. Stated by `CollectOutput` and `RoundRobinPartition`.
- `Threads.TakeUntilNone` (Logger.js:106-109): the merge's result on in-order lanes. Stated by `TakeUntilNonePrefix`.
- `Strings.DigitsValue`, `Strings.NatToString` (Logger.js:265, 331): `Number` and `String` on digits. Stated by `DigitsValueAppend` and `NatToStringRoundTrip`.
- `Strings.Join` (Logger.js:493) and its reference inverse `Strings.SplitOn`: stated by `JoinAppend` and `JoinSplitRoundTrip`.
- `Strings.Less`, `Strings.SortedListing` (Logger.js:475): the sort order. Stated by `LessIrreflexive`, `LessTransitive`, `LessTotal`, `LessAsymmetric`, `StrictlySortedUnique` and `SortedListingSize`.
- `DayKeys.ParseDate` (Logger.js:329-335): stated by `ParseDateOfParts`, `ParseDateShape` and `ParseDateRejects`.
- `DayKeys.CurrentDays`, `DayKeys.OldDays` (Logger.js:337-357): stated by `DaysPartition`.
- `DayKeys.Trimmed` (Logger.js:360-366): stated by `TrimmedKeeps` and `TrimmedIdempotent`.
- `Entries.StoredEntry`, `Entries.WithLog`, `Entries.AfterWriteLog` (Logger.js:218-251): stated by `WithLogEffects` and `WriteLogSpec`.
- `Entries.WithFile` (Logger.js:291): stated by `WithFileEffects`.
- `Entries.ErrorText` (Logger.js:263-269): stated by `ErrorTextStructured`.
- `Entries.DumpName`, `Entries.DumpMessage` (Logger.js:276-292): stated by `DumpMessageNamesFile`, `DumpNameIsDump` and `DumpCandidates`.
- `LoggerModel.Logger.AfterDumpName`, `LoggerModel.Logger.AfterDump` (Logger.js:276-292): stated by `DumpEffects`.
- `Export.ParseLogType` (Logger.js:387-403): stated by `ParseLogTypeKnown` and `ParseLogTypeFallback`.
- `Export.ExportLine`, `Export.EntryLine`, `Export.LogLines` (Logger.js:453-493): stated by `ExportLineRoundTrip`, `EntryLineRoundTrip`, `LogLinesRoundTrip` and `LogLinesThroughLanes`.
- `Export.Dumps` (Logger.js:471-473): stated by `DumpIsExported` and `DayExportContents`.
- `Export.DayExport` (Logger.js:409-516): stated by `DayExportContents`, `DayExportLogText` and `DayExportSkipsAndFails`.
- `Export.PathsToCopy` (Logger.js:527-531): stated by `PathsToCopySpec`.
- `Export.Exported` (Logger.js:483-497, 534): stated by `ExportedNone`, `ExportedAddDay`, `ExportSeqSet` and `ExportedIdempotent`.
- `Export.Destination` (Logger.js:582-592): stated by `DestinationTable`.
- `Export.InteractiveStart` (Logger.js:551-568): stated by `InteractiveStartSpec`.
- `Alerts.Classify`, `Alerts.CreateAlert` (Logger.js:30-45) and the reference inverse `Alerts.LabelFor`: stated by `ClassifyLabelFor`, `LabelForClassify`, `CreateAlertLabels` and `CreateAlertFromActions`.
- `LoggerModel.Logger.ExportOutcome` (Logger.js:406-537): stated by `DoExport`, `ExportOutcomeContents` and `ExportIdempotent`.

## Left out

- File system I/O: `FileManager`, iCloud and extended attributes are replaced by the map `root` and the export tree. `copy` is modelled as an overwrite. `joinPath` is modelled as `/` concatenation, only for the resolved export path. The `basePath`, `subPath`, `todayPath` and `logsPath` strings are not modelled; buckets are keys of `root`.
- Dates: `Date`, `toISOString`, `DateFormatter` and the arithmetic behind `oldestDayToKeep` (`Logger.js:207-208`). The day `today`, the cutoff, the clock readings and `reformatDate` are parameters. The `reformatDate` pattern `"yyyy-mm-dd HH:mm:ss"` puts minutes where the month evidently belongs. Since `reformat` is a parameter, this is not modelled.
- Promise timing:
  - The unawaited `log.txt` write (`Logger.js:492-497`).
  - `processDump` resolving before its cancelled check (`Logger.js:428-430`).
  - The nested `createThreads` calls inside a day. A day's own export is modelled as one step (`Export.DayExport`).
  - The order in which days finish.
- Partial writes: an export that fails leaves the destination days already written, and the model does not describe them. The scheduler itself is modelled step by step by `Threads.Threads`, but the export uses its proved result rather than stepping it.
- Console output and the console `Proxy` (`Logger.js:128-141`, `219-230`).
- UI and host flows: `Alert.presentAlert`, `#promptDeletion`, `deleteLogs`, `deleteAllLogs`, `reinitialize`, `manageLogs`, `Safari.open`, `DocumentPicker`, and the interactive branch past its first step. These are host interactions with no logic of their own beyond what is modelled.
- `LoggerModel.Logger.WriteLog`: requires that one of the supplied clock readings is free. The source's loop relies on the clock advancing.
- `LoggerModel.Logger.WriteLog`: the fallback write in the `catch` block (`Logger.js:246-249`) is itself unguarded. If it also fails, the exception escapes `log`, `warn`, `error`, `drop` and `dump`. The model always lets the fallback entry be written.
- Defaults of arguments not fixed by the core's own calls:
  - `daysToKeep = 7` (`Logger.js:198`): the cutoff derived from it is a parameter.
  - `threads = 2` of `createThreads` (`Logger.js:47`): every call in the core passes 2 explicitly.
  - `exportLogs(interactive = true, exportPath = undefined, emojify = false)` (`Logger.js:369`): `ExportLogs` models the non-interactive call, and `exportPath` and `emojify` are its arguments. The default interactive call is modelled only up to its first step (`InteractiveStart`).
- `LoggerModel.Logger.Dump`: the content write is assumed to succeed.
- `LoggerModel.Logger.DoExport`: a logger directory that does not exist is modelled as an empty `root`, so the model's export resolves with the destination unchanged. In the source, `#getCurrentLogs` lists the missing directory (`Logger.js:338`) and throws. That throw is inside the `async` executor (`Logger.js:518-537`), so the export promise never settles.
- `LoggerModel.Logger.Trim`: likewise, a missing logger directory is modelled as an empty one, so the model's trim changes nothing. A direct `trim()` in the source throws at `listContents` (`Logger.js:349`). The constructor only trims when today's `logs` directory exists, so this case arises only from a direct call.
- `Threads.Threads.Advance`: an item's work call and its settlement are one step, so a cancel never arrives while an item is still running. In the source, `promise.cancel` (`Logger.js:94-99`, `121`) fires the callbacks of running items. A callback that rejects, such as the day callback's `reject(error)` (`Logger.js:499-504`), settles its item with that reason instead of its work's outcome, and the run can fail with it. The model records fired callbacks in `fired`, but they do not change any outcome. Its run fails only with a work outcome or `"Cancelled"`.
- `LoggerModel.Logger.Error`: an argument that is `null` or `undefined` makes the source throw on `.line`. The model's `ErrorArg` has no such value.
- `Export.DayExport`: listing a missing `logs` directory is modelled as the error `MissingLogsDirectory`. The host's actual error text is not known.
- `Export.ParseLogType`: a kind that names an inherited property of a JavaScript object (such as `"constructor"`) would be looked up on the prototype. The model treats it like any other unknown kind.
- `Strings.Less`: JavaScript compares strings by UTF-16 code units. The model compares Dafny characters (code points). The two differ only for characters outside the Basic Multilingual Plane.
- `Alerts.CreateAlert`: `actions.flat()` is modelled on an already flat sequence.
