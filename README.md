# sistema-os in Dafny

A model of the core of *sistema-os*, a desktop application that a repair shop uses to
issue and track work orders ("O.S."). The model covers the following parts:
- **The record store** `{ ultimo_numero, historico }` and the renderer hook that creates,
  edits, deletes and reconciles work orders, including the text that summarises the cables
  left with the equipment.
- **The database file** and its anti-wipe guard and atomic save.
- **The recovery scan**, which rebuilds work orders from the Word documents in the output
  folder.
- **The document generator**: id validation, deterministic file name, render data, and
  removal of older documents of the same order.
- **The main process's own handlers**: an older scan with an anchored id pattern and a
  window of the last 100 documents, the id-to-file lookup, and a save without the guard.
  The main process wires these handlers itself and does not call the database or scan
  services.
- **The phone and currency input masks.**
- **The CSV report.**
- **The database backups** and their retention of the fifty latest.

One module per source file:

| module | source |
|---|---|
| `Types` | `src/types.ts` (work order, store, the store invariant, the sort by id) |
| `OSSystem` | `src/hooks/useOSSystem.ts` |
| `DatabaseService` | `electron/services/DatabaseService.ts` |
| `ScanService` | `electron/services/ScanService.ts` |
| `WordService` | `electron/services/WordService.ts` |
| `MainProcess` | `electron/main.ts` |
| `Formatters` | `src/utils/formatters.ts` |
| `Exporter` | `src/utils/exporter.ts` |
| `BackupService` | `electron/services/BackupService.ts` |

The helper modules are:
- `Wrappers`: `Option`.
- `Text`: the JavaScript string operations the sources use, with their JavaScript meaning.
- `FileSystem`: a folder as a class with `present` and `names`. A failing `unlink` changes
  nothing.

Code that changes state step by step is modelled as methods with loops. Each method is
proved equal to a specification function, and the properties are lemmas about that
function. This covers the scan loops, the `forEach` over the map, the cleanup loops, the
save steps and the hook's state.

Inputs supplied as parameters:
- the folder listings;
- the outcomes of `stat`, `unlink`, `writeFile` and `rename`;
- the document text;
- the ISO time;
- the user's confirmation.

## Model

| member | source | states |
|---|---|---|
| Types.SortById | src/hooks/useOSSystem.ts:187 | the result is sorted by `os` and is a permutation of the input |
| Types.InsertById | src/hooks/useOSSystem.ts:187 | inserting into a sorted list keeps it sorted and adds exactly that record |
| Types.UniqueIdsOfPermutation | src/hooks/useOSSystem.ts:187 | reordering records keeps their ids unique |
| Types.IdsOfPermutation | src/hooks/useOSSystem.ts:187 | reordering records keeps their set of ids |
| OSSystem.ObsShape | src/hooks/useOSSystem.ts:44-59 | the observation text is the power-on tag (when present) then " - " then the cables part and the notes, with the notes alone when nothing about cables is said |
| OSSystem.ObsTextLigando | src/hooks/useOSSystem.ts:47 | the text mentions "LIGANDO" once upper-cased exactly when the box is ticked or the notes already mention it, so the tag is never doubled |
| OSSystem.DotlessNoteHasLigando | src/hooks/useOSSystem.ts:47 | `toUpperCase` turns the dotless `ı` of a note "lıgando" into `I`, so no tag is added |
| OSSystem.ObsTextCablesTaken | src/hooks/useOSSystem.ts:49-55 | with empty notes, "Cliente levou os cabos" appears exactly when no item was left |
| OSSystem.ObsTextEndsWithObs | src/hooks/useOSSystem.ts:57-58 | the text is never empty and ends with the notes when there are notes |
| OSSystem.Created | src/hooks/useOSSystem.ts:91-105 | create appends one record with id `ultimo_numero + 1`, keeps every older record in place and sets the counter to the new id |
| OSSystem.Edited | src/hooks/useOSSystem.ts:106-112 | edit keeps the length, the counter and every record with another id; records with the edited id keep `os` and `data` and take all seven form fields (client, phone, equipment, service, price, the new notes, status) |
| OSSystem.Deleted | src/hooks/useOSSystem.ts:161-162 | delete keeps exactly the records with another id, as the filter of the list; the counter is the largest remaining id, or 3825 when none remain |
| OSSystem.WithoutConcat | src/hooks/useOSSystem.ts:161 | the filter of two lists put together is the filter of each, in the same order |
| OSSystem.WithoutSingle | src/hooks/useOSSystem.ts:161 | one record is kept exactly when its id is another; with the previous row this fixes the filter as the records with another id in their original order |
| OSSystem.NewItems | src/hooks/useOSSystem.ts:178-179 | a recovered record is new exactly when its id is not in the store |
| OSSystem.NewItemsConcat | src/hooks/useOSSystem.ts:178-179 | the filter of two scans put together is the filter of each, in the same order |
| OSSystem.NewItemsSingle | src/hooks/useOSSystem.ts:178-179 | one recovered record is kept exactly when its id is not in the store; with the previous row this fixes the filter as the new records in scan order, repeats included |
| OSSystem.NewItemsKeepsRepeats | src/hooks/useOSSystem.ts:178-179 | two recovered records sharing an id the store lacks both pass the filter, so its result has a repeated id |
| OSSystem.SyncNoneIff | src/hooks/useOSSystem.ts:178-185 | reconciling saves nothing exactly when every recovered id is already in the store |
| OSSystem.SyncAdditive | src/hooks/useOSSystem.ts:187-190 | the merged list is the old records plus the new ones (as a multiset), sorted by id; no old record is lost or altered, every other record is a new recovered one; the counter is the larger of the two counters |
| OSSystem.SyncIdempotent | src/hooks/useOSSystem.ts:178-190 | a second reconcile with the same scan adds nothing |
| OSSystem.CreatePreservesValid | src/hooks/useOSSystem.ts:91-105 | create keeps ids unique and every id at most the counter, and the new id was not in use |
| OSSystem.EditPreservesValid | src/hooks/useOSSystem.ts:106-112 | edit keeps the invariant and the set of ids |
| OSSystem.DeletePreservesValid | src/hooks/useOSSystem.ts:161-164 | delete keeps the invariant and removes the id |
| OSSystem.SyncPreservesValid | src/hooks/useOSSystem.ts:178-190 | with a valid store and a valid scan result, reconcile keeps the invariant |
| OSSystem.SyncRepeatedId | src/hooks/useOSSystem.ts:178-187 | against an empty store, a scan that repeats an id brings the repetition into the merged list |
| OSSystem.SyncKeepsRepeats | src/hooks/useOSSystem.ts:178-187 | for any store, a scan that repeats an id the store lacks brings the repetition into the merged list |
| OSSystem.NewItemsDistinct | src/hooks/useOSSystem.ts:178-179 | the deduplicating filter keeps only recovered records with new ids, one per id, and every new id is kept |
| OSSystem.DistinctAgrees | src/hooks/useOSSystem.ts:178-179 | on a scan with unique ids the deduplicating filter keeps exactly what the source keeps |
| OSSystem.SyncDistinctPreservesValid | src/hooks/useOSSystem.ts:178-190 | with the deduplicating filter, reconcile keeps the invariant for any scan under its counter, repeated ids included, and the store then has every recovered id |
| OSSystem.DeleteUndoesCreate | src/hooks/useOSSystem.ts:91-162 | deleting the order just created gives back the old list |
| OSSystem.ResaveUnchanged | src/hooks/useOSSystem.ts:67-112 | opening a record with notes and saving it without changes leaves the store as it was |
| OSSystem.OSSystem.constructor | src/hooks/useOSSystem.ts:17-20 | the hook starts with the default store, the initial form and nothing being edited |
| OSSystem.OSSystem.Clear | src/hooks/useOSSystem.ts:62-65 | the form is reset and editing ends; the store is unchanged |
| OSSystem.OSSystem.Edit | src/hooks/useOSSystem.ts:67-79 | the form shows the record with every cable box cleared, and that record is being edited |
| OSSystem.OSSystem.BuildObsString | src/hooks/useOSSystem.ts:44-59 | the pushes build exactly the observation text of the form |
| OSSystem.OSSystem.Save | src/hooks/useOSSystem.ts:82-130 | an empty client changes nothing; otherwise the store becomes the created or edited store, is handed out to be saved, the document payload is the record with the current id, and the form is cleared |
| OSSystem.OSSystem.Delete | src/hooks/useOSSystem.ts:148-167 | without an order being edited or without confirmation nothing happens; otherwise the file delete is requested for the id and the store becomes the deleted store |
| OSSystem.OSSystem.Sync | src/hooks/useOSSystem.ts:171-201 | the store is saved exactly when confirmed, the scan succeeded with data and something is new; then it becomes the reconciled store, otherwise it is unchanged |
| DatabaseService.LoadOf | electron/services/DatabaseService.ts:23-34 | a missing or unreadable file loads as `{3825, []}`; only a parsed value without a list is not a store |
| DatabaseService.GuardPassesIff | electron/services/DatabaseService.ts:40-55 | a save passes the guard exactly when the payload has a list and is non-empty, or the file is absent, unreadable or holds at most ten records; the wipe refusal is exactly an empty list against a file of more than ten |
| DatabaseService.DatabaseFile.Load | electron/services/DatabaseService.ts:23-34 | load reads the target through the load rule |
| DatabaseService.DatabaseFile.Save | electron/services/DatabaseService.ts:36-71 | a refused save touches neither file; a full save leaves the target holding the data and no temporary file; a failed write or rename leaves the target as it was; after a successful save, load returns the saved store |
| ScanService.Candidates | electron/services/ScanService.ts:41-42 | a listed file is scanned exactly when its name ends in `.docx` and does not start with `~$` |
| ScanService.CandidatesConcat | electron/services/ScanService.ts:41-42 | the filter of two listings put together is the filter of each, in the same order |
| ScanService.CandidatesSingle | electron/services/ScanService.ts:41-42 | one listed file is kept exactly when it is eligible; with the previous row this fixes the scanned files as the eligible ones in listing order |
| ScanService.FirstDigitRun | electron/services/ScanService.ts:39-50 | the leftmost position where three digits start |
| ScanService.IdDigits | electron/services/ScanService.ts:39-52 | a match exists exactly when the name has three digits in a row; the match has 3 to 6 digits, starts where the first run of three begins and runs on to six digits or the first non-digit |
| ScanService.MatchedRunUnique | electron/services/ScanService.ts:52 | that description fixes the match: its position and its digits are unique |
| ScanService.FileId | electron/services/ScanService.ts:52-55 | a file has a number exactly when its matched digits read as a positive number; the number is their value, which lies in 1..999999 |
| ScanService.LabelledValue | electron/services/ScanService.ts:92-109 | the value is the capture at the leftmost position where a label matches; it is non-empty and holds no `.`, `,` or `;`; there is none exactly when no position matches |
| ScanService.FirstPrice | electron/services/ScanService.ts:88-89 | the first `R$` price found starts with `R$` and ends in a digit, `.` or `,`; none exactly when no position starts one |
| ScanService.FirstPriceLeftmost | electron/services/ScanService.ts:88-89 | the price found is the one matched at the leftmost position that starts one |
| ScanService.NameFallback | electron/services/ScanService.ts:98-105 | the client is the trimmed second `-`-separated segment of the name without its first ".docx", given exactly when there are two segments or more and that segment is longer than two characters and does not read as an integer |
| ScanService.CleanValue | electron/services/ScanService.ts:94-111 | a labelled value is its cleaned text (blanks collapsed to single spaces, ends trimmed) cut to at most 40 (client) or 30 (equipment) characters |
| ScanService.MinedOf | electron/services/ScanService.ts:63-113 | without readable text every field keeps its placeholder; otherwise phone, price, client (label, else name fallback, else placeholder) and equipment come from the mining rules |
| ScanService.MineFile | electron/services/ScanService.ts:63-113 | the default-then-overwrite steps give exactly the mined fields |
| ScanService.StatusOf | electron/services/ScanService.ts:124 | "Aprovado - Entregue" exactly when the lower-cased name contains "entregue", else "Em Análise" |
| ScanService.MaxIdBounds | electron/services/ScanService.ts:36-56 | the counter is at least 3825 and every file number, duplicates included, and is 3825 or one of them |
| ScanService.RecoveredAbortIff | electron/services/ScanService.ts:59-158 | the scan loop aborts exactly when some numbered file cannot be `stat`ed |
| ScanService.RecoveredProvenance | electron/services/ScanService.ts:47-131 | every pushed record comes from a numbered file with a date, and every numbered file pushes one |
| ScanService.DedupKeepsBest | electron/services/ScanService.ts:136-148 | after the `forEach`, each id appears once and holds the first record with an identified client, else the first record |
| ScanService.ScanSucceedsIff | electron/services/ScanService.ts:32-158 | a listed folder scans successfully exactly when every scanned numbered file can be `stat`ed; a failure carries no data |
| ScanService.ScanValid | electron/services/ScanService.ts:36-154 | the result has unique ids sorted ascending, all in 1..999999, a counter of at least 3825 and every file number, equal to 3825 or one of them |
| ScanService.ScanKeepsBest | electron/services/ScanService.ts:136-151 | the result has exactly the ids of the pushed records, every numbered file's id, and for each the preferred record |
| ScanService.ScanProvenance | electron/services/ScanService.ts:47-131 | every returned record is the record of some scanned file with that number |
| ScanService.BlankClientLabel | electron/services/ScanService.ts:92-94 | "Cliente: ." matches with a single blank captured, so the client becomes the empty string |
| ScanService.CollectRecords | electron/services/ScanService.ts:36-132 | the loop's records are the pushed records of every file and `maxId` the counter, or the abort |
| ScanService.Deduplicate | electron/services/ScanService.ts:136-148 | the map's values after the `forEach` are the deduplicated list |
| ScanService.ScanFiles | electron/services/ScanService.ts:29-160 | the method's reply is the scan of the listing |
| WordService.OsOf | electron/services/WordService.ts:99-134 | `data.os` is the value of the last `os` property of the payload, and undefined when there is none |
| WordService.Validate | electron/services/WordService.ts:98-113 | a value passes exactly when it is a truthy, non-blank string or number whose `Number` value is positive and below 1000000; failures report one of the three messages |
| WordService.ValidateNumber | electron/services/WordService.ts:98-113 | a number passes exactly when it lies in 1..999999; zero is reported as missing, anything else as invalid |
| WordService.ValidateDigits | electron/services/WordService.ts:98-113 | a string of digits passes exactly when its value lies in 1..999999 |
| WordService.ValidateTrimmed | electron/services/WordService.ts:99-108 | blanks around a string id do not change the verdict |
| WordService.ValidatePaddedDigits | electron/services/WordService.ts:99-110 | digits with blanks around them pass exactly when their value lies in 1..999999 |
| WordService.ValidatePadded | electron/services/WordService.ts:99-110 | " 12 " passes |
| WordService.ValidateExponent | electron/services/WordService.ts:107-110 | "1e3" passes |
| WordService.ValidateExponentMillion | electron/services/WordService.ts:107-110 | "1e6" fails as out of range |
| WordService.ValidateHex | electron/services/WordService.ts:107-110 | "0x1F" passes |
| WordService.ValidateOtherKinds | electron/services/WordService.ts:99-105 | any other kind fails: null, undefined and false as missing, true as the wrong kind |
| WordService.SafeId | electron/services/WordService.ts:49 | the id keeps its length, has each of the nine characters not allowed in Windows file names (angle brackets, colon, double quote, slashes, bar, question mark, asterisk) replaced by "-", and keeps every other character |
| WordService.FilenameOfNumber | electron/services/WordService.ts:48-51 | a numeric id's name is `OS-<id>.docx`, and different ids give different names |
| WordService.FilenameInjective | electron/services/WordService.ts:48-51 | ids without forbidden characters give different names |
| WordService.LegacyFiles | electron/services/WordService.ts:67-75 | a file is selected exactly when it matches the anchored pattern for the id, ends in `.docx`, does not start with `~$` and is not the new name |
| WordService.LegacyMatchUnique | electron/services/WordService.ts:68 | a name matches the anchored pattern for at most one digit id |
| WordService.LegacySparesOtherOrders | electron/services/WordService.ts:67-75 | a document of order n is never selected when generating order m |
| WordService.RenderDataKeys | electron/services/WordService.ts:118-131 | the render data's keys are exactly the upper-cased payload keys |
| WordService.RenderDataLast | electron/services/WordService.ts:121-128 | a key holds the `String` text (or "" for null and undefined) of the last payload entry that upper-cases to it |
| WordService.CreateRenderData | electron/services/WordService.ts:118-131 | the loop builds exactly that map |
| WordService.RenderMessage | electron/services/WordService.ts:183-185 | the engine's explanations, joined by a blank, a vertical bar and a blank, are reported when that text is not empty; otherwise the error's message, or "Erro desconhecido" when it has none |
| WordService.GenerateRejectsInvalid | electron/services/WordService.ts:139-145 | an invalid id fails with its message before any folder, template or file operation |
| WordService.GenerateSuccess | electron/services/WordService.ts:133-224 | on success the id is valid, `OS-<id>.docx` is listed, older documents of the order are gone unless locked, and no other file was added or removed |
| WordService.TemplateFailureKeepsFiles | electron/services/WordService.ts:150-192 | a missing, unreadable or broken template, or a render error, fails before any document is removed or written |
| WordService.Generator.FileLocation | electron/services/WordService.ts:242-244 | the location is exactly "OS-" followed by the id with each forbidden character replaced by "-", followed by ".docx" |
| WordService.Generator.CleanupLegacyFiles | electron/services/WordService.ts:61-93 | the folder loses exactly the selected documents whose `unlink` succeeds; a locked one does not stop the others |
| WordService.Generator.Generate | electron/services/WordService.ts:133-224 | the steps give exactly the reply and folder of the generation rule |
| MainProcess.AnchoredId | electron/main.ts:94-105 | the scan id, when found, is at most 999999 |
| MainProcess.AnchoredIdIff | electron/main.ts:94 | a name has a scan id exactly when three digits follow a prefix accepted by the optional "OS"/"O.S."/"N"/"Nº"/"PEDIDO", blanks and one of `.-_` |
| MainProcess.AnchoredIdAt | electron/main.ts:94-105 | the scan id is the value of up to six digits right after that prefix |
| MainProcess.Recent | electron/main.ts:99-100 | the scanned files are the last at most 100 `.docx` names, in listing order |
| MainProcess.ScanIgnoresOlder | electron/main.ts:99-100 | documents listed before the last hundred do not affect the scan |
| MainProcess.LegacyMaxBounds | electron/main.ts:96-106 | the counter is at least 3825 and every matched id, and 3825 or one of them |
| MainProcess.LegacyProvenance | electron/main.ts:102-118 | every record comes from a matched file with its date, every matched file gives one, and all carry the fixed placeholder fields |
| MainProcess.LegacyAbortIff | electron/main.ts:108-120 | the scan aborts exactly when some matched file cannot be `stat`ed |
| MainProcess.LegacyScanResult | electron/main.ts:89-120 | a successful scan has a counter of at least 3825 and every id, placeholder records, and every matched recent file's id |
| MainProcess.LegacyScanDuplicates | electron/main.ts:102-119 | two documents with the same id give two records with that id: this scan does not deduplicate |
| MainProcess.LegacySyncDuplicates | electron/main.ts:89-121 | fed to the renderer's reconciliation, the scan of "4000 a.docx" and "4000 b.docx" leaves the store with id 4000 twice |
| MainProcess.CollectLegacy | electron/main.ts:95-118 | the loop's records and `maxId` are the scan's, or the abort |
| MainProcess.LegacyScan | electron/main.ts:82-121 | the handler's reply is the scan of the listing |
| MainProcess.FindOsFile | electron/main.ts:128-144 | the found name is the first `.docx` name matching the anchored pattern for the id; none exactly when no name matches |
| MainProcess.FindOsFileExact | electron/main.ts:128-129 | the file found for id n never matches another id m, so 350 never finds "3501 …" |
| MainProcess.DeleteOsFile | electron/main.ts:124-133 | a missing folder or no match reports success and changes nothing; otherwise the found file is removed and success reported exactly when `unlink` works |
| MainProcess.OpenOsFile | electron/main.ts:141-150 | an unreadable folder fails; a file is opened exactly when the lookup finds one, and it is the first matching listed name; "Arquivo não encontrado." is reported exactly when nothing matches |
| MainProcess.OpenFolder | electron/main.ts:135-139 | "backup" opens the backup folder and anything else the output folder; it exists afterwards, keeping its files, or created empty |
| MainProcess.DbLoad | electron/main.ts:53-61 | the handler loads like the database service, and a missing file gives the default store |
| MainProcess.DbSave | electron/main.ts:64-74 | success exactly when write and rename work, then the target holds the data and no temporary file; otherwise the target is unchanged; no guard is applied |
| Formatters.CleanPhone | src/utils/formatters.ts:33-35 | the result is all digits, and holds exactly the digits of the input |
| Formatters.FormatPhoneDigits | src/utils/formatters.ts:24-30 | the digits of the mask are the first 11 digits of the input |
| Formatters.FormatPhoneShape | src/utils/formatters.ts:25-29 | the mask has the shape `(##) #####-####` for 11 digits, `(##) ####-#…` for 7 to 10, `(##) #…` for 3 to 6 and the bare digits for 2 or fewer |
| Formatters.CleanFormattedPhone | src/utils/formatters.ts:24-35 | cleaning a formatted phone gives the cleaned input cut to 11 digits |
| Formatters.FormatPhoneIdempotent | src/utils/formatters.ts:24-30 | formatting twice is formatting once |
| Formatters.FormatCurrencyInput | src/utils/formatters.ts:10-16 | the result is "" exactly when the input has no digit |
| Formatters.FormatCurrencyShape | src/utils/formatters.ts:11-15 | otherwise it is "R$ " + the whole reais grouped by "." in threes from the right + "," + two cent digits |
| Formatters.FormatCurrencyDigits | src/utils/formatters.ts:11-15 | the digits of the result are the reais and the two cent digits |
| Formatters.FormatCurrencyCents | src/utils/formatters.ts:10-16 | the formatted amount reads back as the same number of cents |
| Formatters.FormatCurrencyIdempotent | src/utils/formatters.ts:10-16 | formatting a formatted amount changes nothing |
| Exporter.CsvContent | src/utils/exporter.ts:4-39 | there is no content exactly when there is no data |
| Exporter.CsvLines | src/utils/exporter.ts:10-39 | the content is the byte order mark followed by the header line joined by ";" and one line per work order, in order |
| Exporter.Rows | src/utils/exporter.ts:23-36 | line i is the row of work order i |
| Exporter.RowReadsBack | src/utils/exporter.ts:23-36 | a line reads back as the work order's nine values when only the notes hold quotes |
| Exporter.RowMisread | src/utils/exporter.ts:27-32 | a client `a"b` makes the line unreadable |
| Exporter.ReadRowEscaped | src/utils/exporter.ts:23-36 | the corrected line reads back as the nine values for any text in the quoted fields |
| Exporter.CorrectedCsvReadsBack | src/utils/exporter.ts:4-39 | with the corrected rows, the file splits into the header and one line per work order, and each line reads back as its values |
| Exporter.RowQuoteFree | src/utils/exporter.ts:27-33 | without quotes outside the notes, the line as written is the corrected line |
| BackupService.BackupNameShape | electron/services/BackupService.ts:26-42 | every backup name counts as a backup and holds no colon, and its timestamp holds no point |
| BackupService.BackupNameOfIso | electron/services/BackupService.ts:25-27 | for an ISO time the name is `backup_YYYY-MM-DD_HH-MM-SS.json` |
| BackupService.BackupOrderIsTimeOrder | electron/services/BackupService.ts:26-45 | two backup names compare as their times to the second, so the sort puts the oldest first |
| BackupService.SortNames | electron/services/BackupService.ts:45 | the sort gives the names in character order, as a permutation |
| BackupService.Candidates | electron/services/BackupService.ts:42 | a name is a candidate exactly when it is listed and starts with "backup_" and ends with ".json" |
| BackupService.RetentionCount | electron/services/BackupService.ts:44-47 | with more than 50 backups exactly the count beyond 50 go and 50 stay; otherwise none go |
| BackupService.RetentionPartition | electron/services/BackupService.ts:44-47 | the backups that go and those that stay are together all backups |
| BackupService.RetentionOldestGo | electron/services/BackupService.ts:45-47 | every backup that goes sorts before every backup that stays |
| BackupService.RetentionOnlyBackups | electron/services/BackupService.ts:42-51 | only listed backups are ever removed |
| BackupService.RetentionKeepsLatest | electron/services/BackupService.ts:40-51 | removing the selection leaves every other file and exactly the kept backups |
| BackupService.Attempted | electron/services/BackupService.ts:49-57 | the names the loop gets through are a prefix of the selection, none locked, stopping at the first locked one |
| BackupService.CleanupUnlocked | electron/services/BackupService.ts:49-52 | when nothing is locked the whole selection is removed |
| BackupService.Backups.constructor | electron/services/BackupService.ts:8-18 | the folder exists afterwards and keeps its files |
| BackupService.Backups.CleanOldBackups | electron/services/BackupService.ts:36-58 | the folder becomes the listing without the attempted names; a missing folder is left alone |
| BackupService.Backups.RemoveEach | electron/services/BackupService.ts:49-52 | the loop removes exactly the attempted names |
| BackupService.Backups.PerformBackup | electron/services/BackupService.ts:20-34 | no database, no folder or a failed copy changes nothing; otherwise the named copy is added and the cleanup runs |
| FileSystem.Folder.Unlink | electron/services/BackupService.ts:50-51 | a working `unlink` removes the name; a failing one changes nothing |

## Left out

- Text is a sequence of Unicode code points. JavaScript strings are UTF-16 code units, and `substring(0, 40)` can split a surrogate pair; the model cannot.
- Case mapping: a case-insensitive regular expression without the `u` flag folds ASCII letters only, and so does the model. `toLowerCase` and `toUpperCase` also map the three non-ASCII letters whose one-character mapping is an ASCII letter (KELVIN SIGN to `k`, dotless `ı` to `I`, long `ſ` to `S`). Every other non-ASCII letter is left as it is, which does not change whether an ASCII word occurs in the text.
- LigandoPart: `toUpperCase` can turn one character into several, and the model maps one to one. So a note "ﬂigando", with the ligature ﬂ (U+FB02), which upper-cases to "FL", mentions "LIGANDO" for the source but not for the model, and the model adds the tag. No such expansion produces the letters of "entregue" in lower case.
- ScanService.MinedOf: the phone pattern at electron/services/ScanService.ts:84 is a recogniser passed in as a function. Its regular expression is not re-implemented.
- ScanService: the document's tag stripping at line 79 is abstract. The input is the text after every tag became a blank.
- ScanService: reading the `.docx` archive (PizZip, `word/document.xml`) is abstract. Its failure is `None`.
- JSON text is abstracted to a store, a value without a list, or unreadable content. `JSON.stringify` formatting is not modelled.
- `toLocaleDateString`, `new Date()` and `toISOString` are inputs. The date text and the ISO time are parameters.
- `Promise.allSettled` over the legacy deletions is a sequential loop. Every other `await` is sequential in the source.
- The UI is left out: toasts, `confirm` (a boolean input), `alert`, `window.print`, loading flags and the React components.
- `path.join` is left out. Files are named by their name within one folder.
- WordService.Validate: `Number()` is modelled for decimal, exponent, hexadecimal, octal, binary and `Infinity` strings. Double rounding is not modelled: a decimal string just below 1000000 that rounds up to it, or a string that underflows to zero such as "1e-400", which `Number()` reads as 0 so the source fails it with the range message while the model reads a positive value and passes it. Non-integer `number` values are not modelled either.
- Formatters.FormatCurrencyInput: integer cents are exact. `parseInt(v) / 100` with `toFixed(2)` rounds in floating point above about 2^46 cents and switches to exponent notation at 10^21; neither is modelled.
- `parseCurrency` and `formatCurrencyDisplay` are left out. They use floating-point parsing and locale formatting.
- The exporter's `!data` check for `null` is not modelled; the data is a list. The Blob and DOM download is left out.
- BackupService.SortNames: the in-place `sort()` of `backupFiles` is modelled on values, as a function. The sorted list is then used as the source uses it.
- A `readdirSync` failure in `cleanOldBackups` and a throwing `existsSync` are not modelled; the folder is readable when it exists. The console logs are left out.
- WordService.RenderDataLast: the order of `Object.entries` is the order of the entries given. JavaScript's integer-like keys come first, which is not modelled.
- `shell.openPath` is left out. `OpenOsFile` reports which file would be opened.
- A `readdir` failure in `delete-os-file` is not modelled.
- `dist-electron/main.js` is compiled output and is not part of this model. Its matcher is the same as electron/main.ts:128.
- Delete in the hook: the file deletion request is handed out and its failure is ignored, as in the source.
- The shallow copy at src/hooks/useOSSystem.ts:87 is not modelled. `push` also mutates the previous state's array, but the state is replaced by `newDb` at once; the model gives the new store as a value.

## Findings

| source | as written | input that shows it | evidently intended | confidence | as-written member | corrected member |
|---|---|---|---|---|---|---|
| src/hooks/useOSSystem.ts:178-179 | the reconciliation drops recovered records whose id is in the store, but keeps every recovered record whose id is new, repeats included | the main process's own scan of "4000 a.docx" and "4000 b.docx", reconciled with an empty store: id 4000 appears twice | one record per new id, so that the store keeps unique ids as create and delete assume | medium, not executed | MainProcess.LegacySyncDuplicates | OSSystem.SyncDistinctPreservesValid |
| src/utils/exporter.ts:27-33 | only the notes have their inner `"` doubled; client, phone, equipment, service, status and price are wrapped in quotes verbatim | a work order whose client is `a"b`: the line `…;"a"b";…` is not a well-formed quoted field (section 2 of RFC 4180, with `;` as separator) | every quoted field has its inner quotes doubled, so that each line reads back as its nine values | medium, not executed | Exporter.RowMisread | Exporter.CorrectedCsvReadsBack |

`OSSystem.OSSystem.Sync` keeps the source's filter, `NewItems`. `OSSystem.DistinctAgrees`
shows that the deduplicating filter keeps the same records for any scan with unique ids.
Every result of the recovery service has unique ids (`ScanService.ScanValid`), so the two
filters differ only on the main process's own scan. `OSSystem.SyncKeepsRepeats` states the
repetition for any store, not only an empty one.
