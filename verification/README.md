# Duplicate Checker & Remover — a verified model of its core

The application scans a directory, hashes every file by its content, groups
the files whose hashes are equal, flags every member of a group with more
than one file as a duplicate, and sorts the files into categories. The
categories come from the file's magic number, or from the file name when
the content says nothing. A React frontend shows the result and lets the
user select files for deletion. It also edits category rules, validates
imported settings, and lists past scans.

This project models that core in Dafny and proves properties of it:

* `FileInfoModel` (`file_info.dfy`): the `FileInfo` bean. It is a class. Its
  identity fields are constant and its flags are mutable. The module holds
  the extension rule, `equals`/`hashCode` and `isContentDuplicate`.
* `FileHashService` (`file_hash.dfy`): Java's signed bytes and the
  magic-number decision list. It includes the two text-detection counting
  loops (methods with loop invariants), `normalizeText`, the extractor
  dispatch, and the choice between hashing normalised text and hashing raw
  bytes.
* `FileCategoryService` (`file_category.dfy`): the file-name rule chain, also
  given as a first-match rule table and proved equal to it. It holds the
  content-or-name fallback and the in-place `categorizeFiles` loop.
* `FileScanService` (`file_scan.dfy`): the `ScanProgress` counters and the
  scanner's three maps. It models `startScan` with its thread body and
  `performScanWithProgress` with its grouping loop. The loop is proved
  against specification functions over the created records:
  * the hash groups, `Members`;
  * the stream of repeats, `Repeats`;
  * the duplicate flag, `DuplicateAt`;
  * the count of redundant copies, `Excess`.
* `Strings`, `Seqs`, `Wrappers`: helpers. They cover ASCII lower-casing, Java
  `trim`, `lastIndexOf`, `contains`, order-preserving `filter`, the contents of
  a JavaScript `Set`, and `Option`/`Result`.
* `FilesList` (`files_list.dfy`): the selection state of the file table, as a
  class whose handlers replace the selected set.
* `SettingsService` (`settings.dfy`):
  * a JSON value datatype;
  * the structural validator, evaluated in source order so that `null`
    throws;
  * the defaults;
  * import, load, save and reset.

  `JSON.parse`, `JSON.stringify` and local storage are parameters.
* `SettingsPanel` (`settings_panel.dfy`): the rule editor, as a class.
* `LogsPanel` (`logs_panel.dfy`): the history filter, the summary totals,
  the status colour and the scan label.

Inputs that come from the outside world are parameters:

* the outcome of walking the directory and of `createFileInfo` for each
  path (`Directory`, `Creation`);
* what reading a file yields (`read: string -> FileAccess`);
* the foreign text extractors (`Extractors`);
* the random scan id and the clock (`Instant` values, `Date.now()` as text).

## Model

| member | source | states |
|---|---|---|
| FileInfoModel.Wrap32 | backend/src/main/java/com/duplicateremover/model/FileInfo.java:113-116 | Java `int` arithmetic: the result is in the 32-bit range and congruent to the input modulo 2^32 |
| FileInfoModel.StringHashCode | backend/src/main/java/com/duplicateremover/model/FileInfo.java:113-116 | `String.hashCode` stays in the `int` range |
| FileInfoModel.LongHashCode | backend/src/main/java/com/duplicateremover/model/FileInfo.java:113-116 | `Long.hashCode` stays in the `int` range |
| FileInfoModel.ExtensionOf | backend/src/main/java/com/duplicateremover/service/FileScanService.java:275-278 | with a dot after index 0, the lower-cased text after the last dot (the result has no dot); with no such dot, "" |
| FileInfoModel.FileInfo.constructor | backend/src/main/java/com/duplicateremover/model/FileInfo.java:18-26 | sets path, name, hash and size; the creation time is the clock reading; not duplicate, not marked for deletion, no category |
| FileInfoModel.FileInfo.WithCreatedTime | backend/src/main/java/com/duplicateremover/model/FileInfo.java:28-36 | as above, with the given creation time |
| FileInfoModel.FileInfo.SetDuplicate | backend/src/main/java/com/duplicateremover/model/FileInfo.java:58 | sets the duplicate flag and nothing else |
| FileInfoModel.FileInfo.SetCategory | backend/src/main/java/com/duplicateremover/model/FileInfo.java:52 | sets the category and nothing else |
| FileInfoModel.FileInfo.SetMarkedForDeletion | backend/src/main/java/com/duplicateremover/model/FileInfo.java:61 | sets the deletion mark and nothing else |
| FileInfoModel.FileInfo.Extension | backend/src/main/java/com/duplicateremover/model/FileInfo.java:67-70 | `getExtension` follows the same rule as the scan service's `getFileExtension` |
| FileInfoModel.FileInfo.LastModified | backend/src/main/java/com/duplicateremover/model/FileInfo.java:76-78 | the last-modified time is the creation time |
| FileInfoModel.FileInfo.Equals | backend/src/main/java/com/duplicateremover/model/FileInfo.java:103-116 | equal to itself; another non-null record is equal iff size and hash (null-safe) agree; equal records have equal `hashCode` |
| FileInfoModel.FileInfo.HashCode | backend/src/main/java/com/duplicateremover/model/FileInfo.java:113-116 | `Objects.hash(hash, size)` is a Java `int` |
| FileInfoModel.FileInfo.IsContentDuplicate | backend/src/main/java/com/duplicateremover/model/FileInfo.java:84-100 | true iff the other record is non-null, a different object, and `equals` this one (same size, null-safe same hash) |
| FileInfoModel.EqualsIsEquivalence | backend/src/main/java/com/duplicateremover/model/FileInfo.java:103-110 | `equals` is reflexive, symmetric and transitive |
| FileInfoModel.ContentDuplicateSymmetric | backend/src/main/java/com/duplicateremover/model/FileInfo.java:84-110 | `isContentDuplicate` is symmetric, false on the same object, and on distinct objects agrees with `equals` |
| FileInfoModel.EqualsIgnoresPath | backend/src/main/java/com/duplicateremover/model/FileInfo.java:84-110 | two distinct records are equal, and content duplicates, exactly when their size and hash agree, whatever their paths |
| FileHashService.Unsigned | backend/src/main/java/com/duplicateremover/service/FileHashService.java:344-447 | `b & 0xFF` is in 0..255 and congruent to the signed byte modulo 256 |
| FileHashService.CountText | backend/src/main/java/com/duplicateremover/service/FileHashService.java:251-268 | the count of text bytes never exceeds the length |
| FileHashService.IsProbablyTextFile | backend/src/main/java/com/duplicateremover/service/FileHashService.java:449-466 | the counting loop computes "no zero byte and more than 95 percent text" over the first min(len, 512) bytes; a zero byte there gives false |
| FileHashService.IsTextContent | backend/src/main/java/com/duplicateremover/service/FileHashService.java:251-268 | the counting loop computes "no zero byte and more than 90 percent text" over the first min(len, 1024) bytes; false on empty content or a zero byte |
| FileHashService.CountTextAll | backend/src/main/java/com/duplicateremover/service/FileHashService.java:449-466 | all bytes are counted as text iff every byte is a text byte |
| FileHashService.ProbablyTextOn16Bytes | backend/src/main/java/com/duplicateremover/service/FileHashService.java:449-466 | on a 16-byte header the check passes iff all 16 bytes are text bytes (15 of 16 is 93 percent, not above 95) |
| FileHashService.DetectFileTypeByMagicNumber | backend/src/main/java/com/duplicateremover/service/FileHashService.java:344-447 | always one of the seven categories; JPEG, PNG, GIF and BMP headers are "Images"; PDF, "PK\x03\x04" and OLE headers are "Documents"; a ZIP header gives "Archives" only with 05 or 07 as third byte; "Videos" only for an MP4 header |
| FileHashService.RiffIsAudio | backend/src/main/java/com/duplicateremover/service/FileHashService.java:419-437 | a "RIFF" header is always "Audio", so the AVI test never fires |
| FileHashService.Header16 | backend/src/main/java/com/duplicateremover/service/FileHashService.java:322-333 | the 16-byte header buffer holds the first bytes of the file and zeros after its end |
| FileHashService.DetectFileTypeOfBytes | backend/src/main/java/com/duplicateremover/service/FileHashService.java:322-342 | "Unknown" exactly when the file is shorter than 4 bytes |
| FileHashService.DetectFileTypeFromContent | backend/src/main/java/com/duplicateremover/service/FileHashService.java:322-342 | a readable file gives its byte classification; an `IOException` gives "Unknown"; any other exception propagates (None) |
| FileHashService.ShortFilesAreNeverText | backend/src/main/java/com/duplicateremover/service/FileHashService.java:322-342 | a file of 4 to 15 bytes has a zero-padded header that never passes the text check |
| FileHashService.DropSpaces | backend/src/main/java/com/duplicateremover/service/FileHashService.java:277 | dropping a leading run of `\s` leaves a suffix that starts with a non-space |
| FileHashService.CollapseSpaces | backend/src/main/java/com/duplicateremover/service/FileHashService.java:277 | collapsing keeps a leading non-space character in front |
| FileHashService.RemoveBlankLines | backend/src/main/java/com/duplicateremover/service/FileHashService.java:278 | `replaceAll("\\n\\s*\\n", "\n")` never lengthens the text and keeps its first character |
| FileHashService.CollapseHasNoNewline | backend/src/main/java/com/duplicateremover/service/FileHashService.java:277 | after `replaceAll("\\s+", " ")` no line feed is left |
| FileHashService.CollapseHasNoAdjacentSpaces | backend/src/main/java/com/duplicateremover/service/FileHashService.java:277 | after collapsing no two adjacent characters are both whitespace |
| FileHashService.DropSpacesStops | backend/src/main/java/com/duplicateremover/service/FileHashService.java:277 | dropping leading spaces stops at or before the first non-space and keeps it |
| FileHashService.CollapseKeeps | backend/src/main/java/com/duplicateremover/service/FileHashService.java:277 | collapsing keeps every non-space character |
| FileHashService.NoAdjacentSpacesSlice | backend/src/main/java/com/duplicateremover/service/FileHashService.java:279 | a slice of a string without adjacent spaces has none either (so `trim` keeps the property) |
| FileHashService.NoAdjacentSpacesCons | backend/src/main/java/com/duplicateremover/service/FileHashService.java:277 | one more character in front keeps the property unless it and the old first character are both whitespace |
| FileHashService.NoAdjacentSpacesTrim | backend/src/main/java/com/duplicateremover/service/FileHashService.java:279 | `trim` keeps a string free of adjacent whitespace |
| FileHashService.RemoveBlankLinesNoOp | backend/src/main/java/com/duplicateremover/service/FileHashService.java:278 | without a line feed the blank-line pattern changes nothing |
| FileHashService.NormalizeText | backend/src/main/java/com/duplicateremover/service/FileHashService.java:273-281 | "" for null; otherwise no leading or trailing whitespace, no two adjacent whitespace characters, no upper-case ASCII, and non-empty when the input is not blank |
| FileHashService.LowerKeepsSpacing | backend/src/main/java/com/duplicateremover/service/FileHashService.java:280 | ASCII lower-casing keeps a string free of adjacent whitespace and keeps whether its ends are trimmable |
| FileHashService.NormalizeSteps | backend/src/main/java/com/duplicateremover/service/FileHashService.java:276-279 | the three string steps leave no adjacent whitespace and keep non-blank text non-empty |
| FileHashService.TrimKeepsNoAdjacentSpaces | backend/src/main/java/com/duplicateremover/service/FileHashService.java:277-279 | trimming a collapsed string leaves no adjacent whitespace |
| FileHashService.TrimOfCollapseNotEmpty | backend/src/main/java/com/duplicateremover/service/FileHashService.java:277-279 | collapsing a non-blank string and trimming it leaves a non-empty string |
| FileHashService.BlankLineRemovalIsNoOp | backend/src/main/java/com/duplicateremover/service/FileHashService.java:277-278 | the second `replaceAll` never changes what the first produced |
| FileHashService.ExtractGenericText | backend/src/main/java/com/duplicateremover/service/FileHashService.java:227-246 | text is returned iff the content passes `isTextContent` |
| FileHashService.ExtractDocumentText | backend/src/main/java/com/duplicateremover/service/FileHashService.java:98-118 | a PDF signature gives the PDF text, then "PK\x03\x04" the DOCX text, then the OLE signature the DOC text; content of fewer than 4 bytes or with none of them falls back to the generic extraction |
| FileHashService.ExtractTextContent | backend/src/main/java/com/duplicateremover/service/FileHashService.java:76-96 | image, application, archive, audio and video types yield null; documents go to the document extractor; everything else to the generic one |
| FileHashService.HashInputOf | backend/src/main/java/com/duplicateremover/service/FileHashService.java:30-74 | the hash input is `normalizeText` of the extracted text iff that text exists and is not blank (then it is non-empty with no adjacent spaces); otherwise the raw bytes |
| FileHashService.BinaryTypesHashRawBytes | backend/src/main/java/com/duplicateremover/service/FileHashService.java:36-45 | files detected as a binary type are always hashed on their raw bytes |
| FileHashService.SameTextSameHashInput | backend/src/main/java/com/duplicateremover/service/FileHashService.java:51-74 | two files whose extracted texts normalise to the same string get the same hash input, whatever their formats |
| FileCategoryService.CategorizeByFilenamePatterns | backend/src/main/java/com/duplicateremover/service/FileCategoryService.java:56-92 | always one of the six categories; a lower-cased name containing "setup" or "install", or ending ".msi", is "Applications" |
| FileCategoryService.FirstMatch | backend/src/main/java/com/duplicateremover/service/FileCategoryService.java:59-91 | the category of the first matching rule; the fallback when no rule matches |
| FileCategoryService.RuleTableMatchesChain | backend/src/main/java/com/duplicateremover/service/FileCategoryService.java:59-91 | each rule of the table matches exactly when the corresponding test of the chain does |
| FileCategoryService.ChainIsFirstMatch | backend/src/main/java/com/duplicateremover/service/FileCategoryService.java:56-92 | the chain is first-match-wins over the rules Applications, Temporary, Backups, System, Logs, with "Others" as fallback |
| FileCategoryService.FilenamePatternsIgnoreCase | backend/src/main/java/com/duplicateremover/service/FileCategoryService.java:57 | the category does not depend on the case of the name |
| FileCategoryService.CategorizeFileByContent | backend/src/main/java/com/duplicateremover/service/FileCategoryService.java:33-51 | never "Unknown"; the content category for a readable file of 4 or more bytes; the name category when detection says "Unknown" or throws |
| FileCategoryService.CategorizeFiles | backend/src/main/java/com/duplicateremover/service/FileCategoryService.java:22-28 | returns the same list; every record's category is set to its content-or-name category and no other field changes |
| FileScanService.CreatedEntries | backend/src/main/java/com/duplicateremover/service/FileScanService.java:143-147 | the records created for the first n walked paths are at most n |
| FileScanService.ErrorOfMeaning | backend/src/main/java/com/duplicateremover/service/FileScanService.java:181-197 | a walked path adds at most one error message, and none exactly when its record was created with a non-null, non-empty hash |
| FileScanService.WalkError | backend/src/main/java/com/duplicateremover/service/FileScanService.java:126-138 | the scan throws before the loop exactly when the directory is missing or the walk fails, with the walk's own message in the latter case |
| FileScanService.DuplicateGroupsOf | backend/src/main/java/com/duplicateremover/service/FileScanService.java:207-209 | exactly the groups with more than one member, unchanged |
| FileScanService.CountsStep | backend/src/main/java/com/duplicateremover/service/FileScanService.java:143-197 | one walked path advances the created records, `processedFiles` (set to i+1 only on success) and the error list by that path's outcome |
| FileScanService.CountedStep | backend/src/main/java/com/duplicateremover/service/FileScanService.java:143-197 | one walked path keeps `duplicateCount` equal to the start value plus the repeats so far, and `currentDuplicates[scanId]` equal to the repeats so far |
| FileScanService.HashKeysSnoc | backend/src/main/java/com/duplicateremover/service/FileScanService.java:155-179 | the group keys grow by the new hash exactly when it is non-null and non-empty |
| FileScanService.MembersSnoc | backend/src/main/java/com/duplicateremover/service/FileScanService.java:156-179 | a new record extends the group of its own hash and no other |
| FileScanService.RepeatsSnoc | backend/src/main/java/com/duplicateremover/service/FileScanService.java:156-172 | a new record joins the duplicate stream exactly when its valid hash was already seen |
| FileScanService.MembersExactly | backend/src/main/java/com/duplicateremover/service/FileScanService.java:156-179 | over distinct records, a record is in the group of h exactly when its hash is h, and groups have no repeats |
| FileScanService.DuplicateIffGroupOfTwo | backend/src/main/java/com/duplicateremover/service/FileScanService.java:154-179 | a record is a duplicate iff its hash is valid and its group has at least two members |
| FileScanService.DuplicateAtSnoc | backend/src/main/java/com/duplicateremover/service/FileScanService.java:159-165 | after a new record, an old record is a duplicate iff it was one or shares the new valid hash; the new one iff its hash was seen |
| FileScanService.ExcessNewGroup | backend/src/main/java/com/duplicateremover/service/FileScanService.java:176-179 | a new group of one adds no redundant copy |
| FileScanService.ExcessGrowGroup | backend/src/main/java/com/duplicateremover/service/FileScanService.java:156-168 | a record joining a group adds exactly one redundant copy |
| FileScanService.ExcessSnoc | backend/src/main/java/com/duplicateremover/service/FileScanService.java:155-183 | one record changes Σ(group size − 1) by one exactly when its valid hash was seen |
| FileScanService.ExcessOfGroups | backend/src/main/java/com/duplicateremover/service/FileScanService.java:168-219 | over the hash groups, Σ(group size − 1) equals the number of repeats, which is what the live counter counted |
| FileScanService.ExcessDropSingletons | backend/src/main/java/com/duplicateremover/service/FileScanService.java:207-209 | dropping the groups of one member changes no count |
| FileScanService.DuplicateGroupsKeepExcess | backend/src/main/java/com/duplicateremover/service/FileScanService.java:207-219 | the result's `duplicateCount`, summed over `duplicateGroups`, equals the sum over all hash groups |
| FileScanService.ProcessedMarkBound | backend/src/main/java/com/duplicateremover/service/FileScanService.java:140-150 | `processedFiles` never exceeds the number of walked paths (`totalFiles`) |
| FileScanService.ScanProgress.constructor | backend/src/main/java/com/duplicateremover/service/FileScanService.java:48-57 | status "STARTED", zero counters, no directory, no errors |
| FileScanService.GroupedRepeat | backend/src/main/java/com/duplicateremover/service/FileScanService.java:156-172 | a record whose hash was seen joins that group and the duplicate stream, and the grouping invariant is kept |
| FileScanService.GroupedNew | backend/src/main/java/com/duplicateremover/service/FileScanService.java:175-179 | a record with an unseen valid hash opens a group of one; the invariant is kept |
| FileScanService.GroupedInvalid | backend/src/main/java/com/duplicateremover/service/FileScanService.java:155-184 | a record with a null or empty hash joins no group and the invariant is kept |
| FileScanService.GroupMembersCarryHash | backend/src/main/java/com/duplicateremover/service/FileScanService.java:207-209 | every record listed in a hash group carries that hash |
| FileScanService.FlagsRightAppendSingle | backend/src/main/java/com/duplicateremover/service/FileScanService.java:175-184 | an unflagged new record whose hash is not a repeat keeps every flag right |
| FileScanService.GroupBy | backend/src/main/java/com/duplicateremover/service/FileScanService.java:203-204 | `groupingBy(getCategory)`: the keys are exactly the categories present, each with its records in list order |
| FileScanService.SumGroupExcess | backend/src/main/java/com/duplicateremover/service/FileScanService.java:217-219 | the stream sum over the groups, in whatever order the map yields them, is Σ(group size − 1) |
| FileScanService.MarkGroupDuplicate | backend/src/main/java/com/duplicateremover/service/FileScanService.java:163-165 | every member of the group ends flagged as a duplicate |
| FileScanService.Scanner.constructor | backend/src/main/java/com/duplicateremover/service/FileScanService.java:33-35 | the three maps start empty |
| FileScanService.Scanner.FlagGroup | backend/src/main/java/com/duplicateremover/service/FileScanService.java:158-165 | flagging the grown group leaves each record flagged exactly when its valid hash repeats |
| FileScanService.Scanner.AdmitCreated | backend/src/main/java/com/duplicateremover/service/FileScanService.java:146-189 | one created record: appended fresh, `processedFiles` = i+1, grouped, flagged, counted, streamed |
| FileScanService.Scanner.PlaceRecord | backend/src/main/java/com/duplicateremover/service/FileScanService.java:154-184 | places the record by its hash: keeps the flags and groups right, and adds one to the counter and the stream exactly for a repeat |
| FileScanService.Scanner.JoinGroup | backend/src/main/java/com/duplicateremover/service/FileScanService.java:156-172 | a repeat: joins its group, counter + 1, appended to the stream, `currentDuplicates[scanId]` is the new stream |
| FileScanService.Scanner.AdmitOne | backend/src/main/java/com/duplicateremover/service/FileScanService.java:144-197 | one walked path: a created record as above; a failure appends "Failed to process: …" or "Unexpected error: …" and changes nothing else |
| FileScanService.Scanner.AdmitStep | backend/src/main/java/com/duplicateremover/service/FileScanService.java:143-198 | one loop iteration keeps the loop invariant (records, flags, groups, counters, errors, stream) |
| FileScanService.Scanner.GroupWalkedFiles | backend/src/main/java/com/duplicateremover/service/FileScanService.java:132-199 | after the loop: one distinct record per created entry, flags right, groups right, counters, errors and stream as specified |
| FileScanService.Scanner.ScanningStart | backend/src/main/java/com/duplicateremover/service/FileScanService.java:132-134 | the invariant holds before the loop with empty lists and maps |
| FileScanService.Scanner.ScanningDone | backend/src/main/java/com/duplicateremover/service/FileScanService.java:143-199 | the invariant at the end yields the final counters, errors and stream |
| FileScanService.Scanner.StartScan | backend/src/main/java/com/duplicateremover/service/FileScanService.java:94-115 | registers a fresh progress under the id with an empty stream; a missing directory ends "FAILED" with its message and zero counters; a walked one ends completed as `ScanFinished` states, with `processedFiles <= totalFiles` |
| FileScanService.Scanner.ScanThread | backend/src/main/java/com/duplicateremover/service/FileScanService.java:104-112 | the thread body: on an exception the status is "FAILED" and the message is appended |
| FileScanService.Scanner.PerformScanWithProgress | backend/src/main/java/com/duplicateremover/service/FileScanService.java:117-227 | no progress: throws "Progress tracking not initialized…"; not a directory: status "SCANNING", throws, nothing stored; otherwise the result is stored and the progress "COMPLETED" as `ScanFinished` states |
| FileScanService.Scanner.ScanWalked | backend/src/main/java/com/duplicateremover/service/FileScanService.java:132-226 | the walk, the loop and the completion leave the scan finished |
| FileScanService.Scanner.CompleteScan | backend/src/main/java/com/duplicateremover/service/FileScanService.java:200-226 | categorises, builds `duplicateGroups` (groups of more than one) and `duplicateCount` = Σ(size − 1) = number of repeats, stores the result |
| FileScanService.Scanner.StoreResult | backend/src/main/java/com/duplicateremover/service/FileScanService.java:222-224 | status "COMPLETED" and the result stored under the id, nothing else changed |
| FileScanService.CompletesFromGroups | backend/src/main/java/com/duplicateremover/service/FileScanService.java:207-219 | from the loop's groups: `duplicateGroups` is exactly the hashes with more than one member, and `duplicateCount` equals the live counter's repeats |
| Strings.LastIndexOf | backend/src/main/java/com/duplicateremover/model/FileInfo.java:68 | the last index holding the character, or −1 exactly when it does not occur |
| Strings.ToLower | backend/src/main/java/com/duplicateremover/service/FileCategoryService.java:57 | same length, each ASCII upper-case letter lowered, other characters kept |
| Strings.ToLowerIdempotent | backend/src/main/java/com/duplicateremover/service/FileHashService.java:280 | lower-casing twice is lower-casing once |
| Strings.Trim | backend/src/main/java/com/duplicateremover/service/FileHashService.java:279 | the result is a slice without leading or trailing code points ≤ U+0020, empty exactly for blank input |
| Seqs.Filter | frontend/src/components/FilesList.tsx:50 | `filter` keeps exactly the elements that pass, and is no longer than its input |
| Seqs.FilterIsSubSeq | frontend/src/components/LogsPanel.tsx:35-42 | what `filter` keeps is an order-preserving sub-sequence |
| Seqs.FilterNoRepeats | frontend/src/components/FilesList.tsx:18 | deleting from a set keeps it free of repeats |
| Seqs.Dedup | frontend/src/components/FilesList.tsx:28 | `new Set(array)` has no repeats and exactly the array's elements |
| Seqs.DedupOfNoRepeats | frontend/src/components/FilesList.tsx:28 | an array without repeats passes through a `Set` unchanged |
| FilesList.FilesToDisplay | frontend/src/components/FilesList.tsx:49-51 | a file is shown iff it is in the list and, when only duplicates are shown, flagged |
| FilesList.FilesToDisplayIsSubSeq | frontend/src/components/FilesList.tsx:49-51 | the shown files keep the result's order; without the flag all files are shown |
| FilesList.Toggled | frontend/src/components/FilesList.tsx:15-23 | membership of the path flips and no other path changes |
| FilesList.ToggledKeepsNoRepeats | frontend/src/components/FilesList.tsx:15-23 | a toggle keeps the selection a set |
| FilesList.ToggleTwice | frontend/src/components/FilesList.tsx:15-23 | toggling twice restores the selected set; the order too, unless the path moved to the end of the insertion order |
| FilesList.Selection.constructor | frontend/src/components/FilesList.tsx:12-13 | nothing selected, all files shown |
| FilesList.Selection.HandleFileSelect | frontend/src/components/FilesList.tsx:15-23 | the selection becomes the toggled copy |
| FilesList.Selection.HandleSelectAllDuplicates | frontend/src/components/FilesList.tsx:25-29 | the selection is exactly the paths of duplicate-flagged files; the old selection is dropped |
| FilesList.Selection.ClearSelection | frontend/src/components/FilesList.tsx:88 | the selection is empty |
| FilesList.Selection.HeaderCheckbox | frontend/src/components/FilesList.tsx:157-163 | checked: exactly the paths of the displayed files; unchecked: empty |
| FilesList.Selection.HandleDeleteSelected | frontend/src/components/FilesList.tsx:31-36 | empty selection: no call, no change; otherwise one call with exactly the selected paths, then an empty selection |
| FilesList.Selection.SetShowDuplicatesOnly | frontend/src/components/FilesList.tsx:71 | the flag becomes the checkbox value |
| SettingsService.ParseRuleType | frontend/src/services/settingsService.ts:140 | `includes` on the three type names: the matching type exactly when the name is one of them |
| SettingsService.Property | frontend/src/services/settingsService.ts:132-139 | reading a property throws exactly on `null`, and is `undefined` unless the value is an object holding the key |
| SettingsService.CheckRule | frontend/src/services/settingsService.ts:135-140 | a rule passes iff it is an object with string id, name, pattern, category and a valid type; it throws iff it is `null` |
| SettingsService.EveryRule | frontend/src/services/settingsService.ts:134-141 | `every` throws only when some rule is `null`, and answers true only when every rule is an object |
| SettingsService.EveryRuleAccepts | frontend/src/services/settingsService.ts:134-141 | `every` answers true exactly when every rule is well formed |
| SettingsService.EveryRuleThrows | frontend/src/services/settingsService.ts:134-141 | `every` throws exactly when some rule is `null` and all rules before it are well formed |
| SettingsService.EveryRuleMeaning | frontend/src/services/settingsService.ts:134-141 | `every` is true iff all rules are well formed, and throws iff a `null` rule comes before any malformed one |
| SettingsService.ValidateSettings | frontend/src/services/settingsService.ts:129-143 | `null` throws and any other non-object answers false; the exact characterisation is in the two lemmas below |
| SettingsService.ValidateSettingsAcceptsExactly | frontend/src/services/settingsService.ts:129-143 | the validator answers true exactly for an object with a string path and an array of well-formed rules |
| SettingsService.ValidateSettingsThrowsExactly | frontend/src/services/settingsService.ts:129-143 | it throws exactly on `null`, or on a `null` rule, preceded only by well-formed rules, in an otherwise acceptable value |
| SettingsService.EmptyRulesAreValid | frontend/src/services/settingsService.ts:133-134 | an empty rule array is valid |
| SettingsService.EncodeDecode | frontend/src/services/settingsService.ts:3-14 | every settings record is well formed as JSON and decodes back to itself |
| SettingsService.DefaultSettings | frontend/src/services/settingsService.ts:77-90 | empty path and seven rules with ids "1" to "7" in order |
| SettingsService.DefaultSettingsAreValid | frontend/src/services/settingsService.ts:77-90 | the defaults pass the validator |
| SettingsService.ImportSettings | frontend/src/services/settingsService.ts:111-124 | the parsed value itself exactly when it parses and is well formed; otherwise the error "Invalid settings file format" (also when the validator throws) |
| SettingsService.ExportSettings | frontend/src/services/settingsService.ts:104-106 | the text is `JSON.stringify` of the encoded record, a value the validator accepts and that decodes back to the record |
| SettingsService.ImportExportRoundTrip | frontend/src/services/settingsService.ts:104-124 | importing exported settings gives them back |
| SettingsService.LoadSettings | frontend/src/services/settingsService.ts:23-35 | the defaults when nothing or "" is stored or the text fails to parse; otherwise the parsed value, unchecked |
| SettingsService.SaveSettings | frontend/src/services/settingsService.ts:40-47 | the store gains the record's JSON under the settings key; other keys keep their values |
| SettingsService.ResetSettings | frontend/src/services/settingsService.ts:95-99 | returns exactly the defaults, having saved them |
| SettingsService.LoadAfterReset | frontend/src/services/settingsService.ts:23-99 | loading after a reset gives the defaults, which are valid |
| SettingsPanel.InitialRules | frontend/src/components/SettingsPanel.tsx:14-18 | three rules with ids "1", "2", "3": the first three default rules |
| SettingsPanel.Apply | frontend/src/components/SettingsPanel.tsx:50-54 | `{ ...rule, ...updates }`: each field the patch carries takes the patch value, every other field keeps the rule's |
| SettingsPanel.ApplyIdempotent | frontend/src/components/SettingsPanel.tsx:52 | spreading the same patch twice is spreading it once |
| SettingsPanel.RemoveRule | frontend/src/components/SettingsPanel.tsx:42-44 | a rule remains iff it was there and has another id |
| SettingsPanel.RemoveRuleKeepsOrder | frontend/src/components/SettingsPanel.tsx:42-44 | the remaining rules keep their order; deleting an absent id changes nothing |
| SettingsPanel.UpdateRules | frontend/src/components/SettingsPanel.tsx:50-54 | same length and order; rules with the id get the patch, all others unchanged |
| SettingsPanel.UpdateRulesIdempotent | frontend/src/components/SettingsPanel.tsx:50-54 | repeating an update changes nothing more, even when the patch renames the id |
| SettingsPanel.UpdateRulesKeepsIds | frontend/src/components/SettingsPanel.tsx:50-54 | a patch without an id keeps every id in place |
| SettingsPanel.ToggleEditing | frontend/src/components/SettingsPanel.tsx:46-48 | editing becomes the id iff it was not that id, and null otherwise |
| SettingsPanel.ToggleEditingTwice | frontend/src/components/SettingsPanel.tsx:46-48 | pressing edit twice restores the state unless another rule was being edited |
| SettingsPanel.RuleEditor.constructor | frontend/src/components/SettingsPanel.tsx:13-27 | empty path, the initial rules, an empty draft of type extension, nothing edited |
| SettingsPanel.RuleEditor.HandleAddRule | frontend/src/components/SettingsPanel.tsx:35-40 | with name, pattern and category non-empty: exactly one rule appended at the end with the given id, and the draft reset; otherwise no change |
| SettingsPanel.RuleEditor.HandleDeleteRule | frontend/src/components/SettingsPanel.tsx:42-44 | no rule with the id remains; the others stay in order |
| SettingsPanel.RuleEditor.HandleEditRule | frontend/src/components/SettingsPanel.tsx:46-48 | the edited rule toggles as `ToggleEditing` states |
| SettingsPanel.RuleEditor.HandleUpdateRule | frontend/src/components/SettingsPanel.tsx:50-54 | the rules become the patched list |
| LogsPanel.FilteredScans | frontend/src/components/LogsPanel.tsx:35-42 | a scan is kept iff its status matches ("all" exactly, or equal ignoring case) and the term is empty or occurs, ignoring case, in its directory or id |
| LogsPanel.FilteredScansIsSubSeq | frontend/src/components/LogsPanel.tsx:35-42 | the kept scans keep their order; "all" with an empty term keeps every scan |
| LogsPanel.FilterIgnoresCase | frontend/src/components/LogsPanel.tsx:36-39 | the search ignores the case of the term; the status filter ignores the case of its value, except that only the exact "all" means all |
| LogsPanel.Summary | frontend/src/components/LogsPanel.tsx:122-143 | the cards are the number of scans and the sums of files and duplicates over every scan |
| LogsPanel.Total | frontend/src/components/LogsPanel.tsx:132-143 | the `reduce` sum is never negative over non-negative fields, and is the single value for one scan |
| LogsPanel.TotalAppend | frontend/src/components/LogsPanel.tsx:132-143 | the `reduce` sum distributes over concatenation |
| LogsPanel.TotalsCoverHiddenScans | frontend/src/components/LogsPanel.tsx:122-143 | the totals are the sum over the shown scans plus the sum over the hidden ones |
| LogsPanel.GetStatusColor | frontend/src/components/LogsPanel.tsx:22-33 | green for completed, red for failed, blue for running (after lower-casing); gray exactly for every other status |
| LogsPanel.StatusColorIgnoresCase | frontend/src/components/LogsPanel.tsx:22-33 | the colour does not depend on the case of the status |
| LogsPanel.ScanLabel | frontend/src/components/LogsPanel.tsx:168 | the last 8 characters of the id, or the whole id when shorter |

## Left out

- Files, threads and clocks:
  - File-system access is not modelled. This covers `Files.walk`, `createFileInfo`, the header reads and `deleteDuplicateFiles`. Their outcomes are inputs instead: `Directory`, `Creation` and `FileAccess`.
  - The scan thread is not modelled as a thread. It runs to its end inside `StartScan`, so the "SCANNING" state is never observed from outside, and concurrent access to the three maps is not modelled.
  - The `lastUpdate`/`startTime` timestamps and the result's scan time are clock readings and are not modelled. The record's creation time is a parameter.
- Foreign code:
  - SHA-256 and the PDFBox/Apache POI text extractors are foreign code. The model gives the extracted texts as parameters and describes what is hashed (`HashInput`), not the digest.
  - `new String(bytes, "UTF-8")` is not modelled as decoding. The model takes the decoded text as given.
- Numbers:
  - Floating point is not modelled: `getProgressPercentage`, `formatFileSize` and the locale formatting of numbers and dates.
  - FileScanService.Scanner.AdmitCreated: the scan's `int` counters are unbounded integers, so Java's 32-bit overflow of `processedFiles` and `duplicateCount` is not modelled.
- Unicode: lower-casing, `trim` and `\s` cover ASCII only. Full Unicode case mapping is not modelled.
- FileInfoModel.StringHashCode: folds Unicode scalar values, where Java's `String.hashCode` folds UTF-16 code units. The two differ for characters outside the Basic Multilingual Plane, so `hashCode` is modelled for BMP text only.
- Exceptions: `e.getMessage()` may be null in Java. The model always has a message string.
- Services with no logic of their own are not modelled:
  - `getScanProgress`, `getScanResult`, `getAllScanResults` and `getCurrentDuplicates` are map lookups and snapshots;
  - the REST controller, the axios/fetch clients and `App.tsx`;
  - the polling timers of the real-time view.
- FileInfoModel.FileInfo: the setters for path, name, hash, size and creation time are not modelled. Nothing in the core calls them, so those fields are constants of the class.
- The no-argument `FileInfo()` constructor is not modelled. It leaves every field null or zero for a framework to fill in, and nothing in the core calls it.
- The 6-argument `FileInfo` constructor that `createFileInfo` calls does not exist in `FileInfo.java`. The model builds records with the declared 5-argument constructor and the entry's last-modified time.
- FileScanService.Records: a built record is tied to its entry by path, name, hash, size and time. The deletion mark is not tracked, because no core code sets it.
- Browser state:
  - `JSON.parse`, `JSON.stringify` and `localStorage` are parameters.
  - A failing `localStorage.setItem` is not modelled, so `saveSettings` and `resetSettings` never throw.
- SettingsService.Json: a parsed object is a map. Repeated keys and key order are not kept, and numbers are reals.
- SettingsService.Property: reading a property models only the keys the validator reads. Prototype properties of arrays and strings are not modelled.
- SettingsPanel.RuleEditor.HandleAddRule: the new id is `Date.now()` as text, given as a parameter. The model does not claim it is fresh, because two additions in the same millisecond share it.
- SettingsPanel.RuleEditor: the text inputs that copy one field into the draft or the default path are not modelled. The same goes for `handleSaveSettings`, which only logs.
- FilesList.FileView: a file record keeps only its path and its duplicate flag, the only fields the selection logic reads.
- LogsPanel.ScanSummary: a scan keeps only the fields the history view reads. The mock activity log and the date formatting are not modelled.
