# Bythos in Dafny

Bythos inspects the firmware trust posture of a Linux host and prints one row per check. Most of
the program probes the machine. Between the probes and the report it parses binary formats, scans
tool output, composes sentences in fixed buffers and prints a JSON document. This project models
those parts and proves what they promise: parsers against encoders of the formats they read, text
readers against each other, bounded composers against the sentence they should have written, and
the printed document against a reader that recovers the report.

## How the model is written

* A loop of the C code is a method with a loop. Its contract ties the result to a specification
  function or predicate; the properties are lemmas about that function, mostly against an
  independent definition: an encoder, a list of tokens, a count, a first or last element.
  Straight-line `snprintf` texts and switches are functions.
* A `char` stands for one byte of text, and a C string is the sequence before its terminator.
  Binary buffers are sequences of integers (`Bytes`); `IsBytes` says that each is a byte. A
  failed `strstr` or `strchr` answers the length of the text. The search itself, `CText.Search`,
  is verified.
* `snprintf` is the longest prefix that fits (`CText.Stored`). `size_t` values are natural
  numbers: a difference that could wrap in C would not be a natural number, so its proof obligation
  shows that it does not. Where a bound on `size_t` decides the length of a text it is written out
  as `Decimal.SIZE_LIMIT`.
* A 32-bit PCR mask is the set of its bit numbers.
* The `EMIT_HSI` macro calls are a table of call sites with a loop over it.
* What the program asks the host for (files, EFI variables, command output) is a parameter,
  including "could not be read".

| module | content |
|---|---|
| CText, Decimal, Bytes, Checks | text searches, decimal numbers, little-endian words, rows |
| HsiReaders, QuotedTokens, FwupdReport, FwupdFlags | the two readers of the fwupd report, on any bytes and on well-formed reports |
| HsiRow, HsiExact | the HSI rows, and what they and the row for all other attributes say of a well-formed report |
| Utf8, JsonString, Json, JsonReport | UTF-8 sanitising, JSON strings, a strict JSON reader, the printed document |
| DevicePath, BootEntry, BootTypes, EfiSigDb | EFI device paths, load options, what each kind of node boots from, and signature databases |
| PeSection, SbatCsv, SbatVerdict | PE sections, SBAT entries, the revocation verdict |
| BootOrder | the walk of the boot order, its lists in fixed buffers and its rows |
| PcrMask, LuksFold, UnlockText, LuksRows | PCR masks, the fold over LUKS volumes, its rows |
| JoinNames | the short list of key names |
| MountTable | the lookup of a mount point |
| Subgroups | capacity of a subgroup, counts, exit code, the run in JSON mode |

## Findings

* `BootEntry` and `DevicePath`: the type of a boot entry is not always that of the first recognised
  node of its path. A BIOS Boot Specification node that is too short to hold its device type makes
  the classifier read the type from what stands behind it (`DevicePath.ShortBbsReadsOn` gives eight
  bytes). For all bytes the answer is the expected one if and only if nothing is misread or what is
  misread is the type expected (`DevicePath.ClassifyExactly`), and something is misread if and only
  if a known code stands behind such a node ahead of every recognised one
  (`DevicePath.MisreadExactly`). For a load option as it is written the condition is on its list of
  nodes (`BootEntry.LoadOptionRoundTrip`).
* `LuksRows`: every detail of the two binding rows is whole, but in the boot chain row of a signed
  policy without PCR 11 the specific consequence may not fit, and the general one is printed.
  `LuksRows.ChainDetail` gives the exact condition, `LuksRows.WidePolicyIsGeneral` volumes for which
  it happens and `LuksRows.WideVolume` one of them. It takes PCR numbers above 23, which a PC does
  not have: for other masks the specific consequence always fits
  (`LuksRows.PhysicalPolicyIsSpecific`).
* `BootOrder`: the fallback text of `compose_blocked_detail` is never needed.

## Model

| member | source | states |
|---|---|---|
| CText.Search | src/firmware_parsers.c:349-351 | a text search finds the least occurrence at or after its start, or nothing |
| HsiReaders.ScanValueSpan | src/firmware_parsers.c:311-326 | the value of a key is the quoted text behind its colon, with only blanks between, all of it before the bound |
| HsiReaders.IsReproducible | src/firmware_parsers.c:328-335 | an id is accepted exactly when it is short enough and every character is printable and not a backslash |
| HsiReaders.CollectNotPassing | src/firmware_parsers.c:337-400 | on any bytes the tally is that of the list of records: the failing ones, those not supported, and the first printable weak ids |
| HsiReaders.WeakWithinFailing | src/firmware_parsers.c:353-399 | the weak and the not-supported records together are exactly the failing ones, so the difference of the two counts does not wrap |
| HsiReaders.TallySnoc | src/firmware_parsers.c:372-396 | counting record by record, with the cap on ids, gives the tally of the whole list |
| HsiReaders.FindAttribute | src/firmware_parsers.c:408-483 | on any bytes the answer is the evidence of the first record whose id matches |
| HsiReaders.ReadEvidence | src/firmware_parsers.c:438-474 | a record without a readable result in its own bounds gives nothing |
| HsiReaders.ReadAction | src/firmware_parsers.c:453-473 | the action named in the flag list of the record, in the order oem, fw, os, as far as the buffer reaches |
| FwupdReport.ReadersAgree | src/firmware_parsers.c:337-483 | on every well-formed report both readers see each attribute with the same passing and not-supported status, and the status the report gives it; result, success value and action are the attribute's own, as far as their buffers reach |
| FwupdFlags.ActionOfItems | src/firmware_parsers.c:453-473 | the action found in the text of a list of flags is the one among its strings, in the order oem, fw, os |
| HsiRow.Reported.Add | src/check_fwupd.c:21-30 | a mark is counted always and its id kept while there is room |
| HsiRow.Reported.Has | src/check_fwupd.c:32-40 | an id is found exactly when it was kept |
| HsiRow.UnmappedDetail | src/check_fwupd.c:42-70 | the sentence is stored, and success means that it is whole |
| HsiRow.SentenceSays | src/check_fwupd.c:42-70 | read from its text: the sentence begins with the number hidden, the number behind "(+" and the names listed make up the same number, and the aside gives the number inapplicable |
| HsiRow.EmitOne | src/check_fwupd.c:256-282 | one call site: its row for each kind of evidence, and a mark exactly when the attribute is found failing |
| HsiRow.EmitHsi | src/check_fwupd.c:284-362 | the call sites in order, as far as rows are left, and the marks they leave |
| HsiRow.EmitBootGuard | src/check_fwupd.c:364-398 | the Boot Guard row from its two attributes, both marked when they fail |
| HsiRow.ComposeDetail | src/check_fwupd.c:419-447 | the naming loop, as a function of the ids, the shown ones and the two counts |
| HsiRow.NameLoopNames | src/check_fwupd.c:426-447 | the loop names the first unseen ids, each whole, up to the count, the list or the first name that does not fit |
| HsiRow.UnmappedRow | src/check_fwupd.c:402-461 | the row for what no other row shows, for any text and any marks |
| HsiRow.UnmappedRowSound | src/check_fwupd.c:408-461 | on any tally and marks: it warns exactly when it hides something; read from its text, it begins with the number hidden, lists the first kept ids that no row shows, as many as it counts and as fit, says how many it leaves out and how many are inapplicable; the other two texts say their number or that nothing is left |
| HsiRow.ListedAreWeak | src/check_fwupd.c:426-446 | on any report text and any marks, every id that may be listed is a printable id of a weak record and shown by no row |
| HsiRow.CheckHsi | src/check_fwupd.c:256-461 | the rows of the call sites, on Intel the Boot Guard row, and the row that accounts for the marks of all look-ups, in this order and as many as there is room for |
| HsiRow.RoomPrefix | src/check_fwupd.c:256-461 | with less room the check emits the start of what it would emit with more |
| HsiExact.MappedIdsDistinct | src/check_fwupd.c:284-398 | no attribute is looked up twice, for any vendor and any number of rows left |
| HsiExact.HiddenIsExact | src/check_fwupd.c:402-416 | on a well-formed report the subtraction gives exactly the number of weak attributes that no row looks up |
| HsiExact.ListedAreUnmapped | src/check_fwupd.c:426-446 | on a well-formed report every listed id is a weak attribute that no row looks up |
| HsiExact.UnmappedRowExact | src/check_fwupd.c:402-461 | for every vendor, a well-formed report gets a warning whose text begins with the number of weak attributes that no row looks up and whose aside counts the unmapped inapplicable ones; it is OK exactly when there is no such weak attribute, and then its number is that of the inapplicable ones |
| HsiExact.MappedRowExact | src/check_fwupd.c:256-282 | on a well-formed report a call site skips an absent or inapplicable attribute, is OK exactly when the attribute's result is its success value, or the row's when it has none, and else warns with that result and action |
| HsiExact.MappedWarning | src/check_fwupd.c:256-282 | on a well-formed report the warning of a call site is the attribute's result and the words for the action among its flags, when their list fits the buffer for it |
| HsiExact.GuardRowExact | src/check_fwupd.c:364-398 | on a well-formed report the Boot Guard row is OK exactly when the enabling attribute is reported as enabled and the verifying one, if reported, too; it is skipped exactly when the first is absent or not supported |
| HsiExact.GuardWarning | src/check_fwupd.c:384-397 | on a well-formed report an enabling attribute that is neither enabled nor inapplicable gives a warning of its result and the action among its flags |
| HsiExact.GuardWords | src/check_fwupd.c:384-397 | the name of the row and its other texts |
| Utf8.Utf8ValidLen | src/output.c:170-198 | the length of the well-formed sequence at a byte, without reading past the terminator |
| Utf8.RecognisedIsEncoded | src/output.c:170-198 | what is recognised is the encoding of a code point above ASCII |
| Utf8.EncodedIsRecognised | src/output.c:170-198 | every encoding of a code point above ASCII is recognised with its length, whatever follows |
| Utf8.SanitiseSound | src/output.c:200-225 | sanitising yields well-formed UTF-8, changes exactly the ill-formed texts and is idempotent |
| Utf8.SanitisedLength | src/output.c:213-218 | each ill-formed byte becomes one replacement character and nothing else changes the length |
| JsonString.PrintJsonString | src/output.c:200-225 | the loop prints the string in quotes, with escapes and replacements, and reads only up to the terminator |
| JsonString.StringRoundTrip | src/output.c:200-225 | for any bytes and any suffix, a strict string reader returns the sanitised string and stops at the closing quote |
| Json.ValueRoundTrip | src/output.c:250-310 | for any tree and any suffix that does not go on with a digit, a strict reader returns the tree with its strings sanitised and the suffix |
| Json.DocumentRoundTrip | src/output.c:250-310 | a printed tree is one JSON text, and reading it gives back the tree with its strings sanitised |
| JsonReport.PrintResults | src/output.c:283-299 | the loop over rows prints the text of their trees |
| JsonReport.PrintSubgroups | src/output.c:273-301 | the loop over subgroups prints the text of their trees |
| JsonReport.PrintJson | src/output.c:250-310 | the document printed by the nested loops is the text of the report's tree |
| JsonReport.DocumentRecovered | src/output.c:250-310 | reading the printed document gives back groups, rows, flags, counts and exit code, with each string sanitised |
| DevicePath.Utf16ToAscii | src/efi_boot_parsers.c:46-57 | the units up to a zero, the end or the room there is, with a question mark for each one beyond ASCII |
| DevicePath.ClassifyDevicePath | src/efi_boot_parsers.c:59-128 | the type found by walking the nodes, on any bytes, within bounds |
| DevicePath.ExtractFilePath | src/efi_boot_parsers.c:130-161 | the file path is the start of the concatenated segments, cut once by the buffer, on any bytes |
| DevicePath.SegmentsOfWalked | src/efi_boot_parsers.c:130-161 | on any bytes the path is the text of the file path nodes walked, in order |
| DevicePath.ClassifyExactly | src/efi_boot_parsers.c:59-161 | on any bytes the classifier answers the first recognised type that the extractor walks, else that of the node at which the walk ends, exactly unless another type is misread behind a short BBS node |
| DevicePath.MisreadExactly | src/efi_boot_parsers.c:76-93 | on any bytes a type is misread exactly when a known code stands behind a short BBS node ahead of every recognised node |
| DevicePath.ClassifyIsFirst | src/efi_boot_parsers.c:59-161 | without a short BBS node nothing is misread |
| DevicePath.RecognisedIsDecided | src/efi_boot_parsers.c:59-161 | without any condition, a recognised node that the extractor walks is not overlooked by the classifier |
| DevicePath.ShortBbsReadsOn | src/efi_boot_parsers.c:76-93 | bytes on which a short BBS node is classified by the node behind it |
| DevicePath.PathDecides | src/efi_boot_parsers.c:112-152 | a nonempty path means that the device path decided the type |
| DevicePath.WalkersOnEncoded | src/efi_boot_parsers.c:59-161 | both walkers on any encoded path, whatever stands behind the end node: all segments, and the first recognised type exactly unless another one is misread |
| DevicePath.MisreadEncoded | src/efi_boot_parsers.c:76-93 | in an encoded path a short BBS node takes its type from the kind and subtype of the next node |
| DevicePath.FilePathNodeText | src/efi_boot_parsers.c:150-157 | a file path node of any name contributes the start of that name |
| BootEntry.ClassifyDescription | src/efi_boot_parsers.c:163-180 | the type by words of the lower-case description, USB before network before CD |
| BootEntry.ParseEntry | src/efi_boot_parsers.c:211-270 | fewer than twelve bytes fail; otherwise the entry is that of the variable's bytes |
| BootEntry.FilePathDecides | src/efi_boot_parsers.c:252-267 | a nonempty file path means that the type came from the device path, not the description |
| BootEntry.LoadOptionRoundTrip | src/efi_boot_parsers.c:211-270 | writing any load option and parsing it returns its active bit, the start of its description and of the concatenated file path, and the promised type exactly unless another one is misread in its path |
| BootEntry.CompleteRoundTrip | src/efi_boot_parsers.c:211-270 | with complete nodes only, the type is that of the first recognised node, else of the description |
| BootTypes.MediumRoundTrip | src/efi_boot_parsers.c:59-128 | a written load option is DISK, CD, USB or NETWORK by the first of sixteen kinds of node in its path, each with its own code and any payload, behind any hardware, ACPI and port nodes and with anything behind it |
| BootTypes.DescribedMedium | src/efi_boot_parsers.c:163-180 | the type of a description by the words it holds, in capitals or small letters |
| BootTypes.DescriptionRoundTrip | src/efi_boot_parsers.c:163-270 | a written load option whose path names no medium has the type that its description names, and never DISK |
| BootEntry.ParseOrder | src/efi_boot_parsers.c:182-209 | every entry of the order, the first 32 when there are more, and whether it was cut |
| BootEntry.ParseNext | src/efi_boot_parsers.c:272-281 | the number that was written in a BootNext variable, and no other, whatever follows it |
| EfiSigDb.CountLists | src/efi_boot_parsers.c:295-333 | of a variable that is four attribute bytes and a database, the number of its lists; a positive count is that of some such database; no length difference wraps |
| EfiSigDb.CountsEncoded | src/efi_boot_parsers.c:304-330 | every encoded chain is counted list by list, whatever follows it |
| EfiSigDb.CountedExactly | src/efi_boot_parsers.c:295-333 | the count is n > 0 exactly when the bytes are the encoding of n valid signature lists |
| EfiSigDb.CountedVariable | src/efi_boot_parsers.c:295-333 | the count of a whole variable: n lists behind the attributes are counted as n, and a count n > 0 means that there are n |
| EfiSigDb.UniqueDecomposition | src/efi_boot_parsers.c:304-330 | a database is the encoding of at most one list of signature lists |
| EfiSigDb.CountsAdd | src/efi_boot_parsers.c:295-333 | counts add under concatenation, and a malformed second part spoils the whole |
| PeSection.CheckHeaders | src/firmware_parsers.c:608-629 | the header checks decide well-formedness, within bounds for every input |
| PeSection.MatchName | src/firmware_parsers.c:638-646 | a header matches exactly when its name field is the padded name |
| PeSection.FirstNamedIsLeast | src/firmware_parsers.c:634-648 | the header found is the first one of the name |
| PeSection.ExtractSection | src/firmware_parsers.c:597-672 | success exactly when the headers are well formed and the first section of the name is in the file and fits; then exactly that slice is copied and the rest of the buffer stays; on failure the whole buffer stays |
| PeSection.BuildThenExtract | src/firmware_parsers.c:597-672 | building an image and extracting a section returns its payload without the padding |
| PeSection.BuildWithout | src/firmware_parsers.c:634-671 | a name that no section of a built image carries is not found |
| SbatCsv.ParseCsv | src/firmware_parsers.c:674-729 | the entries of the text, or the first ones when there is less room |
| SbatCsv.EntriesAppend | src/firmware_parsers.c:679-726 | parsing is a homomorphism on lines: for a text without NUL, a line end and more text, the entries add up |
| SbatCsv.EntriesUntilNul | src/firmware_parsers.c:680 | what stands behind a NUL is not read |
| SbatCsv.GenerationOfDec | src/firmware_parsers.c:704-719 | every generation up to UINT_MAX reads back from its decimal form |
| SbatCsv.GenerationExact | src/firmware_parsers.c:704-719 | a field denotes a generation exactly when it has at most sixteen characters, which are white space, a sign that only stands behind some, and digits of a value up to UINT_MAX; behind a minus only zero |
| SbatCsv.LineRoundTrip | src/firmware_parsers.c:694-724 | a printed line holds its entry, whatever its further columns are |
| SbatCsv.CsvRoundTrip | src/firmware_parsers.c:674-729 | printing entries with any further columns and parsing them returns the entries in order |
| SbatVerdict.Inventory.Collect | src/check_boot_chain.c:422-458 | the entries of one bootloader behind those already there, capped at 32, and the two flags |
| SbatVerdict.CollectBoth | src/check_boot_chain.c:474-494 | after shim and grub the array holds the first 32 of their entries, shim before grub |
| SbatVerdict.WorstRevoked | src/check_boot_chain.c:550-561 | several revocations of a component collapse to the greatest |
| SbatVerdict.Judge | src/check_boot_chain.c:549-577 | OK when nobody offends, else a warning that names the first offender and the greatest revoked generation |
| SbatVerdict.FindPolicy | src/firmware_parsers.c:570-577 | a policy is present when the text is not blank and does not say that there is none |
| SbatVerdict.CheckBootloaderSbat | src/check_boot_chain.c:460-577 | a verdict exactly when both binaries were read as far as there was room, something is installed and something is revoked; otherwise a SKIP or the row of the query |
| SbatVerdict.VerdictExact | src/check_boot_chain.c:549-577 | OK exactly when every installed generation is at least every revoked generation of its component |
| SbatVerdict.VerdictMonotone | src/check_boot_chain.c:549-577 | more revocations or more entries never turn a warning into OK |
| SbatVerdict.EntriesBounded | src/firmware_parsers.c:699-724 | names of entries have 1 to 63 characters and generations at most UINT_MAX |
| SbatVerdict.WarnWhole | src/check_boot_chain.c:562-571 | the warning is never cut: it is the component, its installed generation and the revoked minimum, each read from its own place in the text |
| SbatVerdict.CollectsBuilt | src/check_boot_chain.c:443-457 | an image built around printed lines gives back their entries |
| SbatVerdict.PipelineExact | src/check_boot_chain.c:443-577 | for images and a revocation list built around printed lines, within the caps: OK exactly when every installed generation is at least every revoked one of its component, else a warning |
| BootOrder.DisplayDescription | src/check_bios_boot.c:56-67 | the description in printable characters, with dots when it does not fit |
| BootOrder.DisplayShows | src/check_bios_boot.c:56-67 | character by character: 39 of them or all, a question mark for each unprintable one, and three dots at the end of a longer one |
| BootOrder.AppendEntryId | src/check_bios_boot.c:38-51 | an identifier is appended whole or not at all |
| BootOrder.BootIdReads | src/check_bios_boot.c:38-51 | an identifier is "Boot" and four hexadecimal digits that read back as the number of the entry |
| BootOrder.AppendUnclassified | src/check_bios_boot.c:69-88 | an identifier with its description is appended whole or not at all |
| BootOrder.AppendStep | src/check_bios_boot.c:192-237 | one entry changes the list, flag or counter of its category only |
| BootOrder.WalkOrder | src/check_bios_boot.c:192-237 | after the walk every list, flag and counter is that of its category |
| BootOrder.DescribeIncompleteOrder | src/check_bios_boot.c:111-139 | with the reserved list sizes every clause is written in full, in at most 211 characters |
| BootOrder.EmitMedium | src/check_bios_boot.c:102-109 | the row of a medium with its full sentence: the fallback detail is never used |
| BootOrder.CheckBootOrder | src/check_bios_boot.c:166-284 | the three rows for any order and any readable or unreadable variables |
| BootOrder.RowState | src/check_bios_boot.c:239-284 | WARN exactly when an active readable entry boots from the medium; OK exactly when none does, the order was not capped, all entries were read and every active one classified; else SKIP |
| BootOrder.WrittenRowState | src/check_bios_boot.c:192-284 | for variables written as load options of complete nodes, the state of a medium's row in terms of those options |
| BootOrder.RowsByType | src/check_bios_boot.c:239-284 | each row has its own name and warns exactly when an active readable entry has its own type; a skipped one names its medium |
| BootOrder.DetailWhole | src/check_bios_boot.c:239-284 | no detail is cut |
| BootOrder.CausesNamed | src/check_bios_boot.c:111-139 | a clause is there exactly when its cause is, begins with the first entry concerned, lists whole items in order, and says "and more" exactly when one is left out |
| BootOrder.UnreadableListed | src/check_bios_boot.c:185-200 | unreadable entries: the first four, and "and more" beyond four |
| BootOrder.MediumListed | src/check_bios_boot.c:173-225 | entries of a medium: the first twenty-two, and "and more" beyond that |
| BootOrder.KeptExactly | src/check_bios_boot.c:38-88 | one more item is kept exactly when it fits behind those kept |
| BootOrder.ActiveReads | src/check_bios_boot.c:239-284 | the text of a warning: the first twenty-two entries of the medium, and "and more" beyond that |
| BootOrder.BlockedReads | src/check_bios_boot.c:111-139 | the text of what blocks an OK, clause by clause |
| PcrMask.PcrMaskToStr | src/check_luks.c:13-24 | the bits below the place where the printer stops, in order, within the buffer |
| PcrMask.ScanLine | src/storage_parsers.c:97-135 | the PCR list of a line, for the reader whose lines it belongs to |
| PcrMask.ScanPcrs | src/storage_parsers.c:82-142 | the mask of the first line of the window that sets a bit; success exactly when one does |
| PcrMask.RenderedNumbers | src/check_luks.c:13-24 | the printed bits read back as the mask restricted to them |
| PcrMask.ScanReaches | src/storage_parsers.c:93-139 | the scanner skips lines that set nothing and answers the first that sets a bit |
| PcrMask.PrintedBits | src/check_luks.c:16-23 | a nonzero mask shows at least one bit, and all of them when the printer does not stop early |
| PcrMask.StopExactly | src/check_luks.c:16-23 | the printer stops at the first bit before which the text already has 58 characters, and nowhere else |
| PcrMask.SignedScanned | src/storage_parsers.c:82-152 | in a dump whose only PCR list is that of a signed policy, its reader returns the mask and the other reader nothing |
| PcrMask.DumpRoundTrip | src/storage_parsers.c:82-152 | in a dump with printed hash and signed masks each reader returns its own mask, restricted to the bits printed, and never the other's |
| LuksFold.ParseVersion | src/storage_parsers.c:66-75 | the version digit behind the key and blanks, else 0 |
| LuksFold.VersionExact | src/storage_parsers.c:66-75 | the version is 1 or 2 exactly when that digit stands behind the first "Version:" of the text and blanks, and nothing else is a version |
| LuksFold.ClassifyBinding | src/check_luks.c:249-282 | how a dump is bound, with the hash policy before the signed one |
| LuksRows.HashFirst | src/check_luks.c:249-261 | a dump with a printed hash policy counts for that policy, also when it holds a signed one |
| LuksRows.OtherBindings | src/check_luks.c:262-282 | a dump with a signed policy only counts for that one, and a dump without a token for clevis or for nothing |
| LuksFold.PopCount | src/check_luks.c:253-255 | the number of bits of a mask |
| LuksFold.FoldVolumes | src/check_luks.c:213-289 | after the loop every counter, flag and mask is that of the list of volumes |
| LuksFold.CountersPartition | src/check_luks.c:195-289 | found = ok + failed; ok splits by version, and by hash, signed, unparsed, clevis and no token |
| LuksFold.WeakestIsFirst | src/check_luks.c:202-274 | the kept mask is the first of those with the fewest bits; the sentinel stays exactly when every mask has all bits |
| LuksRows.CheckVolumes | src/check_luks.c:291-470 | the five rows as functions of the counters |
| LuksRows.RowNames | src/check_luks.c:306-377 | the names of the first three rows, in every state |
| LuksRows.BindingNames | src/check_luks.c:379-468 | the names of the two binding rows, in every state |
| LuksRows.VersionOk | src/check_luks.c:306-332 | OK exactly when there is a volume and every one was dumped as LUKS2 |
| LuksRows.VersionOkExact | src/check_luks.c:306-332 | from the dump texts: OK exactly when there is a volume and every one was dumped with '2' behind its first "Version:" and blanks |
| LuksRows.VersionRowExact | src/check_luks.c:306-332 | from the dump texts: it warns exactly when some volume shows '1' and every one '1' or '2', and the numbers in both texts are those of the volumes with that digit |
| LuksRows.VersionSkips | src/check_luks.c:306-332 | which volumes leave the version unjudged, and their number in the text |
| LuksRows.IntegrityOk | src/check_luks.c:334-352 | OK exactly when there is a volume and every one was dumped with integrity |
| LuksRows.IntegrityOkExact | src/check_luks.c:334-352 | from the dump texts: OK exactly when there is a volume and every one was dumped with "integrity:" |
| LuksRows.IntegrityWords | src/check_luks.c:334-352 | the numbers in its text are those of the volumes with integrity and of all of them |
| LuksRows.IntegritySkips | src/check_luks.c:334-352 | which volumes leave integrity unjudged, and their number in the text |
| LuksRows.TpmBindingOk | src/check_luks.c:354-377 | with a TPM, OK exactly when there is a volume and every one was dumped and has a systemd-tpm2 token |
| LuksRows.TpmWarns | src/check_luks.c:354-377 | when the binding row warns, in terms of the volumes; without a TPM it is skipped, and it never fails |
| LuksRows.TpmWords | src/check_luks.c:354-377 | the text when some volume has the token: the numbers of unreadable and of all volumes, or that one has no token |
| LuksRows.TokenlessWords | src/check_luks.c:354-377 | the text when no volume has the token: clevis, nothing, or nothing read |
| LuksRows.SecureBootState | src/check_luks.c:379-442 | when the Secure Boot row is OK, in terms of the volumes and the kept mask |
| LuksRows.ChainState | src/check_luks.c:379-468 | when the boot chain row is OK, in terms of the volumes and the kept masks |
| LuksRows.BindingSkips | src/check_luks.c:379-468 | with a token, a binding row is skipped exactly when a volume could not be dumped or no list of PCRs is there to judge; its text has the number of unreadable volumes |
| LuksRows.BindingAbsent | src/check_luks.c:379-468 | without a token, a binding row is skipped, and its text says what there is instead |
| LuksRows.SecureBootWords | src/check_luks.c:395-442 | the Secure Boot finding in words, by the bits of the mask, with the number of unreadable bindings |
| LuksRows.ChainWords | src/check_luks.c:404-468 | the boot chain finding in words, by the bits of the mask, with the number of unreadable bindings |
| LuksRows.SecureBootDetail | src/check_luks.c:395-442 | the Secure Boot detail always carries the whole consequence its mask calls for |
| LuksRows.ChainDetail | src/check_luks.c:404-468 | the boot chain detail is never cut; it carries the specific consequence exactly when that fits, else the general one, and it always fits except for a signed policy without PCR 11 |
| LuksRows.WidePolicyIsGeneral | src/check_luks.c:404-413 | a volume whose dump lists a signed policy over every PCR but 6, 8 and 11 gets the general consequence in its boot chain row |
| LuksRows.WideVolume | src/check_luks.c:404-413 | there is such a volume |
| LuksRows.PhysicalPolicyIsSpecific | src/check_luks.c:404-468 | a judged policy over PCRs 0 to 23 always gets its specific consequence in full |
| UnlockText.AppendClause | src/check_luks.c:37-48 | a clause is appended whole or not at all |
| UnlockText.ComposeList | src/check_luks.c:73-84 | the list of updates is complete |
| UnlockText.AppendUnlockConsequences | src/check_luks.c:50-99 | the specific clause, else the general one, else nothing; never a part |
| UnlockText.ConsequenceLength | src/check_luks.c:50-99 | the longest clause over all masks |
| UnlockText.UpdatesNamed | src/check_luks.c:50-72 | which update each PCR of a mask stands for |
| UnlockText.ListWords | src/check_luks.c:73-84 | how one to five names are listed: with "or" for two, and commas and ", or" for more |
| UnlockText.ConsequenceWords | src/check_luks.c:50-99 | the words of the consequence for every mask, with or without a signed policy |
| JoinNames.CountNonemptyLines | src/firmware_parsers.c:57-84 | the number of lines with anything but blanks |
| JoinNames.LinesCounted | src/firmware_parsers.c:57-84 | the count of a text written line by line is the number of lines with anything but blanks |
| JoinNames.ParseLine | src/firmware_parsers.c:115-138 | the hash and the trimmed name of a line, when it has both |
| JoinNames.EmitRecord | src/firmware_parsers.c:140-186 | a label is appended whole with its separator, or not at all |
| JoinNames.JoinShortListNames | src/firmware_parsers.c:90-209 | the buffer is the labels in order and, exactly when a record is left out, a text in which the number read and the number of labels make up the total; behind a label that text always fits, for every 64-bit count; without labels the number is the total |
| JoinNames.LabelsOfChosen | src/firmware_parsers.c:140-186 | the labels stand for some of the records, in order, and carry the hash exactly when the tracked name is taken |
| JoinNames.LeftOutNoRoom | src/firmware_parsers.c:140-186 | a record is left out exactly when all names allowed are there or its label does not fit |
| JoinNames.ListRecords | src/firmware_parsers.c:111-138 | printed lines of a hash and a name, with any blanks around them, give back their records in order |
| JoinNames.RecordsWithinLines | src/firmware_parsers.c:57-209 | the total never exceeds the count of nonempty lines of the same text |
| MountTable.FindMountEntry | src/runtime.c:286-353 | success exactly when the point is mounted and its fields fit; then both fields are copied; on failure the buffers stay |
| MountTable.LookupExact | src/runtime.c:299-333 | in a printed table the lookup gives the mount in force over the point |
| MountTable.LastInForce | src/runtime.c:323-329 | the mount behind which no other follows over the point is the one in force |
| Subgroups.SummaryAdd | src/output.c:140-155 | the counts of some rows become the counts of one row more |
| Subgroups.Buffer.RunFunction | src/check_groups.c:47-53 | one check function: the rows kept are the first 32 of all so far, and a dropped row sets the flag |
| Subgroups.Finalize | src/check_groups.c:28-32 | the counts are those of the rows kept |
| Subgroups.RunFunctions | src/check_groups.c:42-54 | a subgroup keeps the first 32 rows of the concatenation |
| Subgroups.RunSubgroups | src/check_groups.c:34-58 | the subgroups in order, each with its rows, counts and flag |
| Subgroups.TruncatedExactly | src/check_groups.c:42-53 | the flag is set exactly when a row was dropped or a function was not run |
| Subgroups.CountsSum | src/output.c:140-155 | the four counts sum to the rows kept |
| Subgroups.MergeSummaries | src/main.c:67-74 | the overall counts are the sums, and the exit code follows the failures |
| Subgroups.ExitCodeExact | src/main.c:67-74 | the exit code is 1 exactly when some row that was kept is FAIL |
| Subgroups.OverallCounts | src/main.c:67-74 | the overall counts are those of all rows kept |
| Subgroups.RunJson | src/main.c:67-86 | what is printed is the document of the subgroups run, their overall counts and the exit code returned |
| Subgroups.RunRecovered | src/main.c:67-86 | a reader of the printed run finds the kept rows of every subgroup, their counts and flags and the exit code, with each string sanitised |
| Subgroups.RunStatesRecovered | src/output.c:157-310 | a reader of the printed run finds in each subgroup, in the group and overall the state of the worst row kept: FAIL, else WARN, else OK, else SKIP; and the meaning of the exit code |

## Left out

- Probing: processes, pipes, timeouts, files, ioctls, environment and PATH resolution; their results are parameters.
- Terminal output, colours, option parsing, the usage text and the man page.
- Rows for a report, variable, tool or directory that is not available; they are one fixed text each.
- The checks without a loop or a composition: BIOS_CNTL, DCI, ME version, Thunderbolt, microcode, memory encryption, sbctl, ESP vendors, TPM thresholds, the one-shot boot row and the substring classifiers.
- The rows of `bythos_check_fwupd` before the HSI rows, and the LUKS block device row; single switches over a status.
- The lines of `lsblk` that name the LUKS volumes: the fold starts from the list of volumes.
- FwupdReport.ReadersAgree: the report grammar has string and string-list fields, which is what the readers look at; numbers, booleans and nested objects in a record, and key names that occur as values, are outside it. The action is tied to the flags when a pair of brackets encloses their list.
- Json.DocumentRoundTrip: the reader accepts the part of RFC 8259 that the printer can produce and rejects fractions, exponents and null; a text it accepts is a JSON text.
- HsiRow.EmitHsi: the `EMIT_HSI` calls are a table and a loop; the order and the texts are those of the calls.
- SbatVerdict.CheckBootloaderSbat: the revocation text is taken as it stands after its trailing blanks were cut; why `mokutil` could not be asked is one parameter.
- PcrMask.DumpRoundTrip: for dumps whose other lines do not name PCRs and whose token lines lie in the window of 512 bytes that the scanner reads.
- BootOrder.CheckBootOrder: a variable longer than the read buffer counts as unreadable, as in the source; the identifiers are those of a parsed order, so below 65536.
- Subgroups.RunFunctions: a subgroup may have any number of check functions; the table of the source has room for six.
- Subgroups.Buffer.Produce: a check function is its complete list of rows; that each real check emits a prefix of its rows when it is given less room is the contract of the `EMIT` macros, proved for the HSI rows (`HsiRow.RoomPrefix`).
- Locale: `tolower` and `isspace` are those of the C locale.
