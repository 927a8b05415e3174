# nativefiledialog, modelled in Dafny

nativefiledialog offers one small C API on every desktop platform:
`NFD_OpenDialog`, `NFD_OpenDialogMultiple`, `NFD_SaveDialog` and
`NFD_PickFolder`. Each asks the native toolkit for a file dialog and hands
back an `nfdresult_t` (`NFD_ERROR` = 0, `NFD_OKAY` = 1, `NFD_CANCEL` = 2).
Some also hand back a single path or an `nfdpathset_t`. A path set is one
flat buffer of NUL-terminated strings plus an array of offsets into it and
a count. Around the toolkit calls, every backend does the same kinds of
work on bytes:

- it translates the filter mini-language (`"png,jpg;pdf"`: ',' separates
  extensions, ';' separates groups) into the toolkit's own filter form;
- it packs the selection into the path-set layout;
- it copies strings with bounded copies;
- it reports failures through a global error slot.

The GTK backend also runs the dialog in a forked child and sends the result
to the parent over a pipe.

This project models that byte-level logic, backend by backend. Each module
follows the form of its source:

- imperative code becomes methods with loops, arrays, classes and
  invariants;
- pure decisions become functions.

Each operation is proved against a reference definition. The properties
the code promises are lemmas about those definitions.

Modules:

- `Bytes`, `Wrappers`, `Nfd`, `Memory` and `FilterList` are shared
  vocabulary. They cover:
  - C strings over `seq<byte>`: `Strlen` and `CStr`;
  - the packed layout: `Joined`, `Offset`, `Offsets` and `Pack`;
  - native words on the wire;
  - `memcpy` and `strcat` on arrays;
  - splitting and joining at a separator. Every filter translator is
    related to this split and join.
- `Common` covers `src/nfd_common.c`:
  - `NFDi_SafeStrncpy`;
  - `NFDi_UTF8_Strlen`;
  - `NFDi_IsFilterSegmentChar`;
  - the path-set accessors;
  - the error slot `g_errorstr`, as the class `ErrorContext`.
- `GtkChannel`, `GtkFilter`, `GtkPathSet` and `GtkDialog` cover
  `src/nfd_gtk.c`:
  - the `NFDi_write`/`NFDi_read` helpers, over a scripted sequence of
    system-call outcomes;
  - the filter scan;
  - the path set built from the GTK file list;
  - the parent/child frames and the mapping of exit statuses to results.
- `Win32` holds what the two legacy Windows backends share: the
  `OPENFILENAME` request and the `dir\file` paths of a multiple selection.
  The backends themselves are:
  - `WinXpFilter` and `WinXp` for `src/nfd_win_xp.c`, non-Unicode build;
  - `WinLegacy` for `src/nfd_win_legacy.c`.
- `Haiku` covers `src/nfd_haiku.cpp`:
  - the `ExtensionRefFilter` class;
  - the port protocol;
  - the name copies, the path set and the save path.
- `Qt` covers `src/nfd_qt.cpp`:
  - the name filters;
  - the one dialog routine behind the four entry points.

Everything the toolkit, the kernel or the allocator decides is a parameter
of the model. This covers:

- the selection a dialog returns, and whether it was dismissed;
- each system call's outcome;
- the child's exit status;
- whether an allocation succeeds.

Where the library's description of its behaviour and its code differ, the
model follows the code, except where "## Findings" corrects it:

- `NFDi_write`/`NFDi_read` end with `ESHUTDOWN` on EINTR and EAGAIN. They
  do not retry them.
- A GTK child that fails writes nothing. Its parent then fails to read the
  length word and returns `NFD_ERROR`; it does not return `NFD_CANCEL`,
  and it does not wait for the child.
- A GTK child that was cancelled still writes the length word, then
  writes `len` bytes from a NULL buffer. Each such `write` fails with
  `EFAULT` and is retried, so for a positive `len` left over from the
  dialog the child never finishes and the parent never returns. Only a
  `len` of 0 completes, and the parent then returns `NFD_CANCEL` with an
  empty path. The path-set child writes the caller's `outPaths` the same
  way.
- Qt keeps the empty groups and extensions that `QString::split` yields.
  So `"txt;"` gives the extra name filter `"*."`.
- For an empty filter list, GTK adds no filter at all, not even the
  wildcard.

## Model

| member | source | states |
|---|---|---|
| Nfd.ResultOfCode | src/include/nfd.h:27-31 | the three results are exactly the codes 0, 1 and 2; each result's code maps back to it |
| Bytes.JoinedAt | src/include/nfd.h:21-25 | in the packed layout, string i starts at the sum of the earlier lengths plus one each; it is followed by its NUL, so the C string read there is exactly the i-th input |
| Common.GetPath | src/nfd_common.c:36-42 | for a valid slot, the path returned is NUL-free and stands, with its NUL, at `buf + indices[num]` |
| Common.PackRecovers | src/nfd_common.c:30-42 | a packed path set's count is the number of inputs; `GetPath(i)` is readable for every i and returns the i-th input |
| Common.PathSetFree | src/nfd_common.c:44-49 | both pointers are released together and the count is kept; no slot can be read afterwards |
| Common.SafeStrncpy | src/nfd_common.c:88-113 | it reports truncation exactly when `strlen(src) >= maxCopy`; the destination becomes what `SafeCopied` describes, and bytes before `at` are kept |
| Common.CopyBounded | src/nfd_common.c:96-100 | the copy loop stops at the source's NUL or after `maxCopy` bytes, whichever comes first; it writes only those bytes |
| Common.SafeCopiedFits | src/nfd_common.c:96-112 | a source shorter than `maxCopy` is copied exactly, NUL included; nothing past the copy changes |
| Common.SafeCopiedTruncates | src/nfd_common.c:96-108 | a longer source keeps its first `maxCopy - 1` bytes and then a NUL at `maxCopy - 1`; no byte from `maxCopy` on is written |
| Common.UTF8Strlen | src/nfd_common.c:117-160 | the result is the number of bytes that do not have the form 10xxxxxx, after a BOM that is skipped only when `strlen > 2` |
| Common.Utf8LengthBounds | src/nfd_common.c:128-157 | the count is never negative, so -1 is never returned; it is at most `strlen`, and equals it for ASCII text |
| Common.ByteClasses | src/nfd_common.c:139-155 | the three byte tests cover every byte value, so the `return -1` branch is unreachable |
| Common.IsFilterSegmentChar | src/nfd_common.c:162-165 | true exactly for ',', ';' and NUL |
| Common.ErrorContext.constructor | src/nfd_common.c:21 | the slot starts out holding the empty message |
| Common.ErrorContext.GetError | src/nfd_common.c:25-28 | the stored message is NUL-free and shorter than `NFD_MAX_STRLEN` |
| Common.ErrorContext.SetError | src/nfd_common.c:81-85 | afterwards `GetError` returns the message cut to `NFD_MAX_STRLEN - 1` bytes; the flag the assertion tests is set exactly when a cut happened |
| GtkChannel.Transfer | src/nfd_gtk.c:28-54 | the byte count never falls and never passes what the peer can supply; success means exactly `sz` bytes moved, and `ESHUTDOWN` means fewer |
| GtkChannel.RetryCall | src/nfd_gtk.c:32-45 | the inner loop repeats a call only on a hard error; EINTR and EAGAIN leave `rc` as 0; the step it takes agrees with `Transfer` |
| GtkChannel.NFDiWrite | src/nfd_gtk.c:25-55 | status, bytes written and calls used are what `Transfer` gives; the bytes on the wire are a prefix of the buffer |
| GtkChannel.NFDiRead | src/nfd_gtk.c:59-89 | status, bytes read and calls used are what `Transfer` gives for a pipe holding that much; the data read and the data left are the pipe's contents in order |
| GtkChannel.TransferSkipsHardErrors | src/nfd_gtk.c:32-45 | any run of hard errors is retried and changes nothing |
| GtkChannel.TransferInterrupted | src/nfd_gtk.c:36-51 | after any number of hard errors, one EINTR or EAGAIN ends the transfer: `ESHUTDOWN` if bytes are still missing, success otherwise |
| GtkChannel.InterruptedBeforeFirstByte | src/nfd_gtk.c:22-51 | contrary to the comment, an EINTR before the first byte ends an 8-byte write with `ESHUTDOWN` and nothing written |
| GtkChannel.TransferCompletes | src/nfd_gtk.c:28-54 | with a peer that supplies everything, enough calls that each move bytes complete the transfer with exactly `sz` bytes |
| GtkChannel.TransferDrains | src/nfd_gtk.c:62-88 | a reader whose pipe holds fewer than `sz` bytes drains them all, then ends with `ESHUTDOWN` |
| GtkChannel.NullBufferHangs | src/nfd_gtk.c:32-45 | a write of a positive size from a NULL buffer fails with `EFAULT` on every call, is retried each time, and uses up every call without moving a byte |
| GtkFilter.AddTypeToFilterNameAsWritten | src/nfd_gtk.c:91-103 | as written; when the result fits, it is the old name, ", " and the type |
| GtkFilter.AddTypeToFilterNameOverflows | src/nfd_gtk.c:91-103 | as written, a 254-byte name plus one more type yields more than the 256-byte buffer holds |
| GtkFilter.AddTypeToFilterName | src/nfd_gtk.c:91-103 | corrected: the result always fits the buffer, keeps the old name, and is a prefix of name + ", " + type; it is all of that when it fits |
| GtkFilter.Pattern | src/nfd_gtk.c:127 | `snprintf("*.%s")`: always fits the buffer, is a prefix of "*." + ext, and is all of it for a short extension |
| GtkFilter.FilterNameJoins | src/nfd_gtk.c:91-103 | a name that fits is the group's extensions joined with ", ", in order |
| GtkFilter.EmptyExtensionsRejected | src/nfd_gtk.c:124-125 | `"txt;"` and `"a,,b"` violate the scan's assertion that every extension is non-empty |
| GtkFilter.TranslationShape | src/nfd_gtk.c:113-165 | a non-empty list gives one filter per ';'-group, in order, with one pattern per extension, and then the `"*.*"`/`"*"` wildcard |
| GtkFilter.ScanByte | src/nfd_gtk.c:120-157 | one pass of the scan keeps the scan state invariant; at the terminator the filters are those of every group |
| GtkFilter.AddFiltersToDialog | src/nfd_gtk.c:105-166 | the filters added are `Translation` of the list: none at all for NULL or "", otherwise the groups' filters and the wildcard |
| GtkPathSet.FillPathSet | src/nfd_gtk.c:213-230 | the buffer becomes the paths packed back-to-back, each with its NUL, and `indices` their offsets |
| GtkPathSet.PathSetFromList | src/nfd_gtk.c:181-235 | count is the list length, the buffer size is the sum of lengths plus one each, and the set is `Pack(list)`; a failed index allocation gives `NFD_ERROR` with only the count written |
| GtkDialog.WordsRoundTrip | src/nfd_gtk.c:453 | an index array survives its trip through the pipe as 8-byte words |
| GtkDialog.WriteFrom | src/nfd_gtk.c:25-55 | the bytes put on the pipe are a prefix of the buffer's contents, all of them on success; a NULL buffer of positive size puts nothing on the pipe and never returns |
| GtkDialog.WriteBuffer | src/nfd_gtk.c:25-55 | `NFDi_write` on a buffer that may be NULL does what `WriteFrom` says |
| GtkDialog.ChildSendSingle | src/nfd_gtk.c:320-335 | the child does what `SentSingle` says: nothing after `NFD_ERROR`; otherwise the length word and, once that completes, `len` bytes from `buf`, which stays NULL after a cancel; the wire is always a prefix of the length word and the buffer's contents |
| GtkDialog.ChildSendPathSet | src/nfd_gtk.c:440-456 | the child does what `SentPathSet` says: count, indices, buffer size and buffer, each only if the one before completed, from pointers that may be NULL; nothing after `NFD_ERROR`; the wire is always a prefix of the full frame |
| GtkDialog.ExitResult | src/nfd_gtk.c:362-367 | a normal exit returns the exit code; a signal returns `NFD_ERROR` |
| GtkDialog.ParentReceiveSingle | src/nfd_gtk.c:313-369 | the parent does what `ReceiveSingle` says: any failed pipe, fork, read or allocation returns `NFD_ERROR` without waiting |
| GtkDialog.ParentReceivePathSet | src/nfd_gtk.c:464-503 | fields are read in the child's order; any failed read or allocation frees and nulls both pointers and returns `NFD_ERROR` |
| GtkDialog.ReceiveFields | src/nfd_gtk.c:470-503 | after the count word, any failed allocation or read ends at `fail` with both pointers NULL and the count as read; reading the whole frame returns the child's exit result with that count |
| GtkDialog.ReadFields | src/nfd_gtk.c:470-496 | the reads after the count word do what `ReceiveFields` says |
| GtkDialog.SingleRoundTrip | src/nfd_gtk.c:330-363 | for every split of the bytes into calls under which each write and each read completes, a path sent by a child whose dialog succeeded reaches the parent unchanged, and the parent returns `NFD_OKAY` |
| GtkDialog.CancelledChildHangs | src/nfd_gtk.c:319-335 | a cancelled child with a positive stale `len` writes the length word, then retries `EFAULT` on its NULL `buf` until every call is used; the parent never receives a path |
| GtkDialog.CancelledEmptyFrame | src/nfd_gtk.c:330-363 | a cancelled child whose stale `len` is 0 sends only the length word; the parent stores a zero-byte path and returns `NFD_CANCEL` |
| GtkDialog.NoFrameIsError | src/nfd_gtk.c:343-357 | a frame shorter than the length word gives `NFD_ERROR` without waiting, whatever the reads do |
| GtkDialog.FailedChildIsError | src/nfd_gtk.c:330-357 | a failed child's empty pipe is reported as `NFD_ERROR`, never `NFD_CANCEL` |
| GtkDialog.SentPathSetComplete | src/nfd_gtk.c:449-456 | for every split of the bytes into calls under which each write completes, the child's four writes put the full frame on the wire and use exactly those calls |
| GtkDialog.ReceivePathSetComplete | src/nfd_gtk.c:464-493 | for every split of the bytes into calls under which each read completes, the parent reads the frame back field by field and returns the child's exit code |
| GtkDialog.PathSetRoundTrip | src/nfd_gtk.c:449-493 | for every split of the bytes into calls under which each write and each read completes, a packed path set sent by a child whose dialog succeeded arrives as `Pack(paths)` with `NFD_OKAY` |
| GtkDialog.CancelledPathSetHangs | src/nfd_gtk.c:447-456 | a cancelled child sends the caller's `*outPaths`; with a NULL index pointer and a positive count it retries `EFAULT` after the count word until every call is used, and the parent never waits for it |
| GtkDialog.SignaledIsError | src/nfd_gtk.c:365-367 | a child killed by a signal yields `NFD_ERROR`, for both frame kinds, even after a complete frame |
| Win32.DirFiles | src/nfd_win_xp.c:373-375 | the i-th path is the directory, a backslash and the i-th file name |
| Win32.DirFilesRecovered | src/nfd_win_xp.c:369-377 | the packed joined paths read back as `dir\file` for each selected file, in order |
| Win32.Flags | src/nfd_win_xp.c:246-254 | the four base flags; multi-select exactly in multi mode, the overwrite prompt exactly in save mode |
| WinXp.CopyMultiTCharToNFDChar | src/nfd_win_xp.c:21-64 | the copy is the block up to the first NUL of the double terminator; the count is its number of NULs, never 0; 0 and no copy when allocation fails |
| WinXp.SelectionCopied | src/nfd_win_xp.c:25-61 | a dialog selection's buffer is copied as the strings with their NULs, one count per string |
| WinXp.LegacyNFDWin | src/nfd_win_xp.c:202-299 | the dialog is shown exactly when both conversions succeed, with the mode's flags, the converted filter and the directory; it is cancelled when the dialog returns FALSE; a multi count above 1 drops the directory |
| WinXp.IndexSlots | src/nfd_win_xp.c:350-358 | offset i is the total size of the earlier joined paths; the buffer length is the total size of all of them |
| WinXp.FillSlot | src/nfd_win_xp.c:371-376 | `strcpy`, `strcat "\\"` and `strcat file` leave `dir\file` and a NUL at the slot; earlier bytes are kept |
| WinXp.FillSlots | src/nfd_win_xp.c:367-377 | the buffer becomes the joined `dir\file` paths packed back-to-back |
| WinXp.PathSetFromBlock | src/nfd_win_xp.c:333-377 | one or two strings hand the block over with offset 0; more strings give `Pack` of the joined paths; allocation failures give `NFD_ERROR` |
| WinXp.OpenDialogMultiple | src/nfd_win_xp.c:310-399 | Cancel exactly when the dialog is dismissed, and Okay exactly when every step succeeds; the set is the block or the joined paths |
| WinXp.MultipleSelectionPaths | src/nfd_win_xp.c:350-377 | for several files, path i reads back as `dir\file_i` and the count is the number of files |
| WinXp.SingleSelectionPath | src/nfd_win_xp.c:340-346 | a single file handed over with offset 0 is the path set of that one path |
| WinXp.PickFolder | src/nfd_win_xp.c:408-439 | no item gives Cancel; a failed path lookup gives Error with its message; a failed copy gives Error; otherwise Okay with the folder's path |
| WinXpFilter.WalkedExtensionsShape | src/nfd_win_xp.c:159-166 | the extension walk visits nothing exactly for an empty group, skips a leading ',', and otherwise visits every ','-piece |
| WinXpFilter.ExtPatternsJoin | src/nfd_win_xp.c:163-165 | the walk's output is the `*.e` patterns joined with ';', plus a trailing ';' |
| WinXpFilter.AppendPatterns | src/nfd_win_xp.c:159-166 | the inner loop appends `"*." + ext + ";"` for each extension walked |
| WinXpFilter.WalkGroups | src/nfd_win_xp.c:146-178 | the group walk writes each group's pattern list, a tab, then the same again |
| WinXpFilter.RewriteTabs | src/nfd_win_xp.c:186-196 | every tab before the terminator becomes a NUL; the rest is unchanged |
| WinXpFilter.Win32Layout | src/nfd_win_xp.c:146-196 | for a tab-free list, the result is each non-empty group's pattern twice, each ended by NUL, then the closing NUL |
| WinXpFilter.TrailingSeparatorIgnored | src/nfd_win_xp.c:175-178 | a trailing ';' does not start another group |
| WinXpFilter.ConvertNFDFilterList | src/nfd_win_xp.c:135-199 | it fails exactly when allocation fails; otherwise the output is the converted text with tabs rewritten to NUL |
| WinLegacy.WcharLenMulti | src/nfd_win_legacy.c:28-33 | the length of a double-NUL list, its closing NUL included (1 for an empty list); the counted prefix is the strings and that NUL |
| WinLegacy.ExpandIsJoin | src/nfd_win_legacy.c:102-119 | rewriting each ',' as `";*."` equals joining the group's extensions with `";*."` |
| WinLegacy.FilterIsList | src/nfd_win_legacy.c:83-123 | the composed filter is a double-NUL list in which entries 2k and 2k+1 are both group k's pattern |
| WinLegacy.ComposedNonEmpty | src/nfd_win_legacy.c:100-122 | the composed text always holds at least one pair of patterns |
| WinLegacy.ComposedFits | src/nfd_win_legacy.c:90-93 | the text and its closing zero fit `6 * len + 1` bytes for every list |
| WinLegacy.FilterComposeOverflows | src/nfd_win_legacy.c:90 | for `"a"` the text fills all of `len * 4` = 8 bytes, so the zero written after it lands outside |
| WinLegacy.FilterComposeAsWritten | src/nfd_win_legacy.c:83-123 | as written, with a `len * 4` destination: NULL or a failed allocation gives 0; otherwise the text, zero-filled, and its length |
| WinLegacy.FilterCompose | src/nfd_win_legacy.c:83-123 | corrected size `6 * len + 1`: the same result, for every list |
| WinLegacy.NfdToWchar | src/nfd_win_legacy.c:60-79 | NULL for length 0 or a failed allocation; otherwise the first `len + 1` characters |
| WinLegacy.WcharToNfd | src/nfd_win_legacy.c:36-55 | NULL exactly when allocation fails; otherwise the first `count` characters |
| WinLegacy.PrepareError | src/nfd_win_legacy.c:140-162 | there is no message exactly when every conversion before the dialog succeeds |
| WinLegacy.LegacyFunction | src/nfd_win_legacy.c:126-201 | the dialog is shown exactly when the conversions succeed, with the mode's flags; dismissal gives Cancel; otherwise the whole list, or an allocation error |
| WinLegacy.SinglePath | src/nfd_win_legacy.c:183-184 | for open and save, the result read as a C string is the chosen path |
| WinLegacy.PickFolder | src/nfd_win_legacy.c:265-298 | no item gives Cancel; a failed lookup or copy gives Error with its message; otherwise Okay with the folder path |
| WinLegacy.CountFiles | src/nfd_win_legacy.c:221-229 | the count is the number of file names after the directory, and the size is their joined paths' total size |
| WinLegacy.PutPath | src/nfd_win_legacy.c:243-249 | `dir\file` and a NUL are written at k; nothing else changes |
| WinLegacy.FillPaths | src/nfd_win_legacy.c:236-250 | the buffer becomes the joined paths packed back-to-back, and `indices` their offsets |
| WinLegacy.OpenDialogMultiple | src/nfd_win_legacy.c:212-256 | Okay exactly when `legacy_function` succeeds; one string becomes the buffer with offset 0, more give `Pack` of the joined paths; on failure the set is untouched |
| WinLegacy.SingleSelectionRecovered | src/nfd_win_legacy.c:230-235 | a single chosen file reads back as its full path |
| Haiku.FindFirst | src/nfd_haiku.cpp:41-42 | -1 or the first position at or after `from` that holds the byte |
| Haiku.ExtensionRefFilter.constructor | src/nfd_haiku.cpp:38-60 | the stored extensions are the pieces of the text between ',' and ';', in order, with no empty last piece; a "." is in front of each when the prefixing is stored |
| Haiku.NextExtension | src/nfd_haiku.cpp:40-55 | one round takes the text before the first separator and moves past it, or takes the rest and ends |
| Haiku.Prefixed | src/nfd_haiku.cpp:57-59 | the prefixing loop gives the stored list |
| Haiku.ExtensionRefFilter.Filter | src/nfd_haiku.cpp:63-77 | accepts exactly every directory and every file whose name ends with a stored extension |
| Haiku.ExtensionListOfJoined | src/nfd_haiku.cpp:39-55 | splitting undoes joining: separator-free extensions, the last non-empty, joined with ';' come back unchanged |
| Haiku.TrailingSeparatorDropped | src/nfd_haiku.cpp:50-54 | a separator at the end adds no extension (`"txt;"` gives `["txt"]`) |
| Haiku.DottedFilterNeedsDot | src/nfd_haiku.cpp:57-76 | with the dots stored, a name without "." is never accepted, and stem + "." + ext always is |
| Haiku.EmptyExtensionAcceptsAll | src/nfd_haiku.cpp:43-48 | without the dots, two separators in a row make the filter accept every file |
| Haiku.HandlerReply | src/nfd_haiku.cpp:107-143 | a message gets a reply exactly when it is refs, a save request or a cancel, each with its own response code; refs carry the message's refs, a save request its directory and name; other messages write nothing |
| Haiku.Answer | src/nfd_haiku.cpp:107-143 | the message the port is written for is the first that is not passed on to `BLooper`; every message before it is |
| Haiku.Kept | src/nfd_haiku.cpp:207-208 | a bounded copy keeps a prefix of the name shorter than the buffer; it keeps the whole name exactly when the name fits |
| Haiku.PutName | src/nfd_haiku.cpp:288 | the name and its NUL are written at the offset; nothing else changes |
| Haiku.CopyName | src/nfd_haiku.cpp:205-208 | `length` bytes holding the name cut to `length - 1` bytes |
| Haiku.NameLengthAsWritten | src/nfd_haiku.cpp:205 | as written: one byte per code point plus one, which can be less than the name's byte length plus one |
| Haiku.NameLength | src/nfd_haiku.cpp:205 | corrected: the byte length plus one, which keeps the whole name |
| Haiku.AsciiNameKept | src/nfd_haiku.cpp:205-208 | as written, an ASCII name is copied whole |
| Haiku.NonAsciiNameTruncated | src/nfd_haiku.cpp:205-208 | as written, "é" (C3 A9) gets 2 bytes and comes back as C3 alone |
| Haiku.PackNames | src/nfd_haiku.cpp:276-291 | the path set is `Pack(names)`: count, cumulative offsets and the names back-to-back |
| Haiku.PutNext | src/nfd_haiku.cpp:286-291 | one round extends the packed prefix and the offsets by name i |
| Haiku.SavePath | src/nfd_haiku.cpp:349-354 | the output is the directory, '/', the name and a NUL, in a buffer of `dirlength + namelength + 2` bytes |
| Haiku.SaveNameRecovered | src/nfd_haiku.cpp:349-354 | the name is what follows the last '/' of the saved path |
| Haiku.OpenPanel | src/nfd_haiku.cpp:162-178 | a filter is installed exactly for a non-empty list, and the directory is set from the default path |
| Haiku.OpenDialog | src/nfd_haiku.cpp:147-222 | no app or no port gives Error with its message; the answering panel message decides the rest: cancel gives Cancel; one ref gives Okay with its name; another count gives Error "invalid count"; a save request gives Error "invalid response" |
| Haiku.OpenDialogMultiple | src/nfd_haiku.cpp:226-305 | like `OpenDialog`, but refs give Okay with `Pack(refs)`; the set is untouched otherwise |
| Haiku.SaveDialog | src/nfd_haiku.cpp:309-361 | no filter; the answering panel message decides the result: a save request gives Okay with `dir/name`; cancel gives Cancel; refs give Error "invalid response" |
| Qt.NameFilters | src/nfd_qt.cpp:23-44 | one filter per ';'-piece, in order, then `"Any files (*)"` last |
| Qt.BuildGroupFilter | src/nfd_qt.cpp:30-40 | the inner loop gives the group's `*.ext` patterns separated by single spaces, with no trailing space |
| Qt.AddFiltersToDialog | src/nfd_qt.cpp:17-46 | a NULL list sets no filters; otherwise exactly `NameFilters(list)` |
| Qt.GroupFilterRecovers | src/nfd_qt.cpp:30-40 | split at spaces, a group's filter is one pattern per extension, in order; the extensions joined with ',' give back the group |
| Qt.TrailingSemicolonFilter | src/nfd_qt.cpp:25 | a trailing ';' adds one more filter, `"*."` |
| Qt.Modes | src/nfd_qt.cpp:138-156 | only the save entry point uses the save accept mode |
| Qt.CopyEntry | src/nfd_qt.cpp:74-79 | the copy is `len + 1` bytes: the entry and its NUL |
| Qt.PathSetFromSelection | src/nfd_qt.cpp:101-128 | the path set is `Pack(selection)` |
| Qt.QtOpenDialog | src/nfd_qt.cpp:48-136 | sets up the modes, filters (none for folders) and directory; rejected or empty gives Cancel; single gives the first entry or `NOPATH_MSG`; multi gives `Pack` or `NOMEM_MSG` |

## Left out

- The toolkit and OS calls become inputs of the model. These are:
  - GTK widgets;
  - `QFileDialog`/`QApplication`;
  - `BFilePanel`, `BLooper` and the ports;
  - `GetOpenFileName`, `GetSaveFileName` and `SHBrowseForFolder`;
  - `pipe`, `fork`, `close`, `prctl`, `_exit` and `waitpid`.
- The GTK dialog functions `NFDi_OpenDialog_F`, `NFDi_OpenDialogMultiple_F` and `NFDi_SaveDialog_F` are toolkit calls. Their results reach the model as the child's `result`, `len` and path, or path set.
- GtkChannel.Transfer: the hard-error branch retries forever in the source. A script that runs out of calls ends as `Hung`.
- Wide characters: `WideCharToMultiByte` and `MultiByteToWideChar` are modelled as the identity on bytes. This is the non-Unicode build of `src/nfd_win_xp.c`. In `src/nfd_win_legacy.c` each conversion keeps the characters it is given.
- Qt's `toLatin1` is the identity on the selection's bytes.
- Allocations the source never checks are assumed to succeed:
  - the GTK path buffer (`src/nfd_gtk.c:211`);
  - the Haiku buffers;
  - the Qt path buffer;
  - the `WinLegacy` path buffer and index array.
  Allocations the source does check are inputs.
- Qt.QtOpenDialog: the source copies into the output before testing it for NULL. The model takes the test as deciding and does not model the write through NULL.
- Haiku.OpenDialog: the single path is the ref's leaf name, as in the source. Resolving it to a full path is not part of this model.
- Haiku.ExtensionRefFilter.constructor: whether `StringAt(i).Prepend(".")` changes the stored string depends on `BStringList`, which is not part of this model. The parameter `prependStored` makes it a choice.
- Haiku.PackNames: `total_length` is read uninitialised in the source. The model starts it at 0.
- Haiku.CopyName, Haiku.PackNames, Haiku.OpenDialog and Haiku.OpenDialogMultiple size each name by bytes, as `Haiku.NameLength` does. The code-point size the source uses is under Findings.
- WinLegacy.LegacyFunction: for a single selection, the dialog buffer is taken to hold a double-NUL list. `wchar_len_multi` reads past the first string's NUL.
- WinLegacy.FilterComposeAsWritten requires that the text fit the `len * 4` buffer, which the source does not check. The overflow is under Findings.
- WinLegacy.LegacyFunction: `filter_compose` returns an `int`. The model does not model its truncation, which would need a list longer than 2^31 / 6 bytes.
- WinLegacy.PutPath writes the two copies and two byte stores of lines 243-249 as one copy.
- WinXp.LegacyNFDWin and WinXpFilter.ConvertNFDFilterList require what the conversion silently relies on:
  - the list does not start with ';', which would write one byte before `result`;
  - the converted text fits the 1024-byte buffers.
- WinXp.PickFolder and WinLegacy.PickFolder ignore the default path, as the source does.
- GtkFilter.AddFiltersToDialog, GtkFilter.FilterName, GtkFilter.Translation build each filter name with the corrected GtkFilter.AddTypeToFilterName, not with the code as written. The source's `len += strlen(SEP)` overflows `filterName` once a group's name passes 254 bytes, e.g. for one group of 87 one-byte extensions `"a,a,…,a"`. The as-written step and its overflow are under Findings.
- WinLegacy.LegacyFunction, WinLegacy.OpenDialogMultiple compose the filter with the corrected WinLegacy.FilterCompose (`6 * len + 1` bytes), not with the code as written. The source's `len * 4` buffer overflows, e.g. for the list `"a"`. The as-written composition and its overflow are under Findings.
- GtkDialog.ChildSendSingle, GtkDialog.ChildSendPathSet: a NULL buffer written with a positive size is modelled as a run of `EFAULT` results, one per scripted call, which is what the kernel returns for it.
- Haiku.OpenDialog, Haiku.OpenDialogMultiple, Haiku.SaveDialog require that the panel eventually sends the handler a refs, save or cancel message. Otherwise `read_port` waits forever.
- GtkFilter.AddFiltersToDialog requires the scan's assertion (`strlen(typebuf)` non-empty and below `NFD_MAX_STRLEN - 1`) at every segment end, as the source asserts it.
- `NFD_MAX_STRLEN` is taken as 256, and the UTF-8 BOM as EF BB BF. `src/nfd_common.h` is not part of this model.
- `NFDi_SplitPath` depends on a filesystem query and is not modelled.
- `src/nfd_zenity.c` (a subprocess and an unfinished splitter) is not modelled.
- `src/nfd_win.cpp` (COM calls and stubs) is not modelled.
- `NFD_Free`, `NFDi_Malloc`, `NFDi_Calloc` and `NFDi_Free` are modelled only by their outcome: success, or NULL.
- GTK's `SetDefaultPath` is a toolkit call and is not modelled.
- `size_t` is 64 bits. The GTK wire carries native words as 8 little-endian bytes.

## Findings

| source | as written | input that shows it | evidently intended | confidence | as-written member | corrected member |
|---|---|---|---|---|---|---|
| src/nfd_win_legacy.c:90 | `filter_compose` allocates `len * 4` bytes and writes the composed text and one more zero | `"a"`: the text `"*.a\0*.a\0"` takes all 8 bytes, so the zero at line 114 is written at offset 8, past the end | a destination that holds the text and its zero for every list, e.g. `6 * len + 1` bytes | not executed | WinLegacy.FilterComposeAsWritten, WinLegacy.FilterComposeOverflows | WinLegacy.FilterCompose, WinLegacy.ComposedFits |
| src/nfd_haiku.cpp:205 | each name's buffer is sized `NFDi_UTF8_Strlen(name) + 1`, one byte per code point; lines 278 and 287 do the same | the name "é" (C3 A9): 2 bytes are allocated, and the bounded copy keeps only C3 | `strlen(name) + 1`, so that the copy keeps every byte | not executed | Haiku.NameLengthAsWritten, Haiku.NonAsciiNameTruncated | Haiku.NameLength, Haiku.CopyName, Haiku.PackNames |
| src/nfd_gtk.c:98-99 | `len += strlen(SEP)` even when `strncat` truncated the separator; `bufsize - len - 1` then wraps and the next `strncat` is unbounded | a 254-byte filter name followed by the type "b" | advance `len` by what was appended, so the name stays within `NFD_MAX_STRLEN` | not executed | GtkFilter.AddTypeToFilterNameAsWritten, GtkFilter.AddTypeToFilterNameOverflows | GtkFilter.AddTypeToFilterName |
