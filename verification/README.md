# Verified model of the live-patching engine

A Dafny model of the patch engine that is linked into a process, of the client
that drives it, and of everything between a patch file on disk and changed
program text. `dafny verify dfyconfig.toml` checks the whole project.

How the modules follow the repository:

- `Words`, `Codes`, `PatchData`: result codes, bytes, machine words with their wrap-around written
  out, and the client's patch record.
- `Overlay`, `UndoLog`: the exchange of 8-byte windows between a write list and
  program text, and the list of applied patches as an undo log.
- `Mapper`: the bump allocator for blobs and the pages it owns.
- `Relocs`, `Client`: 32-bit relocation arithmetic, trampolines, references into
  dependencies, and the serialiser of the apply payload.
- `Payload`: the layout of that payload and how it is read.
- `Server`, `Sandbox`: applying and undoing, as functions on states and as a
  class that changes text, lists and write arrays in place; each method is
  proved equal to its function.
- `Engine`, `Holdings`, `Closure`, `EndToEnd`: what every operation keeps, what
  holds after every run, and where a patched call really goes.
- `Outcomes`: the exact code and effect of every apply and every undo.
- `Transport`, `Session`, `Listener`: the transfer loops, message framing, whole
  sessions, and the listener thread at work on a socket and the engine.
- `Answers`: which messages are accepted, which requests are served, and how
  every session ends.
- `HashText`, `Parsing`, `PatchFormat`, `PatchLoad`, `PatchFile`: hashes as text
  and the XSPATCH loader, as readers with their layouts and as a cursor that
  moves through a file.

Conventions. `text[0]` is the byte at `_start`. Lists of applied patches run
from the list head, the newest patch. Allocation, `mmap`, short reads and
interruptions are inputs (`Grants`, `IoStep`), so a theorem over all of them is
a theorem over every way they can go. SHA-1 is an arbitrary function. Where the
C program's behaviour is not defined (a read past the message, a store outside
the blob, an array or a mapping) the model ends with `Undefined`, `Wild`,
`Crash`, `PastEnd` or `Overrun` and says exactly when.

Where the code departs from what its comments and layouts intend, the model
follows the code:

- `read_patch_data` moves its own copy of the cursor, so dependencies and tags
  are read from right behind the header (libsandbox.c:381, 406, 429, 588-608).
- Copying the dependencies is taken for a failure, and the code set there is a
  shadowing variable, so a patch with dependencies is dropped and answered with
  `SANDBOX_OK` (libsandbox.c:574-595).
- Patches are inserted at the list head but the dependents scan walks towards
  older patches (libsandbox.c:622, 643-655).
- The mapping limit is computed in 8-byte units (libsandbox.c:103), so it does
  not keep a blob within a jump's reach: a jump lands as an address exactly when
  the distance fits, and an allowed placement for which it does not is given.
- Regions are exactly adjacent, although a comment promises a page between them
  (libsandbox.c:116-120).
- A blob of exactly 2^20 bytes is accepted but not mapped (libsandbox.c:391,
  531), its bytes are then read as the relocations and writes, and the slide of the image is applied to writes only when a blob is
  mapped (libsandbox.c:407, 472).
- The offset guard wraps for a blob shorter than 4 bytes (libsandbox.c:434).
- An undo request carries 24 bytes of which the server reads 20; the other four
  are taken for the next header (user/raxlpxs.c:759-763,
  sandbox-listen.c:877-890).
- The code of a failed apply ends the listener thread (sandbox-listen.c:120-124,
  653).
- `string2sha1` looks only at the even positions, accepts signs and white space,
  and stores through `int`, which needs 23 bytes (user/util.c:102-106).
- Tags of 128 bytes pass the length test and their NUL is stored one past the
  array (libsandbox.c:603-606).
- A short read of a symbol's name counts as success (user/patch_file.c:503-504,
  510-511).
- The loader sizes the relocation array with a 16-bit sum
  (user/patch_file.c:477-483).

## Model

| member | source | states |
|---|---|---|
| Overlay.Exchange | libsandbox.c:318-321 | one window: its 8 bytes of text are handed back and replaced by the entry's, and nothing else changes |
| Overlay.SwapTrampolines | libsandbox.c:310-323 | in place in both arrays: text becomes the text overlaid by the list, in which the last window over a byte decides it, and every entry ends with the bytes its window held when its turn came |
| Overlay.LastCover | libsandbox.c:314-322 | a byte covered by several windows of one pass ends as the last of them says |
| Overlay.Uncovered | libsandbox.c:314-322 | a byte no window covers is not changed |
| Overlay.DoubleSwap | libsandbox.c:310-323 | two passes in the same forward order restore text and write list for any number of pairwise disjoint windows |
| Overlay.DoubleSwapExact | libsandbox.c:310-323 | a layout of windows is restored for every text and all patch data if and only if its windows are pairwise disjoint |
| Overlay.Commute | libsandbox.c:310-323 | passes over lists whose windows do not meet commute, and each saves the same bytes whether the other has run or not |
| UndoLog.LogPush | libsandbox.c:614-622 | installing a patch at the head keeps the log: text is the base overlaid oldest first, each entry holds what lay under its patch |
| UndoLog.LogRemove | libsandbox.c:674-675 | removing a patch from any position, clear of every newer one, gives text, list and saved data of the history without it |
| UndoLog.RunKeepsLog | libsandbox.c:610-622 | the log invariant over every run of installs and undoable removals, whatever overlaps there are between different patches |
| UndoLog.NoTrace | libsandbox.c:660-684 | two runs that leave the same patches listed leave the same text and saved data: an undone patch leaves no trace |
| UndoLog.UndoAllRestores | libsandbox.c:668-681 | undoing all patches newest first restores the base byte for byte even when different patches overlap |
| UndoLog.MiddleUndoExact | libsandbox.c:668-681 | undo from any position gives the text of the run without the patch, for every base and all patch data, if and only if the patch's windows meet neither one another nor those of a newer patch |
| Mapper.PatchMapper.MapPatchMap | libsandbox.c:91-153 | code, region, the static last region and the pages held after each of the five exits |
| Mapper.PatchMapper.UnmapPatchMap | libsandbox.c:155-165 | pages released; the size is cleared so that a second unmap releases nothing |
| Mapper.MapMovesTop | libsandbox.c:119-152 | success hands out exactly the pages from the top on and moves the top behind them; any failure leaves top and pages alone |
| Mapper.MapExactly | libsandbox.c:119-152 | SANDBOX_OK if and only if there is room below the limit and mmap grants it, SANDBOX_ERR_NOMEM if and only if there is room and it does not, SANDBOX_ERR_INVALID otherwise; and the region each failure leaves |
| Mapper.LimitIs | libsandbox.c:101-104 | the limit is eight times 2^32 - 1 above the text, cut to a page |
| Mapper.NoHeap | libsandbox.c:106-114 | where no heap is found nothing is ever mapped |
| Mapper.RunKeepsLedger | libsandbox.c:91-165 | over every mix of maps, limit failures, mmap failures and unmaps, the pages held are those the ledger of all regions accounts for |
| Mapper.RegionsOfEveryRun | libsandbox.c:91-165 | every region of a run is page-aligned, larger than requested and below the limit, and lies wholly below every later one |
| Mapper.PageConservation | libsandbox.c:123-165 | pages held equal those of live blobs plus one for each unmapped blob whose size is a multiple of 4096 |
| Relocs.GuardExact | libsandbox.c:434 | the guard admits exactly the offsets inside a blob of 4 bytes or more, and every offset for a shorter one |
| Relocs.WildExactly | libsandbox.c:431-443 | for 32-bit offsets a store leaves the blob if and only if the blob is shorter than a word and there is a relocation |
| Relocs.RelocateBlob | libsandbox.c:431-443 | the in-place loop comes to what its function says, with refusal and stores outside the blob told apart |
| Relocs.RelocSpecDone | libsandbox.c:431-443 | the loop completes if and only if every offset is in range, for every blob size |
| Relocs.BumpedWord | libsandbox.c:442 | with offsets that do not overlap each listed word changes by its own amount only |
| Relocs.RelocRelMeaning | libsandbox.c:407-410 | the three subtractions come to the distance from the text to the blob modulo 2^32, whatever the link address |
| Relocs.BlobMeaning | libsandbox.c:404-443 | after the loop every listed rel32 resolves to its link-time target plus the slide, and every other byte is the file's |
| Relocs.TargetExact | user/raxlpxs.c:310-313 | an operand congruent to its target modulo 2^32 leads to that address if and only if the distance fits a signed 32-bit displacement |
| Payload.HeaderRoundTrip | live_patch.h:201-223 | the header read back from a payload's first 64 bytes is the header laid out |
| Payload.HeadRoundTrip | libsandbox.c:529-537 | header, blob, relocations and writes of any request are read back by the server's cursor |
| Payload.PayloadRoundTrip | live_patch.h:189-200 | with one cursor through the documented layout the whole request, dependencies and tags included, is read back |
| Payload.PayloadLayout | live_patch.h:189-223 | where each field, word, write and hash of any request lies in the payload, byte by byte |
| Client.PatchWrites | user/raxlpxs.c:299-324 | the zeroed write array is filled with one E9 trampoline per function |
| Client.RelocRoomExact | user/patch_file.c:477-478 | the appended offsets have room if and only if the two counts stay below 2^16 together |
| Client.LinkDependencies | user/raxlpxs.c:430-471 | the stage succeeds exactly when every dependency is loaded and every reference in order, names the first reference that is not, and leaves blob and offsets as specified |
| Client.LinkableExactly | user/raxlpxs.c:430-471 | the references are in order if and only if every dependency is loaded, every index names one, and the offsets pass the server's own range test |
| Client.DependentTarget | user/raxlpxs.c:450-471 | after client and server a level-3 reference resolves to the dependency's address plus symbol plus the slide, so to the symbol itself if and only if the slide is a multiple of 2^32 |
| Client.FillPatchBuf4 | user/raxlpxs.c:219-297 | the first pass returns a length that has room; the second writes exactly the encoding, and read by the documented layout the buffer gives the patch's hash, address, blob, relocations, writes, both exception tables, every dependency by its own hash, and the tags up to their NUL or 127 bytes |
| Client.SizingGap | user/raxlpxs.c:239-247 | the two passes differ by exactly 16 bytes per dependency |
| Client.EncodedCarries | user/raxlpxs.c:251-296 | the encoding of any patch whose fields fit decodes, by the documented layout, to all the server is to know of that patch |
| Sandbox.Sandbox.FixWrites | libsandbox.c:467-508 | in place: accepts exactly when every entry passes, then all entries are slid and relocated |
| Sandbox.Sandbox.ReadPatchData | libsandbox.c:380-515 | for each exit the code, the map, the pages, and on success blob and writes |
| Sandbox.Sandbox.Apply4 | libsandbox.c:519-636 | outcome and whole new state of every exit, with the write arrays of other patches untouched |
| Sandbox.Sandbox.HasDependentPatches | libsandbox.c:638-657 | true if and only if an entry behind this one lists its hash |
| Sandbox.Sandbox.Undo4 | libsandbox.c:660-684 | code and whole new state: text swapped back, entry unlinked from its position, pages released |
| Server.StagedWithin | libsandbox.c:472-478 | every write that survives staging starts in [_start, _end), and all of the request's writes survive together |
| Server.FixWriteExactly | libsandbox.c:466-508 | an entry passes if and only if its slid address is in the text and its relocation fits its 8 bytes; then one word of the data changes and nothing else |
| Server.IndexOf | libsandbox.c:668-671 | the first entry with the hash |
| Engine.ApplyAllOrNothing | libsandbox.c:519-636 | text changes only if the list grows by this patch; a negative code leaves both alone; every changed byte lies in a window starting in [_start, _end) |
| Engine.ApplyCodes | libsandbox.c:519-636 | the only codes an apply can return |
| Engine.SilentDrop | libsandbox.c:572-595 | after SANDBOX_OK the list has grown if and only if the request named no dependencies |
| Engine.ApplyThenUndo | libsandbox.c:660-684 | undoing the patch just applied succeeds and gives back text and list |
| Engine.HeadsSucceed | libsandbox.c:660-684 | undoing the list heads one after another returns 0 each time and empties the list |
| Engine.HeadsRestore | libsandbox.c:660-684 | and it ends with the base text when no listed patch overlaps itself |
| Engine.UndoEverything | libsandbox.c:660-684 | both, after any clean run from an unpatched image |
| Engine.RunKeepsLog | libsandbox.c:519-684 | the undo-log invariant over every run of apply and undo requests, failed and dropped ones included |
| Engine.EmptyListMeansBase | libsandbox.c:660-684 | once a run has removed every patch the text is the original |
| Engine.MovedOn | sandbox-listen.c:102-128 | whole applies and undos, one after another, stay a run of the engine |
| Outcomes.ApplyExactly | libsandbox.c:519-636 | the code of every apply request whatever its bytes, the first thing wrong deciding; it is listed if and only if that code is SANDBOX_OK and it names no dependencies |
| Outcomes.ClientOutcome | libsandbox.c:380-636 | the code of every request of the client in terms of the patch, the room and the memory granted, dependencies included |
| Outcomes.DependentsDropped | libsandbox.c:572-598 | a patch with dependencies is answered SANDBOX_OK if and only if it would have been without them, SANDBOX_ERR_INVALID if and only if a relocation or address is out of range, and text and list stay |
| Outcomes.AcceptedExactly | libsandbox.c:380-636 | with memory granted a plain patch is listed, and answered SANDBOX_OK, if and only if there is room, its relocations lie in the blob and its slid addresses in the text; every other is answered SANDBOX_ERR_INVALID, if at all |
| Outcomes.RecordedExactly | libsandbox.c:600-622 | what the new list entry records: hash, map, windows, number of writes, tags and no dependencies |
| Outcomes.AsSent | libsandbox.c:472-508 | without a mapped blob the request's writes go into the text as they are, neither slid nor relocated |
| Outcomes.MegabyteBlob | libsandbox.c:390-412 | a blob of exactly 2^20 bytes is not mapped, and the addresses patched are words of that blob |
| Outcomes.CutRequest | libsandbox.c:529-608 | an acceptable request cut anywhere is read past its end if and only if the cut is before the end of the writes or of the tags |
| Outcomes.RunSettled | libsandbox.c:519-684 | every state a run of the server reaches meets what these theorems ask |
| Outcomes.UndoExactly | libsandbox.c:660-684 | -ENOENT if and only if the hash is not listed; otherwise the first entry with it is swapped back, unlinked and unmapped, and 0 returned, if and only if no older entry depends on it and it has writes |
| Outcomes.UndoSucceeds | libsandbox.c:660-684 | after every run an undo returns 0 if and only if the hash is listed, wherever its entry stands |
| Outcomes.UndoFromMiddle | libsandbox.c:668-681 | undoing any listed entry returns 0, and when it is clear of itself and of newer patches leaves text, list and saved data of the run without it |
| Outcomes.UndoFromMiddleExact | libsandbox.c:668-681 | the undo operation gives the text of the run without the patch, for every base and all patch data, if and only if the patch is clear of itself and of newer ones |
| Holdings.RunKeepsBacked | libsandbox.c:91-165 | over every run of the server the allocator goes through exactly the run's own mapper calls, computed from the requests, and every live region is held by exactly one listed patch |
| Holdings.PagesOfEveryRun | libsandbox.c:123-165 | over every run the pages held are those of the listed patches' blobs plus exactly one for each blob of whole pages that the run unmapped, in a failed or dropped apply or in an undo |
| Holdings.ApplyAlloc | libsandbox.c:391-412 | what each exit of an apply has done to the allocator, and whose region the new patch holds |
| Holdings.StepTraced | libsandbox.c:511-684 | one operation: its mapper calls, the patches' regions and the page count before and after |
| Holdings.BlobsApart | libsandbox.c:119-152 | after any run the blobs of two listed patches share no byte |
| Closure.ScanNeverRefuses | libsandbox.c:638-657 | in every list whose dependencies are listed below their users, the scan as written finds nothing |
| Closure.RemoveKeepsClosed | libsandbox.c:672-675 | removing an entry keeps every dependency listed if and only if no newer entry depends on it |
| Closure.RunKeepsClosed | user/raxlpxs.c:419-448 | over every run, with a scan of the newer entries, dependencies stay listed and hashes unique, and the scan as written would never refuse |
| Closure.ScanMissesDependent | libsandbox.c:643-655 | a patch and its dependent for which the scan lets the dependency go |
| EndToEnd.JumpArithmetic | user/raxlpxs.c:313 | the displacement through its three stages leads to the new function modulo 2^32, for every placement and slide |
| EndToEnd.ClientApplied | user/raxlpxs.c:473-483 | what the server stores for the client's own payload |
| EndToEnd.GrownExactly | libsandbox.c:431-478 | with memory granted and the blob mapped the client's patch is listed if and only if its relocations lie in the blob and its slid addresses in the text |
| EndToEnd.UndefinedExactly | libsandbox.c:414-443 | the client's request makes the server store outside the blob if and only if it gets as far as the relocations, there are any, and the blob is shorter than a word |
| EndToEnd.BlobIsPlaced | libsandbox.c:404-443 | the placed blob's operands resolve to their link-time targets in the moved image |
| EndToEnd.FixedTrampolineLands | libsandbox.c:494-502 | the swapped-in bytes at a function's run-time address are a jump to `pm.addr + newrel` |
| EndToEnd.PatchTakesEffect | user/raxlpxs.c:299-324 | end to end: if the client's patch is applied, every trampoline not covered by a later window of the patch leads to its new function, modulo 2^32 always and as an address if and only if the distance fits; and unless its relocations overlap the blob is placed |
| EndToEnd.TagsRecorded | libsandbox.c:601-608 | the recorded tags are the bytes behind the header, which begin with the blob; they are the client's if and only if those bytes begin with the client's tags |
| EndToEnd.JumpMisses | libsandbox.c:103-135 | an image, a placement the limit allows and a patch that is applied and whose jump leads elsewhere |
| EndToEnd.LoadedFits | user/patch_file.c:755-791 | whatever the loader accepts fits the fields of a request |
| EndToEnd.FileTakesEffect | user/patch_file.c:755-791 | from an accepted file to patched text: the installed jumps lead to the functions that file lays out |
| Transport.Socket.Readn | sandbox-listen.c:289-313 | for every schedule of short reads and interruptions, one atomic copy of min(n, available) bytes; a hard error has taken fewer than n |
| Transport.Socket.Writen | sandbox-listen.c:318-344 | for every schedule all n bytes in order, or an error after a proper prefix |
| Transport.Socket.SendRrBuf | sandbox-listen.c:476-597 | the whole message, or nothing when it is too long; an error on the header ends the output within the header and is reported; an error on a field cuts it short, is not reported, and the next field follows |
| Transport.LengthExact | sandbox-listen.c:500-508 | the length in the header is the number of bytes sent if and only if that number is below 2^32 |
| Session.FramedAsSent | sandbox-listen.c:387-429 | a message of at most one field is accepted, its field recovered, its end known |
| Session.CallServed | sandbox-listen.c:432-464 | one request at the front of any stream is served as a call, and the reader stops on the next boundary, or 4 bytes short of it after an undo |
| Session.AfterUndo | sandbox-listen.c:877-890 | behind those 4 bytes no header is found |
| Session.SessionFollowsPlan | sandbox-listen.c:102-128 | for every sequence of requests, grant of memory and limit: same verdict, state and replies from the bytes as from the requests |
| Answers.RequestAnswered | sandbox-listen.c:432-470 | one request at the front of any stream, from its bytes: when its code is not negative, what it does to the engine, and where reading stops |
| Answers.UndoEndsSession | sandbox-listen.c:102-128 | from bytes: a session ends with the client's close if and only if the requests stay below the limit, each is answered and an undo, if any, comes last; and at the limit if and only if that many were |
| Answers.PollingCloses | sandbox-listen.c:102-128 | a client that only asks for list and build information closes the session itself below a hundred requests and is left after the hundredth |
| Answers.ListFits | sandbox-listen.c:695-717 | a list fits a message if and only if at most 2978 patches are applied |
| Answers.Unsent | sandbox-listen.c:672-731 | a list or build information for which there is no memory or no room in a message is not sent, and the code ends the session |
| Answers.FramedExactly | sandbox-listen.c:387-430 | 16 bytes are a header if and only if they carry the magic, version 1, a message from 1 to 10 and a length of at most 2^20; the first that fails names the error |
| Answers.NoMessage | sandbox-listen.c:387-430 | anything else leaves the engine alone, is not answered, and takes at most a header from the stream |
| Answers.BadApply | sandbox-listen.c:607-654 | an apply message of a wrong length, without memory, or cut off: the code that ends the session is the one the client reads |
| Answers.BadUndo | sandbox-listen.c:866-905 | an undo message of a wrong length or cut off is told to the client and does not end the session |
| Answers.NoDispatcher | sandbox-listen.c:461-463 | two identifiers in range are refused |
| Answers.BadReplies | sandbox-listen.c:657-860 | replies that are cut off, too short, or for which the client has no memory: code, buffer, and the lengths that overrun it |
| Session.CodeReadBack | sandbox-listen.c:657-669 | the code sent is the code the client's reader returns |
| Session.ListReadBack | sandbox-listen.c:672-780 | the list reply gives the client count, hashes and addresses in list order |
| Session.InfoReadBack | sandbox-listen.c:783-860 | the client gets the build-information text and a NUL behind it |
| Session.ReplyHeard | sandbox-listen.c:607-924 | the reply to each kind of request is read as a whole and says what the request came to |
| Session.ConversationAgrees | sandbox-listen.c:376-471 | requests out, replies back: the client reads exactly as many replies as were sent, with the codes and buffers of its requests, and nothing is left over |
| Listener.Listener.DispatchApply | sandbox-listen.c:607-654 | over a steady connection engine, unread stream, reply and code after an apply message; over any connection nothing or one whole apply |
| Listener.Listener.DispatchList | sandbox-listen.c:672-731 | over a steady connection the list reply sent and nothing else changed |
| Listener.Listener.DispatchListResponse | sandbox-listen.c:741-780 | over a steady connection buffer and unread stream, or the overrun a short length leads to |
| Listener.Listener.DispatchGetbldRes | sandbox-listen.c:830-860 | over a steady connection buffer and unread stream of a build-information reply |
| Listener.Listener.DispatchUndoReq | sandbox-listen.c:866-905 | over a steady connection engine, unread stream and reply after an undo message; over any connection nothing or one whole undo |
| Listener.Listener.DispatchCode | sandbox-listen.c:907-924 | over a steady connection one word read as a signed code whatever the length says |
| Listener.Listener.ReadHeaderBytes | sandbox-listen.c:387-399 | the 16 header bytes, or the result of the read that gave none |
| Listener.Listener.Dispatch | sandbox-listen.c:432-464 | the switch over message identifiers, on any connection |
| Listener.Listener.ReadMessage | sandbox-listen.c:376-471 | the header checks in order, then the dispatcher; over any connection the engine does nothing or one whole operation |
| Listener.Listener.ServeClient | sandbox-listen.c:102-128 | over a steady connection the session function: verdict, engine and everything sent; over any connection the engine ends where whole applies and undos can take it |
| HashText.Bin2Hex | libsandbox.c:255-275 | for any buffer length: an even-length prefix of the hex text, a terminator when there is room for one, nothing else touched |
| HashText.String2Sha1 | user/util.c:97-113 | verdict and memory after overlapping 4-byte stores, for every text |
| HashText.StoresOverlap | user/util.c:102-106 | byte j is the low byte of the j-th value, three more bytes are what is left of the last store, nothing else changed |
| HashText.HashRoundTrip | user/util.c:97-113 | the hex text of a hash reads back as the hash whatever follows it and whatever memory held; three zero bytes follow |
| HashText.AcceptedExactly | user/util.c:101-110 | plain text is accepted if and only if its even positions below 40 are hex digits |
| HashText.NonHexAccepted | user/util.c:101-110 | forty characters that are not all hex digits and are accepted |
| HashText.MinusStored | user/util.c:104-106 | signs are accepted and leave complemented digits in all 23 bytes |
| HashText.ScanVerdict | user/util.c:101-112 | the verdict is that of the first pair that does not read |
| HashText.FieldForms | user/util.c:101-112 | what two characters are read as, form by form |
| HashText.CaseBlind | user/util.c:101-112 | digits of either case have the same value |
| HashText.HexTable | libsandbox.c:258-272 | the digits written are lower case, high half first |
| Parsing.PrefixRejected | user/patch_file.c:13-30 | an exact reader rejects every proper prefix of a layout |
| Parsing.WordExact | user/patch_file.c:33-73 | a big-endian word is read from exactly the bytes that lay it out |
| Words.BigEndian | user/patch_file.c:33-73 | the bytes of a word laid out, most significant first |
| Words.LittleEndian | live_patch.h:201-223 | the bytes of a word in a request, least significant first |
| Parsing.SizedExact | user/patch_file.c:203-214 | so is a block behind its own length |
| Parsing.CountedExact | user/patch_file.c:217-232 | so is a counted array of items |
| PatchFormat.CheckExact | user/patch_file.c:235-258 | a check is read from exactly its layout |
| PatchFormat.FuncExact | user/patch_file.c:261-287 | a function is read from exactly its layout |
| PatchFormat.TableExact | user/patch_file.c:290-321 | a table is read from exactly its layout |
| PatchFormat.SymbolExact | user/patch_file.c:488-519 | a whole symbol is read from exactly its layout |
| PatchFormat.DepExact | user/patch_file.c:420-437 | a dependency is read from exactly its layout |
| PatchFormat.SymbolsThenFuncs | user/patch_file.c:503-511 | with the functions behind it, the symbol section that forgives short reads accepts and gives the same as one that does not |
| PatchFormat.ShortReadSucceeds | user/patch_file.c:503-504 | bytes the symbol section alone accepts and no layout begins |
| PatchFormat.ShortSectionSucceeds | user/patch_file.c:510-511 | the same for any symbol whose name is whole and whose section name is missing |
| PatchLoad.LoadExact | user/patch_file.c:324-752 | the loader of each version 2 to 5 accepts just the bytes that begin with the sections of a record of that version, and stops right behind them |
| PatchLoad.RecordRoundTrip | user/patch_file.c:324-752 | laying a record out and loading it gives the record back |
| PatchLoad.LoadedIsLaidOut | user/patch_file.c:324-752 | whatever loads is a record of its version laid out in the file |
| PatchLoad.RecordPrefixRejected | user/patch_file.c:324-752 | no proper prefix of a record's sections loads |
| PatchLoad.OverrunExact | user/patch_file.c:477-483 | of the patches that load, the relocation array is overrun by exactly those whose two counts reach 2^16 together |
| PatchLoad.OverrunWhen | user/patch_file.c:457-485 | for every file: the store past the array happens if and only if the section holds, and its count asks for, one word more than the 16-bit size has room for |
| PatchLoad.NameRoundTrip | user/patch_file.c:76-96 | a name made from a hash gives the hash back |
| PatchLoad.FileRoundTrip | user/patch_file.c:755-791 | the file written for a record loads as the record, for every hash function that gives its hash |
| PatchLoad.AcceptedFile | user/patch_file.c:755-791 | every accepted file begins with cookie and sections of its record and carries the hash of the bytes its version covers |
| PatchLoad.VersionExactly | user/patch_file.c:99-121 | the version is v if and only if the file begins with the text XSPATCH and the digit v, from 2 to 5 |
| PatchLoad.NameExactly | user/patch_file.c:76-96 | a name gives a hash if and only if it is 48 bytes long, holds .raxlpxs and its even positions read as hex |
| PatchLoad.PlainName | user/patch_file.c:76-96 | for a name of plain characters: forty characters, hex at the even positions, and .raxlpxs behind them |
| PatchLoad.LoadedExactly | user/patch_file.c:755-791 | a file loads as p if and only if it begins with cookie and sections of p, p's counts stay below 2^16, and the hash its version covers is p's |
| PatchLoad.VersionLayouts | user/patch_file.c:324-752 | the sections of each version, in order |
| PatchLoad.CheckLayoutIs | user/patch_file.c:235-258 | address, 16-bit length, data |
| PatchLoad.FuncLayoutIs | user/patch_file.c:261-287 | 16-bit length, name, address, 32-bit offset |
| PatchLoad.TableLayoutIs | user/patch_file.c:290-321 | 16-bit length, name, address, 16-bit length, data |
| PatchLoad.Reloc3LayoutIs | user/patch_file.c:457-485 | 16-bit index, 32-bit offset |
| PatchLoad.SymbolLayoutIs | user/patch_file.c:488-519 | two names behind 16-bit lengths, two 32-bit offsets |
| PatchLoad.DepLayoutIs | user/patch_file.c:420-437 | hash, 64-bit address |
| PatchLoad.ExLayoutIs | user/patch_file.c:522-560 | two 32-bit words |
| PatchFile.Reader.Read | user/patch_file.c:13-30 | n bytes and the cursor behind them, or failure with the cursor at the end |
| PatchFile.Reader.ReadU16 | user/patch_file.c:63-73 | the shifts and ors are the big-endian word |
| PatchFile.Reader.ReadU32 | user/patch_file.c:49-60 | the shifts and ors are the big-endian word |
| PatchFile.Reader.ReadU64 | user/patch_file.c:33-46 | the shifts and ors are the big-endian word |
| PatchFile.Reader.ReadTagData | user/patch_file.c:406-417 | tags as the layout has them |
| PatchFile.Reader.ReadRefxenData | user/patch_file.c:189-200 | version and date as the layout has them |
| PatchFile.Reader.ReadBlobData | user/patch_file.c:203-214 | blob as the layout has it |
| PatchFile.Reader.ReadRelocData | user/patch_file.c:217-232 | the loop reads the counted array of the layout |
| PatchFile.Reader.ReadCheckData | user/patch_file.c:235-258 | the loop reads the counted array of the layout |
| PatchFile.Reader.ReadFuncData | user/patch_file.c:261-287 | the loop reads the counted array of the layout |
| PatchFile.Reader.ReadTableData | user/patch_file.c:290-321 | the loop reads the counted array of the layout |
| PatchFile.Reader.ReadDepsData | user/patch_file.c:420-437 | the loop reads the counted array of the layout |
| PatchFile.Reader.ReadConflictsData | user/patch_file.c:440-455 | the loop reads the counted array of the layout |
| PatchFile.Reader.ReadRelocData3 | user/patch_file.c:457-485 | both arrays, or the store past the end of the second, exactly when the section overruns it |
| PatchFile.Reader.ReadSymbolsData | user/patch_file.c:488-519 | the loop with its early success on a short name |
| PatchFile.Reader.ReadExTableEntries | user/patch_file.c:522-560 | both tables as the layout has them |
| PatchFile.Reader.LoadVersion2 | user/patch_file.c:324-381 | the record, a refusal or an overrun, as the sections say |
| PatchFile.Reader.LoadVersion3 | user/patch_file.c:588-623 | the record, a refusal or an overrun, as the sections say |
| PatchFile.Reader.LoadVersion4 | user/patch_file.c:652-687 | the record, a refusal or an overrun, as the sections say |
| PatchFile.Reader.LoadVersion5 | user/patch_file.c:714-752 | the record, a refusal or an overrun, as the sections say |
| PatchFile.Reader.GetPatchVersion | user/patch_file.c:99-121 | the version of the cookie, with the cursor put back |
| PatchFile.Reader.ExtractSha1FromFilename | user/patch_file.c:76-96 | the hash in the name, or none |
| PatchFile.Reader.LoadPatchFile | user/patch_file.c:755-791 | the loader over the cursor equals the loader as a function of the file |

## Left out

- Sockets, `accept`, `bind`, threads, logging, hex dumps, options and printing: a connection is the bytes one side will send and the bytes the other has sent.
- `mprotect` in `make_text_writeable`: text is taken as writable, also where a window crosses a page (libsandbox.c:294-308).
- `find_sandbox_start` and `pmparser.c`: the address after the heap is an input, page-aligned in the theorems over runs.
- Atomicity of the exchange: one step on the single listener thread, with no other thread running through the window.
- Text within 7 bytes behind `_end`: a window may start up to the last byte before `_end`, so the modelled text goes on that far.
- Memory that is leaked or freed; the 24-byte copy of a 20-byte hash in `xenlp_undo4`, whose last four bytes nothing reads (libsandbox.c:666); padding bytes of a write entry.
- The contents of a mapped blob after its patch is listed: an applied patch keeps the blob as a value; nothing modelled here changes it again.
- The limit a kernel sets on one `read` or `write`, and reads of 2^31 bytes or more in `_read`.
- A bare `0x` in `string2sha1`: C libraries differ, so every theorem holds for both readings (`bare`).
- `find_patch3` and its paging over the list: the client's view of loaded patches is a map from hash to address.
- `fill_patch_buf3`, `_cmd_apply3`, version 3 requests and `write_sandbox_message_header`: the same arithmetic on an older layout.
- `hex2bin`, `extract_patch` and the build scripts; `extract_patch` is not part of this model.
- Exception tables beyond their layout and the server's refusal of non-zero counts.
- Memory beyond the end of an array once the loader has overrun it: the model stops at `Overrun`.
- Engine.RunKeepsLog: for runs without undefined steps in which every removed patch is disjoint within itself and from newer patches; the code does not check this, and UndoLog.MiddleUndoExact shows that it is exactly what an undo needs.
- Closure.RunKeepsClosed: is about the rule as intended; the server as written lists no patch with dependencies at all (Engine.SilentDrop).
- EndToEnd.PatchTakesEffect: is about patches with a mapped blob and no dependencies or exception tables, since no other patch with a blob is ever applied.
- Outcomes.ClientOutcome: is about blobs of any size but 2^20 bytes, whose requests Outcomes.ApplyExactly and Outcomes.MegabyteBlob cover.
- Answers.UndoEndsSession: as for Session.ConversationAgrees, for at most ten million listed patches and bytes of build information.
- Answers.RequestAnswered: as for Answers.UndoEndsSession.
- Answers.Unsent: as for Answers.UndoEndsSession.
- Session.SessionFollowsPlan: requests are the client's own, at most one field each; arbitrary byte streams are covered by Listener.Listener.ServeClient and Engine.ApplyAllOrNothing, which hold for every input.
- Session.ConversationAgrees: for at most ten million listed patches and bytes of build information, so that no reply's length wraps around 32 bits.
- Listener.Listener.ServeClient: replies and unread bytes after a hard socket error are not specified beyond what Transport.Socket.Readn and Transport.Socket.SendRrBuf say of one transfer.
- Listener.Listener.ReadMessage: as for ServeClient, code, reply and unread bytes are specified for connections without hard errors.
- Listener.Listener.Dispatch: as for ServeClient, code, reply and unread bytes are specified for connections without hard errors.
- Listener.Listener.DispatchApply: as for ServeClient, code, reply and unread bytes are specified for connections without hard errors.
- Listener.Listener.DispatchList: as for ServeClient, code and reply are specified for connections without hard errors.
- Listener.Listener.DispatchListResponse: as for ServeClient, code and buffer are specified for connections without hard errors.
- Listener.Listener.DispatchGetbldRes: as for ServeClient, code and buffer are specified for connections without hard errors.
- Listener.Listener.DispatchUndoReq: as for ServeClient, code, reply and unread bytes are specified for connections without hard errors.
- Listener.Listener.DispatchCode: as for ServeClient, the code is specified for connections without hard errors.
- Holdings.PagesOfEveryRun: a step whose behaviour is undefined is taken to leave the state as it was and to make no mapper call.
