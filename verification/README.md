# A verified model of the hub firmware's stateful core

These Dafny modules model five parts of the firmware that carry real state or
real arithmetic, and prove what each of them is for over every input, every run
or every reachable state:

* **Text safety.** A strict UTF-8 validator, a JSON writer that fails closed,
  and two JSON string escapers: one repairs bad UTF-8 (`JsonWriter::str`), one
  cuts at a piece boundary (`json_escape`). Both are proved against one
  independent decoder of JSON strings (section 7 of RFC 8259) and one
  independent encoder of Unicode scalar values (section 3 of RFC 3629).
* **The cursor-paged device list.** A protocol over pools that may change in any
  way between two requests. The walk is stated on the wire: a client parses the
  reply text, collects the IEEEs and sends back the cursor string it was given.
* **The group store.** A 32-bit bitmap and one blob per slot in flash, shared by
  tasks under a recursive mutex, and cut short by power failures.
* **The failure limiter.** Eight least-recently-used buckets of five timestamps,
  against the plain definition "five failures in the last 60 seconds".
* **The log ring** and its JSON export, with the publish rate gate, and the keys
  of the device options store.

## How it is built

Code that works in place is modelled in place: classes and methods over arrays,
with the loops of the source. Each such method is proved equal to a
specification function, and the lemmas then speak of that function. A byte is a
`char` below U+0100. C strings are byte sequences holding a NUL; reading one
byte too many would be an index out of range, so every method that verifies also
reads inside its memory.

| modules | what they hold |
|---|---|
| `Bytes`, `Numbers`, `Utf8`, `JsonText`, `JsonFields` | memory, decimal and hexadecimal printers, `strtoull`, UTF-8, the JSON string decoder, a JSON parser and the lemma that it inverts rendering (`JsonText.ParseDocument`) |
| `StringEscape`, `JsonWriter`, `ListEscape` | the two escapers and the writer |
| `DeviceRow`, `DevicePages`, `DeviceReplies`, `PageWalk` | one row, one page and the local list, what a client reads of a device, and whole walks |
| `GroupStore`, `GroupFlash` | the flash as a finite map; the operations as methods, with the flash after every write |
| `GroupRuns`, `GroupCrash` | sequential runs, without and with power failures inside operations |
| `GroupTasks`, `GroupProgress`, `GroupHistory`, `GroupPower` | an interleaving of lock and flash steps, that operations finish, what follows about histories, and power failures under contention |
| `GroupJson` | one group as text |
| `JsonUtf8`, `ReplyUtf8` | which replies are valid UTF-8 |
| `Limiter`, `LimiterRuns`, `LimiterGate` | one table, runs of it, and the callers that gate on it |
| `LogLine`, `LogRing` | the line kept of a message, and the ring |
| `LogText`, `LogCut`, `LogUtf8`, `LogExport` | the export as text, when it is cut, when it is valid UTF-8, and the method that writes it |
| `RateGate`, `OptionKeys` | the rate gate, option keys |

The flash (NVS) is a map whose single writes are atomic. The device pool is a
sequence of slots. The clock is a parameter. A device's labels come from code
that is not in the repository, so they are an arbitrary function of the device.

## Where the code and its comments disagree

The model follows the code.

* `main/log_ring.h:17-22` says truncation returns 0. The code drops the end of
  the last line instead and returns a nonzero length when that still fits.
  `LogCut.PromiseKeptExactly` gives the exact sizes at which the promise is kept
  and what is returned at the others; `LogText.CompleteExactly` the sizes at which
  the reply is whole. `LogText.CutWithoutNotice` is a one-line ring and a buffer
  large enough for the whole text in which the line is lost without notice,
  `LogUtf8.CutAtTheCallersSize` a log that is cut in the 32768 bytes both callers
  offer (`main/ws_bridge.cpp:307`, `main/api_system.cpp:130`); a ring of lines with
  nothing to escape is always whole there (`LogExport.PlainRingIsWhole`). A cut is at a byte:
  in that log it falls inside a character, and `LogUtf8.ReplyValidExactly` says
  exactly when the reply is no valid UTF-8.
* `main/log_ring.cpp:61-62` promises a hard cap of 50 within a rolling second. The
  counter has 8 bits and starts anew with every second of the clock. Within one
  such second the cap holds exactly for at most 256 calls
  (`RateGate.CapHoldsExactly`). A rolling second spans two of them:
  `RateGate.RollingExactly` gives what it lets through from the call times alone,
  `RateGate.RollingCapExactly` when the cap holds, `RateGate.RollingBound` the
  bound of 100, and `RateGate.BurstsPass` 100 calls that reach it.
* `main/device_options.cpp:34-36` keeps 15 of the 16 hexadecimal digits of an
  IEEE of 2^60 or more. Options of such a device are restored to another IEEE
  (`OptionKeys.KeyReadsBack`, `OptionKeys.LongIeeeRestoredElsewhere`).
* `grp_find` reads no bitmap, so it can show a group that `grp_load_all` does not.
  After any commands from an empty flash, cut anywhere by power failures, the two
  disagree on an id exactly when the last step about it was a cut create, or a cut
  save while its bit was clear (`GroupCrash.FindAgreesExactly`;
  `GroupFlash.FindCanShowAnUnlistedGroup` is the shortest such history).
* The comment on `json_escape` (`main/devlist_page.h:38-43`) says that the result
  is always valid. Escapes are never cut, but a byte that belongs to no character
  passes through (`ListEscape.LoneTailPasses`). The output is valid UTF-8 if and
  only if the source is, up to every character boundary up to which it fits
  (`ListEscape.EscapeIntoValidExactly`).
* A delete that power cuts after its erase shows no group but keeps its bit, so
  that slot is not offered to a create until its id is saved or deleted again
  (`GroupCrash.CutDeleteLoses`, `GroupCrash.LostIdIsNotOffered`).
* The comment at `main/log_ring.cpp:255-256` says that colour codes are stripped,
  and the loop before it drops line ends. Codes found in one pass from left to right
  are removed; the removal of one can leave another (`LogLine.CleanLeavesACode`),
  and a line end can come to stand last (`LogLine.CleanLeavesALineEnd`).
  `LogLine.CleanLeavesExactly` says, for every reading of a message as bytes and
  codes, exactly when each of the two happens.

## Model

| member | source | states |
|---|---|---|
| Utf8.SeqLen | main/json_buf.h:22-44 | on any memory that reaches over the sequence its lead byte announces, or to the first byte that cannot continue it, the result is the length of the one scalar value at the front of the window and 0 otherwise; nothing past that byte, a NUL or any other, is read |
| Utf8.ReadableSequence | main/json_buf.h:22-44 | memory that holds `avail` bytes or a NUL always reaches far enough |
| Utf8.ShortMemorySuffices | main/json_buf.h:22-44 | so does memory without either that ends at a failing byte, such as E2 41 for four bytes |
| Utf8.PrefixLenExact | main/json_buf.h:22-44 | a nonzero length means exactly that the bytes start with the RFC 3629 encoding of one Unicode scalar value, and it is that encoding's length: no overlong form, surrogate or value above U+10FFFF |
| Utf8.WindowExact | main/json_buf.h:22-44 | with only `avail` bytes, the result is nonzero exactly when some scalar value's whole encoding stands there and fits in `avail` |
| Utf8.RangesExact | main/json_buf.h:22-44 | the lead-byte table with its narrowed second-byte ranges accepts exactly the encodings of scalar values, for every multi-byte start |
| Utf8.SafeCopy | main/json_buf.h:55-67 | the destination gets the longest valid prefix that fits, then NUL; a null source gives the empty string, size 0 writes nothing, nothing else changes |
| Utf8.SafeLenValid | main/json_buf.h:55-67 | what is copied is valid UTF-8 for any source and any room |
| Utf8.SafeLenLongest | main/json_buf.h:55-67 | no longer valid prefix of the source would fit |
| StringEscape.ChunkDecodes | main/json_buf.h:130-169 | one piece of `str`: valid UTF-8 that a JSON reader decodes to the valid sequence at the front, or to U+FFFD |
| StringEscape.EscapeForms | main/json_buf.h:130-169 | the bytes written for each kind of character: the five two-character escapes, six bytes in lower case for other controls, `\ufffd` for a bad byte, the character itself otherwise |
| StringEscape.EscapedDecodes | main/json_buf.h:130-169 | for every byte string the whole escaped text is valid UTF-8 and decodes to the repaired source |
| StringEscape.RepairIdentity | main/json_buf.h:130-169 | the repair always gives valid UTF-8, and changes nothing exactly when the source was valid |
| JsonWriter.JsonWriter.constructor | main/json_buf.h:80-86 | starts with empty text and ok, over the first `cap` bytes of the buffer |
| JsonWriter.JsonWriter.Put | main/json_buf.h:177-181 | the new state is the old text with the byte added, or failed; no byte at or beyond `cap` changes |
| JsonWriter.JsonWriter.Raw | main/json_buf.h:88-92 | appends the source up to its NUL, or as much as fits and then fails for good |
| JsonWriter.JsonWriter.RawBytes | main/json_buf.h:98-102 | the same for a counted byte range, NULs included |
| JsonWriter.JsonWriter.Ch | main/json_buf.h:103 | the same for one byte |
| JsonWriter.JsonWriter.Fmt | main/json_buf.h:106-115 | appends formatted text only if it and the NUL of `vsnprintf` fit; on overflow or an error of `vsnprintf` it fails without moving the position |
| JsonWriter.JsonWriter.StrStep | main/json_buf.h:130-169 | one turn of the loop on the memory equals one piece of the specification on the text |
| JsonWriter.JsonWriter.Str | main/json_buf.h:130-169 | the new state is the old one with the escaped text of the source up to `max` or NUL appended, for every memory and every `max` |
| JsonWriter.JsonWriter.Finish | main/json_buf.h:174 | the length of the text while nothing has failed, 0 otherwise; so a nonzero result says that exactly that many bytes at the front of the buffer are the text of a writer that never failed |
| JsonWriter.PutAllSplit | main/json_buf.h:177-181 | writing piece by piece ends in the same state, also when it fails, as writing everything at once |
| JsonWriter.FailureIsPermanent | main/json_buf.h:80-186 | after a failure no sequence of operations changes the state |
| JsonWriter.OkMeansComplete | main/json_buf.h:80-186 | a run of any operations stays ok exactly when every one of them fits, and then the buffer holds the whole concatenation |
| JsonWriter.OnlyTheTotalCounts | main/json_buf.h:80-186 | when the last operation adds bytes plainly, the run fits exactly when the total length is at most `cap`: the NULs of earlier formatted writes cost nothing |
| ListEscape.SequenceLen | main/devlist_page.h:44-70 | the scan takes exactly one lead byte and all its continuation bytes, and stays before the NUL |
| ListEscape.EscapeStepText | main/devlist_page.h:44-70 | one turn of the loop produces the specification's next piece and step |
| ListEscape.JsonEscape | main/devlist_page.h:44-70 | the buffer holds the specified text and NUL, nothing else changed, the length is below `cap`; size 0 writes nothing |
| ListEscape.ListChunkDecodes | main/devlist_page.h:44-70 | each piece decodes to exactly the source bytes it was made of |
| ListEscape.ListChunkForms | main/devlist_page.h:44-70 | the bytes written for each kind of character: a backslash before quote and backslash, six bytes in lower case for controls, everything else as it is |
| ListEscape.EscapeIntoDecodes | main/devlist_page.h:44-70 | unescaping the output gives exactly the prefix of the source that was taken, for every byte string and cap |
| ListEscape.EscapeIntoMaximal | main/devlist_page.h:44-70 | the cut is at a piece boundary, and either everything was taken or the next piece would not fit with the NUL |
| ListEscape.EscapeIntoValid | main/devlist_page.h:44-70 | valid UTF-8 in gives valid UTF-8 out, and both parts of the cut source are valid: no character is cut |
| ListEscape.TakenPartDecides | main/devlist_page.h:44-70 | for any source the output is valid UTF-8 exactly when the part of the source taken is |
| ListEscape.BoundaryTaken | main/devlist_page.h:44-70 | a character boundary of the source is within the part taken exactly when the source up to it, escaped, fits with the NUL |
| ListEscape.EscapeIntoValidExactly | main/devlist_page.h:44-70 | from the source and the room alone: the output is valid UTF-8 if and only if the source is valid up to every character boundary up to which it fits; if all of it fits, if and only if the source is valid |
| ListEscape.LoneTailPasses | main/devlist_page.h:38-43 | a source for which the promise of a valid result fails: a single byte 80 in a buffer of 64 |
| DeviceRow.EscapeField | main/devlist_page.h:98-105 | a field buffer holds the escaped text of a string, or of the empty string for a null pointer |
| DeviceRow.DevlistRow | main/devlist_page.h:98-115 | the returned length is that of the whole row; when it is below `cap` the buffer holds the whole row; nothing beyond `cap` changes |
| DeviceRow.FormatIsDoc | main/devlist_page.h:98-115 | the format string's output is the rendering of a thirteen-field JSON object after the right comma |
| DeviceRow.RowMeaning | main/devlist_page.h:98-115 | that object is well formed and reads back as the row's numbers, flags and (cut) strings |
| DeviceRow.CarriedWhole | main/devlist_page.h:88-105 | a string is carried whole exactly when its escaped length is below the 64 bytes of its field |
| DeviceRow.PlainCarriedWhole | main/devlist_page.h:88-91 | names of up to 63 bytes without quotes, backslashes and controls are carried whole |
| DeviceRow.RowFits | main/devlist_page.h:88-115 | every possible row is 1 to 612 bytes long, so below the 640-byte row buffer |
| DevicePages.NextAmong | main/devlist_page.h:23-36 | the slot found is live, above the cursor, and the smallest such IEEE, first in pool order; -1 exactly when none is |
| DevicePages.DevlistNext | main/devlist_page.h:23-36 | the loop over the pool finds that slot |
| DevicePages.PagePieces | main/ws_bridge.cpp:435-475 | header, rows and tail put together are the rendering of one JSON reply, with and without a cursor |
| DevicePages.CmdDeviceListPage | main/ws_bridge.cpp:435-475 | the buffer holds exactly the specified reply, shorter than its 8192 bytes, for any pool, labels, id and cursor; the row-skip branch is proved dead |
| DevicePages.CmdDeviceList | main/ws_bridge.cpp:477-513 | with any pool size against the earlier count, the buffer of 64 + 640 (count + 4) bytes holds a well-formed list of the first live devices in pool order; it is complete exactly when not truncated, truncated only within a row of its end, and never for a growth of at most four slots |
| DevicePages.ListPieces | main/ws_bridge.cpp:485-513 | the local list's pieces put together are the rendering of one JSON reply |
| DevicePages.LiveFromExact | main/ws_bridge.cpp:485-513 | the slots listed are exactly the live ones, each once, in pool order |
| DeviceReplies.RowShowsDevice | main/ws_bridge.cpp:419-432 | a row says the device's own numbers and strings, the vendor and model labels where they are not empty, else its manufacturer and model id, and known exactly when there is a model label |
| DeviceReplies.PageShowsDevices | main/ws_bridge.cpp:419-475 | the text of every page parses to the request's id, ok, and one such row for each device of the page, in order |
| DeviceReplies.ListShowsDevices | main/ws_bridge.cpp:419-513 | the text of the local list parses to the request's id, ok, and one such row for each device listed |
| PageWalk.NextSlotMeaning | main/devlist_page.h:23-36 | between the cursor and the IEEE found no IEEE is live; when none is found nothing above is live |
| PageWalk.PageFromCovers | main/ws_bridge.cpp:450-467 | a page holds exactly the live IEEEs from the cursor to its last one, ascending, and asks for more exactly when a live one remains |
| PageWalk.PageProgress | main/ws_bridge.cpp:435-475 | the same for a whole page; a page that carries a cursor has at least 13 rows |
| PageWalk.PageFits | main/ws_bridge.cpp:435-475 | every page with its tail is below 8192 bytes |
| PageWalk.PageIsFull | main/ws_bridge.cpp:450-467 | a page with a cursor has no room for the next live device's row and the 48 bytes kept for the tail: no page ends early |
| PageWalk.RowsRead | main/devlist_page.h:98-115 | a client reading the rows of a page gets the IEEEs of its slots back, in order |
| PageWalk.PageReads | main/ws_bridge.cpp:435-475 | parsing the reply's text gives exactly the IEEEs of the page and the cursor of its last row, or no cursor |
| PageWalk.WalkAscends | main/ws_bridge.cpp:435-475 | over any walk, with any pools, IEEEs sent are strictly increasing across pages |
| PageWalk.WalkSendsLive | main/ws_bridge.cpp:435-475 | every IEEE sent was live when its page was built |
| PageWalk.WalkReachesAll | main/ws_bridge.cpp:435-475 | a completed walk sends every IEEE above the starting cursor that was live at all the requests it made |
| PageWalk.SentExactlyOnce | main/ws_bridge.cpp:435-475 | in a completed walk from the start, such a nonzero IEEE stands at exactly one place |
| PageWalk.WalkEnds | main/ws_bridge.cpp:435-475 | a walk that still has a cursor after n requests has moved its cursor by 13 n within 2^64 |
| PageWalk.WalkCompletes | main/ws_bridge.cpp:435-475 | so every walk completes, whatever the pool does |
| PageWalk.UnchangedPages | main/ws_bridge.cpp:435-475 | with an unchanged pool, all pages but the last send at least 13 of the live devices above the cursor, and a walk not yet complete has used up 13 of them for every request |
| PageWalk.PageCount | main/ws_bridge.cpp:435-475 | N unchanged live devices take at most max(1, ceil(N/13)) pages, and that many requests complete the walk |
| PageWalk.SentWasLive | main/ws_bridge.cpp:435-475 | nothing is sent in a walk that was not live at one of its requests |
| PageWalk.UnchangedIsListed | main/ws_bridge.cpp:435-475 | with an unchanged pool that many requests send exactly the nonzero live IEEEs |
| PageWalk.LocalListReads | main/ws_bridge.cpp:485-513 | the local list's text parses to a reply whose rows carry the IEEEs of the listed slots, in order |
| Numbers.ParseIeeeOfDigits | main/ws_bridge.cpp:323-327 | any hexadecimal digits below 2^64 are read to their value, with and without the 0x mark |
| Numbers.ParseIeeeElse | main/ws_bridge.cpp:323-327 | reading stops at the first byte that is no digit, saturates at 2^64 - 1, skips one 0x or 0X, and gives 0 for a null or empty string |
| Numbers.ParseIeeeSigned | main/ws_bridge.cpp:323-327 | blanks and a plus before the digits are skipped, a minus negates modulo 2^64 |
| Numbers.CursorRoundTrip | main/ws_bridge.cpp:471-473 | the printed cursor parses back to the same IEEE for all 2^64 values |
| JsonFields.IeeeTextForm | main/devlist_page.h:107-115 | an IEEE is shown as 0x and sixteen upper-case digits |
| GroupStore.KeysDiffer | main/groups_store.cpp:57 | no two ids share a flash key and no id's key is the bitmap's |
| GroupStore.KeyForm | main/groups_store.cpp:57 | a key is g and the id in four lower-case digits |
| GroupStore.BitSet | main/groups_store.cpp:105-120 | setting one bit of the 32-bit word sets that bit and keeps every other |
| GroupStore.BitCleared | main/groups_store.cpp:133-152 | clearing one bit clears that bit and keeps every other |
| GroupStore.ListingIsGroups | main/groups_store.cpp:82-103 | what `grp_load_all` lists is the finite map of groups: ids strictly ascending in 1..32, each entry in the map, each group of the map in the list |
| GroupStore.SavedVisible | main/groups_store.cpp:105-120 | a save changes what its own slot shows and no other slot |
| GroupStore.BlobWrittenVisible | main/groups_store.cpp:105-120 | between the two writes of a save every slot shows the old flash, or every slot shows the new one, by whether the bit was set |
| GroupStore.DeletedVisible | main/groups_store.cpp:133-152 | a delete empties its own slot only; after its first write every slot already shows the final state |
| GroupStore.SavedGroups | main/groups_store.cpp:105-120 | on the map of groups a save is one map update, from any flash content |
| GroupStore.SavedReadsBack | main/groups_store.cpp:82-120 | a record saved is read back as it is; above 16 only its member count is cut, to 16 |
| GroupStore.ListedIsStored | main/groups_store.cpp:82-103 | every group listed is the record stored under its id, with a member count above 16 cut to 16, in a slot whose bit is set |
| GroupStore.DeletedGroups | main/groups_store.cpp:133-152 | on the map of groups a delete is one removal, from any flash content |
| GroupStore.SaveIsAtomic | main/groups_store.cpp:105-120 | stopped between its writes, a save lists exactly the groups before, or exactly those after |
| GroupStore.DeleteIsAtomic | main/groups_store.cpp:133-152 | stopped between its writes, a delete already lists exactly the groups after |
| GroupStore.FreeFrom | main/groups_store.cpp:71-80 | the scan gives the first clear bit, 0 when all 32 are set |
| GroupStore.NextIdIsFree | main/groups_store.cpp:71-80 | the id offered is unmarked, names no group and is the lowest such; 0 only when all 32 are marked |
| GroupFlash.Store.NextFree | main/groups_store.cpp:71-80 | the loop over the bitmap gives that id |
| GroupFlash.Store.LoadAll | main/groups_store.cpp:82-103 | the array holds the first `max` of the listing, each the record stored under its id up to that cut, the rest of it is untouched, the count is right |
| GroupFlash.Store.Save | main/groups_store.cpp:105-120 | succeeds exactly for ids 1..32, writes the blob and then the bit, and every flash content on the way lists the groups before or after |
| GroupFlash.Store.Create | main/groups_store.cpp:122-131 | succeeds exactly when an id is free, saves the record under that id in the same two writes, crash-safe at each |
| GroupFlash.Store.Delete | main/groups_store.cpp:133-152 | succeeds exactly for ids 1..32, erases the blob and then the bit, crash-safe at each write |
| GroupFlash.Store.Find | main/groups_store.cpp:154-163 | a record found carries the id asked for; every listed group is found, up to the clamp of its member count; where bits and blobs agree nothing else is |
| GroupFlash.FindCanShowAnUnlistedGroup | main/groups_store.cpp:154-163 | the first create stopped after its first write: nothing is listed, yet id 1 is found |
| GroupRuns.ExecRefines | main/groups_store.cpp:105-152 | from a consistent flash each command keeps it consistent and is the map's own command |
| GroupRuns.RunRefines | main/groups_store.cpp:57-163 | so every run of commands behaves as the finite map does |
| GroupRuns.FindIsLookup | main/groups_store.cpp:154-163 | after any run from an empty flash, `grp_find` is lookup in that map, and what it finds is what `grp_load_all` lists: the same record for a member count up to 16 |
| GroupRuns.LowestFree | main/groups_store.cpp:71-80 | the lowest id in 1..32 outside a set of ids taken, 0 when there is none |
| GroupRuns.CreateFailsOnlyWhenFull | main/groups_store.cpp:122-131 | after any run the id offered is the map's lowest free one, and there is none exactly when the map holds 32 groups |
| GroupCrash.CrashExecRefines | main/groups_store.cpp:105-152 | from any flash, a command that runs to its end or is cut between its writes acts on the records stored and the ids taken as in the map: cut or not it changes the record of its id, and only whole does it change whether the id is taken |
| GroupCrash.CrashRunRefines | main/groups_store.cpp:105-152 | so does every run of commands cut anywhere |
| GroupCrash.CutAfterFirstWrite | main/groups_store.cpp:105-152 | what power leaves of a cut command is the flash after its first write, the one the store's methods record |
| GroupCrash.ShownIsGroups | main/groups_store.cpp:82-103 | what `grp_load_all` lists is the records stored under ids that are taken, clamped; `grp_find` reads the records alone |
| GroupCrash.ShownStep | main/groups_store.cpp:105-152 | for what is listed, a cut save happens exactly when its id was taken, a cut create never, a delete always |
| GroupCrash.HappenedOrNot | main/groups_store.cpp:105-152 | for the groups each cut command happened as a whole or not at all |
| GroupCrash.CutDeleteLoses | main/groups_store.cpp:133-152 | a delete cut after its erase leaves an id that is taken and has no group, exactly when its bit was set |
| GroupCrash.LostStep | main/groups_store.cpp:105-152 | a lost id comes back with a save under it or a completed delete of it, and with no other command |
| GroupCrash.LostIdIsNotOffered | main/groups_store.cpp:71-80 | until then, over any run of commands cut anywhere, no create is offered it |
| GroupCrash.CreateFailsExactly | main/groups_store.cpp:71-80 | from any flash, no id is offered exactly when groups and lost ids fill all 32 slots |
| GroupCrash.HiddenStep | main/groups_store.cpp:105-163 | a step leaves a record that only `grp_find` shows exactly when it is about that id and is a cut create or a cut save with the bit clear, or is about another id and there was one already |
| GroupCrash.HiddenOver | main/groups_store.cpp:105-163 | over any run from any state: exactly when the last step about the id was such a one, or none was about it and there was one already |
| GroupCrash.FindAgreesExactly | main/groups_store.cpp:154-163 | after any commands from an empty flash, cut anywhere, `grp_find` and `grp_load_all` agree on an id if and only if the last step about it was neither a cut create nor a cut save with the bit clear |
| GroupTasks.CodeBracketed | main/groups_store.cpp:31-49 | in the steps of every operation takes and gives of the mutex match, nested ones included, and no flash or buffer step stands outside them |
| GroupTasks.StepKeepsInv | main/groups_store.cpp:31-49 | every step of every thread keeps: one owner, the recursion depth right, and the owner's state equal to its operation executed alone |
| GroupTasks.RunKeepsInv | main/groups_store.cpp:31-49 | so does every run |
| GroupTasks.InterleavingsAreSerial | main/groups_store.cpp:31-49 | for any number of threads and any interleaving of their steps, the completed operations did what they would have done one after another, and the shared state is that of the serial execution whenever the mutex is free |
| GroupProgress.OwnerFinishes | main/groups_store.cpp:31-49 | the remaining steps of a thread that holds the mutex, taken alone, end its operation as without any other thread, log it and free the mutex, however deep it is held |
| GroupProgress.OwnerCanFinish | main/groups_store.cpp:31-49 | so in every reachable system whoever holds the mutex can finish without the others |
| GroupProgress.OperationFinishes | main/groups_store.cpp:31-163 | an operation begun by an idle thread with the mutex free is done after its own steps: the log has grown by exactly it, or by nothing for an id outside 1..32, and the flash is the one its command makes |
| GroupProgress.ReachableOperationFinishes | main/groups_store.cpp:31-163 | the same after any interleaving of any threads |
| GroupProgress.AllCanFinish | main/groups_store.cpp:31-49 | no thread is ever stuck for good: some steps of the threads finish all that is begun |
| GroupProgress.ReachableFinishes | main/groups_store.cpp:31-49 | the same after any interleaving |
| GroupHistory.AtomicCreate | main/groups_store.cpp:122-131 | the step list of a create, executed alone, takes the next free id and saves there, or leaves everything as it was |
| GroupHistory.AtomicSave | main/groups_store.cpp:105-120 | the step list of a save ends in the saved flash, refusing ids outside 1..32 |
| GroupHistory.AtomicDelete | main/groups_store.cpp:133-152 | the step list of a delete ends in the deleted flash, refusing ids outside 1..32 |
| GroupHistory.AtomicLoad | main/groups_store.cpp:82-103 | the step list of a load returns the first `max` of the listing and changes nothing |
| GroupHistory.AtomicList | main/api_groups.cpp:43-60 | the step list of a listing through the static buffer reads exactly the listing and leaves the flash alone |
| GroupHistory.OperationEffect | main/groups_store.cpp:105-152 | each entry of any serial history changes the flash as its command says, or not at all |
| GroupHistory.CreateOverwritesNothing | main/groups_store.cpp:122-131 | in any interleaving a successful create takes an id that was unmarked and names no group, and adds only its own record |
| GroupHistory.IdsAreNotReused | main/groups_store.cpp:122-131 | two successful creates get the same id only with a delete of that id between them |
| GroupHistory.DeletedIdComesBack | main/groups_store.cpp:122-152 | create, delete, create from an empty flash is a history that gives id 1 twice, so the delete in the line above is needed |
| GroupHistory.ListingsAreNotTorn | main/api_groups.cpp:43-60 | what a listing serialises from the shared static buffer is the whole listing of one flash state |
| GroupHistory.HistoryRuns | main/groups_store.cpp:57-163 | the flash at any point of a history is that of the sequential run of its commands |
| GroupHistory.TasksRefineTheMap | main/groups_store.cpp:31-163 | booted from an empty flash, any interleaving ends with exactly the groups the finite map has after the same commands |
| GroupPower.OperationBetween | main/groups_store.cpp:105-152 | executed alone from any shared state, an operation lists the groups before it or after it at every one of its steps, lock steps and reads included |
| GroupPower.StepKeepsBetween | main/groups_store.cpp:31-152 | every step of every thread keeps: the flash lists the groups of the last release, or those with the mutex holder's operation done |
| GroupPower.PowerFailure | main/groups_store.cpp:31-152 | power may fail after any steps of any number of threads: the flash lists the groups of the finished operations one after the other, or those with the operation of the thread holding the mutex done as well |
| GroupJson.OpsAreDoc | main/groups_store.cpp:165-190 | the pieces written, put together, are the rendering of one JSON object |
| GroupJson.GrpToJson | main/groups_store.cpp:165-190 | the length is that of the whole text if it fits in `cap` and 0 otherwise; then the buffer holds that text; nothing beyond `cap` changes |
| GroupJson.GroupReads | main/groups_store.cpp:165-190 | that text parses to the id, the repaired name and the member list clamped to 16 |
| GroupJson.GroupSays | main/groups_store.cpp:165-190 | a client reads the id, the repaired name, and as many of the first members as the record counts, at most 16, each with its IEEE and endpoint |
| GroupJson.TextDeterminesGroup | main/groups_store.cpp:165-190 | two groups with the same text have the same id, repaired name and clamped members |
| GroupJson.TextTellsApart | main/groups_store.cpp:165-190 | equal texts come from records that agree in these, member by member |
| JsonUtf8.RenderValid | main/json_buf.h:14-21 | a rendered reply is valid UTF-8 exactly when every string and key in it is |
| ReplyUtf8.GroupTextValid | main/json_buf.h:117-129 | the text of every group is valid UTF-8, whatever bytes its stored name holds |
| ReplyUtf8.PageTextValid | main/ws_bridge.cpp:435-475 | a page is valid UTF-8 exactly when every string its rows show is |
| ReplyUtf8.ListTextValid | main/ws_bridge.cpp:485-513 | the same of the local list |
| ReplyUtf8.ValidStringsSuffice | main/ws_bridge.cpp:435-513 | devices whose names and labels are valid UTF-8 give valid pages and lists, however their fields are cut |
| Limiter.FindFrom | main/auth.cpp:62-65 | the first used bucket of the address, -1 exactly when it has none |
| Limiter.OldestAmong | main/auth.cpp:67-81 | the bucket with the smallest last use, the first of equals |
| Limiter.EnterRings | main/auth.cpp:67-81 | entering a failure keeps the five slots equal to the last five of the bucket's timestamps, across every wrap |
| Limiter.RingLocks | main/auth.cpp:83-91 | counting the recent slots reaches five exactly when the fifth-last timestamp is less than 60 000 ms old |
| LimiterRuns.AlwaysFaithful | main/auth.cpp:36-81 | after every history at most one used bucket exists per address, and each holds exactly the failures since its address was last evicted |
| LimiterRuns.TrackedIsSuffix | main/auth.cpp:67-81 | what is remembered of an address is always the newest part of its failures |
| LimiterRuns.LockedExactly | main/auth.cpp:83-91 | for any number of addresses: locked exactly when five failures are remembered and the fifth-last is less than 60 000 ms old |
| LimiterRuns.RecentAscending | main/auth.cpp:83-91 | in an ascending history, n failures are recent exactly when the n-th last is |
| LimiterRuns.LockedMeansFiveRecent | main/auth.cpp:83-91 | for any number of addresses a lock is never wrong: five failures did happen in the last 60 000 ms |
| LimiterRuns.EvictionNeedsACrowd | main/auth.cpp:67-81 | an address is evicted only when eight other distinct addresses have failed at or after its last failure |
| LimiterRuns.ForgottenOnlyInACrowd | main/auth.cpp:67-81 | the same for every failure ever forgotten over a whole history |
| LimiterRuns.NothingForgotten | main/auth.cpp:67-81 | with at most eight failing addresses nothing is ever forgotten |
| LimiterRuns.AtMostEightTracked | main/auth.cpp:67-81 | failures of at most eight addresses are remembered at any time |
| LimiterRuns.LimiterRefinesHistory | main/auth.cpp:62-91 | with at most eight failing addresses and a nondecreasing clock, locked exactly when the full history has five failures in the last 60 000 ms |
| LimiterRuns.LockedInNumbers | main/auth.cpp:62-91 | the same in numbers: locked exactly when there are five failures of the address in the history, each less than 60 000 ms old |
| LimiterRuns.MissedLockNeedsACrowd | main/auth.cpp:62-91 | with any number of addresses, a lock is missed only after eight others failed since some moment of the last 60 000 ms |
| LimiterGate.Gatekeeper.constructor | main/auth.cpp:45 | starts with all buckets free and no history |
| LimiterGate.Gatekeeper.BucketFind | main/auth.cpp:62-65 | the loop finds the address's bucket |
| LimiterGate.Gatekeeper.Claim | main/auth.cpp:67-76 | gives the address its bucket, clearing the least recently used one for a newcomer and touching no other |
| LimiterGate.Gatekeeper.RecordFailure | main/auth.cpp:67-81 | the buckets stay those of the history with this failure added |
| LimiterGate.Gatekeeper.Locked | main/auth.cpp:83-91 | the counting loop answers what the history's table says |
| LimiterGate.Gatekeeper.Attempt | main/auth.cpp:100-111 | granted exactly when gating is off, or the credential is good and the address not locked at the first clock reading; a bad credential of an unlocked address adds one failure at the second reading, and nothing else changes the record |
| LimiterGate.FailuresAreSpaced | main/auth.cpp:159-168 | over all gated attempts, however long each takes between its two clock readings, a remembered failure comes at least 60 000 ms after the fifth before it |
| LimiterGate.AllFailuresAreSpaced | main/auth.cpp:366-371 | with at most eight addresses the same holds of all failures |
| LimiterGate.NoSixInAMinute | main/auth.cpp:67-111 | in numbers: with at most eight failing addresses, of any six failures of one address on record the last comes at least 60 000 ms after the first |
| LimiterGate.FiveBadTriesLock | main/auth.cpp:67-111 | with at most eight failing addresses, five bad credentials of one address, each shown while it was not locked, lock it until the first of them is 60 000 ms old |
| LimiterGate.SixthIsRefused | main/auth.cpp:100-111 | within that time its next attempt is refused, good or bad, and leaves no trace |
| LimiterGate.LockEnds | main/auth.cpp:83-91 | on an unchanged record a lock ends exactly when the oldest of its five failures is 60 000 ms old |
| LimiterGate.LockOutlastsTries | main/auth.cpp:67-111 | whatever any addresses try while a lock lasts, its five failures stay as they are, unless eight other addresses have failed since the last of them |
| LimiterGate.LockEndsOnTime | main/auth.cpp:67-111 | with at most eight failing addresses, after any attempts by anyone the lock ends exactly when the oldest of its five failures is 60 000 ms old |
| LimiterGate.RefusedLeaveNoTrace | main/auth.cpp:100-111 | when only the locked address tries, its refused attempts leave the record as it was |
| LogLine.TrimmedLen | main/log_ring.cpp:250-254 | the loop over the buffer drops exactly the line ends and ESC bytes at the end |
| LogLine.CodeEnd | main/log_ring.cpp:260-263 | the inner loop stops right after the first m or at the end |
| LogLine.Strip | main/log_ring.cpp:255-266 | the loop from one 192-byte buffer into the other copies exactly what is no colour code, and its bound on the second is never what ends it |
| LogLine.Clean | main/log_ring.cpp:246-271 | formatting, trimming and stripping in the two buffers gives the specified line, shorter than 192 bytes |
| LogLine.StripSpelled | main/log_ring.cpp:255-267 | of a message read as bytes and colour codes, each code running to its first m or to the end, exactly the codes are removed |
| LogLine.EveryLineReads | main/log_ring.cpp:255-267 | every byte string can be read so |
| LogLine.CleanReads | main/log_ring.cpp:238-267 | the line kept is the message cut to 191 bytes and trimmed at its end, without exactly the codes found from left to right, up to a NUL |
| LogLine.CleanLeavesExactly | main/log_ring.cpp:250-267 | for every reading of a message: its line ends in a line end or ESC if and only if, before any NUL, one is kept behind which only codes stand up to a NUL or the end; and it holds a colour code if and only if, before any NUL, an ESC is kept whose next kept byte is a bracket |
| LogLine.CleanLeavesACode | main/log_ring.cpp:255-267 | a message whose line still holds a colour code, put together by the removal of another |
| LogLine.CleanLeavesALineEnd | main/log_ring.cpp:247-266 | a message whose line still ends in a line end, because a code followed it |
| LogLine.PlainLineKept | main/log_ring.cpp:238-267 | a message that fits and has no ESC, NUL or final line end is captured unchanged |
| LogLine.LineEndGoes | main/log_ring.cpp:250-253 | a line feed, carriage return or ESC at the end of a message makes no difference |
| LogLine.LongMessageCut | main/log_ring.cpp:246-249 | what lies beyond 191 bytes makes no difference |
| LogLine.RelayedLineReads | main/log_ring.cpp:392-403 | a relayed line reads level, milliseconds in brackets, tag, colon and message up to 191 bytes, with I for a missing level and p4 for a missing tag |
| LogRing.Ring.constructor | main/log_ring.cpp:28-38 | starts empty |
| LogRing.Ring.Append | main/log_ring.cpp:269-275 | keeps slot i mod 128 holding the i-th captured line for the last 128, across every wrap, each shorter than its 192-byte field |
| LogRing.Ring.Vprintf | main/log_ring.cpp:238-289 | captures the cleaned line, and nothing of an empty message |
| LogRing.Ring.PublishP4 | main/log_ring.cpp:387-410 | captures the relayed line, and nothing of a null message |
| LogRing.Ring.WalkAt | main/log_ring.cpp:316-329 | the i-th entry of the walk is read at `start` + i, modulo 128 |
| LogRing.Ring.WalkHolds | main/log_ring.cpp:316-329 | that slot holds the line captured i places after the oldest kept one |
| LogRing.Ring.WalkIsTail | main/log_ring.cpp:316-329 | walking from `start` for `count` slots gives all captured lines up to 128, and of more exactly the last 128, oldest first |
| LogText.EscapedLineDecodes | main/log_ring.cpp:308-364 | an escaped line decodes to the line, for every byte string |
| LogText.EmitIsPrefix | main/log_ring.cpp:308-364 | what is emitted of a line is the escape of one of its prefixes, cut between bytes only for lack of six bytes |
| LogText.NothingAfterACut | main/log_ring.cpp:308-364 | once a line is cut no later entry can be written: the export fails or ends there |
| LogText.ExportShape | main/log_ring.cpp:308-364 | a nonzero export is a JSON array of all entries in order, each whole except that the last may be cut |
| LogText.ExportFits | main/log_ring.cpp:308-364 | a nonzero export leaves room for its NUL |
| LogText.ReplyParses | main/log_ring.cpp:308-364 | a nonzero reply parses to the lines with their millisecond stamps, oldest first, all whole but perhaps the last |
| LogText.ReplySays | main/log_ring.cpp:308-364 | a client reads for every line its time in whole milliseconds, in decimal without leading zeros, a blank, and the line, oldest first, only the last perhaps cut |
| LogText.EmitWhole | main/log_ring.cpp:308-364 | a line is emitted whole exactly when more than six bytes of the buffer are left where its last byte's escape begins |
| LogText.ExportWhole | main/log_ring.cpp:308-364 | from any position, the rest is exported whole exactly when it fits with its NUL and the last line's slack |
| LogText.CompleteExactly | main/log_ring.cpp:308-364 | the reply is the whole ring if and only if `cap` is at least 16 and holds the whole text, its NUL and the slack of the last line |
| LogText.CutWithoutNotice | main/log_ring.h:17-22 | a ring and a buffer that would hold the whole text, where the code returns a nonzero length with the line's text gone |
| LogCut.EmitStops | main/log_ring.cpp:308-364 | the inner loop stops exactly before the first byte where at most six bytes are left |
| LogCut.PromiseKeptExactly | main/log_ring.h:17-22 | the promise "0 on truncation" is kept if and only if for no byte k of the last line the text without the line's bytes from k on fits with its NUL and at most two bytes to spare; where it is broken, the reply is the text of the log whose last line ends at the first such byte |
| LogCut.EscapedValid | main/log_ring.cpp:308-364 | escaping a line neither breaks nor repairs its UTF-8 |
| LogUtf8.WholeValid | main/log_ring.cpp:308-364 | a log exported whole is valid UTF-8 exactly when all its lines are |
| LogUtf8.ReplyValidExactly | main/log_ring.cpp:308-364 | a nonzero reply is valid UTF-8 if and only if all lines before the last are, and the last one is up to the byte where, by its size and the buffer's, it is cut |
| LogUtf8.CutAtTheCallersSize | main/ws_bridge.cpp:307-311 | in the 32768 bytes that every caller offers: a log of 128 valid lines of at most 191 bytes whose reply is not 0, misses nine bytes of the last line, and ends inside a character |
| LogUtf8.QuotedLogIsKept | main/log_ring.cpp:238-275 | each line of that log is what the log hook keeps of itself, so a ring can hold it |
| LogUtf8.ModestLogIsWhole | main/ws_bridge.cpp:307-311 | up to 128 lines that take at most 231 bytes each once escaped are always exported whole into 32768 bytes |
| LogUtf8.PlainLogIsWhole | main/ws_bridge.cpp:307-311 | so are up to 128 lines of at most 191 bytes with nothing to escape |
| LogExport.EmitChar | main/log_ring.cpp:308-364 | one byte's escape is written at the position, within `cap` |
| LogExport.EmitLine | main/log_ring.cpp:308-364 | the inner loop writes exactly the specified prefix of the escaped line and nothing at or beyond `cap` |
| LogExport.EmitOpen | main/log_ring.cpp:331-333 | the comma of a later entry and its quote are written within `cap` |
| LogExport.EmitStamp | main/log_ring.cpp:331-339 | comma, quote and stamp are written whole, or the export fails |
| LogExport.EmitEntry | main/log_ring.cpp:308-364 | one entry is written as specified exactly when the code's three bounds pass |
| LogExport.EmitAll | main/log_ring.cpp:308-364 | the loop over the ring writes the specified text of the last 128 lines or fails as specified |
| LogExport.Close | main/log_ring.cpp:308-364 | the closing brackets and the NUL end the text inside `cap` |
| LogExport.LogRingToJson | main/log_ring.cpp:308-364 | on a quiet ring: 0 exactly when the specification has no reply, otherwise the buffer holds that reply and its NUL; nothing at or beyond `cap` changes |
| LogExport.PlainRingIsWhole | main/ws_bridge.cpp:307-311 | and so is every ring whose captured lines have nothing to escape, however often it has wrapped |
| RateGate.Gate.constructor | main/log_ring.cpp:63-65 | starts in second 0 with no calls made |
| RateGate.Gate.Allow | main/log_ring.cpp:163-173 | the 8-bit counter stays the number of calls since the second began, modulo 256, and a call passes by the number before it, on any clock |
| RateGate.AllowedExactly | main/log_ring.cpp:163-173 | k calls in one second let exactly 50 (k / 256) + min(50, k mod 256) pass |
| RateGate.CapHoldsExactly | main/log_ring.cpp:163-173 | within one second of the clock at most 50 calls pass if and only if there are at most 256 |
| RateGate.SecondsCounted | main/log_ring.cpp:163-173 | on a clock that never runs backwards what is counted before a call are all calls of that second |
| RateGate.PassedInSecond | main/log_ring.cpp:163-173 | the calls let through in any part of one second of the clock |
| RateGate.RollingExactly | main/log_ring.cpp:61-65 | what any rolling second lets through, from the call times alone: the rest of one second of the clock and the start of the next |
| RateGate.RollingCapExactly | main/log_ring.cpp:61-65 | the promised cap over rolling seconds holds if and only if that load never exceeds 50 |
| RateGate.RollingBound | main/log_ring.cpp:61-65 | with at most 256 calls in every second of the clock no rolling second lets more than 100 through |
| RateGate.BurstsPass | main/log_ring.cpp:61-65 | 50 calls just before a second ends and 50 as the next begins all pass |
| OptionKeys.WriteKey | main/device_options.cpp:34-36 | the 16-byte buffer holds the key as a C string |
| OptionKeys.KeyIsCanonical | main/device_options.cpp:34-36 | every key is the printed form of the IEEE, or of a sixteenth of it from 2^60 on |
| OptionKeys.KeyForm | main/device_options.cpp:34-36 | a key is fourteen or fifteen lower-case digits |
| OptionKeys.KeyReadsBack | main/device_options.cpp:100-112 | the key parses back to the same IEEE if and only if it is below 2^60, and to its sixteenth otherwise |
| OptionKeys.KeysCollideExactly | main/device_options.cpp:34-36 | two IEEEs share a key exactly when their canonical IEEEs are equal; below 2^60 they never do |
| OptionKeys.RestartAppliesExactly | main/device_options.cpp:62-127 | after any history of settings, a restart gives a device exactly the last blob set for its canonical IEEE, and nothing to any other |
| OptionKeys.JustSetIsRestored | main/device_options.cpp:62-127 | for an IEEE below 2^60 the options set last are restored, and setting them changes nothing for any other device |
| OptionKeys.LongIeeeRestoredElsewhere | main/device_options.cpp:100-127 | an IEEE of 2^60 or more whose options a restart gives to another device and not to it |

## Left out

Not modelled at all:

* HTTP and WebSocket handlers, Wi-Fi, MQTT, SPIFFS, Home Assistant glue, metrics and boot order: plumbing.
* ArduinoJson, the label adapter, the device shadow, the pool's and the flash's own code are not part of this model; labels are an arbitrary function of the device, the pool is a sequence of slots, and single flash writes are atomic.
* SHA-256, password derivation, random tokens and the constant-time comparison: an attempt carries a flag saying whether its credential was good.
* The live log sinks, `parse_line` and `build_body_json`; allocation failures and the error replies they cause.
* Merging of stored option blobs, which the code does not do, and what `apply_opts` sets.

Not captured of what is modelled:

* Flash errors: every write succeeds or power fails before it. Return values after a failed write are not modelled (`grp_save` ignores the result of the bitmap write). Every blob is one whole group record; blobs of another size are not modelled. A namespace that does not exist yet is an empty map.
* The text of `group_list_json`: only its shared static buffer, its lock bracket and what it reads are modelled. The array is read to its end, where the code stops once its output is full.
* `group_update` finds and saves without one lock around both; it is not a step of the interleaving model, and neither is `grp_find`.
* The lazy creation of the mutex is taken as done before the first thread starts.
* Devices with IEEE 0 are never listed when a walk starts at 0; `PageWalk.SentExactlyOnce` is about nonzero ones.
* The limiter's clock: a nondecreasing number from 1 to 2^32 - 1, so not its wrap after 49 days; no time-out of its mutex; attempts are handled one after another, not two between `locked` and `record_failure` (each may take any time between its two clock readings).
* A ring that other tasks write to while it is exported: the code takes its lock once per entry there, and no claim is made.
* The log hook's error return of `vsnprintf`, and the hand-over to the previous log function.
* The option store keeps every blob it is given; the code stores none that is empty or longer than 191 bytes once serialised.
- RateGate.Gate.Allow: one caller at a time; the two atomics are not interleaved.
- DevicePages.CmdDeviceList: the slots listed are a ghost result; the pool is one snapshot taken under its lock, against any earlier count.
