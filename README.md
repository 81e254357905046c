# hbimg: a verified model of the `<img>` rewriter

hbimg is a Go command-line tool. It copies HTML documents and replaces each `<img src="...">` with a self-contained data URI: `data:image/<format>;base64,<bytes>`. It reads the image from a URL or from a path relative to the document. With `-j` a translated tag keeps no `src` at all. Instead, a `<script>` block placed before `</html>` assigns each image by element id. Files are handled in rounds of `goCount` goroutines. Each goroutine owns one slot: an output buffer, an error list and, under `-j`, a pair list. Errors are printed after every round.

This project models the core of `main.go` in Dafny and proves what it does:

- `Bytes`, `Wrappers`: byte strings, `strings.HasPrefix`, the literal `</html>` search, and Option/Result.
- `Oracles`: the collaborators that are not modelled, as function fields of a datatype `Env`. These are the scanning regular expression, `url.ParseRequestURI`, `fs.ValidPath`, HTTP and file reads, `image.DecodeConfig`, base64, the `fp` path functions and the `os` file calls. The results hold whatever these functions return, except that the matches `scan` returns must be well formed (`Workers.ScanWellFormed`).
- `GoSlice`: Go slices as a backing array plus a length.
  - `append` writes in place when there is room.
  - `s[:n]` reads the backing array beyond `len(s)`.
  - `init2D` is here too.
- `Paths`: `getFullPath`, `getAbsPathFitStructure` with its `../`-stripping loop, `fp.Ext`, `appendIfHTML` and `appendIfOutsideOutDir`.
- `ImgTag`: `translateSrc` and `translateImgTag`. The first pass finds `data-no-hbimg="true"`. The second pass rewrites the attribute slots in order.
- `Document`: `translateHTML` and `writeScript`.
- `Workers`: the per-slot state as a class `Scratch`, with `handleHTML`, `clearBuf` and `handleErrors`. It also holds the dispatch loop of `main` with its `goto out`.
  - `Schedule` lists the rounds: file k goes to slot k mod goCount in round k div goCount.
  - `DispatchAll` replays the schedule: `handleHTML` for each file of a round, then `handleErrors`, for every round including a last one that may be empty. Entry k of its write results is what `handleHTML` of file k wrote (`DispatchWritesFile`).
  - `Scratch.Run` ends in exactly the state, write results and printed errors that `DispatchAll` gives. The loop is split into methods for one round (`Round`, `RunRound`), one `go handleHTML` (`HandleInRound`) and one flush (`FlushRound`).

The model follows the code, including behaviour that looks unintended:

- **No synthetic id is ever produced.** `toGenerateId` starts false and is only ever set to false (`ImgTag.IdComesFromTag`).
- **Without `</html>`, everything after the last tag is dropped** (`Document.PlainDocumentIsItsPrefix`).
- **`clearBuf` cuts the buffer back to one byte, not zero.** A slot's buffer keeps its first byte for good: the first byte of the rewrite of the first file handled on that slot, or the zero byte of the fresh buffer when that first file failed or its rewrite was empty. Every later file on the slot is written with that byte in front (`Workers.StaleBytePersists`).
- **`handleErrors` keeps each slot's first error.** So it is printed again at every later flush (`Workers.FlushReprintsFirstErrors`).
- **Pair lists are never cleared.** So the script block of a later file on a slot repeats the statements of the earlier files (`Document.ScriptRepeatsEarlierPairs`, `Workers.PairsAccumulate`).
- **An `id` attribute is written back with an extra leading space** (`ImgTag.IdAttributeGainsSpace`).
- **Under `-j` an image without an `id` is lost.** The `src` of every tag not marked `data-no-hbimg="true"` is dropped from the tag. When the fetch succeeds, the pair is still recorded, with an empty id. The script then calls `document.getElementById("")`, which finds no element (`ImgTag.IdComesFromTag`, `Document.OneOutcomePerTag`). The image is lost the same way when its fetch fails: the `src` is dropped and no pair is recorded.

Other behaviour of the code worth knowing:

- main.go:274-281 holds an `hbimg_auto_<offset>` id generator that never runs, because `toGenerateId` is never set true.
- main.go:196-210 copies text after the last tag only up to a `</html>`; with none, the tail is dropped.
- main.go:213-215 and main.go:414-425 cut the buffer and the error list of a slot back to one element between files, not to zero.
- main.go:186 appends to a slot's pair list, and nothing ever clears it.

## Model

| member | source | states |
|---|---|---|
| Bytes.FirstIndexOf | main.go:197 | `rgCloseHTML.FindIndex` for the literal `</html>`: the result is an occurrence with none before it, and None means there is no occurrence at all |
| GoSlice.Make | main.go:405-411 | `make([]T, 0, cap)`: empty, capacity `cap`, backing array zero-filled |
| GoSlice.Append | main.go:181 | `append`: contents grow by exactly `xs`, capacity never shrinks, the first backing element is kept (or is `xs[0]` on an empty slice), and appending nothing changes nothing |
| GoSlice.Reslice | main.go:214 | `s[:n]` for `n <= cap(s)`: contents are the first `n` backing elements, capacity unchanged |
| GoSlice.AppendAppend | main.go:181-186 | successive appends to one slice give the same slice as one append of the concatenation |
| GoSlice.Init2D | main.go:405-411 | `init2D`: `flen` slices, each `make([]T, 0, slen)` |
| Paths.FullPath | main.go:383-388 | `getFullPath`: an absolute target is returned unchanged, a relative one is joined to the base |
| Paths.StripParents | main.go:399-401 | the result of the strip loop does not start with `../` and is a suffix of the input |
| Paths.StripParentsSplit | main.go:399-401 | input = (`../`)^k ++ result |
| Paths.StripParentsUnique | main.go:399-401 | that decomposition is unique: stripping (`../`)^k ++ s, for s not starting with `../`, gives back s and k |
| Paths.StripParentsIdempotent | main.go:399-401 | stripping twice is stripping once |
| Paths.AbsPathFitStructure | main.go:390-403 | the loop method returns `Join(outDirAbs, StripParents(p))`, where `p` is the path made relative to the working directory when it was absolute |
| Paths.Ext | main.go:483 | `fp.Ext`: a suffix of the name; when non-empty, a `.` followed by bytes that are neither `.` nor `/` |
| Paths.ExtEmptyOnlyWithoutDot | main.go:483 | `fp.Ext` is empty only if every `.` of the path comes before some `/` |
| Paths.ExtOfSuffix | main.go:483 | a name ending in `.` plus bytes without `.` or `/` has exactly that as its extension |
| Paths.HtmlSuffixIsExt | main.go:483-484 | a name ending in `.html` or `.htm` has that extension |
| Paths.IsHtmlNameIffSuffix | main.go:483-484 | the extension test holds iff the name ends in `.html` or `.htm`, case-sensitively |
| Paths.AppendIfHTML | main.go:479-488 | a walk error is returned unchanged and nothing is appended; otherwise nil is returned, and the entry is appended iff the extension test holds |
| Paths.AppendIfOutsideOutDir | main.go:469-476 | a path with `outDirAbs` as a plain string prefix is skipped with a nil error, its walk error included; any other path goes to appendIfHTML |
| Paths.CollectedIff | main.go:469-488 | a walked file is appended, and is the only one appended, iff its error is nil, its name ends in `.html`/`.htm` and its path does not start with `outDirAbs` |
| ImgTag.SetSlots | main.go:221-228 | the loops visit the slots before the first `-1`, at most 3 |
| ImgTag.LastSlotNamed | main.go:238-270 | the last visited slot with a given name: no later slot has that name, and None means no visited slot has it |
| ImgTag.Resolve | main.go:289-327 | on every failure (fetch, file read, neither URI nor path, sniff) the result is the original `src` bytes plus that error; otherwise it is exactly `data:image/` ++ format ++ `;base64,` ++ base64 and nil |
| ImgTag.TranslateSrc | main.go:289-328 | appends `Resolve(...)`'s bytes and returns its error. URI is tested first, then `fs.ValidPath`, else the "neither URL nor file path" error. A failed URL fetch, like a `src` that is neither, appends exactly `srcBytes` |
| ImgTag.ScanSuppression | main.go:228-236 | the first pass returns `toTranslate` false iff some visited slot is named `data-no-hbimg` with value exactly `true`, wherever it sits |
| ImgTag.WriteAttr | main.go:238-270 | one step of the second pass. It appends the gap since the previous slot and then the attribute: ` src="`value`"` when suppressed, nothing under `-j`, the resolved source otherwise. `id` becomes ` id="`value`"`; any other name becomes name `="`value`"`. It also updates the id, the separately resolved value and the error |
| ImgTag.TranslateImgTag | main.go:220-286 | the appended bytes, returned id, translated value and error are `TagOut`, `TagId`, `TagTranslated` and `TagErr`: each gap then the rewritten attribute, then `inbuf[lastValEnd+1:end]`; the last `id`; the last `src`'s resolution under `-j`; the last `src`'s error |
| ImgTag.ZeroSlotsCopiedVerbatim | main.go:238-283 | a tag with no set slot is copied as `inbuf[start:end]`, with a nil id and no error |
| ImgTag.SlotsOutWithoutFetch | main.go:242-257 | when a tag is suppressed, or under `-j`, the slot output does not depend on fetching, sniffing or encoding; a suppressed tag's output does not depend on `-j` either |
| ImgTag.AttrOutWithoutFetch | main.go:242-257 | the same for one attribute |
| ImgTag.SuppressedTagUntouched | main.go:228-257 | a suppressed tag is written identically in both modes whatever the image sources hold; it reports no error and resolves no script value |
| ImgTag.ScriptModeTagIgnoresFetch | main.go:247-249 | under `-j` no resolved bytes reach the tag itself |
| ImgTag.PlainAttrVerbatim | main.go:264-268 | an attribute other than `src`/`id` written as name`="`value`"` comes out unchanged |
| ImgTag.SlotsOutVerbatim | main.go:238-272 | such slots, with the gaps between them, come out as the input bytes |
| ImgTag.CanonicalTagRoundTrip | main.go:238-283 | a tag whose visited slots are all such attributes is reassembled byte for byte |
| ImgTag.IdAttrOut | main.go:258-263 | a canonical `id` attribute is written back with one extra space in front |
| ImgTag.IdSlotOut | main.go:241-263 | a first slot that is a canonical `id` comes out as the gap, a space, then the attribute as read |
| ImgTag.IdAttributeGainsSpace | main.go:238-283 | a tag whose only slot is a canonical `id` is the input with one space inserted before `id`; the id returned is its value |
| ImgTag.IdComesFromTag | main.go:223-283 | the returned id is empty or the value of a visited `id` slot, and empty when there is none: no `hbimg_auto_` id exists |
| Document.StatementsAppend | main.go:371-377 | the statements of a concatenation of pair lists are the concatenation of their statements |
| Document.ScriptRepeatsEarlierPairs | main.go:186-205 | a block written from earlier ++ own pairs holds the earlier statements before the document's own |
| Document.WriteScript | main.go:369-379 | appends `\n<script>\n`, one `document.getElementById("<id>").src="<value>";\n` per pair in order, `</script>\n`, and nothing else |
| Document.TranslateMatch | main.go:179-190 | one loop iteration extends the output by `inbuf[prevEnd:m.start]` ++ rewrite(m). It records the tag's error if non-nil, else its pair under `-j` |
| Document.TranslateMatches | main.go:175-190 | after the loop the output is the in-order weave of gaps and rewrites from offset 0, and `curStart` is the end of the last match |
| Document.WriteClosing | main.go:196-210 | appends `inbuf[curStart:p]`, the script block under `-j`, and `</html>` when `</html>` is first found at `p`; appends only the script block otherwise |
| Document.WriteScriptIf | main.go:204-206 | the script block is written only under `-j` |
| Document.TranslateHTML | main.go:174-211 | the whole output is `DocOut`: body, then the closing from the first `</html>`, with the slot's earlier pairs in the script. The recorded errors and pairs are the tags' own, in order |
| Document.WeaveOfVerbatimTags | main.go:179-190 | when every tag is copied unchanged, the body is the document up to the end of the last tag |
| Document.PlainBody | main.go:179-190 | a body of plain tags is `inbuf[:lastEnd]` |
| Document.ClosingWithoutScript | main.go:196-210 | without `-j` the closing is `inbuf[lastEnd:p+7]`, or nothing when there is no `</html>` |
| Document.DocOutWithoutScript | main.go:204-206 | without `-j` no script block is written |
| Document.PlainDocumentIsItsPrefix | main.go:174-211 | without `-j`, a document of plain tags is copied through its first `</html>` after the last tag: bytes after it, or after the last tag when there is no `</html>`, are never copied |
| Document.OneOutcomePerTag | main.go:183-187 | under `-j` each tag records exactly one of an error or a pair; without `-j` no pair is recorded |
| Document.ScriptModeBodyIgnoresFetch | main.go:179-190 | under `-j` the body does not depend on what the image fetches yield |
| Document.PairsComeFromTags | main.go:183-187 | every recorded pair is that of a tag whose error was nil, also a suppressed or `src`-less tag |
| Workers.Truncate | main.go:417-423 | an empty list is left untouched, any other is cut to its first element, capacity kept |
| Workers.FlushReprintsFirstErrors | main.go:414-425 | after one flush, the next prints exactly each non-empty slot's first error again, and truncating again changes nothing |
| Workers.HandleFile | main.go:144-172 | after handleHTML the buffer has length 1, capacity never shrinks, every recorded error is non-nil, and without `-j` the pairs are untouched |
| Workers.Handle | main.go:148-171 | the same up to the deferred clearBuf |
| Workers.Translate | main.go:165-171 | the success path: the buffer is its old contents ++ the document's rewrite, which is also what is written; the errors are the old ones ++ the tags' errors ++ the write error when there is one; the pairs are the old ones ++ the tags' pairs |
| Workers.WrittenFileRecords | main.go:146-171 | for a file that reads and whose directory is made: it writes the old buffer ++ the rewrite, records the tags' errors and then a failed write's error, and adds the tags' pairs after the earlier ones |
| Workers.FailedFileRecordsOneError | main.go:153-163 | a read or mkdir failure appends exactly that error and leaves the pairs unchanged |
| Workers.StaleBytePersists | main.go:144-172 | a file is written iff it reads and its directory is made, and what is written is the buffer's old contents ++ the rewrite. The buffer is then one byte: its old first byte if it held one or nothing was written, else the first byte written (the fresh zero byte if the rewrite was empty) |
| Workers.PairsAccumulate | main.go:183-187 | under `-j` a file that is not written leaves the pairs unchanged, and a written one appends exactly its own tags' pairs after those of earlier files |
| Workers.ScheduleDispatchesFile | main.go:126-135 | file k is dispatched in round k div goCount, on slot k mod goCount |
| Workers.ScheduleSlots | main.go:121-134 | slot j of round r takes file r*goCount + j, a file of the list, below min(n, goCount) = len(bufs) |
| Workers.FlattenSchedule | main.go:126-135 | the rounds, one after another, take the files 0..n-1 in order, each once |
| Workers.StepTouchesOneSlot | main.go:144-172 | handleHTML on a slot leaves it as HandleFile says and changes no other slot |
| Workers.StepsCommute | main.go:126-138 | two handleHTML calls on different slots give the same slots in either order, so the goroutines of a round may interleave |
| Workers.DispatchWritesEveryFile | main.go:126-141 | the dispatch loop produces one write result per file; that each file is handed over once is `FlattenSchedule` |
| Workers.DispatchWritesFile | main.go:126-141 | entry k of the write results is what handleHTML of file k on slot k mod goCount hands to os.WriteFile, on the slots as the files before k in the schedule left them (`SlotsBefore`) |
| Workers.DispatchFlushes | main.go:126-141 | the r-th flush prints every error the slots hold once round r has run, slot by slot |
| Workers.FinalFlushRepeats | main.go:126-141 | when the files fill whole rounds, the final flush directly follows the last round's and prints each non-empty slot's first error again |
| Workers.PrintErrors | main.go:420-422 | prints the slot's errors in order |
| Workers.HandleSlot | main.go:148-171 | the statements of handleHTML compute `Handle` |
| Workers.TranslateSlot | main.go:165-171 | translateHTML then os.WriteFile on the slot's slices compute `Translate` |
| Workers.Scratch.constructor | main.go:110-121 | goCount error lists and, under `-j`, pair lists of capacity 16; min(n, goCount) buffers of 2 MiB; all empty |
| Workers.Scratch.ClearBuf | main.go:213-215 | the slot's buffer becomes `buf[:1]`; nothing else changes |
| Workers.Scratch.HandleErrors | main.go:414-425 | prints `Printed` (every error, slot by slot), and the slots become `Flush` of the old ones: each error list cut to its first element, buffers and pairs unchanged |
| Workers.Scratch.HandleHTML | main.go:144-172 | the slot ends as `HandleFile` says; no other slot changes |
| Workers.Scratch.HandleInRound | main.go:132-134 | `go handleHTML` for the i-th file of a round extends the round by that file on slot i |
| Workers.Scratch.RunRound | main.go:127-135 | round q dispatches its files on slots 0, 1, ... in order. It reports the jump exactly when fewer than goCount files remain, and the state is then the round replayed from the state before |
| Workers.Scratch.FlushRound | main.go:136-141 | handleErrors after round q: the state and the printed errors are those of the first q + 1 rounds of the schedule |
| Workers.Scratch.Round | main.go:126-138 | one pass of the outer loop: after a full round and its flush the state is the first q + 1 rounds; after the jump it is round q awaiting its flush |
| Workers.Scratch.Rounds | main.go:126-139 | the outer loop up to `out`: n div goCount flushes, and then round n div goCount awaits the final flush, empty unless the loop jumped |
| Workers.Scratch.Run | main.go:121-141 | the slots, the write results and the printed errors are exactly `DispatchAll`: file k on slot k mod goCount in round k div goCount, handleErrors after every round, n div goCount + 1 flushes |

## Left out

- The `rgImg` regular expression is not modelled. Its matches are an oracle (`Env.scan`). They are assumed well formed: every match has 14 indices, slots lie in order inside the tag, and matches are ordered and do not overlap. With that assumption the early return at main.go:192 can never be taken, and it is not modelled.
- I/O is modelled as oracles: HTTP, file reads, `os.MkdirAll`, `os.WriteFile`, printing to stdout. Format sniffing (`image.DecodeConfig`) and base64 are oracles too. So the data URI's base64 round trip is not stated.
- `fp.Join`, `fp.Rel` and `fp.Split` are oracles. `fp.Rel` is taken to succeed, as it does for two absolute paths, so the `os.Exit` at main.go:394-397 is left out. `fp.IsAbs` is "starts with `/`".
- Goroutines and `sync.WaitGroup` are not modelled. The goroutines of a round run one after another, which is faithful because each touches only its own slot.
- `HandleStep` and `FlushStep` hand the dispatch replay `handleHTML` and `handleErrors` as functions. On slots that are not well formed they return the slots unchanged; the dispatch loop never reaches that case.
- The `toGenerateId` block (main.go:274-281) can never run, so it is not modelled. `ImgTag.IdComesFromTag` states the consequence.
- Startup is not modelled: `parseArgs`, `initOptions`, help output, `fs.WalkDir`, the working-directory lookup and `setOutDir`. Only the per-file callbacks of the walk are (`Paths.AppendIfOutsideOutDir`).
- `goCount` must be positive. The `-c` handler can leave it at 0 (main.go:523-526), and the dispatch loop would then never end.
- `hbimgError` (main.go:32-50) is unused.
- GoSlice.Append: reallocates to exactly the needed capacity rather than by Go's growth policy. Only the contents and the first backing element are observable here.
- Workers.Translate: it appends a file's whole rewrite, and its tag errors and pairs, in one step each. The source appends them piece by piece; `GoSlice.AppendAppend` shows that the results are the same.
- `translateImgTag` reads `min(len(matchList), 14)` indices. The model takes matches of exactly 14 indices, the scanner's fixed group count.
