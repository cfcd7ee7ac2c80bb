# MultiConverter compression pages, modelled in Dafny

MultiConverter is a set of browser pages that take media files from a
file picker or a drop area and hand back "compressed" downloads. This
project models the logic three of those pages hold under their browser
glue:

- **The PDF page** (`pdf-compression.js`) and **the audio page**
  (`audio-compression.js`) keep a batch of at most three files. They add
  files from a drop or a picker (`handleFiles`), remove one by its index
  (`files.splice`), empty the batch on reset, and on compress write one
  comparison line and one archive entry per queued file, in batch order.
  The "compression" is a passthrough: the blob is the file itself. The PDF
  page accepts only the type `application/pdf` and keeps each file's name.
  The audio page accepts any type that starts with `audio/` and names each
  output `name.replace(/\.[^/.]+$/, '_packed.webm')`. The PDF page leaves
  compress disabled after a run, so only reset enables it again. The audio
  page enables compress again at the end of the run.
- **The video page** (`video-compression.js`) holds one selected file at a
  time and accepts a file of any type. Its compress handler disables the
  compress and reset buttons, waits for the transcoding engine to load,
  then reads the selection as it is at that moment. It derives the output
  name `base-compressed.ext` and picks the encoder (`libvpx-vp9` for
  `webm`, `libx264` otherwise). It waits for the run, then keeps the result
  and enables both buttons again.

The model has one Dafny module per page and three shared modules:

- `Media` holds what the browser hands every page: a file's name, type
  and size, and an optional value.
- `Text` states the JavaScript string operations the pages use on `seq<char>`.
  These are `toLowerCase`, `split` on one character, `lastIndexOf`, and the
  extension-cutting `replace(/\.[^/.]+$/, …)`. The replace is written as a
  leftmost-match scan, like the expression engine runs it. It is then proved
  equal to a plain description: cut at the last dot when that dot is
  followed by at least one character and by no `/`.
- `Batch` holds the records and the specification functions both batch
  pages are proved against. `Intake` follows the `handleFiles` loop step by
  step. `IntakeClosedForm` proves it equals a formula: append the accepted
  candidates, in order, as many as fit, and alert exactly when one does not
  fit. `Lines` and `ZipEntries` give the compress loop's output.
- `PdfTool`, `AudioTool` and `VideoTool` each model their page's state as a
  class. The fields are the page's module-level variables and its button
  flags. The methods are the event handlers, and each one is proved to keep
  the class invariant `Valid()`.

The video compress handler stops at its `await`s, and other handlers can
run in the meantime. So the model splits it into `ClickCompress`,
`EngineLoaded`, `EncodingDone` and `EngineFailed`. The invariant then says
that both buttons stay disabled while a compression is under way. The
split also keeps a behaviour of the code: the file list's remove button
calls `resetAll` even during a compression. If it clears the selection
while the engine loads, `compressSingle` fails on the missing file, and
both buttons stay disabled (phase `Failed`).

The engine is not modelled. Its command line is a result (`EngineLoaded`
returns it), and its output size and failures are inputs (`EncodingDone`,
`EngineFailed`). The browser does not deliver clicks to a disabled button,
so a `Click…` method on a disabled button changes nothing.

The pages do not de-duplicate files by name, have no fallback when a
transform fails, keep no per-format quality table, and do not rename
colliding archive entries; the model has none of these either.

## Model

| member | source | states |
|---|---|---|
| `Text.ToLower` | video-compression.js:125 | `toLowerCase` keeps the length and lower-cases each character on its own |
| `Text.ToLowerKeepsNonLetters` | video-compression.js:125 | a string with no capital letter is returned as it is |
| `Text.ToLowerIdempotent` | video-compression.js:125 | lower-casing twice gives the same as lower-casing once |
| `Text.LastIndexOf` | video-compression.js:125 | the index of the last occurrence, with no occurrence after it, or -1 exactly when there is none |
| `Text.Split` | video-compression.js:125 | `split('.')` always gives at least one piece |
| `Text.SplitPiecesLackSep` | video-compression.js:125 | no piece of `split('.')` contains the separator |
| `Text.SplitJoin` | video-compression.js:125 | joining the pieces of a split with the separator gives back the string |
| `Text.SplitLast` | video-compression.js:125 | `split('.').pop()` is the text after the last dot, or the whole string when there is no dot |
| `Text.ReplaceExtension` | video-compression.js:100 | `replace(/\.[^/.]+$/, repl)`: the name comes back whole, or cut just before one of its dots with `repl` appended (where it cuts: `Text.ReplaceExtensionAtLastDot`) |
| `Text.HasExtension` | audio-compression.js:89 | the description the expression is proved against: the last dot has a character after it and no `/` follows it (a predicate; `Text.ReplaceExtensionAtLastDot` states it) |
| `Text.ExtensionAt` | video-compression.js:100 | where `\.[^/.]+$` matches: a dot at `i` followed by at least one character, none of them `/` or `.`, up to the end (a predicate; `Text.FindExtensionFrom` and `Text.ExtensionAtLastDot` state it) |
| `Text.FindExtensionFrom` | video-compression.js:100 | the leftmost position where `\.[^/.]+$` matches, with no match before it, or -1 exactly when it matches nowhere |
| `Text.ExtensionAtLastDot` | video-compression.js:100 | the expression can only match at the last dot |
| `Text.ReplaceExtensionAtLastDot` | video-compression.js:100 | the replace cuts at the last dot exactly when a character follows that dot and no `/` does; otherwise the name is unchanged |
| `Text.ReplaceExtensionOfStem` | video-compression.js:100 | for any stem and an extension with no `/` or `.`, `stem.ext` becomes `stem` plus the replacement |
| `Text.ReplaceExtensionWithout` | audio-compression.js:93 | a name without an extension is never changed by the replace |
| `Text.LastDotOfStem` | video-compression.js:100 | in `stem.ext` the dot before the extension is the last dot, and the expression matches there |
| `VideoTool.GetExt` | video-compression.js:124-126 | `getExt` is the lower-cased text after the last dot, or the whole lower-cased name when there is no dot, and it contains no dot |
| `VideoTool.BaseName` | video-compression.js:100 | `replace(/\.[^/.]+$/, '')` (computed; `VideoTool.BaseNameCutsExtension` states it) |
| `VideoTool.OutputName` | video-compression.js:101 | `${base}-compressed.${ext}` (computed; `VideoTool.OutputNameOfStem`, `VideoTool.OutputNameWithoutDot` and `VideoTool.OutputNameEndsWithExt` state it) |
| `VideoTool.BaseNameCutsExtension` | video-compression.js:100 | the base name is the name up to its last dot when the name has an extension, and the whole name otherwise |
| `VideoTool.OutputNameOfStem` | video-compression.js:99-101 | `stem.EXT` gives the extension `ext` lower-cased and the output name `stem-compressed.ext` |
| `VideoTool.OutputNameWithoutDot` | video-compression.js:99-101 | a name with no dot is its own extension: `movie` gives `movie-compressed.movie` |
| `VideoTool.OutputNameEndsWithExt` | video-compression.js:101 | every output name ends with a dot followed by the extension `getExt` returned |
| `VideoTool.VideoCodec` | video-compression.js:105-107 | the encoder is `libvpx-vp9` exactly when the extension is `webm`, and `libx264` for every other extension |
| `VideoTool.StartJob` | video-compression.js:98-107 | a run takes the selected file, the output name and the CRF, and its encoder is the table's entry for the lower-cased extension: VP9 exactly when it is `webm`, x264 exactly when it is not |
| `VideoTool.EngineArgs` | video-compression.js:109-114 | the engine's command line reads the input file's name, passes the run's encoder after `-c:v` and its CRF after `-crf`, and writes the output name |
| `VideoTool.VideoPage.constructor` | video-compression.js:15-16 | the page starts with no selection, no result, both buttons enabled and no download |
| `VideoTool.VideoPage.HandleFile` | video-compression.js:31-33 | a missing file leaves the selection as it was; any other file replaces it, so at most one file is held |
| `VideoTool.VideoPage.ResetAll` | video-compression.js:47-54 | clears the selection, the result, the report and the download; leaves the buttons and a running compression alone; a second call changes nothing |
| `VideoTool.VideoPage.ClickReset` | video-compression.js:55 | the reset button runs `resetAll` unless a compression has it disabled |
| `VideoTool.VideoPage.ClickCompress` | video-compression.js:58-64 | with no selection the click only alerts and changes nothing; otherwise both buttons are disabled and the handler waits for the engine |
| `VideoTool.VideoPage.EngineLoaded` | video-compression.js:65-69 | the run uses the selection as it is after the load; if the selection was cleared, the handler fails and both buttons stay disabled |
| `VideoTool.VideoPage.EncodingDone` | video-compression.js:71-81 | the result is named after the output and typed like the input, the report has both sizes, the download is offered and both buttons are enabled again |
| `VideoTool.VideoPage.EngineFailed` | video-compression.js:63-69 | an engine failure ends the handler, and both buttons stay disabled |
| `VideoTool.VideoPage.ClickDownload` | video-compression.js:85-95 | the download saves the current result under its own name, and does nothing without a result |
| `Batch.Matching` | pdf-compression.js:29 | the filter of the `continue` line: it keeps only accepted candidates, never more than the list has, and keeps every accepted candidate |
| `Batch.MatchingAppend` | pdf-compression.js:28-29 | the filter keeps candidate order: filtering two lists one after the other is filtering their concatenation |
| `Batch.Entries` | pdf-compression.js:34 | one `{ file, originalSize: file.size }` record per file, in order |
| `Batch.Intake` | pdf-compression.js:28-35 | the `handleFiles` loop step by step: skip, push, or alert and stop (the reference the page loops are proved against; `Batch.IntakeClosedForm` states it) |
| `Batch.IntakeClosedForm` | pdf-compression.js:27-37 | `handleFiles` appends the accepted candidates in order, as many as there is room for, and alerts exactly when an accepted candidate finds no room |
| `Batch.IntakeKeepsBatchOk` | pdf-compression.js:29-34 | after `handleFiles` the batch holds at most three files, all accepted, each with `originalSize == file.size` |
| `Batch.IntakeAppendsInOrder` | pdf-compression.js:34 | earlier entries are untouched, and the new entries are the first accepted candidates in candidate order |
| `Batch.IntakeIgnoresOthers` | pdf-compression.js:29 | a call with no accepted candidate changes nothing and does not alert, even on a full batch: the type check runs before the capacity check |
| `Batch.IntakeWhenFull` | pdf-compression.js:30-33 | on a full batch, any accepted candidate makes the call alert and leave the batch as it was |
| `Batch.RemoveAt` | pdf-compression.js:49 | `splice(idx, 1)` (computed; `Batch.RemoveAtDeletesOne` states it) |
| `Batch.RemoveAtDeletesOne` | pdf-compression.js:48-49 | `splice(idx, 1)` at a valid index deletes exactly that entry and keeps the rest in their order; a larger index changes nothing |
| `Batch.RemoveAtKeepsBatchOk` | audio-compression.js:46 | removing a file keeps the batch bounded, and every remaining entry is still accepted and records its own size |
| `Batch.Lines` | pdf-compression.js:82-101 | the compress loop writes one line per queued file, in batch order, with its name and its sizes before and after |
| `Batch.ZipEntries` | pdf-compression.js:104 | the compress loop adds one archive entry per queued file, in batch order, holding the file's bytes unchanged |
| `Batch.PassthroughSizes` | pdf-compression.js:87-88 | on a batch built by `handleFiles`, every line shows the same size after as before |
| `PdfTool.IsPdf` | pdf-compression.js:29 | the PDF page accepts a candidate exactly when its type is `application/pdf` (a predicate) |
| `PdfTool.PdfPage.constructor` | pdf-compression.js:13 | the page starts with an empty batch, compress enabled and no download |
| `PdfTool.PdfPage.HandleFiles` | pdf-compression.js:27-37 | the loop with `continue` and `break` leaves exactly the batch `Intake` gives and alerts at most once, exactly when `Intake` alerts |
| `PdfTool.PdfPage.Remove` | pdf-compression.js:48-49 | the remove button leaves the batch `splice(idx, 1)` gives and keeps the invariant |
| `PdfTool.PdfPage.Reset` | pdf-compression.js:58-66 | reset empties the batch and the output, hides the ZIP download and enables compress |
| `PdfTool.PdfPage.ClickCompress` | pdf-compression.js:69-113 | with an empty batch the click only alerts; otherwise one line and one archive entry per file, named by the file's own name, in batch order; the archive is offered as `compressed-pdfs.zip` and compress stays disabled |
| `PdfTool.PdfRunIsPassthrough` | pdf-compression.js:82-105 | a PDF run has one line and one entry per file, in batch order, each under the file's own name, with the size after equal to the size before |
| `PdfTool.PdfFullBatch` | pdf-compression.js:29-33 | dropping one file on a full batch alerts exactly when it is a PDF, and the batch stays the same |
| `AudioTool.IsAudio` | audio-compression.js:28 | the audio page accepts a candidate exactly when its type starts with `audio/` (a predicate) |
| `AudioTool.PackedName` | audio-compression.js:89 | the name a file is saved and archived under (computed; `AudioTool.PackedNameReplacesExtension` states it) |
| `AudioTool.PackedNameReplacesExtension` | audio-compression.js:93 | the output name is the name up to its last dot plus `_packed.webm` when the name has an extension, and the name itself otherwise |
| `AudioTool.PackedNameOfStem` | audio-compression.js:89 | `stem.ext` is saved as `stem_packed.webm` for any stem and an extension with no `/` or `.` |
| `AudioTool.AudioPage.constructor` | audio-compression.js:13 | the page starts with an empty batch, compress enabled and no download |
| `AudioTool.AudioPage.HandleFiles` | audio-compression.js:26-35 | only `audio/` types are considered; the batch becomes exactly what `Intake` gives, and the page alerts at most once, exactly when `Intake` alerts |
| `AudioTool.AudioPage.Remove` | audio-compression.js:46 | the remove button leaves the batch `splice(idx, 1)` gives and keeps the invariant |
| `AudioTool.AudioPage.Reset` | audio-compression.js:52-59 | reset empties the batch and the output, hides the ZIP download and enables compress |
| `AudioTool.AudioPage.ClickCompress` | audio-compression.js:62-103 | with an empty batch the click only alerts; otherwise one line and one `_packed.webm` archive entry per file, in batch order; the archive is offered as `audios.zip` and compress is enabled again |
| `AudioTool.AudioRunIsPassthrough` | audio-compression.js:76-94 | an audio run has one line and one entry per file, in batch order, saved under the `_packed.webm` name, with the size after equal to the size before |

## Left out

- Rendering is not modelled: the file lists, the progress texts, the output HTML and the CSS classes. The drag-and-drop wiring is not modelled either. The comparison lines are modelled as data.
- Sizes are shown with `/1024` and `toFixed`. That floating-point formatting is not modelled; the lines carry the sizes in bytes.
- The transcoding engine is not modelled: its load, run and file system, and `fetchFile`. Its output size and its failures are inputs, and the quality radio's CRF value is a string parameter.
- JSZip `generateAsync`, `saveAs` and `URL.createObjectURL` are not modelled. An archive is modelled as its list of (name, blob) entries and the name it is saved under. What JSZip does with two entries of the same name is not modelled.
- `PdfTool.PdfPage.ClickCompress`: the handler stops at `await zip.generateAsync`, and this model runs to the end without stopping. So a reset or a removal while the archive is being generated is not modelled.
- `AudioTool.AudioPage.ClickCompress`: the same holds for the audio page's `await zip.generateAsync`.
- `Text.ToLower`: only the letters A to Z are lower-cased. JavaScript's full Unicode case mapping is not modelled.
- `PdfTool.PdfPage.Remove` and `AudioTool.AudioPage.Remove` take an index `>= 0`. `splice` with a negative index counts from the end, but the pages only pass indices of the list they have just drawn.
- The pages' HTML is not part of this model. The constructors assume that compress and reset start enabled and the download buttons start hidden.
- `script.js` is not part of this model. It re-draws images on a canvas and shows alerts.
