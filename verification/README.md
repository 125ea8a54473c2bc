# qrtool decision rules, modelled in Dafny

qrtool scans images for QR codes and re-renders each payload as an SVG QR
code. It has two front ends: a browser page (`client.js`) that classifies a
batch of uploaded images and exports the results, and a command-line
converter (`index.js`) that writes an `.svg` next to every image of a
directory. Around the third-party decoder, encoder, archiver and file
system sit a few pure rules that decide which files are recorded, renamed,
written or skipped. This project models those rules and proves their
properties:

- `Rename` — the extension rewrite `name.replace(/\.[0-9a-z]+$/i, '.svg')`
  shared by both front ends. The regular expression has the `i` flag but
  not `u`, so its case folding is ASCII-only: it matches at the last dot
  when a non-empty run of ASCII letters and digits follows it to the end.
- `Upload` — the browser's upload handler: reset the item and error lists,
  filter names by `/\.(jpg|png|gif)$/`, and put each scanned file in the
  item list (with its payload) or the error list (url `null`).
- `Export` — `createURI` (XML declaration, optional data-URI wrapping),
  the single-item download and the entries of "download all".
- `Converter` — the command-line converter: the usage error, the skip
  rule, the decode-error / already-converted / write decision per entry,
  its console line, and the loop over a directory listing.
- `Text` and `Wrappers` — `StartsWith`/`EndsWith` and `Option`.

The QR scanner, the QR/SVG writer and `encodeURIComponent` are opaque: a
scan result travels with each file (`Option<string>`, `None` for a
scanner error), and the writer and encoder are function parameters. The
file system is seen through a listing function and an existence
predicate; writes are returned as outcomes instead of performed.

The upload filter at client.js:112 is case-sensitive and has no `.jpeg`
alternative, so `scan.PNG` and `scan.jpeg` are skipped without trace
(`Upload.FilterExamples`).

## Model

| member | source | states |
|---|---|---|
| `Rename.CreateNewFilename` | client.js:78-80 | if the pattern matches at index `i`, the result is the name up to (not including) that dot followed by `.svg`; if it matches nowhere, the name is returned unchanged |
| `Rename.ExtensionStart` | client.js:79 | the match position the scan finds satisfies the pattern (a dot followed by a non-empty alphanumeric run to the end); when it finds none, the pattern matches nowhere |
| `Rename.ExtensionAtUnique` | client.js:79 | the end-anchored pattern can match at one index at most: the last dot |
| `Rename.RenameEndsInSvg` | client.js:79 | whenever the pattern matches, and so whenever the name changes, the new name ends in `.svg` |
| `Rename.RenameIdempotent` | client.js:79 | renaming an already renamed name gives the same name |
| `Rename.RenameIdentityIff` | client.js:79 | the name is left unchanged exactly when it has no dot-plus-alphanumeric suffix or already ends in lower-case `.svg` |
| `Rename.RenameKeepsEarlierDots` | client.js:79 | `a.b.png` becomes `a.b.svg`: earlier dots are untouched |
| `Rename.RenameIgnoresCase` | client.js:79 | `A.PNG` becomes `A.svg`: the pattern is case-insensitive |
| `Rename.RenameKeepsSvgName` | client.js:79 | `photo.svg` is its own new name |
| `Rename.RenameIdentityExamples` | client.js:79 | `notes`, `trailing.`, `x.tar-gz` and `x.png~` are returned unchanged |
| `Rename.NoExtensionWithoutDot` | client.js:79 | a name with no dot has no extension for the pattern |
| `Upload.IsImageName` | client.js:112 | the filter accepts a name exactly when the case-sensitive pattern (a dot, then `jpg`, `png` or `gif`) matches at some index running to the end |
| `Upload.FilterExamples` | client.js:112 | `scan.jpg`, `a.b.png` and `.gif` pass; `scan.jpeg`, `scan.PNG` and `png` do not |
| `Upload.ImageNameRename` | client.js:112 | every name the filter accepts is exported as its stem (name minus the four-character image extension) plus `.svg` |
| `Upload.AcceptedFiles` | client.js:111-113 | the files kept by the filter all pass it, and every selected file that passes it is kept |
| `Upload.ScanItems` | client.js:142-144 | every item carries a payload and a name that passed the filter; there are no more items than files |
| `Upload.ScanErrors` | client.js:136-140 | every error entry has a null url and a name that passed the filter |
| `Upload.ClassifyAppend` | client.js:110-145 | the lists for a selection `a + b` are the lists for `a` followed by those for `b`, so both lists keep selection order |
| `Upload.ClassifyCounts` | client.js:110-145 | items plus errors number exactly the accepted files: each accepted file lands in exactly one list |
| `Upload.SingleFileOutcome` | client.js:111-143 | a rejected file adds nothing and is not kept by the filter; an accepted file is kept, and an accepted file adds one item carrying its payload on a successful scan, or one error with a null url on a failed one |
| `Upload.RejectedFileLeavesNoTrace` | client.js:111-113 | inserting a file the filter rejects anywhere in a selection changes neither list |
| `Upload.HandleUpload` | client.js:102-147 | starting from empty lists, the handler ends with exactly the reference item and error lists of the selection, items all carrying a payload and errors all a null url, with as many entries as accepted files |
| `Export.CreateUri` | client.js:89-99 | without encoding the result is the XML declaration followed by the writer output; with encoding it is the data-URI prefix followed by the encoding of that same document |
| `Export.CreateUriRoundTrip` | client.js:93-98 | stripping the declaration from the plain form, or the prefix and then the percent-encoding from the encoded form, gives back the writer output |
| `Export.PlainAndEncodedDiffer` | client.js:94-97 | a plain document is never equal to an encoded one |
| `Export.DownloadOne` | client.js:83-86 | the single download is saved under the renamed file name and holds the data-URI form of the item's rendering |
| `Export.ArchiveEntries` | client.js:66-72 | "download all" makes exactly one entry per item, in item order, named by the rename transform and holding the plain document of that item's payload |
| `Export.ArchiveSharedName` | client.js:69-72 | uploads named `a.png` and `a.jpg` give two archive entries both named `a.svg` |
| `Export.UploadArchive` | client.js:66-72 | exporting an upload's items names every entry after its file with the image extension replaced by `.svg`, and each entry holds the standalone document of that item's rendered payload |
| `Converter.Decide` | index.js:20-35 | an entry is skipped iff its name ends in `.svg` or starts with `.`; otherwise a failed scan is a decode error; otherwise it is already converted iff the renamed target exists, and written (target = renamed name, payload = scan) iff it does not |
| `Converter.WriteIsSafe` | index.js:30-34 | for an entry that exists, a write never targets the entry itself or an existing file, and its target ends in `.svg` |
| `Converter.IdentityRenameNeverWrites` | index.js:30-32 | when the rename leaves the name unchanged, a decodable entry is reported as already converted and nothing is written |
| `Converter.Report` | index.js:28-35 | skipped entries print nothing; a write prints on standard output exactly `✓ `, the source, ` → ` and the target; a decode error prints on standard error `× Error reading: ` followed by the entry name; an existing target prints `× Already converted: ` followed by exactly the target name |
| `Converter.ErrorLinesDiffer` | index.js:28-32 | a decode-error line never equals an already-converted line, whatever names they carry |
| `Converter.ConvertAll` | index.js:18-38 | one outcome per listed entry, in listing order, each the per-entry decision for that entry |
| `Converter.DirectoryWritesAreSafe` | index.js:18-38 | over a listing of existing entries, every write comes from its entry, carries that entry's payload and targets a `.svg` name outside the listing |
| `Converter.RunConverter` | index.js:9-18 | a missing or empty directory argument ends with exit status 1 and the message `× Please provide a directory path.` before anything is listed; a directory that cannot be listed ends the run with no entry processed; otherwise the outcomes are those of the listing of that directory, one per entry in listing order |
| `Converter.DirectoryExample` | index.js:18-38 | `code1.png` (payload `hello`) and an undecodable `code2.jpg` give a write of `code1.svg` and a decode error; a second run reports `code1.svg` as already converted, skips it, and writes nothing |
| `Converter.SharedTargetExample` | index.js:30-34 | against one view of the directory, `a.png` and `a.jpg` both decide to write `a.svg` |
| `Rename.RenameSharedStem` | client.js:79 | `a.png` and `a.jpg` both become `a.svg` |

## Left out

- QR decoding (`qrcode-reader`) and QR/SVG generation (`qrcode`): foreign libraries, modelled as a per-file scan result and as the `render` parameter.
- Reading files (FileReader in the browser, Jimp in the converter): I/O. A failed read rejects and aborts the whole loop in the source; the model assumes every read succeeds.
- Converter.Report: the decode-error line is modelled as the prefix followed by the bare entry name. In the source, `console.error` gets the scanner's error as a second argument. It appends that error after a space on the same line, and it expands `%` directives such as `%o` or `%s` inside the name. Neither is modelled, because the error object is opaque.
- The `console.log` of the selected files in the upload handler: diagnostics only.
- `encodeURIComponent`: treated as an uninterpreted parameter.
- DOM work: `updateItems` (table rows, per-row download buttons, file count, enabling "download all"), the incremental refresh after each file, and the drag-and-drop highlighting.
- JSZip archive construction, `saveAs` and the `moment()` timestamp in the archive name: external and non-deterministic; "download all" is modelled up to the list of entries handed to the archiver.
- `path.join`: names are relative to the converted directory.
- Converter.RunConverter: a directory that cannot be listed is modelled as `ListingFailed`; in the source the rejected `readdir` is unhandled, so the process ends with Node's unhandled-rejection error and status, which the model does not describe.
- Converter.Report: a `✓` line means the converter decided to write; if `QRWriter.toFile` then fails, the source prints no `✓` line and the rejection is unhandled. Write failures are not modelled.
- Export.ArchiveEntries: lists the entries handed to `zip.file`, one per item. The archive keeps only the last entry of each name, so `a.png` and `a.jpg` in one upload leave a single `a.svg` in the archive (`Export.ArchiveSharedName`); the archive's own contents are not modelled.
- Export.ArchiveEntries: assumes the QR writer renders every payload. In the source a writer failure (for example on an empty payload) rejects and aborts "download all" before anything is saved.
- Export.DownloadOne: assumes the QR writer renders the payload; a writer failure aborts the single download in the source.
- Concurrency: the converter's scan callbacks are not awaited, so a write can race with later existence checks. `Converter.ConvertAll` judges every entry against one view of the directory; which of two writes to the same target survives is not modelled (`Converter.SharedTargetExample` shows such a pair).
- A new upload arriving while a batch is still being scanned: re-entrancy of the async handler is not modelled; the handler is one uninterrupted pass.
- Themes, centre cut-outs, dot-radius post-processing and session-storage preferences: not part of this code.
