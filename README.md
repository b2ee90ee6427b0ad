# imageResizer — a Dafny model of the classify-and-select pass

imageResizer is a Node script (`main.js`) that asks the operator for a folder,
lists it, and hands every oversized image in it to an image library to be
shrunk into an `output` folder next to the script. This project models the part
of `mainApp` that decides what happens to each file, and proves what that
decision promises:

- the operator's answer loses every `"` before it is used as a directory
  (`text.dfy`, `scan.dfy`);
- `path.parse` splits each listed name into a stem and an extension
  (`filename.dfy`);
- an entry is an image when its lower-cased extension *contains* `jpg`,
  `jpeg` or `png`; it is skipped when its lower-cased stem contains any of
  `mindson`, `consolidation`, `action`, `learninggoals`, `ilo`; it is skipped
  when the dimension probe throws; it is resized when `width > 2000 ||
  length > 2000`, along `"width"` when `width > length` and `"length"`
  otherwise (`selection.dfy`);
- the pass over the listing collects `imagesResized` in listing order and
  dispatches one resize job per entry, reading the file from the scanned
  folder and writing the same name into the output folder at 1000 pixels on
  the chosen side (`scan.dfy`).

The file system, the probe and the resizer are inputs: the listing is a
`seq<string>`, the probe (`image-size`) is a function from a location to an
optional measurement (`None` when it throws), and a resize is the job record
`resizeImage` would hand to the image library. `path.join` and `path.resolve`
of a folder and a name are kept symbolic as `Location(dir, name)`.

main.js reads `imgDimensions.width` and `imgDimensions.length` (main.js:90,
98), and the model follows it: the `length` of a `Measurement` is optional,
and when the probe's result has no such field JavaScript reads `undefined`,
which compares false with anything. `Selection.MissingLengthOnlyWidthCounts`
states the consequence: then only the width decides, and the axis is always
`"length"`.

main.js selects images above 2000 pixels on either side, dispatches every
selected image with no limit on the number of jobs, and scans only the folder
the operator gives.

## Model

| member | source | states |
|---|---|---|
| Text.StripQuotes | main.js:12 | the result contains no `"`, is no longer than the input, and keeps each other character exactly as many times as the input has it |
| Text.StripQuotesKeepsOrder | main.js:47 | the characters that survive stripping keep their order: the result is a subsequence of the input |
| Text.StripQuotesIdempotent | main.js:47 | stripping quotes twice gives the same result as stripping once |
| Text.StripQuotesNoQuote | main.js:12 | a string without quotes is left unchanged |
| Text.ContainsIff | main.js:66-68 | `includes` holds exactly when the fragment occurs at some index of the string |
| Text.ContainsInfix | main.js:75 | a string contains anything written anywhere inside it |
| Scan.DirectoryLocation | main.js:46-47 | the directory scanned is the answer with quotes removed; it holds no quote and a second stripping leaves it as it is |
| FileName.LastDotBelow | main.js:63 | the index found holds a dot and no later index below the bound does, or -1 when there is no dot |
| FileName.ParseSpec | main.js:63 | stem followed by extension is the name; a non-empty extension starts with its only dot and follows a non-empty stem; the extension is empty exactly when the name is `..` or has no dot after its first character |
| FileName.ParseExamples | main.js:63 | `photo.JPG` splits into `photo` and `.JPG`, `slide.png.bak` at its last dot, and `.png` and `..` have no extension |
| Selection.ImageExtensionIff | main.js:65-69 | an extension passes exactly when `jpg`, `jpeg` or `png` occurs somewhere in its lower-cased form |
| Selection.FragmentMakesImageExtension | main.js:65-69 | one occurrence of an image fragment in the lower-cased extension is enough to pass |
| Selection.ImageExtensionAnywhere | main.js:65-69 | an extension with an image fragment written in any case, with anything around it, passes |
| Selection.ImageExtensionExamples | main.js:65-69 | `.JPG`, `.Png`, `.jpeg` and `.jpg_old` pass the extension test |
| Selection.GifIsNotAnImageExtension | main.js:65-69 | `.gif` fails the extension test |
| Selection.NoExtensionNotAnImage | main.js:63-72 | a name without a dot after its first character (such as `.png`) is never taken for an image |
| Selection.IgnoredIff | main.js:75 | a stem is ignored exactly when some ignore-list entry occurs in its lower-cased form |
| Selection.IgnoredAnywhere | main.js:75 | a stem with an ignore-list entry written anywhere in it, in any case, is ignored |
| Selection.IgnoreListExamples | main.js:50 | `Unit1_MindsOn` is ignored, and so are `Pilot` and `transaction_chart`, which merely contain `ilo` and `action` |
| Selection.ThresholdIsStrict | main.js:90 | a measured image is selected exactly when width or length exceeds 2000; 2000 by 2000 is not selected |
| Selection.NeedsResizeMonotone | main.js:90 | an image at least as large as a selected one is selected too |
| Selection.MissingLengthOnlyWidthCounts | main.js:90-98 | when the probe's result has no `length`, only a width over 2000 selects, and the axis is `"length"` |
| Selection.LongestDimension | main.js:98 | `"width"` is chosen only when the width is strictly larger; when `"length"` is chosen the length is at least the width |
| Selection.AxisChoice | main.js:98 | the axis is `"width"` exactly when width > length; ties go to `"length"` |
| Selection.ClassifyResizeIff | main.js:60-100 | an entry is resized exactly when its extension passes, its stem is not ignored, the probe measures it and it exceeds the threshold; its axis is the one `LongestDimension` picks: `"width"` only when a length was measured and the width exceeds it, `"length"` otherwise |
| Selection.UnmeasurableNeverResized | main.js:82-88 | an entry the probe cannot measure is skipped as not an image, ignored or unmeasurable, never resized |
| Scan.HandleEntry | main.js:60-100 | the callback yields a job exactly when the entry passes the extension, ignore, probe and threshold checks, and that job reads the entry from the scanned folder, writes the same name into the output folder, and sets the axis `LongestDimension` picks (`"width"` only when a length was measured and the width exceeds it, `"length"` otherwise) to 1000 pixels with fit contain and metadata kept |
| Scan.ResizeDirectory | main.js:53-101 | the scanned folder is the quote-stripped answer; `imagesResized` is the selected entries in listing order; there is one job per entry, in the same order, reading that file from the scanned folder, writing the same name into the output folder, fit contain with metadata, 1000 pixels on the chosen axis |
| Scan.SelectedFilesAppend | main.js:60 | scanning a listing in two parts gives the two results one after the other |
| Scan.SelectedFilesSubsequence | main.js:60-93 | `imagesResized` is a subsequence of the listing |
| Scan.SelectedFilesMembers | main.js:60-93 | a name is in `imagesResized` exactly when it is listed and passes the extension, ignore and dimension checks |
| Scan.SkippedEntryAddsNothing | main.js:71-88 | an entry that any check rejects adds nothing wherever it stands: the result is the one without it |
| Scan.UnmeasurableEntrySkipped | main.js:82-88 | an entry whose probe throws is not collected, and the rest of the scan is the same as without it |
| Scan.SmallImagesNotResized | main.js:90-100 | a folder of measurable images within the limit dispatches nothing |

## Left out

- The `inquirer` prompt and its `validate` hook (main.js:32-42), and therefore `locationChecker`'s `fs.statSync` and `isDirectory` test (main.js:13-14): interactive input and file-system calls. Only the quote stripping of main.js:12 is modelled.
- Creating the output folder (main.js:44) and `fs.readdir` with its error path (main.js:55-58): file-system calls. The listing is an input sequence.
- `path.normalize` (main.js:12, 52): a Node library call, taken as the identity; the scanned folder is the quote-stripped answer.
- `path.parse` (main.js:63) is modelled for a bare name only, as `fs.readdir` returns it; its handling of separators and roots is not.
- `path.join` and `path.resolve` (main.js:18, 24, 83): kept symbolic as `Location(dir, name)`; both the probe and the resizer see the same folder-and-name pair.
- `toLowerCase` (main.js:66-68, 75) is modelled on ASCII letters only; other Unicode case mappings are not.
- The `image-size` probe (main.js:83) is an input function returning an optional measurement; `None` stands for a thrown error.
- The `sharp` pipeline (main.js:18-24): decoding, fitting, keeping metadata and writing are the image library's; the model stops at the job record.
- The asynchronous order (main.js:55, 95, 124): the `await` inside the `forEach` callback and the final message printed before the listing arrives; the dispatch is modelled as a sequential append.
- The commented-out confirmation and backup code (main.js:104-122): dead code.
- All `console.log` output, including the log of a file whose probe throws.
