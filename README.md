# Image compressor: browser controller and request rules

This project models the two halves of a small web service that compresses a
batch of images into a zip archive, and proves what each half promises.

- **Client** (`client.dfy`) is the `ImageCompressor` controller of
  `static/js/app.js`, written as a Dafny class. Every page element it writes
  becomes a field: the selection, the preview tiles and totals, the quality
  slider and its label, the progress value, the error text, the result texts,
  the download URL, and one visibility flag per section. The ghost field
  `progressTrace` records every value the progress bar is given.
  - Submitting a batch is asynchronous in the source. The model cuts it into
    three steps that the environment calls in order: `CompressImages` builds
    the request, `ReceiveResponse` runs when `fetch` settles and also reads
    the answer's body, and `ShowResult` is the 500 ms timer callback. The
    wait for the body (`response.json()`) is not a separate step; see
    "## Left out".
  - Nothing links these steps except the values handed between them. Two
    submissions can therefore be in flight at once, and a result that arrives
    after `Restart` is still shown. The source behaves the same way.
- **Server** (`server.dfy`) holds the request rules of `app.py`:
  - the extension check `allowed_file`;
  - the validation ladder of `/upload`;
  - which files `/compress` encodes, how their archive entries are named and
    ordered, and the JSON it answers;
  - the constant `/progress` answer.

  `secure_filename` is a function parameter and `uuid4()` is a session-id
  parameter. What the image library does with a file is a field of the
  uploaded file: either the JPEG bytes it produces or the text of the
  exception it raises. Whether writing the archive to disk fails is also a
  parameter.
- **Util** (`util.dfy`) holds the shared vocabulary:
  - an option type;
  - JavaScript's `lastIndexOf`, `split(c).pop()` and clamping `substring`;
  - ASCII lower-casing;
  - an order-preserving filter, with lemmas saying exactly what it keeps.

Behaviours of the code a reader may not expect; the model follows the
code:

- No request is marked as in flight.
- A second click sends an identical second request and restarts the
  progress bar from 0 (`DoubleSubmit`).
- A late answer is not discarded. After a restart, its timer still brings up
  the result section (`LateResultAfterRestart`).
- `truncateFileName` on a name with no dot shows `"..."` followed by the whole
  name, which is three characters longer than the input (`TruncateWithoutDot`).

## Model

| member | source | states |
|---|---|---|
| Client.SelectionIsExactlyTheImages | static/js/app.js:78-81 | The selection keeps a file exactly when its MIME type is one of the five accepted types. It keeps each such file as often as it was offered, and in the offered order (a subsequence with equal multiplicities). |
| Client.TruncateFileName | static/js/app.js:274-275 | A name no longer than the limit is returned unchanged. |
| Client.TruncateAtLastDot | static/js/app.js:274-282 | For a longer name whose last dot is at `d`, the result is the first `keep` characters, then "...", then the text after the dot. `keep` is the limit minus the extension length minus 4, clamped into [0, d]. |
| Client.TruncateFitsBudget | static/js/app.js:277-281 | When the extension plus four fits the limit, the displayed name has at most limit - 1 characters and keeps the original extension. |
| Client.TruncateWithoutDot | static/js/app.js:277-281 | A long name with no dot is shown as "..." plus the whole name, three characters longer than the input. |
| Client.TotalBytesAppend | static/js/app.js:105-108 | The byte total of a concatenation is the sum of the two totals, so it does not depend on how the selection is split. |
| Client.BuildPreview | static/js/app.js:105-121 | The loop produces one tile per file, in order: the full name as tooltip, the truncated name as caption, and the size. Its running total is the sum of the sizes. |
| Client.BuildFormData | static/js/app.js:144-151 | The body has one `files` part per selected file, in selection order, followed by the `quality` value. |
| Client.FormDataReadsBack | static/js/app.js:147-151 | From that body, the receiving end reads back exactly the selection, in order, and the quality. |
| Client.FormDataUnique | static/js/app.js:144-151 | The selection and the quality determine the body completely. |
| Client.RejectionMessage | static/js/app.js:164-167 | A non-OK answer's message is its `error` field when that is present and non-empty, and "Compression failed" otherwise. It is never empty. |
| Client.FailureMessage | static/js/app.js:177-179 | A caught error shows its own message when that is non-empty, and "An error occurred during compression" otherwise. |
| Client.RejectionSurvivesCatch | static/js/app.js:164-179 | The message thrown for a non-OK answer reaches the error section unchanged. |
| Client.ImageCompressor.constructor | static/js/app.js:2-6 | Nothing is selected and there is no session or download URL. Quality is 80, progress has never been written, and only the upload section is displayed. |
| Client.ImageCompressor.MoveQualitySlider | static/js/app.js:20-22 | The label next to the slider shows the slider's value. |
| Client.ImageCompressor.HandleFileSelect | static/js/app.js:76-95 | If no file passes, an error is shown and the selection, preview and controls are unchanged. Otherwise the selection becomes the filtered list, the preview describes it, and the controls are shown. A partial rejection also shows "Some files were skipped"; a full pass leaves the error section alone. |
| Client.ImageCompressor.DisplaySelectedFiles | static/js/app.js:97-127 | The preview shows one tile per selected file, the count of files and their total size, and becomes visible. |
| Client.ImageCompressor.ShowControls | static/js/app.js:129-131 | The controls become visible, and the invariant holds. |
| Client.ImageCompressor.CompressImages | static/js/app.js:133-155 | With no selection: the "Please select files first" error, no request, and progress untouched. Otherwise: error and result sections hidden, progress shown at 0 then 10, and a POST to /compress whose body is the selection followed by the slider value, which is also handed on for the result. |
| Client.ImageCompressor.ReceiveResponse | static/js/app.js:157-180 | A completed answer takes progress to 90 then 100 and schedules the result with the captured quality. A non-OK answer writes 90 and shows RejectionMessage. A thrown error writes 90 only if the server had answered, and shows FailureMessage. Every error hides the progress bar. |
| Client.ImageCompressor.UpdateProgress | static/js/app.js:183-189 | The bar shows the percentage, which is appended to the trace. |
| Client.ImageCompressor.ShowProgress | static/js/app.js:191-196 | The progress section is shown, result and error are hidden, and 0 is written. |
| Client.ImageCompressor.ShowResult | static/js/app.js:202-213 | Progress is hidden and the result is displayed with the file count and quality + "%". The download URL is recorded. |
| Client.ImageCompressor.ShowError | static/js/app.js:219-224 | The message is displayed and the progress bar is always hidden. |
| Client.ImageCompressor.DownloadFiles | static/js/app.js:230-240 | A link is produced exactly when the download URL is present and non-empty, always under the name compressed_images.zip. |
| Client.ImageCompressor.Restart | static/js/app.js:242-262 | From any state: the selection is emptied, the session and download URL are cleared, quality and its label are reset to 80, every section except upload is hidden, and upload is shown. |
| Client.SuccessfulRun | static/js/app.js:133-213 | On a successful run the bar reads 0, 10, 90, 100 in that order before the result shows the count and "80%", with a download link to the returned URL. |
| Client.RejectedRunThenRetry | static/js/app.js:36-38 | A rejected run shows the server's error. Retry sends a request identical to the first. |
| Client.DoubleSubmit | static/js/app.js:133-155 | A second submission before the answer arrives builds a second request identical to the first, and the progress bar reads 0, 10, 0, 10. |
| Client.LateResultAfterRestart | static/js/app.js:173-175 | A result whose timer fires after Restart is still displayed, over an empty selection, with a working download link. |
| Server.AllowedFileAtLastDot | app.py:20-21 | The decision depends only on the lower-cased text after the last dot. |
| Server.AllowedFileNeedsDot | app.py:21 | A name without a dot is never accepted. |
| Server.AllowedFileOfLower | app.py:21 | Lower-casing the whole name does not change the decision. |
| Server.AllowedFileIgnoresCase | app.py:18-21 | Two names that differ only in the case of ASCII letters are accepted or rejected together. |
| Server.SplitExtRootShape | app.py:78 | The root from `os.path.splitext` is a prefix of the name. When it is shorter, what was cut is a dot followed by text with no '.' and no '/'. |
| Server.EntryNameStem | app.py:77-82 | For a secured name without '/', the entry is the name without its last extension plus "_compressed.jpg". A name with no dot keeps everything. |
| Server.PyIntReadsDecimal | app.py:33 | `int()` reads back a decimal rendering, with a minus sign and with surrounding blanks. |
| Server.UploadFiles | app.py:27-49 | The ladder, in order: 400 "No files uploaded" with no `files` field; an unhandled error when quality is not an integer; 400 "No files selected" for an empty list or an empty first name; 400 naming the first disallowed file in list order. Otherwise the count of files and the quality, defaulting to 80. |
| Server.ProcessedIffAllowed | app.py:63 | A part is processed exactly when its name is allowed; the truthiness test adds nothing. |
| Server.EncodeProcessed | app.py:60-83 | Only processed files are encoded, in input order, each named by EntryName. The first image-library exception among them stops the loop and yields its text. |
| Server.WriteZip | app.py:89-92 | The archive holds the entries in the order they were produced. |
| Server.CompressImages | app.py:51-111 | Non-integer quality gives an unhandled error. An empty list gives 400 "No files to compress". The first processing exception, or a write failure, gives 500 with its text. Otherwise: success with `/download/compressed_images_<id>.zip`, a file count equal to the number of processed files, and one entry per processed file in order. |
| Server.NothingAcceptedStillSucceeds | app.py:56-108 | A non-empty list with no allowed name succeeds, with a file count of 0 and an empty archive. |
| Server.CompressedCountIsAllowedCount | app.py:62-63 | The processed files are exactly the allowed ones, in upload order and with their multiplicities, so the count is the number of allowed names. |
| Server.UploadedListCompressesWhole | app.py:38-63 | A list that /upload accepts loses no file at /compress. |
| Server.DownloadUrlNamesSession | app.py:97-106 | The session id can be read back from the download URL, so distinct sessions get distinct URLs. |
| Server.GetProgress | app.py:140-142 | The answer is 0 whatever the session id. |

## Left out

- `formatFileSize` (static/js/app.js:264-272) is floating-point formatting. Sizes are kept in bytes.
- DOM rendering is not modelled: HTML strings, CSS classes, fade-in effects, drag-and-drop highlighting, and resetting the file input's value in `restart`.
- `showNotification` and the global `error`/`unhandledrejection` listeners are presentation only.
- The initial visibility of the page sections comes from a template that is not part of this model. The constructor assumes only the upload section is displayed.
- `fetch` and `FormData` become a request value and a `FetchOutcome` input. The network, JSON parsing and the 500 ms delay are not modelled.
- `console.error` is not modelled.
- Image decoding, mode conversion and JPEG encoding (app.py:65-74) are the image library's work. Each upload carries its outcome instead.
- The zip format, the file write, `download_file` and its deletion timer are I/O. The archive is a sequence of named entries, and a write failure is a parameter.
- Flask routing, request parsing, `MAX_CONTENT_LENGTH` and the framework's own 500 page are not modelled. An escaping exception is the `Unhandled` response.
- `secure_filename` and `uuid4` are parameters. Their own behaviour is not modelled.
- The unused progress computation in `compress_images` (app.py:86) has no effect and is not modelled.
- Server.PyInt: accepts ASCII blanks, a sign and ASCII digits. Python also accepts underscores between digits and non-ASCII digits and spaces; those are not modelled.
- Server.AllowedFile: lower-cases ASCII letters only. Python's `str.lower` also folds non-ASCII letters.
- Server.SplitExtRoot: follows POSIX `os.path.splitext` with '/' as the only separator.
- Client.ImageCompressor.ReceiveResponse: runs the code on both sides of `await response.json()` (static/js/app.js:162-171) as one step. In the source, another handler can run between writing 90 and reading the body, for example a second submission that writes 0 and 10 before the first answer's error is shown. The model cannot produce that interleaving.
- Client.TruncateFileName: counts lengths and cut points in Unicode scalar values. JavaScript's `length`, `lastIndexOf` and `substring` count UTF-16 code units, so names with characters outside the Basic Multilingual Plane are truncated differently. Such a character counts 2 in JavaScript and 1 here, and JavaScript may cut it in half, which this model cannot express.
