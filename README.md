# PixelClip session controller and processing stub, modelled in Dafny

PixelClip is a browser page. The user uploads a video, picks a pixelation
level on a slider, runs a simulated processing step, previews the result
and downloads it. This project models the page's core logic and proves
properties about it:

- **`Home`** models the page component (`src/app/page.tsx`) as the class
  `HomePage`.
  - Its fields are the component's state slots: `videoFile`,
    `originalVideoUrl`, `processedVideoUrl`, `isProcessing` and
    `pixelationLevel`.
  - `objectUrls` models the browser's object-URL registry, restricted to
    this page's handles. It maps each handle that is still registered to
    its Blob.
  - A handle is a number drawn from the counter `nextHandle`. So
    `URL.createObjectURL` creates a fresh handle, and
    `URL.revokeObjectURL` removes a handle (removing one that is already
    gone changes nothing).
  - `cleanupOriginal` and `cleanupProcessed` are the values the cleanup
    closure of the last committed effect holds.
  - There is one method per event handler: `HandleFileChange`,
    `HandleProcessVideo` (split into `BeginProcessing` and
    `FinishProcessing` at its awaits), `HandleDownload` and `ChangeLevel`.
    `DataUriToBlobUrl` is the conversion helper.
  - `CommitEffect` is React's commit of the URL-cleanup effect after a
    render. The host runs it after each handler. `Unmount` is teardown.
- **`DataUri`** models how `dataUriToBlobUrl` takes a
  `data:<mimetype>;base64,<data>` string apart: the `data:` scheme of
  RFC 2397, read by a plain split with no parameter handling. It also
  models the byte-copy loop that fills a `Uint8Array`. `atob` (base64 as
  in section 4 of RFC 4648) is a parameter that may fail.
- **`DownloadName`** models the file name `handleDownload` builds.
- **`JsString`** holds the JavaScript built-ins these rely on: `split`,
  `lastIndexOf`, `substring`, `slice`, `||` on strings, and the decimal
  rendering of an integer.
- **`PixelateVideoFlow`** models `src/ai/flows/pixelate-video-flow.ts`:
  - the schema's range check on the level;
  - the simulated delay, as a duration in milliseconds;
  - the identity result;
  - the `pixelateVideo` wrapper.

Inputs the model cannot see are parameters:

- `readAsDataUrl: Blob -> string` stands for the fetch plus `FileReader`
  in `blobUrlToDataUri`. A fetch of a handle that is no longer registered
  fails.
- `atob: string -> Option<string>` stands for the base64 decoder.

The model follows what the code does, including four points where a
reader might expect otherwise:

- The level schema has no integer check, although its own description
  (`src/ai/flows/pixelate-video-flow.ts:28`) says "integer from 2 to 50":
  `2.5` passes.
- A rejected file clears all three slots; the state does not stay as it
  was.
- `split(',')[1]` is the text between the first and the second comma, not
  everything after the first one.
- A result that arrives after a new upload is not discarded.

## Model

| member | source | states |
|---|---|---|
| `JsString.LastIndexOf` | src/app/page.tsx:155 | the result is -1 exactly when the character is absent; otherwise that position holds it and no later position does |
| `JsString.SubstringTo` | src/app/page.tsx:155 | `substring(0, e)` is a prefix whose length is `e` clamped into `0..|s|` (so `-1` gives the empty string) |
| `JsString.SliceTo` | src/app/page.tsx:156 | `slice(0, 15)` is a prefix of length at most 15, the whole string when shorter |
| `JsString.OrElse` | src/app/page.tsx:154-155 | `s || fallback` on strings: the string itself when non-empty, the fallback when empty; a building block of `DownloadName.Extension` and `DownloadName.BaseName` |
| `JsString.Last` | src/app/page.tsx:154 | what `pop()` returns from a non-empty array: its last element; `JsString.SplitLast` says which text that is after a split |
| `JsString.At` | src/app/page.tsx:73-74 | `pieces[k]` is present exactly when `k` is within the array, and is then that element; past the end it is `undefined` (None) |
| `JsString.Split` | src/app/page.tsx:73-74 | `split(sep)` always yields at least one piece; its meaning is fixed by `JsString.JoinSplit`, `JsString.SplitJoin`, `JsString.SplitFirst` and `JsString.SplitLast` |
| `JsString.NatToDecimal` | src/app/page.tsx:153 | the level's rendering is a non-empty string of decimal digits |
| `JsString.NumberToString` | src/app/page.tsx:153 | how `${pixelationLevel}` renders an integer: `-` followed by the digits of its magnitude for a negative value, `JsString.NatToDecimal` otherwise; the slider only produces 2..50 |
| `JsString.DecimalRoundTrip` | src/app/page.tsx:153 | the rendered digits denote the level again, so the `_p<level>` suffix identifies the level |
| `JsString.NoLeadingZero` | src/app/page.tsx:153 | the rendering starts with `0` only for zero |
| `JsString.SplitPiecesFree` | src/app/page.tsx:73-74 | no piece of a split contains the separator |
| `JsString.JoinSplit` | src/app/page.tsx:73-74 | joining the pieces of a split with the separator gives the string back |
| `JsString.SplitJoin` | src/app/page.tsx:73-74 | splitting pieces joined by the separator gives the pieces back when none contains it |
| `JsString.SplitFirst` | src/app/page.tsx:74 | `split(sep)[0]` is the prefix before the first separator, or the whole string when there is none |
| `JsString.HasSecondPiece` | src/app/page.tsx:73-74 | `split(sep)[1]` exists exactly when the separator occurs |
| `JsString.SplitLast` | src/app/page.tsx:154 | `split('.').pop()` is the text after the last dot, the whole string when there is none |
| `DataUri.CopyBytes` | src/app/page.tsx:75-79 | the buffer has the decoded string's length and `ia[i]` is the code of character `i` modulo 256, for every `i` |
| `DataUri.ToUint8` | src/app/page.tsx:78 | storing a character code into a `Uint8Array` keeps it modulo 256; `DataUri.CopyBytes` states the loop in these terms |
| `DataUri.PayloadText` | src/app/page.tsx:73 | the text `atob` receives never holds a comma; `DataUri.PayloadShape` says which text it is |
| `DataUri.MimeOf` | src/app/page.tsx:74 | a MIME type found holds no `;`, so parameters never reach the Blob; `DataUri.MimeShape` says which text it is |
| `DataUri.DecodeDataUri` | src/app/page.tsx:71-86 | a Blob exactly when `atob` accepts the payload and the head has a MIME type; the Blob has that type and one byte per decoded character; `DataUri.RoundTrip` is its inverse property |
| `DataUri.PayloadShape` | src/app/page.tsx:73 | the text handed to `atob` is the text between the first and the second comma (or the end); without a comma it is "undefined" |
| `DataUri.MimeShape` | src/app/page.tsx:74 | a MIME type is found exactly when the text before the first comma has a colon; it is the text after that colon up to the next colon or semicolon, so parameters are dropped |
| `DataUri.ParseFormatted` | src/ai/flows/pixelate-video-flow.ts:19-23 | a `data:<mime>;base64,<data>` string whose parts hold no delimiters is taken apart into exactly that MIME type and payload |
| `DataUri.RoundTrip` | src/app/page.tsx:71-86 | when `atob` undoes the base64 encoding, decoding a Blob's data URI rebuilds that Blob byte for byte |
| `DownloadName.Extension` | src/app/page.tsx:154 | the extension is never empty and never holds a dot; `DownloadName.ExtensionAfterLastDot` says which text it is |
| `DownloadName.BaseName` | src/app/page.tsx:155 | the stem is never empty: `video` without a dot, otherwise the text before the last dot or `video` when that is empty |
| `DownloadName.LevelSuffix` | src/app/page.tsx:153 | the suffix starts with `_p`, and for a non-negative level the rest is a decimal numeral denoting the level |
| `DownloadName.DownloadFileName` | src/app/page.tsx:156 | the name starts with `pixelated_` and ends with a dot and the uploaded file's extension; the whole shape is in `DownloadName.FileNameWithDot` and `DownloadName.FileNameWithoutDot` |
| `DownloadName.ExtensionAfterLastDot` | src/app/page.tsx:154 | the extension is the text after the last dot, or `mp4` when that is empty; it is never empty and never holds a dot; without a dot it is the whole name |
| `DownloadName.FileNameWithDot` | src/app/page.tsx:153-156 | with a dot the name is `pixelated_` + at most 15 characters of the text before the last dot (or `video`) + `_p<level>.` + the text after it (or `mp4`) |
| `DownloadName.FileNameWithoutDot` | src/app/page.tsx:153-156 | without a dot the name is `pixelated_video_p<level>.` + the whole name (or `mp4` for an empty name) |
| `DownloadName.FileNameKeepsExtension` | src/app/page.tsx:156 | the download name starts with `pixelated_` and its own last-dot extension is the uploaded file's extension |
| `DownloadName.StemAndExtensionReassemble` | src/app/page.tsx:154-155 | when the last dot is neither first nor last, stem + `.` + extension is the original name |
| `PixelateVideoFlow.Flow` | src/ai/flows/pixelate-video-flow.ts:18-70 | succeeds exactly when `2 <= level <= 50` (fractions allowed) and fails with `InvalidParameter` otherwise; on success the output URI equals the input URI and the delay is `500 + 50 * level` ms, within 600..3000 |
| `PixelateVideoFlow.PixelateVideo` | src/ai/flows/pixelate-video-flow.ts:73-77 | the wrapper returns exactly what the flow returns, with the same success condition and identity output |
| `PixelateVideoFlow.ValidInput` | src/ai/flows/pixelate-video-flow.ts:24-28 | the schema accepts a level exactly when `2 <= level <= 50`; stated through `PixelateVideoFlow.Flow` and `PixelateVideoFlow.RangeBoundaries` |
| `PixelateVideoFlow.SimulatedDelayMs` | src/ai/flows/pixelate-video-flow.ts:59 | for every accepted level the wait lies between 600 and 3000 ms; `PixelateVideoFlow.DelayStrictlyIncreasing` orders it |
| `PixelateVideoFlow.DelayStrictlyIncreasing` | src/ai/flows/pixelate-video-flow.ts:59 | the simulated delay grows strictly with the level |
| `PixelateVideoFlow.LevelDoesNotAffectOutput` | src/ai/flows/pixelate-video-flow.ts:66-68 | any two accepted levels give the same output for the same data URI |
| `PixelateVideoFlow.RangeBoundaries` | src/ai/flows/pixelate-video-flow.ts:24-28 | levels 1 and 51 are refused; 2, 50 and 2.5 are accepted |
| `Home.ProcessedBlob` | src/app/page.tsx:112-123 | the Blob a processing run ends with: the stub run on the data URI that was read, its result decoded by `dataUriToBlobUrl`; None on every path that throws. `Home.ProcessedBlobIsDecodedInput`, `Home.ProcessedBlobFailures` and `Home.ProcessedBlobIsUpload` state its properties, and the contracts of `Home.HomePage.FinishProcessing` and `Home.HomePage.HandleProcessVideo` are written in terms of it |
| `Home.ProcessedBlobIsDecodedInput` | src/app/page.tsx:112-123 | for any slider level the processed Blob is the decoded input data URI: the stub's identity carries through |
| `Home.ProcessedBlobFailures` | src/app/page.tsx:111-136 | a failed read or a level outside 2..50 yields no processed Blob |
| `Home.ProcessedBlobIsUpload` | src/app/page.tsx:112-136 | when the reader yields the file's data URI and `atob` undoes the encoding, processing gives back exactly the uploaded file's Blob |
| `Home.IsVideoType` | src/app/page.tsx:36 | the MIME gate `startsWith('video/')`; `Home.HomePage.HandleFileChange` states acceptance exactly when it holds |
| `Home.HomePage.constructor` | src/app/page.tsx:17-21 | the page starts with no file, no handles, level 10, not processing and nothing registered |
| `Home.HomePage.CanProcess` | src/app/page.tsx:271 | the process button (and the slider, line 245) is enabled exactly with a file and while not processing; `Home.HomePage.BeginProcessing` proves both disabled during a run |
| `Home.HomePage.CanDownload` | src/app/page.tsx:292 | the download button is enabled exactly with a processed handle and while not processing; `Home.HomePage.HandleProcessVideo` proves it enabled exactly after a success |
| `Home.HomePage.ReadObjectUrl` | src/app/page.tsx:60-69 | the read of an object URL fails once the handle is revoked; `Home.ReprocessAsWritten` relies on that |
| `Home.HomePage.CreateObjectUrl` | src/app/page.tsx:42 | registers the Blob under a handle never issued before |
| `Home.HomePage.RevokeIfSet` | src/app/page.tsx:37-38 | a non-null handle is removed from the registry; a repeated revocation changes nothing |
| `Home.HomePage.CommitEffect` | src/app/page.tsx:27-32 | when either slot changed, both captured handles are revoked and the current slots captured; afterwards every registered handle is held by a slot (no leak) |
| `Home.HomePage.CommitEffectCorrected` | src/app/page.tsx:27-32 | the intended cleanup: it revokes only captured handles no slot holds; no leak, and from a state with no dangling handle the registered handles are exactly the held ones |
| `Home.HomePage.Unmount` | src/app/page.tsx:27-32 | teardown by the last cleanup leaves no registered handle |
| `Home.HomePage.HandleFileChange` | src/app/page.tsx:34-54 | accepted iff a file exists whose type starts with `video/`; on acceptance both old handles are revoked, the processed slot is null and the original slot holds a fresh handle for the file; otherwise all three slots are null, nothing is revoked and `InvalidFileType` is reported |
| `Home.HomePage.ChangeLevel` | src/app/page.tsx:238-245 | the slider, enabled only with a file and while not processing, sets a level in 2..50 |
| `Home.HomePage.DataUriToBlobUrl` | src/app/page.tsx:71-86 | yields a handle exactly when decoding succeeds, and registers the decoded Blob under a fresh handle; returns null and registers nothing on failure |
| `Home.HomePage.BeginProcessing` | src/app/page.tsx:89-112 | without a file or original handle it reports `NoVideoUploaded` and leaves the flag and processed slot alone; otherwise the flag is up, the processed slot is null, and both buttons are disabled before the stub runs |
| `Home.HomePage.FinishProcessing` | src/app/page.tsx:111-145 | on success it revokes the captured processed handle and holds a fresh one for the decoded result; on any failure it reports `ProcessingFailed` and registers nothing; the flag is down on every path |
| `Home.HomePage.HandleProcessVideo` | src/app/page.tsx:89-146 | the whole handler: the guard, then success exactly when the read, the stub and the decoding all succeed, with the new processed handle, the next fresh handle and the registry stated; download is enabled exactly after a success; file, original handle and level are unchanged |
| `Home.HomePage.HandleDownload` | src/app/page.tsx:148-160 | a download exists exactly when both a processed handle and a file exist; it targets the processed handle under the name `DownloadFileName` builds |
| `Home.ReprocessAsWritten` | src/app/page.tsx:27-32 | with the cleanup as written, a second processing of the same upload fails after a first one succeeded |
| `Home.ReprocessCorrected` | src/app/page.tsx:27-32 | with the corrected cleanup, both processings of the same upload succeed |

## Left out

- Rendering, the toasts' wording, the upload-area click (`handleUploadClick`) and the API-key input are presentation. The notices are returned values.
- A run that resolves after `Unmount` still registers its result (`createObjectURL` at `src/app/page.tsx:81`), and no later cleanup revokes that handle. `Home.HomePage.Unmount` does not require `!isProcessing`, and the model states nothing about such a late result.
- After `setIsProcessing(true); setProcessedVideoUrl(null)` (`src/app/page.tsx:108-109`), React commits while the handler waits at its first await (line 112). By then `fetch` (line 61) has already taken the original handle. The model folds that commit into the one after the handler, and the end states agree.
- Async interleaving is not modelled. The file input stays enabled during processing, so a new upload can arrive between `BeginProcessing` and `FinishProcessing`. The model allows that order but proves nothing about it. The code would put the earlier run's result into the new session.
- `blobUrlToDataUri` (fetch plus `FileReader`) is reduced to a registry lookup and the abstract `readAsDataUrl`.
- Real base64 decoding is an abstract `atob`. The real `atob` rejects "undefined", the text it receives when the data URI has no comma. The model passes that text on and lets the parameter decide.
- The `Blob` constructor's normalisation of its `type` (lower-casing, emptying on non-ASCII) is not modelled.
- The registry is the browser's single global registry. The model holds only this page's handles.
- Timing: `setTimeout` is a computed duration (`FlowRun.delayMs`). React's batching of state updates and Strict-mode double effects are not modelled.
- The level is a `real` in the flow, so NaN and the infinities of a JavaScript number are not represented.
- `JsString.NumberToString` renders integers only. The flow accepts fractional levels, but the page only ever passes slider values (integers).
- Dafny characters are Unicode scalar values, while JavaScript strings count UTF-16 code units. `slice(0, 15)` can therefore differ for names with characters outside the Basic Multilingual Plane.
- Logging through `console.log` and `console.error` is left out.
- `src/ai/flows/pixelate-video-flow1.ts` (temporary files, frame extraction, a network call) is not part of this model.
- Also not part of this model: `src/firebase/index.ts`, `src/ai/ai-instance.ts`, `src/app/layout.tsx`, `public/_auth/experiments.js` and `next.config.ts`. They are library setup, layout and build configuration.

## Findings

| source | as written | input that shows it | evidently intended | confidence | as-written member | corrected member |
|---|---|---|---|---|---|---|
| src/app/page.tsx:27-32 | the effect depends on both URLs, so when either changes its cleanup revokes both captured URLs, including an original URL that is still displayed | upload a video and process it successfully: the processed URL goes from null to a new handle, and the cleanup revokes the original URL that is still held; processing again fetches the revoked URL and reports "Processing Failed" | revoke a captured URL only when no slot holds it any more (on replacement or unmount) | high; not executed | `Home.ReprocessAsWritten` | `Home.HomePage.CommitEffectCorrected` |

`Home.HomePage.CommitEffect` models the cleanup as written. It still
proves that nothing leaks. `Home.ReprocessAsWritten` runs upload, commit,
process, commit, process, commit against it and proves that the second
processing fails. `Home.HomePage.CommitEffectCorrected` is the intended
cleanup. It proves that every handle a slot holds stays registered and
that the registered handles are exactly the held ones.
`Home.ReprocessCorrected` runs the same sequence against it and proves
that both processings succeed.
