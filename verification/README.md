# VocalSplit core in Dafny

VocalSplit is a small HTTP service. It takes an uploaded audio file, runs a
pretrained source-separation model over it, and returns a zip archive with one
WAV file per stem (vocals, drums, bass, other). This project models the logic
the repository itself contributes, around the model and the audio libraries:

- **Upload admission and naming** (`separate` in `backend/main.py`).
  - The extension whitelist is checked on the lower-cased filename.
  - Then the 200 MiB size cap is checked. The two checks run in that order and give 400 and 413 respectively.
  - The temporary copy's suffix is derived with `os.path.splitext`.
  - So is the archive's suggested download name.
  - The temporary file is removed in a `finally` block, and a failing removal is swallowed.
- **Audio orientation and packaging** (`backend/utils.py`).
  - `load_audio_safe` turns the decoder's frames x channels buffer into channels x frames and forces the rate to 44100 Hz.
  - `save_stems_to_zip` writes stem *i*, transposed back, as the entry `names[i] + ".wav"`. It uses the default labels vocals/drums/bass/other when none are given.

Modules, one per concern:

| file | module | models |
|---|---|---|
| `wrappers.dfy` | `Wrappers` | `Option` and `Result`, standing in for `None` and raised exceptions |
| `grids.dfy` | `Grids` | rectangular sample buffers that record their shape; `Transpose` |
| `posixpath.dfy` | `PosixPath` | `str.rfind` and POSIX `os.path.splitext`, with an independent definition (`IsSplitOf`) proved equivalent |
| `upload.dfy` | `Upload` | `MAX_BYTES`, the extension whitelist, `Validate`, `TempSuffix`, `DownloadName` |
| `audioio.dfy` | `AudioIO` | `load_audio_safe` (`LoadAudio`) and `save_stems_to_zip` (`Package`, `SaveStemsToZip`) |
| `handler.dfy` | `Handler` | the `separate` handler over an environment of step outcomes, and the set of temporary files on disk |

Sample values have a generic element type `E`, so no floating point is involved.
The handler is a pure function of the upload and of an `Environment`. The
environment fixes everything the handler cannot see:

- the unique name the temporary-file service picks;
- whether creating, writing or removing the file fails;
- what the decoder reads back (`None` if the decoder raises);
- the separation model, as a function that may return `None`;
- the resampler;
- which buffers the encoder accepts.

A lemma quantified over all environments therefore covers every way each
modelled step can succeed or fail. The steps are creating, writing, decoding,
inference, packaging, encoding the archive's header and removing the file. The handler's only state is the set of temporary
files present on disk.

Four behaviours of the code are easy to misread:

- The temporary copy's suffix is `os.path.splitext(filename)[1] or ".wav"` (`backend/main.py:31`). A name whose last component is only a leading-dot extension (`.flac`, `dir/.aif`) has no extension to `splitext`, so it gets `.wav`. An extension that is kept keeps its original letter case (`Upload.TempSuffixMeaning`, `Upload.NamingExamples`).
- `save_stems_to_zip` uses caller labels whenever they are passed and the default four otherwise, whatever the stem count (`backend/utils.py:19-27`). The handler never passes labels. More stems than labels always fails. When every stem before the first unlabelled one encodes, the failure is an index error at that stem; otherwise the encoder's error comes first (`AudioIO.LabelShortageFails`, `AudioIO.Package`).
- The archive's `Content-Disposition` header carries the raw `splitext` root (`backend/main.py:43-46`), and HTTP header values are encoded as Latin-1. A filename whose root has a character above U+00FF, such as an en dash, therefore fails after every step has run and becomes a 500. The temporary file is still removed (`Handler.Respond`, `Handler.EnDashNameRejected`).
- Cleanup is not guaranteed on every exit path: see Findings.

## Model

| member | source | states |
|---|---|---|
| `Upload.ValidateMeaning` | backend/main.py:23-28 | 400 exactly when the lower-cased name ends in none of `.wav .flac .ogg .aiff .aif`, whatever the size. Otherwise 413 exactly when the size exceeds `MaxBytes`, otherwise admitted. |
| `Upload.EndsWithAnyIff` | backend/main.py:23 | `endswith` over the tuple, tried in order, succeeds iff some listed extension is a suffix |
| `Upload.ValidationExamples` | backend/main.py:18-28 | `.AIF` and `Song.WAV` are admitted. A payload of exactly `MAX_BYTES` passes and `MAX_BYTES + 1` gives 413. `track.mp3` gives 400 even when over the cap, and so does `notes.txt`. |
| `PosixPath.RFind` | backend/main.py:31 | the index found holds the character, and no later index does; -1 when absent |
| `PosixPath.SplitExtSound` | backend/main.py:31 | `splitext` meets its documented meaning. Root plus extension is the path. A non-empty extension starts with its only dot, contains no separator, and follows a last component that is not all dots. An empty extension means every dot of the last component is a leading dot. |
| `PosixPath.SplitExtUnique` | backend/main.py:31 | any split with that meaning is the one `splitext` returns, so the two definitions agree |
| `Upload.RootMeaning` | backend/main.py:46 | the `splitext` root is the whole name when there is no extension, else the name minus its extension |
| `Upload.TempSuffixMeaning` | backend/main.py:31 | the suffix is `.wav` when the name has no extension. Otherwise it is a suffix of the name in its original case, starting with its only dot and containing no separator. |
| `Upload.AdmittedSuffixIsAccepted` | backend/main.py:23-31 | for an admitted name that has an extension, the lower-cased temporary suffix is one of the accepted extensions |
| `Upload.DownloadNameMeaning` | backend/main.py:46 | the download name is the filename minus the same extension the temporary suffix keeps, followed by `_stems.zip` |
| `Upload.NamingExamples` | backend/main.py:31-46 | `.flac` gets temp suffix `.wav`, and `Song.FLAC` keeps `.FLAC`. `a.b.wav` downloads as `a.b_stems.zip`. |
| `Grids.Transpose` | backend/utils.py:12 | the result has the axes swapped, with cell (i, j) taken from cell (j, i) |
| `Grids.TransposeInvolutive` | backend/utils.py:26 | transposing back for writing undoes the load-time transpose, shape and cells |
| `AudioIO.LoadAudio` | backend/utils.py:10-16 | the returned rate is always 44100. At a native rate of 44100 the waveform is the decoded buffer with the axes swapped: channels x frames, no resampling. |
| `AudioIO.LoadAtTargetRateIsLossless` | backend/utils.py:11-16 | at the canonical rate, turning the loaded waveform frames-first again gives back exactly the decoded frames |
| `AudioIO.LabelsOrDefault` | backend/utils.py:19-20 | with no labels given, the labels are exactly `vocals, drums, bass, other`; given labels are used as they are |
| `AudioIO.Package` | backend/utils.py:22-27 | succeeds iff every stem encodes and there is a label for every stem. Then it gives one entry per stem, in order, where entry i is `labels[i] + ".wav"` holding stem i transposed and written at the given rate. On failure it names the first failing stem, and an encoder failure there takes precedence over the missing label. |
| `AudioIO.DefaultArchiveNames` | backend/utils.py:19-27 | four encodable stems with default labels give `vocals.wav`, `drums.wav`, `bass.wav`, `other.wav`, in that order |
| `AudioIO.LabelShortageFails` | backend/utils.py:23-27 | more stems than labels always fails, and with encodable stems the index error is at stem `len(labels)` |
| `AudioIO.SurplusLabelsUnused` | backend/utils.py:23-27 | labels beyond the stem count are never read: dropping them gives the same result |
| `AudioIO.PackageRoundTrip` | backend/utils.py:23-27 | the buffer each entry hands to the encoder, turned back to channels-first, is its stem with shape, frame order and channel order intact, and carries the rate passed in. Sample values after the encoder's conversion are not stated. |
| `Handler.TempPathSuffix` | backend/main.py:31-33 | the temporary file's path is the service's unique name followed by the derived suffix |
| `Handler.Process` | backend/main.py:36-42 | the guarded work succeeds exactly when decoding, inference and packaging at 44100 Hz all succeed, and then yields the packaged entries. A failure stops it at the step that raised: decode only, decode and infer, or all three, carrying that step's error. |
| `Handler.Respond` | backend/main.py:42-47 | the archive is returned iff the work succeeded and the download name encodes as Latin-1, holding its entries under that name. A name that does not encode gives a server error for the header. A failed outcome is exactly a server error carrying the failure. |
| `Handler.DownloadNameLatin1` | backend/main.py:46 | the header value encodes exactly when the filename's `splitext` root does, since `_stems.zip` is ASCII |
| `Handler.EnDashNameRejected` | backend/main.py:43-46 | `A–B.wav` (en dash) gives a download name that cannot be encoded into the header |
| `Handler.AfterRemoval` | backend/main.py:48-52 | a successful removal deletes the path and nothing else, adding nothing. A failing one is swallowed and leaves the file set unchanged. |
| `Handler.SeparateAsWritten` | backend/main.py:20-52 | the handler as written. A rejected upload gives its client error with nothing created. A failing creation gives a server error with nothing created. A write that fails after creation gives a server error, leaves the temporary file on disk and attempts no removal. |
| `Handler.Admitted` | backend/main.py:30-52 | once admitted, a failing creation is a server error with no file and no removal. Otherwise the file is created first and removal is attempted last and only there. Afterwards the path is gone from the file set, or still there if removal failed, and no other file changes. The steps run in order and stop at the first failure. The archive, holding what the guarded work produced under the download name, is returned exactly when creation, write and the guarded work all succeed and the name encodes as Latin-1. Every other outcome is a server error carrying the failure. |
| `Handler.Separate` | backend/main.py:20-52 | a rejected upload gives 400 or 413 with the source's message, creates nothing and runs no step. For an admitted upload, a failing creation is a server error with nothing created. Once the file exists, it is created first, removal is attempted last, and the file set is as before except for the temporary path. The steps stop at the first failure. The archive, holding what the guarded work produced under the derived download name, is returned exactly when the upload is admitted, every step succeeds and the name encodes as Latin-1. Every other admitted outcome is a server error carrying the failure. |
| `Handler.CleanupOnEveryExit` | backend/main.py:48-52 | when removal succeeds, no temporary file remains and no other file is touched, whichever step failed |
| `Handler.RemovalFailureInvisible` | backend/main.py:49-52 | whether removal fails never changes the response |
| `Handler.RejectionReachesNothing` | backend/main.py:23-32 | a rejected upload never creates the temporary file or reaches decode or inference; 400 iff the extension is not accepted |
| `Handler.SuccessfulArchive` | backend/main.py:37-42 | the archive the guarded work produces, and so any archive the handler returns, has one entry per stem, and at most four stems. Entry i is the i-th default label plus `.wav`, at 44100 Hz, and the buffer it hands to the encoder turns back into stem i. |
| `Handler.AsWrittenAgreesWhenWriteSucceeds` | backend/main.py:32-52 | when the write succeeds, the handler as written and the corrected handler behave identically |
| `Handler.AsWrittenLeaksOnWriteFailure` | backend/main.py:32-36 | as written, a failing write leaves the temporary file on disk without attempting removal; the corrected handler removes it |

## Left out

- The `health` endpoint, FastAPI routing, `UploadFile` and the async read, and HTTP response construction: framework plumbing. The model's response keeps the status, message, archive entries and download name. The one way building the response can fail that depends on the upload is modelled: a header value that does not encode as Latin-1. Other framework failures, such as a lost connection, are not.
- The `Content-Disposition` header: its `attachment; filename="…"` wrapping of the download name is string formatting. Quoting of names containing `"` is not modelled.
- Model loading, device selection and `apply_model`: external calls with no visible source. The model is the environment's `separate` function. The `unsqueeze(0)` batching and `[0]` unbatching are folded into it.
- soundfile decoding and WAV encoding: library codecs. Decoding is an input of the environment. A WAV payload is kept as the buffer and rate handed to the encoder, and the encoder's failures are a predicate over those. The `.float()` element conversion is not modelled, because element values are generic.
- AudioIO.PackageRoundTrip: `sf.write` at `backend/utils.py:26` passes no subtype, so soundfile writes WAV's default 16-bit PCM. Float samples are converted, and so clipped and quantised, on the way out. The model keeps the buffer handed to the encoder, so the round trip covers shape, frame and channel order, and rate, not sample values. The same holds for the entries `Handler.SuccessfulArchive` describes. Element values are generic and the codec is external.
- torchaudio resampling: floating-point numerics. It is a function parameter whose only modelled effect is the target rate.
- AudioIO.LoadAudio: when the native rate differs from 44100, the shape and contents of the resampled buffer are left unconstrained. Only its rate is stated, because the resampler is external.
- zipfile and deflate: the archive is its ordered list of named entries, with no byte layout. Duplicate caller labels give duplicate entries, as `writestr` does.
- The real filesystem and `tempfile` name generation: the unique name is an input. Its freshness, which `tempfile` guarantees by exclusive creation, is a precondition of the lemmas that need it (`Handler.CleanupOnEveryExit`). The handler itself is stated for any file set. A failing creation is one environment flag, taken to leave no file behind; a failure after the file exists on disk but before the name is returned is not modelled.
- Handler.CleanupOnEveryExit: removal that fails leaves the file on disk, exactly as the source's swallowed `os.remove` does. So the unconditional guarantee is that removal is attempted on every exit, which `Handler.Separate` states. Disappearance is only stated when removal succeeds.
- Concurrency between requests: provided by the host framework, with no internal logic.
- `str.lower` on non-ASCII text: only ASCII letters are lower-cased.
- `os.path.splitext` on Windows (`ntpath`, with `\` as separator): the model follows the POSIX rules.
- A missing upload filename (`None`): the framework rejects such a request before the handler runs.

## Findings

| source | as written | input that shows it | evidently intended | confidence | as-written member | corrected member |
|---|---|---|---|---|---|---|
| backend/main.py:32-36 | the upload is written to the `delete=False` temporary file before the `try`/`finally` opens, so an exception from the write (or the flush on close) escapes without `os.remove` and the file stays on disk | an admitted upload whose write raises, e.g. a full disk; `Handler.AsWrittenLeaksOnWriteFailure` shows the file left behind | the write belongs inside the guarded scope, so removal is attempted on every exit path once the file exists (`Handler.CleanupOnEveryExit`) | medium, not executed | Handler.SeparateAsWritten | Handler.Separate |
