# YouTube downloader service: a Dafny model of its core

This project models the core of a small Flask web service, `app.py`. The service downloads
YouTube videos through the yt-dlp extraction library. The model covers:

- **Video ids.** `extract_video_id` pulls the 11-character id out of a URL with two regular
  expressions.
- **The format catalog.** `get_video_info` turns the library's raw format descriptors into
  a catalog. It picks a best audio stream, builds video and audio stream records, sorts
  them by height and by bitrate, and keeps one video stream per height.
- **Starting a job.** `/download` names the job from a timestamp and the video id. It writes a
  progress file and builds the options for the download engine: the format selector,
  the output template, MP3 post-processing or MP4 merging.
- **Progress.** The progress hook and the worker's failure handler overwrite the job's
  progress file.
- **Reading the state.** `/download-status` resolves a job's status from the progress file
  and the download folder. `/download-file` picks the job's file to send and its mimetype.
  `/downloads/<filename>` picks nothing: it checks that the named file exists and sends it
  with its mimetype.
- **Clean-up.** `/confirm-download` lists a job's files and then sweeps them and their
  progress file away.

## Layout

| file | module | contents |
|---|---|---|
| wrappers.dfy | `Wrappers` | `Option`, `Result` |
| strings.dfy | `Strings` | prefix, suffix and substring tests; integer to decimal text |
| sequences.dfy | `Sequences` | order-preserving filter and removal, with their lemmas |
| video_id.dfy | `VideoId` | `extract_video_id` as leftmost-match scans |
| ranking.dfy | `Ranking` | Python's stable `sort(key=..., reverse=True)` and its specification |
| formats.dfy | `Formats` | descriptors, streams, the catalog function `Normalize` and the imperative `GetVideoInfo` proved equal to it |
| catalog.dfy | `CatalogProperties` | what the catalog promises, proved about `Normalize` |
| jobs.dfy | `Jobs` | job ids, file names, the format selector and engine options |
| progress.dfy | `Progress` | the progress hook as the value it writes; replaying a run of events |
| resolver.dfy | `Resolver` | status, file choice, mimetype, and the listings the handlers take |
| store.dfy | `Store` | class `FileStore`, which holds the progress files and the download folder and is updated in place by the handlers |

How the source's entities are represented:

- **Format descriptors.** Each raw descriptor is a `Format` datatype. A key that is absent
  or null is `None`.
- **Python truthiness.** `x or 0` and `d.get(k, default)` are written out explicitly.
  Comparisons with the literal `'none'` are made on the optional codec strings.
- **Disk state.** The working directory's progress files are a map from file name to the
  number the file holds. The download folder is a sequence of names in `os.listdir` order,
  plus a map from name to size.
- **Handlers that change the disk.** These are methods of `FileStore`. The read-only
  handlers are functions, or methods proved equal to functions.

## Behaviour as the code has it

- `/download` reads the request's `itag`, but that value does not reach the engine
  options. The engine selects the format from `type`, `is_adaptive` and `quality` alone.
- While no finished file is listed, `/download-status` reports `downloading`. A value of
  100 or more is held at 99; there is no separate finalising state. Once a finished file
  is listed, the job is complete whatever non-negative value the progress file holds.
- `/download-status` returns the first finished file in listing order. Only
  `/download-file` prefers an `.mp4`.
- A negative progress value wins over a listed finished file.
- The partial-file test looks for the substrings `.part`, `.temp` and `.f` anywhere in the
  name. So `.f` also excludes finished `.flv` and `.f4v` files
  (`Resolver.FlashNamesArePartial`, `Resolver.OutputFileIsFinished`).
- The second id pattern (`youtu.be/<id>`) never changes the result. Every match of it
  contains a `/<id>` match of the first pattern (`VideoId.SecondaryImpliesPrimary`).
- If an adaptive video descriptor has a height while no audio-only descriptor exists,
  building its `audio_url` raises. The whole catalog then fails (`MissingBestAudio`).
- `/confirm-download` lists every file of the job, partial files included. Its listing
  has no partial-file exclusion.
- The job pattern is a prefix test, and `unknown` is shorter than an id. So confirming the
  job `<t>_unknown`, of a URL without an id, also deletes the files of another job started
  in the same second whose id begins with `unknown` (`Resolver.UnknownJobMatchesOtherJob`).

## Model

| member | source | states |
|---|---|---|
| VideoId.PrimaryCapture | app.py:26 | the group captured by the first pattern is 11 characters from `[0-9A-Za-z_-]` |
| VideoId.FirstPrimaryMatch | app.py:30-33 | `re.search`: the result is the leftmost position at or after the start where the pattern matches; None exactly when no later position matches |
| VideoId.FirstSecondaryMatch | app.py:30-33 | `re.search` for the `youtu.be/` pattern: the leftmost position at or after the start where it matches; None exactly when no later position matches |
| VideoId.ExtractVideoId | app.py:23-34 | every id returned is 11 id characters |
| VideoId.SecondaryImpliesPrimary | app.py:25-28 | a `youtu.be/<id>` match at i implies a first-pattern match at i+8 with the same capture |
| VideoId.ExtractVideoIdIsLeftmostPrimary | app.py:23-34 | the result is None iff no position matches the first pattern; otherwise it is the capture at the leftmost match |
| VideoId.ShortLinkExample | app.py:23-34 | `youtu.be/dQw4w9WgXcQ` yields `dQw4w9WgXcQ` |
| VideoId.NoMarkerNoId | app.py:23-34 | every string with no `/` and no `v=` yields no id |
| VideoId.MalformedExample | app.py:23-34 | `not-a-url` yields no id |
| Ranking.SortDescIsStableSort | app.py:111-112 | the sort gives non-increasing keys; for every key the elements with that key keep their input order; the output is a permutation of the input |
| Formats.ResolvedSize | app.py:67 | the exact size when it is known and non-zero, otherwise the approximate size; 0 only when neither is known |
| Formats.BestAudio | app.py:54-59 | a best audio, when there is one, is an audio-only descriptor of the input |
| Formats.MakeVideo | app.py:79-93 | the record has the descriptor's height; it is adaptive iff the descriptor has no audio; its size is the descriptor's plus, when adaptive, the best audio's; only an adaptive record has the best audio's URL; the label is the height, `p - ` and the container |
| Formats.MakeAudio | app.py:101-108 | the record has the descriptor's bitrate and resolved size; a qualifying descriptor gives a positive bitrate |
| Formats.VideoCandidates | app.py:62-93 | the main loop fails only with `MissingBestAudio`, and never yields more streams than descriptors |
| Formats.DedupByHeight | app.py:114-121 | de-duplication never lengthens the list and loses no height |
| Formats.Normalize | app.py:50-140 | an extraction error passes through; any other failure is `MissingBestAudio`; a catalog holds the request URL and the info's title, thumbnail, duration, uploader and id, with `''`, 0 and `Unknown` for missing ones |
| Formats.VideoCandidatesFailure | app.py:62-93 | the main loop fails iff there is no best audio and some adaptive descriptor has a positive height; the error is then `MissingBestAudio` |
| Formats.PickBestAudio | app.py:54-59 | the best-audio loop computes `BestAudio` of the descriptors |
| Formats.KeepFirstPerHeight | app.py:114-121 | the `seen_resolutions` loop computes `DedupByHeight` of the sorted streams |
| Formats.CollectStreams | app.py:62-108 | the main loop raises iff `VideoCandidates` fails; otherwise it builds the video candidates and the audio streams of the qualifying audio-only descriptors, in descriptor order |
| Formats.GetVideoInfo | app.py:50-140 | the three loops and the two sorts together compute the catalog function `Normalize`, including its failures |
| Formats.GetVideoInfoRoute | app.py:148-160 | an empty URL gives `MissingUrl`; a URL without an id gives `InvalidUrl` before extraction; otherwise the result is `Normalize` |
| CatalogProperties.BestAudioIsFirstMaximal | app.py:54-59 | the best audio is None iff no descriptor is audio-only; otherwise it is the earliest audio-only descriptor of maximal bitrate |
| CatalogProperties.NormalizeFailure | app.py:56-140 | an extraction error passes through as `ExtractionFailed`; otherwise the catalog fails iff no descriptor is audio-only while some adaptive one has a height, and then with `MissingBestAudio` |
| CatalogProperties.VideoFormatsAtFirst | app.py:62-93 | the qualifying descriptors of height k are empty iff none qualifies at k; otherwise they start with the earliest that does |
| CatalogProperties.VideoCandidatesAt | app.py:62-93 | for each height, the candidate streams of that height are the streams made from the qualifying descriptors of that height, in descriptor order |
| CatalogProperties.VideoCandidatesOrigin | app.py:64-93 | every candidate stream is made from a video-bearing descriptor with a positive height |
| CatalogProperties.DedupFirstPerHeight | app.py:114-121 | de-duplication keeps, for every height, exactly the first stream of that height |
| CatalogProperties.DedupStrictlyDescending | app.py:111-121 | de-duplicating a descending list leaves strictly decreasing heights |
| CatalogProperties.DedupMembers | app.py:114-121 | de-duplication keeps only streams of its input |
| CatalogProperties.CatalogVideo | app.py:62-121 | the catalog's video list has strictly decreasing heights; for each height it holds exactly the stream made from the earliest qualifying descriptor of that height, and nothing else; each stream's size is its descriptor's own plus, when adaptive, the best audio's |
| CatalogProperties.CatalogVideoHeightsUnique | app.py:114-121 | no two video streams of a catalog share a height |
| CatalogProperties.CatalogAudio | app.py:95-112 | the audio list is a stable non-increasing sort by bitrate of the streams of the audio-only descriptors with a positive bitrate; each comes from such a descriptor and has a positive bitrate |
| CatalogProperties.AudioFormatsOrigin | app.py:96-100 | every audio-list descriptor is from the input, audio-only, with a positive bitrate |
| Jobs.ResourceId | app.py:181 | the id part of a job is `unknown` or 11 id characters |
| Jobs.JobId | app.py:182 | the job id is the timestamp, `_` and the resource id, and splits back into them |
| Jobs.OutputTemplate | app.py:183 | the template is in the download folder, and its file part is the job's output name with the `%(ext)s` placeholder |
| Jobs.ProgressFileName | app.py:186 | the name starts with `progress_`, ends with `.txt`, and the job id sits between them |
| Jobs.JobIdDecomposes | app.py:180-182 | job ids built from equal-width timestamps are equal only when both the timestamps and the ids are equal |
| Jobs.JobIdHasNoDots | app.py:180-182 | a job id has no dot when its timestamp has none |
| Jobs.FormatSelector | app.py:205-221 | the selector is `bestaudio` iff the request is for audio; otherwise it ends in the `/best` fallback; it starts with the merged `bestvideo[height<=q]+bestaudio` iff the request is adaptive, and with the capped `best[height<=q]` when it is not |
| Jobs.DownloadOptionsFor | app.py:205-228 | the options carry that selector and the output template; an audio request gets the post-processor extracting MP3 at quality 192, and nothing else gets one; a video request gets `mp4` as merge format, and nothing else gets one |
| Progress.Total | app.py:193 | the exact total when present and non-zero, otherwise the (possibly fractional) estimate; 0 only when both are absent or 0 |
| Progress.Written | app.py:190-200 | the hook writes iff the event is `finished`, or `downloading` with a positive total; `finished` writes 100; `downloading` writes the percentage, with value × total = downloaded × 100 |
| Progress.Replay | app.py:190-200 | after a run of events the file holds its start value or one of the values written |
| Progress.ReplayWithoutWrites | app.py:190-200 | events that write nothing leave the progress file alone |
| Progress.ReplayIsLastWrite | app.py:190-200 | after a run of events the file holds the last value written |
| Progress.WrittenInRange | app.py:192-197 | for consistent byte counts the value written is between 0 and 100 |
| Progress.ReplayInRange | app.py:186-200 | starting from the initial 0, and with consistent events, the value stays between 0 and 100, so only the worker's failure handler makes it negative |
| Resolver.CollectFinishedFiles | app.py:286-290 | the loop collects, in listing order, the job's names that contain none of the partial markers |
| Resolver.IsPartial | app.py:289 | a name is partial iff it contains one of `.part`, `.temp`, `.f` |
| Resolver.FlashNamesArePartial | app.py:289 | every name ending in `.flv` or `.f4v` is partial |
| Resolver.CollectJobFiles | app.py:396-401 | the loop collects, in listing order, every name matching the job's pattern |
| Resolver.ResolveStatus | app.py:274-308 | a reported progress is at least 0 and below 100 |
| Resolver.DownloadStatus | app.py:270-308 | the handler computes `ResolveStatus` |
| Resolver.StatusResolution | app.py:274-308 | not found iff there is no progress file; error iff the value is negative; complete iff the value is non-negative and a finished file is listed, with the first such file, its size and the id; otherwise downloading with the value, held at 99 from 100 on |
| Resolver.CompleteWheneverFinishedFileListed | app.py:285-301 | any non-negative value plus one listed finished file gives complete |
| Resolver.Mimetype | app.py:363-370 | `.mp4`, `.webm` and `.mp3` map to their types; octet-stream is returned iff none of them ends the name |
| Resolver.SuffixesExclusive | app.py:363-370 | no name ends in two of the three suffixes, so the order of the tests does not matter |
| Resolver.ForceDownload | app.py:346-359 | the handler computes `ForceDownloadReply` |
| Resolver.ForceDownloadReply | app.py:347-370 | not found iff no finished file is listed; otherwise a listed finished file of the job, an MP4 whenever the job has a finished MP4, sent with its mimetype |
| Resolver.ForceDownloadChoice | app.py:346-370 | not found iff no finished file is listed; otherwise the file sent is finished, an MP4 unless the job has none, and the first such in listing order, with its mimetype |
| Resolver.DownloadFileReply | app.py:315-337 | 404 iff the name is not in the folder; otherwise that name with its mimetype |
| Resolver.LegacyProgress | app.py:256-264 | a missing progress file reads 0; otherwise the stored value |
| Resolver.ProgressFileNeverMatches | app.py:286-289 | a progress file's name never matches any job's output pattern |
| Resolver.UnknownJobMatchesOtherJob | app.py:396-401 | the job `<t>_unknown` also matches the output of a different job of the same second whose id begins with `unknown` |
| Resolver.OutputFileIsFinished | app.py:289 | for a dot-free timestamp and extension, the engine's output counts as finished iff the extension begins with none of `part`, `temp`, `f` |
| Sequences.FilterFirst | app.py:354-359 | a filtered list is empty iff nothing qualifies; otherwise its head is the earliest qualifying element |
| Sequences.WithoutTwice | app.py:406-412 | removing one set of names and then another is removing both at once |
| Store.FileStore.constructor | app.py:16-20 | the store starts with the progress files and the folder found at start-up: nothing is cleared |
| Store.FileStore.Download | app.py:170-249 | the job id is the timestamp, `_` and the resource id; the progress file is set to 0 and nothing else changes; the engine options are those of the request |
| Store.FileStore.ProgressHook | app.py:190-200 | the progress file gets `Written(ev)` when there is one, and is untouched otherwise; the folder is untouched |
| Store.FileStore.WorkerFailed | app.py:234-237 | the progress file gets -1 |
| Store.FileStore.RunWorker | app.py:202-237 | after the engine's events, the progress file holds -1 if the engine raised, and otherwise the replay of the events from its previous value; no other file changes |
| Store.FileStore.RemoveIfExists | app.py:407-412 | the file is gone from the folder, whether or not it existed |
| Store.FileStore.RemoveAll | app.py:406-412 | the folder loses exactly the listed names, keeping listing order; the progress files are untouched |
| Store.FileStore.Sweep | app.py:404-420 | the folder loses exactly the listed names, and the job's progress file is removed |
| Store.FileStore.ConfirmDownload | app.py:391-420 | afterwards no file matching the job remains, every other file keeps its size, the listing is the old one without the job's files, and the progress file is gone |
| Store.SweepIdempotent | app.py:404-420 | sweeping the same names a second time changes nothing |

## Left out

- HTTP plumbing: request parsing, JSON replies, status codes, headers, templates and the
  HTML error bodies. The request keys are inputs. A missing `url` or `itag` key, or a
  non-JSON body, raises inside a handler's `try`; that path is not modelled.
- The extraction library and the download engine are foreign calls. Extraction is an input
  (`Result<Info, string>`). The engine's run is an input too: the hook events it reports,
  and whether it raises. The files the engine writes to the folder are not modelled.
- Threads, `daemon` and `time.sleep(5)`. The worker runs as one step (`RunWorker`). The
  confirmation and its delayed sweep are one step (`ConfirmDownload`), so a download
  still running during the 5-second delay is not modelled.
- Store.FileStore.Download: `is_adaptive` is a `bool`. The source tests the truthiness of
  whatever JSON value the request holds, so a non-empty string such as `"false"` counts as
  adaptive there; the model leaves such values out. `quality` is the text the value renders
  as in the f-string.
- Progress.HookEvent: in the source, a `downloaded_bytes` key holding null makes the hook
  raise a `TypeError`, which fails the worker. So does a null `total_bytes_estimate` when
  `total_bytes` is absent or 0. In the model, absent and null are both 0.
- The clock. `datetime.now().strftime(...)` is the `timestamp` input.
- Text formatting of floats. The progress file holds the number itself, not its `str`
  text. The progress hook needs `str`/`float` to round-trip, which Python's shortest repr
  gives. A progress file with non-numeric text is not modelled.
- The audio stream's `format` label: it formats a float (`f"{abr}kbps - ..."`), so the
  label is not modelled. The video label and the default resolution use integer text,
  so they are modelled.
- Formats.Format: an absent key and a key holding null are both `None`. For the keys read
  with `.get(k, default)` and no `or` (`resolution`, `ext`, `url`, `format_id`, `vcodec`,
  `acodec`, `title`, `thumbnail`, `uploader`, `id`), the source keeps a null value as null;
  the model uses the default. So a null codec is `''` in the stream records
  (`Formats.MakeVideo`, `Formats.MakeAudio`), where the source has null. The codec tests
  against `'none'` treat null and absent alike in both. A `formats` value of null (a `TypeError` in the source) is not modelled.
- Resolver.MatchesJob: the job id is put into the pattern `video_<id>.*` unescaped. The
  model treats it as a plain prefix test, which is exact for the ids this service creates
  (digits, `_`, `-` and letters) but not for ids holding regular-expression metacharacters.
- Errors from `os.remove`, `os.path.getsize` or `os.listdir` (a file removed by someone
  else between the listing and the call). The model's folder is consistent:
  `FileStore.Valid` and `Resolver.SizesKnown`.
- Resolver.DownloadFileReply: the model looks the name up among the folder's entries. The
  route's `path` converter also accepts names holding `/`, and the source tests and serves
  `downloads/<filename>` on the file system: a file in a sub-folder, or one outside the
  download folder reached through `..`, is sent whenever that path exists. The model answers
  404 for all such names; they are not modelled.
- The deletion list holds paths (`downloads/<name>`); the model keeps the names, which
  map one-to-one to those paths.
- `index()` and the creation of the download folder at start-up.
