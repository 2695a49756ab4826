# HanimeDownloader episode download, modelled in Dafny

This project models the part of HanimeDownloader that turns an HLS playlist into a
video file. It covers two revisions of the episode downloader:

- the current `src/downloader/episode_downloader.py`;
- the older `helpers/downloader/episode_downloader.py`.

For each revision the model covers:

- the per-segment retry loop with exponential backoff;
- the choice of decryption path, including PKCS#7 padding and the fallback when unpadding fails;
- the collection of concurrently completed segment results into a table indexed by segment;
- the in-order write that skips absent segments;
- the key gate, which stops a job whose playlist declares no first key before any key or segment is requested;
- the surrounding helpers:
  - URL validation (`validate_url`);
  - directory-name sanitising and download-path composition (`sanitize_directory_name`, `create_download_directory`);
  - the lookups into the API's episode record (`get_hanime_title`, `fetch_streams`, `format_filename`).

The world outside the program is an input:

- `outcomes[i]` is what the i-th request for a segment returns;
- `jitters[i]` is the random jitter drawn after the i-th failure;
- `completion` is the order in which the worker pool finishes the segment tasks, which is any permutation of the segment indices;
- the AES-CBC decryptor is an arbitrary function `dec` on byte strings.

Observable behaviour of a segment download is a trace of steps: requests, sleeps and log events.

Files:

| file | contents |
|---|---|
| `common.dfy` | bytes, `Option`, `Result`, `Min` |
| `pkcs7.dfy` | PKCS#7 `pad`/`unpad` as the decryption path uses them |
| `backoff.dfy` | the two backoff delay formulas |
| `retry.dfy` | attempt outcomes, traces, first successful attempt, traces of failed attempts |
| `segment.dfy` | current `_download_segment` and `_decrypt_with_padding` |
| `legacy_segment.dfy` | older `download_segment` |
| `reassembly.dfy` | results table, in-order output, missing-segment reports, progress, permutations |
| `pipeline.dfy` | current `_download_and_decrypt_segments` (array filled in completion order, then appended in index order) |
| `legacy_pipeline.dfy` | older `download_and_decrypt_segments`, where a decryption error escapes |
| `job.dfy` | playlist, how a job ends, key gate |
| `download.dfy` | current `download` from the selected stream on |
| `legacy_download.dfy` | older `EpisodeDownloader.__init__` and `download` |
| `file_utils.dfy` | `sanitize_directory_name`, `create_download_directory` (both revisions) |
| `url.dfy` | older `validate_url` |
| `crawler.dfy` | `get_hanime_title`, `fetch_streams`, older `format_filename`, Python subscripting |

## Model

| member | source | states |
|---|---|---|
| Pkcs7.Pad | src/downloader/episode_downloader.py:124 | padding adds 1 to `bs` bytes, each equal to the pad length, keeps the data as prefix and yields a multiple of the block size |
| Pkcs7.Unpad | src/downloader/episode_downloader.py:127-136 | unpadding succeeds exactly on well-padded input (non-empty, block multiple, last byte `k` in 1..bs, last `k` bytes all `k`) and then strips 1..bs bytes from the end |
| Pkcs7.UnpadPad | src/downloader/episode_downloader.py:124-128 | unpadding a padded string gives back the original string |
| Pkcs7.PadUnpad | src/downloader/episode_downloader.py:124-128 | padding what unpadding returned gives back the unpadded input |
| Segment.DecryptWithPadding | src/downloader/episode_downloader.py:120-136 | never fails; unpadded exactly when the decrypted padded body is well padded (and then re-padding the result gives the decrypted bytes); otherwise the raw decrypted bytes are kept and a decryption error is logged |
| Segment.DecryptBody | src/downloader/episode_downloader.py:163-171 | a body of whole blocks is decrypted as it is; any other body goes through the padding path |
| Segment.DecryptRecoversPadded | src/downloader/episode_downloader.py:120-136 | if the padded ciphertext decrypts to a padded plaintext, the segment yields exactly that plaintext |
| Segment.Delays | src/downloader/episode_downloader.py:152-155 | one delay per attempt, the capped backoff `min(2^(i+1) + jitter_i, max_delay)` |
| Segment.Fetch | src/downloader/episode_downloader.py:138-177 | the closed form of `_download_segment`: the result and trace of the first successful attempt, or of exhausting `retries`; its properties are in `FetchRequests`, `FetchSleeps`, `FetchExhausted` and `FetchStopsAtFirstSuccess` |
| Segment.DownloadSegment | src/downloader/episode_downloader.py:138-177 | the retry loop returns the result and leaves the trace that `Fetch` gives: failed attempts, then the decrypted body of the first success, or the failure log |
| Segment.FetchRequests | src/downloader/episode_downloader.py:146-171 | requests are attempts 0, 1, … in order, at most `retries`, and stop at the first 2xx; a result exists iff some allowed attempt succeeds, and it is that body decrypted |
| Segment.FetchSleeps | src/downloader/episode_downloader.py:151-161 | the sleeps are the backoff delays of the failed attempts except the last allowed one, in order, each within [min(3, max_delay), max_delay], non-decreasing |
| Segment.DelaysBounded | src/downloader/episode_downloader.py:153-154 | every capped delay lies in [min(3, max_delay), max_delay] and later delays are never shorter |
| Segment.FetchExhausted | src/downloader/episode_downloader.py:173-177 | when every attempt fails the result is absent and the trace ends with the last request, then the failure log |
| Segment.FetchStopsAtFirstSuccess | src/downloader/episode_downloader.py:146-171 | outcomes after the first success do not change the result or the trace |
| Backoff.CurrentDelay | src/downloader/episode_downloader.py:153-154 | the current delay `min(2^(attempt+1) + jitter, max_delay)`, never longer than `max_delay` |
| Backoff.LegacyDelay | helpers/downloader/episode_downloader.py:73 | the older delay `3^(attempt+1) + jitter`, with no cap; its bounds are in `LegacyDelayLowerBound` |
| Backoff.CurrentDelayBounds | src/downloader/episode_downloader.py:153-154 | a capped delay with jitter in [1, 3] is at least min(3, max_delay) and at most max_delay |
| Backoff.CurrentDelayMonotone | src/downloader/episode_downloader.py:153-154 | a later attempt's delay is never shorter, whatever the two jitters |
| Backoff.CurrentDelayNotStrict | src/downloader/episode_downloader.py:153 | delays need not strictly increase: attempt 0 with jitter 3 and attempt 1 with jitter 1 both wait 5 seconds |
| Backoff.LegacyDelayLowerBound | helpers/downloader/episode_downloader.py:73 | the uncapped delay `3^(i+1) + jitter` is at least 4 seconds and at least `3^(i+1) + 1` |
| Backoff.LegacyDelayStrict | helpers/downloader/episode_downloader.py:73 | the uncapped delay strictly increases with the attempt, whatever the jitters |
| Backoff.PowGrows | helpers/downloader/episode_downloader.py:73 | a higher exponent multiplies the power by at least the base |
| Retry.FirstSuccess | src/downloader/episode_downloader.py:146-149 | the attempt that ends the loop: the first 2xx reply within `retries`, with every earlier attempt failed, or `retries` when none succeeds |
| Retry.FailedAttempt | src/downloader/episode_downloader.py:148-161 | one failed attempt: its request, then, unless it was the last allowed one, the backoff sleep and the retry log |
| Retry.FailPrefix | src/downloader/episode_downloader.py:146-161 | the trace of the first `n` attempts when all of them fail, in order; characterised by `FailPrefixGets`, `FailPrefixSleeps` and `FailPrefixSleepFollowsGet` |
| Retry.FailPrefixGets | src/downloader/episode_downloader.py:146-161 | `n` failed attempts issue exactly the requests 0..n-1, in order |
| Retry.FailPrefixSleeps | src/downloader/episode_downloader.py:152-155 | `n` failed attempts sleep the first delays in order, one per failure except after the last allowed attempt |
| Retry.FailPrefixSleepFollowsGet | src/downloader/episode_downloader.py:148-155 | every sleep comes right after a failed request that was not the last allowed attempt |
| LegacySegment.CheckedDecrypt | helpers/downloader/episode_downloader.py:69 | CBC decryption is defined exactly on bodies of whole blocks; any other body raises |
| LegacySegment.Fetch | helpers/downloader/episode_downloader.py:58-86 | the closed form of the older `download_segment`, including the unretried decryption error; its properties are in `LegacySegment.FetchRequests` and `LegacySegment.FetchSleeps` |
| LegacySegment.DownloadSegment | helpers/downloader/episode_downloader.py:58-86 | the older retry loop returns the outcome and trace that `Fetch` gives |
| LegacySegment.FetchRequests | helpers/downloader/episode_downloader.py:65-80 | requests are attempts 0, 1, … in order, at most `retries`, stopping at the first 2xx; the decryption error happens iff that body is not whole blocks, and it is never retried; a success yields `dec(body)` with no padding handling |
| LegacySegment.FetchSleeps | helpers/downloader/episode_downloader.py:71-80 | the sleeps are the uncapped delays of the failed attempts except the last allowed one, each at least 4 s and strictly increasing |
| LegacySegment.Delays | helpers/downloader/episode_downloader.py:73 | one delay per attempt, the uncapped `3^(i+1) + jitter_i`; bounds and growth are in `LegacySegment.DelaysBounded` |
| LegacySegment.DelaysBounded | helpers/downloader/episode_downloader.py:72-74 | every uncapped delay is at least 4 s and each is longer than the one before |
| Reassembly.Filled | src/downloader/episode_downloader.py:188-197 | the table after some completions has one slot per segment; completed slots hold their result, the others `None` |
| Reassembly.FilledComplete | src/downloader/episode_downloader.py:190-197 | after all tasks complete, in any order, the table is the per-segment results |
| Reassembly.PermutationCovers | src/downloader/episode_downloader.py:190-196 | a completion order that is a permutation contains every segment index |
| Reassembly.Below | src/downloader/episode_downloader.py:191-194 | the segment indices `enumerate` hands to the pool: exactly those below the segment count, one per segment |
| Reassembly.CollectedAll | src/downloader/episode_downloader.py:195-197 | a full completion order hands back exactly the segment indices, each segment's result collected |
| Reassembly.UncollectedRemains | helpers/downloader/episode_downloader.py:105-107 | when collection stops before the end, the task completing then has not been collected, so some segment never is |
| Reassembly.ProgressSeries | src/downloader/episode_downloader.py:195-199 | one progress value per completion, the k-th being k/n·100 |
| Reassembly.ProgressRises | src/downloader/episode_downloader.py:195-199 | reported progress strictly increases, stays in (0, 100] and ends at exactly 100 |
| Reassembly.ProgressBounds | src/downloader/episode_downloader.py:198 | the k-th of n progress values lies in (0, 100], and the last is 100 |
| Reassembly.ProgressStrict | src/downloader/episode_downloader.py:198 | a later completion reports strictly more progress |
| Reassembly.Assemble | src/downloader/episode_downloader.py:201-211 | the bytes the write loop appends: the present results in index order; nothing when every result is absent |
| Reassembly.MissingIndices | src/downloader/episode_downloader.py:203-208 | the indices the write loop reports as missing, each a valid index and at most one per slot |
| Reassembly.AssembleAppend | src/downloader/episode_downloader.py:202-211 | writing two runs of results appends their bytes one after the other |
| Reassembly.AssembleSkipsMissing | src/downloader/episode_downloader.py:203-209 | an absent segment is skipped and does not stop later segments being written |
| Reassembly.AssemblePlacement | src/downloader/episode_downloader.py:202-211 | a present segment's bytes sit right after the bytes of all lower-indexed segments |
| Reassembly.AssembleLength | src/downloader/episode_downloader.py:202-211 | the output is exactly as long as all present results together |
| Reassembly.MissingIndicesMembers | src/downloader/episode_downloader.py:203-208 | the missing-segment reports name exactly the absent indices |
| Reassembly.MissingIndicesIncreasing | src/downloader/episode_downloader.py:203-208 | missing-segment reports come in increasing index order, so each once |
| Pipeline.Results | src/downloader/episode_downloader.py:188-197 | one slot per segment, holding that segment's download result |
| Pipeline.WriteInOrder | src/downloader/episode_downloader.py:201-211 | the file gains the present results in index order; the absent indices are reported |
| Pipeline.DownloadAndDecryptSegments | src/downloader/episode_downloader.py:179-211 | for any completion order: file gains the present results in index order; missing indices reported; progress k/n·100 per completion; every segment's result collected |
| LegacyPipeline.SegmentTask | helpers/downloader/episode_downloader.py:101 | one task's outcome is the older segment download's outcome |
| LegacyPipeline.Outcomes | helpers/downloader/episode_downloader.py:99-107 | one task outcome per segment, by segment index |
| LegacyPipeline.NoTaskRaised | helpers/downloader/episode_downloader.py:105-107 | when no task raised in a full completion order, no segment's task raises |
| LegacyPipeline.Results | helpers/downloader/episode_downloader.py:97-107 | one slot per segment, holding the fetched data of its task |
| LegacyPipeline.CollectResults | helpers/downloader/episode_downloader.py:99-109 | a raise happens exactly when some task raises, and collection stops at the first raising task in completion order, with progress reported and results collected for exactly the tasks completed before it; without a raise the table is the per-segment results and progress is the full series; with one, only a strict prefix of the progress series is reported and some segment is never collected |
| LegacyPipeline.DownloadAndDecryptSegments | helpers/downloader/episode_downloader.py:88-121 | a decryption error in any segment escapes before the write phase and leaves the file unchanged; otherwise the present results are appended in index order and the absent ones reported |
| Job.FirstKey | src/downloader/episode_downloader.py:109-110 | the gate finds no key exactly when the key list is empty or its first entry is `None` |
| Job.KeyBytes | src/downloader/episode_downloader.py:112-113 | the key is the reply body whatever its status; a request error yields none |
| Download.Download | src/downloader/episode_downloader.py:90-117 | playlist request error, unparsable playlist or missing `url` → exit 1; non-2xx → uncaught error; no first key → exit 1 before any key or segment request, file untouched; a failed key request raises RequestError and a key not of 16/24/32 bytes ValueError; else a valid key runs the pipeline and appends every present segment in index order |
| LegacyDownload.NewEpisodeDownloader | helpers/downloader/episode_downloader.py:39-56 | an invalid URL exits with status 0; a failed stream or title lookup, or a non-string title, raises; otherwise the id has no `/` and the folder is `Downloads / sanitised title` |
| LegacyDownload.StreamUrl | helpers/downloader/episode_downloader.py:134 | `self.streams[RESOLUTION_CHOICE]["url"]` with Python's lookup errors |
| LegacyDownload.Download | helpers/downloader/episode_downloader.py:123-154 | format_filename errors raise; missing `url` key, request error or unparsable playlist → exit 1, HTTP status unchecked; no first key → exit 1, nothing requested; a key-request error or a key of bad length raises, and a segment decryption error escapes as ValueError, file unchanged; else the present segments are appended in index order |
| FileUtils.Sanitize | src/file_utils.py:33-43 | same length; exactly the characters invalid for the OS (`\ / : * ? " < > \|` on nt, `/ :` on posix) become `_`, every other character is kept |
| FileUtils.SanitizeClean | src/file_utils.py:33-43 | a sanitised name has no invalid character and hence no path separator |
| FileUtils.SanitizeIdempotent | src/file_utils.py:33-43 | sanitising twice is sanitising once |
| FileUtils.SanitizeNtIsPosixClean | src/file_utils.py:38-41 | a name sanitised for nt is left alone by the posix sanitiser |
| FileUtils.InvalidCharSets | src/file_utils.py:38-41 | the posix set is part of the nt set, neither contains `_`, and each holds that OS's separators |
| FileUtils.Join | src/file_utils.py:59-64 | pathlib's `/` on one name: `""` and `.` leave the path as it is, any other name becomes one more component |
| FileUtils.BasePath | src/file_utils.py:57-59 | a non-empty custom path gives `custom / Downloads`, otherwise `Downloads` |
| FileUtils.DownloadPath | src/file_utils.py:46-65 | the current `create_download_directory` path: the base path, then the sanitised name unless pathlib drops it; its shape is in `DownloadPathShape` |
| FileUtils.DownloadPathShape | src/file_utils.py:46-65 | an empty or `.` directory name gives the base path itself; any other name adds exactly its sanitised form as one more component |
| FileUtils.LegacyDownloadPath | helpers/general_utils.py:28-53 | the older path `Downloads / sanitised name`; its relation to the current one is in `LegacyPathMatchesCurrent` |
| FileUtils.LegacyPathMatchesCurrent | helpers/general_utils.py:28-53 | the older path equals the current one without a custom path: `Downloads`, then at most one component free of invalid characters |
| Url.Matches | helpers/general_utils.py:21 | `re.match` of the page pattern, ignoring ASCII case and anchored at the start only; characterised by `SlugStartsIffSlugPrefix` |
| Url.ValidateUrl | helpers/general_utils.py:19-25 | rejected (exit status 0) exactly when the URL does not match the pattern from its start; an accepted URL yields the text after its last `/` |
| Url.SlugStartsIffSlugPrefix | helpers/config.py:22 | the leading-run check holds iff some prefix of the rest is a whole `[A-Za-z0-9]+(-[A-Za-z0-9]+)+` |
| Url.ValidateSlugUrl | helpers/general_utils.py:19-25 | the page prefix in any ASCII case followed by a slug is accepted, and the episode id is the slug |
| Url.LastComponent | helpers/general_utils.py:25 | the last `/`-separated component contains no `/`, is a suffix of the URL and is preceded by `/` unless it is the whole URL |
| Url.LastAfterSlash | helpers/general_utils.py:25 | after a `/`, a text without `/` is the last component |
| Url.AlnumRun | helpers/config.py:22 | the leading alphanumeric run is maximal |
| Crawler.Field | helpers/downloader/crawler_utils.py:15-22 | `j[key]` succeeds exactly on an object holding the key; a missing key is KeyError, a non-object TypeError |
| Crawler.Position | helpers/downloader/crawler_utils.py:22 | a list index is valid exactly in `-len .. len-1`; negatives count from the end |
| Crawler.Item | helpers/downloader/crawler_utils.py:22 | list and string indexing return the element at the index, counted from the end when negative, or IndexError outside `-len .. len-1`; an object raises KeyError and any other value TypeError |
| Crawler.GetHanimeTitle | helpers/downloader/crawler_utils.py:15-17 | `info["hentai_franchise"]["title"]` with Python's lookup errors; characterised by `GetHanimeTitleSpec` |
| Crawler.FetchStreams | helpers/downloader/crawler_utils.py:20-22 | `info["videos_manifest"]["servers"][0]["streams"]` with Python's lookup errors; characterised by `FetchStreamsSpec` |
| Crawler.FormatFilename | helpers/downloader/crawler_utils.py:25-28 | the f-string name of the chosen stream, or the lookup error; characterised by `FormatFilenameSpec`, `FormatFilenameOtherHeights` and `FormatFilenameMissingStream` |
| Crawler.GetHanimeTitleSpec | helpers/downloader/crawler_utils.py:15-17 | the title is found exactly when both keys are present, and a missing key at either level is KeyError |
| Crawler.FetchStreamsSpec | helpers/downloader/crawler_utils.py:20-22 | the streams come from the first server only; an empty server list is IndexError |
| Crawler.IntToString | helpers/downloader/crawler_utils.py:28 | `str()` of an int: a `-` for a negative value, then the decimal digits of its magnitude |
| Crawler.Str | helpers/downloader/crawler_utils.py:28 | the f-string's `str()` of a scalar JSON value: `None`, `True`/`False`, decimal digits, or the string itself; containers have no rendering here |
| Crawler.NatToString | helpers/downloader/crawler_utils.py:28 | decimal digits with no leading zero, and `0` for zero |
| Crawler.NatToStringRoundTrip | helpers/downloader/crawler_utils.py:28 | the decimal rendering reads back as the same number |
| Crawler.FormatFilenameSpec | helpers/downloader/crawler_utils.py:25-28 | for any valid choice, negative ones included, and any integer height, the name is the id, `-`, the height (a `-` exactly when negative, then the decimal digits `str()` prints for its magnitude, with no leading zero, reading back as that magnitude) and `p.mp4` |
| Crawler.FormatFilenameOtherHeights | helpers/downloader/crawler_utils.py:25-28 | a chosen stream that is not an object is TypeError and one without `height` KeyError; a string height goes into the name unchanged, `None`, `True` and `False` as Python prints them |
| Crawler.FormatFilenameMissingStream | helpers/downloader/crawler_utils.py:25-27 | a resolution choice outside the stream list is IndexError |

## Left out

- HTTP, playlist parsing, the key download and AES are not modelled as code:
  - each request's outcome, the parsed playlist and the key reply are inputs;
  - the decryptor is an arbitrary function of the key.
- The random IV of `AES.new(key, MODE_CBC)` is not modelled. Neither is the chaining state of the one decryptor shared by all workers. The plaintext of a segment therefore does not depend on the order in which the segments are decrypted.
- Concurrency is reduced to the completion order, a permutation given as input. The interleaving of log lines and progress updates between workers is not modelled.
- In the older revision, tasks still running when a decryption error escapes go on issuing requests. Those requests are not modelled.
- The model records each sleep's length, each log event and each progress value. The waiting itself, the rendering of the log and progress UI, file opening and `mkdir` are left out, and so is the exit on an `OSError` from `mkdir`. The file is the byte string it held before the job; writes are appends to it.
- Progress values and backoff delays are exact reals. Python's float rounding of `(k / n) * 100` (src/downloader/episode_downloader.py:198) and of the delays (src/downloader/episode_downloader.py:153-154, helpers/downloader/episode_downloader.py:73) is not modelled.
- `Segment.DownloadSegment`: `max_delay` is any real. With a negative `max_delay`, `time.sleep` raises ValueError inside the `except` block, and that error escapes the retry loop. The model records a sleep of that length instead. The callers use the default of 30.
- `Segment.DownloadSegment`: `retries` is a natural number. Python's `range` of a negative `retries` is empty, which behaves like `retries = 0`; negative values are not modelled separately.
- `LegacySegment.DownloadSegment`: `retries` is a natural number, for the same reason.
- `Download.Download`: the stream URL is only looked up. With a URL that is not a string, `httpx.get` raises TypeError; this is not modelled.
- The current revision's `init_download` (src/downloader/episode_downloader.py:62-74) is left out. It fetches the catalog entry with `get_hanime_info` and calls `fetch_streams` and `get_hanime_title` from `src/downloader/crawler_utils.py`, then `create_download_directory`. That crawler file, with its `get_episode_id`, `select_and_validate_stream` and three-argument `format_filename`, is not part of this model; its path helper is modelled by `FileUtils.DownloadPath`. `Download.Download` therefore starts from the selected stream.
- The older `helpers/config.py` defines no `RESOLUTION_CHOICE`. The older job takes the resolution choice as a parameter.
- `Url.ValidateUrl`: Python's IGNORECASE also folds a few non-ASCII letters onto ASCII ones (`ı`, `İ`, `ſ`, the Kelvin sign). Only ASCII case folding is modelled.
- `LegacyDownload.Download`: requires that the chosen stream's height is not a list or object. `str()` of a container renders Python's `repr`, which is not modelled.
- `LegacyDownload.Download`: the stream URL is only looked up. What `httpx.get` does with a URL that is not a string is not modelled.
- `FileUtils.LegacyDownloadPath` and `LegacyDownload.Download`: pathlib splits a name on `/` when joining. The model keeps the file name as one path component, so a `/` inside a string height stays inside that component.
- `FileUtils.BasePath`: the custom path is kept as one opaque component. pathlib's parsing of it is not modelled.
- `Crawler.Json` has no float variant. A float height, rendered by `str()` as for example `720.0`, is not modelled.
- `Retry.Attempt` is a reply or a request error. Other httpx exceptions, such as `httpx.InvalidURL`, escape both retry loops without a retry; in the current revision they also escape the pipeline. They are not modelled.
- `os.name` values other than `nt` and `posix`, for which the sanitiser has no pattern, are not modelled.
