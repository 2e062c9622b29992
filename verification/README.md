# YTStreamer core, modelled in Dafny

YTStreamer is a single Python script (`run.py`) that searches for videos,
lets the user pick one, downloads its audio as `.mp3`, converts it to
`.wav`, plays it while printing the elapsed time, and deletes both files.
Almost all of it is calls into foreign libraries. This project models the
pure rules that sit between those calls:

- `PathRule` (`path_rule.dfy`): the extension swap `name.rsplit('.', 1)[0] + ext`
  that derives the `.mp3` path from the downloaded name and the `.wav` path
  from the `.mp3` path.
- `Selection` (`selection.dfy`): the 1-based choice check of `main` and the
  Python list indexing it guards.
- `Ticker` (`ticker.dfy`): the counter loop of `time_tracker`, the
  `divmod(elapsed // 1000, 60)` clock and the `:02` formatting of each field.
- `Progress` (`progress.dfy`): the process-wide progress-bar handle of
  `progress_hook` as a state machine over status events.
- `Session` (`session.dfy`): the control flow of `main`. A run is the
  record of what `main` asks of the outside world: whether it creates the
  folder, which link it fetches, which paths it converts, plays and removes,
  which outcome message it prints, and whether an exception escapes. `main`
  always makes these requests in that order. The search results, the
  download result, the outcome of decoding the `.mp3` and the outcome of
  loading the `.wav` for playback are parameters. Search, folder creation
  and file removal are taken to return normally (see "## Left out").
- `Wrappers` (`wrappers.dfy`): the `Option` type standing for Python's `None`.

Three behaviours of the code shape the model:

- The progress-bar handle is process-wide and is never reset after a
  download (`run.py` line 62); it is not a fresh reporter per download.
  `Progress.HandleOutlivesDownload` states the consequence.
- The `except ValueError` of `main` covers the whole selection block
  (lines 109-132), not only the `int()` call. A `ValueError` raised while
  converting, or while loading the `.wav` for playback, is therefore
  reported as "Please enter a valid number.".
  `Session.ConvertAndPlay` models this.
- The ticker does not stop at exactly the duration. It stops at the first
  multiple of 1000 ms at or above it, so the final counter is in
  `[duration, duration + 1000)` for a positive duration.

## Model

| member | source | states |
|---|---|---|
| PathRule.LastDot | run.py:43 | the index found holds a '.', and no '.' follows it; when nothing is found, the string has no '.' at all |
| PathRule.Stem | run.py:43 | `rsplit('.', 1)[0]`: the whole input when it has no '.'; otherwise a proper prefix that is followed by a '.' with no other '.' after it |
| PathRule.SwapExtension | run.py:67 | the result ends with the new extension, what precedes the extension is a prefix of the input, and an input without '.' is kept whole with the extension appended |
| PathRule.StemOfSplit | run.py:43 | whatever precedes a '.' that has no '.' after it is the stem (the decomposition is unique) |
| PathRule.SwapOfSplit | run.py:43 | swapping `p + "." + q`, where q has no '.', gives `p + ext` |
| PathRule.SwapKeepsStem | run.py:67 | swapping to a well-formed extension leaves the stem unchanged |
| PathRule.SwapIdempotent | run.py:67 | swapping again with the same well-formed extension gives the same path |
| PathRule.Mp3ThenWav | run.py:67 | deriving the .wav path from the .mp3 path equals deriving it from the downloaded name; the .mp3 path keeps the name's stem |
| PathRule.IdempotenceNeedsDot | run.py:43 | without a leading '.', swapping is not idempotent ("a" gives "amp3", then "amp3mp3") |
| Selection.PyIndex | run.py:112 | Python indexing succeeds exactly for `-len <= i < len` and gives `s[i]` for a non-negative index |
| Selection.Choose | run.py:110-132 | non-numeric input gives exactly NotANumber; a number is accepted exactly when `1 <= choice <= len(results)` and then picks index `choice - 1`, which is in bounds; every other number gives exactly InvalidChoice |
| Selection.EveryResultSelectable | run.py:111-112 | every listed result is chosen by the number `i + 1` printed next to it |
| Selection.ZeroWouldPickLast | run.py:111-112 | 0 is rejected, although Python would read `results[0 - 1]` as the last element |
| Selection.NoResultsNoPick | run.py:111-112 | with no search results every number is rejected |
| Ticker.DivMod | run.py:76 | Python `divmod` with a positive divisor: quotient times divisor plus remainder is the dividend, and the remainder is in `[0, divisor)` |
| Ticker.ClockAt | run.py:76 | the displayed clock satisfies `minutes * 60 + seconds == elapsed // 1000` and `seconds < 60` |
| Ticker.TickCountUnique | run.py:75 | `ceil(duration / 1000)` (0 for no duration) is the only tick count whose counter reaches the duration while the previous counter is still below it |
| Ticker.TimeTracker | run.py:73-80 | the loop terminates; it shows exactly the reference schedule of `ceil(duration / 1000)` ticks (none for a duration of 0 or less); the final counter is 1000 times the tick count, at least the duration, and below duration + 1000 for a positive duration; every displayed counter is below the duration |
| Ticker.ScheduleSteps | run.py:79 | consecutive displayed counters differ by exactly 1000 |
| Ticker.Decimal | run.py:77 | the decimal text is all digits with no leading zero (except for 0 itself), one digit exactly for numbers below 10, two for 10..99 |
| Ticker.DecimalRoundTrip | run.py:77 | reading back the decimal text gives the number |
| Ticker.Pad02 | run.py:77 | `f"{n:02}"` is all digits, reads back as n, has at least two characters, exactly two below 100, a leading '0' below 10, and is exactly the decimal text from 10 on |
| Ticker.ElapsedLine | run.py:77 | the printed line is the label, then digits reading back as the minutes, then ':', then exactly two digits reading back as the seconds |
| Progress.Hook | run.py:50-61 | after `downloading` a bar exists and its counter equals `downloaded_bytes`; a new bar is made only when none exists, with total `total_bytes` or 0; `finished` closes an existing bar and keeps it; other statuses change nothing; a bar is never removed |
| Progress.NeverReset | run.py:58-62 | once a bar exists, no sequence of events empties the handle |
| Progress.CounterTracksLastEvent | run.py:56 | after any sequence that contains a `downloading` event, the counter equals the bytes of the last such event |
| Progress.RunFromInitial | run.py:50-62 | from the module-load state, a bar exists exactly when some `downloading` event occurred; its total is the first such event's `total_bytes` (0 when absent); it is closed exactly when a `finished` event came after that event |
| Progress.HandleOutlivesDownload | run.py:52-62 | a second download reuses the first download's bar, so its total stays that of the first download |
| Session.DownloadAudio | run.py:24-48 | a path is returned exactly when the download succeeded; it ends in `.mp3` and keeps the downloaded name's stem |
| Session.WavPath | run.py:64-69 | the .wav path ends in `.wav` and keeps the .mp3 path's stem |
| Session.DownloadedPathTruthy | run.py:118 | `if mp3_file:` is true exactly when the download succeeded, because the returned path is never empty |
| Session.ConvertAndPlay | run.py:83-131 | the downloaded .mp3 is always converted; playback is asked for exactly when decoding succeeds, with the .wav path `convert_to_wav` returns, which ends in `.wav` and keeps the .mp3's stem; cleanup happens exactly when decoding and loading the .wav both succeed, and removes the .mp3 and then the .wav; a ValueError from either prints "Please enter a valid number."; any other exception from either escapes, and then no outcome message is printed; the files-deleted notice is printed exactly when cleanup happens |
| Session.Main | run.py:101-132 | "Please enter a valid number." is printed exactly for non-numeric input, or for a ValueError from decoding or loading after a conversion started; "Invalid choice." exactly for an out-of-range number; the files-deleted notice exactly when files are removed; non-numeric and out-of-range input fetch nothing; an accepted number fetches `results[choice - 1].link`; the folder is created exactly when missing; conversion happens exactly when a link was fetched and the download succeeded, on the path `download_audio` returned; playback exactly when conversion happened and decoding succeeded, on the path `convert_to_wav` returned; files are removed exactly when conversion happened and decoding and loading succeeded, and then exactly the converted and the played file; `main` raises exactly when, after a conversion started, decoding or loading raises a non-ValueError |
| Session.DerivedPaths | run.py:43-67 | the .mp3 path `main` receives is the downloaded name with extension `.mp3`, it is never empty, and the .wav path derived from it equals the downloaded name with extension `.wav` |
| Session.HappyPath | run.py:110-128 | with an accepted number, a download, a successful decode and a successful load of the .wav, `main` fetches the selected link, converts the `.mp3` path derived from the downloaded name, plays the `.wav` path derived from the same name, removes both, and prints the final notice |
| Session.DecodeFailureOrphans | run.py:118-127 | when decoding raises, the .mp3 was converted but nothing is played or removed, so the downloaded file is left behind |
| Session.LoadFailureOrphans | run.py:83-127 | when loading the .wav raises, playback was asked for but nothing is removed, so both files are left behind; the files-deleted notice is not printed, and `main` raises exactly when the error is not a ValueError |
| Session.FailedDownloadStops | run.py:116-118 | when the download fails, nothing is converted, played or removed and `main` returns normally |
| Session.SecondOfThree | run.py:111-116 | with three results and the answer 2, the link fetched is the second result's |

## Left out

- Search (`VideosSearch`), download and transcode (`YoutubeDL`, the FFmpeg post-processor), MP3 decoding and WAV export (`pydub`): foreign libraries and network services. Their results are parameters of `Session.Main`.
- Audio playback (`pydub.playback.play`) and its `except`: host audio output. The model records only that playback is requested.
- The tracker thread, `time.sleep` and `join`: concurrency and timing. Only the counter arithmetic is modelled, as a plain loop.
- All `print` and `input` console I/O. The input arrives already parsed as an `Option<int>`; `int()` parsing rules (whitespace, signs, underscores) are not modelled. The printed text is modelled only for the ticker line.
- Filesystem effects (`os.makedirs`, `os.remove` and their errors) and the `TMP_FOLDER` path: they appear only as requested effects.
- `search_youtube`: its listing of results is console output, and the `max_results=5` limit is applied by the search library. The results arrive as a parameter, in the order given.
- Progress.Hook: a `downloading` event whose `total_bytes` key is present with value None is not modelled (line 53 would then pass None to tqdm, not 0); an absent total is modelled by `None` and defaults to 0. The bar is a counter, a total and a closed flag. tqdm's own behaviour is not modelled: its rendering, its truthiness (in current tqdm a bar with total 0 counts as false, which would make line 52 create a new bar again), and its disabling of a closed bar (later updates are ignored). The counter follows the value that line 56 asks for.
- Session.Main: `search_youtube` (line 107, outside the `try`), `os.makedirs` (line 104) and `os.remove` (lines 126-127) are taken to return normally; an exception from any of them would escape `main`, and the model does not say so.
- Session.ConvertAndPlay: `os.remove` is taken to succeed, so its errors are not among the outcomes that set `crashed`.
- Ticker.Pad02: only natural numbers are formatted. The displayed minutes and seconds are never negative.
