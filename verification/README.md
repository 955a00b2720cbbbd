# stream-downloader, modelled in Dafny

`stream-downloader.py` records an MJPEG camera stream into fixed-duration
segment files. It hands each finished segment to `ffmpeg` for transcoding to
MP4. After every segment it deletes recordings past their retention window.
This project models the deterministic decisions under that I/O as pure Dafny
functions and methods, and proves properties about them:

- **Retention sweep** (`delete_old_files`, module `Retention`). A directory is
  a `map<string, int>` from entry name to modification time in integer
  seconds. The current time `now` is a parameter. An entry is deleted exactly
  when two things hold. First, its extension is in `exts`. The extension is
  pathlib's `suffix` with the leading dot stripped, compared exactly and
  case-sensitively. Second, its modification time is strictly before
  `now - hours * 3600`.
- **Segment capture** (the chunk loop of `download_stream`, module
  `Capture`). The response body is a sequence of `Arrival(at, chunk)`. Here
  `at` is the clock reading taken when the loop checks that chunk. The loop
  stops at the first chunk whose elapsed time strictly exceeds `duration`.
  That chunk is not written, because the check comes before the write. Empty
  chunks are skipped.
- **Names and commands** (module `Paths`). This covers four things:
  - stripping trailing `/` and `\` from the output directory;
  - the `YYYY-MM-DD_HH-MM-SS` stem, built from broken-down clock fields;
  - the sibling paths `dir/stem.mjpeg` and `dir/stem.mp4`;
  - the fixed `ffmpeg` argument vector.
- **One pass of the loop** (module `StreamDownloader`). It names the
  segment, captures it, records the raw file in the directory and builds the
  transcoder's argument vector. It then applies the two sweeps: `mp4`, `mkv`
  and `avi` after 336 hours, then `mjpeg` after 2 hours.

`Wrappers` holds the `Option` type. `Strings` holds `RFind`, Python's
`str.rfind`.

## Model

| member | source | states |
|---|---|---|
| `Retention.Suffix` | stream-downloader.py:52 | `Path(name).suffix` is empty or starts with the name's last dot, contains no other dot, and is a proper tail of the name |
| `Retention.LStripDots` | stream-downloader.py:52 | `lstrip('.')` returns a tail of its input that does not start with a dot, and everything removed is dots |
| `Retention.ExtShape` | stream-downloader.py:52 | the compared extension contains no dot; when non-empty it is exactly what follows the name's last dot, with at least one character before that dot |
| `Retention.ExtEmpty` | stream-downloader.py:52 | a name has no extension if and only if it ends in a dot or has no dot after its first character (so hidden files such as `.mp4` have none) |
| `Retention.Ext` | stream-downloader.py:52 | the extension a name is judged by: `suffix` with its leading dots stripped; it carries no contract of its own, and `ExtShape` and `ExtEmpty` state what it is |
| `Retention.ExtOfDotted` | stream-downloader.py:52-54 | a name `stem.e`, with `stem` non-empty and `e` dot-free, has extension exactly `e` |
| `Retention.Cutoff` | stream-downloader.py:46 | the threshold time, `hours * 3600` seconds before the clock reading; a definition, whose consequences `Sweep`, `Removed` and `RemovedAntitoneInHours` state |
| `Retention.Doomed` | stream-downloader.py:54-58 | the deletion test: a listed extension and a modification time strictly before the cut-off; a definition, whose consequences `Sweep` and `Removed` state |
| `Retention.Sweep` | stream-downloader.py:34-61 | the sweep only deletes; survivors keep their time; entries with unlisted extensions survive at any age; entries at or after the cut-off survive; no listed entry older than the cut-off remains (an empty directory stays empty) |
| `Retention.Removed` | stream-downloader.py:49-60 | a name is deleted if and only if it is in the directory, its extension is listed, and its time is strictly before the cut-off |
| `Retention.SweepDirectory` | stream-downloader.py:49-61 | the for-loop over the listing, visiting entries in any order, leaves exactly the sweep's result and reports each deleted name exactly once |
| `Retention.SweepIdempotent` | stream-downloader.py:44-60 | with a fixed clock, sweeping twice equals sweeping once |
| `Retention.RemovedAntitoneInHours` | stream-downloader.py:46 | a longer window deletes a subset of what a shorter window deletes |
| `Retention.RemovedMonotoneInExts` | stream-downloader.py:54 | listing more extensions deletes a superset |
| `Retention.SweepTwice` | stream-downloader.py:103-104 | after two sweeps, each with its own clock reading (each call reads the clock at line 44), an entry remains if and only if neither sweep condemns it by its original time at that sweep's reading, and it keeps that time |
| `Retention.SweepsCommute` | stream-downloader.py:103-104 | two sweeps, each with its own clock reading, give the same directory in either order, and together delete the union of what each deletes alone |
| `Capture.Overdue` | stream-downloader.py:93 | the loop's stop test: the elapsed time strictly exceeds the duration; a definition, whose consequences `CutIndex` and `CaptureSegment` state |
| `Capture.CutIndex` | stream-downloader.py:91-94 | the number of chunks that pass the duration check (when one is overdue, the loop also reads that chunk before it breaks): every chunk before it has elapsed time at most `duration`, and the chunk at it (if any) exceeds `duration` |
| `Capture.CaptureSegment` | stream-downloader.py:87-97 | the file holds exactly the chunks before the first overdue one, in order; the writes are those chunks minus the empty ones; the file is a prefix of the whole stream; if no chunk is overdue, the whole stream is written |
| `Capture.FlattenNonEmpty` | stream-downloader.py:96-97 | skipping empty chunks does not change the bytes written |
| `Capture.FlattenPrefix` | stream-downloader.py:91-97 | the bytes of the chunks consumed before the cut are a prefix of the bytes of the whole stream |
| `Capture.ChronologicalCut` | stream-downloader.py:91-94 | if clock readings never go backwards, the consumed chunks are exactly those whose elapsed time is at most `duration` |
| `Capture.SteadyStreamSize` | stream-downloader.py:87-97 | with one `n`-byte chunk per second from the start and a stream that outlasts the duration, `duration + 1` chunks are written: `(duration + 1) * n` bytes |
| `Paths.StripTrailingSeps` | stream-downloader.py:73 | the normalised directory is a prefix of the input, does not end in `/` or `\`, and everything removed is `/` or `\` |
| `Paths.StripTrailingSepsIdempotent` | stream-downloader.py:73 | normalising twice equals normalising once |
| `Paths.StripTrailingSepsOfPadded` | stream-downloader.py:73 | any run of separators appended to a normalised directory is removed again, and nothing more |
| `Paths.FormatStem` | stream-downloader.py:80 | the stem is 19 characters long and contains no `.`, `/` or `\` |
| `Paths.StemRoundTrip` | stream-downloader.py:80 | every in-range clock reading is recovered by parsing its stem |
| `Paths.StemParseFormat` | stream-downloader.py:80 | every string the stem parser accepts is the stem of what it parses to |
| `Paths.StemInjective` | stream-downloader.py:80 | two clock readings give the same stem only if they are equal, so file names collide exactly within the same local wall-clock second |
| `Paths.RawPath` | stream-downloader.py:90 | `dir/stem.mjpeg`; a definition, whose shape `SegmentPathsShareStem` states |
| `Paths.TranscodedPath` | stream-downloader.py:100 | `dir/stem.mp4`; a definition, whose shape `SegmentPathsShareStem` states |
| `Paths.SplitSegmentPath` | stream-downloader.py:90 | a path that splits at its last `/` and last `.` rebuilds from its parts, and the parts carry no separator |
| `Paths.SegmentPathsShareStem` | stream-downloader.py:90-100 | the raw and transcoded paths split into the same directory and stem, with extensions `mjpeg` and `mp4` |
| `Paths.TranscodeArgv` | stream-downloader.py:18-24 | the argument vector has length 8, starts with `ffmpeg`, has the input at index 2 and the output last |
| `Paths.TranscodeArgvRoundTrip` | stream-downloader.py:18-24 | the vector's parser returns its two paths; any vector the parser maps to those paths is exactly the template filled with them |
| `StreamDownloader.NameSegment` | stream-downloader.py:80-100 | the raw path names the start time in the normalised directory; the transcoder gets that path and the `.mp4` sibling of the same stem |
| `StreamDownloader.ApplyRetention` | stream-downloader.py:102-104 | the transcoded sweep at its clock reading, then the raw sweep at its own: the result is exactly the two sweeps composed; they only delete and keep times; nothing either window condemns remains; every deleted name is reported, and no name twice |
| `StreamDownloader.FreshRawSurvives` | stream-downloader.py:90-104 | the raw segment just written survives both sweeps if and only if its time is within the two-hour raw window at the raw sweep's clock reading |
| `StreamDownloader.RunPass` | stream-downloader.py:73-104 | one pass: the segment's names and the bytes written; if the normalised directory is empty the first sweep fails to list it and the pass ends there; otherwise the directory is the listing plus the new raw file, swept by the transcoded policy at its reading and then by the raw policy at its own, and the raw file survives if and only if it is within the raw window |
| `StreamDownloader.DefaultSegmentSize` | stream-downloader.py:87-97 | with the default 60-second duration of line 63 and one `n`-byte chunk per second, a segment holds 61 chunks: `61 * n` bytes |
| `StreamDownloader.PolicyExtensions` | stream-downloader.py:103-104 | `mjpeg` is swept only by the raw policy and `mp4` only by the transcoded policy |
| `StreamDownloader.SweepExample` | stream-downloader.py:103 | with a 336-hour window, `old.mp4` modified 400 hours ago is deleted and `new.mp4` modified an hour ago is kept |
| `StreamDownloader.RawSweepKeepsTranscoded` | stream-downloader.py:104 | the two-hour `mjpeg` sweep never deletes a segment's `.mp4` |
| `StreamDownloader.TranscodedSweepKeepsRaw` | stream-downloader.py:103 | the 336-hour sweep never deletes a segment's `.mjpeg` |

## Left out

- HTTP streaming, Basic Authentication and `raise_for_status` are not modelled. They belong to the HTTP client library. The stream arrives as a given sequence of chunks.
- File I/O is not modelled. Listing, reading modification times, removing and writing are replaced by a name-to-time map and a byte sequence.
- The listing's order is left open: `SweepDirectory` picks entries in any order.
- Every directory entry is treated as a plain file. Entry names are taken to contain no path separator, so pathlib's `name` is the whole entry.
- A failing `os.remove` is not modelled. The source does not catch it, so the sweep is not best-effort per file. The model deletes every doomed entry.
- `subprocess.Popen` is not modelled. Neither are the concurrency of detached `ffmpeg` processes or the exception swallowing around the launch. The transcoder is represented only by its argument vector.
- The `.mp4` file that `ffmpeg` produces later is not added to the directory of the pass.
- Clocks are not modelled. `datetime.now` and `time.time` readings are integer parameters. Each sweep takes its own reading (`nowT` for the transcoded sweep, `nowR` for the raw sweep), but the model does not require `nowT <= nowR`.
- Float timestamps, fractional `hours` and calendar effects of `timedelta` on local naive times (such as daylight-saving shifts) are not modelled. At a fall-back shift, two segment starts an hour apart get the same stem, and the `'wb'` open at stream-downloader.py:90 truncates the earlier raw file; `DateTime` is the broken-down wall-clock reading, so the model cannot tell those two starts apart.
- The `while True` driver is modelled only as one pass (`RunPass`).
- Logging (`Tools.log`, the blank `print('')` at stream-downloader.py:81 and the logged `' '.join(command)`) and the `config` entry point are not modelled. The `Deleted:` line at stream-downloader.py:61 is modelled only as the entry name in `deleted`, without the directory prefix that `os.path.join` adds.
- FormatStem: pads the year to four digits. Some platforms' `strftime` prints years below 1000 without padding.
- FormatStem: `DateTime.InRange` bounds each field separately and does not check month lengths.
- Where the docstring and the code differ, the model follows the code: the default duration is 60 s (`DefaultDuration`), not the 3600 s the docstring at stream-downloader.py:71 states.
- The chunk whose check finds the duration exceeded is read from the stream but not written, because the check (stream-downloader.py:93) comes before the write (stream-downloader.py:97).
- RunPass: when the output directory is empty or only separators, it normalises to the empty string. The raw file then goes to `/stem.mjpeg` at the filesystem root, and `os.listdir("")` in the first sweep raises `FileNotFoundError`, which ends `download_stream`. The model reports this as `entries == None` and says nothing about the files it would have written or the exception's propagation.
