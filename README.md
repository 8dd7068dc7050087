# riddle — a verified model of the download-and-archive pipeline

riddle.py fetches the "hot" submissions of a subreddit. It keeps the image links among
them and downloads each one to a folder, unless the file already exists there. Files that
are too small, in kilobytes or in megapixels, are removed again. In zip mode the images
go to a cache folder, which is then appended to `<output>.zip`; candidates already
stored in that archive are skipped beforehand. A text progress bar is ticked once per
image.

This project models that pipeline in Dafny and proves properties of it:

| module (file) | models |
|---|---|
| `Segments` (segments.dfy) | `s.split(c)`, `s.split(c)[-1]` for extensions and file names, `os.path.join` |
| `Seqs` (seqs.dfy) | order-preserving list comprehensions (`Filter`) |
| `Arith` (arith.dfy) | multiplication and floor-division facts used by the proofs |
| `Progress` (progress.dfy) | the `ProgressBar` class: `tick`, `setprogress`, `_print_progress`, `clear` |
| `Download` (download.dfy) | `download_file` and its quality gate |
| `Feed` (feed.dfy) | `get_images` |
| `Batch` (batch.dfy) | `download_images` |
| `Archive` (archive.dfy) | `filter_zip_files`, `compress_folder` |

The outside world is modelled as inputs:
- The file system is a `set<string>` of existing file paths.
- The network and the image decoder are a `Fetch` value per URL. A `Fetch` holds the
  transfer result (the number of bytes, or one of the three caught errors), what opening
  the written file as an image gives (`None` stands for `IOError`), and whether removing
  the file would succeed.
- In the batch, `fetchOf: string -> Fetch` gives this answer for every URL. The batch's
  recursive definition `BatchRun` and its lemmas take, per URL, the destination and the
  outcome of `download_file`. `DownloadImages` and `Rerun` instantiate them with
  `Destination` and `DownloadOutcome`.
- The feed is the sequence of submissions it yielded.
- An archive is the sequence of its member names, or `None` when the zip file does not
  exist.
- Console output is not modelled, except that the progress bar's methods return the text
  they would print.

Behaviours of the code worth knowing:
- Re-running a batch on the files left by a run, with the network and the decoder giving
  the same answers, downloads nothing new (`Batch.Rerun`). The candidates are not all
  counted as pre-existing, though. A candidate whose file was removed by the quality gate
  is fetched again, and is rejected again only because the answers are the same; with a
  different answer it could pass.
- A failing `os.remove` is caught by the same `except IOError` handler that guards the
  decoding. When the gate rejects an image but the removal fails, `success = False` is
  skipped: the call returns true and the too-small file stays (`Download.FailedRemovalKeepsRejected`).
- `compress_folder` iterates `os.walk`, which also descends into subdirectories. It reads
  each name it finds from `os.path.join(folder, name)` and stores it under the bare name,
  so a file found in a subdirectory would be read from the wrong path. The model takes the
  folder's top-level files, which is all the cache folder ever holds.

## Model

| member | source | states |
|---|---|---|
| Segments.Split | riddle.py:177 | `s.split(sep)` gives at least one piece and no piece contains the separator |
| Segments.LastSegment | riddle.py:177 | the text after the last separator is the longest separator-free suffix: a suffix, without the separator, and preceded by it when shorter than the whole string |
| Segments.JoinSplit | riddle.py:177 | `split` loses nothing: joining the pieces with the separator gives back the string |
| Segments.LastOfSplit | riddle.py:177 | the last piece of `s.split(sep)` is exactly the text after the last separator, and all of `s` when there is none |
| Segments.LastSegmentNoSeparator | riddle.py:177 | a URL without the separator is its own last segment, so a URL with no `.` is compared whole against `img_ext` |
| Segments.LastSegmentUnique | riddle.py:177 | the longest separator-free suffix is unique: any suffix without the separator that is the whole string or follows a separator is `LastSegment` |
| Segments.Extension | riddle.py:177 | the extension is the `.`-free suffix of the URL that is the whole URL or follows its last `.` |
| Segments.Basename | riddle.py:195 | the file name is the `/`-free suffix of the URL that is the whole URL or follows its last `/` |
| Segments.JoinPath | riddle.py:196 | `os.path.join`: an absolute name replaces the directory, otherwise the directory is a prefix and the name a suffix of the path |
| Segments.JoinPathInjective | riddle.py:196 | in one directory, two `/`-free names give the same path iff they are equal |
| Seqs.Filter | riddle.py:177 | a comprehension keeps exactly the elements that pass the test and never lengthens the list |
| Seqs.FilterAppend | riddle.py:177 | a comprehension preserves order: filtering `a + b` is filtering `a`, then `b` |
| Seqs.FilterIdempotent | riddle.py:219 | filtering twice with the same test equals filtering once |
| Progress.Repeat | riddle.py:59 | `s * n` has length `n * len(s)` (empty for `n <= 0`), and cell `i` is `s[i % len(s)]`: `n` copies of `s` |
| Progress.BarWidth | riddle.py:58 | `length * progress // total` is the floor of the quotient: `w * total <= length * progress < (w + 1) * total` |
| Progress.BarText | riddle.py:59 | with a one-character fill the bar has `max(w, 0)` fill cells followed by `max(length - w, 0)` cells of `-` |
| Progress.PercentText | riddle.py:57 | the percentage has one digit after a `.` and starts with `-` iff progress is negative |
| Progress.Render | riddle.py:60 | the line starts with `\r`, the prefix and ` \|`, and is as long as the prefix, the bar, the percentage and the suffix plus seven framing characters |
| Progress.ProgressBar.Text | riddle.py:51-60 | the bar's line has the rendered length and ends with its suffix |
| Progress.PercentTenths | riddle.py:57 | the percentage in tenths is the nearest tenth of `100 * progress / total`, ties to even |
| Progress.PercentMonotone | riddle.py:57 | the displayed percentage never decreases as progress grows |
| Progress.BarWidthBounds | riddle.py:58 | for `0 <= progress <= total` the filled width `length * progress // total` lies in `[0, length]` |
| Progress.BarWidthMonotone | riddle.py:58 | the filled width never shrinks as progress grows |
| Progress.BarTextShape | riddle.py:58-59 | with a one-character fill the bar has exactly `length` cells: filled ones, then `-` |
| Progress.CompleteRendering | riddle.py:57-59 | at `progress == total` the bar is all fill and the percentage reads `100.0` |
| Progress.ProgressBar.constructor | riddle.py:25-32 | a new bar stores its settings and starts at progress 0 with text length 0 |
| Progress.ProgressBar.Output | riddle.py:60-65 | the printed output starts with the rendered line and ends with a newline iff `progress == total` |
| Progress.ProgressBar.PrintProgress | riddle.py:51-65 | rendering sets `textlength` to the length of the rendered line and changes nothing else |
| Progress.ProgressBar.Tick | riddle.py:34-40 | `tick` raises `progress` by exactly one and re-renders |
| Progress.ProgressBar.SetProgress | riddle.py:42-49 | `setprogress(p)` sets `progress` to `p` and re-renders |
| Progress.ProgressBar.Clear | riddle.py:67-72 | `clear` prints exactly `textlength` spaces and a carriage return |
| Download.RoundKb | riddle.py:142 | `round(bytes/1000)` is the nearest whole number of kilobytes, ties to even |
| Download.Megapixels | riddle.py:141 | the megapixel count is non-negative and is exactly `width * height` divided by a million |
| Download.PassesGate | riddle.py:146 | an image passing the gate has at least `1000 * min_size - 500` bytes; one with at least `1000 * min_size` bytes and `min_mp` megapixels passes |
| Download.DownloadOutcome | riddle.py:119-156 | success iff the transfer succeeded and, when the file decoded in script mode and could be removed, it passed the gate; the file remains iff the call succeeded, decoding raised, the gate is off, or the removal failed |
| Download.DownloadFile | riddle.py:111-156 | the step-by-step `success` flag and file creation/removal agree with `DownloadOutcome` |
| Download.RoundKbExact | riddle.py:142 | a whole number of kilobytes rounds to itself |
| Download.RoundKbMonotone | riddle.py:142 | more bytes never round to fewer kilobytes |
| Download.GateBoundary | riddle.py:146 | an image of exactly the minimum size and megapixels is kept; one kilobyte less, or fewer megapixels, is rejected |
| Download.GateMonotone | riddle.py:146 | a larger image with at least as many pixels passes whenever a smaller one does |
| Download.FailedTransferLeavesFile | riddle.py:119-155 | a failed transfer whose empty file cannot be decoded returns false and leaves the empty file on disk |
| Download.FailedRemovalKeepsRejected | riddle.py:143-155 | a gate-rejected image is removed and reported false, but when the removal fails it stays and is reported true |
| Download.DefaultGateExamples | riddle.py:146 | at the defaults (5 kb, 0.5 MP) 4501 bytes pass and 4500 do not, and 999x500 pixels are too few |
| Feed.Admissible | riddle.py:172 | with `nsfw` every submission is admitted; without it exactly those not marked `over_18` |
| Feed.IsImageUrl | riddle.py:177 | a URL is an image iff some extension in `img_ext` is its text after the last `.` |
| Feed.ImageTest | riddle.py:177 | the comprehension's test accepts a URL iff some extension in `img_ext` is the `.`-free suffix of the URL that is the whole URL or follows its last `.` |
| Feed.AdmittedUrls | riddle.py:170-174 | the collecting loop appends at most one URL per submission (membership: `Feed.AdmittedMembers`) |
| Feed.Wanted | riddle.py:169-177 | the candidates never outnumber the submissions |
| Feed.WantedMembers | riddle.py:172-177 | a URL is a candidate iff some submission with `not over_18 or nsfw` carries it and its extension is in `img_ext` |
| Feed.AdmittedMembers | riddle.py:171-174 | the collecting loop keeps exactly the URLs of submissions with `not over_18 or nsfw` |
| Feed.WantedAppend | riddle.py:169-177 | candidates are in feed order |
| Feed.FilterAdmitted | riddle.py:169-177 | collecting first and filtering by extension afterwards equals the one-pass definition |
| Feed.GetImages | riddle.py:159-177 | the loop and the final comprehension return exactly the one-pass candidates |
| Feed.ExtensionExamples | riddle.py:177 | `pic.jpg` is an image by default; `pic.JPG` and `pic.jpg?q` are not |
| Batch.DestinationShape | riddle.py:195-196 | the destination path `os.path.join(dl_dir, imgname)` starts with the folder and ends with the URL's file name |
| Batch.Step | riddle.py:194-202 | one iteration adds one to `realcount + preexist` unless it attempted a download that failed, never deletes existing files, and leaves the destination missing iff it was missing and the download kept no file |
| Batch.BatchRun | riddle.py:193-203 | `realcount + preexist <= len(images)`, and the files existing before remain |
| Batch.NewFilesAreDestinations | riddle.py:195-198 | a run creates files only at its candidates' destinations |
| Batch.VisitImage | riddle.py:194-202 | the loop body equals `Step` at the URL's destination and `download_file`'s outcome: an existing destination counts as pre-existing without a download; otherwise `download_file` runs and `realcount` grows only on a true result |
| Batch.DownloadImages | riddle.py:180-205 | the loop's counters and files are those of `BatchRun`, and the bar ends with `progress == total == len(images)` |
| Batch.DestinationCollision | riddle.py:195-197 | two URLs share a destination iff they end in the same file name |
| Batch.AllPresent | riddle.py:197-200 | when every destination exists, `realcount == 0`, `preexist == len(images)` and no file changes |
| Batch.MissingMeansFailed | riddle.py:197-202 | a candidate whose destination is missing after a run had no file before, and its download kept no file |
| Batch.NothingNewSucceeds | riddle.py:197-202 | a run downloads nothing when every candidate missing from the known files fails |
| Batch.Rerun | riddle.py:193-203 | re-running on the files left by a run, with the same network and decoder answers, downloads nothing, because `download_file` never returns true without keeping its file |
| Archive.NotArchived | riddle.py:219 | the test keeps a URL iff no member name is the `/`-free suffix of the URL that is the whole URL or follows its last `/` |
| Archive.FilterZipFiles | riddle.py:208-221 | with no zip the list is unchanged; otherwise exactly the candidates whose file name is not a member remain |
| Archive.FilterZipFilesAppend | riddle.py:219 | the surviving candidates keep their order |
| Archive.FilterZipFilesIdempotent | riddle.py:219 | filtering against the same archive twice equals filtering once |
| Archive.FilterZipFilesExample | riddle.py:215-219 | an archive holding `a.png` removes `http://x/a.png` and keeps `http://x/b.png` |
| Archive.CompressFolder | riddle.py:224-244 | mode `'a'` iff the zip exists; the members are the old ones (or none) followed by the folder's files in listing order |
| Archive.NoDuplicateMembers | riddle.py:208-242 | archiving files named after candidates that survived `filter_zip_files` adds no duplicate member name |

## Left out

- Command-line parsing (`parser_init`) and loading `config.yaml` in `main` are not modelled. The thresholds and the extension list are parameters (`Settings`, `imgExt`), with the defaults as constants. This also leaves out that `min-mp` is read with `int()`, which drops fractions.
- The Reddit client, `hot(limit=...)` and the exception it may raise are not modelled. The input is the sequence of submissions actually yielded, so an enumeration cut short by an error is a shorter input.
- `urllib`, PIL, `os.path.getsize` and `os.remove` become the `Fetch` input. The model leaves out exceptions `download_file` does not catch (a socket timeout, `ValueError` for a malformed URL); they would abort the batch.
- `assert_dir_exist` and `shutil.rmtree` are not modelled: directories are not part of the file-system model.
- The diagnostics printed by `download_file`, `get_images` and `download_images` are not modelled. The same goes for the `progressbar.clear()` calls made before them, which only print.
- Compression methods and the bytes stored in the zip are not modelled, only member names.
- `compress_folder` descending into subdirectories through `os.walk` is not modelled: only top-level files are archived.
- `setprogress` with a float argument is not modelled; progress is an integer.
- Progress.PercentTenths: rounds the exact ratio `100 * progress / total` to a tenth, ties to even. Python formats the binary floating-point value, which can land on the other side of an exact tie (a ratio of exactly `0.05` formats as `0.1`), so the rendered text and `textlength` may differ in such cases.
- Progress.ProgressBar.PrintProgress: requires `total > 0`. Python raises `ZeroDivisionError` for `total == 0`, and renders a bar for a negative `total`, which the model does not cover (Dafny's division is Euclidean, Python's `//` floors). `download_images` builds the bar with `total = len(images)` and only renders when there is at least one image.
- Progress.ProgressBar.Tick: requires `total > 0`, for the same reason as `PrintProgress`.
- Progress.ProgressBar.SetProgress: requires `total > 0`, for the same reason as `PrintProgress`.
- Download.RoundKb: rounds the exact quotient `bytes / 1000`. This equals Python's `round` of the floating-point quotient for every file size below 2^53 bytes.
