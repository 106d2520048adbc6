# Segment distribution and share-link normalisation of the ffmpeg/Dropbox worker

This project models, in Dafny, the deterministic core of `dropbox_utils.py`:

- **Directory allocation and upload loop** of `split_audio_and_upload`. It
  walks the sorted listing of ffmpeg's output directory with two counters:
  `dir_idx` starts at 1 and `count_in_dir` at 0. Before each file it rolls over
  to the next directory once the current one holds `max_files_per_dir` files.
  It stops silently (`break`) once `dir_idx` exceeds `max_dirs`. It uploads
  each file to `{dest_root}/{dir_idx:02d}/{fname}` and returns
  `{"uploaded": results, "total_segments": len(results)}`.
- **Names**: the segment file template `{group_prefix}-%03d.{fmt}` and the
  destination path `{dest_root}/{NN}/{fname}`, each with a parser that inverts it.
- **Share-link normalisation** at the top of `download_file`. A missing or
  empty URL gives `None`. Otherwise every `dl=0` becomes `dl=1` before the fetch.

The loop is modelled twice:

- as a method, `Distribution.SplitAndUpload`, which keeps the source's two
  counters;
- as a closed form, `Allocation.Plan`. There, file `k` (0-based) goes to
  directory `k / c + 1` for a capacity `c >= 1`. At most `Slots` files are
  placed: `max_dirs * c` when `c >= 1` and `max_dirs >= 0`, none when
  `max_dirs <= 0`.

The method's contract says that its trace of upload calls, and its outcome,
equal those of the reference run `Distribution.RunFrom` over the closed-form
plan. The properties of uploads, directories and reports are proved about the
plan and the reference run.

Modules:

- `Outcomes`: `Option` and `Result`.
- `Text`: Python's `in`, `str.replace`, and code-point string order.
- `Numerals`: decimal digits, zero padding and its inverse.
- `Paths`: directory names, destination paths and segment names.
- `Allocation`: the closed-form plan.
- `Distribution`: the loop, the upload trace and the report.
- `Download`: URL normalisation.

Effects are modelled as follows:

- **Uploading.** `upload_to_dropbox` is an abstract effect. `rejected` is the
  set of calls (local path, destination path) that raise; every other call
  returns. The first call that raises ends the function with that exception.
  The uploads made before it stay made. Because `rejected` fixes one outcome
  per distinct call, a listing that repeated a name could not see the same
  upload succeed once and then fail; `os.listdir` never repeats a name, so
  this does not arise for the listings the code sees.
- **Paths.** `os.path.join(tmp_dir, fname)` is modelled as `tmpDir + "/" + fname`.
- **The listing.** The directory listing is a parameter. The method does not
  assume it is sorted. `Paths.SegmentListingSorted` states when sorting
  ffmpeg's output gives back segment order.

Behaviour of the code worth knowing, all of it modelled as written:

- **Running out of directories is not an error.** The loop leaves with
  `break` and returns normally, reporting only the files it uploaded. The
  remaining segments are not uploaded.
- **`max_files_per_dir <= 0`.** The rollover fires before every file, so
  directory 1 is never used. The first file goes to directory 2 and each later
  file to the next directory, so `max_dirs - 1` files fit (none when `max_dirs <= 0`). With `max_dirs=1`
  and `max_files_per_dir=0`, nothing is uploaded and the call returns normally
  with zero segments.
- **Uploads are not retried.** The first upload that raises ends the call.
- **Segments are numbered from 0**, as ffmpeg's segment muxer numbers them.
  The model keeps the index a parameter, and `SegmentListing` starts at 0.
- **More than 1000 segments.** From segment 1000 on, `%03d` prints four
  digits, and code-point order no longer follows segment order
  (`Paths.WideSegmentNumberSortsEarly`). Segment order is guaranteed only for
  listings of at most 1000 segments.

## Model

| member | source | states |
|---|---|---|
| Distribution.SplitAndUpload | dropbox_utils.py:71-86 | The two-counter loop makes exactly the upload calls of the reference run over the closed-form plan, in the same order. It ends with the same outcome: the first exception raised, or the report of every planned destination. |
| Distribution.NextDirectory | dropbox_utils.py:76-78 | The rollover test `count_in_dir >= max_files_per_dir` selects the closed-form directory of the next file, and the counters keep describing the last file placed. |
| Distribution.PlanNext | dropbox_utils.py:79-80 | The `break` fires at file `i` exactly when the plan has no file `i`. A file within the budget is planned under its own name in its closed-form directory. |
| Allocation.DirOfIsDivision | dropbox_utils.py:73-78 | With `max_files_per_dir = c >= 1`, the k-th file (0-based) goes to directory `k // c + 1`. |
| Allocation.BudgetExceeded | dropbox_utils.py:79-80 | The directory of file k exceeds `max_dirs` if and only if `k >= Slots`. Slots is `max_dirs * c` for `c >= 1`, `max_dirs - 1` for `c < 1`, and 0 when `max_dirs <= 0`. |
| Allocation.DirOfMonotone | dropbox_utils.py:76-78 | A later file never lands in an earlier directory. |
| Allocation.PlanMonotone | dropbox_utils.py:75-80 | Directory indices never decrease along the uploads. |
| Allocation.PlanDirsInRange | dropbox_utils.py:73-80 | Every upload goes to a directory in `1..max_dirs`. With `max_files_per_dir < 1` it never goes to directory 1. |
| Allocation.PlanOccupancy | dropbox_utils.py:74-85 | Each directory receives exactly the closed-form number of files: full directories hold `c`, the last one in use the remainder, later ones none. So no directory holds more than `max(c, 1)`. |
| Distribution.CompletedRunReport | dropbox_utils.py:84-86 | A run that returns reports `min(len(files), Slots)` paths, where `Slots` is `max_dirs * c` for `c >= 1` and `max_dirs >= 0`, `max_dirs - 1` for `c < 1` and `max_dirs >= 1`, and 0 when `max_dirs <= 0`, with `total_segments` equal to their number. The k-th reported path is `{dest_root}/{NN}/{files[k]}`, where NN is file k's closed-form directory. |
| Distribution.RunFollowsPlan | dropbox_utils.py:75-85 | A run uploads a prefix of the plan, in listing order: the k-th call is the k-th planned file to its destination. |
| Distribution.RunOkWhenAllAccepted | dropbox_utils.py:83-86 | A run returns normally if and only if it made every planned upload and none of them raised. It then reports exactly the planned destinations. |
| Distribution.RunFailsAtLastUpload | dropbox_utils.py:83 | Every upload before the last one returned. A failed run ends with the exception of its last upload, which is one that raises. |
| Distribution.DestPathsDistinct | dropbox_utils.py:71-84 | A listing of distinct sorted names gives pairwise distinct destination paths, so one run never overwrites its own output. |
| Distribution.DestPathsDecode | dropbox_utils.py:81-82 | Each destination path parses back to the file's directory index and its name. |
| Text.SortedDistinct | dropbox_utils.py:71 | A strictly sorted listing names every file once. |
| Paths.DestPathRoundTrip | dropbox_utils.py:81-82 | `{dest_root}/{dir_idx:02d}/{fname}` parses back to `(dir_idx, fname)` for every root, index and name. |
| Paths.DestPathInjective | dropbox_utils.py:81-82 | Two destination paths are equal only if directory and name are. |
| Numerals.PaddedRoundTrip | dropbox_utils.py:81 | `{n:02d}` is all digits and reads back as n. |
| Numerals.PaddedWidth | dropbox_utils.py:81 | `{n:02d}` is exactly two characters long for n below 100. |
| Paths.SegmentNameRoundTrip | dropbox_utils.py:57 | `{group_prefix}-%03d.{fmt}` parses back to the segment index and format. |
| Paths.SegmentNameInjective | dropbox_utils.py:57 | Distinct segments of one job get distinct file names. |
| Paths.SegmentNameOrder | dropbox_utils.py:57 | Below 1000, an earlier segment's name sorts before a later one's. |
| Paths.SegmentListingSorted | dropbox_utils.py:57-71 | The names of the first n <= 1000 segments, in segment order, are already strictly sorted, so `sorted(os.listdir(...))` lists them in segment order. |
| Paths.WideSegmentNumberSortsEarly | dropbox_utils.py:57 | Segment 1000's name sorts before segment 101's. |
| Download.DownloadUrl | dropbox_utils.py:31-34 | The result is None if and only if the URL is None or empty. Otherwise it has the URL's length, a URL without `dl=0` is unchanged, and at every position the result holds `1` where the input has the `0` of a `dl=0` and the input's character everywhere else. |
| Download.ReplacePointwise | dropbox_utils.py:34 | `replace("dl=0", "dl=1")` changes exactly the characters that are the `0` of a `dl=0` in the input, each into `1`, and nothing else. |
| Download.NoPreviewFlagLeft | dropbox_utils.py:33-34 | After the rewrite no `dl=0` is left in the URL. |
| Download.PreviewFlagsBecomeDirect | dropbox_utils.py:34 | Every `dl=0` of the input is a `dl=1` at the same position of the output. |
| Download.DownloadUrlIdempotent | dropbox_utils.py:31-34 | Normalising an already normalised URL changes nothing. |
| Text.ReplaceAll | dropbox_utils.py:34 | Python's `str.replace`. With a replacement as long as the pattern, the length is kept. A string without the pattern is returned unchanged. |

## Left out

- `get_access_token` (dropbox_utils.py:7-28): it reads environment variables and makes an OAuth HTTP request. There is no logic here beyond choosing a credential.
- The body of `download_file` after the URL rewrite (dropbox_utils.py:35-42): it creates a temporary file and streams an HTTP download. This is I/O.
- `upload_to_dropbox` (dropbox_utils.py:44-53): an HTTP request. It is modelled only by whether it raises, through the set `rejected`. The request headers and the Dropbox argument JSON are not modelled.
- The ffmpeg invocation and its error check (dropbox_utils.py:56-69): it runs an external process. The segment names it writes are modelled by `Paths.SegmentName`, and the listing of its output is a parameter.
- `os.listdir` and `sorted` (dropbox_utils.py:71): the listing is taken as given. The method accepts any listing.
- `maxDirs` and `maxFilesPerDir` stand for `int(max_dirs)` and `int(max_files_per_dir)`. The raw request values are passed through unchecked; `int()` truncates a float and raises on a value it rejects. That conversion runs inside the loop, so a rejected value raises at the first file, before any upload, and only when the listing is non-empty. This is not modelled.
- The HTTP routes in `app.py` are not part of this model.
- Text.ReplaceAll: its own contract states only that the length is kept when pattern and replacement are equally long and that a string without the pattern is unchanged. The replacement itself is specified by `Download.ReplacePointwise`, for the one call the code makes (`"dl=0"` to `"dl=1"`), not for arbitrary patterns.
- Paths.SegmentName: ffmpeg expands `%` sequences over the whole output template and writes into the directory the template names, so a `group_prefix` or `fmt` containing `%` or `/` does not produce the literal name. The naming is modelled only for fields without `%` or `/`; the request's `group_prefix` is passed on unchecked, and that case is not modelled.
- Numerals.PaddedRoundTrip: `{n:02d}` is modelled for non-negative n only. `dir_idx` starts at 1 and only grows, so a negative index never reaches the format.
