# Scene pipeline bookkeeping, modelled in Dafny

The repository is a set of scripts for coding university promo videos.

- `scan.py` downloads each institution's video into `results/<institution>/`. It skips rows without a video, rows that are not primary and URLs without `.edu`. A primary row with a video whose URL cell is not a string makes the `in` test of line 36 raise `TypeError`, which ends the script.
- `split.py` and `subsplit.py` cut a video into scene clips at the timestamps that ffmpeg's scene filter logs.
  - `split.py` then drops clips under 1024 bytes and takes a middle-frame screenshot of each remaining clip.
  - `subsplit.py` takes a middle-frame screenshot of every piece it cuts, without a size test.
- `autocode.py` reads the coders' spreadsheet of clip numbers ("bases"). For every base it works out:
  - the scenes on disk that continue it, up to the next base;
  - the compressed range text for those scenes (`2-4,6,8-9`);
  - the screenshot that shows the clip.

  It writes `glue.csv` and asks a vision model for a label.
- `glue.py` concatenates every continuation into its base clip and deletes the sources once ffmpeg succeeds.
- The `analysis/` scripts do three things:
  - normalise the category labels and map them onto code columns;
  - number the scenes within each domain;
  - assign each scene an Early, Middle or Late phase.

This project models the integer, string and file-set bookkeeping of those scripts. It proves what that bookkeeping promises.

What is modelled, by module:

- **Text**: the Python string operations the scripts use: `strip`, `split`, `join`, `int()`, `float()` of a decimal, `str()` of an integer, `lower()`, `re.sub(r"\s+", " ", …)` and the first digit run.
- **Sorting**: `sorted(set(xs))`.
- **RangeCodec**: `compress_ints` and `expand_range_str`. Each is a method with the source's loop, proved against a function, and the round trip between them is proved.
- **Continuation**: the rest of `autocode.py`'s core:
  - `continuation_scenes`; `choose_image_for_clip` and `scene_jpg_path`;
  - `list_existing_scene_numbers`, over a list of names;
  - `safe_folder`, `detect_column` and `write_glue_csv`;
  - the base/next-base pairing loop of `main`;
  - the `ERROR:` text of a failed model call.
- **Paths**: `os.path.join`, `basename`, `dirname` and `splitext` as the scripts use them.
- **Glue**: `glue.py`. The results tree is a class holding a map from site to the set of file names in its scenes directory. The methods change that map step by step, as the script does to the disk.
- **SplitPlan**:
  - the timestamp parse and clip plan of `split.py` and `subsplit.py`;
  - `find_row`, plus `scene_split_process` on a class holding the two detection settings;
  - `sanitize_filename`;
  - the `process_folder` loop of `split.py` on a class holding a scenes directory.
- **Scan**: `sanitize_folder_name`, and the main loop of `scan.py` on a class holding the files and directories on disk.
- **Labels**: `normalize_label`, `parse_labels`, `label_to_code`, `code_cols` and `map_to_codes`.
- **Phase**: `analysis/phase.py`: `parse_scene_number`, the per-domain position numbering and `assign_phase`.
- **ScenePhase**: `analysis/derive_scene_phase.py`: `parse_time_to_seconds`, the tag filter and `assign_phase`.

External effects become parameters:

- ffmpeg's exit status in `glue.py` is a function from (site, row number) to success.
- Each `capture_middle_frame` call comes to one of three outcomes, given as a function from (site or video, file name) to `Paths.Capture`:
  - `Written`: the screenshot is written;
  - `NotWritten`: the ffmpeg grab writes nothing;
  - `Unreadable`: `get_video_duration`'s `float()` rejects ffprobe's output and raises, which ends the script.
- The order in which `os.listdir` returns a directory's names is a function from the set of names to a list (`Paths.Listdir`).
- `os.path.exists` is a function on names.
- `os.path.getsize` in `split.py` is a function from (video, clip name) to a size (`SplitPlan.Sizes`): every video re-creates the same clip names with sizes of its own.
- `mimetypes.guess_type`, urlparse's `netloc` and the download's success are parameters.
- The scene boundaries ffmpeg detects are a function from video to timestamps.
- The vision model's reply is a datatype value.

Code and description differ in three places. The model follows the code in all three:

- The docstring of `choose_image_for_clip` names `scene_<n>.jpg`, but the code builds `scene_<n>_screenshot<ext>`.
- The comment at `subsplit.py:45` says the row's diff is divided by two, but line 47 divides it by 4.
- `analysis/phase.py` and `analysis/derive_scene_phase.py` both describe terciles, but they put the boundaries differently. `phase.py` rounds `n/3` up. `derive_scene_phase.py` compares `k/n` with `1/3`.
  - The two scripts rank different rows. `phase.py` numbers the spreadsheet rows of a domain (lines 39-40). `derive_scene_phase.py` ranks the rows left after its tags are exploded and filtered (lines 61-78).
  - The comparison is therefore of the two phase rules at an equal count `n` and an equal rank `k`, below 10^8 rows.
  - There the rules agree when `n` is at most 3 or a multiple of 3 (`ScenePhase.ScriptsAgree`).
  - For every other `n` from 4 on, the scene ranked `ceil(n/3)` is Early under `phase.py` and Middle under `derive_scene_phase.py` (`ScenePhase.ScriptsDisagree`).

## Model

| member | source | states |
|---|---|---|
| Text.Split | analysis/analysis.py:94 | `str.split(sep)` yields at least one piece, and no piece holds the separator |
| Text.SplitJoin | autocode.py:114 | splitting the comma join of separator-free pieces gives back those pieces |
| Text.ParseIntOfNat | glue.py:76 | `int(str(n))` is `n` for every natural number |
| Text.ParseIntNegative | glue.py:76 | `int("-" + digits)` is the negated digit value: a leading minus is read as a sign, not as a range |
| Text.CanonicalDigits | autocode.py:146-148 | a digit string without a leading zero is the decimal text of its value |
| Text.FirstDigitRun | autocode.py:146-148 | the first run of digits is non-empty and all digits, and it is absent exactly when no character is a digit |
| Text.FirstDigitRunOf | autocode.py:146-148 | after a digit-free prefix, the first digit run is exactly the run that follows |
| Text.ReplaceRuns | analysis/analysis.py:87 | after the substitution every class character is the replacement, no two class characters are adjacent, and the text is no longer |
| Text.DecimalOfNat | analysis/phase.py:30 | `float()` of the decimal text of `n` is `n` |
| Text.Strip | glue.py:76 | `str.strip()`: the result neither starts nor ends with whitespace and is no longer than the text |
| Text.StripTrims | glue.py:76 | `str.strip()` removes only whitespace: the result is a slice of the text with nothing but whitespace before and after it |
| Text.StripAround | analysis/analysis.py:85 | `strip()` of a text wrapped in whitespace, neither starting nor ending with whitespace itself, gives back the text |
| Text.ParseInt | glue.py:76 | `int()` succeeds only when the stripped text ends in a digit, and gives a negative number only after a leading minus |
| Text.ParseSigned | glue.py:76 | the same for text already stripped: a result needs a final digit, and a negative one a leading `-` |
| Text.ParseDecimal | split.py:75 | `float()` succeeds only on a text that is not blank once stripped, and gives a negative value only after a leading minus |
| Sorting.SortedInts | autocode.py:149 | `sorted(set(xs))` is strictly increasing and has exactly the elements of `xs` |
| Sorting.SortedIntsUnique | autocode.py:149 | any strictly increasing list with the elements of `xs` is `sorted(set(xs))` |
| Sorting.SortedStrings | analysis/analysis.py:108 | `sorted(set(xs))` of strings is strictly increasing in Python's code-point order and has exactly the elements of `xs` |
| Sorting.SortedUnique | analysis/analysis.py:78 | two strictly sorted lists with the same elements are equal |
| RangeCodec.Tokens | autocode.py:108-111 | one token per run, in run order |
| RangeCodec.Compress | autocode.py:100-103 | the compressed text is empty exactly when the list is empty |
| RangeCodec.CompressInts | autocode.py:100-114 | the loop over the sorted unique numbers returns the comma join of the run tokens of the maximal runs |
| RangeCodec.ExpandRangeStr | autocode.py:117-131 | the loop returns the fields expanded left to right, skipping blanks; `None` when a field makes `int()` raise |
| RangeCodec.RunsCorrect | autocode.py:104-112 | the runs of an increasing list are non-empty, separated by a gap of at least one and concatenate back to the list |
| RangeCodec.ExpandCompress | autocode.py:100-131 | for non-negative numbers, expanding the compressed text gives `sorted(set(nums))`; for the empty list this is `""` back to `[]` |
| RangeCodec.CompressCanonical | autocode.py:104 | lists with the same elements compress to the same text, so order and repeats are ignored |
| RangeCodec.CompressOfSortedSet | autocode.py:104 | `compress(L) == compress(sorted(set(L)))` |
| RangeCodec.ExpandRunToken | autocode.py:108-111 | a run's token is stripped, has no comma, and expands to exactly the run |
| RangeCodec.SingleToken | autocode.py:111 | a singleton token expands to the one number |
| RangeCodec.ExpandTokens | autocode.py:122-130 | the tokens of non-negative runs expand to the concatenation of the runs |
| RangeCodec.ExpandRangeString | autocode.py:126-127 | `a-b` expands to `a..b` inclusive, and to nothing when `a > b` |
| RangeCodec.ExpandSkipsBlank | autocode.py:123-125 | a blank field contributes nothing |
| RangeCodec.ExpandSingleField | autocode.py:122-130 | text without a comma is expanded as its one token |
| Continuation.ContinuationScenes | autocode.py:152-160 | empty when no scene exists or there is no maximum; otherwise exactly the existing numbers from `base+1` to `next_base-1`, or to `max_scene` for the last base, in ascending order |
| Continuation.MaxOf | autocode.py:486 | `max` is an element at least every element, and absent exactly for the empty list |
| Continuation.ChooseImage | autocode.py:167-181 | the base's screenshot if it exists, else the first continuation's if that exists, else none |
| Continuation.SceneNumber | autocode.py:140-148 | a listed name yields a non-negative scene number, if any |
| Continuation.Probe | autocode.py:140-148 | one probe result per directory entry |
| Continuation.ListExistingSceneNumbers | autocode.py:136-149 | no directory gives `[]`; otherwise the loop returns `sorted(set(...))` of the names' numbers, increasing and non-negative |
| Continuation.DetectColumn | autocode.py:93-97 | the first candidate that is one of the columns; none exactly when no candidate is |
| Continuation.SafeFolder | autocode.py:79-85 | the sanitised folder name has no whitespace and is no longer than the input |
| Continuation.GlueLine | autocode.py:405-409 | a glue line starts with the base's decimal text, followed by a comma after it when there is a continuation; the line holds a comma exactly when there is a continuation |
| Continuation.WriteGlueCsv | autocode.py:401-409 | the loop writes one line per base, in order: `base` for an empty continuation, else `base,compress(cont)` |
| Continuation.PlanDomain | autocode.py:485-502 | for every base, its continuation between it and the next base, the compressed text of that continuation, and the chosen image or `''` |
| Continuation.LlmOutput | autocode.py:510-536 | empty when the model is skipped or no image exists; otherwise the reply, or `ERROR: <type>: <message>` when the call raised |
| Continuation.ContinuationBounds | autocode.py:156-160 | every continuation scene lies strictly between its base and the next base; a duplicated base gets none |
| Continuation.ContinuationsDisjoint | autocode.py:489-498 | for sorted bases, the continuations of two different bases share no scene |
| Continuation.ContinuationAvoidsBases | autocode.py:489-498 | no continuation contains any base |
| Continuation.ContinuationCovers | autocode.py:489-498 | every existing scene above the first base that is not a base is in exactly one continuation |
| Continuation.ChosenImageOfClip | autocode.py:497-502 | a chosen image exists and is the screenshot of the base or of a scene of its continuation |
| Continuation.ListedScenes | autocode.py:136-149 | a number is listed exactly when some directory entry yields it |
| Continuation.SceneFileNumber | autocode.py:140-148 | `scene_<n>.mp4` is listed as `n` |
| Continuation.SafeFolderClean | autocode.py:79-85 | the folder name has no slash, none of `:*?"<>|` and no whitespace |
| Continuation.SafeFolderIdempotent | autocode.py:79-85 | sanitising a sanitised folder name changes nothing |
| Paths.LastIndexOf | split.py:38 | the last occurrence of a character: nothing of it after the index, absent exactly when missing |
| Paths.PathJoinParts | autocode.py:164 | `os.path.join(a, b)` ends with `b`, and starts with `a` when `b` is relative |
| Paths.Basename | scan.py:48 | the basename has no slash and ends the path |
| Paths.RStripSlashes | scan.py:51 | trailing slashes removed: a prefix of the path that does not end in `/`, and only slashes follow it in the path |
| Paths.Stem | split.py:38 | the stem is a prefix of the name |
| Paths.ScreenshotName | split.py:38-39 | a screenshot name ends in `_screenshot.jpg` |
| Paths.JoinBasename | split.py:38 | the basename of `join(dir, f)` is `f` |
| Paths.JoinDirname | split.py:40 | the dirname of `join(dir, f)` is `dir` |
| Paths.StemOf | split.py:38 | `splitext` of `stem.ext` keeps `stem` |
| Glue.ParseRow | glue.py:76-77 | a parsed row names at least one scene, so a destination exists |
| Glue.ParseRowAsWritten | glue.py:76 | `[int(num.strip()) for num in row]`: succeeds exactly when `int()` accepts every stripped field, and then holds, field by field, the value `int()` gives |
| Glue.ParseRowAgrees | glue.py:76 | for a row whose every field strips to a non-empty digit string, the range-aware parser and the as-written one give the same numbers |
| Glue.BlankFieldDiffers | glue.py:76 | the row `a,,b` makes `int("")` raise, while the range-aware parser reads `a` and `b` |
| Glue.SignedFieldDiffers | glue.py:76 | the field `-d` is read by `int()` as the negative number `-d`, and rejected by the range-aware parser |
| Glue.ConcatList | glue.py:81-88 | every listed file exists in the scenes directory |
| Glue.WriteConcatList | glue.py:81-88 | the loop lists the existing files of the row's scenes, in row order |
| Glue.DeleteSources | glue.py:101-112 | the loop deletes every listed scene file but the destination's |
| Glue.ResultsTree.constructor | glue.py:53 | the tree starts as given |
| Glue.ResultsTree.RemoveScreenshots | glue.py:60-67 | the site's files lose exactly the `scene_<digits>_screenshot.jpg` names; other sites are unchanged |
| Glue.ResultsTree.GlueRow | glue.py:80-114 | the concat list, and the site's files after the success/failure deletion rule |
| Glue.ResultsTree.GlueRows | glue.py:70-114 | the rows applied in order until one raises, as the row function describes |
| Glue.ApplyRows | glue.py:70-114 | when ffmpeg fails on every row from the current one on, the site's files come out as they went in |
| Glue.Captured | glue.py:29-51 | a capture raises exactly when the duration probe is unreadable; otherwise the screenshot is present afterwards exactly when the grab wrote it, and no other file changes |
| Glue.ResultsTree.CaptureMiddleFrame | glue.py:29-51 | one capture on the site's directory: whether it raised, and the site's files after it |
| Glue.ResultsTree.RecaptureScreenshots | glue.py:118-127 | the loop over `os.listdir`'s order of the site's files: every entry but `.DS_Store` that is still a file is captured, up to the first capture that raises |
| Glue.ResultsTree.GlueSite | glue.py:53-127 | for one site: a missing directory raises; otherwise the sweep, the rows, and, unless a row raised, the recapture, which raises when a capture does |
| Glue.ResultsTree.GlueSites | glue.py:53-127 | the sites in order, stopping at the first that raises |
| Glue.ApplyBlank | glue.py:74-75 | an empty row is skipped |
| Glue.AllSitesFrame | glue.py:53-127 | only listed sites change, no directory appears, and a run that finishes had every site |
| Glue.FailedRowKeepsAll | glue.py:113-114 | when ffmpeg fails, no file is deleted |
| Glue.SucceededRow | glue.py:91-112 | when ffmpeg succeeds the destination exists and every other listed scene file is gone |
| Glue.RowKeepsOthers | glue.py:101-112 | a file the row does not name survives the row |
| Glue.MissingSourceSkipped | glue.py:84-87 | a scene file that does not exist is left out of the concat list |
| Glue.ExistingSourceListed | glue.py:84-85 | a listed scene whose file exists is in the concat list |
| Glue.UnnamedFilesSurvive | glue.py:70-112 | over all rows, a file no row names is never deleted |
| Glue.SweepKeepsOthers | glue.py:60-67 | the sweep removes a file exactly when its name matches the screenshot pattern |
| Glue.RecapturedShots | glue.py:118-127 | when every listed entry is a file whose grab is written (or is `.DS_Store`), the recapture does not raise and adds exactly the listed entries' screenshots |
| Glue.UnwrittenShotAbsent | glue.py:38-49 | a screenshot that was not there before and that no grab of the recapture writes is absent afterwards |
| Glue.RecaptureKeeps | glue.py:118-127 | a file that is no listed entry's screenshot is present after the recapture exactly when it was before |
| Glue.RecaptureRaises | glue.py:27-31 | for a listing of the site's files in which no entry is another's screenshot, the recapture raises exactly when some listed entry other than `.DS_Store` has an unreadable duration |
| Glue.FailedGrabLeavesNoShot | glue.py:38-49 | when every grab for a screenshot writes nothing, that screenshot is absent after a recapture that does not raise, even if it was there before |
| Glue.GlueRowRoundTrip | autocode.py:405-409 | with a range-aware parser, a glue line reads back as the base followed by `sorted(set(cont))` |
| Glue.GlueRowExact | autocode.py:405-409 | with a range-aware parser, a glue line of an increasing continuation reads back as the base and exactly that continuation |
| Glue.AsWrittenRejectsRanges | glue.py:76 | the glue line of a base and a run `lo..hi`, with `lo < hi`, is `base,lo-hi`; `int()` on every field rejects it; the range-aware parser reads it |
| Glue.RangeTokenRejected | glue.py:76 | `int("lo-hi")` raises |
| SplitPlan.Find | split.py:75 | `str.find`: absent exactly when the word does not occur; otherwise the word starts there and at no earlier position |
| SplitPlan.FindAt | split.py:75 | a position where the word starts, with no occurrence before it, is what `str.find` returns |
| SplitPlan.BeforeWord | split.py:75 | `s.split(w)[0]`: the text before the first occurrence of `w`; it does not contain `w`, and when `w` occurs it starts right after the result |
| SplitPlan.PtsField | split.py:75 | the text after `pts_time:` up to the first space has no space |
| SplitPlan.PtsFieldOf | split.py:75 | for a line `p + "pts_time:" + t + q` with no marker in `p` or `t`, no space in `t`, and `q` empty or starting with a space, the field read is exactly `t` |
| SplitPlan.Marked | split.py:74 | every kept line holds the marker |
| SplitPlan.ParseTimestamps | split.py:71-76 | the loop returns the timestamps of the marked lines, in order; `None` where `float()` raises |
| SplitPlan.TimestampsOfMarkedLines | subsplit.py:126-131 | the timestamps are, one to one and in order, the `pts_time:` values of the lines holding the marker |
| SplitPlan.NoMarkerNoTimestamps | subsplit.py:129 | a log without the marker yields no timestamp |
| SplitPlan.SplitClips | split.py:78-94 | n timestamps give n+1 clips |
| SplitPlan.PlanSplit | split.py:78-94 | the loop's cut commands are `scene_<i+1>` from the previous timestamp, or 0, to the next, then a copy from the last to the end |
| SplitPlan.SplitContiguous | split.py:78-94 | the clips run back to back from 0: each ends where the next starts, and the last, stream-copied, runs from the last timestamp, or 0, to the end |
| SplitPlan.SplitOutputsDistinct | split.py:81 | no two clips write the same file |
| SplitPlan.SubResults | subsplit.py:134-166 | n timestamps give n+1 result files |
| SplitPlan.SubsplitClips | subsplit.py:136-165 | n timestamps give n+1 clips |
| SplitPlan.PlanSubsplit | subsplit.py:133-169 | the commands, the result files and one screenshot per result file |
| SplitPlan.SubsplitCuts | subsplit.py:143-165 | the loop's cuts and result files for at least one timestamp |
| SplitPlan.SubsplitContiguous | subsplit.py:136-165 | zero timestamps give one copy, `{subsplit}_1.mp4`; otherwise re-encoded cuts back to back from 0 to the probed duration, each writing its result file |
| SplitPlan.Captures | subsplit.py:167-169 | one screenshot per result file |
| SplitPlan.CaptureAll | subsplit.py:167-169 | the loop's screenshot paths, in order |
| SplitPlan.CaptureBeside | subsplit.py:94-96 | the screenshot of `dir/name` is `dir/<stem>_screenshot.jpg` |
| SplitPlan.SubShotName | subsplit.py:94-96 | the screenshot of `{subsplit}_{k}.mp4` is `{subsplit}_{k}_screenshot.jpg` |
| SplitPlan.FindRow | subsplit.py:28-33 | the first row whose site matches, and none exactly when no row matches |
| SplitPlan.DetectionSettings.constructor | subsplit.py:15-16 | the settings start at crawl 10 and diff 0.30 |
| SplitPlan.DetectionSettings.SceneSplitProcess | subsplit.py:35-49 | the settings become the defaults for an unknown site, else the row's crawl and its diff divided by 4 |
| SplitPlan.SettingsIdempotent | subsplit.py:35-49 | running the lookup again for the same site changes nothing |
| SplitPlan.SettingsOfRow | subsplit.py:44-47 | for the first matching row, the crawl is the row's and the diff is `float(diff) / 4` |
| SplitPlan.SettingsFor | subsplit.py:35-49 | a site no row names gets crawl 10 and diff 0.30; when `float()` rejects the row's diff, the crawl is the row's and the diff keeps its old value |
| SplitPlan.SanitizeFilename | subsplit.py:54-55 | the text before the first `?`: a prefix with no `?`, the whole name when there is none |
| SplitPlan.SanitizeIsFirstPiece | subsplit.py:55 | it is `split('?')[0]` |
| SplitPlan.SanitizeIdempotent | subsplit.py:54-55 | sanitising twice is sanitising once |
| SplitPlan.SceneNames | split.py:81 | one clip name per scene |
| SplitPlan.SceneFolder.constructor | split.py:96-97 | the scenes directory starts as given |
| SplitPlan.Captured | split.py:33-54 | a capture raises exactly when the duration probe is unreadable; a written grab adds the screenshot; nothing is removed and no other file changes |
| SplitPlan.SceneFolder.CaptureMiddleFrame | split.py:33-54 | one capture on the scenes directory: whether it raised, and the directory after it |
| SplitPlan.Pruned | split.py:117-131 | the pruning loop removes only files that are listed |
| SplitPlan.SceneFolder.Prune | split.py:117-131 | the loop over the listing: `.DS_Store` is skipped, a name no longer present makes `getsize` raise, clips under 1024 bytes are removed, the others are captured, up to the first call that raises |
| SplitPlan.Folder | split.py:96-129 | a run that raises met a regular file with a guessed type |
| SplitPlan.SceneFolder.ProcessFolder | split.py:96-129 | every regular file wipes the scenes directory; one without a video type leaves it empty; a video is split and pruned; the loop ends at the first call that raises |
| SplitPlan.LastFileDecides | split.py:100-105 | in a run that does not raise, the last regular file of the folder alone decides the scenes directory |
| SplitPlan.NoFilesKeep | split.py:100 | a folder without regular files leaves the scenes directory as it is |
| SplitPlan.ShotIsNoClip | split.py:39 | a screenshot name is never a clip name |
| SplitPlan.PrunedClip | split.py:122-125 | in a run that does not raise, a clip survives exactly when it was there and is listed only with at least 1024 bytes, its size as this video's split left it |
| SplitPlan.PruneRaises | split.py:31-35 | for a duplicate-free listing of the directory, the pruning raises exactly when some listed clip other than `.DS_Store` has at least 1024 bytes and an unreadable duration |
| SplitPlan.PrunedShot | split.py:126-129 | in a run that does not raise, a listed clip of at least 1024 bytes whose grab is written has its screenshot |
| SplitPlan.NewShotWritten | split.py:44-54 | every file the pruning adds is the screenshot of a listed clip whose grab wrote it |
| SplitPlan.KeepsShot | split.py:117-129 | the pruning never deletes a screenshot |
| Scan.Kept | scan.py:18 | every kept character is alphanumeric, a space, `.` or `_` |
| Scan.SanitizeFolderName | scan.py:17-18 | the sanitised name is no longer than the input and does not end in a space |
| Scan.SanitizeFolderNameClean | scan.py:17-18 | the name has only those characters, is an order-preserving subsequence of the input and has no trailing space |
| Scan.SanitizeFolderNameIdempotent | scan.py:17-18 | sanitising twice is sanitising once |
| Scan.Classify | scan.py:25-53 | a row has no video exactly when its video cell is not a non-blank string; it goes on to a present check or a download exactly when it has a video, is primary and its URL is a string holding `.edu`; then the target is `results/<name>/<basename>`, and the row is reported present exactly when that path exists |
| Scan.ClassifyRaises | scan.py:31-38 | the skips and the crash are told apart: not primary exactly for a row with a video whose primary cell is falsy; a `TypeError` exactly for a primary row with a video whose URL cell is not a string; no `.edu` exactly for such a row whose URL is a string without `.edu` |
| Scan.Downloads.constructor | scan.py:13-14 | `results` exists |
| Scan.Downloads.ScanRow | scan.py:24-74 | one row: its action, and only the folder and the downloaded target are added |
| Scan.Downloads.MakeDirs | scan.py:45 | the folder, without trailing slashes, is a directory afterwards; no file changes |
| Scan.Downloads.Download | scan.py:56-74 | the target file exists afterwards exactly when the request succeeded; a failure changes nothing |
| Scan.Downloads.ScanRows | scan.py:24-74 | the rows in order, stopping at a URL that is not a string |
| Scan.ScanFrom | scan.py:24-74 | the run only adds files and directories, and reports one action per row it reaches, at least one for a non-empty sheet |
| Scan.ScanStopsAt | scan.py:24-38 | when row `j` is the first on which line 36 raises, the run reads rows `0..j` only: `j + 1` actions, the last the `TypeError`, none before it |
| Scan.ScanReadsAll | scan.py:24-38 | when no row raises, the run has one action per row and none is a `TypeError` |
| Scan.ScanOnlyAddsTargets | scan.py:48-74 | only download targets are added as files |
| Scan.ScanKeeps | scan.py:24-74 | no file or directory is ever removed |
| Scan.NoRefetch | scan.py:50-53 | after a successful download the same row is only reported present |
| Scan.SlashVideoNeverFetched | scan.py:48-53 | a video URL ending in `/` names the folder itself, which exists, so it is never downloaded |
| Scan.NameHasNoSlash | scan.py:40-41 | the institution folder name has no slash |
| Scan.TargetInResults | scan.py:44-48 | the folder is `results/<name>`, and the target lies under `results/` |
| Labels.NormalizeLabel | analysis/analysis.py:81-88 | none exactly for a missing cell; otherwise every whitespace character is a single space and no two are adjacent |
| Labels.NormalizeWrapped | analysis/analysis.py:81-88 | a clean label wrapped in whitespace, then double quotes, then single quotes (each run possibly empty) normalises to the label itself |
| Labels.StripQuoteAround | analysis/analysis.py:85 | `strip(q)` of a text wrapped in runs of `q`, neither starting nor ending with `q` itself, gives back the text |
| Labels.ParseLabels | analysis/analysis.py:90-92 | a missing cell has no labels |
| Labels.ParseLabelsHas | analysis/analysis.py:90-95 | a label is parsed from a cell exactly when it is non-empty and the normal form of one of the cell's comma-separated tokens |
| Labels.ParsedLabelsClean | analysis/analysis.py:90-95 | every label is non-empty, has no comma and has single spaces for its whitespace |
| Labels.NormalizeClean | analysis/analysis.py:81-88 | a label already in normal form is unchanged |
| Labels.ParseLabelsRoundTrip | analysis/analysis.py:90-95 | the comma join of clean labels parses back to those labels |
| Labels.QuotedSpaceKept | analysis/analysis.py:85 | `' x'` normalises to ` x`: whitespace inside quotes survives at the start |
| Labels.CodeCols | analysis/analysis.py:78 | `code_cols` is sorted, duplicate-free and has exactly the table's values |
| Labels.LabelTable | analysis/analysis.py:56-78 | the table maps each label to itself, and `code_cols` are its values |
| Labels.FoundCodes | analysis/analysis.py:102-106 | a code is collected exactly when some label has it as a non-empty table value |
| Labels.MissingLabels | analysis/analysis.py:102-107 | a label is collected as unknown exactly when the table gives it no non-empty code |
| Labels.MapToCodes | analysis/analysis.py:100-108 | both lists are sorted and duplicate-free; codes are the codes of known labels, unknown are the labels not in the table, and every code is a code column |
| Phase.CeilThird | analysis/phase.py:47 | `ceil(m/3)`: the least `c` with `3c >= m` |
| Phase.AssignPhase | analysis/phase.py:43-49 | the first scene is Early, and from three scenes on the last is Late |
| Phase.Terciles | analysis/phase.py:43-49 | above three scenes: Early iff `i <= ceil(n/3)`, Middle iff `ceil(n/3) < i <= ceil(2n/3)`, else Late |
| Phase.Monotone | analysis/phase.py:43-49 | the phase never goes back as the position advances |
| Phase.Ends | analysis/phase.py:47-49 | from four scenes, the first is Early and the last Late |
| Phase.AllPhasesOccur | analysis/phase.py:45-49 | from three scenes, every phase occurs |
| Phase.CountIn | analysis/phase.py:40 | the count of a domain is at most the number of rows |
| Phase.Position | analysis/phase.py:39 | row `k`'s position in its domain lies between 1 and `k + 1` |
| Phase.PositionBounds | analysis/phase.py:38-40 | every position lies between 1 and the domain's count |
| Phase.PositionsIncrease | analysis/phase.py:39 | later rows of a domain have higher positions |
| Phase.PositionsCover | analysis/phase.py:39-40 | every position from 1 to the count is taken |
| Phase.FirstNumber | analysis/phase.py:29 | the first number of the text, absent exactly when no digit occurs |
| Phase.ParseSceneNumber | analysis/phase.py:24-30 | a parsed scene number is non-negative |
| Phase.ColonIsNoNumber | analysis/phase.py:27-28 | a stripped text with a colon has no scene number |
| Phase.PlainNumber | analysis/phase.py:29-30 | the decimal text of `n` parses as `n` |
| ScenePhase.DigitRuns | analysis/derive_scene_phase.py:42-43 | the parts are non-empty digit strings |
| ScenePhase.Values | analysis/derive_scene_phase.py:45 | one value per part, each the digit value |
| ScenePhase.ParseTimeToSeconds | analysis/derive_scene_phase.py:39-53 | a missing cell has no time |
| ScenePhase.Clock | analysis/derive_scene_phase.py:51-53 | `h:m:s` is `h*3600 + m*60 + s` seconds |
| ScenePhase.MinutesSeconds | analysis/derive_scene_phase.py:48-50 | `m:s` is `m*60 + s` seconds |
| ScenePhase.PlainSeconds | analysis/derive_scene_phase.py:46-47 | a plain number is that many seconds |
| ScenePhase.FractionIgnored | analysis/derive_scene_phase.py:51-53 | `h:m:s.f` reads as `h:m:s`: parts after the third are ignored |
| ScenePhase.ThreeParts | analysis/derive_scene_phase.py:51-53 | with three or more parts, the first three decide |
| ScenePhase.NoDigitsNoTime | analysis/derive_scene_phase.py:41-44 | a text without digits has no time |
| ScenePhase.RemoveChar | analysis/derive_scene_phase.py:58 | the quote is gone and nothing new appears |
| ScenePhase.StripAll | analysis/derive_scene_phase.py:62 | every token stripped |
| ScenePhase.KeepTags | analysis/derive_scene_phase.py:65-70 | exactly the tag-like tokens that are not placeholders are kept |
| ScenePhase.TagsClean | analysis/derive_scene_phase.py:58-70 | every kept tag is stripped, quote-free, tag-like and not a placeholder |
| ScenePhase.CodeTags | analysis/derive_scene_phase.py:58-70 | every kept tag is tag-like and no placeholder |
| ScenePhase.CodeTagsRoundTrip | analysis/derive_scene_phase.py:58-70 | the comma join of plain tags reads back as those tags |
| ScenePhase.Threshold | analysis/derive_scene_phase.py:89-90 | `k/n <= j/3 + 1e-9` holds exactly when `3k <= jn`, for fewer than 10^8 rows |
| ScenePhase.PhaseOf | analysis/derive_scene_phase.py:81-91 | the scene ranked first is early, and from three scenes on the last is late |
| ScenePhase.ExactThirds | analysis/derive_scene_phase.py:88-91 | from three rows: early iff `3k <= n`, middle iff `n < 3k <= 2n`, else late |
| ScenePhase.ScriptsAgree | analysis/derive_scene_phase.py:81-91 | at an equal count `n` below 10^8 and an equal rank, both phase rules agree when `n` is at most three or a multiple of three |
| ScenePhase.ScriptsDisagree | analysis/derive_scene_phase.py:81-91 | for any other count `n` from four up to 10^8, the rank `ceil(n/3)` is Middle here but Early in `analysis/phase.py` |

## Left out

- Every ffmpeg and ffprobe run: scene detection, cutting, concatenation, screenshots, `get_video_duration`, `is_video_corrupted`. Their effects are inputs:
  - the exit status of a glue concatenation;
  - the boundaries scene detection logs;
  - the outcome of each capture (`Paths.Capture`): written, not written, or a duration that `float()` rejects;
  - the order `os.listdir` returns.
- The split commands of `split.py` are taken to write every clip they name (`SplitPlan.SceneNames`). A cut that writes no file is not modelled.
- In `split.py` every entry of the scenes directory is taken to be a regular file, so the `isfile` test of line 127 always holds.
- `subsplit.py`'s screenshots are modelled as the list of paths it captures (`SplitPlan.Captures`), not as capture outcomes.
- `black.py`, which `split.py` runs before pruning. Its floating-point blackdetect threshold is external. Files it would remove are not modelled.
- The vision model calls (`call_openai_vision`, `image_file_to_data_url`, `inference.py`, `pause.py`). These are HTTP and SDK calls; their reply is a parameter.
- The download in `scan.py` (lines 56-74). Whether it succeeds is a parameter. A partially written file on failure is not modelled.
- `urlparse(...).netloc` and `mimetypes.guess_type` are parameters. `parse_domain` in `autocode.py` is an unanchored regex search and is not part of this model.
- Pandas plumbing in every script:
  - `read_excel`, `normalize_columns`, sorting by clip number, `groupby`, `explode`, merges, pivots, `to_csv`.
  - `autocode.py`'s domain loop is modelled per domain, on bases already sorted.
  - Phase positions are taken as given ranks, since `derive_scene_phase.py` ranks tag rows with `rank(method="first")`.
- `Phase.Position`: the sort by (domain, scene number, row order) is not modelled. Positions are numbered in the given row order.
- Floating point.
  - `float()` of a timestamp or a diff is an exact decimal: optional whitespace, an optional sign, digits with at most one `.`, at least one digit.
  - The model rejects the other forms Python's `float()` accepts: an exponent (`1e-05`), `inf`, `infinity`, `nan`, and `_` between digits (`1_0`).
  - The `1/3 + 1e-9` test uses exact rationals.
  - The `str()` of a float in a command line is not modelled.
  - Clip boundaries are compared only as values, never for ordering.
- Unicode. `isalnum`, `lower`, `\d` and `(?i)` are ASCII only. `isspace`, `str.strip()` and `\s` are Python's full whitespace list, Unicode characters included (`Text.IsSpace`).
- Directories are sets of names. Subdirectories inside a scenes directory and race conditions with other processes are not modelled.
- `host_only` and the float `parse_time_to_seconds` of `analysis/analysis.py`.
- The rest of the repository: `second_codes.py`, `analysis/scene_times.py`, `splitfix.py`, `scenereference.py`, `translate.py`, and the CLI and printing code of every script.
- ScenePhase.ExactThirds: proved only below 10^8 rows per institution. There the epsilon `1e-9` cannot move a comparison.
- ScenePhase.ScriptsAgree: proved only below 10^8 rows, for the same reason.
- Labels.NormalizeLabel: is not idempotent in general, as `Labels.QuotedSpaceKept` shows. Idempotence is proved for clean labels only (`Labels.NormalizeClean`).
- Glue.ResultsTree.GlueRows: uses the range-aware row parser (see Findings). The as-written parser is kept beside it, as `Glue.ParseRowAsWritten`. The two differ on three kinds of field:
  - a range `lo-hi`, which `int()` rejects (`Glue.AsWrittenRejectsRanges`);
  - a blank field, as in `7,,9`, which makes `int("")` raise but which the range-aware parser skips (`Glue.BlankFieldDiffers`);
  - a negative number `-7`, which `int()` accepts but the range-aware parser rejects (`Glue.SignedFieldDiffers`).
  On rows whose every field strips to a non-empty digit string the two agree (`Glue.ParseRowAgrees`).
- Text.ParseDecimal: rejects exponents, `inf`, `infinity`, `nan` and `_` between digits, which Python's `float()` accepts.
- Text.ParseInt: rejects `_` between digits (`1_0`), which Python's `int()` accepts. It also rejects non-ASCII decimal digits (Arabic-Indic, fullwidth and the other Unicode `Nd` characters), which `int()` reads as digits.
- Glue.CsvRow: splits on every comma. `csv.reader` also reads quoting: for the quoted field `"7"` it gives `7`, and a quoted comma stays inside its field, while the model keeps the quotes and makes `int()` fail on them. `autocode.py` never writes quotes into `glue.csv`.
- Text.ParseSigned: rejects `_` between digits, as `Text.ParseInt` does.
- SplitPlan.ParseTimestamps: a `pts_time:` value with an exponent, `inf` or `nan` reads as a `float()` error, where Python would parse it.
- SplitPlan.SettingsFor: a `diff` cell with an exponent, `inf`, `nan` or `_` is taken to make `float()` raise, where Python would parse it.
- ScenePhase.ScriptsDisagree: proved only for `n` below 10^8, for the same reason as `ScenePhase.ExactThirds`.

## Findings

| source | as written | input that shows it | evidently intended | confidence | as-written member | corrected member |
|---|---|---|---|---|---|---|
| glue.py:76 | `int(num.strip())` for every comma field of a glue row (`Glue.ParseRowAsWritten`) | the line `7,9-11`, which `autocode.py:407` writes for base 7 with continuation scenes 9, 10 and 11; the fix also changes blank fields (`7,,9`, now skipped, `Glue.BlankFieldDiffers`) and negative fields (`-7`, now rejected, `Glue.SignedFieldDiffers`) | read each field the way `expand_range_str` does, so the row names scenes 7, 9, 10 and 11 | high, not executed | Glue.AsWrittenRejectsRanges | Glue.GlueRowExact |
