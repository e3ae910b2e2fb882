# videoProcessTools in Dafny

videoProcessTools is a desktop tool. It turns every video in a directory into
numbered GIF segments. The user either picks a start time and a split policy
(a fixed segment duration, or a number of equal segments), and may drag a
rectangle over a preview to crop the output. This project models the core of
that tool and proves what it does:

- **The batch driver** (`core/video_processor.py`, module `VideoProcessing`,
  class `VideoProcessor`). It does the following:
  - validates a request;
  - makes the output directory;
  - resolves the split policy, where the duration wins over the count;
  - finds the videos;
  - converts each video and reports its exception without stopping the batch.

  Converting one video does the following, in order:
  - makes `<output>/<stem>`;
  - opens the clip;
  - skips the clip when the start lies at or past its end;
  - trims and crops the clip;
  - plans the segments;
  - writes `1.gif`, `2.gif`, … one segment after the other;
  - closes the clip.

  The outside world is a value:
  - a `FileSystem` holds the paths that exist, the directory listings and the
    clips moviepy can open;
  - a `Clip` holds its duration and where cropping, cutting or writing
    raises.

  Everything the driver does is recorded in order as `Effect`s: log lines to
  the console or the callback, directories made, GIFs written, clips closed.
  Each method is proved against a specification function: `Convert`,
  `ConvertPlanned`, `RunSegments`, `Process`, `Batch`. What those functions
  promise is then proved about them: which GIFs get written, that a failure
  is isolated, that every video is announced, and so on.
- **The segment planner** (module `Segments`). It covers both branches of
  `convert_video_to_gif`:
  - The by-duration loop advances a cursor by the step.
  - The by-count loop divides once.

  Each loop is a `method` proved equal to a reference plan. The plans are
  proved to tile the trimmed clip.
- **The file scan** (`core/file_manager.py`, module `FileManager`). It
  normalises each extension, globs `*<ext>` in the directory, concatenates
  the matches and sorts them. The supporting text functions (decimal
  strings, string order, insertion sort, POSIX `os.path` helpers) are in
  module `Text`.
- **The logger** (`utils/logger.py`, module `Logging`, class `Logger`). It
  keeps a callback registry that never holds a callback twice. Each entry
  has the form `[<level>] <time>: <message>` and goes to the console and
  then to each callback in registration order.
- **The preview widget** (`ui/video_preview.py`).
  - Module `VideoPreview` holds class `VideoPreviewWidget`. It models the
    video chooser, timer-driven playback, the progress slider, the
    play/stop controls and the rectangle selection dragged with the mouse.
  - Module `PreviewGeometry` holds Qt 5 `QRect` arithmetic, clamping,
    scaling between display and original coordinates, fitting a frame into
    the label, and the `mm:ss / mm:ss` time text.
- Module `Wrappers` holds `Option` and `Result`.

### Where the code and its design description differ

The model follows the code in each case:

- The design description says failures are isolated per video and per
  segment. The code catches only per video (`core/video_processor.py:73-79`).
  An exception in one segment ends that video's segment loop
  (`RunSegments`, `RunSegmentsStops`).
- The design description says the decoder is released before the next file.
  The code closes the clip only on success or on the late-start skip
  (`core/video_processor.py:103`, `157`). A video that raises leaves its clip
  open (`ConvertQuiet`: the clip is closed exactly when nothing was raised).
- The output directory of a video is made before the video is opened
  (`core/video_processor.py:95`). A video that cannot be opened, or that
  starts too late, still gets its directory (`ConvertQuiet`: the first
  effect is always `MadeDir`).
- The design description leaves extension matching open between case
  sensitive and case insensitive. `glob` on POSIX is case sensitive and
  skips hidden entries (`FileManager.Matches`, `FileManager.SampleScan`).

## Model

| member | source | states |
|---|---|---|
| Logging.Entry | utils/logger.py:43 | the entry is `[`, the level, `]`, a space, the time, `: ` and the message: its length, its bracketed level and its trailing message |
| Logging.LevelOfEntry | utils/logger.py:43 | the level reads back from an entry whose level holds no `]` |
| Logging.LevelOf | utils/logger.py:43 | the level of an entry is the text between its leading `[` and the first `]`; `LevelOfEntry` proves it gives the logged level back |
| Logging.EntryDistinguishesLevels | utils/logger.py:43 | entries of different levels differ whatever their time and message |
| Logging.WithCallback | utils/logger.py:22-25 | the registry after `add_callback`: unchanged when the callback is already in it, else the callback appended; `AddKeepsOrder` and `AddIdempotent` state what it keeps |
| Logging.AddKeepsOrder | utils/logger.py:22-25 | adding keeps the registry free of repeats, keeps the old callbacks in order as a prefix, and appends only an absent callback |
| Logging.AddIdempotent | utils/logger.py:22-25 | adding a callback twice gives the registry of adding it once |
| Logging.WithoutCallback | utils/logger.py:27-30 | the registry after `remove_callback`: the first occurrence dropped; `RemoveFirst`, `RemoveKeepsOthers` and `RemoveUndoesAdd` state what it keeps |
| Logging.RemoveFirst | utils/logger.py:27-30 | removing takes out exactly the first occurrence and keeps the rest in order; an absent callback changes nothing |
| Logging.RemoveKeepsOthers | utils/logger.py:27-30 | on a registry without repeats, removal leaves exactly the other callbacks, still without repeats |
| Logging.RemoveUndoesAdd | utils/logger.py:22-30 | removing a callback just added restores the registry |
| Logging.FanOut | utils/logger.py:54-55 | the calls made for one entry, one per registered callback; `FanOutInOrder` and `FanOutOnce` prove them in registration order, each callback once |
| Logging.FanOutInOrder | utils/logger.py:54-55 | the i-th call goes to the i-th callback with the same entry |
| Logging.FanOutOnce | utils/logger.py:54-55 | with a registry without repeats, each registered callback is called exactly once and nothing else is called |
| Logging.Logger.constructor | utils/logger.py:8-15 | a new logger has no callbacks and has written nothing |
| Logging.Logger.AddCallback | utils/logger.py:22-25 | the registry becomes `WithCallback` of the old one, stays free of repeats, and nothing is logged |
| Logging.Logger.RemoveCallback | utils/logger.py:27-30 | the registry becomes `WithoutCallback` of the old one, the callback is no longer in it, and nothing is logged |
| Logging.Logger.Log | utils/logger.py:36-55 | the console gains the entry, and every callback receives it in registration order |
| Logging.Logger.Info | utils/logger.py:57-59 | logs at level INFO |
| Logging.Logger.Warning | utils/logger.py:61-63 | logs at level WARNING |
| Logging.Logger.Error | utils/logger.py:65-67 | logs at level ERROR |
| Logging.Logger.Success | utils/logger.py:69-71 | logs at level SUCCESS |
| Text.NatToString | core/video_processor.py:148 | the decimal text of a number is non-empty and all digits, one digit exactly below 10 |
| Text.DigitsValueOfNatToString | core/video_processor.py:148 | the decimal text of n reads back as n |
| Text.NatToStringInjective | core/video_processor.py:148 | different numbers have different decimal texts |
| Text.StrLe | core/file_manager.py:33 | Python's `<=` on `str`: code point by code point, a prefix first; `StrLeTotal`, `StrLeTransitive` and `StrLeAntisymmetric` prove it a total order |
| Text.StrLeTotal | core/file_manager.py:33 | Python's string order relates any two strings |
| Text.StrLeTransitive | core/file_manager.py:33 | Python's string order is transitive |
| Text.StrLeAntisymmetric | core/file_manager.py:33 | Python's string order is antisymmetric |
| Text.StrLeCommonPrefix | core/file_manager.py:33 | a common prefix does not change the order of two strings |
| Text.Insert | core/file_manager.py:33 | inserting into a sorted list keeps it sorted and adds exactly that element |
| Text.SortStrings | core/file_manager.py:33 | `sorted` returns a sorted permutation of its input |
| Text.SortTwoSwaps | core/file_manager.py:33 | two strings out of order are swapped |
| Text.Join | core/file_manager.py:31 | posixpath `join` of a directory and one name: an absolute name replaces the directory, otherwise one `/` separates them unless the directory ends with one; `JoinInjective` and `JoinEndsWithName` state what it keeps |
| Text.JoinInjective | core/video_processor.py:148 | joining one directory with two relative names gives equal paths only for equal names |
| Text.JoinEndsWithName | core/file_manager.py:31 | a joined path ends with the name joined on |
| Text.Basename | core/video_processor.py:93 | posixpath `basename`; `BasenameIsLastPart` proves it the tail after the last `/` |
| Text.BasenameIsLastPart | core/video_processor.py:93 | the base name holds no `/` and is the tail of the path after its last `/` |
| Text.Stem | core/video_processor.py:93 | `splitext(name)[0]`: the text before the last `.` unless only dots precede it; `StemDropsExtension` proves it drops exactly a one-dot extension |
| Text.StemDropsExtension | core/video_processor.py:93 | `splitext` drops exactly a one-dot extension from a name that is not all dots |
| FileManager.NormaliseExtension | core/file_manager.py:29-30 | the normalised extension starts with `.`, and is the extension itself when it did, else `.` in front |
| FileManager.NormaliseIdempotent | core/file_manager.py:29-30 | normalising is idempotent, and `ext` and `.ext` normalise alike exactly when `ext` has no dot |
| FileManager.Matches | core/file_manager.py:31-32 | whether the pattern `*<ext>` matches an entry: a visible name ending with the extension; `SampleMatches` shows hidden entries skipped and case kept |
| FileManager.GlobMatches | core/file_manager.py:31-32 | one `glob.glob`: the matching entries joined onto the directory, in listing order; `GlobMatchesMembers` and `GlobMatchesLength` state exactly what it holds |
| FileManager.ConcatMatches | core/file_manager.py:27-32 | `files` after the loop: the glob of each normalised extension in turn, repeats kept; `ConcatMatchesMembers` and `ScanLength` state its members and length |
| FileManager.ScanResult | core/file_manager.py:27-33 | `sorted(files)`; `GetFilesByExtension` returns it and states it sorted and holding exactly the visible matches |
| FileManager.GetFilesByExtension | core/file_manager.py:27-33 | the result is sorted and holds exactly the directory joined with each visible entry that ends with one of the normalised extensions; no extensions find nothing |
| FileManager.GlobMatchesMembers | core/file_manager.py:31-32 | one glob holds exactly the joined matching entries |
| FileManager.ConcatMatchesMembers | core/file_manager.py:28-32 | the concatenated globs hold exactly what some extension's glob finds |
| FileManager.FoundPathShape | core/file_manager.py:31-32 | every path found lies directly in the directory and ends with one of the normalised extensions |
| FileManager.ScanLength | core/file_manager.py:27-33 | matches are not deduplicated: the result has one path per entry per matching extension |
| FileManager.RepeatedExtensionRepeatsMatches | core/file_manager.py:28-33 | giving `mp4` and `.mp4` returns each matching path twice |
| FileManager.SampleMatches | core/file_manager.py:31-32 | glob matching skips hidden entries and is case sensitive |
| FileManager.SampleScan | core/file_manager.py:27-33 | a sample directory scanned for `mp4` and `.mov` gives the two visible matches, sorted |
| Segments.ReachIsMultiple | core/video_processor.py:123-126 | the cursor after i full steps by repeated addition is i times the step |
| Segments.SegmentCountIsCeiling | core/video_processor.py:123-127 | the by-duration loop runs ceil(duration / step) times |
| Segments.BelowDurationIffBelowCount | core/video_processor.py:123 | the cursor after k steps is below the duration exactly when k is below the segment count |
| Segments.DurationLoopStep | core/video_processor.py:123-127 | one turn of the by-duration loop appends the reference segment, and the loop goes on exactly while reference segments remain |
| Segments.DurationPlan | core/video_processor.py:117-127 | the reference by-duration plan: segment i spans [i*step, min((i+1)*step, duration)] for i below ceil(duration / step); `PlanByDuration` proves the loop equal to it and `DurationPlanTiles` proves it tiles the clip |
| Segments.CountPlan | core/video_processor.py:128-136 | the reference by-count plan: `count` segments of length duration / count, the last clipped at the duration, none for a negative count; `PlanByCount` proves the loop equal to it and `CountPlanTiles` proves it tiles the clip |
| Segments.Plan | core/video_processor.py:114-136 | the plan of a resolved policy, a zero count failing with ZeroDivisionError; `PlanByDuration` and `PlanByCount` compute it |
| Segments.PlanByDuration | core/video_processor.py:117-127 | the by-duration loop produces the reference plan: segment i spans [i*step, min((i+1)*step, duration)] |
| Segments.PlanByCount | core/video_processor.py:128-136 | the by-count branch fails on a zero count and otherwise produces the reference plan with segment length duration / count |
| Segments.DurationPlanTiles | core/video_processor.py:117-127 | the by-duration plan tiles a positive duration: indices in order, from 0 to the duration, contiguous, each segment non-empty and at most one step long |
| Segments.CountPlanTiles | core/video_processor.py:128-136 | a positive count tiles a positive duration with exactly count equal segments, the last ending at the duration |
| Segments.TilingBounds | core/video_processor.py:114-136 | every segment of a plan lies inside [0, duration] and the ends strictly ascend |
| Segments.StartsAscend | core/video_processor.py:114-136 | the starts of a plan ascend |
| Segments.ShortClipIsOneSegment | core/video_processor.py:117-127 | a clip no longer than one step gives one segment covering it |
| Segments.TwelveSecondsByFive | core/video_processor.py:117-127 | 12 s by 5 s gives [0,5], [5,10], [10,12] |
| Segments.TenSecondsInThree | core/video_processor.py:128-136 | 10 s in 3 gives thirds, the last ending at exactly 10 |
| VideoProcessing.VideoName | core/video_processor.py:93 | `splitext(basename(path))[0]`; `SameStemSharesGifs` and `Mp4AndAviCollide` state which videos share it |
| VideoProcessing.OutputDir | core/video_processor.py:93-94 | the output path joined with the video name; `SameStemSharesGifs` states that it depends on the stem alone |
| VideoProcessing.GifPath | core/video_processor.py:148 | `<index + 1>.gif` inside the output directory; `GifPathsDistinct` proves different segments write different files |
| VideoProcessing.GifPathsDistinct | core/video_processor.py:148 | different segments of one video never share a GIF path |
| VideoProcessing.SameStemSharesGifs | core/video_processor.py:93-94 | two videos of one directory differing only in extension share an output directory and so overwrite each other's GIFs |
| VideoProcessing.Mp4AndAviCollide | core/video_processor.py:93-94 | `in/a.mp4` and `in/a.avi` both write `out/a/1.gif` |
| VideoProcessing.PlanFor | core/video_processor.py:114-136 | the plan of the trimmed clip: by duration when one is given, else a missing count or a zero count raises; `PlanIndices` and `PlanWritesNumberedGifs` are proved of it |
| VideoProcessing.PlanIndices | core/video_processor.py:114-136 | segment i of every plan has index i |
| VideoProcessing.SegmentStep | core/video_processor.py:141-154 | one turn of the segment loop: announce, cut, announce the GIF, write it, report it done, stopping at the step that raises; `SegmentStepOutcome` states when it writes and raises |
| VideoProcessing.RunSegments | core/video_processor.py:141-154 | the segment loop, ended by the first exception; `RunSegmentsOutcome` and `RunSegmentsStops` state what it writes and raises |
| VideoProcessing.SegmentStepOutcome | core/video_processor.py:141-154 | one turn writes its GIF exactly when the segment neither fails to cut nor fails to write, and raises that segment's exception otherwise |
| VideoProcessing.FirstFailure | core/video_processor.py:141-154 | the position of the first failing segment: all before it pass, and it fails |
| VideoProcessing.RunSegmentsOutcome | core/video_processor.py:141-154 | the segment loop writes the GIFs of the segments before the first failing one, in order, and raises exactly when one fails, with its exception |
| VideoProcessing.RunSegmentsStops | core/video_processor.py:141-154 | once the loop has raised, the remaining segments change nothing |
| VideoProcessing.ConvertPlanned | core/video_processor.py:138-158 | the plan notice, the loop, then the clip closed and the video reported done only when nothing raised; `ConvertPlannedGifs`, `ConvertPlannedQuiet` and `PlanWritesNumberedGifs` are proved of it |
| VideoProcessing.ConvertPlannedGifs | core/video_processor.py:138-158 | a planned video writes the GIFs before the first failing segment and raises that segment's exception, if any |
| VideoProcessing.ConvertPlannedQuiet | core/video_processor.py:138-158 | a planned video closes its clip exactly when nothing was raised, and announces or reports no video |
| VideoProcessing.PlanWritesNumberedGifs | core/video_processor.py:115-158 | a planned video writes `1.gif`, `2.gif`, … up to the first failing segment, and raises exactly when a segment fails |
| VideoProcessing.FirstCutFailingWritesNothing | core/video_processor.py:145 | when the first cut raises, the video writes no GIF and raises that cut's exception |
| VideoProcessing.CleanClipWritesEveryGif | core/video_processor.py:141-158 | a clip whose cuts and writes all succeed writes `1.gif` to `<n>.gif` for its n segments and raises nothing |
| VideoProcessing.ConvertOpened | core/video_processor.py:101-158 | with the clip open: a late start is skipped with a notice and the clip closed; a failing crop or plan raises; otherwise the planned run; `ConvertOpenedQuiet` and `ConvertUnplannedWritesNothing` are proved of it |
| VideoProcessing.Convert | core/video_processor.py:93-158 | `convert_video_to_gif`: the output directory is made, a video that does not open raises, otherwise the work on the open clip; `ConvertIsPlanned` and `ConvertQuiet` are proved of it |
| VideoProcessing.ConvertIsPlanned | core/video_processor.py:93-138 | a video that opens, starts in time, crops and plans makes its directory and then runs the planned conversion |
| VideoProcessing.ConvertQuiet | core/video_processor.py:93-158 | every conversion makes its directory first, closes the clip exactly when nothing was raised, and announces or reports no video |
| VideoProcessing.ConvertOpenedQuiet | core/video_processor.py:98-158 | the work on an open clip closes it exactly when nothing was raised |
| VideoProcessing.ConvertUnplannedWritesNothing | core/video_processor.py:95-136 | a video that cannot be opened, starts too late, fails to crop or cannot be planned writes no GIF; only the late start raises nothing |
| VideoProcessing.Outcomes | core/video_processor.py:76-77 | what converting each video of the list does, in order; `OutcomesQuiet` proves none of them announces or reports a video |
| VideoProcessing.OutcomesQuiet | core/video_processor.py:73-79 | no conversion of the batch announces or reports a video itself |
| VideoProcessing.Basenames | core/video_processor.py:75 | the announced names are the base names of the paths, one for one |
| VideoProcessing.Framed | core/video_processor.py:74-79 | one video of the batch: its announcement, its conversion, and a report when it raised; `FramedReads` states how it reads |
| VideoProcessing.FramedReads | core/video_processor.py:74-79 | one framed video reads as its own announcement, plus its exception when it raised |
| VideoProcessing.Batch | core/video_processor.py:73-79 | the first k videos of the batch, each framed, in order; `BatchIsolatesFailures` proves a failure does not stop it |
| VideoProcessing.BatchIsolatesFailures | core/video_processor.py:73-79 | a failing video does not stop the batch: every video is announced in order, and exactly the exceptions raised are reported, in order |
| VideoProcessing.Preparation | core/video_processor.py:52-54 | a notice and the directory made for a missing output directory, nothing otherwise; `PreparationReadsNothing` is proved of it |
| VideoProcessing.PreparationReadsNothing | core/video_processor.py:52-54 | preparing the output directory announces no video, reports nothing and writes no GIF |
| VideoProcessing.Sweep | core/video_processor.py:63-79 | no videos found: one notice; otherwise the count, then the batch; `SweepReads` states how it reads |
| VideoProcessing.SweepReads | core/video_processor.py:63-79 | the sweep announces every video found and reports every exception raised |
| VideoProcessing.Resolution | core/video_processor.py:59-79 | with both splits given, a notice and then the sweep without the count; otherwise the sweep; `ResolutionReads` and `DurationWins` are proved of it |
| VideoProcessing.ResolutionReads | core/video_processor.py:59-79 | after the policy is resolved, the run reads as the sweep with the duration alone when one was given |
| VideoProcessing.Process | core/video_processor.py:36-79 | `process_videos`: a missing input raises, a missing output directory is made, no split raises, otherwise the resolved sweep; `ProcessAnnouncesEveryVideo`, `ProcessRejects` and `NoSplitTouchesNoVideo` are proved of it |
| VideoProcessing.ProcessAnnouncesEveryVideo | core/video_processor.py:36-79 | a valid request raises nothing, announces every video found in sorted path order, and reports each video's exception |
| VideoProcessing.ProcessRejects | core/video_processor.py:49-57 | a request raises exactly for a missing input or when neither split is given, and a missing input raises before anything is done |
| VideoProcessing.NoSplitTouchesNoVideo | core/video_processor.py:52-57 | a request without a split only prepares the output directory and then raises |
| VideoProcessing.DurationWins | core/video_processor.py:59-61 | with both splits given, the run is the duration-only run with one notice after the preparation |
| VideoProcessing.VideoProcessor.constructor | core/video_processor.py:10-11 | a new processor has no callback and has done nothing |
| VideoProcessing.VideoProcessor.Route | core/video_processor.py:17-22 | the sink `log` writes to: the callback when one is set, else the console; `SetLoggerCallback` and `Log` state the routing |
| VideoProcessing.VideoProcessor.SetLoggerCallback | core/video_processor.py:13-15 | later log lines go to the callback, or to the console when there is none |
| VideoProcessing.VideoProcessor.Log | core/video_processor.py:17-22 | appends exactly one log line, routed to the callback when one is set |
| VideoProcessing.VideoProcessor.GetVideoFiles | core/video_processor.py:24-34 | the result is sorted and holds exactly the directory joined with each visible entry ending in one of the six video extensions |
| VideoProcessing.VideoProcessor.ConvertVideoToGif | core/video_processor.py:81-158 | the effects and the exception are those of `Convert` |
| VideoProcessing.VideoProcessor.ConvertClip | core/video_processor.py:98-158 | the work after opening is `ConvertOpened`: skip a late start, fail a crop, plan, run |
| VideoProcessing.VideoProcessor.PlanSegments | core/video_processor.py:114-136 | the plan is `PlanFor`: by duration when given, else a missing count or a zero count raises |
| VideoProcessing.VideoProcessor.WriteSegments | core/video_processor.py:138-158 | the planned run is `ConvertPlanned`: the plan notice, the loop, then close and done only without an exception |
| VideoProcessing.VideoProcessor.SegmentLoop | core/video_processor.py:141-154 | the loop is `RunSegments`: the first exception leaves it |
| VideoProcessing.VideoProcessor.WriteSegment | core/video_processor.py:142-154 | one turn is `SegmentStep` |
| VideoProcessing.VideoProcessor.ProcessVideos | core/video_processor.py:36-79 | the effects and the exception are those of `Process` |
| VideoProcessing.VideoProcessor.Prepare | core/video_processor.py:52-54 | a missing output directory is announced and made |
| VideoProcessing.VideoProcessor.Resolve | core/video_processor.py:59-79 | both splits given: a notice, then the sweep without the count |
| VideoProcessing.VideoProcessor.SweepDirectory | core/video_processor.py:63-79 | no videos: one notice; otherwise the count, then the batch |
| VideoProcessing.VideoProcessor.ConvertAll | core/video_processor.py:73-79 | the loop over the videos is `Batch` of their conversions |
| VideoProcessing.VideoProcessor.ConvertNext | core/video_processor.py:73-79 | one more turn of the loop extends the effects from `Batch` of the first i videos to `Batch` of the first i + 1 |
| VideoProcessing.VideoProcessor.ConvertOne | core/video_processor.py:74-79 | one video is announced, converted and, when it raised, reported |
| VideoProcessing.VideoProcessor.Report | core/video_processor.py:78-79 | an exception is logged, and nothing is logged without one |
| PreviewGeometry.Clamp | ui/video_preview.py:385-386 | `max(lo, min(v, hi))` lies in [lo, hi], and is v when v does |
| PreviewGeometry.ClampToDisplay | ui/video_preview.py:384-386 | a clamped drag point lies inside the displayed image, and a point inside is kept |
| PreviewGeometry.Normalized | ui/video_preview.py:389 | a normalized rectangle has non-negative width and height |
| PreviewGeometry.XYWHRoundTrip | ui/video_preview.py:426-431 | x, y, width and height give back the rectangle they describe |
| PreviewGeometry.DragSelection | ui/video_preview.py:389 | the dragged selection is empty exactly when the drag ends one pixel left of or above its start, and otherwise is the bounding box of the two points |
| PreviewGeometry.SelectionInsideDisplay | ui/video_preview.py:384-389 | a selection between two points of the image lies inside the image |
| PreviewGeometry.Trunc | ui/video_preview.py:427 | Python `int()` of a float truncates toward zero |
| PreviewGeometry.Scale | ui/video_preview.py:427-442 | one component multiplied by the ratio of the sizes and truncated by `int()`; `ScaleIdentity` and `ScaleRoundTripNeverGrows` are proved of `ScaleRect`, which applies it |
| PreviewGeometry.ScaleRect | ui/video_preview.py:421-443 | scaling fails with ZeroDivisionError exactly when a source side is zero |
| PreviewGeometry.ScaleIdentity | ui/video_preview.py:421-443 | scaling between equal sizes gives the rectangle back |
| PreviewGeometry.ScaleRoundTripNeverGrows | ui/video_preview.py:421-443 | scaling to the original and back never enlarges x, y, width or height |
| PreviewGeometry.ScaledSelectionInsideFrame | ui/video_preview.py:421-431 | a selection inside the displayed image scales to a region inside the original frame |
| PreviewGeometry.Fit | ui/video_preview.py:296-306 | the frame scaled to the label keeping its aspect ratio, by height when the label is relatively wider, else by width; `FitInsideLabel` proves it fills the label one way and fits the other |
| PreviewGeometry.Centre | ui/video_preview.py:319-320 | the offsets centring an image in the label, with floor division; `FitInsideLabel` proves they keep the fitted frame inside the label |
| PreviewGeometry.FitInsideLabel | ui/video_preview.py:296-320 | the fitted frame fills the label in one direction, fits in the other, and the centring offsets keep it inside the label |
| PreviewGeometry.DisplayFps | ui/video_preview.py:212-214 | the rate used is the reported one when positive, else 30 |
| PreviewGeometry.MinutesSeconds | ui/video_preview.py:216-221 | `divmod(int(frames / fps), 60)`; `MinutesSecondsSplit` proves seconds in 0..59 and minutes * 60 + seconds the whole seconds |
| PreviewGeometry.MinutesSecondsSplit | ui/video_preview.py:216-221 | seconds lie in 0..59 and minutes*60 + seconds is the whole seconds of frames / fps |
| PreviewGeometry.Pad2 | ui/video_preview.py:223 | `:02d` gives at least two characters, exactly two below 100 |
| PreviewGeometry.Pad2RoundTrip | ui/video_preview.py:223 | a padded field reads back as its number |
| PreviewGeometry.TimeText | ui/video_preview.py:206-224 | `mm:ss / mm:ss` of the position and the total at the rate used; `TimeTextAtDefaultRate` shows a concrete text and `UpdateTimeDisplay` sets it |
| PreviewGeometry.TimeTextAtDefaultRate | ui/video_preview.py:206-224 | at an unknown rate, frame 95 of 3600 shows as `00:03 / 02:00` |
| VideoPreview.RegionOf | ui/video_preview.py:451-462 | no region exactly for an empty selection or no frame; a division by zero exactly for a zero display side |
| VideoPreview.RegionInsideFrame | ui/video_preview.py:451-462 | a selection dragged inside the displayed image gives a region inside the original frame |
| VideoPreview.OverlayAsWritten | ui/video_preview.py:337-339 | the box as drawn: the stored selection scaled from original to display size; `OverlayAsWrittenMisplaced` shows it misplaced |
| VideoPreview.OverlayAsWrittenMisplaced | ui/video_preview.py:337-339 | as written, the box over a 960x540 view of a 1920x1080 video is drawn at half the place the user dragged, while the crop is where they dragged |
| VideoPreview.Overlay | ui/video_preview.py:328-340 | a box is drawn exactly for a non-empty selection |
| VideoPreview.OverlayMatchesCrop | ui/video_preview.py:328-340 | the drawn box lies inside the image and scales to exactly the region cropped |
| VideoPreview.VideoPreviewWidget.constructor | ui/video_preview.py:12-35 | a new widget has no video, slider range 0..100 at 0, `00:00 / 00:00` and disabled controls |
| VideoPreview.VideoPreviewWidget.SetVideoList | ui/video_preview.py:143-153 | the list of videos becomes the one given; an empty list changes nothing else; otherwise the chooser's first item becomes current, and the widget ends as `set_video` leaves it for the first video (`Loaded`) |
| VideoPreview.VideoPreviewWidget.ChangeVideo | ui/video_preview.py:150-153 | an index outside the list changes nothing; otherwise the widget ends as `set_video` leaves it for the chosen video (`Loaded`) |
| VideoPreview.VideoPreviewWidget.Loaded | ui/video_preview.py:155-204 | the state `set_video` leaves, for each of its three outcomes, relative to the state before it |
| VideoPreview.VideoPreviewWidget.SetVideo | ui/video_preview.py:155-204 | `Loaded`: playback stops; a file that does not open keeps the old frame, one that yields no frame keeps the capture at its start with no frame, and both disable the controls and leave the frame total, position, slider, time text and display as they were; otherwise the slider range becomes [min(minimum, total-1), total-1], the position is 0, the time text is set, and the first frame is shown with the slider at 0 |
| VideoPreview.VideoPreviewWidget.ShowFirstFrame | ui/video_preview.py:173-192 | the frame total is taken; the slider range becomes [min(old minimum, total-1), total-1], which is 0..total-1 unless an earlier video reported no frames; the position is 0 and the time text set; for a total of at least 1 the value is 0 and the first frame stays shown |
| VideoPreview.VideoPreviewWidget.RangeSlider | ui/video_preview.py:180-181 | setMaximum(m) then setValue(0): the range becomes [min(old minimum, m), m]; for m >= 0 the value ends at 0 with the first frame still shown and its capture as it was, whatever the slider echoed |
| VideoPreview.VideoPreviewWidget.DisplayFrame | ui/video_preview.py:284-359 | a frame is fitted, centred and shown with the selection box; a missing frame changes nothing |
| VideoPreview.VideoPreviewWidget.UpdateTimeDisplay | ui/video_preview.py:206-224 | the time text is that of the position and the frame total; without a capture it is kept |
| VideoPreview.VideoPreviewWidget.SliderValueChanged | ui/video_preview.py:226-237 | ignored while the slider is moved by playback or without a capture; otherwise seeks, reads, and on a frame shows it at that position |
| VideoPreview.VideoPreviewWidget.SetSliderValue | ui/video_preview.py:267 | the value is bounded to the range, and the handler runs only when the value moves |
| VideoPreview.VideoPreviewWidget.SetSliderMaximum | ui/video_preview.py:180 | the range becomes [min(minimum, m), m] and the value is bounded into it |
| VideoPreview.VideoPreviewWidget.TogglePlay | ui/video_preview.py:239-246 | the timer flips between running and stopped |
| VideoPreview.VideoPreviewWidget.StopVideo | ui/video_preview.py:248-256 | the timer is stopped and the capture released |
| VideoPreview.VideoPreviewWidget.UpdateFrame | ui/video_preview.py:258-282 | a frame read advances the position by one, moves the slider without seeking and shows the frame; at the end the capture rewinds, the position is 0 and the timer stops |
| VideoPreview.VideoPreviewWidget.ShowNextFrame | ui/video_preview.py:262-274 | the position advances by one, the slider follows it and the frame is shown |
| VideoPreview.VideoPreviewWidget.FollowPosition | ui/video_preview.py:266-268 | the slider moves to the position while the capture, frame and position stay as they were |
| VideoPreview.VideoPreviewWidget.Refresh | ui/video_preview.py:270-274 | the time text and the shown frame are brought up to date |
| VideoPreview.VideoPreviewWidget.RewindAtEnd | ui/video_preview.py:275-282 | rewinds to 0, resets the slider, which shows frame 0 only when its value moved, and stops the timer |
| VideoPreview.VideoPreviewWidget.MousePress | ui/video_preview.py:361-376 | a left press inside the displayed image starts a new selection there and clears the old one; any other press changes nothing |
| VideoPreview.VideoPreviewWidget.MouseMove | ui/video_preview.py:378-393 | while selecting, the clamped point ends the selection and the frame is redrawn; otherwise nothing changes |
| VideoPreview.VideoPreviewWidget.MouseRelease | ui/video_preview.py:395-419 | a left release while selecting ends the selection at the clamped point and redraws a non-empty one; otherwise nothing changes |
| VideoPreview.VideoPreviewWidget.ResetSelection | ui/video_preview.py:445-449 | the selection is cleared and the frame redrawn without a box |
| VideoPreview.VideoPreviewWidget.SelectedRegion | ui/video_preview.py:451-462 | no region exactly for an empty selection or no frame |

## Left out

- Decoding, trimming, cropping and GIF encoding by moviepy are left out. A `Clip` records only its duration and where cropping, cutting or writing raises. The region and the 10 fps output rate are not part of a written GIF's record.
- OpenCV decoding is left out. A capture is the list of its frame sizes, the frame rate it reports and the frame count it reports. Pixels, colour conversion and resizing are not modelled.
- Qt painting, layout, styles and widget enabling beyond one `controlsEnabled` flag are left out. The preview label keeps the size it was built with.
- The text of the status label after a failed load (`ui/video_preview.py:201`) is left out.
- The combo-box sync after loading (`ui/video_preview.py:194-198`) is left out.
- The `print` of the selection on release (`ui/video_preview.py:416`) is left out.
- The button texts are left out.
- The timer's 33 ms period is left out; the timer is a flag and each tick is one call of `UpdateFrame`.
- The clock is a parameter: `Logging.Logger.Log` takes the formatted time.
- The optional log file of `Logger` (`utils/logger.py:18-20`, `49-51`) is not modelled: console and callbacks only.
- Log messages are `Event` constructors carrying their data, not their Chinese text. The `.1f` formatting of segment times is not modelled.
- Durations are exact reals, not IEEE doubles. Rounding in the repeated addition of the by-duration cursor, and in `duration / split_count`, is not modelled.
- VideoProcessing.VideoProcessor.ProcessVideos: requires a start time of at least 0 and, when given, a split duration above 0. The main window's inputs guarantee both. With a split duration of 0 or less the by-duration loop of the source never ends.
- FileManager.GetFilesByExtension: glob metacharacters (`*`, `?`, `[`) in the directory or in an extension are taken literally. The source's `glob` treats them as a pattern, so for a directory named `in[1]` it searches `in1`, or nothing. The six video extensions contain none.
- VideoProcessing.VideoProcessor.GetVideoFiles: the same. A directory holding `*`, `?` or `[` is listed as itself, not matched as a pattern.
- FileManager.GetFilesByExtension: a directory ending in two or more `/` is joined as written (`in//b.mp4`), while `glob` returns `in/b.mp4`. One trailing `/` is handled as the source does.
- FileManager.GetFilesByExtension: only POSIX path rules are modelled. Windows rules are not: `\` as a separator, drive letters, and the case-insensitive matching of `glob` there. `Text.Join`, `Text.Basename` and `Text.Stem` are the posixpath functions, and `FileManager.Matches` is case sensitive.
- Text.Join: POSIX `os.path.join` only; the Windows joining of `ntpath` (`\` separators, drive letters) is not modelled.
- VideoProcessing.VideoProcessor.Prepare: `os.makedirs` is taken to succeed. In the source it raises when the path is an existing file or cannot be written, and at `core/video_processor.py:54` that ends `process_videos`. `VideoProcessing.Process` and `VideoProcessing.VideoProcessor.ProcessVideos` share this gap.
- VideoProcessing.VideoProcessor.ConvertVideoToGif: the output directory of a video is always made. In the source a failing `os.makedirs` at `core/video_processor.py:95` raises, and the exception is caught and reported per video at lines 78-79. `VideoProcessing.Convert` shares this gap.
- A directory that is missing or not a directory lists nothing, as `glob` does.
- Callbacks are values compared by equality, as Python's `in` and `list.remove` compare them.
- A callback that raises is not modelled; it would stop the fan-out in the source.
- VideoPreview.VideoPreviewWidget.SetVideo: for a video whose reported frame count is below 1, only the range, the position, the time text and the enabled controls are stated. The frame shown then depends on Qt's echo of the slider.
- VideoPreview.VideoPreviewWidget.ChangeVideo: the same gap as `SetVideo`, which it shares through `Loaded`.
- VideoPreview.VideoPreviewWidget.SetVideoList: the same gap as `SetVideo`, which it shares through `Loaded`.
- VideoPreview.VideoPreviewWidget.DisplayFrame: draws the corrected overlay, the selection as stored (see Findings), rather than the rescaled one.
- The worker thread and the main window that call this core are not part of this model, nor are `FileManager.ensure_directory` and `clean_directory`.

## Findings

| source | as written | input that shows it | evidently intended | confidence | as-written member | corrected member |
|---|---|---|---|---|---|---|
| core/video_processor.py:145 | each segment is cut with `clip.subclip(seg_start, seg_end)`. The clip comes from moviepy 2 (`from moviepy import VideoFileClip`, and `subclipped` at line 107), and moviepy 2 has no `subclip`, so the first cut raises | any video that opens, starts before its end and plans at least one segment: no GIF is written and the video is reported as failed | `clip.subclipped(seg_start, seg_end)`, writing `1.gif` … `<n>.gif` | high; not executed | VideoProcessing.FirstCutFailingWritesNothing | VideoProcessing.CleanClipWritesEveryGif |
| core/video_processor.py:112 | a region is cropped with `clip.crop(...)` on a moviepy 2 clip. moviepy 2 renamed it `cropped`, so the crop raises before any segment is planned | any video that opens and starts before its end, with a region selected: no GIF is written and the video is reported as failed | `clip.cropped(x1=x, y1=y, x2=x + width, y2=y + height)`, after which the planned conversion runs | high; not executed | VideoProcessing.ConvertUnplannedWritesNothing | VideoProcessing.ConvertIsPlanned |
| ui/video_preview.py:337-339 | the selection box is scaled from original to display coordinates, but the drag handlers store the selection in display coordinates already | a 1920x1080 video shown at 960x540, dragged from (100, 100) to (299, 199): the box is drawn at (50, 50)–(149, 99), while the crop is (200, 200, 400, 200) in the original, which is where the user dragged | draw the selection as stored | high; not executed | VideoPreview.OverlayAsWrittenMisplaced | VideoPreview.OverlayMatchesCrop |
