/** The batch driver: it validates a request, finds the videos of a directory,
    and converts each one into numbered GIF segments under a directory named after
    the video. The file system and the video library are given as values; what
    the driver does to the outside world (log lines, directories, GIFs, closed
    clips) is recorded in order as effects. */
module VideoProcessing {
  import opened Wrappers
  import opened Text
  import opened Segments
  import FileManager

  /** The patterns of get_video_files, as extensions. */
  const VideoExtensions: seq<string> := [".mp4", ".avi", ".mov", ".mkv", ".wmv", ".flv"]

  /** Where a log message goes: the console, or the callback the caller set. */
  datatype Sink = Console | Callback(id: nat)

  /** A selected region (x, y, width, height) in original frame coordinates. */
  type Region = (int, int, int, int)

  /** What moviepy makes of one video file: its duration, whether cropping it
      raises, and the segment indices at which cutting or writing the GIF raises. */
  datatype Clip = Clip(duration: real, cropFails: bool, cutFails: set<nat>, writeFails: set<nat>)

  /** The paths that exist, the entries of each directory, and the videos
      moviepy can open. */
  datatype FileSystem = FileSystem(existing: set<string>, listings: map<string, seq<string>>, clips: map<string, Clip>)

  /** The entries of a directory; a path that is not a directory lists nothing. */
  function ListingOf(fs: FileSystem, directory: string): seq<string>
  {
    if directory in fs.listings then fs.listings[directory] else []
  }

  /** An exception raised while converting one video. */
  datatype Fault =
    | OpenFailed(path: string)
    | CropFailed
    | DivisionByZero
    | CountMissing
    | CutFailed(segment: nat)
    | WriteFailed(segment: nat)

  /** The ValueErrors process_videos raises to its caller. */
  datatype UsageError = InputMissing(path: string) | NoSplitGiven

  /** The log messages, one constructor per message text. */
  datatype Event =
    | OutputDirMissing(path: string)
    | BothSplitsGiven
    | NoVideosFound
    | VideosFound(count: nat)
    | ProcessingVideo(ordinal: nat, total: nat, name: string)
    | VideoFailed(fault: Fault)
    | StartBeyondDuration(start: real, duration: real)
    | SegmentsPlanned(name: string, count: nat)
    | ProcessingSegment(ordinal: nat, total: nat, start: real, end: real)
    | WritingGif(path: string)
    | SegmentDone(ordinal: nat)
    | VideoDone(name: string)

  /** One thing done to the outside world. */
  datatype Effect =
    | Logged(sink: Sink, event: Event)
    | MadeDir(dir: string)
    | WroteGif(gif: string, video: string, segment: Segment)
    | ClosedClip(clip: string)

  /** What a run did, and the exception it ended with, if any. */
  datatype Attempt<E> = Attempt(effects: seq<Effect>, raised: Option<E>)

  /** The parameters of convert_video_to_gif besides the video. */
  datatype Settings = Settings(
    outputPath: string,
    startTime: real,
    splitDuration: Option<real>,
    splitCount: Option<int>,
    region: Option<Region>)

  /** What the main window guarantees of the settings it passes: a start time of
      at least 0 and a split duration, when given, of more than 0. */
  predicate Admissible(settings: Settings)
  {
    settings.startTime >= 0.0 && (settings.splitDuration.Some? ==> settings.splitDuration.value > 0.0)
  }

  // ---------------------------------------------------------------------------
  // Names
  // ---------------------------------------------------------------------------

  /** os.path.splitext(os.path.basename(video_path))[0]. */
  function VideoName(videoPath: string): string
  {
    Stem(Basename(videoPath))
  }

  function OutputDir(outputPath: string, videoPath: string): string
  {
    Join(outputPath, VideoName(videoPath))
  }

  /** The GIF of the segment with the given index: "<index + 1>.gif". */
  function GifPath(dir: string, index: nat): string
  {
    Join(dir, NatToString(index + 1) + ".gif")
  }

  /** Different segments of one video never share a GIF path. */
  lemma GifPathsDistinct(dir: string, i: nat, j: nat)
    requires i != j
    ensures GifPath(dir, i) != GifPath(dir, j)
  {
    var a, b := NatToString(i + 1) + ".gif", NatToString(j + 1) + ".gif";
    if GifPath(dir, i) == GifPath(dir, j) {
      assert a[0] == NatToString(i + 1)[0] && b[0] == NatToString(j + 1)[0];
      JoinInjective(dir, a, b);
      assert NatToString(i + 1) == a[..|a| - 4] == b[..|b| - 4] == NatToString(j + 1);
      NatToStringInjective(i + 1, j + 1);
    }
  }

  /** The base name of a directory joined with a plain name is that name. */
  lemma {:induction false} BasenameAfterSeparator(prefix: string, name: string)
    requires prefix == [] || prefix[|prefix| - 1] == '/'
    requires '/' !in name
    ensures Basename(prefix + name) == name
    decreases |name|
  {
    if name != [] {
      var init := name[..|name| - 1];
      assert (prefix + name)[..|prefix + name| - 1] == prefix + init;
      BasenameAfterSeparator(prefix, init);
      assert name == init + [name[|name| - 1]];
    } else {
      assert prefix + name == prefix;
    }
  }

  /** Two videos of one directory that differ only in extension get the same
      output directory, so their GIFs overwrite each other. */
  lemma SameStemSharesGifs(directory: string, base: string, ext1: string, ext2: string, outputPath: string, index: nat)
    requires directory != [] && directory[|directory| - 1] != '/'
    requires '/' !in base && exists j :: 0 <= j < |base| && base[j] != '.'
    requires |ext1| >= 1 && ext1[0] == '.' && '.' !in ext1[1..] && '/' !in ext1
    requires |ext2| >= 1 && ext2[0] == '.' && '.' !in ext2[1..] && '/' !in ext2
    ensures VideoName(Join(directory, base + ext1)) == base == VideoName(Join(directory, base + ext2))
    ensures GifPath(OutputDir(outputPath, Join(directory, base + ext1)), index)
      == GifPath(OutputDir(outputPath, Join(directory, base + ext2)), index)
  {
    var j :| 0 <= j < |base| && base[j] != '.';
    assert (base + ext1)[0] != '/' && (base + ext2)[0] != '/';
    assert Join(directory, base + ext1) == (directory + "/") + (base + ext1);
    assert Join(directory, base + ext2) == (directory + "/") + (base + ext2);
    BasenameAfterSeparator(directory + "/", base + ext1);
    BasenameAfterSeparator(directory + "/", base + ext2);
    StemDropsExtension(base, ext1);
    StemDropsExtension(base, ext2);
  }

  /** "in/a.mp4" and "in/a.avi" both write out/a/1.gif. */
  lemma Mp4AndAviCollide()
    ensures GifPath(OutputDir("out", "in/a.mp4"), 0) == GifPath(OutputDir("out", "in/a.avi"), 0) == "out/a/1.gif"
  {
    assert "in/a.mp4" == Join("in", "a" + ".mp4");
    assert "in/a.avi" == Join("in", "a" + ".avi");
    assert "a"[0] != '.';
    SameStemSharesGifs("in", "a", ".mp4", ".avi", "out", 0);
    FirstGifOfA("in/a.mp4");
  }

  /** A video named "a" writes its first GIF to out/a/1.gif. */
  lemma FirstGifOfA(video: string)
    requires VideoName(video) == "a"
    ensures GifPath(OutputDir("out", video), 0) == "out/a/1.gif"
  {
    assert OutputDir("out", video) == "out/a";
    assert NatToString(1) == "1";
  }

  // ---------------------------------------------------------------------------
  // One video
  // ---------------------------------------------------------------------------

  /** The plan for the trimmed clip: by duration when split_duration is given;
      otherwise by count, where a missing count raises (duration / None) and a
      zero count divides by zero. */
  ghost function PlanFor(duration: real, settings: Settings): Result<seq<Segment>, Fault>
    requires Admissible(settings)
  {
    if settings.splitDuration.Some? then Success(DurationPlan(duration, settings.splitDuration.value))
    else if settings.splitCount.None? then Failure(CountMissing)
    else match Plan(duration, ByCount(settings.splitCount.value))
      case Failure(_) => Failure(DivisionByZero)
      case Success(segments) => Success(segments)
  }

  /** Segment i of a plan has index i. */
  lemma PlanIndices(duration: real, settings: Settings)
    requires Admissible(settings) && PlanFor(duration, settings).Success?
    ensures var segments := PlanFor(duration, settings).value;
      forall i :: 0 <= i < |segments| ==> segments[i].index == i
  {
  }

  /** Whether a segment raises, and the exception it raises. */
  predicate Fails(clip: Clip, s: Segment)
  {
    s.index in clip.cutFails || s.index in clip.writeFails
  }

  function FaultOf(clip: Clip, s: Segment): Fault
  {
    if s.index in clip.cutFails then CutFailed(s.index) else WriteFailed(s.index)
  }

  /** One turn of the segment loop: announce, cut, announce the GIF, write it,
      report it done. */
  function SegmentStep(sink: Sink, video: string, dir: string, clip: Clip, s: Segment, total: nat): Attempt<Fault>
  {
    var announce := [Logged(sink, ProcessingSegment(s.index + 1, total, s.start, s.end))];
    if s.index in clip.cutFails then Attempt(announce, Some(CutFailed(s.index)))
    else
      var path := GifPath(dir, s.index);
      var writing := announce + [Logged(sink, WritingGif(path))];
      if s.index in clip.writeFails then Attempt(writing, Some(WriteFailed(s.index)))
      else Attempt(writing + [WroteGif(path, video, s), Logged(sink, SegmentDone(s.index + 1))], None)
  }

  /** The segment loop over a list of segments: nothing catches an exception
      inside it, so the first one ends the loop. */
  function RunSegments(sink: Sink, video: string, dir: string, clip: Clip, segments: seq<Segment>, total: nat)
    : Attempt<Fault>
    decreases |segments|
  {
    if segments == [] then Attempt([], None)
    else
      var before := RunSegments(sink, video, dir, clip, segments[..|segments| - 1], total);
      if before.raised.Some? then before
      else
        var step := SegmentStep(sink, video, dir, clip, segments[|segments| - 1], total);
        Attempt(before.effects + step.effects, step.raised)
  }

  /** convert_video_to_gif once the segments are planned: announce the plan, run
      the loop, and close the clip only when the loop raised nothing. */
  function ConvertPlanned(sink: Sink, video: string, dir: string, clip: Clip, segments: seq<Segment>): Attempt<Fault>
  {
    var planned := [Logged(sink, SegmentsPlanned(VideoName(video), |segments|))];
    var run := RunSegments(sink, video, dir, clip, segments, |segments|);
    if run.raised.Some? then Attempt(planned + run.effects, run.raised)
    else Attempt(planned + run.effects + [ClosedClip(video), Logged(sink, VideoDone(VideoName(video)))], None)
  }

  /** convert_video_to_gif once the clip is open: a start at or past the end
      skips the video without an exception and closes the clip; otherwise trim,
      crop when a region is given, and plan. */
  ghost function ConvertOpened(sink: Sink, video: string, dir: string, clip: Clip, settings: Settings): Attempt<Fault>
    requires Admissible(settings)
  {
    if settings.startTime >= clip.duration then
      Attempt([Logged(sink, StartBeyondDuration(settings.startTime, clip.duration)), ClosedClip(video)], None)
    else if settings.region.Some? && clip.cropFails then Attempt([], Some(CropFailed))
    else match PlanFor(clip.duration - settings.startTime, settings)
      case Failure(fault) => Attempt([], Some(fault))
      case Success(segments) => ConvertPlanned(sink, video, dir, clip, segments)
  }

  /** convert_video_to_gif: the output directory is made before the video is
      opened. */
  ghost function Convert(fs: FileSystem, sink: Sink, video: string, settings: Settings): Attempt<Fault>
    requires Admissible(settings)
  {
    var dir := OutputDir(settings.outputPath, video);
    if video !in fs.clips then Attempt([MadeDir(dir)], Some(OpenFailed(video)))
    else
      var run := ConvertOpened(sink, video, dir, fs.clips[video], settings);
      Attempt([MadeDir(dir)] + run.effects, run.raised)
  }

  /** The loop over one more segment, when the shorter loop raised nothing, is
      one more turn. */
  lemma RunSegmentsSnoc(sink: Sink, video: string, dir: string, clip: Clip, segments: seq<Segment>, k: nat, total: nat)
    requires k < |segments|
    requires RunSegments(sink, video, dir, clip, segments[..k], total).raised.None?
    ensures var step := SegmentStep(sink, video, dir, clip, segments[k], total);
      RunSegments(sink, video, dir, clip, segments[..k + 1], total)
      == Attempt(RunSegments(sink, video, dir, clip, segments[..k], total).effects + step.effects, step.raised)
  {
    assert segments[..k + 1][..k] == segments[..k];
  }

  /** Once the loop over a prefix has raised, the loop over the whole list ends
      the same way. */
  lemma {:induction false} RunSegmentsStops(sink: Sink, video: string, dir: string, clip: Clip,
                                            segments: seq<Segment>, m: nat, total: nat)
    requires m <= |segments|
    requires RunSegments(sink, video, dir, clip, segments[..m], total).raised.Some?
    ensures RunSegments(sink, video, dir, clip, segments, total) == RunSegments(sink, video, dir, clip, segments[..m], total)
    decreases |segments| - m
  {
    if m == |segments| {
      assert segments[..m] == segments;
    } else {
      var init := segments[..|segments| - 1];
      assert init[..m] == segments[..m];
      RunSegmentsStops(sink, video, dir, clip, init, m, total);
    }
  }


  // ---------------------------------------------------------------------------
  // Reading effects
  // ---------------------------------------------------------------------------

  /** The GIF paths written, in order. */
  function Gifs(effects: seq<Effect>): seq<string>
    decreases |effects|
  {
    if effects == [] then []
    else
      var last := effects[|effects| - 1];
      Gifs(effects[..|effects| - 1]) + (if last.WroteGif? then [last.gif] else [])
  }

  /** The names of the videos announced, in order. */
  function Announced(effects: seq<Effect>): seq<string>
    decreases |effects|
  {
    if effects == [] then []
    else
      var last := effects[|effects| - 1];
      Announced(effects[..|effects| - 1])
        + (if last.Logged? && last.event.ProcessingVideo? then [last.event.name] else [])
  }

  /** The exceptions reported for failed videos, in order. */
  function Reported(effects: seq<Effect>): seq<Fault>
    decreases |effects|
  {
    if effects == [] then []
    else
      var last := effects[|effects| - 1];
      Reported(effects[..|effects| - 1]) + (if last.Logged? && last.event.VideoFailed? then [last.event.fault] else [])
  }

  /** Reading the effects of two runs one after the other reads each in turn. */
  lemma ReadingDistributes(a: seq<Effect>, b: seq<Effect>)
    ensures Gifs(a + b) == Gifs(a) + Gifs(b)
    ensures Announced(a + b) == Announced(a) + Announced(b)
    ensures Reported(a + b) == Reported(a) + Reported(b)
  {
    GifsDistribute(a, b);
    AnnouncedDistributes(a, b);
    ReportedDistributes(a, b);
  }

  lemma {:induction false} GifsDistribute(a: seq<Effect>, b: seq<Effect>)
    ensures Gifs(a + b) == Gifs(a) + Gifs(b)
    decreases |b|
  {
    if b == [] {
      assert a + b == a;
    } else {
      assert (a + b)[..|a + b| - 1] == a + b[..|b| - 1];
      GifsDistribute(a, b[..|b| - 1]);
    }
  }

  lemma {:induction false} AnnouncedDistributes(a: seq<Effect>, b: seq<Effect>)
    ensures Announced(a + b) == Announced(a) + Announced(b)
    decreases |b|
  {
    if b == [] {
      assert a + b == a;
    } else {
      assert (a + b)[..|a + b| - 1] == a + b[..|b| - 1];
      AnnouncedDistributes(a, b[..|b| - 1]);
    }
  }

  lemma {:induction false} ReportedDistributes(a: seq<Effect>, b: seq<Effect>)
    ensures Reported(a + b) == Reported(a) + Reported(b)
    decreases |b|
  {
    if b == [] {
      assert a + b == a;
    } else {
      assert (a + b)[..|a + b| - 1] == a + b[..|b| - 1];
      ReportedDistributes(a, b[..|b| - 1]);
    }
  }

  /** An effect of the work on one video: neither an announcement of a video nor
      a report of a failed one. */
  predicate WithinVideo(e: Effect)
  {
    !(e.Logged? && (e.event.ProcessingVideo? || e.event.VideoFailed?))
  }

  /** No effect announces or reports a video. */
  predicate AllWithinVideo(effects: seq<Effect>)
  {
    forall i :: 0 <= i < |effects| ==> WithinVideo(effects[i])
  }

  /** An effect of the segment loop: its log lines and the GIFs it writes. */
  predicate InLoop(e: Effect)
  {
    || e.WroteGif?
    || (e.Logged? && (e.event.ProcessingSegment? || e.event.WritingGif? || e.event.SegmentDone?))
  }

  /** Effects without a written GIF read no GIF; effects within one video read no
      announcement and no report. */
  lemma {:induction false} ReadingNothing(effects: seq<Effect>)
    ensures (forall i :: 0 <= i < |effects| ==> !effects[i].WroteGif?) ==> Gifs(effects) == []
    ensures (forall i :: 0 <= i < |effects| ==> WithinVideo(effects[i])) ==>
      Announced(effects) == [] && Reported(effects) == []
    decreases |effects|
  {
    if effects != [] {
      ReadingNothing(effects[..|effects| - 1]);
    }
  }

  /** The GIF paths of a list of segments, in order. */
  function GifPaths(dir: string, segments: seq<Segment>): (paths: seq<string>)
    ensures |paths| == |segments|
    ensures forall i :: 0 <= i < |segments| ==> paths[i] == GifPath(dir, segments[i].index)
    decreases |segments|
  {
    if segments == [] then []
    else GifPaths(dir, segments[..|segments| - 1]) + [GifPath(dir, segments[|segments| - 1].index)]
  }

  /** dir/1.gif, dir/2.gif, ..., dir/n.gif. */
  function Numbered(dir: string, n: nat): (paths: seq<string>)
    ensures |paths| == n
    ensures forall i :: 0 <= i < n ==> paths[i] == GifPath(dir, i)
  {
    if n == 0 then [] else Numbered(dir, n - 1) + [GifPath(dir, n - 1)]
  }

  // ---------------------------------------------------------------------------
  // What one video does
  // ---------------------------------------------------------------------------

  /** One turn of the loop writes its GIF exactly when the segment does not fail,
      and raises that segment's exception otherwise. */
  lemma SegmentStepOutcome(sink: Sink, video: string, dir: string, clip: Clip, s: Segment, total: nat)
    ensures var step := SegmentStep(sink, video, dir, clip, s, total);
      && Gifs(step.effects) == (if Fails(clip, s) then [] else [GifPath(dir, s.index)])
      && (step.raised.None? <==> !Fails(clip, s))
      && (Fails(clip, s) ==> step.raised == Some(FaultOf(clip, s)))
      && AllInLoop(step.effects)
  {
    var step := SegmentStep(sink, video, dir, clip, s, total);
    var path := GifPath(dir, s.index);
    var announce := Logged(sink, ProcessingSegment(s.index + 1, total, s.start, s.end));
    var writing := Logged(sink, WritingGif(path));
    if s.index in clip.cutFails {
      assert step.effects == [announce];
      ReadingNothing(step.effects);
    } else if s.index in clip.writeFails {
      assert step.effects == [announce, writing];
      ReadingNothing(step.effects);
    } else {
      var done := Logged(sink, SegmentDone(s.index + 1));
      assert step.effects == [announce, writing] + [WroteGif(path, video, s), done];
      WritingOneGif(announce, writing, WroteGif(path, video, s), done);
    }
  }

  /** Two log lines, a written GIF and a log line read as that one GIF. */
  lemma WritingOneGif(first: Effect, second: Effect, wrote: Effect, last: Effect)
    requires !first.WroteGif? && !second.WroteGif? && wrote.WroteGif? && !last.WroteGif?
    ensures Gifs([first, second] + [wrote, last]) == [wrote.gif]
  {
    ReadingNothing([first, second]);
    ReadingNothing([last]);
    GifsDistribute([first, second], [wrote, last]);
    assert [wrote, last] == [wrote] + [last];
    GifsDistribute([wrote], [last]);
    assert [wrote][..0] == [];
  }

  /** The position of the first segment that fails, or the length when none does. */
  function FirstFailure(clip: Clip, segments: seq<Segment>): (j: nat)
    ensures j <= |segments|
    ensures forall i :: 0 <= i < j ==> !Fails(clip, segments[i])
    ensures j < |segments| ==> Fails(clip, segments[j])
    decreases |segments|
  {
    if segments == [] then 0
    else
      var init := segments[..|segments| - 1];
      var j := FirstFailure(clip, init);
      if j < |init| then j else if Fails(clip, segments[|segments| - 1]) then |init| else |segments|
  }

  /** The segment loop writes the GIFs of the segments before the first that
      fails, in order, and raises exactly when some segment fails, with that
      segment's exception. */
  lemma {:induction false} RunSegmentsOutcome(sink: Sink, video: string, dir: string, clip: Clip,
                                              segments: seq<Segment>, total: nat)
    ensures var run := RunSegments(sink, video, dir, clip, segments, total);
      var j := FirstFailure(clip, segments);
      && Gifs(run.effects) == GifPaths(dir, segments[..j])
      && (run.raised.None? <==> j == |segments|)
      && (j < |segments| ==> run.raised == Some(FaultOf(clip, segments[j])))
    decreases |segments|
  {
    if segments == [] {
      assert segments[..0] == [];
    } else {
      var init := segments[..|segments| - 1];
      RunSegmentsOutcome(sink, video, dir, clip, init, total);
      if RunSegments(sink, video, dir, clip, init, total).raised.Some? {
        RunAfterRaise(sink, video, dir, clip, segments, total);
      } else {
        assert init[..|init|] == init;
        RunOneMore(sink, video, dir, clip, segments, total);
      }
    }
  }

  /** Once the segments before the last have raised, the last changes nothing. */
  lemma RunAfterRaise(sink: Sink, video: string, dir: string, clip: Clip, segments: seq<Segment>, total: nat)
    requires segments != []
    requires var init := segments[..|segments| - 1];
      var before := RunSegments(sink, video, dir, clip, init, total);
      var j := FirstFailure(clip, init);
      && before.raised.Some? && j < |init|
      && Gifs(before.effects) == GifPaths(dir, init[..j])
      && before.raised == Some(FaultOf(clip, init[j]))
    ensures var run := RunSegments(sink, video, dir, clip, segments, total);
      var j := FirstFailure(clip, segments);
      && Gifs(run.effects) == GifPaths(dir, segments[..j])
      && j < |segments| && run.raised == Some(FaultOf(clip, segments[j]))
  {
    var init := segments[..|segments| - 1];
    var j := FirstFailure(clip, init);
    assert init[..j] == segments[..j];
    assert init[j] == segments[j];
  }

  /** When the segments before the last raised nothing, the last one's turn
      decides: its GIF is appended when it does not fail, its exception is raised
      when it does. */
  lemma RunOneMore(sink: Sink, video: string, dir: string, clip: Clip, segments: seq<Segment>, total: nat)
    requires segments != []
    requires var init := segments[..|segments| - 1];
      var before := RunSegments(sink, video, dir, clip, init, total);
      && before.raised.None? && FirstFailure(clip, init) == |init|
      && Gifs(before.effects) == GifPaths(dir, init)
    ensures var run := RunSegments(sink, video, dir, clip, segments, total);
      var j := FirstFailure(clip, segments);
      && Gifs(run.effects) == GifPaths(dir, segments[..j])
      && (run.raised.None? <==> j == |segments|)
      && (j < |segments| ==> run.raised == Some(FaultOf(clip, segments[j])))
  {
    var init := segments[..|segments| - 1];
    var s := segments[|segments| - 1];
    var before := RunSegments(sink, video, dir, clip, init, total);
    var step := SegmentStep(sink, video, dir, clip, s, total);
    SegmentStepOutcome(sink, video, dir, clip, s, total);
    GifsDistribute(before.effects, step.effects);
    assert RunSegments(sink, video, dir, clip, segments, total) == Attempt(before.effects + step.effects, step.raised);
    if Fails(clip, s) {
      LastFails(clip, segments);
    } else {
      LastPasses(clip, dir, segments);
    }
  }

  /** When only the last segment fails, it is the first failure. */
  lemma LastFails(clip: Clip, segments: seq<Segment>)
    requires segments != []
    requires FirstFailure(clip, segments[..|segments| - 1]) == |segments| - 1
    requires Fails(clip, segments[|segments| - 1])
    ensures FirstFailure(clip, segments) == |segments| - 1
    ensures segments[..|segments| - 1] == segments[..FirstFailure(clip, segments)]
  {
  }

  /** When no segment fails, the GIFs of all are those of all but the last and
      then the last one's. */
  lemma LastPasses(clip: Clip, dir: string, segments: seq<Segment>)
    requires segments != []
    requires FirstFailure(clip, segments[..|segments| - 1]) == |segments| - 1
    requires !Fails(clip, segments[|segments| - 1])
    ensures FirstFailure(clip, segments) == |segments|
    ensures GifPaths(dir, segments[..|segments|])
      == GifPaths(dir, segments[..|segments| - 1]) + [GifPath(dir, segments[|segments| - 1].index)]
  {
    assert segments[..|segments|] == segments;
  }

  /** Every effect belongs to the segment loop. */
  predicate AllInLoop(effects: seq<Effect>)
  {
    forall i :: 0 <= i < |effects| ==> InLoop(effects[i])
  }

  lemma InLoopConcat(a: seq<Effect>, b: seq<Effect>)
    requires AllInLoop(a) && AllInLoop(b)
    ensures AllInLoop(a + b)
  {
    forall i | 0 <= i < |a + b|
      ensures InLoop((a + b)[i])
    {
      if i >= |a| {
        assert (a + b)[i] == b[i - |a|];
      }
    }
  }

  /** The segment loop only logs segment lines and writes GIFs. */
  lemma {:induction false} RunSegmentsInLoop(sink: Sink, video: string, dir: string, clip: Clip,
                                             segments: seq<Segment>, total: nat)
    ensures AllInLoop(RunSegments(sink, video, dir, clip, segments, total).effects)
    decreases |segments|
  {
    if segments != [] {
      var init := segments[..|segments| - 1];
      var before := RunSegments(sink, video, dir, clip, init, total);
      RunSegmentsInLoop(sink, video, dir, clip, init, total);
      if before.raised.None? {
        var step := SegmentStep(sink, video, dir, clip, segments[|segments| - 1], total);
        SegmentStepOutcome(sink, video, dir, clip, segments[|segments| - 1], total);
        InLoopConcat(before.effects, step.effects);
      }
    }
  }

  /** A planned video writes the GIFs of the segments before the first that
      fails and raises that segment's exception, if any. */
  lemma ConvertPlannedGifs(sink: Sink, video: string, dir: string, clip: Clip, segments: seq<Segment>)
    ensures var a := ConvertPlanned(sink, video, dir, clip, segments);
      var j := FirstFailure(clip, segments);
      && Gifs(a.effects) == GifPaths(dir, segments[..j])
      && (a.raised.None? <==> j == |segments|)
      && (j < |segments| ==> a.raised == Some(FaultOf(clip, segments[j])))
  {
    var name := VideoName(video);
    var planned := [Logged(sink, SegmentsPlanned(name, |segments|))];
    var closing := [ClosedClip(video), Logged(sink, VideoDone(name))];
    var run := RunSegments(sink, video, dir, clip, segments, |segments|);
    RunSegmentsOutcome(sink, video, dir, clip, segments, |segments|);
    ReadingNothing(planned);
    ReadingNothing(closing);
    Bracketed(planned, run.effects, closing);
  }

  /** Effects that write no GIF around a run read as the run's GIFs. */
  lemma Bracketed(planned: seq<Effect>, run: seq<Effect>, closing: seq<Effect>)
    requires Gifs(planned) == [] && Gifs(closing) == []
    ensures Gifs(planned + run) == Gifs(run)
    ensures Gifs(planned + run + closing) == Gifs(run)
  {
    GifsDistribute(planned, run);
    GifsDistribute(planned + run, closing);
  }

  /** A planned video closes its clip exactly when the loop raised nothing, and
      neither announces nor reports a video. */
  lemma ConvertPlannedQuiet(sink: Sink, video: string, dir: string, clip: Clip, segments: seq<Segment>)
    ensures var a := ConvertPlanned(sink, video, dir, clip, segments);
      && (ClosedClip(video) in a.effects <==> a.raised.None?)
      && forall i :: 0 <= i < |a.effects| ==> WithinVideo(a.effects[i])
  {
    var planned := [Logged(sink, SegmentsPlanned(VideoName(video), |segments|))];
    var run := RunSegments(sink, video, dir, clip, segments, |segments|);
    var body := planned + run.effects;
    RunSegmentsInLoop(sink, video, dir, clip, segments, |segments|);
    forall i | 0 <= i < |body|
      ensures !body[i].ClosedClip? && WithinVideo(body[i])
    {
      if i > 0 {
        assert body[i] == run.effects[i - 1];
        assert InLoop(run.effects[i - 1]);
      }
    }
    if run.raised.None? {
      var closing := [ClosedClip(video), Logged(sink, VideoDone(VideoName(video)))];
      var all := body + closing;
      assert all[|body|] == ClosedClip(video);
      forall i | 0 <= i < |all|
        ensures WithinVideo(all[i])
      {
        if i < |body| {
          assert all[i] == body[i];
        }
      }
    } else {
      assert ClosedClip(video) !in body;
    }
  }

  /** A video that opens, starts in time, crops and plans runs the planned
      conversion after making its directory. */
  lemma ConvertIsPlanned(fs: FileSystem, sink: Sink, video: string, settings: Settings)
    requires Admissible(settings) && video in fs.clips
    requires settings.startTime < fs.clips[video].duration
    requires !(settings.region.Some? && fs.clips[video].cropFails)
    requires PlanFor(fs.clips[video].duration - settings.startTime, settings).Success?
    ensures var dir := OutputDir(settings.outputPath, video);
      var clip := fs.clips[video];
      var planned := ConvertPlanned(sink, video, dir, clip, PlanFor(clip.duration - settings.startTime, settings).value);
      Convert(fs, sink, video, settings) == Attempt([MadeDir(dir)] + planned.effects, planned.raised)
  {
  }

  /** When segment i has index i, the GIFs of the first j segments are the
      first j numbered GIFs. */
  lemma IndexedGifPaths(dir: string, segments: seq<Segment>, j: nat)
    requires j <= |segments|
    requires forall i :: 0 <= i < |segments| ==> segments[i].index == i
    ensures GifPaths(dir, segments[..j]) == Numbered(dir, j)
  {
  }

  /** Once its segments are planned, a video writes "1.gif", "2.gif", ... in its
      output directory, one per segment before the first that fails, and raises
      that segment's exception, if any; ConvertIsPlanned puts this run behind
      the making of the directory. */
  lemma PlanWritesNumberedGifs(sink: Sink, video: string, dir: string, clip: Clip, duration: real, settings: Settings)
    requires Admissible(settings) && PlanFor(duration, settings).Success?
    ensures var segments := PlanFor(duration, settings).value;
      var a := ConvertPlanned(sink, video, dir, clip, segments);
      var j := FirstFailure(clip, segments);
      && Gifs(a.effects) == Numbered(dir, j)
      && (a.raised.None? <==> j == |segments|)
      && (j < |segments| ==> a.raised == Some(FaultOf(clip, segments[j])))
  {
    PlanIndices(duration, settings);
    IndexedWritesNumberedGifs(sink, video, dir, clip, PlanFor(duration, settings).value);
  }

  /** Segments indexed 0, 1, 2, ... write "1.gif", "2.gif", ... up to the first
      that fails. */
  lemma IndexedWritesNumberedGifs(sink: Sink, video: string, dir: string, clip: Clip, segments: seq<Segment>)
    requires forall i :: 0 <= i < |segments| ==> segments[i].index == i
    ensures var a := ConvertPlanned(sink, video, dir, clip, segments);
      var j := FirstFailure(clip, segments);
      && Gifs(a.effects) == Numbered(dir, j)
      && (a.raised.None? <==> j == |segments|)
      && (j < |segments| ==> a.raised == Some(FaultOf(clip, segments[j])))
  {
    ConvertPlannedGifs(sink, video, dir, clip, segments);
    IndexedGifPaths(dir, segments, FirstFailure(clip, segments));
  }

  /** With moviepy 2, clip.subclip does not exist, so the first cut raises:
      such a video writes no GIF at all. */
  lemma FirstCutFailingWritesNothing(sink: Sink, video: string, dir: string, clip: Clip, duration: real, settings: Settings)
    requires Admissible(settings) && 0 in clip.cutFails
    requires PlanFor(duration, settings).Success? && PlanFor(duration, settings).value != []
    ensures var a := ConvertPlanned(sink, video, dir, clip, PlanFor(duration, settings).value);
      Gifs(a.effects) == [] && a.raised == Some(CutFailed(0))
  {
    PlanStartsAtZero(duration, settings);
    FirstSegmentFailing(clip, PlanFor(duration, settings).value);
    PlanWritesNumberedGifs(sink, video, dir, clip, duration, settings);
  }

  /** A clip whose every cut and write succeeds writes "1.gif" up to "<n>.gif"
      for its n segments, and the video completes without an exception. */
  lemma CleanClipWritesEveryGif(sink: Sink, video: string, dir: string, clip: Clip, duration: real, settings: Settings)
    requires Admissible(settings) && clip.cutFails == {} && clip.writeFails == {}
    requires PlanFor(duration, settings).Success?
    ensures var segments := PlanFor(duration, settings).value;
      var a := ConvertPlanned(sink, video, dir, clip, segments);
      Gifs(a.effects) == Numbered(dir, |segments|) && a.raised.None?
  {
    PlanWritesNumberedGifs(sink, video, dir, clip, duration, settings);
  }

  /** The first segment of a plan has index 0. */
  lemma PlanStartsAtZero(duration: real, settings: Settings)
    requires Admissible(settings) && PlanFor(duration, settings).Success?
    requires PlanFor(duration, settings).value != []
    ensures PlanFor(duration, settings).value[0].index == 0
  {
    PlanIndices(duration, settings);
  }

  /** A list whose first segment has index 0 and fails to cut fails first. */
  lemma FirstSegmentFailing(clip: Clip, segments: seq<Segment>)
    requires segments != [] && segments[0].index == 0 && 0 in clip.cutFails
    ensures FirstFailure(clip, segments) == 0
    ensures FaultOf(clip, segments[0]) == CutFailed(0)
  {
  }

  /** Every outcome of one video: the directory comes first, the clip is closed
      exactly when nothing was raised, and nothing in it announces or reports a
      video. */
  lemma ConvertQuiet(fs: FileSystem, sink: Sink, video: string, settings: Settings)
    requires Admissible(settings)
    ensures var a := Convert(fs, sink, video, settings);
      && a.effects[0] == MadeDir(OutputDir(settings.outputPath, video))
      && (ClosedClip(video) in a.effects <==> a.raised.None?)
      && AllWithinVideo(a.effects)
  {
    var dir := OutputDir(settings.outputPath, video);
    if video in fs.clips {
      var rest := ConvertOpened(sink, video, dir, fs.clips[video], settings);
      ConvertOpenedQuiet(sink, video, dir, fs.clips[video], settings);
      assert Convert(fs, sink, video, settings) == Attempt([MadeDir(dir)] + rest.effects, rest.raised);
      AfterMadeDir(video, dir, rest);
    }
  }

  /** The work on an open clip closes it exactly when nothing was raised and
      announces or reports no video. */
  lemma ConvertOpenedQuiet(sink: Sink, video: string, dir: string, clip: Clip, settings: Settings)
    requires Admissible(settings)
    ensures var a := ConvertOpened(sink, video, dir, clip, settings);
      && (ClosedClip(video) in a.effects <==> a.raised.None?)
      && AllWithinVideo(a.effects)
  {
    if settings.startTime < clip.duration && !(settings.region.Some? && clip.cropFails) {
      var plan := PlanFor(clip.duration - settings.startTime, settings);
      if plan.Success? {
        ConvertPlannedQuiet(sink, video, dir, clip, plan.value);
      }
    }
  }

  /** Putting the made directory in front keeps both properties. */
  lemma AfterMadeDir(video: string, dir: string, rest: Attempt<Fault>)
    requires ClosedClip(video) in rest.effects <==> rest.raised.None?
    requires AllWithinVideo(rest.effects)
    ensures var effects := [MadeDir(dir)] + rest.effects;
      && (ClosedClip(video) in effects <==> rest.raised.None?)
      && AllWithinVideo(effects)
  {
    var effects := [MadeDir(dir)] + rest.effects;
    assert forall i :: 1 <= i < |effects| ==> effects[i] == rest.effects[i - 1];
  }

  /** A video that cannot be opened, starts too late, fails to crop or cannot be
      planned writes no GIF; of these only the late start is not an exception. */
  lemma ConvertUnplannedWritesNothing(fs: FileSystem, sink: Sink, video: string, settings: Settings)
    requires Admissible(settings)
    requires || video !in fs.clips
             || settings.startTime >= fs.clips[video].duration
             || (settings.region.Some? && fs.clips[video].cropFails)
             || PlanFor(fs.clips[video].duration - settings.startTime, settings).Failure?
    ensures var a := Convert(fs, sink, video, settings);
      && Gifs(a.effects) == []
      && (a.raised.None? <==> video in fs.clips && settings.startTime >= fs.clips[video].duration)
  {
    var dir := OutputDir(settings.outputPath, video);
    var a := Convert(fs, sink, video, settings);
    if video in fs.clips && settings.startTime >= fs.clips[video].duration {
      var clip := fs.clips[video];
      assert a == Attempt([MadeDir(dir), Logged(sink, StartBeyondDuration(settings.startTime, clip.duration)), ClosedClip(video)], None);
    } else {
      assert a.effects == [MadeDir(dir)] && a.raised.Some?;
    }
    ReadingNothing(a.effects);
  }

  // ---------------------------------------------------------------------------
  // The batch
  // ---------------------------------------------------------------------------

  /** What converting each video of a list does, in order. */
  ghost function Outcomes(fs: FileSystem, sink: Sink, videos: seq<string>, settings: Settings): (attempts: seq<Attempt<Fault>>)
    requires Admissible(settings)
  {
    seq(|videos|, i requires 0 <= i < |videos| => Convert(fs, sink, videos[i], settings))
  }

  /** No conversion announces or reports a video. */
  predicate Quiet(attempts: seq<Attempt<Fault>>)
  {
    forall i :: 0 <= i < |attempts| ==> AllWithinVideo(attempts[i].effects)
  }

  lemma OutcomesQuiet(fs: FileSystem, sink: Sink, videos: seq<string>, settings: Settings)
    requires Admissible(settings)
    ensures Quiet(Outcomes(fs, sink, videos, settings))
  {
    forall i | 0 <= i < |videos|
      ensures AllWithinVideo(Outcomes(fs, sink, videos, settings)[i].effects)
    {
      ConvertQuiet(fs, sink, videos[i], settings);
    }
  }

  /** One video of the batch around its conversion: announced first, and
      reported after when it raised. */
  function Framed(sink: Sink, ordinal: nat, total: nat, name: string, a: Attempt<Fault>): seq<Effect>
  {
    [Logged(sink, ProcessingVideo(ordinal, total, name))] + a.effects
      + (if a.raised.Some? then [Logged(sink, VideoFailed(a.raised.value))] else [])
  }

  /** Appending the announcement, the conversion and the report one after
      the other appends the framed conversion. */
  lemma FramedAfter(start: seq<Effect>, sink: Sink, ordinal: nat, total: nat, name: string, a: Attempt<Fault>,
                    announced: seq<Effect>, converted: seq<Effect>, finished: seq<Effect>)
    requires announced == start + [Logged(sink, ProcessingVideo(ordinal, total, name))]
    requires converted == announced + a.effects
    requires finished == converted + (if a.raised.Some? then [Logged(sink, VideoFailed(a.raised.value))] else [])
    ensures finished == start + Framed(sink, ordinal, total, name, a)
  {
  }

  /** The first k videos of the batch, given what converting each one does. */
  function Batch(sink: Sink, videos: seq<string>, attempts: seq<Attempt<Fault>>, k: nat): seq<Effect>
    requires |attempts| == |videos| && k <= |videos|
  {
    if k == 0 then []
    else Batch(sink, videos, attempts, k - 1) + Framed(sink, k, |videos|, Basename(videos[k - 1]), attempts[k - 1])
  }

  /** Appending one more video to the first k extends the batch by one. */
  lemma BatchGrows(sink: Sink, videos: seq<string>, attempts: seq<Attempt<Fault>>, k: nat,
                   start: seq<Effect>, before: seq<Effect>, after: seq<Effect>)
    requires |attempts| == |videos| && k < |videos|
    requires before == start + Batch(sink, videos, attempts, k)
    requires after == before + Framed(sink, k + 1, |videos|, Basename(videos[k]), attempts[k])
    ensures after == start + Batch(sink, videos, attempts, k + 1)
  {
    Associative(start, Batch(sink, videos, attempts, k), Framed(sink, k + 1, |videos|, Basename(videos[k]), attempts[k]));
  }

  lemma Associative(a: seq<Effect>, b: seq<Effect>, c: seq<Effect>)
    ensures (a + b) + c == a + (b + c)
  {
  }

  /** The exception a run ended with, as a list of none or one. */
  function Raised<E>(a: Attempt<E>): seq<E>
  {
    if a.raised.Some? then [a.raised.value] else []
  }

  /** The exceptions of the first k conversions, in order. */
  function Faults(attempts: seq<Attempt<Fault>>, k: nat): seq<Fault>
    requires k <= |attempts|
  {
    if k == 0 then [] else Faults(attempts, k - 1) + Raised(attempts[k - 1])
  }

  /** The base names of a list of paths. */
  function Basenames(paths: seq<string>): (names: seq<string>)
    ensures |names| == |paths|
    ensures forall i :: 0 <= i < |paths| ==> names[i] == Basename(paths[i])
    decreases |paths|
  {
    if paths == [] then [] else Basenames(paths[..|paths| - 1]) + [Basename(paths[|paths| - 1])]
  }

  /** A framed conversion reads as its own announcement, and its own exception
      when it raised. */
  lemma FramedReads(sink: Sink, ordinal: nat, total: nat, name: string, a: Attempt<Fault>)
    requires AllWithinVideo(a.effects)
    ensures Announced(Framed(sink, ordinal, total, name, a)) == [name]
    ensures Reported(Framed(sink, ordinal, total, name, a)) == Raised(a)
  {
    var head := [Logged(sink, ProcessingVideo(ordinal, total, name))];
    var tail := if a.raised.Some? then [Logged(sink, VideoFailed(a.raised.value))] else [];
    ReadingNothing(a.effects);
    ReadingDistributes(head, a.effects);
    ReadingDistributes(head + a.effects, tail);
    assert head[..0] == [];
    if a.raised.Some? {
      assert tail[..0] == [];
    }
  }

  /** A video that raises does not stop the batch: every video is announced, in
      order, and exactly the exceptions raised are reported, in order. */
  lemma {:induction false} BatchIsolatesFailures(sink: Sink, videos: seq<string>, attempts: seq<Attempt<Fault>>, k: nat)
    requires |attempts| == |videos| && k <= |videos| && Quiet(attempts)
    ensures Announced(Batch(sink, videos, attempts, k)) == Basenames(videos[..k])
    ensures Reported(Batch(sink, videos, attempts, k)) == Faults(attempts, k)
  {
    if k == 0 {
      assert videos[..0] == [];
    } else {
      var name := Basename(videos[k - 1]);
      var b := Batch(sink, videos, attempts, k - 1);
      var v := Framed(sink, k, |videos|, name, attempts[k - 1]);
      BatchIsolatesFailures(sink, videos, attempts, k - 1);
      FramedReads(sink, k, |videos|, name, attempts[k - 1]);
      assert Batch(sink, videos, attempts, k) == b + v;
      assert videos[..k][..k - 1] == videos[..k - 1];
      assert Basenames(videos[..k]) == Basenames(videos[..k - 1]) + [name];
      ReadsAppend(b, v, Basenames(videos[..k - 1]), name, Faults(attempts, k - 1), Raised(attempts[k - 1]));
    }
  }

  /** Reading a run extended by one framed conversion. */
  lemma ReadsAppend(b: seq<Effect>, v: seq<Effect>, names: seq<string>, name: string,
                    faults: seq<Fault>, raised: seq<Fault>)
    requires Announced(b) == names && Reported(b) == faults
    requires Announced(v) == [name] && Reported(v) == raised
    ensures Announced(b + v) == names + [name] && Reported(b + v) == faults + raised
  {
    ReadingDistributes(b, v);
  }

  /** The videos found in a directory. */
  function Videos(fs: FileSystem, directory: string): seq<string>
  {
    FileManager.ScanResult(directory, ListingOf(fs, directory), VideoExtensions)
  }

  /** The notice and directory creation for a missing output directory. */
  function Preparation(fs: FileSystem, sink: Sink, outputPath: string): seq<Effect>
  {
    if outputPath in fs.existing then [] else [Logged(sink, OutputDirMissing(outputPath)), MadeDir(outputPath)]
  }

  /** Preparing the output directory announces no video, reports nothing and
      writes no GIF. */
  lemma PreparationReadsNothing(fs: FileSystem, sink: Sink, outputPath: string)
    ensures var prepared := Preparation(fs, sink, outputPath);
      Announced(prepared) == [] && Reported(prepared) == [] && Gifs(prepared) == []
  {
    var prepared := Preparation(fs, sink, outputPath);
    if outputPath !in fs.existing {
      assert prepared == [Logged(sink, OutputDirMissing(outputPath)), MadeDir(outputPath)];
      assert WithinVideo(prepared[0]) && WithinVideo(prepared[1]);
    }
    ReadingNothing(prepared);
  }

  /** The scan and the batch, with the split policy resolved. */
  ghost function Sweep(fs: FileSystem, sink: Sink, inputPath: string, settings: Settings): seq<Effect>
    requires Admissible(settings)
  {
    var videos := Videos(fs, inputPath);
    if videos == [] then [Logged(sink, NoVideosFound)]
    else [Logged(sink, VideosFound(|videos|))] + Batch(sink, videos, Outcomes(fs, sink, videos, settings), |videos|)
  }

  /** The split policy resolved, then the sweep: when both a duration and a
      count are given, the duration wins after a notice. */
  ghost function Resolution(fs: FileSystem, sink: Sink, inputPath: string, settings: Settings): seq<Effect>
    requires Admissible(settings)
  {
    if settings.splitDuration.Some? && settings.splitCount.Some? then
      [Logged(sink, BothSplitsGiven)] + Sweep(fs, sink, inputPath, settings.(splitCount := None))
    else Sweep(fs, sink, inputPath, settings)
  }

  /** process_videos: validate, resolve the split policy, find the videos and
      convert each one, reporting a video's exception and going on. */
  ghost function Process(fs: FileSystem, sink: Sink, inputPath: string, settings: Settings): Attempt<UsageError>
    requires Admissible(settings)
  {
    if inputPath !in fs.existing then Attempt([], Some(InputMissing(inputPath)))
    else
      var prepared := Preparation(fs, sink, settings.outputPath);
      if settings.splitDuration.None? && settings.splitCount.None? then Attempt(prepared, Some(NoSplitGiven))
      else Attempt(prepared + Resolution(fs, sink, inputPath, settings), None)
  }

  /** The notice of the videos found, then the batch, reads as the names of all
      the videos and the exceptions of all their conversions. */
  lemma FoundReads(sink: Sink, videos: seq<string>, attempts: seq<Attempt<Fault>>)
    requires |attempts| == |videos| && Quiet(attempts)
    ensures Announced([Logged(sink, VideosFound(|videos|))] + Batch(sink, videos, attempts, |videos|)) == Basenames(videos)
    ensures Reported([Logged(sink, VideosFound(|videos|))] + Batch(sink, videos, attempts, |videos|)) == Faults(attempts, |videos|)
  {
    var found := [Logged(sink, VideosFound(|videos|))];
    ReadingNothing(found);
    ReadingDistributes(found, Batch(sink, videos, attempts, |videos|));
    BatchIsolatesFailures(sink, videos, attempts, |videos|);
    assert videos[..|videos|] == videos;
  }

  /** The sweep announces every video found and reports every exception a video
      raised. */
  lemma SweepReads(fs: FileSystem, sink: Sink, inputPath: string, settings: Settings)
    requires Admissible(settings)
    ensures var videos := Videos(fs, inputPath);
      && Announced(Sweep(fs, sink, inputPath, settings)) == Basenames(videos)
      && Reported(Sweep(fs, sink, inputPath, settings)) == Faults(Outcomes(fs, sink, videos, settings), |videos|)
  {
    var videos := Videos(fs, inputPath);
    var attempts := Outcomes(fs, sink, videos, settings);
    OutcomesQuiet(fs, sink, videos, settings);
    BatchOrNothingReads(Sweep(fs, sink, inputPath, settings), sink, videos, attempts);
  }

  /** A log that says no video was found, or announces the count and then runs
      the batch, announces and reports what the batch does. */
  lemma BatchOrNothingReads(log: seq<Effect>, sink: Sink, videos: seq<string>, attempts: seq<Attempt<Fault>>)
    requires |attempts| == |videos| && Quiet(attempts)
    requires videos == [] ==> log == [Logged(sink, NoVideosFound)]
    requires videos != [] ==> log == [Logged(sink, VideosFound(|videos|))] + Batch(sink, videos, attempts, |videos|)
    ensures Announced(log) == Basenames(videos)
    ensures Reported(log) == Faults(attempts, |videos|)
  {
    if videos == [] {
      ReadingNothing(log);
    } else {
      FoundReads(sink, videos, attempts);
    }
  }

  /** A request raises only for a missing input or a missing split, and a missing
      input raises before anything is done. */
  lemma ProcessRejects(fs: FileSystem, sink: Sink, inputPath: string, settings: Settings)
    requires Admissible(settings)
    ensures inputPath !in fs.existing ==> Process(fs, sink, inputPath, settings) == Attempt([], Some(InputMissing(inputPath)))
    ensures Process(fs, sink, inputPath, settings).raised.Some? <==>
      inputPath !in fs.existing || (settings.splitDuration.None? && settings.splitCount.None?)
  {
  }

  /** A request without a split raises after only preparing the output directory:
      no video is announced and no GIF is written. */
  lemma NoSplitTouchesNoVideo(fs: FileSystem, sink: Sink, inputPath: string, settings: Settings)
    requires Admissible(settings) && inputPath in fs.existing
    requires settings.splitDuration.None? && settings.splitCount.None?
    ensures var a := Process(fs, sink, inputPath, settings);
      && a == Attempt(Preparation(fs, sink, settings.outputPath), Some(NoSplitGiven))
      && Announced(a.effects) == [] && Gifs(a.effects) == []
  {
    ReadingNothing(Preparation(fs, sink, settings.outputPath));
  }

  /** When both a split duration and a split count are given, the duration wins:
      the run is the run without the count, with one notice after the
      preparation. */
  lemma DurationWins(fs: FileSystem, sink: Sink, inputPath: string, settings: Settings)
    requires Admissible(settings) && inputPath in fs.existing
    requires settings.splitDuration.Some? && settings.splitCount.Some?
    ensures var prepared := Preparation(fs, sink, settings.outputPath);
      var alone := Process(fs, sink, inputPath, settings.(splitCount := None));
      && alone.effects[..|prepared|] == prepared
      && Process(fs, sink, inputPath, settings)
         == Attempt(prepared + [Logged(sink, BothSplitsGiven)] + alone.effects[|prepared|..], alone.raised)
  {
    var prepared := Preparation(fs, sink, settings.outputPath);
    var durationOnly := settings.(splitCount := None);
    var sweep := Sweep(fs, sink, inputPath, durationOnly);
    var notice := [Logged(sink, BothSplitsGiven)];
    assert Resolution(fs, sink, inputPath, durationOnly) == sweep;
    assert Process(fs, sink, inputPath, durationOnly) == Attempt(prepared + sweep, None);
    assert Resolution(fs, sink, inputPath, settings) == notice + sweep;
    assert Process(fs, sink, inputPath, settings) == Attempt(prepared + (notice + sweep), None);
    Spliced(prepared, notice, sweep);
  }

  /** Cutting a run back at the end of its preparation and splicing a notice in. */
  lemma Spliced(prepared: seq<Effect>, notice: seq<Effect>, sweep: seq<Effect>)
    ensures (prepared + sweep)[..|prepared|] == prepared
    ensures prepared + (notice + sweep) == prepared + notice + (prepared + sweep)[|prepared|..]
  {
    assert (prepared + sweep)[|prepared|..] == sweep;
  }

  /** The split policy resolved, then the sweep, reads as the sweep with the
      resolved settings. */
  lemma ResolutionReads(fs: FileSystem, sink: Sink, inputPath: string, settings: Settings)
    requires Admissible(settings)
    ensures var videos := Videos(fs, inputPath);
      var resolved := if settings.splitDuration.Some? then settings.(splitCount := None) else settings;
      && Announced(Resolution(fs, sink, inputPath, settings)) == Basenames(videos)
      && Reported(Resolution(fs, sink, inputPath, settings)) == Faults(Outcomes(fs, sink, videos, resolved), |videos|)
  {
    if settings.splitDuration.Some? && settings.splitCount.Some? {
      var notice := [Logged(sink, BothSplitsGiven)];
      ReadingNothing(notice);
      ReadingDistributes(notice, Sweep(fs, sink, inputPath, settings.(splitCount := None)));
      SweepReads(fs, sink, inputPath, settings.(splitCount := None));
    } else {
      SweepReads(fs, sink, inputPath, settings);
      if settings.splitDuration.Some? {
        assert settings.(splitCount := None) == settings;
      }
    }
  }

  /** A valid request announces every video found, in the sorted order of their
      paths, and reports every exception a video raised. */
  lemma ProcessAnnouncesEveryVideo(fs: FileSystem, sink: Sink, inputPath: string, settings: Settings)
    requires Admissible(settings) && inputPath in fs.existing
    requires settings.splitDuration.Some? || settings.splitCount.Some?
    ensures var videos := Videos(fs, inputPath);
      var resolved := if settings.splitDuration.Some? then settings.(splitCount := None) else settings;
      var a := Process(fs, sink, inputPath, settings);
      && a.raised.None?
      && Announced(a.effects) == Basenames(videos)
      && Reported(a.effects) == Faults(Outcomes(fs, sink, videos, resolved), |videos|)
  {
    var prepared := Preparation(fs, sink, settings.outputPath);
    var resolution := Resolution(fs, sink, inputPath, settings);
    assert Process(fs, sink, inputPath, settings) == Attempt(prepared + resolution, None);
    PreparationReadsNothing(fs, sink, settings.outputPath);
    ReadingDistributes(prepared, resolution);
    ResolutionReads(fs, sink, inputPath, settings);
  }

  // ---------------------------------------------------------------------------
  // The processor
  // ---------------------------------------------------------------------------

  class VideoProcessor {
    var loggerCallback: Option<nat>
    /** Everything done to the outside world so far, in order. */
    var effects: seq<Effect>

    constructor()
      ensures loggerCallback.None? && effects == []
    {
      loggerCallback := None;
      effects := [];
    }

    /** The sink log() writes to. */
    function Route(): Sink
      reads this`loggerCallback
    {
      if loggerCallback.Some? then Callback(loggerCallback.value) else Console
    }

    method SetLoggerCallback(callback: Option<nat>)
      modifies this`loggerCallback
      ensures loggerCallback == callback
      ensures callback.Some? ==> Route() == Callback(callback.value)
      ensures callback.None? ==> Route() == Console
    {
      loggerCallback := callback;
    }

    /** log(): to the callback when one is set, else to the console. */
    method Log(event: Event)
      modifies this`effects
      ensures effects == old(effects) + [Logged(Route(), event)]
    {
      effects := effects + [Logged(Route(), event)];
    }

    /** get_video_files: the visible entries of the directory ending in one of
      the six video extensions, case-sensitively, as sorted paths. */
    method GetVideoFiles(fs: FileSystem, directory: string) returns (videos: seq<string>)
      ensures videos == Videos(fs, directory)
      ensures Sorted(videos)
      ensures forall p :: p in videos <==>
        exists i, k :: 0 <= i < |ListingOf(fs, directory)| && 0 <= k < |VideoExtensions|
          && FileManager.Matches(ListingOf(fs, directory)[i], VideoExtensions[k])
          && p == Join(directory, ListingOf(fs, directory)[i])
    {
      videos := FileManager.GetFilesByExtension(directory, ListingOf(fs, directory), VideoExtensions);
      assert forall k :: 0 <= k < |VideoExtensions| ==>
        FileManager.NormaliseExtension(VideoExtensions[k]) == VideoExtensions[k];
    }

    /** convert_video_to_gif, against Convert. */
    method ConvertVideoToGif(fs: FileSystem, video: string, settings: Settings) returns (raised: Option<Fault>)
      requires Admissible(settings)
      modifies this`effects
      ensures var a := Convert(fs, Route(), video, settings);
        effects == old(effects) + a.effects && raised == a.raised
    {
      var dir := Join(settings.outputPath, VideoName(video));
      effects := effects + [MadeDir(dir)];
      if video !in fs.clips {
        return Some(OpenFailed(video));
      }
      raised := ConvertClip(video, dir, fs.clips[video], settings);
    }

    /** The part of convert_video_to_gif after the clip is opened. */
    method ConvertClip(video: string, dir: string, clip: Clip, settings: Settings) returns (raised: Option<Fault>)
      requires Admissible(settings)
      modifies this`effects
      ensures var a := ConvertOpened(Route(), video, dir, clip, settings);
        effects == old(effects) + a.effects && raised == a.raised
    {
      if settings.startTime >= clip.duration {
        Log(StartBeyondDuration(settings.startTime, clip.duration));
        effects := effects + [ClosedClip(video)];
        return None;
      }
      if settings.region.Some? && clip.cropFails {
        return Some(CropFailed);
      }
      var plan := PlanSegments(clip.duration - settings.startTime, settings);
      if plan.Failure? {
        return Some(plan.error);
      }
      raised := WriteSegments(video, dir, clip, plan.value);
    }

    /** The segment plan of convert_video_to_gif, against PlanFor. */
    static method PlanSegments(duration: real, settings: Settings) returns (plan: Result<seq<Segment>, Fault>)
      requires Admissible(settings)
      ensures plan == PlanFor(duration, settings)
    {
      if settings.splitDuration.Some? {
        var segments := PlanByDuration(duration, settings.splitDuration.value);
        return Success(segments);
      } else if settings.splitCount.None? {
        return Failure(CountMissing);
      }
      var byCount := PlanByCount(duration, settings.splitCount.value);
      if byCount.Failure? {
        return Failure(DivisionByZero);
      }
      return Success(byCount.value);
    }

    /** The rest of convert_video_to_gif once the segments are planned: the
        segment loop, then closing the clip. */
    method WriteSegments(video: string, dir: string, clip: Clip, segments: seq<Segment>) returns (raised: Option<Fault>)
      modifies this`effects
      ensures var a := ConvertPlanned(Route(), video, dir, clip, segments);
        effects == old(effects) + a.effects && raised == a.raised
    {
      ghost var sink := Route();
      var name := VideoName(video);
      ghost var planned := [Logged(sink, SegmentsPlanned(name, |segments|))];
      ghost var run := RunSegments(sink, video, dir, clip, segments, |segments|);
      Log(SegmentsPlanned(name, |segments|));
      raised := SegmentLoop(video, dir, clip, segments);
      assert effects == old(effects) + (planned + run.effects);
      if raised.None? {
        ghost var closing := [ClosedClip(video), Logged(sink, VideoDone(name))];
        effects := effects + [ClosedClip(video)];
        Log(VideoDone(name));
        assert effects == old(effects) + (planned + run.effects + closing);
      }
    }

    /** The segment loop, against RunSegments: the first exception leaves it. */
    method SegmentLoop(video: string, dir: string, clip: Clip, segments: seq<Segment>) returns (raised: Option<Fault>)
      modifies this`effects
      ensures var run := RunSegments(Route(), video, dir, clip, segments, |segments|);
        effects == old(effects) + run.effects && raised == run.raised
    {
      ghost var sink := Route();
      for k := 0 to |segments|
        invariant Route() == sink
        invariant var run := RunSegments(sink, video, dir, clip, segments[..k], |segments|);
          effects == old(effects) + run.effects && run.raised.None?
      {
        ghost var before := effects;
        ghost var run := RunSegments(sink, video, dir, clip, segments[..k], |segments|);
        raised := WriteSegment(video, dir, clip, segments[k], |segments|);
        assert Route() == sink;
        ghost var step := SegmentStep(sink, video, dir, clip, segments[k], |segments|);
        RunSegmentsSnoc(sink, video, dir, clip, segments, k, |segments|);
        Associative(old(effects), run.effects, step.effects);
        if raised.Some? {
          RunSegmentsStops(sink, video, dir, clip, segments, k + 1, |segments|);
          return;
        }
      }
      assert segments[..|segments|] == segments;
      return None;
    }

    /** One turn of the segment loop, against SegmentStep. */
    method WriteSegment(video: string, dir: string, clip: Clip, s: Segment, total: nat) returns (raised: Option<Fault>)
      modifies this`effects
      ensures var step := SegmentStep(Route(), video, dir, clip, s, total);
        effects == old(effects) + step.effects && raised == step.raised
    {
      Log(ProcessingSegment(s.index + 1, total, s.start, s.end));
      if s.index in clip.cutFails {
        return Some(CutFailed(s.index));
      }
      var path := GifPath(dir, s.index);
      Log(WritingGif(path));
      if s.index in clip.writeFails {
        return Some(WriteFailed(s.index));
      }
      effects := effects + [WroteGif(path, video, s)];
      Log(SegmentDone(s.index + 1));
      return None;
    }

    /** process_videos, against Process. */
    method ProcessVideos(fs: FileSystem, inputPath: string, settings: Settings) returns (raised: Option<UsageError>)
      requires Admissible(settings)
      modifies this`effects
      ensures var a := Process(fs, Route(), inputPath, settings);
        effects == old(effects) + a.effects && raised == a.raised
    {
      if inputPath !in fs.existing {
        return Some(InputMissing(inputPath));
      }
      ghost var sink := Route();
      Prepare(fs, settings.outputPath);
      assert Route() == sink;
      if settings.splitDuration.None? && settings.splitCount.None? {
        return Some(NoSplitGiven);
      }
      ghost var prepared := effects;
      Resolve(fs, inputPath, settings);
      assert Route() == sink;
      Associative(old(effects), Preparation(fs, sink, settings.outputPath), Resolution(fs, sink, inputPath, settings));
      raised := None;
    }

    /** The output directory of process_videos: made, with a notice, when it
        does not exist. */
    method Prepare(fs: FileSystem, outputPath: string)
      modifies this`effects
      ensures effects == old(effects) + Preparation(fs, Route(), outputPath)
    {
      if outputPath !in fs.existing {
        Log(OutputDirMissing(outputPath));
        effects := effects + [MadeDir(outputPath)];
      }
    }

    /** The split policy of process_videos, then the sweep. */
    method Resolve(fs: FileSystem, inputPath: string, settings: Settings)
      requires Admissible(settings)
      modifies this`effects
      ensures effects == old(effects) + Resolution(fs, Route(), inputPath, settings)
    {
      ghost var sink := Route();
      if settings.splitDuration.Some? && settings.splitCount.Some? {
        Log(BothSplitsGiven);
        SweepDirectory(fs, inputPath, settings.(splitCount := None));
        assert Route() == sink;
        Associative(old(effects), [Logged(sink, BothSplitsGiven)], Sweep(fs, sink, inputPath, settings.(splitCount := None)));
      } else {
        SweepDirectory(fs, inputPath, settings);
      }
    }

    /** The part of process_videos after validation: find the videos, then
        convert each one. */
    method SweepDirectory(fs: FileSystem, inputPath: string, settings: Settings)
      requires Admissible(settings)
      modifies this`effects
      ensures effects == old(effects) + Sweep(fs, Route(), inputPath, settings)
    {
      ghost var sink := Route();
      var videos := GetVideoFiles(fs, inputPath);
      if videos == [] {
        Log(NoVideosFound);
        return;
      }
      Log(VideosFound(|videos|));
      ConvertAll(fs, videos, settings);
      assert Route() == sink;
      ghost var batch := Batch(sink, videos, Outcomes(fs, sink, videos, settings), |videos|);
      assert Sweep(fs, sink, inputPath, settings) == [Logged(sink, VideosFound(|videos|))] + batch;
      Associative(old(effects), [Logged(sink, VideosFound(|videos|))], batch);
    }

    /** The loop of process_videos: each video is announced and converted, and
        an exception it raises is reported and the loop goes on. */
    method ConvertAll(fs: FileSystem, videos: seq<string>, settings: Settings)
      requires Admissible(settings)
      modifies this`effects
      ensures effects == old(effects) + Batch(Route(), videos, Outcomes(fs, Route(), videos, settings), |videos|)
    {
      ghost var sink := Route();
      ghost var attempts := Outcomes(fs, sink, videos, settings);
      for i := 0 to |videos|
        invariant Route() == sink
        invariant effects == old(effects) + Batch(sink, videos, attempts, i)
      {
        ConvertNext(fs, videos, i, settings, old(effects), attempts);
      }
    }

    /** The loop of process_videos, one video further. */
    method ConvertNext(fs: FileSystem, videos: seq<string>, i: nat, settings: Settings,
                       ghost start: seq<Effect>, ghost attempts: seq<Attempt<Fault>>)
      requires Admissible(settings) && i < |videos|
      requires attempts == Outcomes(fs, Route(), videos, settings)
      requires effects == start + Batch(Route(), videos, attempts, i)
      modifies this`effects
      ensures effects == start + Batch(Route(), videos, attempts, i + 1)
    {
      ghost var sink := Route();
      ghost var before := effects;
      ConvertOne(fs, videos, i, settings);
      assert Route() == sink;
      BatchGrows(sink, videos, attempts, i, start, before, effects);
    }

    /** One turn of the loop of process_videos: announce the video, convert it,
        and log its exception, if any. */
    method ConvertOne(fs: FileSystem, videos: seq<string>, i: nat, settings: Settings)
      requires Admissible(settings) && i < |videos|
      modifies this`effects
      ensures effects == old(effects)
        + Framed(Route(), i + 1, |videos|, Basename(videos[i]), Convert(fs, Route(), videos[i], settings))
    {
      ghost var sink := Route();
      ghost var a := Convert(fs, sink, videos[i], settings);
      var name := Basename(videos[i]);
      Log(ProcessingVideo(i + 1, |videos|, name));
      ghost var announced := effects;
      var fault := ConvertVideoToGif(fs, videos[i], settings);
      assert Route() == sink;
      ghost var converted := effects;
      Report(fault);
      assert Route() == sink;
      FramedAfter(old(effects), sink, i + 1, |videos|, name, a, announced, converted, effects);
    }

    /** The except branch of process_videos: log the exception, if any. */
    method Report(fault: Option<Fault>)
      modifies this`effects
      ensures effects == old(effects) + (if fault.Some? then [Logged(Route(), VideoFailed(fault.value))] else [])
    {
      if fault.Some? {
        Log(VideoFailed(fault.value));
      }
    }
  }
}
