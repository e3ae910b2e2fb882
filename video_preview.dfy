/** The preview widget: the video chooser, playback driven by a timer, a slider
    that follows the playback position and seeks when moved, and a rectangle
    selection dragged over the displayed frame. OpenCV captures are modelled by
    the frames they would decode; Qt's slider is modelled by its minimum, maximum
    and value, with valueChanged delivered to the widget's own handler. */
module VideoPreview {
  import opened Wrappers
  import opened PreviewGeometry

  /** A video as OpenCV decodes it: the size of each frame in order, the frame
      rate it reports and the frame count it reports. */
  datatype Footage = Footage(frames: seq<Size>, fps: real, frameCount: int)

  predicate ValidFootage(f: Footage)
  {
    forall i :: 0 <= i < |f.frames| ==> Positive(f.frames[i])
  }

  /** A cv2.VideoCapture: its footage, whether it opened, and the index of the
      frame the next read returns. */
  datatype Capture = Capture(footage: Footage, isOpen: bool, next: int)

  /** The capture of a file OpenCV cannot open. */
  const Unopened: Capture := Capture(Footage([], 0.0, 0), false, 0)

  /** cap.read(): the next frame, or none at the end or on an unopened capture. */
  function Read(c: Capture): (Option<Size>, Capture)
  {
    if c.isOpen && 0 <= c.next < |c.footage.frames| then (Some(c.footage.frames[c.next]), c.(next := c.next + 1))
    else (None, c)
  }

  /** cap.set(CAP_PROP_POS_FRAMES, position). */
  function Seek(c: Capture, position: int): Capture
  {
    if c.isOpen then c.(next := position) else c
  }

  /** cap.get(CAP_PROP_FPS); an unopened capture reports 0. */
  function Fps(c: Capture): real
  {
    if c.isOpen then c.footage.fps else 0.0
  }

  datatype Button = LeftButton | OtherButton

  /** What get_selected_region returns: nothing for an empty selection or when no
      frame is loaded, else the selection in original coordinates as
      (x, y, width, height). */
  function RegionOf(selection: Rect, hasFrame: bool, display: Size, original: Size)
    : (r: Result<Option<(int, int, int, int)>, ScaleError>)
    ensures r == Success(None) <==> IsEmpty(selection) || !hasFrame
    ensures r.Failure? <==> !IsEmpty(selection) && hasFrame && (display.width == 0 || display.height == 0)
  {
    if IsEmpty(selection) || !hasFrame then Success(None)
    else match ScaleRect(selection, display, original)
      case Failure(e) => Failure(e)
      case Success(o) => Success(Some((o.x1, o.y1, Width(o), Height(o))))
  }

  /** A selection dragged inside the displayed image gives a region inside the
      original frame. */
  lemma RegionInsideFrame(start: Point, current: Point, display: Size, original: Size)
    requires Positive(display) && Positive(original)
    requires 0 <= start.x < display.width && 0 <= start.y < display.height
    requires 0 <= current.x < display.width && 0 <= current.y < display.height
    requires current.x != start.x - 1 && current.y != start.y - 1
    ensures var r := RegionOf(Normalized(FromPoints(start, current)), true, display, original);
      && r.Success? && r.value.Some?
      && var (x, y, w, h) := r.value.value;
      0 <= x && 0 <= w && x + w <= original.width && 0 <= y && 0 <= h && y + h <= original.height
  {
    var selection := Normalized(FromPoints(start, current));
    DragSelection(start, current);
    SelectionInsideDisplay(start, current, display);
    ScaledSelectionInsideFrame(selection, display, original);
  }

  /** The rectangle display_frame draws over the frame, as written: the selection
      is scaled from original to display coordinates, although the drag handlers
      store it in display coordinates already. */
  function OverlayAsWritten(selection: Rect, original: Size, display: Size): Result<Rect, ScaleError>
  {
    ScaleRect(selection, original, display)
  }

  /** A 1920x1080 video shown at 960x540: the box dragged over display pixels
      (100, 100) to (299, 199) is drawn at (50, 50) to (149, 99), while the region
      cropped is (200, 200, 400, 200) in the original, which is where the user
      dragged. */
  lemma OverlayAsWrittenMisplaced()
    ensures var selection := FromXYWH(100, 100, 200, 100);
      && OverlayAsWritten(selection, Size(1920, 1080), Size(960, 540)) == Success(FromXYWH(50, 50, 100, 50))
      && OverlayAsWritten(selection, Size(1920, 1080), Size(960, 540)) != Success(selection)
      && RegionOf(selection, true, Size(960, 540), Size(1920, 1080)) == Success(Some((200, 200, 400, 200)))
  {
    assert 100 as real * (960 as real / 1920 as real) == 50.0;
    assert 200 as real * (960 as real / 1920 as real) == 100.0;
    assert 100 as real * (540 as real / 1080 as real) == 50.0;
    assert 100 as real * (1920 as real / 960 as real) == 200.0;
    assert 200 as real * (1920 as real / 960 as real) == 400.0;
    assert 100 as real * (1080 as real / 540 as real) == 200.0;
  }

  /** The rectangle drawn over the frame: the selection itself, which is in the
      coordinates of the displayed image; nothing for an empty selection. */
  function Overlay(selection: Rect): (r: Option<Rect>)
    ensures r.None? <==> IsEmpty(selection)
  {
    if IsEmpty(selection) then None else Some(selection)
  }

  /** The box drawn over a dragged selection lies inside the displayed image, and
      scaled to the original it is exactly the region that will be cropped. The
      as-written overlay agrees with it only when nothing is scaled. */
  lemma OverlayMatchesCrop(start: Point, current: Point, display: Size, original: Size)
    requires Positive(display) && Positive(original)
    requires 0 <= start.x < display.width && 0 <= start.y < display.height
    requires 0 <= current.x < display.width && 0 <= current.y < display.height
    ensures var selection := Normalized(FromPoints(start, current));
      && (Overlay(selection).Some? ==>
            var box := Overlay(selection).value;
            && 0 <= box.x1 && box.x2 < display.width && 0 <= box.y1 && box.y2 < display.height
            && var o := ScaleRect(box, display, original).value;
            RegionOf(selection, true, display, original) == Success(Some((o.x1, o.y1, Width(o), Height(o)))))
      && (display == original ==> OverlayAsWritten(selection, original, display) == Success(selection))
  {
    SelectionInsideDisplay(start, current, display);
    if display == original {
      ScaleIdentity(Normalized(FromPoints(start, current)), display);
    }
  }

  class VideoPreviewWidget {
    /** The size of the preview label; its layout is not modelled, so it stays
        as it was at construction. */
    const labelSize: Size
    var videos: seq<string>
    var videoPath: Option<string>
    var cap: Option<Capture>
    var frame: Option<Size>
    var timerActive: bool
    var selecting: bool
    var selectionRect: Rect
    var startPoint: Point
    var currentPoint: Point
    var currentFramePosition: int
    var totalFrames: int
    var isSliderUpdating: bool
    var sliderMinimum: int
    var sliderMaximum: int
    var sliderValue: int
    var displayOffset: Point
    var displaySize: Size
    var originalSize: Size
    var overlay: Option<Rect>
    var timeText: string
    var controlsEnabled: bool

    /** What holds at every point of the widget's life, except that the slider
        value may lie outside a range that was just changed. */
    predicate Sound()
      reads this
    {
      && labelSize.height >= 300 && labelSize.width >= 0
      && (cap.Some? ==> ValidFootage(cap.value.footage))
      && (frame.Some? ==> Positive(frame.value))
      && sliderMinimum <= 0 && sliderMinimum <= sliderMaximum
    }

    /** What holds at every point of the widget's life. */
    predicate Valid()
      reads this
    {
      Sound() && sliderMinimum <= sliderValue <= sliderMaximum
    }

    /** Between two events: valid, and not inside update_frame's slider update. */
    predicate Idle()
      reads this
    {
      Valid() && !isSliderUpdating
    }

    /** The label shows frame f: the fitted size, the centring offsets, the
        frame's own size and the box drawn over the selection. */
    predicate Shows(f: Size)
      reads this
      requires Positive(f) && labelSize.height > 0 && labelSize.width >= 0
    {
      && displaySize == Fit(labelSize, f)
      && displayOffset == Centre(labelSize, displaySize)
      && originalSize == f
      && overlay == Overlay(selectionRect)
    }

    constructor(labelSize: Size)
      requires labelSize.height >= 300 && labelSize.width >= 0
      ensures Idle()
      ensures this.labelSize == labelSize
      ensures videos == [] && videoPath.None? && cap.None? && frame.None?
      ensures !timerActive && !selecting && selectionRect == NullRect
      ensures currentFramePosition == 0 && totalFrames == 0
      ensures sliderMinimum == 0 && sliderMaximum == 100 && sliderValue == 0
      ensures timeText == "00:00 / 00:00" && !controlsEnabled
    {
      this.labelSize := labelSize;
      videos := [];
      videoPath := None;
      cap := None;
      frame := None;
      timerActive := false;
      selecting := false;
      selectionRect := NullRect;
      startPoint := Point(0, 0);
      currentPoint := Point(0, 0);
      currentFramePosition := 0;
      totalFrames := 0;
      isSliderUpdating := false;
      sliderMinimum := 0;
      sliderMaximum := 100;
      sliderValue := 0;
      displayOffset := Point(0, 0);
      displaySize := Size(0, 0);
      originalSize := Size(0, 0);
      overlay := None;
      timeText := "00:00 / 00:00";
      controlsEnabled := false;
    }

    /** set_video_list: store the list and refill the chooser, whose
        currentIndexChanged is connected to change_video. Clearing it emits
        index -1, which change_video ignores; the first item added becomes the
        current one, so the first video is loaded. The items added after it
        leave the current index, and so the widget, as they are. */
    method SetVideoList(videos: seq<string>, library: map<string, Footage>)
      requires Idle()
      requires forall p :: p in library ==> ValidFootage(library[p])
      modifies this`videos, this`timerActive, this`cap, this`videoPath, this`frame, this`totalFrames,
        this`sliderMinimum, this`sliderMaximum, this`sliderValue, this`currentFramePosition, this`displayOffset,
        this`displaySize, this`originalSize, this`overlay, this`timeText, this`controlsEnabled
      ensures Idle()
      ensures this.videos == videos
      ensures videos == [] ==>
        && videoPath == old(videoPath) && cap == old(cap) && frame == old(frame) && timerActive == old(timerActive)
        && totalFrames == old(totalFrames) && currentFramePosition == old(currentFramePosition)
        && sliderMinimum == old(sliderMinimum) && sliderMaximum == old(sliderMaximum)
        && sliderValue == old(sliderValue) && timeText == old(timeText) && controlsEnabled == old(controlsEnabled)
        && displayOffset == old(displayOffset) && displaySize == old(displaySize)
        && originalSize == old(originalSize) && overlay == old(overlay)
      ensures videos != [] ==> Loaded(videos[0], library)
    {
      this.videos := videos;
      ChangeVideo(-1, library);
      if videos != [] {
        ChangeVideo(0, library);
      }
    }

    /** display_frame: fit the frame into the label, centre it and draw the
        selection box; nothing for a missing frame. */
    method DisplayFrame(f: Option<Size>)
      requires Sound() && (f.Some? ==> Positive(f.value))
      modifies this`displayOffset, this`displaySize, this`originalSize, this`overlay
      ensures Sound()
      ensures f.None? ==> unchanged(this)
      ensures f.Some? ==> Shows(f.value)
    {
      if f.Some? {
        var fitted := Fit(labelSize, f.value);
        displayOffset := Centre(labelSize, fitted);
        displaySize := fitted;
        originalSize := f.value;
        overlay := Overlay(selectionRect);
      }
    }

    /** update_time_display: "mm:ss / mm:ss" for the position and the frame total. */
    method UpdateTimeDisplay()
      modifies this`timeText
      ensures cap.None? ==> timeText == old(timeText)
      ensures cap.Some? ==> timeText == TimeText(currentFramePosition, totalFrames, Fps(cap.value))
    {
      if cap.Some? {
        timeText := TimeText(currentFramePosition, totalFrames, Fps(cap.value));
      }
    }

    /** What slider_value_changed(value) does when it acts: seek, read, and on a
        frame show it at that position; when it does not act, nothing changes. */
    twostate predicate SliderEffect(value: int, acts: bool)
      reads this
    {
      && (!acts ==>
            && cap == old(cap) && frame == old(frame) && currentFramePosition == old(currentFramePosition)
            && displayOffset == old(displayOffset) && displaySize == old(displaySize)
            && originalSize == old(originalSize) && overlay == old(overlay) && timeText == old(timeText))
      && (acts ==>
            && old(cap).Some?
            && var (f, c) := Read(Seek(old(cap).value, value));
            && cap == Some(c) && frame == f
            && (f.Some? ==>
                  && currentFramePosition == value
                  && labelSize.height > 0 && labelSize.width >= 0 && Positive(f.value) && Shows(f.value)
                  && timeText == TimeText(value, totalFrames, Fps(c)))
            && (f.None? ==>
                  && currentFramePosition == old(currentFramePosition)
                  && displayOffset == old(displayOffset) && displaySize == old(displaySize)
                  && originalSize == old(originalSize) && overlay == old(overlay) && timeText == old(timeText)))
    }

    /** slider_value_changed: ignored while update_frame moves the slider or
        without a capture; otherwise seek to the value and show the frame there. */
    method SliderValueChanged(value: int)
      requires Sound()
      modifies this`cap, this`frame, this`currentFramePosition, this`displayOffset, this`displaySize,
        this`originalSize, this`overlay, this`timeText
      ensures Sound()
      ensures SliderEffect(value, !isSliderUpdating && old(cap).Some?)
    {
      if isSliderUpdating || cap.None? {
        return;
      }
      var (f, c) := Read(Seek(cap.value, value));
      cap := Some(c);
      frame := f;
      if f.Some? {
        currentFramePosition := value;
        DisplayFrame(f);
        UpdateTimeDisplay();
      }
    }

    /** QSlider.setValue: the value is bounded to the range, and valueChanged is
        delivered only when it moves. */
    method SetSliderValue(v: int)
      requires Sound()
      modifies this`sliderValue, this`cap, this`frame, this`currentFramePosition, this`displayOffset,
        this`displaySize, this`originalSize, this`overlay, this`timeText
      ensures Valid()
      ensures sliderValue == Clamp(v, sliderMinimum, sliderMaximum)
      ensures SliderEffect(sliderValue, sliderValue != old(sliderValue) && !isSliderUpdating && old(cap).Some?)
    {
      var bounded := Clamp(v, sliderMinimum, sliderMaximum);
      if bounded != sliderValue {
        sliderValue := bounded;
        SliderValueChanged(bounded);
      }
    }

    /** QSlider.setMaximum(m): the range becomes [min(minimum, m), m] and the
        value is bounded to it again. */
    method SetSliderMaximum(m: int)
      requires Valid()
      modifies this`sliderMinimum, this`sliderMaximum, this`sliderValue, this`cap, this`frame,
        this`currentFramePosition, this`displayOffset, this`displaySize, this`originalSize, this`overlay,
        this`timeText
      ensures Valid()
      ensures sliderMinimum == Min(old(sliderMinimum), m) && sliderMaximum == m
      ensures sliderValue == Clamp(old(sliderValue), sliderMinimum, sliderMaximum)
      ensures SliderEffect(sliderValue, sliderValue != old(sliderValue) && !isSliderUpdating && old(cap).Some?)
    {
      sliderMinimum := Min(sliderMinimum, m);
      sliderMaximum := m;
      SetSliderValue(sliderValue);
    }

    method TogglePlay()
      modifies this`timerActive
      ensures timerActive == !old(timerActive)
    {
      timerActive := !timerActive;
    }

    /** stop_video: stop the timer and release the capture. */
    method StopVideo()
      modifies this`timerActive, this`cap
      ensures !timerActive && cap.None?
    {
      timerActive := false;
      cap := None;
    }

    /** update_frame, on each timer tick: a frame read advances the position by
        one and moves the slider without seeking; at the end the capture is
        rewound, the position is 0 and the timer stops. */
    method UpdateFrame()
      requires Idle()
      modifies this`cap, this`frame, this`currentFramePosition, this`isSliderUpdating, this`sliderValue,
        this`timeText, this`timerActive, this`displayOffset, this`displaySize, this`originalSize, this`overlay
      ensures Idle()
      ensures old(cap).None? || !old(cap).value.isOpen ==> unchanged(this)
      ensures old(cap).Some? && old(cap).value.isOpen && Read(old(cap).value).0.Some? ==>
        && cap.Some? && (frame, cap.value) == Read(old(cap).value)
        && currentFramePosition == old(currentFramePosition) + 1
        && sliderValue == Clamp(currentFramePosition, sliderMinimum, sliderMaximum)
        && timerActive == old(timerActive)
        && Shows(frame.value)
        && timeText == TimeText(currentFramePosition, totalFrames, Fps(cap.value))
      ensures old(cap).Some? && old(cap).value.isOpen && Read(old(cap).value).0.None? ==>
        && cap.Some?
        && currentFramePosition == 0
        && !timerActive
        && sliderValue == Clamp(0, sliderMinimum, sliderMaximum)
        && (sliderValue == old(sliderValue) ==> frame.None? && cap == Some(Seek(old(cap).value, 0)))
        && (sliderValue != old(sliderValue) ==> (frame, cap.value) == Read(Seek(old(cap).value, sliderValue)))
        && timeText == TimeText(0, totalFrames, Fps(cap.value))
    {
      if cap.None? || !cap.value.isOpen {
        return;
      }
      var (f, c) := Read(cap.value);
      cap := Some(c);
      frame := f;
      if f.Some? {
        ShowNextFrame();
      } else {
        RewindAtEnd();
      }
    }

    /** The branch of update_frame that read a frame: the slider follows the
        position while is_slider_updating keeps it from seeking. */
    method ShowNextFrame()
      requires Idle() && frame.Some? && cap.Some?
      modifies this`cap, this`frame, this`currentFramePosition, this`isSliderUpdating, this`sliderValue,
        this`timeText, this`displayOffset, this`displaySize, this`originalSize, this`overlay
      ensures Idle()
      ensures cap == old(cap) && frame == old(frame)
      ensures currentFramePosition == old(currentFramePosition) + 1
      ensures sliderValue == Clamp(currentFramePosition, sliderMinimum, sliderMaximum)
      ensures Shows(frame.value)
      ensures timeText == TimeText(currentFramePosition, totalFrames, Fps(cap.value))
    {
      currentFramePosition := currentFramePosition + 1;
      FollowPosition();
      Refresh();
    }

    /** Move the slider to the position with is_slider_updating set, so that the
        valueChanged it may deliver neither seeks nor reads. */
    method FollowPosition()
      requires Idle()
      modifies this`isSliderUpdating, this`sliderValue, this`cap, this`frame, this`currentFramePosition,
        this`displayOffset, this`displaySize, this`originalSize, this`overlay, this`timeText
      ensures Idle()
      ensures sliderValue == Clamp(currentFramePosition, sliderMinimum, sliderMaximum)
      ensures cap == old(cap) && frame == old(frame) && currentFramePosition == old(currentFramePosition)
    {
      isSliderUpdating := true;
      SetSliderValue(currentFramePosition);
      isSliderUpdating := false;
    }

    /** update_time_display followed by display_frame on the current frame. */
    method Refresh()
      requires Idle() && cap.Some?
      modifies this`timeText, this`displayOffset, this`displaySize, this`originalSize, this`overlay
      ensures Idle()
      ensures frame.Some? ==> Shows(frame.value)
      ensures timeText == TimeText(currentFramePosition, totalFrames, Fps(cap.value))
    {
      UpdateTimeDisplay();
      DisplayFrame(frame);
    }

    /** The branch of update_frame at the end of the video: rewind, reset the
        slider (which seeks and shows frame 0 when the value moves) and stop. */
    method RewindAtEnd()
      requires Idle() && frame.None? && cap.Some? && cap.value.isOpen
      modifies this`cap, this`frame, this`currentFramePosition, this`sliderValue, this`timeText,
        this`timerActive, this`displayOffset, this`displaySize, this`originalSize, this`overlay
      ensures Idle()
      ensures currentFramePosition == 0 && !timerActive
      ensures sliderValue == Clamp(0, sliderMinimum, sliderMaximum)
      ensures cap.Some?
      ensures sliderValue == old(sliderValue) ==> frame.None? && cap == Some(Seek(old(cap).value, 0))
      ensures sliderValue != old(sliderValue) ==> (frame, cap.value) == Read(Seek(old(cap).value, sliderValue))
      ensures timeText == TimeText(0, totalFrames, Fps(cap.value))
    {
      cap := Some(Seek(cap.value, 0));
      currentFramePosition := 0;
      SetSliderValue(0);
      UpdateTimeDisplay();
      timerActive := false;
    }

    /** What set_video(path) leaves behind: the path chosen and the timer
        stopped; for a file that does not open, the unopened capture with the
        old frame kept and the controls disabled; for a file that yields no
        frame, the capture at its start, no frame and the controls disabled,
        with the frame total, position, slider, time text and display of the
        previous video kept in both cases; otherwise the controls enabled, the
        frame total and slider range of the new video at position 0 and its
        time text, and for a reported frame count of at least 1 its first frame
        shown with the capture after it and the slider at 0. */
    twostate predicate Loaded(path: string, library: map<string, Footage>)
      reads this
      requires Sound()
    {
      && videoPath == Some(path) && !timerActive
      && (path !in library ==> cap == Some(Unopened) && !controlsEnabled && frame == old(frame))
      && (path in library && library[path].frames == [] ==>
        cap == Some(Capture(library[path], true, 0)) && frame.None? && !controlsEnabled)
      && (path !in library || library[path].frames == [] ==>
        && totalFrames == old(totalFrames) && currentFramePosition == old(currentFramePosition)
        && sliderMinimum == old(sliderMinimum) && sliderMaximum == old(sliderMaximum)
        && sliderValue == old(sliderValue) && timeText == old(timeText)
        && displayOffset == old(displayOffset) && displaySize == old(displaySize)
        && originalSize == old(originalSize) && overlay == old(overlay))
      && (path in library && library[path].frames != [] ==>
        && controlsEnabled
        && totalFrames == library[path].frameCount
        && sliderMinimum == Min(old(sliderMinimum), totalFrames - 1)
        && sliderMaximum == totalFrames - 1
        && currentFramePosition == 0
        && timeText == TimeText(0, totalFrames, library[path].fps))
      && (path in library && library[path].frames != [] && library[path].frameCount >= 1 ==>
        && frame == Some(library[path].frames[0])
        && cap == Some(Capture(library[path], true, 1))
        && sliderValue == 0
        && Shows(frame.value))
    }

    /** set_video: stop, open the file and show its first frame at position 0;
        a file that does not open or yields no frame disables the controls. */
    method SetVideo(path: string, library: map<string, Footage>)
      requires Idle()
      requires forall p :: p in library ==> ValidFootage(library[p])
      modifies this`timerActive, this`cap, this`videoPath, this`frame, this`totalFrames, this`sliderMinimum,
        this`sliderMaximum, this`sliderValue, this`currentFramePosition, this`displayOffset, this`displaySize,
        this`originalSize, this`overlay, this`timeText, this`controlsEnabled
      ensures Idle() && Loaded(path, library)
    {
      StopVideo();
      videoPath := Some(path);
      if path !in library {
        cap := Some(Unopened);
        controlsEnabled := false;
        return;
      }
      var footage := library[path];
      var (f, c) := Read(Capture(footage, true, 0));
      cap := Some(c);
      frame := f;
      if f.None? {
        controlsEnabled := false;
        return;
      }
      ShowFirstFrame();
    }

    /** The part of set_video after the first frame was read: the slider gets
        the frame range and is set to 0, and the first frame is shown. */
    method ShowFirstFrame()
      requires Idle() && cap.Some? && cap.value.isOpen && cap.value.next == 1
      requires cap.value.footage.frames != [] && frame == Some(cap.value.footage.frames[0])
      modifies this`totalFrames, this`sliderMinimum, this`sliderMaximum, this`sliderValue, this`cap, this`frame,
        this`currentFramePosition, this`displayOffset, this`displaySize, this`originalSize, this`overlay,
        this`timeText, this`controlsEnabled
      ensures Idle() && controlsEnabled
      ensures totalFrames == old(cap).value.footage.frameCount
      ensures sliderMinimum == Min(old(sliderMinimum), totalFrames - 1) && sliderMaximum == totalFrames - 1
      ensures currentFramePosition == 0
      ensures cap.Some? && cap.value.footage == old(cap).value.footage && cap.value.isOpen
      ensures timeText == TimeText(0, totalFrames, old(cap).value.footage.fps)
      ensures totalFrames >= 1 ==> frame == old(frame) && cap == old(cap) && sliderValue == 0 && Shows(frame.value)
    {
      totalFrames := cap.value.footage.frameCount;
      RangeSlider(totalFrames - 1);
      currentFramePosition := 0;
      Refresh();
      controlsEnabled := true;
    }

    /** setMaximum(m) followed by setValue(0), with the first frame just read:
        for a range holding 0 the value ends at 0 with that frame still shown,
        whatever the slider echoed on the way. */
    method RangeSlider(m: int)
      requires Idle() && cap.Some? && cap.value.isOpen && cap.value.next == 1
      requires cap.value.footage.frames != [] && frame == Some(cap.value.footage.frames[0])
      modifies this`sliderMinimum, this`sliderMaximum, this`sliderValue, this`cap, this`frame,
        this`currentFramePosition, this`displayOffset, this`displaySize, this`originalSize, this`overlay,
        this`timeText
      ensures Idle()
      ensures sliderMinimum == Min(old(sliderMinimum), m) && sliderMaximum == m
      ensures cap.Some? && cap.value.footage == old(cap).value.footage && cap.value.isOpen
      ensures m >= 0 ==> sliderValue == 0 && frame == old(frame) && cap == old(cap)
    {
      ghost var start := cap.value;
      SetSliderMaximum(m);
      assert cap.Some? && cap.value.footage == start.footage && cap.value.isOpen;
      assert sliderValue == 0 ==> frame == Some(start.footage.frames[0]) && cap == Some(start);
      SetSliderValue(0);
    }

    /** change_video: load the chosen entry; an index outside the list is ignored. */
    method ChangeVideo(index: int, library: map<string, Footage>)
      requires Idle()
      requires forall p :: p in library ==> ValidFootage(library[p])
      modifies this`timerActive, this`cap, this`videoPath, this`frame, this`totalFrames, this`sliderMinimum,
        this`sliderMaximum, this`sliderValue, this`currentFramePosition, this`displayOffset, this`displaySize,
        this`originalSize, this`overlay, this`timeText, this`controlsEnabled
      ensures Idle()
      ensures !(0 <= index < |videos|) ==> unchanged(this)
      ensures 0 <= index < |videos| ==> Loaded(videos[index], library)
    {
      if 0 <= index < |videos| {
        SetVideo(videos[index], library);
      }
    }

    /** mouse_press_event: a left press inside the displayed image starts a new
        selection at that point and clears the old one. */
    method MousePress(ex: int, ey: int, button: Button)
      modifies this`selecting, this`startPoint, this`currentPoint, this`selectionRect
      ensures var p := Point(ex - displayOffset.x, ey - displayOffset.y);
        var starts := frame.Some? && 0 <= p.x < displaySize.width && 0 <= p.y < displaySize.height
          && button == LeftButton;
        && (starts ==> selecting && startPoint == p && currentPoint == p && selectionRect == NullRect)
        && (!starts ==> unchanged(this))
    {
      if frame.None? {
        return;
      }
      var x, y := ex - displayOffset.x, ey - displayOffset.y;
      if 0 <= x < displaySize.width && 0 <= y < displaySize.height {
        if button == LeftButton {
          selecting := true;
          startPoint := Point(x, y);
          currentPoint := Point(x, y);
          selectionRect := NullRect;
        }
      }
    }

    /** mouse_move_event: while selecting, the point is clamped to the displayed
        image and the selection spans from the start point to it. */
    method MouseMove(ex: int, ey: int)
      requires Valid()
      modifies this`currentPoint, this`selectionRect, this`displayOffset, this`displaySize, this`originalSize,
        this`overlay
      ensures Valid()
      ensures !(selecting && frame.Some?) ==> unchanged(this)
      ensures selecting && frame.Some? ==>
        && currentPoint == ClampToDisplay(ex - old(displayOffset).x, ey - old(displayOffset).y, old(displaySize))
        && selectionRect == Normalized(FromPoints(startPoint, currentPoint))
        && Shows(frame.value)
    {
      if selecting && frame.Some? {
        currentPoint := ClampToDisplay(ex - displayOffset.x, ey - displayOffset.y, displaySize);
        selectionRect := Normalized(FromPoints(startPoint, currentPoint));
        DisplayFrame(frame);
      }
    }

    /** mouse_release_event: a left release ends the selection at the clamped
        point and redraws a non-empty selection. */
    method MouseRelease(ex: int, ey: int, button: Button)
      requires Valid()
      modifies this`selecting, this`currentPoint, this`selectionRect, this`displayOffset, this`displaySize,
        this`originalSize, this`overlay
      ensures Valid()
      ensures !(button == LeftButton && old(selecting)) ==> unchanged(this)
      ensures button == LeftButton && old(selecting) ==>
        && !selecting
        && currentPoint == ClampToDisplay(ex - old(displayOffset).x, ey - old(displayOffset).y, old(displaySize))
        && selectionRect == Normalized(FromPoints(startPoint, currentPoint))
        && (!IsEmpty(selectionRect) && frame.Some? ==> Shows(frame.value))
    {
      if button == LeftButton && selecting {
        selecting := false;
        currentPoint := ClampToDisplay(ex - displayOffset.x, ey - displayOffset.y, displaySize);
        selectionRect := Normalized(FromPoints(startPoint, currentPoint));
        if !IsEmpty(selectionRect) && frame.Some? {
          DisplayFrame(frame);
        }
      }
    }

    /** reset_selection: forget the selection and redraw. */
    method ResetSelection()
      requires Valid()
      modifies this`selectionRect, this`displayOffset, this`displaySize, this`originalSize, this`overlay
      ensures Valid()
      ensures selectionRect == NullRect
      ensures frame.Some? ==> Shows(frame.value) && overlay.None?
    {
      selectionRect := NullRect;
      DisplayFrame(frame);
    }

    /** get_selected_region. */
    function SelectedRegion(): (r: Result<Option<(int, int, int, int)>, ScaleError>)
      reads this
      ensures r == Success(None) <==> IsEmpty(selectionRect) || frame.None?
    {
      RegionOf(selectionRect, frame.Some?, displaySize, originalSize)
    }
  }
}
