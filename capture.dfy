/**
 * The capture loop of `main` in attendance_capture.py: load the gallery,
 * run the session over the frames the camera delivers until a read fails
 * or the operator presses the quit key, then save the session's rows.
 *
 * The camera is a finite feed of read attempts; running out of it ends the
 * session like the operator quitting.  Drawing and the snapshot files are
 * not part of this model.
 */
module Capture {
  import opened Common
  import opened Gallery
  import opened Matcher
  import opened Attendance

  /** One attempt to grab a frame. */
  datatype FrameRead =
    | ReadFailed
    | Grabbed(regions: seq<Region>, ts: Timestamp, quit: bool)  // quit: the quit key was seen after this frame

  /** How many frames the loop processes before it stops. */
  function FramesProcessed(feed: seq<FrameRead>): (k: nat)
    ensures k <= |feed|
    ensures forall i :: 0 <= i < k ==> feed[i].Grabbed?
    ensures forall i :: 0 <= i < k - 1 ==> !feed[i].quit
    ensures k < |feed| ==> feed[k].ReadFailed? || (0 < k && feed[k - 1].quit)
  {
    if feed == [] || feed[0].ReadFailed? then 0
    else if feed[0].quit then 1
    else 1 + FramesProcessed(feed[1..])
  }

  /** The labelled frames the session sees. */
  function SessionFrames(g: Gallery, dist: (Encoding, Encoding) -> real, feed: seq<FrameRead>): (frames: seq<Frame>)
    requires ValidGallery(g)
    ensures |frames| == FramesProcessed(feed)
    ensures forall i :: 0 <= i < |frames| ==>
      frames[i] == Frame(FrameNames(g, dist, feed[i].regions), feed[i].ts)
  {
    var k := FramesProcessed(feed);
    seq(k, i requires 0 <= i < k => Frame(FrameNames(g, dist, feed[i].regions), feed[i].ts))
  }

  /**
   * The frame loop: rows for every label confirmed in the frames processed
   * before the first failed read or the quit key; nothing when the camera
   * could not be opened.
   */
  method CaptureSession(g: Gallery, dist: (Encoding, Encoding) -> real, width: nat, height: nat,
                        cameraOpened: bool, feed: seq<FrameRead>) returns (rows: seq<Row>)
    requires ValidGallery(g)
    ensures !cameraOpened ==> rows == []
    ensures cameraOpened ==> rows == Run(SessionFrames(g, dist, feed)).rows
  {
    if !cameraOpened {
      return [];
    }
    ghost var frames := SessionFrames(g, dist, feed);
    ghost var k := FramesProcessed(feed);
    var session := new Session();
    assert frames[..0] == [];
    var i := 0;
    var stop := false;
    while !stop && i < |feed|
      invariant i <= k
      invariant stop ==> i == k
      invariant !stop && 0 < i ==> !feed[i - 1].quit
      invariant session.Valid() && session.State() == Run(frames[..i])
      decreases |feed| - i, !stop
    {
      match feed[i]
      case ReadFailed =>
        stop := true;
      case Grabbed(regions, ts, quit) =>
        var detections := RecognizeFrame(g, dist, width, height, regions);
        RunPrefixStep(frames, i);
        session.Step(NamesOf(detections), ts);
        i := i + 1;
        if quit {
          stop := true;
        }
    }
    assert frames[..i] == frames;
    rows := session.rows;
  }

  /** How a run of the program ends. */
  datatype Outcome =
    | Aborted(error: LoadError)           // the gallery could not be loaded; no frame was read
    | Finished(saved: Option<seq<Row>>)   // the sheet written, if any

  /**
   * The whole program: a gallery that does not load aborts before the
   * camera is touched; otherwise the session runs and its rows are merged
   * into the prior sheet when there are any.
   */
  method RunAttendance(file: EncodingsFile, dist: (Encoding, Encoding) -> real, width: nat, height: nat,
                       cameraOpened: bool, feed: seq<FrameRead>, prior: PriorSheet) returns (outcome: Outcome)
    ensures LoadKnown(file).Failure? ==> outcome == Aborted(LoadKnown(file).error)
    ensures LoadKnown(file).Success? && !cameraOpened ==> outcome == Finished(None)
    ensures LoadKnown(file).Success? && cameraOpened ==>
      outcome == Finished(SavedSheet(prior, Run(SessionFrames(LoadKnown(file).value, dist, feed)).rows))
  {
    var loaded := LoadKnown(file);
    if loaded.Failure? {
      return Aborted(loaded.error);
    }
    var rows := CaptureSession(loaded.value, dist, width, height, cameraOpened, feed);
    outcome := Finished(SavedSheet(prior, rows));
  }
}
