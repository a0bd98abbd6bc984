/**
 * Per-region recognition in the capture loop of attendance_capture.py:
 * padding and clamping a detected box, and deciding which gallery label,
 * if any, a region's embedding matches.
 *
 * The embedder and the distance computation are foreign numerics; they
 * appear here as an `EncoderOutput` per region and as a distance function
 * `dist` supplied by the caller.
 */
module Matcher {
  import opened Gallery

  /** The label given to every region that is not recognised. */
  const UNKNOWN: string := "Unknown"

  /** Largest accepted distance to the nearest gallery embedding. */
  const TOLERANCE: real := 0.5

  /** `i` is the first position holding the smallest distance. */
  predicate IsFirstMin(d: seq<real>, i: int) {
    && 0 <= i < |d|
    && (forall j :: 0 <= j < |d| ==> d[i] <= d[j])
    && (forall j :: 0 <= j < i ==> d[i] < d[j])
  }

  /** Position of the first smallest distance, as `np.argmin` picks it. */
  function ArgMin(d: seq<real>): (i: nat)
    requires |d| > 0
    ensures IsFirstMin(d, i)
  {
    if |d| == 1 then 0
    else
      var k := ArgMin(d[..|d| - 1]);
      if d[|d| - 1] < d[k] then |d| - 1 else k
  }

  /**
   * The label of the nearest gallery entry when it lies within the
   * tolerance, "Unknown" otherwise.
   */
  function Match(names: seq<string>, distances: seq<real>, tolerance: real): (name: string)
    requires 0 < |distances| <= |names|
    ensures forall i | IsFirstMin(distances, i) ::
      name == (if distances[i] <= tolerance then names[i] else UNKNOWN)
  {
    var best := ArgMin(distances);
    if distances[best] <= tolerance then names[best] else UNKNOWN
  }

  /** Only a label whose entry is a nearest one within tolerance is ever returned. */
  lemma MatchedLabelIsNearest(names: seq<string>, distances: seq<real>, tolerance: real)
    requires 0 < |distances| <= |names|
    requires Match(names, distances, tolerance) != UNKNOWN
    ensures exists i :: IsFirstMin(distances, i) && distances[i] <= tolerance &&
                        names[i] == Match(names, distances, tolerance)
  {
    var i := ArgMin(distances);
    assert IsFirstMin(distances, i);
  }

  /**
   * Tightening the tolerance can only turn a label into "Unknown"; it never
   * turns "Unknown" into a label or one label into another.
   */
  lemma {:induction false} TighterToleranceOnlyLosesMatches(
    names: seq<string>, distances: seq<real>, strict: real, loose: real)
    requires 0 < |distances| <= |names|
    requires strict <= loose
    ensures Match(names, distances, strict) == UNKNOWN
         || Match(names, distances, strict) == Match(names, distances, loose)
  {
    var i := ArgMin(distances);
    assert IsFirstMin(distances, i);
  }

  /** What the embedder produced for one region's crop. */
  datatype EncoderOutput =
    | Raised                           // the embedder threw
    | Encodings(found: seq<Encoding>)  // zero or more face embeddings

  /** Distance from `e` to every gallery embedding, in gallery order. */
  function Distances(g: Gallery, dist: (Encoding, Encoding) -> real, e: Encoding): (d: seq<real>)
    ensures |d| == |g.encodings|
    ensures forall i :: 0 <= i < |d| ==> d[i] == dist(g.encodings[i], e)
  {
    seq(|g.encodings|, i requires 0 <= i < |g.encodings| => dist(g.encodings[i], e))
  }

  /**
   * The label of one region: "Unknown" when the embedder raised or found no
   * face, otherwise the match of its first embedding.
   */
  function RegionName(g: Gallery, dist: (Encoding, Encoding) -> real, out: EncoderOutput, tolerance: real): (name: string)
    requires ValidGallery(g)
    ensures out.Raised? || |out.found| == 0 ==> name == UNKNOWN
    ensures out.Encodings? && |out.found| > 0 ==>
      name == Match(g.names, Distances(g, dist, out.found[0]), tolerance)
  {
    match out
    case Raised => UNKNOWN
    case Encodings(found) =>
      if |found| == 0 then UNKNOWN
      else Match(g.names, Distances(g, dist, found[0]), tolerance)
  }

  /** A crop rectangle in frame pixels, `[x1, x2) x [y1, y2)`. */
  datatype Box = Box(x1: int, y1: int, x2: int, y2: int)

  /** 15% of a box side, rounded down (the source computes `int(0.15 * w)`). */
  function Pad(side: nat): (p: nat)
    ensures 100 * p <= 15 * side < 100 * (p + 1)
  {
    (15 * side) / 100
  }

  /**
   * The detected box `(x, y, w, h)` grown by 15% on every side and cut back
   * to a `width` x `height` frame.
   */
  function PadBox(x: nat, y: nat, w: nat, h: nat, width: nat, height: nat): (b: Box)
    ensures 0 <= b.x1 <= x && 0 <= b.y1 <= y
    ensures b.x2 <= width && b.y2 <= height
    ensures (if x + w < width then x + w else width) <= b.x2
    ensures (if y + h < height then y + h else height) <= b.y2
    ensures b.x1 == 0 || b.x1 == x - Pad(w)
    ensures b.y1 == 0 || b.y1 == y - Pad(h)
    ensures b.x2 == width || b.x2 == x + w + Pad(w)
    ensures b.y2 == height || b.y2 == y + h + Pad(h)
    ensures x - b.x1 <= Pad(w) && b.x2 - (x + w) <= Pad(w)
    ensures y - b.y1 <= Pad(h) && b.y2 - (y + h) <= Pad(h)
  {
    var padW, padH := Pad(w), Pad(h);
    Box(if x - padW > 0 then x - padW else 0,
        if y - padH > 0 then y - padH else 0,
        if x + w + padW < width then x + w + padW else width,
        if y + h + padH < height then y + h + padH else height)
  }

  /** One region reported by the face detector, with what the embedder made of its crop. */
  datatype Region = Region(x: nat, y: nat, w: nat, h: nat, encoder: EncoderOutput)

  /** A recognised region: its label and its padded box. */
  datatype Detection = Detection(name: string, box: Box)

  /** The labels of a frame's regions, in detection order. */
  function FrameNames(g: Gallery, dist: (Encoding, Encoding) -> real, regions: seq<Region>): (names: seq<string>)
    requires ValidGallery(g)
    ensures |names| == |regions|
    ensures forall k :: 0 <= k < |regions| ==>
      names[k] == RegionName(g, dist, regions[k].encoder, TOLERANCE)
  {
    seq(|regions|, k requires 0 <= k < |regions| => RegionName(g, dist, regions[k].encoder, TOLERANCE))
  }

  function NamesOf(detections: seq<Detection>): (names: seq<string>)
    ensures |names| == |detections|
    ensures forall k :: 0 <= k < |detections| ==> names[k] == detections[k].name
  {
    seq(|detections|, k requires 0 <= k < |detections| => detections[k].name)
  }

  /**
   * The loop over one frame's detected regions: each region gets its padded
   * box and its label, in detection order.
   */
  method RecognizeFrame(g: Gallery, dist: (Encoding, Encoding) -> real, width: nat, height: nat,
                        regions: seq<Region>) returns (detections: seq<Detection>)
    requires ValidGallery(g)
    ensures |detections| == |regions|
    ensures forall k :: 0 <= k < |regions| ==>
      var r := regions[k];
      detections[k] == Detection(RegionName(g, dist, r.encoder, TOLERANCE), PadBox(r.x, r.y, r.w, r.h, width, height))
    ensures NamesOf(detections) == FrameNames(g, dist, regions)
  {
    detections := [];
    var k := 0;
    while k < |regions|
      invariant 0 <= k <= |regions|
      invariant |detections| == k
      invariant forall i :: 0 <= i < k ==>
        var r := regions[i];
        detections[i] == Detection(RegionName(g, dist, r.encoder, TOLERANCE), PadBox(r.x, r.y, r.w, r.h, width, height))
    {
      var r := regions[k];
      var box := PadBox(r.x, r.y, r.w, r.h, width, height);
      var name := UNKNOWN;
      match r.encoder {
        case Raised =>
        case Encodings(found) =>
          if |found| > 0 {
            var distances := Distances(g, dist, found[0]);
            var best := ArgMin(distances);
            if distances[best] <= TOLERANCE {
              name := g.names[best];
            } else {
              name := UNKNOWN;
            }
          }
      }
      detections := detections + [Detection(name, box)];
      k := k + 1;
    }
  }
}
