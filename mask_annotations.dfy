/**
 * The Mask -> ImageAnnotations converter: the winning class of every pixel
 * is split into one 0/255 mask per class, the masks of classes 1 .. classes-1
 * are handed to a contour tracer, every traced contour becomes a closed
 * outline in the class colour, and a transparent one-point outline is always
 * appended last. The tracer (OpenCV's findContours) is outside the model:
 * `trace` stands for it and returns each contour as its flat int32 point
 * data x0, y0, x1, y1, ...
 */
module MaskAnnotations {
  import opened Buffers
  import opened Wrappers
  import opened Palette
  import opened ClassArgmax
  import opened MaskDecode

  /** The assumed size of the video frame the annotations are drawn over. */
  const FrameWidth: nat := 1920
  const FrameHeight: nat := 1080

  datatype Point2 = Point2(x: real, y: real)

  /** A LINE_LOOP points annotation; the timestamp is always zero and is not modelled. */
  datatype PointsAnnotation = PointsAnnotation(points: seq<Point2>, outline: ColorF, fill: ColorF, thickness: nat)

  /** Turns a class mask (height, width) into contours. */
  type Tracer = (seq<byte>, nat, nat) -> seq<seq<int>>

  /** The mask of class c over `pixels` pixels: 255 where c is the winning class, else 0. */
  function BinaryMask(p: seq<byte>, classes: nat, pixels: nat, c: nat): (m: seq<byte>)
    ensures |m| == pixels
    ensures forall i :: 0 <= i < pixels ==> m[i] == if PixelBest(p, classes, i).index == c then 255 else 0
  {
    seq<byte>(pixels, i requires 0 <= i < pixels => if PixelBest(p, classes, i).index == c then 255 else 0)
  }

  /**
   * Every pixel is 255 in exactly one of the `classes` masks (when there is
   * at least one class), and that mask belongs to its first maximum-scoring
   * class.
   */
  lemma MasksPartitionPixels(p: seq<byte>, classes: nat, pixels: nat, i: nat)
    requires 0 < classes && i < pixels
    ensures var c := PixelBest(p, classes, i).index;
      c < classes && BinaryMask(p, classes, pixels, c)[i] == 255 &&
      IsFirstMax(PixelScores(p, i * classes, classes), PixelBest(p, classes, i)) &&
      forall d :: 0 <= d < classes && d != c ==> BinaryMask(p, classes, pixels, d)[i] == 0
  {
    ArgmaxIsFirstMax(PixelScores(p, i * classes, classes));
  }

  /**
   * Allocates `classes` zeroed masks of h*w bytes and sets pixel i of the
   * mask of its winning class to 255. An empty image with a non-empty payload
   * makes the source's allocation loop run forever (`AllocationNeverEnds`),
   * so it is excluded; on every other input the two class counts agree
   * (`ClassCountAgrees`).
   */
  method SplitMasks(p: seq<byte>, h: nat, w: nat) returns (masks: array2<byte>)
    requires h * w > 0 || |p| == 0
    ensures fresh(masks)
    ensures masks.Length0 == ClassCount(|p|, h, w) && masks.Length1 == h * w
    ensures forall c, i :: 0 <= c < masks.Length0 && 0 <= i < masks.Length1 ==>
      masks[c, i] == BinaryMask(p, masks.Length0, h * w, c)[i]
  {
    var n := h * w;
    var classes := ClassCount(|p|, h, w);
    masks := new byte[classes, n]((_, _) => 0);
    var i := 0;
    while i < n
      invariant 0 <= i <= n
      invariant forall c, k :: 0 <= c < classes && 0 <= k < n ==>
        masks[c, k] == if k < i && PixelBest(p, classes, k).index == c then 255 else 0
    {
      var best := PixelArgmax(p, i, classes);
      if best.index < classes {
        masks[best.index, i] := 255;
      }
      i := i + 1;
    }
  }

  /** `((v + 0.5) / size) * frame`: the centre of pixel v scaled to the frame. */
  function ProjectCoord(v: int, size: nat, frame: nat): real
    requires size > 0
  {
    ((v as real + 0.5) / size as real) * frame as real
  }

  /** A pixel inside the mask lands strictly inside the frame. */
  lemma ProjectInsideFrame(v: int, size: nat, frame: nat)
    requires 0 <= v < size && frame > 0
    ensures 0.0 < ProjectCoord(v, size, frame) < frame as real
  {
    var f := (v as real + 0.5) / size as real;
    var g := (size as real - v as real - 0.5) / size as real;
    assert f + g == size as real / size as real == 1.0;
    PositiveQuotient(v as real + 0.5, size as real);
    PositiveQuotient(size as real - v as real - 0.5, size as real);
    PositiveProduct(f, frame as real);
    PositiveProduct(g, frame as real);
    assert f * frame as real + g * frame as real == (f + g) * frame as real == frame as real;
    assert ProjectCoord(v, size, frame) == f * frame as real;
  }

  /** Centre-of-pixel sampling: pixel 0 of a 10-pixel axis lands at 5.0 on a 100-unit axis. */
  lemma ProjectExample()
    ensures ProjectCoord(0, 10, 100) == 5.0
    ensures ProjectCoord(9, 10, 100) == 95.0
  {
  }

  lemma PositiveQuotient(a: real, b: real)
    requires a > 0.0 && b > 0.0
    ensures a / b > 0.0
  {
  }

  lemma PositiveProduct(a: real, b: real)
    requires a > 0.0 && b > 0.0
    ensures a * b > 0.0
  {
  }

  /**
   * The projected points of one contour: `ceil(len / 2)` points, point k made
   * of entries 2k and 2k+1 (a missing entry reads as 0).
   */
  function ContourPoints(cnt: seq<int>, h: nat, w: nat): (pts: seq<Point2>)
    requires h > 0 && w > 0
    ensures |pts| == (|cnt| + 1) / 2
  {
    seq((|cnt| + 1) / 2, k requires 0 <= k < (|cnt| + 1) / 2 =>
      Point2(ProjectCoord(GetOr(cnt, 2 * k, 0), w, FrameWidth), ProjectCoord(GetOr(cnt, 2 * k + 1, 0), h, FrameHeight)))
  }

  /** The point loop: one point per pair while 2k < len. */
  method ProjectContour(cnt: seq<int>, h: nat, w: nat) returns (pts: seq<Point2>)
    requires h > 0 && w > 0
    ensures |pts| == (|cnt| + 1) / 2
    ensures forall k :: 0 <= k < |pts| ==>
      pts[k] == Point2(ProjectCoord(GetOr(cnt, 2 * k, 0), w, FrameWidth), ProjectCoord(GetOr(cnt, 2 * k + 1, 0), h, FrameHeight))
  {
    pts := [];
    var k := 0;
    while 2 * k < |cnt|
      invariant k <= (|cnt| + 1) / 2 && |pts| == k
      invariant forall j :: 0 <= j < k ==>
        pts[j] == Point2(ProjectCoord(GetOr(cnt, 2 * j, 0), w, FrameWidth), ProjectCoord(GetOr(cnt, 2 * j + 1, 0), h, FrameHeight))
    {
      var x := ProjectCoord(GetOr(cnt, k * 2, 0), w, FrameWidth);
      var y := ProjectCoord(GetOr(cnt, k * 2 + 1, 0), h, FrameHeight);
      pts := pts + [Point2(x, y)];
      k := k + 1;
    }
  }

  /** The outline of one contour of class c: class colour as outline and fill, thickness 3. */
  function ContourAnnotation(cnt: seq<int>, c: nat, h: nat, w: nat): PointsAnnotation
    requires h > 0 && w > 0
  {
    PointsAnnotation(ContourPoints(cnt, h, w), ClassColorF(c), ClassColorF(c), 3)
  }

  /** The outlines of the given contours of class c, in order. */
  function Outlines(contours: seq<seq<int>>, c: nat, h: nat, w: nat): (r: seq<PointsAnnotation>)
    requires h > 0 && w > 0
    ensures |r| == |contours|
  {
    seq(|contours|, j requires 0 <= j < |contours| => ContourAnnotation(contours[j], c, h, w))
  }

  /** The contour loop of one class: one outline per contour, in the tracer's order. */
  method OutlineContours(contours: seq<seq<int>>, c: nat, h: nat, w: nat) returns (r: seq<PointsAnnotation>)
    requires h > 0 && w > 0
    ensures r == Outlines(contours, c, h, w)
    ensures forall j :: 0 <= j < |r| ==>
      r[j].points == ContourPoints(contours[j], h, w) && r[j].outline == ClassColorF(c) &&
      r[j].fill == ClassColorF(c) && r[j].thickness == 3
  {
    r := [];
    var j := 0;
    while j < |contours|
      invariant j <= |contours| && r == Outlines(contours[..j], c, h, w)
    {
      var pts := ProjectContour(contours[j], h, w);
      assert pts == ContourPoints(contours[j], h, w);
      r := r + [PointsAnnotation(pts, ClassColorF(c), ClassColorF(c), 3)];
      assert contours[..j + 1][..j] == contours[..j];
      j := j + 1;
    }
    assert contours[..j] == contours;
  }

  /** The outlines of all contours traced in the mask of class c. */
  function ClassAnnotations(p: seq<byte>, classes: nat, h: nat, w: nat, trace: Tracer, c: nat): (r: seq<PointsAnnotation>)
    requires h > 0 && w > 0
    ensures |r| == |trace(BinaryMask(p, classes, h * w, c), h, w)|
  {
    Outlines(trace(BinaryMask(p, classes, h * w, c), h, w), c, h, w)
  }

  /** The outlines of classes 1 .. n-1, class by class; class 0 is background and never traced. */
  function AnnotationsBelow(p: seq<byte>, classes: nat, h: nat, w: nat, trace: Tracer, n: nat): seq<PointsAnnotation>
    requires n <= 1 || (h > 0 && w > 0)
    decreases n
  {
    if n <= 1 then []
    else AnnotationsBelow(p, classes, h, w, trace, n - 1) + ClassAnnotations(p, classes, h, w, trace, n - 1)
  }

  /** The transparent one-point outline that gives every annotation message a timestamp. */
  const Sentinel: PointsAnnotation := PointsAnnotation([Point2(0.0, 0.0)], Transparent, Transparent, 5)

  /** The converter's `points` list; its circles and texts are always empty. */
  function AnnotationConversion(m: Mask, zstdLoaded: bool, decompress: seq<byte> -> seq<byte>, trace: Tracer): seq<PointsAnnotation>
  {
    match Decode(m, zstdLoaded, decompress)
    case None => []
    case Some(p) =>
      var classes := ClassCount(|p|, m.height, m.width);
      assert classes > 1 ==> m.height > 0 && m.width > 0;
      AnnotationsBelow(p, classes, m.height, m.width, trace, classes) + [Sentinel]
  }

  /**
   * As written, the mask allocation loop of an empty image with a payload
   * never ends: after any number i of masks the test `i < classes` still holds.
   */
  lemma AllocationNeverEnds(len: nat, h: nat, w: nat, i: nat)
    requires h * w == 0 && len > 0
    ensures Below(i, ClassCountAsWritten(len, h, w)) && ClassCountAsWritten(len, h, w) != Finite(i)
  {
  }

  /**
   * With the class count of an empty image taken as 0, the converter returns
   * at once with the sentinel alone, whatever the payload.
   */
  lemma EmptyImageGivesOnlySentinel(m: Mask, zstdLoaded: bool, decompress: seq<byte> -> seq<byte>, trace: Tracer)
    requires m.height * m.width == 0 && Decode(m, zstdLoaded, decompress).Some?
    ensures AnnotationConversion(m, zstdLoaded, decompress, trace) == [Sentinel]
    ensures ClassCount(|Decode(m, zstdLoaded, decompress).value|, m.height, m.width) == 0
  {
  }

  /** The contents of mask c (the Uint8Array handed to the tracer). */
  method MaskRow(masks: array2<byte>, c: nat) returns (row: seq<byte>)
    requires c < masks.Length0
    ensures |row| == masks.Length1 && forall i :: 0 <= i < |row| ==> row[i] == masks[c, i]
  {
    row := seq(masks.Length1, i requires 0 <= i < masks.Length1 reads masks => masks[c, i]);
  }

  /** The class loop: trace the masks of classes 1 .. classes-1 and collect their outlines. */
  method TraceClasses(p: seq<byte>, masks: array2<byte>, h: nat, w: nat, trace: Tracer) returns (points: seq<PointsAnnotation>)
    requires masks.Length0 <= 1 || (h > 0 && w > 0)
    requires masks.Length1 == h * w
    requires forall c, i :: 0 <= c < masks.Length0 && 0 <= i < masks.Length1 ==>
      masks[c, i] == BinaryMask(p, masks.Length0, h * w, c)[i]
    ensures points == AnnotationsBelow(p, masks.Length0, h, w, trace, masks.Length0)
  {
    var classes := masks.Length0;
    points := [];
    var c := 1;
    while c < classes
      invariant 1 <= c && (c <= classes || c == 1)
      invariant points == AnnotationsBelow(p, classes, h, w, trace, c)
    {
      var mask := MaskRow(masks, c);
      assert mask == BinaryMask(p, classes, h * w, c);
      var contours := trace(mask, h, w);
      var outlines := OutlineContours(contours, c, h, w);
      points := points + outlines;
      c := c + 1;
    }
  }

  method MaskToAnnotations(m: Mask, zstdLoaded: bool, decompress: seq<byte> -> seq<byte>, trace: Tracer)
    returns (points: seq<PointsAnnotation>)
    requires m.height * m.width == 0 ==> Decode(m, zstdLoaded, decompress) in {None, Some([])}
    ensures points == AnnotationConversion(m, zstdLoaded, decompress, trace)
  {
    points := [];
    var decoded := Decode(m, zstdLoaded, decompress);
    if decoded.None? {
      return;
    }
    var p := decoded.value;
    var masks := SplitMasks(p, m.height, m.width);
    points := TraceClasses(p, masks, m.height, m.width, trace);
    points := points + [Sentinel];
  }

  /**
   * The sentinel is always last once the payload is available, and only an
   * unloaded decompressor yields no annotation at all.
   */
  lemma SentinelAlwaysLast(m: Mask, zstdLoaded: bool, decompress: seq<byte> -> seq<byte>, trace: Tracer)
    ensures var r := AnnotationConversion(m, zstdLoaded, decompress, trace);
      (m.encoding == "zstd" && !zstdLoaded <==> r == []) &&
      (r != [] ==> r[|r| - 1] == Sentinel)
  {
  }

  /**
   * Every outline before the sentinel belongs to a class 1 <= c < n: it is
   * drawn and filled in that class's colour with thickness 3, so the
   * background class never appears.
   */
  lemma {:induction false} OutlinesUseTracedClassColours(p: seq<byte>, classes: nat, h: nat, w: nat, trace: Tracer, n: nat, k: nat)
    requires h > 0 && w > 0
    requires k < |AnnotationsBelow(p, classes, h, w, trace, n)|
    ensures var a := AnnotationsBelow(p, classes, h, w, trace, n)[k];
      exists c :: 1 <= c < n && a.outline == ClassColorF(c) && a.fill == a.outline && a.thickness == 3
  {
    if n > 1 {
      var below := AnnotationsBelow(p, classes, h, w, trace, n - 1);
      if k < |below| {
        OutlinesUseTracedClassColours(p, classes, h, w, trace, n - 1, k);
      } else {
        var a := AnnotationsBelow(p, classes, h, w, trace, n)[k];
        assert a == ClassAnnotations(p, classes, h, w, trace, n - 1)[k - |below|];
        assert a.outline == ClassColorF(n - 1);
      }
    }
  }

  /** One outline per traced contour: the list holds exactly the contours of classes 1 .. n-1. */
  function ContourCount(p: seq<byte>, classes: nat, h: nat, w: nat, trace: Tracer, n: nat): nat
    decreases n
  {
    if n <= 1 then 0
    else ContourCount(p, classes, h, w, trace, n - 1) + |trace(BinaryMask(p, classes, h * w, n - 1), h, w)|
  }

  lemma {:induction false} OneOutlinePerContour(p: seq<byte>, classes: nat, h: nat, w: nat, trace: Tracer, n: nat)
    requires h > 0 && w > 0
    ensures |AnnotationsBelow(p, classes, h, w, trace, n)| == ContourCount(p, classes, h, w, trace, n)
  {
    if n > 1 {
      OneOutlinePerContour(p, classes, h, w, trace, n - 1);
    }
  }
}
