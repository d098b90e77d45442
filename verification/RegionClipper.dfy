/**
 * RegionClipper: clamps a requested search rectangle to the bounds of a
 * captured frame, rejects a rectangle that is empty after clamping, and cuts
 * the frame down to an accepted rectangle (base.py:34-47).
 */
module RegionClipper {
  import opened Imaging

  /** A requested rectangle (x1, y1, x2, y2); x2 and y2 are exclusive bounds. */
  datatype Region = Region(x1: int, y1: int, x2: int, y2: int)

  function Min(a: int, b: int): int { if a <= b then a else b }
  function Max(a: int, b: int): int { if a >= b then a else b }

  /** max(0, min(v, bound)): the nearest value of [0, bound] to v. */
  function Clamp(v: int, bound: nat): (r: nat)
    ensures r <= bound
    ensures 0 <= v <= bound ==> r == v
    ensures v < 0 ==> r == 0
    ensures v > bound ==> r == bound
  {
    Max(0, Min(v, bound))
  }

  /** 0 <= x1 < x2 <= width and 0 <= y1 < y2 <= height. */
  predicate InFrame(r: Region, width: nat, height: nat)
  {
    0 <= r.x1 < r.x2 <= width && 0 <= r.y1 < r.y2 <= height
  }

  /**
   * Clamps every coordinate into the frame, then rejects (None) a rectangle
   * with x1 >= x2 or y1 >= y2. The accepted rectangle is the intersection of
   * the request with the frame, and it exists exactly when that intersection
   * is non-empty; an empty request is never widened to the whole frame.
   */
  function ClampRegion(width: nat, height: nat, roi: Region): (r: Option<Region>)
    ensures r.Some? ==> InFrame(r.value, width, height)
    ensures r.Some? <==>
              && roi.x1 < roi.x2 && roi.x1 < width && 0 < roi.x2 && 0 < width
              && roi.y1 < roi.y2 && roi.y1 < height && 0 < roi.y2 && 0 < height
    ensures r.Some? ==>
              r.value == Region(Max(roi.x1, 0), Max(roi.y1, 0), Min(roi.x2, width), Min(roi.y2, height))
    ensures roi.x1 >= roi.x2 || roi.y1 >= roi.y2 ==> r.None?
  {
    var x1 := Clamp(roi.x1, width);
    var y1 := Clamp(roi.y1, height);
    var x2 := Clamp(roi.x2, width);
    var y2 := Clamp(roi.y2, height);
    if x1 >= x2 || y1 >= y2 then None else Some(Region(x1, y1, x2, y2))
  }

  /** The sub-frame frame[y1:y2, x1:x2]. */
  function Crop(frame: Image, r: Region): (c: Image)
    requires IsRect(frame) && InFrame(r, Cols(frame), |frame|)
    ensures |c| == r.y2 - r.y1 && Cols(c) == r.x2 - r.x1 && IsRect(c)
    ensures forall y, x :: 0 <= y < |c| && 0 <= x < |c[y]| ==> c[y][x] == frame[r.y1 + y][r.x1 + x]
  {
    seq(r.y2 - r.y1, i requires 0 <= i < r.y2 - r.y1 => frame[r.y1 + i][r.x1..r.x2])
  }

  /** A request that overhangs the frame on every side clamps to the whole frame. */
  lemma OverhangingRegionIsWholeFrame(width: nat, height: nat, margin: int)
    requires 0 < width && 0 < height && 0 <= margin
    ensures ClampRegion(width, height, Region(-margin, -margin, width + margin, height + margin))
            == Some(Region(0, 0, width, height))
  {
  }

  /** Cutting a frame to its own full rectangle gives the frame back. */
  lemma {:induction false} CropWholeFrame(frame: Image)
    requires IsRect(frame) && 0 < |frame| && 0 < Cols(frame)
    ensures Crop(frame, Region(0, 0, Cols(frame), |frame|)) == frame
  {
    var c := Crop(frame, Region(0, 0, Cols(frame), |frame|));
    forall y | 0 <= y < |frame| ensures c[y] == frame[y] {
      assert |c[y]| == |frame[y]|;
      forall x | 0 <= x < |frame[y]| ensures c[y][x] == frame[y][x] {
      }
    }
  }
}
