/**
 * The three matching entry points of base.py: the presence check
 * check_has_img (base.py:7-82), the best match find_img_center
 * (base.py:85-138) and the list of all matches find_all_img_centers
 * (base.py:141-216).
 *
 * A screen capture or a template asset that could not be obtained is an
 * absent value (None). Every fault the source catches with its broad
 * exception handlers (a template the matcher refuses, in particular) becomes
 * the entry point's "no match" value.
 */
module Locator {
  import opened Imaging
  import opened RegionClipper
  import opened TemplateMatcher
  import opened DuplicateSuppressor

  /** An absent image, or a rectangular one. */
  ghost predicate Loaded(img: Option<Image>)
  {
    img.Some? ==> IsRect(img.value)
  }

  /**
   * The area the presence check searches: the whole frame when no region is
   * requested, the clamped region's sub-frame when it is accepted, and None
   * when the region is rejected.
   */
  function SearchArea(frame: Image, roi: Option<Region>): (area: Option<Image>)
    requires IsRect(frame)
    ensures area.Some? ==> IsRect(area.value)
    ensures roi.None? ==> area == Some(frame)
    ensures roi.Some? ==> (area.Some? <==> ClampRegion(Cols(frame), |frame|, roi.value).Some?)
    ensures roi.Some? && area.Some? ==>
              area.value == Crop(frame, ClampRegion(Cols(frame), |frame|, roi.value).value)
  {
    match roi
    case None => Some(frame)
    case Some(r) =>
      match ClampRegion(Cols(frame), |frame|, r)
      case None => None
      case Some(c) => Some(Crop(frame, c))
  }

  /**
   * check_has_img: true exactly when a frame and a template were obtained,
   * the region (if any) is accepted, the template fits the searched area and
   * some placement in that area scores at least the threshold.
   */
  function CheckHasImg(frame: Option<Image>, tmpl: Option<Image>, threshold: real,
                       roi: Option<Region>, corr: Correlation): (found: bool)
    requires Loaded(frame) && Loaded(tmpl)
    ensures found <==>
              && frame.Some? && tmpl.Some?
              && SearchArea(frame.value, roi).Some?
              && Matches(SearchArea(frame.value, roi).value, tmpl.value, corr, threshold)
    ensures (&& frame.Some? && tmpl.Some? && SearchArea(frame.value, roi).Some?
             && TooLarge(SearchArea(frame.value, roi).value, tmpl.value)) ==> !found
  {
    if frame.None? then false
    else
      match SearchArea(frame.value, roi)
      case None => false
      case Some(area) =>
        if tmpl.None? then false
        else if TooLarge(area, tmpl.value) then false
        else if !Fits(area, tmpl.value) then false
        else
          var res := MatchTemplate(area, tmpl.value, corr);
          PresenceIsMatch(area, tmpl.value, corr, threshold);
          AnyAtLeast(res, threshold)
  }

  /** The presence test over the score map is the existence of a placement reaching the threshold. */
  lemma PresenceIsMatch(area: Image, tmpl: Image, corr: Correlation, threshold: real)
    requires IsRect(area) && Fits(area, tmpl)
    ensures AnyAtLeast(MatchTemplate(area, tmpl, corr), threshold) <==> Matches(area, tmpl, corr, threshold)
  {
    var res := MatchTemplate(area, tmpl, corr);
    if AnyAtLeast(res, threshold) {
      var y, x :| 0 <= y < |res| && 0 <= x < |res[y]| && res[y][x] >= threshold;
      assert Placement(area, tmpl, x, y) && Score(area, tmpl, corr, x, y) >= threshold;
    }
    if Matches(area, tmpl, corr, threshold) {
      var x, y :| Placement(area, tmpl, x, y) && Score(area, tmpl, corr, x, y) >= threshold;
      assert 0 <= y < |res| && 0 <= x < |res[y]| && res[y][x] >= threshold;
    }
  }

  /**
   * find_img_center: the centre of the location the maximum search returns,
   * when its score reaches the threshold; None when it does not, when the
   * frame or template is absent, or when the matcher refuses the template.
   * The best match is found exactly when some placement reaches the
   * threshold, and then it is the centre of a placement whose score is at
   * least the threshold and at least every other placement's score (the
   * placement whose top-left corner lies half the template size above and
   * to the left of it).
   */
  function FindImgCenter(frame: Option<Image>, tmpl: Option<Image>, threshold: real,
                         corr: Correlation): (center: Option<Point>)
    requires Loaded(frame) && Loaded(tmpl)
    ensures center.Some? <==> frame.Some? && tmpl.Some? && Matches(frame.value, tmpl.value, corr, threshold)
    ensures center.Some? ==>
              && frame.Some? && tmpl.Some?
              && var x, y := center.value.x - Cols(tmpl.value) / 2, center.value.y - |tmpl.value| / 2;
                 && BestPlacement(frame.value, tmpl.value, corr, x, y)
                 && Score(frame.value, tmpl.value, corr, x, y) >= threshold
  {
    if frame.None? || tmpl.None? then None
    else if !Fits(frame.value, tmpl.value) then None
    else
      var area, t := frame.value, tmpl.value;
      var res := MatchTemplate(area, t, corr);
      var loc := MaxLoc(res);
      BestIsMaxLoc(area, t, corr, threshold, loc);
      if res[loc.y][loc.x] >= threshold then
        Some(Center(loc, Cols(t), |t|))
      else
        None
  }

  /** The location the score map's maximum search returns is a best placement. */
  lemma BestIsMaxLoc(area: Image, tmpl: Image, corr: Correlation, threshold: real, loc: Point)
    requires IsRect(area) && Fits(area, tmpl)
    requires loc == MaxLoc(MatchTemplate(area, tmpl, corr))
    ensures BestPlacement(area, tmpl, corr, loc.x, loc.y)
    ensures MatchTemplate(area, tmpl, corr)[loc.y][loc.x] == Score(area, tmpl, corr, loc.x, loc.y)
    ensures Matches(area, tmpl, corr, threshold) <==> Score(area, tmpl, corr, loc.x, loc.y) >= threshold
  {
    var res := MatchTemplate(area, tmpl, corr);
    assert Placement(area, tmpl, loc.x, loc.y);
    forall x', y' | Placement(area, tmpl, x', y')
      ensures Score(area, tmpl, corr, x', y') <= Score(area, tmpl, corr, loc.x, loc.y)
    {
      assert res[y'][x'] <= res[loc.y][loc.x];
    }
  }

  /** min_distance: half the larger side of the template, rounded down. */
  function MinDistance(tw: nat, th: nat): nat
  {
    Max(tw, th) / 2
  }

  /** The centres of the given top-left placements, in the same order. */
  function Centers(locs: seq<Point>, tw: nat, th: nat): seq<Point>
  {
    seq(|locs|, i requires 0 <= i < |locs| => Center(locs[i], tw, th))
  }

  /** The loop of find_all_img_centers that turns each top-left location into a centre. */
  method CentersOf(locs: seq<Point>, tw: nat, th: nat) returns (centers: seq<Point>)
    ensures centers == Centers(locs, tw, th)
    ensures |centers| == |locs|
    ensures forall i :: 0 <= i < |locs| ==>
              centers[i].x == locs[i].x + tw / 2 && centers[i].y == locs[i].y + th / 2
  {
    centers := [];
    for i := 0 to |locs|
      invariant |centers| == i
      invariant forall k :: 0 <= k < i ==> centers[k] == Center(locs[k], tw, th)
    {
      var topLeft := locs[i];
      centers := centers + [Point(topLeft.x + tw / 2, topLeft.y + th / 2)];
    }
  }

  /** The centres of every placement reaching the threshold, before duplicate suppression. */
  function RawCenters(area: Image, tmpl: Image, threshold: real, corr: Correlation): seq<Point>
    requires IsRect(area) && Fits(area, tmpl)
  {
    Centers(MatchLocations(MatchTemplate(area, tmpl, corr), threshold), Cols(tmpl), |tmpl|)
  }

  /** What find_all_img_centers returns. */
  function AllImgCenters(frame: Option<Image>, tmpl: Option<Image>, threshold: real,
                         corr: Correlation): seq<Point>
    requires Loaded(frame) && Loaded(tmpl)
  {
    if frame.None? || tmpl.None? || !Fits(frame.value, tmpl.value) then []
    else
      var t := tmpl.value;
      Suppressed(RawCenters(frame.value, t, threshold, corr), MinDistance(Cols(t), |t|))
  }

  /**
   * find_all_img_centers: the suppressed list of match centres; every
   * returned point is the centre of a placement reaching the threshold, and
   * the list is empty exactly when there is no such placement.
   */
  method FindAllImgCenters(frame: Option<Image>, tmpl: Option<Image>, threshold: real,
                           corr: Correlation) returns (centers: seq<Point>)
    requires Loaded(frame) && Loaded(tmpl)
    ensures centers == AllImgCenters(frame, tmpl, threshold, corr)
    ensures |centers| > 0 <==> frame.Some? && tmpl.Some? && Matches(frame.value, tmpl.value, corr, threshold)
    ensures forall c :: c in centers ==>
              && frame.Some? && tmpl.Some? && Fits(frame.value, tmpl.value)
              && exists x, y ::
                   && Placement(frame.value, tmpl.value, x, y)
                   && Score(frame.value, tmpl.value, corr, x, y) >= threshold
                   && c == Center(Point(x, y), Cols(tmpl.value), |tmpl.value|)
  {
    if frame.None? || tmpl.None? {
      return [];
    }
    var area, t := frame.value, tmpl.value;
    if !Fits(area, t) {
      return [];
    }
    var res := MatchTemplate(area, t, corr);
    var loc := MatchLocations(res, threshold);
    var raw := CentersOf(loc, Cols(t), |t|);
    assert raw == RawCenters(area, t, threshold, corr);
    centers := SuppressDuplicates(raw, MinDistance(Cols(t), |t|));
    AllCentersAreMatches(area, t, threshold, corr);
  }

  /** Each raw centre is the centre of a placement reaching the threshold. */
  lemma RawCenterIsMatch(area: Image, tmpl: Image, threshold: real, corr: Correlation, c: Point)
    requires IsRect(area) && Fits(area, tmpl)
    requires c in RawCenters(area, tmpl, threshold, corr)
    ensures exists x, y :: && Placement(area, tmpl, x, y)
                           && Score(area, tmpl, corr, x, y) >= threshold
                           && c == Center(Point(x, y), Cols(tmpl), |tmpl|)
  {
    var res := MatchTemplate(area, tmpl, corr);
    var loc := MatchLocations(res, threshold);
    var raw := RawCenters(area, tmpl, threshold, corr);
    var i :| 0 <= i < |raw| && raw[i] == c;
    var p := loc[i];
    assert p in loc;
    assert 0 <= p.y < |res| && 0 <= p.x < |res[p.y]| && res[p.y][p.x] >= threshold;
    assert Placement(area, tmpl, p.x, p.y);
    assert Score(area, tmpl, corr, p.x, p.y) >= threshold;
  }

  /** The centre of every placement reaching the threshold is a raw centre. */
  lemma MatchIsRawCenter(area: Image, tmpl: Image, threshold: real, corr: Correlation, x: int, y: int)
    requires IsRect(area) && Fits(area, tmpl)
    requires Placement(area, tmpl, x, y) && Score(area, tmpl, corr, x, y) >= threshold
    ensures Center(Point(x, y), Cols(tmpl), |tmpl|) in RawCenters(area, tmpl, threshold, corr)
  {
    var res := MatchTemplate(area, tmpl, corr);
    var loc := MatchLocations(res, threshold);
    var raw := RawCenters(area, tmpl, threshold, corr);
    assert 0 <= y < |res| && 0 <= x < |res[y]| && res[y][x] >= threshold;
    assert Point(x, y) in loc;
    var i :| 0 <= i < |loc| && loc[i] == Point(x, y);
    assert raw[i] == Center(Point(x, y), Cols(tmpl), |tmpl|);
  }

  /**
   * The raw centres are exactly the centres of the placements reaching the
   * threshold, in row-major scan order.
   */
  lemma RawCentersExact(area: Image, tmpl: Image, threshold: real, corr: Correlation)
    requires IsRect(area) && Fits(area, tmpl)
    ensures forall c :: c in RawCenters(area, tmpl, threshold, corr) <==>
              exists x, y :: && Placement(area, tmpl, x, y)
                             && Score(area, tmpl, corr, x, y) >= threshold
                             && c == Center(Point(x, y), Cols(tmpl), |tmpl|)
    ensures StrictlyRowMajor(RawCenters(area, tmpl, threshold, corr))
  {
    forall c | c in RawCenters(area, tmpl, threshold, corr)
      ensures exists x, y :: && Placement(area, tmpl, x, y)
                             && Score(area, tmpl, corr, x, y) >= threshold
                             && c == Center(Point(x, y), Cols(tmpl), |tmpl|)
    {
      RawCenterIsMatch(area, tmpl, threshold, corr, c);
    }
    forall x, y | Placement(area, tmpl, x, y) && Score(area, tmpl, corr, x, y) >= threshold
      ensures Center(Point(x, y), Cols(tmpl), |tmpl|) in RawCenters(area, tmpl, threshold, corr)
    {
      MatchIsRawCenter(area, tmpl, threshold, corr, x, y);
    }
    var loc := MatchLocations(MatchTemplate(area, tmpl, corr), threshold);
    var raw := RawCenters(area, tmpl, threshold, corr);
    forall i, j | 0 <= i < j < |raw| ensures RowMajorBefore(raw[i], raw[j]) {
      assert RowMajorBefore(loc[i], loc[j]);
    }
  }

  /** Shifting every point by the same displacement keeps a subsequence a subsequence. */
  lemma {:induction false} CentersKeepSubseq(a: seq<Point>, b: seq<Point>, tw: nat, th: nat)
    requires Subseq(a, b)
    ensures Subseq(Centers(a, tw, th), Centers(b, tw, th))
    decreases |b|
  {
    if |a| > 0 {
      var a', b' := a[..|a| - 1], b[..|b| - 1];
      assert Centers(b, tw, th)[..|b| - 1] == Centers(b', tw, th);
      if a[|a| - 1] == b[|b| - 1] && Subseq(a', b') {
        CentersKeepSubseq(a', b', tw, th);
        assert Centers(a, tw, th)[..|a| - 1] == Centers(a', tw, th);
      } else {
        CentersKeepSubseq(a, b', tw, th);
      }
    }
  }

  /** Raising the threshold keeps a subsequence of the raw centres. */
  lemma RawCentersThresholdMonotone(area: Image, tmpl: Image, t1: real, t2: real, corr: Correlation)
    requires IsRect(area) && Fits(area, tmpl) && t1 <= t2
    ensures Subseq(RawCenters(area, tmpl, t2, corr), RawCenters(area, tmpl, t1, corr))
  {
    var res := MatchTemplate(area, tmpl, corr);
    MatchLocationsMonotone(res, t1, t2);
    CentersKeepSubseq(MatchLocations(res, t2), MatchLocations(res, t1), Cols(tmpl), |tmpl|);
  }

  /**
   * The returned centres are raw centres in scan order, at least
   * min_distance apart, and start with the first raw centre.
   */
  lemma AllCentersAreMatches(area: Image, tmpl: Image, threshold: real, corr: Correlation)
    requires IsRect(area) && IsRect(tmpl) && Fits(area, tmpl)
    ensures var raw := RawCenters(area, tmpl, threshold, corr);
            var all := AllImgCenters(Some(area), Some(tmpl), threshold, corr);
            && Subseq(all, raw)
            && Separated(all, MinDistance(Cols(tmpl), |tmpl|))
            && (|raw| > 0 ==> |all| > 0 && all[0] == raw[0])
            && (|all| > 0 <==> Matches(area, tmpl, corr, threshold))
            && forall c :: c in all ==>
                 exists x, y :: && Placement(area, tmpl, x, y)
                                && Score(area, tmpl, corr, x, y) >= threshold
                                && c == Center(Point(x, y), Cols(tmpl), |tmpl|)
  {
    var raw := RawCenters(area, tmpl, threshold, corr);
    var m := MinDistance(Cols(tmpl), |tmpl|);
    var all := Suppressed(raw, m);
    SuppressedIsSubseq(raw, m);
    SubseqMembers(all, raw);
    SuppressedIsSeparated(raw, m);
    RawCentersExact(area, tmpl, threshold, corr);
    if |raw| > 0 {
      SuppressedKeepsFirst(raw, m);
      assert raw[0] in raw;
    }
    if |all| > 0 {
      assert all[0] in all;
    }
    if Matches(area, tmpl, corr, threshold) {
      var x, y :| Placement(area, tmpl, x, y) && Score(area, tmpl, corr, x, y) >= threshold;
      assert Center(Point(x, y), Cols(tmpl), |tmpl|) in raw;
    }
  }

  /** Raising the threshold can only turn a found template into a missing one. */
  lemma CheckHasImgThresholdMonotone(frame: Option<Image>, tmpl: Option<Image>, t1: real, t2: real,
                                     roi: Option<Region>, corr: Correlation)
    requires Loaded(frame) && Loaded(tmpl) && t1 <= t2
    ensures CheckHasImg(frame, tmpl, t2, roi, corr) ==> CheckHasImg(frame, tmpl, t1, roi, corr)
  {
    if CheckHasImg(frame, tmpl, t2, roi, corr) {
      var area := SearchArea(frame.value, roi).value;
      var x, y :| Placement(area, tmpl.value, x, y) && Score(area, tmpl.value, corr, x, y) >= t2;
      assert Score(area, tmpl.value, corr, x, y) >= t1;
    }
  }

  /** Without a region, the presence check and the best match agree on whether there is a match. */
  lemma PresenceAgreesWithBestMatch(frame: Option<Image>, tmpl: Option<Image>, threshold: real,
                                    corr: Correlation)
    requires Loaded(frame) && Loaded(tmpl)
    ensures CheckHasImg(frame, tmpl, threshold, None, corr)
            == FindImgCenter(frame, tmpl, threshold, corr).Some?
            == (|AllImgCenters(frame, tmpl, threshold, corr)| > 0)
  {
    if frame.Some? && tmpl.Some? && Fits(frame.value, tmpl.value) {
      AllCentersAreMatches(frame.value, tmpl.value, threshold, corr);
    }
  }

  /** A window of a cut-out sub-frame is the window of the frame at the shifted position. */
  lemma CropWindow(frame: Image, r: Region, x: nat, y: nat, w: nat, h: nat)
    requires IsRect(frame) && InFrame(r, Cols(frame), |frame|)
    requires x + w <= r.x2 - r.x1 && y + h <= r.y2 - r.y1
    ensures Window(Crop(frame, r), x, y, w, h) == Window(frame, r.x1 + x, r.y1 + y, w, h)
  {
    var a := Window(Crop(frame, r), x, y, w, h);
    var b := Window(frame, r.x1 + x, r.y1 + y, w, h);
    forall i | 0 <= i < h ensures a[i] == b[i] {
      forall j | 0 <= j < w ensures a[i][j] == b[i][j] {
      }
    }
  }

  /** A match inside an accepted region is a match of the whole frame. */
  lemma RegionMatchIsFrameMatch(frame: Option<Image>, tmpl: Option<Image>, threshold: real,
                                roi: Region, corr: Correlation)
    requires Loaded(frame) && Loaded(tmpl)
    ensures CheckHasImg(frame, tmpl, threshold, Some(roi), corr) ==> CheckHasImg(frame, tmpl, threshold, None, corr)
  {
    if CheckHasImg(frame, tmpl, threshold, Some(roi), corr) {
      var f, t := frame.value, tmpl.value;
      var r := ClampRegion(Cols(f), |f|, roi).value;
      var area := Crop(f, r);
      var x, y :| Placement(area, t, x, y) && Score(area, t, corr, x, y) >= threshold;
      CropWindow(f, r, x, y, Cols(t), |t|);
      assert Placement(f, t, r.x1 + x, r.y1 + y);
      assert Score(f, t, corr, r.x1 + x, r.y1 + y) == Score(area, t, corr, x, y);
    }
  }

  /** A region overhanging the frame on every side searches exactly the whole frame. */
  lemma OverhangingRegionSearchesWholeFrame(frame: Option<Image>, tmpl: Option<Image>, threshold: real,
                                            margin: int, corr: Correlation)
    requires Loaded(frame) && Loaded(tmpl) && 0 <= margin
    requires frame.Some? ==> 0 < |frame.value| && 0 < Cols(frame.value)
    ensures var roi := if frame.Some? then Region(-margin, -margin, Cols(frame.value) + margin, |frame.value| + margin)
                       else Region(0, 0, 1, 1);
            CheckHasImg(frame, tmpl, threshold, Some(roi), corr) == CheckHasImg(frame, tmpl, threshold, None, corr)
  {
    if frame.Some? {
      var f := frame.value;
      OverhangingRegionIsWholeFrame(Cols(f), |f|, margin);
      CropWholeFrame(f);
    }
  }

  /**
   * A frame that holds an exact copy of the template, under a correlation
   * that scores an identical window 1 and no window more, is found at that
   * copy whenever the threshold is at most 1 and no other placement also
   * scores 1 (a normalised correlation scores 1 for a brightened or
   * contrast-stretched copy as well, so such a copy elsewhere is excluded).
   */
  lemma ExactCopyIsFound(frame: Image, tmpl: Image, threshold: real, corr: Correlation, ox: nat, oy: nat)
    requires IsRect(frame) && IsRect(tmpl) && Fits(frame, tmpl) && Placement(frame, tmpl, ox, oy)
    requires Window(frame, ox, oy, Cols(tmpl), |tmpl|) == tmpl
    requires corr(tmpl, tmpl) == 1.0
    requires forall w :: corr(w, tmpl) <= 1.0
    requires forall x, y :: Placement(frame, tmpl, x, y) && Score(frame, tmpl, corr, x, y) == 1.0 ==>
               x == ox && y == oy
    requires threshold <= 1.0
    ensures FindImgCenter(Some(frame), Some(tmpl), threshold, corr)
            == Some(Point(ox + Cols(tmpl) / 2, oy + |tmpl| / 2))
  {
    assert Score(frame, tmpl, corr, ox, oy) == 1.0;
    forall x, y | Placement(frame, tmpl, x, y) && (x != ox || y != oy)
      ensures Score(frame, tmpl, corr, x, y) < Score(frame, tmpl, corr, ox, oy)
    {
      assert corr(Window(frame, x, y, Cols(tmpl), |tmpl|), tmpl) <= 1.0;
    }
    UniqueBestIsFound(frame, tmpl, threshold, corr, ox, oy);
  }

  /**
   * A placement that scores at least the threshold and strictly more than
   * every other placement is the one whose centre the best match returns.
   */
  lemma UniqueBestIsFound(frame: Image, tmpl: Image, threshold: real, corr: Correlation, ox: nat, oy: nat)
    requires IsRect(frame) && IsRect(tmpl) && Fits(frame, tmpl) && Placement(frame, tmpl, ox, oy)
    requires Score(frame, tmpl, corr, ox, oy) >= threshold
    requires forall x, y :: Placement(frame, tmpl, x, y) && (x != ox || y != oy) ==>
               Score(frame, tmpl, corr, x, y) < Score(frame, tmpl, corr, ox, oy)
    ensures FindImgCenter(Some(frame), Some(tmpl), threshold, corr)
            == Some(Point(ox + Cols(tmpl) / 2, oy + |tmpl| / 2))
  {
    assert Matches(frame, tmpl, corr, threshold);
    var c := FindImgCenter(Some(frame), Some(tmpl), threshold, corr);
    var x, y := c.value.x - Cols(tmpl) / 2, c.value.y - |tmpl| / 2;
    assert Score(frame, tmpl, corr, ox, oy) <= Score(frame, tmpl, corr, x, y);
  }

  /** The same exact copy makes the presence check succeed. */
  lemma ExactCopyMatches(frame: Image, tmpl: Image, threshold: real, corr: Correlation, ox: nat, oy: nat)
    requires IsRect(frame) && IsRect(tmpl) && Fits(frame, tmpl) && Placement(frame, tmpl, ox, oy)
    requires Window(frame, ox, oy, Cols(tmpl), |tmpl|) == tmpl
    requires corr(tmpl, tmpl) == 1.0
    requires threshold <= 1.0
    ensures Matches(frame, tmpl, corr, threshold)
    ensures CheckHasImg(Some(frame), Some(tmpl), threshold, None, corr)
  {
    assert Score(frame, tmpl, corr, ox, oy) >= threshold;
  }

}
