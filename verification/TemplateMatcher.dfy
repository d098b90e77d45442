/**
 * TemplateMatcher: the score map of a template over a search area and the
 * queries that read it (base.py:56-75, 115-135, 171-191).
 *
 * The similarity measure itself (normalised cross-correlation, computed by a
 * foreign library) is a parameter: a function from a template-sized window of
 * the search area and the template to a score. The model builds the map from
 * it, one score per top-left placement of the template inside the area.
 */
module TemplateMatcher {
  import opened Imaging

  /** Scores an equal-sized window of the search area against the template. */
  type Correlation = (Image, Image) -> real

  /** The size guard of the presence check: the template is taller or wider than the area. */
  predicate TooLarge(area: Image, tmpl: Image)
  {
    |tmpl| > |area| || Cols(tmpl) > Cols(area)
  }

  /**
   * The matcher produces a score map: the template is non-empty and not too
   * large (otherwise the foreign matcher raises, which the callers turn into
   * "no match").
   */
  predicate Fits(area: Image, tmpl: Image)
  {
    0 < |tmpl| && 0 < Cols(tmpl) && !TooLarge(area, tmpl)
  }

  /** (x, y) is a top-left position at which the whole template lies inside the area. */
  predicate Placement(area: Image, tmpl: Image, x: int, y: int)
  {
    0 <= x <= Cols(area) - Cols(tmpl) && 0 <= y <= |area| - |tmpl|
  }

  /** The w-by-h window of the area whose top-left corner is (x, y). */
  function Window(area: Image, x: nat, y: nat, w: nat, h: nat): (p: Image)
    requires IsRect(area) && x + w <= Cols(area) && y + h <= |area|
    ensures |p| == h && forall i :: 0 <= i < h ==> |p[i]| == w
    ensures forall i, j :: 0 <= i < h && 0 <= j < w ==> p[i][j] == area[y + i][x + j]
  {
    seq(h, i requires 0 <= i < h => area[y + i][x..x + w])
  }

  /** The score of the placement (x, y). */
  function Score(area: Image, tmpl: Image, corr: Correlation, x: int, y: int): real
    requires IsRect(area) && Fits(area, tmpl) && Placement(area, tmpl, x, y)
  {
    corr(Window(area, x, y, Cols(tmpl), |tmpl|), tmpl)
  }

  /**
   * The score map: (H - th + 1) rows of (W - tw + 1) scores, the score at
   * row y, column x being that of the placement (x, y).
   */
  function MatchTemplate(area: Image, tmpl: Image, corr: Correlation): (res: ScoreMap)
    requires IsRect(area) && Fits(area, tmpl)
    ensures |res| == |area| - |tmpl| + 1 && Cols(res) == Cols(area) - Cols(tmpl) + 1 && IsRect(res)
    ensures forall x, y :: Placement(area, tmpl, x, y) <==> 0 <= y < |res| && 0 <= x < |res[y]|
    ensures forall y, x :: 0 <= y < |res| && 0 <= x < |res[y]| ==> res[y][x] == Score(area, tmpl, corr, x, y)
  {
    var rows, cols := |area| - |tmpl| + 1, Cols(area) - Cols(tmpl) + 1;
    seq(rows, y requires 0 <= y < rows =>
      seq(cols, x requires 0 <= x < cols => Score(area, tmpl, corr, x, y)))
  }

  /** Some placement of the template scores at least the threshold. */
  ghost predicate Matches(area: Image, tmpl: Image, corr: Correlation, threshold: real)
    requires IsRect(area)
  {
    && Fits(area, tmpl)
    && exists x, y :: Placement(area, tmpl, x, y) && Score(area, tmpl, corr, x, y) >= threshold
  }

  /** (x, y) is a placement whose score no other placement exceeds. */
  ghost predicate BestPlacement(area: Image, tmpl: Image, corr: Correlation, x: int, y: int)
    requires IsRect(area)
  {
    && Fits(area, tmpl)
    && Placement(area, tmpl, x, y)
    && forall x', y' :: Placement(area, tmpl, x', y') ==>
         Score(area, tmpl, corr, x', y') <= Score(area, tmpl, corr, x, y)
  }

  /** The centre of the template placed with its top-left corner at p. */
  function Center(p: Point, tw: nat, th: nat): Point
  {
    Point(p.x + tw / 2, p.y + th / 2)
  }

  /** The columns of one score row that reach the threshold, left to right, as points of row y. */
  function RowLocations(row: seq<real>, threshold: real, y: int): (r: seq<Point>)
    ensures forall p :: p in r <==> p.y == y && 0 <= p.x < |row| && row[p.x] >= threshold
    ensures forall i, j :: 0 <= i < j < |r| ==> r[i].x < r[j].x
    decreases |row|
  {
    if |row| == 0 then []
    else
      var last := |row| - 1;
      var before := RowLocations(row[..last], threshold, y);
      if row[last] >= threshold then
        assert forall i :: 0 <= i < |before| ==> before[i] in before;
        before + [Point(last, y)]
      else
        before
  }

  /**
   * The placements whose score reaches the threshold, as the array library's
   * index search lists them: exactly those, in row-major scan order.
   */
  function MatchLocations(res: ScoreMap, threshold: real): (r: seq<Point>)
    ensures forall p :: p in r <==> 0 <= p.y < |res| && 0 <= p.x < |res[p.y]| && res[p.y][p.x] >= threshold
    ensures StrictlyRowMajor(r)
    decreases |res|
  {
    if |res| == 0 then []
    else
      var last := |res| - 1;
      var before, here := MatchLocations(res[..last], threshold), RowLocations(res[last], threshold, last);
      RowMajorConcat(before, here, last);
      before + here
  }

  /** Earlier rows' locations, then one row's locations left to right, are in scan order. */
  lemma RowMajorConcat(a: seq<Point>, b: seq<Point>, y: int)
    requires StrictlyRowMajor(a) && forall p :: p in a ==> p.y < y
    requires forall p :: p in b ==> p.y == y
    requires forall i, j :: 0 <= i < j < |b| ==> b[i].x < b[j].x
    ensures StrictlyRowMajor(a + b)
  {
    forall i, j | 0 <= i < j < |a + b| ensures RowMajorBefore((a + b)[i], (a + b)[j]) {
      if j < |a| {
      } else if i < |a| {
        assert a[i] in a && b[j - |a|] in b;
      } else {
        assert b[i - |a|] in b && b[j - |a|] in b;
      }
    }
  }

  /** A higher threshold keeps a subsequence of the locations of a lower one. */
  lemma {:induction false} RowLocationsMonotone(row: seq<real>, t1: real, t2: real, y: int)
    requires t1 <= t2
    ensures Subseq(RowLocations(row, t2, y), RowLocations(row, t1, y))
    decreases |row|
  {
    if |row| > 0 {
      var last := |row| - 1;
      var a, b := RowLocations(row[..last], t2, y), RowLocations(row[..last], t1, y);
      RowLocationsMonotone(row[..last], t1, t2, y);
      var p := Point(last, y);
      if row[last] >= t2 {
        assert RowLocations(row, t2, y) == a + [p];
        assert RowLocations(row, t1, y) == b + [p];
        SubseqSnocBoth(a, b, p);
      } else if row[last] >= t1 {
        assert RowLocations(row, t2, y) == a;
        assert RowLocations(row, t1, y) == b + [p];
        SubseqSnocRight(a, b, p);
      } else {
        assert RowLocations(row, t2, y) == a;
        assert RowLocations(row, t1, y) == b;
      }
    }
  }

  lemma {:induction false} MatchLocationsMonotone(res: ScoreMap, t1: real, t2: real)
    requires t1 <= t2
    ensures Subseq(MatchLocations(res, t2), MatchLocations(res, t1))
    decreases |res|
  {
    if |res| > 0 {
      var last := |res| - 1;
      MatchLocationsMonotone(res[..last], t1, t2);
      RowLocationsMonotone(res[last], t1, t2, last);
      SubseqConcat(MatchLocations(res[..last], t2), MatchLocations(res[..last], t1),
                   RowLocations(res[last], t2, last), RowLocations(res[last], t1, last));
    }
  }

  /** The presence test: the index search found at least one placement. */
  function AnyAtLeast(res: ScoreMap, threshold: real): (found: bool)
    ensures found <==> exists y, x :: 0 <= y < |res| && 0 <= x < |res[y]| && res[y][x] >= threshold
  {
    var loc := MatchLocations(res, threshold);
    LocationsNonEmpty(res, threshold, loc);
    |loc| > 0
  }

  lemma LocationsNonEmpty(res: ScoreMap, threshold: real, loc: seq<Point>)
    requires loc == MatchLocations(res, threshold)
    ensures |loc| > 0 <==> exists y, x :: 0 <= y < |res| && 0 <= x < |res[y]| && res[y][x] >= threshold
  {
    if |loc| > 0 {
      var p := loc[0];
      assert p in loc;
      assert 0 <= p.y < |res| && 0 <= p.x < |res[p.y]| && res[p.y][p.x] >= threshold;
    }
    if exists y, x :: 0 <= y < |res| && 0 <= x < |res[y]| && res[y][x] >= threshold {
      var y, x :| 0 <= y < |res| && 0 <= x < |res[y]| && res[y][x] >= threshold;
      assert Point(x, y) in loc;
    }
  }

  /** The position of a largest entry of one row. */
  function RowArgMax(row: seq<real>): (k: nat)
    requires |row| > 0
    ensures k < |row| && forall i :: 0 <= i < |row| ==> row[i] <= row[k]
    decreases |row|
  {
    if |row| == 1 then 0
    else
      var k := RowArgMax(row[..|row| - 1]);
      if row[|row| - 1] > row[k] then |row| - 1 else k
  }

  /**
   * The location of a largest score of a non-empty score map (the first one
   * in scan order, although callers may rely only on its being maximal).
   */
  function MaxLoc(res: ScoreMap): (p: Point)
    requires 0 < |res| && 0 < Cols(res) && IsRect(res)
    ensures 0 <= p.y < |res| && 0 <= p.x < |res[p.y]|
    ensures forall y, x :: 0 <= y < |res| && 0 <= x < |res[y]| ==> res[y][x] <= res[p.y][p.x]
    decreases |res|
  {
    if |res| == 1 then Point(RowArgMax(res[0]), 0)
    else
      var last := |res| - 1;
      var p := MaxLoc(res[..last]);
      var k := RowArgMax(res[last]);
      if res[last][k] > res[p.y][p.x] then Point(k, last) else p
  }
}
