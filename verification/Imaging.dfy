/**
 * Values shared by every component of the matcher: optional results, pixel
 * grids (captured frames, templates and score maps), points and the
 * subsequence relation used to state how result lists relate.
 */
module Imaging {

  datatype Option<T> = None | Some(value: T)

  /** One colour sample of a capture or a template, in blue-green-red order. */
  datatype Pixel = Pixel(b: int, g: int, r: int)

  /** A row-major 2-D grid: row y, column x is g[y][x]; its height is |g|. */
  type Grid<T> = seq<seq<T>>

  /** A captured frame or a template image. */
  type Image = Grid<Pixel>

  /** One similarity score per top-left placement of a template. */
  type ScoreMap = Grid<real>

  /** The width of a grid, read off its first row as the array shape does. */
  function Cols<T>(g: Grid<T>): nat
  {
    if |g| == 0 then 0 else |g[0]|
  }

  /** Every row has the same length (a 2-D array is never ragged). */
  ghost predicate IsRect<T>(g: Grid<T>)
  {
    forall y :: 0 <= y < |g| ==> |g[y]| == Cols(g)
  }

  /** A pixel coordinate or a displacement in frame space. */
  datatype Point = Point(x: int, y: int)

  /** p displaced by d. */
  function Add(p: Point, d: Point): Point
  {
    Point(p.x + d.x, p.y + d.y)
  }

  /** The squared Euclidean distance between two points. */
  function Dist2(p: Point, q: Point): int
  {
    (p.x - q.x) * (p.x - q.x) + (p.y - q.y) * (p.y - q.y)
  }

  /** p comes strictly before q when a grid is scanned row by row, left to right. */
  predicate RowMajorBefore(p: Point, q: Point)
  {
    p.y < q.y || (p.y == q.y && p.x < q.x)
  }

  ghost predicate StrictlyRowMajor(s: seq<Point>)
  {
    forall i, j :: 0 <= i < j < |s| ==> RowMajorBefore(s[i], s[j])
  }

  /** a can be obtained from b by deleting elements (order is kept). */
  ghost predicate Subseq<T>(a: seq<T>, b: seq<T>)
    decreases |b|
  {
    || |a| == 0
    || (&& |b| > 0
        && (|| (a[|a| - 1] == b[|b| - 1] && Subseq(a[..|a| - 1], b[..|b| - 1]))
            || Subseq(a, b[..|b| - 1])))
  }

  /** Every element of a subsequence is an element of the larger sequence. */
  lemma {:induction false} SubseqMembers<T>(a: seq<T>, b: seq<T>)
    requires Subseq(a, b)
    ensures forall x :: x in a ==> x in b
    decreases |b|
  {
    if |a| > 0 {
      var a', b' := a[..|a| - 1], b[..|b| - 1];
      if a[|a| - 1] == b[|b| - 1] && Subseq(a', b') {
        SubseqMembers(a', b');
        forall x | x in a ensures x in b {
          if x != a[|a| - 1] {
            assert x in a';
            assert x in b';
          }
        }
      } else {
        SubseqMembers(a, b');
      }
    }
  }

  lemma SubseqSnocRight<T>(a: seq<T>, b: seq<T>, x: T)
    requires Subseq(a, b)
    ensures Subseq(a, b + [x])
  {
    assert (b + [x])[..|b|] == b;
  }

  lemma SubseqSnocBoth<T>(a: seq<T>, b: seq<T>, x: T)
    requires Subseq(a, b)
    ensures Subseq(a + [x], b + [x])
  {
    assert (a + [x])[..|a|] == a;
    assert (b + [x])[..|b|] == b;
  }

  lemma {:induction false} SubseqAppendRight<T>(a: seq<T>, b: seq<T>, d: seq<T>)
    requires Subseq(a, b)
    ensures Subseq(a, b + d)
    decreases |d|
  {
    if |d| > 0 {
      var d' := d[..|d| - 1];
      SubseqAppendRight(a, b, d');
      SubseqSnocRight(a, b + d', d[|d| - 1]);
      assert b + d' + [d[|d| - 1]] == b + d;
    } else {
      assert b + d == b;
    }
  }

  /** Subsequences of the two halves give a subsequence of the concatenation. */
  lemma {:induction false} SubseqConcat<T>(a: seq<T>, b: seq<T>, c: seq<T>, d: seq<T>)
    requires Subseq(a, b) && Subseq(c, d)
    ensures Subseq(a + c, b + d)
    decreases |d|
  {
    if |c| == 0 {
      assert a + c == a;
      SubseqAppendRight(a, b, d);
    } else {
      var c', d' := c[..|c| - 1], d[..|d| - 1];
      assert (b + d)[..|b + d| - 1] == b + d';
      if c[|c| - 1] == d[|d| - 1] && Subseq(c', d') {
        SubseqConcat(a, b, c', d');
        assert (a + c)[..|a + c| - 1] == a + c';
      } else {
        SubseqConcat(a, b, c, d');
      }
    }
  }
}
