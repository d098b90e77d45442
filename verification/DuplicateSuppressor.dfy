/**
 * DuplicateSuppressor: the greedy single pass of find_all_img_centers that
 * keeps a centre only when it is at least min_distance away from every centre
 * kept before it (base.py:195-210).
 *
 * The source compares the Euclidean distance sqrt(dx*dx + dy*dy) with the
 * integer min_distance; for a non-negative integer m that test is exactly
 * dx*dx + dy*dy < m*m (see SqrtTestIsSquaredTest), which the model uses.
 */
module DuplicateSuppressor {
  import opened Imaging

  /** p is closer than m to some point of kept. */
  predicate NearAny(p: Point, kept: seq<Point>, m: nat)
  {
    exists k :: 0 <= k < |kept| && Dist2(p, kept[k]) < m * m
  }

  /** No later point of s is closer than m to an earlier one. */
  ghost predicate Separated(s: seq<Point>, m: nat)
  {
    forall i, j :: 0 <= i < j < |s| ==> Dist2(s[j], s[i]) >= m * m
  }

  /**
   * The centres the pass keeps, in input order: each point is appended
   * unless it is near a point already kept.
   */
  function Suppressed(pts: seq<Point>, m: nat): seq<Point>
    decreases |pts|
  {
    if |pts| == 0 then []
    else
      var kept := Suppressed(pts[..|pts| - 1], m);
      var p := pts[|pts| - 1];
      if NearAny(p, kept, m) then kept else kept + [p]
  }

  /** The suppression loop: for each centre, scan the kept ones and stop at the first close one. */
  method SuppressDuplicates(centers: seq<Point>, minDistance: nat) returns (filtered: seq<Point>)
    ensures filtered == Suppressed(centers, minDistance)
  {
    filtered := [];
    var i := 0;
    while i < |centers|
      invariant 0 <= i <= |centers|
      invariant filtered == Suppressed(centers[..i], minDistance)
    {
      var center := centers[i];
      var isDuplicate := false;
      var j := 0;
      while j < |filtered|
        invariant 0 <= j <= |filtered|
        invariant forall k :: 0 <= k < j ==> Dist2(center, filtered[k]) >= minDistance * minDistance
      {
        if Dist2(center, filtered[j]) < minDistance * minDistance {
          isDuplicate := true;
          break;
        }
        j := j + 1;
      }
      assert isDuplicate == NearAny(center, filtered, minDistance);
      if !isDuplicate {
        filtered := filtered + [center];
      }
      assert centers[..i + 1][..i] == centers[..i];
      i := i + 1;
    }
    assert centers[..|centers|] == centers;
  }

  /** The Euclidean test of the source agrees with the squared test of the model. */
  lemma SqrtTestIsSquaredTest(d2: int, dist: real, m: nat)
    requires 0.0 <= dist && dist * dist == d2 as real
    ensures dist < m as real <==> d2 < m * m
  {
    var mr := m as real;
    if dist < mr {
      assert dist * dist <= dist * mr;
      assert dist * mr < mr * mr;
    } else {
      assert mr * mr <= dist * mr;
      assert dist * mr <= dist * dist;
    }
    assert (m * m) as real == mr * mr;
  }

  /** The output is the input with some points deleted. */
  lemma {:induction false} SuppressedIsSubseq(pts: seq<Point>, m: nat)
    ensures Subseq(Suppressed(pts, m), pts)
    decreases |pts|
  {
    if |pts| > 0 {
      var init := pts[..|pts| - 1];
      var p := pts[|pts| - 1];
      SuppressedIsSubseq(init, m);
      var kept := Suppressed(init, m);
      assert init + [p] == pts;
      if NearAny(p, kept, m) {
        SubseqSnocRight(kept, init, p);
      } else {
        SubseqSnocBoth(kept, init, p);
      }
    }
  }

  /** The first input point is always kept, as the first output point. */
  lemma {:induction false} SuppressedKeepsFirst(pts: seq<Point>, m: nat)
    requires |pts| > 0
    ensures |Suppressed(pts, m)| > 0 && Suppressed(pts, m)[0] == pts[0]
    decreases |pts|
  {
    var init := pts[..|pts| - 1];
    if |init| == 0 {
      assert Suppressed(init, m) == [];
      assert !NearAny(pts[0], [], m);
    } else {
      SuppressedKeepsFirst(init, m);
    }
  }

  /** Any two kept points are at least m apart. */
  lemma {:induction false} SuppressedIsSeparated(pts: seq<Point>, m: nat)
    ensures Separated(Suppressed(pts, m), m)
    decreases |pts|
  {
    if |pts| > 0 {
      var init := pts[..|pts| - 1];
      var p := pts[|pts| - 1];
      SuppressedIsSeparated(init, m);
      var kept := Suppressed(init, m);
      if !NearAny(p, kept, m) {
        var s := kept + [p];
        forall i, j | 0 <= i < j < |s| ensures Dist2(s[j], s[i]) >= m * m {
          if j == |kept| {
            assert !(Dist2(p, kept[i]) < m * m);
          }
        }
      }
    }
  }

  /** Keeping a prefix of the input keeps a prefix of the output. */
  lemma {:induction false} SuppressedPrefix(pts: seq<Point>, m: nat, n: nat)
    requires n <= |pts|
    ensures Suppressed(pts[..n], m) <= Suppressed(pts, m)
    decreases |pts| - n
  {
    if n < |pts| {
      SuppressedPrefix(pts, m, n + 1);
      var kept := Suppressed(pts[..n], m);
      assert pts[..n + 1][..n] == pts[..n];
      assert kept <= Suppressed(pts[..n + 1], m);
    } else {
      assert pts[..n] == pts;
    }
  }

  /**
   * Every input point is kept, or is closer than m to a point that was kept
   * before it was reached (one of the first |Suppressed(pts[..i], m)| outputs).
   */
  lemma CoveredByEarlierKept(pts: seq<Point>, m: nat, i: nat)
    requires i < |pts|
    ensures var out := Suppressed(pts, m);
            || pts[i] in out
            || exists k :: 0 <= k < |Suppressed(pts[..i], m)| <= |out| && Dist2(pts[i], out[k]) < m * m
  {
    var out := Suppressed(pts, m);
    var before := Suppressed(pts[..i], m);
    SuppressedPrefix(pts, m, i);
    SuppressedPrefix(pts, m, i + 1);
    assert pts[..i + 1][..i] == pts[..i];
    assert pts[..i + 1][i] == pts[i];
    if NearAny(pts[i], before, m) {
      var k :| 0 <= k < |before| && Dist2(pts[i], before[k]) < m * m;
      assert out[k] == before[k];
    } else {
      var after := Suppressed(pts[..i + 1], m);
      assert after == before + [pts[i]];
      assert out[|before|] == pts[i];
    }
  }

  /** A list whose points are already separated passes through unchanged. */
  lemma {:induction false} SeparatedIsFixpoint(pts: seq<Point>, m: nat)
    requires Separated(pts, m)
    ensures Suppressed(pts, m) == pts
    decreases |pts|
  {
    if |pts| > 0 {
      var init := pts[..|pts| - 1];
      var p := pts[|pts| - 1];
      assert Separated(init, m);
      SeparatedIsFixpoint(init, m);
      forall k | 0 <= k < |init| ensures Dist2(p, init[k]) >= m * m {
        assert init[k] == pts[k];
      }
      assert init + [p] == pts;
    }
  }

  /** Running the pass on its own output changes nothing. */
  lemma SuppressedIdempotent(pts: seq<Point>, m: nat)
    ensures Suppressed(Suppressed(pts, m), m) == Suppressed(pts, m)
  {
    SuppressedIsSeparated(pts, m);
    SeparatedIsFixpoint(Suppressed(pts, m), m);
  }

  /** A cluster whose points are all within m of its first point collapses to that point. */
  lemma {:induction false} OneClusterOneRepresentative(pts: seq<Point>, m: nat)
    requires |pts| > 0
    requires forall i :: 0 < i < |pts| ==> Dist2(pts[i], pts[0]) < m * m
    ensures Suppressed(pts, m) == [pts[0]]
    decreases |pts|
  {
    var init := pts[..|pts| - 1];
    if |init| == 0 {
      assert Suppressed(init, m) == [];
      assert !NearAny(pts[0], [], m);
    } else {
      OneClusterOneRepresentative(init, m);
      var kept := Suppressed(init, m);
      assert Dist2(pts[|pts| - 1], kept[0]) < m * m;
    }
  }

  /**
   * Two clusters, each within m of its own first point, whose second
   * cluster lies at least m away from the first cluster's first point, give
   * exactly the two first points.
   */
  lemma {:induction false} TwoClustersTwoRepresentatives(a: seq<Point>, b: seq<Point>, m: nat)
    requires |a| > 0 && |b| > 0
    requires forall i :: 0 < i < |a| ==> Dist2(a[i], a[0]) < m * m
    requires forall j :: 0 < j < |b| ==> Dist2(b[j], b[0]) < m * m
    requires forall j :: 0 <= j < |b| ==> Dist2(b[j], a[0]) >= m * m
    ensures Suppressed(a + b, m) == [a[0], b[0]]
    decreases |b|
  {
    var pts := a + b;
    var init := pts[..|pts| - 1];
    if |b| == 1 {
      assert init == a;
      OneClusterOneRepresentative(a, m);
      assert !NearAny(b[0], [a[0]], m);
    } else {
      var b' := b[..|b| - 1];
      assert init == a + b';
      TwoClustersTwoRepresentatives(a, b', m);
      assert Dist2(b[|b| - 1], [a[0], b[0]][1]) < m * m;
    }
  }

  /**
   * Two clusters in any interleaving: pts[k] is the first point at least m
   * away from pts[0], every point before it is within m of pts[0], and every
   * point after it is within m of pts[0] or of pts[k]. The pass keeps exactly
   * pts[0] and pts[k], as for two occurrences side by side on the screen,
   * whose centres alternate row by row in the scan.
   */
  lemma {:induction false} InterleavedClustersTwoRepresentatives(pts: seq<Point>, m: nat, k: nat)
    requires 0 < k < |pts|
    requires Dist2(pts[k], pts[0]) >= m * m
    requires forall i :: 0 < i < k ==> Dist2(pts[i], pts[0]) < m * m
    requires forall i :: k < i < |pts| ==> Dist2(pts[i], pts[0]) < m * m || Dist2(pts[i], pts[k]) < m * m
    ensures Suppressed(pts, m) == [pts[0], pts[k]]
    decreases |pts|
  {
    var last := |pts| - 1;
    var init := pts[..last];
    if last == k {
      forall i | 0 < i < |init| ensures Dist2(init[i], init[0]) < m * m {
        assert init[i] == pts[i];
      }
      OneClusterOneRepresentative(init, m);
      assert !NearAny(pts[k], [pts[0]], m);
    } else {
      forall i | k < i < |init|
        ensures Dist2(init[i], init[0]) < m * m || Dist2(init[i], init[k]) < m * m
      {
        assert init[i] == pts[i];
      }
      InterleavedClustersTwoRepresentatives(init, m, k);
      var kept := [pts[0], pts[k]];
      if Dist2(pts[last], pts[0]) < m * m {
        assert Dist2(pts[last], kept[0]) < m * m;
      } else {
        assert Dist2(pts[last], kept[1]) < m * m;
      }
    }
  }

  /** Two occurrences side by side: their centres alternate in the scan, and one centre of each is kept. */
  lemma SideBySideOccurrences()
    ensures Suppressed([Point(10, 0), Point(50, 0), Point(11, 1), Point(51, 1)], 5) == [Point(10, 0), Point(50, 0)]
  {
    var pts := [Point(10, 0), Point(50, 0), Point(11, 1), Point(51, 1)];
    InterleavedClustersTwoRepresentatives(pts, 5, 1);
  }


  /**
   * The kept list is not monotone in the input: dropping the first of two
   * close centres (as a higher threshold can) keeps the second one instead,
   * which the longer input had dropped.
   */
  lemma SuppressedNotMonotone()
    ensures Suppressed([Point(10, 10), Point(11, 10)], 5) == [Point(10, 10)]
    ensures Suppressed([Point(11, 10)], 5) == [Point(11, 10)]
  {
    var two := [Point(10, 10), Point(11, 10)];
    assert two[..1] == [Point(10, 10)];
    assert Suppressed(two[..1], 5) == [Point(10, 10)];
    assert NearAny(Point(11, 10), [Point(10, 10)], 5) by {
      assert Dist2(Point(11, 10), [Point(10, 10)][0]) < 25;
    }
  }

}
