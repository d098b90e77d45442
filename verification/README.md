# Template matching and wait-and-click, modelled in Dafny

This project models the image-matching core of a small screen-automation
helper, `base.py`. The helper captures the screen of a remote device and looks
for a small reference image (the *template*) in it. It offers three matching
queries and a polling loop:

- **`check_has_img`**: is the template present? The search can be restricted
  to a region of interest (ROI). The ROI is clamped to the frame and rejected
  when it is empty. A template larger than the searched area is refused.
- **`find_img_center`**: the centre of the best-scoring placement, when its
  score reaches the threshold.
- **`find_all_img_centers`**: the centres of all placements that reach the
  threshold, in scan order. A greedy single pass then drops every centre
  closer than `max(w, h) // 2` to a centre already kept.
- **`wait_and_click`**: polls `find_img_center` until a match is found or the
  timeout passes, and clicks once at the match plus an offset.

The modules follow that structure:

| file | module | contents |
|---|---|---|
| `Imaging.dfy` | `Imaging` | Images as rectangular grids of pixels, points, squared distance, row-major order, and subsequences. |
| `RegionClipper.dfy` | `RegionClipper` | ROI clamping, validity, and cropping. |
| `TemplateMatcher.dfy` | `TemplateMatcher` | The score map, the size guard, the threshold index search, and the maximum search. |
| `DuplicateSuppressor.dfy` | `DuplicateSuppressor` | The duplicate-suppression loop and what it guarantees. |
| `Locator.dfy` | `Locator` | The three matching queries. |
| `WaitAndClick.dfy` | `WaitAndClickController` | The poll loop and a device that records its clicks. |

## Modelling decisions

- **Correlation.** The normalised cross-correlation is computed by a foreign
  library, so it is a parameter. `corr` scores one template-sized window of the
  search area against the template. The model builds the score map from it, one
  score per top-left placement. Its shape, (H - th + 1) rows by (W - tw + 1)
  columns, is therefore proved rather than assumed.
- **Absent images and caught exceptions.** A capture or template asset that
  could not be obtained is `None`. The source catches every exception and turns
  it into "no match" (`False`, `(None, None)` or `[]`). The model does the same
  for the only fault the matcher raises on well-formed input: a template that
  is empty or does not fit the area.
- **Size guard.** Only `check_has_img` has an explicit size guard
  (base.py:59-63). `find_img_center` and `find_all_img_centers` have none: they
  reach the matcher, which raises, and the exception becomes "no match".
- **Maximum search.** `cv2.minMaxLoc` is modelled by `MaxLoc`, which returns the
  first maximum in scan order. Every contract states only that the location is
  a maximal placement.
- **Distance test.** The suppression test `sqrt(dx² + dy²) < min_distance` is
  modelled exactly as `dx² + dy² < min_distance²`. `SqrtTestIsSquaredTest`
  proves that the two agree for an exact square root.
- **Abstract clock.** The wait loop's clock is a sequence of readings:
  `elapsed[i]` is the value of `time.time() - start_time` at the i-th check of
  the loop guard. `captures[i]` is the frame of the i-th poll. The real clock,
  the sleeps and the screen capture are inputs.
- **Uncaught sleep error.** Unlike the three queries, the loop catches nothing.
  `time.sleep` with a negative interval raises after the first unsuccessful
  poll. The model returns this as the outcome `SleepRejected`.

## Model

| member | source | states |
|---|---|---|
| `RegionClipper.Clamp` | base.py:38-41 | `max(0, min(v, bound))` lies in `[0, bound]`. It is `v` when `v` is already there, `0` below and `bound` above. |
| `RegionClipper.ClampRegion` | base.py:34-45 | An accepted ROI lies inside the frame and is the intersection of the request with the frame. It is accepted exactly when that intersection is non-empty. A request with `x1 >= x2` or `y1 >= y2` is always rejected. |
| `RegionClipper.Crop` | base.py:47 | `frame[y1:y2, x1:x2]` has the ROI's size, and pixel (x, y) of the crop is pixel (x1 + x, y1 + y) of the frame. |
| `RegionClipper.OverhangingRegionIsWholeFrame` | base.py:38-45 | A request overhanging the frame on every side clamps to the whole frame. |
| `RegionClipper.CropWholeFrame` | base.py:47 | Cutting a frame to its full rectangle gives the frame back. |
| `TemplateMatcher.Window` | base.py:66 | The window the matcher compares at (x, y) is the template-sized block of the area with its top-left corner at (x, y). |
| `TemplateMatcher.MatchTemplate` | base.py:66 | The score map has one row per vertical placement and one column per horizontal placement. Its entries are exactly the placements, and each holds that placement's correlation score. |
| `TemplateMatcher.RowLocations` | base.py:178 | One row's entries reaching the threshold: exactly those columns, left to right. |
| `TemplateMatcher.MatchLocations` | base.py:178 | `np.where(res >= threshold)` lists exactly the entries reaching the threshold, in strict row-major scan order. |
| `TemplateMatcher.RowLocationsMonotone` | base.py:178 | Raising the threshold keeps a subsequence of one row's locations. |
| `TemplateMatcher.MatchLocationsMonotone` | base.py:178 | Raising the threshold keeps a subsequence of the locations, in the same order. |
| `TemplateMatcher.AnyAtLeast` | base.py:69-75 | The presence test is true exactly when some entry of the score map reaches the threshold. |
| `TemplateMatcher.LocationsNonEmpty` | base.py:69-75 | The location list is non-empty exactly when some entry reaches the threshold. |
| `TemplateMatcher.RowArgMax` | base.py:122 | A position in the row holding a largest entry of it. |
| `TemplateMatcher.MaxLoc` | base.py:122 | `minMaxLoc`'s `max_loc` is inside the score map, and no entry exceeds the entry there. |
| `DuplicateSuppressor.SuppressDuplicates` | base.py:195-210 | The nested loop with early `break` computes the greedy pass `Suppressed`, whose properties are the lemmas below. |
| `DuplicateSuppressor.SqrtTestIsSquaredTest` | base.py:201-205 | For an exact root `dist` of `d2`, `dist < m` holds exactly when `d2 < m * m`. |
| `DuplicateSuppressor.SuppressedIsSubseq` | base.py:198-210 | The kept centres are the input with some centres deleted, in input order. |
| `DuplicateSuppressor.SuppressedKeepsFirst` | base.py:198-210 | The first centre is always kept, as the first output. |
| `DuplicateSuppressor.SuppressedIsSeparated` | base.py:198-210 | Any two kept centres are at least `min_distance` apart. |
| `DuplicateSuppressor.SuppressedPrefix` | base.py:198-210 | The pass is online: the output for a prefix of the input is a prefix of the output. |
| `DuplicateSuppressor.CoveredByEarlierKept` | base.py:198-210 | Every input centre is kept, or lies closer than `min_distance` to a centre kept before it was reached. |
| `DuplicateSuppressor.SeparatedIsFixpoint` | base.py:198-210 | Input that is already separated passes through unchanged. |
| `DuplicateSuppressor.SuppressedIdempotent` | base.py:198-210 | Running the pass on its own output changes nothing. |
| `DuplicateSuppressor.OneClusterOneRepresentative` | base.py:198-210 | A cluster of centres all within `min_distance` of its first one collapses to that one. |
| `DuplicateSuppressor.TwoClustersTwoRepresentatives` | base.py:198-210 | Two such clusters listed one after the other, the second far from the first one's first centre, give exactly their two first centres. |
| `DuplicateSuppressor.InterleavedClustersTwoRepresentatives` | base.py:198-210 | Two clusters in any interleaving give exactly two centres. Let the second representative be the first centre far from the first one. If every centre before it is near the first one, and every centre after it is near one of the two, the pass keeps exactly those two. |
| `DuplicateSuppressor.SideBySideOccurrences` | base.py:184-210 | Two occurrences side by side, whose centres alternate row by row in the scan, keep one centre each. |
| `Locator.SearchArea` | base.py:33-47 | No ROI searches the whole frame. An ROI searches a sub-frame exactly when the clamped ROI is accepted, and that sub-frame is the frame cut to the clamped ROI. |
| `Locator.CheckHasImg` | base.py:26-79 | True exactly when both images were obtained, the ROI (if any) is accepted, the template fits the searched area, and some placement in it scores at least the threshold. A template larger than the area is never reported present. |
| `Locator.PresenceIsMatch` | base.py:66-75 | The index-search test over the score map is equivalent to some placement reaching the threshold. |
| `Locator.FindImgCenter` | base.py:102-138 | The best match is found exactly when both images were obtained and some placement reaches the threshold. It is then the centre of a placement that scores at least the threshold and at least as much as every other placement; that placement's top-left corner is the centre minus half the template size. |
| `Locator.BestIsMaxLoc` | base.py:119-125 | `max_loc` is a best placement, and `max_val >= threshold` holds exactly when some placement reaches the threshold. |
| `Locator.CentersOf` | base.py:181-191 | The loop yields the list `Centers` of the locations: one centre per location, in order, each its top-left plus half the template size, rounded down. |
| `Locator.FindAllImgCenters` | base.py:158-216 | The returned list is the suppressed list of centres. It is non-empty exactly when both images were obtained and some placement reaches the threshold. Every returned centre is the centre of such a placement. |
| `Locator.RawCenterIsMatch` | base.py:175-191 | Each centre before suppression is the centre of a placement reaching the threshold. |
| `Locator.MatchIsRawCenter` | base.py:175-191 | The centre of each placement reaching the threshold is among the centres before suppression. |
| `Locator.RawCentersExact` | base.py:175-191 | The centres before suppression are exactly the centres of the placements reaching the threshold, in scan order. |
| `Locator.CentersKeepSubseq` | base.py:184-191 | Converting locations to centres keeps a subsequence a subsequence. |
| `Locator.RawCentersThresholdMonotone` | base.py:178-191 | Raising the threshold keeps a subsequence of the centres before suppression. The list returned after suppression is not monotone in this way (see `SuppressedNotMonotone`). |
| `DuplicateSuppressor.SuppressedNotMonotone` | base.py:198-210 | Dropping the first of two close centres, as a higher threshold can, makes the pass keep the second one instead. The returned list is therefore not a subsequence of the one for the longer input. |
| `Locator.AllCentersAreMatches` | base.py:178-212 | The result is a subsequence of the centres before suppression. Its centres are `min_distance` apart, it starts with the first of them, it is non-empty exactly when there is a match, and every centre in it belongs to a match. |
| `Locator.CheckHasImgThresholdMonotone` | base.py:69-75 | A template present at a higher threshold is present at a lower one. |
| `Locator.PresenceAgreesWithBestMatch` | base.py:66-135 | Without an ROI, the presence check, the best match and the list of all matches agree on whether there is a match. |
| `Locator.CropWindow` | base.py:47 | A window of the cropped sub-frame is the window of the frame at the position shifted by the ROI's corner. |
| `Locator.RegionMatchIsFrameMatch` | base.py:34-75 | A template present inside an accepted ROI is present in the whole frame. |
| `Locator.OverhangingRegionSearchesWholeFrame` | base.py:34-47 | An ROI overhanging the frame on every side gives the same answer as no ROI. |
| `Locator.ExactCopyIsFound` | base.py:119-133 | With a correlation bounded by 1 that scores an identical window 1, an exact copy of the template is returned as the best match, at its centre, for any threshold at most 1, when no other placement also scores 1. |
| `Locator.UniqueBestIsFound` | base.py:122-133 | A placement that reaches the threshold and strictly outscores all others is the one whose centre is returned. |
| `Locator.ExactCopyMatches` | base.py:66-73 | An exact copy of the template in the frame makes the presence check succeed for any threshold at most 1. |
| `WaitAndClickController.Device.Click` | base.py:304 | A click appends its point to the device's click record, and nothing else changes. |
| `WaitAndClickController.Wait` | base.py:292-314 | The loop stops at the first guard check at or past the timeout, unless a poll succeeded before that. It then returns `True` and clicks at that first success plus the offset. It also stops at the first failed poll when the sleep rejects a negative interval. Every poll it counts ran before the timeout, and with a negative interval it makes at most one poll. A wait that polled and then timed out had a non-negative interval, so an uncaught sleep error is never reported as a timeout. |
| `WaitAndClickController.Polls` | base.py:296 | There is one best-match result per capture. |
| `WaitAndClickController.PollAt` | base.py:296 | The i-th poll result is the best match on the i-th capture. |
| `WaitAndClickController.WaitAndClick` | base.py:292-314 | The loop's outcome is `Wait` over the best matches of the captures. The device received exactly one click, at the reported point, when the outcome is a click, and none otherwise. |
| `WaitAndClickController.NoPollWithoutTime` | base.py:292-294 | A non-positive timeout makes no poll and no click. |
| `WaitAndClickController.ClickAtFirstMatch` | base.py:294-308 | If poll k is the first success and all guard checks up to it came before the timeout, the click is at that match plus the offset, after k + 1 polls. |
| `WaitAndClickController.ClickAtFirstMatchFrom` | base.py:294-311 | The same, from any guard check i up to k. |
| `WaitAndClickController.PollsWithinTimeout` | base.py:294-311 | If each cycle takes at least `check_interval`, then n polls satisfy (n - 1) * interval < timeout. |
| `WaitAndClickController.TimeoutAfterEnoughPolls` | base.py:294-314 | If each cycle takes at most `cycle`, a wait that times out made at least (timeout - e0) / cycle polls, where e0 is the time already passed at the first guard check. |

## Left out

- Correlation: the numerical definition of `TM_CCOEFF_NORMED` is a parameter. Floating-point rounding and degenerate (flat) windows or templates are not modelled.
- PresenceAgreesWithBestMatch: holds because scores and thresholds are real numbers. In the source, `np.where(res >= threshold)` compares in single precision (the score array's type), while `max_val >= threshold` compares in double precision. For a threshold such as 0.9, a score equal to its single-precision rounding makes `check_has_img` report a match that `find_img_center` rejects. The model does not capture this disagreement.
- MaxLoc: which of several equal maxima `cv2.minMaxLoc` reports is not promised by the contracts. The model picks the first in scan order.
- FindImgCenter, AllImgCenters: when the template is at least as large as the frame in both dimensions and larger in one, OpenCV swaps the two images and returns a score map. The model treats every template that does not fit as "no match", as when the matcher raises.
- SqrtTestIsSquaredTest: relates the test to an exact square root. Floating-point rounding of `** 0.5` for distances above 2^26 is not modelled.
- Device I/O: the screenshot, `cv2.imread` of the asset, and device clicks are inputs or the recording `Device` class. A failure of the click itself is not modelled.
- Wait: the real clock and `time.sleep` are replaced by the sequence of clock readings. The duration of the sleep is not modelled, only its rejection of a negative interval.
- WaitAndClick: requires the clock readings to reach the timeout eventually. A wait that never ends (an infinite timeout, or a clock that stalls) is not modelled.
- Polls: the template is one input shared by every poll. The source reads the asset again on each poll, so a file that changes during the wait is not modelled.
- The `roi` parameter of `wait_and_click` is accepted but never used by the source, so the model has no such input.
- Console messages (`print`) are left out.
- The second `except` clause of `check_has_img` is unreachable and has no counterpart.
- `connect_to_emulator` and `custom_sleep` are device and timing plumbing outside the matching core. `demo.py` is not part of this model.
