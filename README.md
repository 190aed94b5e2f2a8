# Nested-rectangle detection and extension-path extraction, modelled in Dafny

This project models two parts of the Chrome-extension test suite.

**The nested-rectangle detector** (`chrome-extension/src/test/browser-xvfb/background.test.ts`).
A browser test takes a screenshot in which the page is framed by a pure-red marker and the popup
is drawn inside it. The detector works on the decoded RGBA buffer of that screenshot in four steps:

1. It scans the image row by row. The bounding box of every opaque red pixel (255, 0, 0, 255) is
   the red box.
2. It rejects the image when there is no red pixel, or when the red box is less than three pixels
   wide or high.
3. It shrinks the red box by one pixel on every side to get a search area. A row-major scan of
   that area starts a breadth-first flood fill at every non-red pixel that no earlier fill has
   reached. All fills share one `visited` array. Each fill returns the bounding box and pixel count
   of one 4-connected non-red region.
4. It reports the candidate with the most pixels. On a tie it reports the one found first, because
   the stable sort by decreasing count leaves it first. The scan finds the regions in the
   row-major order of their first pixels, so that is the region whose first pixel comes first.

The same file's screenshot statistics loop counts the pixels and the red pixels of a buffer.

**The extension-URL path extractor** (`getChromeExtensionJsPath` in
`chrome-extension/src/test/util/log-capture/stacktrace-mapper.ts`). It takes the file part of a
stack frame and recovers the script path inside the unpacked extension. It applies two patterns:

- a full URL `chrome-extension://<id>/….js`;
- failing that, whatever follows the first `chrome-extension:/`, where path normalisation has
  collapsed the double slash.

The regular expressions are modelled by their meaning:

- an id is 32 letters from `a` to `p`;
- `.` does not match the four ECMAScript line terminators;
- `$` is the end of the input.

## Module layout

- `geometry.dfy` (`Geometry`): points, the bounds accumulator and the search area.
  - `Empty` stands for the ±Infinity sentinel of `createEmptyRectangleBounds`.
  - `BoundsOf` is the accumulator after expanding the sentinel by a sequence of points.
- `pixels.dfy` (`Pixels`): bytes, the marker colour, flat pixel indices, and the statistics loop.
- `red_region.dfy` (`RedRegion`): the red-box scan. The method is proved equal to `RedBounds`, the
  bounds of the red pixels in row-major order. Lemmas then pin `RedBounds` down exactly.
- `flood_fill.dfy` (`FloodFill`): the breadth-first fill.
  - Its queue is a growing `seq` with a cursor.
  - `visited` is an `array<bool>` the method updates in place.
  - A ghost out-parameter returns the region the fill dequeued, in order.
- `inner_regions.dfy` (`InnerRegions`): the candidate scan. Its ghost out-parameter `regions`
  lists the pixels of each fill. The contract states three things:
  - these regions are exactly the 4-connected components of the non-red pixels of the area
    (`ComponentPartition`);
  - candidate `k` is the bounding box of region `k`;
  - each region starts at its least pixel in row-major order, and the regions come in increasing
    order of their starts (`ScanOrdered`).
- `detection.dfy` (`Detection`): the size check, the search area, the selection of the largest
  candidate (with a reference stable sort), and the whole pipeline.
  - A thrown error becomes `Failure` of a `DetectError`.
  - `DetectOutcome` states, for every decoded image, which of the three errors is reported or what
    is found.
- `extension_path.dfy` (`ExtensionPath`): the path extractor, `indexOf`, and the two anchored
  patterns.

## Model

| member | source | states |
|---|---|---|
| Geometry.ExpandRectangleBounds | chrome-extension/src/test/browser-xvfb/background.test.ts:65-75 | The new box contains the pixel and the previous box, and it is the least box that does. Its count is exactly one more. A well-formed box (min ≤ max, count > 0) stays well-formed. |
| Geometry.BoundsOf | chrome-extension/src/test/browser-xvfb/background.test.ts:57-75 | Expanding the sentinel by n pixels counts exactly n, and stays the sentinel exactly when n = 0. The result is always well-formed, so every valid bounds value has min ≤ max. |
| Geometry.BoundsOfContains | chrome-extension/src/test/browser-xvfb/background.test.ts:65-75 | Every pixel the accumulator was expanded with lies in the accumulated box. |
| Geometry.BoundsOfLeast | chrome-extension/src/test/browser-xvfb/background.test.ts:65-75 | Any box holding all the expanded pixels encloses the accumulated box. |
| Geometry.BoundsOfExtremes | chrome-extension/src/test/browser-xvfb/background.test.ts:65-75 | Each of the four coordinates of the accumulated box is the coordinate of some expanded pixel. |
| Geometry.RectangleWidth | chrome-extension/src/test/browser-xvfb/background.test.ts:84-87 | The width is 0 for invalid bounds. For valid bounds, min + width − 1 = max. For well-formed bounds, width ≥ 1 exactly when they are valid. |
| Geometry.RectangleHeight | chrome-extension/src/test/browser-xvfb/background.test.ts:89-92 | The height is 0 for invalid bounds. For valid bounds, min + height − 1 = max. For well-formed bounds, height ≥ 1 exactly when they are valid. |
| Geometry.IsRectangleBoundsValid | chrome-extension/src/test/browser-xvfb/background.test.ts:77-82 | Valid bounds are never the ±Infinity sentinel. Well-formed bounds are valid exactly when their count is positive. |
| Pixels.IsRedPixel | chrome-extension/src/test/browser-xvfb/background.test.ts:94-95 | A pixel is red exactly when its channels are (255, 0, 0, 255). |
| Pixels.IsRedOffset | chrome-extension/src/test/browser-xvfb/background.test.ts:136-137 | The pixel at a byte offset is red exactly when all four of its bytes lie inside the buffer and read (255, 0, 0, 255). A read past either end is never red. |
| Pixels.IdxInImage | chrome-extension/src/test/browser-xvfb/background.test.ts:175-176 | The flat index `y*width + x` of an in-image pixel lies inside the image. The fill's `cy = floor(i / width)`, `cx = i − cy*width` maps it back to (x, y). |
| Pixels.PointOfInImage | chrome-extension/src/test/browser-xvfb/background.test.ts:175-176 | A flat index inside the image has in-image coordinates, and they map back to the index. |
| Pixels.IdxRowMajor | chrome-extension/src/test/browser-xvfb/background.test.ts:219-220 | For pixels inside the image width, flat index order is row-major order: one index is smaller exactly when its row is earlier, or the row is the same and its column is earlier. |
| Pixels.CalculateScreenshotStats | chrome-extension/src/test/browser-xvfb/background.test.ts:100-117 | The loop runs once per started four-byte group, so the pixel count is ⌈len/4⌉. The red count is the number of red groups and never exceeds it. Width and height are passed through. |
| RedRegion.FindRedRectangleBounds | chrome-extension/src/test/browser-xvfb/background.test.ts:132-143 | The nested row/column scan yields the accumulator expanded by the red pixels in row-major order (`RedBounds`). |
| RedRegion.RedBoundsExact | chrome-extension/src/test/browser-xvfb/background.test.ts:132-143 | Every red pixel of the image lies in the red box. Each of the box's four sides is attained by a red pixel. |
| RedRegion.RedBoundsEmpty | chrome-extension/src/test/browser-xvfb/background.test.ts:132-143 | The result is the sentinel exactly when the image has no red pixel, and the sentinel is invalid. |
| RedRegion.RedBoundsCount | chrome-extension/src/test/browser-xvfb/background.test.ts:132-143 | The count of the red box is the number of red pixels. For a buffer of exactly width·height·4 bytes it equals the statistics loop's red count. |
| RedRegion.RedBoundsInImage | chrome-extension/src/test/browser-xvfb/background.test.ts:132-143 | A non-empty red box lies inside the image. |
| RedRegion.RedBoundsOfRectangle | chrome-extension/src/test/browser-xvfb/background.test.ts:132-143 | Take a red marker with red corners (x0, y0) and (x1, y1), filled or hollow, and no red pixel outside it. The red box is exactly that rectangle. |
| Detection.AssertValidRedBounds | chrome-extension/src/test/browser-xvfb/background.test.ts:145-152 | It fails with "no red region" exactly when the bounds are invalid. It fails with "too small" exactly when they are valid but less than 3 wide or high. It passes exactly when they are at least 3×3. |
| Detection.CreateInnerSearchArea | chrome-extension/src/test/browser-xvfb/background.test.ts:154-159 | A pixel is in the search area exactly when it lies strictly inside the box on all four sides. |
| Detection.InnerAreaInImage | chrome-extension/src/test/browser-xvfb/background.test.ts:154-159 | The search area of the located red box lies inside the image, and it is non-empty once the box has passed the size check. |
| FloodFill.Neighbors | chrome-extension/src/test/browser-xvfb/background.test.ts:179-184 | There are exactly four neighbours, and a pixel is among them exactly when it is 4-adjacent. |
| FloodFill.VisitNeighbor | chrome-extension/src/test/browser-xvfb/background.test.ts:185-204 | A neighbour is enqueued and marked only when it lies in the area, is unmarked and is not red. Afterwards it is marked if it is fillable. The queue keeps every earlier entry and keeps its invariant. |
| FloodFill.EnqueueNeighbors | chrome-extension/src/test/browser-xvfb/background.test.ts:179-204 | After the four neighbour steps, every fillable neighbour of the dequeued pixel is marked. The closed prefix of the queue grows by one. |
| FloodFill.DequeueStep | chrome-extension/src/test/browser-xvfb/background.test.ts:172-204 | The new bounds are the old ones expanded by the pixel at the cursor. The queue only grows at its end. The traversal invariant is kept, with the cursor one further, and the cursor never passes the number of pixels plus one. |
| FloodFill.FloodFillNonRedRegion | chrome-extension/src/test/browser-xvfb/background.test.ts:161-208 | The region is linked to the visited array and the returned box as follows. (1) The region starts at the start pixel. It lists distinct fillable pixels, so none is dequeued twice. After the start, each was unvisited before the fill and is adjacent to an earlier one. (2) Visited afterwards is visited before plus the region. (3) Every fillable neighbour of the region is marked. (4) The returned box is the bounds of the region, lies in the search area, is valid and counts exactly the dequeued pixels. |
| InnerRegions.ScanPixel | chrome-extension/src/test/browser-xvfb/background.test.ts:221-233 | A marked or red pixel leaves the candidates, the regions and the visited array unchanged. Otherwise exactly one candidate and one region are appended, and the new region starts at the scanned pixel. The partition of the marked pixels into regions is kept, and so is the link between candidates and regions. Every fillable pixel up to and including this one is marked. The regions stay in scan order and all start before the next scan position. |
| InnerRegions.FreshRegionAfterScan | chrome-extension/src/test/browser-xvfb/background.test.ts:221-233 | A fill started at the scan position reaches no pixel before that position in row-major order, since all of those are marked already. |
| InnerRegions.ScanRow | chrome-extension/src/test/browser-xvfb/background.test.ts:220-234 | After one row of the scan, each fillable pixel of the row is marked. The regions stay a partition of the marked pixels, linked to the candidates, in scan order, and all starting before the next row. |
| InnerRegions.PartitionComplete | chrome-extension/src/test/browser-xvfb/background.test.ts:219-235 | Once both loops have finished, the regions are the 4-connected components of the non-red pixels of the area. Together they cover all such pixels. |
| InnerRegions.CollectInnerCandidates | chrome-extension/src/test/browser-xvfb/background.test.ts:210-238 | The candidates are the bounding boxes of the 4-connected components of the non-red pixels in the search area. Each is valid, lies in the area and counts its component. The components are connected, closed under fillable neighbours, pairwise disjoint, and cover every fillable pixel. They come in scan order: each component starts at its least pixel in row-major order, and the starts increase along the list. |
| InnerRegions.CandidatesCoverArea | chrome-extension/src/test/browser-xvfb/background.test.ts:210-238 | The candidates' pixel counts add up to the number of non-red pixels of the search area. |
| Detection.FirstLargestIndex | chrome-extension/src/test/browser-xvfb/background.test.ts:244-245 | The index is that of the first candidate whose count is at least every other count. |
| Detection.SortByCount | chrome-extension/src/test/browser-xvfb/background.test.ts:244 | The reference sort by decreasing pixel count is a permutation of the candidates. |
| Detection.SortByCountSorted | chrome-extension/src/test/browser-xvfb/background.test.ts:244 | The reference sort orders the candidates by non-increasing pixel count. |
| Detection.SortByCountHead | chrome-extension/src/test/browser-xvfb/background.test.ts:244-245 | After the stable sort, the first element is the first candidate with the largest count. |
| Detection.SelectLargestCandidate | chrome-extension/src/test/browser-xvfb/background.test.ts:240-246 | It fails with "no inner region" exactly when there is no candidate. Otherwise it returns the first candidate with the largest count. |
| Detection.CandidatesEmpty | chrome-extension/src/test/browser-xvfb/background.test.ts:240-243 | No candidate is collected exactly when the search area holds no non-red pixel. |
| Detection.FirstLargestFirstInScan | chrome-extension/src/test/browser-xvfb/background.test.ts:240-246 | In a scan-ordered list of regions, the first region of largest size holds the earliest pixel of all the regions of that size. This is the source's tie-break: the stable sort leaves first the largest component the scan met first. |
| Detection.LargestFirstInScanUnique | chrome-extension/src/test/browser-xvfb/background.test.ts:240-246 | Among pairwise disjoint regions, only one largest region can hold the earliest pixel of all the largest ones. So the tie-break leaves no choice. |
| Detection.SelectedInside | chrome-extension/src/test/browser-xvfb/background.test.ts:248-258 | The selected candidate is the bounds of a largest region, strictly inside the red box, valid, and at least two pixels narrower and lower than the red box. |
| Detection.RedCheckFails | chrome-extension/src/test/browser-xvfb/background.test.ts:252-253 | A red box that fails its check is reported with exactly that error. |
| Detection.InteriorEmpty | chrome-extension/src/test/browser-xvfb/background.test.ts:254-256 | A valid red box whose interior is entirely red is reported as having no inner region. |
| Detection.InteriorFound | chrome-extension/src/test/browser-xvfb/background.test.ts:254-257 | Take a valid red box whose interior has a fillable pixel, with its regions in scan order. It reports the bounds of the first largest region as found, which holds the earliest pixel of all the largest ones. |
| Detection.DetectNestedRectangles | chrome-extension/src/test/browser-xvfb/background.test.ts:248-258 | Each error is reported exactly when its condition holds: no red pixel; a red box under 3×3; no non-red pixel strictly inside it. On success the red box is that of the whole image. The regions are the 4-connected non-red components of the interior, in scan order. The inner box is the bounds of a largest one, and on a tie of the one whose first pixel comes first in row-major order. It is strictly inside the red box, with positive width and height each at least 2 less than the red ones: the test's assertions at lines 358-368. |
| ExtensionPath.MatchIdAndPath | chrome-extension/src/test/util/log-capture/stacktrace-mapper.ts:20-23 | `^[a-p]{32}(\/.*\.js)$` matches exactly when the input splits into a 32-letter id and a script path with no line terminator. For every such split the capture is that path. |
| ExtensionPath.IndexOf | chrome-extension/src/test/util/log-capture/stacktrace-mapper.ts:17-18 | The result is −1 exactly when the pattern does not occur. Otherwise it is an occurrence with no earlier one. |
| ExtensionPath.GetChromeExtensionJsPath | chrome-extension/src/test/util/log-capture/stacktrace-mapper.ts:11-24 | Any result starts with "/", ends with ".js", has no line terminator and is a suffix of the input. |
| ExtensionPath.DirectUrl | chrome-extension/src/test/util/log-capture/stacktrace-mapper.ts:12-15 | `chrome-extension://` + id + path yields the path. |
| ExtensionPath.ExtractedAfterId | chrome-extension/src/test/util/log-capture/stacktrace-mapper.ts:12-23 | Every result is the tail of the input after a valid id. That id directly follows either `chrome-extension://` at the start of the input or the first occurrence of `chrome-extension:/`. So an input without `chrome-extension:/` yields nothing. |
| ExtensionPath.FallbackFirstOccurrence | chrome-extension/src/test/util/log-capture/stacktrace-mapper.ts:17-23 | Take an input that is not a full URL, written as a prefix, then `chrome-extension:/`, then a rest, where no occurrence starts inside the prefix. Its result is the anchored pattern applied to the rest, whatever later occurrences the rest holds. |
| ExtensionPath.FirstOccurrenceDecides | chrome-extension/src/test/util/log-capture/stacktrace-mapper.ts:17-23 | When the prefix does not contain the normalised scheme, prefix + `chrome-extension:/` + id + path yields the path. |
| ExtensionPath.NormalisedExample | chrome-extension/src/test/util/log-capture/stacktrace-mapper.ts:17-23 | `/abs/chrome-extension:/<id>/src/main/background.js` yields `/src/main/background.js`. |
| ExtensionPath.FirstOccurrenceBlocks | chrome-extension/src/test/util/log-capture/stacktrace-mapper.ts:17-23 | An example of the first-occurrence rule: `chrome-extension:/q/chrome-extension:/<id><path>` yields nothing, although its second occurrence is followed by a well-formed id and path. |

## Left out

- `loadPng`, `fsPromises.readFile` and `PNG.sync.read`, the file read and PNG decoding: the decoded buffer, width and height are parameters of the model.
- The Playwright flows, the service-worker calls, logging, and the rest of the test file: these are browser automation.
- The result of `Math.floor(current / width)` in the fill: it is modelled as Dafny's division, which agrees for the non-negative indices that occur.
- JavaScript numbers are modelled as unbounded integers. Every coordinate and count is a small non-negative integer, so no floating-point rounding arises.
- The `visited` `Uint8Array` of 0/1 entries is modelled as an `array<bool>`. A read past either end of `data` yields `undefined`, which is never red; the model states this explicitly in `IsRedOffset`.
- Detection.SelectLargestCandidate: the in-place `sort` of the caller's array is not modelled as an update of that array. The array is local to the pipeline and only its first element is read. The sort is modelled by the reference stable sort `SortByCount`, with `SortByCountHead` proving its head equals the selected candidate.
- Thrown errors and their (Japanese) messages are modelled as the three cases of `DetectError` inside a `Result`.
- Detection.CreateInnerSearchArea: requires a non-sentinel box. With the sentinel the source would produce infinite coordinates, but its only caller runs after the check that rejects the sentinel.
- InnerRegions.CollectInnerCandidates: requires the search area to lie inside the image. The source does not check this, but its only caller passes the interior of the red box, which `Detection.InnerAreaInImage` proves lies inside the image.
- FloodFill.FloodFillNonRedRegion: requires the start pixel to be fillable and already marked, and the area to lie inside the image. This is what its only caller guarantees at lines 222-229.
- The `isRectangleBoundsValid(bounds)` test at line 231 is kept in the model. It never fails, because every fill returns valid bounds.
- The `regions` ghost out-parameters of the fill, the scan and the pipeline exist only to state the contracts; the source has no such values.
- String positions are Dafny characters rather than UTF-16 code units. Neither pattern uses the `u` flag, so the same substring is captured either way.
- The rest of `stacktrace-mapper.ts` (the source-map lookup, `@jridgewell/trace-mapping`, `@vitest/utils` and the file-backed cache) consists of library calls and file I/O.
