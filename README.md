# Hough-transform digit recognition, modelled in Dafny

This project models the recognition core of a handwritten-digit
recogniser. The digit is a binarised image in a GdkPixbuf. A pixel is
foreground when its first channel is 0.

The pipeline has four steps:

- **Cropping** (`src/imgproc.c`). Four directional scans find the bounding
  box of the foreground, and that rectangle is copied into a new buffer.
- **Voting** (`src/hough-recog.c`). A Hough transform over the four angles
  -90, -45, 0 and 45 degrees. Every foreground pixel casts one vote per
  angle into a matrix of `(2 * max_distance + 1) * 4` cells.
- **Clustering**. One pass over the matrix keeps, for each angle, a list of
  lines. A line comes from a cell with more than 100 votes, and no two
  lines of one angle are closer than 50 in distance.
- **Decision**. A fixed tree on the number of lines, the presence and
  number of diagonal (±45) lines, a diagonal distance and the votes of the
  horizontal lines gives a digit 0–9, or -1.

Files:

- `pixbuf.dfy` (module `Pixbufs`): the GdkPixbuf layout. It is a class with
  constant dimensions, a channel count of 3 or 4, a row stride and an
  `array` of bytes. `Valid` holds GdkPixbuf's layout rules.
- `imgproc.dfy` (module `ImgProc`): `crop`, `get_image_from_ROI` and
  `cropImage`, as methods over that array.
- `accumulator.dfy` (module `HoughAccum`): the voting loop, as a method
  that fills an `array<int>` in place. It is specified by the counting
  functions `AngleVotes`, `PixelVotes`, `RowVotes` and `Votes`.
- `line_filter.dfy` (module `HoughFilter`): `contains_line` and
  `filter_accum_matrix`, as methods. The GLib hash table is a
  `map<int, seq<Line>>`, and a `GSList` is a sequence whose prepend is
  `[x] + s`. The method is tied to the specification function
  `FilterPrefix`, and the properties are proved about `FilterPrefix`.
- `identify.dfy` (module `HoughIdentify`): the fold callbacks and
  `identify_number`, as functions. `g_hash_table_foreach` is `Foreach`, a
  fold over an explicit key order.
- `pipeline.dfy` (module `HoughPipeline`): a blank image's path through
  the voting, clustering and decision stages.

Abstractions:

- The trigonometry is a parameter. `distance(row, col, angle)` stands for
  `row * sin(phi) + col * cos(phi)`, and `max_distance` is a number given
  as input. What the code does with these values is modelled on exact
  reals: the inclusive range check, and the cell index `(angle + 90) / 45 *
  width + (distance + max_distance)` truncated toward zero. The truncated
  value is never negative, so truncation is `Floor`. The rounding of the C
  `float` arithmetic is not modelled.
- In `identify_number`, `DIAG_LENGTH` of the image size and the image
  height are number parameters.
- GLib does not fix the order in which the hash table is visited. The
  model makes `keys` a parameter that lists every key once (`KeyOrder`).
  In the five-line diagonal case the compared distance is that of the last
  visited diagonal key with lines (`LastDiagHead`). A lemma shows that the
  order matters only there.

Three behaviours of the code that its names do not suggest:

- New lines are prepended to their angle's list, so each list holds its
  lines latest cell first and the head is the most recently accepted line
  (`FilterPrefixOrder`, `FilterPrefixHead`). They are not appended in
  discovery order.
- `get_first_diag_dist` overwrites its accumulator at every diagonal key
  with a non-empty list. After the fold it therefore holds the head
  distance of the **last** such key visited, not the first.
- `check_diag` tests whether a diagonal key exists, not whether its list
  is non-empty. These agree on tables built by the clustering, because no
  key there maps to an empty list (`FilterPrefixNoEmptyList`).

## Model

| member | source | states |
|---|---|---|
| `Pixbufs.Pixbuf.constructor` | src/imgproc.c:228-230 | `gdk_pixbuf_new` gives a valid buffer of the requested size and channel count, with rows padded to a multiple of 4 bytes, `height * rowstride` bytes in all, and samples left uninitialised |
| `Pixbufs.Pixbuf.IsForeground` | src/hough-recog.c:55-57 | a pixel is foreground exactly when the sample of its channel 0 is 0 |
| `Pixbufs.Pixbuf.Offset` | src/imgproc.c:156 | the sample index `i * rowstride + j * n_channels` of an in-range pixel, with all of its channels inside the buffer |
| `ImgProc.ScanTop` | src/imgproc.c:152-163 | returns a foreground pixel whose row has no foreground row above it, and no foreground pixel to its left in that row |
| `ImgProc.ScanLeft` | src/imgproc.c:165-176 | returns a foreground pixel with no foreground in any column to its left, and none above it in its column |
| `ImgProc.ScanBottom` | src/imgproc.c:178-189 | returns a foreground pixel with no foreground in any row below it, and none to its left in its row |
| `ImgProc.ScanRight` | src/imgproc.c:191-202 | returns a foreground pixel with no foreground in any column to its right, and none above it in its column |
| `ImgProc.Crop` | src/imgproc.c:127-209 | requires a foreground pixel; the box has width and height at least 1, lies inside the image, contains every foreground pixel, and each edge row and edge column holds one |
| `ImgProc.BoundingBoxUnique` | src/imgproc.c:204-208 | two boxes that both contain the foreground and touch it on all four edges are equal |
| `ImgProc.GetImageFromROI` | src/imgproc.c:211-246 | a fresh valid buffer of the given size and channel count, where channels 0..2 of pixel (i, j) equal channels 0..2 of source pixel (i + y, j + x) |
| `ImgProc.CopyPixel` | src/imgproc.c:237-242 | channels 0..2 of destination pixel (i, j) get the samples of source pixel (i + y, j + x), and every other byte of the destination, alpha included, keeps its value |
| `ImgProc.CroppedIsTight` | src/imgproc.c:234-243 | an exact copy of the bounding box has foreground in its first and last rows and columns |
| `ImgProc.CropImage` | src/imgproc.c:248-258 | the result copies exactly the bounding box of the input, and its own bounding box is the whole result |
| `ImgProc.CropImageIdempotent` | src/imgproc.c:248-258 | cropping the output of `cropImage` again finds x = 0, y = 0 and the full width and height |
| `HoughAccum.AccumMatrix` | src/hough-recog.c:19-75 | the matrix is fresh, with `matr_width = 2 * max_distance + 1` and 4 rows; every cell holds exactly the votes cast into it, between 0 and the number of foreground pixels |
| `HoughAccum.CastVotes` | src/hough-recog.c:58-69 | the angle loop adds to each cell exactly the votes of one pixel for the angles -90, -45, 0 and 45 |
| `HoughAccum.CastVote` | src/hough-recog.c:60-68 | one angle adds one vote to the cell of its distance when that distance is in range, and changes no other cell |
| `HoughAccum.Cell` | src/hough-recog.c:62-66 | a cell exists exactly when the distance lies in `[-max_distance, max_distance]`, and it lies within the `matr_width` cells of the angle's row |
| `HoughAccum.CellInAngleRow` | src/hough-recog.c:60-67 | a vote is cast exactly when the distance lies in `[-max_distance, max_distance]`, and it lands in row `(angle + 90) / 45` at a bucket in `[0, 2 * max_distance]` |
| `HoughAccum.AtMostOneVotePerPixel` | src/hough-recog.c:58-67 | over the four angles a pixel casts at most one vote into any cell, and only into cells inside the matrix |
| `HoughAccum.VotesBounded` | src/hough-recog.c:46-70 | every cell count lies between 0 and the number of foreground pixels |
| `HoughAccum.VotesInsideMatrix` | src/hough-recog.c:46-67 | no vote falls outside the `matr_width * 4` cells |
| `HoughAccum.BlankImageNoVotes` | src/hough-recog.c:52-57 | an image with no foreground pixel yields an all-zero matrix |
| `HoughFilter.ContainsLine` | src/hough-recog.c:90-104 | true exactly when some line of the list has a distance differing from `dist` by less than 50 |
| `HoughFilter.AngleOf` | src/hough-recog.c:137 | the angle of a cell is at least -90 and a multiple of 45 away from -90 |
| `HoughFilter.DistOf` | src/hough-recog.c:138 | the distance of a cell from the centre column is at most `width / 2` |
| `HoughFilter.Lookup` | src/hough-recog.c:139 | the list stored for the angle, or the empty list (`NULL`) when the angle is not a key |
| `HoughFilter.Step` | src/hough-recog.c:131-147 | one iteration of the scan; a cell with at most 100 votes leaves the table as it is (the lemmas `Step*` state what a recorded line satisfies) |
| `HoughFilter.FilterPrefix` | src/hough-recog.c:129-149 | the table after the first `n` cells; it has no contract of its own, and the `FilterPrefix*` lemmas state its properties |
| `HoughFilter.StepKeys` | src/hough-recog.c:139-146 | one iteration adds at most the visited cell's angle as a new key |
| `HoughFilter.FilterAccumMatrix` | src/hough-recog.c:112-152 | the table is the result of the cell-by-cell scan; lists of one angle are separated by at least 50, no list is empty, every line comes from a cell above 100 with its angle, distance and votes, every such cell is covered, keys are the angles of the matrix rows, and each list is the lines of the cells that recorded one, latest cell first |
| `HoughFilter.StepSeparated` | src/hough-recog.c:139-147 | the loop body adds a line only when no line of its angle is within 50 of it, so separation is preserved |
| `HoughFilter.PrependSeparated` | src/hough-recog.c:140-146 | prepending a line that is 50 or more from every line of a separated list keeps the list separated |
| `HoughFilter.StepFromCells` | src/hough-recog.c:131-146 | the loop body adds only a line with the visited cell's votes, `(i / width) * 45 - 90` as its key and `abs(i % width - (width - 1) / 2)` as its distance |
| `HoughFilter.FilterPrefixSeparated` | src/hough-recog.c:129-149 | after any number of cells, no two lines of one angle have distances differing by less than 50 |
| `HoughFilter.FilterPrefixFromCells` | src/hough-recog.c:129-149 | after any number of cells, every line comes from a visited cell with more than 100 votes |
| `HoughFilter.FilterPrefixNoEmptyList` | src/hough-recog.c:139-146 | every key of the table maps to a non-empty list |
| `HoughFilter.StepExtends` | src/hough-recog.c:139-146 | one step keeps every key, and each old list stays unchanged as the tail of the new one (prepend) |
| `HoughFilter.FilterPrefixGrows` | src/hough-recog.c:129-149 | lines recorded earlier in the scan are never modified or removed |
| `HoughFilter.FilterPrefixCovers` | src/hough-recog.c:129-149 | every visited cell above 100 has a line of its angle within 50 of its distance |
| `HoughFilter.FilterPrefixKeys` | src/hough-recog.c:127-137 | with a matrix of `height` rows, every key is `r * 45 - 90` for some row `r < height` |
| `HoughFilter.CellAngleIsRowAngle` | src/hough-recog.c:137 | the angle `(i / width) * 45 - 90` of a cell of a `width * height` matrix is that of one of its rows |
| `HoughFilter.QuietMatrixNoLines` | src/hough-recog.c:129-133 | when no cell exceeds 100 votes, the table is empty |
| `HoughFilter.Origins` | src/hough-recog.c:129-146 | the cells before `n` at which the scan recorded a line of the angle: every one is below `n`, has that angle and was accepted, and they are strictly decreasing (latest first) |
| `HoughFilter.LinesOf` | src/hough-recog.c:142-145 | the lines recorded for a sequence of cells, one per cell, each with that cell's votes and distance |
| `HoughFilter.OriginsComplete` | src/hough-recog.c:139-146 | every cell before `n` at which the scan recorded a line of the angle is among its origins |
| `HoughFilter.StepLookup` | src/hough-recog.c:139-146 | after one iteration the angle's list has the visited cell's line in front when that iteration records one for the angle, and is unchanged otherwise |
| `HoughFilter.LinesOfCons` | src/hough-recog.c:145 | the lines of `[k] + os` are the line of cell `k` in front of the lines of `os` |
| `HoughFilter.FilterPrefixOrder` | src/hough-recog.c:129-149 | each angle's list is exactly the lines of the cells that recorded one of that angle, latest cell first, because `g_slist_prepend` puts the new line in front |
| `HoughFilter.FilterPrefixHead` | src/hough-recog.c:139-146 | every key's list is non-empty and its head is the line of the last visited cell that recorded a line of that angle; no later cell of that angle recorded one |
| `HoughIdentify.Foreach` | src/hough-recog.c:261-265 | `g_hash_table_foreach` threads the accumulator through the keys in order: no keys leave it unchanged, a single key applies the callback once |
| `HoughIdentify.ForeachSnoc` | src/hough-recog.c:261-265 | visiting one more key last applies the callback once more to the previous result |
| `HoughIdentify.CountLines` | src/hough-recog.c:154-166 | the sum never decreases, and stays the same exactly when the list is empty |
| `HoughIdentify.CheckDiag` | src/hough-recog.c:168-182 | the flag afterwards is true exactly when it was true before or the key has magnitude 45; the list is not consulted |
| `HoughIdentify.CountDiags` | src/hough-recog.c:184-199 | the count grows by at most the list's length, and not at all for a key whose magnitude is not 45 |
| `HoughIdentify.GetFirstDiagDist` | src/hough-recog.c:202-222 | the result is the old distance or the head's distance; a non-empty list of a key of magnitude 45 overwrites it, any other key leaves it |
| `HoughIdentify.SumPoints` | src/hough-recog.c:246-250 | the votes of all lines of a list; when every line has more than 100 votes, the sum is at least 101 per line |
| `HoughIdentify.CountPointsByAngle` | src/hough-recog.c:230-252 | the selected angle is kept; a key of that magnitude adds the votes of its list, any other key changes nothing |
| `HoughIdentify.LastDiagHead` | src/hough-recog.c:216-220 | the head distance of the last listed key of magnitude 45 with a non-empty list, or the start value; the result is the start value or the head of such a key |
| `HoughIdentify.GetFirstDiagDistLast` | src/hough-recog.c:304 | in every key order, the `get_first_diag_dist` fold equals `LastDiagHead` |
| `HoughIdentify.IdentifyNumber` | src/hough-recog.c:254-328 | the result is always one of -1, 0, ..., 9 |
| `HoughIdentify.CountLinesFold` | src/hough-recog.c:154-166 | folding `count_lines` over distinct angle keys adds the length of each listed key's list once |
| `HoughIdentify.CountLinesTotal` | src/hough-recog.c:271 | `n_of_lines` is the total number of lines of the four angles, in any key order |
| `HoughIdentify.CheckDiagFold` | src/hough-recog.c:168-182 | the `check_diag` fold is true exactly when it starts true or some visited key has magnitude 45 |
| `HoughIdentify.CheckDiagHasDiagonal` | src/hough-recog.c:279 | `has_diag` holds exactly when -45 or 45 is a key, in any key order |
| `HoughIdentify.CountDiagsFold` | src/hough-recog.c:184-199 | the `count_diags` fold adds the list lengths of exactly the keys -45 and 45 |
| `HoughIdentify.CountDiagsTotal` | src/hough-recog.c:290 | `n_of_diags` is the number of lines at -45 plus those at 45 |
| `HoughIdentify.GetFirstDiagDistAscending` | src/hough-recog.c:202-222 | with ascending keys the fold yields the head distance of 45 if it has lines, else the head of -45, else the start value, because a later diagonal key overwrites the accumulator |
| `HoughIdentify.OnlyDiagonalHead` | src/hough-recog.c:202-222 | with only one diagonal key, every key order yields the head distance of its list |
| `HoughIdentify.PointsByAngleFold` | src/hough-recog.c:230-252 | `count_points_by_angle` with angle 0 adds the votes of the lines at angle 0 and of no other key |
| `HoughIdentify.PointsByAngleHorizontal` | src/hough-recog.c:312-315 | `pair.sum` is the total votes of the horizontal lines |
| `HoughIdentify.IdentifyNumberDecision` | src/hough-recog.c:273-327 | 2 lines give 1; 3 give 7 with a diagonal, else 4; 4 give 0 without a diagonal, else 3 for exactly 2 diagonal lines, else 2; 5 without a diagonal give 5 if `sum - H < H / 2`, else 8; 5 with a diagonal give 6 exactly when `LastDiagHead` is below `diag / 2`, else 9, in every key order; any other count gives -1 |
| `HoughIdentify.IdentifyNumberOrderIndependent` | src/hough-recog.c:261-265 | two key orders give the same digit unless there are five lines and both -45 and 45 are keys |
| `HoughIdentify.DiagonalOrderMatters` | src/hough-recog.c:299-309 | a five-line table with lines at both -45 and 45 gives 9 in one key order and 6 in the other |
| `HoughIdentify.EmptyTableUnrecognised` | src/hough-recog.c:323-327 | a table with no lines gives -1, in every key order |
| `HoughIdentify.RowAnglesAreAngles` | src/hough-recog.c:48 | a table keyed by the angles of four matrix rows has keys among -90, -45, 0 and 45 |
| `HoughPipeline.BlankImageUnrecognised` | src/hough-recog.c:52-57 | for a blank image the computed table is empty, and every key order of that table gives -1 |

## Left out

- The floating-point geometry: `sin`, `cos`, `sqrt` and `round`. The
  distance is an abstract real-valued function, and `max_distance` and
  `DIAG_LENGTH` are number inputs. Float rounding is not modelled: the
  range check and the index are computed on exact reals.
- GLib's hash-table iteration order. It is an explicit key sequence.
- Hash-table and list memory ownership. `free_htable_elems` is unused, and
  the table has no destroy functions.
- C `int` overflow. Vote counts, sums and indices are unbounded integers.
  They stay far below 2^31 for any realistic image.
- Allocation failure. `calloc` and `malloc` in `src/hough-recog.c` and
  `gdk_pixbuf_new` in `src/imgproc.c` can return `NULL`, which the code
  uses unchecked; the model's allocations always succeed.
- `crop` on an image without foreground. The source then reads
  uninitialised points, so `Crop` requires a foreground pixel.
- The samples of channels beyond 2 (alpha) in `get_image_from_ROI`. The
  source leaves them uninitialised, and so does the model: nothing is
  stated about them.
- `toBinary`, `pixbuf2ipl`, `ipl2pixbuf` and `canny_detector`. These are
  OpenCV and GdkPixbuf conversions.
- `draw_digit` and the drawing macros. This is library line drawing.
- `noise` and `breach`. They depend on `rand()` and the clock.
- `src/interface.c`. It is GTK user interface, including `classify`, which
  only chains the stages.
- `highlight`, which is declared in `src/hough-recog.h` but has no
  definition.
- HoughIdentify.PointsByAngleFold: stated for angle 0 only. `identify_number`
  calls `count_points_by_angle` only with that angle.
