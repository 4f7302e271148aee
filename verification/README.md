# EasyOCR detection post-processing, modelled in Dafny

This project models the pure logic of `easyocr_hybrid_onnx/easyocr/detection.py`,
the text-detection runner of an EasyOCR fork. It covers three routines that
turn checkpoints and detector output into data:

* **`copyStateDict`** renames the entries of a weight checkpoint. If the
  *first* key starts with `module`, every key loses its first `.`-separated
  segment. Otherwise every key is kept. The entries are assigned in order
  into an `OrderedDict`, so a repeated new name keeps its first position and
  takes its last value. An empty checkpoint raises `IndexError`.
  (`dotted_names.dfy`, `ordered_dict.dfy`, `occurrences.dfy`, `state_dict.dfy`)
* **The fill loop at the end of `test_net`**. For each image, the external
  detector reports boxes, polygons (`None` where none was found) and a
  character-count mapper. With character counting, each box is paired with
  its count. Then every `None` polygon is replaced by the box at its index,
  which is the paired box when counting. Missing boxes or counts raise
  `IndexError` exactly where the Python indexing would. An empty batch never
  assigns `target_ratio`, so `test_net` raises `UnboundLocalError` before the
  loop. (`post_process.dfy`)
* **`get_textbox`**. With an expected character count, each image's
  (box, count) pairs are stably sorted by `|expected - count|` and only the
  boxes are kept. Then every polygon is flattened row-major into one
  coordinate list. (`ranking.dfy`, `geometry.dfy`, `textbox.dfy`)

`wrappers.dfy` holds `Option` (Python's `None`), the `IndexError`,
`ValueError` and `UnboundLocalError` exceptions and a `Result` type.

Modelling choices:

* A checkpoint is a sequence of `(key, value)` pairs in iteration order. An
  `OrderedDict` is such a sequence with no key listed twice.
* The detector's output for one image is a `Detection`: boxes, optional
  polygons and the mapper. A batch is a sequence of them. A single image is
  a batch of one.
* A region handed on by `test_net` is a `Candidate`: a bare shape, or a shape
  paired with its character count.
* Points have integer coordinates.
* `Ranking.StableSort` is an insertion sort. `Ranking.StablySortedUnique`
  proves that a stable sort has only one possible result, so this sort
  returns exactly what Python's `sorted` returns.
* In `get_textbox`, re-ranking unpacks every region as `(shape, count)`. That
  only works for regions paired by the fill loop. A polygon the detector did
  find is a numpy array of its points. `sorted` computes every key before
  comparing, and the key `x[1]` of a polygon with fewer than two points
  raises `IndexError`. Otherwise comparing array keys, or unpacking a
  polygon into two names, raises `ValueError`. There is one exception: an
  image whose only region is a found polygon of exactly two points. A
  single key is never compared, and unpacking the two rows binds the shape
  to the first point, so that region becomes one point. `Textbox.Rerank`
  models all three outcomes. It returns `IndexError` when some found polygon
  has fewer than two points, the first point for a lone two-point polygon,
  and `ValueError` for any other found polygon. An image is `Rerankable`
  when it has no found polygon or is such a lone two-point polygon.
  `Textbox.GetTextbox` succeeds with an expected count exactly when every
  image is `Rerankable`. Otherwise it raises the error of the first image
  that is not. Fill errors come first, since `test_net` runs before the
  re-ranking.
* `test_net` also returns the box lists. `PostProcess.TestNetPost` computes
  them, but `Textbox.GetTextbox` drops them, as `get_textbox` does.

## Model

| member | source | states |
|---|---|---|
| DottedNames.Split | easyocr_hybrid_onnx/easyocr/detection.py:25 | `k.split(".")` has at least one segment and no segment contains `.`. Joining the segments with `.` (`DottedNames.Join`, the `".".join` of line 25) gives back `k` |
| DottedNames.SplitJoin | easyocr_hybrid_onnx/easyocr/detection.py:25 | splitting the `.`-join of a non-empty list of separator-free (possibly empty) segments gives back those segments, so split and join are inverse |
| DottedNames.DropFirstSegment | easyocr_hybrid_onnx/easyocr/detection.py:25 | joining all split segments but the first gives exactly the text after the first `.`, and the empty string for a key without `.` |
| DottedNames.Rename | easyocr_hybrid_onnx/easyocr/detection.py:19-25 | with start index 1 the new name is what follows the key's first `.`; with start index 0 the key is unchanged |
| OrderedDicts.Put | easyocr_hybrid_onnx/easyocr/detection.py:26 | `new_state_dict[name] = v`: a present name keeps its position and takes the new value, a new name is appended, nothing else changes, and no name is listed twice |
| OrderedDicts.PutKeys | easyocr_hybrid_onnx/easyocr/detection.py:26 | after `new_state_dict[name] = v` the keys are unchanged when the name is present, and otherwise the name is appended |
| OrderedDicts.PutEntries | easyocr_hybrid_onnx/easyocr/detection.py:26 | after `new_state_dict[name] = v` the entry under the name holds `v`, and every other entry is the one at the same position before |
| Occurrences.Dedup | easyocr_hybrid_onnx/easyocr/detection.py:24-26 | the key order an OrderedDict ends with has no repeats, holds exactly the assigned names and is no longer than the assignments |
| Occurrences.DedupFirstOccurrenceOrder | easyocr_hybrid_onnx/easyocr/detection.py:24-26 | that key order lists names by their first assignment |
| Occurrences.DedupOfDistinct | easyocr_hybrid_onnx/easyocr/detection.py:24-26 | without repeated names the key order is the assignment order |
| StateDict.Load | easyocr_hybrid_onnx/easyocr/detection.py:23-26 | the loop's new dict never lists a name twice |
| StateDict.LoadKeys | easyocr_hybrid_onnx/easyocr/detection.py:23-26 | the new dict's keys are the renamed keys without repeats, in first-occurrence order |
| StateDict.LoadValues | easyocr_hybrid_onnx/easyocr/detection.py:23-26 | each entry of the new dict holds the value of the last checkpoint entry renamed to its name |
| StateDict.LoadSize | easyocr_hybrid_onnx/easyocr/detection.py:23-27 | the new dict has at most as many entries as the checkpoint, and exactly as many when the renamed keys are distinct |
| StateDict.CopyStateDict | easyocr_hybrid_onnx/easyocr/detection.py:18-27 | it succeeds exactly when the checkpoint is non-empty, and an empty one raises IndexError. The first segment is dropped from every key exactly when the first key starts with `module` (`DottedNames.StartsWithModule`, line 19). The result's keys are the new names in first-occurrence order, each holding the value of the last entry with that name, with the size bounds above |
| StateDict.LoadDistinctUnstripped | easyocr_hybrid_onnx/easyocr/detection.py:23-26 | without stripping, a checkpoint with distinct keys is rebuilt entry for entry by the loop |
| StateDict.KeepsCheckpointWithoutModulePrefix | easyocr_hybrid_onnx/easyocr/detection.py:19-26 | when the first key does not start with `module` and no key repeats, the result is the input checkpoint unchanged |
| StateDict.StripsEveryKeyAfterModulePrefix | easyocr_hybrid_onnx/easyocr/detection.py:19-26 | when the first key starts with `module`, every key, whether or not it starts with `module`, contributes its text after the first `.` as a name, and every name arises that way |
| PostProcess.FillPolys | easyocr_hybrid_onnx/easyocr/detection.py:106-113 | IndexError exactly when a box or count is missing (with counts) or a `None` polygon has no box (without); otherwise the polygons keep their length, none is `None`, found polygons are unchanged, a `None` at index k becomes box k, and with counts box k becomes `(box k, mapper[k])` before the fill |
| PostProcess.TestNetPost | easyocr_hybrid_onnx/easyocr/detection.py:37-117 | an empty batch raises UnboundLocalError, since `target_ratio` is never assigned. Otherwise it raises IndexError exactly when some image's fill fails, and else returns one box list and one polygon list per image, each filled as above |
| Ranking.InsertKeepsStable | easyocr_hybrid_onnx/easyocr/detection.py:145 | inserting a pair in front of a stable sort's input, and into its output by key after the pairs of smaller key, keeps the output a stable sort of the longer input |
| Ranking.StableSort | easyocr_hybrid_onnx/easyocr/detection.py:145 | `sorted(polys, key=lambda x: abs(optimal_num_chars - x[1]))`: the output is a permutation of the input, its keys do not decrease, and pairs with equal key keep their input order |
| Ranking.StablySortedUnique | easyocr_hybrid_onnx/easyocr/detection.py:145 | two key-ordered sequences that agree, key by key, on the order of their pairs are equal |
| Ranking.StableSortAgrees | easyocr_hybrid_onnx/easyocr/detection.py:145 | any stable sort of the pairs by that key, such as Python's `sorted`, equals the modelled sort |
| Geometry.Flatten | easyocr_hybrid_onnx/easyocr/detection.py:151 | `reshape((-1))` of a polygon has two coordinates per point, with point i's x at position 2i and its y at 2i+1 |
| Geometry.UnflattenFlatten | easyocr_hybrid_onnx/easyocr/detection.py:151 | reading the flattened coordinates back as points gives the polygon back |
| Geometry.FlattenUnflatten | easyocr_hybrid_onnx/easyocr/detection.py:151 | every even-length coordinate list is the flattening of the points read from it |
| Geometry.FlattenAll | easyocr_hybrid_onnx/easyocr/detection.py:148-153 | one coordinate list per polygon, in order, each twice as long as its polygon, with each point's x and y interleaved |
| Geometry.UnflattenAll | easyocr_hybrid_onnx/easyocr/detection.py:148-153 | every polygon of an image comes back from its coordinate list |
| Geometry.FlattenSinglePoint | easyocr_hybrid_onnx/easyocr/detection.py:148-153 | a region of one point flattens to that point's x and y |
| Textbox.Rerank | easyocr_hybrid_onnx/easyocr/detection.py:144-146 | it succeeds exactly when every region is a (shape, count) pair or the only region is a found two-point polygon. In the first case it returns the shapes of a stable sort of the pairs by distance to the expected count, and in the second that polygon's first point. Otherwise it raises IndexError exactly when some found polygon has fewer than two points, and ValueError in every other failing case |
| Textbox.CountedAfterFill | easyocr_hybrid_onnx/easyocr/detection.py:109-113 | after the fill with counts every region is a (box, count) pair exactly when the detector found no polygon, and then the pairs are the boxes with their mapper counts |
| Textbox.LoneAfterFill | easyocr_hybrid_onnx/easyocr/detection.py:109-113 | after the fill with counts, the only region is a bare two-point shape exactly when the detector found a single polygon of two points, and that shape is the polygon |
| Textbox.RerankErrorAfterFill | easyocr_hybrid_onnx/easyocr/detection.py:144-146 | after the fill with counts, re-ranking an image fails exactly when it is not `Rerankable`, that is, when it has a found polygon and is not a lone two-point one. The error is IndexError when some found polygon has fewer than two points and ValueError otherwise |
| Textbox.RerankAfterFill | easyocr_hybrid_onnx/easyocr/detection.py:144-146 | after the fill with counts, a `Rerankable` image re-ranks to `Ranked`: its boxes stably sorted by distance to the expected count, or the first point of a lone two-point polygon |
| Textbox.RerankImage | easyocr_hybrid_onnx/easyocr/detection.py:144-146 | one image filled with counts re-ranks successfully exactly when it is `Rerankable`, and then to `Ranked`. Otherwise it raises that image's re-ranking error |
| Textbox.RerankAll | easyocr_hybrid_onnx/easyocr/detection.py:144-146 | re-ranking a batch succeeds exactly when every image is `Rerankable`, and then yields `Ranked` for each image. Otherwise it raises the error of the first image that is not `Rerankable` |
| Textbox.ShapesAfterFill | easyocr_hybrid_onnx/easyocr/detection.py:109-113 | after the fill without counts every region's shape is its found polygon, or its box when none was found |
| Textbox.ChosenAll | easyocr_hybrid_onnx/easyocr/detection.py:109-113 | without counts, each image's shapes are, region by region, the found polygon or else the box at the same index |
| Textbox.GetTextbox | easyocr_hybrid_onnx/easyocr/detection.py:137-155 | an empty batch raises UnboundLocalError, and a fill failure raises IndexError. Without an expected count it otherwise succeeds, with each region's list the flattened polygon, or the box when none was found. With one it succeeds exactly when every image is `Rerankable`. Then an image without found polygons gives its flattened boxes stably sorted by count distance, and a lone two-point polygon gives its first point's two coordinates. Otherwise it raises the error of the first image that is not `Rerankable` |

## Left out

- `get_detector` (detection.py:119-135): building the network, `torch.load`, dynamic quantization, `DataParallel`, cudnn and device moves are foreign library calls. Only its use of `copyStateDict` is modelled.
- Resizing, normalisation, the forward pass, ONNX export and checking, and ONNX runtime inference (detection.py:35-86): image numerics and file I/O in external libraries. Their outcome enters the model as the `Detection` parameters.
- `getDetBoxes` and `adjustResultCoordinates` (detection.py:100-105): not part of this model. Their results are the `Detection` parameters, and their float scaling by `1 / target_ratio` is not modelled.
- The batch-or-single dispatch on the array rank (detection.py:30-33): a single image is modelled as a batch of one.
- `to_numpy` (detection.py:15-16): a tensor-to-array conversion with no logic of its own.
- `np.int32` truncation (detection.py:151): coordinates are unbounded integers, so the float-to-int cast and 32-bit overflow are not modelled.
