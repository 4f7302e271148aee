/** `get_textbox` of easyocr/detection.py: the per-image regions from
    test_net, optionally re-ranked by closeness to an expected number of
    characters, each flattened to a coordinate list. */
module Textbox {
  import opened Wrappers
  import opened PostProcess
  import opened Ranking
  import opened Geometry

  /** The entries of a list in which test_net left no `None`. */
  function Unwrap<S>(ps: seq<Option<S>>): (r: seq<S>)
    requires forall k :: 0 <= k < |ps| ==> ps[k].Some?
    ensures |r| == |ps|
  {
    seq(|ps|, k requires 0 <= k < |ps| => ps[k].value)
  }

  /** The (shape, count) pairs of a list of counted regions. */
  function Pairs<S>(cands: seq<Candidate<S>>): (r: seq<(S, int)>)
    requires forall k :: 0 <= k < |cands| ==> cands[k].Counted?
    ensures |r| == |cands|
  {
    seq(|cands|, k requires 0 <= k < |cands| => (cands[k].shape, cands[k].count))
  }

  /** The first components of a list of pairs: `[p for p, _ in t]`. */
  function Firsts<S>(t: seq<(S, int)>): (r: seq<S>)
    ensures |r| == |t|
  {
    seq(|t|, k requires 0 <= k < |t| => t[k].0)
  }

  /** The shapes of a list of bare regions. */
  function Shapes<S>(cands: seq<Candidate<S>>): (r: seq<S>)
    ensures |r| == |cands|
  {
    seq(|cands|, k requires 0 <= k < |cands| => cands[k].shape)
  }

  /** The image's only region is a bare shape of exactly two points. */
  predicate LoneTwoPoint(cands: seq<Candidate<Polygon>>) {
    |cands| == 1 && cands[0].Plain? && |cands[0].shape| == 2
  }

  /** The re-ranking of one image: the regions stably sorted by how far
      their count is from `target`, keeping only the shapes. Python computes
      every key `x[1]` before comparing or unpacking anything, so a bare
      polygon of fewer than two points raises IndexError there. Any other bare
      polygon is a numpy array: comparing it as a key, or unpacking it into
      (shape, count), raises ValueError. The one exception is a lone region
      that is a two-point polygon: a single key is never compared, and
      unpacking the two rows binds the shape to the first point. */
  function Rerank(cands: seq<Candidate<Polygon>>, target: int): (r: Result<seq<Polygon>>)
    ensures r.Ok? <==>
      LoneTwoPoint(cands) || forall k :: 0 <= k < |cands| ==> cands[k].Counted?
    ensures r.Err? ==> r.error == IndexError || r.error == ValueError
    ensures r.Err? ==>
      (r.error == IndexError <==>
        exists k :: 0 <= k < |cands| && cands[k].Plain? && |cands[k].shape| < 2)
    ensures r.Ok? && LoneTwoPoint(cands) ==> r.value == [[cands[0].shape[0]]]
    ensures r.Ok? && !LoneTwoPoint(cands) ==>
      exists t :: StablySorted(target, t, Pairs(cands)) && r.value == Firsts(t)
  {
    if exists k :: 0 <= k < |cands| && cands[k].Plain? && |cands[k].shape| < 2 then Err(IndexError)
    else if LoneTwoPoint(cands) then Ok([[cands[0].shape[0]]])
    else if exists k :: 0 <= k < |cands| && cands[k].Plain? then Err(ValueError)
    else Ok(Firsts(StableSort(target, Pairs(cands))))
  }

  /** The exception re-ranking raises for an image that is not
      `Rerankable`: IndexError when some found polygon has fewer than two
      points, ValueError otherwise. */
  function RerankError(det: Detection<Polygon>): Error {
    if exists k :: 0 <= k < |det.polys| && det.polys[k].Some? && |det.polys[k].value| < 2
    then IndexError
    else ValueError
  }

  /** Image `i` is the first of the batch whose re-ranking raises. */
  predicate FirstUnrankable(dets: seq<Detection<Polygon>>, i: int) {
    && 0 <= i < |dets|
    && !Rerankable(dets[i])
    && forall j :: 0 <= j < i ==> Rerankable(dets[j])
  }

  /** An image that raises after only `Rerankable` ones is the one and only
      first image whose re-ranking raises. */
  lemma FirstUnrankableUnique(dets: seq<Detection<Polygon>>, i: int)
    requires 0 <= i < |dets| && !Rerankable(dets[i])
    requires forall j :: 0 <= j < i ==> Rerankable(dets[j])
    ensures FirstUnrankable(dets, i)
    ensures forall j :: FirstUnrankable(dets, j) ==> j == i
  {
  }

  /** Without a count estimate: the shape a region ends with, its polygon
      when the detector found one and its box otherwise. */
  function Chosen(det: Detection<Polygon>, k: nat): Polygon
    requires k < |det.polys|
    requires det.polys[k].None? ==> k < |det.boxes|
  {
    match det.polys[k]
    case Some(p) => p
    case None => det.boxes[k]
  }

  /** With a count estimate: each box paired with its count. */
  function CountedBoxes(det: Detection<Polygon>): (r: seq<(Polygon, int)>)
    requires |det.polys| <= |det.boxes| && |det.polys| <= |det.mapper|
    ensures |r| == |det.polys|
  {
    seq(|det.polys|, k requires 0 <= k < |det.polys| => (det.boxes[k], det.mapper[k]))
  }

  /** The detector found no polygon for any region of the image. */
  predicate NoPolygons(det: Detection<Polygon>) {
    forall k :: 0 <= k < |det.polys| ==> det.polys[k].None?
  }

  /** The image has a single region, for which the detector found a polygon
      of exactly two points. */
  predicate LoneTwoPointPolygon(det: Detection<Polygon>) {
    |det.polys| == 1 && det.polys[0].Some? && |det.polys[0].value| == 2
  }

  /** With a count estimate, re-ranking the image does not raise. */
  predicate Rerankable(det: Detection<Polygon>) {
    NoPolygons(det) || LoneTwoPointPolygon(det)
  }

  /** With a count estimate, what a `Rerankable` image re-ranks to: its boxes
      stably sorted by distance to `target` or, for a lone two-point
      polygon, that polygon's first point. */
  function Ranked(det: Detection<Polygon>, target: int): seq<Polygon>
    requires |det.polys| <= |det.boxes| && |det.polys| <= |det.mapper|
  {
    if LoneTwoPointPolygon(det) then [[det.polys[0].value[0]]]
    else Firsts(StableSort(target, CountedBoxes(det)))
  }

  /** After filling with counts, every region is counted exactly when the
      detector found no polygon, and then the regions are the counted boxes. */
  lemma CountedAfterFill(det: Detection<Polygon>, bs: seq<Candidate<Polygon>>,
                         ps: seq<Option<Candidate<Polygon>>>)
    requires Filled(det, true, bs, ps)
    ensures (forall k :: 0 <= k < |ps| ==> Unwrap(ps)[k].Counted?) <==> NoPolygons(det)
    ensures NoPolygons(det) ==> |det.polys| <= |det.boxes| && Pairs(Unwrap(ps)) == CountedBoxes(det)
    ensures forall k :: 0 <= k < |ps| ==>
      (Unwrap(ps)[k].Plain? <==> det.polys[k].Some?) &&
      (det.polys[k].Some? ==> Unwrap(ps)[k].shape == det.polys[k].value)
  {
    var cands := Unwrap(ps);
    if !NoPolygons(det) {
      var k :| 0 <= k < |det.polys| && det.polys[k].Some?;
      assert cands[k] == Plain(det.polys[k].value);
    }
    if NoPolygons(det) {
      if |ps| > 0 {
        assert det.polys[|ps| - 1].None?;
        assert |ps| - 1 < |bs|;
      }
      forall k | 0 <= k < |ps|
        ensures Pairs(cands)[k] == CountedBoxes(det)[k]
      {
        assert ps[k] == Some(bs[k]);
      }
    }
  }

  /** After filling with counts, the lone-two-point test on the regions is
      the same test on the detector's polygons. */
  lemma LoneAfterFill(det: Detection<Polygon>, bs: seq<Candidate<Polygon>>,
                      ps: seq<Option<Candidate<Polygon>>>)
    requires Filled(det, true, bs, ps)
    ensures LoneTwoPoint(Unwrap(ps)) <==> LoneTwoPointPolygon(det)
    ensures LoneTwoPoint(Unwrap(ps)) ==> Unwrap(ps)[0].shape == det.polys[0].value
  {
    CountedAfterFill(det, bs, ps);
  }

  /** After filling with counts, re-ranking fails exactly for an image that
      is not `Rerankable`, with the error its found polygons call for. */
  lemma RerankErrorAfterFill(det: Detection<Polygon>, bs: seq<Candidate<Polygon>>,
                             ps: seq<Option<Candidate<Polygon>>>, target: int)
    requires Filled(det, true, bs, ps)
    ensures Rerank(Unwrap(ps), target).Err? <==> !Rerankable(det)
    ensures Rerank(Unwrap(ps), target).Err? ==> Rerank(Unwrap(ps), target).error == RerankError(det)
  {
    var cands := Unwrap(ps);
    var r := Rerank(cands, target);
    CountedAfterFill(det, bs, ps);
    LoneAfterFill(det, bs, ps);
    if r.Err? {
      if r.error == IndexError {
        var k :| 0 <= k < |cands| && cands[k].Plain? && |cands[k].shape| < 2;
        assert det.polys[k].Some? && |det.polys[k].value| < 2;
      } else if exists k :: 0 <= k < |det.polys| && det.polys[k].Some? && |det.polys[k].value| < 2 {
        var k :| 0 <= k < |det.polys| && det.polys[k].Some? && |det.polys[k].value| < 2;
        assert cands[k].Plain? && |cands[k].shape| < 2;
      }
    }
  }

  /** After filling with counts a `Rerankable` image, re-ranking yields
      `Ranked`. */
  lemma RerankAfterFill(det: Detection<Polygon>, bs: seq<Candidate<Polygon>>,
                        ps: seq<Option<Candidate<Polygon>>>, target: int)
    requires Filled(det, true, bs, ps)
    requires |det.polys| <= |det.boxes| && |det.polys| <= |det.mapper|
    requires Rerankable(det)
    ensures Rerank(Unwrap(ps), target) == Ok(Ranked(det, target))
  {
    var cands := Unwrap(ps);
    CountedAfterFill(det, bs, ps);
    LoneAfterFill(det, bs, ps);
    var r := Rerank(cands, target);
    if !LoneTwoPointPolygon(det) {
      var t :| StablySorted(target, t, Pairs(cands)) && r.value == Firsts(t);
      StableSortAgrees(target, CountedBoxes(det), t);
    }
  }

  /** After filling without counts, every region is bare and its shape is
      the chosen polygon or box. */
  lemma ShapesAfterFill(det: Detection<Polygon>, bs: seq<Candidate<Polygon>>,
                        ps: seq<Option<Candidate<Polygon>>>, k: nat)
    requires Filled(det, false, bs, ps)
    requires k < |det.polys|
    ensures det.polys[k].None? ==> k < |det.boxes|
    ensures Shapes(Unwrap(ps))[k] == Chosen(det, k)
  {
  }

  /** Re-ranking one image of a batch filled with counts. */
  method RerankImage(det: Detection<Polygon>, bs: seq<Candidate<Polygon>>,
                     ps: seq<Option<Candidate<Polygon>>>, target: int)
    returns (r: Result<seq<Polygon>>)
    requires Filled(det, true, bs, ps)
    requires |det.polys| <= |det.boxes| && |det.polys| <= |det.mapper|
    ensures r.Ok? <==> Rerankable(det)
    ensures r.Ok? ==> r.value == Ranked(det, target)
    ensures r.Err? ==> r.error == RerankError(det)
  {
    RerankErrorAfterFill(det, bs, ps, target);
    r := Rerank(Unwrap(ps), target);
    if r.Ok? {
      RerankAfterFill(det, bs, ps, target);
    }
  }

  /** The list comprehension of get_textbox that re-ranks every image of a
      batch filled with counts: the first image that is not `Rerankable`
      raises, otherwise each image becomes `Ranked`. */
  method RerankAll(dets: seq<Detection<Polygon>>, boxesList: seq<seq<Candidate<Polygon>>>,
                   polysList: seq<seq<Option<Candidate<Polygon>>>>, target: int)
    returns (r: Result<seq<seq<Polygon>>>)
    requires |boxesList| == |dets| && |polysList| == |dets|
    requires forall i :: 0 <= i < |dets| ==>
      |dets[i].polys| <= |dets[i].boxes| && |dets[i].polys| <= |dets[i].mapper|
    requires forall i :: 0 <= i < |dets| ==> Filled(dets[i], true, boxesList[i], polysList[i])
    ensures r.Ok? <==> forall i :: 0 <= i < |dets| ==> Rerankable(dets[i])
    ensures r.Ok? ==> |r.value| == |dets|
    ensures r.Ok? ==> forall i :: 0 <= i < |dets| ==>
      r.value[i] == Ranked(dets[i], target)
    ensures r.Err? ==> forall i :: FirstUnrankable(dets, i) ==> r.error == RerankError(dets[i])
  {
    var ranked: seq<seq<Polygon>> := [];
    var i := 0;
    while i < |dets|
      invariant 0 <= i <= |dets|
      invariant |ranked| == i
      invariant forall j :: 0 <= j < i ==> Rerankable(dets[j])
      invariant forall j {:trigger ranked[j]} :: 0 <= j < i ==> ranked[j] == Ranked(dets[j], target)
    {
      var one := RerankImage(dets[i], boxesList[i], polysList[i], target);
      if one.Err? {
        FirstUnrankableUnique(dets, i);
        return Err(one.error);
      }
      ranked := ranked + [one.value];
      i := i + 1;
    }
    r := Ok(ranked);
  }

  /** Without counts, the shapes test_net leaves for every image. */
  method ChosenAll(dets: seq<Detection<Polygon>>, boxesList: seq<seq<Candidate<Polygon>>>,
                   polysList: seq<seq<Option<Candidate<Polygon>>>>)
    returns (shapes: seq<seq<Polygon>>)
    requires |boxesList| == |dets| && |polysList| == |dets|
    requires forall i :: 0 <= i < |dets| ==> Filled(dets[i], false, boxesList[i], polysList[i])
    ensures |shapes| == |dets|
    ensures forall i :: 0 <= i < |dets| ==> |shapes[i]| == |dets[i].polys|
    ensures forall i, k :: 0 <= i < |dets| && 0 <= k < |dets[i].polys| ==>
      (dets[i].polys[k].None? ==> k < |dets[i].boxes|) && shapes[i][k] == Chosen(dets[i], k)
  {
    shapes := [];
    var i := 0;
    while i < |dets|
      invariant 0 <= i <= |dets|
      invariant |shapes| == i
      invariant forall j :: 0 <= j < i ==> |shapes[j]| == |dets[j].polys|
      invariant forall j, k :: 0 <= j < i && 0 <= k < |dets[j].polys| ==>
        (dets[j].polys[k].None? ==> k < |dets[j].boxes|) && shapes[j][k] == Chosen(dets[j], k)
    {
      var cands := Unwrap(polysList[i]);
      forall k | 0 <= k < |dets[i].polys|
        ensures dets[i].polys[k].None? ==> k < |dets[i].boxes|
        ensures Shapes(cands)[k] == Chosen(dets[i], k)
      {
        ShapesAfterFill(dets[i], boxesList[i], polysList[i], k);
      }
      shapes := shapes + [Shapes(cands)];
      i := i + 1;
    }
  }

  /** get_textbox over the detector's reports for a batch of images, with
      `optimal` standing for `optimal_num_chars`. Each image yields one
      coordinate list per region. Without an expected count, a region's list
      is its polygon or, when none was found, its box. With one, the regions
      are the count-paired boxes stably sorted by distance to the expected
      count, except that a lone two-point polygon becomes its first point.
      An empty batch raises UnboundLocalError and the fill loop's IndexError
      comes first; after that, the first image that is not `Rerankable`
      raises that image's re-ranking error. */
  method GetTextbox(dets: seq<Detection<Polygon>>, optimal: Option<int>)
    returns (r: Result<seq<seq<seq<int>>>>)
    ensures |dets| == 0 ==> r == Err(UnboundLocalError)
    ensures r.Ok? ==> |r.value| == |dets|
    ensures r.Ok? ==> forall i :: 0 <= i < |dets| ==> |r.value[i]| == |dets[i].polys|
    ensures optimal.None? ==>
      (r.Ok? <==> |dets| > 0 && forall i :: 0 <= i < |dets| ==> !FillFails(dets[i], false))
    ensures optimal.None? && r.Ok? ==>
      forall i, k :: 0 <= i < |dets| && 0 <= k < |dets[i].polys| ==>
        r.value[i][k] == Flatten(Chosen(dets[i], k))
    ensures optimal.Some? ==>
      (r.Ok? <==>
        |dets| > 0 && forall i :: 0 <= i < |dets| ==> !FillFails(dets[i], true) && Rerankable(dets[i]))
    ensures optimal.Some? && r.Ok? ==>
      forall i :: 0 <= i < |dets| && NoPolygons(dets[i]) ==>
        r.value[i] == FlattenAll(Firsts(StableSort(optimal.value, CountedBoxes(dets[i]))))
    ensures optimal.Some? && r.Ok? ==>
      forall i :: 0 <= i < |dets| && LoneTwoPointPolygon(dets[i]) ==>
        r.value[i] == [[dets[i].polys[0].value[0].x, dets[i].polys[0].value[0].y]]
    ensures r.Err? && (exists i :: 0 <= i < |dets| && FillFails(dets[i], optimal.Some?)) ==>
      r.error == IndexError
    ensures optimal.Some? && r.Err? && (forall i :: 0 <= i < |dets| ==> !FillFails(dets[i], true)) ==>
      forall i :: FirstUnrankable(dets, i) ==> r.error == RerankError(dets[i])
  {
    var post := TestNetPost(dets, optimal.Some?);
    if post.Err? {
      return Err(post.error);
    }
    var (boxesList, polysList) := post.value;
    var shapesList: seq<seq<Polygon>>;
    if optimal.Some? {
      var ranked := RerankAll(dets, boxesList, polysList, optimal.value);
      if ranked.Err? {
        return Err(ranked.error);
      }
      shapesList := ranked.value;
      forall i | 0 <= i < |dets| && LoneTwoPointPolygon(dets[i])
        ensures FlattenAll(shapesList[i]) == [[dets[i].polys[0].value[0].x, dets[i].polys[0].value[0].y]]
      {
        FlattenSinglePoint(dets[i].polys[0].value[0]);
      }
    } else {
      shapesList := ChosenAll(dets, boxesList, polysList);
    }
    r := Ok(seq(|shapesList|, j requires 0 <= j < |shapesList| => FlattenAll(shapesList[j])));
  }
}
