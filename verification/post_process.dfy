/** The per-image post-processing at the end of `test_net` in
    easyocr/detection.py: once the external box extraction and coordinate
    rescaling have produced boxes, polygons and the character-count mapper
    of an image, each box is optionally paired with its count and each
    missing polygon is replaced by its box. */
module PostProcess {
  import opened Wrappers

  /** What the external detector reports for one image, after rescaling:
      one box per text region, a polygon per region or `None` where no
      polygon was found, and the estimated character count per region. */
  datatype Detection<S> = Detection(boxes: seq<S>, polys: seq<Option<S>>, mapper: seq<int>)

  /** A region as test_net hands it on: a bare shape, or, when character
      counts are estimated, a box paired with its count. */
  datatype Candidate<S> = Plain(shape: S) | Counted(shape: S, count: int)

  /** The fill loop raises IndexError: with counts, when a box or a count is
      missing for some polygon index; without counts, when a `None` polygon
      has no box at its index. */
  predicate FillFails<S>(det: Detection<S>, estimate: bool) {
    if estimate then |det.boxes| < |det.polys| || |det.mapper| < |det.polys|
    else exists k :: |det.boxes| <= k < |det.polys| && det.polys[k].None?
  }

  /** `bs` and `ps` are the boxes and polygons of `det` after the fill loop:
      the first |polys| boxes are paired with their counts when `estimate`
      holds, every polygon is present, present polygons are kept, and a
      missing polygon becomes the (possibly paired) box at its index. */
  ghost predicate Filled<S>(det: Detection<S>, estimate: bool,
                      bs: seq<Candidate<S>>, ps: seq<Option<Candidate<S>>>)
  {
    && |bs| == |det.boxes|
    && |ps| == |det.polys|
    && (estimate ==> |det.polys| <= |det.mapper|)
    && (forall k :: 0 <= k < |bs| ==>
          bs[k] == if estimate && k < |det.polys| then Counted(det.boxes[k], det.mapper[k])
                   else Plain(det.boxes[k]))
    && (forall k :: 0 <= k < |ps| ==> ps[k].Some?)
    && (forall k :: 0 <= k < |ps| && det.polys[k].Some? ==> ps[k] == Some(Plain(det.polys[k].value)))
    && (forall k :: 0 <= k < |ps| && det.polys[k].None? ==> k < |bs| && ps[k] == Some(bs[k]))
  }

  /** A detected polygon, or `None`, as a list entry. */
  function AsEntry<S>(p: Option<S>): Option<Candidate<S>> {
    match p
    case None => None
    case Some(s) => Some(Plain(s))
  }

  /** The fill loop of test_net for one image. */
  method FillPolys<S>(det: Detection<S>, estimate: bool)
    returns (r: Result<(seq<Candidate<S>>, seq<Option<Candidate<S>>>)>)
    ensures r.Err? <==> FillFails(det, estimate)
    ensures r.Err? ==> r.error == IndexError
    ensures r.Ok? ==> Filled(det, estimate, r.value.0, r.value.1)
  {
    var bs := seq(|det.boxes|, k requires 0 <= k < |det.boxes| => Plain(det.boxes[k]));
    var ps := seq(|det.polys|, k requires 0 <= k < |det.polys| => AsEntry(det.polys[k]));
    var i := 0;
    while i < |det.polys|
      invariant 0 <= i <= |det.polys|
      invariant |bs| == |det.boxes| && |ps| == |det.polys|
      invariant estimate ==> i <= |det.boxes| && i <= |det.mapper|
      invariant !estimate ==> forall k :: |det.boxes| <= k < i ==> det.polys[k].Some?
      invariant forall k :: 0 <= k < |bs| ==>
        bs[k] == if estimate && k < i then Counted(det.boxes[k], det.mapper[k]) else Plain(det.boxes[k])
      invariant forall k :: 0 <= k < i && det.polys[k].None? ==> k < |bs| && ps[k] == Some(bs[k])
      invariant forall k :: 0 <= k < |ps| && (i <= k || det.polys[k].Some?) ==> ps[k] == AsEntry(det.polys[k])
    {
      if estimate {
        if i >= |det.boxes| || i >= |det.mapper| {
          return Err(IndexError);
        }
        bs := bs[i := Counted(det.boxes[i], det.mapper[i])];
      }
      if ps[i].None? {
        if i >= |bs| {
          return Err(IndexError);
        }
        ps := ps[i := Some(bs[i])];
      }
      i := i + 1;
    }
    r := Ok((bs, ps));
  }

  /** The loop of test_net over the images of a batch: every image's boxes
      and polygons, or the first IndexError. An empty batch never runs the
      resize loop, so reading its `target_ratio` afterwards raises
      UnboundLocalError. */
  method TestNetPost<S>(dets: seq<Detection<S>>, estimate: bool)
    returns (r: Result<(seq<seq<Candidate<S>>>, seq<seq<Option<Candidate<S>>>>)>)
    ensures |dets| == 0 ==> r == Err(UnboundLocalError)
    ensures r.Err? <==> |dets| == 0 || exists i :: 0 <= i < |dets| && FillFails(dets[i], estimate)
    ensures r.Err? && |dets| > 0 ==> r.error == IndexError
    ensures r.Ok? ==> |r.value.0| == |dets| && |r.value.1| == |dets|
    ensures r.Ok? ==> forall i :: 0 <= i < |dets| ==>
      Filled(dets[i], estimate, r.value.0[i], r.value.1[i])
  {
    if |dets| == 0 {
      return Err(UnboundLocalError);
    }
    var boxesList: seq<seq<Candidate<S>>> := [];
    var polysList: seq<seq<Option<Candidate<S>>>> := [];
    var i := 0;
    while i < |dets|
      invariant 0 <= i <= |dets|
      invariant |boxesList| == i && |polysList| == i
      invariant forall j :: 0 <= j < i ==> !FillFails(dets[j], estimate)
      invariant forall j :: 0 <= j < i ==> Filled(dets[j], estimate, boxesList[j], polysList[j])
    {
      var one := FillPolys(dets[i], estimate);
      if one.Err? {
        return Err(one.error);
      }
      boxesList := boxesList + [one.value.0];
      polysList := polysList + [one.value.1];
      i := i + 1;
    }
    r := Ok((boxesList, polysList));
  }
}
