/** Polygons with integer coordinates, and the row-major flattening
    `np.array(box).reshape(-1)` that get_textbox applies to each of them. */
module Geometry {

  datatype Point = Point(x: int, y: int)

  /** A box or polygon: its corner points in order. */
  type Polygon = seq<Point>

  /** The coordinates of `poly` in row-major order: x0, y0, x1, y1, ... */
  function Flatten(poly: Polygon): (coords: seq<int>)
    ensures |coords| == 2 * |poly|
    ensures forall i :: 0 <= i < |poly| ==> coords[2 * i] == poly[i].x && coords[2 * i + 1] == poly[i].y
  {
    if |poly| == 0 then []
    else
      var rest := Flatten(poly[1..]);
      var coords := [poly[0].x, poly[0].y] + rest;
      assert forall i :: 1 <= i < |poly| ==> coords[2 * i] == rest[2 * (i - 1)];
      coords
  }

  /** Reads a coordinate list of even length back as points. */
  function Unflatten(coords: seq<int>): (poly: Polygon)
    requires |coords| % 2 == 0
    ensures |poly| == |coords| / 2
  {
    if |coords| == 0 then [] else [Point(coords[0], coords[1])] + Unflatten(coords[2..])
  }

  /** Flattening loses nothing: the points come back from the coordinates. */
  lemma {:induction false} UnflattenFlatten(poly: Polygon)
    ensures Unflatten(Flatten(poly)) == poly
  {
    if |poly| > 0 {
      var rest := Flatten(poly[1..]);
      var f := Flatten(poly);
      assert f == [poly[0].x, poly[0].y] + rest;
      assert f[2..] == rest;
      UnflattenFlatten(poly[1..]);
      assert Unflatten(f) == [Point(poly[0].x, poly[0].y)] + poly[1..];
      assert poly == [poly[0]] + poly[1..];
    }
  }

  /** Every even-length coordinate list is the flattening of some polygon. */
  lemma {:induction false} FlattenUnflatten(coords: seq<int>)
    requires |coords| % 2 == 0
    ensures Flatten(Unflatten(coords)) == coords
  {
    if |coords| > 0 {
      FlattenUnflatten(coords[2..]);
      var poly := Unflatten(coords);
      assert poly[1..] == Unflatten(coords[2..]);
      assert coords == [coords[0], coords[1]] + coords[2..];
    }
  }

  /** One image's result: each polygon flattened, in order, one coordinate
      list per polygon with its points' x and y interleaved. */
  function FlattenAll(polys: seq<Polygon>): (result: seq<seq<int>>)
    ensures |result| == |polys|
    ensures forall i :: 0 <= i < |polys| ==> |result[i]| == 2 * |polys[i]|
    ensures forall i, k :: 0 <= i < |polys| && 0 <= k < |polys[i]| ==>
      result[i][2 * k] == polys[i][k].x && result[i][2 * k + 1] == polys[i][k].y
  {
    seq(|polys|, i requires 0 <= i < |polys| => Flatten(polys[i]))
  }

  /** The polygons of an image come back from its coordinate lists. */
  lemma UnflattenAll(polys: seq<Polygon>)
    ensures forall i :: 0 <= i < |polys| ==> Unflatten(FlattenAll(polys)[i]) == polys[i]
  {
    forall i | 0 <= i < |polys|
      ensures Unflatten(FlattenAll(polys)[i]) == polys[i]
    {
      UnflattenFlatten(polys[i]);
    }
  }

  /** A region of one point flattens to that point's two coordinates. */
  lemma FlattenSinglePoint(p: Point)
    ensures FlattenAll([[p]]) == [[p.x, p.y]]
  {
    assert Flatten([p]) == [p.x, p.y];
  }
}
