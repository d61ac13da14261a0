/** page/elements/coords.py: a Coords (or Baseline) element carrying a
    point list in its points attribute. Both tags share one codec; the tag
    is a parameter. */
module Coords {
  import opened Wrappers
  import opened Errors
  import opened Xml
  import opened Points

  const CoordsTag := "Coords"
  const BaselineTag := "Baseline"

  datatype Coordinates = Coordinates(points: seq<Point>)

  /** Coordinates.from_element (and Baseline.from_element under tag
      "Baseline"): the points attribute is required and parsed with the
      point-list codec, whose errors propagate. */
  function CoordsFromElement(n: Node, tag: string): (r: Parse<Coordinates>)
    ensures "points" !in n.attrs ==> r == Err(MissingAttribute(tag, "points"))
    ensures "points" in n.attrs ==>
      var ps := PointsFromString(n.attrs["points"]);
      (r.Ok? <==> ps.Ok?) &&
      (r.Ok? ==> r.value.points == ps.value) &&
      (r.Err? ==> r.error == ps.error)
  {
    match Get(n, "points")
    case None => Err(MissingAttribute(tag, "points"))
    case Some(s) =>
      var points :- PointsFromString(s);
      Ok(Coordinates(points))
  }

  /** Coordinates.to_element: a fresh element whose only attribute is the
      formatted point list. */
  function CoordsToElement(c: Coordinates, tag: string): (r: Node)
    ensures r.tag == tag && r.children == [] && r.text.None?
    ensures r.attrs.Keys == {"points"} && r.attrs["points"] == PointsToString(c.points)
    ensures DescendantTags(r) == {}
  {
    Element(tag, map["points" := PointsToString(c.points)], [])
  }

  /** from_element(to_element(c)) == c for every list of at least two
      points, and point order is kept. */
  lemma CoordsRoundTrip(c: Coordinates, tag: string)
    requires |c.points| >= 2
    ensures CoordsFromElement(CoordsToElement(c, tag), tag) == Ok(c)
  {
    ParseFormatted(c.points);
  }
}
