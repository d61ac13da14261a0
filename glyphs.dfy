/** page/elements/glyph.py: a glyph with its coordinates and at most one
    text. */
module Glyphs {
  import opened Wrappers
  import opened Errors
  import opened Xml
  import opened Coords
  import opened Texts

  const GlyphTag := "Glyph"

  datatype Glyph = Glyph(id: string, coords: Coordinates, text: Option<Text>)

  /** Glyph.from_element: the id attribute, then the Coords child, are
      required; the text is the first TextEquiv child, and any further ones
      are ignored. */
  function GlyphFromElement(n: Node): (r: Parse<Glyph>)
    ensures "id" !in n.attrs ==> r == Err(MissingAttribute(GlyphTag, "id"))
    ensures "id" in n.attrs && Find(n.children, CoordsTag).None? ==> r == Err(MissingElement(GlyphTag, CoordsTag))
    ensures "id" in n.attrs && Find(n.children, CoordsTag).Some? &&
            CoordsFromElement(Find(n.children, CoordsTag).value, CoordsTag).Err? ==>
            r == Err(CoordsFromElement(Find(n.children, CoordsTag).value, CoordsTag).error)
    ensures "id" in n.attrs && Find(n.children, CoordsTag).Some? &&
            CoordsFromElement(Find(n.children, CoordsTag).value, CoordsTag).Ok? ==>
      (Find(n.children, TextEquivTag).Some? && TextFromElement(Find(n.children, TextEquivTag).value).Err? ==>
         r == Err(TextFromElement(Find(n.children, TextEquivTag).value).error)) &&
      (Find(n.children, TextEquivTag).None? || TextFromElement(Find(n.children, TextEquivTag).value).Ok? ==>
         r.Ok?)
    ensures r.Ok? ==>
      r.value.id == n.attrs["id"] &&
      Find(n.children, CoordsTag).Some? &&
      CoordsFromElement(Find(n.children, CoordsTag).value, CoordsTag) == Ok(r.value.coords) &&
      (Find(n.children, TextEquivTag).None? ==> r.value.text.None?) &&
      (Find(n.children, TextEquivTag).Some? ==>
        r.value.text.Some? && TextFromElement(Find(n.children, TextEquivTag).value) == Ok(r.value.text.value))
  {
    var id :- RequiredAttribute(n, GlyphTag, "id");
    var coordsNode :- RequiredChild(n, GlyphTag, CoordsTag);
    var coords :- CoordsFromElement(coordsNode, CoordsTag);
    var text :- match Find(n.children, TextEquivTag)
      case None => Ok(None)
      case Some(t) =>
        var text :- TextFromElement(t);
        Ok(Some(text));
    Ok(Glyph(id, coords, text))
  }

  /** Glyph.to_element: the id, a Coords child, then a TextEquiv child
      only when there is a text. The source builds this element and does
      not return it; the model returns it. */
  function GlyphToElement(g: Glyph): (r: Node)
    ensures r.tag == GlyphTag && r.attrs == map["id" := g.id]
    ensures |r.children| == if g.text.Some? then 2 else 1
    ensures r.children[0] == CoordsToElement(g.coords, CoordsTag)
    ensures g.text.Some? ==> r.children[1] == TextToElement(g.text.value)
  {
    Element(GlyphTag, map["id" := g.id],
      [CoordsToElement(g.coords, CoordsTag)] + (if g.text.Some? then [TextToElement(g.text.value)] else []))
  }

  /** A glyph with at least two points is read back from its element. */
  lemma GlyphRoundTrip(g: Glyph)
    requires |g.coords.points| >= 2
    ensures GlyphFromElement(GlyphToElement(g)) == Ok(g)
  {
    var c := CoordsToElement(g.coords, CoordsTag);
    var ts := if g.text.Some? then [TextToElement(g.text.value)] else [];
    assert GlyphToElement(g).children == [c] + ts + [];
    FirstOfThree(c, ts, []);
    OptionalSecond(c, ts, [], TextEquivTag);
    CoordsRoundTrip(g.coords, CoordsTag);
    if g.text.Some? {
      TextRoundTrip(g.text.value);
    }
  }

  /** A parsed glyph is re-serialised with no descendant tag it lacked. */
  lemma GlyphTagsWithin(n: Node)
    requires GlyphFromElement(n).Ok?
    ensures DescendantTags(GlyphToElement(GlyphFromElement(n).value)) <= DescendantTags(n)
  {
    var g := GlyphFromElement(n).value;
    var out := GlyphToElement(g);
    var c := Find(n.children, CoordsTag).value;
    assert out.children[0].tag == c.tag && DescendantTags(out.children[0]) == {};
    if g.text.Some? {
      var t := Find(n.children, TextEquivTag).value;
      TextTagsWithin(t);
      assert out.children[1].tag == t.tag;
    }
    FirstOrLast(out.children);
    TagsWithin(out, n);
  }

  lemma FirstOrLast(xs: seq<Node>)
    requires 1 <= |xs| <= 2
    ensures forall x | x in xs :: x == xs[0] || x == xs[|xs| - 1]
  {
  }
}
