/** page/elements/word.py: a word with its coordinates, its glyphs and its
    text alternatives (a plain word, or an indexed one for two or more
    TextEquiv children). */
module Words {
  import opened Wrappers
  import opened Errors
  import opened Xml
  import opened Coords
  import opened Texts
  import opened Alternatives
  import opened Glyphs

  const WordTag := "Word"

  datatype Word = Word(id: string, coords: Coordinates, glyphs: seq<Glyph>, content: TextContent)

  function ParseGlyphs(xs: seq<Node>): (rs: seq<Parse<Glyph>>)
    ensures |rs| == |xs| && forall i | 0 <= i < |xs| :: rs[i] == GlyphFromElement(xs[i])
  {
    seq(|xs|, i requires 0 <= i < |xs| => GlyphFromElement(xs[i]))
  }

  /** Word.from_element: the id attribute, then the Coords child, are
      required; every Glyph child is parsed in document order, then the
      TextEquiv children are split into no, one or indexed text. The
      source reads no Glyph child; the glyph parse, placed between the
      Coords and the texts, fills the word's glyphs field as
      test_parse_word.py:101-110 expects. */
  function WordFromElement(n: Node): (r: Parse<Word>)
    ensures "id" !in n.attrs ==> r == Err(MissingAttribute(WordTag, "id"))
    ensures "id" in n.attrs && Find(n.children, CoordsTag).None? ==> r == Err(MissingElement(WordTag, CoordsTag))
    ensures "id" in n.attrs && Find(n.children, CoordsTag).Some? ==>
      var coords := CoordsFromElement(Find(n.children, CoordsTag).value, CoordsTag);
      var glyphs := Collect(ParseGlyphs(FindAll(n.children, GlyphTag)));
      var content := ContentFromTexts(FindAll(n.children, TextEquivTag));
      (coords.Err? ==> r == Err(coords.error)) &&
      (coords.Ok? && glyphs.Err? ==> r == Err(glyphs.error)) &&
      (coords.Ok? && glyphs.Ok? && content.Err? ==> r == Err(content.error)) &&
      (coords.Ok? && glyphs.Ok? && content.Ok? ==> r.Ok?)
    ensures r.Ok? ==>
      r.value.id == n.attrs["id"] &&
      Find(n.children, CoordsTag).Some? &&
      CoordsFromElement(Find(n.children, CoordsTag).value, CoordsTag) == Ok(r.value.coords) &&
      Collect(ParseGlyphs(FindAll(n.children, GlyphTag))) == Ok(r.value.glyphs) &&
      ContentFromTexts(FindAll(n.children, TextEquivTag)) == Ok(r.value.content)
  {
    var id :- RequiredAttribute(n, WordTag, "id");
    var coordsNode :- RequiredChild(n, WordTag, CoordsTag);
    var coords :- CoordsFromElement(coordsNode, CoordsTag);
    var glyphs :- Collect(ParseGlyphs(FindAll(n.children, GlyphTag)));
    var content :- ContentFromTexts(FindAll(n.children, TextEquivTag));
    Ok(Word(id, coords, glyphs, content))
  }

  /** The word's text: its single alternative, or the one with index 0. */
  function WordText(w: Word): Option<Text> {
    CurrentText(w.content)
  }

  function GlyphNodes(gs: seq<Glyph>): (r: seq<Node>)
    ensures |r| == |gs| && forall i | 0 <= i < |gs| :: r[i] == GlyphToElement(gs[i])
  {
    seq(|gs|, i requires 0 <= i < |gs| => GlyphToElement(gs[i]))
  }

  lemma GlyphNodesSnoc(gs: seq<Glyph>, i: nat)
    requires i < |gs|
    ensures GlyphNodes(gs[..i + 1]) == GlyphNodes(gs[..i]) + [GlyphToElement(gs[i])]
  {
    var l, r := GlyphNodes(gs[..i + 1]), GlyphNodes(gs[..i]) + [GlyphToElement(gs[i])];
    assert |l| == |r|;
    forall j | 0 <= j < |l|
      ensures l[j] == r[j]
    {
      assert gs[..i + 1][j] == gs[j];
    }
  }

  /** The element Word.to_element writes: the id, a Coords child, every
      glyph in order, then the text children. */
  function WordElement(w: Word): Node {
    Element(WordTag, map["id" := w.id],
      [CoordsToElement(w.coords, CoordsTag)] + GlyphNodes(w.glyphs) + ContentNodes(w.content))
  }

  /** Word.to_element as the source writes it: a loop appending each
      glyph's element after the Coords child, then the text. */
  method WordToNode(w: Word) returns (r: Node)
    ensures r == WordElement(w)
  {
    var children := [CoordsToElement(w.coords, CoordsTag)];
    for i := 0 to |w.glyphs|
      invariant children == [CoordsToElement(w.coords, CoordsTag)] + GlyphNodes(w.glyphs[..i])
    {
      GlyphNodesSnoc(w.glyphs, i);
      children := children + [GlyphToElement(w.glyphs[i])];
    }
    assert w.glyphs[..|w.glyphs|] == w.glyphs;
    var texts := EmitContent(w.content);
    r := Element(WordTag, map["id" := w.id], children + texts);
  }

  /** The words that survive serialisation: at least two points everywhere
      and a well-formed text content. */
  predicate WordWellFormed(w: Word) {
    |w.coords.points| >= 2 &&
    (forall i | 0 <= i < |w.glyphs| :: |w.glyphs[i].coords.points| >= 2) &&
    ContentWellFormed(w.content)
  }

  /** Where the parser finds each kind of child in a written word. */
  lemma WordElementChildren(w: Word)
    ensures Find(WordElement(w).children, CoordsTag) == Some(CoordsToElement(w.coords, CoordsTag))
    ensures FindAll(WordElement(w).children, GlyphTag) == GlyphNodes(w.glyphs)
    ensures FindAll(WordElement(w).children, TextEquivTag) == ContentNodes(w.content)
  {
    var c := CoordsToElement(w.coords, CoordsTag);
    var gs := GlyphNodes(w.glyphs);
    var ts := ContentNodes(w.content);
    assert WordElement(w).children == [c] + gs + ts;
    ThreeRuns(c, gs, ts, GlyphTag, TextEquivTag);
  }

  lemma GlyphsRoundTrip(gs: seq<Glyph>)
    requires forall i | 0 <= i < |gs| :: |gs[i].coords.points| >= 2
    ensures Collect(ParseGlyphs(GlyphNodes(gs))) == Ok(gs)
  {
    forall i | 0 <= i < |gs| ensures ParseGlyphs(GlyphNodes(gs))[i] == Ok(gs[i]) {
      GlyphRoundTrip(gs[i]);
    }
    CollectAllOk(ParseGlyphs(GlyphNodes(gs)), gs);
  }

  /** A well-formed word is read back from its element. */
  lemma WordRoundTrip(w: Word)
    requires WordWellFormed(w)
    ensures WordFromElement(WordElement(w)) == Ok(w)
  {
    WordElementChildren(w);
    CoordsRoundTrip(w.coords, CoordsTag);
    GlyphsRoundTrip(w.glyphs);
    ContentRoundTrip(w.content);
  }

  /** A parsed word is re-serialised with no descendant tag it lacked. */
  lemma WordTagsWithin(n: Node)
    requires WordFromElement(n).Ok?
    ensures DescendantTags(WordElement(WordFromElement(n).value)) <= DescendantTags(n)
  {
    var w := WordFromElement(n).value;
    var out := WordElement(w);
    var c := Find(n.children, CoordsTag).value;
    var gxs := FindAll(n.children, GlyphTag);
    var txs := FindAll(n.children, TextEquivTag);
    assert Covered([CoordsToElement(w.coords, CoordsTag)], n.children) by {
      assert c in n.children;
    }
    GlyphsCovered(gxs, w.glyphs);
    CoveredWeaken(GlyphNodes(w.glyphs), gxs, n.children);
    ContentTagsWithin(txs);
    CoveredWeaken(ContentNodes(w.content), txs, n.children);
    CoveredAppend([CoordsToElement(w.coords, CoordsTag)], GlyphNodes(w.glyphs), n.children);
    CoveredAppend([CoordsToElement(w.coords, CoordsTag)] + GlyphNodes(w.glyphs), ContentNodes(w.content), n.children);
    assert out.children == [CoordsToElement(w.coords, CoordsTag)] + GlyphNodes(w.glyphs) + ContentNodes(w.content);
    TagsWithin(out, n);
  }

  /** Glyphs parsed from glyph elements are written with no descendant
      tag their elements lack. */
  lemma GlyphsCovered(gxs: seq<Node>, glyphs: seq<Glyph>)
    requires forall i | 0 <= i < |gxs| :: gxs[i].tag == GlyphTag
    requires Collect(ParseGlyphs(gxs)) == Ok(glyphs)
    ensures Covered(GlyphNodes(glyphs), gxs)
  {
    forall x | x in GlyphNodes(glyphs)
      ensures exists d | d in gxs :: d.tag == x.tag && DescendantTags(x) <= DescendantTags(d)
    {
      var i :| 0 <= i < |glyphs| && GlyphNodes(glyphs)[i] == x;
      assert ParseGlyphs(gxs)[i] == Ok(glyphs[i]);
      GlyphTagsWithin(gxs[i]);
      assert gxs[i] in gxs && gxs[i].tag == x.tag && DescendantTags(x) <= DescendantTags(gxs[i]);
    }
  }
}
