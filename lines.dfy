/** page/elements/line.py: a text line (Line) and, for two or more
    TextEquiv children, an indexed line (IndexedLine). */
module Lines {
  import opened Wrappers
  import opened Errors
  import opened Xml
  import opened Coords
  import opened Texts
  import opened Alternatives
  import opened Words

  const TextLineTag := "TextLine"

  datatype Line = Line(id: string, coords: Coordinates, baseline: Option<Coordinates>, words: seq<Word>, content: TextContent)

  function ParseWords(xs: seq<Node>): (rs: seq<Parse<Word>>)
    ensures |rs| == |xs| && forall i | 0 <= i < |xs| :: rs[i] == WordFromElement(xs[i])
  {
    seq(|xs|, i requires 0 <= i < |xs| => WordFromElement(xs[i]))
  }

  /** Line.from_element: the id attribute, then the Coords child, are
      required; the Baseline child is optional; the words are every Word
      child in document order; then the TextEquiv children decide between a
      plain and an indexed line. */
  function LineFromElement(n: Node): (r: Parse<Line>)
    ensures "id" !in n.attrs ==> r == Err(MissingAttribute(TextLineTag, "id"))
    ensures "id" in n.attrs && Find(n.children, CoordsTag).None? ==> r == Err(MissingElement(TextLineTag, CoordsTag))
    ensures "id" in n.attrs && Find(n.children, CoordsTag).Some? ==>
      var coords := CoordsFromElement(Find(n.children, CoordsTag).value, CoordsTag);
      var b := Find(n.children, BaselineTag);
      var badBaseline := b.Some? && CoordsFromElement(b.value, BaselineTag).Err?;
      var words := Collect(ParseWords(FindAll(n.children, WordTag)));
      var content := ContentFromTexts(FindAll(n.children, TextEquivTag));
      (coords.Err? ==> r == Err(coords.error)) &&
      (coords.Ok? && badBaseline ==> r == Err(CoordsFromElement(b.value, BaselineTag).error)) &&
      (coords.Ok? && !badBaseline && words.Err? ==> r == Err(words.error)) &&
      (coords.Ok? && !badBaseline && words.Ok? && content.Err? ==> r == Err(content.error)) &&
      (coords.Ok? && !badBaseline && words.Ok? && content.Ok? ==> r.Ok?)
    ensures r.Ok? ==>
      r.value.id == n.attrs["id"] &&
      Find(n.children, CoordsTag).Some? &&
      CoordsFromElement(Find(n.children, CoordsTag).value, CoordsTag) == Ok(r.value.coords) &&
      (Find(n.children, BaselineTag).None? <==> r.value.baseline.None?) &&
      (Find(n.children, BaselineTag).Some? ==>
        CoordsFromElement(Find(n.children, BaselineTag).value, BaselineTag) == Ok(r.value.baseline.value)) &&
      Collect(ParseWords(FindAll(n.children, WordTag))) == Ok(r.value.words) &&
      ContentFromTexts(FindAll(n.children, TextEquivTag)) == Ok(r.value.content)
  {
    var id :- RequiredAttribute(n, TextLineTag, "id");
    var coordsNode :- RequiredChild(n, TextLineTag, CoordsTag);
    var coords :- CoordsFromElement(coordsNode, CoordsTag);
    var baseline :- match Find(n.children, BaselineTag)
      case None => Ok(None)
      case Some(b) =>
        var baseline :- CoordsFromElement(b, BaselineTag);
        Ok(Some(baseline));
    var words :- Collect(ParseWords(FindAll(n.children, WordTag)));
    var content :- ContentFromTexts(FindAll(n.children, TextEquivTag));
    Ok(Line(id, coords, baseline, words, content))
  }

  /** The line's text attribute: the single alternative, or for an
      IndexedLine the one with index 0. */
  function LineText(l: Line): Option<Text> {
    CurrentText(l.content)
  }

  /** The element Line.to_element writes (IndexedLine.to_element then adds
      every alternative): the id, Coords, an optional Baseline, then the
      text children. The words are not written. */
  function LineElement(l: Line): Node {
    Element(TextLineTag, map["id" := l.id],
      [CoordsToElement(l.coords, CoordsTag)] +
      (if l.baseline.Some? then [CoordsToElement(l.baseline.value, BaselineTag)] else []) +
      ContentNodes(l.content))
  }

  /** Line.to_element and IndexedLine.to_element as the source writes
      them: successive appends, then the loop over the alternatives. */
  method LineToNode(l: Line) returns (r: Node)
    ensures r == LineElement(l)
  {
    var children := [CoordsToElement(l.coords, CoordsTag)];
    if l.baseline.Some? {
      children := children + [CoordsToElement(l.baseline.value, BaselineTag)];
    }
    assert children == [CoordsToElement(l.coords, CoordsTag)] +
      (if l.baseline.Some? then [CoordsToElement(l.baseline.value, BaselineTag)] else []);
    var texts := EmitContent(l.content);
    r := Element(TextLineTag, map["id" := l.id], children + texts);
  }

  /** The lines that survive serialisation: at least two points in the
      coordinates and baseline, no words (they are not written), and a
      well-formed text content. */
  predicate LineWellFormed(l: Line) {
    |l.coords.points| >= 2 &&
    (l.baseline.Some? ==> |l.baseline.value.points| >= 2) &&
    l.words == [] &&
    ContentWellFormed(l.content)
  }

  /** Where the parser finds each kind of child in a written line. */
  lemma LineElementChildren(l: Line)
    ensures Find(LineElement(l).children, CoordsTag) == Some(CoordsToElement(l.coords, CoordsTag))
    ensures l.baseline.None? ==> Find(LineElement(l).children, BaselineTag).None?
    ensures l.baseline.Some? ==> Find(LineElement(l).children, BaselineTag) == Some(CoordsToElement(l.baseline.value, BaselineTag))
    ensures FindAll(LineElement(l).children, WordTag) == []
    ensures FindAll(LineElement(l).children, TextEquivTag) == ContentNodes(l.content)
  {
    var c := CoordsToElement(l.coords, CoordsTag);
    var bs := if l.baseline.Some? then [CoordsToElement(l.baseline.value, BaselineTag)] else [];
    var ts := ContentNodes(l.content);
    assert LineElement(l).children == [c] + bs + ts;
    FirstOfThree(c, bs, ts);
    AbsentFromThree(c, bs, ts, WordTag);
    LastRun([c] + bs, ts, TextEquivTag);
    OptionalSecond(c, bs, ts, BaselineTag);
  }

  /** A well-formed line, plain or indexed, is read back from its element. */
  lemma LineRoundTrip(l: Line)
    requires LineWellFormed(l)
    ensures LineFromElement(LineElement(l)) == Ok(l)
  {
    LineElementChildren(l);
    CoordsRoundTrip(l.coords, CoordsTag);
    if l.baseline.Some? {
      CoordsRoundTrip(l.baseline.value, BaselineTag);
    }
    ContentRoundTrip(l.content);
  }

  /** A parsed line is re-serialised with no descendant tag it lacked. */
  lemma LineTagsWithin(n: Node)
    requires LineFromElement(n).Ok?
    ensures DescendantTags(LineElement(LineFromElement(n).value)) <= DescendantTags(n)
  {
    var l := LineFromElement(n).value;
    var out := LineElement(l);
    var c := Find(n.children, CoordsTag).value;
    var bs := if l.baseline.Some? then [CoordsToElement(l.baseline.value, BaselineTag)] else [];
    assert Covered([CoordsToElement(l.coords, CoordsTag)], n.children) by {
      assert c in n.children;
    }
    assert Covered(bs, n.children) by {
      if l.baseline.Some? {
        assert Find(n.children, BaselineTag).value in n.children;
      }
    }
    var txs := FindAll(n.children, TextEquivTag);
    ContentTagsWithin(txs);
    CoveredWeaken(ContentNodes(l.content), txs, n.children);
    CoveredAppend([CoordsToElement(l.coords, CoordsTag)], bs, n.children);
    CoveredAppend([CoordsToElement(l.coords, CoordsTag)] + bs, ContentNodes(l.content), n.children);
    assert out.children == [CoordsToElement(l.coords, CoordsTag)] + bs + ContentNodes(l.content);
    TagsWithin(out, n);
  }
}
