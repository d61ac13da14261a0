/** page/elements/region.py: the region tree. TextRegion is the only region
    kind; its child regions are found by trying to parse every child
    element as a region and skipping those that are not. */
module Regions {
  import opened Wrappers
  import opened Errors
  import opened Xml
  import opened Points
  import opened Coords
  import opened Lines

  const TextRegionTag := "TextRegion"

  /** TextRegionType: the closed set of text region types. */
  datatype RegionType =
    | Paragraph | Heading | Caption | Header | Footer | PageNumber | DropCapital
    | Credit | Floating | SignatureMark | CatchWord | Marginalia | Footnote
    | FootnoteContinued | Endnote | TocEntry | Other

  /** The seventeen members, in declaration order. */
  const AllRegionTypes: seq<RegionType> := [
    Paragraph, Heading, Caption, Header, Footer, PageNumber, DropCapital,
    Credit, Floating, SignatureMark, CatchWord, Marginalia, Footnote,
    FootnoteContinued, Endnote, TocEntry, Other]

  /** The value of each member: the string of the type attribute. */
  function TypeName(t: RegionType): string {
    match t
    case Paragraph => "paragraph"
    case Heading => "heading"
    case Caption => "caption"
    case Header => "header"
    case Footer => "footer"
    case PageNumber => "page-number"
    case DropCapital => "drop-capital"
    case Credit => "credit"
    case Floating => "floating"
    case SignatureMark => "signature-mark"
    case CatchWord => "catch-word"
    case Marginalia => "marginalia"
    case Footnote => "footnote"
    case FootnoteContinued => "footnote-continued"
    case Endnote => "endnote"
    case TocEntry => "TOC-entry"
    case Other => "other"
  }

  /** TextRegionType(name): the member with that value, or None where the
      enum raises ValueError. */
  function TypeFromName(s: string): Option<RegionType> {
    if s == "paragraph" then Some(Paragraph)
    else if s == "heading" then Some(Heading)
    else if s == "caption" then Some(Caption)
    else if s == "header" then Some(Header)
    else if s == "footer" then Some(Footer)
    else if s == "page-number" then Some(PageNumber)
    else if s == "drop-capital" then Some(DropCapital)
    else if s == "credit" then Some(Credit)
    else if s == "floating" then Some(Floating)
    else if s == "signature-mark" then Some(SignatureMark)
    else if s == "catch-word" then Some(CatchWord)
    else if s == "marginalia" then Some(Marginalia)
    else if s == "footnote" then Some(Footnote)
    else if s == "footnote-continued" then Some(FootnoteContinued)
    else if s == "endnote" then Some(Endnote)
    else if s == "TOC-entry" then Some(TocEntry)
    else if s == "other" then Some(Other)
    else None
  }

  /** Each member is read back from its name. */
  lemma TypeNameRoundTrip(t: RegionType)
    ensures TypeFromName(TypeName(t)) == Some(t)
  {
    match t
    case Paragraph =>
    case Heading =>
    case Caption =>
    case Header =>
    case Footer =>
    case PageNumber =>
    case DropCapital =>
    case Credit =>
    case Floating =>
    case SignatureMark =>
    case CatchWord =>
    case Marginalia =>
    case Footnote =>
    case FootnoteContinued =>
    case Endnote =>
    case TocEntry =>
    case Other =>
  }

  /** The type names and the members are in bijection: a string is
      accepted exactly when it names a member, the one it names, and no
      two members share a name. */
  lemma RegionTypeNames(s: string)
    ensures TypeFromName(s).Some? <==> exists t :: TypeName(t) == s
    ensures TypeFromName(s).Some? ==> TypeName(TypeFromName(s).value) == s
    ensures forall t, u | TypeName(t) == TypeName(u) :: t == u
  {
    forall t, u | TypeName(t) == TypeName(u) ensures t == u {
      TypeNameRoundTrip(t);
      TypeNameRoundTrip(u);
    }
    if exists t :: TypeName(t) == s {
      var t :| TypeName(t) == s;
      TypeNameRoundTrip(t);
    }
    if TypeFromName(s).Some? {
      TypeFromNameSound(s);
      var t := TypeFromName(s).value;
      assert TypeName(t) == s;
    }
  }

  /** A name the parser accepts is the name of the member it yields. */
  lemma TypeFromNameSound(s: string)
    requires TypeFromName(s).Some?
    ensures TypeName(TypeFromName(s).value) == s
  {
  }

  /** There are exactly seventeen region types. */
  lemma SeventeenRegionTypes(t: RegionType)
    ensures |AllRegionTypes| == 17 && t in AllRegionTypes
    ensures forall i, j | 0 <= i < j < |AllRegionTypes| :: AllRegionTypes[i] != AllRegionTypes[j]
  {
  }

  /** A text region. The coordinates are the parsed point list itself. */
  datatype Region = TextRegion(id: string, coords: seq<Point>, children: seq<Region>, regionType: RegionType, lines: seq<Line>)

  function ParseLines(xs: seq<Node>): (rs: seq<Parse<Line>>)
    ensures |rs| == |xs| && forall i | 0 <= i < |xs| :: rs[i] == LineFromElement(xs[i])
  {
    seq(|xs|, i requires 0 <= i < |xs| => LineFromElement(xs[i]))
  }

  /** The type attribute, which must name a region type. */
  function ParseRegionType(n: Node): (r: Parse<RegionType>)
    ensures r.Ok? <==> "type" in n.attrs && TypeFromName(n.attrs["type"]).Some?
    ensures r.Ok? ==> TypeName(r.value) == n.attrs["type"] && TypeFromName(n.attrs["type"]) == Some(r.value)
    ensures r.Err? ==> r.error == InvalidRegionType(Get(n, "type"))
  {
    var name := Get(n, "type");
    if name.Some? && TypeFromName(name.value).Some? then
      RegionTypeNames(name.value);
      Ok(TypeFromName(name.value).value)
    else Err(InvalidRegionType(name))
  }

  /** The type, id and coordinates of a region element, in the order they
      are checked. */
  function RegionHeader(n: Node): Parse<(RegionType, string, seq<Point>)> {
    var regionType :- ParseRegionType(n);
    var id :- RequiredAttribute(n, TextRegionTag, "id");
    var coordsNode :- RequiredChild(n, TextRegionTag, CoordsTag);
    var coords :- CoordsFromElement(coordsNode, CoordsTag);
    Ok((regionType, id, coords.points))
  }

  /** The TextLine children, parsed in document order. */
  function RegionLines(n: Node): Parse<seq<Line>> {
    Collect(ParseLines(FindAll(n.children, TextLineTag)))
  }

  /** TextRegion.from_element: the type first, then the id, the Coords
      child and its points; then the child regions (parse or skip over
      every child) and the TextLine children in document order. */
  function RegionFromElement(n: Node): (r: Parse<Region>)
    ensures r.Ok? <==> RegionHeader(n).Ok? && ChildRegions(n.children).Ok? && RegionLines(n).Ok?
    ensures r.Ok? ==> r.value.children == ChildRegions(n.children).value && r.value.lines == RegionLines(n).value
    decreases n, 1
  {
    var header :- RegionHeader(n);
    var children :- ChildRegions(n.children);
    var lines :- RegionLines(n);
    Ok(TextRegion(header.1, header.2, children, header.0, lines))
  }

  /** Region.try_from_element: a region for a region element, None for any
      other element; a region element that is malformed raises. */
  function TryRegionFromElement(n: Node): (r: Parse<Option<Region>>)
    ensures n.tag != TextRegionTag ==> r == Ok(None)
    ensures n.tag == TextRegionTag ==>
      (r.Ok? <==> RegionFromElement(n).Ok?) &&
      (r.Ok? ==> r.value == Some(RegionFromElement(n).value)) &&
      (r.Err? ==> r.error == RegionFromElement(n).error)
    decreases n, 2
  {
    if n.tag != TextRegionTag then Ok(None)
    else
      var region :- RegionFromElement(n);
      Ok(Some(region))
  }

  /** Parse or skip over the children, in document order, failing on the
      first region element that is malformed. */
  function ChildRegions(cs: seq<Node>): (r: Parse<seq<Region>>)
    decreases cs, 0
  {
    if |cs| == 0 then Ok([])
    else
      var first :- TryRegionFromElement(cs[0]);
      var rest :- ChildRegions(cs[1..]);
      Ok((if first.Some? then [first.value] else []) + rest)
  }

  function ParseRegions(xs: seq<Node>): (rs: seq<Parse<Region>>)
    ensures |rs| == |xs| && forall i | 0 <= i < |xs| :: rs[i] == RegionFromElement(xs[i])
  {
    seq(|xs|, i requires 0 <= i < |xs| => RegionFromElement(xs[i]))
  }

  /** Parse or skip is parsing exactly the region elements, in document
      order, with the same first error. */
  lemma ChildRegionsCons(c: Node, cs: seq<Node>)
    ensures ChildRegions([c] + cs) ==
      match TryRegionFromElement(c)
      case Err(e) => Err(e)
      case Ok(first) =>
        match ChildRegions(cs)
        case Err(e) => Err(e)
        case Ok(vs) => Ok((if first.Some? then [first.value] else []) + vs)
  {
    assert ([c] + cs)[0] == c && ([c] + cs)[1..] == cs;
  }

  lemma {:induction false} ChildRegionsAreRegionElements(cs: seq<Node>)
    ensures ChildRegions(cs) == Collect(ParseRegions(FindAll(cs, TextRegionTag)))
  {
    if |cs| > 0 {
      var c := cs[0];
      var tail := cs[1..];
      assert cs == [c] + tail;
      ChildRegionsAreRegionElements(tail);
      if c.tag == TextRegionTag {
        RegionElementFirst(c, tail);
      } else {
        OtherElementFirst(c, tail);
      }
    }
  }

  lemma RegionElementFirst(c: Node, tail: seq<Node>)
    requires c.tag == TextRegionTag
    requires ChildRegions(tail) == Collect(ParseRegions(FindAll(tail, TextRegionTag)))
    ensures ChildRegions([c] + tail) == Collect(ParseRegions(FindAll([c] + tail, TextRegionTag)))
  {
    var rest := FindAll(tail, TextRegionTag);
    FindAllCons(c, tail, TextRegionTag);
    ParseRegionsCons(c, rest);
    var first := RegionFromElement(c);
    var later := ParseRegions(rest);
    if first.Err? {
      FailFirst(c, tail);
      CollectFirstFails(first, later);
    } else {
      KeepFirst(c, tail);
      if Collect(later).Ok? {
        CollectBothSucceed(first, later);
      } else {
        CollectRestFails(first, later);
      }
    }
  }

  lemma ParseRegionsCons(c: Node, rest: seq<Node>)
    ensures ParseRegions([c] + rest) == [RegionFromElement(c)] + ParseRegions(rest)
  {
    var xs := [c] + rest;
    var l := ParseRegions(xs);
    var r := [RegionFromElement(c)] + ParseRegions(rest);
    assert |l| == |r|;
    forall i | 0 <= i < |l| ensures l[i] == r[i] {
      if i > 0 {
        assert xs[i] == rest[i - 1];
      }
    }
  }

  lemma FailFirst(c: Node, cs: seq<Node>)
    requires c.tag == TextRegionTag && RegionFromElement(c).Err?
    ensures ChildRegions([c] + cs) == Err(RegionFromElement(c).error)
  {
    ChildRegionsCons(c, cs);
  }

  lemma KeepFirst(c: Node, cs: seq<Node>)
    requires c.tag == TextRegionTag && RegionFromElement(c).Ok?
    ensures ChildRegions(cs).Err? ==> ChildRegions([c] + cs) == Err(ChildRegions(cs).error)
    ensures ChildRegions(cs).Ok? ==> ChildRegions([c] + cs) == Ok([RegionFromElement(c).value] + ChildRegions(cs).value)
  {
    ChildRegionsCons(c, cs);
    assert TryRegionFromElement(c) == Ok(Some(RegionFromElement(c).value));
  }

  lemma OtherElementFirst(c: Node, tail: seq<Node>)
    requires c.tag != TextRegionTag
    requires ChildRegions(tail) == Collect(ParseRegions(FindAll(tail, TextRegionTag)))
    ensures ChildRegions([c] + tail) == Collect(ParseRegions(FindAll([c] + tail, TextRegionTag)))
  {
    SkipOther(c, tail);
    FindAllCons(c, tail, TextRegionTag);
    var rest := FindAll(tail, TextRegionTag);
    assert [] + rest == rest;
  }

  lemma SkipOther(c: Node, tail: seq<Node>)
    requires c.tag != TextRegionTag
    ensures ChildRegions([c] + tail) == ChildRegions(tail)
  {
    ChildRegionsCons(c, tail);
    assert TryRegionFromElement(c) == Ok(None);
    var r := ChildRegions(tail);
    if r.Ok? {
      assert [] + r.value == r.value;
      assert ChildRegions([c] + tail) == Ok(r.value);
    } else {
      assert ChildRegions([c] + tail) == Err(r.error);
    }
  }

  /** Every child region comes from a region-tagged child it parses from. */
  lemma {:induction false} ChildRegionsFrom(cs: seq<Node>)
    requires ChildRegions(cs).Ok?
    ensures forall r | r in ChildRegions(cs).value ::
      exists c | c in cs :: c.tag == TextRegionTag && RegionFromElement(c) == Ok(r)
  {
    if |cs| > 0 {
      ChildRegionsFrom(cs[1..]);
      assert forall c | c in cs[1..] :: c in cs;
    }
  }

  function LineNodes(ls: seq<Line>): (r: seq<Node>)
    ensures |r| == |ls| && forall i | 0 <= i < |ls| :: r[i] == LineElement(ls[i]) && r[i].tag == TextLineTag
  {
    seq(|ls|, i requires 0 <= i < |ls| => LineElement(ls[i]))
  }

  /** The element of a region: the id and type, a Coords child, the child
      regions, then the lines. region.py defines no to_element; this is the
      inverse of its parser. */
  function RegionToElement(r: Region): (n: Node)
    ensures n.tag == TextRegionTag
    decreases r, 1
  {
    Element(TextRegionTag, map["id" := r.id, "type" := TypeName(r.regionType)],
      [CoordsToElement(Coordinates(r.coords), CoordsTag)] + RegionNodes(r.children) + LineNodes(r.lines))
  }

  function RegionNodes(rs: seq<Region>): (ns: seq<Node>)
    ensures |ns| == |rs|
    ensures forall i | 0 <= i < |rs| :: ns[i] == RegionToElement(rs[i]) && ns[i].tag == TextRegionTag
    decreases rs, 0
  {
    if |rs| == 0 then [] else [RegionToElement(rs[0])] + RegionNodes(rs[1..])
  }

  /** The regions that survive serialisation: at least two points in every
      region and well-formed lines throughout. */
  predicate RegionWellFormed(r: Region)
    decreases r
  {
    |r.coords| >= 2 &&
    (forall i | 0 <= i < |r.lines| :: LineWellFormed(r.lines[i])) &&
    (forall i | 0 <= i < |r.children| :: RegionWellFormed(r.children[i]))
  }

  /** Where the parser finds each kind of child in a written region. */
  lemma RegionElementChildren(r: Region)
    ensures Find(RegionToElement(r).children, CoordsTag) == Some(CoordsToElement(Coordinates(r.coords), CoordsTag))
    ensures FindAll(RegionToElement(r).children, TextRegionTag) == RegionNodes(r.children)
    ensures FindAll(RegionToElement(r).children, TextLineTag) == LineNodes(r.lines)
  {
    var c := CoordsToElement(Coordinates(r.coords), CoordsTag);
    var rn := RegionNodes(r.children);
    var ln := LineNodes(r.lines);
    ThreeRuns(c, rn, ln, TextRegionTag, TextLineTag);
  }

  /** Every written line is read back. */
  lemma LinesRoundTrip(ls: seq<Line>)
    requires forall i | 0 <= i < |ls| :: LineWellFormed(ls[i])
    ensures Collect(ParseLines(LineNodes(ls))) == Ok(ls)
  {
    var rs := ParseLines(LineNodes(ls));
    forall i | 0 <= i < |ls| ensures rs[i] == Ok(ls[i]) {
      LineRoundTrip(ls[i]);
    }
    CollectAllOk(rs, ls);
  }

  /** A well-formed region, with all its nested regions and lines, is read
      back from its element. */
  lemma {:induction false} RegionRoundTrip(r: Region)
    requires RegionWellFormed(r)
    ensures RegionFromElement(RegionToElement(r)) == Ok(r)
    decreases r, 1
  {
    var n := RegionToElement(r);
    RegionElementChildren(r);
    HeaderRoundTrip(r);
    ChildRegionsAreRegionElements(n.children);
    RegionsRoundTrip(r.children);
    assert ChildRegions(n.children) == Ok(r.children);
    LinesRoundTrip(r.lines);
    assert RegionLines(n) == Ok(r.lines);
  }

  lemma HeaderRoundTrip(r: Region)
    requires |r.coords| >= 2
    ensures RegionHeader(RegionToElement(r)) == Ok((r.regionType, r.id, r.coords))
  {
    var n := RegionToElement(r);
    RegionElementChildren(r);
    TypeNameRoundTrip(r.regionType);
    assert "type" in n.attrs && n.attrs["type"] == TypeName(r.regionType);
    assert ParseRegionType(n) == Ok(r.regionType);
    assert RequiredAttribute(n, TextRegionTag, "id") == Ok(r.id);
    var c := CoordsToElement(Coordinates(r.coords), CoordsTag);
    assert RequiredChild(n, TextRegionTag, CoordsTag) == Ok(c);
    CoordsRoundTrip(Coordinates(r.coords), CoordsTag);
  }

  /** Every written region of a list is read back, in order. */
  lemma {:induction false} RegionsRoundTrip(rs: seq<Region>)
    requires forall i | 0 <= i < |rs| :: RegionWellFormed(rs[i])
    ensures Collect(ParseRegions(RegionNodes(rs))) == Ok(rs)
    decreases rs, 0
  {
    var ps := ParseRegions(RegionNodes(rs));
    forall i | 0 <= i < |rs| ensures ps[i] == Ok(rs[i]) {
      RegionRoundTrip(rs[i]);
    }
    CollectAllOk(ps, rs);
  }

  /** The checks of TextRegion.from_element in the order the source
      intends them, the points parse and the lines included, and where
      each part of a parsed region comes from. */
  lemma RegionChecks(n: Node)
    ensures ParseRegionType(n).Err? ==> RegionFromElement(n) == Err(InvalidRegionType(Get(n, "type")))
    ensures ParseRegionType(n).Ok? && "id" !in n.attrs ==>
      RegionFromElement(n) == Err(MissingAttribute(TextRegionTag, "id"))
    ensures ParseRegionType(n).Ok? && "id" in n.attrs && Find(n.children, CoordsTag).None? ==>
      RegionFromElement(n) == Err(MissingElement(TextRegionTag, CoordsTag))
    ensures (ParseRegionType(n).Ok? && "id" in n.attrs && Find(n.children, CoordsTag).Some? &&
             "points" !in Find(n.children, CoordsTag).value.attrs) ==>
      RegionFromElement(n) == Err(MissingAttribute(CoordsTag, "points"))
    ensures (ParseRegionType(n).Ok? && "id" in n.attrs && Find(n.children, CoordsTag).Some? &&
             "points" in Find(n.children, CoordsTag).value.attrs &&
             PointsFromString(Find(n.children, CoordsTag).value.attrs["points"]).Err?) ==>
      RegionFromElement(n) == Err(PointsFromString(Find(n.children, CoordsTag).value.attrs["points"]).error)
    ensures RegionHeader(n).Ok? && ChildRegions(n.children).Ok? && RegionLines(n).Err? ==>
      RegionFromElement(n) == Err(RegionLines(n).error)
    ensures RegionFromElement(n).Ok? ==>
      var r := RegionFromElement(n).value;
      "type" in n.attrs && TypeName(r.regionType) == n.attrs["type"] &&
      "id" in n.attrs && r.id == n.attrs["id"] &&
      Find(n.children, CoordsTag).Some? && "points" in Find(n.children, CoordsTag).value.attrs &&
      PointsFromString(Find(n.children, CoordsTag).value.attrs["points"]) == Ok(r.coords) &&
      ChildRegions(n.children) == Ok(r.children) &&
      Collect(ParseLines(FindAll(n.children, TextLineTag))) == Ok(r.lines)
  {
  }

  /** A nested region element that is malformed fails the whole parse
      instead of being skipped, with the error of the first such child. */
  lemma NestedRegionFails(n: Node, i: nat)
    requires RegionHeader(n).Ok?
    requires i < |n.children| && n.children[i].tag == TextRegionTag && RegionFromElement(n.children[i]).Err?
    ensures RegionFromElement(n).Err?
    ensures var rs := ParseRegions(FindAll(n.children, TextRegionTag));
      FirstFailure(rs) < |rs| && RegionFromElement(n).error == rs[FirstFailure(rs)].error
  {
    ChildRegionsFailAt(n.children, i);
    RegionStopsAtChildren(n);
  }

  /** A malformed region element among the children makes parse or skip
      fail, with the error of the first malformed one. */
  lemma ChildRegionsFailAt(cs: seq<Node>, i: nat)
    requires i < |cs| && cs[i].tag == TextRegionTag && RegionFromElement(cs[i]).Err?
    ensures ChildRegions(cs).Err?
    ensures var rs := ParseRegions(FindAll(cs, TextRegionTag));
      FirstFailure(rs) < |rs| && ChildRegions(cs).error == rs[FirstFailure(rs)].error
  {
    ChildRegionsAreRegionElements(cs);
    var xs := FindAll(cs, TextRegionTag);
    var rs := ParseRegions(xs);
    assert cs[i] in cs;
    var j :| 0 <= j < |xs| && xs[j] == cs[i];
    assert rs[j].Err?;
    assert Collect(rs).Err?;
  }

  /** A region whose header parses fails with the child regions' error
      when they fail. */
  lemma RegionStopsAtChildren(n: Node)
    requires RegionHeader(n).Ok? && ChildRegions(n.children).Err?
    ensures RegionFromElement(n) == Err(ChildRegions(n.children).error)
  {
  }

  /** Written child regions have no descendant tag that the region
      children they were parsed from lack. */
  lemma {:induction false} ChildRegionsCovered(cs: seq<Node>)
    requires ChildRegions(cs).Ok?
    ensures Covered(RegionNodes(ChildRegions(cs).value), cs)
    decreases cs, 0
  {
    var rs := ChildRegions(cs).value;
    ChildRegionsFrom(cs);
    forall x | x in RegionNodes(rs)
      ensures exists d | d in cs :: d.tag == x.tag && DescendantTags(x) <= DescendantTags(d)
    {
      var i :| 0 <= i < |rs| && RegionNodes(rs)[i] == x;
      assert rs[i] in rs;
      var c :| c in cs && c.tag == TextRegionTag && RegionFromElement(c) == Ok(rs[i]);
      RegionTagsWithin(c);
      assert c.tag == x.tag && DescendantTags(x) <= DescendantTags(c);
    }
  }

  /** Written lines have no descendant tag that the TextLine elements they
      were parsed from lack. */
  lemma LinesCovered(xs: seq<Node>, lines: seq<Line>)
    requires forall i | 0 <= i < |xs| :: xs[i].tag == TextLineTag
    requires Collect(ParseLines(xs)) == Ok(lines)
    ensures Covered(LineNodes(lines), xs)
  {
    forall x | x in LineNodes(lines)
      ensures exists d | d in xs :: d.tag == x.tag && DescendantTags(x) <= DescendantTags(d)
    {
      var i :| 0 <= i < |lines| && LineNodes(lines)[i] == x;
      assert ParseLines(xs)[i] == Ok(lines[i]);
      LineTagsWithin(xs[i]);
      assert xs[i] in xs && xs[i].tag == x.tag && DescendantTags(x) <= DescendantTags(xs[i]);
    }
  }

  /** The parts of a parsed region and the children they come from. */
  lemma RegionParts(n: Node)
    requires RegionFromElement(n).Ok?
    ensures Find(n.children, CoordsTag).Some?
    ensures ChildRegions(n.children) == Ok(RegionFromElement(n).value.children)
    ensures RegionLines(n) == Ok(RegionFromElement(n).value.lines)
  {
  }

  /** A parsed region, nested regions and lines included, is re-serialised
      with no descendant tag it lacked. */
  lemma {:induction false} RegionTagsWithin(n: Node)
    requires RegionFromElement(n).Ok?
    ensures DescendantTags(RegionToElement(RegionFromElement(n).value)) <= DescendantTags(n)
    decreases n, 1
  {
    var r := RegionFromElement(n).value;
    var out := RegionToElement(r);
    RegionParts(n);
    var c := CoordsToElement(Coordinates(r.coords), CoordsTag);
    var rn := RegionNodes(r.children);
    var ln := LineNodes(r.lines);
    assert Covered([c], n.children) by {
      assert Find(n.children, CoordsTag).value in n.children;
    }
    ChildRegionsCovered(n.children);
    var lxs := FindAll(n.children, TextLineTag);
    LinesCovered(lxs, r.lines);
    CoveredWeaken(ln, lxs, n.children);
    CoveredAppend([c], rn, n.children);
    CoveredAppend([c] + rn, ln, n.children);
    assert out.children == [c] + rn + ln;
    TagsWithin(out, n);
  }
}
