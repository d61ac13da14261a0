/** page/elements/page.py: the Page element, holding the image attributes,
    an optional reading order and the top-level regions. */
module Pages {
  import opened Wrappers
  import opened Errors
  import opened Xml
  import opened Strings
  import opened Lines
  import opened Regions
  import opened ReadingOrders

  const PageTag := "Page"

  datatype Page = Page(
    width: int,
    height: int,
    imageFilename: Option<string>,
    readingOrder: Option<ReadingOrder>,
    regions: seq<Region>)

  /** The optional ReadingOrder child: None when there is none, else the
      parse of the first one, whose errors propagate. */
  function PageReadingOrder(n: Node): (r: Parse<Option<ReadingOrder>>)
    ensures Find(n.children, ReadingOrderTag).None? ==> r == Ok(None)
    ensures Find(n.children, ReadingOrderTag).Some? ==>
      var ro := ReadingOrderFromElement(Find(n.children, ReadingOrderTag).value);
      (r.Ok? <==> ro.Ok?) &&
      (r.Ok? ==> r.value == Some(ro.value)) &&
      (r.Err? ==> r.error == ro.error)
  {
    match Find(n.children, ReadingOrderTag)
    case None => Ok(None)
    case Some(x) =>
      var ro :- ReadingOrderFromElement(x);
      Ok(Some(ro))
  }

  /** Page.from_element: imageWidth, then imageHeight, each a required
      integer; imageFilename as it is (absent gives None); the reading
      order; then parse or skip over every direct child, in document
      order, for the regions. */
  function PageFromElement(n: Node): (r: Parse<Page>)
    ensures RequiredInt(n, PageTag, "imageWidth").Err? ==> r == Err(RequiredInt(n, PageTag, "imageWidth").error)
    ensures (RequiredInt(n, PageTag, "imageWidth").Ok? && RequiredInt(n, PageTag, "imageHeight").Err?) ==>
      r == Err(RequiredInt(n, PageTag, "imageHeight").error)
    ensures (RequiredInt(n, PageTag, "imageWidth").Ok? && RequiredInt(n, PageTag, "imageHeight").Ok? &&
      PageReadingOrder(n).Err?) ==> r == Err(PageReadingOrder(n).error)
    ensures (RequiredInt(n, PageTag, "imageWidth").Ok? && RequiredInt(n, PageTag, "imageHeight").Ok? &&
      PageReadingOrder(n).Ok? && ChildRegions(n.children).Err?) ==> r == Err(ChildRegions(n.children).error)
    ensures r.Ok? <==>
      RequiredInt(n, PageTag, "imageWidth").Ok? && RequiredInt(n, PageTag, "imageHeight").Ok? &&
      PageReadingOrder(n).Ok? && ChildRegions(n.children).Ok?
    ensures r.Ok? ==>
      r.value.width == RequiredInt(n, PageTag, "imageWidth").value &&
      r.value.height == RequiredInt(n, PageTag, "imageHeight").value &&
      r.value.imageFilename == Get(n, "imageFilename") &&
      r.value.readingOrder == PageReadingOrder(n).value &&
      r.value.regions == ChildRegions(n.children).value
  {
    var width :- RequiredInt(n, PageTag, "imageWidth");
    var height :- RequiredInt(n, PageTag, "imageHeight");
    var imageFilename := Get(n, "imageFilename");
    var readingOrder :- PageReadingOrder(n);
    var regions :- ChildRegions(n.children);
    Ok(Page(width, height, imageFilename, readingOrder, regions))
  }

  /** The regions parsed so far followed by the rest, failing with the
      first error. */
  function JoinRegions(x: Parse<seq<Region>>, y: Parse<seq<Region>>): Parse<seq<Region>> {
    if x.Err? then x else if y.Err? then y else Ok(x.value + y.value)
  }

  /** The regions one child contributes: its region, or none for a child
      that is not a region element. */
  function ChildRegion(c: Node): Parse<seq<Region>> {
    match TryRegionFromElement(c)
    case Err(e) => Err(e)
    case Ok(o) => Ok(if o.Some? then [o.value] else [])
  }

  /** One step of the region loop. */
  lemma ChildRegionsStep(cs: seq<Node>, i: nat)
    requires i < |cs|
    ensures ChildRegions(cs[i..]) == JoinRegions(ChildRegion(cs[i]), ChildRegions(cs[i + 1..]))
  {
    assert cs[i..] == [cs[i]] + cs[i + 1..];
    ChildRegionsCons(cs[i], cs[i + 1..]);
  }

  lemma JoinRegionsAssoc(a: seq<Region>, b: seq<Region>, y: Parse<seq<Region>>)
    ensures JoinRegions(Ok(a), JoinRegions(Ok(b), y)) == JoinRegions(Ok(a + b), y)
  {
    if y.Ok? {
      assert a + (b + y.value) == a + b + y.value;
    }
  }

  /** from_element as the source writes it: the attributes, the reading
      order, then a loop that tries every direct child as a region and
      appends those that are. */
  method ParsePage(n: Node) returns (r: Parse<Page>)
    ensures r == PageFromElement(n)
  {
    var width := RequiredInt(n, PageTag, "imageWidth");
    if width.Err? {
      return Err(width.error);
    }
    var height := RequiredInt(n, PageTag, "imageHeight");
    if height.Err? {
      return Err(height.error);
    }
    var imageFilename := Get(n, "imageFilename");
    var readingOrder := PageReadingOrder(n);
    if readingOrder.Err? {
      return Err(readingOrder.error);
    }
    var cs := n.children;
    var regions: seq<Region> := [];
    JoinRegionsEmpty(ChildRegions(cs));
    assert cs[0..] == cs;
    for i := 0 to |cs|
      invariant ChildRegions(cs) == JoinRegions(Ok(regions), ChildRegions(cs[i..]))
    {
      ChildRegionsStep(cs, i);
      var region := TryRegionFromElement(cs[i]);
      if region.Err? {
        return Err(region.error);
      }
      var found := if region.value.Some? then [region.value.value] else [];
      assert ChildRegion(cs[i]) == Ok(found);
      JoinRegionsAssoc(regions, found, ChildRegions(cs[i + 1..]));
      regions := regions + found;
    }
    assert ChildRegions(cs[|cs|..]) == Ok([]);
    assert regions + [] == regions;
    return Ok(Page(width.value, height.value, imageFilename, readingOrder.value, regions));
  }

  lemma JoinRegionsEmpty(y: Parse<seq<Region>>)
    ensures JoinRegions(Ok([]), y) == y
  {
    if y.Ok? {
      assert [] + y.value == y.value;
    }
  }

  /** The attributes to_element sets: the width, the height and the image
      file name. */
  function PageAttrs(width: int, height: int, imageFilename: Option<string>): (a: map<string, string>)
    ensures a.Keys == {"imageWidth", "imageHeight"} + (if imageFilename.Some? then {"imageFilename"} else {})
    ensures a["imageWidth"] == IntToString(width) && a["imageHeight"] == IntToString(height)
    ensures imageFilename.Some? ==> a["imageFilename"] == imageFilename.value
  {
    var size := map["imageWidth" := IntToString(width), "imageHeight" := IntToString(height)];
    if imageFilename.Some? then size["imageFilename" := imageFilename.value] else size
  }

  /** The ReadingOrder element, when there is a reading order. */
  function ReadingOrderNodes(ro: Option<ReadingOrder>): (ns: seq<Node>)
    ensures |ns| == if ro.Some? then 1 else 0
    ensures ro.Some? ==> ns[0] == ReadingOrderToElement(ro.value)
  {
    if ro.Some? then [ReadingOrderToElement(ro.value)] else []
  }

  /** Page.to_element: the image attributes, then the reading order when
      there is one, then every region in order. */
  function PageToElement(p: Page): (n: Node)
    ensures n.tag == PageTag
  {
    Element(PageTag, PageAttrs(p.width, p.height, p.imageFilename), ReadingOrderNodes(p.readingOrder) + RegionNodes(p.regions))
  }

  /** to_element as the source writes it: a loop appending each region's
      element after the reading order. */
  method PageToNode(p: Page) returns (n: Node)
    ensures n == PageToElement(p)
  {
    var children := ReadingOrderNodes(p.readingOrder);
    for i := 0 to |p.regions|
      invariant children == ReadingOrderNodes(p.readingOrder) + RegionNodes(p.regions[..i])
    {
      RegionNodesSnoc(p.regions, i);
      children := children + [RegionToElement(p.regions[i])];
    }
    assert p.regions[..|p.regions|] == p.regions;
    n := Element(PageTag, PageAttrs(p.width, p.height, p.imageFilename), children);
  }

  lemma RegionNodesSnoc(rs: seq<Region>, i: nat)
    requires i < |rs|
    ensures RegionNodes(rs[..i + 1]) == RegionNodes(rs[..i]) + [RegionToElement(rs[i])]
  {
    assert rs[..i + 1] == rs[..i] + [rs[i]];
    RegionNodesAppend(rs[..i], [rs[i]]);
  }

  lemma RegionNodesAppend(a: seq<Region>, b: seq<Region>)
    ensures RegionNodes(a + b) == RegionNodes(a) + RegionNodes(b)
  {
    var l, r := RegionNodes(a + b), RegionNodes(a) + RegionNodes(b);
    assert |l| == |r|;
    forall i | 0 <= i < |l|
      ensures l[i] == r[i]
    {
      if i < |a| {
        assert (a + b)[i] == a[i];
      } else {
        assert (a + b)[i] == b[i - |a|];
      }
    }
  }

  /** The pages that survive serialisation: a well-formed reading order
      and well-formed regions. */
  predicate PageWellFormed(p: Page) {
    (p.readingOrder.Some? ==> ReadingOrderWellFormed(p.readingOrder.value)) &&
    forall i | 0 <= i < |p.regions| :: RegionWellFormed(p.regions[i])
  }

  /** The top-level regions are exactly the parses of the TextRegion
      children, in document order: regions nested inside them are not
      promoted to the page. */
  lemma PageRegionsAreDirectChildren(n: Node)
    requires PageFromElement(n).Ok?
    ensures var xs := FindAll(n.children, TextRegionTag);
      var rs := PageFromElement(n).value.regions;
      |rs| == |xs| && forall i | 0 <= i < |xs| :: RegionFromElement(xs[i]) == Ok(rs[i])
  {
    ChildRegionsAreRegionElements(n.children);
  }

  /** A malformed TextRegion child fails the whole page. */
  lemma MalformedRegionFailsPage(n: Node, i: nat)
    requires i < |n.children| && n.children[i].tag == TextRegionTag && RegionFromElement(n.children[i]).Err?
    ensures PageFromElement(n).Err?
  {
    var xs := FindAll(n.children, TextRegionTag);
    assert n.children[i] in xs;
    var j :| 0 <= j < |xs| && xs[j] == n.children[i];
    ChildRegionsAreRegionElements(n.children);
  }

  /** from_element(to_element(p)) == p for every well-formed page. */
  lemma PageRoundTrip(p: Page)
    requires PageWellFormed(p)
    ensures PageFromElement(PageToElement(p)) == Ok(p)
  {
    var n := PageToElement(p);
    ParseIntToString(p.width);
    ParseIntToString(p.height);
    assert RequiredInt(n, PageTag, "imageWidth") == Ok(p.width);
    assert RequiredInt(n, PageTag, "imageHeight") == Ok(p.height);
    RegionsPart(p);
    ReadingOrderPart(p);
  }

  /** The reading order of a written page is read back from it. */
  lemma ReadingOrderPart(p: Page)
    requires p.readingOrder.Some? ==> ReadingOrderWellFormed(p.readingOrder.value)
    ensures PageReadingOrder(PageToElement(p)) == Ok(p.readingOrder)
  {
    var n := PageToElement(p);
    var ro := ReadingOrderNodes(p.readingOrder);
    var rn := RegionNodes(p.regions);
    if p.readingOrder.Some? {
      FindFirst(ro[0], rn, ReadingOrderTag);
      assert n.children == [ro[0]] + rn;
      ReadingOrderRoundTrip(p.readingOrder.value);
    } else {
      assert n.children == rn;
      assert forall c | c in rn :: c.tag != ReadingOrderTag;
    }
  }

  /** The regions of a written page are read back from it. */
  lemma RegionsPart(p: Page)
    requires forall i | 0 <= i < |p.regions| :: RegionWellFormed(p.regions[i])
    ensures ChildRegions(PageToElement(p).children) == Ok(p.regions)
  {
    var ro := ReadingOrderNodes(p.readingOrder);
    var rn := RegionNodes(p.regions);
    WrittenRegions(p.regions);
    if p.readingOrder.Some? {
      assert PageToElement(p).children == [ro[0]] + rn;
      SkipOther(ro[0], rn);
    } else {
      assert PageToElement(p).children == rn;
    }
  }

  lemma WrittenRegions(rs: seq<Region>)
    requires forall i | 0 <= i < |rs| :: RegionWellFormed(rs[i])
    ensures ChildRegions(RegionNodes(rs)) == Ok(rs)
  {
    var rn := RegionNodes(rs);
    ChildRegionsAreRegionElements(rn);
    FindAllEvery(rn, TextRegionTag);
    RegionsRoundTrip(rs);
  }

  /** Re-serialising a parsed page writes no descendant tag the input
      lacked. */
  lemma PageTagsWithin(n: Node)
    requires PageFromElement(n).Ok?
    ensures DescendantTags(PageToElement(PageFromElement(n).value)) <= DescendantTags(n)
  {
    var p := PageFromElement(n).value;
    var ro := ReadingOrderNodes(p.readingOrder);
    var rn := RegionNodes(p.regions);
    if p.readingOrder.Some? {
      var x := Find(n.children, ReadingOrderTag).value;
      ReadingOrderTagsWithin(x);
      CoveredPointwise(ro, [x], n.children);
    }
    ChildRegionsCovered(n.children);
    CoveredAppend(ro, rn, n.children);
    TagsWithin(PageToElement(p), n);
  }

  /** Page.text_regions: the regions that are TextRegions, in order. */
  function TextRegions(rs: seq<Region>): (r: seq<Region>)
    ensures forall x | x in r :: x in rs && x.TextRegion?
  {
    if |rs| == 0 then []
    else (if rs[0].TextRegion? then [rs[0]] else []) + TextRegions(rs[1..])
  }

  /** Every region of the model is a TextRegion, so text_regions keeps
      them all, in order. */
  lemma {:induction false} TextRegionsAll(rs: seq<Region>)
    ensures TextRegions(rs) == rs
  {
    if |rs| > 0 {
      TextRegionsAll(rs[1..]);
      assert rs == [rs[0]] + rs[1..];
    }
  }

  /** Page.lines: the lines of every text region, region by region. */
  function RegionLinesOf(rs: seq<Region>): seq<Line> {
    if |rs| == 0 then [] else rs[0].lines + RegionLinesOf(rs[1..])
  }

  function PageLines(p: Page): (r: seq<Line>)
    ensures forall l :: l in r <==> exists i | 0 <= i < |p.regions| :: l in p.regions[i].lines
  {
    TextRegionsAll(p.regions);
    PageLinesAreRegionLines(p.regions);
    RegionLinesOf(TextRegions(p.regions))
  }

  lemma {:induction false} RegionLinesAppend(a: seq<Region>, b: seq<Region>)
    ensures RegionLinesOf(a + b) == RegionLinesOf(a) + RegionLinesOf(b)
  {
    if |a| == 0 {
      assert a + b == b;
    } else {
      assert (a + b)[0] == a[0] && (a + b)[1..] == a[1..] + b;
      RegionLinesAppend(a[1..], b);
    }
  }

  /** The page's lines are the lines of its regions, concatenated in
      region order: a line is on the page exactly when it is in some
      region, and the count is the sum of the regions' counts. */
  lemma {:induction false} PageLinesAreRegionLines(rs: seq<Region>)
    ensures forall l :: l in RegionLinesOf(rs) <==> exists i | 0 <= i < |rs| :: l in rs[i].lines
    ensures |rs| > 0 ==> RegionLinesOf(rs) == RegionLinesOf(rs[..|rs| - 1]) + rs[|rs| - 1].lines
  {
    if |rs| > 0 {
      PageLinesAreRegionLines(rs[1..]);
      forall l ensures l in RegionLinesOf(rs) <==> exists i | 0 <= i < |rs| :: l in rs[i].lines {
        if l in RegionLinesOf(rs[1..]) {
          var i :| 0 <= i < |rs[1..]| && l in rs[1..][i].lines;
          assert l in rs[i + 1].lines;
        }
        if exists i | 0 <= i < |rs| :: l in rs[i].lines {
          var i :| 0 <= i < |rs| && l in rs[i].lines;
          if i > 0 {
            assert l in rs[1..][i - 1].lines;
          }
        }
      }
      var init := rs[..|rs| - 1];
      assert rs == init + [rs[|rs| - 1]];
      RegionLinesAppend(init, [rs[|rs| - 1]]);
      assert RegionLinesOf([rs[|rs| - 1]]) == rs[|rs| - 1].lines + [];
      assert rs[|rs| - 1].lines + [] == rs[|rs| - 1].lines;
    }
  }
}
