/** page/elements/pcgts.py: the document root, holding an optional
    identifier, the metadata and the page. */
module Documents {
  import opened Wrappers
  import opened Errors
  import opened Xml
  import opened MetadataElements
  import opened Pages

  const PcGtsTag := "PcGts"

  datatype PcGts<T> = PcGts(pcGtsId: Option<string>, metadata: Metadata<T>, page: Page)

  /** PcGts.from_element: the pcGtsId attribute as it is (absent gives
      None); the Metadata child is looked up before the Page child, both
      are required, and then they are parsed in that order. */
  function PcGtsFromElement<T>(n: Node, parseDate: string -> Option<T>): (r: Parse<PcGts<T>>)
    ensures Find(n.children, MetadataTag).None? ==> r == Err(MissingElement(PcGtsTag, MetadataTag))
    ensures (Find(n.children, MetadataTag).Some? && Find(n.children, PageTag).None?) ==>
      r == Err(MissingElement(PcGtsTag, PageTag))
    ensures Find(n.children, MetadataTag).Some? && Find(n.children, PageTag).Some? ==>
      var m := MetadataFromElement(Find(n.children, MetadataTag).value, parseDate);
      var p := PageFromElement(Find(n.children, PageTag).value);
      (m.Err? ==> r == Err(m.error)) &&
      (m.Ok? && p.Err? ==> r == Err(p.error)) &&
      (m.Ok? && p.Ok? ==> r == Ok(PcGts(Get(n, "pcGtsId"), m.value, p.value)))
  {
    var pcGtsId := Get(n, "pcGtsId");
    var metadataNode :- RequiredChild(n, PcGtsTag, MetadataTag);
    var pageNode :- RequiredChild(n, PcGtsTag, PageTag);
    var metadata :- MetadataFromElement(metadataNode, parseDate);
    var page :- PageFromElement(pageNode);
    Ok(PcGts(pcGtsId, metadata, page))
  }

  /** The root-tag probe of PcGts.from_file: a root whose local name is not
      PcGts is not a page document, which is not an error. */
  function FromRoot<T>(root: Node, parseDate: string -> Option<T>): (r: Parse<Option<PcGts<T>>>)
    ensures root.tag != PcGtsTag ==> r == Ok(None)
    ensures root.tag == PcGtsTag ==>
      var d := PcGtsFromElement(root, parseDate);
      (r.Ok? <==> d.Ok?) && (r.Ok? ==> r.value == Some(d.value)) && (r.Err? ==> r.error == d.error)
  {
    if root.tag != PcGtsTag then Ok(None)
    else
      var d :- PcGtsFromElement(root, parseDate);
      Ok(Some(d))
  }

  /** PcGts.to_element: pcGtsId only when there is one, then the Metadata
      and the Page elements. */
  function PcGtsToElement<T>(d: PcGts<T>, formatDate: T -> string): (n: Node)
    ensures n.tag == PcGtsTag
    ensures n.attrs.Keys == if d.pcGtsId.Some? then {"pcGtsId"} else {}
    ensures d.pcGtsId.Some? ==> n.attrs["pcGtsId"] == d.pcGtsId.value
    ensures n.children == [MetadataToElement(d.metadata, formatDate), PageToElement(d.page)]
  {
    var attrs := if d.pcGtsId.Some? then map["pcGtsId" := d.pcGtsId.value] else map[];
    Element(PcGtsTag, attrs, [MetadataToElement(d.metadata, formatDate), PageToElement(d.page)])
  }

  /** from_element(to_element(d)) == d for a well-formed page whose two
      metadata dates the date parser reads back. */
  lemma PcGtsRoundTrip<T>(d: PcGts<T>, parseDate: string -> Option<T>, formatDate: T -> string)
    requires parseDate(formatDate(d.metadata.created)) == Some(d.metadata.created)
    requires parseDate(formatDate(d.metadata.lastChange)) == Some(d.metadata.lastChange)
    requires PageWellFormed(d.page)
    ensures PcGtsFromElement(PcGtsToElement(d, formatDate), parseDate) == Ok(d)
    ensures FromRoot(PcGtsToElement(d, formatDate), parseDate) == Ok(Some(d))
  {
    var n := PcGtsToElement(d, formatDate);
    var m, p := MetadataToElement(d.metadata, formatDate), PageToElement(d.page);
    FindAt(n.children, 0, MetadataTag);
    FindAt(n.children, 1, PageTag);
    MetadataRoundTrip(d.metadata, parseDate, formatDate);
    PageRoundTrip(d.page);
    assert Get(n, "pcGtsId") == d.pcGtsId;
  }

  /** Re-serialising a parsed document writes no descendant tag the input
      lacked. */
  lemma PcGtsTagsWithin<T>(n: Node, parseDate: string -> Option<T>, formatDate: T -> string)
    requires PcGtsFromElement(n, parseDate).Ok?
    ensures DescendantTags(PcGtsToElement(PcGtsFromElement(n, parseDate).value, formatDate)) <= DescendantTags(n)
  {
    var d := PcGtsFromElement(n, parseDate).value;
    var out := PcGtsToElement(d, formatDate);
    var mx, px := Find(n.children, MetadataTag).value, Find(n.children, PageTag).value;
    assert d.metadata == MetadataFromElement(mx, parseDate).value;
    assert d.page == PageFromElement(px).value;
    var mo, po := MetadataToElement(d.metadata, formatDate), PageToElement(d.page);
    MetadataTagsWithin(mx, parseDate, formatDate);
    PageTagsWithin(px);
    PairWithin(out, n, mx, px);
  }
}
