/** page/elements/reading_order/region_ref.py: a reference from the reading
    order to a region, plain (RegionRef) or with an index
    (RegionRefIndexed). */
module RegionRefs {
  import opened Wrappers
  import opened Errors
  import opened Xml
  import opened Strings

  const RegionRefTag := "RegionRef"
  const RegionRefIndexedTag := "RegionRefIndexed"

  /** A region reference; index is None for a RegionRef and the index of a
      RegionRefIndexed. */
  datatype RegionRef = RegionRef(ref: string, index: Option<int>)

  /** RegionRef.from_element: the regionRef attribute is required. */
  function RefFromElement(n: Node): (r: Parse<RegionRef>)
    ensures "regionRef" !in n.attrs ==> r == Err(MissingAttribute(RegionRefTag, "regionRef"))
    ensures "regionRef" in n.attrs ==> r == Ok(RegionRef(n.attrs["regionRef"], None))
  {
    var ref :- RequiredAttribute(n, RegionRefTag, "regionRef");
    Ok(RegionRef(ref, None))
  }

  /** RegionRefIndexed.from_element: the plain parse first (so a missing
      regionRef is reported as RegionRef's), then a required integer
      index. */
  function RefIndexedFromElement(n: Node): (r: Parse<RegionRef>)
    ensures "regionRef" !in n.attrs ==> r == Err(MissingAttribute(RegionRefTag, "regionRef"))
    ensures "regionRef" in n.attrs && "index" !in n.attrs ==>
      r == Err(MissingAttribute(RegionRefIndexedTag, "index"))
    ensures "regionRef" in n.attrs && "index" in n.attrs && ParseInt(n.attrs["index"]).None? ==>
      r == Err(InvalidAttribute(RegionRefIndexedTag, "index"))
    ensures r.Ok? <==> "regionRef" in n.attrs && "index" in n.attrs && ParseInt(n.attrs["index"]).Some?
    ensures r.Ok? ==> r.value == RegionRef(n.attrs["regionRef"], ParseInt(n.attrs["index"]))
  {
    var plain :- RefFromElement(n);
    var index :- RequiredInt(n, RegionRefIndexedTag, "index");
    Ok(RegionRef(plain.ref, Some(index)))
  }

  /** The parser for a reference with or without an index. */
  function RefParse(n: Node, indexed: bool): Parse<RegionRef> {
    if indexed then RefIndexedFromElement(n) else RefFromElement(n)
  }

  /** to_element of either class: the tag, regionRef, and index for the
      indexed class, and no children. */
  function RefToElement(r: RegionRef): (n: Node)
    ensures n.tag == if r.index.Some? then RegionRefIndexedTag else RegionRefTag
    ensures n.children == [] && n.text.None?
    ensures n.attrs.Keys == if r.index.Some? then {"regionRef", "index"} else {"regionRef"}
    ensures n.attrs["regionRef"] == r.ref
    ensures r.index.Some? ==> n.attrs["index"] == IntToString(r.index.value)
  {
    if r.index.None? then Element(RegionRefTag, map["regionRef" := r.ref], [])
    else Element(RegionRefIndexedTag, map["regionRef" := r.ref, "index" := IntToString(r.index.value)], [])
  }

  /** from_element(to_element(r)) == r for both classes. */
  lemma RefRoundTrip(r: RegionRef)
    ensures RefParse(RefToElement(r), r.index.Some?) == Ok(r)
  {
    if r.index.Some? {
      ParseIntToString(r.index.value);
    }
  }
}
