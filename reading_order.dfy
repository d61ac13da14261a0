/** The ReadingOrder element: a wrapper around exactly one root group,
    OrderedGroup or UnorderedGroup. ReadingOrder is not defined in the
    reading_order package; its behaviour is the one its tests expect, with
    OrderedGroup preferred when both kinds of root are present. */
module ReadingOrders {
  import opened Wrappers
  import opened Errors
  import opened Xml
  import opened Groups
  import opened GroupLaws

  const ReadingOrderTag := "ReadingOrder"

  datatype ReadingOrder = ReadingOrder(root: RoNode)

  /** The only values parsing produces and serialisation keeps: a plain
      (unindexed) group with well-formed contents. */
  predicate ReadingOrderWellFormed(ro: ReadingOrder) {
    ro.root.Group? && RoWellFormed(ro.root, false)
  }

  /** ReadingOrder.from_element: the first OrderedGroup child becomes the
      root; without one, the first UnorderedGroup child; without either
      the element is rejected. The root's own errors propagate. */
  function ReadingOrderFromElement(n: Node): (r: Parse<ReadingOrder>)
    ensures Find(n.children, GroupTag(Ordered)).Some? ==>
      r == match GroupFromElement(Find(n.children, GroupTag(Ordered)).value, Ordered)
           case Err(e) => Err(e)
           case Ok(g) => Ok(ReadingOrder(g))
    ensures Find(n.children, GroupTag(Ordered)).None? && Find(n.children, GroupTag(Unordered)).Some? ==>
      r == match GroupFromElement(Find(n.children, GroupTag(Unordered)).value, Unordered)
           case Err(e) => Err(e)
           case Ok(g) => Ok(ReadingOrder(g))
    ensures Find(n.children, GroupTag(Ordered)).None? && Find(n.children, GroupTag(Unordered)).None? ==>
      r == Err(EmptyReadingOrder)
  {
    var kind := if Find(n.children, GroupTag(Ordered)).Some? then Ordered else Unordered;
    match Find(n.children, GroupTag(kind))
    case None => Err(EmptyReadingOrder)
    case Some(x) =>
      var root :- GroupFromElement(x, kind);
      Ok(ReadingOrder(root))
  }

  /** ReadingOrder.to_element: the wrapper with the root group as its only
      child. */
  function ReadingOrderToElement(ro: ReadingOrder): (n: Node)
    ensures n.tag == ReadingOrderTag && n.attrs == map[] && n.children == [RoToElement(ro.root)]
  {
    Element(ReadingOrderTag, map[], [RoToElement(ro.root)])
  }

  /** A parsed reading order is well formed, its root is of the kind of
      the child it came from, and that child has the root's tag. */
  lemma ParsedReadingOrder(n: Node)
    requires ReadingOrderFromElement(n).Ok?
    ensures ReadingOrderWellFormed(ReadingOrderFromElement(n).value)
    ensures var g := ReadingOrderFromElement(n).value.root;
      g.Group? && g.index.None? &&
      (g.kind == Unordered <==> Find(n.children, GroupTag(Ordered)).None?)
  {
    var kind := if Find(n.children, GroupTag(Ordered)).Some? then Ordered else Unordered;
    GroupParsedWellFormed(Find(n.children, GroupTag(kind)).value, kind);
  }

  /** from_element(to_element(ro)) == ro for every well-formed reading
      order. */
  lemma ReadingOrderRoundTrip(ro: ReadingOrder)
    requires ReadingOrderWellFormed(ro)
    ensures ReadingOrderFromElement(ReadingOrderToElement(ro)) == Ok(ro)
  {
    var g := ro.root;
    var x := RoToElement(g);
    var cs := ReadingOrderToElement(ro).children;
    assert x.tag == GroupTag(g.kind);
    if g.kind == Ordered {
      FindFirst(x, [], GroupTag(Ordered));
    } else {
      assert forall c | c in cs :: c.tag != GroupTag(Ordered);
      FindFirst(x, [], GroupTag(Unordered));
    }
    assert cs == [x] + [];
    GroupRoundTrip(g);
    assert g.(index := None) == g;
  }

  /** Parsing is idempotent on reading orders. */
  lemma ReadingOrderIdempotent(n: Node)
    requires ReadingOrderFromElement(n).Ok?
    ensures var ro := ReadingOrderFromElement(n).value;
      ReadingOrderFromElement(ReadingOrderToElement(ro)) == Ok(ro)
  {
    ParsedReadingOrder(n);
    ReadingOrderRoundTrip(ReadingOrderFromElement(n).value);
  }

  /** Re-serialising a parsed reading order writes no descendant tag the
      input lacked. */
  lemma ReadingOrderTagsWithin(n: Node)
    requires ReadingOrderFromElement(n).Ok?
    ensures DescendantTags(ReadingOrderToElement(ReadingOrderFromElement(n).value)) <= DescendantTags(n)
    ensures Covered(ReadingOrderToElement(ReadingOrderFromElement(n).value).children, n.children)
  {
    var kind := if Find(n.children, GroupTag(Ordered)).Some? then Ordered else Unordered;
    var x := Find(n.children, GroupTag(kind)).value;
    var g := ReadingOrderFromElement(n).value.root;
    GroupTagsWithin(x, kind);
    assert g.(index := None) == g;
    var o := RoToElement(g);
    assert o.tag == x.tag && DescendantTags(o) <= DescendantTags(x);
    CoveredPointwise([o], [x], n.children);
    TagsWithin(ReadingOrderToElement(ReadingOrderFromElement(n).value), n);
  }
}
