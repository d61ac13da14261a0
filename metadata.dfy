/** page/elements/metadata.py: the provenance block of a document. The
    date parser the library calls is a parameter of the model, as is the
    formatter the serialiser would use; timestamps are of any type T. */
module MetadataElements {
  import opened Wrappers
  import opened Errors
  import opened Xml

  const MetadataTag := "Metadata"
  const CreatorTag := "Creator"
  const CreatedTag := "Created"
  const LastChangeTag := "LastChange"
  const CommentsTag := "Comments"

  datatype Metadata<T> = Metadata(creator: string, created: T, lastChange: T, comments: Option<string>)

  /** A date child: it must be present, and its text must be accepted by
      the date parser. A missing text and a text the parser rejects raise
      the same invalid-date error. */
  function DateChild<T>(n: Node, tag: string, parseDate: string -> Option<T>): (r: Parse<T>)
    ensures Find(n.children, tag).None? ==> r == Err(MissingElement(MetadataTag, tag))
    ensures Find(n.children, tag).Some? ==>
      var text := Find(n.children, tag).value.text;
      (r.Ok? <==> text.Some? && parseDate(text.value).Some?) &&
      (r.Ok? ==> r.value == parseDate(text.value).value) &&
      (r.Err? ==> r.error == InvalidDate(MetadataTag))
  {
    var x :- RequiredChild(n, MetadataTag, tag);
    match x.text
    case None => Err(InvalidDate(MetadataTag))
    case Some(s) =>
      match parseDate(s)
      case None => Err(InvalidDate(MetadataTag))
      case Some(t) => Ok(t)
  }

  /** Metadata.from_element: the four children are the first with each
      tag. The Creator text is read first (and is "" when empty), then
      Created and LastChange are parsed in that order; Comments is
      optional and, when present, gives its text. */
  function MetadataFromElement<T>(n: Node, parseDate: string -> Option<T>): (r: Parse<Metadata<T>>)
    ensures Find(n.children, CreatorTag).None? ==> r == Err(MissingElement(MetadataTag, CreatorTag))
    ensures Find(n.children, CreatorTag).Some? && DateChild(n, CreatedTag, parseDate).Err? ==>
      r == Err(DateChild(n, CreatedTag, parseDate).error)
    ensures (Find(n.children, CreatorTag).Some? && DateChild(n, CreatedTag, parseDate).Ok? && DateChild(n, LastChangeTag, parseDate).Err?) ==>
      r == Err(DateChild(n, LastChangeTag, parseDate).error)
    ensures r.Ok? <==>
      Find(n.children, CreatorTag).Some? && DateChild(n, CreatedTag, parseDate).Ok? && DateChild(n, LastChangeTag, parseDate).Ok?
    ensures r.Ok? ==>
      r.value.creator == Find(n.children, CreatorTag).value.text.GetOr("") &&
      r.value.created == DateChild(n, CreatedTag, parseDate).value &&
      r.value.lastChange == DateChild(n, LastChangeTag, parseDate).value &&
      (r.value.comments.None? <==> Find(n.children, CommentsTag).None? || Find(n.children, CommentsTag).value.text.None?) &&
      (r.value.comments.Some? ==> r.value.comments == Find(n.children, CommentsTag).value.text)
  {
    var creatorNode :- RequiredChild(n, MetadataTag, CreatorTag);
    var creator := creatorNode.text.GetOr("");
    var created :- DateChild(n, CreatedTag, parseDate);
    var lastChange :- DateChild(n, LastChangeTag, parseDate);
    var comments := match Find(n.children, CommentsTag) case None => None case Some(c) => c.text;
    Ok(Metadata(creator, created, lastChange, comments))
  }

  /** An element holding only a text. */
  function TextElement(tag: string, text: string): (n: Node)
    ensures n.tag == tag && n.children == [] && n.text == Some(text)
    ensures DescendantTags(n) == {}
  {
    Node(tag, map[], [], Some(text))
  }

  /** Metadata.to_element, which pcgts.py calls but metadata.py does not
      define: Creator, Created and LastChange, then Comments when there
      are comments, each holding its text. */
  function MetadataToElement<T>(m: Metadata<T>, formatDate: T -> string): (n: Node)
    ensures n.tag == MetadataTag
    ensures |n.children| == if m.comments.Some? then 4 else 3
    ensures n.children[0] == TextElement(CreatorTag, m.creator)
    ensures n.children[1] == TextElement(CreatedTag, formatDate(m.created))
    ensures n.children[2] == TextElement(LastChangeTag, formatDate(m.lastChange))
    ensures m.comments.Some? ==> n.children[3] == TextElement(CommentsTag, m.comments.value)
  {
    var comments := if m.comments.Some? then [TextElement(CommentsTag, m.comments.value)] else [];
    Element(MetadataTag, map[], [
      TextElement(CreatorTag, m.creator),
      TextElement(CreatedTag, formatDate(m.created)),
      TextElement(LastChangeTag, formatDate(m.lastChange))] + comments)
  }

  /** from_element(to_element(m)) == m whenever the date parser reads back
      what the formatter writes for m's two dates. */
  lemma MetadataRoundTrip<T>(m: Metadata<T>, parseDate: string -> Option<T>, formatDate: T -> string)
    requires parseDate(formatDate(m.created)) == Some(m.created)
    requires parseDate(formatDate(m.lastChange)) == Some(m.lastChange)
    ensures MetadataFromElement(MetadataToElement(m, formatDate), parseDate) == Ok(m)
  {
    var n := MetadataToElement(m, formatDate);
    var cs := n.children;
    FindAt(cs, 0, CreatorTag);
    FindAt(cs, 1, CreatedTag);
    FindAt(cs, 2, LastChangeTag);
    assert DateChild(n, CreatedTag, parseDate) == Ok(m.created);
    assert DateChild(n, LastChangeTag, parseDate) == Ok(m.lastChange);
    if m.comments.Some? {
      FindAt(cs, 3, CommentsTag);
    } else {
      assert forall x | x in cs :: x.tag != CommentsTag;
    }
    var comments := match Find(cs, CommentsTag) case None => None case Some(c) => c.text;
    assert comments == m.comments;
  }

  /** Re-serialising parsed metadata writes no descendant tag the input
      lacked: every child it writes stands for one that was read. */
  lemma MetadataTagsWithin<T>(n: Node, parseDate: string -> Option<T>, formatDate: T -> string)
    requires MetadataFromElement(n, parseDate).Ok?
    ensures Covered(MetadataToElement(MetadataFromElement(n, parseDate).value, formatDate).children, n.children)
    ensures DescendantTags(MetadataToElement(MetadataFromElement(n, parseDate).value, formatDate)) <= DescendantTags(n)
  {
    var out := MetadataToElement(MetadataFromElement(n, parseDate).value, formatDate);
    var xs := [Find(n.children, CreatorTag).value, Find(n.children, CreatedTag).value, Find(n.children, LastChangeTag).value];
    var ys := if |out.children| == 4 then xs + [Find(n.children, CommentsTag).value] else xs;
    forall i | 0 <= i < |out.children|
      ensures ys[i] in n.children && out.children[i].tag == ys[i].tag && DescendantTags(out.children[i]) <= DescendantTags(ys[i])
    {
    }
    CoveredPointwise(out.children, ys, n.children);
    TagsWithin(out, n);
  }
}
