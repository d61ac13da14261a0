/** page/elements/text.py: one TextEquiv alternative. */
module Texts {
  import opened Wrappers
  import opened Errors
  import opened Xml
  import opened Strings

  const TextEquivTag := "TextEquiv"
  const UnicodeTag := "Unicode"
  const PlainTextTag := "PlainText"

  /** A text alternative. The Unicode and PlainText texts are those of the
      child elements, which are None when an element is empty. */
  datatype Text = Text(index: Option<int>, unicode: Option<string>, plainText: Option<string>)

  /** The index attribute is absent or an integer. */
  predicate IndexAttributeValid(n: Node) {
    "index" in n.attrs ==> ParseInt(n.attrs["index"]).Some?
  }

  /** Text.from_element: an index attribute, when present, must be an
      integer, and is checked first; the Unicode child is required;
      PlainText is optional. */
  function TextFromElement(n: Node): (r: Parse<Text>)
    ensures !IndexAttributeValid(n) ==> r == Err(InvalidAttribute(TextEquivTag, "index"))
    ensures IndexAttributeValid(n) && Find(n.children, UnicodeTag).None? ==>
      r == Err(MissingElement(TextEquivTag, UnicodeTag))
    ensures r.Ok? <==> IndexAttributeValid(n) && Find(n.children, UnicodeTag).Some?
    ensures r.Ok? ==>
      (r.value.index.None? <==> "index" !in n.attrs) &&
      ("index" in n.attrs ==> r.value.index == ParseInt(n.attrs["index"])) &&
      r.value.unicode == Find(n.children, UnicodeTag).value.text &&
      (Find(n.children, PlainTextTag).None? ==> r.value.plainText.None?) &&
      (Find(n.children, PlainTextTag).Some? ==> r.value.plainText == Find(n.children, PlainTextTag).value.text)
  {
    var plain := Find(n.children, PlainTextTag);
    var unicode := Find(n.children, UnicodeTag);
    var index :- match Get(n, "index")
      case None => Ok(None)
      case Some(s) =>
        match ParseInt(s)
        case None => Err(InvalidAttribute(TextEquivTag, "index"))
        case Some(i) => Ok(Some(i));
    if unicode.None? then Err(MissingElement(TextEquivTag, UnicodeTag))
    else if plain.None? then Ok(Text(index, unicode.value.text, None))
    else Ok(Text(index, unicode.value.text, plain.value.text))
  }

  /** The TextEquiv element of a text: the index attribute when there is
      one, a Unicode child, then a PlainText child when there is plain
      text. */
  function TextToElement(t: Text): (r: Node)
    ensures r.tag == TextEquivTag
    ensures "index" in r.attrs <==> t.index.Some?
    ensures |r.children| == if t.plainText.Some? then 2 else 1
    ensures r.children[0].tag == UnicodeTag && r.children[0].text == t.unicode
    ensures t.plainText.Some? ==> r.children[1].tag == PlainTextTag && r.children[1].text == t.plainText
  {
    var attrs := if t.index.Some? then map["index" := IntToString(t.index.value)] else map[];
    var unicode := Node(UnicodeTag, map[], [], t.unicode);
    var plain := if t.plainText.Some? then [Node(PlainTextTag, map[], [], t.plainText)] else [];
    Element(TextEquivTag, attrs, [unicode] + plain)
  }

  /** Every text is read back from its element. */
  lemma TextRoundTrip(t: Text)
    ensures TextFromElement(TextToElement(t)) == Ok(t)
  {
    if t.index.Some? {
      ParseIntToString(t.index.value);
    }
  }

  /** The relative order of the PlainText and Unicode children does not
      matter. */
  lemma TextChildOrderIrrelevant(attrs: map<string, string>, u: Node, p: Node, text: Option<string>)
    requires u.tag == UnicodeTag && p.tag == PlainTextTag
    ensures TextFromElement(Node(TextEquivTag, attrs, [u, p], text)) ==
            TextFromElement(Node(TextEquivTag, attrs, [p, u], text))
  {
    assert [u, p][1..] == [p] && [p, u][1..] == [u];
  }

  /** An invalid index is reported even when the Unicode child is also
      missing. */
  lemma InvalidIndexBeforeMissingUnicode(n: Node)
    requires "index" in n.attrs && ParseInt(n.attrs["index"]).None?
    requires forall c | c in n.children :: c.tag != UnicodeTag
    ensures TextFromElement(n) == Err(InvalidAttribute(TextEquivTag, "index"))
  {
  }

  /** A parsed alternative is re-serialised with no descendant tag the
      input lacked. */
  lemma TextTagsWithin(n: Node)
    requires TextFromElement(n).Ok?
    ensures DescendantTags(TextToElement(TextFromElement(n).value)) <= DescendantTags(n)
  {
    var out := TextToElement(TextFromElement(n).value);
    var u := Find(n.children, UnicodeTag).value;
    assert out.children[0].tag == u.tag && DescendantTags(out.children[0]) == {};
    if |out.children| == 2 {
      var p := Find(n.children, PlainTextTag).value;
      assert out.children[1].tag == p.tag && DescendantTags(out.children[1]) == {};
    }
    assert forall c | c in out.children :: c == out.children[0] || c == out.children[|out.children| - 1];
    TagsWithin(out, n);
  }
}
