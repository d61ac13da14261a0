/** The text of a Word or TextLine (page/elements/line.py:44-58 and its
    IndexedLine subclass; Word has the same split): no TextEquiv child
    gives no text, exactly one gives that text, and two or more give an
    indexed element holding every alternative. */
module Alternatives {
  import opened Wrappers
  import opened Errors
  import opened Xml
  import opened IndexMaps
  import opened Texts

  /** The text part of a plain element (at most one alternative) or of an
      indexed one (the alternatives by index). */
  datatype TextContent = Single(text: Option<Text>) | Indexed(table: ValidTable<Text>)

  /** The index of an alternative, as IndexedLine passes it to the index. */
  function TextKey(t: Text): Option<int> {
    t.index
  }

  function ParseTexts(xs: seq<Node>): (rs: seq<Parse<Text>>)
    ensures |rs| == |xs| && forall i | 0 <= i < |xs| :: rs[i] == TextFromElement(xs[i])
  {
    seq(|xs|, i requires 0 <= i < |xs| => TextFromElement(xs[i]))
  }

  /** The 0/1/many split over the TextEquiv children. With two or more,
      every child is parsed in order and then indexed. */
  function ContentFromTexts(xs: seq<Node>): (r: Parse<TextContent>)
    ensures |xs| == 0 ==> r == Ok(Single(None))
    ensures |xs| == 1 ==> (r.Ok? <==> TextFromElement(xs[0]).Ok?)
    ensures |xs| == 1 && r.Ok? ==> r.value == Single(Some(TextFromElement(xs[0]).value))
    ensures |xs| == 1 && r.Err? ==> r.error == TextFromElement(xs[0]).error
    ensures |xs| >= 2 ==>
      (r.Ok? <==> (forall i | 0 <= i < |xs| :: TextFromElement(xs[i]).Ok? && TextFromElement(xs[i]).value.index.Some?))
    ensures |xs| >= 2 && r.Ok? ==> r.value.Indexed?
    ensures |xs| >= 2 && r.Err? ==>
      var texts := Collect(ParseTexts(xs));
      r.error == if texts.Err? then texts.error else MissingIndex
  {
    if |xs| == 0 then Ok(Single(None))
    else if |xs| == 1 then
      var text :- TextFromElement(xs[0]);
      Ok(Single(Some(text)))
    else
      var texts :- Collect(ParseTexts(xs));
      IndexingFails(texts, TextKey);
      var table :- Indexing(texts, TextKey);
      Ok(Indexed(table))
  }

  /** The text attribute: the single alternative, or for an indexed element
      the alternative with index 0 (IndexedLine passes get_from_index(0)). */
  function CurrentText(c: TextContent): Option<Text> {
    match c
    case Single(t) => t
    case Indexed(table) => Lookup(table, 0)
  }

  function TextNodes(ts: seq<Text>): (r: seq<Node>)
    ensures |r| == |ts| && forall i | 0 <= i < |ts| :: r[i] == TextToElement(ts[i])
  {
    seq(|ts|, i requires 0 <= i < |ts| => TextToElement(ts[i]))
  }

  /** The text children written by to_element: the current text, and for
      an indexed element then every alternative in index order. The
      alternative with index 0 is therefore written twice. */
  function ContentNodes(c: TextContent): (r: seq<Node>)
    ensures forall x | x in r :: x.tag == TextEquivTag
  {
    (if CurrentText(c).Some? then [TextToElement(CurrentText(c).value)] else []) +
    (if c.Indexed? then TextNodes(Objects(c.table)) else [])
  }

  /** The text part of to_element as written: append the current text,
      then loop appending every alternative. */
  method EmitContent(c: TextContent) returns (nodes: seq<Node>)
    ensures nodes == ContentNodes(c)
  {
    nodes := [];
    var current := CurrentText(c);
    if current.Some? {
      nodes := nodes + [TextToElement(current.value)];
    }
    ghost var prefix := nodes;
    if c.Indexed? {
      var texts := Objects(c.table);
      for i := 0 to |texts|
        invariant nodes == prefix + TextNodes(texts[..i])
      {
        TextNodesAppend(texts[..i], [texts[i]]);
        assert texts[..i + 1] == texts[..i] + [texts[i]];
        nodes := nodes + [TextToElement(texts[i])];
      }
      assert texts[..|texts|] == texts;
    }
  }

  /** The contents that survive serialisation: an indexed one stores each
      alternative under its own index, lists index 0 first if it has one,
      and otherwise has at least two alternatives. */
  predicate ContentWellFormed(c: TextContent) {
    c.Indexed? ==>
      Keyed(c.table, TextKey) &&
      (0 in c.table.entries ==> c.table.order[0] == 0) &&
      (0 !in c.table.entries ==> |c.table.order| >= 2)
  }

  /** Two or more alternatives that parse are stored in the index built
      from them. */
  lemma ContentFromManyTexts(xs: seq<Node>)
    requires |xs| >= 2 && ContentFromTexts(xs).Ok?
    ensures Collect(ParseTexts(xs)).Ok?
    ensures Indexing(Collect(ParseTexts(xs)).value, TextKey).Ok?
    ensures ContentFromTexts(xs).value == Indexed(Indexing(Collect(ParseTexts(xs)).value, TextKey).value)
  {
  }

  /** For an indexed element, the current text is the last alternative with
      index 0, or None when there is none. */
  lemma IndexedCurrentText(xs: seq<Node>)
    requires |xs| >= 2 && ContentFromTexts(xs).Ok?
    ensures var texts := Collect(ParseTexts(xs)).value;
      (CurrentText(ContentFromTexts(xs).value).None? <==> forall i | 0 <= i < |texts| :: texts[i].index != Some(0)) &&
      (CurrentText(ContentFromTexts(xs).value).Some? ==>
         exists i :: IsLastWithIndex(texts, TextKey, 0, i) && CurrentText(ContentFromTexts(xs).value).value == texts[i])
  {
    ContentFromManyTexts(xs);
    var texts := Collect(ParseTexts(xs)).value;
    IndexingLookup(texts, TextKey, 0);
  }

  lemma ContentFromIndexedTexts(xs: seq<Node>, texts: seq<Text>, t: ValidTable<Text>)
    requires |xs| >= 2 && Collect(ParseTexts(xs)) == Ok(texts) && Indexing(texts, TextKey) == Ok(t)
    ensures ContentFromTexts(xs) == Ok(Indexed(t))
  {
  }

  /** The alternatives written for an indexed element, read back. */
  lemma WrittenTexts(table: ValidTable<Text>) returns (texts: seq<Text>)
    ensures texts == (if 0 in table.entries then [table.entries[0]] else []) + Objects(table)
    ensures Collect(ParseTexts(ContentNodes(Indexed(table)))) == Ok(texts)
  {
    var nodes := ContentNodes(Indexed(table));
    texts := (if 0 in table.entries then [table.entries[0]] else []) + Objects(table);
    assert |nodes| == |texts|;
    var rs := ParseTexts(nodes);
    forall i | 0 <= i < |texts| ensures rs[i] == Ok(texts[i]) {
      TextRoundTrip(texts[i]);
    }
    CollectAllOk(rs, texts);
  }

  lemma IndexedRoundTrip(table: ValidTable<Text>)
    requires ContentWellFormed(Indexed(table))
    ensures ContentFromTexts(ContentNodes(Indexed(table))) == Ok(Indexed(table))
  {
    var texts := WrittenTexts(table);
    var objs := Objects(table);
    IndexingObjects(table, TextKey);
    if 0 in table.entries {
      assert 0 in table.order;
      assert |objs| >= 1 && objs[0] == table.entries[0];
      assert texts == [objs[0]] + objs;
      IndexingRepeatFirst(objs, TextKey);
    } else {
      assert texts == objs;
    }
    assert |texts| >= 2;
    ContentFromIndexedTexts(ContentNodes(Indexed(table)), texts, table);
  }

  /** Parsing the written text children gives the content back. */
  lemma ContentRoundTrip(c: TextContent)
    requires ContentWellFormed(c)
    ensures ContentFromTexts(ContentNodes(c)) == Ok(c)
  {
    match c
    case Single(t) =>
      if t.Some? {
        TextRoundTrip(t.value);
      }
    case Indexed(table) =>
      IndexedRoundTrip(table);
  }

  /** A parsed text alternative is one of the nodes it came from, read. */
  predicate ParsedFrom(t: Text, xs: seq<Node>) {
    exists x | x in xs :: TextFromElement(x) == Ok(t)
  }

  lemma ParsedFromCovered(ts: seq<Text>, xs: seq<Node>)
    requires forall x | x in xs :: x.tag == TextEquivTag
    requires forall t | t in ts :: ParsedFrom(t, xs)
    ensures Covered(TextNodes(ts), xs)
  {
    forall c | c in TextNodes(ts)
      ensures exists d | d in xs :: d.tag == c.tag && DescendantTags(c) <= DescendantTags(d)
    {
      var i :| 0 <= i < |ts| && TextNodes(ts)[i] == c;
      assert ts[i] in ts;
      var x :| x in xs && TextFromElement(x) == Ok(ts[i]);
      TextTagsWithin(x);
    }
  }

  /** Every alternative of a parsed indexed element, the current text
      among them, comes from one of the TextEquiv children. */
  lemma IndexedTextsParsedFrom(xs: seq<Node>)
    requires |xs| >= 2 && ContentFromTexts(xs).Ok?
    ensures var c := ContentFromTexts(xs).value;
      c.Indexed? &&
      (forall t | t in Objects(c.table) :: ParsedFrom(t, xs)) &&
      (CurrentText(c).Some? ==> CurrentText(c).value in Objects(c.table))
  {
    ContentFromManyTexts(xs);
    var c := ContentFromTexts(xs).value;
    var texts := Collect(ParseTexts(xs)).value;
    IndexingValuesFromList(texts, TextKey);
    forall t | t in texts ensures ParsedFrom(t, xs) {
      var j :| 0 <= j < |texts| && texts[j] == t;
      assert xs[j] in xs && TextFromElement(xs[j]) == Ok(t);
    }
    if CurrentText(c).Some? {
      var i :| 0 <= i < |c.table.order| && c.table.order[i] == 0;
      assert Objects(c.table)[i] == CurrentText(c).value;
    }
  }

  /** The texts whose elements ContentNodes writes. */
  lemma EmittedTexts(c: TextContent) returns (emitted: seq<Text>)
    ensures ContentNodes(c) == TextNodes(emitted)
    ensures forall t | t in emitted :: CurrentText(c) == Some(t) || (c.Indexed? && t in Objects(c.table))
  {
    var first := if CurrentText(c).Some? then [CurrentText(c).value] else [];
    var rest := if c.Indexed? then Objects(c.table) else [];
    emitted := first + rest;
    TextNodesAppend(first, rest);
    assert TextNodes(first) == if CurrentText(c).Some? then [TextToElement(CurrentText(c).value)] else [];
  }

  lemma TextNodesAppend(a: seq<Text>, b: seq<Text>)
    ensures TextNodes(a + b) == TextNodes(a) + TextNodes(b)
  {
    var l, r := TextNodes(a + b), TextNodes(a) + TextNodes(b);
    assert |l| == |r|;
    forall i | 0 <= i < |l|
      ensures l[i] == r[i]
    {
      if i < |a| {
        assert (a + b)[i] == a[i];
      } else {
        assert (a + b)[i] == b[i - |a|];
      }
    }
  }

  /** The text children written for a parsed content have no descendant
      tag that the TextEquiv children it came from lack. */
  lemma ContentTagsWithin(xs: seq<Node>)
    requires forall x | x in xs :: x.tag == TextEquivTag
    requires ContentFromTexts(xs).Ok?
    ensures Covered(ContentNodes(ContentFromTexts(xs).value), xs)
  {
    var c := ContentFromTexts(xs).value;
    var emitted := EmittedTexts(c);
    if |xs| == 1 {
      assert xs[0] in xs;
      assert forall t | t in emitted :: ParsedFrom(t, xs);
    } else if |xs| >= 2 {
      IndexedTextsParsedFrom(xs);
    }
    ParsedFromCovered(emitted, xs);
  }
}
