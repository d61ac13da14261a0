/** The generic XML tree the parsers read and the serialisers write: a
    local tag name, attributes, ordered child elements and optional text.
    Namespaces are not modelled; every tag is a local name. */
module Xml {
  import opened Wrappers

  datatype Node = Node(tag: string, attrs: map<string, string>, children: seq<Node>, text: Option<string>)

  /** A fresh element with no text, as etree.Element creates it. */
  function Element(tag: string, attrs: map<string, string>, children: seq<Node>): Node {
    Node(tag, attrs, children, None)
  }

  /** xml.get(name): the attribute value, or None when it is absent. */
  function Get(n: Node, name: string): (r: Option<string>)
    ensures r.Some? <==> name in n.attrs
    ensures r.Some? ==> r.value == n.attrs[name]
  {
    if name in n.attrs then Some(n.attrs[name]) else None
  }

  /** findall("./tag"): every child with that tag, in document order. */
  function FindAll(cs: seq<Node>, tag: string): (r: seq<Node>)
    ensures |r| <= |cs|
    ensures forall c | c in r :: c in cs && c.tag == tag
    ensures forall c | c in cs && c.tag == tag :: c in r
  {
    if |cs| == 0 then []
    else (if cs[0].tag == tag then [cs[0]] else []) + FindAll(cs[1..], tag)
  }

  /** find("./tag"): the first child with that tag, or None. */
  function Find(cs: seq<Node>, tag: string): (r: Option<Node>)
    ensures r.None? <==> forall c | c in cs :: c.tag != tag
    ensures r.Some? ==> r.value in cs && r.value.tag == tag
  {
    if |cs| == 0 then None
    else if cs[0].tag == tag then Some(cs[0])
    else Find(cs[1..], tag)
  }

  lemma {:induction false} FindIsFirstOfFindAll(cs: seq<Node>, tag: string)
    ensures Find(cs, tag) == if |FindAll(cs, tag)| == 0 then None else Some(FindAll(cs, tag)[0])
  {
    if |cs| > 0 && cs[0].tag != tag {
      FindIsFirstOfFindAll(cs[1..], tag);
    }
  }

  lemma {:induction false} FindAllAppend(a: seq<Node>, b: seq<Node>, tag: string)
    ensures FindAll(a + b, tag) == FindAll(a, tag) + FindAll(b, tag)
  {
    if |a| == 0 {
      assert a + b == b;
    } else {
      assert (a + b)[0] == a[0];
      assert (a + b)[1..] == a[1..] + b;
      FindAllAppend(a[1..], b, tag);
    }
  }

  lemma {:induction false} FindAppend(a: seq<Node>, b: seq<Node>, tag: string)
    ensures Find(a + b, tag) == if Find(a, tag).Some? then Find(a, tag) else Find(b, tag)
  {
    if |a| == 0 {
      assert a + b == b;
    } else {
      assert (a + b)[0] == a[0];
      assert (a + b)[1..] == a[1..] + b;
      FindAppend(a[1..], b, tag);
    }
  }

  /** findall on a list with a first child. */
  lemma FindAllCons(c: Node, cs: seq<Node>, tag: string)
    ensures FindAll([c] + cs, tag) == (if c.tag == tag then [c] else []) + FindAll(cs, tag)
  {
    assert ([c] + cs)[0] == c && ([c] + cs)[1..] == cs;
  }

  /** find on a list whose first child has the tag. */
  lemma FindFirst(c: Node, cs: seq<Node>, tag: string)
    requires c.tag == tag
    ensures Find([c] + cs, tag) == Some(c)
  {
    assert ([c] + cs)[0] == c;
  }

  /** find on a list whose second child is the first with the tag. */
  lemma FindSecond(c: Node, b: Node, cs: seq<Node>, tag: string)
    requires c.tag != tag && b.tag == tag
    ensures Find([c] + [b] + cs, tag) == Some(b)
  {
    assert ([c] + [b] + cs)[0] == c;
    assert ([c] + [b] + cs)[1..] == [b] + cs;
    FindFirst(b, cs, tag);
  }

  /** find returns the child at position i when it is the first with
      the tag. */
  lemma {:induction false} FindAt(cs: seq<Node>, i: nat, tag: string)
    requires i < |cs| && cs[i].tag == tag
    requires forall j | 0 <= j < i :: cs[j].tag != tag
    ensures Find(cs, tag) == Some(cs[i])
  {
    if i > 0 {
      FindAt(cs[1..], i - 1, tag);
    }
  }

  /** When every child has the tag, findall returns all of them. */
  lemma {:induction false} FindAllEvery(cs: seq<Node>, tag: string)
    requires forall i | 0 <= i < |cs| :: cs[i].tag == tag
    ensures FindAll(cs, tag) == cs
  {
    if |cs| > 0 {
      FindAllEvery(cs[1..], tag);
    }
  }

  /** When no child has the tag, findall is empty. */
  lemma {:induction false} FindAllNone(cs: seq<Node>, tag: string)
    requires forall i | 0 <= i < |cs| :: cs[i].tag != tag
    ensures FindAll(cs, tag) == []
  {
    if |cs| > 0 {
      FindAllNone(cs[1..], tag);
    }
  }

  /** findall over a run of children with the tag between children
      without it. */
  lemma FindAllSegment(pre: seq<Node>, mid: seq<Node>, post: seq<Node>, tag: string)
    requires forall i | 0 <= i < |pre| :: pre[i].tag != tag
    requires forall i | 0 <= i < |mid| :: mid[i].tag == tag
    requires forall i | 0 <= i < |post| :: post[i].tag != tag
    ensures FindAll(pre + mid + post, tag) == mid
  {
    FindAllAppend(pre + mid, post, tag);
    FindAllAppend(pre, mid, tag);
    FindAllNone(pre, tag);
    FindAllNone(post, tag);
    FindAllEvery(mid, tag);
  }

  /** The children of an element written as one child, then a run of
      children with a second tag, then a run with a third. */
  lemma ThreeRuns(c: Node, mid: seq<Node>, post: seq<Node>, midTag: string, postTag: string)
    requires c.tag != midTag && c.tag != postTag && midTag != postTag
    requires forall i | 0 <= i < |mid| :: mid[i].tag == midTag
    requires forall i | 0 <= i < |post| :: post[i].tag == postTag
    ensures Find([c] + mid + post, c.tag) == Some(c)
    ensures FindAll([c] + mid + post, midTag) == mid
    ensures FindAll([c] + mid + post, postTag) == post
  {
    FindAllSegment([c], mid, post, midTag);
    LastRun([c] + mid, post, postTag);
    FirstOfThree(c, mid, post);
  }

  lemma FirstOfThree(c: Node, mid: seq<Node>, post: seq<Node>)
    ensures Find([c] + mid + post, c.tag) == Some(c)
  {
    assert [c] + mid + post == [c] + (mid + post);
    FindFirst(c, mid + post, c.tag);
  }

  lemma LastRun(pre: seq<Node>, post: seq<Node>, tag: string)
    requires forall i | 0 <= i < |pre| :: pre[i].tag != tag
    requires forall i | 0 <= i < |post| :: post[i].tag == tag
    ensures FindAll(pre + post, tag) == post
  {
    FindAllAppend(pre, post, tag);
    FindAllNone(pre, tag);
    FindAllEvery(post, tag);
  }

  /** find over one child, at most one child with the tag, and children
      without it. */
  lemma OptionalSecond(c: Node, bs: seq<Node>, ts: seq<Node>, tag: string)
    requires |bs| <= 1 && c.tag != tag
    requires forall i | 0 <= i < |bs| :: bs[i].tag == tag
    requires forall i | 0 <= i < |ts| :: ts[i].tag != tag
    ensures Find([c] + bs + ts, tag) == if |bs| == 1 then Some(bs[0]) else None
  {
    if |bs| == 1 {
      assert bs == [bs[0]];
      FindSecond(c, bs[0], ts, tag);
    } else {
      assert [c] + bs + ts == [c] + ts;
      assert forall x | x in [c] + ts :: x.tag != tag;
    }
  }

  /** findall over three parts none of which has the tag. */
  lemma AbsentFromThree(c: Node, bs: seq<Node>, ts: seq<Node>, tag: string)
    requires c.tag != tag
    requires forall i | 0 <= i < |bs| :: bs[i].tag != tag
    requires forall i | 0 <= i < |ts| :: ts[i].tag != tag
    ensures FindAll([c] + bs + ts, tag) == []
  {
    var cs := [c] + bs + ts;
    assert forall i | 0 <= i < |cs| :: cs[i] == c || cs[i] in bs || cs[i] in ts;
    FindAllNone(cs, tag);
  }

  /** The tags of every descendant of n, n itself excluded
      (iterdescendants). */
  function DescendantTags(n: Node): set<string> {
    TagsBelow(n.children)
  }

  function TagsBelow(cs: seq<Node>): set<string> {
    if |cs| == 0 then {} else {cs[0].tag} + DescendantTags(cs[0]) + TagsBelow(cs[1..])
  }

  lemma {:induction false} TagsBelowMember(cs: seq<Node>, t: string)
    ensures t in TagsBelow(cs) <==> exists c | c in cs :: t == c.tag || t in DescendantTags(c)
  {
    if |cs| > 0 {
      TagsBelowMember(cs[1..], t);
      assert forall c | c in cs :: c == cs[0] || c in cs[1..];
    }
  }

  /** Every node of out is matched by a node of inp with the same tag and
      no fewer descendant tags. */
  predicate Covered(out: seq<Node>, inp: seq<Node>) {
    forall c | c in out :: exists d | d in inp :: d.tag == c.tag && DescendantTags(c) <= DescendantTags(d)
  }

  lemma CoveredWeaken(out: seq<Node>, a: seq<Node>, b: seq<Node>)
    requires Covered(out, a) && forall x | x in a :: x in b
    ensures Covered(out, b)
  {
  }

  /** Covered, matching each node of out with the node of xs at the same
      position. */
  lemma CoveredPointwise(out: seq<Node>, xs: seq<Node>, inp: seq<Node>)
    requires |out| <= |xs|
    requires forall i | 0 <= i < |out| :: xs[i] in inp && out[i].tag == xs[i].tag && DescendantTags(out[i]) <= DescendantTags(xs[i])
    ensures Covered(out, inp)
  {
    forall c | c in out ensures exists d | d in inp :: d.tag == c.tag && DescendantTags(c) <= DescendantTags(d) {
      var i :| 0 <= i < |out| && out[i] == c;
      assert xs[i] in inp;
    }
  }

  /** An element with two children, each matched by a child of n, has no
      descendant tag that n lacks. */
  lemma PairWithin(out: Node, n: Node, x: Node, y: Node)
    requires |out.children| == 2 && x in n.children && y in n.children
    requires out.children[0].tag == x.tag && DescendantTags(out.children[0]) <= DescendantTags(x)
    requires out.children[1].tag == y.tag && DescendantTags(out.children[1]) <= DescendantTags(y)
    ensures DescendantTags(out) <= DescendantTags(n)
  {
    CoveredPointwise(out.children, [x, y], n.children);
    TagsWithin(out, n);
  }

  lemma CoveredAppend(a: seq<Node>, b: seq<Node>, inp: seq<Node>)
    requires Covered(a, inp) && Covered(b, inp)
    ensures Covered(a + b, inp)
  {
    assert forall c | c in a + b :: c in a || c in b;
  }

  /** When every child of a is matched by a child of b, a has no
      descendant tag that b lacks. */
  lemma TagsWithin(a: Node, b: Node)
    requires Covered(a.children, b.children)
    ensures DescendantTags(a) <= DescendantTags(b)
  {
    forall t | t in DescendantTags(a) ensures t in DescendantTags(b) {
      TagsBelowMember(a.children, t);
      var c :| c in a.children && (t == c.tag || t in DescendantTags(c));
      var d :| d in b.children && d.tag == c.tag && DescendantTags(c) <= DescendantTags(d);
      TagsBelowMember(b.children, t);
    }
  }
}
