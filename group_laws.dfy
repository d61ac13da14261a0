/** What the group parsers and serialisers promise together: parsed groups
    are well formed, well-formed groups are read back from their elements,
    an ordered group's index always builds, and re-serialisation adds no
    descendant tag. */
module GroupLaws {
  import opened Wrappers
  import opened Errors
  import opened Xml
  import opened Strings
  import opened IndexMaps
  import opened RegionRefs
  import opened Groups

  /** Position of a node's kind in the order the parser collects kinds. */
  function Rank(g: RoNode): nat {
    match g
    case Group(Ordered, _, _, _, _) => 0
    case Group(Unordered, _, _, _, _) => 1
    case Ref(_) => 2
  }

  /** The children are grouped by kind: ordered groups, then unordered
      groups, then region references. */
  predicate GroupedByKind(cs: seq<RoNode>) {
    forall i, j | 0 <= i < j < |cs| :: Rank(cs[i]) <= Rank(cs[j])
  }

  /** The children of kind k, in list order. */
  function OfKind(cs: seq<RoNode>, k: ChildKind): seq<RoNode> {
    if |cs| == 0 then []
    else (if KindOf(cs[0]) == k then [cs[0]] else []) + OfKind(cs[1..], k)
  }

  /** The values the parsers produce: a node carries an index exactly when
      its parent is an ordered group (indexed), and every group's children
      are grouped by kind. */
  predicate RoWellFormed(g: RoNode, indexed: bool)
    decreases g
  {
    IndexOf(g).Some? == indexed &&
    (g.Group? ==>
      GroupedByKind(g.children) &&
      forall c | c in g.children :: RoWellFormed(c, g.kind == Ordered))
  }

  /** OfKind keeps exactly the children of kind k. */
  lemma {:induction false} OfKindMembers(cs: seq<RoNode>, k: ChildKind)
    ensures forall c | c in OfKind(cs, k) :: c in cs && KindOf(c) == k
  {
    if |cs| > 0 {
      OfKindMembers(cs[1..], k);
    }
  }

  lemma {:induction false} NoneOfKind(cs: seq<RoNode>, k: ChildKind)
    requires forall i | 0 <= i < |cs| :: KindOf(cs[i]) != k
    ensures OfKind(cs, k) == []
  {
    if |cs| > 0 {
      NoneOfKind(cs[1..], k);
    }
  }

  /** Children grouped by kind are the concatenation of their kinds. */
  lemma {:induction false} GroupedSplit(cs: seq<RoNode>)
    requires GroupedByKind(cs)
    ensures OfKind(cs, GroupChild(Ordered)) + OfKind(cs, GroupChild(Unordered)) + OfKind(cs, RefChild) == cs
  {
    if |cs| > 0 {
      GroupedTail(cs);
      GroupedSplit(cs[1..]);
      SplitCons(cs[0], cs[1..]);
      assert [cs[0]] + cs[1..] == cs;
    }
  }

  /** The tail of grouped children is grouped and ranks no lower than the
      head. */
  lemma GroupedTail(cs: seq<RoNode>)
    requires |cs| > 0 && GroupedByKind(cs)
    ensures GroupedByKind(cs[1..])
    ensures forall i | 0 <= i < |cs| - 1 :: Rank(cs[0]) <= Rank(cs[1..][i])
  {
    var rest := cs[1..];
    forall i, j | 0 <= i < j < |rest| ensures Rank(rest[i]) <= Rank(rest[j]) {
      assert rest[i] == cs[i + 1] && rest[j] == cs[j + 1];
    }
    forall i | 0 <= i < |rest| ensures Rank(cs[0]) <= Rank(rest[i]) {
      assert rest[i] == cs[i + 1];
    }
  }

  /** One step of GroupedSplit: the head joins the run of its kind. */
  lemma SplitCons(c: RoNode, rest: seq<RoNode>)
    requires forall i | 0 <= i < |rest| :: Rank(c) <= Rank(rest[i])
    requires OfKind(rest, GroupChild(Ordered)) + OfKind(rest, GroupChild(Unordered)) + OfKind(rest, RefChild) == rest
    ensures OfKind([c] + rest, GroupChild(Ordered)) + OfKind([c] + rest, GroupChild(Unordered)) + OfKind([c] + rest, RefChild) == [c] + rest
  {
    var k0, k1, k2 := GroupChild(Ordered), GroupChild(Unordered), RefChild;
    var a, b, r := OfKind(rest, k0), OfKind(rest, k1), OfKind(rest, k2);
    match c
    case Group(Ordered, _, _, _, _) =>
      OfKindSame(c, rest, k0);
      OfKindOther(c, rest, k1);
      OfKindOther(c, rest, k2);
      ConsAssoc(c, a, b, r);
    case Group(Unordered, _, _, _, _) =>
      NoneOfKind(rest, k0);
      OfKindOther(c, rest, k0);
      OfKindSame(c, rest, k1);
      OfKindOther(c, rest, k2);
      ConsAssoc(c, [], b, r);
    case Ref(_) =>
      NoneOfKind(rest, k0);
      NoneOfKind(rest, k1);
      OfKindOther(c, rest, k0);
      OfKindOther(c, rest, k1);
      OfKindSame(c, rest, k2);
      ConsAssoc(c, [], [], r);
  }

  lemma OfKindSame(c: RoNode, rest: seq<RoNode>, k: ChildKind)
    requires KindOf(c) == k
    ensures OfKind([c] + rest, k) == [c] + OfKind(rest, k)
  {
    assert ([c] + rest)[0] == c && ([c] + rest)[1..] == rest;
  }

  lemma OfKindOther(c: RoNode, rest: seq<RoNode>, k: ChildKind)
    requires KindOf(c) != k
    ensures OfKind([c] + rest, k) == OfKind(rest, k)
  {
    assert ([c] + rest)[0] == c && ([c] + rest)[1..] == rest;
    assert [] + OfKind(rest, k) == OfKind(rest, k);
  }

  lemma ConsAssoc<T>(c: T, a: seq<T>, b: seq<T>, r: seq<T>)
    ensures ([c] + a) + b + r == [c] + (a + b + r)
    ensures [] + ([c] + b) + r == [c] + ([] + b + r)
    ensures [] + [] + ([c] + r) == [c] + ([] + [] + r)
  {
  }

  lemma {:induction false} OfKindAppend(a: seq<RoNode>, b: seq<RoNode>, k: ChildKind)
    ensures OfKind(a + b, k) == OfKind(a, k) + OfKind(b, k)
  {
    if |a| == 0 {
      assert a + b == b;
      assert [] + OfKind(b, k) == OfKind(b, k);
    } else {
      var c, t := a[0], a[1..];
      assert a == [c] + t;
      assert a + b == [c] + (t + b);
      OfKindAppend(t, b, k);
      if KindOf(c) == k {
        OfKindSame(c, t + b, k);
        OfKindSame(c, t, k);
        assert [c] + (OfKind(t, k) + OfKind(b, k)) == ([c] + OfKind(t, k)) + OfKind(b, k);
      } else {
        OfKindOther(c, t + b, k);
        OfKindOther(c, t, k);
      }
    }
  }

  lemma {:induction false} OfKindAll(cs: seq<RoNode>, k: ChildKind)
    requires forall i | 0 <= i < |cs| :: KindOf(cs[i]) == k
    ensures OfKind(cs, k) == cs
  {
    if |cs| > 0 {
      OfKindAll(cs[1..], k);
      OfKindSame(cs[0], cs[1..], k);
      assert [cs[0]] + cs[1..] == cs;
    }
  }

  /** The children of each kind in runs of the three kinds are that run. */
  lemma OfKindOfRuns(a: seq<RoNode>, b: seq<RoNode>, c: seq<RoNode>, k: ChildKind)
    requires forall i | 0 <= i < |a| :: KindOf(a[i]) == GroupChild(Ordered)
    requires forall i | 0 <= i < |b| :: KindOf(b[i]) == GroupChild(Unordered)
    requires forall i | 0 <= i < |c| :: KindOf(c[i]) == RefChild
    ensures OfKind(a + b + c, k) == match k
      case GroupChild(Ordered) => a
      case GroupChild(Unordered) => b
      case RefChild => c
  {
    OfKindAppend(a + b, c, k);
    OfKindAppend(a, b, k);
    match k
    case GroupChild(Ordered) =>
      OfKindAll(a, k);
      NoneOfKind(b, k);
      NoneOfKind(c, k);
      assert a + [] + [] == a;
    case GroupChild(Unordered) =>
      NoneOfKind(a, k);
      OfKindAll(b, k);
      NoneOfKind(c, k);
      assert [] + b + [] == b;
    case RefChild =>
      NoneOfKind(a, k);
      NoneOfKind(b, k);
      OfKindAll(c, k);
      assert [] + [] + c == c;
  }

  /** Concatenated runs of the three kinds are grouped by kind. */
  lemma GroupedConcat(a: seq<RoNode>, b: seq<RoNode>, c: seq<RoNode>)
    requires forall i | 0 <= i < |a| :: KindOf(a[i]) == GroupChild(Ordered)
    requires forall i | 0 <= i < |b| :: KindOf(b[i]) == GroupChild(Unordered)
    requires forall i | 0 <= i < |c| :: KindOf(c[i]) == RefChild
    ensures GroupedByKind(a + b + c)
  {
    var cs := a + b + c;
    assert forall i | 0 <= i < |cs| :: Rank(cs[i]) == if i < |a| then 0 else if i < |a| + |b| then 1 else 2;
  }

  lemma RoNodesAppend(a: seq<RoNode>, b: seq<RoNode>)
    ensures RoNodes(a + b) == RoNodes(a) + RoNodes(b)
  {
    assert forall i | 0 <= i < |a + b| :: (a + b)[i] == if i < |a| then a[i] else b[i - |a|];
  }

  /** findall over written children with every child indexed alike picks
      the elements of one kind. */
  lemma {:induction false} FindAllOfKind(cs: seq<RoNode>, k: ChildKind, indexed: bool)
    requires forall i | 0 <= i < |cs| :: IndexOf(cs[i]).Some? == indexed
    ensures FindAll(RoNodes(cs), ChildTag(k, indexed)) == RoNodes(OfKind(cs, k))
  {
    if |cs| > 0 {
      var c, rest := cs[0], cs[1..];
      FindAllOfKind(rest, k, indexed);
      assert RoNodes(cs) == [RoToElement(c)] + RoNodes(rest);
      FindAllCons(RoToElement(c), RoNodes(rest), ChildTag(k, indexed));
      ChildTagsDistinct(KindOf(c), indexed, k, indexed);
      if KindOf(c) == k {
        assert OfKind(cs, k) == [c] + OfKind(rest, k);
      } else {
        assert OfKind(cs, k) == OfKind(rest, k);
        assert [] + RoNodes(OfKind(rest, k)) == RoNodes(OfKind(rest, k));
      }
    }
  }

  /** A well-formed node is read back from its element by the parser of
      its kind: from_element(to_element(g)) == g. */
  lemma {:induction false} RoRoundTrip(g: RoNode, indexed: bool)
    requires RoWellFormed(g, indexed)
    ensures ChildFromElement(KindOf(g), indexed, RoToElement(g)) == Ok(g)
    decreases g, 2
  {
    match g
    case Ref(r) =>
      RefRoundTrip(r);
    case Group(kind, id, caption, children, index) =>
      var n := RoToElement(g);
      GroupRoundTrip(g);
      if indexed {
        ParseIntToString(index.value);
        assert RequiredInt(n, ChildTag(KindOf(g), true), "index") == Ok(index.value);
      }
  }

  /** The group part of a written group, read back without its index. */
  lemma {:induction false} GroupRoundTrip(g: RoNode)
    requires g.Group? && RoWellFormed(g, g.index.Some?)
    ensures GroupFromElement(RoToElement(g), g.kind) == Ok(g.(index := None))
    decreases g, 1
  {
    var n := RoToElement(g);
    var ix := g.kind == Ordered;
    var cs := g.children;
    assert n.children == RoNodes(cs);
    KindRoundTrip(g, GroupChild(Ordered));
    KindRoundTrip(g, GroupChild(Unordered));
    KindRoundTrip(g, RefChild);
    GroupedSplit(cs);
    assert Get(n, "caption") == g.caption;
  }

  /** The children of one kind of a written group are read back. */
  lemma {:induction false} KindRoundTrip(g: RoNode, k: ChildKind)
    requires g.Group? && RoWellFormed(g, g.index.Some?)
    ensures ChildrenOfKind(RoToElement(g), k, g.kind == Ordered) == Ok(OfKind(g.children, k))
    decreases g, 0
  {
    var n := RoToElement(g);
    var ix := g.kind == Ordered;
    var sub := OfKind(g.children, k);
    assert forall i | 0 <= i < |g.children| :: IndexOf(g.children[i]).Some? == ix by {
      forall i | 0 <= i < |g.children| ensures IndexOf(g.children[i]).Some? == ix {
        assert g.children[i] in g.children;
      }
    }
    FindAllOfKind(g.children, k, ix);
    var xs := FindAll(n.children, ChildTag(k, ix));
    assert xs == RoNodes(sub);
    var rs := ParseEach(n, xs, k, ix);
    OfKindMembers(g.children, k);
    forall i | 0 <= i < |sub| ensures rs[i] == Ok(sub[i]) {
      var c := sub[i];
      assert c in g.children && KindOf(c) == k;
      assert RoWellFormed(c, ix);
      assert xs[i] == RoToElement(c);
      RoRoundTrip(c, ix);
    }
    CollectAllOk(rs, sub);
  }

  /** Every parsed node is well formed and of the kind it was parsed as:
      its index is present exactly when its parent is ordered, and its
      children come grouped by kind. */
  lemma {:induction false} ParsedWellFormed(k: ChildKind, indexed: bool, x: Node)
    requires ChildFromElement(k, indexed, x).Ok?
    ensures RoWellFormed(ChildFromElement(k, indexed, x).value, indexed)
    ensures KindOf(ChildFromElement(k, indexed, x).value) == k
    decreases x, 2
  {
    match k
    case RefChild =>
    case GroupChild(kind) =>
      GroupParsedWellFormed(x, kind);
  }

  lemma {:induction false} GroupParsedWellFormed(n: Node, kind: GroupKind)
    requires GroupFromElement(n, kind).Ok?
    ensures RoWellFormed(GroupFromElement(n, kind).value, false)
    decreases n, 1
  {
    var g := GroupFromElement(n, kind).value;
    var ix := kind == Ordered;
    var a := ChildrenOfKind(n, GroupChild(Ordered), ix).value;
    var b := ChildrenOfKind(n, GroupChild(Unordered), ix).value;
    var c := ChildrenOfKind(n, RefChild, ix).value;
    KindParsedWellFormed(n, GroupChild(Ordered), ix);
    KindParsedWellFormed(n, GroupChild(Unordered), ix);
    KindParsedWellFormed(n, RefChild, ix);
    assert g.children == a + b + c;
    GroupedConcat(a, b, c);
  }

  lemma {:induction false} KindParsedWellFormed(n: Node, k: ChildKind, indexed: bool)
    requires ChildrenOfKind(n, k, indexed).Ok?
    ensures var vs := ChildrenOfKind(n, k, indexed).value;
      forall i | 0 <= i < |vs| :: RoWellFormed(vs[i], indexed) && KindOf(vs[i]) == k
    decreases n, 0
  {
    var xs := FindAll(n.children, ChildTag(k, indexed));
    var rs := ParseEach(n, xs, k, indexed);
    var vs := ChildrenOfKind(n, k, indexed).value;
    forall i | 0 <= i < |vs| ensures RoWellFormed(vs[i], indexed) && KindOf(vs[i]) == k {
      assert rs[i] == Ok(vs[i]) && xs[i] in n.children;
      ParsedWellFormed(k, indexed, xs[i]);
    }
  }

  /** The children of a parsed group come grouped by kind, and those of
      each kind are the parses of the elements with that kind's tag, in
      document order; elements with any other tag are ignored. */
  lemma GroupChildrenByKind(n: Node, kind: GroupKind, k: ChildKind)
    requires GroupFromElement(n, kind).Ok?
    ensures var g := GroupFromElement(n, kind).value;
      var ix := kind == Ordered;
      var xs := FindAll(n.children, ChildTag(k, ix));
      GroupedByKind(g.children) &&
      |OfKind(g.children, k)| == |xs| &&
      forall i | 0 <= i < |xs| :: ChildFromElement(k, ix, xs[i]) == Ok(OfKind(g.children, k)[i])
  {
    GroupParsedWellFormed(n, kind);
    GroupKindRun(n, kind, k);
    KindChildrenParsed(n, k, kind == Ordered);
  }

  /** The children of kind k of a parsed group are the run its findall
      loop collected. */
  lemma GroupKindRun(n: Node, kind: GroupKind, k: ChildKind)
    requires GroupFromElement(n, kind).Ok?
    ensures ChildrenOfKind(n, k, kind == Ordered).Ok?
    ensures OfKind(GroupFromElement(n, kind).value.children, k) == ChildrenOfKind(n, k, kind == Ordered).value
  {
    var g := GroupFromElement(n, kind).value;
    var ix := kind == Ordered;
    var a := ChildrenOfKind(n, GroupChild(Ordered), ix).value;
    var b := ChildrenOfKind(n, GroupChild(Unordered), ix).value;
    var c := ChildrenOfKind(n, RefChild, ix).value;
    KindParsedWellFormed(n, GroupChild(Ordered), ix);
    KindParsedWellFormed(n, GroupChild(Unordered), ix);
    KindParsedWellFormed(n, RefChild, ix);
    assert g.children == a + b + c;
    OfKindOfRuns(a, b, c, k);
    match k
    case GroupChild(Ordered) =>
      assert OfKind(g.children, k) == a;
    case GroupChild(Unordered) =>
      assert OfKind(g.children, k) == b;
    case RefChild =>
      assert OfKind(g.children, k) == c;
  }

  /** The children of one kind are the parses of the elements with its
      tag, position by position. */
  lemma KindChildrenParsed(n: Node, k: ChildKind, ix: bool)
    requires ChildrenOfKind(n, k, ix).Ok?
    ensures var xs := FindAll(n.children, ChildTag(k, ix));
      var vs := ChildrenOfKind(n, k, ix).value;
      |vs| == |xs| && forall i | 0 <= i < |xs| :: ChildFromElement(k, ix, xs[i]) == Ok(vs[i])
  {
    var xs := FindAll(n.children, ChildTag(k, ix));
    var rs := ParseEach(n, xs, k, ix);
    assert ChildrenOfKind(n, k, ix) == Collect(rs);
  }

  /** Parsing is idempotent: the element written for a parsed node parses
      back to the same node. */
  lemma ParseIdempotent(k: ChildKind, indexed: bool, x: Node)
    requires ChildFromElement(k, indexed, x).Ok?
    ensures var v := ChildFromElement(k, indexed, x).value;
      ChildFromElement(k, indexed, RoToElement(v)) == Ok(v)
  {
    var v := ChildFromElement(k, indexed, x).value;
    ParsedWellFormed(k, indexed, x);
    RoRoundTrip(v, indexed);
  }

  /** Re-serialising a parsed node writes no descendant tag the input
      element lacked. */
  lemma {:induction false} ParsedTagsWithin(k: ChildKind, indexed: bool, x: Node)
    requires ChildFromElement(k, indexed, x).Ok?
    ensures DescendantTags(RoToElement(ChildFromElement(k, indexed, x).value)) <= DescendantTags(x)
    decreases x, 3
  {
    match k
    case RefChild =>
      assert RoToElement(ChildFromElement(k, indexed, x).value).children == [];
    case GroupChild(kind) =>
      GroupTagsWithin(x, kind);
  }

  lemma {:induction false} GroupTagsWithin(n: Node, kind: GroupKind)
    requires GroupFromElement(n, kind).Ok?
    ensures Covered(RoNodes(GroupFromElement(n, kind).value.children), n.children)
    ensures forall idx :: DescendantTags(RoToElement(GroupFromElement(n, kind).value.(index := idx))) <= DescendantTags(n)
    decreases n, 2
  {
    var g := GroupFromElement(n, kind).value;
    var ix := kind == Ordered;
    var a := ChildrenOfKind(n, GroupChild(Ordered), ix).value;
    var b := ChildrenOfKind(n, GroupChild(Unordered), ix).value;
    var c := ChildrenOfKind(n, RefChild, ix).value;
    KindCovered(n, GroupChild(Ordered), ix);
    KindCovered(n, GroupChild(Unordered), ix);
    KindCovered(n, RefChild, ix);
    assert g.children == a + b + c;
    RoNodesAppend(a + b, c);
    RoNodesAppend(a, b);
    CoveredAppend(RoNodes(a), RoNodes(b), n.children);
    CoveredAppend(RoNodes(a) + RoNodes(b), RoNodes(c), n.children);
    forall idx ensures DescendantTags(RoToElement(g.(index := idx))) <= DescendantTags(n) {
      TagsWithin(RoToElement(g.(index := idx)), n);
    }
  }

  lemma {:induction false} KindCovered(n: Node, k: ChildKind, indexed: bool)
    requires ChildrenOfKind(n, k, indexed).Ok?
    ensures Covered(RoNodes(ChildrenOfKind(n, k, indexed).value), n.children)
    decreases n, 1
  {
    var xs := FindAll(n.children, ChildTag(k, indexed));
    var vs := ChildrenOfKind(n, k, indexed).value;
    var out := RoNodes(vs);
    forall i | 0 <= i < |out| ensures xs[i] in n.children && out[i].tag == xs[i].tag && DescendantTags(out[i]) <= DescendantTags(xs[i]) {
      ChildCovered(n, k, indexed, i);
    }
    CoveredPointwise(out, xs, n.children);
  }

  /** The i-th parsed child of kind k is written with the tag of the
      element it came from, and no more descendant tags. */
  lemma {:induction false} ChildCovered(n: Node, k: ChildKind, indexed: bool, i: int)
    requires ChildrenOfKind(n, k, indexed).Ok?
    requires 0 <= i < |ChildrenOfKind(n, k, indexed).value|
    ensures var x := FindAll(n.children, ChildTag(k, indexed))[i];
      var o := RoToElement(ChildrenOfKind(n, k, indexed).value[i]);
      x in n.children && o.tag == x.tag && DescendantTags(o) <= DescendantTags(x)
    decreases n, 0
  {
    var xs := FindAll(n.children, ChildTag(k, indexed));
    var rs := ParseEach(n, xs, k, indexed);
    var vs := ChildrenOfKind(n, k, indexed).value;
    assert rs[i] == Ok(vs[i]) && xs[i] in n.children;
    ParsedWellFormed(k, indexed, xs[i]);
    ParsedTagsWithin(k, indexed, xs[i]);
  }

  /** An ordered group always builds its index, because every child it
      parses carries one; get_from_index(i) is then the last child with
      index i, and None exactly when no child has it. */
  lemma OrderedGroupIndex(n: Node, i: int)
    requires GroupFromElement(n, Ordered).Ok?
    ensures var g := GroupFromElement(n, Ordered).value;
      GroupIndex(g).Ok? &&
      (GetFromIndex(g, i).None? <==> forall j | 0 <= j < |g.children| :: IndexOf(g.children[j]) != Some(i)) &&
      (GetFromIndex(g, i).Some? ==> exists j :: IsLastWithIndex(g.children, IndexOf, i, j) && GetFromIndex(g, i).value == g.children[j])
  {
    var g := GroupFromElement(n, Ordered).value;
    GroupParsedWellFormed(n, Ordered);
    assert forall j | 0 <= j < |g.children| :: IndexOf(g.children[j]).Some? by {
      forall j | 0 <= j < |g.children| ensures IndexOf(g.children[j]).Some? {
        assert g.children[j] in g.children;
      }
    }
  }
}
