/** page/elements/reading_order/group.py, ordered_group.py and
    unordered_group.py: the group tree of a reading order. An ordered group
    holds indexed children (OrderedGroupIndexed, UnorderedGroupIndexed,
    RegionRefIndexed) and looks them up by index; an unordered group holds
    plain children (OrderedGroup, UnorderedGroup, RegionRef). The two
    kinds of group parse each other, so they share one module. */
module Groups {
  import opened Wrappers
  import opened Errors
  import opened Xml
  import opened Strings
  import opened IndexMaps
  import opened RegionRefs

  datatype GroupKind = Ordered | Unordered

  /** A node of the group tree: a group (Group, with the index of
      GroupIndexed when it has one) or a region reference. */
  datatype RoNode =
    | Group(kind: GroupKind, id: string, caption: Option<string>, children: seq<RoNode>, index: Option<int>)
    | Ref(ref: RegionRef)

  /** The three kinds of child a group collects, in the order it collects
      them. */
  datatype ChildKind = GroupChild(groupKind: GroupKind) | RefChild


  /** The tag of a group kind without an index, which also names the
      element in the errors of Group._from_element. */
  function GroupTag(kind: GroupKind): string {
    match kind
    case Ordered => "OrderedGroup"
    case Unordered => "UnorderedGroup"
  }

  /** The tag of each kind of child, plain or indexed. */
  function ChildTag(k: ChildKind, indexed: bool): string {
    match k
    case GroupChild(kind) => if indexed then GroupTag(kind) + "Indexed" else GroupTag(kind)
    case RefChild => if indexed then RegionRefIndexedTag else RegionRefTag
  }

  /** The six tags are distinct. */
  lemma ChildTagsDistinct(k: ChildKind, ix: bool, l: ChildKind, jx: bool)
    ensures ChildTag(k, ix) == ChildTag(l, jx) <==> k == l && ix == jx
  {
    var s, t := ChildTag(k, ix), ChildTag(l, jx);
    if k != l || ix != jx {
      assert s[|s| - 3] != t[|t| - 3] || s[0] != t[0] || |s| != |t|;
    }
  }

  function KindOf(g: RoNode): ChildKind {
    match g
    case Group(kind, _, _, _, _) => GroupChild(kind)
    case Ref(_) => RefChild
  }

  /** The index a node is looked up by in an ordered group. */
  function IndexOf(g: RoNode): Option<int> {
    match g
    case Group(_, _, _, _, index) => index
    case Ref(r) => r.index
  }

  /** from_element of the child class for kind k, indexed or not. The
      indexed group classes check the index attribute before they parse
      the group itself. */
  function ChildFromElement(k: ChildKind, indexed: bool, x: Node): (r: Parse<RoNode>)
    ensures k.GroupChild? && indexed ==>
      var idx := RequiredInt(x, ChildTag(k, true), "index");
      (idx.Err? ==> r == Err(idx.error)) &&
      (idx.Ok? ==> r == match GroupFromElement(x, k.groupKind)
                        case Err(e) => Err(e)
                        case Ok(g) => Ok(g.(index := Some(idx.value))))
    ensures k.GroupChild? && !indexed ==> r == GroupFromElement(x, k.groupKind)
    ensures k.RefChild? ==> r == match RefParse(x, indexed) case Err(e) => Err(e) case Ok(v) => Ok(Ref(v))
    decreases x, 3
  {
    match k
    case RefChild =>
      var ref :- RefParse(x, indexed);
      Ok(Ref(ref))
    case GroupChild(kind) =>
      if indexed then
        var index :- RequiredInt(x, ChildTag(k, true), "index");
        var g :- GroupFromElement(x, kind);
        Ok(g.(index := Some(index)))
      else GroupFromElement(x, kind)
  }

  /** Every child of n in xs parsed as kind k. */
  function ParseEach(n: Node, xs: seq<Node>, k: ChildKind, indexed: bool): (rs: seq<Parse<RoNode>>)
    requires forall x | x in xs :: x in n.children
    ensures |rs| == |xs|
    ensures forall i | 0 <= i < |xs| :: xs[i] in n.children && rs[i] == ChildFromElement(k, indexed, xs[i])
    decreases n, 0
  {
    seq(|xs|, i requires 0 <= i < |xs| => assert xs[i] in n.children; ChildFromElement(k, indexed, xs[i]))
  }

  /** The children of kind k: one findall loop of from_element. */
  function ChildrenOfKind(n: Node, k: ChildKind, indexed: bool): Parse<seq<RoNode>>
    decreases n, 1
  {
    Collect(ParseEach(n, FindAll(n.children, ChildTag(k, indexed)), k, indexed))
  }

  /** OrderedGroup.from_element and UnorderedGroup.from_element: the id and
      caption, then the three findall loops, so that the children are
      grouped by kind (ordered groups, then unordered groups, then region
      references) and are in document order within each kind. An
      ordered group collects the indexed classes, an unordered group the
      plain ones. */
  function GroupFromElement(n: Node, kind: GroupKind): (r: Parse<RoNode>)
    ensures "id" !in n.attrs ==> r == Err(MissingAttribute(GroupTag(kind), "id"))
    ensures r.Ok? ==> r.value.Group? && r.value.kind == kind && r.value.index.None?
    ensures r.Ok? ==> r.value.id == n.attrs["id"] && r.value.caption == Get(n, "caption")
    decreases n, 2
  {
    var id :- RequiredAttribute(n, GroupTag(kind), "id");
    var caption := Get(n, "caption");
    var indexed := kind == Ordered;
    var ordered :- ChildrenOfKind(n, GroupChild(Ordered), indexed);
    var unordered :- ChildrenOfKind(n, GroupChild(Unordered), indexed);
    var refs :- ChildrenOfKind(n, RefChild, indexed);
    Ok(Group(kind, id, caption, ordered + unordered + refs, None))
  }

  /** One findall loop of from_element: append the parse of each child of
      kind k, raising at the first that fails. */
  method ParseKind(n: Node, k: ChildKind, indexed: bool) returns (r: Parse<seq<RoNode>>)
    ensures r == ChildrenOfKind(n, k, indexed)
  {
    var xs := FindAll(n.children, ChildTag(k, indexed));
    ghost var results := ParseEach(n, xs, k, indexed);
    var children: seq<RoNode> := [];
    for i := 0 to |xs|
      invariant |children| == i
      invariant forall j | 0 <= j < i :: results[j] == Ok(children[j])
    {
      var child := ChildFromElement(k, indexed, xs[i]);
      assert child == results[i];
      if child.Err? {
        FirstFailureAt(results, i);
        return Err(child.error);
      }
      children := children + [child.value];
    }
    CollectAllOk(results, children);
    return Ok(children);
  }

  /** With the id present, a group parses exactly when its three findall
      loops do: the first loop that fails gives the error, and otherwise
      the children are the three loops' results in order. */
  lemma GroupFromElementSteps(n: Node, kind: GroupKind)
    requires "id" in n.attrs
    ensures var r := GroupFromElement(n, kind);
      var ordered := ChildrenOfKind(n, GroupChild(Ordered), kind == Ordered);
      var unordered := ChildrenOfKind(n, GroupChild(Unordered), kind == Ordered);
      var refs := ChildrenOfKind(n, RefChild, kind == Ordered);
      (ordered.Err? ==> r == Err(ordered.error)) &&
      (ordered.Ok? && unordered.Err? ==> r == Err(unordered.error)) &&
      (ordered.Ok? && unordered.Ok? && refs.Err? ==> r == Err(refs.error)) &&
      (ordered.Ok? && unordered.Ok? && refs.Ok? ==>
        r.Ok? && r.value.children == ordered.value + unordered.value + refs.value)
  {
  }

  /** from_element of a group as the source writes it: the header, then
      the three append loops. */
  method ParseGroup(n: Node, kind: GroupKind) returns (r: Parse<RoNode>)
    ensures r == GroupFromElement(n, kind)
  {
    var id := Get(n, "id");
    if id.None? {
      return Err(MissingAttribute(GroupTag(kind), "id"));
    }
    var indexed := kind == Ordered;
    var ordered := ParseKind(n, GroupChild(Ordered), indexed);
    if ordered.Err? {
      return Err(ordered.error);
    }
    var unordered := ParseKind(n, GroupChild(Unordered), indexed);
    if unordered.Err? {
      return Err(unordered.error);
    }
    var refs := ParseKind(n, RefChild, indexed);
    if refs.Err? {
      return Err(refs.error);
    }
    return Ok(Group(kind, id.value, Get(n, "caption"), ordered.value + unordered.value + refs.value, None));
  }

  /** The attributes to_element sets: id, then index for an indexed class,
      then caption when there is one. */
  function GroupAttrs(id: string, caption: Option<string>, index: Option<int>): (a: map<string, string>)
    ensures a.Keys == {"id"} + (if index.Some? then {"index"} else {}) + (if caption.Some? then {"caption"} else {})
    ensures a["id"] == id
    ensures index.Some? ==> a["index"] == IntToString(index.value)
    ensures caption.Some? ==> a["caption"] == caption.value
  {
    var withIndex := if index.Some? then map["id" := id, "index" := IntToString(index.value)] else map["id" := id];
    if caption.Some? then withIndex["caption" := caption.value] else withIndex
  }

  /** to_element of every class: a group writes its tag and attributes and
      then its children in list order; a reference writes itself. */
  function RoToElement(g: RoNode): (n: Node)
    ensures n.tag == ChildTag(KindOf(g), IndexOf(g).Some?)
    decreases g, 1
  {
    match g
    case Ref(r) => RefToElement(r)
    case Group(kind, id, caption, children, index) =>
      Element(ChildTag(GroupChild(kind), index.Some?), GroupAttrs(id, caption, index), RoNodes(children))
  }

  function RoNodes(gs: seq<RoNode>): (ns: seq<Node>)
    ensures |ns| == |gs|
    ensures forall i | 0 <= i < |gs| :: ns[i] == RoToElement(gs[i])
    decreases gs, 0
  {
    if |gs| == 0 then [] else [RoToElement(gs[0])] + RoNodes(gs[1..])
  }

  /** to_element of a group as the source writes it: the attributes, then
      a loop appending each child's element. */
  method GroupToNode(g: RoNode) returns (n: Node)
    requires g.Group?
    ensures n == RoToElement(g)
  {
    var attrs := GroupAttrs(g.id, g.caption, g.index);
    var children: seq<Node> := [];
    for i := 0 to |g.children|
      invariant children == RoNodes(g.children[..i])
    {
      assert RoNodes(g.children[..i + 1]) == RoNodes(g.children[..i]) + [RoToElement(g.children[i])];
      children := children + [RoToElement(g.children[i])];
    }
    assert g.children[..|g.children|] == g.children;
    n := Element(ChildTag(GroupChild(g.kind), g.index.Some?), attrs, children);
  }

  /** OrderedGroup's index over its children, built as IndexedElement
      builds it. */
  function GroupIndex(g: RoNode): (r: Parse<IndexTable<RoNode>>)
    requires g.Group?
    ensures r.Ok? <==> forall j | 0 <= j < |g.children| :: IndexOf(g.children[j]).Some?
    ensures r.Err? ==> r.error == MissingIndex
    ensures r.Ok? ==> Valid(r.value) && Keyed(r.value, IndexOf)
  {
    IndexingFails(g.children, IndexOf);
    Indexing(g.children, IndexOf)
  }

  /** OrderedGroup.get_from_index(i): the last child with index i (a later
      duplicate overwrites an earlier one), or None when no child has it. */
  function GetFromIndex(g: RoNode, i: int): (r: Option<RoNode>)
    requires g.Group? && GroupIndex(g).Ok?
    ensures r.None? <==> forall j | 0 <= j < |g.children| :: IndexOf(g.children[j]) != Some(i)
    ensures r.Some? ==> exists j :: IsLastWithIndex(g.children, IndexOf, i, j) && r.value == g.children[j]
  {
    IndexingLookup(g.children, IndexOf, i);
    Lookup(GroupIndex(g).value, i)
  }
}
