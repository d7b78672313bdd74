/** Virtual nodes: the declarative description of one tree node plus the host
    node it is currently bound to. The description (key, tag, text, style,
    children) is fixed once built; only `elm`, the bound host node, is
    assigned by the reconciler. */
module VNodes {
  import opened Util
  import opened Dom

  type Key = string

  class VNode {
    /** `key`, compared only between an old and a new node. */
    const key: Option<Key>
    /** The element type; absent for a text node. */
    const tag: Option<string>
    /** The text of a text node. */
    const text: Option<string>
    /** `props.style`: the attributes set when the element is created. */
    const style: map<string, string>
    /** The child list; `None` when the node has no `children` property. The
        reconciler only reads child lists, so they are immutable here. */
    const children: Option<seq<VNode>>
    /** The bound host node; `None` until created or matched. */
    var elm: Option<Handle>

    /** The virtual nodes of this subtree, this one included. */
    ghost const Nodes: set<VNode>
    /** Strictly greater than the height of every child. */
    ghost const height: nat

    /** A finite tree: a text node has no children, children are shorter,
        sibling subtrees share no node, and `Nodes` is exactly this node and
        the nodes of its children's subtrees. */
    ghost predicate Valid()
      decreases height, 1
    {
      this in Nodes &&
      (text.Some? ==> children.None?) &&
      (children.None? ==> Nodes == {this}) &&
      (children.Some? ==>
         Nodes == {this} + Family(children.value) &&
         this !in Family(children.value) &&
         ValidChildren(children.value, height))
    }

    constructor Text(key: Option<Key>, text: string)
      ensures Valid() && Nodes == {this}
      ensures this.key == key && this.text == Some(text) && tag.None? && children.None? && elm.None?
    {
      this.key := key;
      this.tag := None;
      this.text := Some(text);
      this.style := map[];
      this.children := None;
      this.elm := None;
      this.Nodes := {this};
      this.height := 0;
    }

    constructor Element(key: Option<Key>, tag: Option<string>, style: map<string, string>, children: Option<seq<VNode>>, ghost h: nat)
      requires children.Some? ==> ValidChildren(children.value, h)
      ensures Valid() && elm.None?
      ensures this.key == key && this.tag == tag && text.None? && this.style == style && this.children == children
    {
      this.key := key;
      this.tag := tag;
      this.text := None;
      this.style := style;
      this.children := children;
      this.elm := None;
      this.Nodes := if children.None? then {this} else {this} + Family(children.value);
      this.height := h;
    }
  }

  /** The nodes of the subtrees of the elements of `cs`. */
  ghost function Family(cs: seq<VNode>): set<VNode>
  {
    set i, d | 0 <= i < |cs| && d in cs[i].Nodes :: d
  }

  /** The elements of `cs` are valid trees lower than `h` whose node sets are
      pairwise disjoint. */
  ghost predicate ValidChildren(cs: seq<VNode>, h: nat)
    decreases h, 0
  {
    (forall i :: 0 <= i < |cs| ==> cs[i].height < h && cs[i].Valid()) &&
    (forall i, j :: 0 <= i < j < |cs| ==> cs[i].Nodes !! cs[j].Nodes)
  }

  lemma ChildValid(v: VNode, i: int)
    requires v.Valid() && v.children.Some? && 0 <= i < |v.children.value|
    ensures v.children.value[i].Valid() && v.children.value[i].height < v.height
    ensures v.children.value[i] in v.Nodes && v.children.value[i].Nodes <= v.Nodes
    ensures v !in v.children.value[i].Nodes
  {
    FamilyHas(v.children.value, i);
  }

  /** A list of valid trees no two of which share a node, such as the child
      list of a valid node. */
  ghost predicate Forest(vs: seq<VNode>) {
    (forall i :: 0 <= i < |vs| ==> vs[i].Valid()) &&
    (forall i, j :: 0 <= i < j < |vs| ==> vs[i].Nodes !! vs[j].Nodes)
  }

  /** The child list of a valid node is a forest of lower trees whose nodes
      are all below the node. */
  lemma ChildrenForest(v: VNode)
    requires v.Valid() && v.children.Some?
    ensures Forest(v.children.value) && Family(v.children.value) <= v.Nodes && v !in Family(v.children.value)
    ensures forall i :: 0 <= i < |v.children.value| ==> v.children.value[i].height < v.height
  {
  }

  /** Every element of `vs` is a valid tree (they may share nodes). */
  ghost predicate AllValid(vs: seq<VNode>) {
    forall i :: 0 <= i < |vs| ==> vs[i].Valid()
  }

  /** The nodes strictly below `v`. */
  ghost function Below(v: VNode): set<VNode> {
    if v.children.Some? then Family(v.children.value) else {}
  }

  lemma FamilyHas(cs: seq<VNode>, i: int)
    requires 0 <= i < |cs|
    ensures cs[i].Nodes <= Family(cs)
  {
  }

  /** The nodes of the subtrees of `cs[s]` up to and including `cs[e]`. */
  ghost function FamilyIn(cs: seq<VNode>, s: int, e: int): set<VNode>
  {
    set i, d | s <= i <= e && 0 <= i < |cs| && d in cs[i].Nodes :: d
  }

  lemma FamilyInHas(cs: seq<VNode>, s: int, e: int, i: int)
    requires s <= i <= e && 0 <= i < |cs|
    ensures cs[i].Nodes <= FamilyIn(cs, s, e)
  {
  }

  lemma FamilyInSub(cs: seq<VNode>, s: int, e: int)
    ensures FamilyIn(cs, s, e) <= Family(cs)
  {
  }

  /** In a forest, a tree outside the range is not among the nodes of the
      range. */
  lemma FamilyInOutside(cs: seq<VNode>, s: int, e: int, j: int)
    requires Forest(cs) && 0 <= j < |cs| && (j < s || e < j)
    ensures cs[j] !in FamilyIn(cs, s, e)
  {
    forall i | s <= i <= e && 0 <= i < |cs|
      ensures cs[j] !in cs[i].Nodes
    {
      assert cs[j] in cs[j].Nodes;
    }
  }

  /** `sameVnode`: the identity test. It looks at the key and the tag only,
      so a vnode matches itself and two matched vnodes ask the host for the
      same element type. */
  function SameVnode(a: VNode, b: VNode): (r: bool)
    ensures a == b ==> r
    ensures r ==> a.key == b.key && TagName(a.tag) == TagName(b.tag)
  {
    a.key == b.key && a.tag == b.tag
  }

  /** The tag name `document.createElement` receives; JavaScript turns an
      absent tag into the string "undefined". */
  function TagName(tag: Option<string>): string {
    if tag.Some? then tag.value else "undefined"
  }

  /** The host tree below `v.elm` shows `v`: same kind, text, tag and
      attributes, and the children's host nodes, in array order, are exactly
      the host node's children, each showing its virtual child. */
  ghost predicate Mounted(v: VNode, ns: Nodes)
    requires v.Valid()
    reads v.Nodes
    decreases v.height
  {
    v.elm.Some? && v.elm.value in ns &&
    var n := ns[v.elm.value];
    if v.text.Some? then
      n.kind == TextNode(v.text.value) && n.attrs == map[] && n.kids == []
    else
      n.kind == ElementNode(TagName(v.tag)) && n.attrs == v.style &&
      (v.children.None? ==> n.kids == []) &&
      (v.children.Some? ==>
         |n.kids| == |v.children.value| &&
         forall i :: 0 <= i < |v.children.value| ==>
           (ChildValid(v, i);
            v.children.value[i].elm == Some(n.kids[i]) && Mounted(v.children.value[i], ns)))
  }

  /** Every node of `v`'s subtree is bound to a host node in `[lo, hi)`. */
  ghost predicate BoundIn(v: VNode, lo: int, hi: int)
    reads v.Nodes
  {
    forall d :: d in v.Nodes ==> d.elm.Some? && lo <= d.elm.value < hi
  }

  /** The two stores agree on the content of every node in `[lo, hi)`. */
  ghost predicate AgreeOn(ns: Nodes, ns': Nodes, lo: int, hi: int) {
    forall k :: k in ns && lo <= k < hi ==> k in ns' && SameContent(ns[k], ns'[k])
  }

  /** A mounted subtree stays mounted under any change to the store that
      leaves the contents of its own host nodes alone. */
  lemma {:induction false} MountedStable(v: VNode, ns: Nodes, ns': Nodes, lo: int, hi: int)
    requires v.Valid() && Mounted(v, ns) && BoundIn(v, lo, hi) && AgreeOn(ns, ns', lo, hi)
    ensures Mounted(v, ns')
    decreases v.height
  {
    if v.children.Some? {
      forall i | 0 <= i < |v.children.value|
        ensures Mounted(v.children.value[i], ns')
      {
        ChildValid(v, i);
        MountedStable(v.children.value[i], ns, ns', lo, hi);
      }
    }
  }

  /** `sameVnode` is an equivalence: reflexive, symmetric and transitive. */
  lemma SameVnodeEquivalence(a: VNode, b: VNode, c: VNode)
    ensures SameVnode(a, a)
    ensures SameVnode(a, b) ==> SameVnode(b, a)
    ensures SameVnode(a, b) && SameVnode(b, c) ==> SameVnode(a, c)
  {
  }

  /** `sameVnode` never looks at text, style or children: replacing one
      argument by any node with the same key and tag gives the same answer. */
  lemma SameVnodeIgnoresContent(a: VNode, b: VNode, b': VNode)
    requires b'.key == b.key && b'.tag == b.tag
    ensures SameVnode(a, b) == SameVnode(a, b')
  {
  }
}
