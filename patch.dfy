/** The reconciler of src/patch.js: it materialises virtual trees as host
    nodes and patches an old virtual tree into a new one, rewriting the host
    tree in place. A JavaScript exception (a DOM call that throws, or a
    property read on `undefined`) is modelled by returning `ok == false`:
    everything the call did before the throw stays done. */
module Patch {
  import opened Util
  import opened Dom
  import opened VNodes
  import opened Diff

  /** The `style` loop of `createElm`: each style entry becomes an attribute
      of the host element `h`. */
  method SetStyle(host: Host, h: Handle, style: map<string, string>)
    requires host.Valid() && h in host.nodes && host.nodes[h].kind.ElementNode?
    modifies host
    ensures host.Valid() && host.next == old(host.next)
    ensures host.nodes == old(host.nodes)[h := old(host.nodes)[h].(attrs := old(host.nodes)[h].attrs + style)]
  {
    var keys := style.Keys;
    ghost var attrs0 := host.nodes[h].attrs;
    ghost var done := attrs0;
    while keys != {}
      invariant keys <= style.Keys
      invariant done.Keys == attrs0.Keys + (style.Keys - keys)
      invariant forall k :: k in done ==> done[k] == if k in style.Keys - keys then style[k] else attrs0[k]
      invariant host.Valid() && host.next == old(host.next)
      invariant host.nodes == old(host.nodes)[h := old(host.nodes)[h].(attrs := done)]
      decreases keys
    {
      var k :| k in keys;
      var ok := host.SetAttribute(h, k, style[k]);
      done := done[k := style[k]];
      keys := keys - {k};
    }
    assert done == attrs0 + style;
  }

  /** Once every child is built under the element `h` showing `v`'s tag and
      style, `v` is mounted and its subtree is bound in `[h, hi)`. */
  lemma BuiltMounted(v: VNode, ns: Nodes, h: Handle, hi: Handle)
    requires v.Valid() && v.children.Some? && v.text.None? && v.elm == Some(h) && h < hi && h in ns
    requires ns[h].kind == ElementNode(TagName(v.tag)) && ns[h].attrs == v.style
    requires Forest(v.children.value) && Built(v.children.value, 0, |v.children.value|, ns[h].kids, ns, h + 1, hi)
    ensures Mounted(v, ns) && BoundIn(v, h, hi)
  {
    var cs := v.children.value;
    forall d | d in v.Nodes
      ensures d.elm.Some? && h <= d.elm.value < hi
    {
      if d != v {
        var j :| 0 <= j < |cs| && d in cs[j].Nodes;
      }
    }
  }

  /** The loop state of `createElm` after its first `i` children: `h` is
      the detached element showing `v`'s tag and style, and those children
      are built under it, in order. */
  ghost predicate Building(host: Host, v: VNode, h: Handle, i: int)
    requires v.children.Some? && 0 <= i <= |v.children.value| && Forest(v.children.value)
    reads host, v, Family(v.children.value)
  {
    host.Valid() && h < host.next && v.elm == Some(h) && h in host.nodes &&
    host.nodes[h].kind == ElementNode(TagName(v.tag)) && host.nodes[h].attrs == v.style &&
    host.nodes[h].parent.None? &&
    Built(v.children.value, 0, i, host.nodes[h].kids, host.nodes, h + 1, host.next)
  }

  /** `createElm`: builds the host subtree for `v`, binding `elm` on `v` and
      on every node below it. */
  method CreateElm(host: Host, v: VNode) returns (h: Handle)
    requires host.Valid() && v.Valid()
    modifies host, v.Nodes`elm
    decreases v.height, 2
    ensures host.Valid() && old(host.next) <= h < host.next
    ensures v.elm == Some(h) && h in host.nodes && host.nodes[h].parent.None?
    ensures BoundIn(v, old(host.next), host.next)
    ensures forall k :: k in old(host.nodes) ==> k in host.nodes && host.nodes[k] == old(host.nodes[k])
    ensures Mounted(v, host.nodes)
  {
    if v.text.Some? {
      // isPrimitive(vnode.text): a text node
      h := host.CreateTextNode(v.text.value);
      v.elm := Some(h);
      return;
    }
    h := host.CreateElement(TagName(v.tag));
    v.elm := Some(h);
    SetStyle(host, h, v.style);
    assert map[] + v.style == v.style;
    if v.children.Some? {
      // children.forEach(node => elm.appendChild(createElm(node)))
      ChildrenForest(v);
      var i := 0;
      while i < |v.children.value|
        invariant 0 <= i <= |v.children.value|
        invariant Building(host, v, h, i)
        invariant forall k :: k in old(host.nodes) ==> k in host.nodes && host.nodes[k] == old(host.nodes[k])
      {
        AppendBuiltChild(host, v, h, i);
        i := i + 1;
      }
      BuiltMounted(v, host.nodes, h, host.next);
    }
  }

  /** One turn of the `forEach` in `createElm`: create child `i` and append
      it to `h`. */
  method AppendBuiltChild(host: Host, v: VNode, h: Handle, i: int)
    requires v.Valid() && v.children.Some? && 0 <= i < |v.children.value| && Forest(v.children.value)
    requires Building(host, v, h, i)
    modifies host, v.children.value[i].Nodes`elm
    decreases v.height, 1
    ensures Building(host, v, h, i + 1)
    ensures forall k :: k in old(host.nodes) && k != h ==> k in host.nodes && host.nodes[k] == old(host.nodes[k])
  {
    ghost var before := host.nodes;
    ghost var lo := host.next;
    ChildValid(v, i);
    var c := BuildNext(host, v.children.value, 0, i, before[h].kids, h + 1, v.height);
    LinkChild(host, v, h, i, c, before, lo);
  }

  /** The `appendChild` of one turn of the `forEach` in `createElm`: the
      child `c` just built for `v.children[i]` joins the element `h`. */
  method LinkChild(host: Host, v: VNode, h: Handle, i: int, c: Handle, ghost before: Nodes, ghost lo: Handle)
    requires v.Valid() && v.children.Some? && 0 <= i < |v.children.value| && Forest(v.children.value)
    requires host.Valid() && lo <= c < host.next && v.elm == Some(h) && h < lo
    requires h in before && before[h].kind == ElementNode(TagName(v.tag)) && before[h].attrs == v.style
    requires before[h].parent.None? && forall q :: q in before ==> q < lo
    requires Built(v.children.value, 0, i, before[h].kids, before, h + 1, lo)
    requires v.children.value[i].elm == Some(c) && c in host.nodes && host.nodes[c].parent.None?
    requires Mounted(v.children.value[i], host.nodes) && BoundIn(v.children.value[i], lo, host.next)
    requires forall k :: k in before ==> k in host.nodes && host.nodes[k] == before[k]
    modifies host
    ensures Building(host, v, h, i + 1)
    ensures forall k :: k in before && k != h ==> k in host.nodes && host.nodes[k] == before[k]
  {
    LinkStep(v.children.value, i, c, h, before, host.nodes, lo, host.next);
    var ok := host.AppendChild(h, c);
  }

  /** The store after appending the child `c` just built to `h`. */
  lemma LinkStep(cs: seq<VNode>, i: int, c: Handle, h: Handle, before: Nodes, mid: Nodes, lo: Handle, hi: Handle)
    requires 0 <= i < |cs| && Forest(cs) && lo <= c < hi && h < lo
    requires h in before && before[h].kind.ElementNode? && forall q :: q in before ==> q < lo
    requires Built(cs, 0, i, before[h].kids, before, h + 1, lo)
    requires cs[i].elm == Some(c) && c in mid && mid[c].parent.None?
    requires Mounted(cs[i], mid) && BoundIn(cs[i], lo, hi)
    requires forall k :: k in before ==> k in mid && mid[k] == before[k]
    ensures PreInsertOk(mid, h, c, None)
    ensures var after := Inserted(mid, h, c, None);
            after[h] == before[h].(kids := before[h].kids + [c]) &&
            (forall q :: q in before && q != h ==> after[q] == before[q]) &&
            Built(cs, 0, i + 1, after[h].kids, after, h + 1, hi)
  {
    BuiltBounds(cs, 0, i, before[h].kids, before, h + 1, lo);
    AppendExtendsRun(before[h].kids, c, h, before, mid, lo, hi);
    ChildLinked(cs, i, c, before, mid, Inserted(mid, h, c, None), h, lo, hi);
  }

  /** `createElm(vs[i])` while the run `vs[s..i)` is built: the run stays
      built, since it lies outside the subtree of `vs[i]`. (`ht` bounds the
      height of `vs[i]`, for termination.) */
  method BuildNext(host: Host, vs: seq<VNode>, s: int, i: int, ghost xs: seq<Handle>, ghost lo: Handle, ghost ht: nat)
    returns (c: Handle)
    requires Forest(vs) && 0 <= s <= i < |vs| && vs[i].height < ht && host.Valid()
    requires Built(vs, s, i, xs, host.nodes, lo, host.next)
    modifies host, vs[i].Nodes`elm
    decreases ht, 0
    ensures host.Valid() && old(host.next) <= c < host.next
    ensures vs[i].elm == Some(c) && c in host.nodes && host.nodes[c].parent.None?
    ensures Mounted(vs[i], host.nodes) && BoundIn(vs[i], old(host.next), host.next)
    ensures forall k :: k in old(host.nodes) ==> k in host.nodes && host.nodes[k] == old(host.nodes[k])
    ensures Built(vs, s, i, xs, old(host.nodes), lo, old(host.next))
  {
    ghost var before := host.nodes;
    ghost var hi := host.next;
    label Pre:
    c := CreateElm(host, vs[i]);
    forall j | s <= j < i
      ensures vs[j].elm == Some(xs[j - s]) && BoundIn(vs[j], lo, hi) && Mounted(vs[j], before)
    {
      assert forall d :: d in vs[j].Nodes ==> d !in vs[i].Nodes && d.elm == old@Pre(d.elm);
      assert old@Pre(vs[j].elm == Some(xs[j - s]) && BoundIn(vs[j], lo, hi) && Mounted(vs[j], before));
    }
  }

  /** Appending the freshly built child `i`, bound to the detached `c`, to
      the element `h` that holds the first `i` children extends them by
      one. */
  lemma ChildLinked(cs: seq<VNode>, i: int, c: Handle, before: Nodes, mid: Nodes, after: Nodes, h: Handle, lo: Handle, hi: Handle)
    requires 0 <= i < |cs| && Forest(cs) && h in before && h < lo && lo <= c < hi
    requires Built(cs, 0, i, before[h].kids, before, h + 1, lo)
    requires cs[i].elm == Some(c) && Mounted(cs[i], mid) && BoundIn(cs[i], lo, hi)
    requires h in after && after[h].kids == before[h].kids + [c]
    requires AgreeOn(before, after, h + 1, lo) && AgreeOn(mid, after, lo, hi)
    ensures Built(cs, 0, i + 1, after[h].kids, after, h + 1, hi)
  {
    AddStep(cs, 0, i, before[h].kids, c, before, mid, after, h + 1, lo, hi);
  }

  // ---------------------------------------------------------------------------
  // addVnodes

  /** The run `vs[s..k)` is built: `vs[j]` is bound to `xs[j - s]`, the
      whole subtree of each is bound to host nodes in `[lo, hi)`, and each is
      mounted in `ns`. */
  ghost predicate Built(vs: seq<VNode>, s: int, k: int, xs: seq<Handle>, ns: Nodes, lo: int, hi: int)
    requires 0 <= s <= k <= |vs| && Forest(vs)
    reads Family(vs)
  {
    |xs| == k - s &&
    forall j :: s <= j < k ==>
      vs[j].elm == Some(xs[j - s]) && BoundIn(vs[j], lo, hi) && Mounted(vs[j], ns)
  }

  /** The host nodes of a built run lie in its range. */
  lemma BuiltBounds(vs: seq<VNode>, s: int, k: int, xs: seq<Handle>, ns: Nodes, lo: int, hi: int)
    requires 0 <= s <= k <= |vs| && Forest(vs) && Built(vs, s, k, xs, ns, lo, hi)
    ensures forall i :: 0 <= i < |xs| ==> lo <= xs[i] < hi
  {
    forall i | 0 <= i < |xs|
      ensures lo <= xs[i] < hi
    {
      assert vs[s + i] in vs[s + i].Nodes;
    }
  }

  /** What `insertBefore(node, refNode)` on `parentElm` checks that does not
      depend on the node: `parentElm` is an element of the store and the
      reference is absent or one of its children. */
  predicate AddOk(ns: Nodes, p: Option<Handle>, ref: Option<Handle>) {
    p.Some? && p.value in ns && ns[p.value].kind.ElementNode? &&
    (ref.None? || ref.value in ns[p.value].kids)
  }

  /** `addVnodes(parentElm, vs, refNode, s, e)`: creates `vs[s]` up to and
      including `vs[e]` in order and inserts each before `ref` (at the end of
      `parentElm` when `ref` is absent), so the new nodes form one run in
      array order. `parentElm.insertBefore` is looked up before `createElm`
      runs, so an undefined parent fails before anything is created; a bad
      parent or reference fails after the first `createElm`. (A handle that
      names no node of the store stands for no JavaScript value; it is refused
      up front like `undefined`.) */
  method AddVnodes(host: Host, p: Option<Handle>, vs: seq<VNode>, ref: Option<Handle>, s: int, e: int)
    returns (ok: bool, ghost xs: seq<Handle>)
    requires host.Valid() && Forest(vs) && (s <= e ==> 0 <= s && e < |vs|)
    modifies host, FamilyIn(vs, s, e)`elm
    ensures host.Valid() && old(host.next) <= host.next
    ensures s > e ==> ok && xs == [] && host.nodes == old(host.nodes) && host.next == old(host.next)
    ensures s <= e ==> ok == AddOk(old(host.nodes), p, ref)
    ensures ok && s <= e ==>
              p.value in host.nodes && host.nodes[p.value] == old(host.nodes)[p.value].(kids := InsertSeqBefore(old(host.nodes)[p.value].kids, xs, ref)) &&
              Built(vs, s, e + 1, xs, host.nodes, old(host.next), host.next)
    ensures forall k :: k in old(host.nodes) && (!ok || p.None? || k != p.value) ==>
              k in host.nodes && host.nodes[k] == old(host.nodes)[k]
  {
    ok := true;
    xs := [];
    ghost var before := host.nodes;
    ghost var lo := host.next;
    if s > e {
      return;
    }
    if p.None? || p.value !in host.nodes {
      // `parentElm.insertBefore` on undefined: a TypeError
      ok := false;
      return;
    }
    ClosedKids(before, p.value);
    var i := s;
    while i <= e
      invariant s <= i <= e + 1
      invariant Adding(host, p, vs, ref, s, i, xs, before, lo)
      decreases e - i
    {
      FamilyInHas(vs, s, e, i);
      ghost var c;
      ok, c := AddOne(host, p.value, vs, ref, s, i, xs, before, lo);
      if !ok {
        return;
      }
      xs := xs + [c];
      i := i + 1;
    }
    assert i == e + 1 && i > s;
    assert p.value in host.nodes;
  }

  /** One turn of the loop of `addVnodes`:
      `parentElm.insertBefore(createElm(vs[i]), ref)`. */
  method AddOne(host: Host, p: Handle, vs: seq<VNode>, ref: Option<Handle>, s: int, i: int, ghost xs: seq<Handle>,
                ghost before: Nodes, ghost lo: Handle) returns (ok: bool, ghost c: Handle)
    requires Forest(vs) && 0 <= s <= i < |vs| && Adding(host, Some(p), vs, ref, s, i, xs, before, lo)
    modifies host, vs[i].Nodes`elm
    ensures ok == AddOk(before, Some(p), ref)
    ensures ok ==> Adding(host, Some(p), vs, ref, s, i + 1, xs + [c], before, lo)
    ensures !ok ==> i == s && host.Valid() && old(host.next) <= host.next &&
                    forall k :: k in before ==> k in host.nodes && host.nodes[k] == before[k]
  {
    ghost var pre := host.nodes;
    ghost var lo1 := host.next;
    var h := BuildNext(host, vs, s, i, xs, lo, vs[i].height + 1);
    c := h;
    ghost var mid := host.nodes;
    BuiltBounds(vs, s, i, xs, pre, lo, lo1);
    AddExtendsRun(xs, c, p, ref, i == s, before, pre, mid, lo, lo1, host.next);
    ghost var after := mid;
    if AddOk(before, Some(p), ref) {
      after := Inserted(mid, p, c, ref);
      AddStep(vs, s, i, xs, c, pre, mid, after, lo, lo1, host.next);
    }
    ok := InsertBuilt(host, p, h, ref, vs, s, i + 1, xs + [c], lo, after);
  }

  /** The state of the loop of `addVnodes` after `vs[s..i)`: the run `xs` of
      their host nodes sits in `parentElm` before `ref`, and every other node
      of the store `before` the loop is as it was. */
  ghost predicate Adding(host: Host, p: Option<Handle>, vs: seq<VNode>, ref: Option<Handle>, s: int, i: int,
                         xs: seq<Handle>, before: Nodes, lo: Handle)
    requires Forest(vs) && 0 <= s <= i <= |vs|
    reads host, Family(vs)
  {
    host.Valid() && lo <= host.next && (forall q :: q in before ==> q < lo) &&
    (p.Some? ==> p.value in before && forall q :: q in before[p.value].kids ==> q < lo) &&
    Built(vs, s, i, xs, host.nodes, lo, host.next) &&
    (forall k :: k in before ==> k in host.nodes && (i == s || p.None? || k != p.value ==> host.nodes[k] == before[k])) &&
    (i > s ==> AddOk(before, p, ref) &&
               host.nodes[p.value] == before[p.value].(kids := InsertSeqBefore(before[p.value].kids, xs, ref)))
  }

  /** `parentElm.insertBefore(c, ref)` for one turn of `addVnodes`; `after`
      is the store the insertion produces when it succeeds, in which the run
      is already built. */
  method InsertBuilt(host: Host, p: Handle, c: Handle, ref: Option<Handle>, ghost vs: seq<VNode>, ghost s: int, ghost k: int,
                     ghost xs: seq<Handle>, ghost lo: Handle, ghost after: Nodes) returns (ok: bool)
    requires host.Valid() && Forest(vs) && 0 <= s <= k <= |vs|
    requires PreInsertOk(host.nodes, p, c, ref) ==> after == Inserted(host.nodes, p, c, ref) && Built(vs, s, k, xs, after, lo, host.next)
    modifies host
    ensures host.Valid() && host.next == old(host.next)
    ensures ok == PreInsertOk(old(host.nodes), p, c, ref)
    ensures ok ==> host.nodes == after && Built(vs, s, k, xs, host.nodes, lo, host.next)
    ensures !ok ==> host.nodes == old(host.nodes)
  {
    ok := host.InsertBefore(p, c, ref);
  }

  /** Inserting the fresh, detached `c` before `ref`, where the run `xs`
      already sits, extends the run by one and touches no other node of the
      store as it was before. */
  lemma InsertExtendsRun(xs: seq<Handle>, c: Handle, kids0: seq<Handle>, p: Handle, ref: Option<Handle>,
                         before: Nodes, mid: Nodes, lo0: Handle, lo: Handle, hi: Handle)
    requires lo0 <= lo <= c && forall q :: q in before ==> q < lo
    requires forall q :: q in kids0 ==> q < lo0
    requires forall i :: 0 <= i < |xs| ==> lo0 <= xs[i] < lo
    requires AddOk(before, Some(p), ref) && p < lo0 && before[p].kids == InsertSeqBefore(kids0, xs, ref)
    requires ref.None? || ref.value in kids0
    requires forall q :: q in before ==> q in mid && mid[q] == before[q]
    requires c in mid && mid[c].parent.None?
    ensures PreInsertOk(mid, p, c, ref)
    ensures Inserted(mid, p, c, ref)[p] == before[p].(kids := InsertSeqBefore(kids0, xs + [c], ref))
    ensures forall q :: q in before && q != p ==> Inserted(mid, p, c, ref)[q] == before[q]
    ensures AgreeOn(before, Inserted(mid, p, c, ref), lo0, lo)
    ensures AgreeOn(mid, Inserted(mid, p, c, ref), lo, hi)
  {
    assert c !in kids0 && c !in xs;
    InsertDetached(mid, p, c, ref);
    InsertSeqBeforeStep(kids0, xs, c, ref);
  }

  /** `InsertExtendsRun` for the `appendChild` calls of `createElm`, where
      the run is the whole child list. */
  lemma AppendExtendsRun(kids: seq<Handle>, c: Handle, h: Handle, before: Nodes, mid: Nodes, lo: Handle, hi: Handle)
    requires h in before && before[h].kind.ElementNode? && before[h].kids == kids && h < lo
    requires forall q :: q in before ==> q < lo
    requires forall i :: 0 <= i < |kids| ==> h + 1 <= kids[i] < lo
    requires forall q :: q in before ==> q in mid && mid[q] == before[q]
    requires lo <= c && c in mid && mid[c].parent.None?
    ensures PreInsertOk(mid, h, c, None)
    ensures Inserted(mid, h, c, None)[h] == before[h].(kids := kids + [c])
    ensures forall q :: q in before && q != h ==> Inserted(mid, h, c, None)[q] == before[q]
    ensures AgreeOn(before, Inserted(mid, h, c, None), h + 1, lo)
    ensures AgreeOn(mid, Inserted(mid, h, c, None), lo, hi)
  {
    assert InsertSeqBefore([], kids, None) == kids;
    assert InsertSeqBefore([], kids + [c], None) == kids + [c];
    InsertExtendsRun(kids, c, [], h, None, before, mid, h + 1, lo, hi);
  }

  /** `InsertExtendsRun` for one turn of `addVnodes`, where `parentElm` held
      the run `xs` before `ref` on top of its children in `before`; `first`
      says no turn has run yet. When the parent or the reference is bad the
      insertion is refused. */
  lemma AddExtendsRun(xs: seq<Handle>, c: Handle, p: Handle, ref: Option<Handle>, first: bool,
                      before: Nodes, pre: Nodes, mid: Nodes, lo: Handle, lo1: Handle, hi: Handle)
    requires (forall q :: q in before ==> q < lo) && p in before && p in pre && forall q :: q in before[p].kids ==> q < lo
    requires lo <= lo1 <= c && forall q :: q in pre ==> q < lo1
    requires forall j :: 0 <= j < |xs| ==> lo <= xs[j] < lo1
    requires first ==> xs == []
    requires forall k :: k in before && (first || k != p) ==> k in pre && pre[k] == before[k]
    requires !first ==> AddOk(before, Some(p), ref) && pre[p] == before[p].(kids := InsertSeqBefore(before[p].kids, xs, ref))
    requires forall k :: k in pre ==> k in mid && mid[k] == pre[k]
    requires c in mid && mid[c].parent.None?
    ensures PreInsertOk(mid, p, c, ref) == AddOk(before, Some(p), ref)
    ensures AddOk(before, Some(p), ref) ==>
              Inserted(mid, p, c, ref)[p] == before[p].(kids := InsertSeqBefore(before[p].kids, xs + [c], ref)) &&
              (forall q :: q in pre && q != p ==> Inserted(mid, p, c, ref)[q] == pre[q]) &&
              AgreeOn(pre, Inserted(mid, p, c, ref), lo, lo1) &&
              AgreeOn(mid, Inserted(mid, p, c, ref), lo1, hi)
  {
    if AddOk(before, Some(p), ref) {
      if first {
        assert pre[p] == before[p];
      }
      assert pre[p].kids == InsertSeqBefore(before[p].kids, xs, ref);
      InsertExtendsRun(xs, c, before[p].kids, p, ref, pre, mid, lo, lo1, hi);
    } else {
      assert pre[p] == before[p] || !first;
    }
  }

  /** Once the freshly built `vs[k]` (bound to `c`, built between `lo` and
      `hi`) is linked in by a change that leaves the contents of the built
      run's host nodes alone, the built run is one longer. */
  lemma AddStep(vs: seq<VNode>, s: int, k: int, xs: seq<Handle>, c: Handle,
                before: Nodes, mid: Nodes, after: Nodes, lo0: Handle, lo: Handle, hi: Handle)
    requires 0 <= s <= k < |vs| && Forest(vs) && lo0 <= lo <= c < hi
    requires Built(vs, s, k, xs, before, lo0, lo)
    requires vs[k].elm == Some(c) && Mounted(vs[k], mid) && BoundIn(vs[k], lo, hi)
    requires AgreeOn(before, after, lo0, lo) && AgreeOn(mid, after, lo, hi)
    ensures Built(vs, s, k + 1, xs + [c], after, lo0, hi)
  {
    var ys := xs + [c];
    forall j | s <= j < k + 1
      ensures vs[j].elm == Some(ys[j - s]) && BoundIn(vs[j], lo0, hi) && Mounted(vs[j], after)
    {
      FamilyHas(vs, j);
      if j < k {
        MountedStable(vs[j], before, after, lo0, lo);
      } else {
        MountedStable(vs[k], mid, after, lo, hi);
      }
    }
    assert |ys| == k + 1 - s;
  }


  // ---------------------------------------------------------------------------
  // removeVnodes

  /** The `elm` of every vnode of `vs`, in order. */
  ghost function Elms(vs: seq<VNode>): (r: seq<Option<Handle>>)
    reads set i | 0 <= i < |vs| :: vs[i]
    ensures |r| == |vs| && forall i :: 0 <= i < |vs| ==> r[i] == vs[i].elm
  {
    seq(|vs|, i reads set i | 0 <= i < |vs| :: vs[i] => if 0 <= i < |vs| then vs[i].elm else None)
  }

  /** The entries `elms[s..e)` that exist, in order. The end is exclusive,
      and an index outside the array reads `undefined`, which the loop of
      `removeVnodes` skips. */
  function Slots(elms: seq<Option<Handle>>, s: int, e: int): (r: seq<Option<Handle>>)
    decreases e - s
    ensures 0 <= s <= e <= |elms| ==> r == elms[s..e]
    ensures e <= s ==> r == []
  {
    if e <= s then []
    else
      var r := Slots(elms, s, e - 1) + (if 0 <= e - 1 < |elms| then [elms[e - 1]] else []);
      assert 0 <= s <= e <= |elms| ==> elms[s..e] == elms[s..e - 1] + [elms[e - 1]];
      r
  }

  /** One `parentElm.removeChild(x)`: `false` and the store unchanged when it
      throws (an undefined parent or node is a TypeError, a node that is not
      a child a NotFoundError). */
  function RemoveOne(ns: Nodes, p: Option<Handle>, x: Option<Handle>): (bool, Nodes) {
    if p.Some? && x.Some? && RemoveOk(ns, p.value, x.value) then (true, Removed(ns, p.value, x.value)) else (false, ns)
  }

  /** The removals of `xs`, one after the other, stopping at the first that
      throws. */
  function RemoveEach(ns: Nodes, p: Option<Handle>, xs: seq<Option<Handle>>): (bool, Nodes)
    decreases |xs|
  {
    if xs == [] then (true, ns)
    else
      var r := RemoveEach(ns, p, xs[..|xs| - 1]);
      if r.0 then RemoveOne(r.1, p, xs[|xs| - 1]) else r
  }

  /** The nodes named in `xs`. */
  ghost function Handles(xs: seq<Option<Handle>>): set<Handle> {
    set i | 0 <= i < |xs| && xs[i].Some? :: xs[i].value
  }

  /** `parentElm.removeChild(x)`. */
  method RemoveElm(host: Host, p: Option<Handle>, x: Option<Handle>) returns (ok: bool)
    requires host.Valid()
    modifies host
    ensures host.Valid() && host.next == old(host.next)
    ensures (ok, host.nodes) == RemoveOne(old(host.nodes), p, x)
  {
    if p.None? || x.None? {
      return false;
    }
    ok := host.RemoveChild(p.value, x.value);
  }

  /** `removeVnodes(parentElm, vs, s, e)`: removes the host node of each
      vnode in `vs[s..e)` from `parentElm`, in order. With either index
      undefined the loop test `undefined < undefined` is false and nothing
      happens. */
  method RemoveVnodes(host: Host, p: Option<Handle>, vs: seq<VNode>, s: Option<int>, e: Option<int>) returns (ok: bool)
    requires host.Valid()
    modifies host
    ensures host.Valid() && host.next == old(host.next)
    ensures (s.None? || e.None?) ==> ok && host.nodes == old(host.nodes)
    ensures s.Some? && e.Some? ==> (ok, host.nodes) == RemoveEach(old(host.nodes), p, Slots(old(Elms(vs)), s.value, e.value))
  {
    ok := true;
    if s.None? || e.None? {
      return;
    }
    ghost var base := host.nodes;
    ghost var elms := Elms(vs);
    assert elms == old(Elms(vs));
    var i := s.value;
    while i < e.value
      invariant i == s.value || s.value < i <= e.value
      invariant host.Valid() && host.next == old(host.next)
      invariant RemoveEach(base, p, Slots(elms, s.value, i)) == (true, host.nodes)
      decreases e.value - i
    {
      ok := RemoveTurn(host, p, vs, s.value, i, e.value, base, elms);
      if !ok {
        return;
      }
      i := i + 1;
    }
    assert Slots(elms, s.value, i) == Slots(elms, s.value, e.value);
  }

  /** One turn of the loop of `removeVnodes`, after the slots `[s, i)`:
      either the removals up to slot `i` all succeed, or the whole loop ends
      here with an exception. */
  method RemoveTurn(host: Host, p: Option<Handle>, vs: seq<VNode>, s: int, i: int, e: int,
                    ghost base: Nodes, ghost elms: seq<Option<Handle>>) returns (ok: bool)
    requires s <= i < e && |elms| == |vs| && (0 <= i < |vs| ==> vs[i].elm == elms[i])
    requires host.Valid() && RemoveEach(base, p, Slots(elms, s, i)) == (true, host.nodes)
    modifies host
    ensures host.Valid() && host.next == old(host.next)
    ensures ok ==> RemoveEach(base, p, Slots(elms, s, i + 1)) == (true, host.nodes)
    ensures !ok ==> RemoveEach(base, p, Slots(elms, s, e)) == (false, host.nodes)
  {
    if 0 <= i < |vs| {
      // `if (vnode) parentElm.removeChild(vnode.elm)`
      SlotPresent(base, p, elms, s, i, host.nodes);
      ok := RemoveElm(host, p, vs[i].elm);
      if !ok {
        SlotStops(base, p, elms, s, i, e, host.nodes);
      }
    } else {
      SlotAbsent(base, p, elms, s, i, host.nodes);
      ok := true;
    }
  }

  /** The removals up to slot `i + 1` are those up to slot `i` followed by
      the removal of the node in slot `i`. */
  lemma SlotPresent(base: Nodes, p: Option<Handle>, elms: seq<Option<Handle>>, s: int, i: int, ns: Nodes)
    requires s <= i && 0 <= i < |elms| && RemoveEach(base, p, Slots(elms, s, i)) == (true, ns)
    ensures RemoveEach(base, p, Slots(elms, s, i + 1)) == RemoveOne(ns, p, elms[i])
  {
    assert Slots(elms, s, i + 1) == Slots(elms, s, i) + [elms[i]];
    RemoveEachSnoc(base, p, Slots(elms, s, i), elms[i]);
  }

  /** A slot outside the array removes nothing. */
  lemma SlotAbsent(base: Nodes, p: Option<Handle>, elms: seq<Option<Handle>>, s: int, i: int, ns: Nodes)
    requires s <= i && !(0 <= i < |elms|) && RemoveEach(base, p, Slots(elms, s, i)) == (true, ns)
    ensures RemoveEach(base, p, Slots(elms, s, i + 1)) == (true, ns)
  {
    assert Slots(elms, s, i + 1) == Slots(elms, s, i);
  }

  /** A removal that throws at slot `i` ends the whole loop. */
  lemma SlotStops(base: Nodes, p: Option<Handle>, elms: seq<Option<Handle>>, s: int, i: int, e: int, ns: Nodes)
    requires s <= i < e && RemoveEach(base, p, Slots(elms, s, i + 1)) == (false, ns)
    ensures RemoveEach(base, p, Slots(elms, s, e)) == (false, ns)
  {
    SlotsSplit(elms, s, i + 1, e);
    RemoveEachStops(base, p, Slots(elms, s, i + 1), Slots(elms, i + 1, e));
  }

  /** `xs` names distinct children of `p`. */
  ghost predicate RemovableRun(ns: Nodes, p: Handle, xs: seq<Option<Handle>>)
    requires p in ns
  {
    (forall i :: 0 <= i < |xs| ==> xs[i].Some? && xs[i].value in ns[p].kids) &&
    (forall i, j :: 0 <= i < j < |xs| ==> xs[i] != xs[j])
  }

  /** `r` is `ns` once the nodes named in `xs` are taken out of `p`: `p`
      keeps its other children in their order, every removed node is
      detached, and no other node changes. */
  ghost predicate RemovedRun(ns: Nodes, p: Handle, xs: seq<Option<Handle>>, r: Nodes)
    requires p in ns
  {
    Closed(r) && r.Keys == ns.Keys &&
    r[p] == ns[p].(kids := WithoutAll(ns[p].kids, Handles(xs))) &&
    (forall c :: c in Handles(xs) ==> c in r && r[c].parent.None?) &&
    (forall k :: k in ns && k != p && k !in Handles(xs) ==> r[k] == ns[k])
  }

  /** The removals of `xs` from `p` all succeed exactly when `xs` names
      distinct children of `p`, and then they take exactly those nodes out. */
  lemma {:induction false} RemoveEachSpec(ns: Nodes, p: Handle, xs: seq<Option<Handle>>)
    requires Closed(ns) && p in ns
    ensures RemoveEach(ns, Some(p), xs).0 == RemovableRun(ns, p, xs)
    ensures RemoveEach(ns, Some(p), xs).0 ==> RemovedRun(ns, p, xs, RemoveEach(ns, Some(p), xs).1)
    decreases |xs|
  {
    if xs == [] {
      assert Handles(xs) == {};
      WithoutAllEmpty(ns[p].kids);
    } else {
      var ys := xs[..|xs| - 1];
      var x := xs[|xs| - 1];
      assert xs == ys + [x];
      RemoveEachSpec(ns, p, ys);
      var r0 := RemoveEach(ns, Some(p), ys);
      if r0.0 {
        RemoveStep(ns, p, ys, x, r0.1);
      } else {
        assert !RemovableRun(ns, p, xs);
      }
    }
  }

  /** One more removal after a run of successful ones. */
  lemma RemoveStep(ns: Nodes, p: Handle, ys: seq<Option<Handle>>, x: Option<Handle>, m: Nodes)
    requires Closed(ns) && p in ns && RemovableRun(ns, p, ys) && RemovedRun(ns, p, ys, m)
    ensures RemoveOne(m, Some(p), x).0 == RemovableRun(ns, p, ys + [x])
    ensures RemoveOne(m, Some(p), x).0 ==> RemovedRun(ns, p, ys + [x], RemoveOne(m, Some(p), x).1)
  {
    RemovableSnoc(ns, p, ys, x);
    HandlesSnoc(ys, x);
    if x.Some? {
      ClosedKids(ns, p);
      assert m[p].kids == WithoutAll(ns[p].kids, Handles(ys));
      assert RemoveOk(m, p, x.value) <==> x.value in ns[p].kids && x.value !in Handles(ys);
      if RemoveOk(m, p, x.value) {
        RemovedClosed(m, p, x.value);
        WithoutAllStep(ns[p].kids, Handles(ys), x.value);
      }
    }
  }

  lemma RemovableSnoc(ns: Nodes, p: Handle, ys: seq<Option<Handle>>, x: Option<Handle>)
    requires p in ns && RemovableRun(ns, p, ys)
    ensures RemovableRun(ns, p, ys + [x]) <==> x.Some? && x.value in ns[p].kids && x.value !in Handles(ys)
  {
    var xs := ys + [x];
    var n := |ys|;
    assert xs[n] == x;
    assert forall i :: 0 <= i < n ==> xs[i] == ys[i];
    if x.Some? && x.value in Handles(ys) {
      var i :| 0 <= i < n && ys[i].Some? && ys[i].value == x.value;
      assert xs[i] == xs[n];
    }
  }

  lemma HandlesSnoc(ys: seq<Option<Handle>>, x: Option<Handle>)
    ensures Handles(ys + [x]) == Handles(ys) + (if x.Some? then {x.value} else {})
  {
    var xs := ys + [x];
    forall h | h in Handles(xs) ensures h in Handles(ys) + (if x.Some? then {x.value} else {}) {
      var i :| 0 <= i < |xs| && xs[i].Some? && xs[i].value == h;
      if i < |ys| {
        assert ys[i] == xs[i];
      }
    }
    forall h | h in Handles(ys) ensures h in Handles(xs) {
      var i :| 0 <= i < |ys| && ys[i].Some? && ys[i].value == h;
      assert xs[i] == ys[i];
    }
    if x.Some? {
      assert xs[|ys|] == x;
    }
  }

  lemma RemoveEachSnoc(ns: Nodes, p: Option<Handle>, xs: seq<Option<Handle>>, x: Option<Handle>)
    requires RemoveEach(ns, p, xs).0
    ensures RemoveEach(ns, p, xs + [x]) == RemoveOne(RemoveEach(ns, p, xs).1, p, x)
  {
    assert (xs + [x])[..|xs|] == xs;
  }

  lemma {:induction false} SlotsSplit(elms: seq<Option<Handle>>, s: int, m: int, e: int)
    requires s <= m <= e
    ensures Slots(elms, s, e) == Slots(elms, s, m) + Slots(elms, m, e)
    decreases e - m
  {
    if e > m {
      SlotsSplit(elms, s, m, e - 1);
    }
  }

  /** Once a removal has thrown, later ones never run. */
  lemma {:induction false} RemoveEachStops(ns: Nodes, p: Option<Handle>, xs: seq<Option<Handle>>, ys: seq<Option<Handle>>)
    requires !RemoveEach(ns, p, xs).0
    ensures RemoveEach(ns, p, xs + ys) == RemoveEach(ns, p, xs)
    decreases |ys|
  {
    if ys != [] {
      assert (xs + ys)[..|xs + ys| - 1] == xs + ys[..|ys| - 1];
      RemoveEachStops(ns, p, xs, ys[..|ys| - 1]);
    } else {
      assert xs + ys == xs;
    }
  }

  // ---------------------------------------------------------------------------
  // createKeyToOldIdx

  /** `createKeyToOldIdx(children, beginIdx, endIdx)`: maps the key of each
      vnode of `children[beginIdx..endIdx)` (end excluded) to its index, a
      later index overwriting an earlier one with the same key. Reading the
      key of a missing child would throw, so the range lies in the array. */
  method CreateKeyToOldIdx(cs: seq<VNode>, b: int, e: int) returns (m: map<Option<Key>, int>)
    requires b < e ==> 0 <= b && e <= |cs|
    ensures m == KeyToOldIdx(cs, b, e)
  {
    m := map[];
    var index := b;
    while index < e
      invariant index == b || b < index <= e
      invariant m == KeyToOldIdx(cs, b, index)
      decreases e - index
    {
      m := m[cs[index].key := index];
      index := index + 1;
    }
  }

  // ---------------------------------------------------------------------------
  // patchVnode

  /** No vnode of `vs` is one of `s`. */
  ghost predicate Outside(vs: seq<VNode>, s: set<VNode>) {
    forall i :: 0 <= i < |vs| ==> vs[i] !in s
  }

  /** `after` is `before` with the host nodes of `vs`, in order, appended to
      the children of `p`, and each vnode of `vs` mounted. */
  ghost predicate AppendedRun(before: Nodes, after: Nodes, p: Handle, vs: seq<VNode>)
    reads Family(vs)
  {
    p in before && p in after &&
    after[p] == before[p].(kids := after[p].kids) &&
    |after[p].kids| == |before[p].kids| + |vs| &&
    after[p].kids[..|before[p].kids|] == before[p].kids &&
    forall j :: 0 <= j < |vs| ==>
      vs[j].Valid() && vs[j].elm == Some(after[p].kids[|before[p].kids| + j]) && Mounted(vs[j], after)
  }

  /** A whole list built and inserted with no reference node is appended. */
  lemma AppendedFromBuilt(before: Nodes, after: Nodes, p: Handle, vs: seq<VNode>, xs: seq<Handle>, lo: int, hi: int)
    requires Forest(vs) && p in before && p in after
    requires after[p] == before[p].(kids := InsertSeqBefore(before[p].kids, xs, None))
    requires Built(vs, 0, |vs|, xs, after, lo, hi)
    ensures AppendedRun(before, after, p, vs)
  {
    var n := |before[p].kids|;
    assert after[p].kids == before[p].kids + xs;
    assert after[p].kids[..n] == before[p].kids;
    forall j | 0 <= j < |vs|
      ensures vs[j].elm == Some(after[p].kids[n + j]) && Mounted(vs[j], after)
    {
      assert after[p].kids[n + j] == xs[j];
    }
  }

  /** `patchVnode(oldVnode, vnode)`: `vnode` takes over the host node of
      `oldVnode`, which is then brought up to date. Nothing else happens
      when the two are the same object. A node with text gets its text
      written when it differs (a `textContent` write on an undefined `elm`
      throws). Otherwise the child lists are reconciled: both present and
      different, by `updateChildren`; only the new one, by appending it
      whole; only the old one, by a `removeVnodes` call without indices,
      which removes nothing. */
  method PatchVnode(host: Host, oldV: VNode, newV: VNode) returns (ok: bool)
    requires host.Valid() && oldV.Valid() && newV.Valid()
    modifies host, newV.Nodes`elm
    decreases newV.height, 8
    ensures host.Valid() && old(host.next) <= host.next
    ensures newV.elm == old(oldV.elm)
    ensures oldV == newV ==> ok && host.nodes == old(host.nodes) && host.next == old(host.next)
    ensures oldV != newV && newV.text.Some? && oldV.text == newV.text ==>
              ok && host.nodes == old(host.nodes) && host.next == old(host.next)
    ensures oldV != newV && newV.text.Some? && oldV.text != newV.text ==>
              ok == (old(oldV.elm).Some? && old(oldV.elm).value in old(host.nodes)) &&
              host.nodes == if ok then TextSet(old(host.nodes), old(oldV.elm).value, newV.text.value, old(host.next))
                            else old(host.nodes)
    ensures oldV != newV && newV.text.None? && newV.children.None? ==>
              ok && host.nodes == old(host.nodes) && host.next == old(host.next)
    ensures oldV != newV && newV.text.None? && oldV.children.None? && newV.children.Some? ==>
              ok == (newV.children.value == [] || AddOk(old(host.nodes), old(oldV.elm), None)) &&
              (ok && newV.children.value != [] ==>
                 AppendedRun(old(host.nodes), host.nodes, old(oldV.elm).value, newV.children.value)) &&
              (forall k :: k in old(host.nodes) && (!ok || Some(k) != old(oldV.elm)) ==>
                 k in host.nodes && host.nodes[k] == old(host.nodes)[k])
    ensures oldV != newV && newV.text.None? && oldV.children.Some? && newV.children.Some? ==>
              (oldV.children.value == newV.children.value ==>
                 ok && host.nodes == old(host.nodes) && host.next == old(host.next)) &&
              (ok && Aligned(oldV.children.value, newV.children.value) && Outside(oldV.children.value, newV.Nodes) ==>
                 forall i :: 0 <= i < |newV.children.value| ==>
                   newV.children.value[i].elm == old(oldV.children.value[i].elm))
  {
    newV.elm := oldV.elm;
    var elm := newV.elm;
    if oldV == newV {
      return true;
    }
    if newV.text.None? {
      ok := PatchChildren(host, elm, oldV, newV);
    } else if oldV.text != newV.text {
      if elm.None? {
        // `elm.textContent = ...` on undefined: a TypeError
        ok := false;
      } else {
        ok := host.SetTextContent(elm.value, newV.text.value);
      }
    } else {
      ok := true;
    }
  }

  /** The child-list branch of `patchVnode`, on the host node `elm`. */
  method PatchChildren(host: Host, elm: Option<Handle>, oldV: VNode, newV: VNode) returns (ok: bool)
    requires host.Valid() && oldV.Valid() && newV.Valid() && newV.text.None?
    modifies host, Below(newV)`elm
    decreases newV.height, 7
    ensures host.Valid() && old(host.next) <= host.next
    ensures newV.children.None? ==> ok && host.nodes == old(host.nodes) && host.next == old(host.next)
    ensures oldV.children.None? && newV.children.Some? ==>
              ok == (newV.children.value == [] || AddOk(old(host.nodes), elm, None)) &&
              (ok && newV.children.value != [] ==> AppendedRun(old(host.nodes), host.nodes, elm.value, newV.children.value)) &&
              (forall k :: k in old(host.nodes) && (!ok || Some(k) != elm) ==>
                 k in host.nodes && host.nodes[k] == old(host.nodes)[k])
    ensures oldV.children.Some? && newV.children.Some? ==>
              (oldV.children.value == newV.children.value ==>
                 ok && host.nodes == old(host.nodes) && host.next == old(host.next)) &&
              (ok && Aligned(oldV.children.value, newV.children.value) &&
               Outside(oldV.children.value, Family(newV.children.value)) ==>
                 forall i :: 0 <= i < |newV.children.value| ==>
                   newV.children.value[i].elm == old(oldV.children.value[i].elm))
  {
    ok := true;
    if newV.children.Some? {
      var ch := newV.children.value;
      ChildrenForest(newV);
      if oldV.children.Some? {
        var oldCh := oldV.children.value;
        ChildrenForest(oldV);
        if oldCh != ch {
          ghost var trace, walked, mid, lo, newElms, oldElms, xs;
          ok, trace, walked, mid, lo, newElms, oldElms, xs := UpdateChildren(host, elm, oldCh, ch, newV.height);
        }
      } else {
        ghost var before := host.nodes;
        ghost var lo := host.next;
        ghost var xs;
        FamilyInSub(ch, 0, |ch| - 1);
        ok, xs := AddVnodes(host, elm, ch, None, 0, |ch| - 1);
        if ok && ch != [] {
          AppendedFromBuilt(before, host.nodes, elm.value, ch, xs, lo, host.next);
        }
      }
    } else if oldV.children.Some? {
      // `removeVnodes(elm, oldCh)`: with no indices the loop test
      // `undefined < undefined` fails at once
      ok := RemoveVnodes(host, elm, oldV.children.value, None, None);
    }
  }

  // ---------------------------------------------------------------------------
  // updateChildren

  /** The last step of `updateChildren`, from the store `before` the walk
      left: nothing when both lists are used up; otherwise either the rest
      `ch[s..e]` of the new list, built into the handles `xs` and inserted
      in order before the host node `newElms[s + 1]` held by `ch[s + 1]`
      (last when there is none), with no other node touched; or the host
      nodes `oldElms[s..e)` of the rest of the old list removed one at a
      time. `newElms` and `oldElms` are the host nodes of the two lists
      when the walk ended. */
  ghost predicate Finished(rest: Rest, before: Nodes, after: Nodes, ok: bool, p: Option<Handle>, ch: seq<VNode>,
                           newElms: seq<Option<Handle>>, oldElms: seq<Option<Handle>>, xs: seq<Handle>, lo: int, hi: int)
    requires Forest(ch) && |newElms| == |ch|
    reads Family(ch)
  {
    match rest
    case NoRest => ok && after == before
    case AddRest(s, e) =>
      0 <= s <= e < |ch| &&
      var ref := if s + 1 < |ch| then newElms[s + 1] else None;
      ok == AddOk(before, p, ref) &&
      (ok ==> p.value in after &&
              after[p.value] == before[p.value].(kids := InsertSeqBefore(before[p.value].kids, xs, ref)) &&
              Built(ch, s, e + 1, xs, after, lo, hi)) &&
      (forall k :: k in before && (!ok || k != p.value) ==> k in after && after[k] == before[k])
    case RemoveRest(s, e) => (ok, after) == RemoveEach(before, p, Slots(oldElms, s, e))
  }

  /** `updateChildren(parentElm, oldCh, ch)`: runs the walk `Plan(oldCh,
      ch)` turn by turn, then adds or removes what the pointers left. The
      steps taken are a prefix of the plan, all of it when no exception
      ends the walk (`walked`), and then no turn met an unknown key and the
      last step is the one `RestOf` selects, applied to the store `mid` the
      walk left, which is the call's own store when the loop takes no turn
      (an empty old or new list). What that step is given is tied to the
      call: `lo`, from which the nodes a final `addVnodes` creates are
      numbered, is at least the `next` handle before the call; `newElms`
      agrees with the host nodes the new vnodes end with outside the range
      that step adds; and its reference, the host node of `ch[newStartIdx + 1]` when that slot
      is among the vnodes added, is the one held before the call, as no
      turn patches that slot. Two equal lists change nothing; on two
      aligned lists with no vnode in common every new child takes over the
      host node of the old child at its index. */
  method UpdateChildren(host: Host, p: Option<Handle>, oldCh: seq<VNode>, ch: seq<VNode>, ghost ht: nat)
    returns (ok: bool, ghost trace: seq<Step>, ghost walked: bool, ghost mid: Nodes, ghost lo: int,
             ghost newElms: seq<Option<Handle>>, ghost oldElms: seq<Option<Handle>>, ghost xs: seq<Handle>)
    requires host.Valid() && AllValid(oldCh) && Forest(ch)
    requires forall j :: 0 <= j < |ch| ==> ch[j].height < ht
    modifies host, Family(ch)`elm
    decreases ht, 6
    ensures host.Valid() && old(host.next) <= host.next
    ensures trace <= Plan(oldCh, ch).0
    ensures ok ==> walked
    ensures walked ==> trace == Plan(oldCh, ch).0 && forall i :: 0 <= i < |trace| ==> !trace[i].Unkeyed?
    ensures walked ==>
              |newElms| == |ch| &&
              Finished(RestOf(Plan(oldCh, ch).1), mid, host.nodes, ok, p, ch, newElms, oldElms, xs, lo, host.next)
    ensures walked ==> old(host.next) <= lo <= host.next
    ensures !Running(Start(oldCh, ch)) ==> walked && mid == old(host.nodes) && lo == old(host.next)
    ensures walked && 0 <= Plan(oldCh, ch).1.newStartIdx + 1 <= Plan(oldCh, ch).1.newEndIdx < |ch| ==>
              newElms[Plan(oldCh, ch).1.newStartIdx + 1] == old(ch[Plan(oldCh, ch).1.newStartIdx + 1].elm)
    ensures walked ==> forall j :: 0 <= j < |ch| && (j < Plan(oldCh, ch).1.newStartIdx || Plan(oldCh, ch).1.newEndIdx < j) ==>
                          newElms[j] == ch[j].elm
    ensures walked && Outside(oldCh, Family(ch)) ==> oldElms == old(Elms(oldCh))
    ensures oldCh == ch ==> ok && host.nodes == old(host.nodes) && host.next == old(host.next)
    ensures ok && Aligned(oldCh, ch) && Outside(oldCh, Family(ch)) ==>
              forall i :: 0 <= i < |ch| ==> ch[i].elm == old(oldCh[i].elm)
  {
    var c;
    StartInv(oldCh, ch);
    if Running(Start(oldCh, ch)) {
      ok, c, trace := Walk(host, p, oldCh, ch, ht);
    } else {
      // the loop does not run
      ok, c, trace := true, Start(oldCh, ch), [];
    }
    walked, mid, lo := ok, host.nodes, host.next;
    newElms, oldElms, xs := Elms(ch), Elms(oldCh), [];
    if !ok {
      return;
    }
    if Outside(oldCh, Family(ch)) {
      assert forall i :: 0 <= i < |oldCh| ==> oldCh[i].elm == old(oldCh[i].elm);
    }
    ok, xs := Finish(host, p, oldCh, ch, c);
  }

  /** The lines after the loop of `updateChildren`, from the cursor `c` the
      walk stopped at. */
  method Finish(host: Host, p: Option<Handle>, oldCh: seq<VNode>, ch: seq<VNode>, c: Cursor)
    returns (ok: bool, ghost xs: seq<Handle>)
    requires host.Valid() && Forest(ch) && Inv(oldCh, ch, c) && !Running(c)
    modifies host, Family(ch)`elm
    ensures host.Valid() && old(host.next) <= host.next
    ensures Finished(RestOf(c), old(host.nodes), host.nodes, ok, p, ch, old(Elms(ch)), old(Elms(oldCh)), xs,
                     old(host.next), host.next)
    ensures RestOf(c).NoRest? ==> host.next == old(host.next)
    ensures forall j :: 0 <= j < |ch| && (j < c.newStartIdx || c.newEndIdx < j) ==> ch[j].elm == old(ch[j].elm)
  {
    ok, xs := true, [];
    if c.oldStartIdx <= c.oldEndIdx || c.newStartIdx <= c.newEndIdx {
      if c.oldStartIdx > c.oldEndIdx {
        // the reference is the node after the first one added
        var before := if c.newStartIdx + 1 < |ch| then ch[c.newStartIdx + 1].elm else None;
        FamilyInSub(ch, c.newStartIdx, c.newEndIdx);
        ok, xs := AddVnodes(host, p, ch, before, c.newStartIdx, c.newEndIdx);
        forall j | 0 <= j < |ch| && (j < c.newStartIdx || c.newEndIdx < j)
          ensures ch[j].elm == old(ch[j].elm)
        {
          FamilyInOutside(ch, c.newStartIdx, c.newEndIdx, j);
        }
      } else {
        // the end index is excluded
        ok := RemoveVnodes(host, p, oldCh, Some(c.oldStartIdx), Some(c.oldEndIdx));
      }
    }
  }

  /** The loop of `updateChildren`: it takes the turns of the plan until the
      pointers cross, or until one throws. It leaves alone the vnode a final
      `addVnodes` takes its reference from. */
  method Walk(host: Host, p: Option<Handle>, oldCh: seq<VNode>, ch: seq<VNode>, ghost ht: nat)
    returns (ok: bool, c: Cursor, ghost trace: seq<Step>)
    requires host.Valid() && AllValid(oldCh) && Forest(ch)
    requires forall j :: 0 <= j < |ch| ==> ch[j].height < ht
    modifies host, Family(ch)`elm
    decreases ht, 5
    ensures host.Valid() && old(host.next) <= host.next
    ensures trace <= Plan(oldCh, ch).0
    ensures ok ==> Inv(oldCh, ch, c) && !Running(c) && Plan(oldCh, ch) == (trace, c)
    ensures ok ==> forall i :: 0 <= i < |trace| ==> !trace[i].Unkeyed?
    ensures oldCh == ch ==> ok && host.nodes == old(host.nodes) && host.next == old(host.next)
    ensures ok && Aligned(oldCh, ch) ==> c == HeadsAt(|ch|, |ch|)
    ensures ok && Aligned(oldCh, ch) && Outside(oldCh, Family(ch)) ==>
              forall i :: 0 <= i < |ch| ==> ch[i].elm == oldCh[i].elm
    ensures forall v :: v in Anchor(oldCh, ch) ==> v.elm == old(v.elm)
  {
    StartInv(oldCh, ch);
    c := Start(oldCh, ch);
    ok := true;
    trace := [];
    ghost var whole := Plan(oldCh, ch);
    ghost var aligned := Aligned(oldCh, ch);
    ghost var apart := aligned && Outside(oldCh, Family(ch));
    ghost var spare := Anchor(oldCh, ch);
    if aligned {
      assert c == HeadsAt(0, |ch|);
    }
    assert whole == Run(oldCh, ch, c);
    assert trace + Run(oldCh, ch, c).0 == Run(oldCh, ch, c).0;
    while Running(c)
      invariant Inv(oldCh, ch, c) && host.Valid() && old(host.next) <= host.next
      invariant whole == (trace + Run(oldCh, ch, c).0, Run(oldCh, ch, c).1)
      invariant forall i :: 0 <= i < |trace| ==> !trace[i].Unkeyed?
      invariant oldCh == ch ==> host.nodes == old(host.nodes) && host.next == old(host.next)
      invariant aligned ==> |trace| <= |ch| && c == HeadsAt(|trace|, |ch|)
      invariant apart ==> forall i :: 0 <= i < |trace| ==> ch[i].elm == oldCh[i].elm
      modifies host, (Family(ch) - spare)`elm
      decreases Measure(c) + 2
    {
      ok, c, trace := Advance(host, p, oldCh, ch, c, trace, spare, ht);
      if !ok {
        return;
      }
    }
    assert trace + [] == trace;
  }

  /** The new vnode whose host node a final `addVnodes` inserts before,
      `ch[newStartIdx + 1]` of the cursor the walk leaves, when it lies among
      the vnodes added; the walk leaves it alone. */
  ghost function Anchor(oldCh: seq<VNode>, ch: seq<VNode>): set<VNode> {
    var f := Plan(oldCh, ch).1;
    if 0 <= f.newStartIdx + 1 <= f.newEndIdx < |ch| then {ch[f.newStartIdx + 1]} else {}
  }

  /** The turn at `c`, on the way of the whole walk, patches no subtree
      holding the anchor of a final `addVnodes`. */
  lemma TurnSparesAnchor(oldCh: seq<VNode>, ch: seq<VNode>, c: Cursor, trace: seq<Step>)
    requires Forest(ch) && Inv(oldCh, ch, c) && Running(c)
    requires Plan(oldCh, ch) == (trace + Run(oldCh, ch, c).0, Run(oldCh, ch, c).1)
    ensures Anchor(oldCh, ch) !! ch[Next(oldCh, ch, c).0.dst].Nodes
  {
    var d := Next(oldCh, ch, c).0.dst;
    var f := Plan(oldCh, ch).1;
    if 0 <= f.newStartIdx + 1 <= f.newEndIdx < |ch| {
      RunUnfold(oldCh, ch, c);
      RunSpares(oldCh, ch, c);
      assert Run(oldCh, ch, c).0[0].dst == d;
      ForestSeparate(ch, f.newStartIdx + 1, d);
    }
  }

  /** No vnode of a forest lies in the subtree of another. */
  lemma ForestSeparate(ch: seq<VNode>, i: int, j: int)
    requires Forest(ch) && 0 <= i < |ch| && 0 <= j < |ch| && i != j
    ensures ch[i] !in ch[j].Nodes
  {
    assert ch[i] in ch[i].Nodes;
  }

  lemma OutsideFamily(oldCh: seq<VNode>, ch: seq<VNode>, i: int, j: int)
    requires Outside(oldCh, Family(ch)) && 0 <= i < |oldCh| && 0 <= j < |ch|
    ensures oldCh[i] !in ch[j].Nodes
  {
    FamilyHas(ch, j);
  }

  /** One pass of the loop of `updateChildren`, after the turns `trace`:
      the loop invariant is kept, or an exception ends the update. The
      vnodes in `spare`, the reference vnode of a final `addVnodes`, are
      left alone. */
  method Advance(host: Host, p: Option<Handle>, oldCh: seq<VNode>, ch: seq<VNode>, c: Cursor,
                 ghost trace: seq<Step>, ghost spare: set<VNode>, ghost ht: nat)
    returns (ok: bool, c': Cursor, ghost trace': seq<Step>)
    requires host.Valid() && AllValid(oldCh) && Forest(ch)
    requires forall j :: 0 <= j < |ch| ==> ch[j].height < ht
    requires Inv(oldCh, ch, c) && Running(c)
    requires Plan(oldCh, ch) == (trace + Run(oldCh, ch, c).0, Run(oldCh, ch, c).1)
    requires forall i :: 0 <= i < |trace| ==> !trace[i].Unkeyed?
    requires Aligned(oldCh, ch) ==> |trace| <= |ch| && c == HeadsAt(|trace|, |ch|)
    requires Aligned(oldCh, ch) && Outside(oldCh, Family(ch)) ==>
               forall i :: 0 <= i < |trace| ==> ch[i].elm == oldCh[i].elm
    requires spare == Anchor(oldCh, ch)
    modifies host, (Family(ch) - spare)`elm
    decreases ht, 4
    ensures host.Valid() && old(host.next) <= host.next
    ensures trace' <= Plan(oldCh, ch).0
    ensures ok ==> Inv(oldCh, ch, c') && Measure(c') < Measure(c) &&
                   Plan(oldCh, ch) == (trace' + Run(oldCh, ch, c').0, Run(oldCh, ch, c').1)
    ensures ok ==> forall i :: 0 <= i < |trace'| ==> !trace'[i].Unkeyed?
    ensures Aligned(oldCh, ch) ==> |trace'| <= |ch|
    ensures ok && Aligned(oldCh, ch) ==> c' == HeadsAt(|trace'|, |ch|)
    ensures oldCh == ch ==> ok && host.nodes == old(host.nodes) && host.next == old(host.next)
    ensures Aligned(oldCh, ch) && Outside(oldCh, Family(ch)) ==>
              forall i :: 0 <= i < |trace'| ==> ch[i].elm == oldCh[i].elm
  {
    var t := |trace|;
    if Aligned(oldCh, ch) {
      AlignedNext(oldCh, ch, t);
    }
    PlanStep(oldCh, ch, c, trace, Plan(oldCh, ch));
    ghost var d := Next(oldCh, ch, c).0.dst;
    FamilyHas(ch, d);
    TurnSparesAnchor(oldCh, ch, c, trace);
    ghost var st;
    label turn:
    ok, c', st := Turn(host, p, oldCh, ch, c, ht);
    trace' := trace + [st];
    if Aligned(oldCh, ch) && Outside(oldCh, Family(ch)) {
      assert d == t;
      forall i | 0 <= i < |trace'|
        ensures ch[i].elm == oldCh[i].elm
      {
        OutsideFamily(oldCh, ch, i, d);
        if i < t {
          ForestSeparate(ch, i, d);
          assert ch[i].elm == old@turn(ch[i].elm);
        }
      }
    }
  }

  /** One turn of the loop of `updateChildren` from cursor `c`: the turn
      `Next` describes. It patches the new vnode named by the step with the
      old one, which hands it that host node; a turn on an unknown key
      throws; a head-to-head turn on one and the same vnode changes
      nothing. */
  method Turn(host: Host, p: Option<Handle>, oldCh: seq<VNode>, ch: seq<VNode>, c: Cursor, ghost ht: nat)
    returns (ok: bool, c': Cursor, ghost st: Step)
    requires host.Valid() && AllValid(oldCh) && Forest(ch)
    requires forall j :: 0 <= j < |ch| ==> ch[j].height < ht
    requires Inv(oldCh, ch, c) && Running(c)
    modifies host, ch[Next(oldCh, ch, c).0.dst].Nodes`elm
    decreases ht, 3
    ensures host.Valid() && old(host.next) <= host.next
    ensures (st, c') == Next(oldCh, ch, c)
    ensures st.Unkeyed? ==> !ok
    ensures !st.Unkeyed? ==> ch[st.dst].elm == old(oldCh[st.src].elm)
    ensures st.HeadHead? && oldCh[st.src] == ch[st.dst] ==>
              ok && host.nodes == old(host.nodes) && host.next == old(host.next)
    ensures ok && (st.TailHead? || st.Keyed?) ==>
              p.Some? && oldCh[st.src].elm.Some? &&
              PlacedBefore(host.nodes, p.value, oldCh[st.src].elm.value, oldCh[st.ref].elm)
    ensures ok && st.HeadTail? ==>
              p.Some? && oldCh[st.moved].elm.Some? && oldCh[st.src].elm.Some? &&
              IsChild(host.nodes, p.value, oldCh[st.moved].elm.value) &&
              (oldCh[st.moved].elm != oldCh[st.src].elm && IsChild(host.nodes, p.value, oldCh[st.src].elm.value) ==>
                 PlacedAfter(host.nodes, p.value, oldCh[st.src].elm.value, oldCh[st.moved].elm.value))
  {
    var oldStartVnode := Get(oldCh, c.oldStartAt);
    var oldEndVnode := Get(oldCh, c.oldEndAt);
    var newStartVnode := ch[c.newStartAt];
    var newEndVnode := ch[c.newEndAt];
    ghost var n := Next(oldCh, ch, c);
    st := Unkeyed(c.newStartAt);
    if oldStartVnode.None? {
      // a hole: never met, both old vnode variables always hold vnodes
      assert false;
      ok := true;
      c' := c.(oldStartIdx := c.oldStartIdx + 1, oldStartAt := c.oldStartIdx + 1);
    } else if oldEndVnode.None? {
      // a hole: never met; the code here steps `oldStartIdx` back and
      // reloads `oldEndVnode` from it
      assert false;
      ok := true;
      c' := c.(oldStartIdx := c.oldStartIdx - 1, oldEndAt := c.oldStartIdx - 1);
    } else if SameVnode(oldStartVnode.value, newStartVnode) {
      ok, c', st := TurnHead(host, oldCh, ch, c, ht);
    } else if SameVnode(oldEndVnode.value, newEndVnode) {
      ok, c', st := TurnTail(host, oldCh, ch, c, ht);
    } else {
      ok, c', st := TurnCross(host, p, oldCh, ch, c, ht);
    }
  }

  /** The head-to-head turn: `patchVnode(oldStartVnode, newStartVnode)`,
      and both start pointers advance. */
  method TurnHead(host: Host, oldCh: seq<VNode>, ch: seq<VNode>, c: Cursor, ghost ht: nat)
    returns (ok: bool, c': Cursor, ghost st: Step)
    requires host.Valid() && AllValid(oldCh) && Forest(ch)
    requires forall j :: 0 <= j < |ch| ==> ch[j].height < ht
    requires Inv(oldCh, ch, c) && Running(c) && SameVnode(oldCh[c.oldStartAt], ch[c.newStartAt])
    modifies host, ch[c.newStartAt].Nodes`elm
    decreases ht, 2
    ensures host.Valid() && old(host.next) <= host.next
    ensures (st, c') == Next(oldCh, ch, c) && st.HeadHead?
    ensures ch[st.dst].elm == old(oldCh[st.src].elm)
    ensures oldCh[st.src] == ch[st.dst] ==> ok && host.nodes == old(host.nodes) && host.next == old(host.next)
  {
    ok := PatchVnode(host, oldCh[c.oldStartAt], ch[c.newStartAt]);
    st := HeadHead(c.oldStartAt, c.newStartAt);
    c' := c.(oldStartIdx := c.oldStartIdx + 1, newStartIdx := c.newStartIdx + 1,
             oldStartAt := c.oldStartIdx + 1, newStartAt := c.newStartIdx + 1);
  }

  /** The tail-to-tail turn: `patchVnode(oldEndVnode, newEndVnode)`, and
      both end pointers step back. */
  method TurnTail(host: Host, oldCh: seq<VNode>, ch: seq<VNode>, c: Cursor, ghost ht: nat)
    returns (ok: bool, c': Cursor, ghost st: Step)
    requires host.Valid() && AllValid(oldCh) && Forest(ch)
    requires forall j :: 0 <= j < |ch| ==> ch[j].height < ht
    requires Inv(oldCh, ch, c) && Running(c) && !SameVnode(oldCh[c.oldStartAt], ch[c.newStartAt])
    requires SameVnode(oldCh[c.oldEndAt], ch[c.newEndAt])
    modifies host, ch[c.newEndAt].Nodes`elm
    decreases ht, 2
    ensures host.Valid() && old(host.next) <= host.next
    ensures (st, c') == Next(oldCh, ch, c) && st.TailTail?
    ensures ch[st.dst].elm == old(oldCh[st.src].elm)
  {
    ok := PatchVnode(host, oldCh[c.oldEndAt], ch[c.newEndAt]);
    st := TailTail(c.oldEndAt, c.newEndAt);
    c' := c.(oldEndIdx := c.oldEndIdx - 1, newEndIdx := c.newEndIdx - 1,
             oldEndAt := c.oldEndIdx - 1, newEndAt := c.newEndIdx - 1);
  }

  /** The turns of the loop of `updateChildren` after both head-to-head and
      tail-to-tail tests failed; each patches into the new start. */
  method TurnCross(host: Host, p: Option<Handle>, oldCh: seq<VNode>, ch: seq<VNode>, c: Cursor, ghost ht: nat)
    returns (ok: bool, c': Cursor, ghost st: Step)
    requires host.Valid() && AllValid(oldCh) && Forest(ch)
    requires forall j :: 0 <= j < |ch| ==> ch[j].height < ht
    requires Inv(oldCh, ch, c) && Running(c)
    requires !SameVnode(oldCh[c.oldStartAt], ch[c.newStartAt]) && !SameVnode(oldCh[c.oldEndAt], ch[c.newEndAt])
    modifies host, ch[c.newStartAt].Nodes`elm
    decreases ht, 2
    ensures host.Valid() && old(host.next) <= host.next
    ensures (st, c') == Next(oldCh, ch, c)
    ensures st.Unkeyed? ==> !ok
    ensures !st.Unkeyed? ==> ch[st.dst].elm == old(oldCh[st.src].elm)
    ensures ok && (st.TailHead? || st.Keyed?) ==>
              p.Some? && oldCh[st.src].elm.Some? &&
              PlacedBefore(host.nodes, p.value, oldCh[st.src].elm.value, oldCh[st.ref].elm)
    ensures ok && st.HeadTail? ==>
              p.Some? && oldCh[st.moved].elm.Some? && oldCh[st.src].elm.Some? &&
              IsChild(host.nodes, p.value, oldCh[st.moved].elm.value) &&
              (oldCh[st.moved].elm != oldCh[st.src].elm && IsChild(host.nodes, p.value, oldCh[st.src].elm.value) ==>
                 PlacedAfter(host.nodes, p.value, oldCh[st.src].elm.value, oldCh[st.moved].elm.value))
  {
    var oldStartVnode := oldCh[c.oldStartAt];
    var oldEndVnode := oldCh[c.oldEndAt];
    var newStartVnode := ch[c.newStartAt];
    var newEndVnode := ch[c.newEndAt];
    if SameVnode(oldEndVnode, newStartVnode) {
      ok := PatchThenMove(host, p, oldEndVnode, newStartVnode, oldStartVnode, ht);
      st := TailHead(c.oldEndAt, c.newStartAt, c.oldStartAt);
      // `newStartVnode` is not reloaded, and `oldStartVnode` is reloaded
      // from the unchanged `oldStartIdx`
      c' := c.(oldEndIdx := c.oldEndIdx - 1, newStartIdx := c.newStartIdx + 1,
               oldEndAt := c.oldEndIdx - 1, oldStartAt := c.oldStartIdx);
    } else if SameVnode(oldStartVnode, newEndVnode) {
      // the pair patched is the old end and the new start, not the pair
      // just matched
      ok := PatchThenMoveAfter(host, p, oldEndVnode, newStartVnode, oldStartVnode, ht);
      st := HeadTail(c.oldEndAt, c.newStartAt, c.oldStartAt, c.newEndAt);
      // `oldStartVnode` is reloaded from `oldEndIdx`
      c' := c.(oldStartIdx := c.oldStartIdx + 1, newEndIdx := c.newEndIdx - 1,
               oldStartAt := c.oldEndIdx, newEndAt := c.newEndIdx - 1);
    } else {
      ok, c', st := TurnByKey(host, p, oldCh, ch, c, ht);
    }
  }

  /** The last branch of the loop of `updateChildren`: the new start is
      looked up by key among `oldCh[oldStartIdx..oldEndIdx)` (the key map is
      built on first use, end excluded). Found, the old vnode is patched
      into it and its host node moved before that of the old start; the
      slot is not marked as consumed. Not found, the new start is created
      and then handed, as a vnode and not a host node, to `insertBefore`
      as the reference: a TypeError. */
  method TurnByKey(host: Host, p: Option<Handle>, oldCh: seq<VNode>, ch: seq<VNode>, c: Cursor, ghost ht: nat)
    returns (ok: bool, c': Cursor, ghost st: Step)
    requires host.Valid() && AllValid(oldCh) && Forest(ch)
    requires forall j :: 0 <= j < |ch| ==> ch[j].height < ht
    requires Inv(oldCh, ch, c) && Running(c)
    requires !SameVnode(oldCh[c.oldStartAt], ch[c.newStartAt]) && !SameVnode(oldCh[c.oldEndAt], ch[c.newEndAt])
    requires !SameVnode(oldCh[c.oldEndAt], ch[c.newStartAt]) && !SameVnode(oldCh[c.oldStartAt], ch[c.newEndAt])
    modifies host, ch[c.newStartAt].Nodes`elm
    decreases ht, 1
    ensures host.Valid() && old(host.next) <= host.next
    ensures (st, c') == Next(oldCh, ch, c)
    ensures st.Unkeyed? ==> !ok
    ensures !st.Unkeyed? ==> ch[st.dst].elm == old(oldCh[st.src].elm)
    ensures ok && st.Keyed? ==>
              p.Some? && oldCh[st.src].elm.Some? &&
              PlacedBefore(host.nodes, p.value, oldCh[st.src].elm.value, oldCh[st.ref].elm)
  {
    var m;
    if c.oldKeyToIdx.None? {
      m := CreateKeyToOldIdx(oldCh, c.oldStartIdx, c.oldEndIdx);
      KeyToOldIdxSpec(oldCh, c.oldStartIdx, c.oldEndIdx);
    } else {
      m := c.oldKeyToIdx.value;
    }
    var newStartVnode := ch[c.newStartAt];
    c' := c.(oldKeyToIdx := Some(m), newStartIdx := c.newStartIdx + 1, newStartAt := c.newStartIdx + 1);
    if newStartVnode.key in m {
      var idxInOld := m[newStartVnode.key];
      var elmToMove := oldCh[idxInOld];
      ok := PatchThenMove(host, p, elmToMove, newStartVnode, oldCh[c.oldStartAt], ht);
      st := Keyed(idxInOld, c.newStartAt, c.oldStartAt);
    } else {
      ok := CreateThenThrow(host, p, newStartVnode);
      st := Unkeyed(c.newStartAt);
    }
  }

  /** `patchVnode(oldV, newV)` followed by
      `parentElm.insertBefore(oldV.elm, refV.elm)`, the latter read after
      the patch. */
  method PatchThenMove(host: Host, p: Option<Handle>, oldV: VNode, newV: VNode, refV: VNode, ghost ht: nat)
    returns (ok: bool)
    requires host.Valid() && oldV.Valid() && newV.Valid() && newV.height < ht
    modifies host, newV.Nodes`elm
    decreases ht, 0
    ensures host.Valid() && old(host.next) <= host.next
    ensures newV.elm == old(oldV.elm)
    ensures ok ==> p.Some? && oldV.elm.Some? && PlacedBefore(host.nodes, p.value, oldV.elm.value, refV.elm)
  {
    ok := PatchVnode(host, oldV, newV);
    if ok {
      ghost var mid := host.nodes;
      ok := InsertElm(host, p, oldV.elm, refV.elm);
      if ok {
        InsertPlaces(mid, p.value, oldV.elm.value, refV.elm);
      }
    }
  }

  /** `patchVnode(oldV, newV)` followed by
      `parentElm.insertBefore(moved.elm, oldV.elm.nextSibling)`: `moved`
      becomes a child of the parent, and when the host node of `oldV` is a
      child of the same parent, `moved` sits immediately after it. */
  method PatchThenMoveAfter(host: Host, p: Option<Handle>, oldV: VNode, newV: VNode, moved: VNode, ghost ht: nat)
    returns (ok: bool)
    requires host.Valid() && oldV.Valid() && newV.Valid() && newV.height < ht
    modifies host, newV.Nodes`elm
    decreases ht, 0
    ensures host.Valid() && old(host.next) <= host.next
    ensures newV.elm == old(oldV.elm)
    ensures ok ==> p.Some? && moved.elm.Some? && oldV.elm.Some? &&
                   IsChild(host.nodes, p.value, moved.elm.value)
    ensures ok && moved.elm != oldV.elm && IsChild(host.nodes, p.value, oldV.elm.value) ==>
              PlacedAfter(host.nodes, p.value, oldV.elm.value, moved.elm.value)
  {
    ok := PatchVnode(host, oldV, newV);
    if ok {
      if oldV.elm.None? {
        // `.nextSibling` of undefined: a TypeError
        ok := false;
      } else {
        ghost var mid := host.nodes;
        var ref := NextSibling(host.nodes, oldV.elm.value);
        ok := InsertElm(host, p, moved.elm, ref);
        if ok {
          InsertPlaces(mid, p.value, moved.elm.value, ref);
          if moved.elm.value != oldV.elm.value {
            InsertAfterPlaces(mid, p.value, oldV.elm.value, moved.elm.value);
          }
        }
      }
    }
  }

  /** `parentElm.insertBefore(x, ref)` on values that may be undefined: an
      undefined parent or node is a TypeError, an undefined reference means
      "at the end". */
  method InsertElm(host: Host, p: Option<Handle>, x: Option<Handle>, ref: Option<Handle>) returns (ok: bool)
    requires host.Valid()
    modifies host
    ensures host.Valid() && host.next == old(host.next)
    ensures ok == (p.Some? && x.Some? && PreInsertOk(old(host.nodes), p.value, x.value, ref))
    ensures host.nodes == if ok then Inserted(old(host.nodes), p.value, x.value, ref) else old(host.nodes)
  {
    if p.None? || x.None? {
      return false;
    }
    ok := host.InsertBefore(p.value, x.value, ref);
  }

  /** `parentElm.insertBefore(createElm(v), oldStartVnode)`: with a parent,
      `v` is created and mounted, detached, and the call then throws because
      its reference is a vnode; with none, it throws before anything is
      created. */
  method CreateThenThrow(host: Host, p: Option<Handle>, v: VNode) returns (ok: bool)
    requires host.Valid() && v.Valid()
    modifies host, v.Nodes`elm
    ensures host.Valid() && old(host.next) <= host.next && !ok
    ensures p.None? ==> host.nodes == old(host.nodes) && host.next == old(host.next)
    ensures p.Some? ==> Mounted(v, host.nodes) && v.elm.value !in old(host.nodes) &&
                        host.nodes[v.elm.value].parent.None? &&
                        forall k :: k in old(host.nodes) ==> k in host.nodes && host.nodes[k] == old(host.nodes)[k]
  {
    if p.Some? {
      var h := CreateElm(host, v);
    }
    ok := false;
  }

  // ---------------------------------------------------------------------------
  // patch

  /** The vnodes of the tree `v`, if any. */
  ghost function NodesOf(v: Option<VNode>): set<VNode> {
    if v.Some? then v.value.Nodes else {}
  }

  /** What replacing the host node `e` needs: `e` exists, has a parent, is
      one of that parent's children, and the parent is an element. */
  predicate ReplaceOk(ns: Nodes, e: Option<Handle>) {
    e.Some? && e.value in ns && ns[e.value].parent.Some? &&
    RemoveOk(ns, ns[e.value].parent.value, e.value) &&
    ns[ns[e.value].parent.value].kind.ElementNode?
  }

  /** `after` is `before` with the host node `e` taken out of its parent and
      the detached host node `h`, created since, put last among that
      parent's children; nothing else changes among the old nodes. */
  ghost predicate Replaced(before: Nodes, after: Nodes, e: Handle, h: Handle) {
    e in before && before[e].parent.Some? && e in after && after[e].parent.None? &&
    var q := before[e].parent.value;
    h !in before && q in before && q in after &&
    after[q] == before[q].(kids := Without(before[q].kids, e) + [h]) &&
    forall k :: k in before && k != q && k != e ==> k in after && after[k] == before[k]
  }

  /** `patch(oldVnode, vnode)`, the entry point. With no old tree the new one
      is created, detached (`createElm(undefined)` throws). With no new tree
      nothing happens. Two trees `sameVnode` matches are patched in place;
      otherwise the new tree is created and takes the place of the old one
      under its parent. */
  method Patch(host: Host, oldV: Option<VNode>, newV: Option<VNode>) returns (ok: bool)
    requires host.Valid()
    requires oldV.Some? ==> oldV.value.Valid()
    requires newV.Some? ==> newV.value.Valid()
    modifies host, NodesOf(newV)`elm
    ensures host.Valid() && old(host.next) <= host.next
    ensures oldV.None? && newV.None? ==> !ok && host.nodes == old(host.nodes) && host.next == old(host.next)
    ensures oldV.None? && newV.Some? ==>
              ok && Mounted(newV.value, host.nodes) && newV.value.elm.value !in old(host.nodes) &&
              host.nodes[newV.value.elm.value].parent.None? &&
              forall k :: k in old(host.nodes) ==> k in host.nodes && host.nodes[k] == old(host.nodes)[k]
    ensures oldV.Some? && newV.None? ==> ok && host.nodes == old(host.nodes) && host.next == old(host.next)
    ensures oldV.Some? && newV.Some? && SameVnode(oldV.value, newV.value) ==>
              newV.value.elm == old(oldV.value.elm)
    ensures oldV.Some? && newV.Some? && !SameVnode(oldV.value, newV.value) ==>
              ok == ReplaceOk(old(host.nodes), old(oldV.value.elm)) &&
              (ok ==> newV.value.elm.Some? && Mounted(newV.value, host.nodes) &&
                      Replaced(old(host.nodes), host.nodes, old(oldV.value.elm).value, newV.value.elm.value))
  {
    if oldV.None? {
      if newV.None? {
        // `createElm(undefined)` reads a property of undefined: a TypeError
        return false;
      }
      var h := CreateElm(host, newV.value);
      return true;
    }
    if newV.None? {
      return true;
    }
    if SameVnode(oldV.value, newV.value) {
      ok := PatchVnode(host, oldV.value, newV.value);
    } else {
      ok := Replace(host, oldV.value, newV.value);
    }
  }

  /** The last branch of `patch`: the new tree is created, the old host node
      is removed from its parent, and the new one inserted before
      `elm.nextSibling`. That sibling is read after the removal, when `elm`
      is detached, so it is always null and the new node goes last rather
      than where the old one was. */
  method Replace(host: Host, oldV: VNode, newV: VNode) returns (ok: bool)
    requires host.Valid() && newV.Valid()
    modifies host, newV.Nodes`elm
    ensures host.Valid() && old(host.next) <= host.next
    ensures ok == ReplaceOk(old(host.nodes), old(oldV.elm))
    ensures ok ==> newV.elm.Some? && Mounted(newV, host.nodes) &&
                   Replaced(old(host.nodes), host.nodes, old(oldV.elm).value, newV.elm.value)
    ensures old(oldV.elm).None? || old(oldV.elm).value !in old(host.nodes) ==>
              host.nodes == old(host.nodes) && host.next == old(host.next)
  {
    var elm := oldV.elm;
    if elm.None? || elm.value !in host.nodes {
      // `elm.parentNode` on undefined: a TypeError
      return false;
    }
    var e := elm.value;
    var parent := host.nodes[e].parent;
    ghost var before := host.nodes;
    ghost var lo := host.next;
    var h := CreateElm(host, newV);
    ghost var mid := host.nodes;
    ok := Reattach(host, parent, e, h, before, lo);
    if ok {
      MountedStable(newV, mid, host.nodes, lo, host.next);
    }
  }

  /** `parent.removeChild(elm)` then `parent.insertBefore(h,
      elm.nextSibling)`, on the store `mid` left by creating, over `before`,
      the detached host node `h` (and other host nodes from `lo` on). The
      nodes from `lo` on keep their contents. */
  method Reattach(host: Host, parent: Option<Handle>, e: Handle, h: Handle, ghost before: Nodes, ghost lo: int)
    returns (ok: bool)
    requires host.Valid() && Closed(before) && (forall k :: k in before ==> k < lo)
    requires e in before && before[e].parent == parent
    requires forall k :: k in before ==> k in host.nodes && host.nodes[k] == before[k]
    requires lo <= h && h in host.nodes && host.nodes[h].parent.None?
    modifies host
    ensures host.Valid() && host.next == old(host.next)
    ensures ok == ReplaceOk(before, Some(e))
    ensures ok ==> Replaced(before, host.nodes, e, h) && AgreeOn(old(host.nodes), host.nodes, lo, host.next)
  {
    if parent.None? {
      // `parent.removeChild` on null: a TypeError
      return false;
    }
    var q := parent.value;
    ghost var mid := host.nodes;
    ReplaceChecks(before, mid, q, e, h, lo);
    ok := host.RemoveChild(q, e);
    if !ok {
      return;
    }
    // `elm.nextSibling`, read now that `elm` is detached
    ok := host.InsertBefore(q, h, NextSibling(host.nodes, e));
    if ok {
      ReplacedAfter(before, mid, host.nodes, q, e, h, lo, host.next);
    }
  }

  /** The checks of the removal and the insertion of `Reattach`, on the
      store `mid` left by creating the new tree (host nodes from `lo` on)
      over `before`: after the removal `e` has no next sibling. */
  lemma ReplaceChecks(before: Nodes, mid: Nodes, q: Handle, e: Handle, h: Handle, lo: int)
    requires Closed(before) && (forall k :: k in before ==> k < lo)
    requires e in before && before[e].parent == Some(q)
    requires forall k :: k in before ==> k in mid && mid[k] == before[k]
    requires lo <= h && h in mid
    ensures q in before
    ensures RemoveOk(mid, q, e) == RemoveOk(before, q, e)
    ensures RemoveOk(mid, q, e) ==>
              NextSibling(Removed(mid, q, e), e).None? &&
              PreInsertOk(Removed(mid, q, e), q, h, None) == before[q].kind.ElementNode?
  {
    assert q in before;
    if RemoveOk(mid, q, e) {
      assert q != e;
      assert Removed(mid, q, e)[q] == before[q].(kids := Without(before[q].kids, e));
    }
  }

  /** The store after the removal and the insertion of `Reattach` is the
      replacement, and the nodes from `lo` on keep their contents. */
  lemma ReplacedAfter(before: Nodes, mid: Nodes, after: Nodes, q: Handle, e: Handle, h: Handle, lo: int, hi: int)
    requires Closed(before) && (forall k :: k in before ==> k < lo)
    requires e in before && before[e].parent == Some(q) && q in before
    requires forall k :: k in before ==> k in mid && mid[k] == before[k]
    requires lo <= h && h in mid && mid[h].parent.None?
    requires RemoveOk(mid, q, e) && PreInsertOk(Removed(mid, q, e), q, h, None)
    requires after == Inserted(Removed(mid, q, e), q, h, None)
    ensures Replaced(before, after, e, h) && AgreeOn(mid, after, lo, hi)
  {
    assert q != e;
    var m2 := Removed(mid, q, e);
    assert m2[q] == before[q].(kids := Without(before[q].kids, e));
    assert h !in m2[q].kids by {
      ClosedKids(before, q);
    }
    InsertDetached(m2, q, h, None);
  }


}
