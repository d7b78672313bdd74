/** An abstract host tree standing in for the browser DOM that the reconciler
    drives. Nodes are named by integer handles; each node records its kind
    (text or element), its attributes, its ordered child list and its parent.
    The mutation methods follow the "insert", "pre-insert" and "remove"
    algorithms of section 4.2.3 ("Mutation algorithms") of the WHATWG DOM
    Standard: a node that is inserted is first detached from its current
    parent, so inserting an existing node moves it. A call the DOM would reject
    by throwing returns `false` and leaves the tree as it was. */
module Dom {
  import opened Util

  type Handle = int

  datatype Kind = TextNode(data: string) | ElementNode(tag: string)

  datatype HostNode = HostNode(kind: Kind, attrs: map<string, string>, kids: seq<Handle>, parent: Option<Handle>)

  type Nodes = map<Handle, HostNode>

  /** The two nodes hold the same kind, attributes and children; their
      parents may differ. */
  predicate SameContent(a: HostNode, b: HostNode) {
    a.kind == b.kind && a.attrs == b.attrs && a.kids == b.kids
  }

  /** Every child and parent a node names is itself in the store, no node
      lists itself as a child, and no child list names a node twice. */
  ghost predicate Closed(ns: Nodes) {
    forall h {:trigger ns[h]} :: h in ns ==>
      h !in ns[h].kids && Distinct(ns[h].kids) &&
      (forall k :: k in ns[h].kids ==> k in ns) &&
      (ns[h].parent.Some? ==> ns[h].parent.value in ns)
  }

  lemma ClosedKids(ns: Nodes, h: Handle)
    requires Closed(ns) && h in ns
    ensures forall k :: k in ns[h].kids ==> k in ns
  {
  }

  predicate NoDup(s: seq<Handle>) {
    forall i, j :: 0 <= i < j < |s| ==> s[i] != s[j]
  }

  /** `NoDup` stated by counts, the form the store invariant keeps. */
  ghost predicate Distinct(s: seq<Handle>) {
    forall x :: multiset(s)[x] <= 1
  }

  lemma TwiceCounted(s: seq<Handle>, i: int, j: int)
    requires 0 <= i < j < |s|
    ensures s[i] == s[j] ==> multiset(s)[s[i]] >= 2
  {
    assert s == s[..j] + s[j..];
    assert s[..j][i] == s[i] && s[j..][0] == s[j];
  }

  lemma DistinctNoDup(s: seq<Handle>)
    ensures Distinct(s) <==> NoDup(s)
  {
    if Distinct(s) {
      forall i, j | 0 <= i < j < |s|
        ensures s[i] != s[j]
      {
        TwiceCounted(s, i, j);
      }
    }
    if NoDup(s) {
      forall x
        ensures multiset(s)[x] <= 1
      {
        if x in s {
          NoDupCount(s, x);
        }
      }
    }
  }

  /** Two duplicate-free lists with no common element concatenate to a
      duplicate-free list. */
  lemma NoDupConcat(a: seq<Handle>, b: seq<Handle>)
    requires NoDup(a) && NoDup(b) && forall y :: y in a ==> y !in b
    ensures NoDup(a + b)
  {
    forall i, j | 0 <= i < j < |a + b|
      ensures (a + b)[i] != (a + b)[j]
    {
      if j < |a| {
        assert (a + b)[i] == a[i] && (a + b)[j] == a[j];
      } else if i >= |a| {
        assert (a + b)[i] == b[i - |a|] && (a + b)[j] == b[j - |a|];
      } else {
        assert (a + b)[i] == a[i] && (a + b)[j] == b[j - |a|];
        assert a[i] in a;
      }
    }
  }

  /** The two halves of a duplicate-free list are duplicate-free and share
      no element. */
  lemma NoDupSplit(s: seq<Handle>, k: int)
    requires NoDup(s) && 0 <= k <= |s|
    ensures NoDup(s[..k]) && NoDup(s[k..]) && forall y :: y in s[..k] ==> y !in s[k..]
  {
    forall y | y in s[..k]
      ensures y !in s[k..]
    {
      var i :| 0 <= i < k && s[..k][i] == y;
      assert s[i] == y;
    }
    forall i, j | 0 <= i < j < |s[k..]|
      ensures s[k..][i] != s[k..][j]
    {
      assert s[k..][i] == s[k + i] && s[k..][j] == s[k + j];
    }
  }

  // ---------------------------------------------------------------------------
  // Child lists

  /** Position of the first occurrence of `x` in `s`. */
  function IndexOf(s: seq<Handle>, x: Handle): (i: nat)
    requires x in s
    ensures i < |s| && s[i] == x && x !in s[..i]
  {
    if s[0] == x then 0
    else
      var j := IndexOf(s[1..], x);
      assert s[..j + 1] == [s[0]] + s[1..][..j];
      j + 1
  }

  /** The element that follows the first occurrence of `x`, if any. */
  function NextIn(s: seq<Handle>, x: Handle): (r: Option<Handle>)
    ensures r.Some? <==> x in s && IndexOf(s, x) + 1 < |s|
    ensures r.Some? ==> r.value in s && r.value == s[IndexOf(s, x) + 1]
  {
    if x in s && IndexOf(s, x) + 1 < |s| then Some(s[IndexOf(s, x) + 1]) else None
  }

  /** `s` with every occurrence of `x` taken out, the rest in order. */
  function Without(s: seq<Handle>, x: Handle): (r: seq<Handle>)
    ensures forall y :: y in r <==> y in s && y != x
    ensures x !in s ==> r == s
  {
    if s == [] then []
    else
      assert s == [s[0]] + s[1..];
      (if s[0] == x then [] else [s[0]]) + Without(s[1..], x)
  }

  /** `s` with every element of `xs` taken out, the rest in order. */
  function WithoutAll(s: seq<Handle>, xs: set<Handle>): (r: seq<Handle>)
    ensures forall y :: y in r <==> y in s && y !in xs
    ensures |r| <= |s|
  {
    if s == [] then []
    else (if s[0] in xs then [] else [s[0]]) + WithoutAll(s[1..], xs)
  }

  lemma {:induction false} WithoutAllEmpty(s: seq<Handle>)
    ensures WithoutAll(s, {}) == s
  {
    if s != [] {
      WithoutAllEmpty(s[1..]);
    }
  }

  /** `s` with `x` placed immediately before the first occurrence of `ref`,
      or at the end when `ref` is absent or not in `s`. */
  function InsertBeforeIn(s: seq<Handle>, x: Handle, ref: Option<Handle>): (r: seq<Handle>)
    ensures |r| == |s| + 1
    ensures forall y :: y in r <==> y == x || y in s
    ensures (ref.None? || ref.value !in s) ==> r == s + [x]
    ensures ref.Some? && ref.value in s ==>
              var k := IndexOf(s, ref.value);
              |r| == |s| + 1 && r[..k] == s[..k] && r[k] == x && r[k + 1..] == s[k..]
  {
    if ref.Some? && ref.value in s then
      var k := IndexOf(s, ref.value);
      var r := s[..k] + [x] + s[k..];
      assert s == s[..k] + s[k..];
      assert r[..k] == s[..k];
      assert r[k + 1..] == s[k..];
      r
    else s + [x]
  }

  lemma {:induction false} NoDupWithout(s: seq<Handle>, x: Handle)
    requires NoDup(s)
    ensures NoDup(Without(s, x))
  {
    if s != [] {
      NoDupSplit(s, 1);
      NoDupWithout(s[1..], x);
      var hd := if s[0] == x then [] else [s[0]];
      assert s[..1] == [s[0]];
      NoDupConcat(hd, Without(s[1..], x));
    }
  }

  lemma NoDupInsertBeforeIn(s: seq<Handle>, x: Handle, ref: Option<Handle>)
    requires NoDup(s) && x !in s
    ensures NoDup(InsertBeforeIn(s, x, ref))
  {
    var r := InsertBeforeIn(s, x, ref);
    if ref.Some? && ref.value in s {
      var k := IndexOf(s, ref.value);
      NoDupSplit(s, k);
      assert r == s[..k] + [x] + s[k..];
      NoDupConcat(s[..k], [x]);
      NoDupConcat(s[..k] + [x], s[k..]);
    } else {
      NoDupConcat(s, [x]);
    }
  }

  /** `s` with the run `xs` placed before the first occurrence of `ref`, or
      at the end when `ref` is absent or not in `s`. */
  function InsertSeqBefore(s: seq<Handle>, xs: seq<Handle>, ref: Option<Handle>): (r: seq<Handle>)
    ensures xs == [] ==> r == s
    ensures |r| == |s| + |xs|
    ensures forall y :: y in r <==> y in s || y in xs
  {
    if ref.Some? && ref.value in s then
      var k := IndexOf(s, ref.value);
      assert s == s[..k] + s[k..];
      s[..k] + xs + s[k..]
    else s + xs
  }

  lemma {:induction false} IndexOfAt(pre: seq<Handle>, post: seq<Handle>, x: Handle)
    requires x !in pre && post != [] && post[0] == x
    ensures x in pre + post && IndexOf(pre + post, x) == |pre|
  {
    if pre != [] {
      assert (pre + post)[1..] == pre[1..] + post;
      IndexOfAt(pre[1..], post, x);
    } else {
      assert pre + post == post;
    }
  }

  /** Inserting the nodes of a run one at a time before the same reference
      keeps them contiguous and in order. */
  lemma InsertSeqBeforeStep(s: seq<Handle>, xs: seq<Handle>, c: Handle, ref: Option<Handle>)
    requires ref.Some? ==> ref.value !in xs && ref.value != c
    ensures InsertBeforeIn(InsertSeqBefore(s, xs, ref), c, ref) == InsertSeqBefore(s, xs + [c], ref)
  {
    var t := InsertSeqBefore(s, xs, ref);
    if ref.Some? && ref.value in s {
      var k := IndexOf(s, ref.value);
      assert t == (s[..k] + xs) + s[k..];
      IndexOfAt(s[..k] + xs, s[k..], ref.value);
      var r := InsertBeforeIn(t, c, ref);
      var m := k + |xs|;
      assert IndexOf(t, ref.value) == m;
      assert r == t[..m] + [c] + t[m..];
      assert t[..m] == s[..k] + xs;
      assert t[m..] == s[k..];
      assert r == s[..k] + (xs + [c]) + s[k..];
    } else {
      assert ref.Some? ==> ref.value !in t;
      assert InsertBeforeIn(t, c, ref) == t + [c];
      assert t + [c] == s + (xs + [c]);
    }
  }

  // ---------------------------------------------------------------------------
  // Tree mutations as functions of the node store

  /** Take `c` out of its parent's child list (if it has a parent) and clear
      its parent: the "remove" step that "insert" performs first. */
  function Detach(ns: Nodes, c: Handle): (r: Nodes)
    requires c in ns
    ensures r.Keys == ns.Keys
    ensures r[c].parent.None?
    ensures forall k :: k in ns && k != c && Some(k) != ns[c].parent ==> r[k] == ns[k]
    ensures forall k :: k in ns && Some(k) == ns[c].parent ==> r[k].kids == Without(ns[k].kids, c)
    ensures Some(c) != ns[c].parent ==> SameContent(r[c], ns[c])
    ensures forall k :: k in ns && k != c ==> r[k].parent == ns[k].parent
  {
    var n := ns[c];
    var ns1 := if n.parent.Some? && n.parent.value in ns
               then ns[n.parent.value := ns[n.parent.value].(kids := Without(ns[n.parent.value].kids, c))]
               else ns;
    ns1[c := ns1[c].(parent := None)]
  }

  /** The checks of the DOM's pre-insert: the parent exists and is an
      element, the node exists and is not the parent itself, and a reference
      child, when given, is a child of the parent (otherwise the DOM throws a
      NotFoundError). */
  predicate PreInsertOk(ns: Nodes, p: Handle, c: Handle, ref: Option<Handle>) {
    p in ns && ns[p].kind.ElementNode? && c in ns && c != p &&
    (ref.None? || ref.value in ns[p].kids)
  }

  /** The reference child the DOM actually uses: when it is the inserted node
      itself, it is replaced by that node's next sibling. */
  function ReferenceChild(ns: Nodes, p: Handle, c: Handle, ref: Option<Handle>): Option<Handle>
    requires p in ns
  {
    if ref == Some(c) then NextIn(ns[p].kids, c) else ref
  }

  /** `insertBefore(c, ref)` on parent `p`. */
  function Inserted(ns: Nodes, p: Handle, c: Handle, ref: Option<Handle>): (r: Nodes)
    requires PreInsertOk(ns, p, c, ref)
    ensures r.Keys == ns.Keys
    ensures r[c].parent == Some(p) && c in r[p].kids
    ensures r[p].kids == InsertBeforeIn(Without(ns[p].kids, c), c, ReferenceChild(ns, p, c, ref))
    ensures r[p] == ns[p].(kids := r[p].kids)
    ensures forall k :: k in ns && k != p && k != c && Some(k) != ns[c].parent ==> r[k] == ns[k]
    ensures ns[c].parent.None? ==> SameContent(r[c], ns[c])
    ensures forall k :: k in ns && k != c ==> r[k].parent == ns[k].parent
  {
    var rc := ReferenceChild(ns, p, c, ref);
    var ns1 := Detach(ns, c);
    var kids := InsertBeforeIn(Without(ns[p].kids, c), c, rc);
    var ns2 := ns1[p := ns1[p].(kids := kids)];
    assert c in kids;
    var r := ns2[c := ns2[c].(parent := Some(p))];
    assert r[p].kids == kids;
    r
  }

  /** Replacing one existing node by one that names only existing nodes
      keeps the store closed. */
  lemma UpdateClosed(ns: Nodes, h: Handle, n: HostNode)
    requires Closed(ns) && h in ns
    requires h !in n.kids && NoDup(n.kids) && (forall k :: k in n.kids ==> k in ns)
    requires n.parent.Some? ==> n.parent.value in ns
    ensures Closed(ns[h := n])
  {
    DistinctNoDup(n.kids);
  }

  lemma InsertedClosed(ns: Nodes, p: Handle, c: Handle, ref: Option<Handle>)
    requires Closed(ns) && PreInsertOk(ns, p, c, ref)
    ensures Closed(Inserted(ns, p, c, ref))
  {
    var rc := ReferenceChild(ns, p, c, ref);
    var n := ns[c];
    var ns0 := if n.parent.Some? && n.parent.value in ns
               then ns[n.parent.value := ns[n.parent.value].(kids := Without(ns[n.parent.value].kids, c))]
               else ns;
    if n.parent.Some? && n.parent.value in ns {
      var q := n.parent.value;
      DistinctNoDup(ns[q].kids);
      NoDupWithout(ns[q].kids, c);
      UpdateClosed(ns, n.parent.value, ns[n.parent.value].(kids := Without(ns[n.parent.value].kids, c)));
    }
    var ns1 := ns0[c := ns0[c].(parent := None)];
    DistinctNoDup(ns0[c].kids);
    UpdateClosed(ns0, c, ns0[c].(parent := None));
    assert ns1 == Detach(ns, c);
    var kids := InsertBeforeIn(Without(ns[p].kids, c), c, rc);
    DistinctNoDup(ns[p].kids);
    NoDupWithout(ns[p].kids, c);
    NoDupInsertBeforeIn(Without(ns[p].kids, c), c, rc);
    var ns2 := ns1[p := ns1[p].(kids := kids)];
    UpdateClosed(ns1, p, ns1[p].(kids := kids));
    DistinctNoDup(ns2[c].kids);
    UpdateClosed(ns2, c, ns2[c].(parent := Some(p)));
  }

  /** Inserting a detached node that is not yet a child of `p` only links it
      in: `p` gains it before the reference child (or last), it gains `p` as
      its parent, and nothing else changes. */
  lemma InsertDetached(ns: Nodes, p: Handle, c: Handle, ref: Option<Handle>)
    requires PreInsertOk(ns, p, c, ref) && ns[c].parent.None? && c !in ns[p].kids
    ensures var r := Inserted(ns, p, c, ref);
            r.Keys == ns.Keys && r[p] == ns[p].(kids := InsertBeforeIn(ns[p].kids, c, ref)) &&
            r[c] == ns[c].(parent := Some(p)) &&
            forall k :: k in ns && k != p && k != c ==> r[k] == ns[k]
  {
    assert ref != Some(c);
  }

  /** The check of the DOM's removeChild: `c` is a child of `p` (otherwise
      the DOM throws a NotFoundError). */
  predicate RemoveOk(ns: Nodes, p: Handle, c: Handle) {
    p in ns && c in ns && c in ns[p].kids
  }

  /** `removeChild(c)` on parent `p`. */
  function Removed(ns: Nodes, p: Handle, c: Handle): (r: Nodes)
    requires RemoveOk(ns, p, c)
    ensures r.Keys == ns.Keys
    ensures c !in r[p].kids && r[c].parent.None?
    ensures p != c ==> r[p] == ns[p].(kids := Without(ns[p].kids, c))
    ensures forall k :: k in ns && k != p && k != c ==> r[k] == ns[k]
  {
    var ns1 := ns[p := ns[p].(kids := Without(ns[p].kids, c))];
    ns1[c := ns1[c].(parent := None)]
  }

  lemma RemovedClosed(ns: Nodes, p: Handle, c: Handle)
    requires Closed(ns) && RemoveOk(ns, p, c)
    ensures Closed(Removed(ns, p, c))
  {
    DistinctNoDup(ns[p].kids);
    NoDupWithout(ns[p].kids, c);
    UpdateClosed(ns, p, ns[p].(kids := Without(ns[p].kids, c)));
  }

  /** Setting `textContent`. On a text node it replaces the data; on an
      element it detaches every child and, for a non-empty string, gives the
      element one created text child `created` holding it. */
  function TextSet(ns: Nodes, h: Handle, t: string, created: Handle): (r: Nodes)
    requires h in ns && created !in ns
    ensures h in r && r[h].attrs == ns[h].attrs && r[h].parent == ns[h].parent
    ensures ns[h].kind.TextNode? ==> r == ns[h := ns[h].(kind := TextNode(t))]
    ensures ns[h].kind.ElementNode? ==>
              r[h].kind == ns[h].kind &&
              (t == "" ==> r[h].kids == [] && r.Keys == ns.Keys) &&
              (t != "" ==> r[h].kids == [created] && created in r && r[created].kind == TextNode(t) &&
                           r.Keys == ns.Keys + {created})
    ensures forall k :: k in ns && k != h && k !in ns[h].kids ==> r[k] == ns[k]
    ensures forall k :: k in ns && k != h ==> SameContent(r[k], ns[k])
  {
    var n := ns[h];
    if n.kind.TextNode? then ns[h := n.(kind := TextNode(t))]
    else
      var cleared := map k | k in ns :: if k in n.kids && k != h then ns[k].(parent := None) else ns[k];
      if t == "" then cleared[h := n.(kids := [])]
      else cleared[h := n.(kids := [created])][created := HostNode(TextNode(t), map[], [], Some(h))]
  }

  lemma TextSetClosed(ns: Nodes, h: Handle, t: string, created: Handle)
    requires Closed(ns) && h in ns && created !in ns
    ensures Closed(TextSet(ns, h, t, created))
  {
    var r := TextSet(ns, h, t, created);
    forall k | k in r
      ensures k !in r[k].kids && Distinct(r[k].kids) && (forall q :: q in r[k].kids ==> q in r) &&
              (r[k].parent.Some? ==> r[k].parent.value in r)
    {
      if k == h {
        if ns[h].kind.ElementNode? && t != "" {
          assert multiset([created])[created] == 1;
        }
      } else if k !in ns {
        assert k == created && r[k].kids == [];
      } else {
        assert SameContent(r[k], ns[k]);
      }
    }
  }

  /** The `nextSibling` of `h` as the DOM defines it: the child after `h` in
      its parent's list, or none when it is detached or last. */
  function NextSibling(ns: Nodes, h: Handle): (r: Option<Handle>)
    ensures r.Some? ==> h in ns && ns[h].parent.Some? && ns[h].parent.value in ns &&
                        r == NextIn(ns[ns[h].parent.value].kids, h)
    ensures h in ns && ns[h].parent.None? ==> r.None?
  {
    if h in ns && ns[h].parent.Some? && ns[h].parent.value in ns
    then NextIn(ns[ns[h].parent.value].kids, h)
    else None
  }

  // ---------------------------------------------------------------------------
  // Properties of the mutations

  lemma {:induction false} NoDupCount(s: seq<Handle>, x: Handle)
    requires NoDup(s) && x in s
    ensures multiset(s)[x] == 1
  {
    if s[0] == x {
      assert s == [x] + s[1..];
      assert x !in s[1..];
    } else {
      assert s == [s[0]] + s[1..];
      NoDupCount(s[1..], x);
    }
  }

  /** Inserting a node that is already a child of `p` moves it: the parent's
      children afterwards are a permutation of those before. */
  lemma InsertMovesExistingChild(ns: Nodes, p: Handle, c: Handle, ref: Option<Handle>)
    requires PreInsertOk(ns, p, c, ref)
    requires NoDup(ns[p].kids) && c in ns[p].kids
    ensures multiset(Inserted(ns, p, c, ref)[p].kids) == multiset(ns[p].kids)
  {
    var w := Without(ns[p].kids, c);
    NoDupCount(ns[p].kids, c);
    WithoutCount(ns[p].kids, c);
    InsertBeforeInCount(w, c, ReferenceChild(ns, p, c, ref));
  }

  /** Inserting a node that is not yet a child of `p` adds exactly that node. */
  lemma InsertAddsNewChild(ns: Nodes, p: Handle, c: Handle, ref: Option<Handle>)
    requires PreInsertOk(ns, p, c, ref)
    requires c !in ns[p].kids
    ensures multiset(Inserted(ns, p, c, ref)[p].kids) == multiset(ns[p].kids) + multiset{c}
  {
    WithoutCount(ns[p].kids, c);
    InsertBeforeInCount(Without(ns[p].kids, c), c, ReferenceChild(ns, p, c, ref));
    assert multiset(ns[p].kids)[c] == 0;
    assert multiset(ns[p].kids)[c := 0] == multiset(ns[p].kids);
  }

  lemma {:induction false} WithoutCount(s: seq<Handle>, x: Handle)
    ensures multiset(Without(s, x)) == multiset(s)[x := 0]
  {
    if s != [] {
      assert s == [s[0]] + s[1..];
      WithoutCount(s[1..], x);
    }
  }

  lemma InsertBeforeInCount(s: seq<Handle>, x: Handle, ref: Option<Handle>)
    ensures multiset(InsertBeforeIn(s, x, ref)) == multiset(s) + multiset{x}
  {
    if ref.Some? && ref.value in s {
      var k := IndexOf(s, ref.value);
      assert s == s[..k] + s[k..];
      assert InsertBeforeIn(s, x, ref) == s[..k] + [x] + s[k..];
    }
  }

  /** `x` lands immediately before `r`. */
  lemma InsertBeforeInPlaces(s: seq<Handle>, x: Handle, r: Handle)
    requires r in s && x !in s
    ensures var t := InsertBeforeIn(s, x, Some(r));
            x in t && r in t && IndexOf(t, r) == IndexOf(t, x) + 1
  {
    var t := InsertBeforeIn(s, x, Some(r));
    var k := IndexOf(s, r);
    assert t == s[..k] + [x] + s[k..];
    assert x !in s[..k] && t[..k] == s[..k];
    assert IndexOf(t, x) == k;
    assert t[k + 1] == r;
    assert t[..k + 1] == s[..k] + [x];
    assert r !in t[..k + 1];
  }

  /** After a successful insert, `c` sits immediately before the reference
      child (when there is one other than `c`). */
  lemma InsertPlacesBeforeReference(ns: Nodes, p: Handle, c: Handle, r: Handle)
    requires PreInsertOk(ns, p, c, Some(r)) && r != c
    ensures var ks := Inserted(ns, p, c, Some(r))[p].kids;
            c in ks && r in ks && IndexOf(ks, r) == IndexOf(ks, c) + 1
  {
    assert ReferenceChild(ns, p, c, Some(r)) == Some(r);
    InsertBeforeInPlaces(Without(ns[p].kids, c), c, r);
  }

  /** `x` is a child of `p`, placed immediately before `ref`, or last when
      there is no reference. */
  ghost predicate PlacedBefore(ns: Nodes, p: Handle, x: Handle, ref: Option<Handle>) {
    IsChild(ns, p, x) &&
    (ref.None? ==> ns[p].kids[|ns[p].kids| - 1] == x) &&
    (ref.Some? && ref.value != x ==>
       ref.value in ns[p].kids && IndexOf(ns[p].kids, ref.value) == IndexOf(ns[p].kids, x) + 1)
  }

  /** `x` is one of `p`'s children. */
  ghost predicate IsChild(ns: Nodes, p: Handle, x: Handle) {
    p in ns && x in ns && ns[x].parent == Some(p) && x in ns[p].kids
  }

  /** A successful `insertBefore(c, ref)` on `p` places `c` before `ref`. */
  lemma InsertPlaces(ns: Nodes, p: Handle, c: Handle, ref: Option<Handle>)
    requires PreInsertOk(ns, p, c, ref)
    ensures PlacedBefore(Inserted(ns, p, c, ref), p, c, ref)
  {
    if ref.Some? && ref.value != c {
      InsertPlacesBeforeReference(ns, p, c, ref.value);
    }
  }

  /** Taking `x` out of a concatenation takes it out of each part. */
  lemma {:induction false} WithoutAppend(a: seq<Handle>, b: seq<Handle>, x: Handle)
    ensures Without(a + b, x) == Without(a, x) + Without(b, x)
  {
    if a != [] {
      var hd := if a[0] == x then [] else [a[0]];
      var ab := a + b;
      assert ab[0] == a[0] && ab[1..] == a[1..] + b;
      WithoutAppend(a[1..], b, x);
      calc {
        Without(ab, x);
        hd + Without(a[1..] + b, x);
        hd + (Without(a[1..], x) + Without(b, x));
        (hd + Without(a[1..], x)) + Without(b, x);
      }
    } else {
      assert a + b == b;
    }
  }

  /** Removing the elements of `xs` one at a time equals removing them all. */
  lemma {:induction false} WithoutAllStep(s: seq<Handle>, xs: set<Handle>, x: Handle)
    ensures Without(WithoutAll(s, xs), x) == WithoutAll(s, xs + {x})
  {
    if s != [] {
      var hd := if s[0] in xs then [] else [s[0]];
      WithoutAppend(hd, WithoutAll(s[1..], xs), x);
      WithoutAllStep(s[1..], xs, x);
      if s[0] !in xs {
        assert hd[1..] == [];
      }
    }
  }

  /** Taking elements out keeps the survivors in their original relative
      order. */
  lemma {:induction false} WithoutAllKeepsOrder(s: seq<Handle>, xs: set<Handle>, i: nat, j: nat)
    requires NoDup(s) && i < j < |s| && s[i] !in xs && s[j] !in xs
    ensures var r := WithoutAll(s, xs);
            s[i] in r && s[j] in r && IndexOf(r, s[i]) < IndexOf(r, s[j])
  {
    var hd := if s[0] in xs then [] else [s[0]];
    var rest := WithoutAll(s[1..], xs);
    assert WithoutAll(s, xs) == hd + rest;
    assert s[1..][j - 1] == s[j];
    assert s[j] != s[0];
    if i == 0 {
      assert s[j] in s[1..];
      IndexOfCons(s[0], rest, s[j]);
    } else {
      assert NoDup(s[1..]) by {
        forall a, b | 0 <= a < b < |s[1..]| ensures s[1..][a] != s[1..][b] {
          assert s[1..][a] == s[a + 1] && s[1..][b] == s[b + 1];
        }
      }
      assert s[1..][i - 1] == s[i];
      WithoutAllKeepsOrder(s[1..], xs, i - 1, j - 1);
      if s[0] !in xs {
        IndexOfCons(s[0], rest, s[i]);
        IndexOfCons(s[0], rest, s[j]);
      } else {
        assert hd + rest == rest;
      }
    }
  }

  /** `x` is a child of `p` and `m` is the child right after it. */
  ghost predicate PlacedAfter(ns: Nodes, p: Handle, x: Handle, m: Handle) {
    IsChild(ns, p, x) && IsChild(ns, p, m) &&
    IndexOf(ns[p].kids, m) == IndexOf(ns[p].kids, x) + 1
  }

  lemma Adjacent(a: seq<Handle>, x: Handle, m: Handle, b: seq<Handle>)
    requires x !in a && m !in a && m != x
    ensures var t := a + [x] + [m] + b;
            x in t && m in t && IndexOf(t, m) == IndexOf(t, x) + 1
  {
    var t := a + [x] + [m] + b;
    var ax, mb := a + [x], [m] + b;
    assert t == a + ([x] + mb) && t == ax + mb;
    IndexOfAt(a, [x] + mb, x);
    assert m !in ax;
    IndexOfAt(ax, mb, m);
  }

  lemma InsertBeforeAt(a: seq<Handle>, b: seq<Handle>, m: Handle)
    requires b != [] && b[0] !in a
    ensures InsertBeforeIn(a + b, m, Some(b[0])) == a + [m] + b
  {
    var t := InsertBeforeIn(a + b, m, Some(b[0]));
    IndexOfAt(a, b, b[0]);
    var k := |a|;
    assert (a + b)[..k] == a && (a + b)[k..] == b;
    assert t == t[..k] + [t[k]] + t[k + 1..];
  }

  /** Inserting before the head of `b`, or at the end when `b` is empty. */
  lemma InsertAtJoin(a: seq<Handle>, b: seq<Handle>, m: Handle, rc: Option<Handle>)
    requires rc == (if b == [] then None else Some(b[0]))
    requires b != [] ==> b[0] !in a
    ensures InsertBeforeIn(a + b, m, rc) == a + [m] + b
  {
    if b != [] {
      InsertBeforeAt(a, b, m);
    } else {
      assert a + b == a;
    }
  }

  lemma WithoutCons(r: Handle, tail: seq<Handle>, m: Handle)
    ensures Without([r] + tail, m) == (if r == m then [] else [r]) + Without(tail, m)
  {
    assert ([r] + tail)[0] == r && ([r] + tail)[1..] == tail;
  }

  /** The reference `insertBefore(m, x.nextSibling)` ends up using on the
      child list `s`: `x`'s next sibling, or `m`'s own when that is `m`. */
  function AfterRef(s: seq<Handle>, x: Handle, m: Handle): Option<Handle> {
    if NextIn(s, x) == Some(m) then NextIn(s, m) else NextIn(s, x)
  }

  /** The element after `x` in `pre + [x] + post`, when `x` is not in `pre`. */
  lemma NextInAt(pre: seq<Handle>, x: Handle, post: seq<Handle>)
    requires x !in pre
    ensures NextIn(pre + [x] + post, x) == if post == [] then None else Some(post[0])
  {
    var s := pre + [x] + post;
    assert s == pre + ([x] + post);
    IndexOfAt(pre, [x] + post, x);
    if post != [] {
      assert s[|pre| + 1] == post[0];
    }
  }

  /** Splitting `s` at `x`: what comes before it, with `m` taken out, and
      the rest. */
  lemma SplitAt(s: seq<Handle>, x: Handle, m: Handle) returns (pre: seq<Handle>, wpre: seq<Handle>, post: seq<Handle>)
    requires NoDup(s) && x in s && x != m
    ensures s == (pre + [x]) + post && x !in pre
    ensures wpre == Without(pre, m) && x !in wpre && m !in wpre + [x]
    ensures Without(s, m) == (wpre + [x]) + Without(post, m)
    ensures forall y :: y in pre + [x] ==> y !in post
    ensures forall y :: y in wpre + [x] ==> y !in post
    ensures NoDup(post)
  {
    var i := IndexOf(s, x);
    pre := s[..i];
    post := s[i + 1..];
    wpre := Without(pre, m);
    assert s == (pre + [x]) + post;
    NoDupSplit(s, i + 1);
    assert s[..i + 1] == pre + [x] && s[i + 1..] == post;
    WithoutAppend(pre + [x], post, m);
    WithoutAppend(pre, [x], m);
    WithoutCons(x, [], m);
  }

  /** The child list after the move is `wpre + [x] + [m] + b` for some `b`. */
  lemma AfterShape(s: seq<Handle>, x: Handle, m: Handle) returns (wpre: seq<Handle>, b: seq<Handle>)
    requires NoDup(s) && x in s && x != m
    ensures x !in wpre && m !in wpre
    ensures InsertBeforeIn(Without(s, m), m, AfterRef(s, x, m)) == wpre + [x] + [m] + b
  {
    var pre, post;
    pre, wpre, post := SplitAt(s, x, m);
    NextInAt(pre, x, post);
    if post == [] {
      assert AfterRef(s, x, m).None?;
      InsertAtJoin(wpre + [x], [], m, None);
      b := [];
    } else if post[0] == m {
      NoDupSplit(post, 1);
      assert post[..1] == [m];
      assert AfterRef(s, x, m) == NextIn(s, m);
      b := AfterSkip(s, x, m, pre, wpre, post);
    } else {
      assert AfterRef(s, x, m) == Some(post[0]);
      b := AfterKeep(s, x, m, wpre, post);
    }
  }

  /** The case where another node followed `x`. */
  lemma AfterKeep(s: seq<Handle>, x: Handle, m: Handle, wpre: seq<Handle>, post: seq<Handle>) returns (b: seq<Handle>)
    requires post != [] && post[0] != m && post[0] !in wpre + [x]
    requires Without(s, m) == (wpre + [x]) + Without(post, m)
    ensures InsertBeforeIn(Without(s, m), m, Some(post[0])) == wpre + [x] + [m] + b
  {
    var tail := post[1..];
    assert post == [post[0]] + tail;
    WithoutCons(post[0], tail, m);
    b := [post[0]] + Without(tail, m);
    InsertAtJoin(wpre + [x], b, m, Some(post[0]));
  }

  /** The case where `m` already followed `x`. */
  lemma AfterSkip(s: seq<Handle>, x: Handle, m: Handle, pre: seq<Handle>, wpre: seq<Handle>, post: seq<Handle>)
    returns (b: seq<Handle>)
    requires s == (pre + [x]) + post && x !in pre && m !in pre + [x] && m !in wpre + [x]
    requires post != [] && post[0] == m && m !in post[1..]
    requires forall y :: y in wpre + [x] ==> y !in post
    requires Without(s, m) == (wpre + [x]) + Without(post, m)
    ensures InsertBeforeIn(Without(s, m), m, NextIn(s, m)) == wpre + [x] + [m] + b
  {
    var a := wpre + [x];
    b := post[1..];
    assert post == [m] + b;
    assert s == (pre + [x]) + [m] + b;
    NextInAt(pre + [x], m, b);
    WithoutCons(m, b, m);
    assert Without(post, m) == [] + b == b;
    assert b != [] ==> b[0] in post;
    InsertAtJoin(a, b, m, NextIn(s, m));
  }

  /** The child list `insertBefore(m, x.nextSibling)` leaves behind: `m`
      lands immediately after `x`, also when `m` was already `x`'s next
      sibling (the DOM then uses `m`'s own next sibling as reference). */
  lemma InsertAfterIn(s: seq<Handle>, x: Handle, m: Handle)
    requires NoDup(s) && x in s && x != m
    ensures var t := InsertBeforeIn(Without(s, m), m, AfterRef(s, x, m));
            x in t && m in t && IndexOf(t, m) == IndexOf(t, x) + 1
  {
    var wpre, b := AfterShape(s, x, m);
    Adjacent(wpre, x, m, b);
  }

  /** `parentElm.insertBefore(m, x.nextSibling)` on a closed store: `m`
      becomes a child of `p`, and when `x` is (still) a child of `p`, `m` is
      the child right after it. */
  lemma InsertAfterPlaces(ns: Nodes, p: Handle, x: Handle, m: Handle)
    requires Closed(ns) && x != m && PreInsertOk(ns, p, m, NextSibling(ns, x))
    ensures var r := Inserted(ns, p, m, NextSibling(ns, x));
            IsChild(r, p, m) && (IsChild(r, p, x) ==> PlacedAfter(r, p, x, m))
  {
    var ref := NextSibling(ns, x);
    var r := Inserted(ns, p, m, ref);
    if IsChild(r, p, x) {
      assert ns[x].parent == Some(p);
      assert x in ns[p].kids;
      assert ref == NextIn(ns[p].kids, x);
      DistinctNoDup(ns[p].kids);
      InsertAfterIn(ns[p].kids, x, m);
    }
  }

  lemma IndexOfCons(h: Handle, t: seq<Handle>, x: Handle)
    requires x in t && x != h
    ensures IndexOf([h] + t, x) == IndexOf(t, x) + 1
  {
    assert ([h] + t)[1..] == t;
  }

  // ---------------------------------------------------------------------------
  // The host itself

  class Host {
    var nodes: Nodes
    /** The next created handle. */
    var next: Handle

    /** Handles below `next` only; child lists and parents name existing
        nodes; no node is its own child. */
    ghost predicate Valid()
      reads this
    {
      Closed(nodes) && forall h :: h in nodes ==> h < next
    }

    constructor ()
      ensures Valid() && nodes == map[] && next == 0
    {
      nodes := map[];
      next := 0;
    }

    /** `document.createElement(tag)`: a created, detached, childless element. */
    method CreateElement(tag: string) returns (h: Handle)
      requires Valid()
      modifies this
      ensures Valid()
      ensures h == old(next) && next == h + 1 && h !in old(nodes)
      ensures nodes == old(nodes)[h := HostNode(ElementNode(tag), map[], [], None)]
    {
      h := next;
      nodes := nodes[h := HostNode(ElementNode(tag), map[], [], None)];
      next := next + 1;
    }

    /** `document.createTextNode(data)`: a created, detached text node. */
    method CreateTextNode(data: string) returns (h: Handle)
      requires Valid()
      modifies this
      ensures Valid()
      ensures h == old(next) && next == h + 1 && h !in old(nodes)
      ensures nodes == old(nodes)[h := HostNode(TextNode(data), map[], [], None)]
    {
      h := next;
      nodes := nodes[h := HostNode(TextNode(data), map[], [], None)];
      next := next + 1;
    }

    /** `elm.setAttribute(name, value)`; only elements carry attributes. */
    method SetAttribute(h: Handle, name: string, value: string) returns (ok: bool)
      requires Valid()
      modifies this
      ensures Valid() && next == old(next)
      ensures ok == (h in old(nodes) && old(nodes)[h].kind.ElementNode?)
      ensures nodes == if ok then old(nodes)[h := old(nodes)[h].(attrs := old(nodes)[h].attrs[name := value])]
                       else old(nodes)
    {
      ok := h in nodes && nodes[h].kind.ElementNode?;
      if ok {
        nodes := nodes[h := nodes[h].(attrs := nodes[h].attrs[name := value])];
      }
    }

    /** `elm.textContent = t`. */
    method SetTextContent(h: Handle, t: string) returns (ok: bool)
      requires Valid()
      modifies this
      ensures Valid() && old(next) <= next
      ensures ok == (h in old(nodes))
      ensures nodes == if ok then TextSet(old(nodes), h, t, old(next)) else old(nodes)
    {
      ok := h in nodes;
      if ok {
        var n := nodes[h];
        TextSetClosed(nodes, h, t, next);
        nodes := TextSet(nodes, h, t, next);
        if n.kind.ElementNode? && t != "" {
          next := next + 1;
        }
      }
    }

    /** `p.insertBefore(c, ref)`, with `ref == None` meaning append. */
    method InsertBefore(p: Handle, c: Handle, ref: Option<Handle>) returns (ok: bool)
      requires Valid()
      modifies this
      ensures Valid() && next == old(next)
      ensures ok == PreInsertOk(old(nodes), p, c, ref)
      ensures nodes == if ok then Inserted(old(nodes), p, c, ref) else old(nodes)
    {
      ok := PreInsertOk(nodes, p, c, ref);
      if ok {
        InsertedClosed(nodes, p, c, ref);
        nodes := Inserted(nodes, p, c, ref);
      }
    }

    /** `p.appendChild(c)`: insertion with no reference child. */
    method AppendChild(p: Handle, c: Handle) returns (ok: bool)
      requires Valid()
      modifies this
      ensures Valid() && next == old(next)
      ensures ok == PreInsertOk(old(nodes), p, c, None)
      ensures nodes == if ok then Inserted(old(nodes), p, c, None) else old(nodes)
    {
      ok := InsertBefore(p, c, None);
    }

    /** `p.removeChild(c)`. */
    method RemoveChild(p: Handle, c: Handle) returns (ok: bool)
      requires Valid()
      modifies this
      ensures Valid() && next == old(next)
      ensures ok == RemoveOk(old(nodes), p, c)
      ensures nodes == if ok then Removed(old(nodes), p, c) else old(nodes)
    {
      ok := RemoveOk(nodes, p, c);
      if ok {
        RemovedClosed(nodes, p, c);
        nodes := Removed(nodes, p, c);
      }
    }
  }
}
