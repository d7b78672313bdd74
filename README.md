# SimpleVirtualDOM reconciler, modelled in Dafny

This project models `src/patch.js`, the core of a small virtual-DOM library.
A *vnode* describes a tree node: an optional key, a tag (absent for a text
node; an element vnode without one makes `createElement` receive the string
"undefined"), an optional text, a `style` map applied as attributes, and an optional
child array. The reconciler turns vnodes into host (DOM) nodes and patches an
old vnode tree into a new one:

- `createElm` builds the host subtree of a vnode and binds `elm` on every
  vnode of it;
- `addVnodes` / `removeVnodes` insert or remove the host nodes of a range of
  a child array;
- `patchVnode` makes a new vnode take over the host node of an old one, then
  updates its text or reconciles the two child lists;
- `updateChildren` is the two-ended diff over child lists: four pointers,
  four `sameVnode` comparisons per turn, then a key map as a fall-back, then
  a final add or remove of what the pointers left;
- `patch` is the entry point.

The files:

- `util.dfy`: `Option` (JavaScript's `undefined` is `None`), and `Get`, array
  indexing that yields `undefined` out of range.
- `dom.dfy`: the host document. A `Host` object owns a store of host nodes
  (kind, attributes, ordered children, parent) addressed by handles, with
  the DOM operations the reconciler calls. It includes the pre-insert rule
  of `insertBefore`: a node that already has a parent is moved, and a
  reference equal to the node is replaced by its next sibling.
  `textContent`, `removeChild`, `nextSibling`, `createElement` and
  `createTextNode` are modelled too.
- `vnode.dfy`: the `VNode` class. Its description is immutable, its `elm`
  is mutable, and a ghost height and node set carry termination and
  framing. Also `sameVnode`, and `Mounted`: the host tree shows the vnode
  tree.
- `diff.dfy`: the index walk of `updateChildren` as a pure function
  `Next`/`Plan`. Which branch fires depends only on keys and tags, so the
  whole sequence of turns is fixed before any host node is touched.
- `patch.dfy`: the reconciler itself, as imperative methods on the `Host`
  and the vnodes' `elm` fields. The loop of `updateChildren` is proved to
  take a prefix of the turns of `Plan`, all of them when nothing throws.

A JavaScript exception, from a DOM call that throws or a property read on
`undefined`, is modelled as the method returning `ok == false`. Whatever the
call had already done stays done, as it would in the program.

The model follows the code as written, including these irregularities. Each
is also marked in a comment at the place it is modelled:

- `src/patch.js:118-120`: the `isUndef(oldEndVnode)` branch steps
  `oldStartIdx` back and reloads `oldEndVnode` from it. Child arrays without
  holes never reach it (proved unreachable).
- `src/patch.js:136-139`: after the old-end/new-start match,
  `newStartVnode` is not reloaded. `oldStartVnode` is reloaded from the
  unchanged `oldStartIdx`. `Diff.Next` keeps the stale variable, as the
  index it was last loaded from.
- `src/patch.js:141`: the old-start/new-end branch patches
  `(oldEndVnode, newStartVnode)`, not the matched pair.
- `src/patch.js:142`: that branch then moves the old start after the old
  end.
- `src/patch.js:145`: that branch reloads `oldStartVnode` from `oldEndIdx`.
- `src/patch.js:149` and `:91`: the key map covers `oldCh[oldStartIdx ..
  oldEndIdx - 1]`. The old end is never found by key.
- `src/patch.js:154`: the reference handed to `insertBefore` is a vnode,
  not a host node, which is a TypeError. The new node has already been
  created at that point.
- `src/patch.js:156-158`: a slot matched by key is not marked as consumed.
- `src/patch.js:167`: the reference for the final add is the host node of
  `ch[newStartIdx + 1]`, not of `ch[newEndIdx + 1]`.
- `src/patch.js:170` and `:63`: the final removal excludes
  `oldCh[oldEndIdx]`.
- `src/patch.js:81`: `removeVnodes(elm, oldCh)` has no indices, so it
  removes nothing.
- `src/patch.js:185-186`: `elm.nextSibling` is read after `elm` has been
  removed. The replacement node therefore goes last under the parent, not
  where the old node was.

## Model

| member | source | states |
|---|---|---|
| `VNodes.SameVnode` | src/patch.js:3-5 | a vnode matches itself, and two matched vnodes have the same key and ask `createElement` for the same tag name |
| `VNodes.SameVnodeEquivalence` | src/patch.js:3-5 | `sameVnode` is reflexive, symmetric and transitive |
| `VNodes.SameVnodeIgnoresContent` | src/patch.js:3-5 | `sameVnode` looks at key and tag only: any other node with the same key and tag gives the same answer |
| `Util.Get` | src/patch.js:104-108 | reading a child array yields a vnode exactly for an index inside the array, and that vnode is the element at the index |
| `Dom.Host.CreateTextNode` | src/patch.js:15 | a fresh, detached text node holding the text; no existing node changes |
| `Dom.Host.CreateElement` | src/patch.js:24 | a fresh, detached, childless element with the tag; no existing node changes |
| `Dom.Host.SetAttribute` | src/patch.js:32 | on an element, only that element's attribute `name` is set; on anything else the call fails and nothing changes |
| `Patch.SetStyle` | src/patch.js:27-33 | every style entry becomes an attribute of the element, overriding what was there; no other node changes |
| `Patch.CreateElm` | src/patch.js:13-42 | `v` and every vnode below it get fresh host nodes; the new subtree is detached and shows `v` (same kind, text, tag, style, and children in array order); no existing host node changes |
| `Patch.BuildNext` | src/patch.js:36-37 | `createElm(node)` for the next child: its host node is fresh and detached, the child is mounted on it, no existing node changes, and the children built before stay built |
| `Patch.LinkChild` | src/patch.js:37 | `elm.appendChild(...)` of the child just built: the element now lists the first `i + 1` children's host nodes, in order, and no other old node changes |
| `Patch.AppendBuiltChild` | src/patch.js:36-38 | one `appendChild(createElm(child))`: the first `i + 1` children are built under the element, in order |
| `Dom.Host.AppendChild` | src/patch.js:37 | pre-insert succeeds exactly when the parent is an element of the store and the node exists and differs from it; the node then goes last |
| `Dom.Host.InsertBefore` | src/patch.js:54 | `insertBefore` succeeds exactly when the parent is an element, the node exists and differs from it, and the reference is absent or a child; the node is detached from its old parent and inserted before the reference |
| `Dom.NextSibling` | src/patch.js:142 | `nextSibling`: when there is one, the node has a parent in the store and the result is the child that follows it there; a detached node has none |
| `Dom.InsertPlaces` | src/patch.js:135 | after a successful `insertBefore`, the node is a child of the parent, placed immediately before the reference, or last when there is none |
| `Dom.InsertAfterIn` | src/patch.js:142 | on a child list without repeats, `insertBefore(m, x.nextSibling)` puts `m` immediately after `x`, also when `m` already followed `x` and the DOM falls back to `m`'s own next sibling |
| `Dom.InsertAfterPlaces` | src/patch.js:142 | on the store: after `insertBefore(m, x.nextSibling)`, `m` is a child of the parent, and when `x` is one too, `m` is the child right after it |
| `Dom.InsertMovesExistingChild` | src/patch.js:135 | inserting a node that is already a child of the parent only reorders: the children before and after are the same multiset |
| `Dom.InsertAddsNewChild` | src/patch.js:54 | inserting a node that is not yet a child adds exactly that node to the parent's children |
| `Patch.AddVnodes` | src/patch.js:51-56 | an empty range changes nothing; otherwise the call succeeds exactly when the parent is an element and the reference is absent or one of its children. On success the new host nodes form one run, in array order, inserted before the reference, and each vnode of the range is mounted on its node; no other old node changes, and the call may rebind `elm` only on the vnodes of the range and below them |
| `Patch.AddOne` | src/patch.js:52-55 | one `insertBefore(createElm(vs[i]), ref)` extends the run of inserted nodes by the node just created, or fails on the first turn with the old nodes unchanged |
| `Patch.InsertBuilt` | src/patch.js:54 | `insertBefore` of a node just built succeeds exactly when pre-insert allows it, and then yields the store that keeps the run built; on failure nothing changes |
| `Dom.Host.RemoveChild` | src/patch.js:65 | `removeChild` succeeds exactly when the node is a child of the parent, and then detaches it |
| `Patch.RemoveElm` | src/patch.js:65 | `parentElm.removeChild(vnode.elm)` on values that may be undefined: success and the new store as `RemoveOne` gives them |
| `Patch.RemoveVnodes` | src/patch.js:62-67 | without indices, nothing happens; otherwise the result and the new store are those of removing, in order, the host nodes of the existing slots of `vs[s..e)` (end excluded, out-of-range slots skipped), stopping at the first failure |
| `Patch.RemoveTurn` | src/patch.js:63-66 | one turn of the removal loop: a defined slot's host node is removed and the removals so far are those of `RemoveEach` up to this slot; a failure is the outcome of the whole range |
| `Patch.RemoveEachSpec` | src/patch.js:62-67 | the removals all succeed exactly when they name distinct children of the parent; the parent then keeps its other children in order, every removed node is detached, and no other node changes |
| `Dom.Host.SetTextContent` | src/patch.js:84 | on a text node the data is replaced; on an element every child is detached and a non-empty text becomes its one new text child; a missing node fails |
| `Patch.PatchVnode` | src/patch.js:68-86 | the new vnode takes over the old host node. The same object changes nothing; equal texts change nothing; a different text is written, and this fails exactly when `elm` is undefined or names no host node. A node with no text and no children changes nothing. New children only: appended whole, mounted, in order, failing exactly when the host node is not an element, and no other old host node changes. Equal child lists change nothing. Aligned lists (pairwise `sameVnode`, no shared vnode) hand every new child the host node of the old child at its index |
| `Patch.PatchChildren` | src/patch.js:75-82 | the child-list branch of `patchVnode`, with the same cases as above (the new-children-only case changing no old host node but `elm`), the old-children-only case removing nothing |
| `Patch.AppendedFromBuilt` | src/patch.js:79 | a list built and inserted with no reference is appended after the existing children, each vnode mounted on the host node at its position |
| `Patch.CreateKeyToOldIdx` | src/patch.js:88-98 | the loop builds exactly `KeyToOldIdx(cs, b, e)` |
| `Diff.KeyToOldIdx` | src/patch.js:88-98 | every key of the map maps to an index of `cs[b..e)` whose vnode carries that key |
| `Diff.KeyToOldIdxSpec` | src/patch.js:88-98 | every key of `cs[b..e)` is in the map, and maps to the last index of the range carrying it |
| `Diff.Next` | src/patch.js:114-162 | a turn keeps the loop invariant (pointers inside the lists, both old vnode variables defined), names vnodes of the lists, pairs vnodes that the comparison matched, and strictly shrinks the distance between the pointers |
| `Diff.RunBounded` | src/patch.js:114-163 | the loop takes at most one turn per vnode of the two lists, and it ends |
| `Diff.RunEnds` | src/patch.js:114-163 | only a turn on an unknown key can end the loop early; otherwise it stops with the pointers crossed |
| `Diff.RunPairs` | src/patch.js:121-159 | every patched pair was matched by `sameVnode`, except a key match, which shares only the key, and the old-start/new-end turn, which patches a pair it never compared |
| `Diff.AlignedPlan` | src/patch.js:100-173 | on two lists equal position by position under `sameVnode`, only the head-to-head branch fires: `oldCh[i]` is patched into `ch[i]` for each `i` in order, and nothing is left to add or remove |
| `Diff.RestOf` | src/patch.js:165-172 | nothing is left exactly when both ranges are used up; new vnodes are left only when the old range is used up, from `newStartIdx` to `newEndIdx`; otherwise the old range `oldStartIdx .. oldEndIdx` is left |
| `Patch.Finish` | src/patch.js:165-172 | the lines after the loop do what `Finished` says for `RestOf(c)`: nothing; or the rest of the new list built and inserted, in order, before the host node of `ch[newStartIdx + 1]` (last when undefined), succeeding exactly when the parent is an element listing that node, with no other old node changed; or the host nodes of `oldCh[oldStartIdx .. oldEndIdx)` removed one by one as `RemoveEach` gives it. The new vnodes outside `newStartIdx .. newEndIdx` keep their host nodes |
| `Patch.UpdateChildren` | src/patch.js:100-173 | the turns taken are a prefix of `Plan(oldCh, ch)`, all of it when the walk throws nothing, and then no turn met an unknown key and the final step is the one `RestOf` selects for the plan's last cursor, applied to the store the walk left (`Finished`); when the loop takes no turn (an empty old or new list), that store and its `next` handle are the call's own, so an empty old list inserts the new children among the parent's own children, before the host node `ch[1]` held before the call (appending when it held none), and an empty new list removes `oldCh[0 .. |oldCh| - 1)` from them. The ghost outputs are pinned: the host nodes `newElms` seen by the final step are those the new vnodes end with, outside the range a final add rebinds; the reference of a final add, the host node of `ch[newStartIdx + 1]` when that slot is among the vnodes added, is the one that vnode held before the call, since no turn patches it; the nodes the final add creates have handles from the walk's end on (`lo`), so none was in the store before the call; the old host nodes it removes are those the old list held before the call when it shares no vnode with the new tree. Equal lists change nothing; on aligned lists with no vnode in common every new child takes over the host node of the old child at its index |
| `Patch.Walk` | src/patch.js:114-163 | the loop runs the plan turn by turn and ends where the plan ends, with the invariant kept, unless a turn throws; the new vnode a final `addVnodes` takes its reference from keeps its host node |
| `Patch.Advance` | src/patch.js:114-163 | one pass keeps the loop invariant: the steps taken followed by the walk from the new cursor make up the plan; it rebinds `elm` only outside the subtree of that reference vnode |
| `Patch.TurnSparesAnchor` | src/patch.js:114-167 | the turn taken at any cursor of the walk patches no subtree holding the vnode `ch[newStartIdx + 1]` whose host node a final `addVnodes` inserts before |
| `Diff.NextSpares` | src/patch.js:121-162 | a turn patches into a new slot at or before `newStartIdx`, or after the `newEndIdx` it leaves, and only closes the new pointers in |
| `Diff.RunSpares` | src/patch.js:114-167 | the walk from a cursor only closes the new pointers in, and each of its turns patches a slot at or before the final `newStartIdx` or after the final `newEndIdx`: the slots strictly between them, from which `:167` takes the reference, are never patched |
| `Patch.Turn` | src/patch.js:115-162 | the turn is the one `Next` computes; the new vnode it names takes over the host node of the old one; a turn on an unknown key throws; after the old-end/new-start move and after a key move, the moved host node sits immediately before that of the old start (last when it is undefined); after the old-start/new-end move, the host node of the old start is a child of the parent, immediately after that of the old end when that one is a child of the parent too and a different node; a head-to-head turn on one and the same vnode changes nothing |
| `Patch.TurnHead` | src/patch.js:121-126 | the head-to-head turn of `Next`: the new start takes over the host node of the old start, and the same vnode on both sides changes nothing |
| `Patch.TurnTail` | src/patch.js:127-132 | the tail-to-tail turn of `Next`: the new end takes over the host node of the old end |
| `Patch.TurnCross` | src/patch.js:133-162 | the turns after both head and tail tests fail, as `Next` computes them: the new start takes over the host node of the old vnode patched, a turn on an unknown key throws, and the moved host node sits as `Patch.Turn` states |
| `Patch.TurnByKey` | src/patch.js:147-162 | the key map is built once, over `oldCh[oldStartIdx .. oldEndIdx - 1]`; a key found patches that old vnode and moves its host node before that of the old start; a key not found throws |
| `Patch.PatchThenMove` | src/patch.js:133-135 | after the patch, the old host node is a child of the parent, immediately before the host node of the reference vnode, or last when that one is undefined |
| `Patch.PatchThenMoveAfter` | src/patch.js:140-142 | after the patch of `(oldEndVnode, newStartVnode)`, the host node of the old start is a child of the parent; when the host node of the old end is a different child of the parent, the old start's node is the child right after it |
| `Patch.InsertElm` | src/patch.js:135 | `parentElm.insertBefore(x, ref)` on values that may be undefined: an undefined parent or node fails and changes nothing, and an undefined reference appends |
| `Patch.CreateThenThrow` | src/patch.js:154 | the call always throws. With no parent it throws before anything is created; otherwise the new vnode is first created and mounted on a fresh host node that has no parent, and no old node changes |
| `Patch.Patch` | src/patch.js:175-192 | no old tree: the new tree is created, mounted and detached, and no old node changes (with no new tree either, a TypeError); no new tree: nothing changes; a `sameVnode` pair is patched in place; otherwise the call succeeds exactly when the old host node has an element parent, and then the new tree is mounted and replaces it |
| `Patch.Replace` | src/patch.js:181-187 | an undefined `elm` fails before anything is created; otherwise the new tree is created and mounted. The old host node is removed from its parent and the new one put last among the parent's children; nothing else changes among the old nodes |
| `Patch.Reattach` | src/patch.js:183-186 | `parent.removeChild(elm)` then `parent.insertBefore(h, elm.nextSibling)`: succeeds exactly when `elm` has an element parent that lists it; the sibling is read after the removal, so `h` goes last |

## Left out

- The real DOM is replaced by an abstract store of host nodes. The
  HierarchyRequestError check of pre-insert, which refuses inserting an
  ancestor into its own descendant, is not modelled. It never applies in the
  calls the reconciler makes on well-formed trees.
- `isPrimitive` (`src/util.js` is not part of this model): a text is a
  string. Number or boolean texts, and their conversion to strings, are not
  modelled.
- The `modules` parameter of `init` is never used by the code and is
  omitted, and so is `init`, which only returns `patch`.
- The return value of `patch` (the new vnode) is left out.
- Child arrays are immutable sequences: array identity (`oldCh !== ch`) is
  modelled as sequence equality, and arrays with holes are not modelled.
  With holes the loop of `updateChildren` can step backwards forever
  (`src/patch.js:118-120`).
- A vnode that appears twice within one new tree is excluded: the children
  of a node are required to share no vnode. An old list may share vnodes
  with the new tree.
- A parent handle that names no node of the store stands for no JavaScript
  value, and is treated like `undefined`. `addVnodes` refuses it before
  creating anything, for a non-empty range. `removeVnodes` has no such
  check: it fails at the first slot inside the array, and an empty range
  succeeds.
- Patch.AddVnodes: the range `vs[s..e]` is required to lie inside the
  array. Both call sites meet this. Reading past the end would be
  `createElm(undefined)`, a TypeError, which is not modelled.
- Patch.UpdateChildren: the final order of the host children after a
  general diff is not stated, and the host node each new child receives is
  stated only for aligned lists. Each move is stated at its own turn
  (`Patch.Turn`) and the final add or remove by `Patch.Finish`, but later
  moves can undo earlier placements, and the irregularities listed above
  mean no simple final order holds. When the loop takes no turn, the final
  add or remove is stated against the store of the call.
- Patch.UpdateChildren: on two aligned lists the contract does not state
  that the parent's child list is left as it was. Proving it needs a frame
  on `patchVnode` limited to the host subtree below the patched node, which
  holds only while every old vnode is mounted on its host node. The model
  carries no such invariant through a patch: a key match can patch one old
  vnode twice, after which its description no longer matches its host
  subtree.
- `setAttribute` and `createElement`: the InvalidCharacterError thrown for
  an attribute name or a tag name that is not a valid name, and the
  lower-casing of names on HTML elements, are not modelled. Any string is
  accepted as a name and stored as given, so `Dom.Host.CreateElement`
  always succeeds.
- The host store's invariant (`Dom.Closed`) says that child lists and
  parents name existing nodes, that no node is its own child, and that no
  child list repeats a node. It does not say that a child's `parent` names
  the node listing it, nor that the tree has no cycle. No contract of the
  reconciler relies on either.
- Patch.Patch: for a `sameVnode` pair the contract states only that the new
  tree takes over the old host node. The rest is `Patch.PatchVnode`'s
  contract.
