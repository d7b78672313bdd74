/** The index walk of `updateChildren` as a pure function of the two child
    lists. Which branch fires at each turn depends only on the keys and tags
    of the vnodes, never on the host tree, so the whole sequence of turns is
    fixed before any of them runs. The vnode variables of the loop
    (`oldStartVnode` and the rest) are kept as the index they were last
    loaded from; the index can lag behind its pointer, exactly as the
    variable can hold a stale vnode in the source. */
module Diff {
  import opened Util
  import opened VNodes

  /** The map `createKeyToOldIdx(cs, b, e)` returns: it sets
      `key(cs[i]) -> i` for `i` from `b` up to `e - 1`, so a later index
      overwrites an earlier one with the same key. Every value is an index
      of the range whose vnode has that key. */
  function KeyToOldIdx(cs: seq<VNode>, b: int, e: int): (m: map<Option<Key>, int>)
    requires b < e ==> 0 <= b && e <= |cs|
    decreases e - b
    ensures forall k :: k in m ==> b <= m[k] < e && cs[m[k]].key == k
  {
    if e <= b then map[] else KeyToOldIdx(cs, b, e - 1)[cs[e - 1].key := e - 1]
  }

  /** Every key of the half-open range `[b, e)` is present, and maps to
      the largest index in the range that carries it. */
  lemma {:induction false} KeyToOldIdxSpec(cs: seq<VNode>, b: int, e: int)
    requires b < e ==> 0 <= b && e <= |cs|
    ensures forall i :: b <= i < e ==> cs[i].key in KeyToOldIdx(cs, b, e)
    ensures forall i :: b <= i < e ==> i <= KeyToOldIdx(cs, b, e)[cs[i].key]
    decreases e - b
  {
    if b < e {
      KeyToOldIdxSpec(cs, b, e - 1);
      var m := KeyToOldIdx(cs, b, e - 1);
      var r := m[cs[e - 1].key := e - 1];
      assert KeyToOldIdx(cs, b, e) == r;
      forall i | b <= i < e
        ensures cs[i].key in r && i <= r[cs[i].key]
      {
        if cs[i].key != cs[e - 1].key {
          assert i < e - 1 && r[cs[i].key] == m[cs[i].key];
        }
      }
    }
  }

  /** The state of the loop of `updateChildren`: its four pointers, the
      index each vnode variable was loaded from, and the key map once it has
      been built. */
  datatype Cursor = Cursor(oldStartIdx: int, oldEndIdx: int, newStartIdx: int, newEndIdx: int,
                           oldStartAt: int, oldEndAt: int, newStartAt: int, newEndAt: int,
                           oldKeyToIdx: Option<map<Option<Key>, int>>)

  /** One turn of the loop, naming the vnodes it uses by index. `src` and
      `dst` are the pair handed to `patchVnode(oldCh[src], ch[dst])`. */
  datatype Step =
    | HeadHead(src: int, dst: int)
      /** old start matches new start: patched in place */
    | TailTail(src: int, dst: int)
      /** old end matches new end: patched in place */
    | TailHead(src: int, dst: int, ref: int)
      /** old end matches new start: patched, then its host node is moved
          before that of `oldCh[ref]` */
    | HeadTail(src: int, dst: int, moved: int, matched: int)
      /** old start `oldCh[moved]` matches new end `ch[matched]`, but the
          pair patched is `(oldCh[src], ch[dst])`, the old end and the new
          start; then the host node of `oldCh[moved]` is moved after that of
          `oldCh[src]` */
    | Keyed(src: int, dst: int, ref: int)
      /** the new start's key is found at `src` in the key map: patched,
          then moved before the host node of `oldCh[ref]` */
    | Unkeyed(dst: int)
      /** the new start's key is not in the key map: it is created, and the
          insertion then throws, ending the whole update */

  function Start(oldCh: seq<VNode>, ch: seq<VNode>): Cursor {
    Cursor(0, |oldCh| - 1, 0, |ch| - 1, 0, |oldCh| - 1, 0, |ch| - 1, None)
  }

  /** The loop test. */
  predicate Running(c: Cursor) {
    c.oldStartIdx <= c.oldEndIdx && c.newStartIdx <= c.newEndIdx
  }

  /** The number of vnodes still between the pointers, less two. */
  function Measure(c: Cursor): int {
    (c.oldEndIdx - c.oldStartIdx) + (c.newEndIdx - c.newStartIdx)
  }

  /** What holds at the top of every turn: the pointers stay inside the
      lists and cross by at most one, and while the loop runs each vnode
      variable holds a vnode of its list (never `undefined`), and the key
      map names vnodes of the old list by their keys. */
  ghost predicate Inv(oldCh: seq<VNode>, ch: seq<VNode>, c: Cursor) {
    0 <= c.oldStartIdx <= c.oldEndIdx + 1 && c.oldEndIdx < |oldCh| &&
    0 <= c.newStartIdx <= c.newEndIdx + 1 && c.newEndIdx < |ch| &&
    c.newStartAt <= c.newStartIdx && c.newEndAt == c.newEndIdx &&
    (Running(c) ==>
       0 <= c.oldStartAt < |oldCh| && 0 <= c.oldEndAt < |oldCh| &&
       0 <= c.newStartAt < |ch| && 0 <= c.newEndAt < |ch|) &&
    (c.oldKeyToIdx.Some? ==> KeyMapOf(oldCh, c.oldKeyToIdx.value))
  }

  /** Every key of `m` maps to an index of `cs` whose vnode has that key. */
  ghost predicate KeyMapOf(cs: seq<VNode>, m: map<Option<Key>, int>) {
    forall k :: k in m ==> 0 <= m[k] < |cs| && cs[m[k]].key == k
  }

  /** Every index a step names is an index of its list. */
  ghost predicate StepIn(oldCh: seq<VNode>, ch: seq<VNode>, st: Step) {
    0 <= st.dst < |ch| &&
    (!st.Unkeyed? ==> 0 <= st.src < |oldCh|) &&
    (st.TailHead? || st.Keyed? ==> 0 <= st.ref < |oldCh|) &&
    (st.HeadTail? ==> 0 <= st.moved < |oldCh| && 0 <= st.matched < |ch|)
  }

  lemma StartInv(oldCh: seq<VNode>, ch: seq<VNode>)
    ensures Inv(oldCh, ch, Start(oldCh, ch))
  {
  }

  /** One turn of the loop. The two `isUndef` branches never fire (the
      invariant keeps both old vnode variables defined), so the turn is
      decided by the four `sameVnode` tests and then the key map. */
  function Next(oldCh: seq<VNode>, ch: seq<VNode>, c: Cursor): (r: (Step, Cursor))
    requires Inv(oldCh, ch, c) && Running(c)
    ensures Inv(oldCh, ch, r.1) && StepIn(oldCh, ch, r.0) && PairOk(oldCh, ch, r.0)
    ensures Measure(r.1) < Measure(c)
  {
    var oldStart := oldCh[c.oldStartAt];
    var oldEnd := oldCh[c.oldEndAt];
    var newStart := ch[c.newStartAt];
    var newEnd := ch[c.newEndAt];
    if SameVnode(oldStart, newStart) then
      (HeadHead(c.oldStartAt, c.newStartAt),
       c.(oldStartIdx := c.oldStartIdx + 1, newStartIdx := c.newStartIdx + 1,
          oldStartAt := c.oldStartIdx + 1, newStartAt := c.newStartIdx + 1))
    else if SameVnode(oldEnd, newEnd) then
      (TailTail(c.oldEndAt, c.newEndAt),
       c.(oldEndIdx := c.oldEndIdx - 1, newEndIdx := c.newEndIdx - 1,
          oldEndAt := c.oldEndIdx - 1, newEndAt := c.newEndIdx - 1))
    else if SameVnode(oldEnd, newStart) then
      // newStartVnode is not reloaded; oldStartVnode is reloaded from the
      // unchanged oldStartIdx
      (TailHead(c.oldEndAt, c.newStartAt, c.oldStartAt),
       c.(oldEndIdx := c.oldEndIdx - 1, newStartIdx := c.newStartIdx + 1,
          oldEndAt := c.oldEndIdx - 1, oldStartAt := c.oldStartIdx))
    else if SameVnode(oldStart, newEnd) then
      // patches (oldEndVnode, newStartVnode), and reloads oldStartVnode
      // from oldEndIdx
      (HeadTail(c.oldEndAt, c.newStartAt, c.oldStartAt, c.newEndAt),
       c.(oldStartIdx := c.oldStartIdx + 1, newEndIdx := c.newEndIdx - 1,
          oldStartAt := c.oldEndIdx, newEndAt := c.newEndIdx - 1))
    else
      var m := if c.oldKeyToIdx.Some? then c.oldKeyToIdx.value else KeyToOldIdx(oldCh, c.oldStartIdx, c.oldEndIdx);
      assert KeyMapOf(oldCh, m) by {
        if c.oldKeyToIdx.None? {
          KeyToOldIdxSpec(oldCh, c.oldStartIdx, c.oldEndIdx);
        }
      }
      var c1 := c.(oldKeyToIdx := Some(m), newStartIdx := c.newStartIdx + 1, newStartAt := c.newStartIdx + 1);
      if newStart.key in m then (Keyed(m[newStart.key], c.newStartAt, c.oldStartAt), c1)
      else (Unkeyed(c.newStartAt), c1)
  }

  /** A turn patches into a new slot at or before `newStartIdx`, or into the
      slot `newEndIdx` it then gives up; the new pointers only close in. So
      the new slots strictly between the pointers are never patched. */
  lemma NextSpares(oldCh: seq<VNode>, ch: seq<VNode>, c: Cursor)
    requires Inv(oldCh, ch, c) && Running(c)
    ensures Next(oldCh, ch, c).0.dst <= c.newStartIdx || Next(oldCh, ch, c).0.dst > Next(oldCh, ch, c).1.newEndIdx
    ensures c.newStartIdx <= Next(oldCh, ch, c).1.newStartIdx && Next(oldCh, ch, c).1.newEndIdx <= c.newEndIdx
  {
  }

  /** The turns from `c` to the end of the loop: until the pointers cross,
      or up to and including a turn that throws. */
  function Run(oldCh: seq<VNode>, ch: seq<VNode>, c: Cursor): (r: (seq<Step>, Cursor))
    requires Inv(oldCh, ch, c)
    decreases Measure(c) + 2
  {
    if !Running(c) then ([], c)
    else
      var n := Next(oldCh, ch, c);
      if n.0.Unkeyed? then ([n.0], n.1)
      else
        var rest := Run(oldCh, ch, n.1);
        ([n.0] + rest.0, rest.1)
  }

  /** The walk from `c` only closes the new pointers in, and every turn of
      it patches into a new slot at or before the `newStartIdx` it ends
      with, or after the `newEndIdx` it ends with: the new slots strictly
      between the final pointers are left alone. */
  lemma {:induction false} RunSpares(oldCh: seq<VNode>, ch: seq<VNode>, c: Cursor)
    requires Inv(oldCh, ch, c)
    ensures c.newStartIdx <= Run(oldCh, ch, c).1.newStartIdx && Run(oldCh, ch, c).1.newEndIdx <= c.newEndIdx
    ensures forall i :: 0 <= i < |Run(oldCh, ch, c).0| ==>
              Run(oldCh, ch, c).0[i].dst <= Run(oldCh, ch, c).1.newStartIdx ||
              Run(oldCh, ch, c).1.newEndIdx < Run(oldCh, ch, c).0[i].dst
    decreases Measure(c) + 2
  {
    if Running(c) {
      var n := Next(oldCh, ch, c);
      NextSpares(oldCh, ch, c);
      if !n.0.Unkeyed? {
        RunSpares(oldCh, ch, n.1);
        var r := Run(oldCh, ch, c).0;
        var rest := Run(oldCh, ch, n.1).0;
        assert r == [n.0] + rest;
        forall i | 0 < i < |r|
          ensures r[i] == rest[i - 1]
        {
        }
      }
    }
  }

  /** The turns of a whole `updateChildren(parentElm, oldCh, ch)` and the
      cursor it leaves. */
  function Plan(oldCh: seq<VNode>, ch: seq<VNode>): (seq<Step>, Cursor) {
    StartInv(oldCh, ch);
    Run(oldCh, ch, Start(oldCh, ch))
  }

  /** What follows the loop. */
  datatype Rest =
    | AddRest(s: int, e: int)
      /** `addVnodes` of `ch[s..e]`, before the host node of `ch[s + 1]` */
    | RemoveRest(s: int, e: int)
      /** `removeVnodes` of `oldCh[s..e)`, end excluded */
    | NoRest

  function RestOf(c: Cursor): (r: Rest)
    ensures r.NoRest? <==> c.oldStartIdx > c.oldEndIdx && c.newStartIdx > c.newEndIdx
    ensures r.AddRest? ==> c.oldStartIdx > c.oldEndIdx && r.s == c.newStartIdx <= r.e == c.newEndIdx
    ensures r.RemoveRest? ==> r.s == c.oldStartIdx <= r.e == c.oldEndIdx
  {
    if c.oldStartIdx <= c.oldEndIdx || c.newStartIdx <= c.newEndIdx then
      if c.oldStartIdx > c.oldEndIdx then AddRest(c.newStartIdx, c.newEndIdx)
      else RemoveRest(c.oldStartIdx, c.oldEndIdx)
    else NoRest
  }

  // ---------------------------------------------------------------------------
  // Properties of the walk

  /** The walk takes at most one turn per vnode of the two lists, and every
      turn names vnodes of the lists. */
  lemma {:induction false} RunBounded(oldCh: seq<VNode>, ch: seq<VNode>, c: Cursor)
    requires Inv(oldCh, ch, c)
    ensures |Run(oldCh, ch, c).0| <= Measure(c) + 2
    ensures forall i :: 0 <= i < |Run(oldCh, ch, c).0| ==> StepIn(oldCh, ch, Run(oldCh, ch, c).0[i])
    ensures Inv(oldCh, ch, Run(oldCh, ch, c).1)
    decreases Measure(c) + 2
  {
    if Running(c) {
      var n := Next(oldCh, ch, c);
      if !n.0.Unkeyed? {
        RunBounded(oldCh, ch, n.1);
      }
    }
  }

  /** Only a turn that throws can end the walk early: otherwise the
      pointers have crossed. */
  lemma {:induction false} RunEnds(oldCh: seq<VNode>, ch: seq<VNode>, c: Cursor)
    requires Inv(oldCh, ch, c)
    ensures forall i :: 0 <= i < |Run(oldCh, ch, c).0| - 1 ==> !Run(oldCh, ch, c).0[i].Unkeyed?
    ensures Run(oldCh, ch, c).0 == [] || !Run(oldCh, ch, c).0[|Run(oldCh, ch, c).0| - 1].Unkeyed? ==>
              !Running(Run(oldCh, ch, c).1)
    decreases Measure(c) + 2
  {
    if Running(c) {
      var n := Next(oldCh, ch, c);
      if !n.0.Unkeyed? {
        RunEnds(oldCh, ch, n.1);
        var rest := Run(oldCh, ch, n.1);
        assert Run(oldCh, ch, c).0 == [n.0] + rest.0;
        if rest.0 != [] {
          assert Run(oldCh, ch, c).0[|Run(oldCh, ch, c).0| - 1] == rest.0[|rest.0| - 1];
        }
      }
    }
  }

  /** Every pair the walk patches is a matching pair (same key and tag),
      except that a key-map match only shares the key, and the head/tail
      turn patches a pair it never compared: the comparison it made was
      between `oldCh[moved]` and `ch[matched]`. */
  lemma {:induction false} RunPairs(oldCh: seq<VNode>, ch: seq<VNode>, c: Cursor)
    requires Inv(oldCh, ch, c)
    ensures forall i :: 0 <= i < |Run(oldCh, ch, c).0| ==>
              StepIn(oldCh, ch, Run(oldCh, ch, c).0[i]) && PairOk(oldCh, ch, Run(oldCh, ch, c).0[i])
    decreases Measure(c) + 2
  {
    if Running(c) {
      var n := Next(oldCh, ch, c);
      if !n.0.Unkeyed? {
        RunPairs(oldCh, ch, n.1);
        var rest := Run(oldCh, ch, n.1).0;
        var r := Run(oldCh, ch, c).0;
        assert r == [n.0] + rest;
        forall i | 0 <= i < |r|
          ensures StepIn(oldCh, ch, r[i]) && PairOk(oldCh, ch, r[i])
        {
          if i > 0 {
            assert r[i] == rest[i - 1];
          } else {
            assert r[i] == n.0;
          }
        }
      }
    }
  }

  /** What the comparison that chose a step says about its vnodes. */
  ghost predicate PairOk(oldCh: seq<VNode>, ch: seq<VNode>, st: Step)
    requires StepIn(oldCh, ch, st)
  {
    match st
    case HeadHead(src, dst) => SameVnode(oldCh[src], ch[dst])
    case TailTail(src, dst) => SameVnode(oldCh[src], ch[dst])
    case TailHead(src, dst, _) => SameVnode(oldCh[src], ch[dst])
    case HeadTail(_, _, moved, matched) => SameVnode(oldCh[moved], ch[matched])
    case Keyed(src, dst, _) => oldCh[src].key == ch[dst].key
    case Unkeyed(dst) => true
  }

  /** When a walk `trace` already taken from the start, followed by the walk
      from `c`, makes up `whole`, taking the turn at `c` keeps it so, and
      the steps taken stay a prefix of `whole`. */
  lemma PlanStep(oldCh: seq<VNode>, ch: seq<VNode>, c: Cursor, trace: seq<Step>, whole: (seq<Step>, Cursor))
    requires Inv(oldCh, ch, c) && Running(c)
    requires whole == (trace + Run(oldCh, ch, c).0, Run(oldCh, ch, c).1)
    ensures trace + [Next(oldCh, ch, c).0] <= whole.0
    ensures !Next(oldCh, ch, c).0.Unkeyed? ==>
              whole == ((trace + [Next(oldCh, ch, c).0]) + Run(oldCh, ch, Next(oldCh, ch, c).1).0,
                        Run(oldCh, ch, Next(oldCh, ch, c).1).1)
  {
    var n := Next(oldCh, ch, c);
    var rest := if n.0.Unkeyed? then [] else Run(oldCh, ch, n.1).0;
    RunUnfold(oldCh, ch, c);
    ConsAssoc(trace, n.0, rest);
  }

  lemma ConsAssoc(trace: seq<Step>, s: Step, rest: seq<Step>)
    ensures trace + ([s] + rest) == (trace + [s]) + rest
    ensures trace + [s] <= trace + ([s] + rest)
  {
  }

  /** The walk from a running cursor is its turn followed by the walk from
      the next cursor, unless that turn throws. */
  lemma RunUnfold(oldCh: seq<VNode>, ch: seq<VNode>, c: Cursor)
    requires Inv(oldCh, ch, c) && Running(c)
    ensures Run(oldCh, ch, c).0 ==
              [Next(oldCh, ch, c).0] + (if Next(oldCh, ch, c).0.Unkeyed? then [] else Run(oldCh, ch, Next(oldCh, ch, c).1).0)
    ensures !Next(oldCh, ch, c).0.Unkeyed? ==> Run(oldCh, ch, c).1 == Run(oldCh, ch, Next(oldCh, ch, c).1).1
  {
  }

  /** The two lists match position by position. */
  predicate Aligned(oldCh: seq<VNode>, ch: seq<VNode>) {
    |oldCh| == |ch| && forall i :: 0 <= i < |ch| ==> SameVnode(oldCh[i], ch[i])
  }

  /** The cursor after `i` head-to-head turns on two aligned lists of
      length `n`. */
  function HeadsAt(i: int, n: int): Cursor {
    Cursor(i, n - 1, i, n - 1, i, n - 1, i, n - 1, None)
  }

  /** On aligned lists, the turn at `HeadsAt(i, n)` is the head-to-head
      patch of `oldCh[i]` into `ch[i]`. */
  lemma AlignedNext(oldCh: seq<VNode>, ch: seq<VNode>, i: int)
    requires Aligned(oldCh, ch) && 0 <= i < |ch|
    ensures Inv(oldCh, ch, HeadsAt(i, |ch|)) && Running(HeadsAt(i, |ch|))
    ensures Next(oldCh, ch, HeadsAt(i, |ch|)) == (HeadHead(i, i), HeadsAt(i + 1, |ch|))
  {
  }

  lemma {:induction false} AlignedRun(oldCh: seq<VNode>, ch: seq<VNode>, i: int)
    requires Aligned(oldCh, ch) && 0 <= i <= |ch|
    ensures Inv(oldCh, ch, HeadsAt(i, |ch|))
    ensures Run(oldCh, ch, HeadsAt(i, |ch|)) == (seq(|ch| - i, k => HeadHead(i + k, i + k)), HeadsAt(|ch|, |ch|))
    decreases |ch| - i
  {
    if i < |ch| {
      AlignedRun(oldCh, ch, i + 1);
      AlignedNext(oldCh, ch, i);
      var rest := seq(|ch| - (i + 1), k => HeadHead(i + 1 + k, i + 1 + k));
      assert Run(oldCh, ch, HeadsAt(i, |ch|)) == ([HeadHead(i, i)] + rest, HeadsAt(|ch|, |ch|));
      assert [HeadHead(i, i)] + rest == seq(|ch| - i, k => HeadHead(i + k, i + k));
    } else {
      assert seq(|ch| - i, k => HeadHead(i + k, i + k)) == [];
    }
  }

  /** When the two lists match position by position, only the head-to-head
      branch fires: `oldCh[i]` is patched into `ch[i]` for every `i`, in
      order, nothing is moved, and nothing is left to add or remove. */
  lemma AlignedPlan(oldCh: seq<VNode>, ch: seq<VNode>)
    requires Aligned(oldCh, ch)
    ensures Plan(oldCh, ch).0 == seq(|ch|, i => HeadHead(i, i))
    ensures RestOf(Plan(oldCh, ch).1) == NoRest
  {
    AlignedRun(oldCh, ch, 0);
    assert Start(oldCh, ch) == HeadsAt(0, |ch|);
  }
}
