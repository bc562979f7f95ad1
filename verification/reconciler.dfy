/**
 * `reconcileChildren` of src/react-dom/render/render.ts: the positional,
 * non-keyed diff of a fiber's previous child chain against its new element
 * list. `Reconciled` states the result declaratively, position by position;
 * `Reconcile` runs the source's loop (`Iter`, one turn of the body, and `Run`)
 * and `ReconcileChildren` is that loop as a method. `ReconcileMeetsSpec`
 * proves the loop computes the declarative result.
 */
module Reconciler {
  import opened Util
  import opened Elements
  import opened Fibers

  /** The old child chain: `fiber.alternate && fiber.alternate.child`, then
      `.sibling` until null. */
  function OldChain(a: Arena, f: nat): (prior: seq<nat>)
    requires Valid(a) && f < |a|
    ensures forall j :: 0 <= j < |prior| ==> prior[j] < |a|
    ensures forall i, j :: 0 <= i < j < |prior| ==> prior[i] < prior[j]
  {
    match a[f].alternate
    case None => []
    case Some(alt) =>
      assert LinksOk(a, f);
      assert LinksOk(a, alt);
      ChainIncreasing(a, a[alt].child);
      Chain(a, a[alt].child)
  }

  predicate IndicesIn(a: Arena, prior: seq<nat>)
  {
    forall j :: 0 <= j < |prior| ==> prior[j] < |a|
  }

  /** Position `j` has a prior fiber and a new element of the same type. */
  predicate Matched(a: Arena, prior: seq<nat>, els: seq<Element>, j: nat)
    requires IndicesIn(a, prior)
  {
    j < |prior| && j < |els| && a[prior[j]].tag == els[j].tag
  }

  /** Position `j` has a prior fiber with no same-type partner. */
  predicate Doomed(a: Arena, prior: seq<nat>, els: seq<Element>, j: nat)
    requires IndicesIn(a, prior)
  {
    j < |prior| && !Matched(a, prior, els, j)
  }

  /** The prior fibers pushed onto `deletion` in the first `hi` iterations. */
  function Deletions(a: Arena, prior: seq<nat>, els: seq<Element>, hi: nat): (d: seq<nat>)
    requires IndicesIn(a, prior)
    ensures forall i :: 0 <= i < |d| ==> d[i] < |a|
    decreases hi
  {
    if hi == 0 then []
    else Deletions(a, prior, els, hi - 1) + (if Doomed(a, prior, els, hi - 1) then [prior[hi - 1]] else [])
  }

  /** The sibling link of the `j`-th new fiber once the chain is complete. */
  function NextLink(base: nat, k: nat, j: nat): Option<nat>
  {
    if j + 1 < k then Some(base + j + 1) else None
  }

  /** The `j`-th new fiber: an UPDATE that reuses the prior fiber's `dom` and
      points its `alternate` at it, or a PLACEMENT with neither. */
  function NewFiber(a: Arena, f: nat, prior: seq<nat>, els: seq<Element>, j: nat): Fiber
    requires IndicesIn(a, prior) && j < |els|
  {
    if Matched(a, prior, els, j) then
      Fiber(a[prior[j]].tag, a[prior[j]].dom, els[j].props, Some(f), None, NextLink(|a|, |els|, j), Some(prior[j]), Update)
    else
      Fiber(els[j].tag, None, els[j].props, Some(f), None, NextLink(|a|, |els|, j), None, Placement)
  }

  /** Fiber `i` of the arena after `steps` iterations: retagged DELETION if it
      was pushed, and, for the reconciled fiber itself, the `child` link set by
      the first iteration. */
  function Marked(a: Arena, f: nat, prior: seq<nat>, els: seq<Element>, steps: nat, i: nat): Fiber
    requires IndicesIn(a, prior) && i < |a|
  {
    a[i].(effect := if i in Deletions(a, prior, els, steps) then Deletion else a[i].effect,
          child := if i == f && steps > 0 then (if |els| > 0 then Some(|a|) else None) else a[i].child)
  }

  function MarkAll(a: Arena, f: nat, prior: seq<nat>, els: seq<Element>, steps: nat): (m: Arena)
    requires IndicesIn(a, prior)
    ensures |m| == |a|
  {
    seq(|a|, i requires 0 <= i < |a| => Marked(a, f, prior, els, steps, i))
  }

  function NewFibers(a: Arena, f: nat, prior: seq<nat>, els: seq<Element>): (n: Arena)
    requires IndicesIn(a, prior)
    ensures |n| == |els|
  {
    seq(|els|, j requires 0 <= j < |els| => NewFiber(a, f, prior, els, j))
  }

  lemma ReconciledLinks(a: Arena, f: nat, prior: seq<nat>, els: seq<Element>, steps: nat)
    requires Valid(a) && f < |a| && IndicesIn(a, prior)
    ensures Valid(MarkAll(a, f, prior, els, steps) + NewFibers(a, f, prior, els))
  {
    var b := MarkAll(a, f, prior, els, steps) + NewFibers(a, f, prior, els);
    forall i | 0 <= i < |b|
      ensures LinksOk(b, i)
    {
      if i < |a| {
        assert LinksOk(a, i);
        assert b[i] == Marked(a, f, prior, els, steps, i);
        if a[i].sibling.Some? {
          assert b[a[i].sibling.value] == Marked(a, f, prior, els, steps, a[i].sibling.value);
        }
      } else {
        var j := i - |a|;
        assert b[i] == NewFiber(a, f, prior, els, j);
        if j + 1 < |els| {
          assert b[i + 1] == NewFiber(a, f, prior, els, j + 1);
        }
      }
    }
  }

  /** The arena and deletion list after `reconcileChildren(a[f], els)`, stated
      position by position: the first `|a|` fibers are the old ones, with the
      old fibers that lost their position retagged and `a[f].child` relinked;
      the new fibers follow. This is the reference `Reconcile` is proved to meet. */
  function Reconciled(a: Arena, deletion: seq<nat>, f: nat, els: seq<Element>): (Arena, seq<nat>)
    requires Valid(a) && f < |a|
  {
    var prior := OldChain(a, f);
    var steps := Max(|prior|, |els|);
    (MarkAll(a, f, prior, els, steps) + NewFibers(a, f, prior, els), deletion + Deletions(a, prior, els, steps))
  }

  /** The shape of the result: the arena stays well linked, only `a[f].child`
      and effect tags of old fibers change, and the new fibers form one
      sibling chain under `f` whose elements are `els`, in order. The first
      iteration sets `fiber.child`, so an empty `els` leaves it null when an
      old chain exists and untouched otherwise. */
  lemma ReconcileShape(a: Arena, deletion: seq<nat>, f: nat, els: seq<Element>)
    requires Valid(a) && f < |a|
    ensures Valid(Reconcile(a, deletion, f, els).0)
    ensures |Reconcile(a, deletion, f, els).0| == |a| + |els|
    ensures SameShape(a, Reconcile(a, deletion, f, els).0)
    ensures forall i :: 0 <= i < |a| ==>
              Reconcile(a, deletion, f, els).0[i].dom == a[i].dom && Reconcile(a, deletion, f, els).0[i].alternate == a[i].alternate
    ensures forall i :: 0 <= i < |a| && i != f ==> Reconcile(a, deletion, f, els).0[i].child == a[i].child
    ensures Reconcile(a, deletion, f, els).0[f].child
         == if |els| > 0 then Some(|a|) else if OldChain(a, f) != [] then None else a[f].child
    ensures forall j :: 0 <= j < |els| ==>
              && ElemOf(Reconcile(a, deletion, f, els).0[|a| + j]) == els[j]
              && Reconcile(a, deletion, f, els).0[|a| + j].parent == Some(f)
              && Reconcile(a, deletion, f, els).0[|a| + j].child.None?
              && Reconcile(a, deletion, f, els).0[|a| + j].sibling == NextLink(|a|, |els|, j)
    ensures |Reconcile(a, deletion, f, els).1| >= |deletion| && Reconcile(a, deletion, f, els).1[..|deletion|] == deletion
    ensures forall i :: |deletion| <= i < |Reconcile(a, deletion, f, els).1| ==> Reconcile(a, deletion, f, els).1[i] < |a|
  {
    ReconcileMeetsSpec(a, deletion, f, els);
    var prior := OldChain(a, f);
    var steps := Max(|prior|, |els|);
    ReconcileFacts(a, f, prior, els, steps);
    var d := Deletions(a, prior, els, steps);
    assert forall i :: |deletion| <= i < |deletion + d| ==> (deletion + d)[i] == d[i - |deletion|];
  }

  /** The `j`-th new fiber stands for `els[j]`, hangs under `f`, has no
      child yet and links to the next new fiber. */
  lemma ReconcileNew(a: Arena, deletion: seq<nat>, f: nat, els: seq<Element>, j: nat)
    requires Valid(a) && f < |a| && j < |els|
    ensures |Reconcile(a, deletion, f, els).0| == |a| + |els|
    ensures ElemOf(Reconcile(a, deletion, f, els).0[|a| + j]) == els[j]
    ensures Reconcile(a, deletion, f, els).0[|a| + j].parent == Some(f)
    ensures Reconcile(a, deletion, f, els).0[|a| + j].child.None?
    ensures Reconcile(a, deletion, f, els).0[|a| + j].sibling == NextLink(|a|, |els|, j)
  {
    ReconcileShape(a, deletion, f, els);
  }

  lemma ReconcileFacts(a: Arena, f: nat, prior: seq<nat>, els: seq<Element>, steps: nat)
    requires Valid(a) && f < |a| && IndicesIn(a, prior)
    requires steps > 0 <==> (prior != [] || els != [])
    ensures var b := MarkAll(a, f, prior, els, steps) + NewFibers(a, f, prior, els);
      && Valid(b)
      && |b| == |a| + |els|
      && SameShape(a, b)
      && (forall i :: 0 <= i < |a| ==> b[i].dom == a[i].dom && b[i].alternate == a[i].alternate)
      && (forall i :: 0 <= i < |a| && i != f ==> b[i].child == a[i].child)
      && b[f].child == (if |els| > 0 then Some(|a|) else if prior != [] then None else a[f].child)
      && (forall j :: 0 <= j < |els| ==>
            && ElemOf(b[|a| + j]) == els[j]
            && b[|a| + j].parent == Some(f)
            && b[|a| + j].child.None?
            && b[|a| + j].sibling == NextLink(|a|, |els|, j))
  {
    var m := MarkAll(a, f, prior, els, steps);
    var n := NewFibers(a, f, prior, els);
    var b := m + n;
    ReconciledLinks(a, f, prior, els, steps);
    forall i | 0 <= i < |a|
      ensures b[i].tag == a[i].tag && b[i].props == a[i].props && b[i].parent == a[i].parent
      ensures b[i].sibling == a[i].sibling && b[i].dom == a[i].dom && b[i].alternate == a[i].alternate
      ensures i != f ==> b[i].child == a[i].child
    {
      assert b[i] == m[i];
    }
    assert b[f] == m[f];
    forall j | 0 <= j < |els|
      ensures ElemOf(b[|a| + j]) == els[j]
      ensures b[|a| + j].parent == Some(f) && b[|a| + j].child.None?
      ensures b[|a| + j].sibling == NextLink(|a|, |els|, j)
    {
      assert b[|a| + j] == n[j];
    }
  }

  /** The new fibers after `steps` iterations, in creation order; the last one
      built has no sibling yet, because the next iteration links it. */
  function Built(a: Arena, f: nat, prior: seq<nat>, els: seq<Element>, steps: nat): (c: seq<Fiber>)
    requires IndicesIn(a, prior)
    ensures |c| == Min(steps, |els|)
  {
    seq(Min(steps, |els|), j requires 0 <= j < Min(steps, |els|) =>
      NewFiber(a, f, prior, els, j).(sibling := if j + 1 < steps then NextLink(|a|, |els|, j) else None))
  }

  /** One iteration on the old fibers: the old fiber at position `index` is
      retagged when it has no same-type partner, and the first iteration sets
      the reconciled fiber's child. */
  lemma MarkAllNext(a: Arena, f: nat, prior: seq<nat>, els: seq<Element>, index: nat)
    requires IndicesIn(a, prior) && f < |a|
    ensures var m := MarkAll(a, f, prior, els, index);
      var m1 := if Doomed(a, prior, els, index) then m[prior[index] := m[prior[index]].(effect := Deletion)] else m;
      MarkAll(a, f, prior, els, index + 1)
        == if index == 0 then m1[f := m1[f].(child := if |els| > 0 then Some(|a|) else None)] else m1
  {
    var m := MarkAll(a, f, prior, els, index);
    var m1 := if Doomed(a, prior, els, index) then m[prior[index] := m[prior[index]].(effect := Deletion)] else m;
    var m2 := if index == 0 then m1[f := m1[f].(child := if |els| > 0 then Some(|a|) else None)] else m1;
    var next := MarkAll(a, f, prior, els, index + 1);
    forall i | 0 <= i < |a|
      ensures next[i] == m2[i]
    {
      assert Deletions(a, prior, els, index + 1)
          == Deletions(a, prior, els, index) + (if Doomed(a, prior, els, index) then [prior[index]] else []);
    }
  }

  /** One iteration on the new fibers: while elements remain one more fiber is
      built, and the previous one gets its sibling link. */
  lemma BuiltNext(a: Arena, f: nat, prior: seq<nat>, els: seq<Element>, index: nat)
    requires IndicesIn(a, prior)
    ensures var c := Built(a, f, prior, els, index);
      var link: Option<nat> := if index < |els| then Some(|a| + index) else None;
      var c1 := if index < |els| then c + [NewFiber(a, f, prior, els, index).(sibling := None)] else c;
      Built(a, f, prior, els, index + 1)
        == if 0 < index <= |els| then c1[index - 1 := c1[index - 1].(sibling := link)] else c1
  {
  }

  /** What the loop of `reconcileChildren` knows after `index` iterations. */
  ghost predicate LoopState(a0: Arena, f: nat, elements: seq<Element>, index: nat,
                            oldFiber: Option<nat>, prevSibling: Option<nat>,
                            arena: Arena, built: seq<Fiber>, deletion0: seq<nat>, deletion: seq<nat>)
    requires Valid(a0) && f < |a0|
  {
    var prior := OldChain(a0, f);
    && index <= Max(|prior|, |elements|)
    && oldFiber == (if index < |prior| then Some(prior[index]) else None)
    && prevSibling == (if 0 < index <= |elements| then Some(|a0| + index - 1) else None)
    && deletion == deletion0 + Deletions(a0, prior, elements, index)
    && arena == MarkAll(a0, f, prior, elements, index)
    && built == Built(a0, f, prior, elements, index)
  }

  /** Reconciliation never changes the type, `dom` or `sibling` of an old fiber. */
  lemma MarkAllKeeps(a: Arena, f: nat, prior: seq<nat>, els: seq<Element>, steps: nat, i: nat)
    requires IndicesIn(a, prior) && i < |a|
    ensures var m := MarkAll(a, f, prior, els, steps);
      m[i].tag == a[i].tag && m[i].dom == a[i].dom && m[i].sibling == a[i].sibling
  {
  }

  /** Walking the old chain by `sibling` visits its positions in order. */
  lemma OldChainNext(a: Arena, f: nat, index: nat)
    requires Valid(a) && f < |a| && index < |OldChain(a, f)|
    ensures var prior := OldChain(a, f);
      a[prior[index]].sibling == if index + 1 < |prior| then Some(prior[index + 1]) else None
  {
    var alt := a[f].alternate.value;
    assert LinksOk(a, f);
    assert LinksOk(a, alt);
    ChainLinks(a, a[alt].child);
  }

  /** When the loop stops, the two halves it built are the result of `Reconcile`. */
  lemma LoopExit(a0: Arena, f: nat, elements: seq<Element>)
    requires Valid(a0) && f < |a0|
    ensures var prior := OldChain(a0, f);
      var steps := Max(|prior|, |elements|);
      Built(a0, f, prior, elements, steps) == NewFibers(a0, f, prior, elements)
  {
  }

  // ----- The loop -----

  /** The loop variables of `reconcileChildren`. The existing fibers (`arena`)
      and the ones this call creates (`built`, whose `j`-th entry gets index
      `|arena| + j`) are kept apart. */
  datatype Loop = Loop(oldFiber: Option<nat>, prevSibling: Option<nat>, arena: Arena, built: seq<Fiber>, deletion: seq<nat>)

  /** `fiber.alternate && fiber.alternate.child`. */
  function OldStart(a: Arena, f: nat): (o: Option<nat>)
    requires Valid(a) && f < |a|
    ensures InRange(a, o)
  {
    match a[f].alternate
    case None => None
    case Some(alt) =>
      assert LinksOk(a, f);
      assert LinksOk(a, alt);
      a[alt].child
  }

  /** `sameType`: an old fiber and an element at this position, of one type. */
  predicate SameType(els: seq<Element>, index: nat, v: Loop)
    requires InRange(v.arena, v.oldFiber)
  {
    v.oldFiber.Some? && index < |els| && v.arena[v.oldFiber.value].tag == els[index].tag
  }

  /** `newFiber` before it is linked: an UPDATE of the old fiber, a PLACEMENT
      of the element, or null when the elements have run out. */
  function Created(f: nat, els: seq<Element>, index: nat, v: Loop): Option<Fiber>
    requires InRange(v.arena, v.oldFiber)
  {
    if SameType(els, index, v) then
      var o := v.arena[v.oldFiber.value];
      Some(Fiber(o.tag, o.dom, els[index].props, Some(f), None, None, v.oldFiber, Update))
    else if index < |els| then
      Some(Fiber(els[index].tag, None, els[index].props, Some(f), None, None, None, Placement))
    else None
  }

  /** The loop body for position `index`. At most one new fiber is built; it
      becomes `fiber.child` in the first iteration and the previous new
      fiber's `sibling` afterwards. An old fiber without a same-type partner
      is retagged and pushed onto `deletion`. */
  function Iter(f: nat, els: seq<Element>, index: nat, v: Loop): Loop
    requires f < |v.arena| && InRange(v.arena, v.oldFiber)
    requires v.prevSibling.Some? ==> |v.arena| <= v.prevSibling.value < |v.arena| + |v.built|
  {
    var base := |v.arena|;
    var newFiber := Created(f, els, index, v);
    var doomed := v.oldFiber.Some? && !SameType(els, index, v);
    var arena1 := if doomed then v.arena[v.oldFiber.value := v.arena[v.oldFiber.value].(effect := Deletion)] else v.arena;
    var deletion1 := if doomed then v.deletion + [v.oldFiber.value] else v.deletion;
    var oldFiber1 := if v.oldFiber.Some? then arena1[v.oldFiber.value].sibling else None;
    var newIndex: Option<nat> := if newFiber.Some? then Some(base + |v.built|) else None;
    var built1 := if newFiber.Some? then v.built + [newFiber.value] else v.built;
    var arena2 := if index == 0 then arena1[f := arena1[f].(child := newIndex)] else arena1;
    var built2 :=
      if index != 0 && v.prevSibling.Some? then
        built1[v.prevSibling.value - base := built1[v.prevSibling.value - base].(sibling := newIndex)]
      else built1;
    Loop(oldFiber1, newIndex, arena2, built2, deletion1)
  }

  /** The loop variables after `n` iterations. */
  function Run(a0: Arena, deletion0: seq<nat>, f: nat, els: seq<Element>, n: nat): (v: Loop)
    requires Valid(a0) && f < |a0|
    ensures |v.arena| == |a0| && InRange(a0, v.oldFiber)
    ensures forall i :: 0 <= i < |a0| ==> v.arena[i].sibling == a0[i].sibling
    ensures v.prevSibling.Some? ==> |a0| <= v.prevSibling.value < |a0| + |v.built|
    decreases n
  {
    if n == 0 then Loop(OldStart(a0, f), None, a0, [], deletion0)
    else
      var v := Run(a0, deletion0, f, els, n - 1);
      assert v.oldFiber.Some? ==> LinksOk(a0, v.oldFiber.value);
      Iter(f, els, n - 1, v)
  }

  /** The loop condition `oldFiber != null || index < elements.length`. */
  predicate Continues(els: seq<Element>, index: nat, v: Loop)
  {
    v.oldFiber.Some? || index < |els|
  }

  /** `reconcileChildren(a[f], els)`: the loop run until its condition fails,
      which happens after `max(|old chain|, |els|)` iterations
      (`LoopIterations`). The result is the arena with the new fibers
      appended, and the deletion list. */
  function Reconcile(a: Arena, deletion: seq<nat>, f: nat, els: seq<Element>): (r: (Arena, seq<nat>))
    requires Valid(a) && f < |a|
    ensures |r.0| == |a| + |els|
  {
    RunState(a, deletion, f, els, Max(|OldChain(a, f)|, |els|));
    LoopExit(a, f, els);
    var v := Run(a, deletion, f, els, Max(|OldChain(a, f)|, |els|));
    (v.arena + v.built, v.deletion)
  }

  /** One turn of the loop body keeps `LoopState`. */
  lemma IterStep(a0: Arena, f: nat, els: seq<Element>, index: nat, deletion0: seq<nat>, v: Loop)
    requires Valid(a0) && f < |a0|
    requires LoopState(a0, f, els, index, v.oldFiber, v.prevSibling, v.arena, v.built, deletion0, v.deletion)
    requires Continues(els, index, v)
    ensures InRange(v.arena, v.oldFiber)
    ensures var w := Iter(f, els, index, v);
      LoopState(a0, f, els, index + 1, w.oldFiber, w.prevSibling, w.arena, w.built, deletion0, w.deletion)
  {
    IterCreated(a0, f, els, index, deletion0, v);
    IterOld(a0, f, els, index, deletion0, v);
    IterLinks(a0, f, els, index, deletion0, v);
    IterDeletion(a0, f, els, index, deletion0, v);
    IterArena(a0, f, els, index, deletion0, v);
    IterBuilt(a0, f, els, index, deletion0, v);
  }

  /** `oldFiber` moves one step along the old chain. */
  lemma IterOld(a0: Arena, f: nat, els: seq<Element>, index: nat, deletion0: seq<nat>, v: Loop)
    requires Valid(a0) && f < |a0|
    requires LoopState(a0, f, els, index, v.oldFiber, v.prevSibling, v.arena, v.built, deletion0, v.deletion)
    requires Continues(els, index, v)
    ensures InRange(v.arena, v.oldFiber)
    ensures index + 1 <= Max(|OldChain(a0, f)|, |els|)
    ensures Iter(f, els, index, v).oldFiber
         == if index + 1 < |OldChain(a0, f)| then Some(OldChain(a0, f)[index + 1]) else None
  {
    var prior := OldChain(a0, f);
    if v.oldFiber.Some? {
      MarkAllKeeps(a0, f, prior, els, index, v.oldFiber.value);
      OldChainNext(a0, f, index);
    }
  }

  /** `prevSibling` becomes the fiber just built. */
  lemma IterLinks(a0: Arena, f: nat, els: seq<Element>, index: nat, deletion0: seq<nat>, v: Loop)
    requires Valid(a0) && f < |a0|
    requires LoopState(a0, f, els, index, v.oldFiber, v.prevSibling, v.arena, v.built, deletion0, v.deletion)
    requires Continues(els, index, v)
    ensures InRange(v.arena, v.oldFiber)
    ensures Iter(f, els, index, v).prevSibling == if 0 < index + 1 <= |els| then Some(|a0| + index) else None
  {
    IterCreated(a0, f, els, index, deletion0, v);
    IterLinksFrom(a0, f, OldChain(a0, f), els, index, v);
  }

  /** `IterLinks` from just the facts about the new fibers it needs. */
  lemma IterLinksFrom(a0: Arena, f: nat, prior: seq<nat>, els: seq<Element>, index: nat, v: Loop)
    requires IndicesIn(a0, prior) && f < |v.arena| && InRange(v.arena, v.oldFiber)
    requires |v.arena| == |a0| && v.built == Built(a0, f, prior, els, index)
    requires v.prevSibling == (if 0 < index <= |els| then Some(|a0| + index - 1) else None)
    requires Created(f, els, index, v)
          == if index < |els| then Some(NewFiber(a0, f, prior, els, index).(sibling := None)) else None
    ensures Iter(f, els, index, v).prevSibling == if index < |els| then Some(|a0| + index) else None
  {
  }

  /** The deletion list grows by the old fiber when it is doomed. */
  lemma IterDeletion(a0: Arena, f: nat, els: seq<Element>, index: nat, deletion0: seq<nat>, v: Loop)
    requires Valid(a0) && f < |a0|
    requires LoopState(a0, f, els, index, v.oldFiber, v.prevSibling, v.arena, v.built, deletion0, v.deletion)
    requires Continues(els, index, v)
    ensures InRange(v.arena, v.oldFiber)
    ensures Iter(f, els, index, v).deletion == deletion0 + Deletions(a0, OldChain(a0, f), els, index + 1)
  {
    IterCreated(a0, f, els, index, deletion0, v);
  }

  /** The old fibers after one more turn are `MarkAll` one step further. */
  lemma IterArena(a0: Arena, f: nat, els: seq<Element>, index: nat, deletion0: seq<nat>, v: Loop)
    requires Valid(a0) && f < |a0|
    requires LoopState(a0, f, els, index, v.oldFiber, v.prevSibling, v.arena, v.built, deletion0, v.deletion)
    requires Continues(els, index, v)
    ensures InRange(v.arena, v.oldFiber)
    ensures Iter(f, els, index, v).arena == MarkAll(a0, f, OldChain(a0, f), els, index + 1)
  {
    IterCreated(a0, f, els, index, deletion0, v);
    MarkAllNext(a0, f, OldChain(a0, f), els, index);
  }

  /** `sameType` is `Matched`, and the fiber built is the `index`-th new fiber
      before its sibling link is set. */
  lemma IterCreated(a0: Arena, f: nat, els: seq<Element>, index: nat, deletion0: seq<nat>, v: Loop)
    requires Valid(a0) && f < |a0|
    requires LoopState(a0, f, els, index, v.oldFiber, v.prevSibling, v.arena, v.built, deletion0, v.deletion)
    ensures InRange(v.arena, v.oldFiber)
    ensures SameType(els, index, v) == Matched(a0, OldChain(a0, f), els, index)
    ensures Created(f, els, index, v)
         == if index < |els| then Some(NewFiber(a0, f, OldChain(a0, f), els, index).(sibling := None)) else None
  {
    var prior := OldChain(a0, f);
    if v.oldFiber.Some? {
      MarkAllKeeps(a0, f, prior, els, index, v.oldFiber.value);
    }
  }

  /** One iteration on the new fibers: the created fiber `nf`, if any, is
      appended, and the previous new fiber links to it. */
  lemma IterBuiltStep(f: nat, els: seq<Element>, index: nat, v: Loop, base: nat, nf: Fiber)
    requires f < |v.arena| && InRange(v.arena, v.oldFiber)
    requires |v.arena| == base && |v.built| == Min(index, |els|)
    requires v.prevSibling == (if 0 < index <= |els| then Some(base + index - 1) else None)
    requires Created(f, els, index, v) == if index < |els| then Some(nf) else None
    ensures var link: Option<nat> := if index < |els| then Some(base + index) else None;
      var c1 := if index < |els| then v.built + [nf] else v.built;
      Iter(f, els, index, v).built
        == if 0 < index <= |els| then c1[index - 1 := c1[index - 1].(sibling := link)] else c1
  {
  }

  lemma IterBuilt(a0: Arena, f: nat, els: seq<Element>, index: nat, deletion0: seq<nat>, v: Loop)
    requires Valid(a0) && f < |a0|
    requires LoopState(a0, f, els, index, v.oldFiber, v.prevSibling, v.arena, v.built, deletion0, v.deletion)
    requires Continues(els, index, v)
    ensures InRange(v.arena, v.oldFiber)
    ensures Iter(f, els, index, v).built == Built(a0, f, OldChain(a0, f), els, index + 1)
  {
    IterCreated(a0, f, els, index, deletion0, v);
    IterBuiltFrom(a0, f, OldChain(a0, f), els, index, v);
  }

  /** `IterBuilt` from just the facts about the new fibers it needs. */
  lemma IterBuiltFrom(a0: Arena, f: nat, prior: seq<nat>, els: seq<Element>, index: nat, v: Loop)
    requires IndicesIn(a0, prior) && f < |v.arena| && InRange(v.arena, v.oldFiber)
    requires |v.arena| == |a0| && v.built == Built(a0, f, prior, els, index)
    requires v.prevSibling == (if 0 < index <= |els| then Some(|a0| + index - 1) else None)
    requires Created(f, els, index, v)
          == if index < |els| then Some(NewFiber(a0, f, prior, els, index).(sibling := None)) else None
    ensures Iter(f, els, index, v).built == Built(a0, f, prior, els, index + 1)
  {
    var nf := if index < |els| then NewFiber(a0, f, prior, els, index).(sibling := None) else a0[f];
    IterBuiltStep(f, els, index, v, |a0|, nf);
    BuiltNext(a0, f, prior, els, index);
  }

  /** The loop variables after `n` iterations are those `LoopState` describes. */
  lemma {:induction false} RunState(a0: Arena, deletion0: seq<nat>, f: nat, els: seq<Element>, n: nat)
    requires Valid(a0) && f < |a0| && n <= Max(|OldChain(a0, f)|, |els|)
    ensures var v := Run(a0, deletion0, f, els, n);
      LoopState(a0, f, els, n, v.oldFiber, v.prevSibling, v.arena, v.built, deletion0, v.deletion)
  {
    if n > 0 {
      RunState(a0, deletion0, f, els, n - 1);
      var v := Run(a0, deletion0, f, els, n - 1);
      LoopIterations(a0, deletion0, f, els, n - 1);
      IterStep(a0, f, els, n - 1, deletion0, v);
    }
  }

  /** The loop condition holds exactly while fewer than
      `max(|old chain|, |els|)` iterations have run. */
  lemma LoopIterations(a0: Arena, deletion0: seq<nat>, f: nat, els: seq<Element>, n: nat)
    requires Valid(a0) && f < |a0| && n <= Max(|OldChain(a0, f)|, |els|)
    requires var v := Run(a0, deletion0, f, els, n);
      LoopState(a0, f, els, n, v.oldFiber, v.prevSibling, v.arena, v.built, deletion0, v.deletion)
    ensures Continues(els, n, Run(a0, deletion0, f, els, n)) <==> n < Max(|OldChain(a0, f)|, |els|)
  {
  }

  /** The loop computes the reference result. */
  lemma ReconcileMeetsSpec(a: Arena, deletion: seq<nat>, f: nat, els: seq<Element>)
    requires Valid(a) && f < |a|
    ensures Reconcile(a, deletion, f, els) == Reconciled(a, deletion, f, els)
  {
    RunState(a, deletion, f, els, Max(|OldChain(a, f)|, |els|));
    LoopExit(a, f, els);
  }

  /** The source loop as a method: `oldFiber` walks the old chain by
      `sibling`, `index` walks `elements`, and the body is `Iter`. */
  method ReconcileChildren(a0: Arena, deletion0: seq<nat>, f: nat, elements: seq<Element>)
    returns (a: Arena, deletion: seq<nat>, iterations: nat)
    requires Valid(a0) && f < |a0|
    ensures (a, deletion) == Reconcile(a0, deletion0, f, elements)
    ensures iterations == Max(|OldChain(a0, f)|, |elements|)
  {
    var v := Loop(OldStart(a0, f), None, a0, [], deletion0);
    var index: nat := 0;
    while Continues(elements, index, v)
      invariant index <= Max(|OldChain(a0, f)|, |elements|)
      invariant v == Run(a0, deletion0, f, elements, index)
      decreases Max(|OldChain(a0, f)|, |elements|) - index
    {
      RunState(a0, deletion0, f, elements, index);
      LoopIterations(a0, deletion0, f, elements, index);
      v := Iter(f, elements, index, v);
      index := index + 1;
    }
    RunState(a0, deletion0, f, elements, index);
    LoopIterations(a0, deletion0, f, elements, index);
    a, deletion, iterations := v.arena + v.built, v.deletion, index;
  }

  // ----- Properties of one reconciliation -----

  /** The old fibers pushed onto `deletion` by one reconciliation. */
  function Deleted(a: Arena, f: nat, els: seq<Element>): seq<nat>
    requires Valid(a) && f < |a|
  {
    var prior := OldChain(a, f);
    Deletions(a, prior, els, Max(|prior|, |els|))
  }

  /** `x` is the old chain fiber at one of the first `hi` positions. */
  ghost predicate FromPrior(prior: seq<nat>, hi: nat, x: nat)
  {
    exists p :: 0 <= p < hi && p < |prior| && x == prior[p]
  }

  /** Every pushed fiber is an old chain fiber from one of the first `hi` positions. */
  lemma {:induction false} DeletionsFrom(a: Arena, prior: seq<nat>, els: seq<Element>, hi: nat)
    requires IndicesIn(a, prior)
    ensures forall i :: 0 <= i < |Deletions(a, prior, els, hi)| ==> FromPrior(prior, hi, Deletions(a, prior, els, hi)[i])
  {
    if hi > 0 {
      DeletionsFrom(a, prior, els, hi - 1);
      var d0 := Deletions(a, prior, els, hi - 1);
      var d := Deletions(a, prior, els, hi);
      assert d == d0 + (if Doomed(a, prior, els, hi - 1) then [prior[hi - 1]] else []);
      forall i | 0 <= i < |d|
        ensures FromPrior(prior, hi, d[i])
      {
        if i < |d0| {
          assert d[i] == d0[i];
          assert FromPrior(prior, hi - 1, d0[i]);
          var p :| 0 <= p < hi - 1 && p < |prior| && d0[i] == prior[p];
          assert 0 <= p < hi;
        } else {
          assert Doomed(a, prior, els, hi - 1) && hi - 1 < |prior|;
          assert d[i] == prior[hi - 1];
        }
      }
    }
  }

  /** A fiber is pushed exactly when it sits at a doomed position among the first `hi`. */
  lemma {:induction false} DeletionsMember(a: Arena, prior: seq<nat>, els: seq<Element>, hi: nat)
    requires IndicesIn(a, prior)
    ensures forall x :: x in Deletions(a, prior, els, hi) <==>
              exists p :: 0 <= p < hi && Doomed(a, prior, els, p) && prior[p] == x
  {
    if hi > 0 {
      DeletionsMember(a, prior, els, hi - 1);
      var d0 := Deletions(a, prior, els, hi - 1);
      var d := Deletions(a, prior, els, hi);
      forall x
        ensures x in d <==> exists p :: 0 <= p < hi && Doomed(a, prior, els, p) && prior[p] == x
      {
        if x in d0 {
          var p :| 0 <= p < hi - 1 && Doomed(a, prior, els, p) && prior[p] == x;
          assert 0 <= p < hi;
        } else if exists p :: 0 <= p < hi && Doomed(a, prior, els, p) && prior[p] == x {
          var p :| 0 <= p < hi && Doomed(a, prior, els, p) && prior[p] == x;
          assert p == hi - 1;
        }
      }
    }
  }

  /** Pushed fibers come out in chain order when the chain's indices increase. */
  lemma {:induction false} DeletionsSorted(a: Arena, prior: seq<nat>, els: seq<Element>, hi: nat)
    requires IndicesIn(a, prior)
    requires forall i, j :: 0 <= i < j < |prior| ==> prior[i] < prior[j]
    ensures forall i, j :: 0 <= i < j < |Deletions(a, prior, els, hi)| ==>
              Deletions(a, prior, els, hi)[i] < Deletions(a, prior, els, hi)[j]
  {
    if hi > 0 {
      DeletionsSorted(a, prior, els, hi - 1);
      DeletionsFrom(a, prior, els, hi - 1);
      var d0 := Deletions(a, prior, els, hi - 1);
      if Doomed(a, prior, els, hi - 1) {
        forall i | 0 <= i < |d0|
          ensures d0[i] < prior[hi - 1]
        {
          assert FromPrior(prior, hi - 1, d0[i]);
          var p :| 0 <= p < hi - 1 && p < |prior| && d0[i] == prior[p];
        }
      }
    }
  }

  lemma DeletionsMembers(a: Arena, prior: seq<nat>, els: seq<Element>, hi: nat)
    requires IndicesIn(a, prior)
    requires forall i, j :: 0 <= i < j < |prior| ==> prior[i] < prior[j]
    ensures forall x :: x in Deletions(a, prior, els, hi) <==>
              exists p :: 0 <= p < hi && Doomed(a, prior, els, p) && prior[p] == x
    ensures forall i, j :: 0 <= i < j < |Deletions(a, prior, els, hi)| ==>
              Deletions(a, prior, els, hi)[i] < Deletions(a, prior, els, hi)[j]
  {
    DeletionsMember(a, prior, els, hi);
    DeletionsSorted(a, prior, els, hi);
  }

  /** Position `j` of the new chain is an UPDATE exactly when the old chain has
      a `j`-th fiber of the same type; an UPDATE reuses that fiber's `dom` and
      points its `alternate` at it, anything else is a PLACEMENT with neither.
      Either way it carries the element's props and hangs under `f`. */
  lemma ReconcileEffect(a: Arena, deletion: seq<nat>, f: nat, els: seq<Element>, j: nat)
    requires Valid(a) && f < |a| && j < |els|
    ensures var prior := OldChain(a, f);
      var nf := Reconcile(a, deletion, f, els).0[|a| + j];
      && (nf.effect == Update <==> j < |prior| && a[prior[j]].tag == els[j].tag)
      && (nf.effect == Update ==> nf.dom == a[prior[j]].dom && nf.alternate == Some(prior[j]))
      && (nf.effect != Update ==> nf.effect == Placement && nf.dom.None? && nf.alternate.None?)
      && nf.props == els[j].props && nf.tag == els[j].tag && nf.parent == Some(f)
  {
    ReconcileMeetsSpec(a, deletion, f, els);
    var prior := OldChain(a, f);
    var steps := Max(|prior|, |els|);
    var n := NewFibers(a, f, prior, els);
    assert Reconcile(a, deletion, f, els).0[|a| + j] == n[j];
  }

  /** The fibers appended to `deletion` are exactly the old chain fibers whose
      position has no same-type element, in chain order, and each is retagged
      DELETION. No other existing fiber changes, except `a[f].child`. */
  lemma ReconcileDeletions(a: Arena, deletion: seq<nat>, f: nat, els: seq<Element>)
    requires Valid(a) && f < |a|
    ensures var prior := OldChain(a, f);
      var r := Reconcile(a, deletion, f, els);
      var d := Deleted(a, f, els);
      && r.1 == deletion + d
      && (forall x :: x in d <==> exists p :: 0 <= p < |prior| && prior[p] == x && !(p < |els| && a[x].tag == els[p].tag))
      && (forall i, j :: 0 <= i < j < |d| ==> d[i] < d[j])
      && (forall i :: 0 <= i < |a| ==>
            r.0[i] == a[i].(effect := if i in d then Deletion else a[i].effect,
                            child := if i == f then r.0[f].child else a[i].child))
  {
    ReconcileMeetsSpec(a, deletion, f, els);
    var prior := OldChain(a, f);
    var steps := Max(|prior|, |els|);
    var d := Deletions(a, prior, els, steps);
    DeletionsMembers(a, prior, els, steps);
    var m := MarkAll(a, f, prior, els, steps);
    var r := Reconcile(a, deletion, f, els);
    assert forall i :: 0 <= i < |a| ==> r.0[i] == m[i];
  }

  /** On a first render (`fiber.alternate` is null) every new fiber is a
      PLACEMENT, nothing is pushed onto `deletion`, and no existing fiber but
      `a[f]` (whose `child` is set) changes. */
  lemma ReconcileFirstRender(a: Arena, deletion: seq<nat>, f: nat, els: seq<Element>)
    requires Valid(a) && f < |a| && a[f].alternate.None?
    ensures Reconcile(a, deletion, f, els).1 == deletion
    ensures forall j :: |a| <= j < |Reconcile(a, deletion, f, els).0| ==> Reconcile(a, deletion, f, els).0[j].effect == Placement
    ensures forall i :: 0 <= i < |a| && i != f ==> Reconcile(a, deletion, f, els).0[i] == a[i]
    ensures Reconcile(a, deletion, f, els).0[f] == a[f].(child := if |els| > 0 then Some(|a|) else a[f].child)
  {
    FirstRenderKeeps(a, deletion, f, els);
    FirstRenderPlaces(a, deletion, f, els);
  }

  /** With no old chain nothing is deleted and only `a[f].child` changes. */
  lemma FirstRenderKeeps(a: Arena, deletion: seq<nat>, f: nat, els: seq<Element>)
    requires Valid(a) && f < |a| && a[f].alternate.None?
    ensures Reconcile(a, deletion, f, els).1 == deletion
    ensures forall i :: 0 <= i < |a| && i != f ==> Reconcile(a, deletion, f, els).0[i] == a[i]
    ensures Reconcile(a, deletion, f, els).0[f] == a[f].(child := if |els| > 0 then Some(|a|) else a[f].child)
  {
    var r := Reconcile(a, deletion, f, els);
    assert OldChain(a, f) == [];
    assert Deleted(a, f, els) == [] by {
      CountDeleted(a, [], els, Max(0, |els|));
    }
    assert r.1 == deletion && (forall i :: 0 <= i < |a| && i != f ==> r.0[i] == a[i]) by {
      ReconcileDeletions(a, deletion, f, els);
    }
    var c := r.0[f].child;
    assert c == (if |els| > 0 then Some(|a|) else a[f].child) by {
      ReconcileShape(a, deletion, f, els);
    }
    assert r.0[f] == a[f].(child := c) by {
      ReconcileDeletions(a, deletion, f, els);
      assert f !in Deleted(a, f, els);
    }
  }

  /** With no old chain every new fiber is a PLACEMENT. */
  lemma FirstRenderPlaces(a: Arena, deletion: seq<nat>, f: nat, els: seq<Element>)
    requires Valid(a) && f < |a| && a[f].alternate.None?
    ensures forall j :: |a| <= j < |Reconcile(a, deletion, f, els).0| ==> Reconcile(a, deletion, f, els).0[j].effect == Placement
  {
    assert OldChain(a, f) == [];
    forall j | |a| <= j < |Reconcile(a, deletion, f, els).0|
      ensures Reconcile(a, deletion, f, els).0[j].effect == Placement
    {
      ReconcileEffect(a, deletion, f, els, j - |a|);
    }
  }

  // ----- Counting -----

  /** How many fibers of `fs` carry effect `e`. */
  function Count(fs: seq<Fiber>, e: Effect): nat
  {
    if fs == [] then 0 else Count(fs[..|fs| - 1], e) + (if fs[|fs| - 1].effect == e then 1 else 0)
  }

  /** How many of the first `hi` positions are matched. */
  function MatchedCount(a: Arena, prior: seq<nat>, els: seq<Element>, hi: nat): nat
    requires IndicesIn(a, prior)
  {
    if hi == 0 then 0 else MatchedCount(a, prior, els, hi - 1) + (if Matched(a, prior, els, hi - 1) then 1 else 0)
  }

  lemma {:induction false} CountNew(a: Arena, f: nat, prior: seq<nat>, els: seq<Element>, hi: nat)
    requires IndicesIn(a, prior) && hi <= |els|
    ensures var n := NewFibers(a, f, prior, els)[..hi];
      && Count(n, Update) == MatchedCount(a, prior, els, hi)
      && Count(n, Update) + Count(n, Placement) == hi
  {
    if hi > 0 {
      var all := NewFibers(a, f, prior, els);
      CountNew(a, f, prior, els, hi - 1);
      assert all[..hi][..hi - 1] == all[..hi - 1];
      assert all[..hi][hi - 1] == NewFiber(a, f, prior, els, hi - 1);
    }
  }

  lemma {:induction false} CountDeleted(a: Arena, prior: seq<nat>, els: seq<Element>, hi: nat)
    requires IndicesIn(a, prior)
    ensures |Deletions(a, prior, els, hi)| + MatchedCount(a, prior, els, hi) == Min(hi, |prior|)
    ensures hi >= |els| ==> MatchedCount(a, prior, els, hi) == MatchedCount(a, prior, els, |els|)
  {
    if hi > 0 {
      CountDeleted(a, prior, els, hi - 1);
    }
  }

  /** Every old fiber is either reused by an UPDATE or deleted. */
  lemma ReconcileCountsOld(a: Arena, deletion: seq<nat>, f: nat, els: seq<Element>)
    requires Valid(a) && f < |a|
    ensures var r := Reconcile(a, deletion, f, els);
      Count(r.0[|a|..], Update) + |Deleted(a, f, els)| == |OldChain(a, f)|
  {
    ReconcileMeetsSpec(a, deletion, f, els);
    var prior := OldChain(a, f);
    var r := Reconcile(a, deletion, f, els);
    var n := NewFibers(a, f, prior, els);
    assert r.0[|a|..] == n[..|els|];
    CountNew(a, f, prior, els, |els|);
    CountDeleted(a, prior, els, Max(|prior|, |els|));
  }

  /** Every element yields an UPDATE or a PLACEMENT. */
  lemma ReconcileCountsNew(a: Arena, deletion: seq<nat>, f: nat, els: seq<Element>)
    requires Valid(a) && f < |a|
    ensures var r := Reconcile(a, deletion, f, els);
      Count(r.0[|a|..], Update) + Count(r.0[|a|..], Placement) == |els|
  {
    ReconcileMeetsSpec(a, deletion, f, els);
    var prior := OldChain(a, f);
    var r := Reconcile(a, deletion, f, els);
    var n := NewFibers(a, f, prior, els);
    assert r.0[|a|..] == n[..|els|];
    CountNew(a, f, prior, els, |els|);
  }

  // ----- Worked examples -----

  /** Three old children, one new element of the first child's type: one
      UPDATE reusing the first child, and the other two deleted in order. */
  lemma ShrinkExample(a: Arena, deletion: seq<nat>, f: nat, els: seq<Element>)
    requires Valid(a) && f < |a| && |els| == 1
    requires var prior := OldChain(a, f); |prior| == 3 && a[prior[0]].tag == els[0].tag
    ensures var prior := OldChain(a, f);
      var r := Reconcile(a, deletion, f, els);
      && |r.0| == |a| + 1
      && r.0[|a|].effect == Update && r.0[|a|].alternate == Some(prior[0])
      && r.1 == deletion + [prior[1], prior[2]]
      && r.0[prior[1]].effect == Deletion && r.0[prior[2]].effect == Deletion
  {
    var prior := OldChain(a, f);
    var r := Reconcile(a, deletion, f, els);
    assert Deleted(a, f, els) == [prior[1], prior[2]] by {
      assert Max(3, 1) == 3;
      assert Deletions(a, prior, els, 1) == [];
      assert Deletions(a, prior, els, 2) == [prior[1]];
    }
    assert r.1 == deletion + [prior[1], prior[2]] && r.0[prior[1]].effect == Deletion && r.0[prior[2]].effect == Deletion by {
      ReconcileDeletions(a, deletion, f, els);
      assert prior[1] in Deleted(a, f, els) && prior[2] in Deleted(a, f, els);
    }
    assert |r.0| == |a| + 1 by {
      ReconcileShape(a, deletion, f, els);
    }
    ReconcileEffect(a, deletion, f, els, 0);
  }

  /** One old child, three new elements of which the first has its type: an
      UPDATE followed by two PLACEMENTs, linked in order, and nothing deleted. */
  lemma GrowExample(a: Arena, deletion: seq<nat>, f: nat, els: seq<Element>)
    requires Valid(a) && f < |a| && |els| == 3
    requires var prior := OldChain(a, f); |prior| == 1 && a[prior[0]].tag == els[0].tag
    ensures var r := Reconcile(a, deletion, f, els);
      && |r.0| == |a| + 3 && r.1 == deletion
      && r.0[|a|].effect == Update && r.0[|a| + 1].effect == Placement && r.0[|a| + 2].effect == Placement
      && r.0[|a|].sibling == Some(|a| + 1) && r.0[|a| + 1].sibling == Some(|a| + 2) && r.0[|a| + 2].sibling.None?
  {
    var prior := OldChain(a, f);
    var r := Reconcile(a, deletion, f, els);
    GrowDeletesNothing(a, f, els);
    assert r.1 == deletion by {
      ReconcileDeletions(a, deletion, f, els);
    }
    assert r.0[|a|].effect == Update && r.0[|a|].sibling == Some(|a| + 1) by {
      ReconcileEffect(a, deletion, f, els, 0);
      ReconcileNew(a, deletion, f, els, 0);
    }
    assert r.0[|a| + 1].effect == Placement && r.0[|a| + 1].sibling == Some(|a| + 2) by {
      ReconcileEffect(a, deletion, f, els, 1);
      ReconcileNew(a, deletion, f, els, 1);
    }
    assert r.0[|a| + 2].effect == Placement && r.0[|a| + 2].sibling.None? by {
      ReconcileEffect(a, deletion, f, els, 2);
      ReconcileNew(a, deletion, f, els, 2);
    }
  }

  /** In `GrowExample` the one old child is matched, so nothing is deleted. */
  lemma GrowDeletesNothing(a: Arena, f: nat, els: seq<Element>)
    requires Valid(a) && f < |a| && |els| == 3
    requires var prior := OldChain(a, f); |prior| == 1 && a[prior[0]].tag == els[0].tag
    ensures Deleted(a, f, els) == []
  {
    var prior := OldChain(a, f);
    assert Max(1, 3) == 3;
    assert Deletions(a, prior, els, 1) == [];
    assert Deletions(a, prior, els, 2) == [];
  }

  /** A single child whose type changes: the old fiber is deleted and the new
      one is a PLACEMENT with no `dom`; the two are not linked. */
  lemma ReplaceExample(a: Arena, deletion: seq<nat>, f: nat, els: seq<Element>)
    requires Valid(a) && f < |a| && |els| == 1
    requires var prior := OldChain(a, f); |prior| == 1 && a[prior[0]].tag != els[0].tag
    ensures var prior := OldChain(a, f);
      var r := Reconcile(a, deletion, f, els);
      && r.1 == deletion + [prior[0]]
      && r.0[|a|].effect == Placement && r.0[|a|].dom.None? && r.0[|a|].alternate.None?
  {
    var prior := OldChain(a, f);
    assert Deleted(a, f, els) == [prior[0]] by {
      assert Max(1, 1) == 1;
    }
    ReconcileDeletions(a, deletion, f, els);
    ReconcileEffect(a, deletion, f, els, 0);
  }
}
