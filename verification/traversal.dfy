/**
 * The order in which the render phase of src/react-dom/render/render.ts
 * works through a tree. A fiber not yet worked on has no child; the work
 * still ahead of a unit is the fiber itself followed by `Later`, and the
 * elements of those subtrees in pre-order are what the remaining units will
 * visit. From a fresh `render` this makes the render phase a pre-order walk
 * of the element tree that visits each new fiber once, and any way of
 * slicing it into idle callbacks commits the same state.
 */
module Traversal {
  import opened Util
  import opened Elements
  import opened Fibers
  import opened Reconciler
  import opened Session
  import opened Committer
  import opened Scheduler
  import opened Iteration

  // ----- Work ahead -----

  /** The fibers whose subtrees are still to be walked when `x` is next. */
  function Pending(a: Arena, x: nat): (p: seq<nat>)
    requires Valid(a) && x < |a|
    ensures |p| >= 1 && p[0] == x
    ensures forall j :: 0 <= j < |p| ==> p[j] < |a|
  {
    [x] + Later(a, x)
  }

  /** The elements of the subtrees of `l`, each in pre-order, one after the
      other (an index outside the arena names no subtree). */
  function Rem(a: Arena, l: seq<nat>): seq<Element>
  {
    if l == [] then []
    else (if l[0] < |a| then PreOrder(ElemOf(a[l[0]])) else []) + Rem(a, l[1..])
  }

  /** The elements the remaining units will visit, given the next unit. */
  function RemNext(a: Arena, o: Option<nat>): seq<Element>
    requires Valid(a) && InRange(a, o)
  {
    match o
    case None => []
    case Some(x) => Rem(a, Pending(a, x))
  }

  /** The work ahead of `x` is on distinct fibers that have not been worked
      on (they have no child yet) and are not among the fibers `seen`. */
  ghost predicate ReadyAt(a: Arena, x: nat, seen: set<nat>)
    requires Valid(a) && x < |a|
  {
    var p := Pending(a, x);
    && Distinct(p)
    && (forall y :: y in p ==> y < |a| && a[y].child.None? && y !in seen)
    && (forall y :: y in seen ==> y < |a|)
  }

  ghost predicate ReadyNext(a: Arena, o: Option<nat>, seen: set<nat>)
    requires Valid(a) && InRange(a, o)
  {
    match o
    case None => forall y :: y in seen ==> y < |a|
    case Some(x) => ReadyAt(a, x, seen)
  }

  // ----- Lemmas on lists of subtrees -----

  /** The indices `lo`, ..., `hi - 1`. */
  function Range(lo: nat, hi: nat): (r: seq<nat>)
    ensures lo <= hi ==> |r| == hi - lo
    ensures forall j :: 0 <= j < |r| ==> r[j] == lo + j
    decreases hi - lo
  {
    if lo >= hi then [] else [lo] + Range(lo + 1, hi)
  }

  lemma {:induction false} RemAppend(a: Arena, l1: seq<nat>, l2: seq<nat>)
    ensures Rem(a, l1 + l2) == Rem(a, l1) + Rem(a, l2)
    decreases |l1|
  {
    if l1 == [] {
      assert l1 + l2 == l2;
    } else {
      assert (l1 + l2)[1..] == l1[1..] + l2;
      RemAppend(a, l1[1..], l2);
    }
  }

  /** `Rem` reads only the type and props of the fibers it names. */
  lemma {:induction false} RemFrame(a: Arena, b: Arena, l: seq<nat>)
    requires SameShape(a, b) && forall j :: 0 <= j < |l| ==> l[j] < |a|
    ensures Rem(b, l) == Rem(a, l)
    decreases |l|
  {
    if l != [] {
      assert ElemOf(b[l[0]]) == ElemOf(a[l[0]]);
      RemFrame(a, b, l[1..]);
    }
  }

  /** New fibers `base`, ..., `hi - 1` linked as one sibling chain: the
      chain from `lo` runs to the end. */
  lemma {:induction false} NewChain(b: Arena, base: nat, lo: nat, hi: nat)
    requires Valid(b) && base <= lo < hi <= |b|
    requires forall i :: base <= i < hi ==> b[i].sibling == NextLink(base, hi - base, i - base)
    ensures Chain(b, Some(lo)) == Range(lo, hi)
    decreases hi - lo
  {
    assert b[lo].sibling == NextLink(base, hi - base, lo - base);
    assert LinksOk(b, lo);
    if lo + 1 < hi {
      NewChain(b, base, lo + 1, hi);
    }
  }

  /** The subtrees of new fibers standing for `els` walk as that forest. */
  lemma RemNewAll(b: Arena, base: nat, hi: nat, els: seq<Element>)
    requires hi == base + |els| <= |b|
    requires forall i :: 0 <= i < |els| ==> ElemOf(b[base + i]) == els[i]
    ensures Rem(b, Range(base, hi)) == PreOrderForest(els)
  {
    RemNew(b, base, base, hi, els);
    assert els[base - base..] == els;
  }

  /** The subtrees of new fibers `lo`, ..., `hi - 1`, standing for the
      elements of `els` from position `lo - base` on, walk as that forest. */
  lemma {:induction false} RemNew(b: Arena, base: nat, lo: nat, hi: nat, els: seq<Element>)
    requires base <= lo <= hi && hi == base + |els| <= |b|
    requires forall i :: 0 <= i < |els| ==> ElemOf(b[base + i]) == els[i]
    ensures Rem(b, Range(lo, hi)) == PreOrderForest(els[lo - base..])
    decreases hi - lo
  {
    if lo < hi {
      RemNew(b, base, lo + 1, hi, els);
      var r := Range(lo, hi);
      assert r[1..] == Range(lo + 1, hi);
      assert els[lo - base..][1..] == els[lo + 1 - base..];
      assert ElemOf(b[base + (lo - base)]) == els[lo - base];
    } else {
      assert els[lo - base..] == [];
    }
  }

  // ----- One unit of work on the arena -----

  /** What one unit of work on `x` does to the arena: `b` keeps every fiber
      of `a` (only `x` may gain a child) and appends one new fiber per child
      element, linked as a chain under `x`. */
  ghost predicate Expanded(a: Arena, b: Arena, x: nat)
    requires x < |a|
  {
    var els := a[x].props.children;
    && Valid(a) && Valid(b) && SameShape(a, b) && |b| == |a| + |els|
    && (forall i :: 0 <= i < |a| && i != x ==> b[i].child == a[i].child)
    && b[x].child == (if |els| > 0 then Some(|a|) else None)
    && (forall i :: |a| <= i < |b| ==>
          && ElemOf(b[i]) == els[i - |a|]
          && b[i].parent == Some(x)
          && b[i].child.None?
          && b[i].sibling == NextLink(|a|, |els|, i - |a|))
  }

  /** Appending to a list whose entries are all below the new ones keeps it
      free of repeats. */
  lemma DistinctAppend(l1: seq<nat>, l2: seq<nat>, bound: nat)
    requires Distinct(l1) && Distinct(l2)
    requires forall i :: 0 <= i < |l1| ==> l1[i] < bound
    requires forall j :: 0 <= j < |l2| ==> bound <= l2[j]
    ensures Distinct(l1 + l2)
  {
    var q := l1 + l2;
    forall i, j | 0 <= i < j < |q|
      ensures q[i] != q[j]
    {
      if j < |l1| {
        assert q[i] == l1[i] && q[j] == l1[j];
      } else if i >= |l1| {
        assert q[i] == l2[i - |l1|] && q[j] == l2[j - |l1|];
      } else {
        assert q[i] == l1[i] && q[j] == l2[j - |l1|];
      }
    }
  }

  /** `Rem` of a list is the first subtree's walk followed by the rest's. */
  lemma RemCons(a: Arena, x: nat, l: seq<nat>)
    requires x < |a| && forall j :: 0 <= j < |l| ==> l[j] < |a|
    ensures Rem(a, [x] + l) == PreOrder(ElemOf(a[x])) + Rem(a, l)
  {
    assert ([x] + l)[1..] == l;
  }

  /** What followed `x` is still ahead after the unit on `x`, and it stays
      unworked, repeat-free and unseen. */
  lemma LaterReady(a: Arena, b: Arena, x: nat, seen: set<nat>)
    requires x < |a| && Expanded(a, b, x) && ReadyAt(a, x, seen)
    ensures Later(b, x) == Later(a, x)
    ensures Distinct(Later(a, x))
    ensures forall y :: y in Later(a, x) ==> y < |a| && b[y].child.None? && y !in seen + {x}
  {
    var l := Later(a, x);
    LaterFrame(a, b, x);
    assert Pending(a, x) == [x] + l;
    DistinctTail(x, l);
    forall y | y in l
      ensures y < |a| && b[y].child.None? && y !in seen + {x}
    {
      assert y in Pending(a, x);
    }
  }

  /** The new fibers of an expansion form one chain under `x`. */
  lemma ExpandedChain(a: Arena, b: Arena, x: nat)
    requires x < |a| && Expanded(a, b, x) && |a[x].props.children| > 0
    ensures |a| < |b| && b[|a|].parent == Some(x)
    ensures Chain(b, Some(|a|)) == Range(|a|, |b|)
  {
    NewChain(b, |a|, |a|, |b|);
  }

  /** After the unit on a fiber with children the work ahead is the new chain
      followed by what followed `x`. */
  lemma PendingDown(a: Arena, b: Arena, x: nat)
    requires x < |a| && Expanded(a, b, x) && |a[x].props.children| > 0
    ensures |a| < |b|
    ensures Pending(b, |a|) == Range(|a|, |b|) + Later(a, x)
  {
    ExpandedChain(a, b, x);
    LaterFrame(a, b, x);
    PendingOfFirst(b, |a|, x);
  }

  /** The work ahead of a first child is its chain, then what follows its parent. */
  lemma PendingOfFirst(b: Arena, y: nat, x: nat)
    requires Valid(b) && x < y < |b| && b[y].parent == Some(x)
    ensures Pending(b, y) == Chain(b, Some(y)) + Later(b, x)
  {
    assert LinksOk(b, y);
    var rest := Chain(b, b[y].sibling);
    var l := Later(b, x);
    assert Chain(b, Some(y)) == [y] + rest;
    assert Later(b, y) == rest + l;
    Regroup([y], rest, l, Later(b, y));
  }

  /** A fiber with children: the walk goes down to the first new fiber, and
      the elements ahead lose only `x`'s own. */
  lemma AdvanceDown(a: Arena, b: Arena, x: nat, seen: set<nat>)
    requires x < |a| && Expanded(a, b, x) && ReadyAt(a, x, seen)
    requires |a[x].props.children| > 0
    ensures |a| < |b|
    ensures Rem(a, Pending(a, x)) == [ElemOf(a[x])] + Rem(b, Pending(b, |a|))
    ensures ReadyAt(b, |a|, seen + {x})
  {
    PendingDown(a, b, x);
    DownRem(a, b, x);
    DownReady(a, b, x, seen);
  }

  lemma DownRem(a: Arena, b: Arena, x: nat)
    requires x < |a| && Expanded(a, b, x) && |a[x].props.children| > 0
    ensures |a| < |b|
    ensures Rem(a, Pending(a, x)) == [ElemOf(a[x])] + Rem(b, Range(|a|, |b|) + Later(a, x))
  {
    var els := a[x].props.children;
    ExpandedElems(a, b, x);
    LaterFrame(a, b, x);
    RemSplice(a, b, x, els, Later(a, x));
  }

  /** The new fibers of an expansion stand for the child elements, in order. */
  lemma ExpandedElems(a: Arena, b: Arena, x: nat)
    requires x < |a| && Expanded(a, b, x)
    ensures |b| == |a| + |a[x].props.children|
    ensures forall i :: 0 <= i < |a[x].props.children| ==> ElemOf(b[|a| + i]) == a[x].props.children[i]
  {
    var els := a[x].props.children;
    forall i | 0 <= i < |els|
      ensures ElemOf(b[|a| + i]) == els[i]
    {
      assert ElemOf(b[|a| + i]) == els[|a| + i - |a|];
    }
  }

  /** Replacing `x` by new fibers for its children replaces `x`'s walk by
      `x` followed by the children's walks. */
  lemma RemSplice(a: Arena, b: Arena, x: nat, els: seq<Element>, l: seq<nat>)
    requires SameShape(a, b) && x < |a| && els == a[x].props.children && |b| == |a| + |els|
    requires forall i :: 0 <= i < |els| ==> ElemOf(b[|a| + i]) == els[i]
    requires forall j :: 0 <= j < |l| ==> l[j] < |a|
    ensures Rem(a, [x] + l) == [ElemOf(a[x])] + Rem(b, Range(|a|, |b|) + l)
  {
    var e := ElemOf(a[x]);
    var forest := PreOrderForest(els);
    var tail := Rem(a, l);
    RemBorn(a, b, els, l);
    RemHead(a, x, l);
    Regroup([e], forest, tail, Rem(b, Range(|a|, |b|) + l));
  }

  /** The walk of a node's subtree, then of the subtrees of `l`. */
  lemma RemHead(a: Arena, x: nat, l: seq<nat>)
    requires x < |a| && forall j :: 0 <= j < |l| ==> l[j] < |a|
    ensures Rem(a, [x] + l) == ([ElemOf(a[x])] + PreOrderForest(a[x].props.children)) + Rem(a, l)
  {
    RemCons(a, x, l);
  }

  /** The walks of new fibers standing for `els`, then of old fibers `l`. */
  lemma RemBorn(a: Arena, b: Arena, els: seq<Element>, l: seq<nat>)
    requires SameShape(a, b) && |b| == |a| + |els|
    requires forall i :: 0 <= i < |els| ==> ElemOf(b[|a| + i]) == els[i]
    requires forall j :: 0 <= j < |l| ==> l[j] < |a|
    ensures Rem(b, Range(|a|, |b|) + l) == PreOrderForest(els) + Rem(a, l)
  {
    RemNewAll(b, |a|, |b|, els);
    RemFrame(a, b, l);
    RemJoin(b, Range(|a|, |b|), l, PreOrderForest(els), Rem(a, l));
  }

  lemma RemJoin(b: Arena, l1: seq<nat>, l2: seq<nat>, w1: seq<Element>, w2: seq<Element>)
    requires Rem(b, l1) == w1 && Rem(b, l2) == w2
    ensures Rem(b, l1 + l2) == w1 + w2
  {
    RemAppend(b, l1, l2);
  }

  lemma DownReady(a: Arena, b: Arena, x: nat, seen: set<nat>)
    requires x < |a| && Expanded(a, b, x) && ReadyAt(a, x, seen) && |a[x].props.children| > 0
    ensures |a| < |b|
    ensures var q := Range(|a|, |b|) + Later(a, x);
      && Distinct(q) && forall y :: y in q ==> y < |b| && b[y].child.None? && y !in seen + {x}
  {
    LaterReady(a, b, x, seen);
    var born := Range(|a|, |b|);
    forall j | 0 <= j < |born|
      ensures b[born[j]].child.None?
    {
      assert born[j] == |a| + j;
    }
    AppendReady(b, born, Later(a, x), |a|, seen + {x});
  }

  /** The readiness facts for the new chain followed by what followed `x`. */
  lemma AppendReady(b: Arena, born: seq<nat>, l: seq<nat>, bound: nat, seen: set<nat>)
    requires bound <= |b| && born == Range(bound, |b|)
    requires forall j :: 0 <= j < |born| ==> b[born[j]].child.None?
    requires Distinct(l) && forall y :: y in l ==> y < bound && b[y].child.None? && y !in seen
    requires forall y :: y in seen ==> y < bound
    ensures Distinct(born + l)
    ensures forall y :: y in born + l ==> y < |b| && b[y].child.None? && y !in seen
  {
    assert forall i :: 0 <= i < |l| ==> l[i] in l;
    DistinctAppend(l, born, bound);
    assert Distinct(born);
    forall i, j | 0 <= i < j < |born + l|
      ensures (born + l)[i] != (born + l)[j]
    {
      if j < |born| {
      } else if i >= |born| {
        assert (born + l)[i] == l[i - |born|] && (born + l)[j] == l[j - |born|];
      } else {
        assert (born + l)[j] == l[j - |born|];
      }
    }
    forall y | y in born
      ensures y < |b| && b[y].child.None? && y !in seen
    {
      var j :| 0 <= j < |born| && born[j] == y;
    }
  }

  /** A fiber without children: the walk climbs, and the work ahead is what
      followed `x`. */
  lemma AdvanceUp(a: Arena, b: Arena, x: nat, seen: set<nat>)
    requires x < |a| && Expanded(a, b, x) && ReadyAt(a, x, seen)
    requires |a[x].props.children| == 0
    ensures InRange(b, Climb(b, Some(x)))
    ensures Rem(a, Pending(a, x)) == [ElemOf(a[x])] + RemNext(b, Climb(b, Some(x)))
    ensures ReadyNext(b, Climb(b, Some(x)), seen + {x})
  {
    UpRem(a, b, x, seen);
    UpReady(a, b, x, seen);
  }

  lemma UpRem(a: Arena, b: Arena, x: nat, seen: set<nat>)
    requires x < |a| && Expanded(a, b, x) && ReadyAt(a, x, seen)
    requires |a[x].props.children| == 0
    ensures InRange(b, Climb(b, Some(x)))
    ensures Rem(a, Pending(a, x)) == [ElemOf(a[x])] + RemNext(b, Climb(b, Some(x)))
  {
    var l := Later(a, x);
    LaterReady(a, b, x, seen);
    ClimbLater(b, x);
    RemCons(a, x, l);
    assert PreOrder(ElemOf(a[x])) == [ElemOf(a[x])];
    if l != [] {
      LaterHead(b, x);
      RemFrame(a, b, l);
    }
  }

  lemma UpReady(a: Arena, b: Arena, x: nat, seen: set<nat>)
    requires x < |a| && Expanded(a, b, x) && ReadyAt(a, x, seen)
    requires |a[x].props.children| == 0
    ensures InRange(b, Climb(b, Some(x)))
    ensures ReadyNext(b, Climb(b, Some(x)), seen + {x})
  {
    var l := Later(a, x);
    LaterReady(a, b, x, seen);
    ClimbLater(b, x);
    if l != [] {
      LaterHead(b, x);
    }
  }

  // ----- One unit of work on the state -----

  /** The fiber a unit of work is on, and the element it stands for. */
  function Worked(s: State): nat
  {
    if s.nextUnitWork.Some? then s.nextUnitWork.value else 0
  }

  function Visit(s: State): Element
  {
    if s.nextUnitWork.Some? && s.nextUnitWork.value < |s.fibers| then ElemOf(s.fibers[s.nextUnitWork.value])
    else Element("", Props(map[], []))
  }

  /** `performUnitOfWork` on a fiber not yet worked on expands it, and the
      next unit is its first new child, else the climb. */
  lemma StepExpands(s: State)
    requires Inv(s) && s.nextUnitWork.Some? && s.fibers[s.nextUnitWork.value].child.None?
    ensures var x := s.nextUnitWork.value;
      && Expanded(s.fibers, Step(s).fibers, x)
      && Step(s).nextUnitWork
           == if |s.fibers[x].props.children| > 0 then Some(|s.fibers|) else Climb(Step(s).fibers, Some(x))
  {
    var x := s.nextUnitWork.value;
    var d := EnsureDom(s, x);
    PerformUnitOfWorkSpec(s, x);
    ReconcileExpands(s.fibers, d.fibers, d.deletion, x);
    ReconcileShape(d.fibers, d.deletion, x, s.fibers[x].props.children);
  }

  /** Reconciling a fiber not yet worked on (after giving it a node) expands it. */
  lemma ReconcileExpands(a: Arena, d: Arena, deletion: seq<nat>, x: nat)
    requires Valid(a) && Valid(d) && x < |a| && |d| == |a| && a[x].child.None?
    requires d[x] == a[x].(dom := d[x].dom)
    requires forall i :: 0 <= i < |a| && i != x ==> d[i] == a[i]
    ensures Expanded(a, Reconcile(d, deletion, x, a[x].props.children).0, x)
  {
    var els := a[x].props.children;
    var b := Reconcile(d, deletion, x, els).0;
    assert Valid(b) && |b| == |a| + |els| && SameShape(a, b)
        && (forall i :: 0 <= i < |a| && i != x ==> b[i].child == a[i].child)
        && b[x].child == (if |els| > 0 then Some(|a|) else None) by {
      ReconcileShape(d, deletion, x, els);
    }
    assert forall i :: |a| <= i < |b| ==>
          && ElemOf(b[i]) == els[i - |a|]
          && b[i].parent == Some(x)
          && b[i].child.None?
          && b[i].sibling == NextLink(|a|, |els|, i - |a|) by {
      forall i | |a| <= i < |b|
        ensures && ElemOf(b[i]) == els[i - |a|]
                && b[i].parent == Some(x)
                && b[i].child.None?
                && b[i].sibling == NextLink(|a|, |els|, i - |a|)
      {
        ReconcileNew(d, deletion, x, els, i - |a|);
      }
    }
  }

  /** One unit of work visits the first element still ahead and leaves the
      rest ahead. */
  lemma StepAdvances(s: State, seen: set<nat>)
    requires Inv(s) && ReadyNext(s.fibers, s.nextUnitWork, seen) && s.nextUnitWork.Some?
    ensures Worked(s) !in seen
    ensures RemNext(s.fibers, s.nextUnitWork) == [Visit(s)] + RemNext(Step(s).fibers, Step(s).nextUnitWork)
    ensures ReadyNext(Step(s).fibers, Step(s).nextUnitWork, seen + {Worked(s)})
  {
    var x := s.nextUnitWork.value;
    StepExpands(s);
    AdvanceTo(s.fibers, Step(s).fibers, x, Step(s).nextUnitWork, seen);
  }

  /** The unit on `x`, stated on the arenas before and after it and the next
      unit it returns. */
  lemma AdvanceTo(a: Arena, b: Arena, x: nat, next: Option<nat>, seen: set<nat>)
    requires x < |a| && Expanded(a, b, x) && ReadyAt(a, x, seen)
    requires next == if |a[x].props.children| > 0 then Some(|a|) else Climb(b, Some(x))
    ensures x !in seen && InRange(b, next)
    ensures Rem(a, Pending(a, x)) == [ElemOf(a[x])] + RemNext(b, next)
    ensures ReadyNext(b, next, seen + {x})
  {
    assert Pending(a, x)[0] == x;
    if |a[x].props.children| > 0 {
      AdvanceDown(a, b, x, seen);
    } else {
      AdvanceUp(a, b, x, seen);
    }
  }

  // ----- The whole render phase -----

  /** The elements of the fibers the first `n` units work on. */
  function Visited(s: State, n: nat): seq<Element>
    requires Inv(s)
  {
    StepClosed();
    Trace(Step, Inv, Idle, Visit, s, n)
  }

  /** The fibers the first `n` units work on. */
  function VisitedFibers(s: State, n: nat): seq<nat>
    requires Inv(s)
  {
    StepClosed();
    Trace(Step, Inv, Idle, Worked, s, n)
  }

  /** The elements still ahead of a state. */
  function Ahead(s: State): seq<Element>
  {
    if Inv(s) then RemNext(s.fibers, s.nextUnitWork) else []
  }

  /** The state is ready with `seen` the fibers already worked on. */
  ghost predicate ReadyFor(s: State, seen: set<nat>)
  {
    Inv(s) && ReadyNext(s.fibers, s.nextUnitWork, seen)
  }

  lemma UnitsAdvance()
    ensures Closed(Step, Inv) && Advances(Step, Inv, Idle, Visit, Worked, Ahead, ReadyFor)
  {
    StepClosed();
    forall t, sn
      ensures AdvancesAt(Step, Inv, Idle, Visit, Worked, Ahead, ReadyFor, t, sn)
    {
      if Inv(t) && ReadyFor(t, sn) {
        UnitAdvances(t, sn);
      }
    }
  }

  /** One unit of work in the terms of `Ahead` and `ReadyFor`. */
  lemma UnitAdvances(t: State, sn: set<nat>)
    requires Inv(t) && ReadyFor(t, sn)
    ensures if Idle(t) then Ahead(t) == []
            else Worked(t) !in sn && Ahead(t) == [Visit(t)] + Ahead(Step(t)) && ReadyFor(Step(t), sn + {Worked(t)})
  {
    if !Idle(t) {
      StepAdvances(t, sn);
    }
  }

  /** From a ready state, exactly as many units as elements are ahead run
      before the render phase ends; they visit those elements in order, on
      distinct fibers not seen before. */
  lemma Drain(s: State, seen: set<nat>)
    requires Inv(s) && ReadyNext(s.fibers, s.nextUnitWork, seen)
    ensures var n := |RemNext(s.fibers, s.nextUnitWork)|;
      && Busy(Step, Inv, Idle, s, n) && Idle(Units(s, n))
      && Visited(s, n) == RemNext(s.fibers, s.nextUnitWork)
      && |VisitedFibers(s, n)| == n && Distinct(VisitedFibers(s, n))
      && (forall k :: 0 <= k < n ==> VisitedFibers(s, n)[k] !in seen)
  {
    StepClosed();
    UnitsAdvance();
    Drains(Step, Inv, Idle, Visit, Worked, Ahead, ReadyFor, s, seen);
  }

  /** A fresh `render` is ready: the root is the only work ahead, and what
      is ahead is the root element's tree in pre-order. */
  lemma RenderReady(s: State, element: Element, container: nat)
    requires Inv(s) && container < |s.nodes|
    ensures var t := Render(s, element, container);
      && ReadyNext(t.fibers, t.nextUnitWork, {})
      && RemNext(t.fibers, t.nextUnitWork) == PreOrder(RootElement(element))
  {
    var t := Render(s, element, container);
    var r := |s.fibers|;
    assert Later(t.fibers, r) == [];
    assert Pending(t.fibers, r) == [r];
    assert ElemOf(t.fibers[r]) == RootElement(element);
    assert Rem(t.fibers, [r]) == PreOrder(RootElement(element)) + Rem(t.fibers, []);
  }

  /** The render phase after `render(element, container)` is a pre-order walk
      of `{type: "", props: {children: [element]}}`: the `k`-th unit works on
      a fiber standing for the `k`-th element in pre-order, no fiber is
      worked on twice, and `nextUnitWork` becomes null exactly after the
      last element. */
  lemma RenderWalksPreOrder(s: State, element: Element, container: nat)
    requires Inv(s) && container < |s.nodes|
    ensures var t := Render(s, element, container);
      var order := PreOrder(RootElement(element));
      && Visited(t, |order|) == order
      && |VisitedFibers(t, |order|)| == |order| && Distinct(VisitedFibers(t, |order|))
      && (forall k: nat :: Idle(Units(t, k)) <==> |order| <= k)
  {
    var t := Render(s, element, container);
    var n := |PreOrder(RootElement(element))|;
    RenderReady(s, element, container);
    Drain(t, {});
    StepClosed();
    forall k: nat
      ensures Idle(Units(t, k)) <==> n <= k
    {
      IdleFrom(Step, Inv, Idle, t, n, k);
    }
  }

  // ----- Slicing into idle callbacks -----

  /** Resumability: however the deadline slices the render phase, the chain
      of idle callbacks commits exactly when the slices allow the walk's
      `|order|` units, and then commits the state the walk reaches in one go;
      until then it is where the allowed units leave it. */
  lemma RenderResumable(s: State, element: Element, container: nat, budgets: seq<nat>)
    requires Inv(s) && container < |s.nodes|
    ensures var t := Render(s, element, container);
      var n := |PreOrder(RootElement(element))|;
      Drive(t, budgets)
        == if Allowance(budgets) >= n then (CommitRoot(Units(t, n)), false) else (Units(t, Allowance(budgets)), true)
  {
    var t := Render(s, element, container);
    var n := |PreOrder(RootElement(element))|;
    RenderWalksPreOrder(s, element, container);
    StepClosed();
    RenderReady(s, element, container);
    Drain(t, {});
    DriveFrom(t, n, budgets);
  }

  /** A finished render phase passes the guard of `commitRoot`: the root
      gains its child in the first unit and keeps it. Once the slices allow
      every unit, the root is published, and `fiberRoot` cleared, exactly
      when no call of the commit throws. */
  lemma RenderCommits(s: State, element: Element, container: nat, budgets: seq<nat>)
    requires Inv(s) && container < |s.nodes|
    ensures CanCommit(Units(Render(s, element, container), |PreOrder(RootElement(element))|))
    ensures Allowance(budgets) >= |PreOrder(RootElement(element))| ==>
      (Drive(Render(s, element, container), budgets).0.currentRoot == Some(|s.fibers|)
         && Drive(Render(s, element, container), budgets).0.fiberRoot.None?
       <==> NoneRaise(Units(Render(s, element, container), |PreOrder(RootElement(element))|).nodes,
                      CommitOps(Units(Render(s, element, container), |PreOrder(RootElement(element))|))))
  {
    var t := Render(s, element, container);
    var n := |PreOrder(RootElement(element))|;
    RenderRootHasChild(s, element, container);
    RenderResumable(s, element, container, budgets);
    CommitRootEffect(Units(t, n));
  }

  /** When the render phase after `render` ends, the new root is still
      pending and has a child. */
  lemma RenderRootHasChild(s: State, element: Element, container: nat)
    requires Inv(s) && container < |s.nodes|
    ensures RootHasChild(|s.fibers|, Units(Render(s, element, container), |PreOrder(RootElement(element))|))
  {
    RenderFirstUnit(s, element, container);
    PreOrderStarts(RootElement(element));
    RootHasChildAfter(Render(s, element, container), |s.fibers|, |PreOrder(RootElement(element))|);
  }

  lemma PreOrderStarts(e: Element)
    ensures |PreOrder(e)| > 0
  {
    assert PreOrder(e)[0] == e;
  }

  lemma RootHasChildAfter(t: State, r: nat, n: nat)
    requires Inv(t) && t.nextUnitWork.Some? && RootHasChild(r, Step(t)) && n > 0
    ensures RootHasChild(r, Units(t, n))
  {
    StepClosed();
    forall v | Inv(v) && RootHasChild(r, v) && !Idle(v)
      ensures RootHasChild(r, Step(v))
    {
      RootKeepsChild(r, v);
    }
    RepeatKeepsAfterFirst(Step, Inv, Idle, v => RootHasChild(r, v), t, n);
  }

  lemma RenderFirstUnit(s: State, element: Element, container: nat)
    requires Inv(s) && container < |s.nodes|
    ensures Inv(Render(s, element, container)) && Render(s, element, container).nextUnitWork.Some?
    ensures RootHasChild(|s.fibers|, Step(Render(s, element, container)))
  {
    var t := Render(s, element, container);
    var r := |s.fibers|;
    assert t.fibers[r].props.children == [element];
    assert ReadyNext(t.fibers, t.nextUnitWork, {}) by {
      RenderReady(s, element, container);
    }
    FirstUnitGivesChild(t, r);
  }

  /** The root `r` is pending and has a child, and the work ahead is ready. */
  ghost predicate RootHasChild(r: nat, u: State)
  {
    && Inv(u) && ReadyNext(u.fibers, u.nextUnitWork, {})
    && r < |u.fibers| && u.fibers[r].child.Some? && u.fiberRoot == Some(r)
  }

  /** The first unit after `render` works on the root and gives it a child. */
  lemma FirstUnitGivesChild(t: State, r: nat)
    requires Inv(t) && t.nextUnitWork == Some(r) && t.fiberRoot == Some(r) && ReadyNext(t.fibers, t.nextUnitWork, {})
    requires |t.fibers[r].props.children| > 0
    ensures RootHasChild(r, Step(t))
  {
    assert r in Pending(t.fibers, r);
    StepExpands(t);
    StepAdvances(t, {});
    StepExtends(t);
    ReadyForget(Step(t).fibers, Step(t).nextUnitWork, {r});
  }

  /** A later unit works on a fiber with no child yet, so never on the root,
      and leaves the root's child alone. */
  lemma RootKeepsChild(r: nat, u: State)
    requires RootHasChild(r, u) && !Idle(u)
    ensures RootHasChild(r, Step(u))
  {
    var x := u.nextUnitWork.value;
    assert x in Pending(u.fibers, x);
    StepExpands(u);
    StepAdvances(u, {});
    StepExtends(u);
    ReadyForget(Step(u).fibers, Step(u).nextUnitWork, {x});
  }

  lemma ReadyForget(a: Arena, o: Option<nat>, seen: set<nat>)
    requires Valid(a) && InRange(a, o) && ReadyNext(a, o, seen)
    ensures ReadyNext(a, o, {})
  {
  }

  /** A chain of slices over a render phase that is busy for exactly `n`
      units commits once the slices allow `n` units. */
  lemma DriveFrom(t: State, n: nat, budgets: seq<nat>)
    requires Inv(t) && t.fiberRoot.Some? && 0 < n
    requires Busy(Step, Inv, Idle, t, n) && Idle(Units(t, n))
    ensures Drive(t, budgets)
         == if Allowance(budgets) >= n then (CommitRoot(Units(t, n)), false) else (Units(t, Allowance(budgets)), true)
  {
    StepClosed();
    CommitClosed();
    forall u | Inv(u) && RootPending(u) && !Idle(u)
      ensures RootPending(Step(u))
    {
      StepExtends(u);
    }
    SlicesRun(Step, Inv, Idle, RootPending, CommitRoot, t, n, budgets);
  }

  /** `deletion` is never cleared: whatever the slices, the list after them
      starts with the list before. */
  lemma DriveKeepsDeletion(s: State, budgets: seq<nat>)
    requires Inv(s)
    ensures var r := Drive(s, budgets).0;
      |s.deletion| <= |r.deletion| && r.deletion[..|s.deletion|] == s.deletion
  {
    var p := (t: State) => |s.deletion| <= |t.deletion| && t.deletion[..|s.deletion|] == s.deletion;
    forall t | Inv(t) && p(t) && !Idle(t)
      ensures p(Step(t))
    {
      StepExtends(t);
      assert Step(t).deletion[..|t.deletion|][..|s.deletion|] == s.deletion;
    }
    forall t | Inv(t) && p(t)
      ensures p(CommitRoot(t))
    {
      CommitRootEffect(t);
    }
    StepClosed();
    CommitClosed();
    SlicesKeep(Step, Inv, Idle, RootPending, CommitRoot, p, s, budgets);
  }
}
