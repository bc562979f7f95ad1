/**
 * The render phase driver of src/react-dom/render/render.ts:
 * `performUnitOfWork`, and `workLoop` with the browser's idle deadline
 * replaced by a budget: a slice's deadline reports `timeRemaining() < 1`
 * after `budget` units of work. `RunWorkLoop` runs the source's loop on the
 * deadline's answers themselves and is proved to be the slice whose budget
 * is one more than the position of the first `true`.
 */
module Scheduler {
  import opened Util
  import opened Elements
  import opened Fibers
  import opened Reconciler
  import opened Dom
  import opened Session
  import opened Committer
  import opened Iteration

  /** The loop of lines 96-103: starting from `nextFiber`, the sibling of the
      first fiber on the way up that has one. */
  function Climb(a: Arena, o: Option<nat>): (r: Option<nat>)
    requires Valid(a) && InRange(a, o)
    ensures InRange(a, r)
    decreases if o.Some? then o.value + 1 else 0
  {
    match o
    case None => None
    case Some(x) =>
      assert LinksOk(a, x);
      if a[x].sibling.Some? then a[x].sibling else Climb(a, a[x].parent)
  }

  /** The fibers whose subtrees still follow `x`'s own in a depth-first walk:
      `x`'s later siblings, then those of its parent, and so on up. */
  function Later(a: Arena, x: nat): (l: seq<nat>)
    requires Valid(a) && x < |a|
    ensures forall j :: 0 <= j < |l| ==> l[j] < |a|
    decreases x
  {
    assert LinksOk(a, x);
    Chain(a, a[x].sibling) + (match a[x].parent case None => [] case Some(p) => Later(a, p))
  }

  /** The climb lands on the first fiber of `Later`, and on null exactly when
      nothing follows. */
  lemma {:induction false} ClimbLater(a: Arena, x: nat)
    requires Valid(a) && x < |a|
    ensures Climb(a, Some(x)) == if Later(a, x) == [] then None else Some(Later(a, x)[0])
    decreases x
  {
    assert LinksOk(a, x);
    if a[x].sibling.None? && a[x].parent.Some? {
      ClimbLater(a, a[x].parent.value);
    }
  }

  /** What follows the first fiber of `Later(a, x)` is its own `Later`. */
  lemma {:induction false} LaterHead(a: Arena, x: nat)
    requires Valid(a) && x < |a| && Later(a, x) != []
    ensures Later(a, x) == [Later(a, x)[0]] + Later(a, Later(a, x)[0])
    decreases x
  {
    assert LinksOk(a, x);
    match a[x].sibling
    case Some(y) =>
      assert LinksOk(a, y);
      assert Chain(a, Some(y)) == [y] + Chain(a, a[y].sibling);
    case None =>
      LaterHead(a, a[x].parent.value);
  }

  /** `Later` reads only parent and sibling links. */
  lemma {:induction false} LaterFrame(a: Arena, b: Arena, x: nat)
    requires Valid(a) && Valid(b) && SameShape(a, b) && x < |a|
    ensures Later(b, x) == Later(a, x)
    decreases x
  {
    assert LinksOk(a, x);
    ChainFrame(a, b, a[x].sibling);
    if a[x].parent.Some? {
      LaterFrame(a, b, a[x].parent.value);
    }
  }

  /** Line 85-87: a fiber without a node gets a fresh one from `createDom`. */
  function EnsureDom(s: State, x: nat): (t: State)
    requires Inv(s) && x < |s.fibers|
    ensures Inv(t) && |t.fibers| == |s.fibers|
    ensures t.fibers[x].dom.Some?
    ensures s.fibers[x].dom.Some? ==> t == s
    ensures s.fibers[x].dom.None? ==>
      && t.fibers == s.fibers[x := s.fibers[x].(dom := Some(|s.nodes|))]
      && t.nodes == s.nodes + [CreateDom(s.fibers[x].tag, s.fibers[x].props)]
    ensures t.nextUnitWork == s.nextUnitWork && t.fiberRoot == s.fiberRoot && t.currentRoot == s.currentRoot
    ensures t.deletion == s.deletion && t.log == s.log
  {
    if s.fibers[x].dom.Some? then s
    else
      var a := s.fibers[x := s.fibers[x].(dom := Some(|s.nodes|))];
      assert Valid(a) by {
        forall i | 0 <= i < |a|
          ensures LinksOk(a, i)
        {
          assert LinksOk(s.fibers, i);
        }
      }
      s.(fibers := a, nodes := s.nodes + [CreateDom(s.fibers[x].tag, s.fibers[x].props)])
  }

  /** `performUnitOfWork(fiber)`: give the fiber a node, reconcile its
      children, and return the fiber to work on next. */
  function PerformUnitOfWork(s: State, x: nat): (r: (State, Option<nat>))
    requires Inv(s) && x < |s.fibers|
    ensures Inv(r.0) && InRange(r.0.fibers, r.1)
  {
    var d := EnsureDom(s, x);
    var rc := Reconcile(d.fibers, d.deletion, x, d.fibers[x].props.children);
    ReconcileInv(d, x);
    var a := rc.0;
    assert LinksOk(a, x);
    var next := if a[x].child.Some? then a[x].child else Climb(a, Some(x));
    (d.(fibers := a, deletion := rc.1), next)
  }

  lemma ReconcileInv(s: State, x: nat)
    requires Inv(s) && x < |s.fibers|
    ensures var rc := Reconcile(s.fibers, s.deletion, x, s.fibers[x].props.children);
      Inv(s.(fibers := rc.0, deletion := rc.1))
  {
    var els := s.fibers[x].props.children;
    var rc := Reconcile(s.fibers, s.deletion, x, els);
    ReconcileShape(s.fibers, s.deletion, x, els);
    assert forall i :: 0 <= i < |s.deletion| ==> rc.1[i] == s.deletion[i];
    forall i | 0 <= i < |rc.0|
      ensures rc.0[i].dom.Some? ==> rc.0[i].dom.value < |s.nodes|
    {
      if i >= |s.fibers| {
        ReconcileEffect(s.fibers, s.deletion, x, els, i - |s.fibers|);
      }
    }
  }

  /** What one unit of work does: the fiber keeps its node or gets the one
      `createDom` makes, its children are reconciled against its own props,
      and the next unit is its first child, else the climb. This unfolds
      `PerformUnitOfWork` for later proofs; what a unit means for the walk is
      stated by `Traversal.StepAdvances`. */
  lemma PerformUnitOfWorkSpec(s: State, x: nat)
    requires Inv(s) && x < |s.fibers|
    ensures var d := EnsureDom(s, x);
      var rc := Reconcile(d.fibers, s.deletion, x, s.fibers[x].props.children);
      var r := PerformUnitOfWork(s, x);
      && r.0.fibers == rc.0 && r.0.deletion == rc.1 && r.0.nodes == d.nodes
      && (s.fibers[x].dom.Some? ==> r.0.fibers[x].dom == s.fibers[x].dom && r.0.nodes == s.nodes)
      && (s.fibers[x].dom.None? ==> r.0.fibers[x].dom == Some(|s.nodes|)
                                    && r.0.nodes == s.nodes + [CreateDom(s.fibers[x].tag, s.fibers[x].props)])
      && (|s.fibers[x].props.children| > 0 ==> r.1 == Some(|s.fibers|))
      && (|s.fibers[x].props.children| == 0 && s.fibers[x].child.None? ==> r.1 == Climb(rc.0, Some(x)))
      && r.0.nextUnitWork == s.nextUnitWork && r.0.fiberRoot == s.fiberRoot
      && r.0.currentRoot == s.currentRoot && r.0.log == s.log
  {
    var d := EnsureDom(s, x);
    ReconcileShape(d.fibers, d.deletion, x, d.fibers[x].props.children);
  }

  /** One iteration of the `workLoop` loop body. */
  function Step(s: State): (t: State)
    requires Inv(s)
    ensures Inv(t)
  {
    match s.nextUnitWork
    case None => s
    case Some(x) =>
      var r := PerformUnitOfWork(s, x);
      r.0.(nextUnitWork := r.1)
  }

  /** No unit of work is pending. */
  predicate Idle(s: State)
  {
    s.nextUnitWork.None?
  }

  lemma StepClosed()
    ensures Closed(Step, Inv)
  {
  }

  /** Up to `n` units of work, stopping when `nextUnitWork` is null. */
  function Units(s: State, n: nat): (t: State)
    requires Inv(s)
    ensures Inv(t)
  {
    StepClosed();
    Repeat(Step, Inv, Idle, s, n)
  }

  /** A render root is pending. */
  predicate RootPending(s: State)
  {
    s.fiberRoot.Some?
  }

  lemma CommitClosed()
    ensures Finishes(CommitRoot, Inv)
  {
  }

  /** `workLoop(deadline)`: run units until none is left or the deadline says
      to yield (never before the first unit); then commit if the render phase
      is over and a root is pending, otherwise ask for another idle callback.
      The second component is whether another callback was requested. */
  function WorkLoop(s: State, budget: nat): (r: (State, bool))
    requires Inv(s)
    ensures Inv(r.0)
  {
    StepClosed();
    CommitClosed();
    Slice(Step, Inv, Idle, RootPending, CommitRoot, s, budget)
  }

  /** `workLoop(deadline)` as written, with `deadline.timeRemaining() < 1`
      answered from `answers`: the loop of lines 42-45, then the commit
      check of lines 46-51. */
  method RunWorkLoop(s: State, answers: seq<bool>) returns (t: State, again: bool)
    requires Inv(s)
    ensures (t, again) == WorkLoop(s, Budget(answers))
  {
    var u := RunUnits(s, answers);
    assert Max(Budget(answers), 1) == Budget(answers);
    WorkLoopCommits(s, Budget(answers));
    if u.nextUnitWork.None? && u.fiberRoot.Some? {
      t, again := CommitRoot(u), false;
    } else {
      t, again := u, true;
    }
  }

  /** The loop `while (nextUnitWork && !shouldYield)` of lines 42-45. */
  method RunUnits(s: State, answers: seq<bool>) returns (u: State)
    requires Inv(s)
    ensures Inv(u) && u == Units(s, Budget(answers))
  {
    StepClosed();
    u := RepeatUntilYield(Step, Inv, Idle, s, answers);
  }

  /** The chain of idle callbacks started by `render`, one budget per
      callback, until a slice returns without asking for another. The second
      component is whether a callback is still outstanding. */
  function Drive(s: State, budgets: seq<nat>): (r: (State, bool))
    requires Inv(s)
    ensures Inv(r.0)
  {
    StepClosed();
    CommitClosed();
    Slices(Step, Inv, Idle, RootPending, CommitRoot, s, budgets)
  }

  // ----- Properties -----

  /** Work can be split anywhere: `m` units then `n` units are `m + n` units. */
  lemma UnitsAdd(s: State, m: nat, n: nat)
    requires Inv(s)
    ensures Units(Units(s, m), n) == Units(s, m + n)
  {
    StepClosed();
    RepeatAdd(Step, Inv, Idle, s, m, n);
  }

  /** What the render phase may do to a state: grow the arena and append to
      `deletion`, leaving `fiberRoot`, `currentRoot` and the host log alone. */
  ghost predicate Extends(s: State, t: State)
  {
    && t.fiberRoot == s.fiberRoot && t.currentRoot == s.currentRoot && t.log == s.log
    && |s.fibers| <= |t.fibers|
    && |s.deletion| <= |t.deletion| && t.deletion[..|s.deletion|] == s.deletion
  }

  lemma StepExtends(s: State)
    requires Inv(s) && s.nextUnitWork.Some?
    ensures Extends(s, Step(s))
  {
    var x := s.nextUnitWork.value;
    var d := EnsureDom(s, x);
    ReconcileShape(d.fibers, d.deletion, x, d.fibers[x].props.children);
  }

  /** The render phase never touches `fiberRoot`, `currentRoot` or the host
      log, never drops a fiber, and only ever appends to `deletion`. */
  lemma UnitsFrame(s: State, n: nat)
    requires Inv(s)
    ensures Extends(s, Units(s, n))
  {
    StepClosed();
    forall t | Inv(t) && Extends(s, t) && !Idle(t)
      ensures Extends(s, Step(t))
    {
      StepExtends(t);
      assert Step(t).deletion[..|t.deletion|][..|s.deletion|] == Step(t).deletion[..|s.deletion|];
    }
    RepeatKeeps(Step, Inv, Idle, t => Extends(s, t), s, n);
  }

  /** A slice commits exactly when its units leave no work and a root is
      pending, and then it commits the state those units reached. This
      unfolds `Slice` for later proofs; what the chain of slices commits is
      stated by `Traversal.RenderResumable` and `Traversal.RenderCommits`. */
  lemma WorkLoopCommits(s: State, budget: nat)
    requires Inv(s)
    ensures var u := Units(s, Max(budget, 1));
      && (!WorkLoop(s, budget).1 <==> u.nextUnitWork.None? && u.fiberRoot.Some?)
      && (!WorkLoop(s, budget).1 ==> WorkLoop(s, budget).0 == CommitRoot(u))
      && (WorkLoop(s, budget).1 ==> WorkLoop(s, budget).0 == u)
  {
  }

  /** With no work pending and no root, a slice does nothing but ask for
      another callback: the callback chain never ends on its own. */
  lemma IdleLoopSpins(s: State, budget: nat)
    requires Inv(s) && s.nextUnitWork.None? && s.fiberRoot.None?
    ensures WorkLoop(s, budget) == (s, true)
  {
  }
}
