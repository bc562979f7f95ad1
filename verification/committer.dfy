/**
 * The commit phase of src/react-dom/render/render.ts: `commitRoot` and the
 * recursive `commitWork`, producing the host calls they make, in order. A
 * call that throws ends the commit: the calls after it are never made and
 * the root is not published.
 */
module Committer {
  import opened Util
  import opened Elements
  import opened Fibers
  import opened Dom
  import opened Session

  /** `fiber.parent?.dom`: the immediate parent's node, if it has one. */
  function DomParent(a: Arena, x: nat): Option<nat>
    requires Valid(a) && x < |a|
  {
    match a[x].parent
    case None => None
    case Some(p) => assert LinksOk(a, x); a[p].dom
  }

  /** The host calls `commitWork` makes for fiber `x` itself: the one its
      effect tag selects, then the unconditional `appendChild` of line 77. */
  function FiberOps(a: Arena, x: nat): seq<HostOp>
    requires Valid(a) && x < |a|
  {
    var f := a[x];
    var parent := DomParent(a, x);
    var effect :=
      if f.effect == Placement && f.dom.Some? then
        (if parent.Some? then [AppendChild(parent.value, f.dom)] else [])
      else if f.effect == Deletion && f.dom.Some? then
        (if parent.Some? then [RemoveChild(parent.value, f.dom.value)] else [])
      else if f.effect == Update && f.dom.Some? then
        assert LinksOk(a, x);
        [UpdateNode(f.dom.value, if f.alternate.Some? then Some(a[f.alternate.value].props) else None, f.props)]
      else [];
    effect + (if parent.Some? then [AppendChild(parent.value, f.dom)] else [])
  }

  /** `commitWork(fiber)`: the fiber, then its whole sibling run, then its
      child's subtree. */
  function CommitWork(a: Arena, o: Option<nat>): seq<HostOp>
    requires Valid(a) && InRange(a, o)
    decreases if o.Some? then |a| - o.value else 0
  {
    match o
    case None => []
    case Some(x) =>
      assert LinksOk(a, x);
      FiberOps(a, x) + CommitWork(a, a[x].sibling) + CommitWork(a, a[x].child)
  }

  /** The fibers `commitWork(o)` visits, in visiting order. */
  function Walk(a: Arena, o: Option<nat>): (w: seq<nat>)
    requires Valid(a) && InRange(a, o)
    ensures forall i :: 0 <= i < |w| ==> w[i] < |a|
    decreases if o.Some? then |a| - o.value else 0
  {
    match o
    case None => []
    case Some(x) =>
      assert LinksOk(a, x);
      [x] + Walk(a, a[x].sibling) + Walk(a, a[x].child)
  }

  /** The host calls for a sequence of visited fibers. */
  function OpsOf(a: Arena, w: seq<nat>): seq<HostOp>
    requires Valid(a)
  {
    if w == [] then []
    else (if w[0] < |a| then FiberOps(a, w[0]) else []) + OpsOf(a, w[1..])
  }

  lemma {:induction false} OpsOfAppend(a: Arena, v: seq<nat>, w: seq<nat>)
    requires Valid(a)
    ensures OpsOf(a, v + w) == OpsOf(a, v) + OpsOf(a, w)
    decreases |v|
  {
    if v == [] {
      assert v + w == w;
    } else {
      assert (v + w)[1..] == v[1..] + w;
      OpsOfAppend(a, v[1..], w);
    }
  }

  lemma OpsOfCons(a: Arena, x: nat, u: seq<nat>)
    requires Valid(a) && x < |a|
    ensures OpsOf(a, [x] + u) == FiberOps(a, x) + OpsOf(a, u)
  {
  }

  /** `commitWork` issues exactly the per-fiber calls of the fibers it
      visits, fiber by fiber in visiting order. */
  lemma {:induction false} CommitWorkIsWalk(a: Arena, o: Option<nat>)
    requires Valid(a) && InRange(a, o)
    ensures CommitWork(a, o) == OpsOf(a, Walk(a, o))
    decreases if o.Some? then |a| - o.value else 0
  {
    if o.Some? {
      var x := o.value;
      assert LinksOk(a, x);
      CommitWorkIsWalk(a, a[x].sibling);
      CommitWorkIsWalk(a, a[x].child);
      var v, w := Walk(a, a[x].sibling), Walk(a, a[x].child);
      assert [x] + v + w == [x] + (v + w);
      OpsOfCons(a, x, v + w);
      OpsOfAppend(a, v, w);
      Regroup(FiberOps(a, x), OpsOf(a, v), OpsOf(a, w), OpsOf(a, v + w));
    }
  }

  /** The child subtrees of a sibling run, last sibling first. */
  function ChildWalks(a: Arena, run: seq<nat>): seq<nat>
    requires Valid(a) && forall i :: 0 <= i < |run| ==> run[i] < |a|
  {
    if run == [] then []
    else
      assert LinksOk(a, run[0]);
      ChildWalks(a, run[1..]) + Walk(a, a[run[0]].child)
  }

  /** Because `commitWork` recurses into the sibling before the child, a whole
      sibling run is committed before any of its children, and the children's
      subtrees follow in reverse sibling order. */
  lemma {:induction false} WalkOrder(a: Arena, x: nat)
    requires Valid(a) && x < |a|
    ensures Walk(a, Some(x)) == Chain(a, Some(x)) + ChildWalks(a, Chain(a, Some(x)))
    decreases |a| - x
  {
    assert LinksOk(a, x);
    var rest := Chain(a, a[x].sibling);
    var cw := Walk(a, a[x].child);
    assert Chain(a, Some(x)) == [x] + rest;
    assert Walk(a, Some(x)) == [x] + Walk(a, a[x].sibling) + cw;
    ChildWalksCons(a, x, rest);
    if a[x].sibling.Some? {
      WalkOrder(a, a[x].sibling.value);
    }
    assert Walk(a, a[x].sibling) == rest + ChildWalks(a, rest);
    Regroup([x], rest, ChildWalks(a, rest), Walk(a, a[x].sibling));
    Regroup([x] + rest, ChildWalks(a, rest), cw, ChildWalks(a, [x] + rest));
  }

  lemma ChildWalksCons(a: Arena, x: nat, rest: seq<nat>)
    requires Valid(a) && x < |a| && forall i :: 0 <= i < |rest| ==> rest[i] < |a|
    ensures LinksOk(a, x)
    ensures ChildWalks(a, [x] + rest) == ChildWalks(a, rest) + Walk(a, a[x].child)
  {
    var run := [x] + rest;
    assert run[0] == x && run[1..] == rest;
  }

  /** `deletion.forEach(commitWork)`. */
  function CommitDeletions(a: Arena, d: seq<nat>): seq<HostOp>
    requires Valid(a) && forall i :: 0 <= i < |d| ==> d[i] < |a|
  {
    if d == [] then [] else CommitDeletions(a, d[..|d| - 1]) + CommitWork(a, Some(d[|d| - 1]))
  }

  /** The guard of `commitRoot`: a root under construction with a child. */
  predicate CanCommit(s: State)
    requires Inv(s)
  {
    s.fiberRoot.Some? && s.fibers[s.fiberRoot.value].child.Some?
  }

  /** `fiberRoot.child`, when the guard holds. */
  function RootChild(s: State): (c: Option<nat>)
    requires Inv(s) && CanCommit(s)
    ensures InRange(s.fibers, c) && c.Some?
  {
    assert LinksOk(s.fibers, s.fiberRoot.value);
    s.fibers[s.fiberRoot.value].child
  }

  /** The host calls `commitRoot` makes when none of them throws: every
      listed deletion, oldest first, then the root's child subtree. */
  function CommitOps(s: State): seq<HostOp>
    requires Inv(s) && CanCommit(s)
  {
    CommitDeletions(s.fibers, s.deletion) + CommitWork(s.fibers, RootChild(s))
  }

  /** Whether a host call throws. `updateDom` fails in `Object.keys` when
      `prevProps` is undefined, at a listener call whose handler is not a
      callback, and on a text node when an attribute pass has work (see
      `Dom.PatchThrows`); `appendChild(null)` is a TypeError. */
  predicate Raises(nodes: seq<HostNode>, op: HostOp)
  {
    match op
    case AppendChild(_, child) => child.None?
    case RemoveChild(_, _) => false
    case UpdateNode(node, prev, next) =>
      prev.None? || ListenersThrow(UpdateDom(prev.value, next))
      || (node < |nodes| && PatchThrows(nodes[node].kind, UpdateDom(prev.value, next)))
  }

  /** No call of `ops` throws. */
  predicate NoneRaise(nodes: seq<HostNode>, ops: seq<HostOp>)
  {
    forall i :: 0 <= i < |ops| ==> !Raises(nodes, ops[i])
  }

  /** The position of the first call of `ops` that throws. */
  function FirstRaise(nodes: seq<HostNode>, ops: seq<HostOp>): (r: Option<nat>)
    ensures r.None? <==> NoneRaise(nodes, ops)
    ensures r.Some? ==> r.value < |ops| && Raises(nodes, ops[r.value]) && NoneRaise(nodes, ops[..r.value])
  {
    if ops == [] then None
    else if Raises(nodes, ops[0]) then Some(0)
    else
      match FirstRaise(nodes, ops[1..])
      case None => None
      case Some(i) =>
        assert ops[..i + 1] == [ops[0]] + ops[1..][..i];
        Some(i + 1)
  }

  /** `commitRoot()`. The exception of a throwing call leaves `commitRoot`
      before lines 58-59, so the root stays unpublished. */
  function CommitRoot(s: State): (t: State)
    requires Inv(s)
    ensures Inv(t)
  {
    if CanCommit(s) then
      var ops := CommitOps(s);
      match FirstRaise(s.nodes, ops)
      case Some(i) => s.(log := s.log + ops[..i + 1])
      case None =>
        s.(log := s.log + ops,
           currentRoot := s.fiberRoot,
           fiberRoot := None)
    else s
  }

  /** What a commit does. When the guard fails, nothing. Otherwise the calls
      of `CommitOps` are made in order up to and including the first that
      throws; the root becomes `currentRoot` and `fiberRoot` is cleared
      exactly when none throws. `deletion`, the arena and the nodes are kept. */
  lemma CommitRootEffect(s: State)
    requires Inv(s)
    ensures !CanCommit(s) ==> CommitRoot(s) == s
    ensures CanCommit(s) ==>
      (CommitRoot(s).currentRoot == s.fiberRoot && CommitRoot(s).fiberRoot.None? <==> NoneRaise(s.nodes, CommitOps(s)))
    ensures CanCommit(s) && NoneRaise(s.nodes, CommitOps(s)) ==> CommitRoot(s).log == s.log + CommitOps(s)
    ensures CanCommit(s) && !NoneRaise(s.nodes, CommitOps(s)) ==>
      && CommitRoot(s).currentRoot == s.currentRoot && CommitRoot(s).fiberRoot == s.fiberRoot
      && |s.log| < |CommitRoot(s).log| <= |s.log| + |CommitOps(s)|
      && CommitRoot(s).log == s.log + CommitOps(s)[..|CommitRoot(s).log| - |s.log|]
      && Raises(s.nodes, CommitRoot(s).log[|CommitRoot(s).log| - 1])
      && NoneRaise(s.nodes, CommitRoot(s).log[|s.log|..|CommitRoot(s).log| - 1])
    ensures CommitRoot(s).deletion == s.deletion && CommitRoot(s).fibers == s.fibers
    ensures CommitRoot(s).nodes == s.nodes && CommitRoot(s).nextUnitWork == s.nextUnitWork
  {
    if CanCommit(s) {
      var ops := CommitOps(s);
      var t := CommitRoot(s);
      if FirstRaise(s.nodes, ops).Some? {
        var i := FirstRaise(s.nodes, ops).value;
        assert t.log == s.log + ops[..i + 1];
        assert t.log[|s.log|..|t.log| - 1] == ops[..i];
        assert t.log[|t.log| - 1] == ops[i];
        assert s.fiberRoot.Some?;
      }
    }
  }

  lemma {:induction false} CommitDeletionsSplit(a: Arena, d: seq<nat>, k: nat)
    requires Valid(a) && (forall i :: 0 <= i < |d| ==> d[i] < |a|) && k < |d|
    ensures CommitDeletions(a, d) == CommitDeletions(a, d[..k]) + CommitWork(a, Some(d[k])) + CommitDeletions(a, d[k + 1..])
  {
    var pre, post := d[..k], d[k + 1..];
    assert d == pre + ([d[k]] + post);
    CommitDeletionsAppend(a, pre, [d[k]] + post);
    CommitDeletionsAppend(a, [d[k]], post);
    assert CommitDeletions(a, [d[k]]) == CommitWork(a, Some(d[k])) by {
      assert [d[k]][..0] == [];
    }
    Regroup(CommitDeletions(a, pre), CommitWork(a, Some(d[k])), CommitDeletions(a, post), CommitDeletions(a, [d[k]] + post));
  }

  lemma {:induction false} CommitDeletionsAppend(a: Arena, u: seq<nat>, v: seq<nat>)
    requires Valid(a) && (forall i :: 0 <= i < |u| ==> u[i] < |a|) && (forall i :: 0 <= i < |v| ==> v[i] < |a|)
    ensures CommitDeletions(a, u + v) == CommitDeletions(a, u) + CommitDeletions(a, v)
    decreases |v|
  {
    if v == [] {
      assert u + v == u;
    } else {
      var w := u + v;
      var v0 := v[..|v| - 1];
      assert w[..|w| - 1] == u + v0;
      assert w[|w| - 1] == v[|v| - 1];
      CommitDeletionsAppend(a, u, v0);
      Regroup(CommitDeletions(a, u), CommitDeletions(a, v0), CommitWork(a, Some(v[|v| - 1])), CommitDeletions(a, v));
    }
  }

  /** Since `deletion` is never cleared, every later commit replays every
      fiber ever deleted: a deleted fiber with a node under a parent node is
      removed and at once appended back by line 77, and when no call of the
      commit throws, both calls are in the log. */
  lemma DeletionsReplayed(s: State, k: nat)
    requires Inv(s) && CanCommit(s) && k < |s.deletion|
    requires var x := s.deletion[k]; s.fibers[x].effect == Deletion && s.fibers[x].dom.Some? && DomParent(s.fibers, x).Some?
    ensures RemovedThenAppended(CommitOps(s), DomParent(s.fibers, s.deletion[k]).value, s.fibers[s.deletion[k]].dom.value)
    ensures NoneRaise(s.nodes, CommitOps(s)) ==>
      RemovedThenAppended(CommitRoot(s).log[|s.log|..], DomParent(s.fibers, s.deletion[k]).value, s.fibers[s.deletion[k]].dom.value)
  {
    var a := s.fibers;
    var x := s.deletion[k];
    var p := DomParent(a, x).value;
    var n := a[x].dom.value;
    var ops := CommitOps(s);
    var cd := CommitDeletions(a, s.deletion);
    ReplayInDeletions(a, s.deletion, k);
    var i :| 0 <= i < |cd| - 1 && cd[i] == RemoveChild(p, n) && cd[i + 1] == AppendChild(p, Some(n));
    assert ops[i] == cd[i] && ops[i + 1] == cd[i + 1];
    if NoneRaise(s.nodes, ops) {
      CommitRootEffect(s);
      assert CommitRoot(s).log[|s.log|..] == ops;
    }
  }

  /** `removeChild(p, n)` immediately followed by `appendChild(p, n)`. */
  ghost predicate RemovedThenAppended(ops: seq<HostOp>, p: nat, n: nat)
  {
    exists i :: 0 <= i < |ops| - 1 && ops[i] == RemoveChild(p, n) && ops[i + 1] == AppendChild(p, Some(n))
  }

  lemma ReplayInDeletions(a: Arena, d: seq<nat>, k: nat)
    requires Valid(a) && (forall i :: 0 <= i < |d| ==> d[i] < |a|) && k < |d|
    requires a[d[k]].effect == Deletion && a[d[k]].dom.Some? && DomParent(a, d[k]).Some?
    ensures RemovedThenAppended(CommitDeletions(a, d), DomParent(a, d[k]).value, a[d[k]].dom.value)
  {
    var x := d[k];
    var cd := CommitDeletions(a, d);
    var before := CommitDeletions(a, d[..k]);
    var here := CommitWork(a, Some(x));
    var after := CommitDeletions(a, d[k + 1..]);
    CommitDeletionsSplit(a, d, k);
    DeletionReappends(a, x);
    CommitWorkStarts(a, x);
    assert here[0] == RemoveChild(DomParent(a, x).value, a[x].dom.value);
    assert here[1] == AppendChild(DomParent(a, x).value, a[x].dom);
    Segment(cd, before, here, after);
    assert cd[|before|] == here[0] && cd[|before| + 1] == here[1];
  }

  /** `commitWork(x)` begins with the calls for `x` itself. */
  lemma CommitWorkStarts(a: Arena, x: nat)
    requires Valid(a) && x < |a|
    ensures |CommitWork(a, Some(x))| >= |FiberOps(a, x)|
    ensures CommitWork(a, Some(x))[..|FiberOps(a, x)|] == FiberOps(a, x)
  {
  }

  lemma Segment<T>(ops: seq<T>, u: seq<T>, m: seq<T>, w: seq<T>)
    requires ops == u + m + w
    ensures forall i :: 0 <= i < |m| ==> ops[|u| + i] == m[i]
  {
  }

  /** A DELETION fiber under a parent node is removed, then appended back. */
  lemma DeletionReappends(a: Arena, x: nat)
    requires Valid(a) && x < |a| && a[x].effect == Deletion && a[x].dom.Some? && DomParent(a, x).Some?
    ensures FiberOps(a, x) == [RemoveChild(DomParent(a, x).value, a[x].dom.value), AppendChild(DomParent(a, x).value, a[x].dom)]
  {
  }

  /** A PLACEMENT fiber under a parent node is appended twice. */
  lemma PlacementAppendsTwice(a: Arena, x: nat)
    requires Valid(a) && x < |a| && a[x].effect == Placement && a[x].dom.Some? && DomParent(a, x).Some?
    ensures FiberOps(a, x) == [AppendChild(DomParent(a, x).value, a[x].dom), AppendChild(DomParent(a, x).value, a[x].dom)]
  {
  }

  /** An UPDATE fiber diffs against its alternate's props, then is appended
      again, which moves its node to the end of the parent's children. The
      diff throws, and so stops the commit before line 77, exactly when a
      handler it passes on is a boolean, number or string, or the fiber's node is a text
      node and its props change a property. */
  lemma UpdateReappends(a: Arena, nodes: seq<HostNode>, x: nat)
    requires Valid(a) && x < |a| && a[x].effect == Update && a[x].dom.Some? && a[x].alternate.Some?
    requires a[x].dom.value < |nodes|
    ensures a[x].alternate.value < |a|
    ensures FiberOps(a, x) == [UpdateNode(a[x].dom.value, Some(a[a[x].alternate.value].props), a[x].props)]
                            + (if DomParent(a, x).Some? then [AppendChild(DomParent(a, x).value, a[x].dom)] else [])
    ensures Raises(nodes, FiberOps(a, x)[0])
        <==> || HandlersRejected(a[a[x].alternate.value].props, a[x].props)
             || (nodes[a[x].dom.value].kind.TextNode? && PropertiesDiffer(a[a[x].alternate.value].props, a[x].props))
  {
    assert LinksOk(a, x);
    var n := nodes[a[x].dom.value];
    UpdateDomThrows(n, a[a[x].alternate.value].props, a[x].props);
    ListenersRejected(a[a[x].alternate.value].props, a[x].props);
  }

  /** Only the immediate parent's node is a target: a fiber whose parent has
      no node issues no tree operation, whatever its ancestors hold. */
  lemma NoParentNodeNoTreeOps(a: Arena, x: nat)
    requires Valid(a) && x < |a| && DomParent(a, x).None?
    ensures forall op :: op in FiberOps(a, x) ==> op.UpdateNode?
  {
  }
}
