/**
 * The Fiber record of src/react-dom/render/render.ts, held in an arena.
 * Structural links (`parent`, `child`, `sibling`) and the `alternate`
 * back-reference are indices into one `seq<Fiber>` shared by the committed
 * tree and the tree under construction.
 */
module Fibers {
  import opened Util
  import opened Elements

  /** `effectTag`; `NoEffect` is the absent optional field. */
  datatype Effect = NoEffect | Placement | Deletion | Update

  /** `dom` is a host node id (see module Dom); `None` is `null`. */
  datatype Fiber = Fiber(
    tag: string,
    dom: Option<nat>,
    props: Props,
    parent: Option<nat>,
    child: Option<nat>,
    sibling: Option<nat>,
    alternate: Option<nat>,
    effect: Effect)

  type Arena = seq<Fiber>

  /** The element a fiber stands for. */
  function ElemOf(f: Fiber): Element
  {
    Element(f.tag, f.props)
  }

  /** Fibers are only ever appended, and a fiber's children and later siblings
      are created after it while its parent and alternate exist before it. */
  predicate LinksOk(a: Arena, i: nat)
    requires i < |a|
  {
    var f := a[i];
    && (f.parent.Some? ==> f.parent.value < i)
    && (f.child.Some? ==> i < f.child.value < |a|)
    && (f.sibling.Some? ==> i < f.sibling.value < |a| && a[f.sibling.value].parent == f.parent)
    && (f.alternate.Some? ==> f.alternate.value < i)
  }

  predicate Valid(a: Arena)
  {
    forall i :: 0 <= i < |a| ==> LinksOk(a, i)
  }

  predicate InRange(a: Arena, o: Option<nat>)
  {
    o.Some? ==> o.value < |a|
  }

  /** Two arenas agree on everything the traversal reads (type, props and the
      parent and sibling links) for the fibers of the shorter one. */
  predicate SameShape(a: Arena, b: Arena)
  {
    && |a| <= |b|
    && forall i :: 0 <= i < |a| ==>
         b[i].tag == a[i].tag && b[i].props == a[i].props
         && b[i].parent == a[i].parent && b[i].sibling == a[i].sibling
  }

  /** The sibling chain starting at `o`, as the source walks it with
      `x = x.sibling`. */
  function Chain(a: Arena, o: Option<nat>): (c: seq<nat>)
    requires Valid(a) && InRange(a, o)
    ensures forall j :: 0 <= j < |c| ==> c[j] < |a|
    ensures o.None? <==> c == []
    ensures o.Some? ==> c[0] == o.value
    decreases if o.Some? then |a| - o.value else 0
  {
    match o
    case None => []
    case Some(s) =>
      assert LinksOk(a, s);
      [s] + Chain(a, a[s].sibling)
  }

  /** A chain only moves forward in the arena. */
  lemma {:induction false} ChainIncreasing(a: Arena, o: Option<nat>)
    requires Valid(a) && InRange(a, o)
    ensures o.Some? ==> forall j :: 0 <= j < |Chain(a, o)| ==> o.value <= Chain(a, o)[j]
    ensures forall i, j :: 0 <= i < j < |Chain(a, o)| ==> Chain(a, o)[i] < Chain(a, o)[j]
    decreases if o.Some? then |a| - o.value else 0
  {
    if o.Some? {
      var s := o.value;
      assert LinksOk(a, s);
      var c := Chain(a, o);
      var rest := Chain(a, a[s].sibling);
      ChainIncreasing(a, a[s].sibling);
      assert c == [s] + rest;
      forall j | 1 <= j < |c|
        ensures s < c[j]
      {
        assert c[j] == rest[j - 1];
      }
      forall i, j | 0 <= i < j < |c|
        ensures c[i] < c[j]
      {
        if i > 0 {
          assert c[i] == rest[i - 1] && c[j] == rest[j - 1];
        }
      }
    }
  }

  /** Consecutive entries of a chain are sibling-linked, and the last one has
      no sibling. */
  lemma {:induction false} ChainLinks(a: Arena, o: Option<nat>)
    requires Valid(a) && InRange(a, o)
    ensures var c := Chain(a, o);
      && (forall j :: 0 <= j < |c| - 1 ==> a[c[j]].sibling == Some(c[j + 1]))
      && (c != [] ==> a[c[|c| - 1]].sibling.None?)
    decreases if o.Some? then |a| - o.value else 0
  {
    if o.Some? {
      var s := o.value;
      assert LinksOk(a, s);
      ChainLinks(a, a[s].sibling);
      var c := Chain(a, o);
      var rest := Chain(a, a[s].sibling);
      assert c == [s] + rest;
      forall j | 0 <= j < |c| - 1
        ensures a[c[j]].sibling == Some(c[j + 1])
      {
        if j > 0 {
          assert c[j] == rest[j - 1] && c[j + 1] == rest[j];
        }
      }
    }
  }

  /** A chain only reads the sibling links of its own fibers. */
  lemma {:induction false} ChainFrame(a: Arena, b: Arena, o: Option<nat>)
    requires Valid(a) && Valid(b) && SameShape(a, b) && InRange(a, o)
    ensures Chain(b, o) == Chain(a, o)
    decreases if o.Some? then |a| - o.value else 0
  {
    if o.Some? {
      assert LinksOk(a, o.value);
      ChainFrame(a, b, a[o.value].sibling);
    }
  }
}
