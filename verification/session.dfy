/**
 * The module-level state of src/react-dom/render/render.ts (`nextUnitWork`,
 * `fiberRoot`, `currentRoot` and `deletion`) as one immutable record, with
 * the fiber arena, the host nodes `createDom` has made, and the host
 * operations the commit phase has issued. `render` is a transition on it.
 */
module Session {
  import opened Util
  import opened Elements
  import opened Fibers
  import opened Dom

  /** A host call issued by the commit phase. `AppendChild(p, None)` is
      `appendChild(null)`; `UpdateNode(n, None, next)` is `updateDom` with an
      undefined `prevProps`. */
  datatype HostOp =
    | AppendChild(parent: nat, child: Option<nat>)
    | RemoveChild(parent: nat, removed: nat)
    | UpdateNode(node: nat, prev: Option<Props>, next: Props)

  datatype State = State(
    fibers: Arena,
    nodes: seq<HostNode>,
    nextUnitWork: Option<nat>,
    fiberRoot: Option<nat>,
    currentRoot: Option<nat>,
    deletion: seq<nat>,
    log: seq<HostOp>)

  /** Every fiber reference of the state names a fiber, and every `dom` names
      a host node. */
  predicate Inv(s: State)
  {
    && Valid(s.fibers)
    && InRange(s.fibers, s.nextUnitWork)
    && InRange(s.fibers, s.fiberRoot)
    && InRange(s.fibers, s.currentRoot)
    && (forall i :: 0 <= i < |s.deletion| ==> s.deletion[i] < |s.fibers|)
    && (forall i :: 0 <= i < |s.fibers| ==> (s.fibers[i].dom.Some? ==> s.fibers[i].dom.value < |s.nodes|))
  }

  /** The state when the module loads: no fibers, no pending work, an empty
      `deletion` list, and the host nodes the page already holds. */
  function Initial(page: seq<HostNode>): (s: State)
    ensures Inv(s) && s.fiberRoot.None? && s.nextUnitWork.None? && s.currentRoot.None?
    ensures s.fibers == [] && s.deletion == [] && s.log == [] && s.nodes == page
  {
    State([], page, None, None, None, [], [])
  }

  /** The element the root fiber stands for: `{type: "", props: {children: [element]}}`. */
  function RootElement(element: Element): Element
  {
    Element("", Props(map[], [element]))
  }

  /** `render(element, dom)`: a fresh root fiber on the container, whose
      alternate is the committed root, becomes both `fiberRoot` and the next
      unit of work. `deletion` is left as it is. */
  function Render(s: State, element: Element, container: nat): (t: State)
    requires Inv(s) && container < |s.nodes|
    ensures Inv(t)
    ensures |t.fibers| == |s.fibers| + 1 && t.fibers[..|s.fibers|] == s.fibers
    ensures var r := |s.fibers|;
      && t.fiberRoot == Some(r) && t.nextUnitWork == Some(r)
      && ElemOf(t.fibers[r]) == RootElement(element)
      && t.fibers[r].dom == Some(container)
      && t.fibers[r].alternate == s.currentRoot
      && t.fibers[r].parent.None? && t.fibers[r].child.None? && t.fibers[r].sibling.None?
    ensures t.currentRoot == s.currentRoot && t.deletion == s.deletion
    ensures t.nodes == s.nodes && t.log == s.log
  {
    var root := Fiber("", Some(container), RootElement(element).props, None, None, None, s.currentRoot, NoEffect);
    var a := s.fibers + [root];
    assert LinksOk(a, |s.fibers|);
    assert forall i :: 0 <= i < |s.fibers| ==> LinksOk(s.fibers, i) && a[i] == s.fibers[i];
    s.(fibers := a, nextUnitWork := Some(|s.fibers|), fiberRoot := Some(|s.fibers|))
  }
}
