# A Dafny model of my-react's render core

my-react is a small React clone. `createElement` builds an immutable element
tree. `render` starts a render phase. Each unit of work runs in an idle
callback: it gives one fiber a host node and reconciles that fiber's children
against the previous tree. A commit phase then issues host calls for the whole
tree at once.

This project models that core:
- the element constructors of `src/react/createElement/createElement.ts`;
- the renderer of `src/react-dom/render/render.ts`;
- properties of both, proved.

Everything is stated on immutable values:
- **Elements**: `Element` and `Props`. The reserved `children` entry is held
  apart from the other props. Values carry `!==` semantics: scalars compare
  by value, and `Ref(id)` stands for a function or object identity.
- **Fibers**: fibers live in an arena `seq<Fiber>`. The `parent`, `child`,
  `sibling` and `alternate` links are indices into it. `Valid` says the links
  point the way the render phase creates them: parents and alternates come
  earlier, children and later siblings come later.
- **State**: the module-level variables `nextUnitWork`, `fiberRoot`,
  `currentRoot` and `deletion` form one `Session.State` record. The record
  also holds the arena, the host nodes `createDom` made, and a log of the host
  calls (`appendChild`, `removeChild`, `updateDom`) the commit phase made.
- **Reconciliation**: `reconcileChildren` is modelled twice, and the two are
  proved equal (`Reconciler.ReconcileMeetsSpec`).
  - As written: the source's loop, one iteration at a time (`Iter`, `Run`,
    and the method `ReconcileChildren`).
  - Declaratively: position by position (`Reconciled`).
- **Scheduling**: `workLoop`'s deadline becomes a budget, a count of units
  per idle callback. The chain of idle callbacks becomes a sequence of budgets
  (`Scheduler.Drive`). The generic module `Iteration` holds the facts about
  repeating a step, which the scheduler proofs are built on.
- **Traversal**: module `Traversal` proves that the render phase is a
  pre-order walk of the element tree. It also proves that slicing the walk
  into callbacks does not change what is committed.
- **Quirks**: the source's quirks are modelled as written and stated as
  lemmas. These are:
  - the unconditional `appendChild` of line 77;
  - sibling-before-child recursion in `commitWork`;
  - the `on`-prefix asymmetry of event names;
  - a `deletion` list that is never cleared;
  - an UPDATE of a text node with a new string, and a handler turned into
    `false`, both of which throw in `updateDom` and leave the root
    unpublished.

## Model

| member | source | states |
|---|---|---|
| Elements.CreateElement | src/react/createElement/createElement.ts:31-41 | The element has the given type and one child per rest argument. Every `config` key except `children` is a prop with the same value, and there are no other props. A `null` config contributes nothing, and the mapped children override any `config.children`. |
| Elements.CreateElementChildren | src/react/createElement/createElement.ts:36-38 | The i-th child is the i-th rest argument, in place. An object child is the identical value. A string child becomes a `TEXT_ELEMENT` with empty children, whose `nodeValue` reads back as that string. |
| Elements.TextElementIsLeaf | src/react/createElement/createElement.ts:18-27 | A text element is a leaf of the element tree (its pre-order is itself alone) and carries its string. |
| Dom.CreateDom | src/react-dom/render/render.ts:215-230 | The result is a text node exactly when the type is `TEXT_ELEMENT`, and otherwise an element of the fiber's type. It gets exactly the props other than `children`, with their values. It starts with no attributes and no listeners. |
| Dom.CreateDomText | src/react-dom/render/render.ts:215-227 | The node made for `textElement(s)` is a text node whose only field is `nodeValue = s`. |
| Dom.ChildrenNeverPatched | src/react-dom/render/render.ts:106-145 | No pass of `updateDom` touches `children`. It is never removed or set as an attribute, and never subscribed as an event. |
| Dom.UpdateDomSame | src/react-dom/render/render.ts:108-145 | Diffing props against themselves gives an empty patch in all four passes. |
| Dom.UpdateDomConverges | src/react-dom/render/render.ts:113-145 | Take a property key, and a node whose attribute reads as in the previous props. The patch throws exactly when an event key adds or removes a boolean, number or string handler, or the node is a text node and some property key changes or is dropped. Otherwise, after the patch the attribute reads as in the next props. Removal, setting and leaving alone are all covered. |
| Dom.UpdateDomThrows | src/react-dom/render/render.ts:113-145 | `addEventListener` and `removeEventListener` reject a boolean, number or string handler, and a text node has no `removeAttribute` or `setAttribute`. So the patch throws exactly when an event key adds or removes such a handler, or the node is a text node whose props change a property key or drop one. |
| Dom.ListenersRejected | src/react-dom/render/render.ts:113-129 | A listener call of the patch throws exactly when some event key removes a dropped handler, or adds a new one, that is a boolean, number or string. |
| Dom.DisabledHandlerThrows | src/react-dom/render/render.ts:123-129 | `{onClick: handler}` to `{onClick: false}`, as `enabled && handler` gives, throws in the add pass on any node. |
| Dom.TextUpdateThrows | src/react-dom/render/render.ts:140-145 | Take the node `createDom` made for `textElement(s1)`. Diffing to `textElement(s2)` throws exactly when `s1 != s2`, because `setAttribute("nodeValue", s2)` is called on a text node. |
| Dom.EventNameAsymmetry | src/react-dom/render/render.ts:118-127 | For every `on…` key, the name the removal pass unsubscribes differs from the name the add pass subscribed. |
| Dom.ListenersAccumulate | src/react-dom/render/render.ts:113-129 | Listeners only accumulate across the two listener passes, which run even on a node where an attribute pass then throws. Every callback subscribed for the previous props is still subscribed after the patch, including handlers that were replaced or whose key is gone. Every callback of the next props is subscribed too, and when the patch returns, the node's listeners include both. A `null` or `undefined` handler subscribes nothing. |
| Dom.UpdateDomExample | src/react-dom/render/render.ts:112-146 | `{x:1, y:2}` to `{x:1, z:3}` removes attribute `y`, sets `z` to 3, and does nothing else. |
| Session.Initial | src/react-dom/render/render.ts:20-23 | The state at load has no pending work, no root under construction and no committed root. `deletion` is empty, there are no fibers and no host calls yet, and the nodes are the page's own. |
| Session.Render | src/react-dom/render/render.ts:24-38 | `render` appends one root fiber and leaves the rest of the arena alone. The root is both `fiberRoot` and `nextUnitWork`. It stands for `{type: "", props: {children: [element]}}` and sits on the container node. Its alternate is `currentRoot`, and it has no links. `deletion`, `currentRoot`, the nodes and the log are unchanged. |
| Reconciler.ReconcileMeetsSpec | src/react-dom/render/render.ts:150-213 | The loop of `reconcileChildren` computes the declarative result, position by position. |
| Reconciler.ReconcileChildren | src/react-dom/render/render.ts:150-213 | The loop written as a method returns the reconciled arena and deletion list. It runs exactly `max(old chain length, elements.length)` iterations. |
| Reconciler.LoopIterations | src/react-dom/render/render.ts:159-162 | The loop condition (an old fiber is left, or an element is) holds exactly while fewer than `max(old chain length, elements.length)` iterations have run. |
| Reconciler.ReconcileShape | src/react-dom/render/render.ts:159-211 | The arena stays well linked, and exactly `elements.length` fibers are appended. The j-th new fiber stands for `elements[j]`, hangs under the fiber, has no child, and links to the (j+1)-th. Old fibers keep type, props, links, node and alternate. Only the reconciled fiber's `child` changes: it becomes the first new fiber, or null when elements are empty and an old chain exists. `deletion` is only appended to, and only with old fibers. |
| Reconciler.ReconcileEffect | src/react-dom/render/render.ts:164-192 | Position j is UPDATE exactly when the old chain has a j-th fiber of the same type. An UPDATE reuses that fiber's node and points `alternate` at it. Anything else is a PLACEMENT with no node and no alternate. Either way the new fiber carries the element's type and props and hangs under the fiber. |
| Reconciler.ReconcileDeletions | src/react-dom/render/render.ts:194-197 | The appended deletions are exactly the old chain fibers whose position has no same-type element, in chain order. Each is retagged DELETION, and no other old fiber changes except the reconciled fiber's `child`. |
| Reconciler.ReconcileCountsOld | src/react-dom/render/render.ts:159-211 | Every old chain fiber is reused by exactly one UPDATE or deleted: #UPDATE + #deleted = old chain length. |
| Reconciler.ReconcileCountsNew | src/react-dom/render/render.ts:159-211 | Every element gives exactly one new fiber, an UPDATE or a PLACEMENT: #UPDATE + #PLACEMENT = `elements.length`. |
| Reconciler.ReconcileFirstRender | src/react-dom/render/render.ts:154-200 | With no alternate, every new fiber is a PLACEMENT and nothing is deleted. Every other existing fiber is unchanged, and the reconciled fiber only gains its `child`. |
| Reconciler.ShrinkExample | src/react-dom/render/render.ts:159-211 | Three old children and one element of the first child's type give one UPDATE of the first child. The other two are deleted, in order, and retagged. |
| Reconciler.GrowExample | src/react-dom/render/render.ts:159-211 | One old child and three elements, the first of its type, give an UPDATE and two PLACEMENTs. They are linked in order, and nothing is deleted. |
| Reconciler.ReplaceExample | src/react-dom/render/render.ts:164-197 | A single child whose type changes is deleted. The new fiber is a PLACEMENT with no node and no alternate. |
| Scheduler.ClimbLater | src/react-dom/render/render.ts:96-103 | The climb returns the sibling of the nearest self-or-ancestor that has one: the first fiber of `Later`. It returns null exactly when nothing follows. |
| Scheduler.EnsureDom | src/react-dom/render/render.ts:85-87 | A fiber with a node keeps the state as it is. A fiber without one gets a fresh node from `createDom(type, props)`, and nothing else changes. |
| Scheduler.PerformUnitOfWorkSpec | src/react-dom/render/render.ts:83-104 | A unit gives the fiber a node only if it had none, and reconciles the fiber's children against its own props. It returns the first new child when there are elements, else the climb. Roots, `currentRoot` and the log are untouched. |
| Scheduler.UnitsAdd | src/react-dom/render/render.ts:42-45 | Running m units and then n units is running m + n units: the loop can be cut at any unit boundary. |
| Scheduler.UnitsFrame | src/react-dom/render/render.ts:83-104 | The render phase never changes `fiberRoot`, `currentRoot` or the host log, and never drops a fiber. It only appends to `deletion`. |
| Scheduler.WorkLoopCommits | src/react-dom/render/render.ts:40-52 | A slice commits exactly when its units leave no work and a root is pending, and then it commits the state those units reached. Otherwise it requests another callback with that state. |
| Scheduler.RunWorkLoop | src/react-dom/render/render.ts:40-52 | The loop and commit check as written, with the deadline's answers given in order, compute the slice whose budget ends at the first answer that says to yield: the loop runs one unit, then asks. |
| Scheduler.RunUnits | src/react-dom/render/render.ts:42-45 | The `while (nextUnitWork && !shouldYield)` loop runs exactly the units of that budget, or fewer when the work runs out, and keeps the state invariant. |
| Iteration.Budget | src/react-dom/render/render.ts:42-45 | The number of units a callback runs under given deadline answers: every answer before the last unit says to continue, and the answer after it says to yield. |
| Scheduler.IdleLoopSpins | src/react-dom/render/render.ts:46-51 | With no work and no root, a slice changes nothing and requests another callback, forever. |
| Committer.CommitWorkIsWalk | src/react-dom/render/render.ts:63-81 | `commitWork` makes exactly the per-fiber calls of the fibers it visits, in visiting order. |
| Committer.WalkOrder | src/react-dom/render/render.ts:79-80 | Because the sibling is recursed into before the child, a whole sibling run is committed before any of its children. The children's subtrees follow in reverse sibling order. |
| Committer.CommitRootEffect | src/react-dom/render/render.ts:54-61 | If the root and its child exist, the calls for `deletion` are made first, then those for the root's child subtree, in order. They stop at the first call that throws. The root becomes `currentRoot` and `fiberRoot` becomes null exactly when no call throws. After a throw, both keep their values, and the log ends with the throwing call. `deletion`, the fibers and the nodes are kept. Otherwise nothing changes. |
| Committer.FirstRaise | src/react-dom/render/render.ts:54-81 | The position of the first call that throws. Every call before it returns, and there is none exactly when no call throws. |
| Committer.DeletionsReplayed | src/react-dom/render/render.ts:54-77 | At each later commit, every fiber ever deleted that has a node under a parent node is removed and at once appended back. When no call of the commit throws, both calls are in the log. |
| Committer.DeletionReappends | src/react-dom/render/render.ts:67-77 | A DELETION fiber under a parent node gives `removeChild` and then `appendChild` of the same node. |
| Committer.PlacementAppendsTwice | src/react-dom/render/render.ts:67-77 | A PLACEMENT fiber under a parent node is appended twice. |
| Committer.UpdateReappends | src/react-dom/render/render.ts:67-77 | An UPDATE fiber diffs its alternate's props against its own, then is appended again when its parent has a node. The diff throws exactly when an event key adds or removes a boolean, number or string handler, or the fiber's node is a text node and a property changes. The commit then stops before line 77. |
| Committer.NoParentNodeNoTreeOps | src/react-dom/render/render.ts:67-77 | Only the immediate parent's node is a target. A fiber whose parent has no node issues no append or remove, whatever its ancestors hold. |
| Traversal.StepAdvances | src/react-dom/render/render.ts:83-104 | From a ready state, one unit works on a fiber not seen before. It visits the first element still ahead, and leaves exactly the rest ahead. |
| Traversal.Drain | src/react-dom/render/render.ts:40-52 | From a ready state, exactly as many units run as there are elements ahead. They visit those elements in order, on distinct fibers outside those already seen. |
| Traversal.RenderReady | src/react-dom/render/render.ts:24-38 | After `render`, the root is the only work ahead, and the elements ahead are the root element's tree in pre-order. |
| Traversal.RenderWalksPreOrder | src/react-dom/render/render.ts:40-104 | After `render`, the k-th unit works on a fiber standing for the k-th element of the tree in pre-order. No fiber is worked on twice, and `nextUnitWork` becomes null exactly after the last element. |
| Traversal.RenderResumable | src/react-dom/render/render.ts:37-52 | However the deadlines cut the render phase into idle callbacks, the chain commits exactly once the callbacks allow all units. It commits the state an uninterrupted run reaches. Until then, the state is where the allowed units leave it. |
| Traversal.RenderCommits | src/react-dom/render/render.ts:24-61 | After `render`, the finished render phase passes `commitRoot`'s guard: the root has gained its child. Once the callbacks allow every unit, the new root is published and `fiberRoot` cleared, exactly when no call of the commit throws. |
| Traversal.DriveKeepsDeletion | src/react-dom/render/render.ts:54-61 | Whatever the slices and commits, the `deletion` list afterwards starts with the list before: it is never cleared. |

## Quirks kept as written

- **`deletion` is never reset.** `commitRoot` (render.ts:54-61) runs
  `deletion.forEach(commitWork)` and never empties the list, so every commit
  replays every deletion ever made (`Committer.DeletionsReplayed`,
  `Traversal.DriveKeepsDeletion`).
- **The root fiber has a host node.** `render` gives the root the container
  as its `dom` (render.ts:26), so the root's children are attached to it
  (`Session.Render`).
- **The host parent is the immediate parent.** `commitWork` takes
  `fiber.parent?.dom` (render.ts:67) and does not look further up
  (`Committer.NoParentNodeNoTreeOps`).
- **The commit order is not pre-order.** `commitWork` recurses into the
  sibling (line 79) before the child (line 80) (`Committer.WalkOrder`).
- **Every fiber is appended at commit.** Line 77 appends the fiber's node
  whatever its effect tag. A PLACEMENT fiber is appended twice, and a DELETION
  fiber is appended back after its removal (`Committer.PlacementAppendsTwice`,
  `Committer.UpdateReappends`, `Committer.DeletionReappends`).
- **A changed text throws.** For an UPDATE of a `TEXT_ELEMENT` with a new
  string, `updateDom` calls `setAttribute` on a text node (render.ts:144),
  which has no such method. The TypeError leaves `commitRoot` before lines
  58-59: the calls already made stay made, and the root is not published
  (`Dom.TextUpdateThrows`, `Committer.CommitRootEffect`,
  `Traversal.RenderCommits`). The exception also ends the callback chain,
  just as the `return` at line 49 does.
- **A boolean, number or string handler throws.** `addEventListener` and
  `removeEventListener` reject such a listener, while `null`, `undefined`
  and objects are accepted. So
  `{onClick: enabled && handler}` turning `false` throws in the add pass
  (render.ts:123-129), with the same effect on the commit
  (`Dom.DisabledHandlerThrows`, `Committer.UpdateReappends`).
- **`createDom` copies props as fields.** Every prop except `children` is
  assigned as a JavaScript property of the new node (render.ts:223-227),
  events included (`Dom.CreateDom`).
- **The commit does not touch `nextUnitWork`.** `commitRoot` leaves it alone.
  It is already null when `workLoop` commits (`Committer.CommitRootEffect`).
- **An empty element list does not always clear `fiber.child`.** The loop of
  `reconcileChildren` only runs while an old fiber or an element is left.
  With neither, `fiber.child` keeps its value (`Reconciler.ReconcileShape`).

## Left out

- `requestIdleCallback` and `deadline.timeRemaining()`: host timing with
  floating-point budgets. Each callback is a budget, a count of units after
  which the deadline says to yield. The first unit of a slice always runs,
  as in the source.
- The real DOM: nodes are records, and the commit phase records its host
  calls in a log instead of mutating the nodes. `Dom.Apply` gives the effect
  of an `updateDom` patch on one node, or `None` when it throws.
- Committer.Raises: the commit-phase exceptions modelled are a listener
  call with a boolean, number or string handler, `removeAttribute` or
  `setAttribute` on a text node, `updateDom` with an undefined `prevProps`
  (`Object.keys(undefined)`), and `appendChild(null)`. The DOM's tree-shape
  errors (`HierarchyRequestError`, `NotFoundError`) and invalid attribute
  names are not modelled, because the model keeps no tree of nodes.
- Dom.CreateDom: always returns a node. `document.createElement` with an
  invalid tag name (the empty string, say) throws `InvalidCharacterError`, and
  assigning a read-only property of a node (`tagName`, say) throws in strict
  mode. Neither is modelled.
- Traversal.RenderCommits: assumes every `createDom` of the render phase
  returns, as `Traversal.RenderResumable` does. A throwing `createDom` would
  end the callback chain in the render phase, with nothing committed.
- Dom.Subscribed: a `null` or `undefined` handler is not a subscription.
  `addEventListener` ignores it, so only `Ref` values are listeners.
- Dom.UpdateDom: the order inside each of the four passes is `Object.keys`
  order, which the model does not fix. Each pass is a set.
- Dom.ToLower: only ASCII letters are lowered. The full Unicode mapping of
  `toLowerCase` is not modelled.
- Dom.HasKey: `key in next` also sees inherited keys of the JavaScript
  prototype chain (`"constructor"`, `"toString"`). The model sees only own
  keys and `children`.
- Dom.ListenersAccumulate: requires `NamesApart(prev)`. No removal name of
  one event key may equal the add name of another. That only fails for keys
  such as `ononclick` next to `onclick`.
- Elements.Value: function and object identity is an abstract `Ref` id.
  Numbers are integers: floating point and `NaN !== NaN` are not modelled.
- Session.Render: a `render` call while a render phase is in flight simply
  overwrites `fiberRoot` and `nextUnitWork`, as in the source. The abandoned
  fibers stay in the arena, and properties across such calls are not stated.
- Garbage collection: fibers are never freed, and the arena only grows.
