# A tiny virtual-DOM reconciler, modelled in Dafny

The program is a minimal virtual-DOM engine in one JavaScript file, `app.js`.
`h` builds virtual nodes. `renderNode` turns a virtual node into a fresh
concrete tree. `diff` reconciles an existing concrete node with a virtual node,
in place and by position. The base class `Component` holds `props`, `state` and
`base`, and its `setState` re-diffs `base`. `render` is the entry point for the
first mount.

## How the model is built

- `vnode.dfy` (module `VNodes`) holds the virtual nodes.
  - A virtual node is either a bare string (`Text`) or the record `{type, props, children}` (`Node`).
  - Its `type` is a string tag or a component constructor (`Ctor(kind)`).
  - `H` is `h`.
  - Every component kind's `render(props, state)` is one function value of type `Renderer`.
  - `WellRanked(render)` says that a component of kind `k` renders only components of smaller kinds. This is what makes `renderNode` terminate.
- `dom.dfy` (module `Dom`) holds the concrete tree, reduced to what the engine uses.
  - The engine needs text and element nodes, attributes, ordered child lists and append.
  - Nodes live in the arena of a `Document` object, and a node's identity is its index there.
  - The arena invariant `Ordered` says that every child has a larger id than its parent. Concrete trees are therefore acyclic.
  - `TreeAt` reads the subtree under a node out as a value.
- `reconcile.dfy` (module `Reconcile`) restates `renderNode` (`Rendered`), `diff` (`Diffed`) and the first mount (`Mounted`) as functions on the arena.
  - `Diffed` returns `None` in the cases where the code throws or leaves an inconsistent tree.
  - `Expected` is an independent reference: the tree that a rendering of a virtual node should have.
- `properties.dfy` (module `Properties`) proves what the code promises about these functions.
  - `Reach` (in `Dom`) is the set of ids reachable from a node. The frame lemmas use it to state that `diff` changes only the subtree it is given.
- `engine.dfy` (module `Engine`) holds the imperative code.
  - `RenderNode` has the attribute loop and the child loop.
  - `Diff` and `DiffChildNodes` carry the `forEach`.
  - It also holds the `Component` class with `SetState`, plus `RenderComponent` and `Render`.
  - Each method's postcondition says that the document ends up exactly as the matching function of `Reconcile` computes.

The component test in `diff` (app.js:10-15) looks at `node.nodeName`, but `h`
never sets that field (app.js:100) and strings do not have it. So the branch
never runs. A component virtual node that reaches `diff` goes down the element
path of app.js:17-22, and the model does the same. `RediffOfComponentFails`
shows one consequence. Re-diffing the rendering of a component node against
that same node fails whenever the component renders an element that has
children.

`diff`'s failure cases are the cases where `Diffed` is `None`, and `Diff` and
`SetState` require that they do not happen:
- there are fewer virtual children than concrete children, including none at all against some (`node.children[i]` or `node.children[-1]` is `undefined`);
- there are two or more virtual children more than concrete children (the code appends one node and then diffs children against the wrong virtual nodes);
- `setState` is called on a component that has no `base` (`parent` is `undefined` at app.js:27).

## Model

| member | source | states |
|---|---|---|
| `VNodes.H` | app.js:99-101 | the node has the given type and props, and its children are the rest arguments in order |
| `Dom.Document.CreateTextNode` | app.js:40 | adds one fresh text node holding the string, with no attributes and no children; nothing else changes |
| `Dom.Document.CreateElement` | app.js:44 | adds one fresh element with the tag and no attributes or children; nothing else changes |
| `Dom.Document.SetAttribute` | app.js:48 | only the named attribute of that one node changes |
| `Dom.Document.AppendChild` | app.js:19 | the child id is added at the end of the parent's child list; every other node and field is unchanged |
| `Dom.Document.SetNodeValue` | app.js:6 | only that node's text value changes |
| `Reconcile.Rendered` | app.js:35-60 | rendering adds only fresh nodes, leaves every existing node untouched, keeps the arena acyclic, and the root is the first node created |
| `Reconcile.AppendedAll` | app.js:58 | appending the rendered children touches only the parent and fresh nodes; the parent keeps its kind, text and attributes, and its child list grows by exactly one entry per virtual child, after the old ones |
| `Reconcile.Diffed` | app.js:1-22 | diff keeps every existing node's tag and attributes, and only extends child lists, always with fresh nodes. A string sets exactly `dom.nodeValue` and changes nothing else. Equal child counts leave `dom` itself unchanged. One extra virtual child appends exactly one fresh node. Any other difference in child count is the failing case. Nodes outside `dom`'s subtree are covered by `DiffedFrame` |
| `Reconcile.DiffedAll` | app.js:22 | diffing the children position by position keeps tags and attributes, extends child lists only with fresh nodes, and leaves every node before the children untouched. Nodes that no child reaches are covered by `DiffedAllFrame` |
| `Reconcile.Mounted` | app.js:23-27 | the parent gains exactly one child, the first fresh id, and every other existing node is unchanged |
| `Properties.RenderedTree` | app.js:40-58 | the rendered subtree is exactly the expected tree. A string gives a text node with that string. A tag gives an element with that tag and every prop as an attribute. A component gives its rendered output, with the virtual children appended after the output's own children, in order |
| `Properties.AppendedAllTree` | app.js:58 | after the child loop, the parent's old subtrees are unchanged and the expected trees of the virtual children follow them, in order |
| `Properties.RenderAppendOne` | app.js:19 | `appendChild(renderNode(v))` gives the parent one more child, whose subtree is the expected tree of `v`; the subtrees of the parent's old children are unchanged |
| `Properties.DiffOfDepictedIsNoop` | app.js:5-22 | diffing a component-free tree against the virtual node it depicts changes nothing |
| `Properties.DiffAllOfDepictedIsNoop` | app.js:22 | diffing children that each depict their virtual child changes nothing |
| `Properties.RenderThenDiffIsNoop` | app.js:17-22 | rendering a component-free virtual node and then diffing the result against the same node leaves the rendered tree as it was |
| `Properties.DiffAppendsOne` | app.js:17-22 | one more virtual child than concrete children, with the earlier ones depicted: diff appends exactly the rendering of the last virtual child, keeps every earlier child, and the subtree then depicts all virtual children |
| `Properties.DiffAppendedChildDepictsLast` | app.js:17-22 | one more virtual child than concrete children, whatever the earlier children are: a successful diff gives `dom` exactly one more child, the first fresh node. If the last virtual child holds no component, that new child depicts it: it is `renderNode` of the last virtual child, and re-diffing it leaves it unchanged |
| `Properties.DiffedFrame` | app.js:1-22 | diff works in place: every existing node that `dom` does not reach is left exactly as it was |
| `Properties.DiffedAllFrame` | app.js:22 | the positional child diff leaves every existing node that no child reaches exactly as it was |
| `Properties.DiffedAllSnoc` | app.js:22 | the children are diffed in order: diffing `cs + [c]` is diffing `cs` and then `c` in the resulting arena |
| `Properties.MountedTree` | app.js:23-27 | on the first mount the parent gains one child, whose subtree is exactly the expected tree of the virtual node, after its old children |
| `Properties.DiffWithoutGrowthOnlyRetexts` | app.js:3-22 | a diff that creates no node changes only text values, and only inside `dom`'s subtree; every node keeps its kind, attributes and child list |
| `Properties.DiffAllWithoutGrowthOnlyRetexts` | app.js:22 | a positional diff of the children that creates no node changes only text values |
| `Properties.PositionalNotByContent` | app.js:22 | `<li>x</li><li>y</li>` diffed against `<li>y</li><li>x</li>` keeps both items in place and swaps their texts |
| `Properties.RediffOfComponentFails` | app.js:10-19 | the component branch never fires, so re-diffing a component's rendering against its own virtual node fails when the component renders an element with children |
| `Engine.Component.constructor` | app.js:80-85 | a new instance has the given props, an empty state and no `base` |
| `Engine.Component.SetState` | app.js:89-92 | state becomes exactly the argument (no merge); `base` keeps the same node; the document becomes the diff of `base` against `render(props, newState)` |
| `Engine.RenderComponent` | app.js:68-74 | re-diffs `base` against the component's current rendering and keeps `base` as the same node |
| `Engine.Instantiate` | app.js:53-55 | a fresh instance with the given props and empty state renders its output, and its `base` is exactly the root that results |
| `Engine.RenderNode` | app.js:35-60 | the document becomes exactly `Rendered` of the old document, and the method returns the new root |
| `Engine.Diff` | app.js:1-33 | with `dom` present the document becomes `Diffed`; without it the document becomes `Mounted` into `parent`; the result is always the `dom` argument |
| `Engine.DiffChildNodes` | app.js:22 | the loop over the live child list diffs every child at its own index against the virtual child there; the child list is not changed while the loop runs |
| `Engine.Render` | app.js:146-148 | the entry point is exactly the mount without an existing node |

## Left out

- `getRandItem` (app.js:103-105) is left out: it uses `Math.random` and floating-point rounding.
- The demo components `App` and `Fruit` (app.js:107-143) are left out. Their DOM lookups and event listeners are host I/O, and `addFruit` calls an undefined function.
- The bootstrap at app.js:150-151 is left out: a global `document.getElementById` lookup and the first call.
- `diff`'s component branch (app.js:10-15) has no member of its own. It cannot run for `h`-built nodes, and component nodes take the element path, as explained above.
- `Engine.Instantiate`: an instance starts from the base constructor's empty state. A subclass constructor that sets its own initial state (as `Fruit` does at app.js:124-126) is not modelled.
- Browser DOM rules are not modelled:
  - any node may hold children (the browser rejects appending to a text node);
  - a `nodeValue` write also takes effect on an element (the browser ignores it);
  - attribute values and props are strings, and a `null` props object is the empty map.
- The order in which `for..in` visits props is not modelled. `RenderNode` sets attributes in an arbitrary order, which gives the same attribute map.
- When `diff` fails, the model does not say what the code did before it threw, for example the append that happens before the `TypeError`. Those inputs are excluded by precondition.
- `WellRanked` excludes every component that can render a component of its own kind or a higher kind, directly or through other components. This also excludes components that would terminate, such as a tree view that renders its own kind with shrinking props and stops with a bare string. The model does not cover them.
- Component instances that `renderNode` creates for nested components are dropped after rendering, as in the code. Only their effect on the document is modelled.
