/** `renderNode` and `diff` of app.js as functions on the node arena: the
    reference definitions the methods of module Engine are proved against. */
module Reconcile {
  import opened Options
  import opened VNodes
  import opened Dom

  /** `renderNode(v)` (app.js:35-60): the arena with the fresh subtree added,
      and the id of its root.  Nothing already in the arena changes, and the
      root is the first node created. */
  function Rendered(render: Renderer, nodes: seq<DomNode>, v: VNode): (r: (seq<DomNode>, NodeId))
    requires WellRanked(render) && Ordered(nodes)
    ensures Ordered(r.0) && |r.0| > |nodes| && r.0[..|nodes|] == nodes
    ensures r.1 == |nodes|
    decreases Rank(v), Size(v)
  {
    match v
    case Text(s) => (nodes + [TextNode(s)], |nodes|)
    case Node(Tag(t), props, kids) =>
      (AppendedAll(render, nodes + [ElementNode(t).(attrs := props)], |nodes|, kids), |nodes|)
    case Node(Ctor(k), props, kids) =>
      // a fresh instance starts with `state = {}`; its rendering becomes `base`
      var (n1, el) := Rendered(render, nodes, render(k, props, map[]));
      (AppendedAll(render, n1, el, kids), el)
  }

  /** `children.forEach(child => parent.appendChild(renderNode(child)))`
      (app.js:58): only `parent` and the fresh nodes are touched. */
  function AppendedAll(render: Renderer, nodes: seq<DomNode>, parent: NodeId, kids: seq<VNode>): (r: seq<DomNode>)
    requires WellRanked(render) && Ordered(nodes) && parent < |nodes|
    ensures Ordered(r) && |r| >= |nodes|
    ensures forall j :: 0 <= j < |nodes| && j != parent ==> r[j] == nodes[j]
    ensures r[parent] == nodes[parent].(childNodes := r[parent].childNodes)
    ensures |r[parent].childNodes| == |nodes[parent].childNodes| + |kids|
    ensures r[parent].childNodes[..|nodes[parent].childNodes|] == nodes[parent].childNodes
    decreases RankAll(kids), SizeAll(kids)
  {
    if kids == [] then nodes
    else
      var (n1, c) := Rendered(render, nodes, kids[0]);
      AppendedAll(render, Appended(n1, parent, c), parent, kids[1..])
  }

  /** The tree a rendering of `v` is meant to have: a text node, an element
      carrying the tag and every prop as an attribute, or the rendering of a
      component's output; then the renderings of `children`, in order. */
  function Expected(render: Renderer, v: VNode): Tree
    requires WellRanked(render)
    decreases Rank(v), Size(v)
  {
    match v
    case Text(s) => Tree(TextKind, s, map[], [])
    case Node(Tag(t), props, kids) => Tree(ElementKind(t), "", props, ExpectedAll(render, kids))
    case Node(Ctor(k), props, kids) =>
      var t := Expected(render, render(k, props, map[]));
      t.(children := t.children + ExpectedAll(render, kids))
  }

  function ExpectedAll(render: Renderer, vs: seq<VNode>): (ts: seq<Tree>)
    requires WellRanked(render)
    ensures |ts| == |vs|
    decreases RankAll(vs), SizeAll(vs)
  {
    seq(|vs|, i requires 0 <= i < |vs| => Expected(render, vs[i]))
  }

  /** `diff(dom, v)` with `dom` present (app.js:3-22): the new arena, or None
      where the code throws (fewer virtual children than concrete ones:
      `node.children[i]` is undefined) or leaves an inconsistent tree (more
      than one extra virtual child).  The component test on `node.nodeName`
      (app.js:10) never fires for `h`-built nodes, which have no such field,
      so component nodes take the element path. */
  function Diffed(render: Renderer, nodes: seq<DomNode>, dom: NodeId, v: VNode): (r: Option<seq<DomNode>>)
    requires WellRanked(render) && Ordered(nodes) && dom < |nodes|
    ensures r.Some? ==> Ordered(r.value) && Grows(nodes, r.value)
    ensures r.Some? ==> forall j :: 0 <= j < dom ==> r.value[j] == nodes[j]
    ensures v.Text? ==> r.Some? && |r.value| == |nodes| && r.value[dom].nodeValue == v.s &&
                        r.value[dom].childNodes == nodes[dom].childNodes &&
                        forall j :: 0 <= j < |nodes| && j != dom ==> r.value[j] == nodes[j]
    ensures v.Node? ==>
      (|v.children| != |nodes[dom].childNodes| && |v.children| != |nodes[dom].childNodes| + 1 ==> r.None?)
    ensures v.Node? && r.Some? ==>
      (|v.children| == |nodes[dom].childNodes| ==> r.value[dom] == nodes[dom])
    ensures v.Node? && r.Some? ==>
      (|v.children| == |nodes[dom].childNodes| + 1 ==> r.value[dom].childNodes == nodes[dom].childNodes + [|nodes|])
    decreases v
  {
    match v
    case Text(s) => Some(nodes[dom := nodes[dom].(nodeValue := s)])
    case Node(_, _, kids) =>
      var cs := nodes[dom].childNodes;
      if |kids| == |cs| then
        DiffedAll(render, nodes, cs, kids)
      else if |kids| == |cs| + 1 then
        var (n1, c) := Rendered(render, nodes, kids[|kids| - 1]);
        DiffedAll(render, Appended(n1, dom, c), cs + [c], kids)
      else
        None
  }

  /** `dom.childNodes.forEach((child, i) => diff(child, node.children[i]))`
      (app.js:22): positional, threading the arena from child to child. */
  function DiffedAll(render: Renderer, nodes: seq<DomNode>, cs: seq<NodeId>, kids: seq<VNode>): (r: Option<seq<DomNode>>)
    requires WellRanked(render) && Ordered(nodes) && |cs| == |kids|
    requires forall i :: 0 <= i < |cs| ==> cs[i] < |nodes|
    ensures r.Some? ==> Ordered(r.value) && Grows(nodes, r.value)
    ensures r.Some? ==> forall j :: 0 <= j < |nodes| && (forall i :: 0 <= i < |cs| ==> j < cs[i]) ==>
                          r.value[j] == nodes[j]
    decreases kids
  {
    if cs == [] then Some(nodes)
    else
      match Diffed(render, nodes, cs[0], kids[0])
      case None => None
      case Some(n1) => DiffedAll(render, n1, cs[1..], kids[1..])
  }

  /** `diff(undefined, v, parent)` (app.js:23-27): render `v` and append it
      to `parent`. */
  function Mounted(render: Renderer, nodes: seq<DomNode>, v: VNode, parent: NodeId): (r: seq<DomNode>)
    requires WellRanked(render) && Ordered(nodes) && parent < |nodes|
    ensures Ordered(r) && |r| > |nodes|
    ensures r[parent] == nodes[parent].(childNodes := nodes[parent].childNodes + [|nodes|])
    ensures forall j :: 0 <= j < |nodes| && j != parent ==> r[j] == nodes[j]
  {
    var (n1, c) := Rendered(render, nodes, v);
    Appended(n1, parent, c)
  }
}
