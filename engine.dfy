/** The imperative engine of app.js: `renderNode`, `diff`, the `Component`
    base class with `setState`, `renderComponent` and the `render` entry
    point.  Each method is proved to change the document exactly as the
    matching reference function of module Reconcile says. */
module Engine {
  import opened Options
  import opened VNodes
  import opened Dom
  import opened Reconcile

  /** The base class every component extends (app.js:79-93).  `kind` is the
      concrete subclass; its `render(props, state)` is `render(kind, props, state)`. */
  class Component {
    const kind: Kind
    var props: Props
    var state: State
    var base: Option<NodeId>

    constructor (kind: Kind, props: Props)
      ensures this.kind == kind && this.props == props
      ensures state == map[] && base == None
    {
      this.kind := kind;
      this.props := props;
      state := map[];
      base := None;
    }

    /** `setState(state)`: the state is replaced by a copy of the argument
        (no merge with the old state), then the component re-diffs its
        `base` against its new rendering.  `diff` returns its `dom`
        argument, so `base` keeps the same node.  A component that was never
        mounted has no `base` and the call throws, hence the first requires. */
    method SetState(doc: Document, render: Renderer, s: State)
      requires WellRanked(render) && doc.Valid()
      requires base.Some? && base.value < |doc.nodes|
      requires Diffed(render, doc.nodes, base.value, render(kind, props, s)).Some?
      modifies this, doc
      ensures doc.Valid()
      ensures state == s && props == old(props) && base == old(base)
      ensures doc.nodes == Diffed(render, old(doc.nodes), base.value, render(kind, props, s)).value
    {
      state := s;
      var _ := RenderComponent(this, doc, render);
    }
  }

  /** `renderComponent(component)` (app.js:68-74): render from the current
      props and state and diff the result into `base`. */
  method RenderComponent(c: Component, doc: Document, render: Renderer) returns (r: Component)
    requires WellRanked(render) && doc.Valid()
    requires c.base.Some? && c.base.value < |doc.nodes|
    requires Diffed(render, doc.nodes, c.base.value, render(c.kind, c.props, c.state)).Some?
    modifies c, doc
    ensures r == c && doc.Valid()
    ensures c.base == old(c.base) && c.props == old(c.props) && c.state == old(c.state)
    ensures doc.nodes == Diffed(render, old(doc.nodes), c.base.value, render(c.kind, c.props, c.state)).value
  {
    var rendered := render(c.kind, c.props, c.state);
    c.base := Diff(doc, render, c.base, rendered, None);
    r := c;
  }

  /** `new type(props)` followed by rendering the instance's output and
      recording it as `base` (app.js:53-55). */
  method Instantiate(doc: Document, render: Renderer, kind: Kind, props: Props) returns (c: Component, el: NodeId)
    requires WellRanked(render) && doc.Valid()
    modifies doc
    ensures fresh(c) && c.kind == kind && c.props == props && c.state == map[]
    ensures c.base == Some(el)
    ensures doc.Valid() && (doc.nodes, el) == Rendered(render, old(doc.nodes), render(kind, props, map[]))
    decreases kind + 1, 0, 0
  {
    c := new Component(kind, props);
    el := RenderNode(doc, render, render(c.kind, c.props, c.state));
    c.base := Some(el);
  }

  /** `renderNode(node)` (app.js:35-60): creates a fresh subtree and returns
      its root. */
  method RenderNode(doc: Document, render: Renderer, v: VNode) returns (el: NodeId)
    requires WellRanked(render) && doc.Valid()
    modifies doc
    ensures doc.Valid() && (doc.nodes, el) == Rendered(render, old(doc.nodes), v)
    decreases Rank(v), Size(v), 1
  {
    match v
    case Text(s) =>
      el := doc.CreateTextNode(s);
    case Node(t, props, kids) =>
      if t.Tag? {
        el := doc.CreateElement(t.name);
        ghost var n0 := doc.nodes;
        var keys := props.Keys;
        while keys != {}
          invariant doc.Valid() && keys <= props.Keys
          invariant doc.nodes == n0[el := n0[el].(attrs := map k | k in props && k !in keys :: props[k])]
          decreases keys
        {
          var key :| key in keys;
          doc.SetAttribute(el, key, props[key]);
          assert (map k | k in props && k !in keys - {key} :: props[k]) ==
                 (map k | k in props && k !in keys :: props[k])[key := props[key]];
          keys := keys - {key};
        }
        assert (map k | k in props && k !in keys :: props[k]) == props;
        assert doc.nodes == old(doc.nodes) + [ElementNode(t.name).(attrs := props)];
      } else {
        var c;
        c, el := Instantiate(doc, render, t.kind, props);
      }
      ghost var n1 := doc.nodes;
      for i := 0 to |kids|
        invariant doc.Valid() && el < |doc.nodes|
        invariant AppendedAll(render, doc.nodes, el, kids[i..]) == AppendedAll(render, n1, el, kids)
      {
        var child := RenderNode(doc, render, kids[i]);
        doc.AppendChild(el, child);
        assert kids[i..][1..] == kids[i + 1..];
      }
      assert kids[|kids|..] == [];
  }

  /** `diff(dom, node, parent)` (app.js:1-33).  With `dom` present it
      updates that subtree in place; without it, it renders `node` and
      appends it to `parent`.  It always returns `dom`. */
  method Diff(doc: Document, render: Renderer, dom: Option<NodeId>, v: VNode, parent: Option<NodeId>)
    returns (r: Option<NodeId>)
    requires WellRanked(render) && doc.Valid()
    requires dom.Some? ==> dom.value < |doc.nodes| && Diffed(render, doc.nodes, dom.value, v).Some?
    requires dom.None? ==> parent.Some? && parent.value < |doc.nodes|
    modifies doc
    ensures doc.Valid() && r == dom
    ensures dom.Some? ==> doc.nodes == Diffed(render, old(doc.nodes), dom.value, v).value
    ensures dom.None? ==> doc.nodes == Mounted(render, old(doc.nodes), v, parent.value)
    decreases v
  {
    if dom.Some? {
      var d := dom.value;
      match v {
        case Text(s) =>
          doc.SetNodeValue(d, s);
        case Node(_, _, kids) =>
          // the component test on `node.nodeName` (app.js:10) never holds for h-built nodes
          if |kids| != |doc.nodes[d].childNodes| {
            var c := RenderNode(doc, render, kids[|kids| - 1]);
            doc.AppendChild(d, c);
          }
          DiffChildNodes(doc, render, d, kids);
      }
    } else {
      var newDom := RenderNode(doc, render, v);
      doc.AppendChild(parent.value, newDom);
    }
    r := dom;
  }

  /** `dom.childNodes.forEach((child, i) => diff(child, node.children[i]))`
      (app.js:22).  The child list is read afresh on every step; diffing a
      child only touches nodes after `dom`, so the list does not change. */
  method DiffChildNodes(doc: Document, render: Renderer, dom: NodeId, kids: seq<VNode>)
    requires WellRanked(render) && doc.Valid() && dom < |doc.nodes|
    requires |kids| == |doc.nodes[dom].childNodes|
    requires DiffedAll(render, doc.nodes, doc.nodes[dom].childNodes, kids).Some?
    modifies doc
    ensures doc.Valid()
    ensures doc.nodes == DiffedAll(render, old(doc.nodes), old(doc.nodes[dom].childNodes), kids).value
    decreases kids
  {
    ghost var n0 := doc.nodes;
    ghost var cs := doc.nodes[dom].childNodes;
    var i := 0;
    while i < |doc.nodes[dom].childNodes|
      invariant doc.Valid() && dom < |doc.nodes| && doc.nodes[dom].childNodes == cs
      invariant 0 <= i <= |cs|
      invariant forall j :: i <= j < |cs| ==> cs[j] < |doc.nodes|
      invariant DiffedAll(render, doc.nodes, cs[i..], kids[i..]) == DiffedAll(render, n0, cs, kids)
      decreases |cs| - i
    {
      assert cs[i..][1..] == cs[i + 1..] && kids[i..][1..] == kids[i + 1..];
      var _ := Diff(doc, render, Some(doc.nodes[dom].childNodes[i]), kids[i], None);
      i := i + 1;
    }
    assert cs[|cs|..] == [] && kids[|kids|..] == [];
  }

  /** `render(node, parent)` (app.js:146-148): the first, mounting pass. */
  method Render(doc: Document, render: Renderer, v: VNode, parent: NodeId)
    requires WellRanked(render) && doc.Valid() && parent < |doc.nodes|
    modifies doc
    ensures doc.Valid() && doc.nodes == Mounted(render, old(doc.nodes), v, parent)
  {
    var _ := Diff(doc, render, None, v, Some(parent));
  }
}
