/** What app.js promises about rendering and reconciliation, proved of the
    reference definitions in module Reconcile. */
module Properties {
  import opened Options
  import opened VNodes
  import opened Dom
  import opened Reconcile

  /** `renderNode(v)` builds exactly the tree `v` describes: a text node
      holding the string, an element with the tag and every prop as an
      attribute, a component's rendered output; then the renderings of the
      children, in order (app.js:40-58). */
  lemma {:induction false} RenderedTree(render: Renderer, nodes: seq<DomNode>, v: VNode)
    requires WellRanked(render) && Ordered(nodes)
    ensures TreeAt(Rendered(render, nodes, v).0, |nodes|) == Expected(render, v)
    decreases Rank(v), Size(v), 0
  {
    match v
    case Text(s) =>
    case Node(Tag(t), props, kids) =>
      var n0 := nodes + [ElementNode(t).(attrs := props)];
      assert TreeAt(n0, |nodes|) == Tree(ElementKind(t), "", props, []);
      AppendedAllTree(render, n0, |nodes|, kids);
    case Node(Ctor(k), props, kids) =>
      var out := render(k, props, map[]);
      var (n1, el) := Rendered(render, nodes, out);
      RenderedTree(render, nodes, out);
      AppendedAllTree(render, n1, el, kids);
  }

  /** Appending the renderings of `kids` to `parent` leaves its earlier
      children's subtrees as they were and adds the expected trees after them. */
  lemma {:induction false} AppendedAllTree(render: Renderer, nodes: seq<DomNode>, parent: NodeId, kids: seq<VNode>)
    requires WellRanked(render) && Ordered(nodes) && parent < |nodes|
    ensures var t := TreeAt(nodes, parent);
            TreeAt(AppendedAll(render, nodes, parent, kids), parent) ==
            t.(children := t.children + ExpectedAll(render, kids))
    decreases RankAll(kids), SizeAll(kids), 2
  {
    var t := TreeAt(nodes, parent);
    if kids == [] {
      assert ExpectedAll(render, kids) == [];
      assert t.children + [] == t.children;
    } else {
      var (n1, c) := Rendered(render, nodes, kids[0]);
      var n2 := Appended(n1, parent, c);
      RenderAppendOne(render, nodes, parent, kids[0]);
      AppendedAllTree(render, n2, parent, kids[1..]);
      assert ExpectedAll(render, kids) == [Expected(render, kids[0])] + ExpectedAll(render, kids[1..]);
    }
  }

  /** `parent.appendChild(renderNode(v))`: the new child is the next fresh id
      and holds the expected tree of `v`; the subtrees of the nodes after
      `parent` are untouched, and `parent` gains that tree as its last child. */
  lemma {:induction false} RenderAppendOne(render: Renderer, nodes: seq<DomNode>, parent: NodeId, v: VNode)
    requires WellRanked(render) && Ordered(nodes) && parent < |nodes|
    ensures var n2 := Appended(Rendered(render, nodes, v).0, parent, |nodes|);
            var t := TreeAt(nodes, parent);
            TreeAt(n2, |nodes|) == Expected(render, v) &&
            TreeAt(n2, parent) == t.(children := t.children + [Expected(render, v)]) &&
            forall x :: parent < x < |nodes| ==> TreeAt(n2, x) == TreeAt(nodes, x)
    decreases Rank(v), Size(v), 1
  {
    var (n1, c) := Rendered(render, nodes, v);
    var n2 := Appended(n1, parent, c);
    RenderedTree(render, nodes, v);
    forall j | 0 <= j < |nodes|
      ensures n1[j] == nodes[j]
    {
      assert n1[..|nodes|][j] == n1[j];
    }
    forall x | parent < x < |nodes|
      ensures TreeAt(n2, x) == TreeAt(nodes, x)
    {
      TreeFrame(nodes, n2, x);
    }
    TreeFrame(n1, n2, c);
    var t := TreeAt(nodes, parent);
    assert TreeAt(n2, parent) == t.(children := t.children + [Expected(render, v)]);
  }

  /** Diffing a component-free tree against the virtual node it depicts
      changes nothing (app.js:5-8, 17-22). */
  lemma {:induction false} DiffOfDepictedIsNoop(render: Renderer, nodes: seq<DomNode>, dom: NodeId, v: VNode)
    requires WellRanked(render) && Ordered(nodes) && dom < |nodes|
    requires Rank(v) == 0 && TreeAt(nodes, dom) == Expected(render, v)
    ensures Diffed(render, nodes, dom, v) == Some(nodes)
    decreases v
  {
    match v
    case Text(s) =>
      assert nodes[dom := nodes[dom].(nodeValue := s)] == nodes;
    case Node(t, p, kids) =>
      var cs := nodes[dom].childNodes;
      forall i | 0 <= i < |cs|
        ensures Rank(kids[i]) == 0 && TreeAt(nodes, cs[i]) == Expected(render, kids[i])
      {
        assert TreeAt(nodes, dom).children[i] == TreeAt(nodes, cs[i]);
        assert Expected(render, v).children[i] == Expected(render, kids[i]);
      }
      DiffAllOfDepictedIsNoop(render, nodes, cs, kids);
  }

  lemma {:induction false} DiffAllOfDepictedIsNoop(render: Renderer, nodes: seq<DomNode>, cs: seq<NodeId>, kids: seq<VNode>)
    requires WellRanked(render) && Ordered(nodes) && |cs| == |kids|
    requires forall i :: 0 <= i < |cs| ==> cs[i] < |nodes|
    requires forall i :: 0 <= i < |cs| ==> Rank(kids[i]) == 0 && TreeAt(nodes, cs[i]) == Expected(render, kids[i])
    ensures DiffedAll(render, nodes, cs, kids) == Some(nodes)
    decreases kids
  {
    if cs != [] {
      DiffOfDepictedIsNoop(render, nodes, cs[0], kids[0]);
      DiffAllOfDepictedIsNoop(render, nodes, cs[1..], kids[1..]);
    }
  }

  /** Rendering a component-free virtual node and then diffing the result
      against the same virtual node leaves the arena as rendered. */
  lemma RenderThenDiffIsNoop(render: Renderer, nodes: seq<DomNode>, v: VNode)
    requires WellRanked(render) && Ordered(nodes) && Rank(v) == 0
    ensures var (n1, root) := Rendered(render, nodes, v);
            Diffed(render, n1, root, v) == Some(n1)
  {
    RenderedTree(render, nodes, v);
    var (n1, root) := Rendered(render, nodes, v);
    DiffOfDepictedIsNoop(render, n1, root, v);
  }

  /** One virtual child more than concrete children, all earlier ones
      depicted: diff appends exactly the rendering of the last virtual child,
      keeps every earlier child, and the subtree then depicts all virtual
      children (app.js:17-22). */
  lemma DiffAppendsOne(render: Renderer, nodes: seq<DomNode>, dom: NodeId, v: VNode)
    requires WellRanked(render) && Ordered(nodes) && dom < |nodes|
    requires v.Node? && Rank(v) == 0 && |v.children| > 0
    requires TreeAt(nodes, dom).children == ExpectedAll(render, v.children[..|v.children| - 1])
    ensures var n2 := Appended(Rendered(render, nodes, v.children[|v.children| - 1]).0, dom, |nodes|);
            Diffed(render, nodes, dom, v) == Some(n2) &&
            TreeAt(n2, dom) == TreeAt(nodes, dom).(children := ExpectedAll(render, v.children))
  {
    var kids := v.children;
    var last := kids[|kids| - 1];
    var cs := nodes[dom].childNodes;
    var n2 := Appended(Rendered(render, nodes, last).0, dom, |nodes|);
    RenderAppendOne(render, nodes, dom, last);
    forall i | 0 <= i < |cs| + 1
      ensures Rank(kids[i]) == 0 && TreeAt(n2, (cs + [|nodes|])[i]) == Expected(render, kids[i])
    {
      if i < |cs| {
        assert TreeAt(nodes, dom).children[i] == TreeAt(nodes, cs[i]);
        assert kids[..|kids| - 1][i] == kids[i];
      }
    }
    DiffAllOfDepictedIsNoop(render, n2, cs + [|nodes|], kids);
    assert ExpectedAll(render, kids) == ExpectedAll(render, kids[..|kids| - 1]) + [Expected(render, last)];
  }

  /** `render(v, parent)` (app.js:146-148, 23-27): `parent` gains exactly one
      child, a fresh node whose subtree is the expected tree of `v`; every
      other existing node is untouched. */
  lemma MountedTree(render: Renderer, nodes: seq<DomNode>, v: VNode, parent: NodeId)
    requires WellRanked(render) && Ordered(nodes) && parent < |nodes|
    ensures var r := Mounted(render, nodes, v, parent);
            var t := TreeAt(nodes, parent);
            TreeAt(r, |nodes|) == Expected(render, v) &&
            TreeAt(r, parent) == t.(children := t.children + [Expected(render, v)])
  {
    RenderAppendOne(render, nodes, parent, v);
  }

  /** A diff that creates no node changes nothing but text values inside
      `dom`'s subtree: every node keeps its kind, attributes and child list,
      and nodes outside the subtree keep their text too (app.js:5-8, 17-22). */
  lemma {:induction false} DiffWithoutGrowthOnlyRetexts(render: Renderer, nodes: seq<DomNode>, dom: NodeId, v: VNode)
    requires WellRanked(render) && Ordered(nodes) && dom < |nodes|
    requires Diffed(render, nodes, dom, v).Some? && |Diffed(render, nodes, dom, v).value| == |nodes|
    ensures var r := Diffed(render, nodes, dom, v).value;
            forall j :: 0 <= j < |nodes| ==> r[j] == nodes[j].(nodeValue := r[j].nodeValue)
    ensures var r := Diffed(render, nodes, dom, v).value;
            forall j :: 0 <= j < |nodes| && j !in Reach(nodes, dom) ==> r[j] == nodes[j]
    decreases v
  {
    DiffedFrame(render, nodes, dom, v);
    match v
    case Text(_) =>
    case Node(_, _, kids) =>
      DiffAllWithoutGrowthOnlyRetexts(render, nodes, nodes[dom].childNodes, kids);
  }

  lemma {:induction false} DiffAllWithoutGrowthOnlyRetexts(render: Renderer, nodes: seq<DomNode>, cs: seq<NodeId>, kids: seq<VNode>)
    requires WellRanked(render) && Ordered(nodes) && |cs| == |kids|
    requires forall i :: 0 <= i < |cs| ==> cs[i] < |nodes|
    requires DiffedAll(render, nodes, cs, kids).Some? && |DiffedAll(render, nodes, cs, kids).value| == |nodes|
    ensures var r := DiffedAll(render, nodes, cs, kids).value;
            forall j :: 0 <= j < |nodes| ==> r[j] == nodes[j].(nodeValue := r[j].nodeValue)
    decreases kids
  {
    if cs != [] {
      var n1 := Diffed(render, nodes, cs[0], kids[0]).value;
      DiffWithoutGrowthOnlyRetexts(render, nodes, cs[0], kids[0]);
      DiffAllWithoutGrowthOnlyRetexts(render, n1, cs[1..], kids[1..]);
    }
  }

  /** A renderer for trees without components. */
  function NoComponents(k: Kind, p: Props, s: State): VNode
  {
    Text("")
  }

  /** The arena of `<ul><li>x</li><li>y</li></ul>`, root first. */
  function ListOfTwo(x: string, y: string): (nodes: seq<DomNode>)
    ensures Ordered(nodes)
  {
    [ElementNode("ul").(childNodes := [1, 3]),
     ElementNode("li").(childNodes := [2]), TextNode(x),
     ElementNode("li").(childNodes := [4]), TextNode(y)]
  }

  function Item(t: string): VNode
  {
    H(Tag("li"), map[], [Text(t)])
  }

  /** Matching is positional, not by content: `<ul><li>x</li><li>y</li></ul>`
      diffed against `<ul><li>y</li><li>x</li></ul>` keeps both `li` nodes
      where they are and swaps their texts in place. */
  lemma PositionalNotByContent(x: string, y: string)
    ensures WellRanked(NoComponents)
    ensures Diffed(NoComponents, ListOfTwo(x, y), 0, H(Tag("ul"), map[], [Item(y), Item(x)])) ==
            Some(ListOfTwo(y, x))
  {
    var nodes := ListOfTwo(x, y);
    var n1 := nodes[2 := TextNode(y)];
    var n2 := n1[4 := TextNode(x)];
    assert DiffedAll(NoComponents, nodes, [2], [Text(y)]) == Some(n1) by {
      assert Diffed(NoComponents, nodes, 2, Text(y)) == Some(n1);
    }
    assert Diffed(NoComponents, nodes, 1, Item(y)) == Some(n1);
    assert DiffedAll(NoComponents, n1, [4], [Text(x)]) == Some(n2) by {
      assert Diffed(NoComponents, n1, 4, Text(x)) == Some(n2);
    }
    assert DiffedAll(NoComponents, n1, [3], [Item(x)]) == Some(n2) by {
      assert Diffed(NoComponents, n1, 3, Item(x)) == Some(n2);
    }
    assert DiffedAll(NoComponents, nodes, [1, 3], [Item(y), Item(x)]) == Some(n2) by {
      assert [1, 3][1..] == [3] && [Item(y), Item(x)][1..] == [Item(x)];
    }
    assert n2 == ListOfTwo(y, x);
  }

  /** Because diff's component test (app.js:10) never fires, a component
      node is diffed as if it were an element against the rendering of its
      output.  So re-diffing the rendering of `h(C, props)` against the same
      virtual node fails as soon as C renders an element with children: the
      virtual node has no children, the concrete node has some, and
      `node.children[-1]` is undefined (app.js:17-19). */
  lemma RediffOfComponentFails(render: Renderer, nodes: seq<DomNode>, k: Kind, p: Props)
    requires WellRanked(render) && Ordered(nodes)
    requires render(k, p, map[]).Node? && |render(k, p, map[]).children| > 0
    ensures var v := H(Ctor(k), p, []);
            var (n1, root) := Rendered(render, nodes, v);
            Diffed(render, n1, root, v) == None
  {
  }

  /** diff works in place on `dom`'s subtree: every existing node that is
      not reachable from `dom` is left exactly as it was (app.js:1-22). */
  lemma {:induction false} DiffedFrame(render: Renderer, nodes: seq<DomNode>, dom: NodeId, v: VNode)
    requires WellRanked(render) && Ordered(nodes) && dom < |nodes|
    requires Diffed(render, nodes, dom, v).Some?
    ensures var r := Diffed(render, nodes, dom, v).value;
            forall j :: 0 <= j < |nodes| && j !in Reach(nodes, dom) ==> r[j] == nodes[j]
    decreases v
  {
    match v
    case Text(_) =>
    case Node(_, _, kids) =>
      var cs := nodes[dom].childNodes;
      if |kids| == |cs| {
        DiffedAllFrame(render, nodes, cs, kids);
        var r := DiffedAll(render, nodes, cs, kids).value;
        forall j | 0 <= j < |nodes| && j !in Reach(nodes, dom)
          ensures r[j] == nodes[j]
        {
          forall i | 0 <= i < |cs|
            ensures j !in Reach(nodes, cs[i])
          {
            ReachChild(nodes, dom, i);
          }
        }
      } else {
        var (n1, c) := Rendered(render, nodes, kids[|kids| - 1]);
        forall j | 0 <= j < |nodes|
          ensures n1[j] == nodes[j]
        {
          assert n1[..|nodes|][j] == n1[j];
        }
        AppendedChildFrame(render, nodes, Appended(n1, dom, c), dom, kids);
      }
  }

  /** The appending branch of `DiffedFrame`: after the extra child `|nodes|`
      is appended to `dom`, diffing all children leaves every old node that
      `dom` does not reach as it was. */
  lemma AppendedChildFrame(render: Renderer, nodes: seq<DomNode>, n2: seq<DomNode>, dom: NodeId, kids: seq<VNode>)
    requires WellRanked(render) && Ordered(nodes) && Ordered(n2) && dom < |nodes| < |n2|
    requires forall j :: 0 <= j < |nodes| && j != dom ==> n2[j] == nodes[j]
    requires n2[dom].childNodes == nodes[dom].childNodes + [|nodes|]
    requires |kids| == |nodes[dom].childNodes| + 1
    requires DiffedAll(render, n2, n2[dom].childNodes, kids).Some?
    ensures var r := DiffedAll(render, n2, n2[dom].childNodes, kids).value;
            forall j :: 0 <= j < |nodes| && j !in Reach(nodes, dom) ==> r[j] == nodes[j]
    decreases kids, 1
  {
    var cs := n2[dom].childNodes;
    DiffedAllFrame(render, n2, cs, kids);
    var r := DiffedAll(render, n2, cs, kids).value;
    forall j | 0 <= j < |nodes| && j !in Reach(nodes, dom)
      ensures r[j] == nodes[j]
    {
      forall i | 0 <= i < |cs|
        ensures j !in Reach(n2, cs[i])
      {
        if i < |nodes[dom].childNodes| {
          ReachFrame(nodes, n2, cs[i]);
          ReachChild(nodes, dom, i);
        }
      }
    }
  }

  /** Diffing children position by position leaves every existing node that
      no child reaches exactly as it was (app.js:22). */
  lemma {:induction false} DiffedAllFrame(render: Renderer, nodes: seq<DomNode>, cs: seq<NodeId>, kids: seq<VNode>)
    requires WellRanked(render) && Ordered(nodes) && |cs| == |kids|
    requires forall i :: 0 <= i < |cs| ==> cs[i] < |nodes|
    requires DiffedAll(render, nodes, cs, kids).Some?
    ensures var r := DiffedAll(render, nodes, cs, kids).value;
            forall j :: 0 <= j < |nodes| && (forall i :: 0 <= i < |cs| ==> j !in Reach(nodes, cs[i])) ==>
              r[j] == nodes[j]
    decreases kids, 0
  {
    if cs != [] {
      var n1 := Diffed(render, nodes, cs[0], kids[0]).value;
      DiffedFrame(render, nodes, cs[0], kids[0]);
      DiffedAllFrame(render, n1, cs[1..], kids[1..]);
      forall i | 1 <= i < |cs|
        ensures forall j :: j in Reach(n1, cs[i]) && j < |nodes| ==> j in Reach(nodes, cs[i])
      {
        ReachOldShrinks(nodes, n1, cs[i]);
      }
    }
  }

  /** Diffing `cs + [c]` is diffing `cs` and then `c` in the arena that
      results. */
  lemma {:induction false} DiffedAllSnoc(render: Renderer, nodes: seq<DomNode>, cs: seq<NodeId>, kids: seq<VNode>, c: NodeId, k: VNode)
    requires WellRanked(render) && Ordered(nodes) && |cs| == |kids| && c < |nodes|
    requires forall i :: 0 <= i < |cs| ==> cs[i] < |nodes|
    requires DiffedAll(render, nodes, cs + [c], kids + [k]).Some?
    ensures DiffedAll(render, nodes, cs, kids).Some?
    ensures DiffedAll(render, nodes, cs + [c], kids + [k]) ==
            Diffed(render, DiffedAll(render, nodes, cs, kids).value, c, k)
    decreases kids
  {
    if cs == [] {
      assert [c][1..] == [] && [k][1..] == [];
    } else {
      assert (cs + [c])[1..] == cs[1..] + [c] && (kids + [k])[1..] == kids[1..] + [k];
      var n1 := Diffed(render, nodes, cs[0], kids[0]).value;
      DiffedAllSnoc(render, n1, cs[1..], kids[1..], c, k);
    }
  }

  /** With one more virtual child than concrete children, whatever the
      earlier children are: if diff succeeds, `dom` gains exactly one child,
      the first fresh node, and when the last virtual child holds no
      component that child ends up depicting it (it is `renderNode` of the
      last virtual child, and diffing it against the same node changes
      nothing) (app.js:17-22). */
  lemma DiffAppendedChildDepictsLast(render: Renderer, nodes: seq<DomNode>, dom: NodeId, v: VNode)
    requires WellRanked(render) && Ordered(nodes) && dom < |nodes|
    requires v.Node? && |v.children| == |nodes[dom].childNodes| + 1
    requires Rank(v.children[|v.children| - 1]) == 0
    requires Diffed(render, nodes, dom, v).Some?
    ensures var r := Diffed(render, nodes, dom, v).value;
            |nodes| < |r| && r[dom].childNodes == nodes[dom].childNodes + [|nodes|] &&
            TreeAt(r, |nodes|) == Expected(render, v.children[|v.children| - 1]) &&
            Diffed(render, r, |nodes|, v.children[|v.children| - 1]) == Some(r)
  {
    var kids := v.children;
    var last := kids[|kids| - 1];
    var cs := nodes[dom].childNodes;
    var (n1, c) := Rendered(render, nodes, last);
    var n2 := Appended(n1, dom, c);
    RenderAppendOne(render, nodes, dom, last);
    assert kids == kids[..|cs|] + [last];
    DiffedAllSnoc(render, n2, cs, kids[..|cs|], c, last);
    var n3 := DiffedAll(render, n2, cs, kids[..|cs|]).value;
    forall i | 0 <= i < |cs|
      ensures Reach(n2, cs[i]) == Reach(nodes, cs[i])
    {
      forall j | 0 <= j < |nodes|
        ensures n1[j] == nodes[j]
      {
        assert n1[..|nodes|][j] == n1[j];
      }
      ReachFrame(nodes, n2, cs[i]);
    }
    DiffedAllFrame(render, n2, cs, kids[..|cs|]);
    TreeFrame(n2, n3, c);
    DiffOfDepictedIsNoop(render, n3, c, last);
  }
}
