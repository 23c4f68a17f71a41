/** The concrete output tree that `renderNode` creates and `diff` mutates,
    reduced to what app.js uses of the browser DOM: text and element
    nodes, attributes, ordered child lists and append.  Nodes live in an
    arena owned by a `Document`; a node's identity is its index there. */
module Dom {

  type NodeId = nat

  datatype NodeKind = TextKind | ElementKind(tagName: string)

  /** One concrete node.  Every node carries a `nodeValue` (the text of a
      text node; elements are created with ""), and any node may hold
      children. */
  datatype DomNode = DomNode(
    kind: NodeKind,
    nodeValue: string,
    attrs: map<string, string>,
    childNodes: seq<NodeId>)

  function TextNode(s: string): DomNode
  {
    DomNode(TextKind, s, map[], [])
  }

  function ElementNode(tag: string): DomNode
  {
    DomNode(ElementKind(tag), "", map[], [])
  }

  /** Every child id is inside the arena and greater than its parent's id,
      so the nodes form an acyclic graph. */
  ghost predicate Ordered(nodes: seq<DomNode>)
  {
    forall i, j :: 0 <= i < |nodes| && 0 <= j < |nodes[i].childNodes| ==>
      i < nodes[i].childNodes[j] < |nodes|
  }

  /** The arena after `parent.appendChild(child)`. */
  function Appended(nodes: seq<DomNode>, parent: NodeId, child: NodeId): (r: seq<DomNode>)
    requires Ordered(nodes) && parent < child < |nodes|
    ensures Ordered(r) && |r| == |nodes|
    ensures r[parent].childNodes == nodes[parent].childNodes + [child]
    ensures r[parent] == nodes[parent].(childNodes := r[parent].childNodes)
    ensures forall j :: 0 <= j < |nodes| && j != parent ==> r[j] == nodes[j]
  {
    nodes[parent := nodes[parent].(childNodes := nodes[parent].childNodes + [child])]
  }

  /** The concrete subtree rooted at `id`, read out of the arena as a value. */
  datatype Tree = Tree(kind: NodeKind, nodeValue: string, attrs: map<string, string>, children: seq<Tree>)

  function TreeAt(nodes: seq<DomNode>, id: NodeId): (t: Tree)
    requires Ordered(nodes) && id < |nodes|
    ensures t.kind == nodes[id].kind && t.nodeValue == nodes[id].nodeValue
    ensures t.attrs == nodes[id].attrs && |t.children| == |nodes[id].childNodes|
    decreases |nodes| - id
  {
    var n := nodes[id];
    Tree(n.kind, n.nodeValue, n.attrs,
         seq(|n.childNodes|, i requires 0 <= i < |n.childNodes| => TreeAt(nodes, n.childNodes[i])))
  }

  /** The subtree at `id` is read only from ids `id` and above, so an arena
      that agrees on those ids (and may have grown) holds the same subtree. */
  lemma {:induction false} TreeFrame(a: seq<DomNode>, b: seq<DomNode>, id: NodeId)
    requires Ordered(a) && Ordered(b) && id < |a| <= |b|
    requires forall j :: id <= j < |a| ==> b[j] == a[j]
    ensures TreeAt(b, id) == TreeAt(a, id)
    decreases |a| - id
  {
    var cs := a[id].childNodes;
    forall i | 0 <= i < |cs|
      ensures TreeAt(b, cs[i]) == TreeAt(a, cs[i])
    {
      TreeFrame(a, b, cs[i]);
    }
  }

  /** Ids reachable from `id` through child lists, `id` included. */
  ghost function Reach(nodes: seq<DomNode>, id: NodeId): (r: set<NodeId>)
    requires Ordered(nodes) && id < |nodes|
    ensures id in r
    ensures forall j :: j in r ==> id <= j < |nodes|
    decreases |nodes| - id
  {
    var cs := nodes[id].childNodes;
    {id} + (set i, j | 0 <= i < |cs| && j in Reach(nodes, cs[i]) :: j)
  }

  /** Whatever a child reaches, its parent reaches too. */
  lemma ReachChild(nodes: seq<DomNode>, id: NodeId, i: nat)
    requires Ordered(nodes) && id < |nodes| && i < |nodes[id].childNodes|
    ensures Reach(nodes, nodes[id].childNodes[i]) <= Reach(nodes, id)
  {
  }

  /** Like TreeFrame: what is reachable from `id` depends only on ids `id`
      and above. */
  lemma {:induction false} ReachFrame(a: seq<DomNode>, b: seq<DomNode>, id: NodeId)
    requires Ordered(a) && Ordered(b) && id < |a| <= |b|
    requires forall j :: id <= j < |a| ==> b[j] == a[j]
    ensures Reach(b, id) == Reach(a, id)
    decreases |a| - id
  {
    var cs := a[id].childNodes;
    forall i | 0 <= i < |cs|
      ensures Reach(b, cs[i]) == Reach(a, cs[i])
    {
      ReachFrame(a, b, cs[i]);
    }
  }

  /** How an arena evolves under the engine: nodes are only added, old nodes
      keep their kind and attributes, and their child lists only grow at the
      end, by fresh ids. */
  ghost predicate Grows(before: seq<DomNode>, after: seq<DomNode>)
  {
    |before| <= |after| &&
    forall j :: 0 <= j < |before| ==>
      after[j].kind == before[j].kind && after[j].attrs == before[j].attrs &&
      before[j].childNodes <= after[j].childNodes &&
      forall k :: |before[j].childNodes| <= k < |after[j].childNodes| ==> |before| <= after[j].childNodes[k]
  }

  /** Growth adds no path between old nodes: an old node reachable from `id`
      after growth was reachable before. */
  lemma {:induction false} ReachOldShrinks(a: seq<DomNode>, b: seq<DomNode>, id: NodeId)
    requires Ordered(a) && Ordered(b) && Grows(a, b) && id < |a|
    ensures forall j :: j in Reach(b, id) && j < |a| ==> j in Reach(a, id)
    decreases |b| - id
  {
    var cs := b[id].childNodes;
    forall j | j in Reach(b, id) && j < |a|
      ensures j in Reach(a, id)
    {
      if j != id {
        var i :| 0 <= i < |cs| && j in Reach(b, cs[i]);
        assert i < |a[id].childNodes|;
        assert cs[i] == a[id].childNodes[i];
        ReachOldShrinks(a, b, cs[i]);
      }
    }
  }

  /** The host document: it creates nodes and performs the four mutations
      the engine needs. */
  class Document {
    var nodes: seq<DomNode>

    ghost predicate Valid()
      reads this
    {
      Ordered(nodes)
    }

    constructor ()
      ensures Valid() && nodes == []
    {
      nodes := [];
    }

    /** `document.createTextNode(s)` */
    method CreateTextNode(s: string) returns (id: NodeId)
      requires Valid()
      modifies this
      ensures Valid()
      ensures id == old(|nodes|) && nodes == old(nodes) + [TextNode(s)]
    {
      id := |nodes|;
      nodes := nodes + [TextNode(s)];
    }

    /** `document.createElement(tag)` */
    method CreateElement(tag: string) returns (id: NodeId)
      requires Valid()
      modifies this
      ensures Valid()
      ensures id == old(|nodes|) && nodes == old(nodes) + [ElementNode(tag)]
    {
      id := |nodes|;
      nodes := nodes + [ElementNode(tag)];
    }

    /** `el.setAttribute(name, value)`: overwrites any earlier value of `name`. */
    method SetAttribute(id: NodeId, name: string, value: string)
      requires Valid() && id < |nodes|
      modifies this
      ensures Valid()
      ensures nodes == old(nodes[id := nodes[id].(attrs := nodes[id].attrs[name := value])])
    {
      nodes := nodes[id := nodes[id].(attrs := nodes[id].attrs[name := value])];
    }

    /** `parent.appendChild(child)` for a child that has no parent yet. */
    method AppendChild(parent: NodeId, child: NodeId)
      requires Valid() && parent < child < |nodes|
      modifies this
      ensures Valid()
      ensures nodes == Appended(old(nodes), parent, child)
    {
      nodes := Appended(nodes, parent, child);
    }

    /** `node.nodeValue = s` */
    method SetNodeValue(id: NodeId, s: string)
      requires Valid() && id < |nodes|
      modifies this
      ensures Valid()
      ensures nodes == old(nodes[id := nodes[id].(nodeValue := s)])
    {
      nodes := nodes[id := nodes[id].(nodeValue := s)];
    }
  }
}
