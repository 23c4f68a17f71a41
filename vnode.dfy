/** Virtual nodes: the immutable descriptions that `h` builds and that
    `renderNode` and `diff` consume (app.js:99-101). */
module VNodes {

  /** A component kind stands for a component constructor (a subclass of
      `Component`).  Kinds are numbered so that a component only renders
      components of a smaller kind (see WellRanked). */
  type Kind = nat

  /** Attribute name to attribute value; a `null` props object is the empty map. */
  type Props = map<string, string>

  /** A JSON-like value held in a component's state. */
  datatype Value = Str(s: string) | List(items: seq<Value>)

  type State = map<string, Value>

  /** The `type` of an `h`-built node: a string tag or a component constructor. */
  datatype NodeType = Tag(name: string) | Ctor(kind: Kind)

  /** A bare string (a text node) or the record `{type, props, children}`. */
  datatype VNode =
    | Text(s: string)
    | Node(nodeType: NodeType, props: Props, children: seq<VNode>)

  /** The `render(props, state)` method of every component kind. */
  type Renderer = (Kind, Props, State) -> VNode

  /** `h(type, props, ...children)`: the rest arguments become `children`, in order. */
  function H(nodeType: NodeType, props: Props, children: seq<VNode>): (r: VNode)
    ensures r.Node?
    ensures r.nodeType == nodeType && r.props == props && r.children == children
  {
    Node(nodeType, props, children)
  }

  function Max(a: nat, b: nat): nat { if a < b then b else a }

  /** One more than the largest component kind occurring in `v`; 0 when `v`
      holds no component node. */
  function Rank(v: VNode): nat
  {
    match v
    case Text(_) => 0
    case Node(Tag(_), _, kids) => RankAll(kids)
    case Node(Ctor(k), _, kids) => Max(k + 1, RankAll(kids))
  }

  function RankAll(vs: seq<VNode>): (r: nat)
    ensures forall i :: 0 <= i < |vs| ==> Rank(vs[i]) <= r
  {
    if vs == [] then 0 else Max(Rank(vs[0]), RankAll(vs[1..]))
  }

  /** Number of constructors in `v`; used only to measure recursion. */
  function Size(v: VNode): nat
  {
    match v
    case Text(_) => 1
    case Node(_, _, kids) => 1 + SizeAll(kids)
  }

  function SizeAll(vs: seq<VNode>): (r: nat)
    ensures forall i :: 0 <= i < |vs| ==> Size(vs[i]) < r
  {
    if vs == [] then 0 else Size(vs[0]) + SizeAll(vs[1..]) + 1
  }

  /** Every component kind renders only components of a smaller kind, so
      expanding components during rendering terminates. */
  ghost predicate WellRanked(render: Renderer)
  {
    forall k, p, s :: Rank(render(k, p, s)) <= k
  }
}
