/** The document tree that Squire edits, as far as its tree algorithms look at it: text
    nodes and elements with an identity. An element's tag is what `areAlike` compares
    (war/components/Squire/squire-raw.js:203-212). */
module Dom {
  import opened Wrappers

  type NodeId = nat

  datatype Tag = Tag(name: string, className: string, style: string)

  datatype Node =
    | Text(id: NodeId, data: string)
    | Element(id: NodeId, tag: Tag, kids: seq<Node>)

  const INLINE_NAMES: set<string> := {
    "A", "ABBR", "ACRONYM", "B", "BR", "BDI", "BDO", "CITE", "CODE", "CODING", "DATA", "DEL",
    "DFN", "EM", "FONT", "HR", "I", "IMG", "INPUT", "INS", "KBD", "Q", "RP", "RT", "RUBY",
    "S", "SAMP", "SMALL", "SPAN", "STRIKE", "STRONG", "SUB", "SUP", "U", "VAR", "WBR"}

  const LEAF_NAMES: set<string> := {"BR", "IMG", "INPUT"}

  predicate IsLeaf(node: Node) {
    node.Element? && node.tag.name in LEAF_NAMES
  }

  predicate IsInline(node: Node) {
    node.Text? || node.tag.name in INLINE_NAMES
  }

  /** The names of inline elements, in families
      (war/components/Squire/squire-raw.js:172). */
  predicate InlineName(name: string) {
    || name in {"A", "ABBR", "ACRONYM"}
    || name in {"B", "BR", "BDI", "BDO"}
    || name in {"CITE", "CODE", "CODING"}
    || name in {"DATA", "DEL", "DFN", "EM", "FONT", "HR"}
    || name in {"I", "IMG", "INPUT", "INS"}
    || name in {"KBD", "Q", "RP", "RT", "RUBY"}
    || name in {"S", "SAMP", "SMALL", "SPAN", "STRIKE", "STRONG", "SUB", "SUP"}
    || name in {"U", "VAR", "WBR"}
  }

  /** BR, IMG and INPUT hold nothing; what is inline is told by the name. */
  lemma {:induction false} KindsExactly(node: Node)
    ensures IsLeaf(node)
       <==> node.Element? && (node.tag.name == "BR" || node.tag.name == "IMG" || node.tag.name == "INPUT")
    ensures IsInline(node) <==> node.Text? || InlineName(node.tag.name)
  {}

  predicate AreAlike(node: Node, node2: Node) {
    !IsLeaf(node) &&
    match (node, node2)
    case (Text(_, _), Text(_, _)) => true
    case (Element(_, l, _), Element(_, l2, _)) => l == l2
    case _ => false
  }

  function Length(node: Node): nat {
    match node
    case Text(_, data) => |data|
    case Element(_, _, kids) => |kids|
  }

  // ----- content -----

  /** The content of a tree in document order: its characters and leaf elements, each with
      the tags of the elements around it, outermost first. */
  datatype Token = Character(c: char, around: seq<Tag>) | Leaf(tag: Tag, around: seq<Tag>)

  function Wrap(l: Tag, t: Token): Token {
    t.(around := [l] + t.around)
  }

  function WrapAll(l: Tag, ts: seq<Token>): seq<Token> {
    seq(|ts|, i requires 0 <= i < |ts| => Wrap(l, ts[i]))
  }

  function OwnTokens(l: Tag): seq<Token> {
    if l.name in LEAF_NAMES then [Leaf(l, [])] else []
  }

  function Content(node: Node): seq<Token>
    decreases node, 0
  {
    match node
    case Text(_, data) => seq(|data|, i requires 0 <= i < |data| => Character(data[i], []))
    case Element(_, l, kids) => OwnTokens(l) + WrapAll(l, ContentAll(kids))
  }

  function ContentAll(nodes: seq<Node>): seq<Token>
    decreases nodes, 1
  {
    if nodes == [] then [] else Content(nodes[0]) + ContentAll(nodes[1..])
  }

  lemma {:induction false} ContentAllConcat(a: seq<Node>, b: seq<Node>)
    ensures ContentAll(a + b) == ContentAll(a) + ContentAll(b)
    decreases a
  {
    if a == [] {
      assert a + b == b;
    } else {
      assert (a + b)[1..] == a[1..] + b;
      ContentAllConcat(a[1..], b);
    }
  }

  lemma {:induction false} ContentAllOne(node: Node)
    ensures ContentAll([node]) == Content(node)
  {
    assert [node][1..] == [];
  }

  // ----- identities and range boundaries -----

  function Ids(node: Node): set<NodeId>
    decreases node, 0
  {
    match node
    case Text(id, _) => {id}
    case Element(id, _, kids) => {id} + IdsAll(kids)
  }

  function IdsAll(nodes: seq<Node>): set<NodeId>
    decreases nodes, 1
  {
    if nodes == [] then {} else Ids(nodes[0]) + IdsAll(nodes[1..])
  }

  /** No two nodes of the tree share an identity. */
  predicate Unique(node: Node)
    decreases node, 0
  {
    node.Element? ==> node.id !in IdsAll(node.kids) && UniqueAll(node.kids)
  }

  predicate UniqueAll(nodes: seq<Node>)
    decreases nodes, 1
  {
    nodes != [] ==> Unique(nodes[0]) && UniqueAll(nodes[1..]) && Ids(nodes[0]) !! IdsAll(nodes[1..])
  }

  lemma {:induction false} IdsAllConcat(a: seq<Node>, b: seq<Node>)
    ensures IdsAll(a + b) == IdsAll(a) + IdsAll(b)
    ensures UniqueAll(a + b) <==> UniqueAll(a) && UniqueAll(b) && IdsAll(a) !! IdsAll(b)
    decreases a
  {
    if a == [] {
      assert a + b == b;
    } else {
      assert (a + b)[1..] == a[1..] + b;
      IdsAllConcat(a[1..], b);
    }
  }

  /** A range end: a node and an offset into its characters or children. */
  datatype Boundary = Boundary(container: NodeId, offset: nat)

  /** How much of the content of the node comes before the boundary; None when the boundary
      does not lie in the node. */
  function Position(node: Node, b: Boundary): Option<nat>
    decreases node, 0
  {
    match node
    case Text(id, data) =>
      if id == b.container && b.offset <= |data| then Some(b.offset) else None
    case Element(id, l, kids) =>
      var own := |OwnTokens(l)|;
      if id == b.container then
        if b.offset <= |kids| then Some(own + |ContentAll(kids[..b.offset])|) else None
      else match PositionAll(kids, b)
        case None => None
        case Some(n) => Some(own + n)
  }

  function PositionAll(nodes: seq<Node>, b: Boundary): Option<nat>
    decreases nodes, 1
  {
    if nodes == [] then None
    else match Position(nodes[0], b)
      case Some(n) => Some(n)
      case None =>
        match PositionAll(nodes[1..], b)
        case None => None
        case Some(n) => Some(|Content(nodes[0])| + n)
  }

  lemma {:induction false} PositionAllConcat(a: seq<Node>, b: seq<Node>, x: Boundary)
    ensures PositionAll(a + b, x) ==
      if PositionAll(a, x).Some? then PositionAll(a, x)
      else if PositionAll(b, x).Some? then Some(|ContentAll(a)| + PositionAll(b, x).value)
      else None
    decreases a
  {
    if a == [] {
      assert a + b == b;
    } else {
      assert (a + b)[1..] == a[1..] + b;
      PositionAllConcat(a[1..], b, x);
    }
  }

  lemma {:induction false} PositionAllOne(node: Node, x: Boundary)
    ensures PositionAll([node], x) == Position(node, x)
  {
    assert [node][1..] == [];
  }

  lemma {:induction false} PositionOutside(node: Node, x: Boundary)
    requires x.container !in Ids(node)
    ensures Position(node, x).None?
    decreases node, 0
  {
    if node.Element? {
      PositionAllOutside(node.kids, x);
    }
  }

  lemma {:induction false} PositionAllOutside(nodes: seq<Node>, x: Boundary)
    requires x.container !in IdsAll(nodes)
    ensures PositionAll(nodes, x).None?
    decreases nodes, 1
  {
    if nodes != [] {
      PositionOutside(nodes[0], x);
      PositionAllOutside(nodes[1..], x);
    }
  }

  /** Number of nodes, a measure for recursion over trees that change. */
  function Count(node: Node): nat
    decreases node, 0
  {
    match node
    case Text(_, _) => 1
    case Element(_, _, kids) => 1 + CountAll(kids)
  }

  function CountAll(nodes: seq<Node>): nat
    decreases nodes, 1
  {
    if nodes == [] then 0 else Count(nodes[0]) + CountAll(nodes[1..])
  }

  lemma {:induction false} CountAllConcat(a: seq<Node>, b: seq<Node>)
    ensures CountAll(a + b) == CountAll(a) + CountAll(b)
    decreases a
  {
    if a == [] {
      assert a + b == b;
    } else {
      assert (a + b)[1..] == a[1..] + b;
      CountAllConcat(a[1..], b);
    }
  }
}
