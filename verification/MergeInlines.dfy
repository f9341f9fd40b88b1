/** Squire's mergeInlines (war/components/Squire/squire-raw.js:499-554): adjacent alike
    inline siblings become one, all over the tree, and a range is kept in its place. */
module MergeInlines {
  import opened Wrappers
  import opened Dom

  datatype Range = Range(start: Boundary, end: Boundary)

  predicate CanMerge(child: Node, prev: Node) {
    IsInline(child) && AreAlike(child, prev)
  }

  /** What the tests above look at; merging and recursion leave it alone. */
  predicate SameKind(m: Node, n: Node) {
    m.id == n.id && (m.Text? <==> n.Text?) && (m.Element? ==> m.tag == n.tag)
  }

  /** Two neighbours become one exactly when they are texts, or inline elements, not BR, IMG or
      INPUT, with the same name, class and style. */
  predicate Alike(a: Node, b: Node) {
    || (a.Text? && b.Text?)
    || (a.Element? && b.Element?
        && a.tag.name == b.tag.name && a.tag.className == b.tag.className && a.tag.style == b.tag.style
        && InlineName(a.tag.name) && a.tag.name != "BR" && a.tag.name != "IMG" && a.tag.name != "INPUT")
  }

  lemma {:induction false} CanMergeExactly(child: Node, prev: Node)
    ensures CanMerge(child, prev) <==> Alike(prev, child)
  {}

  // ----- merging two neighbours -----

  function Joined(prev: Node, child: Node): Node
    requires CanMerge(child, prev)
  {
    match prev
    case Text(id, data) => Text(id, data + child.data)
    case Element(id, tag, kids) => Element(id, tag, kids + child.kids)
  }

  /** Where a boundary of child goes when child joins prev. */
  function Shifted(x: Boundary, prev: Node, child: Node): Boundary {
    if x.container == child.id then Boundary(prev.id, x.offset + Length(prev)) else x
  }

  /** The boundary updates that the loop makes before child l of the node joins prev. */
  function Moved(b: Boundary, parent: NodeId, l: nat, child: Node, prev: Node): Boundary {
    var b1 := Shifted(b, prev, child);
    if b1.container == parent then
      if b1.offset > l then Boundary(parent, b1.offset - 1)
      else if b1.offset == l then Boundary(prev.id, Length(prev))
      else b1
    else b1
  }

  /** The boundary b of the tree has become b' and marks the same place in the content. */
  ghost predicate Tracks(node: Node, b: Boundary, node': Node, b': Boundary) {
    && (b.container in Ids(node) <==> b'.container in Ids(node'))
    && (b.container !in Ids(node) ==> b' == b)
    && (Position(node, b).Some? ==> Position(node', b') == Position(node, b))
  }

  lemma {:induction false} JoinedContent(prev: Node, child: Node)
    requires CanMerge(child, prev)
    ensures Content(Joined(prev, child)) == Content(prev) + Content(child)
    ensures Length(Joined(prev, child)) == Length(prev) + Length(child)
    ensures forall i | prev.Element? && 0 <= i < Length(prev) + Length(child) ::
      Joined(prev, child).kids[i] == if i < Length(prev) then prev.kids[i] else child.kids[i - Length(prev)]
    ensures Ids(Joined(prev, child)) <= Ids(prev) + Ids(child)
    ensures Ids(prev) <= Ids(Joined(prev, child)) && Ids(child) - {child.id} <= Ids(Joined(prev, child))
    ensures Unique(prev) && Unique(child) && Ids(prev) !! Ids(child) ==>
      Unique(Joined(prev, child)) && child.id !in Ids(Joined(prev, child))
    ensures Count(Joined(prev, child)) < Count(prev) + Count(child)
    ensures SameKind(Joined(prev, child), prev)
  {
    if prev.Element? {
      ContentAllConcat(prev.kids, child.kids);
      IdsAllConcat(prev.kids, child.kids);
      CountAllConcat(prev.kids, child.kids);
    }
  }

  lemma {:induction false} JoinedPositionPrev(prev: Node, child: Node, b: Boundary)
    requires CanMerge(child, prev) && Position(prev, b).Some?
    ensures Position(Joined(prev, child), b) == Position(prev, b)
  {
    if prev.Element? {
      var kids := prev.kids + child.kids;
      if b.container == prev.id {
        assert kids[..b.offset] == prev.kids[..b.offset];
      } else {
        PositionAllConcat(prev.kids, child.kids, b);
      }
    }
  }

  lemma {:induction false} JoinedPositionSeam(prev: Node, child: Node, offset: nat)
    requires CanMerge(child, prev) && offset <= Length(child)
    ensures Position(child, Boundary(child.id, offset)).Some?
    ensures Position(Joined(prev, child), Boundary(prev.id, Length(prev) + offset))
      == Some(|Content(prev)| + Position(child, Boundary(child.id, offset)).value)
  {
    if prev.Element? {
      var kids := prev.kids + child.kids;
      assert kids[..|prev.kids| + offset] == prev.kids + child.kids[..offset];
      ContentAllConcat(prev.kids, child.kids[..offset]);
    }
  }

  lemma {:induction false} JoinedPositionBelow(prev: Node, child: Node, b: Boundary)
    requires CanMerge(child, prev) && Position(child, b).Some? && b.container != child.id && b.container !in Ids(prev)
    ensures Position(Joined(prev, child), b) == Some(|Content(prev)| + Position(child, b).value)
  {
    hide Position, PositionAll, Ids, IdsAll, ContentAll, Content;
    PositionOfText(child, b);
    ElementFacts(prev, b);
    ElementFacts(child, b);
    PositionAllOutside(prev.kids, b);
    PositionAllConcat(prev.kids, child.kids, b);
    PositionBelow(child.id, child.tag, child.kids, b);
    PositionBelow(prev.id, prev.tag, prev.kids + child.kids, b);
  }

  lemma {:induction false} PositionOfText(node: Node, b: Boundary)
    requires Position(node, b).Some? && b.container != node.id
    ensures node.Element?
  {}

  lemma {:induction false} ElementFacts(node: Node, b: Boundary)
    requires node.Element? && !IsLeaf(node)
    ensures OwnTokens(node.tag) == [] && |Content(node)| == |ContentAll(node.kids)|
    ensures b.container !in Ids(node) ==> b.container != node.id && b.container !in IdsAll(node.kids)
  {}

  lemma {:induction false} PositionBelow(id: NodeId, tag: Tag, kids: seq<Node>, b: Boundary)
    requires b.container != id && OwnTokens(tag) == []
    ensures Position(Element(id, tag, kids), b) == PositionAll(kids, b)
  {}

  lemma {:induction false} PositionInside(node: Node, x: Boundary)
    requires Position(node, x).Some?
    ensures x.container in Ids(node)
  {
    if x.container !in Ids(node) {
      PositionOutside(node, x);
    }
  }

  /** Inside the pair: a boundary in child moves behind what prev has. */
  lemma {:induction false} JoinedPosition(prev: Node, child: Node, b: Boundary)
    requires CanMerge(child, prev) && Ids(prev) !! Ids(child)
    ensures Position(prev, b).Some? ==> Position(Joined(prev, child), b) == Position(prev, b)
    ensures Position(child, b).Some? ==>
      Position(Joined(prev, child), Shifted(b, prev, child)) == Some(|Content(prev)| + Position(child, b).value)
  {
    if Position(prev, b).Some? {
      JoinedPositionPrev(prev, child, b);
    }
    if Position(child, b).Some? {
      PositionInside(child, b);
      if b.container == child.id {
        JoinedPositionSeam(prev, child, b.offset);
      } else {
        JoinedPositionBelow(prev, child, b);
      }
    }
  }

  /** The children before the pair, the pair, and the children behind it. */
  function Apart(a: seq<Node>, prev: Node, child: Node, b: seq<Node>): seq<Node> {
    a + [prev, child] + b
  }

  function Together(a: seq<Node>, prev: Node, child: Node, b: seq<Node>): seq<Node>
    requires CanMerge(child, prev)
  {
    a + [Joined(prev, child)] + b
  }

  lemma {:induction false} SplitSums(a: seq<Node>, m: Node, b: seq<Node>)
    ensures ContentAll(a + [m] + b) == ContentAll(a) + Content(m) + ContentAll(b)
    ensures IdsAll(a + [m] + b) == IdsAll(a) + Ids(m) + IdsAll(b)
    ensures CountAll(a + [m] + b) == CountAll(a) + Count(m) + CountAll(b)
    ensures UniqueAll(a + [m] + b) <==> (
      && UniqueAll(a) && Unique(m) && UniqueAll(b)
      && IdsAll(a) !! Ids(m) && IdsAll(a) !! IdsAll(b) && Ids(m) !! IdsAll(b))
  {
    assert [m][1..] == [];
    ContentAllConcat(a + [m], b);
    ContentAllConcat(a, [m]);
    IdsAllConcat(a + [m], b);
    IdsAllConcat(a, [m]);
    CountAllConcat(a + [m], b);
    CountAllConcat(a, [m]);
  }

  lemma {:induction false} SplitPosition(a: seq<Node>, m: Node, b: seq<Node>, x: Boundary)
    requires UniqueAll(a + [m] + b)
    ensures PositionAll(a + [m] + b, x) == SplitPlace(a, m, b, x)
  {
    SplitSums(a, m, b);
    PositionAllConcat(a + [m], b, x);
    PositionAllConcat(a, [m], x);
    PositionAllOne(m, x);
    ContentAllConcat(a, [m]);
    ContentAllOne(m);
    if x.container !in IdsAll(a) { PositionAllOutside(a, x); }
    if x.container !in Ids(m) { PositionOutside(m, x); }
    if x.container !in IdsAll(b) { PositionAllOutside(b, x); }
  }

  function Plus(n: nat, p: Option<nat>): Option<nat> {
    if p.Some? then Some(n + p.value) else None
  }

  function SplitPlace(a: seq<Node>, m: Node, b: seq<Node>, x: Boundary): Option<nat> {
    if x.container in IdsAll(a) then PositionAll(a, x)
    else if x.container in Ids(m) then Plus(|ContentAll(a)|, Position(m, x))
    else Plus(|ContentAll(a)| + |Content(m)|, PositionAll(b, x))
  }

  /** The parts of the list do not share identities. */
  predicate DisjointParts(a: seq<Node>, prev: Node, child: Node, b: seq<Node>) {
    && UniqueAll(a) && Unique(prev) && Unique(child) && UniqueAll(b)
    && IdsAll(a) !! Ids(prev) && IdsAll(a) !! Ids(child) && IdsAll(a) !! IdsAll(b)
    && Ids(prev) !! Ids(child) && Ids(prev) !! IdsAll(b) && Ids(child) !! IdsAll(b)
  }

  lemma {:induction false} ApartSums(a: seq<Node>, prev: Node, child: Node, b: seq<Node>)
    ensures ContentAll(Apart(a, prev, child, b)) == ContentAll(a) + Content(prev) + Content(child) + ContentAll(b)
    ensures IdsAll(Apart(a, prev, child, b)) == IdsAll(a) + Ids(prev) + Ids(child) + IdsAll(b)
    ensures CountAll(Apart(a, prev, child, b)) == CountAll(a) + Count(prev) + Count(child) + CountAll(b)
    ensures UniqueAll(Apart(a, prev, child, b)) <==> DisjointParts(a, prev, child, b)
  {
    var rest := [] + [child] + b;
    assert Apart(a, prev, child, b) == a + [prev] + rest;
    SplitSums(a, prev, rest);
    SplitSums([], child, b);
  }

  lemma {:induction false} TogetherContent(a: seq<Node>, prev: Node, child: Node, b: seq<Node>)
    requires CanMerge(child, prev)
    ensures ContentAll(Together(a, prev, child, b)) == ContentAll(Apart(a, prev, child, b))
    ensures CountAll(Together(a, prev, child, b)) < CountAll(Apart(a, prev, child, b))
  {
    hide ContentAll, IdsAll, PositionAll, UniqueAll, CountAll, Unique, Ids, Content, Count;
    ApartSums(a, prev, child, b);
    SplitSums(a, Joined(prev, child), b);
    JoinedContent(prev, child);
  }

  lemma {:induction false} TogetherIds(a: seq<Node>, prev: Node, child: Node, b: seq<Node>)
    requires CanMerge(child, prev) && DisjointParts(a, prev, child, b)
    ensures UniqueAll(Together(a, prev, child, b))
    ensures IdsAll(Together(a, prev, child, b)) == IdsAll(a) + (Ids(prev) + Ids(child) - {child.id}) + IdsAll(b)
  {
    JoinedContent(prev, child);
    assert Ids(Joined(prev, child)) == Ids(prev) + Ids(child) - {child.id};
    SplitSums(a, Joined(prev, child), b);
  }

  function ApartPlace(a: seq<Node>, prev: Node, child: Node, b: seq<Node>, x: Boundary): Option<nat> {
    if x.container in IdsAll(a) then PositionAll(a, x)
    else if x.container in Ids(prev) then Plus(|ContentAll(a)|, Position(prev, x))
    else if x.container in Ids(child) then Plus(|ContentAll(a)| + |Content(prev)|, Position(child, x))
    else Plus(|ContentAll(a)| + |Content(prev)| + |Content(child)|, PositionAll(b, x))
  }

  lemma {:induction false} ApartPosition(a: seq<Node>, prev: Node, child: Node, b: seq<Node>, x: Boundary)
    requires DisjointParts(a, prev, child, b)
    ensures PositionAll(Apart(a, prev, child, b), x) == ApartPlace(a, prev, child, b, x)
  {
    hide Content, ContentAll, Position, PositionAll, Unique, UniqueAll, Ids, IdsAll;
    var rest := [] + [child] + b;
    assert Apart(a, prev, child, b) == a + [prev] + rest;
    ApartSums(a, prev, child, b);
    SplitSums([], child, b);
    SplitPosition(a, prev, rest, x);
    NothingIn(x);
    UniqueRest(a + [prev], rest);
    SplitPosition([], child, b, x);
  }

  lemma {:induction false} NothingIn(x: Boundary)
    ensures IdsAll([]) == {} && ContentAll([]) == [] && PositionAll([], x).None?
  {}

  lemma {:induction false} UniqueRest(a: seq<Node>, b: seq<Node>)
    requires UniqueAll(a + b)
    ensures UniqueAll(b)
  {
    IdsAllConcat(a, b);
  }

  lemma {:induction false} PositionAllInside(b: seq<Node>, x: Boundary)
    requires PositionAll(b, x).Some?
    ensures x.container in IdsAll(b)
  {
    if x.container !in IdsAll(b) {
      PositionAllOutside(b, x);
    }
  }

  lemma {:induction false} PlacesAgree(a: seq<Node>, prev: Node, child: Node, b: seq<Node>, x: Boundary)
    requires CanMerge(child, prev) && DisjointParts(a, prev, child, b)
    requires ApartPlace(a, prev, child, b, x).Some?
    ensures SplitPlace(a, Joined(prev, child), b, Shifted(x, prev, child)) == ApartPlace(a, prev, child, b, x)
  {
    JoinedContent(prev, child);
    if x.container in Ids(prev) || x.container in Ids(child) {
      JoinedPosition(prev, child, x);
    } else if x.container !in IdsAll(a) {
      PositionAllInside(b, x);
    }
  }

  /** A boundary below the parent, before and after one merge. */
  lemma {:induction false} BelowTracks(a: seq<Node>, prev: Node, child: Node, b: seq<Node>, x: Boundary)
    requires CanMerge(child, prev) && DisjointParts(a, prev, child, b)
    requires PositionAll(Apart(a, prev, child, b), x).Some?
    ensures PositionAll(Together(a, prev, child, b), Shifted(x, prev, child))
      == PositionAll(Apart(a, prev, child, b), x)
  {
    TogetherIds(a, prev, child, b);
    ApartPosition(a, prev, child, b, x);
    SplitPosition(a, Joined(prev, child), b, Shifted(x, prev, child));
    PlacesAgree(a, prev, child, b, x);
  }

  /** A boundary between the children of the parent. */
  lemma {:induction false} BetweenTracks(a: seq<Node>, prev: Node, child: Node, b: seq<Node>, offset: nat)
    requires CanMerge(child, prev) && DisjointParts(a, prev, child, b) && offset <= |a| + 2 + |b|
    ensures offset <= |a| ==>
      ContentAll(Together(a, prev, child, b)[..offset]) == ContentAll(Apart(a, prev, child, b)[..offset])
    ensures offset > |a| + 1 ==>
      ContentAll(Together(a, prev, child, b)[..offset - 1]) == ContentAll(Apart(a, prev, child, b)[..offset])
  {
    hide IdsAll, PositionAll, UniqueAll, ContentAll, Ids, Content, Unique;
    var apart, together := Apart(a, prev, child, b), Together(a, prev, child, b);
    if offset <= |a| {
      assert apart[..offset] == together[..offset];
    } else if offset > |a| + 1 {
      var k := offset - |a| - 2;
      assert apart[..offset] == Apart(a, prev, child, b[..k]);
      assert together[..offset - 1] == a + [Joined(prev, child)] + b[..k];
      ApartSums(a, prev, child, b[..k]);
      SplitSums(a, Joined(prev, child), b[..k]);
      JoinedContent(prev, child);
    }
  }

  lemma {:induction false} StartPosition(node: Node)
    requires !IsLeaf(node)
    ensures Position(node, Boundary(node.id, 0)) == Some(0)
  {
    if node.Element? {
      assert node.kids[..0] == [];
    }
  }

  /** The boundary between the two merged nodes. */
  lemma {:induction false} SeamTracks(a: seq<Node>, prev: Node, child: Node, b: seq<Node>)
    requires CanMerge(child, prev) && DisjointParts(a, prev, child, b)
    ensures PositionAll(Together(a, prev, child, b), Boundary(prev.id, Length(prev)))
      == Some(|ContentAll(Apart(a, prev, child, b)[..|a| + 1])|)
  {
    hide IdsAll, PositionAll, UniqueAll, ContentAll, Content, Unique;
    var end := Boundary(prev.id, Length(prev));
    assert Apart(a, prev, child, b)[..|a| + 1] == a + [prev];
    ContentAllConcat(a, [prev]);
    ContentAllOne(prev);
    JoinedContent(prev, child);
    JoinedPositionSeam(prev, child, 0);
    assert Position(child, Boundary(child.id, 0)) == Some(0) by { StartPosition(child); }
    TogetherIds(a, prev, child, b);
    SplitPosition(a, Joined(prev, child), b, end);
  }

  lemma {:induction false} MergeTracksHere(id: NodeId, tag: Tag, a: seq<Node>, prev: Node, child: Node, b: seq<Node>,
      offset: nat)
    requires CanMerge(child, prev) && DisjointParts(a, prev, child, b) && id !in IdsAll(Apart(a, prev, child, b))
    ensures var x := Boundary(id, offset);
      var now, x' := Element(id, tag, Together(a, prev, child, b)), Moved(x, id, |a| + 1, child, prev);
      Position(Element(id, tag, Apart(a, prev, child, b)), x).Some? ==>
        Position(now, x') == Position(Element(id, tag, Apart(a, prev, child, b)), x)
  {
    hide ContentAll, IdsAll, PositionAll, UniqueAll, Content;
    ApartSums(a, prev, child, b);
    if offset == |a| + 1 {
      SeamTracks(a, prev, child, b);
      assert prev.id in Ids(prev);
    } else if offset <= |Apart(a, prev, child, b)| {
      BetweenTracks(a, prev, child, b, offset);
    }
  }

  lemma {:induction false} MergeTracksBelow(id: NodeId, tag: Tag, a: seq<Node>, prev: Node, child: Node, b: seq<Node>,
      x: Boundary)
    requires CanMerge(child, prev) && DisjointParts(a, prev, child, b) && id !in IdsAll(Apart(a, prev, child, b))
    requires x.container != id
    ensures var now, x' := Element(id, tag, Together(a, prev, child, b)), Moved(x, id, |a| + 1, child, prev);
      Position(Element(id, tag, Apart(a, prev, child, b)), x).Some? ==>
        Position(now, x') == Position(Element(id, tag, Apart(a, prev, child, b)), x)
  {
    ApartSums(a, prev, child, b);
    assert prev.id in Ids(prev);
    if PositionAll(Apart(a, prev, child, b), x).Some? {
      BelowTracks(a, prev, child, b, x);
    }
  }

  /** One merge keeps every boundary at its place. */
  lemma {:induction false} MergeTracks(id: NodeId, tag: Tag, a: seq<Node>, prev: Node, child: Node, b: seq<Node>,
      x: Boundary)
    requires CanMerge(child, prev) && DisjointParts(a, prev, child, b) && id !in IdsAll(Apart(a, prev, child, b))
    ensures Tracks(Element(id, tag, Apart(a, prev, child, b)), x,
                   Element(id, tag, Together(a, prev, child, b)), Moved(x, id, |a| + 1, child, prev))
  {
    ApartSums(a, prev, child, b);
    TogetherIds(a, prev, child, b);
    assert prev.id in Ids(prev) && child.id in Ids(child);
    if x.container == id {
      MergeTracksHere(id, tag, a, prev, child, b, x.offset);
    } else {
      MergeTracksBelow(id, tag, a, prev, child, b, x);
    }
  }

  /** Putting another tree in the place of one child. */
  lemma {:induction false} ReplaceBelow(a: seq<Node>, m: Node, m': Node, b: seq<Node>, x: Boundary, x': Boundary)
    requires UniqueAll(a + [m] + b) && Unique(m')
    requires Ids(m') <= Ids(m) && Content(m') == Content(m) && Tracks(m, x, m', x')
    ensures UniqueAll(a + [m'] + b)
    ensures x.container in IdsAll(a + [m] + b) <==> x'.container in IdsAll(a + [m'] + b)
    ensures x.container !in Ids(m) ==> x' == x
    ensures PositionAll(a + [m] + b, x).Some? ==>
      PositionAll(a + [m'] + b, x') == PositionAll(a + [m] + b, x)
  {
    SplitSums(a, m, b);
    SplitSums(a, m', b);
    SplitPosition(a, m, b, x);
    SplitPosition(a, m', b, x');
  }

  lemma {:induction false} ReplaceBetween(a: seq<Node>, m: Node, m': Node, b: seq<Node>, offset: nat)
    requires Content(m') == Content(m) && offset <= |a| + 1 + |b|
    ensures ContentAll((a + [m'] + b)[..offset]) == ContentAll((a + [m] + b)[..offset])
  {
    if offset <= |a| {
      assert (a + [m] + b)[..offset] == (a + [m'] + b)[..offset];
    } else {
      var k := offset - |a| - 1;
      assert (a + [m] + b)[..offset] == a + [m] + b[..k];
      assert (a + [m'] + b)[..offset] == a + [m'] + b[..k];
      SplitSums(a, m, b[..k]);
      SplitSums(a, m', b[..k]);
    }
  }

  lemma {:induction false} ReplaceTracks(id: NodeId, tag: Tag, a: seq<Node>, m: Node, m': Node, b: seq<Node>,
      x: Boundary, x': Boundary)
    requires Unique(Element(id, tag, a + [m] + b)) && Unique(m')
    requires Ids(m') <= Ids(m) && Content(m') == Content(m) && Tracks(m, x, m', x')
    ensures Unique(Element(id, tag, a + [m'] + b))
    ensures Content(Element(id, tag, a + [m'] + b)) == Content(Element(id, tag, a + [m] + b))
    ensures Tracks(Element(id, tag, a + [m] + b), x, Element(id, tag, a + [m'] + b), x')
  {
    hide ContentAll, IdsAll, PositionAll, UniqueAll;
    ReplaceBelow(a, m, m', b, x, x');
    SplitSums(a, m, b);
    SplitSums(a, m', b);
    if x.container == id && x.offset <= |a| + 1 + |b| {
      ReplaceBetween(a, m, m', b, x.offset);
    }
  }

  // ----- the loop -----

  /** No two neighbours are left to merge, anywhere in the tree. */
  predicate Normal(node: Node) {
    node.Element? ==>
      && (forall i | 0 < i < |node.kids| :: !CanMerge(node.kids[i], node.kids[i - 1]))
      && forall kid | kid in node.kids :: Normal(kid)
  }

  /** No two neighbours anywhere below the node are alike. */
  predicate NoneAlike(node: Node) {
    node.Element? ==>
      && (forall i | 0 < i < |node.kids| :: !Alike(node.kids[i - 1], node.kids[i]))
      && forall kid | kid in node.kids :: NoneAlike(kid)
  }

  lemma {:induction false} NormalExactly(node: Node)
    ensures Normal(node) <==> NoneAlike(node)
    decreases node
  {
    if node.Element? {
      forall i | 0 < i < |node.kids| ensures CanMerge(node.kids[i], node.kids[i - 1])
                                        <==> Alike(node.kids[i - 1], node.kids[i]) {
        CanMergeExactly(node.kids[i], node.kids[i - 1]);
      }
      forall kid | kid in node.kids ensures Normal(kid) <==> NoneAlike(kid) {
        NormalExactly(kid);
      }
      hide CanMerge, Alike;
    }
  }

  /** The children on the stack of fragments, in document order: the last pushed first. */
  function Pending(frags: seq<seq<Node>>): seq<Node> {
    if frags == [] then [] else frags[|frags| - 1] + Pending(frags[..|frags| - 1])
  }

  function WithKids(node: Node, more: seq<Node>): Node {
    match node
    case Text(_, _) => node
    case Element(id, tag, kids) => Element(id, tag, kids + more)
  }

  /** The children as they will be once the fragments have been put back: behind the own
      children of the child that is looked at next. */
  function Virtual(kids: seq<Node>, frags: seq<seq<Node>>, l: nat): seq<Node>
    requires l <= |kids| && (frags != [] ==> l > 0)
  {
    if frags == [] then kids else kids[l - 1 := WithKids(kids[l - 1], Pending(frags))]
  }

  /** The tree that the loop has made of the node so far. */
  ghost predicate SoFar(node: Node, range: Range, now: Node, r: Range) {
    && now.Element? && Unique(now) && Ids(now) <= Ids(node)
    && Content(now) == Content(node) && Count(now) <= Count(node)
    && Tracks(node, range.start, now, r.start) && Tracks(node, range.end, now, r.end)
  }

  function MovedRange(r: Range, parent: NodeId, l: nat, child: Node, prev: Node): Range {
    Range(Moved(r.start, parent, l, child, prev), Moved(r.end, parent, l, child, prev))
  }

  lemma {:induction false} MergeStep(node: Node, range: Range, id: NodeId, tag: Tag, r: Range,
      a: seq<Node>, prev: Node, child: Node, b: seq<Node>)
    requires CanMerge(child, prev)
    requires SoFar(node, range, Element(id, tag, Apart(a, prev, child, b)), r)
    ensures SoFar(node, range, Element(id, tag, Together(a, prev, child, b)), MovedRange(r, id, |a| + 1, child, prev))
  {
    ApartSums(a, prev, child, b);
    TogetherIds(a, prev, child, b);
    TogetherContent(a, prev, child, b);
    MergeTracks(id, tag, a, prev, child, b, r.start);
    MergeTracks(id, tag, a, prev, child, b, r.end);
  }

  lemma {:induction false} RecurseStep(node: Node, range: Range, id: NodeId, tag: Tag, r: Range, r': Range,
      a: seq<Node>, m: Node, m': Node, b: seq<Node>)
    requires SoFar(node, range, Element(id, tag, a + [m] + b), r)
    requires Unique(m') && Ids(m') <= Ids(m) && Content(m') == Content(m) && Count(m') <= Count(m)
    requires Tracks(m, r.start, m', r'.start) && Tracks(m, r.end, m', r'.end)
    ensures SoFar(node, range, Element(id, tag, a + [m'] + b), r')
  {
    SplitSums(a, m, b);
    SplitSums(a, m', b);
    ReplaceTracks(id, tag, a, m, m', b, r.start, r'.start);
    ReplaceTracks(id, tag, a, m, m', b, r.end, r'.end);
  }

  /** The invariant of the loop, before child l - 1 is looked at. */
  ghost predicate LoopInv(node: Node, range: Range, kids: seq<Node>, frags: seq<seq<Node>>, l: nat, r: Range) {
    && node.Element? && l <= |kids|
    && (frags != [] ==> l > 0 && kids[l - 1].Element?)
    && SoFar(node, range, Element(node.id, node.tag, Virtual(kids, frags, l)), r)
  }

  /** The children behind the next one are finished. */
  ghost predicate Finished(kids: seq<Node>, l: nat) {
    && (forall i | l <= i < |kids| :: Normal(kids[i]))
    && forall i | l <= i < |kids| && 0 < i :: !CanMerge(kids[i], kids[i - 1])
  }

  function MergedKids(kids: seq<Node>, l: nat): seq<Node>
    requires 0 < l < |kids| && CanMerge(kids[l], kids[l - 1])
  {
    var prev, child := kids[l - 1], kids[l];
    var rest := kids[..l] + kids[l + 1..];
    if child.Text? then rest[l - 1 := Text(prev.id, prev.data + child.data)] else rest
  }

  function MergedFrags(kids: seq<Node>, frags: seq<seq<Node>>, l: nat): seq<seq<Node>>
    requires l < |kids|
  {
    if kids[l].Text? then frags else frags + [kids[l].kids]
  }

  lemma {:induction false} MergeBranch(node: Node, range: Range, kids: seq<Node>, frags: seq<seq<Node>>, l: nat,
      r: Range)
    requires 0 < l < |kids| && CanMerge(kids[l], kids[l - 1])
    requires LoopInv(node, range, kids, frags, l + 1, r)
    ensures LoopInv(node, range, MergedKids(kids, l), MergedFrags(kids, frags, l), l,
                    MovedRange(r, node.id, l, kids[l], kids[l - 1]))
  {
    hide SoFar, MergedKids, Virtual, Pending, WithKids, Together, Apart, MovedRange;
    var prev, child := kids[l - 1], kids[l];
    var a, b := kids[..l - 1], kids[l + 1..];
    var whole := if frags == [] then child else WithKids(child, Pending(frags));
    VirtualIsApart(kids, frags, l);
    MergeStep(node, range, node.id, node.tag, r, a, prev, whole, b);
    assert |a| + 1 == l;
    if child.Text? {
      MergedText(kids, frags, l);
    } else {
      MergedElement(kids, frags, l);
    }
    MovedAlike(r, node.id, l, child, whole, prev);
  }

  lemma {:induction false} VirtualIsApart(kids: seq<Node>, frags: seq<seq<Node>>, l: nat)
    requires 0 < l < |kids| && CanMerge(kids[l], kids[l - 1]) && (frags != [] ==> kids[l].Element?)
    ensures var whole := if frags == [] then kids[l] else WithKids(kids[l], Pending(frags));
            && whole.id == kids[l].id && CanMerge(whole, kids[l - 1])
            && Virtual(kids, frags, l + 1) == Apart(kids[..l - 1], kids[l - 1], whole, kids[l + 1..])
  {}

  /** The boundary updates look at the identity of the child only. */
  lemma {:induction false} MovedAlike(r: Range, parent: NodeId, l: nat, child: Node, whole: Node, prev: Node)
    requires child.id == whole.id
    ensures MovedRange(r, parent, l, child, prev) == MovedRange(r, parent, l, whole, prev)
  {}

  lemma {:induction false} MergedText(kids: seq<Node>, frags: seq<seq<Node>>, l: nat)
    requires 0 < l < |kids| && CanMerge(kids[l], kids[l - 1]) && kids[l].Text? && frags == []
    ensures l <= |MergedKids(kids, l)| && MergedFrags(kids, frags, l) == []
    ensures Virtual(MergedKids(kids, l), MergedFrags(kids, frags, l), l)
         == Together(kids[..l - 1], kids[l - 1], kids[l], kids[l + 1..])
  {}

  lemma {:induction false} MergedElement(kids: seq<Node>, frags: seq<seq<Node>>, l: nat)
    requires 0 < l < |kids| && CanMerge(kids[l], kids[l - 1]) && kids[l].Element?
    ensures var whole := if frags == [] then kids[l] else WithKids(kids[l], Pending(frags));
            && whole.id == kids[l].id && CanMerge(whole, kids[l - 1])
            && l <= |MergedKids(kids, l)| && MergedKids(kids, l)[l - 1].Element?
            && Virtual(MergedKids(kids, l), MergedFrags(kids, frags, l), l)
               == Together(kids[..l - 1], kids[l - 1], whole, kids[l + 1..])
  {
    PushFragment(kids[l], frags);
    var prev, whole := kids[l - 1], if frags == [] then kids[l] else WithKids(kids[l], Pending(frags));
    assert WithKids(prev, Pending(MergedFrags(kids, frags, l))).kids == prev.kids + whole.kids;
  }

  lemma {:induction false} PushFragment(child: Node, frags: seq<seq<Node>>)
    requires child.Element?
    ensures Pending(frags + [child.kids]) == (if frags == [] then child else WithKids(child, Pending(frags))).kids
  {
    var pushed := frags + [child.kids];
    assert pushed[..|pushed| - 1] == frags;
    if frags == [] {
      assert child.kids + [] == child.kids;
    }
  }

  lemma {:induction false} MergeFinished(kids: seq<Node>, l: nat)
    requires 0 < l < |kids| && CanMerge(kids[l], kids[l - 1]) && Finished(kids, l + 1)
    ensures Finished(MergedKids(kids, l), l)
  {
    var kids' := MergedKids(kids, l);
    forall i | l <= i < |kids'|
      ensures Normal(kids'[i]) && !CanMerge(kids'[i], kids'[i - 1])
    {
      assert kids'[i] == kids[i + 1];
    }
  }

  lemma {:induction false} RecurseBranch(node: Node, range: Range, kids: seq<Node>, frags: seq<seq<Node>>, l: nat,
      r: Range, whole: Node, merged: Node, r': Range)
    requires l < |kids| && kids[l].Element? && LoopInv(node, range, kids, frags, l + 1, r)
    requires whole == WithKids(kids[l], Pending(frags))
    requires Unique(merged) && Ids(merged) <= Ids(whole) && Content(merged) == Content(whole)
    requires Count(merged) <= Count(whole)
    requires Tracks(whole, r.start, merged, r'.start) && Tracks(whole, r.end, merged, r'.end)
    ensures LoopInv(node, range, kids[l := merged], [], l, r')
  {
    var a, b := kids[..l], kids[l + 1..];
    assert kids[l].kids + [] == kids[l].kids;
    assert Virtual(kids, frags, l + 1) == a + [whole] + b;
    RecurseStep(node, range, node.id, node.tag, r, r', a, whole, merged, b);
    assert kids[l := merged] == a + [merged] + b;
  }

  lemma {:induction false} WholeChild(node: Node, range: Range, kids: seq<Node>, frags: seq<seq<Node>>, l: nat,
      r: Range)
    requires l < |kids| && kids[l].Element? && LoopInv(node, range, kids, frags, l + 1, r)
    ensures Unique(WithKids(kids[l], Pending(frags))) && Count(WithKids(kids[l], Pending(frags))) < Count(node)
  {
    var a, b := kids[..l], kids[l + 1..];
    var whole := WithKids(kids[l], Pending(frags));
    assert kids[l].kids + [] == kids[l].kids;
    assert Virtual(kids, frags, l + 1) == a + [whole] + b;
    SplitSums(a, whole, b);
  }

  lemma {:induction false} LoopStart(node: Node, range: Range)
    requires node.Element? && Unique(node)
    ensures LoopInv(node, range, node.kids, [], |node.kids|, range) && Finished(node.kids, |node.kids|)
  {}

  lemma {:induction false} LoopEnd(node: Node, range: Range, kids: seq<Node>, frags: seq<seq<Node>>, r: Range)
    requires LoopInv(node, range, kids, frags, 0, r) && Finished(kids, 0)
    ensures var node' := Element(node.id, node.tag, kids);
      && SameKind(node', node) && Content(node') == Content(node)
      && Tracks(node, range.start, node', r.start) && Tracks(node, range.end, node', r.end)
      && Normal(node') && Unique(node') && Ids(node') <= Ids(node) && Count(node') <= Count(node)
  {}

  lemma {:induction false} RecurseFinished(kids: seq<Node>, l: nat, merged: Node)
    requires l < |kids| && Finished(kids, l + 1) && Normal(merged) && SameKind(merged, kids[l])
    requires 0 < l ==> !CanMerge(kids[l], kids[l - 1])
    ensures Finished(kids[l := merged], l)
  {}

  lemma {:induction false} TextFinished(node: Node, range: Range, kids: seq<Node>, frags: seq<seq<Node>>, l: nat,
      r: Range)
    requires l < |kids| && kids[l].Text? && Finished(kids, l + 1)
    requires LoopInv(node, range, kids, frags, l + 1, r)
    requires 0 < l ==> !CanMerge(kids[l], kids[l - 1])
    ensures Finished(kids, l) && LoopInv(node, range, kids, frags, l, r)
  {}

  lemma {:induction false} NormalHasNothingToMerge(node: Node, l: nat)
    requires node.Element? && Normal(node) && l < |node.kids|
    ensures 0 < l ==> !CanMerge(node.kids[l], node.kids[l - 1])
    ensures Normal(node.kids[l])
    ensures node.kids[l].Element? ==> WithKids(node.kids[l], Pending([])) == node.kids[l]
  {
    if node.kids[l].Element? {
      assert node.kids[l].kids + [] == node.kids[l].kids;
    }
  }

  /** The fragments go back in left-to-right order. */
  method PutBack(child: Node, frags: seq<seq<Node>>) returns (whole: Node)
    requires child.Element?
    ensures whole == WithKids(child, Pending(frags))
  {
    whole := child;
    var rest := frags;
    while |rest| > 0
      invariant whole.Element? && WithKids(whole, Pending(rest)) == WithKids(child, Pending(frags))
    {
      var last := rest[|rest| - 1];
      ghost var below := Pending(rest[..|rest| - 1]);
      assert whole.kids + (last + below) == (whole.kids + last) + below;
      whole := whole.(kids := whole.kids + last);
      rest := rest[..|rest| - 1];
    }
    assert whole.kids + [] == whole.kids;
  }

  lemma {:induction false} TextIsNormal(node: Node, range: Range)
    requires node.Text?
    ensures Normal(node) && Tracks(node, range.start, node, range.start) && Tracks(node, range.end, node, range.end)
  {}

  /** The tree keeps its content, each character in the same formatting; the range keeps its
      place; afterwards no alike inline neighbours are left anywhere, and a tree without any
      is not changed, so that merging again changes nothing. */
  method MergeInlines(node: Node, range: Range) returns (node': Node, range': Range)
    requires Unique(node)
    ensures SameKind(node', node)
    ensures Content(node') == Content(node)
    ensures Tracks(node, range.start, node', range'.start)
    ensures Tracks(node, range.end, node', range'.end)
    ensures Normal(node') && NoneAlike(node')
    ensures Normal(node) ==> node' == node && range' == range
    ensures NoneAlike(node) ==> node' == node && range' == range
    ensures Unique(node') && Ids(node') <= Ids(node) && Count(node') <= Count(node)
    decreases Count(node)
  {
    hide LoopInv, SoFar, Finished, Virtual, Tracks, Content, Unique, Ids, Count, Pending, Normal, NoneAlike,
         MovedRange;
    NormalExactly(node);
    if node.Text? {
      TextIsNormal(node, range);
      return node, range;
    }
    LoopStart(node, range);
    var kids := node.kids;
    var r := range;
    var frags: seq<seq<Node>> := [];
    var l: nat := |kids|;
    while l > 0
      invariant l <= |kids|
      invariant LoopInv(node, range, kids, frags, l, r)
      invariant Finished(kids, l)
      invariant Normal(node) ==> kids == node.kids && frags == [] && r == range
    {
      l := l - 1;
      var child := kids[l];
      if Normal(node) {
        NormalHasNothingToMerge(node, l);
      }
      if l > 0 && CanMerge(child, kids[l - 1]) {
        MergeBranch(node, range, kids, frags, l, r);
        MergeFinished(kids, l);
        r := MovedRange(r, node.id, l, child, kids[l - 1]);
        kids, frags := MergedKids(kids, l), MergedFrags(kids, frags, l);
      } else if child.Element? {
        var whole := PutBack(child, frags);
        WholeChild(node, range, kids, frags, l, r);
        var merged, r' := MergeInlines(whole, r);
        RecurseBranch(node, range, kids, frags, l, r, whole, merged, r');
        RecurseFinished(kids, l, merged);
        frags, r := [], r';
        kids := kids[l := merged];
      } else {
        TextFinished(node, range, kids, frags, l, r);
      }
    }
    LoopEnd(node, range, kids, frags, r);
    node' := Element(node.id, node.tag, kids);
    range' := r;
    NormalExactly(node');
  }
}
