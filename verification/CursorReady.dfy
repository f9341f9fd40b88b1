/** What fixCursor (war/components/Squire/squire-raw.js:332-402) is for: after it an element can take
    the cursor. So can both halves of every element that split goes through. */
module CursorReady {
  import opened Dom
  import opened SplitTree

  // ----- line breaks by path -----

  /** The node at the path below the root is a BR. */
  predicate BreakAt(node: Node, w: Path) {
    w != [] && HasNode(node, w) && NodeAt(node, w).Element? && NodeAt(node, w).tag.name == "BR"
  }

  ghost predicate HoldsBreak(node: Node) {
    exists w :: BreakAt(node, w)
  }

  lemma {:induction false} BreakBelow(node: Node, i: nat, w: Path)
    requires node.Element? && i < |node.kids| && BreakAt(node.kids[i], w)
    ensures BreakAt(node, [i] + w)
  {
    assert ([i] + w)[1..] == w;
  }

  lemma {:induction false} HasBRExactly(node: Node)
    ensures HasBR(node) <==> HoldsBreak(node)
    decreases node
  {
    if HasBR(node) {
      var k :| k in node.kids && ((k.Element? && k.tag.name == "BR") || HasBR(k));
      var i :| 0 <= i < |node.kids| && node.kids[i] == k;
      if k.Element? && k.tag.name == "BR" {
        BreakHere(node, i);
      } else {
        HasBRExactly(k);
        var w :| BreakAt(k, w);
        BreakBelow(node, i, w);
      }
    }
    if w :| BreakAt(node, w) {
      BreakFound(node, w);
    }
  }

  lemma {:induction false} BreakFound(node: Node, w: Path)
    requires BreakAt(node, w)
    ensures HasBR(node)
    decreases w
  {
    var kid := node.kids[w[0]];
    assert kid in node.kids;
    if |w| > 1 {
      BreakFound(kid, w[1..]);
    }
  }

  // ----- fixCursor -----

  /** An element that can take the cursor: an inline one has a child, in WebKit not an empty text
      first; a block has a line break. */
  ghost predicate Ready(cfg: Config, node: Node) {
    node.Element? &&
    if IsInline(node) then
      node.kids != [] && (cfg.cantFocusEmptyTextNodes ==> !(node.kids[0].Text? && node.kids[0].data == ""))
    else HoldsBreak(node)
  }

  /** The child at index i is the last one that is an element. */
  predicate LastElementAt(kids: seq<Node>, i: nat) {
    i < |kids| && kids[i].Element? && forall j | i < j < |kids| :: kids[j].Text?
  }

  /** The path goes down by last elements that are blocks, as far as there are any. */
  ghost predicate LastBlockAt(node: Node, w: Path)
    decreases w
  {
    node.Element? &&
    if w == [] then forall i: nat | LastElementAt(node.kids, i) :: IsInline(node.kids[i])
    else LastElementAt(node.kids, w[0]) && !IsInline(node.kids[w[0]]) && LastBlockAt(node.kids[w[0]], w[1..])
  }

  /** The tree with a line break as last child of the node at the path. */
  function WithBreak(node: Node, w: Path): Node
    requires HasNode(node, w) && NodeAt(node, w).Element?
    decreases w
  {
    if w == [] then Element(node.id, node.tag, node.kids + [LINE_BREAK])
    else Element(node.id, node.tag, node.kids[w[0] := WithBreak(node.kids[w[0]], w[1..])])
  }

  lemma {:induction false} LastElementFound(kids: seq<Node>)
    ensures var i := LastElement(kids);
      && (i < |kids| ==> LastElementAt(kids, i))
      && (i == |kids| ==> forall j | 0 <= j < |kids| :: kids[j].Text?)
    decreases |kids|
  {
    if kids != [] && kids[|kids| - 1].Text? {
      LastElementFound(kids[..|kids| - 1]);
    }
  }

  lemma {:induction false} AppendsBreak(node: Node) returns (w: Path)
    requires node.Element?
    ensures LastBlockAt(node, w) && HasNode(node, w) && NodeAt(node, w).Element?
    ensures AppendBR(node) == WithBreak(node, w)
    decreases node
  {
    LastElementFound(node.kids);
    var i := LastElement(node.kids);
    if i < |node.kids| && !IsInline(node.kids[i]) {
      var v := AppendsBreak(node.kids[i]);
      w := [i] + v;
      assert w[1..] == v;
    } else {
      w := [];
      assert forall j: nat | LastElementAt(node.kids, j) :: j == i && i < |node.kids|;
    }
  }

  lemma {:induction false} BreakHere(node: Node, i: nat)
    requires node.Element? && i < |node.kids| && node.kids[i].Element? && node.kids[i].tag.name == "BR"
    ensures HoldsBreak(node)
  {
    NodeBelow(node, i, []);
    assert [i] + [] == [i];
    assert BreakAt(node, [i]);
  }

  lemma {:induction false} BreakIsThere(node: Node, w: Path)
    requires HasNode(node, w) && NodeAt(node, w).Element?
    ensures HoldsBreak(WithBreak(node, w))
    decreases w
  {
    var node' := WithBreak(node, w);
    if w == [] {
      BreakHere(node', |node.kids|);
    } else {
      BreakIsThere(node.kids[w[0]], w[1..]);
      var v :| BreakAt(node'.kids[w[0]], v);
      BreakBelow(node', w[0], v);
    }
  }

  /** A block with a line break stays as it is; any other gets one, as the last child of the last
      block at its end. */
  lemma {:induction false} BlockFixed(cfg: Config, node: Node) returns (w: Path)
    requires node.Element? && !IsInline(node)
    ensures HoldsBreak(node) ==> FixCursor(cfg, node) == node
    ensures !HoldsBreak(node) ==>
      LastBlockAt(node, w) && HasNode(node, w) && NodeAt(node, w).Element? && FixCursor(cfg, node) == WithBreak(node, w)
    ensures HoldsBreak(FixCursor(cfg, node))
  {
    HasBRExactly(node);
    w := AppendsBreak(node);
    BreakIsThere(node, w);
  }

  /** An inline element loses its leading empty texts in WebKit, and gets a text when nothing is
      left: a zero-width space in WebKit, an empty one in other browsers. */
  lemma {:induction false} InlineFixed(cfg: Config, node: Node) returns (d: nat)
    requires node.Element? && IsInline(node)
    ensures d <= |node.kids| && (!cfg.cantFocusEmptyTextNodes ==> d == 0)
    ensures forall i | 0 <= i < d :: node.kids[i].Text? && node.kids[i].data == ""
    ensures cfg.cantFocusEmptyTextNodes && d < |node.kids| ==> !(node.kids[d].Text? && node.kids[d].data == "")
    ensures FixCursor(cfg, node).tag == node.tag && FixCursor(cfg, node).kids
         == if d < |node.kids| then node.kids[d..]
            else if cfg.cantFocusEmptyTextNodes then [Text(0, ['\U{200B}'])] else [Text(0, "")]
  {
    d := 0;
    if cfg.cantFocusEmptyTextNodes {
      d := LeadingEmpty(node.kids);
    }
  }

  lemma {:induction false} LeadingEmpty(kids: seq<Node>) returns (d: nat)
    ensures d <= |kids| && DropEmptyTexts(kids) == kids[d..]
    ensures forall i | 0 <= i < d :: kids[i].Text? && kids[i].data == ""
    ensures d < |kids| ==> !(kids[d].Text? && kids[d].data == "")
  {
    if kids != [] && EmptyText(kids[0]) {
      var e := LeadingEmpty(kids[1..]);
      d := e + 1;
      assert forall i | 0 < i < d :: kids[i] == kids[1..][i - 1];
    } else {
      d := 0;
    }
  }

  /** After fixCursor the element can take the cursor. */
  lemma {:induction false} FixedIsReady(cfg: Config, node: Node)
    requires node.Element?
    ensures Ready(cfg, FixCursor(cfg, node))
  {
    if IsInline(node) {
      var d := InlineFixed(cfg, node);
    } else {
      var w := BlockFixed(cfg, node);
    }
  }

  // ----- split -----

  /** Both halves of an element that one round of split goes through can take the cursor. */
  lemma {:induction false} HalvesReady(cfg: Config, node: Node, p: Path, o: nat)
    requires p != [] && ValidPlace(node, p, o) && HasNode(node, p) && NodeAt(node, p).Element?
    ensures var node', q, i := SplitAt(cfg, node, p, o), p[..|p| - 1], p[|p| - 1];
      && HasNode(node', q + [i]) && Ready(cfg, NodeAt(node', q + [i]))
      && HasNode(node', q + [i + 1]) && Ready(cfg, NodeAt(node', q + [i + 1]))
    decreases p
  {
    hide Ready, FixCursor, LeftHalf, RightHalf;
    var node', i := SplitAt(cfg, node, p, o), p[0];
    if |p| == 1 {
      assert p == [i] && [] + [i] == [i] && [] + [i + 1] == [i + 1];
      HalvesAt(cfg, node, i, o);
    } else {
      SplitInKid(cfg, node, p, o);
      HalvesReady(cfg, node.kids[i], p[1..], o);
      var v, j := p[1..][..|p| - 2], p[|p| - 1];
      hide SplitAt, HasNode, NodeAt;
      NodeBelow(node', i, v + [j]);
      NodeBelow(node', i, v + [j + 1]);
      assert p[..|p| - 1] == [i] + v;
      assert p[..|p| - 1] + [j] == [i] + (v + [j]) && p[..|p| - 1] + [j + 1] == [i] + (v + [j + 1]);
    }
  }

  lemma {:induction false} HalvesAt(cfg: Config, node: Node, i: nat, o: nat)
    requires ValidPlace(node, [i], o) && i < |node.kids| && node.kids[i].Element?
    ensures var node' := SplitAt(cfg, node, [i], o);
      && HasNode(node', [i]) && Ready(cfg, NodeAt(node', [i]))
      && HasNode(node', [i + 1]) && Ready(cfg, NodeAt(node', [i + 1]))
  {
    assert [i][1..] == [] && [i + 1][1..] == [];
    var kid := node.kids[i];
    hide FixCursor, Ready;
    FixedIsReady(cfg, Kept(kid, o));
    FixedIsReady(cfg, Given(kid, o));
    var node' := SplitAt(cfg, node, [i], o);
    assert node'.kids[i] == FixCursor(cfg, Kept(kid, o)) && node'.kids[i + 1] == FixCursor(cfg, Given(kid, o));
  }

  /** From the child at index r on, n elements that can take the cursor are each the first child of
      the one before: the clones that split has made. */
  ghost predicate ClonesReady(cfg: Config, node: Node, r: nat, n: nat)
    decreases n
  {
    n > 0 ==> node.Element? && r < |node.kids| && Ready(cfg, node.kids[r]) && ClonesReady(cfg, node.kids[r], 0, n - 1)
  }

  /** Before the child at index r, with nothing but new line breaks between, n elements that can
      take the cursor are each the last child of the one before: the nodes that split has cut. */
  ghost predicate CutReady(cfg: Config, node: Node, r: nat, n: nat)
    decreases n
  {
    n > 0 ==> node.Element? && exists j: nat ::
      CutAt(cfg, node, r, j) && CutReady(cfg, node.kids[j], |node.kids[j].kids|, n - 1)
  }

  ghost predicate CutAt(cfg: Config, node: Node, r: nat, j: nat)
    requires node.Element?
  {
    && j < r && j < |node.kids| && Ready(cfg, node.kids[j])
    && forall i | j < i < r && i < |node.kids| :: node.kids[i] == LINE_BREAK
  }

  /** The element that is split takes the clones made in it into its own clone, in front. */
  lemma {:induction false} CloneKeeps(cfg: Config, x: Node, o: nat, n: nat)
    requires x.Element? && ClonesReady(cfg, x, o, n)
    ensures ClonesReady(cfg, FixCursor(cfg, Given(x, o)), 0, n)
  {
    if n > 0 {
      var y, kid := Given(x, o), x.kids[o];
      assert y.kids[0] == kid;
      if IsInline(y) {
        assert DropEmptyTexts(y.kids) == y.kids;
      } else if !HasBR(y) {
        ReadyInside(cfg, y, 0);
        LastElementFound(y.kids);
        assert FixCursor(cfg, y).kids[0] == kid;
      }
    }
  }

  /** A child that can take the cursor is inline, or the node holds a line break. */
  lemma {:induction false} ReadyInside(cfg: Config, y: Node, j: nat)
    requires y.Element? && j < |y.kids| && Ready(cfg, y.kids[j]) && !HasBR(y)
    ensures IsInline(y.kids[j])
  {
    assert y.kids[j] in y.kids;
    if !IsInline(y.kids[j]) {
      HasBRExactly(y.kids[j]);
    }
  }

  lemma {:induction false} NoBreak(y: Node, j: nat)
    requires y.Element? && j < |y.kids| && !HasBR(y)
    ensures y.kids[j] != LINE_BREAK
  {
    assert y.kids[j] in y.kids;
  }

  /** And it keeps the nodes cut in it, at its end. */
  lemma {:induction false} CutKeeps(cfg: Config, x: Node, o: nat, n: nat)
    requires x.Element? && CutReady(cfg, x, o, n)
    ensures var left := FixCursor(cfg, Kept(x, o)); CutReady(cfg, left, |left.kids|, n)
  {
    if n > 0 {
      var j: nat :| CutAt(cfg, x, o, j) && CutReady(cfg, x.kids[j], |x.kids[j].kids|, n - 1);
      var i := CutStays(cfg, x, o, j);
    }
  }

  lemma {:induction false} CutStays(cfg: Config, x: Node, o: nat, j: nat) returns (i: nat)
    requires x.Element? && CutAt(cfg, x, o, j)
    ensures var left := FixCursor(cfg, Kept(x, o)); CutAt(cfg, left, |left.kids|, i) && left.kids[i] == x.kids[j]
  {
    hide Ready;
    var y, left := Kept(x, o), FixCursor(cfg, Kept(x, o));
    assert y.kids[j] == x.kids[j] && x.kids[j].Element? by {
      ReadyIsElement(cfg, x.kids[j]);
    }
    i := j;
    if IsInline(y) {
      if cfg.cantFocusEmptyTextNodes {
        DropsBefore(y.kids, j);
        i := j - (|y.kids| - |DropEmptyTexts(y.kids)|);
      }
    } else if !HasBR(y) {
      BreakBehind(cfg, y, j);
    }
  }

  lemma {:induction false} ReadyIsElement(cfg: Config, node: Node)
    requires Ready(cfg, node)
    ensures node.Element?
  {}

  /** Empty texts are dropped in front of any element only. */
  lemma {:induction false} DropsBefore(kids: seq<Node>, j: nat)
    requires j < |kids| && kids[j].Element?
    ensures |kids| - |DropEmptyTexts(kids)| <= j
    ensures DropEmptyTexts(kids) == kids[|kids| - |DropEmptyTexts(kids)|..]
    decreases kids
  {
    if EmptyText(kids[0]) {
      DropsBefore(kids[1..], j - 1);
    }
  }

  lemma {:induction false} BreakBehind(cfg: Config, y: Node, j: nat)
    requires y.Element? && j < |y.kids| && Ready(cfg, y.kids[j]) && !HasBR(y)
    requires forall i | j < i < |y.kids| :: y.kids[i] == LINE_BREAK
    ensures AppendBR(y).kids == y.kids + [LINE_BREAK]
  {
    ReadyInside(cfg, y, j);
    if j + 1 < |y.kids| {
      NoBreak(y, j + 1);
    }
    LastElementFound(y.kids);
  }

  /** One round makes both rows longer by one, when it goes through an element. */
  lemma {:induction false} RoundReady(cfg: Config, node: Node, p: Path, o: nat, n: nat)
    requires p != [] && ValidPlace(node, p, o) && HasNode(node, p)
    requires NodeAt(node, p).Element? && ClonesReady(cfg, NodeAt(node, p), o, n) && CutReady(cfg, NodeAt(node, p), o, n)
    ensures var node', q, r := SplitAt(cfg, node, p, o), UpPath(p), UpOffset(p);
      && HasNode(node', q) && ClonesReady(cfg, NodeAt(node', q), r, n + 1) && CutReady(cfg, NodeAt(node', q), r, n + 1)
    decreases p
  {
    var node', i := SplitAt(cfg, node, p, o), p[0];
    if |p| == 1 {
      assert p == [i] && UpPath(p) == [];
      RowsLonger(cfg, node, i, o, n);
    } else {
      SplitInKid(cfg, node, p, o);
      RoundReady(cfg, node.kids[i], p[1..], o, n);
      assert UpPath(p)[1..] == UpPath(p[1..]) && UpPath(p)[0] == i;
    }
  }

  lemma {:induction false} RowsLonger(cfg: Config, node: Node, i: nat, o: nat, n: nat)
    requires ValidPlace(node, [i], o) && i < |node.kids| && node.kids[i].Element?
    requires ClonesReady(cfg, node.kids[i], o, n) && CutReady(cfg, node.kids[i], o, n)
    ensures var node' := SplitAt(cfg, node, [i], o);
      ClonesReady(cfg, node', i + 1, n + 1) && CutReady(cfg, node', i + 1, n + 1)
  {
    var x, node' := node.kids[i], SplitAt(cfg, node, [i], o);
    assert [i][1..] == [];
    hide FixCursor, Ready;
    assert node'.kids[i] == FixCursor(cfg, Kept(x, o)) && node'.kids[i + 1] == FixCursor(cfg, Given(x, o));
    CloneKeeps(cfg, x, o, n);
    CutKeeps(cfg, x, o, n);
    FixedIsReady(cfg, Kept(x, o));
    FixedIsReady(cfg, Given(x, o));
    assert CutAt(cfg, node', i + 1, i);
  }

  /** The rounds from an element on. */
  lemma {:induction false} RowsGrow(cfg: Config, stop: Node, p: Path, o: nat, n: nat)
    requires stop.Element? && ValidPlace(stop, p, o) && HasNode(stop, p) && NodeAt(stop, p).Element?
    requires ClonesReady(cfg, NodeAt(stop, p), o, n) && CutReady(cfg, NodeAt(stop, p), o, n)
    ensures var (stop', k) := SplitUp(cfg, stop, p, o);
      ClonesReady(cfg, stop', k, n + |p|) && CutReady(cfg, stop', k, n + |p|)
    decreases |p|
  {
    if p == [] {
      RowsAtCut(cfg, stop, o, n);
    } else {
      SplitAtKeepsPlace(cfg, stop, p, o);
      SplitAtTag(cfg, stop, p, o);
      RoundReady(cfg, stop, p, o, n);
      UpIsElement(cfg, stop, p, o);
      RowsGrow(cfg, SplitAt(cfg, stop, p, o), UpPath(p), UpOffset(p), n + 1);
    }
  }

  lemma {:induction false} RowsAtCut(cfg: Config, stop: Node, o: nat, n: nat)
    requires stop.Element? && ClonesReady(cfg, stop, o, n) && CutReady(cfg, stop, o, n)
    ensures ClonesReady(cfg, stop, Cut(stop.kids, o), n) && CutReady(cfg, stop, Cut(stop.kids, o), n)
  {
    if n > 0 {
      var j: nat :| CutAt(cfg, stop, o, j) && CutReady(cfg, stop.kids[j], |stop.kids[j].kids|, n - 1);
      assert CutAt(cfg, stop, Cut(stop.kids, o), j);
    }
  }

  lemma {:induction false} UpIsElement(cfg: Config, node: Node, p: Path, o: nat)
    requires p != [] && ValidPlace(node, p, o)
    ensures HasNode(SplitAt(cfg, node, p, o), UpPath(p)) && NodeAt(SplitAt(cfg, node, p, o), UpPath(p)).Element?
    decreases p
  {
    if |p| > 1 {
      SplitInKid(cfg, node, p, o);
      UpIsElement(cfg, node.kids[p[0]], p[1..], o);
      assert UpPath(p)[1..] == UpPath(p[1..]) && UpPath(p)[0] == p[0];
    }
  }

  /** After the whole split all elements that it has gone through can take the cursor, those that
      it has cut and their clones: as many as there are elements on the way up from the place to
      the stop node. */
  lemma {:induction false} SplitReady(cfg: Config, stop: Node, p: Path, o: nat)
    requires stop.Element? && ValidPlace(stop, p, o)
    ensures HasNode(stop, p)
    ensures var (stop', k), n := SplitUp(cfg, stop, p, o), if NodeAt(stop, p).Text? then |p| - 1 else |p|;
      ClonesReady(cfg, stop', k, n) && CutReady(cfg, stop', k, n)
  {
    PlaceHasNode(stop, p, o);
    if NodeAt(stop, p).Element? {
      RowsGrow(cfg, stop, p, o, 0);
    } else {
      SplitAtKeepsPlace(cfg, stop, p, o);
      SplitAtTag(cfg, stop, p, o);
      UpIsElement(cfg, stop, p, o);
      RowsGrow(cfg, SplitAt(cfg, stop, p, o), UpPath(p), UpOffset(p), 0);
    }
  }
}
