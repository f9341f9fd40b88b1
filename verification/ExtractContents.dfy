/** extractContentsOfRange of Squire (war/components/Squire/squire-raw.js:717-767): the end of
    the range is split before the start, the nodes between are moved out. */
module ExtractContents {
  import opened Dom
  import opened Wrappers
  import opened SplitTree
  import opened SplitConserves
  import opened FixCursorPlaces
  import opened RangeStart
  import opened CursorReady

  // ----- the last fixCursor, and where the collapsed range ends up -----

  const DEFAULT_BLOCK: Node := Element(0, Tag("DIV", "", ""), [LINE_BREAK])

  /** A BR holds nothing. */
  predicate IsLineBreak(node: Node) {
    node.Element? && node.tag.name == "BR" && node.kids == []
  }

  /** fixCursor on the common ancestor, which can be the body. */
  function FixRoot(cfg: Config, node: Node): Node
    requires node.Element?
  {
    if node.tag.name == "BODY" && node.kids == [] then
      Element(node.id, node.tag, [DEFAULT_BLOCK])
    else if node.tag.name == "BODY" && IsLineBreak(node.kids[0]) then
      Element(node.id, node.tag, node.kids[0 := DEFAULT_BLOCK])
    else
      FixCursor(cfg, node)
  }

  predicate BodyOfBlocks(node: Node) {
    node.Element? && node.tag.name == "BODY" && (node.kids == [] || IsLineBreak(node.kids[0]))
  }

  /** Where a range at the place is then: it follows the empty texts that are taken away, and a
      line break that is replaced is removed before its replacement comes. */
  function RootRange(cfg: Config, node: Node, p: Path, o: nat): (Path, nat)
    requires node.Element?
  {
    if BodyOfBlocks(node) then (p, if node.kids != [] && p == [] && o == 1 then 0 else o)
    else Rebase(p, o, Dropped(cfg, node))
  }

  /** Afterwards the common ancestor can take the cursor; a body begins with a block: a new one when
      it was empty or began with a line break. A range right behind that line break goes before the
      new block. */
  lemma {:induction false} RootReady(cfg: Config, node: Node)
    requires node.Element?
    ensures Ready(cfg, FixRoot(cfg, node))
    ensures node.tag.name == "BODY" ==>
      var kids, block := FixRoot(cfg, node).kids, Element(0, Tag("DIV", "", ""), [LINE_BREAK]);
      && kids != [] && !IsLineBreak(kids[0])
      && (node.kids == [] ==> kids == [block])
      && (node.kids != [] && IsLineBreak(node.kids[0]) ==> kids == [block] + node.kids[1..])
    ensures BodyOfBlocks(node) && node.kids != [] ==>
      RootRange(cfg, node, [], 0) == RootRange(cfg, node, [], 1) == ([], 0)
  {
    if BodyOfBlocks(node) {
      var body := FixRoot(cfg, node);
      NodeBelow(DEFAULT_BLOCK, 0, []);
      NodeBelow(body, 0, [0]);
      assert BreakAt(body, [0, 0]) by {
        assert [0] + [0] == [0, 0] && [0] + [] == [0];
      }
    } else {
      FixedIsReady(cfg, node);
      AppendBRKids(node);
    }
  }

  lemma {:induction false} AppendBRKids(node: Node)
    requires node.Element?
    ensures var kids, kids', i := node.kids, AppendBR(node).kids, LastElement(node.kids);
      || kids' == kids + [LINE_BREAK]
      || (i < |kids| && !IsInline(kids[i]) && kids' == kids[i := kids'[i]] && kids'[i].Element? && kids'[i].kids != [])
  {
    LastElementFound(node.kids);
  }

  lemma {:induction false} FixedNotBetween(cfg: Config, node: Node, o: nat)
    requires node.Element? && NotBetweenTexts(node, [], o)
    ensures var (q, r) := Rebase([], o, Dropped(cfg, node)); NotBetweenTexts(FixCursor(cfg, node), q, r)
  {
    if IsInline(node) {
      DropIsSuffix(node.kids);
    } else {
      AppendBRKids(node);
      LastElementFound(node.kids);
      hide AppendBR;
    }
  }

  /** And a range that was not between two texts is not so afterwards. */
  lemma {:induction false} RootNotBetween(cfg: Config, node: Node, p: Path, o: nat)
    requires node.Element? && ValidPlace(node, p, o) && NotBetweenTexts(node, p, o)
    ensures var (q, r) := RootRange(cfg, node, p, o); NotBetweenTexts(FixRoot(cfg, node), q, r)
  {
    if !BodyOfBlocks(node) && p == [] {
      FixedNotBetween(cfg, node, o);
    }
  }

  /** The last fixCursor keeps what the tree shows, and the range follows. */
  lemma {:induction false} RootKeeps(cfg: Config, node: Node, p: Path, o: nat)
    requires node.Element? && ValidPlace(node, p, o)
    ensures var (q, r) := RootRange(cfg, node, p, o);
            ValidPlace(FixRoot(cfg, node), q, r) && Before(FixRoot(cfg, node), q, r) == Before(node, p, o)
    ensures VisibleIn(FixRoot(cfg, node)) == VisibleIn(node)
  {
    NoLeaf(node, p, o);
    assert ValidPlace(node, [], 0);
    hide Before, Visible, Content, ContentAll, VisibleIn, VisibleInAll, WrapAll, ValidPlace, Rebase, FixCursor, Carried;
    if BodyOfBlocks(node) {
      BodyKeeps(cfg, node, p, o);
      if node.kids != [] && p == [] && o == 1 {
        BodyKeeps(cfg, node, [], 0);
        BehindLineBreak(node);
      }
    } else {
      FixCursorVisible(cfg, node);
      FixCursorPlace(cfg, node, p, o);
      var (q, r) := Rebase(p, o, Dropped(cfg, node));
      CarriedValid(node, p, o, FixCursor(cfg, node), q, r);
      CarriedShows(node, p, o, FixCursor(cfg, node), q, r);
    }
  }

  /** The place is there in both trees, with the same before it. */
  ghost predicate SamePlace(node: Node, node': Node, p: Path, o: nat) {
    ValidPlace(node, p, o) && ValidPlace(node', p, o) && Before(node', p, o) == Before(node, p, o)
  }

  lemma {:induction false} BodyKeeps(cfg: Config, node: Node, p: Path, o: nat)
    requires node.Element? && ValidPlace(node, p, o) && BodyOfBlocks(node)
    ensures SamePlace(node, FixRoot(cfg, node), p, o)
    ensures VisibleIn(FixRoot(cfg, node)) == VisibleIn(node)
  {
    BlockInvisible();
    hide Before, Visible, Content, ContentAll, VisibleIn, VisibleInAll, WrapAll;
    var kids, kids' := node.kids, FixRoot(cfg, node).kids;
    assert node == Element(node.id, node.tag, kids);
    VisibleElement(node.id, node.tag, kids);
    VisibleElement(node.id, node.tag, kids');
    if kids == [] {
      EmptyKeeps(node, o);
      assert kids' == [] + [DEFAULT_BLOCK] && p == [];
      VisibleOneMore([], DEFAULT_BLOCK);
      assert VisibleInAll([]) + [] == VisibleInAll([]);
    } else {
      LineBreakInvisible(kids[0]);
      FirstReplaced(node, DEFAULT_BLOCK, p, o);
      PrefixVisible(kids, DEFAULT_BLOCK, |kids|);
      assert kids[..|kids|] == kids && kids'[..|kids|] == kids';
    }
  }

  lemma {:induction false} EmptyKeeps(node: Node, o: nat)
    requires node.Element? && !IsLeaf(node) && node.kids == [] && VisibleIn(DEFAULT_BLOCK) == []
    ensures SamePlace(node, Element(node.id, node.tag, [DEFAULT_BLOCK]), [], o)
  {
    hide Visible, Content, ContentAll, VisibleIn, WrapAll;
    VisibleOneMore([], DEFAULT_BLOCK);
    VisibleNothing();
    assert [] + [DEFAULT_BLOCK] == [DEFAULT_BLOCK];
    assert [DEFAULT_BLOCK][..Cut([DEFAULT_BLOCK], o)] == if o == 0 then [] else [DEFAULT_BLOCK];
  }

  lemma {:induction false} PrefixVisible(kids: seq<Node>, m: Node, k: nat)
    requires kids != [] && k <= |kids| && VisibleIn(m) == VisibleIn(kids[0])
    ensures VisibleInAll(kids[0 := m][..k]) == VisibleInAll(kids[..k])
  {
    hide Visible, Content, ContentAll, VisibleIn, VisibleInAll, WrapAll;
    if k > 0 {
      VisibleOneBefore(m, kids[1..k]);
      VisibleOneBefore(kids[0], kids[1..k]);
      assert kids[0 := m][..k] == [m] + kids[1..k] && kids[..k] == [kids[0]] + kids[1..k];
    } else {
      assert kids[0 := m][..0] == kids[..0];
    }
  }

  /** Replacing a leaf in front by a node that shows the same. */
  lemma {:induction false} FirstReplaced(node: Node, m: Node, p: Path, o: nat)
    requires node.Element? && ValidPlace(node, p, o) && node.kids != [] && IsLeaf(node.kids[0])
    requires VisibleIn(m) == VisibleIn(node.kids[0])
    ensures SamePlace(node, Element(node.id, node.tag, node.kids[0 := m]), p, o)
  {
    hide Visible, Content, ContentAll, VisibleIn, VisibleInAll, WrapAll;
    PrefixVisible(node.kids, m, if p == [] then Cut(node.kids, o) else p[0]);
  }

  /** Behind a leading line break as much is shown as before it. */
  lemma {:induction false} BehindLineBreak(node: Node)
    requires node.Element? && ValidPlace(node, [], 0) && node.kids != [] && IsLineBreak(node.kids[0])
    ensures Before(node, [], 1) == Before(node, [], 0)
  {
    LineBreakInvisible(node.kids[0]);
    assert node.kids[..1] == [] + [node.kids[0]] && node.kids[..0] == [];
    VisibleOneMore([], node.kids[0]);
    hide Visible, Content, ContentAll, VisibleIn;
    assert VisibleInAll([]) + [] == VisibleInAll([]);
  }

  lemma {:induction false} LineBreakInvisible(node: Node)
    requires IsLineBreak(node)
    ensures VisibleIn(node) == []
  {
    VisibleElement(node.id, node.tag, node.kids);
    assert forall t: Token :: [t][1..] == [];
    assert Visible(OwnTokens(node.tag)) == [] && VisibleInAll(node.kids) == [];
  }

  lemma {:induction false} BlockInvisible()
    ensures VisibleIn(DEFAULT_BLOCK) == []
  {
    FixersInvisible();
    VisibleElement(0, DEFAULT_BLOCK.tag, [LINE_BREAK]);
    VisibleOneMore([], LINE_BREAK);
    assert [] + [LINE_BREAK] == [LINE_BREAK];
    VisibleNothing();
  }

  /** The body's leading line break may go into a new default block; besides that, fixCursor
      only adds fixers. */
  predicate PaddedRoot(tag: Tag, ts: seq<Token>, us: seq<Token>) {
    || Padded(ts, us)
    || (tag.name == "BODY" && ts != [] && ts[0].Leaf? && ts[0].tag.name == "BR" && Padded(ts[1..], us))
  }

  lemma {:induction false} RootPads(cfg: Config, node: Node)
    requires node.Element?
    ensures PaddedRoot(node.tag, Content(node), Content(FixRoot(cfg, node)))
  {
    if node.tag.name == "BODY" && node.kids == [] {
      assert node == Element(node.id, node.tag, []) && ContentAll([]) == [];
      BlockContent();
      PaddedElement(node.id, node.tag, [], [DEFAULT_BLOCK]);
    } else if node.tag.name == "BODY" && IsLineBreak(node.kids[0]) {
      BodyPads(node);
    } else {
      FixCursorPads(cfg, node);
    }
  }

  lemma {:induction false} BlockContent()
    ensures ContentAll([DEFAULT_BLOCK]) == [Leaf(LINE_BREAK.tag, [DEFAULT_BLOCK.tag])]
    ensures Padded([], ContentAll([DEFAULT_BLOCK]))
  {
    ContentAllOne(DEFAULT_BLOCK);
    ContentAllOne(LINE_BREAK);
    assert Content(LINE_BREAK) == [Leaf(LINE_BREAK.tag, [])];
    assert [DEFAULT_BLOCK.tag] + [] == [DEFAULT_BLOCK.tag];
    assert Content(DEFAULT_BLOCK) == [Leaf(LINE_BREAK.tag, [DEFAULT_BLOCK.tag])];
    assert forall t: Token :: [t][1..] == [];
  }

  lemma {:induction false} LineBreakContent(node: Node)
    requires IsLineBreak(node)
    ensures Content(node) == [Leaf(node.tag, [])]
  {
    assert ContentAll(node.kids) == [] && WrapAll(node.tag, []) == [];
  }

  lemma {:induction false} FirstContent(node: Node, first: Node, others: seq<Node>)
    requires node.Element? && !IsLeaf(node) && node.kids == [first] + others && IsLineBreak(first)
    ensures Content(node) == [Leaf(first.tag, [node.tag])] + WrapAll(node.tag, ContentAll(others))
  {
    ContentAllConcat([first], others);
    ContentAllOne(first);
    LineBreakContent(first);
    assert OwnTokens(node.tag) == [];
    hide ContentAll;
    WrapConcat(node.tag, [Leaf(first.tag, [])], ContentAll(others));
    assert [node.tag] + [] == [node.tag];
    assert WrapAll(node.tag, [Leaf(first.tag, [])]) == [Leaf(first.tag, [node.tag])];
  }

  lemma {:induction false} BlockPads(others: seq<Node>)
    ensures Padded(ContentAll(others), ContentAll([DEFAULT_BLOCK] + others))
  {
    BlockContent();
    ContentAllConcat([DEFAULT_BLOCK], others);
    hide Padded, ContentAll;
    PaddedSelf(ContentAll(others));
    PaddedConcat([], ContentAll([DEFAULT_BLOCK]), ContentAll(others), ContentAll(others));
    assert [] + ContentAll(others) == ContentAll(others);
  }

  lemma {:induction false} BodyPads(node: Node)
    requires node.Element? && node.tag.name == "BODY" && node.kids != [] && IsLineBreak(node.kids[0])
    ensures PaddedRoot(node.tag, Content(node), Content(Element(node.id, node.tag, node.kids[0 := DEFAULT_BLOCK])))
  {
    var others := node.kids[1..];
    assert node.kids == [node.kids[0]] + others && node.kids[0 := DEFAULT_BLOCK] == [DEFAULT_BLOCK] + others;
    FirstContent(node, node.kids[0], others);
    BlockPads(others);
    PaddedElement(node.id, node.tag, others, [DEFAULT_BLOCK] + others);
    var body := Element(node.id, node.tag, others);
    assert Content(body) == WrapAll(node.tag, ContentAll(others)) by {
      assert OwnTokens(node.tag) == [];
    }
    hide Padded, ContentAll, Content;
    assert Content(node)[1..] == Content(body);
  }

  // ----- the extraction -----

  /** After both splits the stop node's children fall into three runs. */
  lemma {:induction false} ThreeRuns(common: Node, top: Node, k: nat, top2: Node, s: nat, e: nat, start: seq<Token>,
      ep: Path, eo: nat)
    requires common.Element? && ValidPlace(common, ep, eo)
    requires top.Element? && top.tag == common.tag && k <= |top.kids|
    requires WrapAll(common.tag, VisibleInAll(top.kids[..k])) == Before(common, ep, eo)
    requires WrapAll(common.tag, VisibleInAll(top.kids[k..])) == Behind(common, ep, eo)
    requires VisibleIn(top) == VisibleIn(common) == VisibleIn(top2)
    requires top2.Element? && top2.tag == common.tag && s <= e <= |top2.kids|
    requires WrapAll(common.tag, VisibleInAll(top2.kids[..s])) == start
    requires top2.kids[e..] == top.kids[k..]
    ensures WrapAll(common.tag, VisibleInAll(top2.kids[e..])) == Behind(common, ep, eo)
    ensures start + WrapAll(common.tag, VisibleInAll(top2.kids[s..e])) == Before(common, ep, eo)
  {
    assert !IsLeaf(top2);
    hide Before, Behind, ValidPlace, Visible, Content, ContentAll, VisibleIn, VisibleInAll, WrapAll;
    var kids, tag := top2.kids, common.tag;
    PlaceCuts(common, ep, eo);
    CutKids(top2, e, VisibleInAll(kids[..e]), VisibleInAll(kids[e..]));
    SameFront(WrapAll(tag, VisibleInAll(kids[..e])), Before(common, ep, eo), Behind(common, ep, eo));
    TwoRuns(tag, kids, s, e);
  }

  lemma {:induction false} TwoRuns(tag: Tag, kids: seq<Node>, s: nat, e: nat)
    requires s <= e <= |kids|
    ensures WrapAll(tag, VisibleInAll(kids[..s])) + WrapAll(tag, VisibleInAll(kids[s..e]))
         == WrapAll(tag, VisibleInAll(kids[..e]))
  {
    hide Visible, Content, ContentAll, VisibleIn, VisibleInAll, WrapAll;
    assert kids[..e] == kids[..s] + kids[s..e];
    VisibleAllConcat(kids[..s], kids[s..e]);
    WrapConcat(tag, VisibleInAll(kids[..s]), VisibleInAll(kids[s..e]));
  }

  lemma {:induction false} SameFront(a: seq<Token>, b: seq<Token>, c: seq<Token>)
    requires a + c == b + c
    ensures a == b
  {
    assert |a + c| == |a| + |c| && |b + c| == |b| + |c|;
    assert (a + c)[..|a|] == a && (b + c)[..|a|] == b;
  }

  /** The content in three runs. */
  lemma {:induction false} ContentRuns(node: Node, a: seq<Node>, b: seq<Node>, c: seq<Node>)
    requires node.Element? && !IsLeaf(node) && node.kids == a + b + c
    ensures Content(node)
         == WrapAll(node.tag, ContentAll(a)) + WrapAll(node.tag, ContentAll(b)) + WrapAll(node.tag, ContentAll(c))
  {
    ContentAllConcat(a + b, c);
    ContentAllConcat(a, b);
    assert OwnTokens(node.tag) == [];
    hide ContentAll;
    WrapConcat(node.tag, ContentAll(a) + ContentAll(b), ContentAll(c));
    WrapConcat(node.tag, ContentAll(a), ContentAll(b));
  }

  /** The seam between two texts is closed; the place at it goes inside. */
  lemma {:induction false} SeamKeeps(node: Node, s: nat, m: Node)
    requires node.Element? && !IsLeaf(node) && 0 < s < |node.kids| && node.kids[s - 1].Text? && node.kids[s].Text?
    requires m == Text(node.kids[s - 1].id, node.kids[s - 1].data + node.kids[s].data)
    ensures var node' := Element(node.id, node.tag, node.kids[..s - 1] + [m] + node.kids[s + 1..]);
            && ValidPlace(node', [s - 1], |node.kids[s - 1].data|)
            && Before(node', [s - 1], |node.kids[s - 1].data|) == Before(node, [], s)
            && VisibleIn(node') == VisibleIn(node)
  {
    hide Visible, Content, ContentAll, WrapAll, VisibleInAll, VisibleIn;
    var kids := node.kids;
    var l, r := kids[s - 1], kids[s];
    var front, back := kids[..s - 1], kids[s + 1..];
    MergedTexts(l, r, m);
    SeamShows(front, l, r, m, back);
    assert kids == front + [l, r] + back && kids[..s] == front + [l];
    VisibleOneMore(front, l);
    var node' := Element(node.id, node.tag, front + [m] + back);
    assert node'.kids[..s - 1] == front && node'.kids[s - 1] == m;
    VisibleElement(node.id, node.tag, kids);
    VisibleElement(node.id, node.tag, node'.kids);
    assert node == Element(node.id, node.tag, kids);
  }

  lemma {:induction false} MergedTexts(l: Node, r: Node, m: Node)
    requires l.Text? && r.Text? && m.Text? && m.data == l.data + r.data
    ensures Visible(Content(m)[..|l.data|]) == VisibleIn(l)
    ensures VisibleIn(m) == VisibleIn(l) + VisibleIn(r)
  {
    assert Content(m) == Content(l) + Content(r) && Content(m)[..|l.data|] == Content(l);
    VisibleConcat(Content(l), Content(r));
  }

  lemma {:induction false} SeamShows(front: seq<Node>, l: Node, r: Node, m: Node, back: seq<Node>)
    requires VisibleIn(m) == VisibleIn(l) + VisibleIn(r)
    ensures VisibleInAll(front + [m] + back) == VisibleInAll(front + [l, r] + back)
  {
    hide Visible, Content, ContentAll, WrapAll, VisibleInAll, VisibleIn;
    VisibleSplice(front, m, back);
    VisibleSplice(front + [l], r, back);
    VisibleOneMore(front, l);
    assert front + [l] + [r] + back == front + [l, r] + back;
    var a, b, c, d := VisibleInAll(front), VisibleIn(l), VisibleIn(r), VisibleInAll(back);
    assert a + (b + c) + d == ((a + b) + c) + d;
  }

  /** The loop that moves the nodes from the start node up to the end node. */
  method MoveOut(all: seq<Node>, start: nat, end: nat) returns (kids: seq<Node>, frag: seq<Node>)
    requires start <= end <= |all|
    ensures kids == all[..start] + all[end..] && frag == all[start..end]
  {
    kids, frag := all, [];
    var e := end;
    while start != e
      invariant start <= e && e + |frag| == end
      invariant frag == all[start..start + |frag|] && kids == all[..start] + all[start + |frag|..]
      decreases e - start
    {
      OneMoved(all, start, |frag|);
      frag := frag + [kids[start]];
      kids := kids[..start] + kids[start + 1..];
      e := e - 1;
    }
  }

  lemma {:induction false} OneMoved(all: seq<Node>, start: nat, n: nat)
    requires start + n < |all|
    ensures var kids := all[..start] + all[start + n..];
            && kids[start] == all[start + n]
            && kids[..start] + kids[start + 1..] == all[..start] + all[start + n + 1..]
            && all[start..start + n] + [all[start + n]] == all[start..start + n + 1]
  {}

  /** A place between two texts cannot take the cursor in every browser. */
  predicate NotBetweenTexts(node: Node, p: Path, o: nat)
    requires node.Element?
  {
    p == [] ==> !(0 < o < |node.kids| && node.kids[o - 1].Text? && node.kids[o].Text?)
  }

  /** Texts that meet at the seam become one, and the range goes to where they met. */
  method CloseSeam(node: Node, s: nat) returns (node': Node, rp: Path, ro: nat)
    requires node.Element? && ValidPlace(node, [], s)
    ensures node'.Element? && node'.id == node.id && node'.tag == node.tag && ValidPlace(node', rp, ro)
    ensures Before(node', rp, ro) == Before(node, [], s)
    ensures Content(node') == Content(node)
    ensures NotBetweenTexts(node', rp, ro)
    ensures NotBetweenTexts(node, [], s) ==> node' == node && rp == [] && ro == s
    ensures !NotBetweenTexts(node, [], s) ==>
      && rp == [s - 1] && ro == Length(node.kids[s - 1]) && |node'.kids| == |node.kids| - 1
      && node'.kids[..s - 1] == node.kids[..s - 1] && node'.kids[s..] == node.kids[s + 1..]
  {
    hide Content, Before, VisibleIn;
    var kids := node.kids;
    node', rp, ro := node, [], s;
    if 0 < s < |kids| && kids[s - 1].Text? && kids[s].Text? {
      var before := Text(kids[s - 1].id, kids[s - 1].data + kids[s].data);
      SeamKeeps(node, s, before);
      SeamContent(node, s, before);
      node' := Element(node.id, node.tag, kids[..s - 1] + [before] + kids[s + 1..]);
      rp, ro := [s - 1], |kids[s - 1].data|;
    }
  }

  lemma {:induction false} SeamContent(node: Node, s: nat, m: Node)
    requires node.Element? && 0 < s < |node.kids| && node.kids[s - 1].Text? && node.kids[s].Text?
    requires m.Text? && m.data == node.kids[s - 1].data + node.kids[s].data
    ensures Content(Element(node.id, node.tag, node.kids[..s - 1] + [m] + node.kids[s + 1..])) == Content(node)
  {
    var front, l, r, back := node.kids[..s - 1], node.kids[s - 1], node.kids[s], node.kids[s + 1..];
    assert Content(m) == Content(l) + Content(r);
    assert node.kids == front + [l] + [r] + back;
    hide Content, ContentAll;
    ContentSplice(front, m, back);
    ContentSplice(front + [l], r, back);
    ContentAllConcat(front, [l]);
    ContentAllOne(l);
    var a, b, c, d := ContentAll(front), Content(l), Content(r), ContentAll(back);
    assert a + (b + c) + d == ((a + b) + c) + d;
    SameContent(node, front + [m] + back);
  }

  lemma {:induction false} SameContent(node: Node, kids: seq<Node>)
    requires node.Element? && ContentAll(kids) == ContentAll(node.kids)
    ensures Content(Element(node.id, node.tag, kids)) == Content(node)
  {}

  /** The common ancestor afterwards, the fragment, and the place of the collapsed range. */
  datatype Extraction = Extraction(common: Node, frag: seq<Node>, path: Path, offset: nat)

  /** Before the start ++ extracted ++ behind the end is the original, and the range is at the
      seam. */
  ghost predicate ExactFor(common: Node, start: seq<Token>, ep: Path, eo: nat, x: Extraction)
    requires common.Element? && ValidPlace(common, ep, eo)
  {
    && start + WrapAll(common.tag, VisibleInAll(x.frag)) == Before(common, ep, eo)
    && VisibleIn(x.common) == start + Behind(common, ep, eo)
    && ValidPlace(x.common, x.path, x.offset) && Before(x.common, x.path, x.offset) == start
  }

  /** The start stays where it is: its container is not dropped, and nothing is shown between
      the start and the place that it drifts to. */
  ghost predicate StartStays(cfg: Config, common: Node, sp: Path, so: nat, ep: Path, eo: nat)
    requires ValidPlace(common, sp, so) && ValidPlace(common, ep, eo)
  {
    !Lost(cfg, common, ep, eo, sp) && MeantBefore(cfg, common, ep, eo, sp, so) == Before(common, sp, so)
  }

  /** The content of the three runs that the extraction makes, for a start at the place (q, r). */
  ghost predicate RunsFor(common: Node, q: Path, r: nat, ep: Path, eo: nat, front: seq<Token>, frag: seq<Token>,
      back: seq<Token>)
    requires ValidPlace(common, ep, eo)
  {
    && ValidPlace(common, q, r) && ValidPlace(UpTo(common, ep, eo), q, r)
    && Padded(ContentBefore(common, q, r), front)
    && Padded(ContentBetween(common, q, r, ep, eo), frag)
    && Padded(ContentBehind(common, ep, eo), back)
  }

  /** None is the exception when the start's container has been dropped. Otherwise exactly what
      lies between the place that the start has come to mean and the end goes into the fragment;
      that is what lies between the start and the end exactly when the start stays. Each of the
      three runs has its content, line breaks included, with only fixers added. */
  method ExtractContents(cfg: Config, common: Node, sp: Path, so: nat, ep: Path, eo: nat)
    returns (r: Option<Extraction>, ghost front: seq<Token>, ghost back: seq<Token>)
    requires common.Element? && ValidPlace(common, sp, so) && ValidPlace(common, ep, eo) && PlaceLe(sp, so, ep, eo)
    ensures r.None? <==> Lost(cfg, common, ep, eo, sp)
    ensures r.Some? ==> r.value.common.Element? && r.value.common.id == common.id && r.value.common.tag == common.tag
    ensures r.Some? ==> ExactFor(common, MeantBefore(cfg, common, ep, eo, sp, so), ep, eo, r.value)
    ensures r.Some? && ExactFor(common, Before(common, sp, so), ep, eo, r.value)
       <==> StartStays(cfg, common, sp, so, ep, eo)
    ensures r.Some? ==>
      var meant := Meant(cfg, common, ep, eo, sp, so);
      RunsFor(common, meant.0, meant.1, ep, eo, front, WrapAll(common.tag, ContentAll(r.value.frag)), back)
    ensures r.Some? ==> Padded(Content(common), front + WrapAll(common.tag, ContentAll(r.value.frag)) + back)
    ensures r.Some? ==> PaddedRoot(common.tag, front + back, Content(r.value.common))
    ensures r.Some? ==> Ready(cfg, r.value.common) && NotBetweenTexts(r.value.common, r.value.path, r.value.offset)
  {
    hide Before, Behind, ValidPlace, Visible, Content, ContentAll, VisibleIn, VisibleInAll, WrapAll, SplitUp, FollowUp,
      FixRoot, PlaceLe, RootRange, Dropped, Lost, Meant, MeantBefore, Padded, PaddedRoot, ContentBefore,
      ContentBehind, UpTo, StartIs, RunsFor, Ready, NotBetweenTexts;
    NoLeaf(common, sp, so);
    front, back := [], [];
    StartFollowed(cfg, common, ep, eo, sp, so);
    NothingLost(cfg, common, ep, eo);
    var top, k, container := Split(cfg, common, ep, eo, sp);
    if container.None? {
      return None, front, back;
    }
    var p := container.value;
    StartThere(cfg, common, ep, eo, sp, so, p);
    NothingLost(cfg, top, p, so);
    var top2, s, _ := Split(cfg, top, p, so, []);
    var e := if p == [] then k else k + 1;
    EndNode(cfg, top, k, p, so);
    ThreeRuns(common, top, k, top2, s, e, Before(top, p, so), ep, eo);
    var kids, frag := MoveOut(top2.kids, s, e);
    front, back := WrapAll(common.tag, ContentAll(top2.kids[..s])), WrapAll(common.tag, ContentAll(top2.kids[e..]));
    RunsThere(cfg, common, sp, so, ep, eo, p);
    ContentLeft(common, top, top2, s, e);
    RunsLeft(Element(top2.id, top2.tag, kids), s, top2.kids[..s], top2.kids[e..]);
    RestContent(Element(top2.id, top2.tag, kids), top2.kids[..s], top2.kids[e..]);
    var rest, rp, ro := CloseSeam(Element(top2.id, top2.tag, kids), s);
    RootKeeps(cfg, rest, rp, ro);
    RootPads(cfg, rest);
    RootReady(cfg, rest);
    RootNotBetween(cfg, rest, rp, ro);
    FixRootTag(cfg, rest);
    SameShown(rest, Element(top2.id, top2.tag, kids));
    var range := RootRange(cfg, rest, rp, ro);
    var x := Extraction(FixRoot(cfg, rest), frag, range.0, range.1);
    r := Some(x);
    OnlyOneStart(common, Before(common, sp, so), Before(top, p, so), ep, eo, x);
  }

  /** What the second split needs of the start. */
  lemma {:induction false} StartThere(cfg: Config, common: Node, ep: Path, eo: nat, sp: Path, so: nat, p: Path)
    requires common.Element? && ValidPlace(common, ep, eo) && ValidPlace(common, sp, so)
    requires StartIs(cfg, common, ep, eo, sp, so, p)
    ensures var (top, k) := SplitUp(cfg, common, ep, eo);
      && ValidPlace(top, p, so) && (if p == [] then Cut(top.kids, so) <= k else p[0] < k)
      && Before(top, p, so) == MeantBefore(cfg, common, ep, eo, sp, so)
  {
    hide SplitUp, MeantBefore, Before;
    StartShown(cfg, common, ep, eo, sp, so, p);
  }

  /** The nodes in front of the end node are split as they would be without those from it on. */
  lemma {:induction false} SplitUpFront(cfg: Config, top: Node, k: nat, p: Path, so: nat)
    requires top.Element? && ValidPlace(top, p, so) && k <= |top.kids|
    requires if p == [] then Cut(top.kids, so) <= k else p[0] < k
    ensures var (top2, s) := SplitUp(cfg, top, p, so);
      var e := if p == [] then k else k + 1;
      && s <= e <= |top2.kids| && ValidPlace(Kept(top, k), p, so)
      && SplitUp(cfg, Kept(top, k), p, so) == (Kept(top2, e), s)
    decreases |p|
  {
    hide SplitUp, SplitAt, Before, Behind, ValidPlace, Kept;
    if p == [] {
      FrontHere(cfg, top, k, so);
    } else {
      SplitAtFront(cfg, top, k, p, so);
      SplitUpStep(cfg, top, p, so);
      SplitUpStep(cfg, Kept(top, k), p, so);
      assert UpPath(p) != [] ==> UpPath(p)[0] == p[0];
      SplitUpFront(cfg, SplitAt(cfg, top, p, so), if |p| == 1 then k + 1 else k, UpPath(p), UpOffset(p));
    }
  }

  lemma {:induction false} SplitUpStep(cfg: Config, stop: Node, p: Path, o: nat)
    requires stop.Element? && p != [] && ValidPlace(stop, p, o)
    ensures SplitAt(cfg, stop, p, o).Element? && ValidPlace(SplitAt(cfg, stop, p, o), UpPath(p), UpOffset(p))
    ensures SplitUp(cfg, stop, p, o) == SplitUp(cfg, SplitAt(cfg, stop, p, o), UpPath(p), UpOffset(p))
    ensures SplitAt(cfg, stop, p, o).id == stop.id && SplitAt(cfg, stop, p, o).tag == stop.tag
  {
    SplitAtTag(cfg, stop, p, o);
    SplitAtKeepsPlace(cfg, stop, p, o);
    hide SplitAt, Before, Behind, ValidPlace;
  }

  lemma {:induction false} FrontHere(cfg: Config, top: Node, k: nat, so: nat)
    requires top.Element? && ValidPlace(top, [], so) && Cut(top.kids, so) <= k <= |top.kids|
    ensures Kept(top, k).Element? && ValidPlace(Kept(top, k), [], so)
    ensures SplitUp(cfg, top, [], so) == (top, Cut(top.kids, so))
    ensures SplitUp(cfg, Kept(top, k), [], so) == (Kept(top, k), Cut(top.kids, so))
  {}

  lemma {:induction false} SplitAtFront(cfg: Config, top: Node, k: nat, p: Path, so: nat)
    requires top.Element? && ValidPlace(top, p, so) && p != [] && p[0] < k <= |top.kids|
    ensures Kept(top, k).Element? && ValidPlace(Kept(top, k), p, so)
    ensures var next, k' := SplitAt(cfg, top, p, so), if |p| == 1 then k + 1 else k;
      next.Element? && k' <= |next.kids| && SplitAt(cfg, Kept(top, k), p, so) == Kept(next, k')
  {
    hide LeftHalf, RightHalf;
    assert Kept(top, k).kids == top.kids[..k];
    if |p| == 1 {
      assert top.kids[..k][..p[0]] == top.kids[..p[0]];
      assert top.kids[..k][p[0] + 1..] == top.kids[p[0] + 1..k];
    }
  }

  /** The three runs after both splits. */
  lemma {:induction false} RunsThere(cfg: Config, common: Node, sp: Path, so: nat, ep: Path, eo: nat, p: Path)
    requires common.Element? && ValidPlace(common, ep, eo) && ValidPlace(common, sp, so)
    requires StartIs(cfg, common, ep, eo, sp, so, p)
    requires ValidPlace(SplitUp(cfg, common, ep, eo).0, p, so)
    ensures var (top, k), meant, tag := SplitUp(cfg, common, ep, eo), Meant(cfg, common, ep, eo, sp, so), common.tag;
      var (top2, s) := SplitUp(cfg, top, p, so);
      var e := if p == [] then k else k + 1;
      && s <= e <= |top2.kids|
      && RunsFor(common, meant.0, meant.1, ep, eo, WrapAll(tag, ContentAll(top2.kids[..s])),
                 WrapAll(tag, ContentAll(top2.kids[s..e])), WrapAll(tag, ContentAll(top2.kids[e..])))
  {
    var (top, k) := SplitUp(cfg, common, ep, eo);
    var (top2, s) := SplitUp(cfg, top, p, so);
    var (q, r) := Meant(cfg, common, ep, eo, sp, so);
    var e, tag := if p == [] then k else k + 1, common.tag;
    SidesKept(cfg, common, ep, eo);
    SidesKept(cfg, top, p, so);
    EndNode(cfg, top, k, p, so);
    SplitUpFront(cfg, top, k, p, so);
    SidesKept(cfg, Kept(top, k), p, so);
    FrontIs(top, k, p, so, top2, s, e);
    hide SplitUp, ValidPlace, ContentBefore, ContentBehind, UpTo, Padded, Content, ContentAll, WrapAll, Meant, Kept;
    PaddedTrans(ContentBefore(common, q, r), ContentBefore(top, p, so), WrapAll(tag, ContentAll(top2.kids[..s])));
    PaddedTrans(ContentBetween(common, q, r, ep, eo), ContentBetween(top, p, so, [], k),
                WrapAll(tag, ContentAll(top2.kids[s..e])));
  }

  lemma {:induction false} FrontIs(top: Node, k: nat, p: Path, so: nat, top2: Node, s: nat, e: nat)
    requires top.Element? && top2.Element? && ValidPlace(top, [], k) && ValidPlace(Kept(top, k), p, so)
    requires k <= |top.kids| && s <= e <= |top2.kids|
    ensures UpTo(top, [], k) == Kept(top, k)
    ensures ContentBetween(top, p, so, [], k) == ContentBehind(Kept(top, k), p, so)
    ensures Kept(top, k).Element? && Kept(top, k).tag == top.tag
    ensures Kept(top2, e).Element? && Kept(top2, e).kids[s..] == top2.kids[s..e]
  {}

  lemma {:induction false} SameShown(a: Node, b: Node)
    requires Content(a) == Content(b)
    ensures VisibleIn(a) == VisibleIn(b)
  {}

  lemma {:induction false} ContentLeft(common: Node, top: Node, top2: Node, s: nat, e: nat)
    requires common.Element? && top2.Element? && top2.tag == common.tag && !IsLeaf(top2) && s <= e <= |top2.kids|
    requires Padded(Content(common), Content(top)) && Padded(Content(top), Content(top2))
    ensures Padded(Content(common), WrapAll(common.tag, ContentAll(top2.kids[..s]))
              + WrapAll(common.tag, ContentAll(top2.kids[s..e])) + WrapAll(common.tag, ContentAll(top2.kids[e..])))
  {
    hide Padded, Content, ContentAll, WrapAll;
    PaddedTrans(Content(common), Content(top), Content(top2));
    assert top2.kids == top2.kids[..s] + top2.kids[s..e] + top2.kids[e..];
    ContentRuns(top2, top2.kids[..s], top2.kids[s..e], top2.kids[e..]);
  }

  lemma {:induction false} RestContent(node: Node, a: seq<Node>, b: seq<Node>)
    requires node.Element? && !IsLeaf(node) && node.kids == a + b
    ensures Content(node) == WrapAll(node.tag, ContentAll(a)) + WrapAll(node.tag, ContentAll(b))
  {
    hide Content, ContentAll, WrapAll;
    assert a + [] + b == a + b;
    ContentRuns(node, a, [], b);
    NoContent(node.tag);
    assert WrapAll(node.tag, ContentAll(a)) + [] == WrapAll(node.tag, ContentAll(a));
  }

  lemma {:induction false} NoContent(tag: Tag)
    ensures WrapAll(tag, ContentAll([])) == []
  {}

  /** The extraction is exact for one start only. */
  lemma {:induction false} OnlyOneStart(common: Node, a: seq<Token>, b: seq<Token>, ep: Path, eo: nat, x: Extraction)
    requires common.Element? && ValidPlace(common, ep, eo) && ExactFor(common, b, ep, eo, x)
    ensures ExactFor(common, a, ep, eo, x) <==> a == b
  {
    hide Before, Behind, WrapAll, VisibleInAll, VisibleIn;
    if ExactFor(common, a, ep, eo, x) {
      SameFront(a, b, WrapAll(common.tag, VisibleInAll(x.frag)));
    }
  }

  lemma {:induction false} NoLeaf(node: Node, p: Path, o: nat)
    requires ValidPlace(node, p, o)
    ensures !IsLeaf(node)
  {}

  /** Where the end node is after the start is split: the nodes from it on are the same. */
  lemma {:induction false} EndNode(cfg: Config, top: Node, k: nat, sp: Path, so: nat)
    requires top.Element? && ValidPlace(top, sp, so) && k <= |top.kids|
    requires if sp == [] then Cut(top.kids, so) <= k else sp[0] < k
    ensures var (top2, s) := SplitUp(cfg, top, sp, so);
            var e := if sp == [] then k else k + 1;
            s <= e <= |top2.kids| && top2.kids[e..] == top.kids[k..]
  {
    if sp != [] {
      SplitUpTop(cfg, top, sp, so);
      hide SplitUp, ValidPlace;
      var (top2, s) := SplitUp(cfg, top, sp, so);
      assert top2.kids[k + 1..] == top2.kids[s + 1..][k - s..];
      assert top.kids[k..] == top.kids[s..][k - s..];
    }
  }

  lemma {:induction false} FixRootTag(cfg: Config, node: Node)
    requires node.Element?
    ensures FixRoot(cfg, node).Element? && FixRoot(cfg, node).id == node.id && FixRoot(cfg, node).tag == node.tag
  {}

  lemma {:induction false} RunsLeft(node: Node, s: nat, a: seq<Node>, b: seq<Node>)
    requires node.Element? && !IsLeaf(node) && node.kids == a + b && s == |a|
    ensures ValidPlace(node, [], s) && Before(node, [], s) == WrapAll(node.tag, VisibleInAll(a))
    ensures VisibleIn(node) == WrapAll(node.tag, VisibleInAll(a)) + WrapAll(node.tag, VisibleInAll(b))
  {
    assert node.kids[..s] == a && node.kids[s..] == b;
    hide Visible, Content, ContentAll, VisibleIn, VisibleInAll, WrapAll;
    CutKids(node, s, VisibleInAll(a), VisibleInAll(b));
  }

  // ----- when the start stays -----

  /** Where empty text nodes can be focused, every start stays. */
  lemma {:induction false} StaysWithoutDropping(cfg: Config, common: Node, sp: Path, so: nat, ep: Path, eo: nat)
    requires ValidPlace(common, sp, so) && ValidPlace(common, ep, eo) && PlaceLe(sp, so, ep, eo)
    requires !cfg.cantFocusEmptyTextNodes
    ensures StartStays(cfg, common, sp, so, ep, eo) && Meant(cfg, common, ep, eo, sp, so) == (sp, so)
  {
    NothingDropped(cfg, common, ep, eo, sp, so);
    NoDrift(cfg, common, ep, eo, sp, so);
  }

  lemma {:induction false} NothingDropped(cfg: Config, node: Node, p: Path, o: nat, sp: Path, so: nat)
    requires ValidPlace(node, p, o) && ValidPlace(node, sp, so) && !cfg.cantFocusEmptyTextNodes
    ensures !Lost(cfg, node, p, o, sp) && Drift(cfg, node, p, o, sp) == 0
    decreases p
  {
    if p != [] && |sp| > 1 && sp[0] == p[0] && node.kids[p[0]].Element? {
      NothingDropped(cfg, node.kids[p[0]], p[1..], o, sp[1..], so);
    }
  }

  /** The common ancestor that is taken when the caller gives none: the container of one end, or
      the last element that holds both; of a text node its parent. */
  predicate IsDefaultCommon(common: Node, sp: Path, ep: Path) {
    common.Element? &&
    (sp == [] || ep == [] || sp[0] != ep[0] || (sp[0] < |common.kids| && common.kids[sp[0]].Text?))
  }

  /** Below it every start stays, in every browser. */
  lemma {:induction false} StaysBelowDefaultCommon(cfg: Config, common: Node, sp: Path, so: nat, ep: Path, eo: nat)
    requires ValidPlace(common, sp, so) && ValidPlace(common, ep, eo) && PlaceLe(sp, so, ep, eo)
    requires IsDefaultCommon(common, sp, ep)
    ensures StartStays(cfg, common, sp, so, ep, eo) && Meant(cfg, common, ep, eo, sp, so) == (sp, so)
  {
    UpToHas(common, ep, eo);
    if ep != [] && sp != [] && sp[0] == ep[0] {
      UpToHas(common.kids[ep[0]], ep[1..], eo);
      assert UpTo(common, ep, eo).kids[ep[0]] == UpTo(common.kids[ep[0]], ep[1..], eo);
    }
    NoDrift(cfg, common, ep, eo, sp, so);
  }

  lemma {:induction false} PlaceLeSelf(p: Path, o: nat)
    ensures PlaceLe(p, o, p, o)
    decreases p
  {
    if p != [] {
      PlaceLeSelf(p[1..], o);
    }
  }

  lemma {:induction false} MeantNotBehind(cfg: Config, common: Node, sp: Path, so: nat, ep: Path, eo: nat)
    requires ValidPlace(common, ep, eo)
    ensures var (q, r) := Meant(cfg, common, ep, eo, sp, so); PlaceLe(q, r, ep, eo)
  {
    PlaceLeSelf(ep, eo);
  }

  /** When not even a line break lies between the start and the place that it comes to mean, the
      runs are those for the start. */
  lemma {:induction false} StaysWithBreaks(cfg: Config, common: Node, sp: Path, so: nat, ep: Path, eo: nat,
      front: seq<Token>, frag: seq<Token>, back: seq<Token>)
    requires ValidPlace(common, sp, so) && ValidPlace(common, ep, eo) && PlaceLe(sp, so, ep, eo)
    requires var (q, r) := Meant(cfg, common, ep, eo, sp, so);
      && RunsFor(common, q, r, ep, eo, front, frag, back)
      && ContentBefore(common, q, r) == ContentBefore(common, sp, so)
    ensures RunsFor(common, sp, so, ep, eo, front, frag, back)
  {
    hide Meant, ContentBefore, ContentBehind, ContentBetween, UpTo, Padded, PlaceLe, ValidPlace, Content;
    var (q, r) := Meant(cfg, common, ep, eo, sp, so);
    MeantNotBehind(cfg, common, sp, so, ep, eo);
    ThreeParts(common, sp, so, ep, eo);
    ThreeParts(common, q, r, ep, eo);
    SameRest(ContentBefore(common, q, r), ContentBetween(common, q, r, ep, eo), ContentBetween(common, sp, so, ep, eo));
  }

  lemma {:induction false} SameRest(a: seq<Token>, b: seq<Token>, c: seq<Token>)
    requires a + b == a + c
    ensures b == c
  {
    assert |b| == |a + b| - |a| == |c| && (a + b)[|a|..] == b && (a + c)[|a|..] == c;
  }

  // ----- extractions below a common ancestor that the caller gives -----

  // The one caller that gives a common ancestor is modifyBlocks (war/components/Squire/squire-raw.js:3209),
  // which gives the body, after it has widened the range to whole blocks and moved its ends up
  // the tree.

  const WEBKIT: Config := Config(true)

  const BOLD: Tag := Tag("B", "", "")

  const DIV: Tag := Tag("DIV", "", "")

  /** A B with a leading empty text. */
  const LEADING_EMPTY: Node := Element(1, DIV, [Element(2, BOLD, [Text(3, ""), Text(4, "abc")])])

  function InBold(c: char): Token {
    Character(c, [DIV, BOLD])
  }

  lemma {:induction false} ShownOfText(id: NodeId, data: string)
    requires ZWS !in data
    ensures VisibleIn(Text(id, data)) == Content(Text(id, data))
  {
    AllShown(Content(Text(id, data)));
  }

  lemma {:induction false} AllShown(ts: seq<Token>)
    requires forall t | t in ts :: !IsFixer(t)
    ensures Visible(ts) == ts
  {
    if ts != [] {
      AllShown(ts[1..]);
    }
  }

  /** What comes before the places of that tree. */
  lemma {:induction false} BeforeTheText()
    ensures ValidPlace(LEADING_EMPTY, [0], 1) && Before(LEADING_EMPTY, [0], 1) == []
    ensures VisibleInAll(LEADING_EMPTY.kids[0].kids[..1]) == []
  {
    var b := LEADING_EMPTY.kids[0];
    assert b.kids[..1] == [Text(3, "")] && LEADING_EMPTY.kids[..0] == [] && [0][1..] == [];
    ShownOfText(3, "");
    assert Content(Text(3, "")) == [] && VisibleInAll([]) == [];
    VisibleOneMore([], Text(3, ""));
    assert [] + [Text(3, "")] == [Text(3, "")];
    hide Visible, VisibleInAll, Content, ContentAll;
    assert Before(LEADING_EMPTY, [0], 1) == WrapAll(DIV, [] + WrapAll(BOLD, []));
  }

  lemma {:induction false} InTheText(n: nat)
    requires n <= 3
    ensures var text := LEADING_EMPTY.kids[0].kids[1];
            ValidPlace(text, [], n) && Before(text, [], n) == Content(text)[..n]
  {
    AllShown(Content(LEADING_EMPTY.kids[0].kids[1])[..n]);
  }

  lemma {:induction false} WrapTwice(outer: Tag, inner: Tag, ts: seq<Token>)
    requires forall t | t in ts :: t.around == []
    ensures var us := WrapAll(outer, WrapAll(inner, ts));
            |us| == |ts| && forall i | 0 <= i < |ts| :: us[i] == ts[i].(around := [outer, inner])
  {
    assert [outer] + ([inner] + []) == [outer, inner];
  }

  lemma {:induction false} InTheBold(n: nat)
    requires n <= 3
    ensures var b := LEADING_EMPTY.kids[0];
            ValidPlace(b, [1], n) && Before(b, [1], n) == WrapAll(BOLD, Content(b.kids[1])[..n])
  {
    var b := LEADING_EMPTY.kids[0];
    assert !IsLeaf(b);
    BeforeTheText();
    InTheText(n);
    hide Visible, VisibleInAll, VisibleIn, Content, ContentAll, Before, Behind, ValidPlace, WrapAll;
    assert [1] == [1] + [];
    PlaceInKid(b, 1, [], n);
    assert [] + Content(b.kids[1])[..n] == Content(b.kids[1])[..n];
  }

  lemma {:induction false} InTheDiv(n: nat)
    requires n <= 3
    ensures ValidPlace(LEADING_EMPTY, [0, 1], n)
    ensures Before(LEADING_EMPTY, [0, 1], n)
         == WrapAll(DIV, WrapAll(BOLD, Content(LEADING_EMPTY.kids[0].kids[1])[..n]))
  {
    assert LEADING_EMPTY.kids[..0] == [] && !IsLeaf(LEADING_EMPTY);
    InTheBold(n);
    VisibleNothing();
    hide Visible, VisibleInAll, VisibleIn, Content, ContentAll, Before, Behind, ValidPlace, WrapAll;
    assert [0, 1] == [0] + [1];
    PlaceInKid(LEADING_EMPTY, 0, [1], n);
    var bold := WrapAll(BOLD, Content(LEADING_EMPTY.kids[0].kids[1])[..n]);
    assert [] + bold == bold;
  }

  lemma {:induction false} BeforeInExample(n: nat)
    requires n <= 3
    ensures ValidPlace(LEADING_EMPTY, [0, 1], n)
    ensures |Before(LEADING_EMPTY, [0, 1], n)| == n
    ensures forall i | 0 <= i < n :: Before(LEADING_EMPTY, [0, 1], n)[i] == InBold("abc"[i])
  {
    var data := Content(LEADING_EMPTY.kids[0].kids[1])[..n];
    assert |data| == n && forall i | 0 <= i < n :: data[i] == Character("abc"[i], []);
    InTheDiv(n);
    hide Content, Before, Behind, ValidPlace, WrapAll;
    WrapTwice(DIV, BOLD, data);
  }

  lemma {:induction false} SecondLetter(b: seq<Token>)
    requires ValidPlace(LEADING_EMPTY, [0, 1], 1) && ValidPlace(LEADING_EMPTY, [0, 1], 2)
    requires Before(LEADING_EMPTY, [0, 1], 1) + b == Before(LEADING_EMPTY, [0, 1], 2)
    ensures b == [InBold('b')]
  {
    hide Before, ValidPlace;
    BeforeInExample(1);
    BeforeInExample(2);
    var a := Before(LEADING_EMPTY, [0, 1], 1);
    assert |a + b| == |a| + |b| && b[0] == (a + b)[1] == InBold("abc"[1]);
  }

  /** What the end's split drops from the B: the empty text. */
  lemma {:induction false} DroppedInExample(n: nat)
    requires 0 < n <= 3
    ensures ValidPlace(LEADING_EMPTY, [0, 1], n)
    ensures var t := UpTo(LEADING_EMPTY, [0, 1], n);
      && HasNode(t, [0, 1]) && t.Element? && |t.kids| == 1 && t.kids[0].Element? && |t.kids[0].kids| == 2
      && t.kids[0].kids[1].Text? && Dropped(WEBKIT, t.kids[0]) == 1
  {
    var b, left := LEADING_EMPTY.kids[0], Text(4, "abc"[..n]);
    assert [0, 1][1..] == [1] && [1][1..] == [];
    assert b.kids[..1] == [Text(3, "")] && LEADING_EMPTY.kids[..0] == [];
    assert UpTo(b, [1], n) == Element(2, BOLD, [Text(3, ""), left]);
    assert [Text(3, ""), left][1..] == [left] && !EmptyText(left);
    assert DropEmptyTexts([Text(3, ""), left]) == DropEmptyTexts([left]) == [left];
    assert UpTo(LEADING_EMPTY, [0, 1], n).kids == [] + [UpTo(b, [1], n)];
  }

  lemma {:induction false} PlacesInExample(n: nat)
    requires 0 < n <= 3
    ensures ValidPlace(LEADING_EMPTY, [0, 1], n) && ValidPlace(LEADING_EMPTY, [0], 1)
    ensures ValidPlace(LEADING_EMPTY, [0, 0], 0)
    ensures PlaceLe([0], 1, [0, 1], n) && !PlaceLe([0], 2, [0, 1], n) && PlaceLe([0, 0], 0, [0, 1], n)
    ensures PlaceLe([0, 1], 1, [0, 1], n)
    ensures !Lost(WEBKIT, LEADING_EMPTY, [0, 1], n, [0]) && Drift(WEBKIT, LEADING_EMPTY, [0, 1], n, [0]) == 1
    ensures !Lost(WEBKIT, LEADING_EMPTY, [0, 1], n, [0, 1]) && Drift(WEBKIT, LEADING_EMPTY, [0, 1], n, [0, 1]) == 0
    ensures Lost(WEBKIT, LEADING_EMPTY, [0, 1], n, [0, 0])
  {
    DroppedInExample(n);
    hide UpTo, Dropped;
    assert [0, 1][1..] == [1] && [1][1..] == [] && [0][1..] == [] && [0, 0][1..] == [0];
  }

  /** One child further on is behind the end, so the start comes to mean the end. */
  lemma {:induction false} StartMeansEnd(n: nat)
    requires 0 < n <= 3
    ensures ValidPlace(LEADING_EMPTY, [0, 1], n) && ValidPlace(LEADING_EMPTY, [0], 1)
    ensures MeantBefore(WEBKIT, LEADING_EMPTY, [0, 1], n, [0], 1) == Before(LEADING_EMPTY, [0, 1], n)
  {
    PlacesInExample(n);
    hide Before, Behind, ValidPlace, Lost, Drift, PlaceLe;
  }

  /** In WebKit the end's split takes the leading empty text out of the B. A start that is an
      offset into the B then means a place behind the "a", so the extraction of "a" is empty. */
  method StartDrifts() returns (x: Option<Extraction>)
    ensures x.Some? && WrapAll(DIV, VisibleInAll(x.value.frag)) == []
    ensures ValidPlace(LEADING_EMPTY, [0], 1) && Before(LEADING_EMPTY, [0], 1) == []
    ensures ValidPlace(LEADING_EMPTY, [0, 1], 1) && Before(LEADING_EMPTY, [0, 1], 1) == [InBold('a')]
  {
    PlacesInExample(1);
    BeforeInExample(1);
    BeforeTheText();
    StartMeansEnd(1);
    hide Before, Behind, ValidPlace, Lost, Drift, PlaceLe, VisibleInAll, VisibleIn, WrapAll, StartStays, Padded,
         PaddedRoot, RunsFor, Meant, MeantBefore, Content;
    ghost var f, g;
    x, f, g := ExtractContents(WEBKIT, LEADING_EMPTY, [0], 1, [0, 1], 1);
  }

  /** A start in the text behind the empty one is a node that is held on to: "b" comes out. */
  method StartHolds() returns (x: Option<Extraction>)
    ensures x.Some? && WrapAll(DIV, VisibleInAll(x.value.frag)) == [InBold('b')]
  {
    PlacesInExample(2);
    NoDrift(WEBKIT, LEADING_EMPTY, [0, 1], 2, [0, 1], 1);
    PlacesInExample(1);
    hide Before, Behind, ValidPlace, Lost, Drift, PlaceLe, MeantBefore, VisibleInAll, VisibleIn, WrapAll, Padded,
      PaddedRoot, StartStays, Content;
    ghost var f, g;
    x, f, g := ExtractContents(WEBKIT, LEADING_EMPTY, [0, 1], 1, [0, 1], 2);
    SecondLetter(WrapAll(DIV, VisibleInAll(x.value.frag)));
  }

  /** A start in the empty text itself is lost: the second split meets a node without a parent. */
  method StartThrows() returns (x: Option<Extraction>)
    ensures x.None?
  {
    PlacesInExample(1);
    hide Before, Behind, ValidPlace, Lost, Drift, PlaceLe, MeantBefore, VisibleInAll, VisibleIn, WrapAll, Padded,
         PaddedRoot;
    ghost var f, g;
    x, f, g := ExtractContents(WEBKIT, LEADING_EMPTY, [0, 0], 0, [0, 1], 1);
  }
}
