/** Squire's split and extractContentsOfRange (war/components/Squire/squire-raw.js:332-402,
    448-497, 717-767). A place in a tree is a path of child indices to a container and an
    offset into its characters or children. */
module SplitTree {
  import opened Dom
  import opened Wrappers

  type Path = seq<nat>

  // ----- content up to the fixers that make the cursor visible -----

  const ZWS: char := '\U{200B}'

  predicate IsFixer(t: Token) {
    match t
    case Character(c, _) => c == ZWS
    case Leaf(tag, _) => tag.name == "BR"
  }

  /** The content without line breaks and zero-width spaces. */
  function Visible(ts: seq<Token>): seq<Token> {
    if ts == [] then []
    else if IsFixer(ts[0]) then Visible(ts[1..])
    else [ts[0]] + Visible(ts[1..])
  }

  lemma {:induction false} VisibleConcat(a: seq<Token>, b: seq<Token>)
    ensures Visible(a + b) == Visible(a) + Visible(b)
    decreases a
  {
    if a == [] {
      assert a + b == b;
    } else {
      assert (a + b)[1..] == a[1..] + b;
      VisibleConcat(a[1..], b);
    }
  }

  lemma {:induction false} VisibleWrap(tag: Tag, ts: seq<Token>)
    ensures Visible(WrapAll(tag, ts)) == WrapAll(tag, Visible(ts))
    decreases ts
  {
    if ts != [] {
      assert WrapAll(tag, ts)[1..] == WrapAll(tag, ts[1..]);
      VisibleWrap(tag, ts[1..]);
    }
  }

  lemma {:induction false} WrapConcat(tag: Tag, a: seq<Token>, b: seq<Token>)
    ensures WrapAll(tag, a + b) == WrapAll(tag, a) + WrapAll(tag, b)
  {}

  // ----- fixCursor -----

  /** Whether the browser cannot focus empty text nodes (WebKit). */
  datatype Config = Config(cantFocusEmptyTextNodes: bool)

  predicate EmptyText(node: Node) {
    node.Text? && node.data == ""
  }

  function DropEmptyTexts(kids: seq<Node>): (r: seq<Node>)
    ensures |r| <= |kids|
  {
    if kids != [] && EmptyText(kids[0]) then DropEmptyTexts(kids[1..]) else kids
  }

  predicate HasBR(node: Node) {
    node.Element? && exists k | k in node.kids :: (k.Element? && k.tag.name == "BR") || HasBR(k)
  }

  /** lastElementChild, as an index; |kids| if there is none. */
  function LastElement(kids: seq<Node>): (i: nat)
    ensures i < |kids| ==> kids[i].Element?
    ensures i <= |kids|
  {
    if kids == [] then 0
    else if kids[|kids| - 1].Element? then |kids| - 1
    else
      var i := LastElement(kids[..|kids| - 1]);
      if i == |kids| - 1 then |kids| else i
  }

  const LINE_BREAK: Node := Element(0, Tag("BR", "", ""), [])

  function AppendBR(node: Node): Node
    requires node.Element?
  {
    var i := LastElement(node.kids);
    if i < |node.kids| && !IsInline(node.kids[i]) then
      Element(node.id, node.tag, node.kids[i := AppendBR(node.kids[i])])
    else
      Element(node.id, node.tag, node.kids + [LINE_BREAK])
  }

  /** fixCursor on an element below the body. */
  function FixCursor(cfg: Config, node: Node): (r: Node)
    requires node.Element?
    ensures r.Element? && r.id == node.id && r.tag == node.tag
  {
    if IsInline(node) then
      var kids := if cfg.cantFocusEmptyTextNodes then DropEmptyTexts(node.kids) else node.kids;
      if kids != [] then Element(node.id, node.tag, kids)
      else Element(node.id, node.tag, [Text(0, if cfg.cantFocusEmptyTextNodes then [ZWS] else "")])
    else if HasBR(node) then node
    else AppendBR(node)
  }

  lemma {:induction false} ContentSplice(a: seq<Node>, m: Node, b: seq<Node>)
    ensures ContentAll(a + [m] + b) == ContentAll(a) + Content(m) + ContentAll(b)
  {
    ContentAllConcat(a + [m], b);
    ContentAllConcat(a, [m]);
    ContentAllOne(m);
  }

  function VisibleIn(node: Node): seq<Token> {
    Visible(Content(node))
  }

  function VisibleInAll(nodes: seq<Node>): seq<Token> {
    Visible(ContentAll(nodes))
  }

  /** What an element shows follows from what its children show. */
  lemma {:induction false} VisibleElement(id: NodeId, tag: Tag, kids: seq<Node>)
    ensures VisibleIn(Element(id, tag, kids)) == Visible(OwnTokens(tag)) + WrapAll(tag, VisibleInAll(kids))
  {
    VisibleConcat(OwnTokens(tag), WrapAll(tag, ContentAll(kids)));
    VisibleWrap(tag, ContentAll(kids));
  }

  lemma {:induction false} VisibleSplice(a: seq<Node>, m: Node, b: seq<Node>)
    ensures VisibleInAll(a + [m] + b) == VisibleInAll(a) + VisibleIn(m) + VisibleInAll(b)
  {
    ContentSplice(a, m, b);
    VisibleConcat(ContentAll(a) + Content(m), ContentAll(b));
    VisibleConcat(ContentAll(a), Content(m));
  }

  lemma {:induction false} VisibleAround(kids: seq<Node>, i: nat)
    requires i < |kids|
    ensures VisibleInAll(kids) == VisibleInAll(kids[..i]) + VisibleIn(kids[i]) + VisibleInAll(kids[i + 1..])
  {
    VisibleSplice(kids[..i], kids[i], kids[i + 1..]);
    assert kids == kids[..i] + [kids[i]] + kids[i + 1..];
  }

  lemma {:induction false} VisibleAllConcat(a: seq<Node>, b: seq<Node>)
    ensures VisibleInAll(a + b) == VisibleInAll(a) + VisibleInAll(b)
  {
    ContentAllConcat(a, b);
    VisibleConcat(ContentAll(a), ContentAll(b));
  }

  lemma {:induction false} VisibleNothing()
    ensures VisibleInAll([]) == []
  {}

  lemma {:induction false} DropEmptyTextsVisible(kids: seq<Node>)
    ensures ContentAll(DropEmptyTexts(kids)) == ContentAll(kids)
  {
    if kids != [] && EmptyText(kids[0]) {
      DropEmptyTextsVisible(kids[1..]);
      assert Content(kids[0]) == [];
      hide Content;
      assert ContentAll(kids) == [] + ContentAll(kids[1..]);
    }
  }

  lemma {:induction false} FixersInvisible()
    ensures VisibleIn(LINE_BREAK) == []
    ensures VisibleIn(Text(0, [ZWS])) == [] && VisibleIn(Text(0, "")) == []
  {
    assert Content(LINE_BREAK) == [Leaf(LINE_BREAK.tag, [])];
    assert Content(Text(0, [ZWS])) == [Character(ZWS, [])];
    assert Content(Text(0, "")) == [];
    assert forall t: Token :: [t][1..] == [];
  }

  lemma {:induction false} AppendBRVisible(node: Node)
    requires node.Element?
    ensures VisibleIn(AppendBR(node)) == VisibleIn(node)
  {
    hide Visible, Content, ContentAll, VisibleIn, VisibleInAll, WrapAll;
    var i := LastElement(node.kids);
    var kids' := AppendBR(node).kids;
    assert AppendBR(node) == Element(node.id, node.tag, kids');
    assert node == Element(node.id, node.tag, node.kids);
    VisibleElement(node.id, node.tag, node.kids);
    VisibleElement(node.id, node.tag, kids');
    if i < |node.kids| && !IsInline(node.kids[i]) {
      AppendBRVisible(node.kids[i]);
      VisibleSplice(node.kids[..i], node.kids[i], node.kids[i + 1..]);
      VisibleSplice(node.kids[..i], AppendBR(node.kids[i]), node.kids[i + 1..]);
      assert node.kids == node.kids[..i] + [node.kids[i]] + node.kids[i + 1..];
      assert kids' == node.kids[..i] + [AppendBR(node.kids[i])] + node.kids[i + 1..];
    } else {
      FixersInvisible();
      VisibleSplice(node.kids, LINE_BREAK, []);
      VisibleNothing();
      assert kids' == node.kids + [LINE_BREAK] + [];
      assert VisibleInAll(kids') == VisibleInAll(node.kids);
    }
  }

  lemma {:induction false} FixCursorVisible(cfg: Config, node: Node)
    requires node.Element?
    ensures VisibleIn(FixCursor(cfg, node)) == VisibleIn(node)
  {
    if IsInline(node) {
      DropEmptyTextsVisible(node.kids);
      var fixer := Text(0, if cfg.cantFocusEmptyTextNodes then [ZWS] else "");
      FixersInvisible();
      VisibleSplice([], fixer, []);
      assert [fixer] == [] + [fixer] + [];
      VisibleElement(node.id, node.tag, node.kids);
      VisibleElement(node.id, node.tag, FixCursor(cfg, node).kids);
    } else if !HasBR(node) {
      AppendBRVisible(node);
    }
  }

  // ----- places -----

  /** The path leads to a container; elements on it are no leaves. */
  predicate ValidPlace(node: Node, p: Path, o: nat)
    decreases p
  {
    !IsLeaf(node) &&
    if p == [] then node.Text? ==> o <= |node.data|
    else node.Element? && p[0] < |node.kids| && ValidPlace(node.kids[p[0]], p[1..], o)
  }

  function Cut(kids: seq<Node>, o: nat): nat {
    if o < |kids| then o else |kids|
  }

  /** What the tree shows before the place, and behind it. */
  function Before(node: Node, p: Path, o: nat): seq<Token>
    requires ValidPlace(node, p, o)
    decreases p
  {
    match node
    case Text(_, data) => Visible(Content(node)[..o])
    case Element(_, tag, kids) =>
      WrapAll(tag,
        if p == [] then VisibleInAll(kids[..Cut(kids, o)])
        else VisibleInAll(kids[..p[0]]) + Before(kids[p[0]], p[1..], o))
  }

  function Behind(node: Node, p: Path, o: nat): seq<Token>
    requires ValidPlace(node, p, o)
    decreases p
  {
    match node
    case Text(_, data) => Visible(Content(node)[o..])
    case Element(_, tag, kids) =>
      WrapAll(tag,
        if p == [] then VisibleInAll(kids[Cut(kids, o)..])
        else Behind(kids[p[0]], p[1..], o) + VisibleInAll(kids[p[0] + 1..]))
  }

  lemma {:induction false} TextCuts(node: Node, o: nat)
    requires node.Text? && o <= |node.data|
    ensures Visible(Content(node)[..o]) + Visible(Content(node)[o..]) == VisibleIn(node)
  {
    VisibleConcat(Content(node)[..o], Content(node)[o..]);
    assert Content(node)[..o] + Content(node)[o..] == Content(node);
  }

  /** Every place cuts the whole in two. */
  lemma {:induction false} PlaceCuts(node: Node, p: Path, o: nat)
    requires ValidPlace(node, p, o)
    ensures Before(node, p, o) + Behind(node, p, o) == VisibleIn(node)
    decreases p
  {
    if node.Text? {
      TextCuts(node, o);
    } else {
      var kids := node.kids;
      if p == [] {
        CutKids(node, Cut(kids, o), VisibleInAll(kids[..Cut(kids, o)]), VisibleInAll(kids[Cut(kids, o)..]));
      } else {
        PlaceCuts(kids[p[0]], p[1..], o);
        hide Before, Behind, Visible, Content, ContentAll, VisibleIn, VisibleInAll, WrapAll;
        CutThroughKid(node, p[0], Before(kids[p[0]], p[1..], o), Behind(kids[p[0]], p[1..], o));
        BeforeIn(node, p, o);
      }
    }
  }

  lemma {:induction false} BeforeIn(node: Node, p: Path, o: nat)
    requires ValidPlace(node, p, o) && p != []
    ensures Before(node, p, o)
         == WrapAll(node.tag, VisibleInAll(node.kids[..p[0]]) + Before(node.kids[p[0]], p[1..], o))
    ensures Behind(node, p, o)
         == WrapAll(node.tag, Behind(node.kids[p[0]], p[1..], o) + VisibleInAll(node.kids[p[0] + 1..]))
  {}

  lemma {:induction false} CutKids(node: Node, k: nat, a: seq<Token>, b: seq<Token>)
    requires node.Element? && !IsLeaf(node) && k <= |node.kids|
    requires a == VisibleInAll(node.kids[..k]) && b == VisibleInAll(node.kids[k..])
    ensures WrapAll(node.tag, a) + WrapAll(node.tag, b) == VisibleIn(node)
  {
    VisibleElement(node.id, node.tag, node.kids);
    assert Visible(OwnTokens(node.tag)) == [];
    hide Visible, Content, ContentAll, VisibleIn, VisibleInAll, WrapAll;
    VisibleAllConcat(node.kids[..k], node.kids[k..]);
    WrapConcat(node.tag, a, b);
    assert node.kids[..k] + node.kids[k..] == node.kids;
  }

  lemma {:induction false} CutThroughKid(node: Node, i: nat, b: seq<Token>, c: seq<Token>)
    requires node.Element? && !IsLeaf(node) && i < |node.kids| && b + c == VisibleIn(node.kids[i])
    ensures VisibleIn(node)
         == WrapAll(node.tag, VisibleInAll(node.kids[..i]) + b)
          + WrapAll(node.tag, c + VisibleInAll(node.kids[i + 1..]))
  {
    VisibleElement(node.id, node.tag, node.kids);
    assert Visible(OwnTokens(node.tag)) == [];
    hide Visible, Content, ContentAll, VisibleIn, VisibleInAll, WrapAll;
    var a, d := VisibleInAll(node.kids[..i]), VisibleInAll(node.kids[i + 1..]);
    VisibleAround(node.kids, i);
    Regroup(a, b, c, d);
    WrapConcat(node.tag, a + b, c + d);
  }

  lemma {:induction false} Regroup(a: seq<Token>, b: seq<Token>, c: seq<Token>, d: seq<Token>)
    ensures (a + b) + (c + d) == a + (b + c) + d
  {}

  // ----- split -----

  /** The two halves into which one node goes: the node keeps what is before the place, a
      clone gets the rest. */
  function LeftHalf(cfg: Config, node: Node, o: nat): Node {
    match node
    case Text(id, data) => if o <= |data| then Text(id, data[..o]) else node
    case Element(id, tag, kids) => FixCursor(cfg, Element(id, tag, kids[..Cut(kids, o)]))
  }

  function RightHalf(cfg: Config, node: Node, o: nat): Node {
    match node
    case Text(id, data) => if o <= |data| then Text(id, data[o..]) else Text(id, "")
    case Element(id, tag, kids) => FixCursor(cfg, Element(id, tag, kids[Cut(kids, o)..]))
  }

  function SplitKid(cfg: Config, kids: seq<Node>, i: nat, o: nat): seq<Node>
    requires i < |kids|
  {
    kids[..i] + [LeftHalf(cfg, kids[i], o), RightHalf(cfg, kids[i], o)] + kids[i + 1..]
  }

  /** The tree in which the node at path p, not the root, is split at offset o. */
  function SplitAt(cfg: Config, node: Node, p: Path, o: nat): Node
    requires p != [] && ValidPlace(node, p, o)
    decreases p
  {
    Element(node.id, node.tag,
      if |p| == 1 then SplitKid(cfg, node.kids, p[0], o)
      else node.kids[p[0] := SplitAt(cfg, node.kids[p[0]], p[1..], o)])
  }

  lemma {:induction false} PartShown(cfg: Config, node: Node, kids: seq<Node>)
    requires node.Element? && !IsLeaf(node)
    ensures VisibleIn(FixCursor(cfg, Element(node.id, node.tag, kids))) == WrapAll(node.tag, VisibleInAll(kids))
  {
    assert Visible(OwnTokens(node.tag)) == [];
    hide Visible, Content, ContentAll, VisibleIn, VisibleInAll, WrapAll, FixCursor;
    FixCursorVisible(cfg, Element(node.id, node.tag, kids));
    VisibleElement(node.id, node.tag, kids);
  }

  lemma {:induction false} HalvesVisible(cfg: Config, node: Node, o: nat)
    requires ValidPlace(node, [], o)
    ensures VisibleIn(LeftHalf(cfg, node, o)) == Before(node, [], o)
    ensures VisibleIn(RightHalf(cfg, node, o)) == Behind(node, [], o)
  {
    if node.Text? {
      assert Content(LeftHalf(cfg, node, o)) == Content(node)[..o];
      assert Content(RightHalf(cfg, node, o)) == Content(node)[o..];
    } else {
      var k := Cut(node.kids, o);
      hide Visible, Content, ContentAll, VisibleInAll, WrapAll, FixCursor;
      PartShown(cfg, node, node.kids[..k]);
      PartShown(cfg, node, node.kids[k..]);
    }
  }

  /** The place above: behind the left half. */
  function UpPath(p: Path): Path
    requires p != []
  {
    p[..|p| - 1]
  }

  function UpOffset(p: Path): nat
    requires p != []
  {
    p[|p| - 1] + 1
  }

  lemma {:induction false} SplitKidPlace(cfg: Config, kids: seq<Node>, i: nat, o: nat)
    requires i < |kids| && ValidPlace(kids[i], [], o)
    ensures VisibleInAll(SplitKid(cfg, kids, i, o)[..i + 1]) == VisibleInAll(kids[..i]) + Before(kids[i], [], o)
    ensures VisibleInAll(SplitKid(cfg, kids, i, o)[i + 1..]) == Behind(kids[i], [], o) + VisibleInAll(kids[i + 1..])
  {
    HalvesVisible(cfg, kids[i], o);
    hide Before, Behind, LeftHalf, RightHalf, Visible, Content, ContentAll, VisibleIn, VisibleInAll, WrapAll;
    var left, right := LeftHalf(cfg, kids[i], o), RightHalf(cfg, kids[i], o);
    TwoBetween(kids[..i], left, right, kids[i + 1..]);
    VisibleOneMore(kids[..i], left);
    VisibleOneBefore(right, kids[i + 1..]);
  }

  lemma {:induction false} TwoBetween(a: seq<Node>, l: Node, r: Node, b: seq<Node>)
    ensures (a + [l, r] + b)[..|a| + 1] == a + [l] && (a + [l, r] + b)[|a| + 1..] == [r] + b
  {}

  lemma {:induction false} VisibleOneMore(a: seq<Node>, m: Node)
    ensures VisibleInAll(a + [m]) == VisibleInAll(a) + VisibleIn(m)
  {
    VisibleAllConcat(a, [m]);
    ContentAllOne(m);
  }

  lemma {:induction false} VisibleOneBefore(m: Node, b: seq<Node>)
    ensures VisibleInAll([m] + b) == VisibleIn(m) + VisibleInAll(b)
  {
    VisibleAllConcat([m], b);
    ContentAllOne(m);
  }

  lemma {:induction false} ValidKid(node: Node, p: Path, o: nat)
    requires p != [] && ValidPlace(node, p, o)
    ensures node.Element? && !IsLeaf(node) && p[0] < |node.kids| && ValidPlace(node.kids[p[0]], p[1..], o)
    ensures p == [p[0]] + p[1..] && (|p| > 1 ==> node.kids[p[0]].Element?)
  {}

  /** A place in a child. */
  lemma {:induction false} PlaceInKid(node: Node, i: nat, w: Path, o: nat)
    requires node.Element? && !IsLeaf(node) && i < |node.kids| && ValidPlace(node.kids[i], w, o)
    ensures ValidPlace(node, [i] + w, o)
    ensures Before(node, [i] + w, o) == WrapAll(node.tag, VisibleInAll(node.kids[..i]) + Before(node.kids[i], w, o))
    ensures Behind(node, [i] + w, o)
         == WrapAll(node.tag, Behind(node.kids[i], w, o) + VisibleInAll(node.kids[i + 1..]))
  {
    assert ([i] + w)[1..] == w;
  }

  lemma {:induction false} SplitInKid(cfg: Config, node: Node, p: Path, o: nat)
    requires |p| > 1 && ValidPlace(node, p, o)
    ensures node.Element? && !IsLeaf(node) && p[0] < |node.kids| && ValidPlace(node.kids[p[0]], p[1..], o)
    ensures var node', kid' := SplitAt(cfg, node, p, o), SplitAt(cfg, node.kids[p[0]], p[1..], o);
      && node' == Element(node.id, node.tag, node.kids[p[0] := kid']) && node'.kids[p[0]] == kid'
      && node'.kids[..p[0]] == node.kids[..p[0]] && node'.kids[p[0] + 1..] == node.kids[p[0] + 1..]
    ensures UpPath(p) == [p[0]] + UpPath(p[1..]) && UpOffset(p) == UpOffset(p[1..]) && p == [p[0]] + p[1..]
  {
    hide LeftHalf, RightHalf;
  }

  /** One split keeps the place: between the two halves. */
  lemma {:induction false} SplitAtKeepsPlace(cfg: Config, node: Node, p: Path, o: nat)
    requires p != [] && ValidPlace(node, p, o)
    ensures ValidPlace(SplitAt(cfg, node, p, o), UpPath(p), UpOffset(p))
    ensures Before(SplitAt(cfg, node, p, o), UpPath(p), UpOffset(p)) == Before(node, p, o)
    ensures Behind(SplitAt(cfg, node, p, o), UpPath(p), UpOffset(p)) == Behind(node, p, o)
    decreases p
  {
    hide LeftHalf, RightHalf, Visible, Content, ContentAll, VisibleIn, VisibleInAll, WrapAll;
    var i := p[0];
    if |p| == 1 {
      assert p == [i] && UpPath(p) == [];
      SplitHereKeeps(cfg, node, i, o);
    } else {
      SplitInKid(cfg, node, p, o);
      SplitAtKeepsPlace(cfg, node.kids[i], p[1..], o);
      hide SplitAt, ValidPlace, Before, Behind;
      PlaceInKid(node, i, p[1..], o);
      PlaceInKid(SplitAt(cfg, node, p, o), i, UpPath(p[1..]), UpOffset(p));
    }
  }

  lemma {:induction false} SplitHereKeeps(cfg: Config, node: Node, i: nat, o: nat)
    requires ValidPlace(node, [i], o)
    ensures ValidPlace(SplitAt(cfg, node, [i], o), [], i + 1)
    ensures Before(SplitAt(cfg, node, [i], o), [], i + 1) == Before(node, [i], o)
    ensures Behind(SplitAt(cfg, node, [i], o), [], i + 1) == Behind(node, [i], o)
  {
    hide LeftHalf, RightHalf, Visible, Content, ContentAll, VisibleIn, VisibleInAll, WrapAll;
    assert [i][1..] == [];
    SplitKidPlace(cfg, node.kids, i, o);
  }

  function SplitUp(cfg: Config, stop: Node, p: Path, o: nat): (r: (Node, nat))
    requires stop.Element? && ValidPlace(stop, p, o)
    ensures r.0.Element? && r.0.id == stop.id && r.0.tag == stop.tag
    decreases |p|
  {
    if p == [] then (stop, Cut(stop.kids, o))
    else
      SplitAtKeepsPlace(cfg, stop, p, o);
      SplitUp(cfg, SplitAt(cfg, stop, p, o), UpPath(p), UpOffset(p))
  }

  /** Of the stop node's children only the one on the path changes: it becomes two. */
  lemma {:induction false} SplitUpTop(cfg: Config, stop: Node, p: Path, o: nat)
    requires stop.Element? && p != [] && ValidPlace(stop, p, o)
    ensures var (stop', k) := SplitUp(cfg, stop, p, o);
            && k == p[0] + 1 && stop'.Element? && |stop'.kids| == |stop.kids| + 1
            && stop'.kids[k + 1..] == stop.kids[k..]
    decreases |p|
  {
    hide ValidPlace, Before, Behind, Visible, Content, ContentAll, VisibleIn, VisibleInAll, WrapAll, LeftHalf,
         RightHalf;
    ValidKid(stop, p, o);
    SplitAtKeepsPlace(cfg, stop, p, o);
    SplitAtTag(cfg, stop, p, o);
    var next := SplitAt(cfg, stop, p, o);
    if |p| > 1 {
      SplitUpTop(cfg, next, UpPath(p), UpOffset(p));
      assert next.kids[p[0] + 1..] == stop.kids[p[0] + 1..];
    } else {
      assert next.kids[p[0] + 2..] == stop.kids[p[0] + 1..];
    }
  }

  // ----- a node that is held on to -----

  /** How many leading children fixCursor takes away. */
  function Dropped(cfg: Config, node: Node): nat
    requires node.Element?
  {
    if cfg.cantFocusEmptyTextNodes && IsInline(node) then |node.kids| - |DropEmptyTexts(node.kids)| else 0
  }

  /** What the node at the place keeps of its children, before fixCursor. */
  function Kept(node: Node, o: nat): Node
    requires node.Element?
  {
    Element(node.id, node.tag, node.kids[..Cut(node.kids, o)])
  }

  /** What its clone gets. */
  function Given(node: Node, o: nat): Node
    requires node.Element?
  {
    Element(node.id, node.tag, node.kids[Cut(node.kids, o)..])
  }

  /** Where the node at path w is when the node at path p has been split; None when fixCursor
      has taken it out of the tree. */
  function Follow(cfg: Config, node: Node, p: Path, o: nat, w: Path): Option<Path>
    requires p != [] && ValidPlace(node, p, o)
    decreases p
  {
    var i, kid := p[0], node.kids[p[0]];
    if w == [] || w[0] < i then Some(w)
    else if w[0] > i then Some([if |p| == 1 then w[0] + 1 else w[0]] + w[1..])
    else if |p| > 1 then
      match Follow(cfg, kid, p[1..], o, w[1..])
      case None => None
      case Some(f) => Some([i] + f)
    else if |w| == 1 || kid.Text? then Some(w)
    else
      var c, d := Cut(kid.kids, o), Dropped(cfg, Kept(kid, o));
      var e := Dropped(cfg, Given(kid, o));
      if w[1] < c then (if w[1] < d then None else Some([i, w[1] - d] + w[2..]))
      else if w[1] - c < e then None else Some([i + 1, w[1] - c - e] + w[2..])
  }

  function FollowUp(cfg: Config, stop: Node, p: Path, o: nat, w: Path): Option<Path>
    requires stop.Element? && ValidPlace(stop, p, o)
    decreases |p|
  {
    if p == [] then Some(w)
    else match Follow(cfg, stop, p, o, w)
      case None => None
      case Some(f) =>
        SplitAtKeepsPlace(cfg, stop, p, o);
        FollowUp(cfg, SplitAt(cfg, stop, p, o), UpPath(p), UpOffset(p), f)
  }

  predicate HasNode(node: Node, w: Path)
    decreases w
  {
    w != [] ==> node.Element? && w[0] < |node.kids| && HasNode(node.kids[w[0]], w[1..])
  }

  function NodeAt(node: Node, w: Path): Node
    requires HasNode(node, w)
    decreases w
  {
    if w == [] then node else NodeAt(node.kids[w[0]], w[1..])
  }

  lemma {:induction false} PlaceHasNode(node: Node, p: Path, o: nat)
    requires ValidPlace(node, p, o)
    ensures HasNode(node, p)
    decreases p
  {
    if p != [] {
      PlaceHasNode(node.kids[p[0]], p[1..], o);
    }
  }

  lemma {:induction false} NodeBelow(node: Node, i: nat, w: Path)
    requires node.Element? && i < |node.kids| && HasNode(node.kids[i], w)
    ensures HasNode(node, [i] + w) && NodeAt(node, [i] + w) == NodeAt(node.kids[i], w)
  {
    assert ([i] + w)[1..] == w;
  }

  /** The splitting goes up from the container until the stop node is reached, one level a
      round. What the stop node shows stays; its children before the result show what was
      before the place, those from it on what was behind it. A node that the caller holds on
      to, at path watch, is followed. */
  method Split(cfg: Config, stop: Node, path: Path, offset: nat, watch: Path)
    returns (stop': Node, k: nat, watched: Option<Path>)
    requires stop.Element? && ValidPlace(stop, path, offset)
    ensures (stop', k) == SplitUp(cfg, stop, path, offset)
    ensures watched == FollowUp(cfg, stop, path, offset, watch)
    ensures stop'.Element? && stop'.id == stop.id && stop'.tag == stop.tag && k <= |stop'.kids|
    ensures WrapAll(stop.tag, VisibleInAll(stop'.kids[..k])) == Before(stop, path, offset)
    ensures WrapAll(stop.tag, VisibleInAll(stop'.kids[k..])) == Behind(stop, path, offset)
    ensures VisibleIn(stop') == VisibleIn(stop)
  {
    hide LeftHalf, RightHalf, ValidPlace, SplitAt, Visible, Content, ContentAll, VisibleIn, VisibleInAll, WrapAll,
         Follow;
    var p, o := path, offset;
    stop', watched := stop, Some(watch);
    PlaceCuts(stop, path, offset);
    while p != []
      invariant stop'.Element? && stop'.id == stop.id && stop'.tag == stop.tag && ValidPlace(stop', p, o)
      invariant Before(stop', p, o) == Before(stop, path, offset)
      invariant Behind(stop', p, o) == Behind(stop, path, offset)
      invariant SplitUp(cfg, stop', p, o) == SplitUp(cfg, stop, path, offset)
      invariant FollowUp(cfg, stop, path, offset, watch)
             == if watched.Some? then FollowUp(cfg, stop', p, o, watched.value) else None
      decreases |p|
    {
      SplitAtKeepsPlace(cfg, stop', p, o);
      SplitAtTag(cfg, stop', p, o);
      watched := if watched.Some? then Follow(cfg, stop', p, o, watched.value) else None;
      stop' := SplitAt(cfg, stop', p, o);
      p, o := UpPath(p), UpOffset(p);
    }
    k := Cut(stop'.kids, o);
    PlaceCuts(stop', [], o);
  }

  lemma {:induction false} SplitAtTag(cfg: Config, node: Node, p: Path, o: nat)
    requires p != [] && ValidPlace(node, p, o)
    ensures SplitAt(cfg, node, p, o).Element? && SplitAt(cfg, node, p, o).tag == node.tag
    ensures SplitAt(cfg, node, p, o).id == node.id
  {}
}
