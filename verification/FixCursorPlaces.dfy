/** What fixCursor (war/components/Squire/squire-raw.js:332-402) does to the places in a tree:
    what is before and behind them stays there, and leading children that it takes away move
    them. */
module FixCursorPlaces {
  import opened Dom
  import opened SplitTree
  import opened SplitConserves

  /** Between the children. */
  lemma {:induction false} AtKids(node: Node, o: nat, node': Node, o': nat)
    requires node.Element? && node'.Element? && node'.tag == node.tag && !IsLeaf(node)
    requires Padded(ContentAll(node.kids[..Cut(node.kids, o)]), ContentAll(node'.kids[..Cut(node'.kids, o')]))
    requires Padded(ContentAll(node.kids[Cut(node.kids, o)..]), ContentAll(node'.kids[Cut(node'.kids, o')..]))
    ensures Carried(node, [], o, node', [], o')
  {
    hide Padded, Content, ContentAll;
    var k, k' := Cut(node.kids, o), Cut(node'.kids, o');
    PaddedWrap(node.tag, ContentAll(node.kids[..k]), ContentAll(node'.kids[..k']));
    PaddedWrap(node.tag, ContentAll(node.kids[k..]), ContentAll(node'.kids[k'..]));
  }

  /** In a child that stays, perhaps at another index. */
  lemma {:induction false} InKid(node: Node, k: nat, node': Node, k': nat, w: Path, o: nat)
    requires node.Element? && node'.Element? && node'.tag == node.tag && !IsLeaf(node)
    requires k < |node.kids| && k' < |node'.kids| && node'.kids[k'] == node.kids[k] && ValidPlace(node.kids[k], w, o)
    requires Padded(ContentAll(node.kids[..k]), ContentAll(node'.kids[..k']))
    requires Padded(ContentAll(node.kids[k + 1..]), ContentAll(node'.kids[k' + 1..]))
    ensures Carried(node, [k] + w, o, node', [k'] + w, o)
  {
    assert !IsLeaf(node');
    ContentInKid(node, k, w, o);
    ContentInKid(node', k', w, o);
    hide Padded, Content, ContentAll, ValidPlace, ContentBefore, ContentBehind;
    var b, c, tag := ContentBefore(node.kids[k], w, o), ContentBehind(node.kids[k], w, o), node.tag;
    PaddedSelf(b);
    PaddedSelf(c);
    PaddedConcat(ContentAll(node.kids[..k]), ContentAll(node'.kids[..k']), b, b);
    PaddedConcat(c, c, ContentAll(node.kids[k + 1..]), ContentAll(node'.kids[k' + 1..]));
    PaddedWrap(tag, ContentAll(node.kids[..k]) + b, ContentAll(node'.kids[..k']) + b);
    PaddedWrap(tag, c + ContentAll(node.kids[k + 1..]), c + ContentAll(node'.kids[k' + 1..]));
  }

  lemma {:induction false} KidsReplaced(kids: seq<Node>, i: nat, m: Node, k: nat)
    requires i < |kids| && Padded(Content(kids[i]), Content(m)) && k <= |kids|
    ensures Padded(ContentAll(kids[..k]), ContentAll(kids[i := m][..k]))
    ensures Padded(ContentAll(kids[k..]), ContentAll(kids[i := m][k..]))
  {
    hide Padded, Content, ContentAll;
    ContentAllOne(kids[i]);
    ContentAllOne(m);
    if i < k {
      PaddedSplice(kids[..i], [kids[i]], [m], kids[i + 1..k]);
      assert kids[i := m][..k] == kids[..i] + [m] + kids[i + 1..k];
      assert kids[..k] == kids[..i] + [kids[i]] + kids[i + 1..k];
      assert kids[i := m][k..] == kids[k..];
      PaddedSelf(ContentAll(kids[k..]));
    } else {
      PaddedSplice(kids[k..i], [kids[i]], [m], kids[i + 1..]);
      assert kids[i := m][k..] == kids[k..i] + [m] + kids[i + 1..];
      assert kids[k..] == kids[k..i] + [kids[i]] + kids[i + 1..];
      assert kids[i := m][..k] == kids[..k];
      PaddedSelf(ContentAll(kids[..k]));
    }
  }

  /** A place that is not in the child that is replaced. */
  lemma {:induction false} AsideCarried(node: Node, i: nat, m: Node, p: Path, o: nat)
    requires node.Element? && i < |node.kids| && Padded(Content(node.kids[i]), Content(m))
    requires ValidPlace(node, p, o) && (p != [] ==> p[0] != i)
    ensures Carried(node, p, o, Element(node.id, node.tag, node.kids[i := m]), p, o)
  {
    var node' := Element(node.id, node.tag, node.kids[i := m]);
    assert !IsLeaf(node);
    hide Padded, Content, ContentAll, Carried, ContentBefore, ContentBehind, ValidPlace;
    if p == [] {
      KidsReplaced(node.kids, i, m, Cut(node.kids, o));
      AtKids(node, o, node', o);
    } else {
      var k, w := p[0], p[1..];
      ValidKid(node, p, o);
      KidsReplaced(node.kids, i, m, k);
      KidsReplaced(node.kids, i, m, k + 1);
      InKid(node, k, node', k, w, o);
    }
  }

  predicate IsFixerNode(node: Node) {
    node == LINE_BREAK || node == Text(0, [ZWS]) || node == Text(0, "")
  }

  /** A fixer is added behind the children. */
  lemma {:induction false} AppendedCarried(node: Node, fixer: Node, p: Path, o: nat)
    requires node.Element? && ValidPlace(node, p, o) && IsFixerNode(fixer)
    ensures Carried(node, p, o, Element(node.id, node.tag, node.kids + [fixer]), p, o)
  {
    var kids, node' := node.kids, Element(node.id, node.tag, node.kids + [fixer]);
    assert !IsLeaf(node);
    hide Padded, Content, ContentAll, Carried, ContentBefore, ContentBehind, ValidPlace;
    if p == [] {
      AppendedAt(kids, fixer, o);
      AtKids(node, o, node', o);
    } else {
      ValidKid(node, p, o);
      var k := p[0];
      assert node'.kids[..k] == kids[..k] && node'.kids[k] == kids[k] && node'.kids[k + 1..] == kids[k + 1..] + [fixer];
      PaddedSelf(ContentAll(kids[..k]));
      AddedFixer(kids[k + 1..], fixer);
      InKid(node, k, node', k, p[1..], o);
    }
  }

  lemma {:induction false} AppendedAt(kids: seq<Node>, fixer: Node, o: nat)
    requires IsFixerNode(fixer)
    ensures var kids' := kids + [fixer];
      && Padded(ContentAll(kids[..Cut(kids, o)]), ContentAll(kids'[..Cut(kids', o)]))
      && Padded(ContentAll(kids[Cut(kids, o)..]), ContentAll(kids'[Cut(kids', o)..]))
  {
    var kids' := kids + [fixer];
    var k, k' := Cut(kids, o), Cut(kids', o);
    hide Padded, Content, ContentAll;
    if o <= |kids| {
      assert kids'[..k'] == kids[..k] && kids'[k'..] == kids[k..] + [fixer];
      PaddedSelf(ContentAll(kids[..k]));
      AddedFixer(kids[k..], fixer);
    } else {
      assert kids'[..k'] == kids[..k] + [fixer] && kids'[k'..] == kids[k..] == [];
      AddedFixer(kids[..k], fixer);
      PaddedSelf(ContentAll(kids[k..]));
    }
  }

  lemma {:induction false} AppendBRCarries(node: Node, p: Path, o: nat)
    requires node.Element? && ValidPlace(node, p, o)
    ensures Carried(node, p, o, AppendBR(node), p, o)
    decreases node
  {
    hide Content, ContentAll, Carried, Padded;
    var i := LastElement(node.kids);
    if i < |node.kids| && !IsInline(node.kids[i]) {
      if p != [] && p[0] == i {
        AppendBRCarries(node.kids[i], p[1..], o);
        KidCarried(node, i, AppendBR(node.kids[i]), p[1..], o, p[1..], o);
        assert p == [i] + p[1..];
      } else {
        AppendBRPads(node.kids[i]);
        AsideCarried(node, i, AppendBR(node.kids[i]), p, o);
      }
    } else {
      AppendedCarried(node, LINE_BREAK, p, o);
    }
  }

  /** fixCursor takes no child away from the node. */
  predicate KeepsFirst(cfg: Config, node: Node) {
    cfg.cantFocusEmptyTextNodes && node.Element? && IsInline(node) && node.kids != [] ==> !EmptyText(node.kids[0])
  }

  lemma {:induction false} FixCursorKeeps(cfg: Config, node: Node, p: Path, o: nat)
    requires node.Element? && ValidPlace(node, p, o) && KeepsFirst(cfg, node)
    ensures Carried(node, p, o, FixCursor(cfg, node), p, o)
  {
    hide ValidPlace, Carried, AppendBR, HasBR;
    if IsInline(node) && node.kids == [] {
      var fixer := Text(0, if cfg.cantFocusEmptyTextNodes then [ZWS] else "");
      AppendedCarried(node, fixer, p, o);
      assert node.kids + [fixer] == [fixer];
    } else if IsInline(node) || HasBR(node) {
      assert FixCursor(cfg, node) == node;
      CarriedSelf(node, p, o);
    } else {
      AppendBRCarries(node, p, o);
    }
  }

  /** How a range at the place follows when the first d children are removed. */
  function Rebase(p: Path, o: nat, d: nat): (Path, nat) {
    if p == [] then ([], if o < d then 0 else o - d)
    else if p[0] < d then ([], 0)
    else ([p[0] - d] + p[1..], o)
  }

  lemma {:induction false} RebaseNothing(p: Path, o: nat)
    ensures Rebase(p, o, 0) == (p, o)
  {
    assert p != [] ==> [p[0]] + p[1..] == p;
  }

  lemma {:induction false} RebaseOneMore(p: Path, o: nat, d: nat)
    ensures var (q, r) := Rebase(p, o, 1); Rebase(q, r, d) == Rebase(p, o, d + 1)
  {}

  lemma {:induction false} EmptyHasNothing(kids: seq<Node>)
    requires kids != [] && EmptyText(kids[0])
    ensures Content(kids[0]) == [] && ContentAll(kids) == ContentAll(kids[1..])
  {
    assert Content(kids[0]) == [];
    hide Content;
    assert ContentAll(kids) == [] + ContentAll(kids[1..]);
  }

  lemma {:induction false} FirstGone(kids: seq<Node>, k: nat)
    requires kids != [] && EmptyText(kids[0]) && k <= |kids|
    ensures k > 0 ==> ContentAll(kids[..k]) == ContentAll(kids[1..][..k - 1]) && kids[1..][k - 1..] == kids[k..]
    ensures k == 0 ==> ContentAll(kids[..k]) == ContentAll(kids[1..][..k])
    ensures k == 0 ==> ContentAll(kids[k..]) == ContentAll(kids[1..][k..])
  {
    hide Content, ContentAll;
    EmptyHasNothing(kids);
    if k > 0 {
      EmptyHasNothing(kids[..k]);
      assert kids[..k][1..] == kids[1..][..k - 1];
    } else {
      assert kids[..0] == kids[1..][..0] && kids[0..] == kids && kids[1..][0..] == kids[1..];
    }
  }

  lemma {:induction false} FirstDroppedHere(node: Node, o: nat)
    requires node.Element? && ValidPlace(node, [], o) && node.kids != [] && EmptyText(node.kids[0])
    ensures Carried(node, [], o, Element(node.id, node.tag, node.kids[1..]), [], if o < 1 then 0 else o - 1)
  {
    var node', o' := Element(node.id, node.tag, node.kids[1..]), if o < 1 then 0 else o - 1;
    var k := Cut(node.kids, o);
    FirstGone(node.kids, k);
    hide Padded, Content, ContentAll, EmptyText;
    assert Cut(node'.kids, o') == if k > 0 then k - 1 else 0;
    PaddedSelf(ContentAll(node.kids[..k]));
    PaddedSelf(ContentAll(node.kids[k..]));
    AtKids(node, o, node', o');
  }

  lemma {:induction false} FirstDroppedBelow(node: Node, p: Path, o: nat)
    requires node.Element? && ValidPlace(node, p, o) && node.kids != [] && EmptyText(node.kids[0]) && p != []
    requires p[0] > 0
    ensures Carried(node, p, o, Element(node.id, node.tag, node.kids[1..]), [p[0] - 1] + p[1..], o)
  {
    var kids, i := node.kids, p[0];
    ValidKid(node, p, o);
    FirstGone(kids, i);
    FirstGone(kids, i + 1);
    hide Padded, Content, ContentAll, EmptyText;
    PaddedSelf(ContentAll(kids[..i]));
    PaddedSelf(ContentAll(kids[i + 1..]));
    InKid(node, i, Element(node.id, node.tag, kids[1..]), i - 1, p[1..], o);
  }

  /** A place in the text that is dropped. */
  lemma {:induction false} FirstDroppedIt(node: Node, p: Path, o: nat)
    requires node.Element? && ValidPlace(node, p, o) && node.kids != [] && EmptyText(node.kids[0]) && p != []
    requires p[0] == 0
    ensures Carried(node, p, o, Element(node.id, node.tag, node.kids[1..]), [], 0)
  {
    var kids, node' := node.kids, Element(node.id, node.tag, node.kids[1..]);
    EmptyHasNothing(kids);
    assert ContentBefore(kids[0], p[1..], o) == [] == ContentBehind(kids[0], p[1..], o);
    assert kids[..0] == [] == kids[1..][..0] && kids[1..][0..] == kids[1..] && ContentAll([]) == [];
    assert [] + ContentAll(kids[1..]) == ContentAll(kids[1..]) && ContentAll([]) + [] == ContentAll([]);
    assert ContentBefore(node', [], 0) == ContentBefore(node, p, o);
    assert ContentBehind(node', [], 0) == ContentBehind(node, p, o);
    hide ContentBefore, ContentBehind, Padded, Content, ContentAll;
    PaddedSelf(ContentBefore(node, p, o));
    PaddedSelf(ContentBehind(node, p, o));
  }

  lemma {:induction false} FirstDropped(node: Node, p: Path, o: nat)
    requires node.Element? && ValidPlace(node, p, o) && node.kids != [] && EmptyText(node.kids[0])
    ensures var (q, r) := Rebase(p, o, 1);
            Carried(node, p, o, Element(node.id, node.tag, node.kids[1..]), q, r)
  {
    hide Carried;
    if p == [] {
      FirstDroppedHere(node, o);
    } else if p[0] > 0 {
      FirstDroppedBelow(node, p, o);
    } else {
      FirstDroppedIt(node, p, o);
    }
  }

  lemma {:induction false} DroppedKeeps(node: Node, p: Path, o: nat)
    requires node.Element? && ValidPlace(node, p, o)
    ensures var (q, r) := Rebase(p, o, |node.kids| - |DropEmptyTexts(node.kids)|);
            Carried(node, p, o, Element(node.id, node.tag, DropEmptyTexts(node.kids)), q, r)
    decreases |node.kids|
  {
    if node.kids != [] && EmptyText(node.kids[0]) {
      FirstDropped(node, p, o);
      var (q, r) := Rebase(p, o, 1);
      var node', d := Element(node.id, node.tag, node.kids[1..]), |node.kids[1..]| - |DropEmptyTexts(node.kids[1..])|;
      DroppedKeeps(node', q, r);
      RebaseOneMore(p, o, d);
      hide Carried, ValidPlace, Rebase;
      var (u, v) := Rebase(q, r, d);
      CarriedOn(node, p, o, node', q, r, Element(node.id, node.tag, DropEmptyTexts(node.kids)), u, v);
    } else {
      hide Carried, Rebase;
      RebaseNothing(p, o);
      CarriedSelf(node, p, o);
    }
  }

  lemma {:induction false} DropTwice(kids: seq<Node>)
    ensures DropEmptyTexts(DropEmptyTexts(kids)) == DropEmptyTexts(kids)
    ensures DropEmptyTexts(kids) != [] ==> !EmptyText(DropEmptyTexts(kids)[0])
  {
    if kids != [] && EmptyText(kids[0]) {
      DropTwice(kids[1..]);
    }
  }

  lemma {:induction false} InlineKeeps(cfg: Config, node: Node, p: Path, o: nat)
    requires node.Element? && ValidPlace(node, p, o) && cfg.cantFocusEmptyTextNodes && IsInline(node)
    ensures var (q, r) := Rebase(p, o, Dropped(cfg, node)); Carried(node, p, o, FixCursor(cfg, node), q, r)
  {
    DroppedKeeps(node, p, o);
    DropTwice(node.kids);
    var (q, r) := Rebase(p, o, Dropped(cfg, node));
    var node' := Element(node.id, node.tag, DropEmptyTexts(node.kids));
    assert ValidPlace(node', q, r);
    hide Carried, ValidPlace, Rebase;
    FixCursorKeeps(cfg, node', q, r);
    CarriedOn(node, p, o, node', q, r, FixCursor(cfg, node), q, r);
  }

  /** Every place of an element below the body follows fixCursor: what was before it and behind
      it is there afterwards, line breaks included, with only fixers put in. */
  lemma {:induction false} FixCursorPlace(cfg: Config, node: Node, p: Path, o: nat)
    requires node.Element? && ValidPlace(node, p, o)
    ensures var (q, r) := Rebase(p, o, Dropped(cfg, node)); Carried(node, p, o, FixCursor(cfg, node), q, r)
  {
    hide Carried, ValidPlace, Rebase, FixCursor;
    if cfg.cantFocusEmptyTextNodes && IsInline(node) {
      InlineKeeps(cfg, node, p, o);
    } else {
      RebaseNothing(p, o);
      FixCursorKeeps(cfg, node, p, o);
    }
  }
}
