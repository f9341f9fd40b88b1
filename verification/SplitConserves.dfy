/** split loses nothing: the content only gains line breaks and zero-width spaces. */
module SplitConserves {
  import opened Dom
  import opened SplitTree

  /** b is a with some fixers put in. */
  predicate Padded(a: seq<Token>, b: seq<Token>)
    decreases b
  {
    if b == [] then a == []
    else
      || (a != [] && a[0] == b[0] && Padded(a[1..], b[1..]))
      || (IsFixer(b[0]) && Padded(a, b[1..]))
  }

  lemma {:induction false} PaddedSelf(a: seq<Token>)
    ensures Padded(a, a)
    decreases a
  {
    if a != [] {
      PaddedSelf(a[1..]);
    }
  }

  lemma {:induction false} PaddedConcat(a: seq<Token>, b: seq<Token>, c: seq<Token>, d: seq<Token>)
    requires Padded(a, b) && Padded(c, d)
    ensures Padded(a + c, b + d)
    decreases b
  {
    if b == [] {
      assert a + c == c && b + d == d;
    } else {
      assert (b + d)[1..] == b[1..] + d;
      if a != [] && a[0] == b[0] && Padded(a[1..], b[1..]) {
        PaddedConcat(a[1..], b[1..], c, d);
        assert (a + c)[1..] == a[1..] + c;
      } else {
        PaddedConcat(a, b[1..], c, d);
      }
    }
  }

  lemma {:induction false} PaddedTrans(a: seq<Token>, b: seq<Token>, c: seq<Token>)
    requires Padded(a, b) && Padded(b, c)
    ensures Padded(a, c)
    decreases c
  {
    if c != [] {
      if b != [] && b[0] == c[0] && Padded(b[1..], c[1..]) {
        if a != [] && a[0] == b[0] && Padded(a[1..], b[1..]) {
          PaddedTrans(a[1..], b[1..], c[1..]);
        } else {
          PaddedTrans(a, b[1..], c[1..]);
        }
      } else {
        PaddedTrans(a, b, c[1..]);
      }
    }
  }

  lemma {:induction false} PaddedWrap(tag: Tag, a: seq<Token>, b: seq<Token>)
    requires Padded(a, b)
    ensures Padded(WrapAll(tag, a), WrapAll(tag, b))
    decreases b
  {
    if b != [] {
      assert WrapAll(tag, b)[1..] == WrapAll(tag, b[1..]);
      if a != [] && a[0] == b[0] && Padded(a[1..], b[1..]) {
        assert WrapAll(tag, a)[1..] == WrapAll(tag, a[1..]);
        PaddedWrap(tag, a[1..], b[1..]);
      } else {
        PaddedWrap(tag, a, b[1..]);
      }
    }
  }

  /** Padding is invisible, and shows nothing that was not there. */
  lemma {:induction false} PaddedShows(a: seq<Token>, b: seq<Token>)
    requires Padded(a, b)
    ensures Visible(a) == Visible(b)
    decreases b
  {
    if b != [] {
      if a != [] && a[0] == b[0] && Padded(a[1..], b[1..]) {
        PaddedShows(a[1..], b[1..]);
      } else {
        PaddedShows(a, b[1..]);
      }
    }
  }

  lemma {:induction false} PaddedElement(id: NodeId, tag: Tag, kids: seq<Node>, kids': seq<Node>)
    requires Padded(ContentAll(kids), ContentAll(kids'))
    ensures Padded(Content(Element(id, tag, kids)), Content(Element(id, tag, kids')))
  {
    PaddedWrap(tag, ContentAll(kids), ContentAll(kids'));
    PaddedSelf(OwnTokens(tag));
    PaddedConcat(OwnTokens(tag), OwnTokens(tag), WrapAll(tag, ContentAll(kids)), WrapAll(tag, ContentAll(kids')));
  }

  lemma {:induction false} PaddedSplice(front: seq<Node>, m: seq<Node>, m': seq<Node>, back: seq<Node>)
    requires Padded(ContentAll(m), ContentAll(m'))
    ensures Padded(ContentAll(front + m + back), ContentAll(front + m' + back))
  {
    ContentAllConcat(front + m, back);
    ContentAllConcat(front, m);
    ContentAllConcat(front + m', back);
    ContentAllConcat(front, m');
    hide ContentAll, Padded;
    PaddedSelf(ContentAll(front));
    PaddedSelf(ContentAll(back));
    PaddedConcat(ContentAll(front), ContentAll(front), ContentAll(m), ContentAll(m'));
    PaddedConcat(ContentAll(front) + ContentAll(m), ContentAll(front) + ContentAll(m'),
                 ContentAll(back), ContentAll(back));
  }

  lemma {:induction false} OneFixer(node: Node)
    requires node == LINE_BREAK || node == Text(0, [ZWS]) || node == Text(0, "")
    ensures Padded([], ContentAll([node]))
  {
    ContentAllOne(node);
    if node == LINE_BREAK {
      assert Content(node) == [Leaf(LINE_BREAK.tag, [])];
    } else if node == Text(0, [ZWS]) {
      assert Content(node) == [Character(ZWS, [])];
    }
    assert forall t: Token :: [t][1..] == [];
  }

  lemma {:induction false} AddedFixer(kids: seq<Node>, fixer: Node)
    requires fixer == LINE_BREAK || fixer == Text(0, [ZWS]) || fixer == Text(0, "")
    ensures Padded(ContentAll(kids), ContentAll(kids + [fixer]))
  {
    OneFixer(fixer);
    assert ContentAll([]) == [];
    PaddedSplice(kids, [], [fixer], []);
    assert kids + [] + [] == kids && kids + [fixer] + [] == kids + [fixer];
  }

  lemma {:induction false} AppendBRPads(node: Node)
    requires node.Element?
    ensures Padded(Content(node), Content(AppendBR(node)))
  {
    hide Padded, Content, ContentAll;
    var kids, i := node.kids, LastElement(node.kids);
    assert node == Element(node.id, node.tag, kids);
    if i < |kids| && !IsInline(kids[i]) {
      var last := AppendBR(kids[i]);
      AppendBRPads(kids[i]);
      ContentAllOne(kids[i]);
      ContentAllOne(last);
      PaddedSplice(kids[..i], [kids[i]], [last], kids[i + 1..]);
      assert kids[..i] + [kids[i]] + kids[i + 1..] == kids;
      assert kids[..i] + [last] + kids[i + 1..] == kids[i := last];
      PaddedElement(node.id, node.tag, kids, kids[i := last]);
    } else {
      AddedFixer(kids, LINE_BREAK);
      PaddedElement(node.id, node.tag, kids, kids + [LINE_BREAK]);
    }
  }

  lemma {:induction false} FixCursorPads(cfg: Config, node: Node)
    requires node.Element?
    ensures Padded(Content(node), Content(FixCursor(cfg, node)))
  {
    hide Padded, Content, ContentAll, AppendBR, HasBR;
    assert node == Element(node.id, node.tag, node.kids);
    if IsInline(node) {
      var kids := if cfg.cantFocusEmptyTextNodes then DropEmptyTexts(node.kids) else node.kids;
      DropEmptyTextsVisible(node.kids);
      PaddedSelf(ContentAll(kids));
      if kids != [] {
        PaddedElement(node.id, node.tag, node.kids, kids);
      } else {
        var fixer := Text(0, if cfg.cantFocusEmptyTextNodes then [ZWS] else "");
        AddedFixer(kids, fixer);
        assert kids + [fixer] == [fixer];
        PaddedElement(node.id, node.tag, node.kids, [fixer]);
      }
    } else if HasBR(node) {
      PaddedSelf(Content(node));
    } else {
      AppendBRPads(node);
    }
  }

  // ----- the content before a place and behind it -----

  /** What the tree holds before the place, its line breaks included, and behind it. */
  function ContentBefore(node: Node, p: Path, o: nat): seq<Token>
    requires ValidPlace(node, p, o)
    decreases p
  {
    match node
    case Text(_, data) => Content(node)[..o]
    case Element(_, tag, kids) =>
      WrapAll(tag,
        if p == [] then ContentAll(kids[..Cut(kids, o)])
        else ContentAll(kids[..p[0]]) + ContentBefore(kids[p[0]], p[1..], o))
  }

  function ContentBehind(node: Node, p: Path, o: nat): seq<Token>
    requires ValidPlace(node, p, o)
    decreases p
  {
    match node
    case Text(_, data) => Content(node)[o..]
    case Element(_, tag, kids) =>
      WrapAll(tag,
        if p == [] then ContentAll(kids[Cut(kids, o)..])
        else ContentBehind(kids[p[0]], p[1..], o) + ContentAll(kids[p[0] + 1..]))
  }

  lemma {:induction false} ContentInKid(node: Node, i: nat, w: Path, o: nat)
    requires node.Element? && !IsLeaf(node) && i < |node.kids| && ValidPlace(node.kids[i], w, o)
    ensures ValidPlace(node, [i] + w, o)
    ensures ContentBefore(node, [i] + w, o)
         == WrapAll(node.tag, ContentAll(node.kids[..i]) + ContentBefore(node.kids[i], w, o))
    ensures ContentBehind(node, [i] + w, o)
         == WrapAll(node.tag, ContentBehind(node.kids[i], w, o) + ContentAll(node.kids[i + 1..]))
  {
    assert ([i] + w)[1..] == w;
  }

  /** What is shown before the place and behind it is what of that can be seen. */
  lemma {:induction false} CutsShow(node: Node, p: Path, o: nat)
    requires ValidPlace(node, p, o)
    ensures Before(node, p, o) == Visible(ContentBefore(node, p, o))
    ensures Behind(node, p, o) == Visible(ContentBehind(node, p, o))
    decreases p
  {
    if node.Element? {
      var tag, kids := node.tag, node.kids;
      if p == [] {
        VisibleWrap(tag, ContentAll(kids[..Cut(kids, o)]));
        VisibleWrap(tag, ContentAll(kids[Cut(kids, o)..]));
      } else {
        var b, c := ContentBefore(kids[p[0]], p[1..], o), ContentBehind(kids[p[0]], p[1..], o);
        CutsShow(kids[p[0]], p[1..], o);
        VisibleWrap(tag, ContentAll(kids[..p[0]]) + b);
        VisibleWrap(tag, c + ContentAll(kids[p[0] + 1..]));
        VisibleConcat(ContentAll(kids[..p[0]]), b);
        VisibleConcat(c, ContentAll(kids[p[0] + 1..]));
      }
    }
  }

  lemma {:induction false} CutThrough(node: Node, i: nat, b: seq<Token>, c: seq<Token>)
    requires node.Element? && !IsLeaf(node) && i < |node.kids| && b + c == Content(node.kids[i])
    ensures WrapAll(node.tag, ContentAll(node.kids[..i]) + b) + WrapAll(node.tag, c + ContentAll(node.kids[i + 1..]))
         == Content(node)
  {
    var a, d := ContentAll(node.kids[..i]), ContentAll(node.kids[i + 1..]);
    assert OwnTokens(node.tag) == [];
    hide ContentAll, OwnTokens;
    ContentSplice(node.kids[..i], node.kids[i], node.kids[i + 1..]);
    assert node.kids == node.kids[..i] + [node.kids[i]] + node.kids[i + 1..];
    Regroup(a, b, c, d);
    WrapConcat(node.tag, a + b, c + d);
    assert [] + WrapAll(node.tag, ContentAll(node.kids)) == WrapAll(node.tag, ContentAll(node.kids));
  }

  /** Every place cuts the whole content in two. */
  lemma {:induction false} ContentCuts(node: Node, p: Path, o: nat)
    requires ValidPlace(node, p, o)
    ensures ContentBefore(node, p, o) + ContentBehind(node, p, o) == Content(node)
    decreases p
  {
    if node.Element? {
      if p == [] {
        CutElement(node, Cut(node.kids, o));
        PartContent(node, node.kids[..Cut(node.kids, o)]);
        PartContent(node, node.kids[Cut(node.kids, o)..]);
      } else {
        ContentCuts(node.kids[p[0]], p[1..], o);
        CutThrough(node, p[0], ContentBefore(node.kids[p[0]], p[1..], o), ContentBehind(node.kids[p[0]], p[1..], o));
      }
    }
  }

  lemma {:induction false} PartContent(node: Node, kids: seq<Node>)
    requires node.Element? && !IsLeaf(node)
    ensures Content(Element(node.id, node.tag, kids)) == WrapAll(node.tag, ContentAll(kids))
  {
    assert OwnTokens(node.tag) == [];
  }

  lemma {:induction false} CutElement(node: Node, k: nat)
    requires node.Element? && !IsLeaf(node) && k <= |node.kids|
    ensures Content(node)
         == Content(Element(node.id, node.tag, node.kids[..k])) + Content(Element(node.id, node.tag, node.kids[k..]))
  {
    var a, b := ContentAll(node.kids[..k]), ContentAll(node.kids[k..]);
    ContentAllConcat(node.kids[..k], node.kids[k..]);
    assert node.kids[..k] + node.kids[k..] == node.kids;
    WrapConcat(node.tag, a, b);
    assert OwnTokens(node.tag) == [];
    assert [] + WrapAll(node.tag, a) == WrapAll(node.tag, a);
  }

  // ----- the split -----

  /** Each half holds its side of the content, with fixers put in. */
  lemma {:induction false} HalvesPad(cfg: Config, node: Node, o: nat)
    requires ValidPlace(node, [], o)
    ensures Padded(ContentBefore(node, [], o), Content(LeftHalf(cfg, node, o)))
    ensures Padded(ContentBehind(node, [], o), Content(RightHalf(cfg, node, o)))
  {
    if node.Text? {
      assert Content(LeftHalf(cfg, node, o)) == Content(node)[..o];
      assert Content(RightHalf(cfg, node, o)) == Content(node)[o..];
      PaddedSelf(Content(node)[..o]);
      PaddedSelf(Content(node)[o..]);
    } else {
      var k := Cut(node.kids, o);
      PartContent(node, node.kids[..k]);
      PartContent(node, node.kids[k..]);
      hide Padded, Content, ContentAll, FixCursor;
      FixCursorPads(cfg, Element(node.id, node.tag, node.kids[..k]));
      FixCursorPads(cfg, Element(node.id, node.tag, node.kids[k..]));
    }
  }

  /** The sides of a child, in the node. */
  lemma {:induction false} SidesPad(tag: Tag, front: seq<Token>, b: seq<Token>, b': seq<Token>, c: seq<Token>,
      c': seq<Token>, back: seq<Token>)
    requires Padded(b, b') && Padded(c, c')
    ensures Padded(WrapAll(tag, front + b), WrapAll(tag, front + b'))
    ensures Padded(WrapAll(tag, c + back), WrapAll(tag, c' + back))
  {
    hide Padded;
    PaddedSelf(front);
    PaddedSelf(back);
    PaddedConcat(front, front, b, b');
    PaddedConcat(c, c', back, back);
    PaddedWrap(tag, front + b, front + b');
    PaddedWrap(tag, c + back, c' + back);
  }

  lemma {:induction false} SplitKidPads(cfg: Config, node: Node, i: nat, o: nat)
    requires ValidPlace(node, [i], o)
    ensures var node' := SplitAt(cfg, node, [i], o);
      && ValidPlace(node', [], i + 1)
      && Padded(ContentBefore(node, [i], o), ContentBefore(node', [], i + 1))
      && Padded(ContentBehind(node, [i], o), ContentBehind(node', [], i + 1))
  {
    assert [i][1..] == [];
    HalvesPad(cfg, node.kids[i], o);
    hide LeftHalf, RightHalf, Padded, Content, ContentAll;
    var l, r := LeftHalf(cfg, node.kids[i], o), RightHalf(cfg, node.kids[i], o);
    var a, d := node.kids[..i], node.kids[i + 1..];
    TwoBetween(a, l, r, d);
    ContentAllConcat(a, [l]);
    ContentAllConcat([r], d);
    ContentAllOne(l);
    ContentAllOne(r);
    SidesPad(node.tag, ContentAll(a), ContentBefore(node.kids[i], [], o), Content(l),
             ContentBehind(node.kids[i], [], o), Content(r), ContentAll(d));
  }

  /** Each side of the one place is on the same side of the other, with fixers put in. */
  ghost predicate Carried(node: Node, p: Path, o: nat, node': Node, q: Path, r: nat) {
    && ValidPlace(node, p, o) && ValidPlace(node', q, r)
    && Padded(ContentBefore(node, p, o), ContentBefore(node', q, r))
    && Padded(ContentBehind(node, p, o), ContentBehind(node', q, r))
  }

  lemma {:induction false} CarriedSelf(node: Node, p: Path, o: nat)
    requires ValidPlace(node, p, o)
    ensures Carried(node, p, o, node, p, o)
  {
    PaddedSelf(ContentBefore(node, p, o));
    PaddedSelf(ContentBehind(node, p, o));
  }

  lemma {:induction false} CarriedOn(a: Node, p: Path, o: nat, b: Node, q: Path, r: nat, c: Node, u: Path, v: nat)
    requires Carried(a, p, o, b, q, r) && Carried(b, q, r, c, u, v)
    ensures Carried(a, p, o, c, u, v)
  {
    hide Padded, ContentBefore, ContentBehind;
    PaddedTrans(ContentBefore(a, p, o), ContentBefore(b, q, r), ContentBefore(c, u, v));
    PaddedTrans(ContentBehind(a, p, o), ContentBehind(b, q, r), ContentBehind(c, u, v));
  }

  lemma {:induction false} CarriedShows(node: Node, p: Path, o: nat, node': Node, q: Path, r: nat)
    requires Carried(node, p, o, node', q, r)
    ensures Before(node', q, r) == Before(node, p, o) && Behind(node', q, r) == Behind(node, p, o)
  {
    hide Padded, ContentBefore, ContentBehind;
    CutsShow(node, p, o);
    CutsShow(node', q, r);
    PaddedShows(ContentBefore(node, p, o), ContentBefore(node', q, r));
    PaddedShows(ContentBehind(node, p, o), ContentBehind(node', q, r));
  }

  /** A place in a child that is replaced. */
  lemma {:induction false} KidCarried(node: Node, i: nat, m: Node, p: Path, o: nat, q: Path, r: nat)
    requires node.Element? && !IsLeaf(node) && i < |node.kids| && Carried(node.kids[i], p, o, m, q, r)
    ensures Carried(node, [i] + p, o, Element(node.id, node.tag, node.kids[i := m]), [i] + q, r)
  {
    var kid, node' := node.kids[i], Element(node.id, node.tag, node.kids[i := m]);
    assert node'.kids[..i] == node.kids[..i] && node'.kids[i + 1..] == node.kids[i + 1..] && !IsLeaf(node');
    ContentInKid(node, i, p, o);
    ContentInKid(node', i, q, r);
    hide Padded, Content, ContentAll, ValidPlace, ContentBefore, ContentBehind;
    SidesPad(node.tag, ContentAll(node.kids[..i]), ContentBefore(kid, p, o), ContentBefore(m, q, r),
             ContentBehind(kid, p, o), ContentBehind(m, q, r), ContentAll(node.kids[i + 1..]));
  }

  /** One split puts what the tree holds before the place before the new one, and the rest behind
      it, each with fixers put in. */
  lemma {:induction false} SplitAtPads(cfg: Config, node: Node, p: Path, o: nat)
    requires p != [] && ValidPlace(node, p, o)
    ensures Carried(node, p, o, SplitAt(cfg, node, p, o), UpPath(p), UpOffset(p))
    decreases p
  {
    if |p| == 1 {
      assert p == [p[0]] && UpPath(p) == [];
      SplitKidPads(cfg, node, p[0], o);
    } else {
      SplitInKid(cfg, node, p, o);
      var kid := node.kids[p[0]];
      SplitAtPads(cfg, kid, p[1..], o);
      hide Carried, SplitAt;
      KidCarried(node, p[0], SplitAt(cfg, kid, p[1..], o), p[1..], o, UpPath(p[1..]), UpOffset(p));
    }
  }

  /** The whole split: the stop node's children before the result hold what the tree held before
      the place, line breaks included, those from it on what was behind, each with fixers put
      in. */
  lemma {:induction false} SidesKept(cfg: Config, stop: Node, p: Path, o: nat)
    requires stop.Element? && ValidPlace(stop, p, o)
    ensures var (stop', k) := SplitUp(cfg, stop, p, o);
      && stop'.Element? && k <= |stop'.kids|
      && Padded(ContentBefore(stop, p, o), WrapAll(stop.tag, ContentAll(stop'.kids[..k])))
      && Padded(ContentBehind(stop, p, o), WrapAll(stop.tag, ContentAll(stop'.kids[k..])))
    decreases |p|
  {
    hide Padded, Content, ContentAll, SplitAt;
    if p == [] {
      PaddedSelf(ContentBefore(stop, p, o));
      PaddedSelf(ContentBehind(stop, p, o));
    } else {
      SplitAtPads(cfg, stop, p, o);
      SplitAtTag(cfg, stop, p, o);
      var next := SplitAt(cfg, stop, p, o);
      var (stop', k) := SplitUp(cfg, stop, p, o);
      hide ContentBefore, ContentBehind;
      SidesKept(cfg, next, UpPath(p), UpOffset(p));
      PaddedTrans(ContentBefore(stop, p, o), ContentBefore(next, UpPath(p), UpOffset(p)),
                  WrapAll(stop.tag, ContentAll(stop'.kids[..k])));
      PaddedTrans(ContentBehind(stop, p, o), ContentBehind(next, UpPath(p), UpOffset(p)),
                  WrapAll(stop.tag, ContentAll(stop'.kids[k..])));
    }
  }

  /** So everything that was in the stop node before the split is in it afterwards, in order. */
  lemma {:induction false} NothingLost(cfg: Config, stop: Node, p: Path, o: nat)
    requires stop.Element? && ValidPlace(stop, p, o)
    ensures Padded(Content(stop), Content(SplitUp(cfg, stop, p, o).0))
  {
    var (stop', k) := SplitUp(cfg, stop, p, o);
    SidesKept(cfg, stop, p, o);
    ContentCuts(stop, p, o);
    assert !IsLeaf(stop');
    CutElement(stop', k);
    PartContent(stop', stop'.kids[..k]);
    PartContent(stop', stop'.kids[k..]);
    hide Padded, Content, ContentAll, ContentBefore, ContentBehind;
    PaddedConcat(ContentBefore(stop, p, o), WrapAll(stop.tag, ContentAll(stop'.kids[..k])),
                 ContentBehind(stop, p, o), WrapAll(stop.tag, ContentAll(stop'.kids[k..])));
  }
}
