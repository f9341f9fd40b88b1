/** Where the start of a range is when the tree has been split at its end
    (war/components/Squire/squire-raw.js:731-732). The container is a node that is held on to;
    the offset is a number that nobody updates. */
module RangeStart {
  import opened Dom
  import opened Wrappers
  import opened SplitTree
  import opened SplitConserves
  import opened FixCursorPlaces

  /** Document order of places in one tree. */
  predicate PlaceLe(sp: Path, so: nat, p: Path, o: nat)
    decreases p
  {
    if sp == [] then so <= if p == [] then o else p[0]
    else if p == [] then sp[0] < o
    else sp[0] < p[0] || (sp[0] == p[0] && PlaceLe(sp[1..], so, p[1..], o))
  }

  // ----- the tree up to the end -----

  /** The tree without what is behind the place. Each step of the split at the place is a
      fixCursor on its right border. */
  function UpTo(node: Node, p: Path, o: nat): Node
    requires ValidPlace(node, p, o)
    decreases p
  {
    match node
    case Text(id, data) => Text(id, data[..o])
    case Element(id, tag, kids) =>
      if p == [] then Kept(node, o) else Element(id, tag, kids[..p[0]] + [UpTo(kids[p[0]], p[1..], o)])
  }

  /** The content between two places, the first one of them in the tree up to the second. */
  function ContentBetween(node: Node, sp: Path, so: nat, p: Path, o: nat): seq<Token>
    requires ValidPlace(node, p, o) && ValidPlace(UpTo(node, p, o), sp, so)
  {
    ContentBehind(UpTo(node, p, o), sp, so)
  }

  lemma {:induction false} UpToHas(node: Node, p: Path, o: nat)
    requires ValidPlace(node, p, o)
    ensures HasNode(UpTo(node, p, o), p) && (UpTo(node, p, o).Element? <==> node.Element?)
    decreases p
  {
    if p != [] {
      UpToHas(node.kids[p[0]], p[1..], o);
    }
  }

  lemma {:induction false} UpToEnd(node: Node, p: Path, o: nat)
    requires ValidPlace(node, p, o)
    ensures ValidPlace(UpTo(node, p, o), p, o) && ContentBehind(UpTo(node, p, o), p, o) == []
    ensures ContentBefore(node, p, o) == Content(UpTo(node, p, o))
    decreases p
  {
    var t := UpTo(node, p, o);
    if node.Text? {
      assert Content(t) == Content(node)[..o] && Content(t)[o..] == [];
    } else if p == [] {
      PartContent(node, t.kids);
      assert t.kids[Cut(t.kids, o)..] == [] && ContentAll([]) == [];
    } else {
      UpToEndBelow(node, p, o);
    }
  }

  lemma {:induction false} UpToEndBelow(node: Node, p: Path, o: nat)
    requires p != [] && ValidPlace(node, p, o)
    ensures ValidPlace(UpTo(node, p, o), p, o)
    ensures ContentBehind(UpTo(node, p, o), p, o) == [] && ContentBefore(node, p, o) == Content(UpTo(node, p, o))
    decreases p, 0
  {
    var t, i, kid := UpTo(node, p, o), p[0], node.kids[p[0]];
    ValidKid(node, p, o);
    UpToEnd(kid, p[1..], o);
    var last := UpTo(kid, p[1..], o);
    assert t.kids[i] == last && t.kids[..i] == node.kids[..i] && t.kids[i + 1..] == [] && !IsLeaf(t);
    ContentInKid(t, i, p[1..], o);
    ContentInKid(node, i, p[1..], o);
    PartContent(node, t.kids);
    hide Content;
    ContentAllConcat(node.kids[..i], [last]);
    ContentAllOne(last);
    assert [] + ContentAll([]) == [];
  }

  lemma {:induction false} UpToPlace(node: Node, sp: Path, so: nat, p: Path, o: nat)
    requires ValidPlace(node, p, o) && ValidPlace(node, sp, so) && PlaceLe(sp, so, p, o)
    ensures ValidPlace(UpTo(node, p, o), sp, so)
    ensures ContentBefore(UpTo(node, p, o), sp, so) == ContentBefore(node, sp, so)
    decreases p
  {
    var t := UpTo(node, p, o);
    if node.Text? {
      assert Content(t)[..so] == Content(node)[..so];
    } else if sp == [] {
      assert t.kids[..Cut(t.kids, so)] == node.kids[..Cut(node.kids, so)];
    } else {
      var i := sp[0];
      assert t.kids[..i] == node.kids[..i];
      if p != [] && i == p[0] {
        UpToPlace(node.kids[i], sp[1..], so, p[1..], o);
      } else {
        assert t.kids[i] == node.kids[i];
      }
    }
  }

  /** Behind the end there is nothing in it. */
  lemma {:induction false} PastEnd(node: Node, sp: Path, so: nat, p: Path, o: nat, x: nat)
    requires ValidPlace(node, p, o) && ValidPlace(UpTo(node, p, o), sp, x)
    requires PlaceLe(sp, so, p, o) && !PlaceLe(sp, x, p, o)
    ensures ContentBehind(UpTo(node, p, o), sp, x) == []
    decreases p
  {
    var t := UpTo(node, p, o);
    assert ContentAll([]) == [];
    if sp == [] {
      assert t.Element? && t.kids[Cut(t.kids, x)..] == [];
    } else {
      assert p != [] && sp[0] == p[0] && t.kids[p[0] + 1..] == [];
      PastEnd(node.kids[p[0]], sp[1..], so, p[1..], o, x);
    }
  }

  // ----- fixCursor on its right border -----

  /** fixCursor on the node at path p, if it is an element. */
  function FixAt(cfg: Config, t: Node, p: Path): (r: Node)
    requires HasNode(t, p)
    ensures r.Element? == t.Element? && (t.Text? ==> r == t)
    decreases p
  {
    if p == [] then (if t.Element? then FixCursor(cfg, t) else t)
    else Element(t.id, t.tag, t.kids[p[0] := FixAt(cfg, t.kids[p[0]], p[1..])])
  }

  /** Where the node at path w is then; None when it has been taken out. */
  function FollowFix(cfg: Config, t: Node, p: Path, w: Path): (r: Option<Path>)
    requires HasNode(t, p)
    ensures r.Some? ==> |r.value| == |w|
    ensures r.Some? && p != [] && w != [] ==> r.value[0] == w[0]
    decreases p
  {
    if p == [] then
      if w == [] || t.Text? then Some(w)
      else if w[0] < Dropped(cfg, t) then None
      else Some([w[0] - Dropped(cfg, t)] + w[1..])
    else if w == [] || w[0] != p[0] then Some(w)
    else
      match FollowFix(cfg, t.kids[p[0]], p[1..], w[1..])
      case None => None
      case Some(f) => Some([p[0]] + f)
  }

  lemma {:induction false} SplitFixesHere(cfg: Config, node: Node, i: nat, o: nat)
    requires ValidPlace(node, [i], o)
    ensures HasNode(UpTo(node, [i], o), [i]) && ValidPlace(SplitAt(cfg, node, [i], o), [], i + 1)
    ensures UpTo(SplitAt(cfg, node, [i], o), [], i + 1) == FixAt(cfg, UpTo(node, [i], o), [i])
  {
    hide FixCursor, RightHalf;
    assert [i][1..] == [];
    var t, kids' := UpTo(node, [i], o), SplitAt(cfg, node, [i], o).kids;
    var kid := UpTo(node.kids[i], [], o);
    assert t.kids == node.kids[..i] + [kid] && t.kids[i] == kid;
    assert kids'[..i + 1] == node.kids[..i] + [LeftHalf(cfg, node.kids[i], o)];
    assert LeftHalf(cfg, node.kids[i], o) == FixAt(cfg, kid, []);
  }

  lemma {:induction false} SplitFixesBelow(cfg: Config, node: Node, i: nat, p: Path, o: nat, kid': Node, q: Path,
      r: nat)
    requires node.Element? && !IsLeaf(node) && i < |node.kids| && ValidPlace(node.kids[i], p, o)
    requires HasNode(UpTo(node.kids[i], p, o), p) && ValidPlace(kid', q, r)
    requires UpTo(kid', q, r) == FixAt(cfg, UpTo(node.kids[i], p, o), p)
    ensures var node' := Element(node.id, node.tag, node.kids[i := kid']);
      && ValidPlace(node, [i] + p, o) && ValidPlace(node', [i] + q, r) && HasNode(UpTo(node, [i] + p, o), [i] + p)
      && UpTo(node', [i] + q, r) == FixAt(cfg, UpTo(node, [i] + p, o), [i] + p)
  {
    hide FixCursor;
    assert ([i] + p)[1..] == p && ([i] + q)[1..] == q;
    var t, last := UpTo(node, [i] + p, o), UpTo(node.kids[i], p, o);
    assert t.kids == node.kids[..i] + [last] && t.kids[i] == last;
    assert t.kids[i := UpTo(kid', q, r)] == node.kids[..i] + [UpTo(kid', q, r)];
    assert node.kids[i := kid'][..i] == node.kids[..i];
  }

  /** A step of the split at the place is such a fixCursor on the tree up to the place. */
  lemma {:induction false} SplitFixes(cfg: Config, node: Node, p: Path, o: nat)
    requires p != [] && ValidPlace(node, p, o)
    ensures HasNode(UpTo(node, p, o), p) && ValidPlace(SplitAt(cfg, node, p, o), UpPath(p), UpOffset(p))
    ensures UpTo(SplitAt(cfg, node, p, o), UpPath(p), UpOffset(p)) == FixAt(cfg, UpTo(node, p, o), p)
    decreases p
  {
    if |p| == 1 {
      assert p == [p[0]] && UpPath(p) == [];
      SplitFixesHere(cfg, node, p[0], o);
    } else {
      SplitInKid(cfg, node, p, o);
      var kid := node.kids[p[0]];
      SplitFixes(cfg, kid, p[1..], o);
      hide SplitAt, ValidPlace, UpTo, FixAt, HasNode;
      SplitFixesBelow(cfg, node, p[0], p[1..], o, SplitAt(cfg, kid, p[1..], o), UpPath(p[1..]), UpOffset(p));
    }
  }

  /** And the node that the split follows goes the same way. */
  lemma {:induction false} FollowsFix(cfg: Config, node: Node, p: Path, o: nat, w: Path, so: nat)
    requires p != [] && ValidPlace(node, p, o) && HasNode(UpTo(node, p, o), p)
    requires ValidPlace(UpTo(node, p, o), w, so)
    ensures Follow(cfg, node, p, o, w) == FollowFix(cfg, UpTo(node, p, o), p, w)
    decreases p
  {
    hide Dropped;
    var i, t := p[0], UpTo(node, p, o);
    if w != [] && w[0] == i {
      assert w == [i] + w[1..] && t.kids[i] == UpTo(node.kids[i], p[1..], o);
      if |p| > 1 {
        FollowsFix(cfg, node.kids[i], p[1..], o, w[1..], so);
      } else {
        assert p[1..] == [];
        FollowsFixHere(cfg, node, i, o, w, so);
      }
    }
  }

  lemma {:induction false} FollowsFixHere(cfg: Config, node: Node, i: nat, o: nat, w: Path, so: nat)
    requires ValidPlace(node, [i], o) && HasNode(UpTo(node, [i], o), [i])
    requires w != [] && w[0] == i && ValidPlace(UpTo(node, [i], o), w, so)
    ensures Follow(cfg, node, [i], o, w) == FollowFix(cfg, UpTo(node, [i], o), [i], w)
  {
    hide Dropped;
    assert [i][1..] == [] && w == [i] + w[1..];
    var kid := node.kids[i];
    assert UpTo(node, [i], o).kids[i] == UpTo(kid, [], o);
    if kid.Element? && |w| > 1 {
      assert UpTo(kid, [], o) == Kept(kid, o) && w[1] < Cut(kid.kids, o);
      var d := Dropped(cfg, Kept(kid, o));
      assert w[1] >= d ==> [i, w[1] - d] + w[2..] == [i] + ([w[1] - d] + w[1..][1..]);
    }
  }

  lemma {:induction false} FixAtPads(cfg: Config, t: Node, p: Path)
    requires HasNode(t, p)
    ensures Padded(Content(t), Content(FixAt(cfg, t, p)))
    decreases p
  {
    hide Padded, Content, ContentAll, FixCursor;
    if t.Text? {
      PaddedSelf(Content(t));
    } else if p == [] {
      FixCursorPads(cfg, t);
    } else {
      var kids, m := t.kids, FixAt(cfg, t.kids[p[0]], p[1..]);
      FixAtPads(cfg, kids[p[0]], p[1..]);
      KidsReplaced(kids, p[0], m, |kids|);
      assert kids[..|kids|] == kids && kids[p[0] := m][..|kids|] == kids[p[0] := m];
      PaddedElement(t.id, t.tag, kids, kids[p[0] := m]);
    }
  }

  /** How many children the node at path sp loses at its front when the one at path p is fixed. */
  function SelfDrift(cfg: Config, t: Node, p: Path, sp: Path): nat
    requires HasNode(t, p)
  {
    if sp == p && NodeAt(t, p).Element? then Dropped(cfg, NodeAt(t, p)) else 0
  }

  lemma {:induction false} AnyOffset(t: Node, sp: Path, so: nat, d: nat)
    requires ValidPlace(t, sp, so) && (HasNode(t, sp) && NodeAt(t, sp).Text? ==> d == 0)
    ensures HasNode(t, sp) && ValidPlace(t, sp, so + d)
    decreases sp
  {
    if sp != [] {
      AnyOffset(t.kids[sp[0]], sp[1..], so, d);
    }
  }

  /** The offset so, in the node that the code holds on to, has come to mean the place that was
      so many children further on. */
  lemma {:induction false} FixCarries(cfg: Config, t: Node, p: Path, sp: Path, so: nat)
    requires HasNode(t, p) && ValidPlace(t, sp, so) && FollowFix(cfg, t, p, sp).Some?
    ensures Carried(t, sp, so + SelfDrift(cfg, t, p, sp), FixAt(cfg, t, p), FollowFix(cfg, t, p, sp).value, so)
    decreases p
  {
    hide Carried, FixCursor, Dropped;
    if p == [] {
      if t.Text? {
        CarriedSelf(t, sp, so);
      } else {
        AnyOffset(t, sp, so, SelfDrift(cfg, t, p, sp));
        FixCursorPlace(cfg, t, sp, so + SelfDrift(cfg, t, p, sp));
      }
    } else {
      FixCarriesBelow(cfg, t, p, sp, so);
    }
  }

  lemma {:induction false} FixCarriesBelow(cfg: Config, t: Node, p: Path, sp: Path, so: nat)
    requires p != [] && HasNode(t, p) && ValidPlace(t, sp, so) && FollowFix(cfg, t, p, sp).Some?
    ensures Carried(t, sp, so + SelfDrift(cfg, t, p, sp), FixAt(cfg, t, p), FollowFix(cfg, t, p, sp).value, so)
    decreases p, 0
  {
    hide Carried, FixCursor, Dropped;
    var i, kid := p[0], t.kids[p[0]];
    if sp != [] && sp[0] == i {
      assert sp == p <==> sp[1..] == p[1..] by {
        assert sp == [i] + sp[1..] && p == [i] + p[1..];
      }
      ValidKid(t, sp, so);
      FixCarries(cfg, kid, p[1..], sp[1..], so);
      KidCarried(t, i, FixAt(cfg, kid, p[1..]), sp[1..], so + SelfDrift(cfg, t, p, sp),
                 FollowFix(cfg, kid, p[1..], sp[1..]).value, so);
    } else {
      FixAtPads(cfg, kid, p[1..]);
      AsideCarried(t, i, FixAt(cfg, kid, p[1..]), sp, so);
    }
  }

  // ----- all steps -----

  lemma {:induction false} FixAtHas(cfg: Config, t: Node, p: Path)
    requires HasNode(t, p) && p != []
    ensures HasNode(FixAt(cfg, t, p), UpPath(p))
    decreases p
  {
    if |p| > 1 {
      assert UpPath(p)[1..] == UpPath(p[1..]);
      FixAtHas(cfg, t.kids[p[0]], p[1..]);
    }
  }

  function FixUp(cfg: Config, t: Node, p: Path): Node
    requires HasNode(t, p)
    decreases |p|
  {
    if p == [] then t
    else
      FixAtHas(cfg, t, p);
      FixUp(cfg, FixAt(cfg, t, p), UpPath(p))
  }

  function FollowFixUp(cfg: Config, t: Node, p: Path, w: Path): Option<Path>
    requires HasNode(t, p)
    decreases |p|
  {
    if p == [] then Some(w)
    else
      match FollowFix(cfg, t, p, w)
      case None => None
      case Some(f) =>
        FixAtHas(cfg, t, p);
        FollowFixUp(cfg, FixAt(cfg, t, p), UpPath(p), f)
  }

  /** Of the nodes on the way to p, one drops the node at path sp, or a node above it. */
  predicate LostIn(cfg: Config, t: Node, p: Path, sp: Path)
    requires HasNode(t, p)
    decreases p
  {
    p != [] && |sp| > 1 && sp[0] == p[0] &&
    var kid := t.kids[p[0]];
    kid.Element? && (sp[1] < Dropped(cfg, kid) || LostIn(cfg, kid, p[1..], sp[1..]))
  }

  /** How many children the node at path sp itself loses at its front. */
  function DriftIn(cfg: Config, t: Node, p: Path, sp: Path): nat
    requires HasNode(t, p)
    decreases p
  {
    if p == [] || sp == [] || sp[0] != p[0] || t.kids[p[0]].Text? then 0
    else if |sp| == 1 then Dropped(cfg, t.kids[p[0]])
    else DriftIn(cfg, t.kids[p[0]], p[1..], sp[1..])
  }

  /** Empty texts in front of an element are the same ones whatever the element is. */
  lemma {:induction false} DropBeforeElement(kids: seq<Node>, i: nat, m: Node)
    requires i < |kids| && kids[i].Element? && m.Element?
    ensures |DropEmptyTexts(kids[i := m])| == |DropEmptyTexts(kids)|
    decreases kids
  {
    if i > 0 && EmptyText(kids[0]) {
      assert kids[i := m][1..] == kids[1..][i - 1 := m];
      DropBeforeElement(kids[1..], i - 1, m);
    }
  }

  lemma {:induction false} SameDrop(cfg: Config, t: Node, p: Path)
    requires p != [] && HasNode(t, p)
    ensures Dropped(cfg, FixAt(cfg, t, p)) == Dropped(cfg, t)
  {
    var i, m := p[0], FixAt(cfg, t.kids[p[0]], p[1..]);
    if t.kids[i].Element? {
      DropBeforeElement(t.kids, i, m);
    } else {
      assert t.kids[i := m] == t.kids;
    }
  }

  lemma {:induction false} DriftLastStep(cfg: Config, t: Node, i: nat, sp: Path)
    requires HasNode(t, [i]) && FollowFix(cfg, t, [i], sp).Some?
    ensures !LostIn(cfg, t, [i], sp) && DriftIn(cfg, t, [i], sp) == SelfDrift(cfg, t, [i], sp)
  {
    hide Dropped;
    assert [i][1..] == [];
    if sp != [] && sp[0] == i {
      assert sp == [i] + sp[1..] && FollowFix(cfg, t.kids[i], [], sp[1..]).Some?;
      assert DriftIn(cfg, t.kids[i], [], sp[1..]) == 0 && !LostIn(cfg, t.kids[i], [], sp[1..]);
      assert NodeAt(t, [i]) == NodeAt(t.kids[i], []) == t.kids[i];
    }
  }

  lemma {:induction false} DriftElsewhere(cfg: Config, t: Node, p: Path, sp: Path)
    requires |p| > 1 && HasNode(t, p) && (|sp| <= 1 || sp[0] != p[0])
    requires HasNode(FixAt(cfg, t, p), UpPath(p))
    ensures var t' := FixAt(cfg, t, p);
      && FollowFix(cfg, t, p, sp) == Some(sp) && SelfDrift(cfg, t, p, sp) == 0
      && !LostIn(cfg, t', UpPath(p), sp) && !LostIn(cfg, t, p, sp)
      && DriftIn(cfg, t, p, sp) == DriftIn(cfg, t', UpPath(p), sp)
  {
    hide Dropped, FixCursor;
    var i, kid := p[0], t.kids[p[0]];
    assert p == [i] + p[1..] && UpPath(p)[0] == i;
    SameDrop(cfg, kid, p[1..]);
    if |sp| == 1 && sp[0] == i {
      assert sp[1..] == [] && [i] + [] == sp && FollowFix(cfg, kid, p[1..], []) == Some([]);
      assert FixAt(cfg, t, p).kids[i] == FixAt(cfg, kid, p[1..]);
    }
  }

  /** The rest of the way finds the same nodes lost, and the same drift but for this step's. */
  lemma {:induction false} DriftStep(cfg: Config, t: Node, p: Path, sp: Path)
    requires p != [] && HasNode(t, p) && FollowFix(cfg, t, p, sp).Some?
    ensures HasNode(FixAt(cfg, t, p), UpPath(p))
    ensures var t', f := FixAt(cfg, t, p), FollowFix(cfg, t, p, sp).value;
      && (LostIn(cfg, t', UpPath(p), f) <==> LostIn(cfg, t, p, sp))
      && DriftIn(cfg, t, p, sp) == DriftIn(cfg, t', UpPath(p), f) + SelfDrift(cfg, t, p, sp)
    decreases p
  {
    FixAtHas(cfg, t, p);
    if |p| == 1 {
      assert p == [p[0]] && UpPath(p) == [];
      DriftLastStep(cfg, t, p[0], sp);
    } else if |sp| > 1 && sp[0] == p[0] {
      DriftBelow(cfg, t, p, sp);
      var kid := t.kids[p[0]];
      SameDrop(cfg, kid, p[1..]);
      DriftStep(cfg, kid, p[1..], sp[1..]);
      hide Dropped, DriftIn, FixAt, FollowFix, SelfDrift;
    } else {
      DriftElsewhere(cfg, t, p, sp);
    }
  }

  lemma {:induction false} DriftBelow(cfg: Config, t: Node, p: Path, sp: Path)
    requires |p| > 1 && HasNode(t, p) && |sp| > 1 && sp[0] == p[0] && FollowFix(cfg, t, p, sp).Some?
    requires HasNode(FixAt(cfg, t, p), UpPath(p))
    ensures var kid, t', f := t.kids[p[0]], FixAt(cfg, t, p), FollowFix(cfg, t, p, sp).value;
      && HasNode(kid, p[1..]) && t'.Element? && t'.kids[p[0]] == FixAt(cfg, kid, p[1..])
      && HasNode(FixAt(cfg, kid, p[1..]), UpPath(p[1..]))
      && FollowFix(cfg, kid, p[1..], sp[1..]) == Some(f[1..]) && f[0] == p[0] && f[1] == sp[1]
      && DriftIn(cfg, t', UpPath(p), f) == DriftIn(cfg, t'.kids[p[0]], UpPath(p[1..]), f[1..])
      && DriftIn(cfg, t, p, sp) == DriftIn(cfg, kid, p[1..], sp[1..])
      && SelfDrift(cfg, t, p, sp) == SelfDrift(cfg, kid, p[1..], sp[1..])
      && (LostIn(cfg, t', UpPath(p), f) <==>
            sp[1] < Dropped(cfg, t'.kids[p[0]]) || LostIn(cfg, t'.kids[p[0]], UpPath(p[1..]), f[1..]))
  {
    hide Dropped, FixCursor;
    var i, kid := p[0], t.kids[p[0]];
    FixAtHas(cfg, kid, p[1..]);
    assert p == [i] + p[1..] && sp == [i] + sp[1..];
    var f := FollowFix(cfg, t, p, sp).value;
    assert f == [i] + f[1..] && UpPath(p)[0] == i && UpPath(p)[1..] == UpPath(p[1..]);
  }

  lemma {:induction false} NothingFixed(cfg: Config, t: Node, sp: Path)
    ensures HasNode(t, []) && !LostIn(cfg, t, [], sp) && DriftIn(cfg, t, [], sp) == 0
  {}

  lemma {:induction false} FixUpCarries(cfg: Config, t: Node, p: Path, sp: Path, so: nat)
    requires HasNode(t, p) && ValidPlace(t, sp, so)
    ensures FollowFixUp(cfg, t, p, sp).None? <==> LostIn(cfg, t, p, sp)
    ensures FollowFixUp(cfg, t, p, sp).Some? ==>
      Carried(t, sp, so + DriftIn(cfg, t, p, sp), FixUp(cfg, t, p), FollowFixUp(cfg, t, p, sp).value, so)
    decreases |p|
  {
    hide Carried, FixAt, FollowFix, LostIn, DriftIn, SelfDrift, ValidPlace;
    if p == [] {
      NothingFixed(cfg, t, sp);
      CarriedSelf(t, sp, so);
    } else if FollowFix(cfg, t, p, sp).None? {
      FollowLost(cfg, t, p, sp);
    } else {
      DriftStep(cfg, t, p, sp);
      var t', f, q := FixAt(cfg, t, p), FollowFix(cfg, t, p, sp).value, UpPath(p);
      FixCarries(cfg, t, p, sp, so);
      CarriedValid(t, sp, so + SelfDrift(cfg, t, p, sp), t', f, so);
      FixUpCarries(cfg, t', q, f, so);
      var d := DriftIn(cfg, t', q, f);
      if FollowFixUp(cfg, t', q, f).Some? {
        DriftsInElements(cfg, t, p, sp, so, d);
        FixCarries(cfg, t, p, sp, so + d);
        CarriedOn(t, sp, so + DriftIn(cfg, t, p, sp), t', f, so + d, FixUp(cfg, t, p),
                  FollowFixUp(cfg, t, p, sp).value, so);
      }
    }
  }

  lemma {:induction false} CarriedValid(a: Node, p: Path, o: nat, b: Node, q: Path, r: nat)
    requires Carried(a, p, o, b, q, r)
    ensures ValidPlace(a, p, o) && ValidPlace(b, q, r)
  {}

  lemma {:induction false} FollowLost(cfg: Config, t: Node, p: Path, sp: Path)
    requires HasNode(t, p) && FollowFix(cfg, t, p, sp).None? && p != []
    ensures LostIn(cfg, t, p, sp)
    decreases p
  {
    if |p| > 1 {
      FollowLost(cfg, t.kids[p[0]], p[1..], sp[1..]);
    }
  }

  /** Only elements drift, and elements have places at every offset. */
  lemma {:induction false} DriftsInElements(cfg: Config, t: Node, p: Path, sp: Path, so: nat, d: nat)
    requires HasNode(t, p) && ValidPlace(t, sp, so) && d <= DriftIn(cfg, t, p, sp)
    ensures ValidPlace(t, sp, so + d)
    decreases p
  {
    if p != [] && |sp| > 1 && sp[0] == p[0] && t.kids[p[0]].Element? {
      DriftsInElements(cfg, t.kids[p[0]], p[1..], sp[1..], so, d);
    }
  }

  // ----- the start after the whole split -----

  /** The start's container, or a node above it, is taken out. */
  predicate Lost(cfg: Config, node: Node, p: Path, o: nat, sp: Path)
    requires ValidPlace(node, p, o)
  {
    UpToHas(node, p, o);
    LostIn(cfg, UpTo(node, p, o), p, sp)
  }

  /** How many children the start's container itself loses at its front. */
  function Drift(cfg: Config, node: Node, p: Path, o: nat, sp: Path): nat
    requires ValidPlace(node, p, o)
  {
    UpToHas(node, p, o);
    DriftIn(cfg, UpTo(node, p, o), p, sp)
  }

  /** The place that the start (sp, so) comes to mean: as many children further on, but not
      behind the end. */
  function Meant(cfg: Config, node: Node, p: Path, o: nat, sp: Path, so: nat): (Path, nat)
    requires ValidPlace(node, p, o)
  {
    var further := so + Drift(cfg, node, p, o, sp);
    if PlaceLe(sp, further, p, o) then (sp, further) else (p, o)
  }

  lemma {:induction false} DriftValid(cfg: Config, node: Node, p: Path, o: nat, sp: Path, so: nat)
    requires ValidPlace(node, p, o) && ValidPlace(node, sp, so)
    ensures ValidPlace(node, sp, so + Drift(cfg, node, p, o, sp))
    decreases p
  {
    hide Dropped;
    UpToHas(node, p, o);
    if p != [] && |sp| > 1 && sp[0] == p[0] && node.kids[p[0]].Element? {
      assert UpTo(node, p, o).kids[p[0]] == UpTo(node.kids[p[0]], p[1..], o);
      DriftValid(cfg, node.kids[p[0]], p[1..], o, sp[1..], so);
    } else if p != [] && sp != [] && sp[0] == p[0] {
      UpToHas(node.kids[p[0]], p[1..], o);
    }
  }

  /** What the tree shows before that place. */
  function MeantBefore(cfg: Config, node: Node, p: Path, o: nat, sp: Path, so: nat): seq<Token>
    requires ValidPlace(node, p, o) && ValidPlace(node, sp, so)
  {
    DriftValid(cfg, node, p, o, sp, so);
    var (q, r) := Meant(cfg, node, p, o, sp, so);
    Before(node, q, r)
  }

  lemma {:induction false} NoDrift(cfg: Config, node: Node, p: Path, o: nat, sp: Path, so: nat)
    requires ValidPlace(node, p, o) && ValidPlace(node, sp, so) && PlaceLe(sp, so, p, o)
    requires Drift(cfg, node, p, o, sp) == 0
    ensures Meant(cfg, node, p, o, sp, so) == (sp, so)
    ensures MeantBefore(cfg, node, p, o, sp, so) == Before(node, sp, so)
  {
    hide Before, ValidPlace, Drift;
  }

  lemma {:induction false} BothPastEnd(node: Node, sp: Path, so: nat, p: Path, o: nat, x: nat)
    requires ValidPlace(node, p, o) && ValidPlace(UpTo(node, p, o), sp, x)
    requires PlaceLe(sp, so, p, o) && !PlaceLe(sp, x, p, o)
    ensures ValidPlace(UpTo(node, p, o), p, o)
    ensures ContentBehind(UpTo(node, p, o), sp, x) == ContentBehind(UpTo(node, p, o), p, o)
    ensures ContentBefore(UpTo(node, p, o), sp, x) == ContentBefore(node, p, o)
  {
    var t := UpTo(node, p, o);
    PastEnd(node, sp, so, p, o, x);
    UpToEnd(node, p, o);
    ContentCuts(t, sp, x);
    hide ContentBefore, ContentBehind, ValidPlace, UpTo, Content, PlaceLe;
    assert ContentBefore(t, sp, x) + [] == ContentBefore(t, sp, x);
  }

  /** The tree up to the end at that place, and at the place that is meant. */
  lemma {:induction false} MeantCuts(cfg: Config, node: Node, p: Path, o: nat, sp: Path, so: nat)
    requires ValidPlace(node, p, o) && ValidPlace(node, sp, so) && PlaceLe(sp, so, p, o)
    ensures var t, (q, r), x := UpTo(node, p, o), Meant(cfg, node, p, o, sp, so), so + Drift(cfg, node, p, o, sp);
      && ValidPlace(node, q, r) && ValidPlace(t, q, r) && ValidPlace(t, sp, x)
      && ContentBefore(t, sp, x) == ContentBefore(node, q, r) && ContentBehind(t, sp, x) == ContentBehind(t, q, r)
  {
    hide ContentBefore, ContentBehind, ValidPlace, UpTo, DriftIn, Content, PlaceLe;
    var t, x := UpTo(node, p, o), so + Drift(cfg, node, p, o, sp);
    DriftValid(cfg, node, p, o, sp, so);
    UpToHas(node, p, o);
    UpToPlace(node, sp, so, p, o);
    DriftsInElements(cfg, t, p, sp, so, Drift(cfg, node, p, o, sp));
    if PlaceLe(sp, x, p, o) {
      UpToPlace(node, sp, x, p, o);
    } else {
      BothPastEnd(node, sp, so, p, o, x);
    }
  }

  /** The whole split of the end, on the tree up to the end. */
  lemma {:induction false} SplitUpFixes(cfg: Config, stop: Node, p: Path, o: nat)
    requires stop.Element? && ValidPlace(stop, p, o)
    ensures HasNode(UpTo(stop, p, o), p)
    ensures var (stop', k) := SplitUp(cfg, stop, p, o);
      && ValidPlace(stop', [], k) && UpTo(stop', [], k) == FixUp(cfg, UpTo(stop, p, o), p)
      && k <= |stop'.kids|
    decreases |p|
  {
    hide UpTo, FixAt, SplitAt, Before, Behind;
    UpToHas(stop, p, o);
    if p == [] {
      UpToHere(stop, o);
    } else {
      SplitFixes(cfg, stop, p, o);
      SplitAtTag(cfg, stop, p, o);
      SplitUpFixes(cfg, SplitAt(cfg, stop, p, o), UpPath(p), UpOffset(p));
    }
  }

  lemma {:induction false} UpToHere(stop: Node, o: nat)
    requires stop.Element? && ValidPlace(stop, [], o)
    ensures ValidPlace(stop, [], Cut(stop.kids, o)) && UpTo(stop, [], Cut(stop.kids, o)) == UpTo(stop, [], o)
  {}

  lemma {:induction false} FollowUpFixes(cfg: Config, stop: Node, p: Path, o: nat, sp: Path, so: nat)
    requires stop.Element? && ValidPlace(stop, p, o) && ValidPlace(UpTo(stop, p, o), sp, so)
    ensures HasNode(UpTo(stop, p, o), p)
    ensures FollowUp(cfg, stop, p, o, sp) == FollowFixUp(cfg, UpTo(stop, p, o), p, sp)
    decreases |p|
  {
    hide UpTo, Follow, FollowFix, FixAt, SplitAt, Before, Behind, Carried;
    UpToHas(stop, p, o);
    if p != [] {
      SplitFixes(cfg, stop, p, o);
      FollowsFix(cfg, stop, p, o, sp, so);
      SplitAtTag(cfg, stop, p, o);
      var t, f := UpTo(stop, p, o), Follow(cfg, stop, p, o, sp);
      if f.Some? {
        FixCarries(cfg, t, p, sp, so);
        CarriedValid(t, sp, so + SelfDrift(cfg, t, p, sp), FixAt(cfg, t, p), f.value, so);
        FollowUpFixes(cfg, SplitAt(cfg, stop, p, o), UpPath(p), UpOffset(p), f.value, so);
      }
    }
  }

  lemma {:induction false} UpToBack(node: Node, k: nat, f: Path, so: nat)
    requires node.Element? && ValidPlace(node, [], k) && k <= |node.kids| && ValidPlace(UpTo(node, [], k), f, so)
    requires f == [] ==> Cut(node.kids, so) <= k
    ensures ValidPlace(node, f, so) && ContentBefore(UpTo(node, [], k), f, so) == ContentBefore(node, f, so)
    ensures f != [] ==> f[0] < k
  {
    var t := UpTo(node, [], k);
    assert t.kids == node.kids[..k];
    if f == [] {
      assert t.kids[..Cut(t.kids, so)] == node.kids[..Cut(node.kids, so)];
    } else {
      assert t.kids[..f[0]] == node.kids[..f[0]];
    }
  }

  lemma {:induction false} EndSplitCarries(cfg: Config, stop: Node, p: Path, o: nat, sp: Path, so: nat)
    requires stop.Element? && ValidPlace(stop, p, o) && ValidPlace(stop, sp, so) && PlaceLe(sp, so, p, o)
    ensures FollowUp(cfg, stop, p, o, sp).None? <==> Lost(cfg, stop, p, o, sp)
    ensures ValidPlace(SplitUp(cfg, stop, p, o).0, [], SplitUp(cfg, stop, p, o).1)
    ensures FollowUp(cfg, stop, p, o, sp).Some? ==>
      Carried(UpTo(stop, p, o), sp, so + Drift(cfg, stop, p, o, sp),
              UpTo(SplitUp(cfg, stop, p, o).0, [], SplitUp(cfg, stop, p, o).1),
              FollowUp(cfg, stop, p, o, sp).value, so)
  {
    hide SplitUp, FollowUp, FollowFixUp, FixUp, DriftIn, LostIn, UpTo, PlaceLe, Carried, Before, Behind, ContentBefore;
    UpToPlace(stop, sp, so, p, o);
    SplitUpFixes(cfg, stop, p, o);
    FollowUpFixes(cfg, stop, p, o, sp, so);
    FixUpCarries(cfg, UpTo(stop, p, o), p, sp, so);
  }

  /** The start in the split tree, at path f. */
  ghost predicate StartIs(cfg: Config, stop: Node, p: Path, o: nat, sp: Path, so: nat, f: Path)
    requires stop.Element? && ValidPlace(stop, p, o)
  {
    var (stop', k), (q, r) := SplitUp(cfg, stop, p, o), Meant(cfg, stop, p, o, sp, so);
    && ValidPlace(stop', f, so) && ValidPlace(stop', [], k)
    && (if f == [] then Cut(stop'.kids, so) <= k else f[0] < k)
    && ValidPlace(stop, q, r) && ValidPlace(UpTo(stop, p, o), q, r) && ValidPlace(UpTo(stop', [], k), f, so)
    && Padded(ContentBefore(stop, q, r), ContentBefore(stop', f, so))
    && Padded(ContentBetween(stop, q, r, p, o), ContentBetween(stop', f, so, [], k))
  }

  /** The whole split of the end. It finds the start's container lost exactly when fixCursor takes
      it, or a node above it, from the front of its parent. Otherwise the start is there
      afterwards, not behind the cut; what is before it, and what is between it and the cut, is
      what was before the place that it has come to mean, and between that place and the end,
      line breaks included, with only fixers put in. */
  lemma {:induction false} StartFollowed(cfg: Config, stop: Node, p: Path, o: nat, sp: Path, so: nat)
    requires stop.Element? && ValidPlace(stop, p, o) && ValidPlace(stop, sp, so) && PlaceLe(sp, so, p, o)
    ensures FollowUp(cfg, stop, p, o, sp).None? <==> Lost(cfg, stop, p, o, sp)
    ensures FollowUp(cfg, stop, p, o, sp).Some? ==>
      StartIs(cfg, stop, p, o, sp, so, FollowUp(cfg, stop, p, o, sp).value)
  {
    hide SplitUp, FollowUp, UpTo, PlaceLe, Lost, Drift, Meant, Padded, ContentBefore, ContentBehind, ValidPlace;
    EndSplitCarries(cfg, stop, p, o, sp, so);
    MeantCuts(cfg, stop, p, o, sp, so);
    if FollowUp(cfg, stop, p, o, sp).Some? {
      var (stop', k) := SplitUp(cfg, stop, p, o);
      NotBehindCut(cfg, stop, p, o, sp, so);
      UpToBack(stop', k, FollowUp(cfg, stop, p, o, sp).value, so);
    }
  }

  /** So the tree shows before the start what it showed before that place. */
  lemma {:induction false} StartShown(cfg: Config, stop: Node, p: Path, o: nat, sp: Path, so: nat, f: Path)
    requires stop.Element? && ValidPlace(stop, p, o) && ValidPlace(stop, sp, so) && StartIs(cfg, stop, p, o, sp, so, f)
    ensures ValidPlace(SplitUp(cfg, stop, p, o).0, f, so)
    ensures Before(SplitUp(cfg, stop, p, o).0, f, so) == MeantBefore(cfg, stop, p, o, sp, so)
  {
    hide SplitUp, UpTo, Meant, Padded, ContentBefore, ContentBehind, ValidPlace;
    var (q, r) := Meant(cfg, stop, p, o, sp, so);
    CutsShow(stop, q, r);
    CutsShow(SplitUp(cfg, stop, p, o).0, f, so);
    PaddedShows(ContentBefore(stop, q, r), ContentBefore(SplitUp(cfg, stop, p, o).0, f, so));
  }

  /** Two places cut the content in three. */
  lemma {:induction false} ThreeParts(node: Node, sp: Path, so: nat, p: Path, o: nat)
    requires ValidPlace(node, p, o) && ValidPlace(node, sp, so) && PlaceLe(sp, so, p, o)
    ensures ValidPlace(UpTo(node, p, o), sp, so)
    ensures ContentBefore(node, sp, so) + ContentBetween(node, sp, so, p, o) == ContentBefore(node, p, o)
    ensures ContentBefore(node, p, o) + ContentBehind(node, p, o) == Content(node)
  {
    UpToPlace(node, sp, so, p, o);
    UpToEnd(node, p, o);
    ContentCuts(UpTo(node, p, o), sp, so);
    ContentCuts(node, p, o);
  }

  lemma {:induction false} NotBehindCut(cfg: Config, stop: Node, p: Path, o: nat, sp: Path, so: nat)
    requires stop.Element? && ValidPlace(stop, p, o) && PlaceLe(sp, so, p, o)
    ensures SplitUp(cfg, stop, p, o).1 <= |SplitUp(cfg, stop, p, o).0.kids|
    ensures FollowUp(cfg, stop, p, o, sp) == Some([]) ==>
      Cut(SplitUp(cfg, stop, p, o).0.kids, so) <= SplitUp(cfg, stop, p, o).1
  {
    SplitUpFixes(cfg, stop, p, o);
    if FollowUp(cfg, stop, p, o, sp).Some? {
      FollowUpLength(cfg, stop, p, o, sp);
    }
    if p != [] {
      SplitUpTop(cfg, stop, p, o);
    }
  }

  lemma {:induction false} FollowUpLength(cfg: Config, stop: Node, p: Path, o: nat, w: Path)
    requires stop.Element? && ValidPlace(stop, p, o) && FollowUp(cfg, stop, p, o, w).Some?
    ensures |FollowUp(cfg, stop, p, o, w).value| == |w|
    decreases |p|
  {
    hide SplitAt, Before, Behind, Follow;
    if p != [] {
      FollowLength(cfg, stop, p, o, w);
      SplitAtKeepsPlace(cfg, stop, p, o);
      SplitAtTag(cfg, stop, p, o);
      FollowUpLength(cfg, SplitAt(cfg, stop, p, o), UpPath(p), UpOffset(p), Follow(cfg, stop, p, o, w).value);
    }
  }

  lemma {:induction false} FollowLength(cfg: Config, node: Node, p: Path, o: nat, w: Path)
    requires p != [] && ValidPlace(node, p, o) && Follow(cfg, node, p, o, w).Some?
    ensures |Follow(cfg, node, p, o, w).value| == |w|
    decreases p
  {
    if |p| > 1 && w != [] && w[0] == p[0] {
      FollowLength(cfg, node.kids[p[0]], p[1..], o, w[1..]);
    }
  }

  // ----- what following means -----

  lemma {:induction false} AppendBRHolds(node: Node, w: Path)
    requires node.Element? && HasNode(node, w)
    ensures HasNode(AppendBR(node), w) && NodeAt(AppendBR(node), w).id == NodeAt(node, w).id
    decreases w
  {
    var i := LastElement(node.kids);
    if w != [] && i < |node.kids| && !IsInline(node.kids[i]) && w[0] == i {
      AppendBRHolds(node.kids[i], w[1..]);
    }
  }

  lemma {:induction false} DropIsSuffix(kids: seq<Node>)
    ensures DropEmptyTexts(kids) == kids[|kids| - |DropEmptyTexts(kids)|..]
  {
    if kids != [] && EmptyText(kids[0]) {
      DropIsSuffix(kids[1..]);
    }
  }

  /** A node below the one that fixCursor fixes is there afterwards, or was dropped. */
  lemma {:induction false} FixCursorHolds(cfg: Config, node: Node, w: Path)
    requires node.Element? && w != [] && HasNode(node, w) && Dropped(cfg, node) <= w[0]
    ensures var f := [w[0] - Dropped(cfg, node)] + w[1..];
            HasNode(FixCursor(cfg, node), f) && NodeAt(FixCursor(cfg, node), f).id == NodeAt(node, w).id
  {
    var d, node' := Dropped(cfg, node), FixCursor(cfg, node);
    var f := [w[0] - d] + w[1..];
    assert f[1..] == w[1..];
    DropIsSuffix(node.kids);
    if !IsInline(node) {
      assert f == w;
      AppendBRHolds(node, w);
    }
  }

  /** The path that Follow gives leads to the same node. */
  lemma {:induction false} FollowHolds(cfg: Config, node: Node, p: Path, o: nat, w: Path)
    requires p != [] && ValidPlace(node, p, o) && HasNode(node, w) && Follow(cfg, node, p, o, w).Some?
    ensures var node', f := SplitAt(cfg, node, p, o), Follow(cfg, node, p, o, w).value;
            HasNode(node', f) && NodeAt(node', f).id == NodeAt(node, w).id
    decreases p
  {
    hide Before, Behind, FixCursor, Dropped;
    var i, kid, node' := p[0], node.kids[p[0]], SplitAt(cfg, node, p, o);
    var f := Follow(cfg, node, p, o, w).value;
    if w == [] {
    } else if w[0] != i {
      FollowAside(cfg, node, p, o, w);
    } else if |p| > 1 {
      FollowHolds(cfg, kid, p[1..], o, w[1..]);
      NodeBelow(node', i, Follow(cfg, kid, p[1..], o, w[1..]).value);
    } else if |w| == 1 || kid.Text? {
      assert w == [i];
      NodeBelow(node', i, []);
    } else {
      FollowIntoHalf(cfg, node, i, o, w);
    }
  }

  /** A node is not followed any more exactly when it is, or is in, an empty text that fixCursor
      takes from the front of one of the two halves, which happens to inline elements in WebKit. */
  lemma {:induction false} FollowEndsExactly(cfg: Config, node: Node, p: Path, o: nat, w: Path)
    requires p != [] && ValidPlace(node, p, o) && HasNode(node, w)
    ensures HasNode(node, p)
    ensures Follow(cfg, node, p, o, w).None? <==>
      && |p| < |w| && w[..|p|] == p && cfg.cantFocusEmptyTextNodes
      && NodeAt(node, p).Element? && IsInline(NodeAt(node, p))
      && TakenAway(NodeAt(node, p), o, w[|p|])
    decreases p
  {
    hide IsInline, DropEmptyTexts;
    ValidKid(node, p, o);
    PlaceHasNode(node, p, o);
    var i, kid := p[0], node.kids[p[0]];
    if |p| == 1 {
      assert p == [i] && p[1..] == [] && NodeAt(node, p) == NodeAt(kid, []);
      if |w| > 1 && w[0] == i && kid.Element? {
        assert w[..1] == p;
        TakenFromHalf(cfg, kid, o, w[1]);
      } else if |w| > 1 {
        assert w[..1] == [w[0]];
      }
    } else if w != [] && w[0] == i {
      FollowEndsExactly(cfg, kid, p[1..], o, w[1..]);
      assert |p| < |w| ==> (w[..|p|] == p <==> w[1..][..|p| - 1] == p[1..]) && w[1..][|p| - 1] == w[|p|] by {
        if |p| < |w| {
          assert w[..|p|] == [i] + w[1..][..|p| - 1] && p == [i] + p[1..];
        }
      }
    } else {
      assert |p| < |w| ==> w[..|p|][0] == w[0];
    }
  }

  /** The child at index j is one of the empty texts at the front of its half. */
  predicate TakenAway(node: Node, o: nat, j: nat)
    requires node.Element?
  {
    var c := Cut(node.kids, o);
    j < |node.kids| && forall i | (if j < c then 0 else c) <= i <= j :: EmptyText(node.kids[i])
  }

  lemma {:induction false} DroppedIn(kids: seq<Node>)
    ensures var d := |kids| - |DropEmptyTexts(kids)|;
      && (forall i | 0 <= i < d :: EmptyText(kids[i])) && (d < |kids| ==> !EmptyText(kids[d]))
    decreases kids
  {
    if kids != [] && EmptyText(kids[0]) {
      DroppedIn(kids[1..]);
      assert forall i | 0 < i < |kids| :: kids[i] == kids[1..][i - 1];
    }
  }

  lemma {:induction false} TakenFromHalf(cfg: Config, kid: Node, o: nat, j: nat)
    requires kid.Element? && j < |kid.kids|
    ensures var c := Cut(kid.kids, o);
      (TakenAway(kid, o, j) && cfg.cantFocusEmptyTextNodes && IsInline(kid)) <==>
        if j < c then j < Dropped(cfg, Kept(kid, o)) else j - c < Dropped(cfg, Given(kid, o))
  {
    hide EmptyText, DropEmptyTexts;
    var c := Cut(kid.kids, o);
    if j < c {
      DroppedIn(Kept(kid, o).kids);
    } else {
      DroppedIn(Given(kid, o).kids);
      assert forall i | 0 <= i < |kid.kids| - c :: Given(kid, o).kids[i] == kid.kids[c + i];
      assert forall i | c <= i < |kid.kids| :: kid.kids[i] == Given(kid, o).kids[i - c];
    }
  }

  lemma {:induction false} FollowAside(cfg: Config, node: Node, p: Path, o: nat, w: Path)
    requires p != [] && ValidPlace(node, p, o) && HasNode(node, w) && w != [] && w[0] != p[0]
    ensures var node', f := SplitAt(cfg, node, p, o), Follow(cfg, node, p, o, w);
            f.Some? && HasNode(node', f.value) && NodeAt(node', f.value) == NodeAt(node, w)
  {
    hide LeftHalf, RightHalf;
    var node', f := SplitAt(cfg, node, p, o), Follow(cfg, node, p, o, w).value;
    assert f[1..] == w[1..] && node'.kids[f[0]] == node.kids[w[0]];
  }

  lemma {:induction false} HalvesThere(cfg: Config, node: Node, i: nat, o: nat)
    requires ValidPlace(node, [i], o) && node.kids[i].Element?
    ensures var node', kid := SplitAt(cfg, node, [i], o), node.kids[i];
            && node'.Element? && i + 1 < |node'.kids|
            && node'.kids[i] == FixCursor(cfg, Kept(kid, o)) && node'.kids[i + 1] == FixCursor(cfg, Given(kid, o))
  {
    hide FixCursor;
  }

  lemma {:induction false} FollowIntoHalf(cfg: Config, node: Node, i: nat, o: nat, w: Path)
    requires ValidPlace(node, [i], o) && HasNode(node, w) && |w| > 1 && w[0] == i && node.kids[i].Element?
    requires Follow(cfg, node, [i], o, w).Some?
    ensures var node', f := SplitAt(cfg, node, [i], o), Follow(cfg, node, [i], o, w).value;
            HasNode(node', f) && NodeAt(node', f).id == NodeAt(node, w).id
  {
    hide FixCursor, Dropped, SplitAt, ValidPlace;
    HalvesThere(cfg, node, i, o);
    var kid, node', v := node.kids[i], SplitAt(cfg, node, [i], o), w[1..];
    var c := Cut(kid.kids, o);
    assert HasNode(kid, v) && NodeAt(node, w) == NodeAt(kid, v);
    if v[0] < c {
      var d := Dropped(cfg, Kept(kid, o));
      assert Follow(cfg, node, [i], o, w) == Some([i, v[0] - d] + w[2..]) && v[1..] == w[2..];
      assert [i, v[0] - d] + w[2..] == [i] + ([v[0] - d] + v[1..]);
      HeldIn(kid, Kept(kid, o), v, v);
      hide HasNode, NodeAt, Follow;
      FixCursorHolds(cfg, Kept(kid, o), v);
      NodeBelow(node', i, [v[0] - d] + v[1..]);
    } else {
      var u, e := [v[0] - c] + v[1..], Dropped(cfg, Given(kid, o));
      assert Follow(cfg, node, [i], o, w) == Some([i + 1, v[0] - c - e] + w[2..]) && u[1..] == v[1..] == w[2..];
      assert [i + 1, v[0] - c - e] + w[2..] == [i + 1] + ([u[0] - e] + u[1..]);
      HeldIn(kid, Given(kid, o), v, u);
      hide HasNode, NodeAt, Follow;
      FixCursorHolds(cfg, Given(kid, o), u);
      NodeBelow(node', i + 1, [u[0] - e] + u[1..]);
    }
  }

  /** The same child, at another index. */
  lemma {:induction false} HeldIn(a: Node, b: Node, v: Path, u: Path)
    requires a.Element? && b.Element? && v != [] && u != [] && v[1..] == u[1..] && HasNode(a, v)
    requires u[0] < |b.kids| && b.kids[u[0]] == a.kids[v[0]]
    ensures HasNode(b, u) && NodeAt(b, u) == NodeAt(a, v)
  {}
}
