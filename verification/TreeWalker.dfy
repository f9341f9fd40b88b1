/** Squire's TreeWalker (war/components/Squire/squire-raw.js:55-170), a subset of section 6.2
    of the WHATWG DOM Standard. A node under the root is given by its path: the child indices
    on the way from the root. */
module TreeWalker {
  import opened Wrappers

  datatype Node = Node(nodeType: nat, name: string, kids: seq<Node>)
  type Path = seq<nat>

  predicate Valid(t: Node, p: Path)
    decreases p
  {
    p == [] || (p[0] < |t.kids| && Valid(t.kids[p[0]], p[1..]))
  }

  function At(t: Node, p: Path): Node
    requires Valid(t, p)
    decreases p
  {
    if p == [] then t else At(t.kids[p[0]], p[1..])
  }

  function Up(p: Path): Path
    requires p != []
  {
    p[..|p| - 1]
  }

  function Last(p: Path): nat
    requires p != []
  {
    p[|p| - 1]
  }

  lemma {:induction false} ValidSteps(t: Node, p: Path, i: nat)
    ensures Valid(t, p + [i]) <==> Valid(t, p) && i < |At(t, p).kids|
    ensures Valid(t, p + [i]) ==> At(t, p + [i]) == At(t, p).kids[i]
    decreases p
  {
    if p == [] {
      assert (p + [i])[1..] == [];
    } else {
      assert (p + [i])[1..] == p[1..] + [i];
      if p[0] < |t.kids| {
        ValidSteps(t.kids[p[0]], p[1..], i);
      }
    }
  }

  lemma {:induction false} ValidUp(t: Node, p: Path)
    requires Valid(t, p) && p != []
    ensures Valid(t, Up(p)) && Last(p) < |At(t, Up(p)).kids|
  {
    assert p == Up(p) + [Last(p)];
    ValidSteps(t, Up(p), Last(p));
  }

  // ----- the links of the DOM -----

  function FirstChild(t: Node, p: Path): Option<Path>
    requires Valid(t, p)
  {
    if At(t, p).kids == [] then None else Some(p + [0])
  }

  function LastChild(t: Node, p: Path): Option<Path>
    requires Valid(t, p)
  {
    if At(t, p).kids == [] then None else Some(p + [|At(t, p).kids| - 1])
  }

  function NextSibling(t: Node, p: Path): Option<Path>
    requires Valid(t, p) && p != []
  {
    ValidUp(t, p);
    if Last(p) + 1 < |At(t, Up(p)).kids| then Some(Up(p) + [Last(p) + 1]) else None
  }

  function PreviousSibling(t: Node, p: Path): Option<Path>
    requires Valid(t, p) && p != []
  {
    if Last(p) > 0 then Some(Up(p) + [Last(p) - 1]) else None
  }

  // ----- reference orders -----

  function Below(k: nat, ps: seq<Path>): seq<Path> {
    seq(|ps|, i requires 0 <= i < |ps| => [k] + ps[i])
  }

  /** The node before its children, the children from left to right. */
  function PreOrder(t: Node): (ps: seq<Path>)
    ensures ps != [] && ps[0] == []
    decreases t, |t.kids| + 1
  {
    [[]] + PreOrderKids(t, 0)
  }

  function PreOrderKids(t: Node, k: nat): seq<Path>
    requires k <= |t.kids|
    decreases t, |t.kids| - k
  {
    if k == |t.kids| then [] else Below(k, PreOrder(t.kids[k])) + PreOrderKids(t, k + 1)
  }

  /** The node behind its children, the children from left to right. */
  function PostOrder(t: Node): (ps: seq<Path>)
    ensures ps != [] && ps[|ps| - 1] == []
    decreases t, |t.kids| + 1
  {
    PostOrderKids(t, |t.kids|) + [[]]
  }

  /** The first k children. */
  function PostOrderKids(t: Node, k: nat): seq<Path>
    requires k <= |t.kids|
    decreases t, k
  {
    if k == 0 then [] else PostOrderKids(t, k - 1) + Below(k - 1, PostOrder(t.kids[k - 1]))
  }

  function Reversed(ps: seq<Path>): seq<Path> {
    seq(|ps|, i requires 0 <= i < |ps| => ps[|ps| - 1 - i])
  }

  // ----- one step of nextNode, seen from the root -----

  /** Up to the first ancestor-or-self with a next sibling, and there. */
  function Climb(t: Node, p: Path): Option<Path>
    requires Valid(t, p)
    decreases p
  {
    if p == [] then None
    else if NextSibling(t, p).Some? then NextSibling(t, p)
    else
      ValidUp(t, p);
      Climb(t, Up(p))
  }

  function Next(t: Node, p: Path): Option<Path>
    requires Valid(t, p)
  {
    if FirstChild(t, p).Some? then FirstChild(t, p) else Climb(t, p)
  }

  function Under(k: nat, p: Option<Path>): Option<Path> {
    if p.Some? then Some([k] + p.value) else None
  }

  lemma {:induction false} ClimbInKid(t: Node, k: nat, p: Path)
    requires k < |t.kids| && Valid(t.kids[k], p)
    ensures Valid(t, [k] + p)
    ensures Climb(t, [k] + p) ==
      if Climb(t.kids[k], p).Some? then Under(k, Climb(t.kids[k], p))
      else if k + 1 < |t.kids| then Some([k + 1]) else None
    decreases p
  {
    var full := [k] + p;
    assert full[1..] == p;
    if p == [] {
      assert Up(full) == [] && Last(full) == k;
      assert At(t, []) == t;
      assert Up(full) + [k + 1] == [k + 1];
    } else {
      ValidUp(t.kids[k], p);
      assert Up(full) == [k] + Up(p);
      assert Up(full)[1..] == Up(p);
      assert At(t, Up(full)) == At(t.kids[k], Up(p));
      assert Up(full) + [Last(p) + 1] == [k] + (Up(p) + [Last(p) + 1]);
      ClimbInKid(t, k, Up(p));
    }
  }

  lemma {:induction false} NextInKid(t: Node, k: nat, p: Path)
    requires k < |t.kids| && Valid(t.kids[k], p)
    ensures Valid(t, [k] + p)
    ensures Next(t, [k] + p) ==
      if Next(t.kids[k], p).Some? then Under(k, Next(t.kids[k], p))
      else if k + 1 < |t.kids| then Some([k + 1]) else None
  {
    ClimbInKid(t, k, p);
    assert ([k] + p)[1..] == p;
    assert ([k] + p) + [0] == [k] + (p + [0]);
  }

  function Entry(ps: seq<Path>, i: int): Option<Path> {
    if 0 <= i < |ps| then Some(ps[i]) else None
  }

  lemma {:induction false} PreOrderValid(t: Node, i: nat)
    requires i < |PreOrder(t)|
    ensures Valid(t, PreOrder(t)[i])
    decreases t, |t.kids| + 1
  {
    if i > 0 {
      PreOrderKidsValid(t, 0, i - 1);
    }
  }

  lemma {:induction false} PreOrderKidsValid(t: Node, k: nat, i: nat)
    requires k <= |t.kids| && i < |PreOrderKids(t, k)|
    ensures Valid(t, PreOrderKids(t, k)[i]) && PreOrderKids(t, k)[i] != []
    decreases t, |t.kids| - k
  {
    var block := PreOrder(t.kids[k]);
    if i < |block| {
      PreOrderValid(t.kids[k], i);
      assert ([k] + block[i])[1..] == block[i];
    } else {
      PreOrderKidsValid(t, k + 1, i - |block|);
    }
  }

  /** One step leads to the next entry of the pre-order, and from the last one nowhere. */
  lemma {:induction false} NextIsPreOrder(t: Node, i: nat)
    requires i < |PreOrder(t)|
    ensures Valid(t, PreOrder(t)[i]) && Next(t, PreOrder(t)[i]) == Entry(PreOrder(t), i + 1)
    decreases t, |t.kids| + 1
  {
    PreOrderValid(t, i);
    if i == 0 {
      if t.kids != [] {
        assert PreOrder(t)[1] == Below(0, PreOrder(t.kids[0]))[0] == [0] + [];
        assert PreOrder(t)[0] + [0] == [0] + [];
      }
    } else {
      NextIsPreOrderKids(t, 0, i - 1);
    }
  }

  lemma {:induction false} NextIsPreOrderKids(t: Node, k: nat, i: nat)
    requires k <= |t.kids| && i < |PreOrderKids(t, k)|
    ensures Valid(t, PreOrderKids(t, k)[i])
    ensures Next(t, PreOrderKids(t, k)[i]) == Entry(PreOrderKids(t, k), i + 1)
    decreases t, |t.kids| - k
  {
    var block, rest := PreOrder(t.kids[k]), PreOrderKids(t, k + 1);
    PreOrderKidsValid(t, k, i);
    if i < |block| {
      NextIsPreOrder(t.kids[k], i);
      NextInKid(t, k, block[i]);
      if i + 1 == |block| && k + 1 < |t.kids| {
        assert rest[0] == Below(k + 1, PreOrder(t.kids[k + 1]))[0] == [k + 1] + [];
        assert rest[0] == [k + 1];
      }
    } else {
      NextIsPreOrderKids(t, k + 1, i - |block|);
    }
  }

  // ----- one step of previousPONode -----

  function ClimbBack(t: Node, p: Path): Option<Path>
    requires Valid(t, p)
    decreases p
  {
    if p == [] then None
    else if PreviousSibling(t, p).Some? then PreviousSibling(t, p)
    else
      ValidUp(t, p);
      ClimbBack(t, Up(p))
  }

  function NextBack(t: Node, p: Path): Option<Path>
    requires Valid(t, p)
  {
    if LastChild(t, p).Some? then LastChild(t, p) else ClimbBack(t, p)
  }

  lemma {:induction false} NextBackInKid(t: Node, k: nat, p: Path)
    requires k < |t.kids| && Valid(t.kids[k], p)
    ensures Valid(t, [k] + p)
    ensures NextBack(t, [k] + p) ==
      if NextBack(t.kids[k], p).Some? then Under(k, NextBack(t.kids[k], p))
      else if k > 0 then Some([k - 1]) else None
  {
    ClimbBackInKid(t, k, p);
    var kid := At(t.kids[k], p);
    assert ([k] + p)[1..] == p;
    if kid.kids != [] {
      assert ([k] + p) + [|kid.kids| - 1] == [k] + (p + [|kid.kids| - 1]);
    }
  }

  lemma {:induction false} ClimbBackInKid(t: Node, k: nat, p: Path)
    requires k < |t.kids| && Valid(t.kids[k], p)
    ensures Valid(t, [k] + p)
    ensures ClimbBack(t, [k] + p) ==
      if ClimbBack(t.kids[k], p).Some? then Under(k, ClimbBack(t.kids[k], p))
      else if k > 0 then Some([k - 1]) else None
    decreases p
  {
    var full := [k] + p;
    assert full[1..] == p;
    if p == [] {
      assert Up(full) == [] && Last(full) == k;
      if k > 0 {
        assert Up(full) + [k - 1] == [k - 1];
      }
    } else {
      ValidUp(t.kids[k], p);
      assert Up(full) == [k] + Up(p) && Last(full) == Last(p);
      if Last(p) > 0 {
        assert Up(full) + [Last(p) - 1] == [k] + (Up(p) + [Last(p) - 1]);
      }
      ClimbBackInKid(t, k, Up(p));
    }
  }

  lemma {:induction false} ReversedKids(t: Node, k: nat)
    requires 0 < k <= |t.kids|
    ensures Reversed(PostOrderKids(t, k)) ==
      Below(k - 1, Reversed(PostOrder(t.kids[k - 1]))) + Reversed(PostOrderKids(t, k - 1))
  {}

  lemma {:induction false} PostOrderValid(t: Node, i: nat)
    requires i < |Reversed(PostOrder(t))|
    ensures Valid(t, Reversed(PostOrder(t))[i])
    decreases t, |t.kids| + 1
  {
    if i > 0 {
      PostOrderKidsValid(t, |t.kids|, i - 1);
    }
  }

  lemma {:induction false} PostOrderKidsValid(t: Node, k: nat, i: nat)
    requires k <= |t.kids| && i < |Reversed(PostOrderKids(t, k))|
    ensures Valid(t, Reversed(PostOrderKids(t, k))[i])
    decreases t, k
  {
    ReversedKids(t, k);
    var block := Reversed(PostOrder(t.kids[k - 1]));
    hide PostOrder, PostOrderKids, Reversed;
    if i < |block| {
      PostOrderValid(t.kids[k - 1], i);
      assert ([k - 1] + block[i])[1..] == block[i];
    } else {
      PostOrderKidsValid(t, k - 1, i - |block|);
    }
  }

  /** One step leads to the next entry of the reverse post-order. */
  lemma {:induction false} NextBackIsReversePostOrder(t: Node, i: nat)
    requires i < |Reversed(PostOrder(t))|
    ensures Valid(t, Reversed(PostOrder(t))[i])
    ensures NextBack(t, Reversed(PostOrder(t))[i]) == Entry(Reversed(PostOrder(t)), i + 1)
    decreases t, |t.kids| + 1
  {
    PostOrderValid(t, i);
    if i == 0 {
      if t.kids != [] {
        FirstOfBlock(t, |t.kids|);
        assert [] + [|t.kids| - 1] == [|t.kids| - 1];
      }
    } else {
      NextBackKids(t, |t.kids|, i - 1);
    }
  }

  lemma {:induction false} FirstOfBlock(t: Node, k: nat)
    requires 0 < k <= |t.kids|
    ensures Reversed(PostOrderKids(t, k)) != [] && Reversed(PostOrderKids(t, k))[0] == [k - 1]
  {
    ReversedKids(t, k);
    assert [k - 1] + [] == [k - 1];
  }

  lemma {:induction false} NextBackKids(t: Node, k: nat, i: nat)
    requires k <= |t.kids| && i < |Reversed(PostOrderKids(t, k))|
    ensures Valid(t, Reversed(PostOrderKids(t, k))[i])
    ensures NextBack(t, Reversed(PostOrderKids(t, k))[i]) == Entry(Reversed(PostOrderKids(t, k)), i + 1)
    decreases t, k
  {
    ReversedKids(t, k);
    PostOrderKidsValid(t, k, i);
    var block, rest := Reversed(PostOrder(t.kids[k - 1])), Reversed(PostOrderKids(t, k - 1));
    hide PostOrder, PostOrderKids, Reversed;
    if i < |block| {
      NextBackIsReversePostOrder(t.kids[k - 1], i);
      NextBackInKid(t, k - 1, block[i]);
      if i + 1 == |block| && k > 1 {
        FirstOfBlock(t, k - 1);
      }
    } else {
      NextBackKids(t, k - 1, i - |block|);
    }
  }

  // ----- one step of previousNode -----

  function Deepest(t: Node, p: Path): (q: Path)
    requires Valid(t, p)
    ensures Valid(t, q) && At(t, q).kids == []
    decreases At(t, p)
  {
    if At(t, p).kids == [] then p
    else
      ValidSteps(t, p, |At(t, p).kids| - 1);
      Deepest(t, p + [|At(t, p).kids| - 1])
  }

  function Previous(t: Node, p: Path): Option<Path>
    requires Valid(t, p)
  {
    if p == [] then None
    else if PreviousSibling(t, p).Some? then
      ValidUp(t, p);
      ValidSteps(t, Up(p), Last(p) - 1);
      Some(Deepest(t, PreviousSibling(t, p).value))
    else Some(Up(p))
  }

  lemma {:induction false} ClimbThenPrevious(t: Node, p: Path, leaf: Path)
    requires Valid(t, p) && Deepest(t, p) == leaf && Climb(t, p).Some?
    ensures Valid(t, Climb(t, p).value) && Previous(t, Climb(t, p).value) == Some(leaf)
    decreases p
  {
    ValidUp(t, p);
    assert p == Up(p) + [Last(p)];
    if NextSibling(t, p).Some? {
      var q := Up(p) + [Last(p) + 1];
      ValidSteps(t, Up(p), Last(p) + 1);
      assert Up(q) == Up(p) && Last(q) == Last(p) + 1;
    } else {
      ClimbThenPrevious(t, Up(p), leaf);
    }
  }

  lemma {:induction false} PreviousUndoesNext(t: Node, p: Path)
    requires Valid(t, p) && Next(t, p).Some?
    ensures Valid(t, Next(t, p).value) && Previous(t, Next(t, p).value) == Some(p)
  {
    if At(t, p).kids == [] {
      ClimbThenPrevious(t, p, p);
    } else {
      ValidSteps(t, p, 0);
      assert Up(p + [0]) == p && Last(p + [0]) == 0;
    }
  }

  // ----- the walker -----

  /** typeToBitArray; other node types are never shown. */
  function TypeBit(nodeType: nat): bv16 {
    match nodeType
    case 1 => 1
    case 2 => 2
    case 3 => 4
    case 8 => 128
    case 9 => 256
    case 11 => 1024
    case _ => 0
  }

  datatype Show = Show(mask: bv16, filter: Node -> bool)

  predicate Shown(show: Show, node: Node) {
    TypeBit(node.nodeType) & show.mask != 0 && show.filter(node)
  }

  predicate Accepts(t: Node, show: Show, p: Path) {
    Valid(t, p) && Shown(show, At(t, p))
  }

  /** The first accepted entry from index i on. */
  function FirstFrom(t: Node, show: Show, ps: seq<Path>, i: nat): Option<Path>
    decreases |ps| - i
  {
    if i >= |ps| then None
    else if Accepts(t, show, ps[i]) then Some(ps[i])
    else FirstFrom(t, show, ps, i + 1)
  }

  /** The last accepted entry before index i. */
  function LastBefore(t: Node, show: Show, ps: seq<Path>, i: nat): Option<Path>
    requires i <= |ps|
  {
    if i == 0 then None
    else if Accepts(t, show, ps[i - 1]) then Some(ps[i - 1])
    else LastBefore(t, show, ps, i - 1)
  }

  /** All accepted entries from index i on. */
  function AllFrom(t: Node, show: Show, ps: seq<Path>, i: nat): seq<Path>
    decreases |ps| - i
  {
    if i >= |ps| then []
    else if Accepts(t, show, ps[i]) then [ps[i]] + AllFrom(t, show, ps, i + 1)
    else AllFrom(t, show, ps, i + 1)
  }

  /** Which nodes are shown: those of a type that the mask asks for, by SHOW_ELEMENT, SHOW_ATTRIBUTE,
      SHOW_TEXT, SHOW_COMMENT, SHOW_DOCUMENT and SHOW_DOCUMENT_FRAGMENT, that pass the filter. */
  lemma {:induction false} ShownExactly(show: Show, node: Node)
    ensures (Shown(show, node) <==>
      && show.filter(node)
      && (|| (node.nodeType == 1 && show.mask & 1 != 0)
          || (node.nodeType == 2 && show.mask & 2 != 0)
          || (node.nodeType == 3 && show.mask & 4 != 0)
          || (node.nodeType == 8 && show.mask & 128 != 0)
          || (node.nodeType == 9 && show.mask & 256 != 0)
          || (node.nodeType == 11 && show.mask & 1024 != 0)))
  {}

  /** The entries picked are those from index i on whose node is shown, in their order. */
  ghost predicate Picks(t: Node, show: Show, ps: seq<Path>, i: nat, picked: seq<Path>, at: seq<nat>) {
    && |at| == |picked|
    && (forall k | 0 <= k < |at| :: i <= at[k] < |ps| && ps[at[k]] == picked[k])
    && (forall k, l | 0 <= k < l < |at| :: at[k] < at[l])
    && forall j | i <= j < |ps| :: j in at <==> Valid(t, ps[j]) && Shown(show, At(t, ps[j]))
  }

  lemma {:induction false} OneMorePick(t: Node, show: Show, ps: seq<Path>, i: nat, picked: seq<Path>, at: seq<nat>)
    requires i < |ps| && Picks(t, show, ps, i + 1, picked, at)
    ensures if Accepts(t, show, ps[i]) then Picks(t, show, ps, i, [ps[i]] + picked, [i] + at)
            else Picks(t, show, ps, i, picked, at)
  {
    hide Shown, Valid, At;
    assert forall j :: j in [i] + at <==> j == i || j in at;
  }

  lemma {:induction false} AllFromPicks(t: Node, show: Show, ps: seq<Path>, i: nat) returns (at: seq<nat>)
    requires i <= |ps|
    ensures Picks(t, show, ps, i, AllFrom(t, show, ps, i), at)
    decreases |ps| - i
  {
    if i == |ps| {
      at := [];
    } else {
      var rest := AllFromPicks(t, show, ps, i + 1);
      OneMorePick(t, show, ps, i, AllFrom(t, show, ps, i + 1), rest);
      hide Shown, Valid, At, Picks;
      at := if Accepts(t, show, ps[i]) then [i] + rest else rest;
    }
  }

  /** What a drain gives, backwards turned round: exactly the nodes of the shown types that pass the
      filter, each once, in the order of the list. */
  lemma {:induction false} DrainGives(t: Node, show: Show, ps: seq<Path>, p: Path)
    ensures p in AllFrom(t, show, ps, 0) <==> p in ps && Valid(t, p) && Shown(show, At(t, p))
  {
    var at := AllFromPicks(t, show, ps, 0);
    hide Shown, Valid, At;
    if p in ps && Accepts(t, show, p) {
      var j :| 0 <= j < |ps| && ps[j] == p;
      var k :| 0 <= k < |at| && at[k] == j;
    }
    if p in AllFrom(t, show, ps, 0) {
      var k :| 0 <= k < |at| && AllFrom(t, show, ps, 0)[k] == p;
      assert at[k] in at;
    }
  }

  /** All accepted entries before index i, the last one first. */
  function AllBefore(t: Node, show: Show, ps: seq<Path>, i: nat): seq<Path>
    requires i <= |ps|
  {
    if i == 0 then []
    else if Accepts(t, show, ps[i - 1]) then [ps[i - 1]] + AllBefore(t, show, ps, i - 1)
    else AllBefore(t, show, ps, i - 1)
  }

  /** Backwards and forwards together are all accepted entries. */
  lemma {:induction false} BackAndForth(t: Node, show: Show, ps: seq<Path>, i: nat)
    requires i <= |ps|
    ensures Reversed(AllBefore(t, show, ps, i)) + AllFrom(t, show, ps, i) == AllFrom(t, show, ps, 0)
  {
    if i > 0 {
      BackAndForth(t, show, ps, i - 1);
      var before := AllBefore(t, show, ps, i - 1);
      if Accepts(t, show, ps[i - 1]) {
        assert Reversed([ps[i - 1]] + before) == Reversed(before) + [ps[i - 1]];
      }
    }
  }

  /** The index at which a search backwards from index i stops. */
  lemma {:induction false} LastBeforeIndex(t: Node, show: Show, ps: seq<Path>, i: nat) returns (j: nat)
    requires i <= |ps| && LastBefore(t, show, ps, i).Some?
    ensures j < i && LastBefore(t, show, ps, i) == Some(ps[j])
    ensures AllBefore(t, show, ps, i) == [ps[j]] + AllBefore(t, show, ps, j)
  {
    if Accepts(t, show, ps[i - 1]) {
      j := i - 1;
    } else {
      j := LastBeforeIndex(t, show, ps, i - 1);
    }
  }

  lemma {:induction false} NothingBefore(t: Node, show: Show, ps: seq<Path>, i: nat)
    requires i <= |ps| && LastBefore(t, show, ps, i).None?
    ensures AllBefore(t, show, ps, i) == []
  {
    if i > 0 {
      NothingBefore(t, show, ps, i - 1);
    }
  }

  /** The index at which a search from index i stops. */
  lemma {:induction false} FirstFromIndex(t: Node, show: Show, ps: seq<Path>, i: nat) returns (j: nat)
    requires FirstFrom(t, show, ps, i).Some?
    ensures i <= j < |ps| && FirstFrom(t, show, ps, i) == Some(ps[j]) && Accepts(t, show, ps[j])
    ensures AllFrom(t, show, ps, i) == [ps[j]] + AllFrom(t, show, ps, j + 1)
    ensures LastBefore(t, show, ps, j) == LastBefore(t, show, ps, i)
    decreases |ps| - i
  {
    if Accepts(t, show, ps[i]) {
      j := i;
    } else {
      j := FirstFromIndex(t, show, ps, i + 1);
    }
  }

  lemma {:induction false} NothingFrom(t: Node, show: Show, ps: seq<Path>, i: nat)
    requires FirstFrom(t, show, ps, i).None?
    ensures AllFrom(t, show, ps, i) == []
    decreases |ps| - i
  {
    if i < |ps| {
      NothingFrom(t, show, ps, i + 1);
    }
  }

  /** previousNode steps back where nextNode stepped forward: from the entry that nextNode
      reaches from an accepted entry, the last accepted entry before is that entry again. */
  lemma {:induction false} PreviousReversesNext(t: Node, show: Show, i: nat)
    requires i < |PreOrder(t)| && Accepts(t, show, PreOrder(t)[i])
    requires FirstFrom(t, show, PreOrder(t), i + 1).Some?
    ensures exists j :: (
              && i < j < |PreOrder(t)| && FirstFrom(t, show, PreOrder(t), i + 1) == Some(PreOrder(t)[j])
              && LastBefore(t, show, PreOrder(t), j) == Some(PreOrder(t)[i]))
  {
    var j := FirstFromIndex(t, show, PreOrder(t), i + 1);
  }

  /** The walker's fields; `i` is the index of the current node in the order of the method. */
  class Walker {
    const root: Node
    const show: Show
    var current: Path

    constructor (root: Node, show: Show)
      ensures this.root == root && this.show == show && current == []
    {
      this.root, this.show, current := root, show, [];
    }

    /** The inner loop of nextNode. */
    method StepForward(from: Path) returns (node: Option<Path>)
      requires Valid(root, from)
      ensures node == Next(root, from)
    {
      var at := from;
      node := FirstChild(root, at);
      while node.None?
        invariant Valid(root, at)
        invariant Next(root, from) == if node.Some? then node else Climb(root, at)
        decreases |at|, node.None?
      {
        if at == [] {
          break;
        }
        node := NextSibling(root, at);
        if node.None? {
          ValidUp(root, at);
          at := Up(at);
        }
      }
    }

    method NextNode(ghost i: nat) returns (r: Option<Path>)
      requires i < |PreOrder(root)| && PreOrder(root)[i] == current
      modifies this`current
      ensures r == FirstFrom(root, show, PreOrder(root), i + 1)
      ensures current == if r.Some? then r.value else old(current)
    {
      hide Shown, Next, PreOrder, Valid, At;
      var at := current;
      ghost var ps, j := PreOrder(root), i;
      NextIsPreOrder(root, i);
      while true
        invariant j < |ps| && ps[j] == at && Valid(root, at) && current == old(current)
        invariant Next(root, at) == Entry(ps, j + 1)
        invariant FirstFrom(root, show, ps, i + 1) == FirstFrom(root, show, ps, j + 1)
        decreases |ps| - j
      {
        var node := StepForward(at);
        if node.None? {
          return None;
        }
        j := j + 1;
        NextIsPreOrder(root, j);
        if Shown(show, At(root, node.value)) {
          current := node.value;
          return node;
        }
        at := node.value;
      }
    }

    /** The body of previousNode before its test: the last node of the subtree before, or
        the parent. */
    method StepBackward(from: Path) returns (node: Option<Path>)
      requires Valid(root, from)
      ensures node == Previous(root, from)
    {
      if from == [] {
        return None;
      }
      node := PreviousSibling(root, from);
      if node.None? {
        return Some(Up(from));
      }
      ValidUp(root, from);
      ValidSteps(root, Up(from), Last(from) - 1);
      while LastChild(root, node.value).Some?
        invariant node.Some? && Valid(root, node.value)
        invariant Previous(root, from) == Some(Deepest(root, node.value))
        decreases At(root, node.value)
      {
        ValidSteps(root, node.value, |At(root, node.value).kids| - 1);
        node := LastChild(root, node.value);
      }
    }

    method PreviousNode(ghost i: nat) returns (r: Option<Path>)
      requires i < |PreOrder(root)| && PreOrder(root)[i] == current
      modifies this`current
      ensures r == LastBefore(root, show, PreOrder(root), i)
      ensures current == if r.Some? then r.value else old(current)
    {
      var at := current;
      ghost var ps, j := PreOrder(root), i;
      PreviousIsPreOrder(root, i);
      hide Shown, Previous, PreOrder, Valid, At;
      while true
        invariant 0 <= j < |ps| && ps[j] == at && Valid(root, at) && current == old(current)
        invariant Previous(root, at) == Entry(ps, j - 1)
        invariant LastBefore(root, show, ps, i) == LastBefore(root, show, ps, j)
        decreases j
      {
        var node := StepBackward(at);
        if node.None? {
          return None;
        }
        j := j - 1;
        PreviousIsPreOrder(root, j);
        if Shown(show, At(root, node.value)) {
          current := node.value;
          return node;
        }
        at := node.value;
      }
    }

    /** The inner loop of previousPONode. */
    method StepBackwardPO(from: Path) returns (node: Option<Path>)
      requires Valid(root, from)
      ensures node == NextBack(root, from)
    {
      var at := from;
      node := LastChild(root, at);
      while node.None?
        invariant Valid(root, at)
        invariant NextBack(root, from) == if node.Some? then node else ClimbBack(root, at)
        decreases |at|, node.None?
      {
        if at == [] {
          break;
        }
        node := PreviousSibling(root, at);
        if node.None? {
          ValidUp(root, at);
          at := Up(at);
        }
      }
    }

    method PreviousPONode(ghost i: nat) returns (r: Option<Path>)
      requires i < |PostOrder(root)| && Reversed(PostOrder(root))[i] == current
      modifies this`current
      ensures r == FirstFrom(root, show, Reversed(PostOrder(root)), i + 1)
      ensures current == if r.Some? then r.value else old(current)
    {
      var at := current;
      ghost var ps, j := Reversed(PostOrder(root)), i;
      NextBackIsReversePostOrder(root, i);
      assert |ps| == |PostOrder(root)|;
      hide Shown, NextBack, PostOrder, Reversed, Valid, At;
      while true
        invariant j < |ps| && ps[j] == at && Valid(root, at) && current == old(current)
        invariant NextBack(root, at) == Entry(ps, j + 1)
        invariant FirstFrom(root, show, ps, i + 1) == FirstFrom(root, show, ps, j + 1)
        decreases |ps| - j
      {
        var node := StepBackwardPO(at);
        if node.None? {
          return None;
        }
        j := j + 1;
        NextBackIsReversePostOrder(root, j);
        if Shown(show, At(root, node.value)) {
          current := node.value;
          return node;
        }
        at := node.value;
      }
    }

    /** The loops over a walker: from the root, nextNode gives exactly the accepted nodes
        below the root, in pre-order, and then null. */
    method Drain() returns (nodes: seq<Path>)
      requires current == []
      modifies this`current
      ensures nodes == AllFrom(root, show, PreOrder(root), 1)
    {
      nodes := [];
      ghost var ps, i := PreOrder(root), 0;
      while true
        invariant i < |ps| && ps[i] == current
        invariant nodes + AllFrom(root, show, ps, i + 1) == AllFrom(root, show, ps, 1)
        decreases |ps| - i
      {
        var r := NextNode(i);
        if r.None? {
          NothingFrom(root, show, ps, i + 1);
          return;
        }
        i := FirstFromIndex(root, show, ps, i + 1);
        nodes := nodes + [r.value];
      }
    }

    /** The same with previousPONode: the accepted nodes below the root, in reverse post-order. */
    method DrainBack() returns (nodes: seq<Path>)
      requires current == []
      modifies this`current
      ensures nodes == AllFrom(root, show, Reversed(PostOrder(root)), 1)
    {
      nodes := [];
      ghost var ps, i := Reversed(PostOrder(root)), 0;
      while true
        invariant i < |ps| && ps[i] == current
        invariant nodes + AllFrom(root, show, ps, i + 1) == AllFrom(root, show, ps, 1)
        decreases |ps| - i
      {
        var r := PreviousPONode(i);
        if r.None? {
          NothingFrom(root, show, ps, i + 1);
          return;
        }
        i := FirstFromIndex(root, show, ps, i + 1);
        nodes := nodes + [r.value];
      }
    }

    /** Back from wherever the walker stands: previousNode gives exactly the accepted nodes
        before it in pre-order, the last one first, and then null. */
    method DrainPrevious(ghost start: nat) returns (nodes: seq<Path>)
      requires start < |PreOrder(root)| && PreOrder(root)[start] == current
      modifies this`current
      ensures nodes == AllBefore(root, show, PreOrder(root), start)
    {
      nodes := [];
      ghost var ps := PreOrder(root);
      ghost var i: nat := start;
      while true
        invariant i < |ps| && ps[i] == current
        invariant nodes + AllBefore(root, show, ps, i) == AllBefore(root, show, ps, start)
        decreases i
      {
        var r := PreviousNode(i);
        if r.None? {
          NothingBefore(root, show, ps, i);
          return;
        }
        i := LastBeforeIndex(root, show, ps, i);
        nodes := nodes + [r.value];
      }
    }
  }

  lemma {:induction false} PreviousIsPreOrder(t: Node, i: nat)
    requires i < |PreOrder(t)|
    ensures Valid(t, PreOrder(t)[i]) && Previous(t, PreOrder(t)[i]) == Entry(PreOrder(t), i - 1)
  {
    PreOrderValid(t, i);
    if i > 0 {
      NextIsPreOrder(t, i - 1);
      PreviousUndoesNext(t, PreOrder(t)[i - 1]);
    }
  }

  lemma {:induction false} OnlyRootFirst(t: Node, i: nat)
    requires i < |PreOrder(t)| && PreOrder(t)[i] == []
    ensures i == 0
  {
    if i > 0 {
      PreOrderKidsValid(t, 0, i - 1);
    }
  }

  /** The pre-order lists every node under the root. */
  lemma {:induction false} EveryNodeListed(t: Node, p: Path) returns (i: nat)
    requires Valid(t, p)
    ensures i < |PreOrder(t)| && PreOrder(t)[i] == p
    decreases t, |t.kids| + 1
  {
    if p == [] {
      i := 0;
    } else {
      var j := EveryNodeListedKids(t, 0, p);
      i := j + 1;
    }
  }

  lemma {:induction false} EveryNodeListedKids(t: Node, k: nat, p: Path) returns (i: nat)
    requires p != [] && Valid(t, p) && k <= p[0]
    ensures i < |PreOrderKids(t, k)| && PreOrderKids(t, k)[i] == p
    decreases t, |t.kids| - k
  {
    if k == p[0] {
      i := EveryNodeListed(t.kids[k], p[1..]);
      assert [k] + p[1..] == p;
    } else {
      var j := EveryNodeListedKids(t, k + 1, p);
      i := j + |PreOrder(t.kids[k])|;
    }
  }

  /** And lists it once. */
  lemma {:induction false} NodesListedOnce(t: Node, i: nat, j: nat)
    requires i < |PreOrder(t)| && j < |PreOrder(t)| && PreOrder(t)[i] == PreOrder(t)[j]
    ensures i == j
  {
    PreviousIsPreOrder(t, i);
    PreviousIsPreOrder(t, j);
    if i > 0 && j > 0 {
      NodesListedOnce(t, i - 1, j - 1);
    } else {
      OnlyRootFirst(t, i);
      OnlyRootFirst(t, j);
    }
  }

  /** The post-order lists every node as well. */
  lemma {:induction false} EveryNodeInPostOrder(t: Node, p: Path) returns (i: nat)
    requires Valid(t, p)
    ensures i < |PostOrder(t)| && PostOrder(t)[i] == p
    decreases t, |t.kids| + 1
  {
    if p == [] {
      i := |PostOrder(t)| - 1;
    } else {
      i := EveryNodeInPostOrderKids(t, |t.kids|, p);
    }
  }

  lemma {:induction false} EveryNodeInPostOrderKids(t: Node, k: nat, p: Path) returns (i: nat)
    requires p != [] && Valid(t, p) && p[0] < k <= |t.kids|
    ensures i < |PostOrderKids(t, k)| && PostOrderKids(t, k)[i] == p
    decreases t, k
  {
    if p[0] == k - 1 {
      var j := EveryNodeInPostOrder(t.kids[k - 1], p[1..]);
      assert [k - 1] + p[1..] == p;
      i := |PostOrderKids(t, k - 1)| + j;
    } else {
      i := EveryNodeInPostOrderKids(t, k - 1, p);
    }
  }

  /** And once: from two places with the same node the walk would go on alike, to the end. */
  lemma {:induction false} PostOrderOnce(t: Node, i: nat, j: nat)
    requires i < |PostOrder(t)| && j < |PostOrder(t)|
    requires Reversed(PostOrder(t))[i] == Reversed(PostOrder(t))[j]
    ensures i == j
    decreases |PostOrder(t)| - i
  {
    NextBackIsReversePostOrder(t, i);
    NextBackIsReversePostOrder(t, j);
    if i + 1 < |PostOrder(t)| && j + 1 < |PostOrder(t)| {
      PostOrderOnce(t, i + 1, j + 1);
    }
  }
}
