/** Slate documents, as far as the realtime service touches them: the text nodes of a
    document in document order, each a sequence of characters that carry a set of marks,
    the two operations that change marks, and the ones by which a client can change the text.
    A path is the index of a text node. */
module SlateModel {
  import opened Wrappers

  datatype Mark =
    | Coding(id: int, codeId: int, title: string, author: string)
    | Style(kind: string, value: string)

  datatype Char = Char(text: char, marks: set<Mark>)
  type Text = seq<Char>
  type Doc = seq<Text>

  datatype Op =
    | RemoveMark(path: nat, offset: nat, length: int, mark: Mark)
    | AddMark(path: nat, offset: nat, length: int, mark: Mark)

  /** A place between two characters, or the character to its right. */
  datatype Point = Point(text: nat, offset: nat)
  datatype Range = Range(start: Point, end: Point)

  predicate Before(p: Point, q: Point) {
    p.text < q.text || (p.text == q.text && p.offset < q.offset)
  }

  predicate InRange(r: Range, p: Point) {
    !Before(p, r.start) && Before(p, r.end)
  }

  /** The character right of the point exists. */
  predicate At(doc: Doc, p: Point) {
    p.text < |doc| && p.offset < |doc[p.text]|
  }

  function CharAt(doc: Doc, p: Point): Char
    requires At(doc, p)
  {
    doc[p.text][p.offset]
  }

  ghost predicate SameShape(doc: Doc, doc': Doc) {
    |doc| == |doc'| && forall t | 0 <= t < |doc| :: |doc[t]| == |doc'[t]|
  }

  /** An operation acts on the characters of its interval that the node has. */
  predicate Covers(op: Op, p: Point) {
    op.path == p.text && op.offset <= p.offset < op.offset + op.length
  }

  function Touch(op: Op, c: Char): Char {
    match op
    case RemoveMark(_, _, _, m) => c.(marks := c.marks - {m})
    case AddMark(_, _, _, m) => c.(marks := c.marks + {m})
  }

  function ApplyOp(doc: Doc, op: Op): Option<Doc> {
    if op.path < |doc| then
      var text := doc[op.path];
      Some(doc[op.path := seq(|text|, i requires 0 <= i < |text| =>
        if Covers(op, Point(op.path, i)) then Touch(op, text[i]) else text[i])])
    else
      None
  }

  function ApplyAll(doc: Doc, ops: seq<Op>): Option<Doc>
    decreases ops
  {
    if ops == [] then Some(doc)
    else match ApplyOp(doc, ops[0])
      case None => None
      case Some(doc') => ApplyAll(doc', ops[1..])
  }

  // ----- the operations a client can send -----

  /** The service does not look at the type of an operation that a client sends. */
  datatype Operation =
    | OnMarks(op: Op)
    | SetMark(path: nat, offset: nat, length: nat, mark: Mark, mark': Mark)
    | InsertText(path: nat, offset: nat, text: string, marks: set<Mark>)
    | RemoveText(path: nat, offset: nat, length: nat)
    | InsertNode(path: nat, node: Text)
    | RemoveNode(path: nat)
    | SplitNode(path: nat, position: nat)
    | MergeNode(path: nat)
    | MoveNode(path: nat, newPath: nat)

  /** The paths of the operation lead to text nodes, among n of them. */
  predicate Fits(o: Operation, n: nat) {
    match o
    case OnMarks(op) => op.path < n
    case InsertNode(path, _) => path <= n
    case MergeNode(path) => 0 < path < n
    case MoveNode(path, newPath) => path < n && newPath < n
    case _ => o.path < n
  }

  /** An offset behind the end of a text means its end. */
  function Clip(offset: nat, length: nat): nat {
    if offset <= length then offset else length
  }

  /** What an operation does to the text nodes, without looking at marks; `new'` is what it
      brings. */
  function Rearranged<T>(texts: seq<seq<T>>, o: Operation, new': seq<T>): seq<seq<T>>
    requires Fits(o, |texts|)
  {
    match o
    case OnMarks(_) => texts
    case SetMark(_, _, _, _, _) => texts
    case InsertText(path, offset, _, _) =>
      var k := Clip(offset, |texts[path]|);
      texts[path := texts[path][..k] + new' + texts[path][k..]]
    case RemoveText(path, offset, length) =>
      var k, l := Clip(offset, |texts[path]|), Clip(offset + length, |texts[path]|);
      texts[path := texts[path][..k] + texts[path][l..]]
    case InsertNode(path, _) => texts[..path] + [new'] + texts[path..]
    case RemoveNode(path) => texts[..path] + texts[path + 1..]
    case SplitNode(path, position) =>
      var k := Clip(position, |texts[path]|);
      texts[..path] + [texts[path][..k], texts[path][k..]] + texts[path + 1..]
    case MergeNode(path) => texts[..path - 1] + [texts[path - 1] + texts[path]] + texts[path + 1..]
    case MoveNode(path, newPath) =>
      var others := texts[..path] + texts[path + 1..];
      others[..newPath] + [texts[path]] + others[newPath..]
  }

  function Replaced(marks: set<Mark>, mark: Mark, mark': Mark): set<Mark> {
    if mark in marks then marks - {mark} + {mark'} else marks
  }

  /** The characters that an operation brings. */
  function Brought(o: Operation): Text {
    match o
    case InsertText(_, _, text, marks) => seq(|text|, i requires 0 <= i < |text| => Char(text[i], marks))
    case InsertNode(_, node) => node
    case _ => []
  }

  function ApplyOperation(doc: Doc, o: Operation): Option<Doc> {
    if !Fits(o, |doc|) then None
    else
      match o
      case OnMarks(op) => ApplyOp(doc, op)
      case SetMark(path, offset, length, mark, mark') =>
        var chars := doc[path];
        Some(doc[path := seq(|chars|, i requires 0 <= i < |chars| =>
          if offset <= i < offset + length then chars[i].(marks := Replaced(chars[i].marks, mark, mark'))
          else chars[i])])
      case _ => Some(Rearranged(doc, o, Brought(o)))
  }

  function ApplyEach(doc: Doc, os: seq<Operation>): Option<Doc>
    decreases os
  {
    if os == [] then Some(doc)
    else match ApplyOperation(doc, os[0])
      case None => None
      case Some(doc') => ApplyEach(doc', os[1..])
  }

  /** The change object is updated operation by operation; an unknown path throws. */
  method ApplyOperations(doc: Doc, os: seq<Operation>) returns (r: Option<Doc>)
    ensures r == ApplyEach(doc, os)
  {
    var value := doc;
    for k := 0 to |os|
      invariant ApplyEach(doc, os) == ApplyEach(value, os[k..])
    {
      var next := ApplyOperation(value, os[k]);
      if next.None? {
        return None;
      }
      value := next.value;
    }
    r := Some(value);
  }

  // ----- what the operations mean, character by character -----

  /** An operation applies exactly when its paths lead to text nodes; a node can also be inserted
      behind the last one, and the first one has none before it to be merged with. */
  lemma {:induction false} AppliesExactly(doc: Doc, o: Operation)
    ensures ApplyOperation(doc, o).None? <==>
      match o
      case OnMarks(op) => |doc| <= op.path
      case InsertNode(path, _) => |doc| < path
      case MergeNode(path) => path == 0 || |doc| <= path
      case MoveNode(path, newPath) => |doc| <= path || |doc| <= newPath
      case _ => |doc| <= o.path
  {}

  /** Only the text at the path changes: the new characters stand at the offset, or at the end of
      a shorter text, those before stay and those behind move on. */
  lemma {:induction false} TextInserted(doc: Doc, path: nat, offset: nat, text: string, marks: set<Mark>)
    requires path < |doc|
    ensures var doc', old' := ApplyOperation(doc, InsertText(path, offset, text, marks)).value, doc[path];
      var k := if offset <= |old'| then offset else |old'|;
      && doc' == doc[path := doc'[path]] && |doc'[path]| == |old'| + |text|
      && (forall i | 0 <= i < k :: doc'[path][i] == old'[i])
      && (forall i | 0 <= i < |text| :: doc'[path][k + i] == Char(text[i], marks))
      && forall i | k <= i < |old'| :: doc'[path][i + |text|] == old'[i]
  {
    var k := Clip(offset, |doc[path]|);
    var new' := Brought(InsertText(path, offset, text, marks));
    assert |new'| == |text| && forall i | 0 <= i < |text| :: new'[i] == Char(text[i], marks);
    hide Brought;
    PutBetween(doc[path], k, new');
  }

  lemma {:induction false} PutBetween(chars: Text, k: nat, new': Text)
    requires k <= |chars|
    ensures var s := chars[..k] + new' + chars[k..];
      && |s| == |chars| + |new'|
      && (forall i | 0 <= i < k :: s[i] == chars[i])
      && (forall i | 0 <= i < |new'| :: s[k + i] == new'[i])
      && forall i | k <= i < |chars| :: s[i + |new'|] == chars[i]
  {}

  /** The characters from the offset on go, as many as there are up to the length. */
  lemma {:induction false} TextRemoved(doc: Doc, path: nat, offset: nat, length: nat)
    requires path < |doc|
    ensures var doc', old' := ApplyOperation(doc, RemoveText(path, offset, length)).value, doc[path];
      var gone := if |old'| <= offset then 0 else if offset + length <= |old'| then length else |old'| - offset;
      && doc' == doc[path := doc'[path]] && |doc'[path]| == |old'| - gone
      && (forall i | 0 <= i < |doc'[path]| && i < offset :: doc'[path][i] == old'[i])
      && forall i | offset <= i < |doc'[path]| :: doc'[path][i] == old'[i + gone]
  {}

  /** A node is put in at its path, and removing it there restores the document. */
  lemma {:induction false} NodeInserted(doc: Doc, path: nat, node: Text)
    requires path <= |doc|
    ensures var doc' := ApplyOperation(doc, InsertNode(path, node)).value;
      && |doc'| == |doc| + 1 && doc'[path] == node
      && ApplyOperation(doc', RemoveNode(path)) == Some(doc)
  {
    var doc' := ApplyOperation(doc, InsertNode(path, node)).value;
    assert doc'[..path] + doc'[path + 1..] == doc;
  }

  /** A node is taken out, and inserting it again restores the document. */
  lemma {:induction false} NodeRemoved(doc: Doc, path: nat)
    requires path < |doc|
    ensures var doc' := ApplyOperation(doc, RemoveNode(path)).value;
      |doc'| == |doc| - 1 && ApplyOperation(doc', InsertNode(path, doc[path])) == Some(doc)
  {
    var doc' := ApplyOperation(doc, RemoveNode(path)).value;
    assert doc'[..path] + [doc[path]] + doc'[path..] == doc;
  }

  /** A node becomes two, cut at the position, and merging them restores the document. */
  lemma {:induction false} NodeSplit(doc: Doc, path: nat, position: nat)
    requires path < |doc|
    ensures var doc' := ApplyOperation(doc, SplitNode(path, position)).value;
      && |doc'| == |doc| + 1
      && |doc'[path]| == (if position <= |doc[path]| then position else |doc[path]|)
      && doc'[path] + doc'[path + 1] == doc[path]
      && ApplyOperation(doc', MergeNode(path + 1)) == Some(doc)
  {
    var doc' := ApplyOperation(doc, SplitNode(path, position)).value;
    assert doc'[..path] == doc[..path] && doc'[path + 2..] == doc[path + 1..];
    assert doc'[path] + doc'[path + 1] == doc[path];
    assert doc[..path] + [doc[path]] + doc[path + 1..] == doc;
  }

  /** Two nodes become one, and splitting it where they met restores the document. */
  lemma {:induction false} NodesMerged(doc: Doc, path: nat)
    requires 0 < path < |doc|
    ensures var doc' := ApplyOperation(doc, MergeNode(path)).value;
      && |doc'| == |doc| - 1 && doc'[path - 1] == doc[path - 1] + doc[path]
      && ApplyOperation(doc', SplitNode(path - 1, |doc[path - 1]|)) == Some(doc)
  {
    var doc' := ApplyOperation(doc, MergeNode(path)).value;
    var k := |doc[path - 1]|;
    assert doc'[path - 1][..k] == doc[path - 1] && doc'[path - 1][k..] == doc[path];
    assert doc'[..path - 1] + [doc[path - 1], doc[path]] + doc'[path..] == doc;
  }

  /** A node is at its new path afterwards, the others keep their order, and moving it back
      restores the document. */
  lemma {:induction false} NodeMoved(doc: Doc, path: nat, newPath: nat)
    requires path < |doc| && newPath < |doc|
    ensures var doc' := ApplyOperation(doc, MoveNode(path, newPath)).value;
      && |doc'| == |doc| && doc'[newPath] == doc[path]
      && ApplyOperation(doc', RemoveNode(newPath)) == ApplyOperation(doc, RemoveNode(path))
      && ApplyOperation(doc', MoveNode(newPath, path)) == Some(doc)
  {
    var doc', others := ApplyOperation(doc, MoveNode(path, newPath)).value, doc[..path] + doc[path + 1..];
    assert doc' == others[..newPath] + [doc[path]] + others[newPath..];
    assert doc'[..newPath] == others[..newPath] && doc'[newPath + 1..] == others[newPath..];
    assert doc'[..newPath] + doc'[newPath + 1..] == others;
    assert others[..path] + [doc[path]] + others[path..] == doc;
  }

  /** Of the characters in the interval those that have the mark get the other one for it; nothing
      else changes. */
  lemma {:induction false} MarkSet(doc: Doc, path: nat, offset: nat, length: nat, mark: Mark, mark': Mark)
    requires path < |doc|
    ensures var doc' := ApplyOperation(doc, SetMark(path, offset, length, mark, mark')).value;
      && doc' == doc[path := doc'[path]] && SameShape(doc, doc')
      && forall p | At(doc, p) ::
        && CharAt(doc', p).text == CharAt(doc, p).text
        && forall m :: m in CharAt(doc', p).marks <==>
          if p.text == path && offset <= p.offset < offset + length && mark in CharAt(doc, p).marks
          then m == mark' || (m in CharAt(doc, p).marks && m != mark)
          else m in CharAt(doc, p).marks
  {}

  function MarkOperations(ops: seq<Op>): seq<Operation> {
    seq(|ops|, i requires 0 <= i < |ops| => OnMarks(ops[i]))
  }

  /** The operations of a coding removal are among them, and do what they do to marks. */
  lemma {:induction false} MarksApplied(doc: Doc, ops: seq<Op>)
    ensures ApplyEach(doc, MarkOperations(ops)) == ApplyAll(doc, ops)
    decreases ops
  {
    if ops != [] {
      assert MarkOperations(ops)[1..] == MarkOperations(ops[1..]);
      if ApplyOp(doc, ops[0]).Some? {
        MarksApplied(ApplyOp(doc, ops[0]).value, ops[1..]);
      }
    }
  }

  // ----- mark operations, character by character -----

  /** What a list of operations makes of one character. */
  function CharAfter(ops: seq<Op>, p: Point, c: Char): Char {
    if ops == [] then c
    else CharAfter(ops[1..], p, if Covers(ops[0], p) then Touch(ops[0], c) else c)
  }

  /** Mark operations never change the shape of the document, so operations computed on the
      original value stay valid, and each character is changed on its own. */
  lemma {:induction false} ApplyAllPointwise(doc: Doc, ops: seq<Op>)
    requires forall op | op in ops :: op.path < |doc|
    ensures ApplyAll(doc, ops).Some?
    ensures SameShape(doc, ApplyAll(doc, ops).value)
    ensures forall p | At(doc, p) ::
      CharAt(ApplyAll(doc, ops).value, p) == CharAfter(ops, p, CharAt(doc, p))
    decreases ops
  {
    if ops != [] {
      var next := ApplyOp(doc, ops[0]).value;
      ApplyAllPointwise(next, ops[1..]);
      forall p | At(doc, p)
        ensures CharAt(ApplyAll(doc, ops).value, p) == CharAfter(ops, p, CharAt(doc, p))
      {
        assert At(next, p);
      }
    }
  }

  lemma {:induction false} CharAfterConcat(a: seq<Op>, b: seq<Op>, p: Point, c: Char)
    ensures CharAfter(a + b, p, c) == CharAfter(b, p, CharAfter(a, p, c))
  {
    if a == [] {
      assert a + b == b;
    } else {
      assert (a + b)[1..] == a[1..] + b;
      CharAfterConcat(a[1..], b, p, if Covers(a[0], p) then Touch(a[0], c) else c);
    }
  }
}
