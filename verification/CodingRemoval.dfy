/** DocumentHandler._calculateCodingRemovalOperations
    (realtime-service/src/syncService/DocumentHandler.js): the operations that take a code
    off the selected range and give the part of a coding behind the range a new coding id. */
module CodingRemoval {
  import opened Wrappers
  import opened SlateModel
  import opened RangeToPaths

  /** The character before the selection, as the handler looks it up: at a node start only
      in the previous text node, and not found when that node is empty. */
  function PrevChar(doc: Doc, start: Point): Option<Char>
    requires start.text < |doc|
  {
    if start.offset == 0 then
      if start.text == 0 || doc[start.text - 1] == [] then None
      else Some(doc[start.text - 1][|doc[start.text - 1]| - 1])
    else if start.offset - 1 < |doc[start.text]| then
      Some(doc[start.text][start.offset - 1])
    else None
  }

  /** The character at q is the one right before the start: in the same node, or at the start of
      a node the last one of the node before. */
  predicate JustBefore(doc: Doc, q: Point, start: Point) {
    At(doc, q) &&
    if start.offset > 0 then q.text == start.text && q.offset + 1 == start.offset
    else q.text + 1 == start.text && q.offset + 1 == |doc[q.text]|
  }

  /** No character is found before the start, although it is not the start of the document: the
      node before is empty, or the offset is behind the node. */
  predicate Hidden(doc: Doc, start: Point)
    requires start.text < |doc|
  {
    || (start.offset == 0 && start.text > 0 && doc[start.text - 1] == [])
    || start.offset > |doc[start.text]|
  }

  lemma {:induction false} PrevCharExactly(doc: Doc, start: Point)
    requires start.text < |doc|
    ensures PrevChar(doc, start).None? <==> start == Point(0, 0) || Hidden(doc, start)
    ensures forall c ::
      PrevChar(doc, start) == Some(c) <==> exists q :: JustBefore(doc, q, start) && CharAt(doc, q) == c
  {
    if start.offset > 0 {
      if start.offset <= |doc[start.text]| {
        assert JustBefore(doc, Point(start.text, start.offset - 1), start);
      }
    } else if start.text > 0 && doc[start.text - 1] != [] {
      assert JustBefore(doc, Point(start.text - 1, |doc[start.text - 1]| - 1), start);
    }
  }

  /** Where the run that continues into text node t ends; the document end if it never does. */
  function ScanFrom(doc: Doc, id: int, t: nat): Point
    requires 0 < t <= |doc|
    decreases |doc| - t
  {
    if t == |doc| then Point(t - 1, |doc[t - 1]|)
    else match FindCodingEnd(id, doc[t])
      case Some(k) => Point(t, k)
      case None => ScanFrom(doc, id, t + 1)
  }

  /** The end of the run of the coding that starts at the selection end; None when the
      character there lacks the coding. */
  function RunEnd(doc: Doc, id: int, end: Point): Option<Point>
    requires end.text < |doc|
  {
    var rest := if end.offset <= |doc[end.text]| then doc[end.text][end.offset..] else [];
    match FindCodingEnd(id, rest)
    case Some(k) => if k == 0 then None else Some(Point(end.text, k + end.offset))
    case None => Some(ScanFrom(doc, id, end.text + 1))
  }

  /** The forward scan over the text nodes. */
  method ScanRun(doc: Doc, id: int, end: Point) returns (r: Option<Point>)
    requires end.text < |doc|
    ensures r == RunEnd(doc, id, end)
  {
    hide FindCodingEnd;
    var t := end.text;
    var endOffset: Option<nat> := FindCodingEnd(id,
      if end.offset <= |doc[t]| then doc[t][end.offset..] else []);
    if endOffset == Some(0) {
      return None;
    }
    if endOffset.Some? {
      endOffset := Some(endOffset.value + end.offset);
    }
    while endOffset.None?
      invariant end.text <= t < |doc|
      invariant RunEnd(doc, id, end) ==
        if endOffset.Some? then Some(Point(t, endOffset.value)) else Some(ScanFrom(doc, id, t + 1))
      decreases |doc| - t, endOffset.None?
    {
      if t + 1 == |doc| {
        endOffset := Some(|doc[t]|);
        break;
      }
      t := t + 1;
      endOffset := FindCodingEnd(id, doc[t]);
    }
    r := Some(Point(t, endOffset.value));
  }

  /** The coding is split: it is on the character before the selection and not missing on
      the one after it. The result is the end of the run that gets the new id. */
  function SplitEnd(doc: Doc, r: Range, coding: Mark): Option<Point>
    requires r.start.text < |doc| && r.end.text < |doc|
    requires coding.Coding?
  {
    match PrevChar(doc, r.start)
    case None => None
    case Some(c) => if coding in c.marks then RunEnd(doc, coding.id, r.end) else None
  }

  datatype Param = Param(coding: Mark, split: Option<Renaming>)
  datatype Renaming = Renaming(end: Point, renamed: Mark)

  /** One coding after the other; `ids` are the answers of incrCodingId, None if it failed. */
  function Params(doc: Doc, r: Range, codings: seq<Mark>, ids: seq<Option<int>>): Option<seq<Param>>
    requires r.start.text < |doc| && r.end.text < |doc|
    requires |ids| == |codings| && forall m | m in codings :: m.Coding?
  {
    if codings == [] then Some([])
    else
      var c := codings[0];
      var rest := Params(doc, r, codings[1..], ids[1..]);
      if rest.None? then None
      else match SplitEnd(doc, r, c)
        case None => Some([Param(c, None)] + rest.value)
        case Some(end) =>
          if ids[0].None? then None
          else Some([Param(c, Some(Renaming(end, c.(id := ids[0].value))))] + rest.value)
  }

  function RemoveOps(spans: seq<Span>, m: Mark): seq<Op> {
    if spans == [] then []
    else [RemoveMark(spans[0].path, spans[0].offset, spans[0].length, m)] + RemoveOps(spans[1..], m)
  }

  function RenameOps(spans: seq<Span>, coding: Mark, renamed: Mark): seq<Op> {
    if spans == [] then []
    else
      [RemoveMark(spans[0].path, spans[0].offset, spans[0].length, coding),
       AddMark(spans[0].path, spans[0].offset, spans[0].length, renamed)] + RenameOps(spans[1..], coding, renamed)
  }

  function ParamOps(doc: Doc, r: Range, p: Param): seq<Op>
    requires r.end.text < |doc| && (p.split.Some? ==> p.split.value.end.text < |doc|)
  {
    RemoveOps(SpansFrom(doc, r, r.start.text), p.coding) +
    match p.split
    case None => []
    case Some(s) =>
      RenameOps(SpansFrom(doc, Range(r.end, s.end), r.end.text), p.coding, s.renamed)
  }

  predicate ParamsFit(doc: Doc, r: Range, ps: seq<Param>) {
    forall p | p in ps :: p.split.Some? ==> r.end.text <= p.split.value.end.text < |doc|
  }

  function BuildOps(doc: Doc, r: Range, ps: seq<Param>): seq<Op>
    requires r.end.text < |doc| && ParamsFit(doc, r, ps)
  {
    if ps == [] then [] else ParamOps(doc, r, ps[0]) + BuildOps(doc, r, ps[1..])
  }

  predicate Matching(m: Mark, codeId: int) {
    m.Coding? && m.codeId == codeId
  }

  function CodingsToRemove(marksAtRange: seq<Mark>, codeId: int): (cs: seq<Mark>)
    ensures forall m :: m in cs <==> m in marksAtRange && m.Coding? && m.codeId == codeId
    ensures |cs| <= |marksAtRange|
  {
    if marksAtRange == [] then []
    else
      var rest := CodingsToRemove(marksAtRange[1..], codeId);
      if Matching(marksAtRange[0], codeId) then [marksAtRange[0]] + rest else rest
  }

  lemma {:induction false} ScanFromReaches(doc: Doc, id: int, t: nat)
    requires 0 < t <= |doc|
    ensures var e := ScanFrom(doc, id, t);
      && t - 1 <= e.text < |doc|
      && (forall p | At(doc, p) && t <= p.text && Before(p, e) :: HasId(CharAt(doc, p), id))
      && (At(doc, e) ==> !HasId(CharAt(doc, e), id))
      && (e.text == t - 1 ==> e.offset == |doc[t - 1]|)
      && (!At(doc, e) ==> forall p | At(doc, p) :: Before(p, e))
    decreases |doc| - t
  {
    if t < |doc| && FindCodingEnd(id, doc[t]).None? {
      ScanFromReaches(doc, id, t + 1);
    }
  }

  /** The rest of the node in which the selection ends. */
  lemma {:induction false} RestOfNode(text: Text, id: int, from: nat)
    requires from <= |text|
    ensures var f := FindCodingEnd(id, text[from..]);
      && (f.Some? ==> from + f.value < |text| && !HasId(text[from + f.value], id))
      && forall k | from <= k < |text| && (f.Some? ==> k < from + f.value) :: HasId(text[k], id)
  {
    hide HasId;
    var rest := text[from..];
    var f := FindCodingEnd(id, rest);
    assert f.Some? ==> rest[f.value] == text[from + f.value];
    forall k | from <= k < |text| && (f.Some? ==> k < from + f.value) ensures HasId(text[k], id) {
      assert text[k] == rest[k - from];
    }
  }

  /** Where the run ends, in the node of the selection end or behind it. */
  lemma {:induction false} RunEndMeans(doc: Doc, id: int, end: Point)
    requires end.text < |doc|
    ensures var r := RunEnd(doc, id, end);
      if end.offset > |doc[end.text]| then r == Some(ScanFrom(doc, id, end.text + 1))
      else match FindCodingEnd(id, doc[end.text][end.offset..])
        case Some(k) => r == if k == 0 then None else Some(Point(end.text, k + end.offset))
        case None => r == Some(ScanFrom(doc, id, end.text + 1))
  {}

  lemma {:induction false} RunCovers(doc: Doc, id: int, end: Point, p: Point)
    requires end.text < |doc| && RunEnd(doc, id, end).Some?
    requires At(doc, p) && InRange(Range(end, RunEnd(doc, id, end).value), p)
    ensures HasId(CharAt(doc, p), id)
  {
    hide FindCodingEnd, ScanFrom, HasId, RunEnd;
    var text := doc[end.text];
    RunEndMeans(doc, id, end);
    if p.text == end.text {
      RestOfNode(text, id, end.offset);
      assert CharAt(doc, p) == text[p.offset];
    } else {
      ScanFromReaches(doc, id, end.text + 1);
    }
  }

  lemma {:induction false} RunBehind(doc: Doc, id: int, end: Point)
    requires end.text < |doc|
    ensures var e := ScanFrom(doc, id, end.text + 1);
      && end.text <= e.text < |doc|
      && (At(doc, e) ==> !Before(e, end) && !HasId(CharAt(doc, e), id))
      && (!At(doc, e) ==> forall p | At(doc, p) :: Before(p, e))
  {
    hide ScanFrom, HasId, FindCodingEnd;
    ScanFromReaches(doc, id, end.text + 1);
  }

  /** Where the run stops, if there is one. */
  lemma {:induction false} RunStops(doc: Doc, id: int, end: Point)
    requires end.text < |doc|
    ensures var r := RunEnd(doc, id, end);
      && (r.None? ==> At(doc, end) && !HasId(CharAt(doc, end), id))
      && (r.Some? ==>
        && end.text <= r.value.text < |doc|
        && (At(doc, r.value) ==> !Before(r.value, end) && !HasId(CharAt(doc, r.value), id))
        && (!At(doc, r.value) ==> forall p | At(doc, p) :: Before(p, r.value)))
  {
    hide RunEnd, ScanFrom, HasId, FindCodingEnd;
    var text := doc[end.text];
    RunEndMeans(doc, id, end);
    RunBehind(doc, id, end);
    if end.offset <= |text| && FindCodingEnd(id, text[end.offset..]).Some? {
      RestOfNode(text, id, end.offset);
      var k := FindCodingEnd(id, text[end.offset..]).value;
      assert CharAt(doc, Point(end.text, end.offset + k)) == text[end.offset + k];
    }
  }

  /** The run is maximal: every character from the selection end to the run end has the
      coding id, and the one at the run end, if there is one, has not. */
  lemma {:induction false} RunIsMaximal(doc: Doc, id: int, end: Point)
    requires end.text < |doc|
    ensures var r := RunEnd(doc, id, end);
      && (r.None? ==> At(doc, end) && !HasId(CharAt(doc, end), id))
      && (r.Some? ==>
        && end.text <= r.value.text < |doc|
        && (forall p | At(doc, p) && InRange(Range(end, r.value), p) :: HasId(CharAt(doc, p), id))
        && (At(doc, r.value) ==> !Before(r.value, end) && !HasId(CharAt(doc, r.value), id))
        && (!At(doc, r.value) ==> forall p | At(doc, p) :: Before(p, r.value)))
  {
    hide RunEnd, HasId, ScanFrom, FindCodingEnd, InRange;
    var r := RunEnd(doc, id, end);
    RunStops(doc, id, end);
    forall p | r.Some? && At(doc, p) && InRange(Range(end, r.value), p) ensures HasId(CharAt(doc, p), id) {
      RunCovers(doc, id, end, p);
    }
  }

  lemma {:induction false} SplitEndFits(doc: Doc, r: Range, coding: Mark)
    requires r.start.text < |doc| && r.end.text < |doc| && coding.Coding?
    ensures SplitEnd(doc, r, coding).Some? ==> r.end.text <= SplitEnd(doc, r, coding).value.text < |doc|
  {
    RunIsMaximal(doc, coding.id, r.end);
  }

  lemma {:induction false} ParamsProperties(doc: Doc, r: Range, codings: seq<Mark>, ids: seq<Option<int>>)
    requires r.start.text < |doc| && r.end.text < |doc|
    requires |ids| == |codings| && forall m | m in codings :: m.Coding?
    requires Params(doc, r, codings, ids).Some?
    ensures var ps := Params(doc, r, codings, ids).value;
      && |ps| == |codings| && ParamsFit(doc, r, ps)
      && forall k | 0 <= k < |ps| ::
        && ps[k].coding == codings[k]
        && (ps[k].split.Some? <==> SplitEnd(doc, r, codings[k]).Some?)
        && (ps[k].split.Some? ==> ids[k].Some?)
        && (ps[k].split.Some? ==>
          ps[k].split.value == Renaming(SplitEnd(doc, r, codings[k]).value, codings[k].(id := ids[k].value)))
  {
    if codings != [] {
      ParamsProperties(doc, r, codings[1..], ids[1..]);
      var rest := Params(doc, r, codings[1..], ids[1..]).value;
      var ps := Params(doc, r, codings, ids).value;
      SplitEndFits(doc, r, codings[0]);
      hide SplitEnd;
      assert ps[1..] == rest;
      assert forall k | 0 < k < |ps| ::
          ps[k] == rest[k - 1] && codings[k] == codings[1..][k - 1] && ids[k] == ids[1..][k - 1];
      assert forall p | p in ps :: p == ps[0] || p in rest;
    }
  }

  /** The whole computation. None stands for the exceptions: a failed request for a new
      coding id, and a range whose end node lies before its start node. */
  function RemovalOperations(doc: Doc, r: Range, marksAtRange: seq<Mark>, codeId: int,
      ids: seq<Option<int>>): Option<seq<Op>>
    requires r.start.text < |doc| && r.end.text < |doc|
    requires |ids| == |CodingsToRemove(marksAtRange, codeId)|
  {
    var codings := CodingsToRemove(marksAtRange, codeId);
    var ps := Params(doc, r, codings, ids);
    if ps.None? then None
    else if codings != [] && r.end.text < r.start.text then None
    else
      ParamsProperties(doc, r, codings, ids);
      Some(BuildOps(doc, r, ps.value))
  }
}
