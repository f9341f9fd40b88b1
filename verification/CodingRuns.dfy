/** Codings over whole runs of edits of one document. A coding id is given once, but the edits
    that use the ids may be served in any order: a client asks for its id before it asks for the
    lock (war/assets/js/pages/coding-editor/Documents/DocumentsView.jsx:242-280). */
module CodingRuns {
  import opened Wrappers
  import opened SlateModel
  import opened RangeToPaths
  import opened CodingRemoval
  import opened CodingExactness
  import opened CodingContiguity

  /** One document of the project, and the coding ids that edits have brought so far, also
      those that have gone and those of other documents. */
  datatype Project = Project(doc: Doc, used: iset<int>)

  /** A removal with the answers of incrCodingId, or a new coding put on a range. */
  datatype Request =
    | Remove(range: Range, marksAtRange: seq<Mark>, codeId: int, ids: seq<Option<int>>)
    | Add(range: Range, coding: Mark)

  /** The answers have not been used before, and none of them comes twice. */
  predicate Drawn(ids: seq<Option<int>>, from: iset<int>, to: iset<int>) {
    && (forall k | 0 <= k < |ids| && ids[k].Some? :: ids[k].value !in from && ids[k].value in to)
    && (forall k, l | 0 <= k < l < |ids| && ids[k].Some? && ids[l].Some? :: ids[k] != ids[l])
  }

  function AddOps(spans: seq<Span>, m: Mark): seq<Op> {
    if spans == [] then []
    else [AddMark(spans[0].path, spans[0].offset, spans[0].length, m)] + AddOps(spans[1..], m)
  }

  /** A removal that throws changes nothing. */
  function Serve(doc: Doc, r: Request): Doc
    requires r.range.start.text < |doc| && r.range.end.text < |doc|
    requires r.Remove? ==> |r.ids| == |CodingsToRemove(r.marksAtRange, r.codeId)|
  {
    var result := match r
      case Remove(range, marks, codeId, ids) => Result(doc, range, marks, codeId, ids)
      case Add(range, coding) => ApplyAll(doc, AddOps(SpansFrom(doc, range, range.start.text), coding));
    if result.Some? then result.value else doc
  }

  ghost predicate Served(p: Project, r: Request, q: Project) {
    && r.range.start.text < |p.doc| && r.range.end.text < |p.doc| && !Before(r.range.end, r.range.start)
    && p.used <= q.used
    && (match r
        case Remove(_, marks, codeId, ids) =>
          && |ids| == |CodingsToRemove(marks, codeId)| && Drawn(ids, p.used, q.used)
          && FromDocument(p.doc, CodingsToRemove(marks, codeId))
        case Add(_, coding) => coding.Coding? && coding.id !in p.used && coding.id in q.used)
    && q.doc == Serve(p.doc, r)
  }

  ghost predicate Recorded(p: Project) {
    forall at, m | Bears(p.doc, at, m) :: m.id in p.used
  }

  ghost predicate Sound(p: Project) {
    Recorded(p) && IdsNameCodings(p.doc) && Contiguous(p.doc)
  }

  /** The one request that leaves a coding in two pieces. */
  ghost predicate Tears(doc: Doc, r: Request)
  {
    && r.range.start.text < |doc| && r.range.end.text < |doc|
    && r.Remove? && |r.ids| == |CodingsToRemove(r.marksAtRange, r.codeId)|
    && RemovalOperations(doc, r.range, r.marksAtRange, r.codeId, r.ids).Some?
    && Gap(doc, r.range, CodingsToRemove(r.marksAtRange, r.codeId))
  }

  /** What has not been used yet is new to the document. */
  lemma {:induction false} DrawnIsFresh(p: Project, codings: seq<Mark>, ids: seq<Option<int>>, to: iset<int>)
    requires Recorded(p) && |ids| == |codings| && Drawn(ids, p.used, to)
    requires FromDocument(p.doc, codings) && forall m | m in codings :: m.Coding?
    ensures FreshIds(p.doc, codings, ids)
  {
    forall k | 0 <= k < |ids| && ids[k].Some?
      ensures !UsesId(p.doc, ids[k].value) && forall m | m in codings :: m.id != ids[k].value
    {
      forall at | At(p.doc, at) ensures !HasId(CharAt(p.doc, at), ids[k].value) {
        assert forall m | m in CharAt(p.doc, at).marks && m.Coding? :: Bears(p.doc, at, m);
      }
    }
  }

  lemma {:induction false} RemoveStep(p: Project, r: Request, q: Project)
    requires r.Remove? && Served(p, r, q) && Sound(p)
    ensures Recorded(q) && IdsNameCodings(q.doc)
    ensures Contiguous(q.doc) <==> !Tears(p.doc, r)
  {
    var codings := CodingsToRemove(r.marksAtRange, r.codeId);
    DrawnIsFresh(p, codings, r.ids, q.used);
    if RemovalOperations(p.doc, r.range, r.marksAtRange, r.codeId, r.ids).Some? {
      ContiguousExactlyWithoutGap(p.doc, r.range, r.marksAtRange, r.codeId, r.ids);
      IdsStillNameCodings(p.doc, r.range, r.marksAtRange, r.codeId, r.ids);
      RemovalMarks(p.doc, r.range, r.marksAtRange, r.codeId, r.ids);
      hide RemovalOperations, Result, Contiguous, IdsNameCodings, CodingsToRemove, Gap, FreshIds;
      forall at, m | Bears(q.doc, at, m) ensures m.id in q.used {
        assert At(p.doc, at) && Carried(p.doc, r.range, codings, r.ids, at, m);
        assert m in CharAt(p.doc, at).marks ==> Bears(p.doc, at, m);
      }
    }
  }

  lemma {:induction false} AddOpsEffect(doc: Doc, r: Range, t: nat, m: Mark, p: Point, c: Char)
    requires r.end.text < |doc|
    ensures CharAfter(AddOps(SpansFrom(doc, r, t), m), p, c)
         == if Hit(doc, r, t, p) then c.(marks := c.marks + {m}) else c
    decreases r.end.text - t
  {
    if t <= r.end.text {
      var first := SpanAt(doc, r, t);
      var op := AddMark(first.path, first.offset, first.length, m);
      var rest := AddOps(SpansFrom(doc, r, t + 1), m);
      assert SpansFrom(doc, r, t)[1..] == SpansFrom(doc, r, t + 1);
      assert AddOps(SpansFrom(doc, r, t), m) == [op] + rest;
      assert ([op] + rest)[1..] == rest;
      AddOpsEffect(doc, r, t + 1, m, p, if Covers(op, p) then Touch(op, c) else c);
    }
  }

  lemma {:induction false} AddOpsPaths(doc: Doc, r: Range, t: nat, m: Mark)
    requires r.end.text < |doc|
    ensures forall op | op in AddOps(SpansFrom(doc, r, t), m) :: op.path < |doc|
    decreases r.end.text - t
  {
    if t <= r.end.text {
      assert SpansFrom(doc, r, t)[1..] == SpansFrom(doc, r, t + 1);
      AddOpsPaths(doc, r, t + 1, m);
    }
  }

  function Marked(c: Char, m: Mark, hit: bool): Char {
    if hit then c.(marks := c.marks + {m}) else c
  }

  /** A new coding is on exactly the characters of its range. */
  lemma {:induction false} AddedMarks(doc: Doc, r: Range, c: Mark)
    requires r.start.text < |doc| && r.end.text < |doc| && !Before(r.end, r.start)
    ensures SameShape(doc, Serve(doc, Add(r, c)))
    ensures forall p | At(doc, p) :: CharAt(Serve(doc, Add(r, c)), p) == Marked(CharAt(doc, p), c, InRange(r, p))
  {
    var ops := AddOps(SpansFrom(doc, r, r.start.text), c);
    AddOpsPaths(doc, r, r.start.text, c);
    ApplyAllPointwise(doc, ops);
    forall p | At(doc, p)
      ensures CharAt(Serve(doc, Add(r, c)), p) == Marked(CharAt(doc, p), c, InRange(r, p))
    {
      AddOpsEffect(doc, r, r.start.text, c, p, CharAt(doc, p));
    }
  }

  lemma {:induction false} AddStep(p: Project, r: Request, q: Project)
    requires r.Add? && Served(p, r, q) && Sound(p)
    ensures Sound(q)
  {
    AddedMarks(p.doc, r.range, r.coding);
    hide Serve;
    forall at, m | Bears(q.doc, at, m)
      ensures m == r.coding || Bears(p.doc, at, m)
      ensures m == r.coding ==> InRange(r.range, at)
    {
      assert At(p.doc, at);
      assert Bears(p.doc, at, m) ==> m.id in p.used;
    }
    assert Recorded(q) && IdsNameCodings(q.doc);
    AddKeepsContiguous(p, r, q);
  }

  lemma {:induction false} AddKeepsContiguous(p: Project, r: Request, q: Project)
    requires r.Add? && Served(p, r, q) && Sound(p)
    ensures Contiguous(q.doc)
  {
    AddedMarks(p.doc, r.range, r.coding);
    hide Serve;
    forall id, at | Carries(q.doc, at, id)
      ensures if id == r.coding.id then InRange(r.range, at) else Carries(p.doc, at, id)
    {
      var m :| m in CharAt(q.doc, at).marks && m.Coding? && m.id == id;
      assert At(p.doc, at);
      assert m in CharAt(p.doc, at).marks ==> Bears(p.doc, at, m);
    }
    forall id, at, b, e | Carries(q.doc, at, id) && At(q.doc, b) && Carries(q.doc, e, id) && Between(at, b, e)
      ensures Carries(q.doc, b, id)
    {
      assert At(p.doc, b);
      if id == r.coding.id {
        assert InRange(r.range, b) && r.coding in CharAt(q.doc, b).marks;
      } else {
        assert Carries(p.doc, b, id);
        var m :| m in CharAt(p.doc, b).marks && m.Coding? && m.id == id;
        assert m in CharAt(q.doc, b).marks;
      }
    }
  }

  ghost predicate IsRun(states: seq<Project>, requests: seq<Request>) {
    && |states| == |requests| + 1
    && forall i | 0 <= i < |requests| :: Served(states[i], requests[i], states[i + 1])
  }

  /** Over every run of removals and new codings in which no removal meets a gap: every coding
      id stands for one coding and covers one contiguous run of characters. The ids of the
      requests differ from each other and from those in the first document, in whatever order
      they were drawn. */
  lemma {:induction false} CodingsStaySound(states: seq<Project>, requests: seq<Request>, i: nat)
    requires IsRun(states, requests) && i < |states| && Sound(states[0])
    requires forall k | 0 <= k < i :: !Tears(states[k].doc, requests[k])
    ensures Sound(states[i])
  {
    if i > 0 {
      CodingsStaySound(states, requests, i - 1);
      assert Served(states[i - 1], requests[i - 1], states[i]);
      if requests[i - 1].Remove? {
        RemoveStep(states[i - 1], requests[i - 1], states[i]);
      } else {
        AddStep(states[i - 1], requests[i - 1], states[i]);
      }
    }
  }
}
