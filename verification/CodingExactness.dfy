/** What the removal operations do to every character of the document, and when they keep
    each coding id on one contiguous run. */
module CodingExactness {
  import opened Wrappers
  import opened SlateModel
  import opened RangeToPaths
  import opened CodingRemoval

  // ----- from operations to characters -----

  predicate Hit(doc: Doc, r: Range, t: nat, p: Point)
    requires r.end.text < |doc|
  {
    t <= p.text <= r.end.text && Hits(SpanAt(doc, r, p.text), p)
  }

  lemma {:induction false} RemoveOpsEffect(doc: Doc, r: Range, t: nat, m: Mark, p: Point, c: Char)
    requires r.end.text < |doc|
    ensures CharAfter(RemoveOps(SpansFrom(doc, r, t), m), p, c) ==
      if Hit(doc, r, t, p) then c.(marks := c.marks - {m}) else c
    ensures forall op | op in RemoveOps(SpansFrom(doc, r, t), m) :: op.path < |doc|
    decreases r.end.text - t
  {
    if t <= r.end.text {
      var ops := RemoveOps(SpansFrom(doc, r, t), m);
      var rest := RemoveOps(SpansFrom(doc, r, t + 1), m);
      assert ops[1..] == rest;
      RemoveOpsEffect(doc, r, t + 1, m, p, if Covers(ops[0], p) then Touch(ops[0], c) else c);
      assert forall op | op in ops :: op == ops[0] || op in rest;
    }
  }

  lemma {:induction false} RenameOpsEffect(doc: Doc, r: Range, t: nat, m: Mark, n: Mark, p: Point, c: Char)
    requires r.end.text < |doc|
    ensures CharAfter(RenameOps(SpansFrom(doc, r, t), m, n), p, c) ==
      if Hit(doc, r, t, p) then c.(marks := c.marks - {m} + {n}) else c
    ensures forall op | op in RenameOps(SpansFrom(doc, r, t), m, n) :: op.path < |doc|
    decreases r.end.text - t
  {
    if t <= r.end.text {
      var ops := RenameOps(SpansFrom(doc, r, t), m, n);
      var rest := RenameOps(SpansFrom(doc, r, t + 1), m, n);
      assert ops[1..][1..] == rest;
      var hit := Hits(SpanAt(doc, r, t), p);
      RenameOpsEffect(doc, r, t + 1, m, n, p, if hit then c.(marks := c.marks - {m} + {n}) else c);
      assert forall op | op in ops :: op == ops[0] || op == ops[1] || op in rest;
    }
  }

  predicate Renames(r: Range, q: Param, p: Point) {
    q.split.Some? && InRange(Range(r.end, q.split.value.end), p)
  }

  function MarksAfterOne(r: Range, q: Param, p: Point, marks: set<Mark>): set<Mark> {
    var cleared := if InRange(r, p) then marks - {q.coding} else marks;
    if Renames(r, q, p) then cleared - {q.coding} + {q.split.value.renamed} else cleared
  }

  function MarksAfter(r: Range, ps: seq<Param>, p: Point, marks: set<Mark>): set<Mark>
    decreases ps
  {
    if ps == [] then marks else MarksAfter(r, ps[1..], p, MarksAfterOne(r, ps[0], p, marks))
  }

  lemma {:induction false} BuildOpsEffect(doc: Doc, r: Range, ps: seq<Param>, p: Point, c: Char)
    requires r.start.text <= r.end.text < |doc| && ParamsFit(doc, r, ps) && At(doc, p)
    ensures CharAfter(BuildOps(doc, r, ps), p, c) == c.(marks := MarksAfter(r, ps, p, c.marks))
    decreases ps
  {
    if ps != [] {
      var q := ps[0];
      var c1 := c.(marks := MarksAfterOne(r, q, p, c.marks));
      assert CharAfter(ParamOps(doc, r, q), p, c) == c1 by {
        var first := RemoveOps(SpansFrom(doc, r, r.start.text), q.coding);
        RemoveOpsEffect(doc, r, r.start.text, q.coding, p, c);
        if q.split.Some? {
          var r2 := Range(r.end, q.split.value.end);
          CharAfterConcat(first, RenameOps(SpansFrom(doc, r2, r.end.text), q.coding, q.split.value.renamed), p, c);
          RenameOpsEffect(doc, r2, r.end.text, q.coding, q.split.value.renamed, p, CharAfter(first, p, c));
        } else {
          assert first + [] == first;
        }
      }
      CharAfterConcat(ParamOps(doc, r, q), BuildOps(doc, r, ps[1..]), p, c);
      BuildOpsEffect(doc, r, ps[1..], p, c1);
    }
  }

  lemma {:induction false} BuildOpsPaths(doc: Doc, r: Range, ps: seq<Param>)
    requires r.end.text < |doc| && ParamsFit(doc, r, ps)
    ensures forall op | op in BuildOps(doc, r, ps) :: op.path < |doc|
    decreases ps
  {
    if ps != [] {
      var q := ps[0];
      var any := Point(0, 0);
      var c := Char('a', {});
      RemoveOpsEffect(doc, r, r.start.text, q.coding, any, c);
      if q.split.Some? {
        RenameOpsEffect(doc, Range(r.end, q.split.value.end), r.end.text, q.coding, q.split.value.renamed, any, c);
      }
      BuildOpsPaths(doc, r, ps[1..]);
    }
  }

  ghost predicate Dropped(r: Range, ps: seq<Param>, p: Point, m: Mark) {
    exists q | q in ps :: q.coding == m && (InRange(r, p) || Renames(r, q, p))
  }

  ghost predicate Gained(r: Range, ps: seq<Param>, p: Point, m: Mark) {
    exists q | q in ps :: Renames(r, q, p) && q.split.value.renamed == m
  }

  lemma {:induction false} MarksAfterMembers(r: Range, ps: seq<Param>, p: Point, marks: set<Mark>, m: Mark)
    requires forall q, q' | q in ps && q' in ps :: q.split.Some? ==> q.split.value.renamed != q'.coding
    ensures m in MarksAfter(r, ps, p, marks) <==> (m in marks && !Dropped(r, ps, p, m)) || Gained(r, ps, p, m)
    decreases ps
  {
    if ps != [] {
      MarksAfterMembers(r, ps[1..], p, MarksAfterOne(r, ps[0], p, marks), m);
      assert forall q :: q in ps <==> q == ps[0] || q in ps[1..];
    }
  }

  // ----- exactness -----

  /** The character right before the start carries the coding. */
  ghost predicate BeforeStart(doc: Doc, start: Point, c: Mark) {
    exists q :: JustBefore(doc, q, start) && c in CharAt(doc, q).marks
  }

  lemma {:induction false} BeforeStartFound(doc: Doc, start: Point, c: Mark)
    requires start.text < |doc|
    ensures BeforeStart(doc, start, c) <==> PrevChar(doc, start).Some? && c in PrevChar(doc, start).value.marks
  {
    PrevCharExactly(doc, start);
  }

  /** The run behind the selection that gets a new id, said without the algorithm: the
      character before the selection carries the coding, and so does every character from
      the selection end up to p. */
  ghost predicate InRun(doc: Doc, r: Range, c: Mark, p: Point)
    requires r.start.text < |doc| && c.Coding?
  {
    && BeforeStart(doc, r.start, c)
    && At(doc, p) && !Before(p, r.end)
    && forall q | At(doc, q) && !Before(q, r.end) && !Before(p, q) :: HasId(CharAt(doc, q), c.id)
  }

  lemma {:induction false} RunIsInRun(doc: Doc, r: Range, c: Mark, p: Point)
    requires r.start.text < |doc| && r.end.text < |doc| && c.Coding? && At(doc, p)
    ensures InRun(doc, r, c, p) <==>
      SplitEnd(doc, r, c).Some? && InRange(Range(r.end, SplitEnd(doc, r, c).value), p)
  {
    RunIsMaximal(doc, c.id, r.end);
    BeforeStartFound(doc, r.start, c);
    hide PrevChar, BeforeStart;
    var end := RunEnd(doc, c.id, r.end);
    assert At(doc, r.end) || !At(doc, r.end);
    assert end.Some? ==> At(doc, end.value) || !At(doc, end.value);
  }

  /** A coding is split when it is right before the selection and not missing right behind it. */
  ghost predicate Splits(doc: Doc, r: Range, c: Mark)
    requires c.Coding?
  {
    BeforeStart(doc, r.start, c) && (At(doc, r.end) ==> HasId(CharAt(doc, r.end), c.id))
  }

  lemma {:induction false} SplitsExactly(doc: Doc, r: Range, c: Mark)
    requires r.start.text < |doc| && r.end.text < |doc| && c.Coding?
    ensures SplitEnd(doc, r, c).Some? <==> Splits(doc, r, c)
  {
    BeforeStartFound(doc, r.start, c);
    RunEndMeans(doc, c.id, r.end);
    if r.end.offset < |doc[r.end.text]| {
      assert doc[r.end.text][r.end.offset..][0] == CharAt(doc, r.end);
    }
    hide PrevChar, BeforeStart, HasId, RunEnd;
  }

  lemma {:induction false} ParamsFailExactly(doc: Doc, r: Range, codings: seq<Mark>, ids: seq<Option<int>>)
    requires r.start.text < |doc| && r.end.text < |doc|
    requires |ids| == |codings| && forall m | m in codings :: m.Coding?
    ensures Params(doc, r, codings, ids).None?
       <==> exists k | 0 <= k < |codings| :: Splits(doc, r, codings[k]) && ids[k].None?
    decreases codings
  {
    if codings != [] {
      hide Splits, SplitEnd;
      ParamsFailExactly(doc, r, codings[1..], ids[1..]);
      SplitsExactly(doc, r, codings[0]);
      assert forall k | 0 < k < |codings| :: codings[k] == codings[1..][k - 1] && ids[k] == ids[1..][k - 1];
      assert forall k | 0 <= k < |codings[1..]| :: codings[1..][k] == codings[k + 1] && ids[1..][k] == ids[k + 1];
    }
  }

  /** The computation throws exactly when a coding has to be split and its request for a new id
      has failed, or when there is a coding to remove and the selection ends in a node before the
      one in which it starts. */
  lemma {:induction false} RemovalFailsExactly(doc: Doc, r: Range, marksAtRange: seq<Mark>, codeId: int,
      ids: seq<Option<int>>)
    requires r.start.text < |doc| && r.end.text < |doc|
    requires |ids| == |CodingsToRemove(marksAtRange, codeId)|
    ensures var codings := CodingsToRemove(marksAtRange, codeId);
      (RemovalOperations(doc, r, marksAtRange, codeId, ids).None? <==>
         || (exists k | 0 <= k < |codings| :: Splits(doc, r, codings[k]) && ids[k].None?)
         || (codings != [] && r.end.text < r.start.text))
  {
    hide Splits, CodingsToRemove;
    ParamsFailExactly(doc, r, CodingsToRemove(marksAtRange, codeId), ids);
  }

  ghost predicate UsesId(doc: Doc, id: int) {
    exists p :: At(doc, p) && HasId(CharAt(doc, p), id)
  }

  /** incrCodingId answers with ids that are new to the document and differ from each other. */
  ghost predicate FreshIds(doc: Doc, codings: seq<Mark>, ids: seq<Option<int>>)
    requires |ids| == |codings| && forall m | m in codings :: m.Coding?
  {
    && (forall k | 0 <= k < |ids| && ids[k].Some? ::
      !UsesId(doc, ids[k].value) && forall m | m in codings :: m.id != ids[k].value)
    && forall k, l | 0 <= k < l < |ids| && ids[k].Some? && ids[l].Some? :: ids[k] != ids[l]
  }

  ghost predicate IsRenamed(doc: Doc, r: Range, codings: seq<Mark>, ids: seq<Option<int>>, p: Point, k: nat, m: Mark)
    requires r.start.text < |doc| && |ids| == |codings| && k < |codings| && forall m | m in codings :: m.Coding?
  {
    InRun(doc, r, codings[k], p) && ids[k].Some? && m == codings[k].(id := ids[k].value)
  }

  /** The promised marks of the character at p. */
  ghost predicate Carried(doc: Doc, r: Range, codings: seq<Mark>, ids: seq<Option<int>>, p: Point, m: Mark)
    requires r.start.text < |doc| && |ids| == |codings| && At(doc, p) && forall m | m in codings :: m.Coding?
  {
    || (m in CharAt(doc, p).marks && !(m in codings && (InRange(r, p) || InRun(doc, r, m, p))))
    || exists k | 0 <= k < |codings| :: IsRenamed(doc, r, codings, ids, p, k, m)
  }

  ghost predicate Situation(doc: Doc, r: Range, marksAtRange: seq<Mark>, codeId: int, ids: seq<Option<int>>)
  {
    && r.start.text < |doc| && r.end.text < |doc| && !Before(r.end, r.start)
    && |ids| == |CodingsToRemove(marksAtRange, codeId)|
    && FreshIds(doc, CodingsToRemove(marksAtRange, codeId), ids)
    && RemovalOperations(doc, r, marksAtRange, codeId, ids).Some?
  }

  /** The document after the removal. */
  function Result(doc: Doc, r: Range, marksAtRange: seq<Mark>, codeId: int, ids: seq<Option<int>>): Option<Doc>
    requires r.start.text < |doc| && r.end.text < |doc|
    requires |ids| == |CodingsToRemove(marksAtRange, codeId)|
  {
    match RemovalOperations(doc, r, marksAtRange, codeId, ids)
    case None => None
    case Some(ops) => ApplyAll(doc, ops)
  }

  /** Operations that have been computed always apply. */
  lemma {:induction false} ResultExactly(doc: Doc, r: Range, marksAtRange: seq<Mark>, codeId: int,
      ids: seq<Option<int>>)
    requires r.start.text < |doc| && r.end.text < |doc|
    requires |ids| == |CodingsToRemove(marksAtRange, codeId)|
    ensures Result(doc, r, marksAtRange, codeId, ids).Some?
       <==> RemovalOperations(doc, r, marksAtRange, codeId, ids).Some?
  {
    var codings := CodingsToRemove(marksAtRange, codeId);
    if RemovalOperations(doc, r, marksAtRange, codeId, ids).Some? {
      var ps := Params(doc, r, codings, ids).value;
      ParamsProperties(doc, r, codings, ids);
      BuildOpsPaths(doc, r, ps);
      ApplyAllPointwise(doc, BuildOps(doc, r, ps));
    }
  }

  /** All operations apply, the text stays, and every character ends with exactly the
      promised marks. */
  lemma {:induction false} RemovalMarks(doc: Doc, r: Range, marksAtRange: seq<Mark>, codeId: int, ids: seq<Option<int>>)
    requires Situation(doc, r, marksAtRange, codeId, ids)
    ensures Result(doc, r, marksAtRange, codeId, ids).Some?
    ensures var doc' := Result(doc, r, marksAtRange, codeId, ids).value;
      && SameShape(doc, doc')
      && forall p | At(doc, p) ::
        && CharAt(doc', p).text == CharAt(doc, p).text
        && forall m :: m in CharAt(doc', p).marks <==>
          Carried(doc, r, CodingsToRemove(marksAtRange, codeId), ids, p, m)
  {
    var codings := CodingsToRemove(marksAtRange, codeId);
    var ps := Params(doc, r, codings, ids).value;
    ParamsProperties(doc, r, codings, ids);
    var ops := BuildOps(doc, r, ps);
    BuildOpsPaths(doc, r, ps);
    ApplyAllPointwise(doc, ops);
    var doc' := ApplyAll(doc, ops).value;
    forall p | At(doc, p)
      ensures CharAt(doc', p).text == CharAt(doc, p).text
      ensures forall m :: m in CharAt(doc', p).marks <==> Carried(doc, r, codings, ids, p, m)
    {
      BuildOpsEffect(doc, r, ps, p, CharAt(doc, p));
      forall m
        ensures m in CharAt(doc', p).marks <==> Carried(doc, r, codings, ids, p, m)
      {
        MarksAfterCarried(doc, r, codings, ids, p, m);
      }
    }
  }

  lemma {:induction false} MarksAfterCarried(doc: Doc, r: Range, codings: seq<Mark>, ids: seq<Option<int>>, p: Point,
      m: Mark)
    requires r.start.text < |doc| && r.end.text < |doc| && At(doc, p)
    requires |codings| == |ids| && forall m | m in codings :: m.Coding?
    requires FreshIds(doc, codings, ids) && Params(doc, r, codings, ids).Some?
    ensures m in MarksAfter(r, Params(doc, r, codings, ids).value, p, CharAt(doc, p).marks) <==>
      Carried(doc, r, codings, ids, p, m)
  {
    var ps := Params(doc, r, codings, ids).value;
    ParamsProperties(doc, r, codings, ids);
    MarksAfterMembers(r, ps, p, CharAt(doc, p).marks, m);
    forall k | 0 <= k < |ps|
      ensures Renames(r, ps[k], p) <==> InRun(doc, r, codings[k], p)
    {
      RunIsInRun(doc, r, codings[k], p);
    }
    DroppedAndGained(doc, r, codings, ids, ps, p, m);
  }

  lemma {:induction false} DroppedAndGained(doc: Doc, r: Range, codings: seq<Mark>, ids: seq<Option<int>>,
      ps: seq<Param>, p: Point, m: Mark)
    requires r.start.text < |doc| && |ps| == |codings| == |ids| && At(doc, p) && forall m | m in codings :: m.Coding?
    requires forall k | 0 <= k < |ps| ::
      && ps[k].coding == codings[k]
      && (Renames(r, ps[k], p) <==> InRun(doc, r, codings[k], p))
      && (ps[k].split.Some? ==> ids[k].Some? && ps[k].split.value.renamed == codings[k].(id := ids[k].value))
    ensures Dropped(r, ps, p, m) <==> m in codings && (InRange(r, p) || InRun(doc, r, m, p))
    ensures Gained(r, ps, p, m) <==> exists k | 0 <= k < |codings| :: IsRenamed(doc, r, codings, ids, p, k, m)
  {
    if m in codings && (InRange(r, p) || InRun(doc, r, m, p)) {
      var k :| 0 <= k < |codings| && codings[k] == m;
      assert ps[k] in ps;
    }
    if Gained(r, ps, p, m) {
      var q :| q in ps && Renames(r, q, p) && q.split.value.renamed == m;
      var k :| 0 <= k < |ps| && ps[k] == q;
      assert IsRenamed(doc, r, codings, ids, p, k, m);
    }
    if k :| 0 <= k < |codings| && IsRenamed(doc, r, codings, ids, p, k, m) {
      assert ps[k] in ps;
    }
  }

  /** Every mark that the selected characters carry is among the marks at the range. */
  ghost predicate MarksCover(doc: Doc, r: Range, marksAtRange: seq<Mark>) {
    forall p, m | At(doc, p) && InRange(r, p) && m in CharAt(doc, p).marks :: m in marksAtRange
  }

  /** Coding removal is exact. Before the range nothing changes; inside it exactly the
      codings of the code go; behind it a removed coding gives way to its renamed copy on
      exactly its run, and everything else stays. */
  lemma {:induction false} RemovalIsExact(doc: Doc, r: Range, marksAtRange: seq<Mark>, codeId: int,
      ids: seq<Option<int>>)
    requires Situation(doc, r, marksAtRange, codeId, ids)
    requires MarksCover(doc, r, marksAtRange)
    ensures Result(doc, r, marksAtRange, codeId, ids).Some?
    ensures var codings := CodingsToRemove(marksAtRange, codeId);
      var doc' := Result(doc, r, marksAtRange, codeId, ids).value;
      && SameShape(doc, doc')
      && forall p | At(doc, p) ::
        && CharAt(doc', p).text == CharAt(doc, p).text
        && (Before(p, r.start) ==> CharAt(doc', p) == CharAt(doc, p))
        && (InRange(r, p) ==>
              CharAt(doc', p).marks == set m | m in CharAt(doc, p).marks && !(m.Coding? && m.codeId == codeId))
        && (!Before(p, r.end) ==> forall m ::
          m in CharAt(doc', p).marks <==>
            || (m in CharAt(doc, p).marks && !(m in codings && InRun(doc, r, m, p)))
            || exists k | 0 <= k < |codings| :: IsRenamed(doc, r, codings, ids, p, k, m))
  {
    RemovalMarks(doc, r, marksAtRange, codeId, ids);
    hide RemovalOperations, Result, FreshIds, CodingsToRemove;
    var codings := CodingsToRemove(marksAtRange, codeId);
    var doc' := Result(doc, r, marksAtRange, codeId, ids).value;
    forall p | At(doc, p)
      ensures CharAt(doc', p).text == CharAt(doc, p).text
      ensures Before(p, r.start) ==> CharAt(doc', p) == CharAt(doc, p)
      ensures InRange(r, p) ==> CharAt(doc', p).marks == set m | m in CharAt(doc, p).marks && !Matching(m, codeId)
      ensures !Before(p, r.end) ==> forall m ::
        m in CharAt(doc', p).marks <==>
          || (m in CharAt(doc, p).marks && !(m in codings && InRun(doc, r, m, p)))
          || exists k | 0 <= k < |codings| :: IsRenamed(doc, r, codings, ids, p, k, m)
    {
      CharacterExact(doc, doc', r, marksAtRange, codeId, ids, p);
    }
  }

  lemma {:induction false} CharacterExact(doc: Doc, doc': Doc, r: Range, marksAtRange: seq<Mark>, codeId: int,
      ids: seq<Option<int>>, p: Point)
    requires r.start.text < |doc| && !Before(r.end, r.start) && |ids| == |CodingsToRemove(marksAtRange, codeId)|
    requires MarksCover(doc, r, marksAtRange) && At(doc, p) && At(doc', p)
    requires CharAt(doc', p).text == CharAt(doc, p).text
    requires forall m :: m in CharAt(doc', p).marks <==>
      Carried(doc, r, CodingsToRemove(marksAtRange, codeId), ids, p, m)
    ensures var codings := CodingsToRemove(marksAtRange, codeId);
      && (Before(p, r.start) ==> CharAt(doc', p) == CharAt(doc, p))
      && (InRange(r, p) ==> CharAt(doc', p).marks == set m | m in CharAt(doc, p).marks && !Matching(m, codeId))
      && (!Before(p, r.end) ==> forall m ::
        m in CharAt(doc', p).marks <==>
          || (m in CharAt(doc, p).marks && !(m in codings && InRun(doc, r, m, p)))
          || exists k | 0 <= k < |codings| :: IsRenamed(doc, r, codings, ids, p, k, m))
  {
    if Before(p, r.start) {
      assert CharAt(doc', p).marks == CharAt(doc, p).marks;
    }
  }
}
