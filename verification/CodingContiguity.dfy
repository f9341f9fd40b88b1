/** When removal with splitting keeps every coding id on one contiguous run of characters. */
module CodingContiguity {
  import opened Wrappers
  import opened SlateModel
  import opened RangeToPaths
  import opened CodingRemoval
  import opened CodingExactness

  ghost predicate Carries(doc: Doc, p: Point, id: int) {
    At(doc, p) && HasId(CharAt(doc, p), id)
  }

  predicate Between(p: Point, q: Point, r: Point) {
    Before(p, q) && Before(q, r)
  }

  ghost predicate Contiguous(doc: Doc) {
    forall id, p, q, r {:trigger Carries(doc, p, id), Between(p, q, r)} ::
      Carries(doc, p, id) && At(doc, q) && Carries(doc, r, id) && Between(p, q, r) ==> Carries(doc, q, id)
  }

  ghost predicate Bears(doc: Doc, p: Point, m: Mark) {
    At(doc, p) && m.Coding? && m in CharAt(doc, p).marks
  }

  /** A coding id stands for one coding, with one code, title and author. */
  ghost predicate IdsNameCodings(doc: Doc) {
    forall p, q, m, n | Bears(doc, p, m) && Bears(doc, q, n) :: m.id == n.id ==> m == n
  }

  /** Under it, carrying the id is bearing the coding. */
  lemma {:induction false} CarriesIsBears(doc: Doc, home: Point, p: Point, c: Mark)
    requires IdsNameCodings(doc) && Bears(doc, home, c)
    ensures Carries(doc, p, c.id) <==> Bears(doc, p, c)
  {
    if Carries(doc, p, c.id) {
      var m :| m in CharAt(doc, p).marks && m.Coding? && m.id == c.id;
      assert Bears(doc, p, m);
    }
  }

  /** The marks at the range come from the document. */
  ghost predicate FromDocument(doc: Doc, codings: seq<Mark>) {
    forall m | m in codings :: exists p :: Bears(doc, p, m)
  }

  /** When there is a character before the selection and it is not hidden, the one that is found
      is the nearest one. */
  lemma {:induction false} PrevCharIsNearest(doc: Doc, start: Point, any: Point) returns (p: Point)
    requires start.text < |doc| && !Hidden(doc, start) && At(doc, any) && Before(any, start)
    ensures JustBefore(doc, p, start) && Before(p, start) && PrevChar(doc, start) == Some(CharAt(doc, p))
    ensures forall q | At(doc, q) && Before(q, start) :: q == p || Before(q, p)
  {
    p := if start.offset == 0 then Point(start.text - 1, |doc[start.text - 1]| - 1)
         else Point(start.text, start.offset - 1);
  }

  /** The one case in which the code leaves a coding in two pieces: the character before the
      selection is hidden, because the previous text node is empty, although the coding is
      carried before and behind a selection that contains characters. */
  ghost predicate Gap(doc: Doc, r: Range, codings: seq<Mark>)
    requires r.start.text < |doc|
  {
    && Hidden(doc, r.start)
    && exists c, p, s, q :: GapAt(doc, r, codings, c, p, s, q)
  }

  ghost predicate GapAt(doc: Doc, r: Range, codings: seq<Mark>, c: Mark, p: Point, s: Point, q: Point) {
    && c in codings
    && Bears(doc, p, c) && Before(p, r.start)
    && At(doc, s) && InRange(r, s)
    && Bears(doc, q, c) && !Before(q, r.end)
  }

  ghost predicate Setting(doc: Doc, r: Range, marksAtRange: seq<Mark>, codeId: int, ids: seq<Option<int>>) {
    && Situation(doc, r, marksAtRange, codeId, ids)
    && Contiguous(doc) && IdsNameCodings(doc)
    && FromDocument(doc, CodingsToRemove(marksAtRange, codeId))
  }

  /** A coding on both sides of the selection start that goes on behind the selection is in
      the run, when the character before the selection is found. */
  lemma {:induction false} InRunWhenCarried(doc: Doc, r: Range, c: Mark, p: Point, q: Point)
    requires r.start.text < |doc| && !Before(r.end, r.start) && c.Coding?
    requires Contiguous(doc) && IdsNameCodings(doc) && !Hidden(doc, r.start)
    requires Bears(doc, p, c) && Before(p, r.start)
    requires Bears(doc, q, c) && !Before(q, r.end)
    ensures InRun(doc, r, c, q)
  {
    CarriesIsBears(doc, p, p, c);
    CarriesIsBears(doc, p, q, c);
    var pp := PrevCharIsNearest(doc, r.start, p);
    assert pp == p || Between(p, pp, q);
    CarriesIsBears(doc, p, pp, c);
    assert BeforeStart(doc, r.start, c);
    forall s | At(doc, s) && !Before(s, r.end) && !Before(q, s)
      ensures HasId(CharAt(doc, s), c.id)
    {
      assert s == q || Between(p, s, q);
      assert Carries(doc, s, c.id);
    }
  }

  /** The document and its state after a removal, character by character. */
  ghost predicate Removed(doc: Doc, doc': Doc, r: Range, codings: seq<Mark>, ids: seq<Option<int>>) {
    && r.start.text < |doc| && !Before(r.end, r.start)
    && |ids| == |codings| && (forall m | m in codings :: m.Coding?) && FreshIds(doc, codings, ids)
    && SameShape(doc, doc')
    && forall p, m | At(doc, p) :: m in CharAt(doc', p).marks <==> Carried(doc, r, codings, ids, p, m)
  }

  /** A removed coding keeps its carriers outside the selection and outside its run. */
  lemma {:induction false} RemovedIdAfter(doc: Doc, doc': Doc, r: Range, codings: seq<Mark>, ids: seq<Option<int>>,
      home: Point, c: Mark, p: Point)
    requires Removed(doc, doc', r, codings, ids) && IdsNameCodings(doc)
    requires c in codings && Bears(doc, home, c) && At(doc, p)
    ensures Carries(doc', p, c.id) <==> Carries(doc, p, c.id) && !InRange(r, p) && !InRun(doc, r, c, p)
  {
    CarriesIsBears(doc, home, p, c);
    assert Carried(doc, r, codings, ids, p, c) <==> c in CharAt(doc', p).marks;
    if Carries(doc', p, c.id) {
      var m :| m in CharAt(doc', p).marks && m.Coding? && m.id == c.id;
      assert Carried(doc, r, codings, ids, p, m);
      assert Bears(doc, p, m);
    }
  }

  /** A new id has exactly the run of its coding. */
  lemma {:induction false} NewIdAfter(doc: Doc, doc': Doc, r: Range, codings: seq<Mark>, ids: seq<Option<int>>,
      k: nat, p: Point)
    requires Removed(doc, doc', r, codings, ids) && k < |codings| && ids[k].Some? && At(doc, p)
    ensures Carries(doc', p, ids[k].value) <==> InRun(doc, r, codings[k], p)
  {
    var id := ids[k].value;
    var renamed := codings[k].(id := id);
    assert Carried(doc, r, codings, ids, p, renamed) <==> renamed in CharAt(doc', p).marks;
    assert !HasId(CharAt(doc, p), id);
    if InRun(doc, r, codings[k], p) {
      assert IsRenamed(doc, r, codings, ids, p, k, renamed);
    }
    if Carries(doc', p, id) {
      var m :| m in CharAt(doc', p).marks && m.Coding? && m.id == id;
      assert Carried(doc, r, codings, ids, p, m);
      var l :| 0 <= l < |codings| && IsRenamed(doc, r, codings, ids, p, l, m);
      assert l == k;
    }
  }

  /** Any other id stays where it was. */
  lemma {:induction false} OtherIdAfter(doc: Doc, doc': Doc, r: Range, codings: seq<Mark>, ids: seq<Option<int>>,
      id: int, p: Point)
    requires Removed(doc, doc', r, codings, ids) && At(doc, p)
    requires (forall c | c in codings :: c.id != id) && Some(id) !in ids
    ensures Carries(doc', p, id) <==> Carries(doc, p, id)
  {
    if Carries(doc, p, id) {
      var m :| m in CharAt(doc, p).marks && m.Coding? && m.id == id;
      assert Carried(doc, r, codings, ids, p, m);
    }
    if Carries(doc', p, id) {
      var m :| m in CharAt(doc', p).marks && m.Coding? && m.id == id;
      assert Carried(doc, r, codings, ids, p, m);
    }
  }

  /** In the gap case the coding ends up on both sides of the cleared selection. */
  lemma {:induction false} GapBreaks(doc: Doc, doc': Doc, r: Range, codings: seq<Mark>, ids: seq<Option<int>>)
    requires Removed(doc, doc', r, codings, ids) && IdsNameCodings(doc) && Gap(doc, r, codings)
    ensures !Contiguous(doc')
  {
    var c, p, s, q :| GapAt(doc, r, codings, c, p, s, q);
    RemovedIdAfter(doc, doc', r, codings, ids, p, c, p);
    RemovedIdAfter(doc, doc', r, codings, ids, p, c, s);
    RemovedIdAfter(doc, doc', r, codings, ids, p, c, q);
    CarriesIsBears(doc, p, p, c);
    CarriesIsBears(doc, p, q, c);
    assert Between(p, s, q);
  }

  lemma {:induction false} RemovedStaysContiguous(doc: Doc, r: Range, codings: seq<Mark>, home: Point, c: Mark,
      p: Point, q: Point, s: Point)
    requires r.start.text < |doc| && !Before(r.end, r.start) && c in codings && Bears(doc, home, c)
    requires Contiguous(doc) && IdsNameCodings(doc) && !Gap(doc, r, codings)
    requires Carries(doc, p, c.id) && At(doc, q) && Carries(doc, s, c.id) && Between(p, q, s)
    requires !InRange(r, p) && !InRun(doc, r, c, p) && !InRange(r, s) && !InRun(doc, r, c, s)
    ensures Carries(doc, q, c.id) && !InRange(r, q) && !InRun(doc, r, c, q)
  {
    CarriesIsBears(doc, home, p, c);
    CarriesIsBears(doc, home, s, c);
    if InRange(r, q) {
      if !Hidden(doc, r.start) {
        InRunWhenCarried(doc, r, c, p, s);
      } else {
        assert GapAt(doc, r, codings, c, p, q, s);
      }
    } else if InRun(doc, r, c, q) {
      var pp :| JustBefore(doc, pp, r.start) && c in CharAt(doc, pp).marks;
      InRunWhenCarried(doc, r, c, pp, s);
    }
  }

  lemma {:induction false} NoGapKeeps(doc: Doc, doc': Doc, r: Range, codings: seq<Mark>, ids: seq<Option<int>>)
    requires Removed(doc, doc', r, codings, ids) && Contiguous(doc) && IdsNameCodings(doc)
    requires FromDocument(doc, codings) && !Gap(doc, r, codings)
    ensures Contiguous(doc')
  {
    forall id, p, q, s | Carries(doc', p, id) && At(doc', q) && Carries(doc', s, id) && Between(p, q, s)
      ensures Carries(doc', q, id)
    {
      if c :| c in codings && c.id == id {
        var home :| Bears(doc, home, c);
        RemovedIdAfter(doc, doc', r, codings, ids, home, c, p);
        RemovedIdAfter(doc, doc', r, codings, ids, home, c, q);
        RemovedIdAfter(doc, doc', r, codings, ids, home, c, s);
        RemovedStaysContiguous(doc, r, codings, home, c, p, q, s);
      } else if Some(id) in ids {
        var k :| 0 <= k < |ids| && ids[k] == Some(id);
        NewIdAfter(doc, doc', r, codings, ids, k, p);
        NewIdAfter(doc, doc', r, codings, ids, k, q);
        NewIdAfter(doc, doc', r, codings, ids, k, s);
      } else {
        OtherIdAfter(doc, doc', r, codings, ids, id, p);
        OtherIdAfter(doc, doc', r, codings, ids, id, q);
        OtherIdAfter(doc, doc', r, codings, ids, id, s);
      }
    }
  }

  /** Coding ids stay on contiguous runs exactly when the gap case does not occur. */
  lemma {:induction false} ContiguousExactlyWithoutGap(doc: Doc, r: Range, marksAtRange: seq<Mark>, codeId: int,
      ids: seq<Option<int>>)
    requires Setting(doc, r, marksAtRange, codeId, ids)
    ensures Result(doc, r, marksAtRange, codeId, ids).Some?
    ensures Contiguous(Result(doc, r, marksAtRange, codeId, ids).value) <==>
      !Gap(doc, r, CodingsToRemove(marksAtRange, codeId))
  {
    var codings := CodingsToRemove(marksAtRange, codeId);
    RemovalMarks(doc, r, marksAtRange, codeId, ids);
    var doc' := Result(doc, r, marksAtRange, codeId, ids).value;
    if Gap(doc, r, codings) {
      GapBreaks(doc, doc', r, codings, ids);
    } else {
      NoGapKeeps(doc, doc', r, codings, ids);
    }
  }

  /** Afterwards a coding id still stands for one coding, so removals can follow each other. */
  lemma {:induction false} IdsStillNameCodings(doc: Doc, r: Range, marksAtRange: seq<Mark>, codeId: int,
      ids: seq<Option<int>>)
    requires Situation(doc, r, marksAtRange, codeId, ids) && IdsNameCodings(doc)
    ensures Result(doc, r, marksAtRange, codeId, ids).Some?
    ensures IdsNameCodings(Result(doc, r, marksAtRange, codeId, ids).value)
  {
    var codings := CodingsToRemove(marksAtRange, codeId);
    RemovalMarks(doc, r, marksAtRange, codeId, ids);
    var doc' := Result(doc, r, marksAtRange, codeId, ids).value;
    forall p, q, m, n | Bears(doc', p, m) && Bears(doc', q, n) && m.id == n.id
      ensures m == n
    {
      assert Carried(doc, r, codings, ids, p, m) && Carried(doc, r, codings, ids, q, n);
      SameIdSameMark(doc, r, codings, ids, p, q, m, n);
    }
  }

  lemma {:induction false} SameIdSameMark(doc: Doc, r: Range, codings: seq<Mark>, ids: seq<Option<int>>, p: Point,
      q: Point, m: Mark, n: Mark)
    requires r.start.text < |doc| && |ids| == |codings| && (forall c | c in codings :: c.Coding?)
    requires FreshIds(doc, codings, ids) && IdsNameCodings(doc) && At(doc, p) && At(doc, q)
    requires m.Coding? && n.Coding? && m.id == n.id
    requires Carried(doc, r, codings, ids, p, m) && Carried(doc, r, codings, ids, q, n)
    ensures m == n
  {
    if m in CharAt(doc, p).marks {
      assert Bears(doc, p, m) && Bears(doc, q, n);
    } else {
      var k :| 0 <= k < |codings| && IsRenamed(doc, r, codings, ids, p, k, m);
      var l :| 0 <= l < |codings| && IsRenamed(doc, r, codings, ids, q, l, n);
      assert k == l;
    }
  }

  /** The gap case does occur: an empty text node before the selection hides the coded
      character before it. */
  lemma {:induction false} GapExample()
    ensures var c := Coding(1, 7, "", "");
      var coded := Char('x', {c});
      var doc := [[coded], [], [coded, coded]];
      var r := Range(Point(2, 0), Point(2, 1));
      && Setting(doc, r, [c], 7, [None]) && MarksCover(doc, r, [c])
      && !Contiguous(Result(doc, r, [c], 7, [None]).value)
  {
    var c := Coding(1, 7, "", "");
    var coded := Char('x', {c});
    var doc := [[coded], [], [coded, coded]];
    var r := Range(Point(2, 0), Point(2, 1));
    assert CodingsToRemove([c], 7) == [c];
    assert forall p | At(doc, p) :: CharAt(doc, p) == coded;
    assert Bears(doc, Point(0, 0), c);
    assert HasId(coded, 1);
    assert Params(doc, r, [c], [None]).Some? by {
      assert SplitEnd(doc, r, c).None?;
      var failed: seq<Option<int>> := [None];
      assert [c][1..] == [] && failed[1..] == [];
    }
    assert GapAt(doc, r, [c], c, Point(0, 0), Point(2, 0), Point(2, 1));
    ContiguousExactlyWithoutGap(doc, r, [c], 7, [None]);
  }
}
