/** Handlers that put codings on a document and take them off, in the protocol: when every
    document of a run has sound codings. */
module CodingSafety {
  import opened Wrappers
  import opened SlateModel
  import opened RangeToPaths
  import opened CodingRemoval
  import opened CodingExactness
  import opened CodingContiguity
  import opened CodingRuns
  import opened DocumentService
  import opened LockSafety
  import opened TextSafety

  /** A coding for a range, or a code to take off a range. */
  datatype Task =
    | PutOn(range: Range, coding: Mark)
    | TakeOff(range: Range, codeId: int, marksAtRange: Doc -> seq<Mark>, ids: nat -> Option<int>)

  /** The client computes the operations for a new coding on its own copy of the document
      (war/assets/js/pages/coding-editor/Documents/DocumentsView.jsx:256-275). */
  function JobFor(copy: Doc, t: Task): Job
    requires t.PutOn? ==> t.range.end.text < |copy|
  {
    match t
    case PutOn(range, coding) => AddCoding(MarkOperations(AddOps(SpansFrom(copy, range, range.start.text), coding)))
    case TakeOff(range, codeId, marksAtRange, ids) => RemoveCoding(range, codeId, marksAtRange, ids)
  }

  /** The coding ids that a handler brings: those that incrCodingId has answered, if it has. */
  function IdOf(t: Task, k: nat): Option<int> {
    match t
    case PutOn(_, coding) => if k == 0 && coding.Coding? then Some(coding.id) else None
    case TakeOff(_, _, _, ids) => ids(k)
  }

  /** What the client sends: a range from its start to its end (SlateUtils.rangeToPathRange), on
      its copy for a new coding; Slate finds the marks in the document. */
  ghost predicate TaskFits(doc: Doc, t: Task) {
    && !Before(t.range.end, t.range.start)
    && (t.PutOn? ==> t.coding.Coding? && t.range.end.text < |doc|)
    && (t.TakeOff? ==> forall d, m | m in t.marksAtRange(d) && m.Coding? :: exists p :: Bears(d, p, m))
  }

  ghost predicate Performs(c: Config, tasks: map<Handler, Task>) {
    && WellFormed(c) && tasks.Keys == c.servers.Keys
    && (forall h | h in tasks :: TaskFits(c.initial, tasks[h]))
    && forall h, doc | h in tasks :: c.edits[h](doc) == Outcome(JobFor(c.initial, tasks[h]), doc)
  }

  /** No id is given twice, and none that the document has already. The order in which the
      ids are given has nothing to do with the order in which the handlers get the lock. */
  ghost predicate NewIds(doc: Doc, tasks: map<Handler, Task>) {
    && (forall h, k | h in tasks && IdOf(tasks[h], k).Some? :: !UsesId(doc, IdOf(tasks[h], k).value))
    && forall g, k, h, l {:trigger IdOf(tasks[g], k), IdOf(tasks[h], l)} |
         g in tasks && h in tasks && IdOf(tasks[g], k).Some? && IdOf(tasks[g], k) == IdOf(tasks[h], l) ::
         g == h && k == l
  }

  ghost predicate SoundCodings(doc: Doc) {
    IdsNameCodings(doc) && Contiguous(doc)
  }

  predicate HasEdited(s: State, h: Handler) {
    h in s.locals && s.locals[h].pc !in {Waiting, Reading, Editing}
  }

  /** The ids that can be in a document by now. */
  ghost function Used(c: Config, tasks: map<Handler, Task>, s: State): iset<int> {
    iset id: int | UsesId(c.initial, id)
      || exists h, k :: h in tasks && HasEdited(s, h) && IdOf(tasks[h], k) == Some(id)
  }

  ghost predicate DocOk(c: Config, tasks: map<Handler, Task>, s: State, doc: Doc) {
    SameShape(c.initial, doc) && SoundCodings(doc) && Recorded(Project(doc, Used(c, tasks, s)))
  }

  /** Every document that is around: in the backend, in the cache, in a handler's hands. */
  ghost predicate AllOk(c: Config, tasks: map<Handler, Task>, s: State) {
    && DocOk(c, tasks, s, s.backend)
    && (s.cache.Some? ==> DocOk(c, tasks, s, s.cache.value))
    && forall h | h in s.locals :: DocOk(c, tasks, s, s.locals[h].doc)
  }

  ghost predicate AllSound(s: State) {
    && SoundCodings(s.backend)
    && (s.cache.Some? ==> SoundCodings(s.cache.value))
    && forall h | h in s.locals :: SoundCodings(s.locals[h].doc)
  }

  function RequestOf(t: Task, doc: Doc): Request {
    match t
    case PutOn(range, coding) => Add(range, coding)
    case TakeOff(range, codeId, marksAtRange, ids) =>
      var marks := marksAtRange(doc);
      Remove(range, marks, codeId, Answers(ids, |CodingsToRemove(marks, codeId)|))
  }

  /** The handler takes a code off where an empty text node hides the coding before it. */
  ghost predicate TearsAt(tasks: map<Handler, Task>, s: State, step: Step) {
    && step.Edit? && step.h in tasks && step.h in s.locals
    && Tears(s.locals[step.h].doc, RequestOf(tasks[step.h], s.locals[step.h].doc))
  }

  // ----- the edit of one handler -----

  lemma {:induction false} SameSpans(doc: Doc, doc': Doc, r: Range, t: nat)
    requires SameShape(doc, doc') && r.end.text < |doc|
    ensures SpansFrom(doc, r, t) == SpansFrom(doc', r, t)
    decreases r.end.text - t
  {
    if t <= r.end.text {
      SameSpans(doc, doc', r, t + 1);
    }
  }

  /** On any document of the same shape the handler does what the request asks for. */
  lemma {:induction false} HandlerServes(copy: Doc, t: Task, doc: Doc)
    requires TaskFits(copy, t) && SameShape(copy, doc)
    ensures var outcome := Outcome(JobFor(copy, t), doc);
            outcome.Some? ==>
              && t.range.start.text < |doc| && t.range.end.text < |doc|
              && outcome.value == Serve(doc, RequestOf(t, doc))
    ensures t.PutOn? ==> Outcome(JobFor(copy, t), doc).Some?
    ensures t.TakeOff? ==>
      var r := RequestOf(t, doc);
      (Outcome(JobFor(copy, t), doc).None? <==>
         || |doc| <= r.range.start.text || |doc| <= r.range.end.text
         || RemovalOperations(doc, r.range, r.marksAtRange, r.codeId, r.ids).None?)
  {
    if t.PutOn? {
      var ops := AddOps(SpansFrom(doc, t.range, t.range.start.text), t.coding);
      SameSpans(copy, doc, t.range, t.range.start.text);
      MarksApplied(doc, ops);
      AddOpsPaths(doc, t.range, t.range.start.text, t.coding);
      ApplyAllPointwise(doc, ops);
    } else if t.range.start.text < |doc| && t.range.end.text < |doc| {
      var r := RequestOf(t, doc);
      ResultExactly(doc, r.range, r.marksAtRange, r.codeId, r.ids);
    }
  }

  lemma {:induction false} IdsAreNew(c: Config, tasks: map<Handler, Task>, s: State, s': State, h: Handler)
    requires NewIds(c.initial, tasks) && In(s, h, Editing) && h in tasks && HasEdited(s', h)
    ensures forall k | IdOf(tasks[h], k).Some? ::
      IdOf(tasks[h], k).value !in Used(c, tasks, s) && IdOf(tasks[h], k).value in Used(c, tasks, s')
  {
    assert !HasEdited(s, h);
  }

  /** Whoever has not edited brings ids that are in no document yet. */
  lemma {:induction false} EditIsServed(c: Config, tasks: map<Handler, Task>, s: State, s': State, h: Handler)
    requires Performs(c, tasks) && NewIds(c.initial, tasks) && In(s, h, Editing) && h in tasks
    requires DocOk(c, tasks, s, s.locals[h].doc) && HasEdited(s', h)
    requires Used(c, tasks, s) <= Used(c, tasks, s')
    requires tasks[h].range.start.text < |c.initial| && tasks[h].range.end.text < |c.initial|
    ensures var doc := s.locals[h].doc; var r := RequestOf(tasks[h], doc);
            && r.range.start.text < |doc| && r.range.end.text < |doc|
            && Served(Project(doc, Used(c, tasks, s)), r, Project(Serve(doc, r), Used(c, tasks, s')))
  {
    hide Used, HasEdited, Serve, Recorded, SoundCodings;
    var t, doc := tasks[h], s.locals[h].doc;
    IdsAreNew(c, tasks, s, s', h);
    var r := RequestOf(t, doc);
    if t.PutOn? {
      assert IdOf(t, 0) == Some(t.coding.id);
    } else {
      forall k | 0 <= k < |r.ids| ensures r.ids[k] == IdOf(t, k) {}
    }
  }

  lemma {:induction false} ServedKeepsShape(p: Project, r: Request, q: Project)
    requires Served(p, r, q) && CodingRuns.Sound(p)
    ensures SameShape(p.doc, q.doc)
  {
    if r.Add? {
      AddedMarks(p.doc, r.range, r.coding);
    } else if RemovalOperations(p.doc, r.range, r.marksAtRange, r.codeId, r.ids).Some? {
      DrawnIsFresh(p, CodingsToRemove(r.marksAtRange, r.codeId), r.ids, q.used);
      RemovalMarks(p.doc, r.range, r.marksAtRange, r.codeId, r.ids);
    }
  }

  lemma {:induction false} EditStep(c: Config, tasks: map<Handler, Task>, s: State, s': State, h: Handler)
    requires Performs(c, tasks) && NewIds(c.initial, tasks) && In(s, h, Editing) && h in tasks
    requires DocOk(c, tasks, s, s.locals[h].doc) && HasEdited(s', h)
    requires Used(c, tasks, s) <= Used(c, tasks, s')
    requires c.edits[h](s.locals[h].doc).Some?
    ensures var doc' := c.edits[h](s.locals[h].doc).value;
      && (!TearsAt(tasks, s, Edit(h)) ==> DocOk(c, tasks, s', doc'))
      && (TearsAt(tasks, s, Edit(h)) ==> !Contiguous(doc'))
  {
    var doc := s.locals[h].doc;
    var r := RequestOf(tasks[h], doc);
    HandlerServes(c.initial, tasks[h], doc);
    EditIsServed(c, tasks, s, s', h);
    hide Used, HasEdited, Serve, NewIds, Recorded, IdsNameCodings, Contiguous, Performs;
    var p, q := Project(doc, Used(c, tasks, s)), Project(Serve(doc, r), Used(c, tasks, s'));
    ServedKeepsShape(p, r, q);
    if r.Add? {
      AddStep(p, r, q);
    } else {
      RemoveStep(p, r, q);
    }
  }

  // ----- whole runs -----

  lemma {:induction false} EditedStays(c: Config, tasks: map<Handler, Task>, s: State, step: Step)
    requires WellFormed(c) && s.locals.Keys == c.servers.Keys && Enabled(s, step)
    ensures forall h | HasEdited(s, h) :: HasEdited(Do(c, s, step), h)
    ensures Used(c, tasks, s) <= Used(c, tasks, Do(c, s, step))
    ensures step.Edit? ==> HasEdited(Do(c, s, step), step.h)
  {
    StepFrame(c, s, step);
    if ByHandler(step) {
      PastEditing(c, s, step);
    }
    hide Do, HasEdited, Enabled, IdOf, UsesId;
  }

  lemma {:induction false} PastEditing(c: Config, s: State, step: Step)
    requires WellFormed(c) && s.locals.Keys == c.servers.Keys && Enabled(s, step) && ByHandler(step)
    ensures HasEdited(s, step.h) ==> HasEdited(Do(c, s, step), step.h)
    ensures step.Edit? ==> HasEdited(Do(c, s, step), step.h)
  {}

  /** A document comes from a place where it was before, or from an edit. */
  predicate Around(s: State, doc: Doc) {
    doc == s.backend || s.cache == Some(doc) || exists h :: h in s.locals && s.locals[h].doc == doc
  }

  /** What a step of a handler puts into the backend, the cache and its own hands. */
  lemma {:induction false} MovesDocuments(c: Config, s: State, step: Step)
    requires WellFormed(c) && s.locals.Keys == c.servers.Keys && Enabled(s, step)
    ensures var s' := Do(c, s, step);
      && (s'.backend == s.backend || (step.Upload? && s'.backend == s.locals[step.h].doc))
      && (s'.cache.None? || s'.cache == s.cache || (step.Store? && s'.cache == Some(s.locals[step.h].doc)))
    ensures ByHandler(step) ==> step.h in s.locals && step.h in Do(c, s, step).locals
    ensures ByHandler(step) ==>
      var doc, doc' := s.locals[step.h].doc, Do(c, s, step).locals[step.h].doc;
      || doc' == doc || doc' == s.backend || s.cache == Some(doc')
      || (step.Edit? && c.edits[step.h](doc) == Some(doc'))
  {}

  lemma {:induction false} WhereFrom(c: Config, s: State, step: Step, doc: Doc)
    requires WellFormed(c) && s.locals.Keys == c.servers.Keys && Enabled(s, step)
    requires Around(Do(c, s, step), doc)
    ensures Around(s, doc) || (step.Edit? && c.edits[step.h](s.locals[step.h].doc) == Some(doc))
  {
    StepFrame(c, s, step);
    MovesDocuments(c, s, step);
    hide Do, Enabled;
    var s' := Do(c, s, step);
    if h :| h in s'.locals && s'.locals[h].doc == doc {
      assert (ByHandler(step) && h == step.h) || s'.locals[h] == s.locals[h];
    }
    assert ByHandler(step) ==> Around(s, s.locals[step.h].doc);
  }

  lemma {:induction false} AroundOk(c: Config, tasks: map<Handler, Task>, s: State)
    ensures AllOk(c, tasks, s) <==> forall doc | Around(s, doc) :: DocOk(c, tasks, s, doc)
  {
    hide DocOk;
    if forall doc | Around(s, doc) :: DocOk(c, tasks, s, doc) {
      assert Around(s, s.backend) && (s.cache.Some? ==> Around(s, s.cache.value));
      assert forall h | h in s.locals :: Around(s, s.locals[h].doc);
    }
  }

  lemma {:induction false} CodingStep(c: Config, tasks: map<Handler, Task>, s: State, step: Step)
    requires Performs(c, tasks) && NewIds(c.initial, tasks) && s.locals.Keys == c.servers.Keys && Enabled(s, step)
    requires AllOk(c, tasks, s)
    ensures !TearsAt(tasks, s, step) ==> AllOk(c, tasks, Do(c, s, step))
    ensures TearsAt(tasks, s, step) ==> !AllSound(Do(c, s, step))
  {
    var s' := Do(c, s, step);
    EditedStays(c, tasks, s, step);
    AroundOk(c, tasks, s);
    AroundOk(c, tasks, s');
    if step.Edit? {
      EditResult(c, s, step.h);
    }
    hide Do, Used, NewIds, AllOk, IdsNameCodings, Contiguous, HasEdited, DocOk;
    if step.Edit? && c.edits[step.h](s.locals[step.h].doc).Some? {
      EditStep(c, tasks, s, s', step.h);
    }
    if TearsAt(tasks, s, step) {
      TearingEdits(c, tasks, s, s', step.h);
    } else {
      forall doc | Around(s', doc) ensures DocOk(c, tasks, s', doc) {
        WhereFrom(c, s, step, doc);
      }
    }
  }

  lemma {:induction false} EditResult(c: Config, s: State, h: Handler)
    requires WellFormed(c) && s.locals.Keys == c.servers.Keys && In(s, h, Editing)
    ensures Around(s, s.locals[h].doc)
    ensures c.edits[h](s.locals[h].doc).Some? ==>
      h in Do(c, s, Edit(h)).locals && Do(c, s, Edit(h)).locals[h].doc == c.edits[h](s.locals[h].doc).value
  {}

  /** An edit that tears a coding does not fail. */
  lemma {:induction false} TearingEdits(c: Config, tasks: map<Handler, Task>, s: State, s': State, h: Handler)
    requires Performs(c, tasks) && NewIds(c.initial, tasks) && In(s, h, Editing) && h in tasks
    requires DocOk(c, tasks, s, s.locals[h].doc) && TearsAt(tasks, s, Edit(h))
    requires HasEdited(s', h) && Used(c, tasks, s) <= Used(c, tasks, s')
    ensures c.edits[h](s.locals[h].doc).Some?
  {
    hide Used, HasEdited, NewIds, Contiguous, IdsNameCodings, Gap, Recorded, RemovalOperations, Serve;
    var doc := s.locals[h].doc;
    var r := RequestOf(tasks[h], doc);
    EditIsServed(c, tasks, s, s', h);
    DrawnIsFresh(Project(doc, Used(c, tasks, s)), CodingsToRemove(r.marksAtRange, r.codeId), r.ids,
                 Used(c, tasks, s'));
    RemovalMarks(doc, r.range, r.marksAtRange, r.codeId, r.ids);
  }

  lemma {:induction false} StartsOk(c: Config, tasks: map<Handler, Task>)
    requires Performs(c, tasks) && SoundCodings(c.initial)
    ensures AllOk(c, tasks, InitState(c))
  {
    forall at, m | Bears(c.initial, at, m) ensures m.id in Used(c, tasks, InitState(c)) {
      assert UsesId(c.initial, m.id);
    }
  }

  lemma {:induction false} RunOk(c: Config, tasks: map<Handler, Task>, states: seq<State>, steps: seq<Step>, i: nat)
    requires Performs(c, tasks) && NewIds(c.initial, tasks) && SoundCodings(c.initial)
    requires DocumentService.IsRun(c, states, steps) && i < |states|
    requires forall k | 0 <= k < i :: !TearsAt(tasks, states[k], steps[k])
    ensures AllOk(c, tasks, states[i])
  {
    hide AllOk, TearsAt, NewIds, SoundCodings, Performs;
    if i == 0 {
      StartsOk(c, tasks);
    } else {
      RunOk(c, tasks, states, steps, i - 1);
      CodingStep(c, tasks, states[i - 1], steps[i - 1]);
    }
  }

  /** In every run, timely or not, whatever fails or expires and however the handlers
      interleave: in every document in the backend, in the cache and in a handler's hands each
      coding id stands for one coding on one contiguous run of characters, exactly when no
      handler takes a code off where an empty text node hides the coding before it. */
  lemma {:induction false} CodingsSoundExactly(c: Config, tasks: map<Handler, Task>, states: seq<State>,
      steps: seq<Step>)
    requires Performs(c, tasks) && NewIds(c.initial, tasks) && SoundCodings(c.initial)
    requires DocumentService.IsRun(c, states, steps)
    ensures (forall s | s in states :: AllSound(s))
       <==> forall i | 0 <= i < |steps| :: !TearsAt(tasks, states[i], steps[i])
  {
    if i :| 0 <= i < |steps| && TearsAt(tasks, states[i], steps[i]) {
      var k := FirstTear(tasks, states, steps, i);
      RunOk(c, tasks, states, steps, k);
      CodingStep(c, tasks, states[k], steps[k]);
      assert states[k + 1] in states;
    } else {
      forall s | s in states ensures AllSound(s) {
        var i :| 0 <= i < |states| && states[i] == s;
        RunOk(c, tasks, states, steps, i);
      }
    }
  }

  lemma {:induction false} FirstTear(tasks: map<Handler, Task>, states: seq<State>, steps: seq<Step>, i: nat)
    returns (k: nat)
    requires i < |steps| < |states| && TearsAt(tasks, states[i], steps[i])
    ensures k <= i && TearsAt(tasks, states[k], steps[k])
    ensures forall j | 0 <= j < k :: !TearsAt(tasks, states[j], steps[j])
  {
    hide TearsAt;
    if j :| 0 <= j < i && TearsAt(tasks, states[j], steps[j]) {
      k := FirstTear(tasks, states, steps, j);
    } else {
      k := i;
    }
  }
}
