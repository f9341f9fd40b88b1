/** The two handlers put into the protocol: when the text of the document survives. The service
    applies whatever operations a client sends, so a client can change the text; a handler that
    takes a code off cannot. */
module TextSafety {
  import opened Wrappers
  import opened SlateModel
  import opened RangeToPaths
  import opened CodingRemoval
  import opened CodingExactness
  import opened DocumentService
  import opened LockSafety
  import opened HandlerSections

  /** What a handler was asked to do: apply the sender's operations, or take a code off a
      range. `marksAtRange` is Slate's answer for the document, `ids` are the answers of
      incrCodingId. */
  datatype Job =
    | AddCoding(os: seq<Operation>)
    | RemoveCoding(r: Range, codeId: int, marksAtRange: Doc -> seq<Mark>, ids: nat -> Option<int>)

  /** A path that leads to no text node throws. */
  function Outcome(job: Job, doc: Doc): Option<Doc> {
    match job
    case AddCoding(os) => ApplyEach(doc, os)
    case RemoveCoding(r, codeId, marksAtRange, ids) =>
      if r.start.text >= |doc| || r.end.text >= |doc| then None
      else
        var marks := marksAtRange(doc);
        Result(doc, r, marks, codeId, Answers(ids, |CodingsToRemove(marks, codeId)|))
  }

  function Answers(ids: nat -> Option<int>, n: nat): seq<Option<int>> {
    seq(n, k requires 0 <= k < n => ids(k))
  }

  ghost predicate Runs(c: Config, jobs: map<Handler, Job>) {
    && WellFormed(c) && jobs.Keys == c.servers.Keys
    && forall h, doc | h in c.edits :: c.edits[h](doc) == Outcome(jobs[h], doc)
  }

  // ----- the text alone -----

  function Plain(chars: Text): string {
    seq(|chars|, i requires 0 <= i < |chars| => chars[i].text)
  }

  function TextOf(doc: Doc): seq<string> {
    seq(|doc|, t requires 0 <= t < |doc| => Plain(doc[t]))
  }

  function OnTexts(texts: seq<string>, o: Operation): Option<seq<string>> {
    if Fits(o, |texts|) then Some(Rearranged(texts, o, Plain(Brought(o)))) else None
  }

  function EachOnTexts(texts: seq<string>, os: seq<Operation>): Option<seq<string>>
    decreases os
  {
    if os == [] then Some(texts)
    else match OnTexts(texts, os[0])
      case None => None
      case Some(texts') => EachOnTexts(texts', os[1..])
  }

  lemma {:induction false} PlainConcat(a: Text, b: Text)
    ensures Plain(a + b) == Plain(a) + Plain(b)
  {}

  lemma {:induction false} PlainCut(chars: Text, k: nat)
    requires k <= |chars|
    ensures Plain(chars[..k]) == Plain(chars)[..k] && Plain(chars[k..]) == Plain(chars)[k..]
  {}

  lemma {:induction false} TextOfConcat(a: Doc, b: Doc)
    ensures TextOf(a + b) == TextOf(a) + TextOf(b)
  {}

  lemma {:induction false} TextOfCut(doc: Doc, k: nat)
    requires k <= |doc|
    ensures TextOf(doc[..k]) == TextOf(doc)[..k] && TextOf(doc[k..]) == TextOf(doc)[k..]
  {}

  lemma {:induction false} OneTextChanged(doc: Doc, path: nat, chars: Text)
    requires path < |doc|
    ensures TextOf(doc[path := chars]) == TextOf(doc)[path := Plain(chars)]
  {}

  /** Text nodes put in the place of those from one index up to another. */
  lemma {:induction false} Spliced(doc: Doc, from: nat, to: nat, news: Doc)
    requires from <= to <= |doc|
    ensures TextOf(doc[..from] + news + doc[to..]) == TextOf(doc)[..from] + TextOf(news) + TextOf(doc)[to..]
  {
    TextOfCut(doc, from);
    TextOfCut(doc, to);
    TextOfConcat(doc[..from] + news, doc[to..]);
    TextOfConcat(doc[..from], news);
  }

  /** Within one text node. */
  lemma {:induction false} EditedWithin(chars: Text, k: nat, l: nat, new': Text)
    requires k <= l <= |chars|
    ensures Plain(chars[..k] + new' + chars[l..]) == Plain(chars)[..k] + Plain(new') + Plain(chars)[l..]
  {
    PlainCut(chars, k);
    PlainCut(chars, l);
    PlainConcat(chars[..k] + new', chars[l..]);
    PlainConcat(chars[..k], new');
  }

  lemma {:induction false} Lengths(doc: Doc)
    ensures |TextOf(doc)| == |doc|
    ensures forall t | 0 <= t < |doc| :: TextOf(doc)[t] == Plain(doc[t]) && |TextOf(doc)[t]| == |doc[t]|
  {}

  lemma {:induction false} TextOfNew(a: Text, b: Text)
    ensures TextOf([]) == [] && TextOf([a]) == [Plain(a)] && TextOf([a, b]) == [Plain(a), Plain(b)]
  {}

  lemma {:induction false} RearrangedTexts(doc: Doc, o: Operation, new': Text)
    requires Fits(o, |doc|)
    ensures TextOf(Rearranged(doc, o, new')) == Rearranged(TextOf(doc), o, Plain(new'))
  {
    hide TextOf, Plain;
    Lengths(doc);
    TextOfNew(new', new');
    match o
    case OnMarks(_) =>
    case SetMark(_, _, _, _, _) =>
    case InsertText(path, offset, _, _) =>
      var k := Clip(offset, |doc[path]|);
      EditedWithin(doc[path], k, k, new');
      OneTextChanged(doc, path, doc[path][..k] + new' + doc[path][k..]);
    case RemoveText(path, offset, length) =>
      var k, l := Clip(offset, |doc[path]|), Clip(offset + length, |doc[path]|);
      WithinRemoved(doc[path], k, l);
      OneTextChanged(doc, path, doc[path][..k] + doc[path][l..]);
    case InsertNode(path, _) => Spliced(doc, path, path, [new']);
    case RemoveNode(path) =>
      Spliced(doc, path, path + 1, []);
      assert doc[..path] + [] == doc[..path] && TextOf(doc)[..path] + [] == TextOf(doc)[..path];
    case SplitNode(path, position) =>
      var k := Clip(position, |doc[path]|);
      PlainCut(doc[path], k);
      TextOfNew(doc[path][..k], doc[path][k..]);
      Spliced(doc, path, path + 1, [doc[path][..k], doc[path][k..]]);
    case MergeNode(path) =>
      PlainConcat(doc[path - 1], doc[path]);
      TextOfNew(doc[path - 1] + doc[path], new');
      Spliced(doc, path - 1, path + 1, [doc[path - 1] + doc[path]]);
    case MoveNode(path, newPath) =>
      var others := doc[..path] + doc[path + 1..];
      Spliced(doc, path, path + 1, []);
      assert doc[..path] + [] == doc[..path] && TextOf(doc)[..path] + [] == TextOf(doc)[..path];
      TextOfNew(doc[path], new');
      Spliced(others, newPath, newPath, [doc[path]]);
  }

  lemma {:induction false} WithinRemoved(chars: Text, k: nat, l: nat)
    requires k <= l <= |chars|
    ensures Plain(chars[..k] + chars[l..]) == Plain(chars)[..k] + Plain(chars)[l..]
  {
    PlainCut(chars, k);
    PlainCut(chars, l);
    PlainConcat(chars[..k], chars[l..]);
  }

  lemma {:induction false} MarksAside(doc: Doc, o: Operation)
    requires o.OnMarks? || o.SetMark?
    ensures ApplyOperation(doc, o).Some? ==> TextOf(ApplyOperation(doc, o).value) == TextOf(doc)
  {
    if Fits(o, |doc|) {
      var path := if o.OnMarks? then o.op.path else o.path;
      var doc' := ApplyOperation(doc, o).value;
      assert doc' == doc[path := doc'[path]] && Plain(doc'[path]) == Plain(doc[path]);
      OneTextChanged(doc, path, doc'[path]);
    }
  }

  /** The text after an operation depends on the text before it only. */
  lemma {:induction false} TextFollows(doc: Doc, o: Operation)
    ensures ApplyOperation(doc, o).Some? <==> OnTexts(TextOf(doc), o).Some?
    ensures ApplyOperation(doc, o).Some? ==> OnTexts(TextOf(doc), o) == Some(TextOf(ApplyOperation(doc, o).value))
  {
    if Fits(o, |doc|) {
      if o.OnMarks? || o.SetMark? {
        MarksAside(doc, o);
      } else {
        RearrangedTexts(doc, o, Brought(o));
      }
    }
  }

  lemma {:induction false} EachFollows(doc: Doc, os: seq<Operation>)
    ensures ApplyEach(doc, os).Some? <==> EachOnTexts(TextOf(doc), os).Some?
    ensures ApplyEach(doc, os).Some? ==> EachOnTexts(TextOf(doc), os) == Some(TextOf(ApplyEach(doc, os).value))
    decreases os
  {
    if os != [] {
      TextFollows(doc, os[0]);
      hide OnTexts, ApplyOperation, TextOf;
      if ApplyOperation(doc, os[0]).Some? {
        EachFollows(ApplyOperation(doc, os[0]).value, os[1..]);
      }
    }
  }

  // ----- one operation, one handler -----

  /** The operations that leave text alone. The first text node cannot be merged with one
      before it. */
  predicate Silent(o: Operation) {
    match o
    case OnMarks(_) => true
    case SetMark(_, _, _, _, _) => true
    case InsertText(_, _, text, _) => text == ""
    case RemoveText(_, _, length) => length == 0
    case MergeNode(path) => path == 0
    case MoveNode(path, newPath) => path == newPath
    case _ => false
  }

  lemma {:induction false} SilentKeeps(doc: Doc, o: Operation)
    requires Silent(o) && ApplyOperation(doc, o).Some?
    ensures TextOf(ApplyOperation(doc, o).value) == TextOf(doc)
  {
    TextFollows(doc, o);
    var texts := TextOf(doc);
    match o
    case InsertText(path, offset, _, _) =>
      var k := Clip(offset, |texts[path]|);
      assert Plain(Brought(o)) == "" && texts[path][..k] + "" + texts[path][k..] == texts[path];
    case RemoveText(path, offset, _) =>
      var k := Clip(offset, |texts[path]|);
      assert texts[path][..k] + texts[path][k..] == texts[path];
    case MoveNode(path, _) =>
      var others := texts[..path] + texts[path + 1..];
      assert others[..path] + [texts[path]] + others[path..] == texts;
    case _ =>
  }

  /** A document with n texts, no two of the same length, all longer than the offset. */
  function Sample(n: nat, offset: nat): Doc {
    seq(n, t requires 0 <= t < n => seq(offset + 1 + t, i => Char('x', {})))
  }

  function SampleFor(o: Operation): Doc {
    match o
    case OnMarks(op) => Sample(op.path + 1, 0)
    case RemoveText(path, offset, _) => Sample(path + 1, offset)
    case MoveNode(path, newPath) => Sample(path + newPath + 1, 0)
    case _ => Sample(o.path + 1, 0)
  }

  /** The sample has more or fewer texts afterwards, or one of another length. */
  lemma {:induction false} SampleChanges(o: Operation)
    requires !Silent(o)
    ensures Fits(o, |SampleFor(o)|) && !o.OnMarks? && !o.SetMark?
    ensures var doc := SampleFor(o); var doc' := Rearranged(doc, o, Brought(o));
      if o.InsertText? || o.RemoveText? then |doc'| == |doc| && |doc'[o.path]| != |doc[o.path]|
      else if o.MoveNode? then |doc'| == |doc| && |doc'[o.newPath]| != |doc[o.newPath]|
      else |doc'| != |doc|
  {}

  lemma {:induction false} LoudChanges(o: Operation)
    requires !Silent(o)
    ensures ApplyOperation(SampleFor(o), o).Some?
    ensures TextOf(ApplyOperation(SampleFor(o), o).value) != TextOf(SampleFor(o))
  {
    SampleChanges(o);
    hide Rearranged, Brought, SampleFor, Silent, TextOf;
    Lengths(SampleFor(o));
    Lengths(ApplyOperation(SampleFor(o), o).value);
  }

  /** An operation keeps the texts of every document exactly when it is a mark operation, inserts
      or removes nothing, or moves a text to where it is. */
  lemma {:induction false} SilentExactly(o: Operation)
    ensures Silent(o)
       <==> forall doc | ApplyOperation(doc, o).Some? :: TextOf(ApplyOperation(doc, o).value) == TextOf(doc)
  {
    if Silent(o) {
      forall doc | ApplyOperation(doc, o).Some? ensures TextOf(ApplyOperation(doc, o).value) == TextOf(doc) {
        SilentKeeps(doc, o);
      }
    } else {
      LoudChanges(o);
    }
  }

  predicate KeepsText(job: Job, doc: Doc) {
    Outcome(job, doc).Some? ==> TextOf(Outcome(job, doc).value) == TextOf(doc)
  }

  /** Whether a sender's operations keep the text depends on the text only. */
  lemma {:induction false} KeepsTextAlike(os: seq<Operation>, doc: Doc, doc': Doc)
    requires TextOf(doc) == TextOf(doc') && KeepsText(AddCoding(os), doc)
    ensures KeepsText(AddCoding(os), doc')
  {
    EachFollows(doc, os);
    EachFollows(doc', os);
  }

  lemma {:induction false} MarksKeep(doc: Doc, ops: seq<Op>)
    requires ApplyAll(doc, ops).Some?
    ensures TextOf(ApplyAll(doc, ops).value) == TextOf(doc)
    decreases ops
  {
    if ops != [] {
      SilentKeeps(doc, OnMarks(ops[0]));
      hide TextOf;
      MarksKeep(ApplyOp(doc, ops[0]).value, ops[1..]);
    }
  }

  /** Taking a code off keeps the text, whatever range, code and ids the handler is given. */
  lemma {:induction false} RemovalKeepsText(job: Job, doc: Doc)
    requires job.RemoveCoding?
    ensures KeepsText(job, doc)
  {
    hide RemovalOperations, TextOf, CodingsToRemove;
    if Outcome(job, doc).Some? {
      var marks := job.marksAtRange(doc);
      var ids := Answers(job.ids, |CodingsToRemove(marks, job.codeId)|);
      MarksKeep(doc, RemovalOperations(doc, job.r, marks, job.codeId, ids).value);
    }
  }

  /** So do operations of a sender that leave text alone, one by one. */
  lemma {:induction false} SilentOperationsKeep(os: seq<Operation>, doc: Doc)
    requires forall o | o in os :: Silent(o)
    ensures KeepsText(AddCoding(os), doc)
    decreases os
  {
    if os != [] && ApplyOperation(doc, os[0]).Some? {
      SilentKeeps(doc, os[0]);
      hide ApplyOperation, TextOf, Silent;
      SilentOperationsKeep(os[1..], ApplyOperation(doc, os[0]).value);
    }
  }

  // ----- whole runs -----

  /** Every document that is around: in the backend, in the cache, in a handler's hands. */
  ghost predicate AllSameText(c: Config, s: State) {
    && TextOf(s.backend) == TextOf(c.initial)
    && (s.cache.Some? ==> TextOf(s.cache.value) == TextOf(c.initial))
    && forall h | h in s.locals :: TextOf(s.locals[h].doc) == TextOf(c.initial)
  }

  ghost predicate AllKeepText(c: Config, jobs: map<Handler, Job>) {
    forall h | h in jobs :: KeepsText(jobs[h], c.initial)
  }

  lemma {:induction false} EditKeepsText(c: Config, jobs: map<Handler, Job>, h: Handler, doc: Doc)
    requires Runs(c, jobs) && AllKeepText(c, jobs) && h in c.edits && TextOf(doc) == TextOf(c.initial)
    requires c.edits[h](doc).Some?
    ensures TextOf(c.edits[h](doc).value) == TextOf(c.initial)
  {
    if jobs[h].AddCoding? {
      KeepsTextAlike(jobs[h].os, c.initial, doc);
    } else {
      RemovalKeepsText(jobs[h], doc);
    }
    assert KeepsText(jobs[h], doc);
  }

  lemma {:induction false} StepKeepsText(c: Config, jobs: map<Handler, Job>, s: State, step: Step)
    requires Runs(c, jobs) && AllKeepText(c, jobs) && s.locals.Keys == c.servers.Keys && Enabled(s, step)
    requires AllSameText(c, s)
    ensures AllSameText(c, Do(c, s, step))
  {
    hide TextOf, Outcome, KeepsText;
    StepFrame(c, s, step);
    if step.Edit? && c.edits[step.h](s.locals[step.h].doc).Some? {
      EditKeepsText(c, jobs, step.h, s.locals[step.h].doc);
    }
  }

  lemma {:induction false} RunKeepsText(c: Config, jobs: map<Handler, Job>, states: seq<State>, steps: seq<Step>,
      i: nat)
    requires Runs(c, jobs) && AllKeepText(c, jobs) && IsRun(c, states, steps) && i < |states|
    ensures AllSameText(c, states[i])
  {
    hide TextOf, KeepsText;
    if i > 0 {
      RunKeepsText(c, jobs, states, steps, i - 1);
      StepKeepsText(c, jobs, states[i - 1], steps[i - 1]);
    }
  }

  lemma {:induction false} LoudHandler(c: Config, jobs: map<Handler, Job>, h: Handler)
    requires Runs(c, jobs) && h in jobs && !KeepsText(jobs[h], c.initial)
    ensures exists s :: Reached(c, s) && !AllSameText(c, s)
  {
    var after := Outcome(jobs[h], c.initial).value;
    hide Outcome, Reached, TextOf;
    InitReached(c);
    var s := WholeSection(c, InitState(c), h, true);
    assert s.backend == after;
  }

  ghost predicate TextSurvives(c: Config)
    requires WellFormed(c)
  {
    forall states, steps | IsRun(c, states, steps) :: forall s | s in states :: AllSameText(c, s)
  }

  /** The text of the document stays what it was in every run, timely or not, whatever fails or
      expires and however the handlers interleave, exactly when every handler alone would keep
      it on the original document. */
  lemma {:induction false} TextSurvivesExactly(c: Config, jobs: map<Handler, Job>)
    requires Runs(c, jobs)
    ensures TextSurvives(c) <==> AllKeepText(c, jobs)
  {
    hide KeepsText, AllSameText;
    if AllKeepText(c, jobs) {
      forall states, steps, s | IsRun(c, states, steps) && s in states ensures AllSameText(c, s) {
        var i :| 0 <= i < |states| && states[i] == s;
        RunKeepsText(c, jobs, states, steps, i);
      }
    } else {
      var h :| h in jobs && !KeepsText(jobs[h], c.initial);
      LoudHandler(c, jobs, h);
      var s :| Reached(c, s) && !AllSameText(c, s);
      var states, steps :| IsTimelyRun(c, states, steps) && states[|steps|] == s;
      assert IsRun(c, states, steps) && s in states;
    }
  }

  /** In particular when clients send operations that leave text alone only. */
  lemma {:induction false} TextNeverChanges(c: Config, jobs: map<Handler, Job>)
    requires Runs(c, jobs)
    requires forall h | h in jobs && jobs[h].AddCoding? :: forall o | o in jobs[h].os :: Silent(o)
    ensures TextSurvives(c)
  {
    forall h | h in jobs ensures KeepsText(jobs[h], c.initial) {
      if jobs[h].AddCoding? {
        SilentOperationsKeep(jobs[h].os, c.initial);
      } else {
        RemovalKeepsText(jobs[h], c.initial);
      }
    }
    TextSurvivesExactly(c, jobs);
  }
}
