/** What the handlers' edits add up to, when the lock keeps the handlers apart. */
module SerialisedEdits {
  import opened Wrappers
  import opened SlateModel
  import opened DocumentService
  import opened LockSafety
  import opened HandlerSections

  /** The initial document with the edits of the successful handlers applied once each, in
      the order in which the handlers got the lock; None if one of them cannot be applied. */
  function Replay(c: Config, successful: set<Handler>, order: seq<Handler>): Option<Doc>
    requires forall h | h in order :: h in c.edits
  {
    if order == [] then Some(c.initial)
    else
      var h := order[|order| - 1];
      match Replay(c, successful, order[..|order| - 1])
      case None => None
      case Some(before) => if h in successful then c.edits[h](before) else Some(before)
  }

  function Successful(s: State): set<Handler> {
    set h | h in s.locals && s.locals[h].ok
  }

  predicate CacheIs(s: State, doc: Doc) {
    s.cache.None? || s.cache.value == doc
  }

  predicate Distinct(order: seq<Handler>) {
    forall i, j | 0 <= i < j < |order| :: order[i] != order[j]
  }

  /** Who got the lock, in which order; the handler in its critical section got it last. */
  ghost predicate History(c: Config, s: State)
    requires WellFormed(c)
  {
    && s.locals.Keys == c.servers.Keys
    && Distinct(s.acquisitions)
    && (forall h :: h in s.acquisitions <==> h in s.locals && s.locals[h].acquired)
    && (forall h | h in s.locals :: LocalOk(s.locals[h]) && (s.locals[h].ok ==> s.locals[h].acquired))
    && forall h | Critical(s, h) :: s.acquisitions[|s.acquisitions| - 1] == h
  }

  /** The documents while handler h is in its critical section. */
  predicate SectionOk(c: Config, s: State, h: Handler)
    requires WellFormed(c) && h in s.locals && h in c.edits
  {
    var l := s.locals[h];
    match l.pc
    case Reading => !l.ok && CacheIs(s, s.backend)
    case Editing => !l.ok && CacheIs(s, s.backend) && l.doc == s.backend
    case Storing => !l.ok && CacheIs(s, s.backend) && c.edits[h](s.backend) == Some(l.doc)
    case Refreshing => !l.ok && CacheIs(s, l.doc) && c.edits[h](s.backend) == Some(l.doc)
    case Extending => !l.ok && CacheIs(s, l.doc) && c.edits[h](s.backend) == Some(l.doc)
    case Uploading => !l.ok && CacheIs(s, l.doc) && c.edits[h](s.backend) == Some(l.doc)
    case _ => CacheIs(s, s.backend)
  }

  /** The handler's document alone: made from the backend's, whatever the cache holds. */
  predicate DraftOk(c: Config, s: State, h: Handler)
    requires WellFormed(c) && h in s.locals && h in c.edits
  {
    var l := s.locals[h];
    match l.pc
    case Reading => !l.ok
    case Editing => !l.ok && l.doc == s.backend
    case Storing => !l.ok && c.edits[h](s.backend) == Some(l.doc)
    case Refreshing => !l.ok && c.edits[h](s.backend) == Some(l.doc)
    case Extending => !l.ok && c.edits[h](s.backend) == Some(l.doc)
    case Uploading => !l.ok && c.edits[h](s.backend) == Some(l.doc)
    case _ => true
  }

  /** The backend is the acknowledged edits in lock order, and the edit under way is made on
      it. */
  ghost predicate Sound(c: Config, s: State)
    requires WellFormed(c)
  {
    && History(c, s)
    && Replay(c, Successful(s), s.acquisitions) == Some(s.backend)
    && forall h | Critical(s, h) :: DraftOk(c, s, h)
  }

  ghost predicate Quiet(s: State) {
    forall h :: !Critical(s, h)
  }

  ghost predicate Serialised(c: Config, s: State)
    requires WellFormed(c)
  {
    && History(c, s)
    && Replay(c, Successful(s), s.acquisitions) == Some(s.backend)
    && (forall h | Critical(s, h) :: SectionOk(c, s, h))
    && (Quiet(s) ==> CacheIs(s, s.backend))
  }

  /** The failures that do damage: a store that fails while the cache holds another document,
      and a refresh or upload that fails while the cache is ahead of the backend. */
  predicate Harmless(s: State, step: Step)
    requires Enabled(s, step)
  {
    match step
    case Store(h, success) => success || CacheIs(s, s.locals[h].doc)
    case RefreshGet(_, success) => success || CacheIs(s, s.backend)
    case RefreshExtend(_, success) => (success && s.entry.Some?) || CacheIs(s, s.backend)
    case Upload(_, success) => success || CacheIs(s, s.backend)
    case _ => true
  }

  lemma {:induction false} ReplayIgnoresLater(c: Config, successful: set<Handler>, h: Handler, order: seq<Handler>)
    requires (forall g | g in order :: g in c.edits) && h !in order
    ensures Replay(c, successful + {h}, order) == Replay(c, successful, order)
  {
    if order != [] {
      ReplayIgnoresLater(c, successful, h, order[..|order| - 1]);
    }
  }

  /** The order grows when a handler gets the lock, and only then. */
  lemma {:induction false} OrderStep(c: Config, s: State, step: Step)
    requires WellFormed(c) && s.locals.Keys == c.servers.Keys && Enabled(s, step)
    ensures Do(c, s, step).acquisitions
         == if step.SetNx? && s.entry.None? then s.acquisitions + [step.h] else s.acquisitions
  {}

  lemma {:induction false} CriticalStep(c: Config, s: State, step: Step)
    requires WellFormed(c) && History(c, s) && Enabled(s, step)
    ensures forall h | Critical(Do(c, s, step), h) :: Critical(s, h) || (step == SetNx(h) && s.entry.None?)
    ensures step.SetNx? && s.entry.None? ==> !s.locals[step.h].acquired && Critical(Do(c, s, step), step.h)
    ensures step.Upload? ==> s.locals[step.h].acquired
  {
    StepFrame(c, s, step);
  }

  lemma {:induction false} OkStep(c: Config, s: State, step: Step)
    requires WellFormed(c) && s.locals.Keys == c.servers.Keys && Enabled(s, step)
    ensures Do(c, s, step).locals.Keys == s.locals.Keys
    ensures forall h | h in s.locals :: Do(c, s, step).locals[h].ok == (s.locals[h].ok || step == Upload(h, true))
  {
    StepFrame(c, s, step);
  }

  lemma {:induction false} HistoryStep(c: Config, s: State, step: Step)
    requires WellFormed(c) && History(c, s) && Enabled(s, step) && Exclusive(Do(c, s, step))
    ensures History(c, Do(c, s, step))
  {
    hide Do, LocalOk, Enabled, Critical;
    AcquiredStep(c, s, step);
    OrderStep(c, s, step);
    CriticalStep(c, s, step);
    LocalsStep(c, s, step);
    if step.SetNx? && s.entry.None? {
      DistinctMore(s.acquisitions, step.h);
    }
  }

  lemma {:induction false} LocalsStep(c: Config, s: State, step: Step)
    requires WellFormed(c) && History(c, s) && Enabled(s, step)
    ensures var s' := Do(c, s, step);
      && s'.locals.Keys == c.servers.Keys
      && forall h | h in s'.locals :: LocalOk(s'.locals[h]) && (s'.locals[h].ok ==> s'.locals[h].acquired)
  {
    hide Do, LocalOk, Enabled, Critical;
    StepFrame(c, s, step);
    CriticalStep(c, s, step);
    OkStep(c, s, step);
    if ByHandler(step) {
      StepLocal(c, s, step);
    }
  }

  lemma {:induction false} AcquiredStep(c: Config, s: State, step: Step)
    requires WellFormed(c) && History(c, s) && Enabled(s, step)
    ensures var s', entered := Do(c, s, step), step.SetNx? && s.entry.None?;
      && (entered ==> step.h in s.locals && step.h !in s.acquisitions)
      && forall h :: h in s'.acquisitions <==> h in s'.locals && s'.locals[h].acquired
  {
    hide Do, LocalOk, Enabled, Critical;
    StepFrame(c, s, step);
    OrderStep(c, s, step);
    CriticalStep(c, s, step);
    var s', entered := Do(c, s, step), step.SetNx? && s.entry.None?;
    if ByHandler(step) {
      StepLocal(c, s, step);
    }
    if entered {
      EnteredAcquires(c, s, step);
    }
  }

  lemma {:induction false} EnteredAcquires(c: Config, s: State, step: Step)
    requires WellFormed(c) && s.locals.Keys == c.servers.Keys && Enabled(s, step) && step.SetNx? && s.entry.None?
    ensures step.h in Do(c, s, step).locals && Do(c, s, step).locals[step.h].acquired
  {}

  lemma {:induction false} DistinctMore(order: seq<Handler>, h: Handler)
    requires Distinct(order) && h !in order
    ensures Distinct(order + [h])
  {}

  lemma {:induction false} UploadStep(c: Config, s: State, h: Handler)
    requires WellFormed(c) && Sound(c, s) && Enabled(s, Upload(h, true))
    ensures var s' := Do(c, s, Upload(h, true));
      Replay(c, Successful(s'), s'.acquisitions) == Some(s'.backend)
  {
    var s' := Do(c, s, Upload(h, true));
    var order := s.acquisitions;
    assert Critical(s, h) && order[|order| - 1] == h;
    assert Successful(s') == Successful(s) + {h};
    assert h !in Successful(s);
    var before := order[..|order| - 1];
    ReplayIgnoresLater(c, Successful(s), h, before);
    assert Replay(c, Successful(s), before) == Some(s.backend);
    assert c.edits[h](s.backend) == Some(s'.backend);
  }

  lemma {:induction false} ReplayIgnoresFailed(c: Config, successful: set<Handler>, order: seq<Handler>, h: Handler)
    requires (forall g | g in order :: g in c.edits) && h in c.edits && h !in successful
    ensures forall g | g in order + [h] :: g in c.edits
    ensures Replay(c, successful, order + [h]) == Replay(c, successful, order)
  {
    assert (order + [h])[..|order|] == order;
  }

  lemma {:induction false} BackendFrame(c: Config, s: State, step: Step)
    requires WellFormed(c) && s.locals.Keys == c.servers.Keys && Enabled(s, step)
    requires !(step.Upload? && step.success)
    ensures Do(c, s, step).backend == s.backend
    ensures ByHandler(step) ==> step.h in s.locals
  {}

  lemma {:induction false} OtherStep(c: Config, s: State, step: Step)
    requires WellFormed(c) && Sound(c, s) && Enabled(s, step) && History(c, Do(c, s, step))
    requires !(step.Upload? && step.success)
    ensures var s' := Do(c, s, step);
      Replay(c, Successful(s'), s'.acquisitions) == Some(s'.backend)
  {
    hide Do, DraftOk, Replay, Enabled, LocalOk;
    BackendFrame(c, s, step);
    OrderStep(c, s, step);
    OkStep(c, s, step);
    CriticalStep(c, s, step);
    assert Successful(Do(c, s, step)) == Successful(s);
    if step.SetNx? && s.entry.None? {
      ReplayIgnoresFailed(c, Successful(s), s.acquisitions, step.h);
    }
  }

  /** The backend follows the replay, whatever fails. */
  lemma {:induction false} BackendStep(c: Config, s: State, step: Step)
    requires WellFormed(c) && Sound(c, s) && Enabled(s, step) && Exclusive(Do(c, s, step))
    ensures History(c, Do(c, s, step))
    ensures Replay(c, Successful(Do(c, s, step)), Do(c, s, step).acquisitions) == Some(Do(c, s, step).backend)
  {
    HistoryStep(c, s, step);
    if step.Upload? && step.success {
      UploadStep(c, s, step.h);
    } else {
      OtherStep(c, s, step);
    }
  }

  lemma {:induction false} OwnStep(c: Config, s: State, step: Step)
    requires WellFormed(c) && s.locals.Keys == c.servers.Keys && Enabled(s, step)
    requires ByHandler(step) && Critical(s, step.h) && LocalOk(s.locals[step.h])
    requires SectionOk(c, s, step.h) && Harmless(s, step) && Critical(Do(c, s, step), step.h)
    ensures SectionOk(c, Do(c, s, step), step.h)
  {}

  lemma {:induction false} EnterStep(c: Config, s: State, h: Handler)
    requires WellFormed(c) && Serialised(c, s) && Enabled(s, SetNx(h)) && s.entry.None?
    requires Exclusive(Do(c, s, SetNx(h)))
    ensures SectionOk(c, Do(c, s, SetNx(h)), h)
  {
    var s' := Do(c, s, SetNx(h));
    forall g ensures !Critical(s, g) {
      assert Critical(s, g) ==> Critical(s', g) && Critical(s', h);
    }
    assert Quiet(s);
  }

  /** Other handlers' steps do not touch what a critical section relies on. */
  lemma {:induction false} ForeignStep(c: Config, s: State, step: Step, h: Handler)
    requires WellFormed(c) && Serialised(c, s) && Enabled(s, step) && Critical(s, h)
    requires Exclusive(Do(c, s, step)) && Critical(Do(c, s, step), h) && (ByHandler(step) ==> step.h != h)
    ensures Do(c, s, step).locals.Keys == s.locals.Keys && SectionOk(c, Do(c, s, step), h)
  {
    var s' := Do(c, s, step);
    StepFrame(c, s, step);
    if ByHandler(step) {
      assert !Critical(s', step.h);
      assert LocalOk(s.locals[step.h]);
      assert s'.backend == s.backend && s'.cache == s.cache;
    }
  }

  lemma {:induction false} SectionStep(c: Config, s: State, step: Step, h: Handler)
    requires WellFormed(c) && Serialised(c, s) && Enabled(s, step)
    requires Exclusive(Do(c, s, step)) && Critical(Do(c, s, step), h) && Harmless(s, step)
    ensures Do(c, s, step).locals.Keys == s.locals.Keys && SectionOk(c, Do(c, s, step), h)
  {
    StepFrame(c, s, step);
    if ByHandler(step) && step.h == h {
      StepLocal(c, s, step);
      if Critical(s, h) {
        OwnStep(c, s, step);
      } else {
        EnterStep(c, s, h);
      }
    } else {
      assert Critical(s, h);
      ForeignStep(c, s, step, h);
    }
  }

  lemma {:induction false} QuietStep(c: Config, s: State, step: Step)
    requires WellFormed(c) && Serialised(c, s) && Enabled(s, step)
    requires Exclusive(Do(c, s, step)) && Quiet(Do(c, s, step)) && Harmless(s, step)
    ensures CacheIs(Do(c, s, step), Do(c, s, step).backend)
  {
    var s' := Do(c, s, step);
    StepFrame(c, s, step);
    if ByHandler(step) && Critical(s, step.h) {
      LastStep(c, s, step);
    } else {
      CriticalStep(c, s, step);
      forall h ensures !Critical(s, h) {
        assert Critical(s, h) && (ByHandler(step) ==> h != step.h) ==> Critical(s', h);
      }
      assert Quiet(s);
      assert CacheIs(s, s.backend);
      OutsideStep(c, s, step);
    }
  }

  lemma {:induction false} LastStep(c: Config, s: State, step: Step)
    requires WellFormed(c) && Serialised(c, s) && Enabled(s, step)
    requires ByHandler(step) && Critical(s, step.h) && !Critical(Do(c, s, step), step.h)
    ensures CacheIs(Do(c, s, step), Do(c, s, step).backend)
  {
    assert LocalOk(s.locals[step.h]) && SectionOk(c, s, step.h);
  }

  lemma {:induction false} OutsideStep(c: Config, s: State, step: Step)
    requires WellFormed(c) && History(c, s) && Enabled(s, step) && CacheIs(s, s.backend)
    requires ByHandler(step) ==> !Critical(s, step.h)
    ensures CacheIs(Do(c, s, step), Do(c, s, step).backend)
  {
    if ByHandler(step) {
      assert LocalOk(s.locals[step.h]);
    }
  }

  lemma {:induction false} SerialisedIsSound(c: Config, s: State)
    requires WellFormed(c) && Serialised(c, s)
    ensures Sound(c, s)
  {
    assert forall h | Critical(s, h) :: SectionOk(c, s, h) ==> DraftOk(c, s, h);
  }

  /** A step that keeps the handlers apart keeps the edits serialised exactly when it is
      harmless. */
  lemma {:induction false} SerialisedExactlyWhenHarmless(c: Config, s: State, step: Step)
    requires WellFormed(c) && Serialised(c, s) && Enabled(s, step) && Exclusive(Do(c, s, step))
    ensures Serialised(c, Do(c, s, step)) <==> Harmless(s, step)
  {
    var s' := Do(c, s, step);
    SerialisedIsSound(c, s);
    BackendStep(c, s, step);
    if Harmless(s, step) {
      hide Do, SectionOk, DraftOk, Replay, Successful, Enabled, Harmless, History;
      forall h | Critical(s', h) ensures SectionOk(c, s', h) {
        SectionStep(c, s, step, h);
      }
      if Quiet(s') {
        QuietStep(c, s, step);
      }
    } else {
      HarmBreaks(c, s, step);
    }
  }

  lemma {:induction false} HarmBreaks(c: Config, s: State, step: Step)
    requires WellFormed(c) && Serialised(c, s) && Enabled(s, step) && !Harmless(s, step)
    ensures ByHandler(step) && Do(c, s, step).locals.Keys == s.locals.Keys
    ensures Critical(Do(c, s, step), step.h) && !SectionOk(c, Do(c, s, step), step.h)
  {
    assert LocalOk(s.locals[step.h]);
    assert Critical(s, step.h) && SectionOk(c, s, step.h);
  }

  ghost predicate NothingHarmful(states: seq<State>, steps: seq<Step>)
    requires |states| == |steps| + 1
  {
    forall i | 0 <= i < |steps| :: Enabled(states[i], steps[i]) && Harmless(states[i], steps[i])
  }

  lemma {:induction false} SerialisedRun(c: Config, states: seq<State>, steps: seq<Step>, i: nat)
    requires WellFormed(c) && IsRun(c, states, steps) && NothingHarmful(states, steps) && i < |states|
    requires forall s | s in states :: Exclusive(s)
    ensures Serialised(c, states[i])
  {
    if i == 0 {
      assert Successful(states[0]) == {};
    } else {
      SerialisedRun(c, states, steps, i - 1);
      assert states[i] in states;
      SerialisedExactlyWhenHarmless(c, states[i - 1], steps[i - 1]);
    }
  }

  /** The backend holds the initial document with every acknowledged edit applied exactly
      once in lock order, and nothing else. */
  ghost predicate EditsAddUp(c: Config, s: State)
    requires WellFormed(c)
  {
    && Distinct(s.acquisitions)
    && (forall h | h in s.acquisitions :: h in c.edits)
    && Replay(c, Successful(s), s.acquisitions) == Some(s.backend)
    && forall h | h in Successful(s) :: h in s.acquisitions
  }

  /** In every timely run in which no release of a handler without the lock has met an entry
      of its server, and without a harmful failure: the edits add up, and between critical
      sections the cache is empty or agrees with the backend. */
  lemma {:induction false} EditsAreSerialised(c: Config, states: seq<State>, steps: seq<Step>, i: nat)
    requires WellFormed(c) && IsTimelyRun(c, states, steps) && (forall s | s in states :: NoRogue(s))
    requires NothingHarmful(states, steps) && i < |states|
    ensures EditsAddUp(c, states[i]) && (Quiet(states[i]) ==> CacheIs(states[i], states[i].backend))
  {
    NoRogueIsExclusive(c, states, steps);
    SerialisedRun(c, states, steps, i);
  }

  lemma {:induction false} NoRogueIsExclusive(c: Config, states: seq<State>, steps: seq<Step>)
    requires WellFormed(c) && IsTimelyRun(c, states, steps) && forall s | s in states :: NoRogue(s)
    ensures forall s | s in states :: Exclusive(s)
  {
    forall s | s in states ensures Exclusive(s) {
      var i :| 0 <= i < |states| && states[i] == s;
      MutualExclusionFromTimeBounds(c, states, steps, i);
    }
  }

  /** The same from the configuration: no three handlers with two of them on one server. */
  lemma {:induction false} EditsAreSerialisedWithoutThirdParty(c: Config, states: seq<State>, steps: seq<Step>, i: nat)
    requires WellFormed(c) && !SharedServerAndThird(c)
    requires IsTimelyRun(c, states, steps) && NothingHarmful(states, steps) && i < |states|
    ensures EditsAddUp(c, states[i]) && (Quiet(states[i]) ==> CacheIs(states[i], states[i].backend))
  {
    ExclusiveExactlyWithoutThirdParty(c);
    SerialisedRun(c, states, steps, i);
  }

  // ----- whatever fails: only a stale read does damage -----

  /** A handler takes a document from the cache that is not the backend's. */
  predicate StaleRead(s: State, step: Step) {
    step.ReadCache? && s.cache.Some? && s.cache.value != s.backend
  }

  lemma {:induction false} DraftStep(c: Config, s: State, step: Step, h: Handler)
    requires WellFormed(c) && Sound(c, s) && Enabled(s, step) && !StaleRead(s, step)
    requires Exclusive(Do(c, s, step)) && Critical(Do(c, s, step), h)
    ensures Do(c, s, step).locals.Keys == s.locals.Keys && DraftOk(c, Do(c, s, step), h)
  {
    StepFrame(c, s, step);
    CriticalStep(c, s, step);
    if ByHandler(step) && step.h == h {
      OwnDraft(c, s, step);
    } else {
      assert Critical(s, h) && DraftOk(c, s, h);
      ForeignDraft(c, s, step, h);
    }
  }

  lemma {:induction false} OwnDraft(c: Config, s: State, step: Step)
    requires WellFormed(c) && Sound(c, s) && Enabled(s, step) && !StaleRead(s, step)
    requires ByHandler(step) && Critical(Do(c, s, step), step.h)
    ensures step.h in c.edits && DraftOk(c, Do(c, s, step), step.h)
  {
    assert LocalOk(s.locals[step.h]) && (s.locals[step.h].ok ==> s.locals[step.h].acquired);
    assert Critical(s, step.h) ==> DraftOk(c, s, step.h);
  }

  lemma {:induction false} ForeignDraft(c: Config, s: State, step: Step, h: Handler)
    requires WellFormed(c) && Sound(c, s) && Enabled(s, step) && Critical(s, h) && (ByHandler(step) ==> step.h != h)
    requires Exclusive(Do(c, s, step)) && Critical(Do(c, s, step), h)
    ensures DraftOk(c, Do(c, s, step), h)
  {
    StepFrame(c, s, step);
    if ByHandler(step) {
      assert !Critical(Do(c, s, step), step.h);
      assert LocalOk(s.locals[step.h]);
      assert Do(c, s, step).backend == s.backend;
    }
  }

  lemma {:induction false} StaleReadBreaks(c: Config, s: State, step: Step)
    requires WellFormed(c) && Sound(c, s) && Enabled(s, step) && StaleRead(s, step)
    ensures Do(c, s, step).locals.Keys == s.locals.Keys
    ensures Critical(Do(c, s, step), step.h) && !DraftOk(c, Do(c, s, step), step.h)
  {
    assert LocalOk(s.locals[step.h]);
  }

  /** Whatever fails: a step that keeps the handlers apart keeps the edits sound exactly when
      it does not read a stale cache. */
  lemma {:induction false} SoundExactlyWithoutStaleRead(c: Config, s: State, step: Step)
    requires WellFormed(c) && Sound(c, s) && Enabled(s, step) && Exclusive(Do(c, s, step))
    ensures Sound(c, Do(c, s, step)) <==> !StaleRead(s, step)
  {
    BackendStep(c, s, step);
    if StaleRead(s, step) {
      StaleReadBreaks(c, s, step);
    } else {
      hide Do, DraftOk, Replay, Successful, Enabled, History, StaleRead;
      forall h | Critical(Do(c, s, step), h) ensures DraftOk(c, Do(c, s, step), h) {
        DraftStep(c, s, step, h);
      }
    }
  }

  /** In every timely run without such a release, whatever store, refresh or upload fails: as
      long as no handler has read a stale cache, the edits add up. */
  lemma {:induction false} EditsAddUpWithoutStaleRead(c: Config, states: seq<State>, steps: seq<Step>, i: nat)
    requires WellFormed(c) && IsTimelyRun(c, states, steps) && (forall s | s in states :: NoRogue(s))
    requires i < |states| && forall k | 0 <= k < i :: !StaleRead(states[k], steps[k])
    ensures Sound(c, states[i]) && EditsAddUp(c, states[i])
  {
    if i == 0 {
      assert Successful(states[0]) == {};
    } else {
      NoRogueIsExclusive(c, states, steps);
      EditsAddUpWithoutStaleRead(c, states, steps, i - 1);
      assert states[i] in states;
      SoundExactlyWithoutStaleRead(c, states[i - 1], steps[i - 1]);
    }
  }

  // ----- an edit that is acknowledged and lost -----

  /** A store that fails while the cache holds an older document loses an acknowledged edit:
      of three edits in turn, the third is applied to the result of the first. */
  lemma {:induction false} FailedStoreLosesEdit(c: Config, a: Handler, b: Handler, d: Handler, d1: Doc, d2: Doc,
      d3: Doc)
    requires WellFormed(c) && a in c.servers && b in c.servers && d in c.servers
    requires a != b && b != d && a != d
    requires c.edits[a](c.initial) == Some(d1) && c.edits[b](d1) == Some(d2) && c.edits[d](d1) == Some(d3)
    ensures exists s ::
      Reached(c, s) && s.acquisitions == [a, b, d] && s.backend == d3 && {a, b, d} <= Successful(s)
  {
    hide Reached, Do;
    InitReached(c);
    var s0 := InitState(c);
    var s1 := WholeSection(c, s0, a, true);
    var s2 := WholeSection(c, s1, b, false);
    var s3 := WholeSection(c, s2, d, true);
  }
}
