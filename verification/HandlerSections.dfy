/** What becomes of a handler from the SET of its lock to the DEL, with every outcome of the Redis
    commands and the backend requests (realtime-service/src/syncService/DocumentHandler.js:52-147,
    199-261). Whatever fails, the catch block releases the lock. */
module HandlerSections {
  import opened Wrappers
  import opened SlateModel
  import opened DocumentService
  import opened LockSafety

  /** The step of the section that fails. */
  datatype Failure = AtRead | AtEdit | AtRefreshGet | AtExtend | AtUpload

  /** The document that a handler reads: the cached one if there is one. */
  function Found(s: State): Doc {
    if s.cache.Some? then s.cache.value else s.backend
  }

  /** Handlers that have not yet been refused or served, in a reached state. */
  ghost predicate Ready(c: Config, s: State, h: Handler) {
    && WellFormed(c) && Reached(c, s) && s.locals.Keys == c.servers.Keys
    && In(s, h, Waiting) && !s.locals[h].sawOwnName && !s.locals[h].ok
  }

  function Ended(l: Local): Local {
    l.(pc := Finished, sawOwnName := true)
  }

  // ----- the steps, one by one -----

  predicate Runs(c: Config, s: State, h: Handler, pc: Pc) {
    c.servers.Keys == c.edits.Keys && s.locals.Keys == c.servers.Keys && In(s, h, pc)
  }

  lemma {:induction false} StepSetNx(c: Config, s: State, h: Handler)
    requires Runs(c, s, h, Waiting) && s.entry.None?
    ensures Do(c, s, SetNx(h)) == s.(
      entry := Some(Entry(c.servers[h], h, s.now + LOCK_TTL)), acquisitions := s.acquisitions + [h],
      locals := s.locals[h := s.locals[h].(pc := Reading, acquired := true, since := s.now)])
  {}

  lemma {:induction false} StepRead(c: Config, s: State, h: Handler)
    requires Runs(c, s, h, Reading)
    ensures Do(c, s, if s.cache.Some? then ReadCache(h) else Fetch(h))
         == With(s, h, s.locals[h].(pc := Editing, doc := Found(s)))
  {}

  lemma {:induction false} StepEdit(c: Config, s: State, h: Handler)
    requires Runs(c, s, h, Editing)
    ensures Do(c, s, Edit(h)) == With(s, h,
      match c.edits[h](s.locals[h].doc)
      case None => s.locals[h].(pc := Releasing)
      case Some(after) => s.locals[h].(pc := Storing, doc := after))
  {}

  lemma {:induction false} StepStore(c: Config, s: State, h: Handler, stored: bool)
    requires Runs(c, s, h, Storing)
    ensures Do(c, s, Store(h, stored))
         == With(s, h, s.locals[h].(pc := Refreshing)).(cache := if stored then Some(s.locals[h].doc) else s.cache)
  {}

  lemma {:induction false} StepRefreshGet(c: Config, s: State, h: Handler, success: bool)
    requires Runs(c, s, h, Refreshing)
    ensures Do(c, s, RefreshGet(h, success)) == With(s, h, s.locals[h].(pc :=
      if !success then Releasing else if EntryNames(s, c.servers[h]) then Extending else Uploading))
  {}

  lemma {:induction false} StepExtend(c: Config, s: State, h: Handler, success: bool)
    requires Runs(c, s, h, Extending)
    ensures Do(c, s, RefreshExtend(h, success)) ==
      if success && s.entry.Some? then
        With(s, h, s.locals[h].(pc := Uploading, since := s.now))
          .(entry := Some(s.entry.value.(expires := s.now + LOCK_TTL)))
      else With(s, h, s.locals[h].(pc := Releasing))
  {}

  lemma {:induction false} StepUpload(c: Config, s: State, h: Handler, success: bool)
    requires Runs(c, s, h, Uploading)
    ensures Do(c, s, Upload(h, success))
         == With(s, h, s.locals[h].(pc := Releasing, ok := s.locals[h].ok || success))
              .(backend := if success then s.locals[h].doc else s.backend)
  {}

  lemma {:induction false} StepReleaseGet(c: Config, s: State, h: Handler)
    requires Runs(c, s, h, Releasing)
    ensures Do(c, s, ReleaseGet(h, true)) == With(s, h,
      if EntryNames(s, c.servers[h]) then s.locals[h].(pc := Deleting, sawOwnName := true)
      else s.locals[h].(pc := Finished))
  {}

  lemma {:induction false} StepReleaseDel(c: Config, s: State, h: Handler)
    requires Runs(c, s, h, Deleting)
    ensures Do(c, s, ReleaseDel(h, true)) == With(s, h, s.locals[h].(pc := Finished)).(entry := None)
  {}

  // ----- sections -----

  /** GET and DEL free the lock when it has the handler's server in it. */
  lemma {:induction false} Releases(c: Config, s: State, h: Handler) returns (s': State)
    requires WellFormed(c) && Reached(c, s) && Runs(c, s, h, Releasing) && EntryNames(s, c.servers[h])
    ensures Reached(c, s') && s' == s.(entry := None, locals := s.locals[h := Ended(s.locals[h])])
  {
    hide Reached, Do;
    StepReleaseGet(c, s, h);
    var s1 := NextStep(c, s, ReleaseGet(h, true));
    StepReleaseDel(c, s1, h);
    s' := NextStep(c, s1, ReleaseDel(h, true));
  }

  /** The handler gets the lock and reads the document. */
  lemma {:induction false} Begins(c: Config, s: State, h: Handler) returns (s': State)
    requires Ready(c, s, h) && s.entry.None?
    ensures Reached(c, s') && s' == s.(
      entry := Some(Entry(c.servers[h], h, s.now + LOCK_TTL)), acquisitions := s.acquisitions + [h],
      locals := s.locals[h := Local(Editing, true, s.now, Found(s), false, false)])
  {
    hide Reached, Do;
    StepSetNx(c, s, h);
    var s1 := NextStep(c, s, SetNx(h));
    StepRead(c, s1, h);
    s' := NextStep(c, s1, if s.cache.Some? then ReadCache(h) else Fetch(h));
  }

  /** It edits and caches the document. */
  lemma {:induction false} Stores(c: Config, s: State, h: Handler, stored: bool) returns (s': State)
    requires Ready(c, s, h) && s.entry.None? && c.edits[h](Found(s)).Some?
    ensures var after := c.edits[h](Found(s)).value;
      && Reached(c, s') && s' == s.(
        entry := Some(Entry(c.servers[h], h, s.now + LOCK_TTL)), acquisitions := s.acquisitions + [h],
        cache := if stored then Some(after) else s.cache,
        locals := s.locals[h := Local(Refreshing, true, s.now, after, false, false)])
  {
    hide Reached, Do, Found;
    var s1 := Begins(c, s, h);
    StepEdit(c, s1, h);
    var s2 := NextStep(c, s1, Edit(h));
    StepStore(c, s2, h, stored);
    s' := NextStep(c, s2, Store(h, stored));
  }

  /** The refresh gives the entry and the handler their full time again. */
  lemma {:induction false} Refreshes(c: Config, s: State, h: Handler) returns (s': State)
    requires WellFormed(c) && Reached(c, s) && Runs(c, s, h, Refreshing) && EntryNames(s, c.servers[h])
    ensures Reached(c, s') && s' == s.(
      entry := Some(s.entry.value.(expires := s.now + LOCK_TTL)),
      locals := s.locals[h := s.locals[h].(pc := Uploading, since := s.now)])
  {
    hide Reached, Do;
    StepRefreshGet(c, s, h, true);
    var s1 := NextStep(c, s, RefreshGet(h, true));
    StepExtend(c, s1, h, true);
    s' := NextStep(c, s1, RefreshExtend(h, true));
  }

  /** Handler h can go through its whole section, on the cached document if there is one: its edit
      is in the backend and acknowledged, and the lock is free. */
  lemma {:induction false} WholeSection(c: Config, s: State, h: Handler, stored: bool) returns (s': State)
    requires Ready(c, s, h) && s.entry.None? && c.edits[h](Found(s)).Some?
    ensures var after := c.edits[h](Found(s)).value;
      && Reached(c, s') && s' == s.(
        backend := after, cache := if stored then Some(after) else s.cache, acquisitions := s.acquisitions + [h],
        locals := s.locals[h := Local(Finished, true, s.now, after, true, true)])
  {
    hide Reached, Do, Found;
    var s1 := Stores(c, s, h, stored);
    var s2 := Refreshes(c, s1, h);
    StepUpload(c, s2, h, true);
    var s3 := NextStep(c, s2, Upload(h, true));
    s' := Releases(c, s3, h);
  }

  /** The document in the hands of a handler whose section fails. */
  function Held(c: Config, s: State, h: Handler, at: Failure): Doc
    requires WellFormed(c) && h in s.locals && h in c.edits
  {
    if at.AtRead? then s.locals[h].doc
    else match c.edits[h](Found(s))
      case None => Found(s)
      case Some(after) => after
  }

  function CachedAt(c: Config, s: State, h: Handler, at: Failure, stored: bool): Option<Doc>
    requires WellFormed(c) && h in s.locals && h in c.edits
  {
    if at.AtRead? || at.AtEdit? || !stored then s.cache else Some(Held(c, s, h, at))
  }

  /** The section up to the failing step. */
  lemma {:induction false} FailsAt(c: Config, s: State, h: Handler, at: Failure, stored: bool) returns (s': State)
    requires Ready(c, s, h) && s.entry.None?
    requires !at.AtRead? ==> (at.AtEdit? <==> c.edits[h](Found(s)).None?)
    ensures Reached(c, s') && s' == s.(
      entry := Some(Entry(c.servers[h], h, s.now + LOCK_TTL)), cache := CachedAt(c, s, h, at, stored),
      acquisitions := s.acquisitions + [h],
      locals := s.locals[h := Local(Releasing, true, s.now, Held(c, s, h, at), false, false)])
  {
    hide Reached, Do, Found;
    if at.AtRead? {
      StepSetNx(c, s, h);
      var s1 := NextStep(c, s, SetNx(h));
      StepReadFails(c, s1, h);
      s' := NextStep(c, s1, ReadFails(h));
    } else if at.AtEdit? {
      var s1 := Begins(c, s, h);
      StepEdit(c, s1, h);
      s' := NextStep(c, s1, Edit(h));
    } else {
      var s1 := Stores(c, s, h, stored);
      s' := FailsStored(c, s1, h, at);
    }
  }

  lemma {:induction false} StepReadFails(c: Config, s: State, h: Handler)
    requires Runs(c, s, h, Reading)
    ensures Do(c, s, ReadFails(h)) == With(s, h, s.locals[h].(pc := Releasing))
  {}

  /** The edited document has been sent to the cache. */
  lemma {:induction false} FailsStored(c: Config, s: State, h: Handler, at: Failure) returns (s': State)
    requires WellFormed(c) && Reached(c, s) && Runs(c, s, h, Refreshing) && !at.AtRead? && !at.AtEdit?
    requires s.entry == Some(Entry(c.servers[h], h, s.now + LOCK_TTL))
    requires s.locals[h].since == s.now && !s.locals[h].ok
    ensures Reached(c, s') && s' == With(s, h, s.locals[h].(pc := Releasing))
  {
    hide Reached, Do;
    if at.AtRefreshGet? {
      StepRefreshGet(c, s, h, false);
      s' := NextStep(c, s, RefreshGet(h, false));
    } else if at.AtExtend? {
      s' := FailsExtending(c, s, h);
    } else {
      var s1 := Refreshes(c, s, h);
      StepUpload(c, s1, h, false);
      s' := NextStep(c, s1, Upload(h, false));
    }
  }

  lemma {:induction false} FailsExtending(c: Config, s: State, h: Handler) returns (s': State)
    requires WellFormed(c) && Reached(c, s) && Runs(c, s, h, Refreshing) && EntryNames(s, c.servers[h])
    ensures Reached(c, s') && s' == With(s, h, s.locals[h].(pc := Releasing))
  {
    hide Reached, Do;
    StepRefreshGet(c, s, h, true);
    var s1 := NextStep(c, s, RefreshGet(h, true));
    StepExtend(c, s1, h, false);
    s' := NextStep(c, s1, RefreshExtend(h, false));
  }

  /** Wherever its section fails, the handler is not acknowledged, the backend stays, and the lock
      is free; the cache holds the edited document when that was stored before. */
  lemma {:induction false} AbortedSection(c: Config, s: State, h: Handler, at: Failure, stored: bool)
    returns (s': State)
    requires Ready(c, s, h) && s.entry.None?
    requires !at.AtRead? ==> (at.AtEdit? <==> c.edits[h](Found(s)).None?)
    ensures Reached(c, s') && s' == s.(
      cache := CachedAt(c, s, h, at, stored), acquisitions := s.acquisitions + [h],
      locals := s.locals[h := Local(Finished, true, s.now, Held(c, s, h, at), true, false)])
  {
    hide Reached, Do, Found, Held, CachedAt;
    var s1 := FailsAt(c, s, h, at, stored);
    s' := Releases(c, s1, h);
  }

  /** A handler that gives up takes the lock away when it has its own server in it, and leaves it
      otherwise. */
  lemma {:induction false} GivesUp(c: Config, s: State, h: Handler) returns (s': State)
    requires Ready(c, s, h)
    ensures var own := EntryNames(s, c.servers[h]);
      && Reached(c, s') && s' == s.(
        entry := if own then None else s.entry,
        locals := s.locals[h := s.locals[h].(pc := Finished, sawOwnName := own)])
  {
    hide Reached;
    var s1 := NextStep(c, s, GiveUp(h));
    assert s1 == With(s, h, s.locals[h].(pc := Releasing));
    hide Do;
    if EntryNames(s, c.servers[h]) {
      s' := Releases(c, s1, h);
    } else {
      StepReleaseGet(c, s1, h);
      s' := NextStep(c, s1, ReleaseGet(h, true));
    }
  }

  /** A handler whose lock is gone, or is another server's, uploads all the same: the rejected
      promise is not returned. The entry of the other server stays. */
  lemma {:induction false} UploadsWithoutLock(c: Config, s: State, h: Handler) returns (s': State)
    requires WellFormed(c) && Reached(c, s) && Runs(c, s, h, Refreshing) && !EntryNames(s, c.servers[h])
    ensures Reached(c, s') && s' == s.(
      backend := s.locals[h].doc, locals := s.locals[h := s.locals[h].(pc := Finished, ok := true)])
  {
    hide Reached, Do;
    StepRefreshGet(c, s, h, true);
    var s1 := NextStep(c, s, RefreshGet(h, true));
    StepUpload(c, s1, h, true);
    var s2 := NextStep(c, s1, Upload(h, true));
    StepReleaseGet(c, s2, h);
    s' := NextStep(c, s2, ReleaseGet(h, true));
  }

  /** When the entry has gone between GET and PEXPIRE, the refresh fails, and there is nothing to
      release. */
  lemma {:induction false} ExtendsNothing(c: Config, s: State, h: Handler) returns (s': State)
    requires WellFormed(c) && Reached(c, s) && Runs(c, s, h, Extending) && s.entry.None?
    ensures Reached(c, s') && s' == s.(locals := s.locals[h := s.locals[h].(pc := Finished)])
  {
    hide Reached, Do;
    StepExtend(c, s, h, true);
    var s1 := NextStep(c, s, RefreshExtend(h, true));
    StepReleaseGet(c, s1, h);
    s' := NextStep(c, s1, ReleaseGet(h, true));
  }

  // ----- when a handler ends, and what others wait for -----

  /** A handler ends with its release only: at the GET when that fails or finds no entry of its
      server, and at the DEL, which takes the entry away unless it fails. */
  lemma {:induction false} EndsWithRelease(c: Config, s: State, step: Step, h: Handler)
    requires WellFormed(c) && s.locals.Keys == c.servers.Keys && Enabled(s, step) && h in s.locals
    requires s.locals[h].pc != Finished
    ensures Do(c, s, step).locals.Keys == c.servers.Keys
    ensures (Do(c, s, step).locals[h].pc == Finished <==>
               || (step.ReleaseDel? && step.h == h)
               || (step.ReleaseGet? && step.h == h && !(step.success && EntryNames(s, c.servers[h]))))
    ensures step.ReleaseDel? ==> Do(c, s, step).entry == if step.success then None else s.entry
  {
    StepFrame(c, s, step);
  }

  /** A release that fails leaves the entry to its expiry. */
  lemma {:induction false} ReleaseFails(c: Config, s: State, h: Handler)
    requires WellFormed(c) && (Runs(c, s, h, Releasing) || Runs(c, s, h, Deleting))
    ensures Do(c, s, if s.locals[h].pc == Releasing then ReleaseGet(h, false) else ReleaseDel(h, false))
         == With(s, h, s.locals[h].(pc := Finished))
  {}

  /** The cache can lose the document at any time, and a read of it can fail: then the backend is
      asked, whatever the cache holds. */
  lemma {:induction false} CacheGone(c: Config, s: State, h: Handler)
    requires WellFormed(c) && Runs(c, s, h, Reading)
    ensures Do(c, s, CacheExpires) == s.(cache := None)
    ensures Do(c, s, Fetch(h)) == With(s, h, s.locals[h].(pc := Editing, doc := s.backend))
  {}

  /** A handler waits as long as there is an entry, and only as long. */
  lemma {:induction false} WaitsForEntry(c: Config, s: State, h: Handler)
    requires WellFormed(c) && Runs(c, s, h, Waiting)
    ensures if s.entry.Some? then Do(c, s, SetNx(h)) == s
            else Do(c, s, SetNx(h)) == s.(
              entry := Some(Entry(c.servers[h], h, s.now + LOCK_TTL)), acquisitions := s.acquisitions + [h],
              locals := s.locals[h := s.locals[h].(pc := Reading, acquired := true, since := s.now)])
  {}

  /** An entry that nobody frees is gone exactly from its expiry time on. */
  lemma {:induction false} EntryExpires(c: Config, s: State, d: nat)
    requires WellFormed(c) && s.locals.Keys == c.servers.Keys && s.entry.Some?
    ensures var late := s.entry.value.expires <= s.now + d;
      Do(c, s, Tick(d)) == s.(now := s.now + d, entry := if late then None else s.entry)
  {}

  /** The lock that a handler gets, or refreshes, lives for 61 seconds. */
  lemma {:induction false} LivesForAMinute(c: Config, s: State, h: Handler, d: nat)
    requires WellFormed(c) && (Runs(c, s, h, Waiting) || Runs(c, s, h, Extending))
    requires s.entry.None? <==> s.locals[h].pc == Waiting
    ensures var s1 := Do(c, s, if s.locals[h].pc == Waiting then SetNx(h) else RefreshExtend(h, true));
      s1.locals.Keys == c.servers.Keys && (Do(c, s1, Tick(d)).entry.Some? <==> d < 61000)
  {}

  /** Then the next handler that asks gets the lock; before, nobody does. */
  lemma {:induction false} NextAfterExpiry(c: Config, s: State, d: nat, g: Handler)
    requires WellFormed(c) && Runs(c, s, g, Waiting) && s.entry.Some?
    ensures Do(c, s, Tick(d)).locals == s.locals
    ensures In(Do(c, Do(c, s, Tick(d)), SetNx(g)), g, Reading) <==> s.entry.value.expires <= s.now + d
  {
    EntryExpires(c, s, d);
    WaitsForEntry(c, Do(c, s, Tick(d)), g);
  }
}
