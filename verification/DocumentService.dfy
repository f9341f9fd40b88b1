/** The realtime document service as a state machine: handlers on many servers edit one
    document under a Redis lock with a time to live, with a Redis cache and a backend store.
    (realtime-service/src/syncService/DocumentHandler.js, utils/DocumentLock.js and
    utils/DocumentCache.js.) Every Redis command and every backend request is one step. */
module DocumentService {
  import opened Wrappers
  import opened SlateModel

  type Handler = nat
  type Server = nat

  const LOCK_TTL: nat := 61000

  /** The handlers of a run: their servers, and what each one makes of the document it
      read. None stands for an exception while computing or applying operations. */
  datatype Config = Config(servers: map<Handler, Server>, edits: map<Handler, Doc -> Option<Doc>>, initial: Doc)

  /** The Redis entry holds the server name only; the handler that set it is recorded for
      the properties and never read by a step. */
  datatype Entry = Entry(server: Server, owner: Handler, expires: nat)

  datatype Pc =
    | Waiting     // acquire: SET NX not successful yet
    | Reading     // lock held, document not read yet
    | Editing     // document read
    | Storing     // operations applied, cache.store next
    | Refreshing  // refresh: GET next
    | Extending   // refresh: GET gave this server, PEXPIRE next
    | Uploading   // backend request next
    | Releasing   // release: GET next
    | Deleting    // release: GET gave this server, DEL next
    | Finished

  /** `since` is the time of the SET or of the last PEXPIRE; `sawOwnName` is the outcome of
      the comparison in release; `ok` says that the sender got an "ok" answer. */
  datatype Local = Local(pc: Pc, acquired: bool, since: nat, doc: Doc, sawOwnName: bool, ok: bool)

  datatype State = State(
    now: nat, entry: Option<Entry>, cache: Option<Doc>, backend: Doc,
    locals: map<Handler, Local>, acquisitions: seq<Handler>)

  datatype Step =
    | Tick(d: nat)
    | CacheExpires
    | SetNx(h: Handler)
    | GiveUp(h: Handler)                        // acquire timed out or SET failed
    | ReadCache(h: Handler)
    | Fetch(h: Handler)                         // cache miss or error, backend answers
    | ReadFails(h: Handler)
    | Edit(h: Handler)
    | Store(h: Handler, success: bool)
    | RefreshGet(h: Handler, success: bool)
    | RefreshExtend(h: Handler, success: bool)
    | Upload(h: Handler, success: bool)
    | ReleaseGet(h: Handler, success: bool)
    | ReleaseDel(h: Handler, success: bool)

  ghost predicate WellFormed(c: Config) {
    c.servers.Keys == c.edits.Keys
  }

  function InitState(c: Config): State {
    State(0, None, None, c.initial,
      map h | h in c.servers :: Local(Waiting, false, 0, c.initial, false, false), [])
  }

  predicate In(s: State, h: Handler, pc: Pc) {
    h in s.locals && s.locals[h].pc == pc
  }

  predicate Enabled(s: State, step: Step) {
    match step
    case Tick(_) => true
    case CacheExpires => true
    case SetNx(h) => In(s, h, Waiting)
    case GiveUp(h) => In(s, h, Waiting)
    case ReadCache(h) => In(s, h, Reading) && s.cache.Some?
    case Fetch(h) => In(s, h, Reading)
    case ReadFails(h) => In(s, h, Reading)
    case Edit(h) => In(s, h, Editing)
    case Store(h, _) => In(s, h, Storing)
    case RefreshGet(h, _) => In(s, h, Refreshing)
    case RefreshExtend(h, _) => In(s, h, Extending)
    case Upload(h, _) => In(s, h, Uploading)
    case ReleaseGet(h, _) => In(s, h, Releasing)
    case ReleaseDel(h, _) => In(s, h, Deleting)
  }

  function With(s: State, h: Handler, l: Local): State {
    s.(locals := s.locals[h := l])
  }

  function Goto(s: State, h: Handler, pc: Pc): State
    requires h in s.locals
  {
    With(s, h, s.locals[h].(pc := pc))
  }

  predicate EntryNames(s: State, server: Server) {
    s.entry.Some? && s.entry.value.server == server
  }

  /** Redis drops an entry at its expiry time. */
  function Expire(entry: Option<Entry>, now: nat): Option<Entry> {
    if entry.Some? && entry.value.expires <= now then None else entry
  }

  /** A failing step of the try block goes to the release in the catch block. */
  function Do(c: Config, s: State, step: Step): State
    requires WellFormed(c) && s.locals.Keys == c.servers.Keys && Enabled(s, step)
  {
    match step
    case Tick(d) => s.(now := s.now + d, entry := Expire(s.entry, s.now + d))
    case CacheExpires => s.(cache := None)
    case SetNx(h) =>
      if s.entry.Some? then s
      else
        With(s, h, s.locals[h].(pc := Reading, acquired := true, since := s.now))
          .(entry := Some(Entry(c.servers[h], h, s.now + LOCK_TTL)), acquisitions := s.acquisitions + [h])
    case GiveUp(h) => Goto(s, h, Releasing)
    case ReadCache(h) => With(s, h, s.locals[h].(pc := Editing, doc := s.cache.value))
    case Fetch(h) => With(s, h, s.locals[h].(pc := Editing, doc := s.backend))
    case ReadFails(h) => Goto(s, h, Releasing)
    case Edit(h) =>
      (match c.edits[h](s.locals[h].doc)
       case None => Goto(s, h, Releasing)
       case Some(doc) => With(s, h, s.locals[h].(pc := Storing, doc := doc)))
    case Store(h, success) =>
      // a failed store is logged and otherwise ignored
      Goto(s, h, Refreshing).(cache := if success then Some(s.locals[h].doc) else s.cache)
    case RefreshGet(h, success) =>
      // an entry of another server, or none, does not stop the handler: the rejected
      // promise is not returned
      Goto(s, h, if !success then Releasing else if EntryNames(s, c.servers[h]) then Extending else Uploading)
    case RefreshExtend(h, success) =>
      if success && s.entry.Some? then
        With(s, h, s.locals[h].(pc := Uploading, since := s.now))
          .(entry := Some(s.entry.value.(expires := s.now + LOCK_TTL)))
      else Goto(s, h, Releasing)
    case Upload(h, success) =>
      if success then
        With(s, h, s.locals[h].(pc := Releasing, ok := true)).(backend := s.locals[h].doc)
      else Goto(s, h, Releasing)
    case ReleaseGet(h, success) =>
      if success && EntryNames(s, c.servers[h])
      then With(s, h, s.locals[h].(pc := Deleting, sawOwnName := true))
      else Goto(s, h, Finished)
    case ReleaseDel(h, success) =>
      Goto(s, h, Finished).(entry := if success then None else s.entry)
  }

  /** Between acquire and release. */
  predicate Critical(s: State, h: Handler) {
    h in s.locals && s.locals[h].acquired && s.locals[h].pc != Finished
  }

  ghost predicate Exclusive(s: State) {
    forall g, h | Critical(s, g) && Critical(s, h) :: g == h
  }

  /** Each critical section gets from SET to PEXPIRE, and from there to DEL, in less than
      the time to live; a section that is aborted before PEXPIRE gets from SET to DEL. */
  ghost predicate Timely(s: State) {
    forall h | Critical(s, h) :: s.now < s.locals[h].since + LOCK_TTL
  }

  ghost predicate IsRun(c: Config, states: seq<State>, steps: seq<Step>)
    requires WellFormed(c)
  {
    && |states| == |steps| + 1
    && states[0] == InitState(c)
    && forall i | 0 <= i < |steps| ::
      && states[i].locals.Keys == c.servers.Keys
      && Enabled(states[i], steps[i])
      && states[i + 1] == Do(c, states[i], steps[i])
  }

  ghost predicate IsTimelyRun(c: Config, states: seq<State>, steps: seq<Step>)
    requires WellFormed(c)
  {
    IsRun(c, states, steps) && forall s | s in states :: Timely(s)
  }
}
