/** Mutual exclusion of the document lock, from the time bounds. */
module LockSafety {
  import opened Wrappers
  import opened SlateModel
  import opened DocumentService

  /** A handler that never got the lock and whose release in the catch block met an entry
      that another handler of its server had set. */
  predicate Rogue(s: State, h: Handler) {
    h in s.locals && !s.locals[h].acquired && s.locals[h].sawOwnName
  }

  ghost predicate NoRogue(s: State) {
    forall h :: !Rogue(s, h)
  }

  predicate Owns(s: State, h: Handler) {
    && h in s.locals && s.entry.Some? && s.entry.value.owner == h
    && s.entry.value.expires == s.locals[h].since + LOCK_TTL
  }

  /** Every critical section holds the entry, with its full time to live. */
  ghost predicate Protected(s: State) {
    forall h | Critical(s, h) :: Owns(s, h)
  }

  ghost predicate HasSibling(c: Config, s: State, r: Handler)
    requires s.locals.Keys == c.servers.Keys && r in s.locals
  {
    exists a | a in s.locals :: a != r && s.locals[a].acquired && c.servers[a] == c.servers[r]
  }

  predicate LocalOk(l: Local) {
    && (l.pc in {Reading, Editing, Storing, Refreshing, Extending, Uploading} ==> l.acquired)
    && (l.pc == Waiting ==> !l.acquired)
    && (l.pc == Deleting ==> l.sawOwnName)
    && (l.sawOwnName ==> l.pc in {Deleting, Finished})
  }

  ghost predicate Consistent(c: Config, s: State) {
    && s.locals.Keys == c.servers.Keys
    && (s.entry.Some? ==>
      var e := s.entry.value;
      e.owner in s.locals && s.locals[e.owner].acquired && e.server == c.servers[e.owner])
    && forall h | h in s.locals :: LocalOk(s.locals[h])
  }

  ghost predicate Inv(c: Config, s: State) {
    && Consistent(c, s)
    && (forall r | Rogue(s, r) :: HasSibling(c, s, r))
    && (NoRogue(s) ==> Protected(s))
  }

  predicate ByHandler(step: Step) {
    !step.Tick? && !step.CacheExpires?
  }

  /** A step of one handler leaves the others alone. */
  lemma {:induction false} StepFrame(c: Config, s: State, step: Step)
    requires WellFormed(c) && s.locals.Keys == c.servers.Keys && Enabled(s, step)
    ensures Do(c, s, step).locals.Keys == s.locals.Keys
    ensures ByHandler(step) ==> step.h in s.locals && Do(c, s, step).now == s.now
    ensures forall h | h in s.locals && (ByHandler(step) ==> h != step.h) ::
      Do(c, s, step).locals[h] == s.locals[h]
  {
    if ByHandler(step) {
      OneLocalChanges(c, s, step);
    }
  }

  lemma {:induction false} OneLocalChanges(c: Config, s: State, step: Step)
    requires WellFormed(c) && s.locals.Keys == c.servers.Keys && Enabled(s, step) && ByHandler(step)
    ensures step.h in s.locals && Do(c, s, step).now == s.now
    ensures step.h in Do(c, s, step).locals
    ensures Do(c, s, step).locals == s.locals[step.h := Do(c, s, step).locals[step.h]]
  {}

  lemma {:induction false} StepLocal(c: Config, s: State, step: Step)
    requires WellFormed(c) && s.locals.Keys == c.servers.Keys && Enabled(s, step)
    requires ByHandler(step) && LocalOk(s.locals[step.h])
    ensures var l, l' := s.locals[step.h], Do(c, s, step).locals[step.h];
      && LocalOk(l')
      && (l.acquired ==> l'.acquired)
      && (l'.acquired && !l.acquired ==> step.SetNx? && s.entry.None?)
      && (l.sawOwnName ==> l'.sawOwnName)
      && (l'.sawOwnName && !l.sawOwnName ==>
        step == ReleaseGet(step.h, true) && EntryNames(s, c.servers[step.h]))
  {}

  lemma {:induction false} ConsistentStep(c: Config, s: State, step: Step)
    requires WellFormed(c) && Consistent(c, s) && Enabled(s, step)
    ensures Consistent(c, Do(c, s, step))
    ensures forall h | h in s.locals && s.locals[h].acquired :: Do(c, s, step).locals[h].acquired
    ensures forall h | Rogue(s, h) :: Rogue(Do(c, s, step), h)
    ensures forall h | Rogue(Do(c, s, step), h) && !Rogue(s, h) ::
      step == ReleaseGet(h, true) && EntryNames(s, c.servers[h])
  {
    hide LocalOk, Enabled;
    StepFrame(c, s, step);
    EntryStep(c, s, step);
    if ByHandler(step) {
      StepLocal(c, s, step);
    }
  }

  lemma {:induction false} EntryStep(c: Config, s: State, step: Step)
    requires WellFormed(c) && Consistent(c, s) && Enabled(s, step)
    ensures var e, e' := s.entry, Do(c, s, step).entry;
      || e'.None?
      || (e.Some? && e'.value.owner == e.value.owner && e'.value.server == e.value.server)
      || (step.SetNx? && e'.value.owner == step.h && e'.value.server == c.servers[step.h]
          && Do(c, s, step).locals[step.h].acquired)
  {}

  lemma {:induction false} RogueStep(c: Config, s: State, step: Step, r: Handler)
    requires WellFormed(c) && Inv(c, s) && Enabled(s, step) && Rogue(Do(c, s, step), r)
    ensures Consistent(c, Do(c, s, step)) && HasSibling(c, Do(c, s, step), r)
  {
    var s' := Do(c, s, step);
    ConsistentStep(c, s, step);
    var a: Handler;
    if Rogue(s, r) {
      a :| a in s.locals && a != r && s.locals[a].acquired && c.servers[a] == c.servers[r];
    } else {
      a := s.entry.value.owner;
    }
    assert s'.locals[a].acquired;
  }

  /** Only three steps touch the entry. */
  lemma {:induction false} EntryTouched(c: Config, s: State, step: Step)
    requires WellFormed(c) && s.locals.Keys == c.servers.Keys && Enabled(s, step)
    requires ByHandler(step) && !step.SetNx? && !step.RefreshExtend? && !step.ReleaseDel?
    ensures Do(c, s, step).entry == s.entry
  {}

  /** A step of another handler: it is not in its section, or it owns the entry itself. */
  lemma {:induction false} ProtectedFromOther(c: Config, s: State, step: Step, h: Handler)
    requires WellFormed(c) && Consistent(c, s) && Protected(s) && Enabled(s, step) && ByHandler(step)
    requires step.h != h && Critical(s, h) && NoRogue(Do(c, s, step))
    ensures Do(c, s, step).entry == s.entry
  {
    assert Owns(s, h);
    assert Critical(s, step.h) ==> Owns(s, step.h);
    assert !Rogue(Do(c, s, step), step.h);
    if !step.ReleaseDel? && !step.SetNx? && !step.RefreshExtend? {
      EntryTouched(c, s, step);
    }
  }

  lemma {:induction false} ProtectedFromSelf(c: Config, s: State, step: Step)
    requires WellFormed(c) && s.locals.Keys == c.servers.Keys && Enabled(s, step) && ByHandler(step)
    requires (step == SetNx(step.h) && s.entry.None?) || (Critical(s, step.h) && Owns(s, step.h))
    requires Critical(Do(c, s, step), step.h)
    ensures Owns(Do(c, s, step), step.h)
  {}

  lemma {:induction false} ProtectedStep(c: Config, s: State, step: Step, h: Handler)
    requires WellFormed(c) && Consistent(c, s) && Protected(s) && Enabled(s, step)
    requires Timely(Do(c, s, step)) && NoRogue(Do(c, s, step)) && Critical(Do(c, s, step), h)
    ensures Owns(Do(c, s, step), h)
  {
    StepFrame(c, s, step);
    if !ByHandler(step) {
      assert Critical(s, h);
    } else if step.h == h {
      StepLocal(c, s, step);
      ProtectedFromSelf(c, s, step);
    } else {
      hide Do, Enabled, LocalOk;
      assert Critical(s, h);
      ProtectedFromOther(c, s, step, h);
    }
  }

  lemma {:induction false} InvStep(c: Config, s: State, step: Step)
    requires WellFormed(c) && Inv(c, s) && Enabled(s, step) && Timely(Do(c, s, step))
    ensures Inv(c, Do(c, s, step))
  {
    var s' := Do(c, s, step);
    ConsistentStep(c, s, step);
    forall r | Rogue(s', r) ensures HasSibling(c, s', r) {
      RogueStep(c, s, step, r);
    }
    if NoRogue(s') {
      assert NoRogue(s);
      forall h | Critical(s', h) ensures Owns(s', h) {
        ProtectedStep(c, s, step, h);
      }
    }
  }

  lemma {:induction false} InvRun(c: Config, states: seq<State>, steps: seq<Step>, i: nat)
    requires WellFormed(c) && IsTimelyRun(c, states, steps) && i < |states|
    ensures Inv(c, states[i])
  {
    if i > 0 {
      InvRun(c, states, steps, i - 1);
      InvStep(c, states[i - 1], steps[i - 1]);
    }
  }

  /** Mutual exclusion from the time bounds: as long as no release in a catch block has met
      an entry of another handler of its server, at most one handler is in its critical
      section, its own entry is in Redis and outlives the section so far, and the next step
      deletes or extends nobody else's entry. */
  lemma {:induction false} MutualExclusionFromTimeBounds(c: Config, states: seq<State>, steps: seq<Step>, i: nat)
    requires WellFormed(c) && IsTimelyRun(c, states, steps) && i < |states| && NoRogue(states[i])
    ensures Exclusive(states[i])
    ensures forall h | Critical(states[i], h) :: Owns(states[i], h) && states[i].now < states[i].entry.value.expires
    ensures i < |steps| && (steps[i].RefreshExtend? || steps[i].ReleaseDel?) ==>
      Owns(states[i], steps[i].h)
  {
    InvRun(c, states, steps, i);
    assert states[i] in states;
    if i < |steps| && steps[i].ReleaseDel? {
      assert !Rogue(states[i], steps[i].h);
    }
  }

  // ----- without the assumption on catch blocks -----

  /** Three handlers, two of them on one server. */
  ghost predicate ThirdParty(c: Config, a: Handler, b: Handler, d: Handler) {
    && a in c.servers && b in c.servers && d in c.servers
    && a != b && b != d && a != d
    && c.servers[a] == c.servers[b]
  }

  ghost predicate SharedServerAndThird(c: Config) {
    exists a, b, d :: ThirdParty(c, a, b, d)
  }

  ghost predicate AlwaysExclusive(c: Config)
    requires WellFormed(c)
  {
    forall states, steps | IsTimelyRun(c, states, steps) :: forall s | s in states :: Exclusive(s)
  }

  lemma {:induction false} TwoCriticalNeedThirdParty(c: Config, s: State, g: Handler, h: Handler)
    requires Inv(c, s) && Critical(s, g) && Critical(s, h) && g != h
    ensures SharedServerAndThird(c)
  {
    assert Owns(s, g) && Owns(s, h) ==> g == h;
    assert !Protected(s);
    var r :| Rogue(s, r);
    var a :| a in s.locals && a != r && s.locals[a].acquired && c.servers[a] == c.servers[r];
    var third := if a == g then h else g;
    assert ThirdParty(c, a, r, third);
  }

  ghost predicate Reached(c: Config, s: State)
    requires WellFormed(c)
  {
    exists states, steps :: IsTimelyRun(c, states, steps) && states[|steps|] == s
  }

  lemma {:induction false} ReachedStep(c: Config, s: State, step: Step)
    requires WellFormed(c) && Reached(c, s)
    requires s.locals.Keys == c.servers.Keys && Enabled(s, step) && Timely(Do(c, s, step))
    ensures Reached(c, Do(c, s, step))
  {
    hide Do, Enabled, Timely;
    var states, steps :| IsTimelyRun(c, states, steps) && states[|steps|] == s;
    var states', steps' := states + [Do(c, s, step)], steps + [step];
    assert forall i | 0 <= i < |steps| :: steps'[i] == steps[i] && states'[i] == states[i];
    assert IsTimelyRun(c, states', steps') && states'[|steps'|] == Do(c, s, step);
  }

  lemma {:induction false} InitReached(c: Config)
    requires WellFormed(c)
    ensures Reached(c, InitState(c))
  {
    var s0 := InitState(c);
    var none: seq<Step> := [];
    assert IsTimelyRun(c, [s0], none) && [s0][|none|] == s0;
  }

  /** The run in which b, refused the lock by an error, deletes the entry of a. */
  lemma {:induction false} ThirdPartyBreaksExclusion(c: Config, a: Handler, b: Handler, d: Handler)
    requires WellFormed(c) && ThirdParty(c, a, b, d)
    ensures exists s :: Reached(c, s) && Critical(s, a) && Critical(s, d)
  {
    hide Reached;
    InitReached(c);
    var s0 := InitState(c);
    var s1 := NextStep(c, s0, SetNx(a));
    assert EntryNames(s1, c.servers[b]) && Critical(s1, a) && In(s1, b, Waiting) && In(s1, d, Waiting);
    var s4 := RefusedReleases(c, s1, b);
    assert Critical(s4, a) && In(s4, d, Waiting);
    var s5 := NextStep(c, s4, SetNx(d));
    assert Critical(s5, a) && Critical(s5, d);
  }

  /** A handler that is refused the lock deletes the entry that names its server. */
  lemma {:induction false} RefusedReleases(c: Config, s: State, b: Handler) returns (s': State)
    requires WellFormed(c) && Reached(c, s) && s.locals.Keys == c.servers.Keys
    requires In(s, b, Waiting) && EntryNames(s, c.servers[b])
    ensures Reached(c, s') && s'.now == s.now && s'.locals.Keys == c.servers.Keys && s'.entry.None?
    ensures forall h | h in s.locals && h != b :: s'.locals[h] == s.locals[h]
  {
    hide Reached;
    s' := NextStep(c, s, GiveUp(b));
    s' := NextStep(c, s', ReleaseGet(b, true));
    s' := NextStep(c, s', ReleaseDel(b, true));
  }

  /** No handler is late as long as no time goes by. */
  lemma {:induction false} StaysTimely(c: Config, s: State, step: Step)
    requires WellFormed(c) && Reached(c, s) && ByHandler(step)
    requires s.locals.Keys == c.servers.Keys && Enabled(s, step)
    ensures Timely(Do(c, s, step))
  {
    assert Timely(s) by {
      var states, steps :| IsTimelyRun(c, states, steps) && states[|steps|] == s;
    }
    hide Reached;
    StepFrame(c, s, step);
    SinceNow(c, s, step);
  }

  lemma {:induction false} SinceNow(c: Config, s: State, step: Step)
    requires WellFormed(c) && s.locals.Keys == c.servers.Keys && Enabled(s, step) && ByHandler(step)
    ensures step.h in s.locals && step.h in Do(c, s, step).locals
    ensures Critical(Do(c, s, step), step.h) ==>
      || Do(c, s, step).locals[step.h].since == s.now
      || (Critical(s, step.h) && Do(c, s, step).locals[step.h].since == s.locals[step.h].since)
  {}

  lemma {:induction false} NextStep(c: Config, s: State, step: Step) returns (s': State)
    requires WellFormed(c) && Reached(c, s) && ByHandler(step)
    requires s.locals.Keys == c.servers.Keys && Enabled(s, step)
    ensures s' == Do(c, s, step) && Reached(c, s') && s'.now == s.now
    ensures s'.locals.Keys == c.servers.Keys
    ensures forall h | h in s.locals && h != step.h :: s'.locals[h] == s.locals[h]
  {
    s' := Do(c, s, step);
    StepFrame(c, s, step);
    StaysTimely(c, s, step);
    ReachedStep(c, s, step);
  }

  /** The lock keeps the handlers apart in every timely run exactly when there are not three
      handlers with two of them on the same server. */
  lemma {:induction false} ExclusiveExactlyWithoutThirdParty(c: Config)
    requires WellFormed(c)
    ensures AlwaysExclusive(c) <==> !SharedServerAndThird(c)
  {
    if SharedServerAndThird(c) {
      var a, b, d :| ThirdParty(c, a, b, d);
      ThirdPartyBreaksExclusion(c, a, b, d);
      var s :| Reached(c, s) && Critical(s, a) && Critical(s, d);
      var states, steps :| IsTimelyRun(c, states, steps) && states[|steps|] == s;
      assert s in states && !Exclusive(s);
    } else {
      forall states, steps, s | IsTimelyRun(c, states, steps) && s in states
        ensures Exclusive(s)
      {
        var i :| 0 <= i < |states| && states[i] == s;
        InvRun(c, states, steps, i);
        forall g, h | Critical(s, g) && Critical(s, h)
          ensures g == h
        {
          if g != h {
            TwoCriticalNeedThirdParty(c, s, g, h);
          }
        }
      }
    }
  }
}
