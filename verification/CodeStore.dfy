/** The endpoints that change code systems: insertCodeSystem, updateCodeSystem,
    cloneCodeSystem (src/com/qdacity/endpoint/CodeSystemEndpoint.java) and insertCode,
    relocateCode, removeCode (src/com/qdacity/endpoint/CodeEndpoint.java), over a datastore
    in which a code is found by its code system and its code id. */
module CodeStore {
  import opened Wrappers
  import opened CodeTree

  type SystemId = int

  datatype System = System(maxCodeId: CodeId, codes: Codes)
  datatype LogEntry =
    | Inserted(sys: SystemId, id: CodeId)
    | Relocated(sys: SystemId, id: CodeId, oldParent: Option<CodeId>)
    | Deleted(sys: SystemId, id: CodeId)
  datatype State = State(systems: map<SystemId, System>, log: seq<LogEntry>)

  predicate Has(st: State, sys: SystemId, c: CodeId) {
    sys in st.systems && c in st.systems[sys].codes
  }

  function WithCodes(systems: map<SystemId, System>, sys: SystemId, codes: Codes): map<SystemId, System>
    requires sys in systems
  {
    systems[sys := systems[sys].(codes := codes)]
  }

  // ----- what the requests do -----

  const ROOT: Code := Code(None, [], "Code System")

  /** The counter goes up first, so it does even when the parent does not exist. */
  function AfterInsert(st: State, sys: SystemId, parentSys: SystemId, parentId: CodeId, code: Code): State
    requires sys in st.systems
  {
    var id := st.systems[sys].maxCodeId + 1;
    var s1 := st.systems[sys := st.systems[sys].(maxCodeId := id)];
    if !(parentSys in s1 && parentId in s1[parentSys].codes) then st.(systems := s1)
    else
      var siblings := s1[parentSys].codes;
      var parent := siblings[parentId];
      var s2 := WithCodes(s1, parentSys, siblings[parentId := parent.(subs := parent.subs + [id])]);
      State(WithCodes(s2, sys, s2[sys].codes[id := code]), st.log + [Inserted(sys, id)])
  }

  function Forget(codes: Codes, parent: Option<CodeId>, c: CodeId): Codes {
    if parent.Some? && parent.value in codes then
      codes[parent.value := codes[parent.value].(subs := RemoveFirst(codes[parent.value].subs, c))]
    else codes
  }

  /** The old parent forgets the code, the new one lists it, the code names the new one. */
  function Moved(codes: Codes, c: CodeId, newParent: CodeId): Codes
    requires c in codes && newParent in codes
  {
    var c1 := Forget(codes, codes[c].parent, c);
    var c2 := c1[newParent := c1[newParent].(subs := c1[newParent].subs + [c])];
    c2[c := c2[c].(parent := Some(newParent))]
  }

  /** A new parent that does not exist throws after the old one has been saved. */
  function AfterRelocate(st: State, sys: SystemId, c: CodeId, newParent: CodeId): State
    requires Has(st, sys, c)
  {
    var codes := st.systems[sys].codes;
    if newParent !in codes then
      st.(systems := WithCodes(st.systems, sys, Forget(codes, codes[c].parent, c)))
    else
      State(WithCodes(st.systems, sys, Moved(codes, c, newParent)),
            st.log + [Relocated(sys, c, codes[c].parent)])
  }

  /** The codes that are left, those that have been deleted and logged, in order, and whether
      the recursion came to its end. */
  datatype Swept = Swept(codes: Codes, gone: seq<CodeId>, done: bool)

  /** removeSubCodes, on whatever is stored: it throws at a sub-code id without a code, and when
      the calls are nested too deep, as they are on a cycle; what is deleted by then is gone. */
  function Sweep(codes: Codes, c: CodeId, depth: nat): Swept
    requires c in codes
    decreases depth, 1, 0
  {
    if depth == 0 then Swept(codes, [], false) else SweepList(codes, codes[c].subs, depth)
  }

  function SweepList(codes: Codes, subs: seq<CodeId>, depth: nat): Swept
    requires depth > 0
    decreases depth, 0, |subs|
  {
    if subs == [] then Swept(codes, [], true)
    else if subs[0] !in codes then Swept(codes, [], false)
    else
      var below := Sweep(codes, subs[0], depth - 1);
      if !below.done then below
      else
        var others := SweepList(below.codes - {subs[0]}, subs[1..], depth);
        others.(gone := below.gone + [subs[0]] + others.gone)
  }

  function Deletions(sys: SystemId, ids: seq<CodeId>): seq<LogEntry> {
    seq(|ids|, i requires 0 <= i < |ids| => Deleted(sys, ids[i]))
  }

  /** The deletion of the code is logged and its parent forgets it before anything can throw. */
  function AfterRemove(st: State, sys: SystemId, c: CodeId, depth: nat): State
    requires Has(st, sys, c)
  {
    var codes := st.systems[sys].codes;
    var swept := Sweep(Forget(codes, codes[c].parent, c), c, depth);
    State(WithCodes(st.systems, sys, if swept.done then swept.codes - {c} else swept.codes),
          Logged(st.log + [Deleted(sys, c)], sys, swept.gone))
  }

  lemma {:induction false} DeletionsConcat(sys: SystemId, a: seq<CodeId>, b: seq<CodeId>)
    ensures Deletions(sys, a + b) == Deletions(sys, a) + Deletions(sys, b)
  {}

  function Logged(log: seq<LogEntry>, sys: SystemId, ids: seq<CodeId>): seq<LogEntry> {
    log + Deletions(sys, ids)
  }

  lemma {:induction false} LoggedMore(log: seq<LogEntry>, sys: SystemId, a: seq<CodeId>, b: seq<CodeId>, c: CodeId)
    ensures Logged(log, sys, []) == log
    ensures Logged(Logged(log, sys, a), sys, b) == Logged(log, sys, a + b)
    ensures Logged(log, sys, a + b) + [Deleted(sys, c)] == Logged(log, sys, a + b + [c])
  {
    DeletionsConcat(sys, a, b);
    DeletionsConcat(sys, a + b, [c]);
    assert Deletions(sys, [c]) == [Deleted(sys, c)];
  }

  /** Some of the sub-codes have been swept. */
  function After(front: seq<CodeId>, others: Swept): Swept {
    others.(gone := front + others.gone)
  }

  lemma {:induction false} OneSwept(codes: Codes, subs: seq<CodeId>, k: nat, depth: nat, gone: seq<CodeId>)
    requires k < |subs| && depth > 0
    ensures var rest := After(gone, SweepList(codes, subs[k..], depth));
      if subs[k] !in codes then rest == Swept(codes, gone, false)
      else
        var below := Sweep(codes, subs[k], depth - 1);
        if !below.done then rest == Swept(below.codes, gone + below.gone, false)
        else rest == After(gone + below.gone + [subs[k]],
                           SweepList(below.codes - {subs[k]}, subs[k + 1..], depth))
  {
    assert subs[k..][1..] == subs[k + 1..];
  }

  lemma {:induction false} SweptAtEnd(codes: Codes, subs: seq<CodeId>, depth: nat, gone: seq<CodeId>)
    requires depth > 0
    ensures After(gone, SweepList(codes, subs[|subs|..], depth)) == Swept(codes, gone, true)
    ensures subs[0..] == subs && After([], SweepList(codes, subs, depth)) == SweepList(codes, subs, depth)
  {}

  /** The datastore: the code systems with their codes, and the change log. */
  class Datastore {
    var systems: map<SystemId, System>
    var log: seq<LogEntry>

    constructor ()
      ensures systems == map[] && log == []
    {
      systems, log := map[], [];
    }

    function Now(): State
      reads this
    {
      State(systems, log)
    }

    method Save(sys: SystemId, c: CodeId, code: Code)
      requires sys in systems
      modifies this`systems
      ensures systems == WithCodes(old(systems), sys, old(systems)[sys].codes[c := code])
    {
      systems := systems[sys := systems[sys].(codes := systems[sys].codes[c := code])];
    }

    method InsertCodeSystem(sys: SystemId)
      requires sys !in systems
      modifies this
      ensures Now() == State(old(systems)[sys := System(1, map[1 := Code(None, [], "Code System")])], old(log))
    {
      systems := systems[sys := System(1, map[])];
      Save(sys, 1, ROOT);
    }

    /** The counter of the caller's copy is not trusted. */
    method UpdateCodeSystem(sys: SystemId, claimedMax: CodeId) returns (ok: bool)
      modifies this
      ensures ok == (sys in old(systems))
      ensures Now() == old(Now())
    {
      if sys !in systems {
        return false;
      }
      var copy := System(claimedMax, systems[sys].codes);
      copy := copy.(maxCodeId := systems[sys].maxCodeId);
      systems := systems[sys := copy];
      ok := true;
    }

    method GetAndIncrCodeId(sys: SystemId) returns (id: CodeId)
      requires sys in systems
      modifies this`systems
      ensures id == old(systems)[sys].maxCodeId + 1
      ensures systems == old(systems)[sys := old(systems)[sys].(maxCodeId := id)]
    {
      systems := systems[sys := systems[sys].(maxCodeId := systems[sys].maxCodeId + 1)];
      id := systems[sys].maxCodeId;
    }

    method InsertCode(sys: SystemId, parentSys: SystemId, parentId: CodeId, code: Code) returns (id: Option<CodeId>)
      requires sys in systems
      modifies this
      ensures Now() == AfterInsert(old(Now()), sys, parentSys, parentId, code)
      ensures id == if old(Has(Now(), parentSys, parentId)) then Some(old(systems)[sys].maxCodeId + 1) else None
    {
      var next := GetAndIncrCodeId(sys);
      if !(parentSys in systems && parentId in systems[parentSys].codes) {
        return None;
      }
      var parent := systems[parentSys].codes[parentId];
      Save(parentSys, parentId, parent.(subs := parent.subs + [next]));
      Save(sys, next, code);
      log := log + [Inserted(sys, next)];
      id := Some(next);
    }

    /** The old parent, if there is one, forgets the code. */
    method ForgetSub(sys: SystemId, parent: Option<CodeId>, c: CodeId)
      requires sys in systems
      modifies this`systems
      ensures systems == WithCodes(old(systems), sys, Forget(old(systems)[sys].codes, parent, c))
    {
      if parent.Some? && parent.value in systems[sys].codes {
        var code := systems[sys].codes[parent.value];
        Save(sys, parent.value, code.(subs := RemoveFirst(code.subs, c)));
      }
    }

    method RelocateCode(sys: SystemId, c: CodeId, newParent: CodeId) returns (ok: bool)
      requires sys in systems && c in systems[sys].codes
      modifies this
      ensures ok == (newParent in old(systems)[sys].codes)
      ensures Now() == AfterRelocate(old(Now()), sys, c, newParent)
    {
      var oldParent := systems[sys].codes[c].parent;
      ForgetSub(sys, oldParent, c);
      if newParent !in systems[sys].codes {
        return false;
      }
      var parent := systems[sys].codes[newParent];
      Save(sys, newParent, parent.(subs := parent.subs + [c]));
      Save(sys, c, systems[sys].codes[c].(parent := Some(newParent)));
      log := log + [Relocated(sys, c, oldParent)];
      ok := true;
    }

    method Delete(sys: SystemId, c: CodeId)
      requires sys in systems
      modifies this`systems
      ensures systems == WithCodes(old(systems), sys, old(systems)[sys].codes - {c})
    {
      systems := systems[sys := systems[sys].(codes := systems[sys].codes - {c})];
    }

    /** Deletes everything below c; `depth` is how many more calls the stack holds. */
    method RemoveSubCodes(sys: SystemId, c: CodeId, depth: nat) returns (ok: bool)
      requires sys in systems && c in systems[sys].codes
      modifies this
      ensures ok == Sweep(old(systems)[sys].codes, c, depth).done
      ensures systems == WithCodes(old(systems), sys, Sweep(old(systems)[sys].codes, c, depth).codes)
      ensures log == Logged(old(log), sys, Sweep(old(systems)[sys].codes, c, depth).gone)
      decreases depth
    {
      if depth == 0 {
        return false;
      }
      var subIds := systems[sys].codes[c].subs;
      ghost var before, whole := systems, Sweep(systems[sys].codes, c, depth);
      ghost var gone: seq<CodeId> := [];
      SweptAtEnd(systems[sys].codes, subIds, depth, gone);
      LoggedMore(log, sys, [], [], c);
      hide Sweep, SweepList, Logged, After;
      for k := 0 to |subIds|
        invariant sys in systems && systems == WithCodes(before, sys, systems[sys].codes)
        invariant whole == After(gone, SweepList(systems[sys].codes, subIds[k..], depth))
        invariant log == Logged(old(log), sys, gone)
      {
        var sub := subIds[k];
        OneSwept(systems[sys].codes, subIds, k, depth, gone);
        if sub !in systems[sys].codes {
          return false;
        }
        ghost var below := Sweep(systems[sys].codes, sub, depth - 1);
        LoggedMore(old(log), sys, gone, below.gone, sub);
        ok := RemoveSubCodes(sys, sub, depth - 1);
        if !ok {
          return false;
        }
        log := log + [Deleted(sys, sub)];
        Delete(sys, sub);
        gone := gone + below.gone + [sub];
      }
      SweptAtEnd(systems[sys].codes, subIds, depth, gone);
      ok := true;
    }

    /** The recursion that throws leaves the code itself where it is. */
    method RemoveCode(sys: SystemId, c: CodeId, depth: nat) returns (ok: bool)
      requires sys in systems && c in systems[sys].codes
      modifies this
      ensures Now() == AfterRemove(old(Now()), sys, c, depth)
      ensures var codes := old(systems)[sys].codes;
        ok == Sweep(Forget(codes, codes[c].parent, c), c, depth).done
    {
      log := log + [Deleted(sys, c)];
      ForgetSub(sys, systems[sys].codes[c].parent, c);
      ok := RemoveSubCodes(sys, c, depth);
      if ok {
        Delete(sys, c);
      }
    }

    /** The codes are copied one by one, in the order of the query; the datastore gives the
        copy the unused id `into`. */
    method CloneCodeSystem(from: SystemId, into: SystemId, order: seq<CodeId>)
      requires from in systems && into !in systems
      requires forall c :: c in order <==> c in systems[from].codes
      modifies this
      ensures Now() == State(old(systems)[into := old(systems)[from]], old(log))
    {
      ghost var original := systems[from];
      assert forall c :: c in order <==> c in original.codes;
      systems := systems[into := System(systems[from].maxCodeId, map[])];
      for k := 0 to |order|
        invariant into in systems && log == old(log)
        invariant systems == old(systems)[into := System(original.maxCodeId, systems[into].codes)]
        invariant forall c :: c in systems[into].codes <==> c in order[..k]
        invariant forall c | c in systems[into].codes ::
          c in original.codes && systems[into].codes[c] == original.codes[c]
      {
        assert order[..k + 1] == order[..k] + [order[k]] && order[k] in order;
        assert systems[from] == original;
        assert order[k] in original.codes;
        var code := systems[from].codes[order[k]];
        Save(into, order[k], Code(code.parent, code.subs, code.info));
      }
      assert order[..|order|] == order;
      ghost var copy := systems[into].codes;
      assert forall c :: c in copy <==> c in order;
      assert forall c | c in copy :: copy[c] == original.codes[c];
      assert copy == original.codes;
    }
  }

  /** The parent of a code that is not the root lies outside the code's subtree. */
  lemma {:induction false} ParentOutside(codes: Codes, parent: Option<CodeId>, t: Tree, c: CodeId)
    requires Unique(t) && Stored(codes, parent, t) && c in Ids(t) && c != t.id
    ensures c in codes && codes[c].parent.Some?
    ensures codes[c].parent.value in Ids(t) && codes[c].parent.value !in Ids(Sub(t, c))
    decreases t
  {
    var k := KidWith(t.kids, c);
    KidIsThere(t.kids, k);
    StoredKid(codes, t.id, t.kids, k);
    UniqueKid(t.kids, k);
    SubInKid(t.kids, k, c);
    SubAllIds(t.kids, c);
    if t.kids[k].id != c {
      ParentOutside(codes, Some(t.id), t.kids[k], c);
    }
  }

  lemma {:induction false} SubInKid(ts: seq<Tree>, k: nat, c: CodeId)
    requires UniqueAll(ts) && k < |ts| && c in Ids(ts[k])
    ensures c in IdsAll(ts) && SubAll(ts, c) == Sub(ts[k], c)
    decreases ts
  {
    KidIsThere(ts, k);
    if k > 0 {
      KidIsThere(ts[1..], k - 1);
      SubInKid(ts[1..], k - 1, c);
    }
  }
}
