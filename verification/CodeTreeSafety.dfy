/** What the requests keep of the code trees, one by one and over whole runs. */
module CodeTreeSafety {
  import opened Wrappers
  import opened CodeTree
  import opened CodeStore
  import opened CodeDeletion

  // ----- relocateCode -----

  /** A code with another parent gets a new one; no other code but these two parents changes. */
  lemma {:induction false} MovedMaps(codes: Codes, c: CodeId, newParent: CodeId, keep: set<CodeId>)
    requires c in codes && newParent in codes && newParent != c && c !in keep
    requires codes[c].parent.Some? && codes[c].parent.value in codes && codes[c].parent.value != c
    ensures var c1, codes' := Forget(codes, codes[c].parent, c), Moved(codes, c, newParent);
      && codes'.Keys == codes.Keys && codes'[c] == codes[c].(parent := Some(newParent))
      && Forgets(codes, c1, c, keep) && Gains(c1, codes', newParent, c, keep)
      && forall x | x in codes && x !in {c, newParent, codes[c].parent.value} :: codes'[x] == codes[x]
  {}

  lemma {:induction false} MovedStores(codes: Codes, t: Tree, c: CodeId, newParent: CodeId)
    requires Represents(codes, t) && c in codes && newParent in codes && newParent !in Ids(Sub(t, c))
    ensures Represents(Moved(codes, c, newParent), Graft(Prune(t, c), newParent, Sub(t, c)))
  {
    var s, c1, codes' := Sub(t, c), Forget(codes, codes[c].parent, c), Moved(codes, c, newParent);
    assert c in IdsAll(t.kids) && newParent != c;
    ParentOutside(codes, None, t, c);
    SubFacts(codes, None, t, c);
    PruneFacts(t, c);
    MovedMaps(codes, c, newParent, Ids(t) - Ids(s));
    hide Moved, Forget, Prune, Graft, Sub;
    PruneStored(codes, c1, None, t, c);
    StoredAllFrame(codes, codes', c, s.kids);
    assert Stored(codes', Some(newParent), s);
    hide Stored, Unique, Forgets;
    GraftFacts(Prune(t, c), newParent, s);
    GraftStored(c1, codes', None, Prune(t, c), newParent, s);
  }

  /** All parents of these codes are among them: following parents never leads to the root. */
  predicate Closed(codes: Codes, xs: set<CodeId>) {
    forall x | x in xs :: x in codes && codes[x].parent.Some? && codes[x].parent.value in xs
  }

  lemma {:induction false} MovedBelowItself(codes: Codes, t: Tree, c: CodeId, newParent: CodeId)
    requires Represents(codes, t) && c in codes && newParent in Ids(Sub(t, c))
    ensures newParent in codes && Closed(Moved(codes, c, newParent), Ids(Sub(t, c)))
  {
    var s := Sub(t, c);
    SubFacts(codes, None, t, c);
    forall x | x in Ids(s)
      ensures x in codes && (x != c ==> codes[x].parent.Some? && codes[x].parent.value in Ids(s))
    {
      NodeFacts(codes, codes[c].parent, s, x);
    }
  }

  lemma {:induction false} ClosedIsNoTree(codes: Codes, xs: set<CodeId>, x: CodeId)
    requires Closed(codes, xs) && x in xs
    ensures !IsTree(codes)
  {
    if t :| Represents(codes, t) {
      ClosedIsUnreachable(codes, None, t, xs);
    }
  }

  /** Relocation keeps the tree exactly when the new parent is neither the code itself nor
      below it; otherwise the moved subtree is cut off from the root. */
  lemma {:induction false} RelocateKeepsTreeExactly(codes: Codes, t: Tree, c: CodeId, newParent: CodeId)
    requires Represents(codes, t) && c in codes && newParent in codes
    ensures IsTree(Moved(codes, c, newParent)) <==> newParent !in Ids(Sub(t, c))
    ensures newParent !in Ids(Sub(t, c)) ==>
      Represents(Moved(codes, c, newParent), Graft(Prune(t, c), newParent, Sub(t, c)))
    ensures newParent in Ids(Sub(t, c)) ==> Closed(Moved(codes, c, newParent), Ids(Sub(t, c)))
  {
    if newParent in Ids(Sub(t, c)) {
      MovedBelowItself(codes, t, c, newParent);
      ClosedIsNoTree(Moved(codes, c, newParent), Ids(Sub(t, c)), c);
    } else {
      MovedStores(codes, t, c, newParent);
    }
  }

  lemma {:induction false} RemoveFirstCount(s: seq<CodeId>, c: CodeId)
    requires c in s
    ensures multiset(RemoveFirst(s, c)) == multiset(s) - multiset{c}
    decreases s
  {
    assert s == [s[0]] + s[1..];
    if s[0] != c {
      RemoveFirstCount(s[1..], c);
    }
  }

  /** The first place where the code is listed is left out, the rest stays in order. */
  lemma {:induction false} RemoveFirstExactly(s: seq<CodeId>, c: CodeId) returns (k: nat)
    ensures k <= |s| && c !in s[..k] && (k < |s| ==> s[k] == c)
    ensures RemoveFirst(s, c) == s[..k] + if k < |s| then s[k + 1..] else []
    decreases s
  {
    if s == [] || s[0] == c {
      k := 0;
    } else {
      var j := RemoveFirstExactly(s[1..], c);
      k := j + 1;
      assert s[..k] == [s[0]] + s[1..][..j];
      assert k < |s| ==> s[k + 1..] == s[1..][j + 1..];
    }
  }

  /** What a relocation writes: the code's parent, the lists of the old and of the new parent, and
      one log entry; every name stays, and so does everything else. */
  lemma {:induction false} RelocateWrites(st: State, sys: SystemId, c: CodeId, newParent: CodeId)
    requires Has(st, sys, c) && Has(st, sys, newParent)
    ensures var codes, after := st.systems[sys].codes, AfterRelocate(st, sys, c, newParent);
      var codes' := after.systems[sys].codes;
      && after.log == st.log + [Relocated(sys, c, codes[c].parent)]
      && after.systems == st.systems[sys := System(st.systems[sys].maxCodeId, codes')]
      && codes'.Keys == codes.Keys
      && forall x | x in codes ::
           var left := if codes[c].parent == Some(x) then RemoveFirst(codes[x].subs, c) else codes[x].subs;
           && codes'[x].info == codes[x].info
           && codes'[x].parent == (if x == c then Some(newParent) else codes[x].parent)
           && codes'[x].subs == if x == newParent then left + [c] else left
  {}

  /** Relocation to a parent that does not exist throws, but only after the old parent has
      been saved: the tree survives exactly if there was no old parent. */
  lemma {:induction false} RelocateToNowhere(st: State, sys: SystemId, t: Tree, c: CodeId, newParent: CodeId)
    requires Has(st, sys, c) && Represents(st.systems[sys].codes, t) && !Has(st, sys, newParent)
    ensures IsTree(AfterRelocate(st, sys, c, newParent).systems[sys].codes) <==> c == t.id
    ensures AfterRelocate(st, sys, c, newParent).log == st.log
    ensures var codes, codes' := st.systems[sys].codes, AfterRelocate(st, sys, c, newParent).systems[sys].codes;
      && AfterRelocate(st, sys, c, newParent).systems == WithCodes(st.systems, sys, codes')
      && codes'.Keys == codes.Keys && forall x | x in codes && codes[c].parent != Some(x) :: codes'[x] == codes[x]
  {
    var codes := st.systems[sys].codes;
    var codes' := AfterRelocate(st, sys, c, newParent).systems[sys].codes;
    TreeMeans(codes, t);
    if c == t.id {
      assert codes' == codes;
    } else {
      var parent := codes[c].parent.value;
      assert ListedOnce(codes, c);
      RemoveFirstCount(codes[parent].subs, c);
      assert !ListedOnce(codes', c);
      if t' :| Represents(codes', t') {
        TreeMeans(codes', t');
      }
    }
  }

  // ----- removeCode -----

  lemma {:induction false} DeletionsCount(sys: SystemId, ids: seq<CodeId>, x: CodeId)
    ensures multiset(Deletions(sys, ids))[Deleted(sys, x)] == multiset(ids)[x]
    decreases ids
  {
    if ids != [] {
      DeletionsCount(sys, ids[1..], x);
      assert ids == [ids[0]] + ids[1..];
      assert Deletions(sys, ids) == [Deleted(sys, ids[0])] + Deletions(sys, ids[1..]);
    }
  }

  lemma {:induction false} RemovedCodes(codes: Codes, t: Tree, c: CodeId)
    requires Represents(codes, t) && c in codes
    ensures var codes' := Forget(codes, codes[c].parent, c) - Ids(Sub(t, c));
      && codes'.Keys == codes.Keys - Ids(Sub(t, c))
      && (c != t.id ==> Represents(codes', Prune(t, c)))
      && (c == t.id ==> codes' == map[])
  {
    var codes' := Forget(codes, codes[c].parent, c) - Ids(Sub(t, c));
    SubFacts(codes, None, t, c);
    if c != t.id {
      ParentOutside(codes, None, t, c);
      PruneFacts(t, c);
      PruneStored(codes, codes', None, t, c);
    } else {
      assert codes'.Keys == {};
    }
  }

  /** Sub(t, c) hangs from c also when its parent has forgotten it. */
  lemma {:induction false} SubStillHangs(codes: Codes, t: Tree, c: CodeId)
    requires Represents(codes, t) && c in codes
    ensures c in Ids(t) && Unique(Sub(t, c)) && Hangs(Forget(codes, codes[c].parent, c), Sub(t, c))
  {
    var s := Sub(t, c);
    SubFacts(codes, None, t, c);
    StoredHangs(codes, codes[c].parent, s);
    if c != t.id {
      ParentOutside(codes, None, t, c);
    }
    HangsFrame(codes, Forget(codes, codes[c].parent, c), s);
  }

  /** In a tree removeCode comes to its end exactly when the calls can be nested as deep as the
      subtree is high. */
  lemma {:induction false} RemoveEnds(codes: Codes, t: Tree, c: CodeId, depth: nat)
    requires Represents(codes, t) && c in codes
    ensures c in Ids(t) && c in Forget(codes, codes[c].parent, c)
    ensures Sweep(Forget(codes, codes[c].parent, c), c, depth).done <==> Height(Sub(t, c)) <= depth
  {
    SubStillHangs(codes, t, c);
    var codes' := Forget(codes, codes[c].parent, c);
    EndsExactly(codes', c, depth);
    if s: Tree :| s.id == c && Unique(s) && Hangs(codes', s) && Height(s) <= depth {
      HangsOnce(codes', s, Sub(t, c));
    }
  }

  /** Removal in a tree deletes exactly the code and its descendants, logs each of them once and
      nothing else, and leaves the tree without that subtree. */
  lemma {:induction false} RemoveIsExact(st: State, sys: SystemId, t: Tree, c: CodeId, depth: nat)
    requires Has(st, sys, c) && Represents(st.systems[sys].codes, t) && Height(Sub(t, c)) <= depth
    ensures var after := AfterRemove(st, sys, c, depth);
      && after.systems.Keys == st.systems.Keys
      && after.systems[sys].codes.Keys == st.systems[sys].codes.Keys - Ids(Sub(t, c))
      && (c != t.id ==> Represents(after.systems[sys].codes, Prune(t, c)))
      && (c == t.id ==> after.systems[sys].codes == map[])
      && st.log <= after.log
      && (forall e | e in after.log[|st.log|..] :: e.Deleted? && e.sys == sys)
      && forall x :: multiset(after.log[|st.log|..])[Deleted(sys, x)] == if x in Ids(Sub(t, c)) then 1 else 0
  {
    var codes, s := st.systems[sys].codes, Sub(t, c);
    var codes' := Forget(codes, codes[c].parent, c);
    RemovedCodes(codes, t, c);
    SubFacts(codes, None, t, c);
    SubStillHangs(codes, t, c);
    SweepTree(codes', s, depth);
    hide Represents, Forget, Prune, Stored, Sweep, Hangs, Height, Unique;
    assert codes' - IdsAll(s.kids) - {c} == codes' - Ids(s);
    var ids := [c] + PostOrderAll(s.kids);
    LogOfRemoval(st, sys, c, depth);
    forall x
      ensures multiset(Deletions(sys, ids))[Deleted(sys, x)] == if x in Ids(s) then 1 else 0
    {
      DeletionsCount(sys, ids, x);
      IdsOnce(s, x);
    }
  }

  lemma {:induction false} IdsOnce(s: Tree, x: CodeId)
    requires Unique(s)
    ensures multiset([s.id] + PostOrderAll(s.kids))[x] == if x in Ids(s) then 1 else 0
  {
    PostOrderAllOnce(s.kids, x);
    assert multiset([s.id] + PostOrderAll(s.kids))[x] == multiset([s.id])[x] + multiset(PostOrderAll(s.kids))[x];
  }

  lemma {:induction false} LogOfRemoval(st: State, sys: SystemId, c: CodeId, depth: nat)
    requires Has(st, sys, c)
    ensures var codes, after := st.systems[sys].codes, AfterRemove(st, sys, c, depth);
      && st.log <= after.log
      && after.log[|st.log|..] == Deletions(sys, [c] + Sweep(Forget(codes, codes[c].parent, c), c, depth).gone)
  {
    var codes := st.systems[sys].codes;
    hide Sweep;
    DeletionsConcat(sys, [c], Sweep(Forget(codes, codes[c].parent, c), c, depth).gone);
    assert Deletions(sys, [c]) == [Deleted(sys, c)];
  }

  /** Removal in any system, tree or not: it comes to its end exactly when a tree hangs from the
      code by the lists of sub-codes and is not too high; the codes that go are those that are
      logged, once each; only when it does not come to its end the code itself is logged and
      stays. No code changes but the parent, which forgets it. */
  lemma {:induction false} RemoveAccounts(st: State, sys: SystemId, c: CodeId, depth: nat)
    requires Has(st, sys, c)
    ensures var codes := st.systems[sys].codes;
      var codes', after := Forget(codes, codes[c].parent, c), AfterRemove(st, sys, c, depth);
      var left, news := after.systems[sys].codes, after.log[|st.log|..];
      && after.systems == WithCodes(st.systems, sys, left) && st.log <= after.log
      && (c !in left <==> exists t: Tree :: t.id == c && Unique(t) && Hangs(codes', t) && Height(t) <= depth)
      && left.Keys <= codes.Keys && (forall x | x in left :: left[x] == codes'[x])
      && forall x :: multiset(news)[Deleted(sys, x)] == if x == c || (x in codes && x !in left) then 1 else 0
  {
    var codes := st.systems[sys].codes;
    var codes' := Forget(codes, codes[c].parent, c);
    EndsExactly(codes', c, depth);
    SweepAccounts(codes', c, depth);
    RootStays(codes', c, depth);
    LogOfRemoval(st, sys, c, depth);
    var gone := Sweep(codes', c, depth).gone;
    hide Sweep, Hangs, Height, Unique;
    forall x
      ensures multiset(Deletions(sys, [c] + gone))[Deleted(sys, x)]
           == (if x == c then 1 else 0) + multiset(gone)[x]
    {
      DeletionsCount(sys, [c] + gone, x);
      assert multiset([c] + gone)[x] == multiset([c])[x] + multiset(gone)[x];
    }
  }

  // ----- insertCode -----

  lemma {:induction false} InsertedInTree(codes: Codes, codes': Codes, t: Tree, t': Tree, id: CodeId, code: Code,
      owner: Option<CodeId>)
    requires Represents(codes, t) && Represents(codes', t') && id !in codes
    requires codes'.Keys == codes.Keys + {id} && codes'[id] == code
    requires forall x | x in codes ::
      codes'[x] == (if Some(x) == owner then codes[x].(subs := codes[x].subs + [id]) else codes[x])
    ensures code.parent.Some? && code.parent == owner && code.subs == []
  {
    TreeMeans(codes, t);
    TreeMeans(codes', t');
    assert codes'[t.id].parent == None;
    var y := code.parent.value;
    assert ListedOnce(codes', id);
    assert id in codes'[y].subs;
    assert SubsNameParent(codes', y);
    assert SubsNameParent(codes, y);
    if code.subs != [] {
      var s := code.subs[0];
      assert SubsNameParent(codes', id);
      assert ListedOnce(codes, s);
    }
  }

  /** An insertion under an existing code keeps the tree exactly when the code names that
      code of the same system as its parent and comes without sub-codes. */
  lemma {:induction false} InsertKeepsTreeExactly(st: State, sys: SystemId, parentSys: SystemId, parentId: CodeId,
      code: Code, t: Tree)
    requires sys in st.systems && Represents(st.systems[sys].codes, t)
    requires st.systems[sys].maxCodeId + 1 !in st.systems[sys].codes
    requires Has(st, parentSys, parentId)
    ensures var codes' := AfterInsert(st, sys, parentSys, parentId, code).systems[sys].codes;
      IsTree(codes') <==> parentSys == sys && code.parent == Some(parentId) && code.subs == []
  {
    var id := st.systems[sys].maxCodeId + 1;
    var codes := st.systems[sys].codes;
    var codes' := AfterInsert(st, sys, parentSys, parentId, code).systems[sys].codes;
    var owner := if parentSys == sys then Some(parentId) else None;
    if t' :| Represents(codes', t') {
      InsertedInTree(codes, codes', t, t', id, code, owner);
    }
    if parentSys == sys && code.parent == Some(parentId) && code.subs == [] {
      InsertedLeaf(codes, codes', t, id, parentId);
    }
  }

  /** What an insertion under an existing code writes: the caller's code under the next id, that id
      as one more sub-code of the parent, the counter, one log entry, and nothing else. */
  lemma {:induction false} InsertWrites(st: State, sys: SystemId, parentSys: SystemId, parentId: CodeId, code: Code)
    requires sys in st.systems && Has(st, parentSys, parentId)
    requires parentSys == sys ==> parentId != st.systems[sys].maxCodeId + 1
    ensures var after, id := AfterInsert(st, sys, parentSys, parentId, code), st.systems[sys].maxCodeId + 1;
      && after.log == st.log + [Inserted(sys, id)]
      && after.systems.Keys == st.systems.Keys
      && Has(after, sys, id) && after.systems[sys].codes[id] == code
      && (forall s, c :: Has(after, s, c) <==> Has(st, s, c) || (s == sys && c == id))
      && (forall s | s in st.systems ::
            after.systems[s].maxCodeId == if s == sys then id else st.systems[s].maxCodeId)
      && forall s, c | Has(st, s, c) && !(s == sys && c == id) ::
           var old', new' := st.systems[s].codes[c], after.systems[s].codes[c];
           && new'.info == old'.info && new'.parent == old'.parent
           && new'.subs == if s == parentSys && c == parentId then old'.subs + [id] else old'.subs
  {}

  /** An insertion under a code that does not exist uses up an id and does nothing else. */
  lemma {:induction false} InsertNowhere(st: State, sys: SystemId, parentSys: SystemId, parentId: CodeId, code: Code)
    requires sys in st.systems && !Has(st, parentSys, parentId)
    ensures var after := AfterInsert(st, sys, parentSys, parentId, code);
      && after.log == st.log && after.systems.Keys == st.systems.Keys
      && forall s | s in st.systems ::
           && after.systems[s].codes == st.systems[s].codes
           && after.systems[s].maxCodeId == st.systems[s].maxCodeId + if s == sys then 1 else 0
  {}

  lemma {:induction false} InsertedLeaf(codes: Codes, codes': Codes, t: Tree, id: CodeId, parentId: CodeId)
    requires Represents(codes, t) && id !in codes && parentId in codes
    requires codes'.Keys == codes.Keys + {id}
    requires codes'[id].parent == Some(parentId) && codes'[id].subs == []
    requires Gains(codes, codes', parentId, id, Ids(t))
    ensures Represents(codes', Graft(t, parentId, Tree(id, [])))
  {
    var leaf := Tree(id, []);
    GraftFacts(t, parentId, leaf);
    GraftStored(codes, codes', None, t, parentId, leaf);
  }

  // ----- runs -----

  datatype Request =
    | InsertSystem(sys: SystemId)
    | UpdateSystem(sys: SystemId, claimedMax: CodeId)
    | Insert(sys: SystemId, parentSys: SystemId, parentId: CodeId, code: Code)
    | Relocate(sys: SystemId, c: CodeId, newParent: CodeId)
    | Remove(sys: SystemId, c: CodeId, depth: nat)
    | Clone(from: SystemId, into: SystemId)

  /** Requests about a system or code that does not exist throw before they change anything. */
  ghost predicate Served(st: State, r: Request) {
    match r
    case InsertSystem(sys) => sys !in st.systems
    case UpdateSystem(sys, _) => true
    case Insert(sys, _, _, _) => sys in st.systems
    case Relocate(sys, c, _) => Has(st, sys, c)
    case Remove(sys, c, _) => Has(st, sys, c)
    case Clone(from, into) => from in st.systems && into !in st.systems
  }

  ghost function Serve(st: State, r: Request): State
    requires Served(st, r)
  {
    match r
    case InsertSystem(sys) => st.(systems := st.systems[sys := System(1, map[1 := ROOT])])
    case UpdateSystem(sys, _) => st
    case Insert(sys, parentSys, parentId, code) => AfterInsert(st, sys, parentSys, parentId, code)
    case Relocate(sys, c, newParent) => AfterRelocate(st, sys, c, newParent)
    case Remove(sys, c, depth) => AfterRemove(st, sys, c, depth)
    case Clone(from, into) => st.(systems := st.systems[into := st.systems[from]])
  }

  /** The requests that keep the trees, by the theorems above. */
  ghost predicate Proper(st: State, r: Request) {
    match r
    case Insert(sys, parentSys, parentId, code) =>
      Has(st, parentSys, parentId) ==> parentSys == sys && code.parent == Some(parentId) && code.subs == []
    case Relocate(sys, c, newParent) =>
      Has(st, sys, newParent) && forall t | Represents(st.systems[sys].codes, t) ::
        c in Ids(t) && newParent !in Ids(Sub(t, c))
    case Remove(sys, c, depth) =>
      Has(st, sys, c) && forall t | Represents(st.systems[sys].codes, t) ::
        c in Ids(t) && Height(Sub(t, c)) <= depth
    case _ => true
  }

  ghost predicate Bounded(st: State) {
    forall sys, c | Has(st, sys, c) :: c <= st.systems[sys].maxCodeId
  }

  /** A system is a tree, or empty after its root was removed. */
  ghost predicate AllTrees(st: State) {
    forall sys | sys in st.systems :: st.systems[sys].codes == map[] || IsTree(st.systems[sys].codes)
  }

  /** Whatever is requested: ids stay at most maxCodeID, the counter never goes down, and a
      code is new in a system only with the next id. */
  lemma {:induction false} ServeIds(st: State, r: Request)
    requires Served(st, r) && Bounded(st)
    ensures Bounded(Serve(st, r))
    ensures forall sys | sys in st.systems ::
      sys in Serve(st, r).systems && st.systems[sys].maxCodeId <= Serve(st, r).systems[sys].maxCodeId
    ensures forall sys, c | sys in st.systems && Has(Serve(st, r), sys, c) && !Has(st, sys, c) ::
      c == st.systems[sys].maxCodeId + 1
  {
    if r.Remove? {
      RemoveAccounts(st, r.sys, r.c, r.depth);
    }
    var st' := Serve(st, r);
    forall sys, c | Has(st', sys, c)
      ensures Has(st, sys, c) || (sys in st.systems ==> c == st.systems[sys].maxCodeId + 1)
      ensures c <= st'.systems[sys].maxCodeId
    {
      var home := if r.Clone? && sys == r.into then r.from else sys;
      assert Has(st, home, c) ==> c <= st.systems[home].maxCodeId;
    }
  }

  lemma {:induction false} ServeTrees(st: State, r: Request)
    requires Served(st, r) && Bounded(st) && AllTrees(st) && Proper(st, r)
    ensures AllTrees(Serve(st, r))
  {
    var st' := Serve(st, r);
    match r
    case InsertSystem(sys) =>
      var t := Tree(1, []);
      assert Represents(st'.systems[sys].codes, t);
    case UpdateSystem(_, _) =>
    case Insert(sys, parentSys, parentId, code) =>
      if Has(st, parentSys, parentId) {
        var t :| Represents(st.systems[sys].codes, t);
        assert !Has(st, sys, st.systems[sys].maxCodeId + 1);
        InsertKeepsTreeExactly(st, sys, parentSys, parentId, code, t);
      }
    case Relocate(sys, c, newParent) =>
      var t :| Represents(st.systems[sys].codes, t);
      RelocateKeepsTreeExactly(st.systems[sys].codes, t, c, newParent);
    case Remove(sys, c, depth) =>
      var t :| Represents(st.systems[sys].codes, t);
      RemoveIsExact(st, sys, t, c, depth);
    case Clone(_, _) =>
  }

  ghost predicate IsRun(states: seq<State>, requests: seq<Request>) {
    && |states| == |requests| + 1 && states[0] == State(map[], [])
    && forall i | 0 <= i < |requests| ::
         Served(states[i], requests[i]) && states[i + 1] == Serve(states[i], requests[i])
  }

  lemma {:induction false} RunIds(states: seq<State>, requests: seq<Request>, i: nat, j: nat)
    requires IsRun(states, requests) && i <= j < |states|
    ensures Bounded(states[i]) && Bounded(states[j])
    ensures forall sys | sys in states[i].systems ::
      sys in states[j].systems && states[i].systems[sys].maxCodeId <= states[j].systems[sys].maxCodeId
    decreases j
  {
    if i < j {
      RunIds(states, requests, i, j - 1);
      ServeIds(states[j - 1], requests[j - 1]);
    } else if j > 0 {
      RunIds(states, requests, j - 1, j - 1);
      ServeIds(states[j - 1], requests[j - 1]);
    }
  }

  /** Code ids are never reused: a code that has gone does not come back under its id. */
  lemma {:induction false} GoneStaysGone(states: seq<State>, requests: seq<Request>, i: nat, j: nat, k: nat,
      sys: SystemId, c: CodeId)
    requires IsRun(states, requests) && i <= j <= k < |states|
    requires Has(states[i], sys, c) && !Has(states[j], sys, c)
    ensures !Has(states[k], sys, c)
    decreases k
  {
    if j < k {
      GoneStaysGone(states, requests, i, j, k - 1, sys, c);
      RunIds(states, requests, i, k - 1);
      ServeIds(states[k - 1], requests[k - 1]);
    }
  }

  /** Over every run of proper requests, every system is a tree with ids up to maxCodeID. */
  lemma {:induction false} RunTrees(states: seq<State>, requests: seq<Request>, i: nat)
    requires IsRun(states, requests) && i < |states|
    requires forall j | 0 <= j < |requests| :: Proper(states[j], requests[j])
    ensures AllTrees(states[i]) && Bounded(states[i])
  {
    RunIds(states, requests, i, i);
    if i > 0 {
      RunTrees(states, requests, i - 1);
      ServeTrees(states[i - 1], requests[i - 1]);
    }
  }

  /** The systems that a request writes. */
  predicate Writes(r: Request, sys: SystemId) {
    match r
    case Insert(s, p, _, _) => sys == s || sys == p
    case Clone(_, into) => sys == into
    case _ => sys == r.sys
  }

  /** A clone is the same codes in another system, with the same counter; after any requests
      about the one of the two, the other is still what was cloned. */
  lemma {:induction false} CloneIsIndependent(states: seq<State>, requests: seq<Request>, i: nat, j: nat, sys: SystemId)
    requires IsRun(states, requests) && i < j < |states| && requests[i].Clone?
    requires sys in {requests[i].from, requests[i].into}
    requires forall k | i < k < j :: !Writes(requests[k], sys)
    ensures requests[i].from in states[i].systems && sys in states[j].systems
    ensures states[j].systems[sys] == states[i].systems[requests[i].from]
    decreases j
  {
    assert Served(states[i], requests[i]);
    if i + 1 < j {
      CloneIsIndependent(states, requests, i, j - 1, sys);
      assert Served(states[j - 1], requests[j - 1]);
    }
  }
}
