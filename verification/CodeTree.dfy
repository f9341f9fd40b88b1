/** The codes of one code system and the tree they form (src/com/qdacity/endpoint/CodeEndpoint.java).
    The tree is stored twice: each code names its parent and lists its sub-codes. */
module CodeTree {
  import opened Wrappers

  type CodeId = int

  datatype Code = Code(parent: Option<CodeId>, subs: seq<CodeId>, info: string)
  type Codes = map<CodeId, Code>

  datatype Tree = Tree(id: CodeId, kids: seq<Tree>)

  function Ids(t: Tree): set<CodeId>
    decreases t, 0
  {
    {t.id} + IdsAll(t.kids)
  }

  function IdsAll(ts: seq<Tree>): set<CodeId>
    decreases ts, 1
  {
    if ts == [] then {} else Ids(ts[0]) + IdsAll(ts[1..])
  }

  predicate Unique(t: Tree)
    decreases t, 0
  {
    t.id !in IdsAll(t.kids) && UniqueAll(t.kids)
  }

  predicate UniqueAll(ts: seq<Tree>)
    decreases ts, 1
  {
    ts != [] ==> Unique(ts[0]) && UniqueAll(ts[1..]) && Ids(ts[0]) !! IdsAll(ts[1..])
  }

  function Roots(ts: seq<Tree>): seq<CodeId> {
    seq(|ts|, i requires 0 <= i < |ts| => ts[i].id)
  }

  /** The codes hold the tree: every node is there, under its parent, with its children. */
  predicate Stored(codes: Codes, parent: Option<CodeId>, t: Tree)
    decreases t, 0
  {
    && t.id in codes && codes[t.id].parent == parent && codes[t.id].subs == Roots(t.kids)
    && StoredAll(codes, t.id, t.kids)
  }

  predicate StoredAll(codes: Codes, parent: CodeId, ts: seq<Tree>)
    decreases ts, 1
  {
    ts != [] ==> Stored(codes, Some(parent), ts[0]) && StoredAll(codes, parent, ts[1..])
  }

  ghost predicate Represents(codes: Codes, t: Tree) {
    Unique(t) && Stored(codes, None, t) && codes.Keys == Ids(t)
  }

  ghost predicate IsTree(codes: Codes) {
    exists t :: Represents(codes, t)
  }

  // ----- what being a tree means for the stored fields -----

  lemma {:induction false} IdsAllConcat(a: seq<Tree>, b: seq<Tree>)
    ensures IdsAll(a + b) == IdsAll(a) + IdsAll(b)
    ensures UniqueAll(a + b) <==> UniqueAll(a) && UniqueAll(b) && IdsAll(a) !! IdsAll(b)
    decreases a
  {
    if a == [] {
      assert a + b == b;
    } else {
      assert (a + b)[1..] == a[1..] + b;
      IdsAllConcat(a[1..], b);
    }
  }

  lemma {:induction false} StoredAllConcat(codes: Codes, parent: CodeId, a: seq<Tree>, b: seq<Tree>)
    ensures StoredAll(codes, parent, a + b) <==> StoredAll(codes, parent, a) && StoredAll(codes, parent, b)
    decreases a
  {
    if a == [] {
      assert a + b == b;
    } else {
      assert (a + b)[1..] == a[1..] + b;
      StoredAllConcat(codes, parent, a[1..], b);
    }
  }

  lemma {:induction false} KidIsThere(ts: seq<Tree>, k: nat)
    requires k < |ts|
    ensures Ids(ts[k]) <= IdsAll(ts) && ts[k].id in IdsAll(ts)
    decreases ts
  {
    if k > 0 {
      KidIsThere(ts[1..], k - 1);
    }
  }

  lemma {:induction false} KidsDiffer(ts: seq<Tree>, j: nat, k: nat)
    requires UniqueAll(ts) && j < k < |ts|
    ensures Ids(ts[j]) !! Ids(ts[k])
    decreases ts
  {
    if j == 0 {
      KidIsThere(ts[1..], k - 1);
    } else {
      KidsDiffer(ts[1..], j - 1, k - 1);
    }
  }

  lemma {:induction false} StoredKid(codes: Codes, parent: CodeId, ts: seq<Tree>, k: nat)
    requires StoredAll(codes, parent, ts) && k < |ts|
    ensures Stored(codes, Some(parent), ts[k])
    decreases ts
  {
    if k > 0 {
      StoredKid(codes, parent, ts[1..], k - 1);
    }
  }

  /** A listed sub-code exists and names the lister as its parent. */
  predicate SubsNameParent(codes: Codes, x: CodeId)
    requires x in codes
  {
    forall s | s in codes[x].subs :: s != x && s in codes && codes[s].parent == Some(x)
  }

  /** A code with a parent is listed there, once. */
  predicate ListedOnce(codes: Codes, x: CodeId)
    requires x in codes
  {
    codes[x].parent.Some? ==>
      && codes[x].parent.value in codes
      && multiset(codes[codes[x].parent.value].subs)[x] == 1
  }

  lemma {:induction false} DistinctOnce(s: seq<CodeId>, k: nat)
    requires k < |s| && forall i, j | 0 <= i < j < |s| :: s[i] != s[j]
    ensures multiset(s)[s[k]] == 1
  {
    assert s == s[..k] + [s[k]] + s[k + 1..];
    assert s[k] !in s[..k] && s[k] !in s[k + 1..];
  }

  lemma {:induction false} NodeFacts(codes: Codes, parent: Option<CodeId>, t: Tree, x: CodeId)
    requires Unique(t) && Stored(codes, parent, t) && x in Ids(t)
    ensures x in codes && SubsNameParent(codes, x)
    ensures codes[x].subs != [] ==> forall s | s in codes[x].subs :: s in Ids(t)
    ensures x != t.id ==> ListedOnce(codes, x) && codes[x].parent.Some? && codes[x].parent.value in Ids(t)
    decreases t
  {
    if x == t.id {
      forall s | s in codes[x].subs
        ensures s != x && s in codes && codes[s].parent == Some(x) && s in Ids(t)
      {
        var k :| 0 <= k < |t.kids| && s == t.kids[k].id;
        KidIsThere(t.kids, k);
        StoredKid(codes, t.id, t.kids, k);
      }
    } else {
      var k := KidWith(t.kids, x);
      StoredKid(codes, t.id, t.kids, k);
      UniqueKid(t.kids, k);
      KidIsThere(t.kids, k);
      NodeFacts(codes, Some(t.id), t.kids[k], x);
      if x == t.kids[k].id {
        forall i, j | 0 <= i < j < |t.kids| ensures t.kids[i].id != t.kids[j].id {
          KidsDiffer(t.kids, i, j);
        }
        assert codes[t.id].subs[k] == x;
        DistinctOnce(codes[t.id].subs, k);
      }
    }
  }

  lemma {:induction false} KidWith(ts: seq<Tree>, x: CodeId) returns (k: nat)
    requires x in IdsAll(ts)
    ensures k < |ts| && x in Ids(ts[k])
    decreases ts
  {
    if x in Ids(ts[0]) {
      k := 0;
    } else {
      var l := KidWith(ts[1..], x);
      k := l + 1;
    }
  }

  lemma {:induction false} UniqueKid(ts: seq<Tree>, k: nat)
    requires UniqueAll(ts) && k < |ts|
    ensures Unique(ts[k])
    decreases ts
  {
    if k > 0 {
      UniqueKid(ts[1..], k - 1);
    }
  }

  /** One code has no parent; every other one is listed exactly once, by the code it names as
      its parent; every listed sub-code exists and names its lister. */
  lemma {:induction false} TreeMeans(codes: Codes, t: Tree)
    requires Represents(codes, t)
    ensures t.id in codes && codes[t.id].parent == None
    ensures forall x | x in codes && x != t.id :: codes[x].parent.Some? && ListedOnce(codes, x)
    ensures forall x | x in codes :: SubsNameParent(codes, x)
  {
    forall x | x in codes
      ensures SubsNameParent(codes, x) && (x != t.id ==> codes[x].parent.Some? && ListedOnce(codes, x))
    {
      NodeFacts(codes, None, t, x);
    }
  }

  // ----- subtrees -----

  function Sub(t: Tree, c: CodeId): (s: Tree)
    requires c in Ids(t)
    ensures s.id == c
    decreases t, 0
  {
    if t.id == c then t else SubAll(t.kids, c)
  }

  function SubAll(ts: seq<Tree>, c: CodeId): (s: Tree)
    requires c in IdsAll(ts)
    ensures s.id == c
    decreases ts, 1
  {
    if c in Ids(ts[0]) then Sub(ts[0], c) else SubAll(ts[1..], c)
  }

  /** The tree without the subtree of c, which is not the root. */
  function Prune(t: Tree, c: CodeId): Tree
    decreases t, 0
  {
    Tree(t.id, PruneAll(t.kids, c))
  }

  function PruneAll(ts: seq<Tree>, c: CodeId): seq<Tree>
    decreases ts, 1
  {
    if ts == [] then []
    else if ts[0].id == c then ts[1..]
    else [Prune(ts[0], c)] + PruneAll(ts[1..], c)
  }

  /** The tree with s as a new last child of p. */
  function Graft(t: Tree, p: CodeId, s: Tree): Tree
    decreases t, 0
  {
    Tree(t.id, if t.id == p then t.kids + [s] else GraftAll(t.kids, p, s))
  }

  function GraftAll(ts: seq<Tree>, p: CodeId, s: Tree): seq<Tree>
    decreases ts, 1
  {
    if ts == [] then [] else [Graft(ts[0], p, s)] + GraftAll(ts[1..], p, s)
  }

  lemma {:induction false} SubFacts(codes: Codes, parent: Option<CodeId>, t: Tree, c: CodeId)
    requires Unique(t) && Stored(codes, parent, t) && c in Ids(t)
    ensures Sub(t, c).id == c && Unique(Sub(t, c)) && Ids(Sub(t, c)) <= Ids(t)
    ensures c in codes && Stored(codes, codes[c].parent, Sub(t, c))
    decreases t, 0
  {
    if t.id != c {
      SubAllFacts(codes, t.id, t.kids, c);
    }
  }

  lemma {:induction false} SubAllFacts(codes: Codes, parent: CodeId, ts: seq<Tree>, c: CodeId)
    requires UniqueAll(ts) && StoredAll(codes, parent, ts) && c in IdsAll(ts)
    ensures SubAll(ts, c).id == c && Unique(SubAll(ts, c)) && Ids(SubAll(ts, c)) <= IdsAll(ts)
    ensures c in codes && Stored(codes, codes[c].parent, SubAll(ts, c))
    decreases ts, 1
  {
    if c in Ids(ts[0]) {
      SubFacts(codes, Some(parent), ts[0], c);
    } else {
      SubAllFacts(codes, parent, ts[1..], c);
    }
  }

  /** Codes outside the tree do not matter. */
  lemma {:induction false} StoredFrame(codes: Codes, codes': Codes, parent: Option<CodeId>, t: Tree)
    requires Stored(codes, parent, t)
    requires forall x | x in Ids(t) && x in codes :: x in codes' && codes'[x] == codes[x]
    ensures Stored(codes', parent, t)
    decreases t, 0
  {
    StoredAllFrame(codes, codes', t.id, t.kids);
  }

  lemma {:induction false} StoredAllFrame(codes: Codes, codes': Codes, parent: CodeId, ts: seq<Tree>)
    requires StoredAll(codes, parent, ts)
    requires forall x | x in IdsAll(ts) && x in codes :: x in codes' && codes'[x] == codes[x]
    ensures StoredAll(codes', parent, ts)
    decreases ts, 1
  {
    if ts != [] {
      StoredFrame(codes, codes', Some(parent), ts[0]);
      StoredAllFrame(codes, codes', parent, ts[1..]);
    }
  }

  // ----- cutting a subtree out -----

  function RemoveFirst(s: seq<CodeId>, id: CodeId): seq<CodeId> {
    if s == [] then [] else if s[0] == id then s[1..] else [s[0]] + RemoveFirst(s[1..], id)
  }

  /** The parent of c forgets c; everything else stays. */
  ghost predicate Forgets(codes: Codes, codes': Codes, c: CodeId, keep: set<CodeId>) {
    && c in codes && codes[c].parent.Some? && codes[c].parent.value in codes
    && forall x | x in keep && x in codes ::
      && x in codes'
      && codes'[x] == if x == codes[c].parent.value then codes[x].(subs := RemoveFirst(codes[x].subs, c)) else codes[x]
  }

  lemma {:induction false} PruneFacts(t: Tree, c: CodeId)
    requires Unique(t) && c in IdsAll(t.kids)
    ensures Ids(Prune(t, c)) == Ids(t) - Ids(Sub(t, c)) && Unique(Prune(t, c))
    decreases t, 0
  {
    PruneAllFacts(t.kids, c);
  }

  lemma {:induction false} PruneAllFacts(ts: seq<Tree>, c: CodeId)
    requires UniqueAll(ts) && c in IdsAll(ts)
    ensures IdsAll(PruneAll(ts, c)) == IdsAll(ts) - Ids(SubAll(ts, c)) && UniqueAll(PruneAll(ts, c))
    ensures Ids(SubAll(ts, c)) <= IdsAll(ts)
    decreases ts, 1
  {
    SubAllIds(ts, c);
    if ts[0].id == c {
    } else {
      var head, rest := Prune(ts[0], c), PruneAll(ts[1..], c);
      assert PruneAll(ts, c)[1..] == rest;
      if c in Ids(ts[0]) {
        PruneFacts(ts[0], c);
        PruneAllNothing(ts[1..], c);
        SubAllIds(ts[0].kids, c);
      } else {
        PruneNothing(ts[0], c);
        PruneAllFacts(ts[1..], c);
      }
    }
  }

  lemma {:induction false} SubAllIds(ts: seq<Tree>, c: CodeId)
    requires c in IdsAll(ts)
    ensures Ids(SubAll(ts, c)) <= IdsAll(ts) && SubAll(ts, c).id == c
    decreases ts
  {
    if c in Ids(ts[0]) {
      if ts[0].id != c {
        SubAllIds(ts[0].kids, c);
      }
    } else {
      SubAllIds(ts[1..], c);
    }
  }

  lemma {:induction false} PruneNothing(t: Tree, c: CodeId)
    requires c !in Ids(t)
    ensures Prune(t, c) == t
    decreases t, 0
  {
    PruneAllNothing(t.kids, c);
  }

  lemma {:induction false} PruneAllNothing(ts: seq<Tree>, c: CodeId)
    requires c !in IdsAll(ts)
    ensures PruneAll(ts, c) == ts
    decreases ts, 1
  {
    if ts != [] {
      PruneNothing(ts[0], c);
      PruneAllNothing(ts[1..], c);
    }
  }

  lemma {:induction false} PruneRoots(ts: seq<Tree>, c: CodeId)
    ensures Roots(PruneAll(ts, c)) == RemoveFirst(Roots(ts), c)
    decreases ts
  {
    if ts != [] {
      assert Roots(ts)[1..] == Roots(ts[1..]);
      PruneRoots(ts[1..], c);
    }
  }

  lemma {:induction false} RemoveFirstAbsent(s: seq<CodeId>, c: CodeId)
    requires c !in s
    ensures RemoveFirst(s, c) == s
    decreases s
  {
    if s != [] {
      RemoveFirstAbsent(s[1..], c);
    }
  }

  lemma {:induction false} PruneStored(codes: Codes, codes': Codes, parent: Option<CodeId>, t: Tree, c: CodeId)
    requires Unique(t) && Stored(codes, parent, t) && c in IdsAll(t.kids)
    requires Forgets(codes, codes', c, Ids(t) - Ids(Sub(t, c)))
    ensures Stored(codes', parent, Prune(t, c))
    decreases t, 0
  {
    var owner := codes[c].parent.value;
    SubAllIds(t.kids, c);
    assert t.id !in Ids(Sub(t, c));
    NodeFacts(codes, parent, t, c);
    PruneRoots(t.kids, c);
    if t.id != owner {
      NodeFacts(codes, parent, t, t.id);
      RemoveFirstAbsent(codes[t.id].subs, c);
    }
    PruneAllStored(codes, codes', t.id, t.kids, c);
  }

  lemma {:induction false} PruneAllStored(codes: Codes, codes': Codes, parent: CodeId, ts: seq<Tree>, c: CodeId)
    requires UniqueAll(ts) && StoredAll(codes, parent, ts) && c in IdsAll(ts) && parent !in IdsAll(ts)
    requires Forgets(codes, codes', c, IdsAll(ts) - Ids(SubAll(ts, c)))
    ensures StoredAll(codes', parent, PruneAll(ts, c))
    decreases ts, 1
  {
    var owner := codes[c].parent.value;
    SubAllIds(ts, c);
    if c in Ids(ts[0]) {
      if ts[0].id == c {
        StoredAllFrame(codes, codes', parent, ts[1..]);
      } else {
        SubAllIds(ts[0].kids, c);
        NodeFacts(codes, Some(parent), ts[0], c);
        PruneStored(codes, codes', Some(parent), ts[0], c);
        PruneAllNothing(ts[1..], c);
        StoredAllFrame(codes, codes', parent, ts[1..]);
        assert PruneAll(ts, c)[1..] == ts[1..];
      }
    } else {
      OwnerElsewhere(codes, parent, ts[1..], c);
      PruneNothing(ts[0], c);
      SubAllIds(ts[1..], c);
      StoredFrame(codes, codes', Some(parent), ts[0]);
      PruneAllStored(codes, codes', parent, ts[1..], c);
      assert PruneAll(ts, c)[1..] == PruneAll(ts[1..], c);
    }
  }

  /** The parent of a node of these trees is in them, or is the parent of them all. */
  lemma {:induction false} OwnerElsewhere(codes: Codes, parent: CodeId, ts: seq<Tree>, c: CodeId)
    requires UniqueAll(ts) && StoredAll(codes, parent, ts) && c in IdsAll(ts)
    ensures c in codes && codes[c].parent.Some?
    ensures codes[c].parent.value == parent || codes[c].parent.value in IdsAll(ts)
  {
    var k := KidWith(ts, c);
    KidIsThere(ts, k);
    StoredKid(codes, parent, ts, k);
    UniqueKid(ts, k);
    NodeFacts(codes, Some(parent), ts[k], c);
  }

  // ----- hanging a subtree in -----

  lemma {:induction false} GraftFacts(t: Tree, p: CodeId, s: Tree)
    requires Unique(t) && p in Ids(t) && Unique(s) && Ids(t) !! Ids(s)
    ensures Ids(Graft(t, p, s)) == Ids(t) + Ids(s) && Unique(Graft(t, p, s))
    decreases t, 0
  {
    if t.id == p {
      IdsAllConcat(t.kids, [s]);
      assert [s][1..] == [];
    } else {
      GraftAllFacts(t.kids, p, s);
    }
  }

  lemma {:induction false} GraftAllFacts(ts: seq<Tree>, p: CodeId, s: Tree)
    requires UniqueAll(ts) && p in IdsAll(ts) && Unique(s) && IdsAll(ts) !! Ids(s)
    ensures IdsAll(GraftAll(ts, p, s)) == IdsAll(ts) + Ids(s) && UniqueAll(GraftAll(ts, p, s))
    decreases ts, 1
  {
    assert GraftAll(ts, p, s)[1..] == GraftAll(ts[1..], p, s);
    if p in Ids(ts[0]) {
      GraftFacts(ts[0], p, s);
      GraftAllNothing(ts[1..], p, s);
    } else {
      GraftNothing(ts[0], p, s);
      GraftAllFacts(ts[1..], p, s);
    }
  }

  lemma {:induction false} GraftNothing(t: Tree, p: CodeId, s: Tree)
    requires p !in Ids(t)
    ensures Graft(t, p, s) == t
    decreases t, 0
  {
    GraftAllNothing(t.kids, p, s);
  }

  lemma {:induction false} GraftAllNothing(ts: seq<Tree>, p: CodeId, s: Tree)
    requires p !in IdsAll(ts)
    ensures GraftAll(ts, p, s) == ts
    decreases ts, 1
  {
    if ts != [] {
      GraftNothing(ts[0], p, s);
      GraftAllNothing(ts[1..], p, s);
    }
  }

  lemma {:induction false} GraftRoots(ts: seq<Tree>, p: CodeId, s: Tree)
    ensures Roots(GraftAll(ts, p, s)) == Roots(ts)
    decreases ts
  {
    if ts != [] {
      assert Roots(ts)[1..] == Roots(ts[1..]);
      GraftRoots(ts[1..], p, s);
    }
  }

  /** The code p gets a new last sub-code; the other codes of the tree stay. */
  ghost predicate Gains(codes: Codes, codes': Codes, p: CodeId, c: CodeId, keep: set<CodeId>) {
    forall x | x in keep && x in codes ::
      && x in codes'
      && codes'[x] == if x == p then codes[x].(subs := codes[x].subs + [c]) else codes[x]
  }

  lemma {:induction false} GraftStored(codes: Codes, codes': Codes, parent: Option<CodeId>, t: Tree, p: CodeId, s: Tree)
    requires Unique(t) && Stored(codes, parent, t) && p in Ids(t)
    requires Gains(codes, codes', p, s.id, Ids(t)) && Stored(codes', Some(p), s)
    ensures Stored(codes', parent, Graft(t, p, s))
    decreases t, 0
  {
    if t.id == p {
      StoredAllFrame(codes, codes', t.id, t.kids);
      StoredAllConcat(codes', t.id, t.kids, [s]);
      assert [s][1..] == [];
      assert Roots(t.kids + [s]) == Roots(t.kids) + [s.id];
    } else {
      GraftRoots(t.kids, p, s);
      GraftAllStored(codes, codes', t.id, t.kids, p, s);
    }
  }

  lemma {:induction false} GraftAllStored(codes: Codes, codes': Codes, parent: CodeId, ts: seq<Tree>, p: CodeId,
      s: Tree)
    requires UniqueAll(ts) && StoredAll(codes, parent, ts) && p in IdsAll(ts)
    requires Gains(codes, codes', p, s.id, IdsAll(ts)) && Stored(codes', Some(p), s)
    ensures StoredAll(codes', parent, GraftAll(ts, p, s))
    decreases ts, 1
  {
    assert GraftAll(ts, p, s)[1..] == GraftAll(ts[1..], p, s);
    if p in Ids(ts[0]) {
      GraftStored(codes, codes', Some(parent), ts[0], p, s);
      GraftAllNothing(ts[1..], p, s);
      StoredAllFrame(codes, codes', parent, ts[1..]);
    } else {
      GraftNothing(ts[0], p, s);
      StoredFrame(codes, codes', Some(parent), ts[0]);
      GraftAllStored(codes, codes', parent, ts[1..], p, s);
    }
  }

  /** Codes whose parents are all among them are in no tree. */
  lemma {:induction false} ClosedIsUnreachable(codes: Codes, parent: Option<CodeId>, t: Tree, xs: set<CodeId>)
    requires Stored(codes, parent, t) && (parent.Some? ==> parent.value !in xs)
    requires forall x | x in xs && x in codes :: codes[x].parent.Some? && codes[x].parent.value in xs
    ensures Ids(t) !! xs
    decreases t, 0
  {
    ClosedIsUnreachableAll(codes, t.id, t.kids, xs);
  }

  lemma {:induction false} ClosedIsUnreachableAll(codes: Codes, parent: CodeId, ts: seq<Tree>, xs: set<CodeId>)
    requires StoredAll(codes, parent, ts) && parent !in xs
    requires forall x | x in xs && x in codes :: codes[x].parent.Some? && codes[x].parent.value in xs
    ensures IdsAll(ts) !! xs
    decreases ts, 1
  {
    if ts != [] {
      ClosedIsUnreachable(codes, Some(parent), ts[0], xs);
      ClosedIsUnreachableAll(codes, parent, ts[1..], xs);
    }
  }
}
