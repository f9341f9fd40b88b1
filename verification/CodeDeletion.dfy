/** removeCode (src/com/qdacity/endpoint/CodeEndpoint.java:404-459, 518-545): what it deletes and
    logs, whatever is stored, and when it comes to its end. */
module CodeDeletion {
  import opened Wrappers
  import opened CodeTree
  import opened CodeStore

  function PostOrder(t: Tree): seq<CodeId>
    decreases t, 0
  {
    PostOrderAll(t.kids) + [t.id]
  }

  function PostOrderAll(ts: seq<Tree>): seq<CodeId>
    decreases ts, 1
  {
    if ts == [] then [] else PostOrder(ts[0]) + PostOrderAll(ts[1..])
  }

  function Height(t: Tree): nat
    decreases t, 0
  {
    HeightAll(t.kids) + 1
  }

  function HeightAll(ts: seq<Tree>): nat
    decreases ts, 1
  {
    if ts == [] then 0
    else if Height(ts[0]) >= HeightAll(ts[1..]) then Height(ts[0]) else HeightAll(ts[1..])
  }

  /** The tree hangs from its root by the lists of sub-codes, whatever the codes say about their
      parents. */
  predicate Hangs(codes: Codes, t: Tree)
    decreases t, 0
  {
    t.id in codes && codes[t.id].subs == Roots(t.kids) && HangsAll(codes, t.kids)
  }

  predicate HangsAll(codes: Codes, ts: seq<Tree>)
    decreases ts, 1
  {
    ts != [] ==> Hangs(codes, ts[0]) && HangsAll(codes, ts[1..])
  }

  lemma {:induction false} StoredHangs(codes: Codes, parent: Option<CodeId>, t: Tree)
    requires Stored(codes, parent, t)
    ensures Hangs(codes, t)
    decreases t, 0
  {
    StoredHangsAll(codes, t.id, t.kids);
  }

  lemma {:induction false} StoredHangsAll(codes: Codes, parent: CodeId, ts: seq<Tree>)
    requires StoredAll(codes, parent, ts)
    ensures HangsAll(codes, ts)
    decreases ts, 1
  {
    if ts != [] {
      StoredHangs(codes, Some(parent), ts[0]);
      StoredHangsAll(codes, parent, ts[1..]);
    }
  }

  /** A tree hangs in all systems that have its codes. */
  lemma {:induction false} HangsFrame(codes: Codes, codes': Codes, t: Tree)
    requires Hangs(codes, t) && forall x | x in Ids(t) && x in codes :: x in codes' && codes'[x] == codes[x]
    ensures Hangs(codes', t) && Ids(t) <= codes'.Keys
    decreases t, 0
  {
    HangsAllFrame(codes, codes', t.kids);
  }

  lemma {:induction false} HangsAllFrame(codes: Codes, codes': Codes, ts: seq<Tree>)
    requires HangsAll(codes, ts) && forall x | x in IdsAll(ts) && x in codes :: x in codes' && codes'[x] == codes[x]
    ensures HangsAll(codes', ts) && IdsAll(ts) <= codes'.Keys
    decreases ts, 1
  {
    if ts != [] {
      HangsFrame(codes, codes', ts[0]);
      HangsAllFrame(codes, codes', ts[1..]);
    }
  }

  /** At most one tree hangs from a code. */
  lemma {:induction false} HangsOnce(codes: Codes, s: Tree, t: Tree)
    requires Hangs(codes, s) && Hangs(codes, t) && s.id == t.id
    ensures s == t
    decreases s, 0
  {
    HangsOnceAll(codes, s.kids, t.kids);
  }

  lemma {:induction false} HangsOnceAll(codes: Codes, ss: seq<Tree>, ts: seq<Tree>)
    requires HangsAll(codes, ss) && HangsAll(codes, ts) && Roots(ss) == Roots(ts)
    ensures ss == ts
    decreases ss, 1
  {
    assert |ss| == |Roots(ss)| == |Roots(ts)| == |ts|;
    if ss != [] {
      assert ss[0].id == Roots(ss)[0] == Roots(ts)[0] == ts[0].id;
      assert Roots(ss[1..]) == Roots(ss)[1..] == Roots(ts[1..]);
      HangsOnce(codes, ss[0], ts[0]);
      HangsOnceAll(codes, ss[1..], ts[1..]);
      assert ss == [ss[0]] + ss[1..] && ts == [ts[0]] + ts[1..];
    }
  }

  /** What hangs from a code in the tree is less high. */
  lemma {:induction false} LowerBelow(codes: Codes, ts: seq<Tree>, c: CodeId) returns (s: Tree)
    requires HangsAll(codes, ts) && c in IdsAll(ts)
    ensures Hangs(codes, s) && s.id == c && Height(s) <= HeightAll(ts)
    decreases ts
  {
    if c in Ids(ts[0]) {
      if c == ts[0].id {
        s := ts[0];
      } else {
        s := LowerBelow(codes, ts[0].kids, c);
      }
    } else {
      s := LowerBelow(codes, ts[1..], c);
    }
  }

  /** No code is below itself in a tree that hangs. */
  lemma {:induction false} NotBelowItself(codes: Codes, t: Tree)
    requires Hangs(codes, t)
    ensures t.id !in IdsAll(t.kids)
  {
    if t.id in IdsAll(t.kids) {
      var s := LowerBelow(codes, t.kids, t.id);
      HangsOnce(codes, s, t);
    }
  }

  // ----- the recursion -----

  /** On a tree that is not too high the recursion deletes everything below the root, children
      before their parents. */
  lemma {:induction false} SweepTree(codes: Codes, t: Tree, depth: nat)
    requires Unique(t) && Hangs(codes, t) && Height(t) <= depth
    ensures Sweep(codes, t.id, depth) == Swept(codes - IdsAll(t.kids), PostOrderAll(t.kids), true)
    decreases t, 0
  {
    SweepTrees(codes, t.kids, depth);
  }

  lemma {:induction false} SweepTrees(codes: Codes, ts: seq<Tree>, depth: nat)
    requires UniqueAll(ts) && HangsAll(codes, ts) && HeightAll(ts) < depth
    ensures SweepList(codes, Roots(ts), depth) == Swept(codes - IdsAll(ts), PostOrderAll(ts), true)
    decreases ts, 1
  {
    if ts != [] {
      var t := ts[0];
      SweepTree(codes, t, depth - 1);
      var codes' := codes - IdsAll(t.kids) - {t.id};
      HangsAllFrame(codes, codes', ts[1..]);
      SweepTrees(codes', ts[1..], depth);
      hide Sweep, Hangs, HangsAll, Height, Unique, UniqueAll;
      assert Roots(ts)[0] == t.id && Roots(ts)[1..] == Roots(ts[1..]);
      assert codes' - IdsAll(ts[1..]) == codes - IdsAll(ts);
    }
  }

  /** When the recursion comes to its end, it has gone through such a tree. */
  lemma {:induction false} SweptTree(codes: Codes, c: CodeId, depth: nat) returns (t: Tree)
    requires c in codes && Sweep(codes, c, depth).done
    ensures t.id == c && Unique(t) && Hangs(codes, t) && Height(t) <= depth
    decreases depth, 1, 0
  {
    var ts := SweptTrees(codes, codes[c].subs, depth);
    t := Tree(c, ts);
    NotBelowItself(codes, t);
  }

  lemma {:induction false} SweptTrees(codes: Codes, subs: seq<CodeId>, depth: nat) returns (ts: seq<Tree>)
    requires depth > 0 && SweepList(codes, subs, depth).done
    ensures Roots(ts) == subs && UniqueAll(ts) && HangsAll(codes, ts) && HeightAll(ts) < depth
    decreases depth, 0, |subs|
  {
    if subs == [] {
      ts := [];
    } else {
      var t := SweptTree(codes, subs[0], depth - 1);
      SweepTree(codes, t, depth - 1);
      var codes' := codes - IdsAll(t.kids) - {t.id};
      var others := SweptTrees(codes', subs[1..], depth);
      HangsAllFrame(codes', codes', others);
      HangsAllFrame(codes', codes, others);
      ts := [t] + others;
      assert ts[1..] == others && Roots(ts) == [t.id] + Roots(others);
    }
  }

  /** removeSubCodes comes to its end exactly when a tree of codes that are there hangs from the
      code, each of them once, and is not higher than the calls can be nested. */
  lemma {:induction false} EndsExactly(codes: Codes, c: CodeId, depth: nat)
    requires c in codes
    ensures Sweep(codes, c, depth).done
       <==> exists t: Tree :: t.id == c && Unique(t) && Hangs(codes, t) && Height(t) <= depth
  {
    if Sweep(codes, c, depth).done {
      var t := SweptTree(codes, c, depth);
    }
    if t: Tree :| t.id == c && Unique(t) && Hangs(codes, t) && Height(t) <= depth {
      SweepTree(codes, t, depth);
    }
  }

  // ----- what is deleted and logged -----

  lemma {:induction false} PostOrderOnce(t: Tree, x: CodeId)
    requires Unique(t)
    ensures multiset(PostOrder(t))[x] == if x in Ids(t) then 1 else 0
    decreases t, 0
  {
    PostOrderAllOnce(t.kids, x);
  }

  lemma {:induction false} PostOrderAllOnce(ts: seq<Tree>, x: CodeId)
    requires UniqueAll(ts)
    ensures multiset(PostOrderAll(ts))[x] == if x in IdsAll(ts) then 1 else 0
    decreases ts, 1
  {
    if ts != [] {
      PostOrderOnce(ts[0], x);
      PostOrderAllOnce(ts[1..], x);
    }
  }

  /** The codes are those from before without the ones that have been logged, each of them
      once. */
  ghost predicate Accounts(codes: Codes, r: Swept) {
    && r.codes.Keys <= codes.Keys && (forall x | x in r.codes :: r.codes[x] == codes[x])
    && forall x :: multiset(r.gone)[x] == if x in codes && x !in r.codes then 1 else 0
  }

  lemma {:induction false} SweptRootStays(codes: Codes, c: CodeId, depth: nat)
    requires c in codes && Sweep(codes, c, depth).done
    ensures c in Sweep(codes, c, depth).codes
  {
    var t := SweptTree(codes, c, depth);
    SweepTree(codes, t, depth);
  }

  lemma {:induction false} OneMoreAccounted(codes: Codes, below: Swept, c: CodeId, others: Swept)
    requires Accounts(codes, below) && c in below.codes && Accounts(below.codes - {c}, others)
    ensures Accounts(codes, others.(gone := below.gone + [c] + others.gone))
  {
    forall x
      ensures multiset(below.gone + [c] + others.gone)[x] == if x in codes && x !in others.codes then 1 else 0
    {
      assert multiset(below.gone + [c] + others.gone)[x]
          == multiset(below.gone)[x] + multiset([c])[x] + multiset(others.gone)[x];
    }
  }

  /** Whatever is stored, and however far the recursion gets. */
  lemma {:induction false} SweepAccounts(codes: Codes, c: CodeId, depth: nat)
    requires c in codes
    ensures Accounts(codes, Sweep(codes, c, depth))
    decreases depth, 1, 0
  {
    if depth > 0 {
      SweepListAccounts(codes, codes[c].subs, depth);
    }
  }

  lemma {:induction false} SweepListAccounts(codes: Codes, subs: seq<CodeId>, depth: nat)
    requires depth > 0
    ensures Accounts(codes, SweepList(codes, subs, depth))
    decreases depth, 0, |subs|
  {
    if subs != [] && subs[0] in codes {
      SweepAccounts(codes, subs[0], depth - 1);
      var below := Sweep(codes, subs[0], depth - 1);
      if below.done {
        SweptRootStays(codes, subs[0], depth - 1);
        var codes' := below.codes - {subs[0]};
        SweepListAccounts(codes', subs[1..], depth);
        hide Sweep, Accounts;
        OneMoreAccounted(codes, below, subs[0], SweepList(codes', subs[1..], depth));
      }
    }
  }

  /** What is logged as deleted hangs below the code. */
  lemma {:induction false} GoneHangs(codes: Codes, subs: seq<CodeId>, depth: nat, x: CodeId) returns (t: Tree)
    requires depth > 0 && x in SweepList(codes, subs, depth).gone
    ensures t.id == x && Unique(t) && Hangs(codes, t) && Height(t) < depth
    decreases depth, |subs|
  {
    var below := Sweep(codes, subs[0], depth - 1);
    if below.done && x == subs[0] {
      t := SweptTree(codes, x, depth - 1);
    } else if x in below.gone {
      t := GoneHangs(codes, codes[subs[0]].subs, depth - 1, x);
    } else {
      SweepAccounts(codes, subs[0], depth - 1);
      var codes' := below.codes - {subs[0]};
      t := GoneHangs(codes', subs[1..], depth, x);
      HangsFrame(codes', codes', t);
      HangsFrame(codes', codes, t);
    }
  }

  /** The code itself is not among them, so it is there as long as removeCode has not come to
      its end. */
  lemma {:induction false} RootStays(codes: Codes, c: CodeId, depth: nat)
    requires c in codes
    ensures c in Sweep(codes, c, depth).codes && c !in Sweep(codes, c, depth).gone
  {
    var r := Sweep(codes, c, depth);
    SweepAccounts(codes, c, depth);
    if c in r.gone {
      var t := GoneHangs(codes, codes[c].subs, depth, c);
      SweepTree(codes, t, depth);
      NotBelowItself(codes, t);
      PostOrderAllOnce(t.kids, c);
    }
  }
}
