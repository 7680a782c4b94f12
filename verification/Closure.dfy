/** Two walks over parent links: down to all descendants of the runs to delete, and up to a non-terminal ancestor. */
module Closure {
  import opened Strings
  import opened RunStore
  import opened RetryRoots
  import opened Wrappers

  /* ---------- descendants ---------- */

  predicate ClosedDown(runs: seq<Run>, ids: set<string>) {
    forall r <- runs :: r.metadata.parent != "" && r.metadata.parent in ids ==> r.id in ids
  }

  /** Every closed set that holds the roots holds these. */
  ghost predicate Needed(runs: seq<Run>, roots: set<string>, ids: set<string>) {
    forall other: set<string> :: roots <= other && ClosedDown(runs, other) ==> ids <= other
  }

  /** The least set that holds the roots and, with every parent, its children. */
  ghost predicate IsClosure(runs: seq<Run>, roots: set<string>, ids: set<string>) {
    roots <= ids && ClosedDown(runs, ids) && Needed(runs, roots, ids)
  }

  lemma ClosureIsUnique(runs: seq<Run>, roots: set<string>, a: set<string>, b: set<string>)
    requires IsClosure(runs, roots, a) && IsClosure(runs, roots, b)
    ensures a == b
  {
    assert a <= b && b <= a;
  }

  type Children = map<string, seq<string>>

  function ChildrenOf(children: Children, id: string): seq<string> {
    if id in children then children[id] else []
  }

  ghost predicate Indexes(children: Children, runs: seq<Run>) {
    forall parent, child :: child in ChildrenOf(children, parent) <==>
      parent != "" && exists r <- runs :: r.metadata.parent == parent && r.id == child
  }

  method IndexChildren(runs: seq<Run>) returns (children: Children)
    ensures Indexes(children, runs)
  {
    children := map[];
    for i := 0 to |runs|
      invariant Indexes(children, runs[..i])
    {
      var parent, id := runs[i].metadata.parent, runs[i].id;
      ghost var before := children;
      assert runs[..i + 1] == runs[..i] + [runs[i]];
      if parent != "" {
        children := children[parent := ChildrenOf(children, parent) + [id]];
      }
      forall p, c
        ensures c in ChildrenOf(children, p) <==>
            p != "" && exists r <- runs[..i + 1] :: r.metadata.parent == p && r.id == c
      {
        assert c in ChildrenOf(children, p) <==> c in ChildrenOf(before, p) || (p == parent != "" && c == id);
        assert (exists r <- runs[..i + 1] :: r.metadata.parent == p && r.id == c) <==>
               (exists r <- runs[..i] :: r.metadata.parent == p && r.id == c) || (parent == p && id == c);
      }
    }
    assert runs[..|runs|] == runs;
  }

  /** Every child of what is found is found, or its parent is waiting. */
  predicate ClosedBut(runs: seq<Run>, ids: set<string>, queue: seq<string>) {
    forall r <- runs :: r.metadata.parent != "" && r.metadata.parent in ids ==>
      r.id in ids || r.metadata.parent in queue
  }

  lemma FoundSoFar(runs: seq<Run>, roots: set<string>, children: Children, ids: set<string>, waiting: seq<string>,
      deleted: set<string>, queue: seq<string>)
    requires waiting != [] && Indexes(children, runs) && (waiting[0] == "" || waiting[0] in ids)
    requires Needed(runs, roots, ids) && ClosedBut(runs, ids, waiting)
    requires deleted == ids + set c <- ChildrenOf(children, waiting[0])
    requires waiting[1..] <= queue && forall x <- deleted :: x in ids || x in queue
    ensures Needed(runs, roots, deleted) && ClosedBut(runs, deleted, queue)
    ensures deleted <= ids + set r <- runs :: r.id
  {
    assert waiting == [waiting[0]] + waiting[1..];
    forall r | r in runs && r.metadata.parent != "" && r.metadata.parent in deleted
      ensures r.id in deleted || r.metadata.parent in queue
    {
      if r.metadata.parent == waiting[0] {
        assert r.id in ChildrenOf(children, waiting[0]);
      }
    }
  }

  /** The children that are new are put down and queued. */
  method FoundChildren(kids: seq<string>, ids: set<string>, waiting: seq<string>)
    returns (deleted: set<string>, queue: seq<string>)
    ensures deleted == ids + set c <- kids
    ensures waiting <= queue && (forall x <- queue :: x in waiting || x in kids)
    ensures forall x <- deleted :: x in ids || x in queue
    ensures deleted == ids ==> queue == waiting
  {
    deleted, queue := ids, waiting;
    for i := 0 to |kids|
      invariant deleted == ids + set c <- kids[..i]
      invariant waiting <= queue && (forall x <- queue :: x in waiting || x in kids)
      invariant forall x <- deleted :: x in ids || x in queue
      invariant deleted == ids ==> queue == waiting
    {
      var child := kids[i];
      assert kids[..i + 1] == kids[..i] + [child];
      if child in deleted {
        continue;
      }
      deleted := deleted + {child};
      queue := queue + [child];
    }
    assert kids[..|kids|] == kids;
  }

  /** The queue loop: everything found is below every closed set, and what is found is closed but for the queue. */
  method SupersededRunIDsWithChildren(runs: seq<Run>, rootIds: seq<string>) returns (ids: seq<string>)
    ensures StrictlySorted(ids)
    ensures IsClosure(runs, set x <- rootIds | x != "", set x <- ids)
  {
    var deleted := set x <- rootIds | x != "";
    ghost var roots := deleted;
    if deleted == {} {
      ids := [];
      assert (set x <- ids) == {};
      return;
    }
    var children := IndexChildren(runs);
    var queue := rootIds;
    ghost var all := deleted + set r <- runs :: r.id;
    while queue != []
      invariant roots <= deleted <= all && Needed(runs, roots, deleted)
      invariant forall x <- queue :: x == "" || x in deleted
      invariant ClosedBut(runs, deleted, queue)
      decreases all - deleted, |queue|
    {
      ghost var waiting, found := queue, deleted;
      var kids := ChildrenOf(children, queue[0]);
      deleted, queue := FoundChildren(kids, deleted, queue[1..]);
      FoundSoFar(runs, roots, children, found, waiting, deleted, queue);
    }
    ids := SortedSet(deleted);
    assert (set x <- ids) == deleted;
  }

  /* ---------- ancestors ---------- */

  /** The n-th ancestor along the parent links, if the chain gets that far. */
  function Ancestor(run: Run, byId: map<string, Run>, n: nat): Option<Run> {
    if n == 0 then Some(run)
    else
      var child := Ancestor(run, byId, n - 1);
      if child.Some? && child.value.metadata.parent != "" && child.value.metadata.parent in byId
      then Some(byId[child.value.metadata.parent]) else None
  }

  ghost predicate HasLiveAncestor(run: Run, byId: map<string, Run>) {
    exists n: nat :: n > 0 && Ancestor(run, byId, n).Some? && !Terminal(Ancestor(run, byId, n).value.status)
  }

  /** The chain of a run is its parent's, one step later. */
  lemma {:induction false} AncestorOfParent(run: Run, byId: map<string, Run>, n: nat)
    ensures Ancestor(run, byId, n + 1) ==
            if run.metadata.parent != "" && run.metadata.parent in byId
                then Ancestor(byId[run.metadata.parent], byId, n) else None
  {
    if n > 0 {
      AncestorOfParent(run, byId, n - 1);
    }
  }

  /** The run, or some ancestor of it however far up, is one of the given ones. */
  ghost predicate Descends(run: Run, byId: map<string, Run>, roots: set<string>) {
    exists n: nat :: Ancestor(run, byId, n).Some? && Ancestor(run, byId, n).value.id in roots
  }

  lemma {:induction false} DescendantIsIn(runs: seq<Run>, byId: map<string, Run>, ids: set<string>, run: Run, n: nat)
    requires WellKeyed(byId) && ClosedDown(runs, ids) && run in runs && (forall id <- byId :: byId[id] in runs)
    requires Ancestor(run, byId, n).Some? && Ancestor(run, byId, n).value.id in ids
    ensures run.id in ids
    decreases n
  {
    if n > 0 {
      var m: nat := n - 1;
      AncestorOfParent(run, byId, m);
      DescendantIsIn(runs, byId, ids, byId[run.metadata.parent], m);
    }
  }

  lemma ParentDescends(run: Run, byId: map<string, Run>, roots: set<string>)
    requires run.metadata.parent != "" && run.metadata.parent in byId
    requires Descends(byId[run.metadata.parent], byId, roots)
    ensures Descends(run, byId, roots)
  {
    var parent := byId[run.metadata.parent];
    var n: nat :| Ancestor(parent, byId, n).Some? && Ancestor(parent, byId, n).value.id in roots;
    AncestorOfParent(run, byId, n);
  }

  /** The closure, seen from below: a run is in it exactly if the run or some ancestor of it is a root. */
  lemma ClosureIsDescent(runs: seq<Run>, byId: map<string, Run>, roots: set<string>, ids: set<string>, id: string)
    requires WellKeyed(byId) && (forall r :: r in runs <==> r.id in byId && byId[r.id] == r)
    requires IsClosure(runs, roots, ids) && roots <= byId.Keys && id in byId
    ensures id in ids <==> Descends(byId[id], byId, roots)
  {
    assert forall i <- byId :: byId[i] in runs;
    if Descends(byId[id], byId, roots) {
      var n: nat :| Ancestor(byId[id], byId, n).Some? && Ancestor(byId[id], byId, n).value.id in roots;
      DescendantIsIn(runs, byId, ids, byId[id], n);
    }
    var below := set i <- byId | Descends(byId[i], byId, roots);
    forall i | i in roots ensures i in below {
      assert Ancestor(byId[i], byId, 0) == Some(byId[i]);
    }
    forall r | r in runs && r.metadata.parent != "" && r.metadata.parent in below ensures r.id in below {
      ParentDescends(r, byId, roots);
    }
    assert ClosedDown(runs, below);
  }

  lemma {:induction false} ChainEnds(run: Run, byId: map<string, Run>, n: nat, m: nat)
    requires Ancestor(run, byId, n).None? && n <= m
    ensures Ancestor(run, byId, m).None?
    decreases m
  {
    if n < m {
      ChainEnds(run, byId, n, m - 1);
    }
  }

  lemma {:induction false} ChainRepeats(run: Run, byId: map<string, Run>, i: nat, j: nat, n: nat) returns (k: nat)
    requires i < j && Ancestor(run, byId, i) == Ancestor(run, byId, j)
    ensures k < j && (n > 0 && i > 0 ==> k > 0) && Ancestor(run, byId, k) == Ancestor(run, byId, n)
    decreases n
  {
    if n < j {
      k := n;
    } else if n == j {
      k := i;
    } else {
      k := ChainRepeats(run, byId, i, j, n - 1);
      if k == j - 1 {
        k := i;
      } else {
        k := k + 1;
      }
    }
  }

  predicate TerminalUpTo(run: Run, byId: map<string, Run>, n: nat) {
    forall k: nat :: 0 < k <= n && Ancestor(run, byId, k).Some? ==> Terminal(Ancestor(run, byId, k).value.status)
  }

  /** The walk up ends at the first non-terminal ancestor, at a missing parent, or on meeting a parent again; it
      answers yes exactly when some ancestor, however far up, is non-terminal. */
  method HasNonTerminalParent(run: Run, byId: map<string, Run>) returns (found: bool)
    requires WellKeyed(byId)
    ensures found <==> HasLiveAncestor(run, byId)
  {
    var seen: set<string> := {};
    var parentId := run.metadata.parent;
    ghost var n: nat := 0;
    while parentId != ""
      invariant Ancestor(run, byId, n).Some? && parentId == Ancestor(run, byId, n).value.metadata.parent
      invariant TerminalUpTo(run, byId, n)
      invariant seen <= byId.Keys
      invariant forall s <- seen :: exists k: nat :: 0 < k <= n && Ancestor(run, byId, k) == Some(byId[s])
      decreases byId.Keys - seen
    {
      if parentId in seen {
        ghost var k: nat :| 0 < k <= n && Ancestor(run, byId, k) == Some(byId[parentId]);
        assert Ancestor(run, byId, n + 1) == Ancestor(run, byId, k);
        forall m: nat | m > 0 && Ancestor(run, byId, m).Some?
          ensures Terminal(Ancestor(run, byId, m).value.status)
        {
          var l := ChainRepeats(run, byId, k, n + 1, m);
        }
        return false;
      }
      if parentId !in byId {
        assert Ancestor(run, byId, n + 1).None?;
        AllTerminal(run, byId, n);
        return false;
      }
      seen := seen + {parentId};
      var parent := byId[parentId];
      n := n + 1;
      assert Ancestor(run, byId, n) == Some(parent);
      if !Terminal(parent.status) {
        return true;
      }
      parentId := parent.metadata.parent;
    }
    assert Ancestor(run, byId, n + 1).None?;
    AllTerminal(run, byId, n);
    return false;
  }

  lemma AllTerminal(run: Run, byId: map<string, Run>, n: nat)
    requires Ancestor(run, byId, n + 1).None? && TerminalUpTo(run, byId, n)
    ensures !HasLiveAncestor(run, byId)
  {
    forall m: nat | m > n ensures Ancestor(run, byId, m).None? {
      ChainEnds(run, byId, n + 1, m);
    }
  }
}
