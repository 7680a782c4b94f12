/** The first phase of retention: which runs a completed retry replaces. The runs of a session are taken in whatever
    order the session's sort left them; everything here holds for every order. */
module Supersede {
  import opened Strings
  import opened RunStore
  import opened RetryRoots

  /** The runs shown so far and the identifiers marked for deletion. */
  datatype Branch = Branch(visible: seq<Run>, deleted: set<string>)

  function FirstIndex(visible: seq<Run>, rootId: string, byId: map<string, Run>): (i: nat)
    requires WellKeyed(byId)
    ensures i <= |visible|
    ensures forall k :: 0 <= k < i ==> RootOf(visible[k], byId) != rootId
    ensures i < |visible| ==> RootOf(visible[i], byId) == rootId
  {
    if visible == [] then 0
    else if RootOf(visible[0], byId) == rootId then 0
    else 1 + FirstIndex(visible[1..], rootId, byId)
  }

  function TerminalIds(runs: seq<Run>): set<string> {
    set r <- runs | Terminal(r.status) :: r.id
  }

  function BranchOne(b: Branch, run: Run, byId: map<string, Run>): Branch
    requires WellKeyed(byId)
  {
    if run.metadata.retryOf == "" then b.(visible := b.visible + [run])
    else
      var i := FirstIndex(b.visible, RootOf(run, byId), byId);
      if i < |b.visible| then
        Branch(b.visible[..i] + [run],
               if run.status == Completed then b.deleted + TerminalIds(b.visible[i..]) else b.deleted)
      else b.(visible := b.visible + [run])
  }

  function BranchOf(order: seq<Run>, n: nat, byId: map<string, Run>): Branch
    requires WellKeyed(byId) && n <= |order|
  {
    if n == 0 then Branch([], {}) else BranchOne(BranchOf(order, n - 1, byId), order[n - 1], byId)
  }

  /* ---------- superseding is justified ---------- */

  predicate DistinctIds(order: seq<Run>) {
    forall i, j :: 0 <= i < j < |order| ==> order[i].id != order[j].id
  }

  /** Run `j` is terminal and stands at or behind a run of the same root as `i`, a later completed retry. */
  predicate HiddenBy(order: seq<Run>, byId: map<string, Run>, l: nat, j: nat, i: nat)
    requires WellKeyed(byId)
  {
    && l <= j < i < |order|
    && Terminal(order[j].status)
    && order[i].status == Completed && order[i].metadata.retryOf != ""
    && RootOf(order[l], byId) == RootOf(order[i], byId)
  }

  ghost predicate Justified(order: seq<Run>, byId: map<string, Run>, id: string)
    requires WellKeyed(byId)
  {
    exists l: nat, j: nat, i: nat :: HiddenBy(order, byId, l, j, i) && order[j].id == id
  }

  ghost predicate Precedes(order: seq<Run>, n: nat, x: Run, y: Run)
    requires n <= |order|
  {
    exists l, j :: 0 <= l <= j < n && order[l] == x && order[j] == y
  }

  /** What is shown is a subsequence of the order and holds nothing that is marked. */
  ghost predicate ShownInOrder(order: seq<Run>, n: nat, b: Branch)
    requires n <= |order|
  {
    InOrder(order, n, b.visible) && Unmarked(b.visible, b.deleted)
  }

  ghost predicate InOrder(order: seq<Run>, n: nat, visible: seq<Run>)
    requires n <= |order|
  {
    forall a, c :: 0 <= a <= c < |visible| ==> Precedes(order, n, visible[a], visible[c])
  }

  predicate Unmarked(visible: seq<Run>, deleted: set<string>) {
    forall v <- visible :: v.id !in deleted
  }

  ghost predicate Marked(order: seq<Run>, n: nat, b: Branch)
    requires n <= |order|
  {
    && (forall id <- b.deleted :: exists j :: 0 <= j < n && order[j].id == id)
    && (b.deleted != {} ==> exists i :: 0 <= i < n && order[i].status == Completed && order[i].id !in b.deleted)
  }

  lemma ShownStaysInOrder(order: seq<Run>, n: nat, b: Branch, m: nat)
    requires n < |order| && ShownInOrder(order, n, b) && m <= |b.visible|
    ensures InOrder(order, n + 1, b.visible[..m] + [order[n]])
  {
    var shown := b.visible[..m] + [order[n]];
    forall a, c | 0 <= a <= c <= m ensures Precedes(order, n + 1, shown[a], shown[c]) {
      if a < m {
        assert Precedes(order, n, b.visible[a], b.visible[if c < m then c else a]);
        var l, j :| 0 <= l <= j < n && order[l] == b.visible[a] && order[j] == b.visible[if c < m then c else a];
        assert 0 <= l <= (if c < m then j else n) < n + 1;
      } else {
        assert order[n] == shown[a] == shown[c];
      }
    }
  }

  /** Where the step cuts what is shown, and what it marks. */
  function Cut(b: Branch, run: Run, byId: map<string, Run>): (m: nat)
    requires WellKeyed(byId)
    ensures m <= |b.visible|
  {
    if run.metadata.retryOf == "" then |b.visible| else FirstIndex(b.visible, RootOf(run, byId), byId)
  }

  function NewMarks(b: Branch, run: Run, byId: map<string, Run>): set<string>
    requires WellKeyed(byId)
  {
    if run.status == Completed then TerminalIds(b.visible[Cut(b, run, byId)..]) else {}
  }

  lemma StepCutsAndMarks(b: Branch, run: Run, byId: map<string, Run>)
    requires WellKeyed(byId)
    ensures BranchOne(b, run, byId) ==
        Branch(b.visible[..Cut(b, run, byId)] + [run], b.deleted + NewMarks(b, run, byId))
  {
    assert b.visible[..|b.visible|] == b.visible;
  }

  lemma MarkedAt(b: Branch, run: Run, byId: map<string, Run>, id: string) returns (c: nat)
    requires WellKeyed(byId) && id in NewMarks(b, run, byId)
    ensures Cut(b, run, byId) <= c < |b.visible| && b.visible[c].id == id && Terminal(b.visible[c].status)
    ensures run.status == Completed && run.metadata.retryOf != ""
  {
    var v :| v in b.visible[Cut(b, run, byId)..] && Terminal(v.status) && v.id == id;
    c :| Cut(b, run, byId) <= c < |b.visible| && b.visible[c] == v;
  }

  lemma Places(order: seq<Run>, n: nat, b: Branch, m: nat, c: nat) returns (l: nat, j: nat)
    requires n <= |order| && InOrder(order, n, b.visible) && m <= c < |b.visible|
    ensures l <= j < n && order[l] == b.visible[m] && order[j] == b.visible[c]
  {
    assert Precedes(order, n, b.visible[m], b.visible[c]);
    l, j :| l <= j < n && order[l] == b.visible[m] && order[j] == b.visible[c];
  }

  /** A step marks only terminal runs it takes out of sight, none of them the retry itself. */
  lemma NewMarkIsHidden(order: seq<Run>, n: nat, b: Branch, byId: map<string, Run>, id: string)
    requires WellKeyed(byId) && DistinctIds(order) && n < |order| && ShownInOrder(order, n, b)
    requires id in NewMarks(b, order[n], byId)
    ensures Justified(order, byId, id)
    ensures exists j :: 0 <= j < n && order[j].id == id
    ensures forall a :: 0 <= a < Cut(b, order[n], byId) ==> b.visible[a].id != id
  {
    var m := Cut(b, order[n], byId);
    var c := MarkedAt(b, order[n], byId, id);
    var l, j := Places(order, n, b, m, c);
    assert HiddenBy(order, byId, l, j, n) && order[j].id == id;
    forall a | 0 <= a < m ensures b.visible[a].id != id {
      EarlierIsOther(order, n, b, a, m, c, byId);
    }
  }

  lemma MarksStayJustified(order: seq<Run>, n: nat, b: Branch, byId: map<string, Run>)
    requires WellKeyed(byId) && DistinctIds(order) && n < |order|
    requires ShownInOrder(order, n, b) && Marked(order, n, b)
    ensures Marked(order, n + 1, Branch(b.visible, b.deleted + NewMarks(b, order[n], byId)))
  {
    var marks := NewMarks(b, order[n], byId);
    forall id | id in marks ensures exists j :: 0 <= j < n && order[j].id == id {
      NewMarkIsHidden(order, n, b, byId, id);
    }
    assert order[n].id !in b.deleted + marks;
    if marks == {} && b.deleted != {} {
      var i :| 0 <= i < n && order[i].status == Completed && order[i].id !in b.deleted;
      assert order[i].id !in b.deleted + marks;
    }
  }

  lemma ShownStaysUnmarked(order: seq<Run>, n: nat, b: Branch, byId: map<string, Run>)
    requires WellKeyed(byId) && DistinctIds(order) && n < |order|
    requires ShownInOrder(order, n, b) && Marked(order, n, b)
    ensures Unmarked(b.visible[..Cut(b, order[n], byId)] + [order[n]], b.deleted + NewMarks(b, order[n], byId))
  {
    var m := Cut(b, order[n], byId);
    forall v | v in b.visible[..m] + [order[n]] ensures v.id !in b.deleted + NewMarks(b, order[n], byId) {
      if v.id in NewMarks(b, order[n], byId) {
        NewMarkIsHidden(order, n, b, byId, v.id);
      }
    }
  }

  ghost predicate AllJustified(order: seq<Run>, byId: map<string, Run>, ids: set<string>)
    requires WellKeyed(byId)
  {
    forall id <- ids :: Justified(order, byId, id)
  }

  ghost predicate Sound(order: seq<Run>, n: nat, b: Branch, byId: map<string, Run>)
    requires WellKeyed(byId) && n <= |order|
  {
    ShownInOrder(order, n, b) && Marked(order, n, b) && AllJustified(order, byId, b.deleted)
  }

  lemma StepIsSound(order: seq<Run>, n: nat, b: Branch, byId: map<string, Run>)
    requires WellKeyed(byId) && DistinctIds(order) && n < |order| && Sound(order, n, b, byId)
    ensures Sound(order, n + 1, BranchOne(b, order[n], byId), byId)
  {
    StepCutsAndMarks(b, order[n], byId);
    ShownStaysInOrder(order, n, b, Cut(b, order[n], byId));
    ShownStaysUnmarked(order, n, b, byId);
    MarksStayJustified(order, n, b, byId);
    forall id | id in NewMarks(b, order[n], byId) ensures Justified(order, byId, id) {
      NewMarkIsHidden(order, n, b, byId, id);
    }
  }

  lemma {:induction false} BranchInvariant(order: seq<Run>, n: nat, byId: map<string, Run>) returns (b: Branch)
    requires WellKeyed(byId) && DistinctIds(order) && n <= |order|
    ensures b == BranchOf(order, n, byId) && Sound(order, n, b, byId)
  {
    if n == 0 {
      b := Branch([], {});
    } else {
      var k: nat := n - 1;
      var before := BranchInvariant(order, k, byId);
      b := BranchOne(before, order[k], byId);
      StepIsSound(order, k, before, byId);
      assert k + 1 == n && Sound(order, k + 1, b, byId);
    }
  }

  /** A run shown before the replaced branch is not in it: its root differs from the branch's first. */
  lemma EarlierIsOther(order: seq<Run>, n: nat, b: Branch, a: nat, m: nat, c: nat, byId: map<string, Run>)
    requires DistinctIds(order) && n <= |order| && ShownInOrder(order, n, b)
    requires a < m <= c < |b.visible|
    requires WellKeyed(byId) && RootOf(b.visible[a], byId) != RootOf(b.visible[m], byId)
    ensures b.visible[a].id != b.visible[c].id
  {
    var l, j := Places(order, n, b, a, m);
    var l', j' := Places(order, n, b, m, c);
    assert j == l' && l < j;
  }

  /** Superseding is justified: the retry phase marks only terminal runs, each hidden by a completed retry of the
      same session; no marked run is still shown at the end; and a session that loses a run keeps a completed one. */
  lemma SupersedingIsJustified(order: seq<Run>, byId: map<string, Run>) returns (b: Branch)
    requires WellKeyed(byId) && DistinctIds(order)
    ensures b == BranchOf(order, |order|, byId)
    ensures AllJustified(order, byId, b.deleted) && Unmarked(b.visible, b.deleted)
    ensures b.deleted != {} ==> exists r <- order :: r.status == Completed && r.id !in b.deleted
  {
    b := BranchInvariant(order, |order|, byId);
  }

  /* ---------- what is shown and what is marked, exactly ---------- */

  /** Everything shown before place `m` has another root than the run; what stands at `m`, if anything, has the same. */
  predicate FirstOfRoot(visible: seq<Run>, run: Run, m: nat, byId: map<string, Run>)
    requires WellKeyed(byId)
  {
    && m <= |visible|
    && (forall a :: 0 <= a < m ==> RootOf(visible[a], byId) != RootOf(run, byId))
    && (m < |visible| ==> RootOf(visible[m], byId) == RootOf(run, byId))
  }

  predicate Finished(run: Run) {
    run.status == Completed || run.status == Failed || run.status == Cancelled
  }

  /** Among what stands from place `m` on there is a finished run with this identifier. */
  predicate FinishedFrom(visible: seq<Run>, m: nat, id: string) {
    exists k :: m <= k < |visible| && visible[k].id == id && Finished(visible[k])
  }

  lemma MarksAreFinished(b: Branch, run: Run, byId: map<string, Run>, id: string)
    requires WellKeyed(byId)
    ensures id in NewMarks(b, run, byId) <==>
            run.status == Completed && FinishedFrom(b.visible, Cut(b, run, byId), id)
  {
    var m := Cut(b, run, byId);
    if id in NewMarks(b, run, byId) {
      var c := MarkedAt(b, run, byId, id);
    }
    if run.status == Completed && FinishedFrom(b.visible, m, id) {
      var k :| m <= k < |b.visible| && b.visible[k].id == id && Finished(b.visible[k]);
      assert b.visible[k] in b.visible[m..];
    }
  }

  /** One run taken in: an original is shown behind the others. A retry is shown behind those that stand before
      the first run of its root; that run and all behind it go out of sight, and if the retry is completed, those of
      them that are finished are marked. Nothing else is marked, and nothing loses its mark. */
  lemma BranchStep(order: seq<Run>, i: nat, byId: map<string, Run>) returns (m: nat)
    requires WellKeyed(byId) && i < |order|
    ensures var (b, c, run) := (BranchOf(order, i, byId), BranchOf(order, i + 1, byId), order[i]);
            && (if run.metadata.retryOf == "" then m == |b.visible| else FirstOfRoot(b.visible, run, m, byId))
            && m <= |b.visible| && c.visible == b.visible[..m] + [run]
            && forall id :: id in c.deleted <==>
                 id in b.deleted || (run.status == Completed && FinishedFrom(b.visible, m, id))
  {
    var b, run := BranchOf(order, i, byId), order[i];
    m := Cut(b, run, byId);
    StepCutsAndMarks(b, run, byId);
    forall id ensures id in NewMarks(b, run, byId) <==> run.status == Completed && FinishedFrom(b.visible, m, id) {
      MarksAreFinished(b, run, byId, id);
    }
  }

  /** The run `order[i]`, which is completed, takes a finished run with this identifier out of sight. */
  ghost predicate Replaces(order: seq<Run>, i: nat, byId: map<string, Run>, id: string)
    requires WellKeyed(byId) && i < |order|
  {
    order[i].status == Completed &&
    OutOfSight(BranchOf(order, i, byId).visible, BranchOf(order, i + 1, byId).visible, id)
  }

  predicate OutOfSight(before: seq<Run>, after: seq<Run>, id: string) {
    exists r <- before :: r.id == id && r !in after && Finished(r)
  }

  lemma CutIsGone(order: seq<Run>, i: nat, byId: map<string, Run>, b: Branch, m: nat, k: nat)
    requires WellKeyed(byId) && DistinctIds(order) && i < |order| && ShownInOrder(order, i, b)
    requires FirstOfRoot(b.visible, order[i], m, byId) && m <= k < |b.visible|
    ensures b.visible[k] !in b.visible[..m] + [order[i]]
  {
    assert Precedes(order, i, b.visible[k], b.visible[k]);
    forall a | 0 <= a < m ensures b.visible[a] != b.visible[k] {
      EarlierIsOther(order, i, b, a, m, k, byId);
    }
  }

  lemma GoneWasCut(before: seq<Run>, m: nat, run: Run, r: Run)
    requires m <= |before| && r in before && r !in before[..m] + [run] && Finished(r)
    ensures FinishedFrom(before, m, r.id)
  {
    var k :| 0 <= k < |before| && before[k] == r;
    assert forall l :: 0 <= l < m ==> before[l] in before[..m] + [run];
  }

  lemma CutIsOutOfSight(order: seq<Run>, i: nat, byId: map<string, Run>, b: Branch, m: nat, id: string)
    requires WellKeyed(byId) && DistinctIds(order) && i < |order| && ShownInOrder(order, i, b)
    requires m <= |b.visible| && (m == |b.visible| || FirstOfRoot(b.visible, order[i], m, byId))
    ensures FinishedFrom(b.visible, m, id) <==> OutOfSight(b.visible, b.visible[..m] + [order[i]], id)
  {
    var after := b.visible[..m] + [order[i]];
    if FinishedFrom(b.visible, m, id) {
      var k :| m <= k < |b.visible| && b.visible[k].id == id && Finished(b.visible[k]);
      CutIsGone(order, i, byId, b, m, k);
    }
    forall r | r in b.visible && r.id == id && r !in after && Finished(r) ensures FinishedFrom(b.visible, m, id) {
      GoneWasCut(b.visible, m, order[i], r);
    }
  }

  lemma MarkedNow(order: seq<Run>, i: nat, byId: map<string, Run>, id: string)
    requires WellKeyed(byId) && DistinctIds(order) && i < |order|
    ensures id in BranchOf(order, i + 1, byId).deleted <==>
            id in BranchOf(order, i, byId).deleted || Replaces(order, i, byId, id)
  {
    var b := BranchInvariant(order, i, byId);
    var m := BranchStep(order, i, byId);
    CutIsOutOfSight(order, i, byId, b, m, id);
  }

  /** Exactly what is marked: a finished run that a completed run of the session took out of sight. */
  lemma {:induction false} MarkedExactly(order: seq<Run>, n: nat, byId: map<string, Run>, id: string)
    requires WellKeyed(byId) && DistinctIds(order) && n <= |order|
    ensures id in BranchOf(order, n, byId).deleted <==> exists i: nat :: i < n && Replaces(order, i, byId, id)
  {
    if n > 0 {
      var m: nat := n - 1;
      assert m + 1 == n;
      MarkedExactly(order, m, byId, id);
      MarkedNow(order, m, byId, id);
    }
  }

  /* ---------- all sessions ---------- */

  /** The runs of every session, each session's in some order. */
  ghost predicate SessionOrders(runs: map<string, Run>, orders: map<string, seq<Run>>) {
    && WellKeyed(runs)
    && (forall id <- runs :: runs[id].sessionId in orders && runs[id] in orders[runs[id].sessionId])
    && (forall s <- orders :: DistinctIds(orders[s]))
    && (forall s <- orders, r <- orders[s] :: r.sessionId == s && r.id in runs && runs[r.id] == r)
  }

  function SupersededIds(orders: map<string, seq<Run>>, byId: map<string, Run>): set<string>
    requires WellKeyed(byId)
  {
    set s, id | s in orders && id in SessionIds(orders[s], byId) :: id
  }

  function SessionIds(order: seq<Run>, byId: map<string, Run>): set<string>
    requires WellKeyed(byId)
  {
    BranchOf(order, |order|, byId).deleted
  }

  lemma OneMoreSession(orders: map<string, seq<Run>>, s: string, order: seq<Run>, byId: map<string, Run>)
    requires WellKeyed(byId) && s !in orders
    ensures SupersededIds(orders[s := order], byId) == SupersededIds(orders, byId) + SessionIds(order, byId)
  {
    var all := orders[s := order];
    forall id | id in SupersededIds(orders, byId) + SessionIds(order, byId) ensures id in SupersededIds(all, byId) {
      if id in SupersededIds(orders, byId) {
        var t :| t in orders && id in SessionIds(orders[t], byId);
        assert t in all && id in SessionIds(all[t], byId);
      } else {
        assert s in all && id in SessionIds(all[s], byId);
      }
    }
    forall id | id in SupersededIds(all, byId) ensures id in SupersededIds(orders, byId) + SessionIds(order, byId) {
      var t :| t in all && id in SessionIds(all[t], byId);
      assert t != s ==> t in orders && id in SessionIds(orders[t], byId);
    }
  }

  /** One session's loop, shown runs and marks together. */
  method SupersedeSession(order: seq<Run>, byId: map<string, Run>) returns (deleted: set<string>)
    requires WellKeyed(byId)
    ensures deleted == SessionIds(order, byId)
  {
    var visible: seq<Run> := [];
    deleted := {};
    for n := 0 to |order|
      invariant Branch(visible, deleted) == BranchOf(order, n, byId)
    {
      var run := order[n];
      if run.metadata.retryOf == "" {
        visible := visible + [run];
        continue;
      }
      var rootId := RetryRootRunID(run, byId);
      var i := 0;
      while i < |visible|
        invariant i <= FirstIndex(visible, rootId, byId)
      {
        var candidateRoot := RetryRootRunID(visible[i], byId);
        if candidateRoot == rootId {
          break;
        }
        i := i + 1;
      }
      assert i == FirstIndex(visible, rootId, byId);
      if i < |visible| {
        if run.status == Completed {
          deleted := deleted + TerminalIds(visible[i..]);
        }
        visible := visible[..i] + [run];
      } else {
        visible := visible + [run];
      }
    }
  }

  method SupersededRetryRunIDs(orders: map<string, seq<Run>>, byId: map<string, Run>) returns (ids: seq<string>)
    requires WellKeyed(byId)
    ensures StrictlySorted(ids) && forall x :: x in ids <==> x in SupersededIds(orders, byId)
  {
    var deleted: set<string> := {};
    var unseen := orders.Keys;
    while unseen != {}
      invariant unseen <= orders.Keys
      invariant deleted == SupersededIds(orders - unseen, byId)
      decreases unseen
    {
      var s :| s in unseen;
      var more := SupersedeSession(orders[s], byId);
      OneMoreSession(orders - unseen, s, orders[s], byId);
      assert orders - (unseen - {s}) == (orders - unseen)[s := orders[s]];
      deleted := deleted + more;
      unseen := unseen - {s};
    }
    assert orders - unseen == orders;
    ids := SortedSet(deleted);
  }
}
