/** The root of a chain of retries: the walk along retryOfRunId, the entry the API stores, and what replay shows. */
module RetryRoots {
  import opened RunStore
  import opened Wrappers

  /** Every record is filed under its own identifier. */
  predicate WellKeyed(byId: map<string, Run>) {
    forall id <- byId :: byId[id].id == id
  }

  /* ---------- the walk ---------- */

  function Walk(root: Run, byId: map<string, Run>, seen: set<string>): string
    requires WellKeyed(byId)
    decreases root.id !in byId, byId.Keys - seen
  {
    var retryOf := root.metadata.retryOf;
    if retryOf == "" then root.id
    else if root.id in seen then root.id
    else if retryOf !in byId then retryOf
    else Walk(byId[retryOf], byId, seen + {root.id})
  }

  function RootOf(run: Run, byId: map<string, Run>): string
    requires WellKeyed(byId)
  {
    if run.metadata.retryRoot != "" then run.metadata.retryRoot else Walk(run, byId, {})
  }

  /** The loop ends on any metadata, cyclic and dangling chains included. */
  method RetryRootRunID(run: Run, byId: map<string, Run>) returns (rootId: string)
    requires WellKeyed(byId)
    ensures rootId == RootOf(run, byId)
  {
    if run.metadata.retryRoot != "" {
      return run.metadata.retryRoot;
    }
    var root := run;
    var seen: set<string> := {};
    while true
      invariant Walk(root, byId, seen) == Walk(run, byId, {})
      decreases root.id !in byId, byId.Keys - seen
    {
      var retryOf := root.metadata.retryOf;
      if retryOf == "" || root.id in seen {
        return root.id;
      }
      seen := seen + {root.id};
      if retryOf !in byId {
        return retryOf;
      }
      root := byId[retryOf];
    }
  }

  /** The n-th run along the retryOf links, if the chain gets that far. */
  function Along(run: Run, byId: map<string, Run>, n: nat): Option<Run> {
    if n == 0 then Some(run)
    else
      var before := Along(run, byId, n - 1);
      if before.Some? && before.value.metadata.retryOf != "" && before.value.metadata.retryOf in byId
      then Some(byId[before.value.metadata.retryOf]) else None
  }

  /** The first `n` runs of the chain, all of which are there, have different identifiers. */
  predicate AllDifferent(run: Run, byId: map<string, Run>, n: nat) {
    && (forall i :: 0 <= i <= n ==> Along(run, byId, i).Some?)
    && forall i, j :: 0 <= i < j < n ==> Along(run, byId, i).value.id != Along(run, byId, j).value.id
  }

  /** One of the first `k` runs of the chain has this identifier. */
  predicate Met(run: Run, byId: map<string, Run>, k: nat, id: string) {
    exists i :: 0 <= i < k && Along(run, byId, i).Some? && Along(run, byId, i).value.id == id
  }

  lemma MetOneMore(run: Run, byId: map<string, Run>, k: nat, id: string)
    requires Along(run, byId, k).Some?
    ensures Met(run, byId, k + 1, id) <==> Met(run, byId, k, id) || Along(run, byId, k).value.id == id
  {
    if Met(run, byId, k, id) {
      var i :| 0 <= i < k && Along(run, byId, i).Some? && Along(run, byId, i).value.id == id;
      assert i < k + 1;
    }
  }

  /** The walk from the k-th run on, with those before it seen. */
  lemma {:induction false} WalkFrom(run: Run, byId: map<string, Run>, k: nat, seen: set<string>) returns (n: nat)
    requires WellKeyed(byId) && AllDifferent(run, byId, k)
    requires forall id :: id in seen <==> Met(run, byId, k, id)
    ensures n >= k && AllDifferent(run, byId, n)
    ensures var c := Along(run, byId, n).value;
            Walk(Along(run, byId, k).value, byId, seen) ==
              if c.metadata.retryOf == "" || Met(run, byId, n, c.id) then c.id else c.metadata.retryOf
    ensures var c := Along(run, byId, n).value;
            c.metadata.retryOf == "" || Met(run, byId, n, c.id) || c.metadata.retryOf !in byId
    decreases Along(run, byId, k).value.id !in byId, byId.Keys - seen
  {
    var c := Along(run, byId, k).value;
    if c.metadata.retryOf == "" || c.id in seen || c.metadata.retryOf !in byId {
      n := k;
    } else {
      assert Along(run, byId, k + 1) == Some(byId[c.metadata.retryOf]);
      forall id ensures id in seen + {c.id} <==> Met(run, byId, k + 1, id) {
        MetOneMore(run, byId, k, id);
      }
      n := WalkFrom(run, byId, k + 1, seen + {c.id});
    }
  }

  /** Where the walk ends, exactly: along the links as long as they lead to runs that are there and new. It ends at a
      run that is no retry, or one that it has come back to, with its identifier; or at one that retries a run which is
      not there, with the identifier of that run. */
  lemma WalkExactly(run: Run, byId: map<string, Run>) returns (n: nat)
    requires WellKeyed(byId)
    ensures AllDifferent(run, byId, n)
    ensures var c := Along(run, byId, n).value;
            if c.metadata.retryOf == "" || Met(run, byId, n, c.id) then Walk(run, byId, {}) == c.id
            else c.metadata.retryOf !in byId && Walk(run, byId, {}) == c.metadata.retryOf
  {
    n := WalkFrom(run, byId, 0, {});
  }

  /* ---------- the stored root ---------- */

  function RootFromMetadata(run: Run): string {
    if run.metadata.retryRoot != "" then run.metadata.retryRoot
    else if run.metadata.retryOf != "" then run.metadata.retryOf
    else run.id
  }

  /** What the retry endpoint stores: the original's entries, overridden by the request's, and then its own two,
      which nothing in the request can override. */
  function RetryMetadata(original: Run, parent: Option<string>): Metadata {
    Metadata(original.id, RootFromMetadata(original), if parent.Some? then parent.value else original.metadata.parent)
  }

  /** `history[i]` was created either directly, with no retry entries, or as a retry of an earlier terminal run. */
  predicate ApiHistory(history: seq<Run>) {
    && (forall i, j :: 0 <= i < j < |history| ==> history[i].id != history[j].id)
    && (forall i :: 0 <= i < |history| ==> history[i].id != "")
    && (forall i :: 0 <= i < |history| ==> Direct(history[i]) || RetryOfEarlier(history, i))
  }

  predicate Direct(run: Run) {
    run.metadata.retryOf == "" && run.metadata.retryRoot == ""
  }

  predicate RetryOfEarlier(history: seq<Run>, i: nat)
    requires i < |history|
  {
    exists j: nat :: j < i && Retries(history[i], history[j])
  }

  predicate Retries(run: Run, original: Run) {
    run.metadata == RetryMetadata(original, Some(run.metadata.parent)) && run.sessionId == original.sessionId
  }

  /** The first ancestor that is not a retry, found by following the chain in the complete history. */
  ghost function Origin(history: seq<Run>, i: nat): (o: nat)
    requires ApiHistory(history) && i < |history|
    ensures o <= i
  {
    if Direct(history[i]) then i
    else
      var j: nat :| j < i && Retries(history[i], history[j]);
      Origin(history, j)
  }

  lemma OriginOfOriginal(history: seq<Run>, i: nat, j: nat)
    requires ApiHistory(history) && j < i < |history| && Retries(history[i], history[j])
    ensures Origin(history, i) == Origin(history, j)
  {
    assert history[j].id != "";
    forall l: nat | l < i && Retries(history[i], history[l]) ensures l == j {
      assert history[l].id == history[j].id;
    }
  }

  lemma {:induction false} StoredRootIsOrigin(history: seq<Run>, i: nat)
    requires ApiHistory(history) && i < |history|
    ensures var o := Origin(history, i); Direct(history[o]) && RootFromMetadata(history[i]) == history[o].id
    decreases i
  {
    if !Direct(history[i]) {
      var j: nat :| j < i && Retries(history[i], history[j]);
      StoredRootIsOrigin(history, j);
      OriginOfOriginal(history, i, j);
    }
  }

  predicate RetriedAsIs(history: seq<Run>, k: nat)
    requires k < |history|
  {
    exists j: nat :: j < k && Retries(history[k], history[j]) && history[k].metadata == RetryMetadata(history[j], None)
  }

  /** A retry that asks for no parent of its own has that of the run it retries, and so that of the first. */
  lemma {:induction false} ParentIsInherited(history: seq<Run>, i: nat)
    requires ApiHistory(history) && i < |history|
    requires forall k :: 0 <= k < |history| ==> Direct(history[k]) || RetriedAsIs(history, k)
    ensures history[i].metadata.parent == history[Origin(history, i)].metadata.parent
    decreases i
  {
    if !Direct(history[i]) {
      var j: nat :| j < i && Retries(history[i], history[j]) && history[i].metadata == RetryMetadata(history[j], None);
      ParentIsInherited(history, j);
      OriginOfOriginal(history, i, j);
    }
  }

  predicate Holds(byId: map<string, Run>, history: seq<Run>) {
    forall i :: 0 <= i < |history| ==> history[i].id in byId && byId[history[i].id] == history[i]
  }

  /** Ignoring the stored entry, the walk over a store that still holds the history ends at the origin. */
  lemma {:induction false} WalkReachesOrigin(history: seq<Run>, i: nat, byId: map<string, Run>, seen: set<string>)
    requires ApiHistory(history) && i < |history| && WellKeyed(byId) && Holds(byId, history)
    requires forall j :: 0 <= j <= i ==> history[j].id !in seen
    ensures Walk(history[i], byId, seen) == history[Origin(history, i)].id
    decreases i
  {
    if !Direct(history[i]) {
      var j: nat :| j < i && Retries(history[i], history[j]);
      assert history[j].id != "" && byId[history[j].id] == history[j];
      WalkReachesOrigin(history, j, byId, seen + {history[i].id});
      OriginOfOriginal(history, i, j);
    }
  }

  /** The stored root refines the walked root: they agree while the history is complete; and because it is stored,
      the root of a retry stays what it was when any of its ancestors, or all, have been removed. */
  lemma StoredRootRefinesWalk(history: seq<Run>, i: nat, complete: map<string, Run>, pruned: map<string, Run>)
    requires ApiHistory(history) && i < |history|
    requires WellKeyed(complete) && Holds(complete, history) && WellKeyed(pruned)
    ensures RootOf(history[i], complete) == Walk(history[i], complete, {}) == history[Origin(history, i)].id
    ensures RootOf(history[i], pruned) == RootOf(history[i], complete)
  {
    WalkReachesOrigin(history, i, complete, {});
    StoredRootIsOrigin(history, i);
    if !Direct(history[i]) {
      var j: nat :| j < i && Retries(history[i], history[j]);
      assert RootFromMetadata(history[j]) != "";
    }
  }

  /* ---------- replay: one run per root ---------- */

  /** The walk of the replay's own root function is never reached: the metadata always names a root. */
  lemma ReplayRootNeedsNoWalk(run: Run)
    requires run.id != ""
    ensures RootFromMetadata(run) != ""
  {
  }

  /** The first shown run with a given root, or the end. */
  function FirstWithRoot(visible: seq<Run>, rootId: string): (i: nat)
    ensures i <= |visible|
  {
    if visible == [] then 0
    else if RootFromMetadata(visible[0]) == rootId then 0
    else 1 + FirstWithRoot(visible[1..], rootId)
  }

  lemma {:induction false} FirstWithRootIsFirst(visible: seq<Run>, rootId: string, i: nat)
    requires i <= |visible|
    ensures i == FirstWithRoot(visible, rootId) <==>
            && (forall k :: 0 <= k < i ==> RootFromMetadata(visible[k]) != rootId)
            && (i < |visible| ==> RootFromMetadata(visible[i]) == rootId)
  {
    if visible != [] && i > 0 {
      FirstWithRootIsFirst(visible[1..], rootId, i - 1);
      assert forall k :: 0 < k < i ==> visible[k] == visible[1..][k - 1];
      assert (forall k :: 0 <= k < i - 1 ==> RootFromMetadata(visible[1..][k]) != rootId) <==>
             (forall k :: 0 < k < i ==> RootFromMetadata(visible[k]) != rootId);
    }
  }

  function ShowOne(visible: seq<Run>, run: Run, known: set<string>): seq<Run> {
    if run.metadata.parent != "" then visible
    else if run.metadata.retryOf == "" then visible + [run]
    else
      var i := FirstWithRoot(visible, RootFromMetadata(run));
      if i < |visible| then visible[..i] + [run]
      else if run.metadata.retryOf !in known && visible != [] then [run]
      else visible + [run]
  }

  function Shown(runs: seq<Run>, n: nat, known: set<string>): seq<Run>
    requires n <= |runs|
  {
    if n == 0 then [] else ShowOne(Shown(runs, n - 1, known), runs[n - 1], known)
  }

  method ActiveRetryBranchRuns(runs: seq<Run>) returns (visible: seq<Run>)
    ensures visible == Shown(runs, |runs|, set r <- runs :: r.id)
  {
    var known := set r <- runs :: r.id;
    visible := [];
    for n := 0 to |runs|
      invariant visible == Shown(runs, n, known)
    {
      var run := runs[n];
      if run.metadata.parent != "" {
        continue;
      }
      if run.metadata.retryOf == "" {
        visible := visible + [run];
        continue;
      }
      var rootId := RootFromMetadata(run);
      var found, i := false, 0;
      while i < |visible| && !found
        invariant i <= |visible|
        invariant forall k :: 0 <= k < i ==> RootFromMetadata(visible[k]) != rootId
        invariant found ==> i < |visible| && RootFromMetadata(visible[i]) == rootId
        decreases |visible| - i, !found
      {
        if RootFromMetadata(visible[i]) == rootId {
          found := true;
        } else {
          i := i + 1;
        }
      }
      FirstWithRootIsFirst(visible, rootId, i);
      if run.metadata.retryOf !in known && !found && visible != [] {
        found, i := true, 0;
      }
      if found {
        visible := visible[..i] + [run];
        continue;
      }
      visible := visible + [run];
    }
  }

  /** One run taken into what is shown. A subagent run changes nothing. An original goes behind the others. A retry goes
      behind those that stand before the first of its root, and that one and all behind it are no longer shown; if none
      of its root is shown, it replaces everything when the run it retries is not listed at all, and else goes behind
      the others. */
  lemma ReplayStep(runs: seq<Run>, n: nat, known: set<string>) returns (m: nat)
    requires n < |runs|
    ensures var (before, after, run) := (Shown(runs, n, known), Shown(runs, n + 1, known), runs[n]);
            if run.metadata.parent != "" then after == before
            else
              && m <= |before| && after == before[..m] + [run]
              && (run.metadata.retryOf == "" ==> m == |before|)
              && (run.metadata.retryOf != "" && SameRootShown(before, run) ==>
                    m < |before| && RootFromMetadata(before[m]) == RootFromMetadata(run) &&
                    !SameRootShown(before[..m], run))
              && (run.metadata.retryOf != "" && !SameRootShown(before, run) ==>
                    m == if run.metadata.retryOf in known then |before| else 0)
  {
    var before, run := Shown(runs, n, known), runs[n];
    m := |before|;
    assert before[..m] == before;
    if run.metadata.parent == "" && run.metadata.retryOf != "" {
      var i := FirstWithRoot(before, RootFromMetadata(run));
      FirstWithRootIsFirst(before, RootFromMetadata(run), i);
      if i < |before| {
        m := i;
        assert before[i] in before;
      } else if run.metadata.retryOf !in known {
        m := 0;
        assert before[..0] + [run] == [run];
      }
    }
  }

  predicate SameRootShown(visible: seq<Run>, run: Run) {
    exists v <- visible :: RootFromMetadata(v) == RootFromMetadata(run)
  }

  /** A list in which no original comes after a run with its root. */
  predicate OriginalsFirst(runs: seq<Run>) {
    forall i, j :: 0 <= i < j < |runs| && runs[j].metadata.retryOf == "" ==>
      runs[i].metadata.parent == "" && runs[j].metadata.parent == "" ==>
      RootFromMetadata(runs[i]) != RootFromMetadata(runs[j])
  }

  /** The last run listed of its root, subagent runs aside. */
  predicate IsLastOfRoot(runs: seq<Run>, n: nat, i: nat)
    requires n <= |runs|
  {
    && i < n && runs[i].metadata.parent == ""
    && forall j :: i < j < n && runs[j].metadata.parent == "" ==> RootFromMetadata(runs[j]) != RootFromMetadata(runs[i])
  }

  ghost predicate LastListed(runs: seq<Run>, n: nat, run: Run)
    requires n <= |runs|
  {
    exists i: nat :: IsLastOfRoot(runs, n, i) && runs[i] == run
  }

  lemma StillLast(runs: seq<Run>, n: nat, run: Run)
    requires 0 < n <= |runs| && LastListed(runs, n - 1, run)
    requires runs[n - 1].metadata.parent == "" ==> RootFromMetadata(runs[n - 1]) != RootFromMetadata(run)
    ensures LastListed(runs, n, run)
  {
    var i: nat :| IsLastOfRoot(runs, n - 1, i) && runs[i] == run;
    assert IsLastOfRoot(runs, n, i);
  }

  /** The new run does not share its root with what stays shown beside it. */
  lemma ShowOneKeeps(visible: seq<Run>, run: Run, known: set<string>)
    requires run.metadata.parent == ""
    requires run.metadata.retryOf == "" ==> forall v <- visible :: RootFromMetadata(v) != RootFromMetadata(run)
    ensures var shown := ShowOne(visible, run, known); var m := |shown| - 1;
            m >= 0 && m <= |visible| && shown == visible[..m] + [run] &&
            forall a :: 0 <= a < m ==> RootFromMetadata(visible[a]) != RootFromMetadata(run)
  {
    FirstWithRootIsFirst(visible, RootFromMetadata(run), FirstWithRoot(visible, RootFromMetadata(run)));
    assert visible[..|visible|] == visible;
    assert visible[..0] + [run] == [run];
  }

  predicate DistinctRoots(visible: seq<Run>) {
    forall a, b :: 0 <= a < b < |visible| ==> RootFromMetadata(visible[a]) != RootFromMetadata(visible[b])
  }

  lemma OneMoreRoot(before: seq<Run>, m: nat, run: Run)
    requires DistinctRoots(before) && m <= |before|
    requires forall a :: 0 <= a < m ==> RootFromMetadata(before[a]) != RootFromMetadata(run)
    ensures DistinctRoots(before[..m] + [run])
  {
  }

  /** Replay shows no subagent run, at most one run of every root, and of each root the last one listed. */
  lemma {:induction false} OneRunPerRoot(runs: seq<Run>, n: nat, known: set<string>)
    requires OriginalsFirst(runs) && n <= |runs|
    ensures var visible := Shown(runs, n, known);
            DistinctRoots(visible) && forall v <- visible :: LastListed(runs, n, v)
  {
    if n > 0 {
      OneRunPerRoot(runs, n - 1, known);
      var before, run, visible := Shown(runs, n - 1, known), runs[n - 1], Shown(runs, n, known);
      if run.metadata.parent == "" {
        if run.metadata.retryOf == "" {
          forall v | v in before ensures RootFromMetadata(v) != RootFromMetadata(run) {
            assert LastListed(runs, n - 1, v);
            var i: nat :| IsLastOfRoot(runs, n - 1, i) && runs[i] == v;
            assert RootFromMetadata(runs[i]) != RootFromMetadata(runs[n - 1]);
          }
        }
        ShowOneKeeps(before, run, known);
        OneMoreRoot(before, |visible| - 1, run);
        assert IsLastOfRoot(runs, n, n - 1);
      }
      forall v | v in visible ensures LastListed(runs, n, v) {
        assert v in before ==> LastListed(runs, n - 1, v);
        if v in before && (run.metadata.parent == "" ==> RootFromMetadata(v) != RootFromMetadata(run)) {
          StillLast(runs, n, v);
        }
      }
    }
  }

  lemma DirectUnlessRetry(history: seq<Run>, i: nat)
    requires ApiHistory(history) && i < |history|
    ensures Direct(history[i]) <==> history[i].metadata.retryOf == ""
  {
    if !Direct(history[i]) {
      var j: nat :| j < i && Retries(history[i], history[j]);
      assert history[j].id != "";
    }
  }

  /** A session built through the API is such a list, in the order its runs were created. */
  lemma ApiHistoryIsReplayable(history: seq<Run>)
    requires ApiHistory(history)
    ensures OriginalsFirst(history)
  {
    forall i, j | 0 <= i < j < |history| && history[j].metadata.retryOf == ""
      ensures RootFromMetadata(history[i]) != RootFromMetadata(history[j])
    {
      StoredRootIsOrigin(history, i);
      DirectUnlessRetry(history, j);
    }
  }
}
