/** Agent retention: plan what to delete, report it, and compact the store. */
module Retention {
  import opened Strings
  import opened RunStore
  import opened RetryRoots
  import opened Supersede
  import opened Closure
  import opened Wrappers

  type Logs = map<string, seq<Event>>

  /* ---------- artifact events nobody cites ---------- */

  predicate IsArtifact(e: Event) {
    e.typ == Artifact && e.ref != ""
  }

  function Cited(events: Logs, skip: set<string>): set<string> {
    set id, e | id in events && id !in skip && e in events[id] && e.typ == Citation && e.ref != "" :: e.ref
  }

  /** The event that last created or updated each artifact. */
  function LastArtifactEvents(log: seq<Event>): map<string, string> {
    if log == [] then map[]
    else
      var before, e := LastArtifactEvents(log[..|log| - 1]), log[|log| - 1];
      if IsArtifact(e) then before[e.ref := e.id] else before
  }

  function UncitedIn(log: seq<Event>, cited: set<string>): set<string> {
    set a <- LastArtifactEvents(log) | a !in cited :: LastArtifactEvents(log)[a]
  }

  function Uncited(events: Logs, skip: set<string>, prune: set<string>): set<string> {
    set id, x | id in events && id !in skip && id in prune && x in UncitedIn(events[id], Cited(events, skip)) :: x
  }

  lemma {:induction false} LastArtifactEventIsInLog(log: seq<Event>, a: string)
    requires a in LastArtifactEvents(log)
    ensures exists e <- log :: IsArtifact(e) && e.ref == a && e.id == LastArtifactEvents(log)[a]
  {
    var init, last := log[..|log| - 1], log[|log| - 1];
    assert log == init + [last];
    if IsArtifact(last) && last.ref == a {
      assert last in log;
    } else {
      LastArtifactEventIsInLog(init, a);
      var e :| e in init && IsArtifact(e) && e.ref == a && e.id == LastArtifactEvents(init)[a];
      assert e in log;
    }
  }

  /* ---------- the plan ---------- */

  datatype Options = Options(pruneSuperseded: bool, pruneArtifacts: bool, dryRun: bool)

  datatype Plan = Plan(superseded: seq<string>, artifactEvents: seq<string>, supersededEvents: nat, runsScanned: nat,
      eventsScanned: nat)

  datatype Report = Report(dryRun: bool, runsScanned: nat, eventsScanned: nat, supersededRuns: nat,
      supersededEvents: nat,
                           artifactEvents: nat, supersededIds: seq<string>, artifactEventIds: seq<string>)

  function ReportOf(plan: Plan, dryRun: bool): Report {
    Report(dryRun, plan.runsScanned, plan.eventsScanned, |plan.superseded|, plan.supersededEvents,
           |plan.artifactEvents|, plan.superseded, plan.artifactEvents)
  }

  /** The runs whose artifacts may be pruned: terminal, and no ancestor still at work. */
  ghost predicate Settled(run: Run, byId: map<string, Run>) {
    Terminal(run.status) && !HasLiveAncestor(run, byId)
  }

  ghost function SettledIds(runs: map<string, Run>): set<string> {
    set id <- runs | Settled(runs[id], runs)
  }

  /** The length of all logs together. */
  ghost function Total(logs: Logs): nat {
    if logs == map[] then 0 else var id :| id in logs; |logs[id]| + Total(logs - {id})
  }

  lemma {:induction false} TotalWithout(logs: Logs, id: string)
    requires id in logs
    ensures Total(logs) == |logs[id]| + Total(logs - {id})
    decreases |logs|
  {
    var first :| first in logs && Total(logs) == |logs[first]| + Total(logs - {first});
    if first != id {
      TotalWithout(logs - {first}, id);
      TotalWithout(logs - {id}, first);
      assert logs - {first} - {id} == logs - {id} - {first};
    }
  }

  function Members(s: seq<string>): set<string> {
    set x <- s
  }

  function Restricted(logs: Logs, ids: set<string>): Logs {
    map id | id in logs && id in ids :: logs[id]
  }

  /** What the plan is, given the store and the order the session sort produced. */
  ghost predicate IsPlan(plan: Plan, s: Store, orders: map<string, seq<Run>>, opts: Options)
    requires WellKeyed(s.runs)
  {
    && StrictlySorted(plan.superseded) && StrictlySorted(plan.artifactEvents)
    && (opts.pruneSuperseded ==> exists runs: seq<Run> ::
          Lists(runs, s.runs) && IsClosure(runs, SupersededIds(orders, s.runs) - {""}, Members(plan.superseded)))
    && (!opts.pruneSuperseded ==> plan.superseded == [])
    && Members(plan.artifactEvents) ==
        (if opts.pruneArtifacts then Uncited(s.events, Members(plan.superseded), SettledIds(s.runs)) else {})
    && plan.supersededEvents == Total(Restricted(s.events, Members(plan.superseded)))
    && plan.runsScanned == |s.runs| && plan.eventsScanned == Total(s.events)
  }

  /** All runs of the store, in some order. */
  ghost predicate Lists(list: seq<Run>, runs: map<string, Run>) {
    forall r :: r in list <==> r.id in runs && runs[r.id] == r
  }

  lemma ClosureIgnoresListing(a: seq<Run>, b: seq<Run>, runs: map<string, Run>, roots: set<string>, ids: set<string>)
    requires Lists(a, runs) && Lists(b, runs) && IsClosure(a, roots, ids)
    ensures IsClosure(b, roots, ids)
  {
    assert forall r :: r in a <==> r in b;
    forall other: set<string> ensures ClosedDown(a, other) <==> ClosedDown(b, other) {
    }
  }

  /** The plan is a function of the store and the session orders: no map iteration shows in it. */
  lemma PlanIsDetermined(p: Plan, q: Plan, s: Store, orders: map<string, seq<Run>>, opts: Options, other: Options)
    requires WellKeyed(s.runs) && IsPlan(p, s, orders, opts) && IsPlan(q, s, orders, other)
    requires other == opts.(dryRun := other.dryRun)
    ensures p == q
  {
    if opts.pruneSuperseded {
      var roots := SupersededIds(orders, s.runs) - {""};
      var a: seq<Run> :| Lists(a, s.runs) && IsClosure(a, roots, Members(p.superseded));
      var b: seq<Run> :| Lists(b, s.runs) && IsClosure(b, roots, Members(q.superseded));
      ClosureIgnoresListing(a, b, s.runs, roots, Members(p.superseded));
      ClosureIsUnique(b, roots, Members(p.superseded), Members(q.superseded));
    }
    SameMembersSameList(p.superseded, q.superseded);
    SameMembersSameList(p.artifactEvents, q.artifactEvents);
  }

  lemma SameMembersSameList(a: seq<string>, b: seq<string>)
    requires StrictlySorted(a) && StrictlySorted(b) && Members(a) == Members(b)
    ensures a == b
  {
    forall x ensures x in a <==> x in b {
      assert x in a <==> x in Members(a);
      assert x in b <==> x in Members(b);
    }
    SortedIsCanonical(a, b);
  }

  /* ---------- compaction ---------- */

  function Without(log: seq<Event>, dropped: set<string>): seq<Event> {
    if log == [] then []
    else Without(log[..|log| - 1], dropped) + (if log[|log| - 1].id in dropped then [] else [log[|log| - 1]])
  }

  /** What the plan leaves of a store. */
  function Compacted(s: Store, plan: Plan): Store {
    var gone, dropped := Members(plan.superseded), Members(plan.artifactEvents);
    s.(runs := s.runs - gone,
       events := map id | id in s.events && id !in gone :: Without(s.events[id], dropped))
  }

  /** The log is filtered over itself: the kept events move to the front of the same array. */
  method CompactInPlace(log: array<Event>, dropped: set<string>) returns (kept: nat)
    modifies log
    ensures kept <= log.Length && log[..kept] == Without(old(log[..]), dropped)
  {
    kept := 0;
    for i := 0 to log.Length
      invariant kept <= i
      invariant log[..kept] == Without(old(log[..])[..i], dropped)
      invariant forall k :: i <= k < log.Length ==> log[k] == old(log[k])
    {
      var e := log[i];
      assert old(log[..])[..i + 1][..i] == old(log[..])[..i];
      if e.id in dropped {
        continue;
      }
      log[kept] := e;
      kept := kept + 1;
    }
    assert old(log[..])[..log.Length] == old(log[..]);
  }

  /** A subsequence, by the positions at which its elements stand. */
  ghost predicate Subsequence(kept: seq<Event>, log: seq<Event>) {
    exists at: seq<nat> :: StandsAt(kept, log, at)
  }

  predicate StandsAt(kept: seq<Event>, log: seq<Event>, at: seq<nat>) {
    && |at| == |kept|
    && (forall i :: 0 <= i < |at| ==> at[i] < |log| && kept[i] == log[at[i]])
    && (forall i, j :: 0 <= i < j < |at| ==> at[i] < at[j])
  }

  lemma StandsInLonger(kept: seq<Event>, log: seq<Event>, at: seq<nat>, n: nat)
    requires n + 1 == |log| && StandsAt(kept, log[..n], at)
    ensures StandsAt(kept, log, at) && StandsAt(kept + [log[n]], log, at + [n])
  {
    assert forall i :: 0 <= i < |at| ==> at[i] < n && log[..n][at[i]] == log[at[i]];
  }

  lemma {:induction false} WithoutIsSubsequence(log: seq<Event>, dropped: set<string>) returns (at: seq<nat>)
    ensures StandsAt(Without(log, dropped), log, at)
  {
    if log == [] {
      at := [];
    } else {
      var n: nat := |log| - 1;
      at := WithoutIsSubsequence(log[..n], dropped);
      StandsInLonger(Without(log[..n], dropped), log, at, n);
      if log[n].id !in dropped {
        at := at + [n];
      }
    }
  }

  lemma SubsequenceWithout(log: seq<Event>, dropped: set<string>)
    ensures Subsequence(Without(log, dropped), log)
  {
    var at := WithoutIsSubsequence(log, dropped);
  }

  lemma {:induction false} WithoutKeeps(log: seq<Event>, dropped: set<string>, e: Event)
    ensures e in Without(log, dropped) <==> e in log && e.id !in dropped
  {
    if log != [] {
      assert log == log[..|log| - 1] + [log[|log| - 1]];
      WithoutKeeps(log[..|log| - 1], dropped, e);
    }
  }

  /* ---------- the theorems ---------- */

  /** Event identifiers are unique across the store. */
  predicate UniqueIds(events: Logs) {
    forall a, b, i, j :: a in events && b in events && 0 <= i < |events[a]| && 0 <= j < |events[b]| ==>
      events[a][i].id == events[b][j].id ==> a == b && i == j
  }

  lemma SameIdSameEvent(events: Logs, a: string, b: string, e: Event, f: Event)
    requires UniqueIds(events) && a in events && b in events && e in events[a] && f in events[b] && e.id == f.id
    ensures a == b && e == f
  {
    var i :| 0 <= i < |events[a]| && events[a][i] == e;
    var j :| 0 <= j < |events[b]| && events[b][j] == f;
  }

  /** A dropped event is an artifact event of a settled surviving run, and no surviving run cites its artifact. */
  lemma DroppedEventsAreUncited(s: Store, plan: Plan, orders: map<string, seq<Run>>, opts: Options, id: string,
      e: Event)
    requires WellKeyed(s.runs) && IsPlan(plan, s, orders, opts) && UniqueIds(s.events)
    requires id in s.events && e in s.events[id] && e.id in plan.artifactEvents
    ensures IsArtifact(e) && id !in plan.superseded && id in s.runs && Settled(s.runs[id], s.runs)
    ensures e.ref !in Cited(s.events, Members(plan.superseded))
  {
    var skip, prune := Members(plan.superseded), SettledIds(s.runs);
    assert e.id in Members(plan.artifactEvents);
    assert e.id in Uncited(s.events, skip, prune);
    var owner :| owner in s.events && owner !in skip && owner in prune &&
        e.id in UncitedIn(s.events[owner], Cited(s.events, skip));
    var a :| a in LastArtifactEvents(s.events[owner]) && a !in Cited(s.events, skip) &&
        LastArtifactEvents(s.events[owner])[a] == e.id;
    LastArtifactEventIsInLog(s.events[owner], a);
    var f :| f in s.events[owner] && IsArtifact(f) && f.ref == a && f.id == e.id;
    SameIdSameEvent(s.events, id, owner, e, f);
  }

  /** Retention never breaks a citation. Each surviving log is a subsequence of what it was; every event that is
      not an artifact event stays, every citation among them; an artifact event stays if any surviving run cites
      its artifact; and the log is untouched if the run, or any ancestor of it, is not terminal. */
  lemma CitationsSurvive(s: Store, plan: Plan, orders: map<string, seq<Run>>, opts: Options,
      id: string)
    returns (kept: seq<Event>)
    requires WellKeyed(s.runs) && IsPlan(plan, s, orders, opts) && UniqueIds(s.events)
    requires id in s.events && id !in plan.superseded
    ensures id in Compacted(s, plan).events && Compacted(s, plan).events[id] == kept
    ensures Subsequence(kept, s.events[id])
    ensures forall e <- s.events[id] :: !IsArtifact(e) || e.ref in Cited(s.events, Members(plan.superseded)) ==>
        e in kept
    ensures id in s.runs && !Settled(s.runs[id], s.runs) ==> kept == s.events[id]
  {
    var dropped, log := Members(plan.artifactEvents), s.events[id];
    kept := Without(log, dropped);
    SubsequenceWithout(log, dropped);
    forall e | e in log && e.id in dropped
      ensures IsArtifact(e) && e.ref !in Cited(s.events, Members(plan.superseded)) && id in s.runs &&
          Settled(s.runs[id], s.runs)
    {
      DroppedEventsAreUncited(s, plan, orders, opts, id, e);
    }
    forall e | e in log && e.id !in dropped ensures e in Without(log, dropped) {
      WithoutKeeps(log, dropped, e);
    }
    if id in s.runs && !Settled(s.runs[id], s.runs) {
      WithoutNothing(log, dropped);
    }
  }

  lemma {:induction false} WithoutNothing(log: seq<Event>, dropped: set<string>)
    requires forall e <- log :: e.id !in dropped
    ensures Without(log, dropped) == log
  {
    if log != [] {
      var init, last := log[..|log| - 1], log[|log| - 1];
      assert log == init + [last];
      WithoutNothing(init, dropped);
    }
  }

  /* ---------- conservation ---------- */

  function Ids(log: seq<Event>): set<string> {
    set e <- log :: e.id
  }

  function AllIds(logs: Logs): set<string> {
    set id, e | id in logs && e in logs[id] :: e.id
  }

  function CompactedLogs(logs: Logs, dropped: set<string>): Logs {
    map id | id in logs :: Without(logs[id], dropped)
  }

  predicate DistinctEventIds(log: seq<Event>) {
    forall i, j :: 0 <= i < j < |log| ==> log[i].id != log[j].id
  }

  lemma {:induction false} LogShrinks(log: seq<Event>, dropped: set<string>)
    requires DistinctEventIds(log)
    ensures |log| == |Without(log, dropped)| + |dropped * Ids(log)|
  {
    if log == [] {
      assert dropped * Ids(log) == {};
    } else {
      LogShrinks(log[..|log| - 1], dropped);
      LastIdIsNew(log);
      Shares(dropped, Ids(log[..|log| - 1]), {log[|log| - 1].id});
      assert dropped * {log[|log| - 1].id} == if log[|log| - 1].id in dropped then {log[|log| - 1].id} else {};
    }
  }

  lemma LastIdIsNew(log: seq<Event>)
    requires DistinctEventIds(log) && log != []
    ensures var (init, last) := (log[..|log| - 1], log[|log| - 1]);
            Ids(log) == Ids(init) + {last.id} && Ids(init) !! {last.id}
  {
    assert log == log[..|log| - 1] + [log[|log| - 1]];
  }

  lemma Shares(dropped: set<string>, a: set<string>, b: set<string>)
    requires a !! b
    ensures |dropped * (a + b)| == |dropped * a| + |dropped * b|
  {
    assert dropped * (a + b) == dropped * a + dropped * b;
  }

  lemma CompactedRest(logs: Logs, dropped: set<string>, id: string)
    requires id in logs
    ensures CompactedLogs(logs, dropped) - {id} == CompactedLogs(logs - {id}, dropped)
    ensures id in CompactedLogs(logs, dropped) && CompactedLogs(logs, dropped)[id] == Without(logs[id], dropped)
  {
  }

  lemma {:induction false} LogsShrink(logs: Logs, dropped: set<string>)
    requires UniqueIds(logs)
    ensures Total(logs) == Total(CompactedLogs(logs, dropped)) + |dropped * AllIds(logs)|
    decreases |logs|
  {
    if logs == map[] {
      assert dropped * AllIds(logs) == {};
      assert CompactedLogs(logs, dropped) == map[];
    } else {
      var id :| id in logs;
      LogsShrink(logs - {id}, dropped);
      LogShrinks(logs[id], dropped);
      TotalWithout(logs, id);
      CompactedRest(logs, dropped, id);
      TotalWithout(CompactedLogs(logs, dropped), id);
      IdsSplit(logs, id);
      Shares(dropped, Ids(logs[id]), AllIds(logs - {id}));
    }
  }

  lemma IdsSplit(logs: Logs, id: string)
    requires UniqueIds(logs) && id in logs
    ensures AllIds(logs) == Ids(logs[id]) + AllIds(logs - {id}) && Ids(logs[id]) !! AllIds(logs - {id})
  {
    var rest := logs - {id};
    forall e: Event, other: string, f: Event | e in logs[id] && other in rest && f in rest[other] ensures e.id != f.id {
      if e.id == f.id {
        SameIdSameEvent(logs, id, other, e, f);
      }
    }
    forall x | x in Ids(logs[id]) ensures x in AllIds(logs) {
      var e :| e in logs[id] && e.id == x;
      assert id in logs && e in logs[id];
    }
    forall x | x in AllIds(rest) ensures x in AllIds(logs) {
      var other: string, f: Event :| other in rest && f in rest[other] && f.id == x;
      assert other in logs && f in logs[other];
    }
    forall x | x in AllIds(logs) ensures x in Ids(logs[id]) + AllIds(rest) {
      var other: string, f: Event :| other in logs && f in logs[other] && f.id == x;
      assert other != id ==> other in rest && f in rest[other];
    }
  }

  lemma {:induction false} TotalSplits(logs: Logs, ids: set<string>)
    ensures Total(logs) == Total(Restricted(logs, ids)) + Total(Restricted(logs, logs.Keys - ids))
    decreases |logs|
  {
    if logs != map[] {
      var id :| id in logs;
      var rest := logs - {id};
      TotalSplits(rest, ids);
      TotalWithout(logs, id);
      var (inside, outside) := (Restricted(logs, ids), Restricted(logs, logs.Keys - ids));
      if id in ids {
        TotalWithout(inside, id);
        assert inside - {id} == Restricted(rest, ids);
        assert outside == Restricted(rest, rest.Keys - ids);
      } else {
        TotalWithout(outside, id);
        assert outside - {id} == Restricted(rest, rest.Keys - ids);
        assert inside == Restricted(rest, ids);
      }
    }
  }

  lemma {:induction false} SortedHasNoRepeats(s: seq<string>)
    requires StrictlySorted(s)
    ensures |s| == |Members(s)|
  {
    if s != [] {
      var init, last := s[..|s| - 1], s[|s| - 1];
      assert s == init + [last];
      SortedHasNoRepeats(init);
      assert Members(s) == Members(init) + {last};
      LessIsIrreflexive(last);
      assert last !in Members(init);
    }
  }

  /** What the retry phase marks, if it is asked for. */
  function Marks(s: Store, orders: map<string, seq<Run>>, opts: Options): set<string>
    requires WellKeyed(s.runs)
  {
    if opts.pruneSuperseded then SupersededIds(orders, s.runs) - {""} else {}
  }

  lemma MarksAreRuns(s: Store, orders: map<string, seq<Run>>, opts: Options)
    requires SessionOrders(s.runs, orders)
    ensures Marks(s, orders, opts) <= s.runs.Keys
  {
    forall id | id in Marks(s, orders, opts) ensures id in s.runs {
      var session :| session in orders && id in SessionIds(orders[session], s.runs);
      MarkedBelongs(s, orders, session, id);
    }
  }

  /** A run is superseded exactly if the run or some ancestor of it is marked. */
  lemma SupersededExactly(s: Store, plan: Plan, orders: map<string, seq<Run>>, opts: Options, id: string)
    requires SessionOrders(s.runs, orders) && IsPlan(plan, s, orders, opts) && id in s.runs
    ensures id in plan.superseded <==> Descends(s.runs[id], s.runs, Marks(s, orders, opts))
  {
    MarksAreRuns(s, orders, opts);
    if opts.pruneSuperseded {
      var roots := Marks(s, orders, opts);
      var runs: seq<Run> :| Lists(runs, s.runs) && IsClosure(runs, roots, Members(plan.superseded));
      ClosureIsDescent(runs, s.runs, roots, Members(plan.superseded), id);
      assert id in plan.superseded <==> id in Members(plan.superseded);
    }
  }

  /** In some session a completed run takes a finished run with this identifier out of sight. */
  ghost predicate ReplacedIn(orders: map<string, seq<Run>>, byId: map<string, Run>, id: string)
    requires WellKeyed(byId)
  {
    exists session, i: nat :: session in orders && i < |orders[session]| && Replaces(orders[session], i, byId, id)
  }

  lemma MarksExactly(s: Store, orders: map<string, seq<Run>>, opts: Options, id: string)
    requires SessionOrders(s.runs, orders)
    ensures id in Marks(s, orders, opts) <==> opts.pruneSuperseded && id != "" && ReplacedIn(orders, s.runs, id)
  {
    forall session | session in orders
      ensures id in SessionIds(orders[session], s.runs) <==>
              exists i: nat :: i < |orders[session]| && Replaces(orders[session], i, s.runs, id)
    {
      MarkedExactly(orders[session], |orders[session]|, s.runs, id);
    }
  }

  /** The run or some ancestor of it was replaced. */
  ghost predicate ReplacedAbove(s: Store, orders: map<string, seq<Run>>, run: Run)
    requires WellKeyed(s.runs)
  {
    exists n: nat :: Ancestor(run, s.runs, n).Some? && Ancestor(run, s.runs, n).value.id != "" &&
      ReplacedIn(orders, s.runs, Ancestor(run, s.runs, n).value.id)
  }

  /** What retention deletes, exactly, if it is asked to: a run that a completed retry took out of sight when it was
      finished, and every run below one. */
  lemma DeletedExactly(s: Store, plan: Plan, orders: map<string, seq<Run>>, opts: Options, id: string)
    requires SessionOrders(s.runs, orders) && IsPlan(plan, s, orders, opts) && id in s.runs
    ensures id in plan.superseded <==> opts.pruneSuperseded && ReplacedAbove(s, orders, s.runs[id])
  {
    SupersededExactly(s, plan, orders, opts, id);
    forall x ensures x in Marks(s, orders, opts) <==>
        opts.pruneSuperseded && x != "" && ReplacedIn(orders, s.runs, x) {
      MarksExactly(s, orders, opts, x);
    }
  }

  /** Event `k` is the last of the log that creates or updates its artifact. */
  predicate LastOfArtifact(log: seq<Event>, k: nat)
    requires k < |log|
  {
    log[k].typ == Artifact && log[k].ref != "" &&
    forall j :: k < j < |log| && log[j].typ == Artifact ==> log[j].ref != log[k].ref
  }

  lemma {:induction false} LastEvents(log: seq<Event>, a: string)
    ensures a in LastArtifactEvents(log) ==>
              exists k :: 0 <= k < |log| && LastOfArtifact(log, k) && log[k].ref == a &&
                log[k].id == LastArtifactEvents(log)[a]
    ensures forall k :: 0 <= k < |log| && LastOfArtifact(log, k) && log[k].ref == a ==>
              a in LastArtifactEvents(log) && LastArtifactEvents(log)[a] == log[k].id
  {
    if log != [] {
      var n := |log| - 1;
      var init, last := log[..n], log[n];
      LastEvents(init, a);
      if IsArtifact(last) && last.ref == a {
        assert LastOfArtifact(log, n);
      } else {
        forall k | 0 <= k < n && log[k].ref == a ensures LastOfArtifact(log, k) <==> LastOfArtifact(init, k) {
          assert forall j :: 0 <= j < n ==> log[j] == init[j];
        }
      }
    }
  }

  /** The run is finished and so are all its ancestors. */
  ghost predicate AllFinished(run: Run, byId: map<string, Run>) {
    forall n: nat :: Ancestor(run, byId, n).Some? ==> Finished(Ancestor(run, byId, n).value)
  }

  lemma SettledMeans(run: Run, byId: map<string, Run>)
    ensures Settled(run, byId) <==> AllFinished(run, byId)
  {
    assert Ancestor(run, byId, 0) == Some(run);
  }

  /** Some log that is not deleted cites the artifact. */
  ghost predicate CitedByOthers(s: Store, plan: Plan, ref: string) {
    exists id, f :: id in s.events && id !in plan.superseded && f in s.events[id] && f.typ == Citation && f.ref == ref
  }

  lemma CitedMeans(s: Store, plan: Plan, ref: string)
    requires ref != ""
    ensures ref in Cited(s.events, Members(plan.superseded)) <==> CitedByOthers(s, plan, ref)
  {
  }

  lemma UncitedMeans(s: Store, id: string, k: nat, cited: set<string>)
    requires UniqueIds(s.events) && id in s.events && k < |s.events[id]|
    ensures s.events[id][k].id in UncitedIn(s.events[id], cited) <==>
            LastOfArtifact(s.events[id], k) && s.events[id][k].ref !in cited
  {
    var log := s.events[id];
    if log[k].id in UncitedIn(log, cited) {
      var a :| a in LastArtifactEvents(log) && a !in cited && LastArtifactEvents(log)[a] == log[k].id;
      LastEvents(log, a);
    }
    LastEvents(log, log[k].ref);
  }

  /** Which events are dropped, exactly: the last event of an artifact, in a log that stays, of a run that is finished
      with all its ancestors, if no log that stays cites the artifact. */
  lemma DroppedExactly(s: Store, plan: Plan, orders: map<string, seq<Run>>, opts: Options, id: string, k: nat)
    requires WellKeyed(s.runs) && IsPlan(plan, s, orders, opts) && UniqueIds(s.events)
    requires id in s.events && k < |s.events[id]|
    ensures var e := s.events[id][k];
            e.id in plan.artifactEvents <==>
              opts.pruneArtifacts && id in s.runs && id !in plan.superseded && AllFinished(s.runs[id], s.runs) &&
              LastOfArtifact(s.events[id], k) && !CitedByOthers(s, plan, e.ref)
  {
    var e := s.events[id][k];
    var cited := Cited(s.events, Members(plan.superseded));
    UncitedMeans(s, id, k, cited);
    if id in s.runs {
      SettledMeans(s.runs[id], s.runs);
    }
    if LastOfArtifact(s.events[id], k) {
      CitedMeans(s, plan, e.ref);
    }
    assert e.id in plan.artifactEvents <==> e.id in Members(plan.artifactEvents);
    if opts.pruneArtifacts {
      OwnDrop(s, plan, id, k);
    }
  }

  lemma OwnDrop(s: Store, plan: Plan, id: string, k: nat)
    requires UniqueIds(s.events) && id in s.events && k < |s.events[id]|
    ensures var (skip, x) := (Members(plan.superseded), s.events[id][k].id);
            x in Uncited(s.events, skip, SettledIds(s.runs)) <==>
              id !in skip && id in SettledIds(s.runs) && x in UncitedIn(s.events[id], Cited(s.events, skip))
  {
    var skip, prune, e := Members(plan.superseded), SettledIds(s.runs), s.events[id][k];
    if e.id in Uncited(s.events, skip, prune) {
      var owner :| owner in s.events && owner !in skip && owner in prune &&
          e.id in UncitedIn(s.events[owner], Cited(s.events, skip));
      var a :| a in LastArtifactEvents(s.events[owner]) && LastArtifactEvents(s.events[owner])[a] == e.id;
      LastArtifactEventIsInLog(s.events[owner], a);
      var f :| f in s.events[owner] && f.id == e.id;
      SameIdSameEvent(s.events, id, owner, e, f);
    }
  }

  /** Only runs of the store are superseded: the closure stays within it. */
  lemma SupersededAreRuns(s: Store, plan: Plan, orders: map<string, seq<Run>>, opts: Options)
    requires SessionOrders(s.runs, orders) && IsPlan(plan, s, orders, opts)
    ensures Members(plan.superseded) <= s.runs.Keys
  {
    MarksAreRuns(s, orders, opts);
    if opts.pruneSuperseded {
      var roots := Marks(s, orders, opts);
      var runs: seq<Run> :| Lists(runs, s.runs) && IsClosure(runs, roots, Members(plan.superseded));
      assert ClosedDown(runs, s.runs.Keys);
    }
  }

  lemma PlannedDropsAreSurvivors(s: Store, plan: Plan, orders: map<string, seq<Run>>, opts: Options)
    requires WellKeyed(s.runs) && IsPlan(plan, s, orders, opts)
    ensures Members(plan.artifactEvents) <= AllIds(Restricted(s.events, s.events.Keys - Members(plan.superseded)))
  {
    var skip := Members(plan.superseded);
    var survivors := Restricted(s.events, s.events.Keys - skip);
    forall x | x in Members(plan.artifactEvents) ensures x in AllIds(survivors) {
      assert x in Uncited(s.events, skip, SettledIds(s.runs));
      var id :| id in s.events && id !in skip && id in SettledIds(s.runs) &&
          x in UncitedIn(s.events[id], Cited(s.events, skip));
      var a :| a in LastArtifactEvents(s.events[id]) && a !in Cited(s.events, skip) &&
          LastArtifactEvents(s.events[id])[a] == x;
      LastArtifactEventIsInLog(s.events[id], a);
      var e :| e in s.events[id] && IsArtifact(e) && e.ref == a && e.id == x;
      assert id in survivors && e in survivors[id];
    }
  }

  /** Retention conserves and reports truthfully: the runs and events that are gone are, to the last one, those the
      report counts. */
  lemma RetentionConserves(s: Store, plan: Plan, orders: map<string, seq<Run>>, opts: Options)
    requires SessionOrders(s.runs, orders) && IsPlan(plan, s, orders, opts) && UniqueIds(s.events)
    ensures var (after, report) := (Compacted(s, plan), ReportOf(plan, opts.dryRun));
            && report.runsScanned == |s.runs| == |after.runs| + report.supersededRuns
            && report.eventsScanned == Total(s.events) == Total(after.events) + report.supersededEvents +
                report.artifactEvents
  {
    SupersededAreRuns(s, plan, orders, opts);
    RunsConserved(s, plan);
    PlannedDropsAreSurvivors(s, plan, orders, opts);
    EventsConserved(s.events, s, plan);
  }

  lemma RunsConserved(s: Store, plan: Plan)
    requires StrictlySorted(plan.superseded) && Members(plan.superseded) <= s.runs.Keys
    ensures |s.runs| == |Compacted(s, plan).runs| + |plan.superseded|
  {
    var gone, after := Members(plan.superseded), Compacted(s, plan);
    SortedHasNoRepeats(plan.superseded);
    assert s.runs.Keys == after.runs.Keys + gone && after.runs.Keys !! gone;
  }

  lemma EventsConserved(events: Logs, s: Store, plan: Plan)
    requires events == s.events && UniqueIds(events) && StrictlySorted(plan.artifactEvents)
    requires Members(plan.artifactEvents) <= AllIds(Restricted(events, events.Keys - Members(plan.superseded)))
    requires plan.supersededEvents == Total(Restricted(events, Members(plan.superseded)))
    ensures Total(events) == Total(Compacted(s, plan).events) + plan.supersededEvents + |plan.artifactEvents|
  {
    var gone, dropped := Members(plan.superseded), Members(plan.artifactEvents);
    var survivors := Restricted(events, events.Keys - gone);
    SortedHasNoRepeats(plan.artifactEvents);
    TotalSplits(events, gone);
    SurvivorsShrink(events, gone, dropped);
    assert dropped * AllIds(survivors) == dropped;
    assert Compacted(s, plan).events == CompactedLogs(survivors, dropped);
  }

  lemma SurvivorsShrink(logs: Logs, gone: set<string>, dropped: set<string>)
    requires UniqueIds(logs)
    ensures var survivors := Restricted(logs, logs.Keys - gone);
            Total(survivors) == Total(CompactedLogs(survivors, dropped)) + |dropped * AllIds(survivors)|
  {
    RestrictionIsUnique(logs, logs.Keys - gone);
    LogsShrink(Restricted(logs, logs.Keys - gone), dropped);
  }

  lemma RestrictionIsUnique(logs: Logs, ids: set<string>)
    requires UniqueIds(logs)
    ensures UniqueIds(Restricted(logs, ids))
  {
  }

  /* ---------- what a session is left with ---------- */

  predicate CompletedOf(run: Run, session: string) {
    run.sessionId == session && run.status == Completed
  }

  /** A completed run of the session is left. */
  ghost predicate KeepsACompletion(s: Store, plan: Plan, session: string) {
    exists id <- s.runs :: CompletedOf(s.runs[id], session) && id !in plan.superseded
  }

  /** The session has a completed run that is not marked and has no marked ancestor. */
  ghost predicate HasSafeCompletion(s: Store, orders: map<string, seq<Run>>, opts: Options, session: string)
    requires WellKeyed(s.runs)
  {
    exists id <- s.runs :: CompletedOf(s.runs[id], session) && !Descends(s.runs[id], s.runs, Marks(s, orders, opts))
  }

  /** What a session is left with, exactly: it keeps a completed run if and only if it has one that neither is marked by
      the retry phase nor has a marked ancestor. */
  lemma SessionKeepsExactly(s: Store, plan: Plan, orders: map<string, seq<Run>>, opts: Options, session: string)
    requires SessionOrders(s.runs, orders) && IsPlan(plan, s, orders, opts)
    ensures KeepsACompletion(s, plan, session) <==> HasSafeCompletion(s, orders, opts, session)
  {
    forall id | id in s.runs
      ensures id in plan.superseded <==> Descends(s.runs[id], s.runs, Marks(s, orders, opts))
    {
      SupersededExactly(s, plan, orders, opts, id);
    }
  }

  /** Of the session that loses a run, the retry that marked last is completed and unmarked; so the session keeps a
      completed run as long as no completed retry of this session has a marked ancestor. */
  lemma RetriesOutsideAreSafe(s: Store, plan: Plan, orders: map<string, seq<Run>>, opts: Options, session: string)
    requires SessionOrders(s.runs, orders) && IsPlan(plan, s, orders, opts)
    requires session in orders && SessionIds(orders[session], s.runs) != {}
    requires forall id <- s.runs :: CompletedOf(s.runs[id], session) && s.runs[id].metadata.retryOf != "" ==>
               NoMarkedAncestor(s.runs[id], s.runs, Marks(s, orders, opts))
    ensures KeepsACompletion(s, plan, session)
  {
    var order := orders[session];
    var i := LastingRetry(order, |order|, s.runs);
    var retry := order[i];
    assert retry in order;
    if Descends(retry, s.runs, Marks(s, orders, opts)) {
      assert retry.id in Marks(s, orders, opts);
      var t :| t in orders && retry.id in SessionIds(orders[t], s.runs);
      MarkedBelongs(s, orders, t, retry.id);
    }
    SessionKeepsExactly(s, plan, orders, opts, session);
  }

  ghost predicate NoMarkedAncestor(run: Run, byId: map<string, Run>, marks: set<string>) {
    Descends(run, byId, marks) ==> run.id in marks
  }

  /** A completed run of every session that loses a run stays, as long as no retry is itself the child of a run. */
  lemma SessionKeepsACompletedRun(s: Store, plan: Plan, orders: map<string, seq<Run>>, opts: Options, session: string)
    requires SessionOrders(s.runs, orders) && IsPlan(plan, s, orders, opts)
    requires session in orders && SessionIds(orders[session], s.runs) != {}
    requires forall id <- s.runs :: s.runs[id].metadata.parent == "" || s.runs[id].metadata.retryOf == ""
    ensures exists id <- s.runs ::
      s.runs[id].sessionId == session && s.runs[id].status == Completed && id !in plan.superseded
  {
    forall id | id in s.runs && s.runs[id].metadata.retryOf != ""
      ensures NoMarkedAncestor(s.runs[id], s.runs, Marks(s, orders, opts))
    {
      assert Ancestor(s.runs[id], s.runs, 1).None?;
      forall n: nat | n > 0 ensures Ancestor(s.runs[id], s.runs, n).None? {
        ChainEnds(s.runs[id], s.runs, 1, n);
      }
    }
    RetriesOutsideAreSafe(s, plan, orders, opts, session);
  }

  lemma MarkedBelongs(s: Store, orders: map<string, seq<Run>>, t: string, id: string)
    requires SessionOrders(s.runs, orders) && t in orders && id in SessionIds(orders[t], s.runs)
    ensures id in s.runs && s.runs[id].sessionId == t
  {
    var b := BranchInvariant(orders[t], |orders[t]|, s.runs);
    var j :| 0 <= j < |orders[t]| && orders[t][j].id == id;
    assert orders[t][j] in orders[t];
  }

  /** The last retry that marked anything is completed, a retry, and itself unmarked. */
  lemma {:induction false} LastingRetry(order: seq<Run>, n: nat, byId: map<string, Run>) returns (i: nat)
    requires WellKeyed(byId) && DistinctIds(order) && n <= |order|
    requires BranchOf(order, n, byId).deleted != {}
    ensures i < n && order[i].status == Completed && order[i].metadata.retryOf != ""
    ensures order[i].id !in BranchOf(order, n, byId).deleted
  {
    var k: nat := n - 1;
    var before, marks := MarksOneMore(order, k, byId);
    if marks == {} {
      assert before.deleted + marks == before.deleted;
      i := LastingRetry(order, k, byId);
    } else {
      i := k;
      RetryIsUnmarked(order, k, before, byId);
    }
  }

  lemma MarksOneMore(order: seq<Run>, k: nat, byId: map<string, Run>) returns (before: Branch, marks: set<string>)
    requires WellKeyed(byId) && DistinctIds(order) && k < |order|
    ensures before == BranchOf(order, k, byId) && Sound(order, k, before, byId)
    ensures marks == NewMarks(before, order[k], byId)
    ensures BranchOf(order, k + 1, byId).deleted == before.deleted + marks
  {
    before := BranchInvariant(order, k, byId);
    StepCutsAndMarks(before, order[k], byId);
    marks := NewMarks(before, order[k], byId);
  }

  lemma RetryIsUnmarked(order: seq<Run>, k: nat, before: Branch, byId: map<string, Run>)
    requires WellKeyed(byId) && DistinctIds(order) && k < |order| && Sound(order, k, before, byId)
    requires NewMarks(before, order[k], byId) != {}
    ensures order[k].status == Completed && order[k].metadata.retryOf != ""
    ensures order[k].id !in before.deleted + NewMarks(before, order[k], byId)
  {
    var run := order[k];
    var id :| id in NewMarks(before, run, byId);
    var c := MarkedAt(before, run, byId, id);
    if run.id in NewMarks(before, run, byId) {
      NewMarkIsHidden(order, k, before, byId, run.id);
    }
  }

  const FIRST := Run("a", "s", Completed, 0, None, Some(1), "", Metadata("", "", ""))
  const CHILDRETRY := Run("b", "s", Completed, 2, None, Some(3), "", Metadata("a", "a", "a"))
  const TWORUNS: map<string, Run> := map["a" := FIRST, "b" := CHILDRETRY]

  lemma RetryMarksTheFirst()
    ensures SupersededIds(map["s" := [FIRST, CHILDRETRY]], TWORUNS) == {"a"}
  {
    var order := [FIRST, CHILDRETRY];
    assert BranchOf(order, 1, TWORUNS) == Branch([FIRST], {});
    assert FirstIndex([FIRST], "a", TWORUNS) == 0;
    assert [FIRST][0..] == [FIRST];
    assert TerminalIds([FIRST]) == {"a"};
    assert SessionIds(order, TWORUNS) == {"a"};
    OneMoreSession(map[], "s", order, TWORUNS);
    assert map[]["s" := order] == map["s" := order];
    assert SupersededIds(map[], TWORUNS) == {};
  }

  /** Why the ancestors matter. A retry can carry a parent (the request may set one): when that parent is the very
      run it replaces, the closure takes the completed retry along and the session loses everything. */
  lemma ChildRetryIsLost(plan: Plan, opts: Options)
    requires opts.pruneSuperseded
    requires IsPlan(plan, Store({"s"}, TWORUNS, map[]), map["s" := [FIRST, CHILDRETRY]], opts)
    ensures SessionOrders(TWORUNS, map["s" := [FIRST, CHILDRETRY]])
    ensures Compacted(Store({"s"}, TWORUNS, map[]), plan).runs == map[]
    ensures !KeepsACompletion(Store({"s"}, TWORUNS, map[]), plan, "s")
  {
    TwoRunsOrdered();
    BothSuperseded(plan, opts);
    assert TWORUNS.Keys == {"a", "b"};
  }

  lemma BothSuperseded(plan: Plan, opts: Options)
    requires opts.pruneSuperseded
    requires IsPlan(plan, Store({"s"}, TWORUNS, map[]), map["s" := [FIRST, CHILDRETRY]], opts)
    ensures "a" in plan.superseded && "b" in plan.superseded
  {
    var (s, orders) := (Store({"s"}, TWORUNS, map[]), map["s" := [FIRST, CHILDRETRY]]);
    TwoRunsOrdered();
    BothDescend();
    RetryMarksTheFirst();
    SupersededExactly(s, plan, orders, opts, "a");
    SupersededExactly(s, plan, orders, opts, "b");
  }

  lemma TwoRunsOrdered()
    ensures SessionOrders(TWORUNS, map["s" := [FIRST, CHILDRETRY]])
  {
  }

  lemma BothDescend()
    ensures Descends(FIRST, TWORUNS, {"a"}) && Descends(CHILDRETRY, TWORUNS, {"a"})
  {
    assert Ancestor(FIRST, TWORUNS, 0) == Some(FIRST);
    AncestorOfParent(CHILDRETRY, TWORUNS, 0);
  }

  /* ---------- the code ---------- */

  method UnreferencedArtifactEventIDs(events: Logs, skip: set<string>, prune: set<string>) returns (ids: seq<string>)
    ensures StrictlySorted(ids) && Members(ids) == Uncited(events, skip, prune)
  {
    var cited: set<string> := {};
    var unseen := events.Keys;
    while unseen != {}
      invariant unseen <= events.Keys
      invariant cited == Cited(events - unseen, skip)
      decreases unseen
    {
      var id :| id in unseen;
      CitedOneMore(events, unseen, id, skip);
      unseen := unseen - {id};
      if id in skip {
        continue;
      }
      var found := CitationsOf(events[id]);
      cited := cited + found;
    }
    assert events - {} == events;
    var deleted: set<string> := {};
    unseen := events.Keys;
    while unseen != {}
      invariant unseen <= events.Keys
      invariant deleted == UncitedAmong(events, events.Keys - unseen, skip, prune, cited)
      decreases unseen
    {
      var id :| id in unseen;
      assert events.Keys - (unseen - {id}) == (events.Keys - unseen) + {id};
      UncitedOneMore(events, events.Keys - unseen, id, skip, prune, cited);
      unseen := unseen - {id};
      if id in skip || id !in prune {
        continue;
      }
      var last := IndexArtifacts(events[id]);
      deleted := deleted + set a <- last | a !in cited :: last[a];
    }
    assert events.Keys - {} == events.Keys;
    ids := SortedSet(deleted);
    assert Members(ids) == deleted == UncitedAmong(events, events.Keys, skip, prune, cited);
    assert UncitedAmong(events, events.Keys, skip, prune, cited) == Uncited(events, skip, prune);
  }

  function CitedIn(log: seq<Event>): set<string> {
    set e <- log | e.typ == Citation && e.ref != "" :: e.ref
  }

  method CitationsOf(log: seq<Event>) returns (cited: set<string>)
    ensures cited == CitedIn(log)
  {
    cited := {};
    for i := 0 to |log|
      invariant cited == CitedIn(log[..i])
    {
      assert log[..i + 1] == log[..i] + [log[i]];
      if log[i].typ == Citation && log[i].ref != "" {
        cited := cited + {log[i].ref};
      }
    }
    assert log[..|log|] == log;
  }

  method IndexArtifacts(log: seq<Event>) returns (last: map<string, string>)
    ensures last == LastArtifactEvents(log)
  {
    last := map[];
    for i := 0 to |log|
      invariant last == LastArtifactEvents(log[..i])
    {
      assert log[..i + 1][..i] == log[..i];
      if log[i].typ == Artifact && log[i].ref != "" {
        last := last[log[i].ref := log[i].id];
      }
    }
    assert log[..|log|] == log;
  }

  lemma CitedOneMore(events: Logs, unseen: set<string>, id: string, skip: set<string>)
    requires unseen <= events.Keys && id in unseen
    ensures Cited(events - (unseen - {id}), skip) == Cited(events - unseen, skip) +
        (if id in skip then {} else CitedIn(events[id]))
  {
    var before, after := events - unseen, events - (unseen - {id});
    forall x | x in Cited(after, skip)
        ensures x in Cited(before, skip) + (if id in skip then {} else CitedIn(events[id])) {
      var owner: string, e: Event :| owner in after && owner !in skip && e in after[owner] && e.typ == Citation &&
          e.ref != "" && e.ref == x;
      assert owner != id ==> owner in before && e in before[owner];
    }
    forall x | x in Cited(before, skip) ensures x in Cited(after, skip) {
      var owner: string, e: Event :| owner in before && owner !in skip && e in before[owner] && e.typ == Citation &&
          e.ref != "" && e.ref == x;
      assert owner in after && e in after[owner];
    }
    assert id in after && after[id] == events[id];
    forall x | x in CitedIn(events[id]) && id !in skip ensures x in Cited(after, skip) {
      var e :| e in events[id] && e.typ == Citation && e.ref != "" && e.ref == x;
      assert e in after[id];
    }
  }

  function UncitedAmong(events: Logs, ids: set<string>, skip: set<string>, prune: set<string>,
      cited: set<string>): set<string> {
    set id, x | id in ids && id in events && id !in skip && id in prune && x in UncitedIn(events[id], cited) :: x
  }

  lemma UncitedOneMore(events: Logs, ids: set<string>, id: string, skip: set<string>, prune: set<string>,
      cited: set<string>)
    requires id in events && id !in ids
    ensures UncitedAmong(events, ids + {id}, skip, prune, cited) ==
            UncitedAmong(events, ids, skip, prune, cited) +
                (if id in skip || id !in prune then {} else UncitedIn(events[id], cited))
  {
  }

  method SettledRunIDs(runs: map<string, Run>) returns (ids: set<string>)
    requires WellKeyed(runs)
    ensures ids == SettledIds(runs)
  {
    ids := {};
    var unseen := runs.Keys;
    while unseen != {}
      invariant unseen <= runs.Keys
      invariant forall id :: id in ids <==> id in runs && id !in unseen && Settled(runs[id], runs)
      decreases unseen
    {
      var id :| id in unseen;
      unseen := unseen - {id};
      if !Terminal(runs[id].status) {
        continue;
      }
      var live := HasNonTerminalParent(runs[id], runs);
      if live {
        continue;
      }
      ids := ids + {id};
    }
  }

  method ListRuns(runs: map<string, Run>) returns (list: seq<Run>)
    requires WellKeyed(runs)
    ensures Lists(list, runs)
  {
    list := [];
    var unseen := runs.Keys;
    while unseen != {}
      invariant unseen <= runs.Keys
      invariant forall r :: r in list <==> r.id in runs && r.id !in unseen && runs[r.id] == r
      decreases unseen
    {
      var id :| id in unseen;
      ghost var before := list;
      list := list + [runs[id]];
      assert forall r :: r in list <==> r in before || r == runs[id];
      unseen := unseen - {id};
    }
  }

  method CountEvents(logs: Logs) returns (n: nat)
    ensures n == Total(logs)
  {
    n := 0;
    var rest := logs;
    while rest != map[]
      invariant n + Total(rest) == Total(logs)
      decreases |rest|
    {
      var id :| id in rest;
      TotalWithout(rest, id);
      n := n + |rest[id]|;
      rest := rest - {id};
    }
  }

  lemma MembersOneMore(ids: seq<string>, i: nat)
    requires StrictlySorted(ids) && i < |ids|
    ensures Members(ids[..i + 1]) == Members(ids[..i]) + {ids[i]} && ids[i] !in Members(ids[..i])
  {
    LessIsIrreflexive(ids[i]);
    assert ids[..i + 1] == ids[..i] + [ids[i]];
  }

  lemma TotalOneMore(events: Logs, ids: set<string>, id: string)
    requires id !in ids
    ensures Total(Restricted(events, ids + {id})) ==
            Total(Restricted(events, ids)) + if id in events then |events[id]| else 0
  {
    var before, after := Restricted(events, ids), Restricted(events, ids + {id});
    if id in events {
      TotalWithout(after, id);
      assert after - {id} == before;
    } else {
      assert after == before;
    }
  }

  method CountSuperseded(events: Logs, ids: seq<string>) returns (n: nat)
    requires StrictlySorted(ids)
    ensures n == Total(Restricted(events, Members(ids)))
  {
    n := 0;
    assert Restricted(events, {}) == map[];
    for i := 0 to |ids|
      invariant n == Total(Restricted(events, Members(ids[..i])))
    {
      MembersOneMore(ids, i);
      TotalOneMore(events, Members(ids[..i]), ids[i]);
      if ids[i] in events {
        n := n + |events[ids[i]]|;
      }
    }
    assert ids[..|ids|] == ids;
  }

  method PlanSuperseded(runs: map<string, Run>, orders: map<string, seq<Run>>) returns (ids: seq<string>)
    requires WellKeyed(runs)
    ensures StrictlySorted(ids)
    ensures exists list: seq<Run> ::
      Lists(list, runs) && IsClosure(list, SupersededIds(orders, runs) - {""}, Members(ids))
  {
    var list := ListRuns(runs);
    var roots := SupersededRetryRunIDs(orders, runs);
    assert (set x <- roots | x != "") == SupersededIds(orders, runs) - {""};
    ids := SupersededRunIDsWithChildren(list, roots);
    assert (set x <- ids) == Members(ids);
  }

  /** `orders` is what the sort made of each session's runs. */
  method PlanRetention(runs: map<string, Run>, events: Logs, orders: map<string, seq<Run>>, opts: Options)
    returns (plan: Plan)
    requires WellKeyed(runs)
    ensures forall sessions :: IsPlan(plan, Store(sessions, runs, events), orders, opts)
  {
    var superseded: seq<string> := [];
    if opts.pruneSuperseded {
      superseded := PlanSuperseded(runs, orders);
    }
    var gone := Members(superseded);
    var artifactEvents: seq<string> := [];
    if opts.pruneArtifacts {
      var settled := SettledRunIDs(runs);
      artifactEvents := UnreferencedArtifactEventIDs(events, gone, settled);
    }
    assert !opts.pruneArtifacts ==> Members(artifactEvents) == {};
    var scanned := CountEvents(events);
    var lost := CountSuperseded(events, superseded);
    plan := Plan(superseded, artifactEvents, lost, |runs|, scanned);
  }

  method CompactLog(events: seq<Event>, dropped: set<string>) returns (kept: seq<Event>)
    ensures kept == Without(events, dropped)
  {
    var log := new Event[|events|](i requires 0 <= i < |events| => events[i]);
    assert log[..] == events;
    var n := CompactInPlace(log, dropped);
    kept := log[..n];
  }

  /** Retention over the store: a dry run reports and changes nothing, a real run reports the same and leaves
      exactly what the plan leaves. */
  method ApplyAgentRetention(store: MemoryStore, orders: map<string, seq<Run>>, opts: Options)
    returns (report: Report, ghost plan: Plan)
    requires WellKeyed(store.runs)
    modifies store
    ensures IsPlan(plan, old(store.State()), orders, opts) && report == ReportOf(plan, opts.dryRun)
    ensures store.State() == if opts.dryRun then old(store.State()) else Compacted(old(store.State()), plan)
  {
    var p := PlanRetention(store.runs, store.events, orders, opts);
    plan := p;
    report := ReportOf(p, opts.dryRun);
    if opts.dryRun {
      return;
    }
    CompactStore(store, p);
  }

  method CompactStore(store: MemoryStore, p: Plan)
    modifies store
    ensures store.State() == Compacted(old(store.State()), p)
  {
    var gone, dropped := Members(p.superseded), Members(p.artifactEvents);
    var unseen := store.events.Keys;
    ghost var logs := store.events;
    while unseen != {}
      invariant unseen <= logs.Keys == store.events.Keys
      invariant store.runs == old(store.runs) && store.sessions == old(store.sessions)
      invariant forall id :: id in logs ==>
                  store.events[id] == if id in unseen || id in gone then logs[id] else Without(logs[id], dropped)
      decreases unseen
    {
      var id :| id in unseen;
      unseen := unseen - {id};
      if id in gone {
        continue;
      }
      var kept := CompactLog(store.events[id], dropped);
      store.events := store.events[id := kept];
    }
    assert store.events - gone == map id | id in logs && id !in gone :: Without(logs[id], dropped);
    store.events := store.events - gone;
    store.runs := store.runs - gone;
  }

  /** A dry run reports what a real run would do: the same runs, the same events, the same counts. */
  lemma DryRunIsTruthful(dry: Plan, actual: Plan, s: Store, orders: map<string, seq<Run>>, opts: Options)
    requires WellKeyed(s.runs)
    requires IsPlan(dry, s, orders, opts.(dryRun := true)) && IsPlan(actual, s, orders, opts.(dryRun := false))
    ensures ReportOf(dry, true) == ReportOf(actual, false).(dryRun := true)
  {
    PlanIsDetermined(dry, actual, s, orders, opts.(dryRun := true), opts.(dryRun := false));
  }
}
