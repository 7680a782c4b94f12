/** Retention passes among the other steps of the system: what they do to the logs of runs and to those who follow
    them. */
module Passes {
  import opened Strings
  import opened RunStore
  import opened RetryRoots
  import opened Supersede
  import opened Closure
  import opened Retention
  import opened Finishers
  import opened Follower
  import opened Wrappers
  import FinisherRaces

  /* ---------- a pass is a step of the system ---------- */

  /** The step that a retention pass with this plan is. */
  function PassStep(s: Store, plan: Plan): Step {
    var gone, dropped := Members(plan.superseded), Members(plan.artifactEvents);
    Retain(s.runs.Keys + s.events.Keys - gone,
           map id | id in s.events && id !in gone :: Without(s.events[id], dropped))
  }

  lemma {:induction false} WithoutIsPart(log: seq<Event>, dropped: set<string>)
    ensures multiset(Without(log, dropped)) <= multiset(log)
  {
    if log != [] {
      assert log == log[..|log| - 1] + [log[|log| - 1]];
      WithoutIsPart(log[..|log| - 1], dropped);
    }
  }

  /** Whatever the plan, compacting the store by it is a step that the system can take. */
  lemma PassIsRetain(s: System, plan: Plan)
    ensures Enabled(s, PassStep(s.store, plan))
    ensures Next(s, PassStep(s.store, plan)) == s.(store := Compacted(s.store, plan))
  {
    var step := PassStep(s.store, plan);
    forall id | id in step.logs ensures multiset(step.logs[id]) <= multiset(Log(s.store, id)) {
      WithoutIsPart(s.store.events[id], Members(plan.artifactEvents));
    }
    assert s.store.runs - (s.store.runs.Keys - step.runs) == s.store.runs - Members(plan.superseded);
  }

  /** The plan is one that the planner makes for this store. */
  ghost predicate Planned(s: Store, plan: Plan) {
    WellKeyed(s.runs) && exists orders, opts :: SessionOrders(s.runs, orders) && IsPlan(plan, s, orders, opts)
  }

  ghost predicate IsPass(s: Store, step: Step) {
    exists plan :: Planned(s, plan) && step == PassStep(s, plan)
  }

  /** Nothing but passes with such plans prunes the store. */
  ghost predicate OnlyPasses(trace: seq<System>, steps: seq<Step>)
    requires |trace| == |steps| + 1
  {
    forall i :: 0 <= i < |steps| && steps[i].Retain? ==> IsPass(trace[i].store, steps[i])
  }

  /* ---------- event identifiers ---------- */

  /** The step draws an identifier for a new event. */
  predicate Draws(s: System, step: Step) {
    || step.AppendOther?
    || (step.Advance? && step.tid < |s.threads| &&
        (s.threads[step.tid].phase.Report? || (s.threads[step.tid].phase.Prepare? && step.more)))
  }

  /** No identifier is drawn twice. */
  predicate DrawnOnce(trace: seq<System>, steps: seq<Step>)
    requires |trace| == |steps| + 1
  {
    forall i, j :: 0 <= i < j < |steps| && Draws(trace[i], steps[i]) && Draws(trace[j], steps[j]) ==>
      steps[i].eventId != steps[j].eventId
  }

  /** A run of the system in which event identifiers are drawn once. */
  predicate Proper(trace: seq<System>, steps: seq<Step>) {
    Finishers.Run(trace, steps) && FreshEventIds(steps) && DrawnOnce(trace, steps)
  }

  /** Every event of the store was drawn by one of the first `n` steps. */
  predicate WasDrawn(trace: seq<System>, steps: seq<Step>, n: nat, e: Event)
    requires |trace| == |steps| + 1 && n <= |steps|
  {
    exists k :: 0 <= k < n && Draws(trace[k], steps[k]) && steps[k].eventId == e.id
  }

  predicate AllDrawn(trace: seq<System>, steps: seq<Step>, n: nat)
    requires |trace| == |steps| + 1 && n <= |steps|
  {
    forall id <- trace[n].store.events, e <- trace[n].store.events[id] :: WasDrawn(trace, steps, n, e)
  }

  lemma AppendIsUnique(s: Store, run: string, eventId: string, typ: EventType, ref: string, text: string)
    requires UniqueIds(s.events) && forall id <- s.events, e <- s.events[id] :: e.id != eventId
    ensures UniqueIds(Appended(s, run, eventId, typ, ref, text).events)
  {
    var logs: Logs := Appended(s, run, eventId, typ, ref, text).events;
    forall a: string, b: string, i, j | a in logs && b in logs && 0 <= i < |logs[a]| && 0 <= j < |logs[b]| &&
        logs[a][i].id == logs[b][j].id
      ensures a == b && i == j
    {
      assert a in s.events && i < |s.events[a]| ==> logs[a][i] in s.events[a];
      assert b in s.events && j < |s.events[b]| ==> logs[b][j] in s.events[b];
    }
  }

  lemma CompactedIsUnique(s: Store, plan: Plan)
    requires UniqueIds(s.events)
    ensures UniqueIds(Compacted(s, plan).events)
  {
    var logs: Logs := Compacted(s, plan).events;
    var dropped := Members(plan.artifactEvents);
    forall a: string, b: string, i, j | a in logs && b in logs && 0 <= i < |logs[a]| && 0 <= j < |logs[b]| &&
        logs[a][i].id == logs[b][j].id
      ensures a == b && i == j
    {
      var p := WithoutIsSubsequence(s.events[a], dropped);
      var q := p;
      if a != b {
        q := WithoutIsSubsequence(s.events[b], dropped);
      }
      assert s.events[a][p[i]].id == s.events[b][q[j]].id;
    }
  }

  lemma StepIsUnique(s: System, step: Step)
    requires Enabled(s, step) && UniqueIds(s.store.events) && (step.Retain? ==> IsPass(s.store, step))
    requires Draws(s, step) ==> forall id <- s.store.events, e <- s.store.events[id] :: e.id != step.eventId
    ensures UniqueIds(Next(s, step).store.events)
  {
    match step
    case Advance(tid, _, eventId, _, typ, ref) =>
      var t := s.threads[tid];
      if Draws(s, step) {
        AppendIsUnique(s.store, t.run, eventId, typ, ref, Text(t.kind));
        AppendIsUnique(s.store, t.run, eventId, Reports(t.kind), "", Text(t.kind));
      }
    case AppendOther(run, eventId, typ, ref) => AppendIsUnique(s.store, run, eventId, typ, ref, "");
    case Retain(_, _) =>
      var plan :| Planned(s.store, plan) && step == PassStep(s.store, plan);
      PassIsRetain(s, plan);
      CompactedIsUnique(s.store, plan);
    case _ =>
  }

  /** The events of the next state are those of this one, but for one that has this step's identifier. */
  lemma StepDraws(s: System, step: Step, id: string, e: Event)
    requires Enabled(s, step) && id in Next(s, step).store.events && e in Next(s, step).store.events[id]
    ensures (id in s.store.events && e in s.store.events[id]) || (Draws(s, step) && e.id == step.eventId)
  {
    if step.Retain? {
      RetainedWasThere(s, step, id, e);
    }
  }

  /** With identifiers that are drawn once, no two events of the store ever have the same one. */
  lemma {:induction false} RunHasUniqueIds(trace: seq<System>, steps: seq<Step>, n: nat)
    requires Finishers.Run(trace, steps) && OnlyPasses(trace, steps) && DrawnOnce(trace, steps) && n <= |steps|
    ensures AllDrawn(trace, steps, n) && UniqueIds(trace[n].store.events)
  {
    if n > 0 {
      var m: nat := n - 1;
      RunHasUniqueIds(trace, steps, m);
      var (s, step) := (trace[m], steps[m]);
      forall id, e | id in s.store.events && e in s.store.events[id] ensures Draws(s, step) ==> e.id != step.eventId {
        assert WasDrawn(trace, steps, m, e);
      }
      StepIsUnique(s, step);
      forall id, e | id in trace[n].store.events && e in trace[n].store.events[id]
        ensures WasDrawn(trace, steps, n, e)
      {
        StepDraws(s, step, id, e);
        assert id in s.store.events && e in s.store.events[id] ==> WasDrawn(trace, steps, m, e);
      }
    }
  }

  /* ---------- runs that are not settled ---------- */

  /** At no pass up to moment `n` was the run settled: itself, or an ancestor of it, was still at work. */
  ghost predicate Unsettled(trace: seq<System>, steps: seq<Step>, id: string, n: nat)
    requires |trace| == |steps| + 1 && n <= |steps|
  {
    forall k :: 0 <= k < n && steps[k].Retain? && id in trace[k].store.runs ==>
      !Settled(trace[k].store.runs[id], trace[k].store.runs)
  }

  lemma PassSpares(s: System, step: Step, id: string)
    requires step.Retain? && IsPass(s.store, step) && Enabled(s, step) && Shaped(s) && UniqueIds(s.store.events)
    requires id in s.store.runs ==> !Settled(s.store.runs[id], s.store.runs)
    requires id in Next(s, step).store.runs
    ensures Log(Next(s, step).store, id) == Log(s.store, id)
  {
    var plan :| Planned(s.store, plan) && step == PassStep(s.store, plan);
    var orders, opts :| SessionOrders(s.store.runs, orders) && IsPlan(plan, s.store, orders, opts);
    PassIsRetain(s, plan);
    if id in s.store.events {
      var kept := CitationsSurvive(s.store, plan, orders, opts, id);
    }
  }

  /** Passes leave the log of a run alone until it is settled. */
  lemma PassesSpareUnsettled(trace: seq<System>, steps: seq<Step>, id: string, n: nat)
    requires Finishers.Run(trace, steps) && OnlyPasses(trace, steps) && DrawnOnce(trace, steps) && n <= |steps|
    requires Unsettled(trace, steps, id, n)
    ensures LogKept(trace, steps, id, 0, n)
  {
    forall k: nat | k < n && steps[k].Retain? && id in trace[k + 1].store.runs
      ensures Log(trace[k + 1].store, id) == Log(trace[k].store, id)
    {
      RunIsShaped(trace, steps, k);
      RunHasUniqueIds(trace, steps, k);
      PassSpares(trace[k], steps[k], id);
    }
  }

  lemma LiveIsUnsettled(trace: seq<System>, steps: seq<Step>, id: string, n: nat)
    requires Finishers.Run(trace, steps) && n <= |steps|
    requires id in trace[n].store.runs && !Terminal(trace[n].store.runs[id].status)
    ensures Unsettled(trace, steps, id, n)
  {
    forall k: nat | k < n && id in trace[k].store.runs ensures !Terminal(trace[k].store.runs[id].status) {
      if Terminal(trace[k].store.runs[id].status) {
        TerminalIsFinal(trace, steps, k, n, id);
      }
    }
  }

  /** A follower of a run that was unsettled at every pass so far, and so of any run still at work, has been sent the
      log exactly once, in order: what it has read at any rising moments is growing and numbered. */
  lemma UnsettledIsFollowable(trace: seq<System>, steps: seq<Step>, times: seq<nat>, n: nat, id: string)
    requires Proper(trace, steps) && OnlyPasses(trace, steps) && n <= |steps| && id in trace[n].store.runs
    requires Unsettled(trace, steps, id, n) || !Terminal(trace[n].store.runs[id].status)
    requires forall i :: 0 <= i < |times| ==> times[i] <= n && id in trace[times[i]].store.runs
    requires forall i, j :: 0 <= i <= j < |times| ==> times[i] <= times[j]
    ensures var polls := seq(|times|, i requires 0 <= i < |times| => Log(trace[times[i]].store, id));
            Growing(polls) && forall i :: 0 <= i < |polls| ==> Numbered(polls[i])
  {
    if !Terminal(trace[n].store.runs[id].status) {
      LiveIsUnsettled(trace, steps, id, n);
    }
    PassesSpareUnsettled(trace, steps, id, n);
    PollsAreFollowable(trace, steps, times, n, id);
  }

  /* ---------- followers across a pass ---------- */

  lemma {:induction false} PendingConcat(a: seq<Event>, b: seq<Event>, c: Cursor)
    ensures Pending(a + b, c) == Pending(a, c) + Pending(b, c)
  {
    if b == [] {
      assert a + b == a;
    } else {
      PendingConcat(a, b[..|b| - 1], c);
      assert (a + b)[..|a + b| - 1] == a + b[..|b| - 1];
    }
  }

  lemma {:induction false} PendingWithout(log: seq<Event>, dropped: set<string>, c: Cursor)
    ensures Pending(Without(log, dropped), c) == Without(Pending(log, c), dropped)
  {
    if log != [] {
      var init, last := log[..|log| - 1], log[|log| - 1];
      var (kept, pending) := (Without(init, dropped), Pending(init, c));
      PendingWithout(init, dropped, c);
      PendingConcat(kept, [last], c);
      assert Pending([last], c) == if After(last, c) then [last] else [];
      WithoutOneMore(pending, last, dropped);
      assert Without(log, dropped) == if last.id in dropped then kept else kept + [last];
      assert Pending(log, c) == if After(last, c) then pending + [last] else pending;
    }
  }

  lemma WithoutOneMore(log: seq<Event>, e: Event, dropped: set<string>)
    ensures Without(log + [e], dropped) == Without(log, dropped) + if e.id in dropped then [] else [e]
  {
    assert (log + [e])[..|log|] == log;
  }

  /** How many of the events that are appended behind `left` others a follower never gets: those whose numbers it has
      passed, and the one with the number of its cursor unless that one's identifier sorts after the cursor's. */
  function Skipped(c: Cursor, left: nat, added: seq<Event>): (f: nat)
    ensures f <= |added|
    ensures c.id != "" ==>
        (f == 0 <==> c.sequence <= left || added == [] || (c.sequence == left + 1 && Less(c.id, added[0].id)))
  {
    if c.sequence <= left then 0
    else
      var tie := c.sequence - left - 1;
      if |added| <= tie then |added| else if c.id == "" || Less(c.id, added[tie].id) then tie else tie + 1
  }

  predicate NumberedBehind(left: nat, added: seq<Event>) {
    forall k :: 0 <= k < |added| ==> added[k].sequence == left + k + 1
  }

  lemma AddedIsSent(c: Cursor, left: nat, added: seq<Event>, k: nat)
    requires NumberedBehind(left, added) && k < |added|
    ensures After(added[k], c) <==> Skipped(c, left, added) <= k
  {
  }

  lemma {:induction false} PendingFresh(c: Cursor, left: nat, added: seq<Event>, m: nat)
    requires NumberedBehind(left, added) && m <= |added|
    ensures var f := Skipped(c, left, added);
            Pending(added[..m], c) == if f <= m then added[f..m] else []
    decreases m
  {
    if m > 0 {
      var k: nat := m - 1;
      assert k + 1 == m;
      PendingFresh(c, left, added, k);
      OneMorePending(added, k, c);
      AddedIsSent(c, left, added, k);
      if Skipped(c, left, added) <= k {
        OneMore(added, Skipped(c, left, added), k);
      }
    }
  }

  lemma PendingKept(before: seq<Event>, dropped: set<string>, n: nat)
    requires Numbered(before) && n <= |before|
    ensures Pending(Without(before, dropped), At(before, n)) == Without(before[n..], dropped)
  {
    PendingWithout(before, dropped, At(before, n));
    PendingInNumbered(before, n, |before|);
    assert before[..|before|] == before && before[n..|before|] == before[n..];
  }

  lemma PendingAdded(c: Cursor, left: nat, added: seq<Event>)
    requires NumberedBehind(left, added)
    ensures Pending(added, c) == added[Skipped(c, left, added)..]
  {
    PendingFresh(c, left, added, |added|);
    assert added[..|added|] == added;
    var f := Skipped(c, left, added);
    assert added[f..|added|] == added[f..];
  }

  /** The log read later is what the pass left and what was appended since, numbered on. */
  lemma LogAcross(trace: seq<System>, steps: seq<Step>, plan: Plan, i: nat, m: nat, id: string)
    requires Finishers.Run(trace, steps) && FreshEventIds(steps) && i < m <= |steps|
    requires steps[i] == PassStep(trace[i].store, plan) && LogKept(trace, steps, id, i + 1, m)
    requires id in trace[i].store.runs && id in trace[m].store.runs
    ensures var (kept, after) := (Log(trace[i + 1].store, id), Log(trace[m].store, id));
            && kept == Without(Log(trace[i].store, id), Members(plan.artifactEvents))
            && kept <= after && NumberedBehind(|kept|, after[|kept|..])
  {
    PassIsRetain(trace[i], plan);
    KnownBetween(trace, steps, i, i + 1, m, id);
    LogsGrow(trace, steps, i + 1, m, id);
  }

  lemma AllSent(sent: seq<Event>, added: seq<Event>, f: nat)
    requires f <= |added|
    ensures sent + added[f..] == sent + added <==> f == 0
  {
    assert |sent + added[f..]| == |sent + added| - f;
  }

  /** What a follower that had the first `n` events gets of a log that was cut down to `kept` and then grew. */
  predicate SentAcross(before: seq<Event>, dropped: set<string>, n: nat, kept: seq<Event>, after: seq<Event>)
    requires n <= |before| && |kept| <= |after|
  {
    var (survivors, added, c) := (Without(before[n..], dropped), after[|kept|..], At(before, n));
    && Pending(after, c) == survivors + added[Skipped(c, |kept|, added)..]
    && (Pending(after, c) == survivors + added <==>
        n <= |kept| || added == [] || (n == |kept| + 1 && Less(c.id, added[0].id)))
  }

  lemma SentAcrossCut(before: seq<Event>, dropped: set<string>, n: nat, kept: seq<Event>, added: seq<Event>)
    requires Numbered(before) && n <= |before| && kept == Without(before, dropped) && NumberedBehind(|kept|, added)
    ensures SentAcross(before, dropped, n, kept, kept + added)
  {
    var c := At(before, n);
    PendingConcat(kept, added, c);
    PendingKept(before, dropped, n);
    PendingAdded(c, |kept|, added);
    AllSent(Without(before[n..], dropped), added, Skipped(c, |kept|, added));
    assert (kept + added)[|kept|..] == added;
  }

  /** What a follower gets across a pass, exactly. It had received the first `n` events of a numbered log when a pass
      pruned it, and polls again later. It is sent those of the events it had not received that survived the pass, none
      of them twice, and of the events appended since all but the skipped ones. These are numbered on from what the
      pass left, so none is skipped if and only if the pass left at least n events, or nothing was appended, or the
      pass left one event less and the first new identifier happens to sort after the last one received. */
  lemma PrunedThenAppended(trace: seq<System>, steps: seq<Step>, plan: Plan, i: nat, m: nat, n: nat, id: string)
    requires Finishers.Run(trace, steps) && FreshEventIds(steps) && i < m <= |steps|
    requires steps[i] == PassStep(trace[i].store, plan) && LogKept(trace, steps, id, i + 1, m)
    requires id in trace[i].store.runs && id in trace[m].store.runs
    requires Numbered(Log(trace[i].store, id)) && n <= |Log(trace[i].store, id)|
    ensures Log(trace[i + 1].store, id) <= Log(trace[m].store, id)
    ensures SentAcross(Log(trace[i].store, id), Members(plan.artifactEvents), n, Log(trace[i + 1].store, id),
        Log(trace[m].store, id))
  {
    var (before, kept, after) := (Log(trace[i].store, id), Log(trace[i + 1].store, id), Log(trace[m].store, id));
    LogAcross(trace, steps, plan, i, m, id);
    SentAcrossCut(before, Members(plan.artifactEvents), n, kept, after[|kept|..]);
    assert after == kept + after[|kept|..];
  }

  /* ---------- an event that is never sent ---------- */

  /** A follower that has received the whole log `before` is sent nothing of the log `after`, all of which is new. */
  predicate Misses(before: seq<Event>, after: seq<Event>) {
    Numbered(before) && after != [] && (forall e <- after :: e !in before) && Pending(after, At(before, |before|)) == []
  }

  predicate NeverPruned(steps: seq<Step>) {
    forall k :: 0 <= k < |steps| ==> !steps[k].Retain?
  }

  /** All identifiers drawn so far are among these. */
  predicate DrawnFrom(trace: seq<System>, steps: seq<Step>, ids: set<string>)
    requires |trace| == |steps| + 1
  {
    forall k :: 0 <= k < |steps| && Draws(trace[k], steps[k]) ==> steps[k].eventId in ids
  }

  lemma DrawnExtended(trace: seq<System>, steps: seq<Step>, step: Step, s: System, ids: set<string>, id: string)
    requires |trace| == |steps| + 1 && DrawnOnce(trace, steps) && DrawnFrom(trace, steps, ids)
    requires Draws(trace[|steps|], step) ==> step.eventId == id && id !in ids
    ensures DrawnOnce(trace + [s], steps + [step]) && DrawnFrom(trace + [s], steps + [step], ids + {id})
  {
    var (trace', steps') := (trace + [s], steps + [step]);
    assert forall k :: 0 <= k < |steps| ==> trace'[k] == trace[k] && steps'[k] == steps[k];
    forall i, j | 0 <= i < j < |steps'| && Draws(trace'[i], steps'[i]) && Draws(trace'[j], steps'[j])
      ensures steps'[i].eventId != steps'[j].eventId
    {
      assert Draws(trace[i], steps[i]);
      if j < |steps| {
        assert Draws(trace[j], steps[j]);
      }
    }
  }

  /** One more step, which may draw the identifier `id`. */
  lemma Extended(trace: seq<System>, steps: seq<Step>, step: Step, ids: set<string>, id: string)
    returns (trace': seq<System>, steps': seq<Step>, s: System)
    requires Proper(trace, steps) && Enabled(trace[|steps|], step) && DrawnFrom(trace, steps, ids)
    requires step.Advance? || step.AppendOther? ==> step.eventId == id
    requires id != "" && (Draws(trace[|steps|], step) ==> id !in ids)
    ensures Proper(trace', steps') && trace' == trace + [s] && steps' == steps + [step]
    ensures s == Next(trace[|steps|], step) && DrawnFrom(trace', steps', ids + {id})
  {
    trace', steps', s := FinisherRaces.Extend(trace, steps, step);
    DrawnExtended(trace, steps, step, s, ids, id);
  }

  function CompletedRun(id: string): RunStore.Run {
    RunStore.Run(id, "session", Completed, 0, None, Some(1), "", Metadata("", "", ""))
  }

  function TwoArtifacts(a: string, b: string): seq<Event> {
    [Event(a, 1, Artifact, "x", ""), Event(b, 2, Artifact, "y", "")]
  }

  /** One completed run with two artifact events that nobody cites. */
  function LoneStore(id: string, a: string, b: string): Store {
    Store({"session"}, map[id := CompletedRun(id)], map[id := TwoArtifacts(a, b)])
  }

  lemma LoneIsSettled(id: string)
    ensures SettledIds(map[id := CompletedRun(id)]) == {id}
  {
    var run, runs := CompletedRun(id), map[id := CompletedRun(id)];
    assert Ancestor(run, runs, 1).None?;
    forall n: nat | n > 0 ensures Ancestor(run, runs, n).None? {
      ChainEnds(run, runs, 1, n);
    }
    assert Settled(run, runs);
  }

  lemma LoneIsNotSuperseded(id: string)
    ensures SupersededIds(map["session" := [CompletedRun(id)]], map[id := CompletedRun(id)]) == {}
  {
    var order, runs := [CompletedRun(id)], map[id := CompletedRun(id)];
    assert BranchOf(order, 1, runs).deleted == {};
    assert SessionIds(order, runs) == {};
    OneMoreSession(map[], "session", order, runs);
    assert map[]["session" := order] == map["session" := order];
    assert SupersededIds(map[], runs) == {};
  }

  lemma LastOneMore(log: seq<Event>, e: Event)
    requires IsArtifact(e)
    ensures LastArtifactEvents(log + [e]) == LastArtifactEvents(log)[e.ref := e.id]
  {
    assert (log + [e])[..|log|] == log;
  }

  lemma LoneIsUncited(id: string, a: string, b: string)
    ensures Uncited(map[id := TwoArtifacts(a, b)], {}, {id}) == {a, b}
  {
    var log, logs := TwoArtifacts(a, b), map[id := TwoArtifacts(a, b)];
    assert "x" != "y" && log == [] + [log[0]] + [log[1]];
    LastOneMore([], log[0]);
    LastOneMore([] + [log[0]], log[1]);
    var (cited, last) := (Cited(logs, {}), LastArtifactEvents(log));
    assert cited == {};
    assert last == map["x" := a, "y" := b];
    assert last["x"] == a && last["y"] == b;
    assert a in UncitedIn(log, cited) && b in UncitedIn(log, cited);
    forall x | x in Uncited(logs, {}, {id}) ensures x == a || x == b {
      assert x in UncitedIn(log, cited);
    }
    assert id in logs && a in Uncited(logs, {}, {id}) && b in Uncited(logs, {}, {id});
  }

  lemma LoneOrdered(id: string)
    ensures SessionOrders(map[id := CompletedRun(id)], map["session" := [CompletedRun(id)]])
    ensures IsClosure([CompletedRun(id)], {}, {}) && Lists([CompletedRun(id)], map[id := CompletedRun(id)])
  {
  }

  /** The planner, with the options that are the default, drops both events. */
  lemma LonePlan(id: string, a: string, b: string) returns (plan: Plan)
    requires a != b
    ensures Planned(LoneStore(id, a, b), plan) && plan.superseded == [] && Members(plan.artifactEvents) == {a, b}
  {
    var s := LoneStore(id, a, b);
    LessIsTotal(a, b);
    var drops := if Less(a, b) then [a, b] else [b, a];
    plan := Plan([], drops, Total(Restricted(s.events, {})), 1, Total(s.events));
    LoneIsPlanned(id, a, b, plan);
  }

  lemma LoneIsPlanned(id: string, a: string, b: string, plan: Plan)
    requires var s := LoneStore(id, a, b);
             plan == Plan([], plan.artifactEvents, Total(Restricted(s.events, {})), 1, Total(s.events))
    requires StrictlySorted(plan.artifactEvents) && Members(plan.artifactEvents) == {a, b}
    ensures Planned(LoneStore(id, a, b), plan)
  {
    var s := LoneStore(id, a, b);
    LoneOrdered(id);
    LoneIsSettled(id);
    LoneIsNotSuperseded(id);
    LoneIsUncited(id, a, b);
    assert Members(plan.superseded) == {};
    assert IsPlan(plan, s, map["session" := [CompletedRun(id)]], Options(true, true, false));
  }

  lemma ArtifactRecorded(trace: seq<System>, steps: seq<Step>, id: string, e: string, ref: string, ids: set<string>)
    returns (trace': seq<System>, steps': seq<Step>, s: System)
    requires Proper(trace, steps) && NeverPruned(steps) && DrawnFrom(trace, steps, ids) && e != "" && e !in ids
    requires id in trace[|steps|].store.runs
    ensures NeverPruned(steps') && Proper(trace', steps') && trace'[|steps'|] == s
    ensures DrawnFrom(trace', steps', ids + {e})
    ensures var (before, log) := (trace[|steps|], Log(trace[|steps|].store, id));
            s == before.(store := before.store.(events :=
                before.store.events[id := log + [Event(e, |log| + 1, Artifact, ref, "")]]))
  {
    trace', steps', s := Extended(trace, steps, AppendOther(id, e, Artifact, ref), ids, e);
  }

  /** A fresh run with two artifact events. */
  lemma Recorded(id: string, a: string, b: string) returns (trace: seq<System>, steps: seq<Step>, s: System)
    requires a != "" && b != "" && a != b
    ensures NeverPruned(steps) && Proper(trace, steps) && trace[|steps|] == s && DrawnFrom(trace, steps, {a, b})
    ensures s.threads == [] && s.used == {id} && s.store.sessions == {"session"}
    ensures s.store.runs == map[id := RunStore.Run(id, "session", Queued, 0, None, None, "", Metadata("", "", ""))]
    ensures s.store.events == map[id := TwoArtifacts(a, b)]
  {
    s := System(Store({"session"}, map[], map[]), [], {});
    trace, steps := [s], [];
    trace, steps, s := Extended(trace, steps, Create(id, "session", Metadata("", "", ""), 0), {}, a);
    assert DrawnFrom(trace, steps, {});
    trace, steps, s := ArtifactRecorded(trace, steps, id, a, "x", {});
    trace, steps, s := ArtifactRecorded(trace, steps, id, b, "y", {} + {a});
    assert {} + {a} + {b} == {a, b};
    assert s.store.events.Keys == {id} && s.store.events[id] == TwoArtifacts(a, b);
  }

  /** Its completion has stored the status and is about to report. */
  lemma Decided(id: string, a: string, b: string) returns (trace: seq<System>, steps: seq<Step>, s: System)
    requires a != "" && b != "" && a != b
    ensures NeverPruned(steps) && Proper(trace, steps) && trace[|steps|] == s && DrawnFrom(trace, steps, {a, b})
    ensures s == System(LoneStore(id, a, b), [Thread(id, Complete, Phase.Report)], {id})
  {
    trace, steps, s := Recorded(id, a, b);
    trace, steps, s := Extended(trace, steps, Spawn(id, Complete), {a, b}, a);
    trace, steps, s := Quietly(trace, steps, 0, {a, b}, a);
    trace, steps, s := Quietly(trace, steps, 0, {a, b}, a);
    trace, steps, s := Quietly(trace, steps, 1, {a, b}, a);
  }

  /** A store call of the first finisher that appends nothing. */
  lemma Quietly(trace: seq<System>, steps: seq<Step>, now: int, ids: set<string>, id: string)
    returns (trace': seq<System>, steps': seq<Step>, s: System)
    requires Proper(trace, steps) && DrawnFrom(trace, steps, ids) && id in ids && id != ""
    requires trace[|steps|].threads != [] && !trace[|steps|].threads[0].phase.Report?
    ensures Proper(trace', steps') && (NeverPruned(steps) ==> NeverPruned(steps'))
    ensures trace'[|steps'|] == s && DrawnFrom(trace', steps', ids)
    ensures s == Advanced(trace[|steps|], Advance(0, now, id, false, Message, ""))
  {
    trace', steps', s := Extended(trace, steps, Advance(0, now, id, false, Message, ""), ids, id);
    assert ids + {id} == ids;
  }

  /** Decided, with the plan of a pass at this moment. */
  lemma DecidedAndPlanned(id: string, a: string, b: string)
    returns (trace: seq<System>, steps: seq<Step>, s: System, plan: Plan)
    requires a != "" && b != "" && a != b
    ensures NeverPruned(steps) && Proper(trace, steps) && trace[|steps|] == s && DrawnFrom(trace, steps, {a, b})
    ensures s.threads == [Thread(id, Complete, Phase.Report)]
    ensures s.store.runs == map[id := CompletedRun(id)] && Log(s.store, id) == TwoArtifacts(a, b)
    ensures Planned(s.store, plan)
    ensures id in Compacted(s.store, plan).runs && Log(Compacted(s.store, plan), id) == []
  {
    trace, steps, s := Decided(id, a, b);
    plan := LonePlan(id, a, b);
    AllDropped(id, a, b, plan);
  }

  /** A pass as the next step. */
  lemma PassTaken(trace: seq<System>, steps: seq<Step>, plan: Plan, ids: set<string>, id: string)
    returns (trace': seq<System>, steps': seq<Step>, s: System)
    requires Proper(trace, steps) && DrawnFrom(trace, steps, ids) && id in ids && id != ""
    ensures Proper(trace', steps') && trace' == trace + [s] && DrawnFrom(trace', steps', ids)
    ensures steps' == steps + [PassStep(trace[|steps|].store, plan)]
    ensures s == trace[|steps|].(store := Compacted(trace[|steps|].store, plan))
  {
    PassIsRetain(trace[|steps|], plan);
    trace', steps', s := Extended(trace, steps, PassStep(trace[|steps|].store, plan), ids, id);
    assert ids + {id} == ids;
  }

  lemma ClosingReported(trace: seq<System>, steps: seq<Step>, id: string, ids: set<string>, c: string)
    returns (trace': seq<System>, steps': seq<Step>, s: System)
    requires Proper(trace, steps) && DrawnFrom(trace, steps, ids) && c != "" && c !in ids
    requires trace[|steps|].threads == [Thread(id, Complete, Phase.Report)] && id in trace[|steps|].store.runs
    ensures Proper(trace', steps') && trace' == trace + [s]
    ensures steps' == steps + [Advance(0, 2, c, false, Message, "")]
    ensures var log := Log(trace[|steps|].store, id);
            Log(s.store, id) == log + [Event(c, |log| + 1, RunCompleted, "", "")]
  {
    trace', steps', s := Extended(trace, steps, Advance(0, 2, c, false, Message, ""), ids, c);
  }

  /** A pass, and then the closing event of a run whose log the pass has emptied. */
  lemma PassThenClosing(trace: seq<System>, steps: seq<Step>, plan: Plan, id: string, ids: set<string>, e: string,
      c: string)
    returns (trace': seq<System>, steps': seq<Step>, s: System, t: System)
    requires Proper(trace, steps) && DrawnFrom(trace, steps, ids) && e in ids && e != "" && c != "" && c !in ids
    requires trace[|steps|].threads == [Thread(id, Complete, Phase.Report)]
    requires var after := Compacted(trace[|steps|].store, plan); id in after.runs && Log(after, id) == []
    ensures Proper(trace', steps') && trace' == trace + [s, t]
    ensures steps' == steps + [PassStep(trace[|steps|].store, plan), Advance(0, 2, c, false, Message, "")]
    ensures s.store == Compacted(trace[|steps|].store, plan)
    ensures Log(t.store, id) == [Event(c, 1, RunCompleted, "", "")]
  {
    trace', steps', s := PassTaken(trace, steps, plan, ids, e);
    trace', steps', t := ClosingReported(trace', steps', id, ids, c);
  }

  lemma OnePass(trace: seq<System>, steps: seq<Step>, plan: Plan, last: Step, s: System, t: System)
    requires |trace| == |steps| + 1 && NeverPruned(steps) && !last.Retain? && Planned(trace[|steps|].store, plan)
    ensures OnlyPasses(trace + [s, t], steps + [PassStep(trace[|steps|].store, plan), last])
  {
    assert (trace + [s, t])[|steps|] == trace[|steps|];
  }

  /** A pass is followed by the closing event, which a follower of the log is never sent. */
  predicate ClosingMissed(trace: seq<System>, steps: seq<Step>, i: nat, plan: Plan, id: string, c: string)
    requires |trace| == |steps| + 1
  {
    && |steps| == i + 2 && steps[i] == PassStep(trace[i].store, plan)
    && trace[i + 1].store == Compacted(trace[i].store, plan)
    && Log(trace[i + 2].store, id) == [Event(c, 1, RunCompleted, "", "")]
    && Misses(Log(trace[i].store, id), Log(trace[i + 2].store, id))
  }

  lemma MissedFrom(trace: seq<System>, steps: seq<Step>, plan: Plan, id: string, a: string, b: string, c: string)
    returns (trace': seq<System>, steps': seq<Step>, s: System, t: System)
    requires Proper(trace, steps) && DrawnFrom(trace, steps, {a, b})
    requires a != "" && b != "" && c != "" && a != c && b != c
    requires trace[|steps|].threads == [Thread(id, Complete, Phase.Report)]
    requires Log(trace[|steps|].store, id) == TwoArtifacts(a, b)
    requires var after := Compacted(trace[|steps|].store, plan); id in after.runs && Log(after, id) == []
    ensures Proper(trace', steps') && trace' == trace + [s, t]
    ensures steps' == steps + [PassStep(trace[|steps|].store, plan), Advance(0, 2, c, false, Message, "")]
    ensures ClosingMissed(trace', steps', |steps|, plan, id, c)
  {
    trace', steps', s, t := PassThenClosing(trace, steps, plan, id, {a, b}, a, c);
    NotSent(a, b, c);
    assert trace'[|steps|] == trace[|steps|] && trace'[|steps| + 1] == s && trace'[|steps| + 2] == t;
  }

  /** The failure that pruning leads to, in a run of the code with the options that are the default. Completion has
      stored its status and not reported yet when a pass drops the two artifact events, which nobody cites. The closing
      event is then numbered 1, and a follower that has received both events is never sent it. */
  lemma EventMissed(id: string, a: string, b: string, c: string)
    returns (trace: seq<System>, steps: seq<Step>, i: nat, plan: Plan)
    requires a != "" && b != "" && c != "" && a != b && a != c && b != c
    ensures Proper(trace, steps) && OnlyPasses(trace, steps)
    ensures ClosingMissed(trace, steps, i, plan, id, c) && Planned(trace[i].store, plan)
    ensures trace[i].store.runs == map[id := CompletedRun(id)]
  {
    var s;
    trace, steps, s, plan := DecidedAndPlanned(id, a, b);
    i := |steps|;
    var trace', steps', u, t := MissedFrom(trace, steps, plan, id, a, b, c);
    OnePass(trace, steps, plan, Advance(0, 2, c, false, Message, ""), u, t);
    assert trace'[i] == trace[i];
    trace, steps := trace', steps';
  }

  lemma AllDropped(id: string, a: string, b: string, plan: Plan)
    requires plan.superseded == [] && Members(plan.artifactEvents) == {a, b}
    ensures Compacted(LoneStore(id, a, b), plan).runs == map[id := CompletedRun(id)]
    ensures Log(Compacted(LoneStore(id, a, b), plan), id) == []
  {
    var log := TwoArtifacts(a, b);
    assert log[..1] == [log[0]] && log[..1][..0] == [];
    assert Without(log[..1], {a, b}) == [];
    assert Members(plan.superseded) == {};
  }

  lemma NotSent(a: string, b: string, c: string)
    requires a != "" && b != "" && a != c && b != c
    ensures Misses(TwoArtifacts(a, b), [Event(c, 1, RunCompleted, "", "")])
  {
    assert [Event(c, 1, RunCompleted, "", "")][..0] == [];
  }
}
