/** Where what the store holds comes from: every record, status, time and event goes back to one step of the run. */
module Histories {
  import opened RunStore
  import opened Finishers
  import opened FinisherRaces
  import opened Wrappers

  /* ---------- what the steps write ---------- */

  /** The status that a finisher sets, and the event that it reports. */
  predicate Ends(k: Kind, status: Status, typ: EventType) {
    match k
    case Start => status == Running && typ == RunStarted
    case Complete => status == Completed && typ == RunCompleted
    case Fail(_) => status == RunStore.Failed && typ == RunFailed
    case ChildFail(_) => status == RunStore.Failed && typ == RunFailed
    case Cancel => status == Cancelled && typ == RunCancelled
    case TaskCancel => status == Cancelled && typ == RunCancelled
  }

  predicate Carries(k: Kind, text: string) {
    match k
    case Fail(message) => text == message
    case ChildFail(message) => text == message
    case _ => text == ""
  }

  /** The step writes this event behind the log of the run. */
  predicate Writes(s: System, step: Step, id: string, e: Event) {
    && id in s.store.runs && e.sequence == |Log(s.store, id)| + 1
    && match step
       case AppendOther(run, eventId, typ, ref) =>
         run == id && e.id == eventId && e.typ == typ && e.ref == ref && e.text == ""
       case Advance(tid, _, eventId, more, typ, ref) =>
         && tid < |s.threads| && s.threads[tid].run == id && e.id == eventId && Carries(s.threads[tid].kind, e.text)
         && (if s.threads[tid].phase.Prepare? then more && e.typ == typ && e.ref == ref
             else s.threads[tid].phase.Report? && (exists status :: Ends(s.threads[tid].kind, status, e.typ)) &&
                  e.ref == "")
       case _ => false
  }

  ghost predicate WritesTo(s: System, step: Step, id: string) {
    exists e :: Writes(s, step, id, e)
  }

  /** A run's log grows by the event that the step writes, if it writes one, and otherwise stays as it is; only
      retention does anything else to it. */
  lemma LogsChange(s: System, step: Step, id: string)
    requires Enabled(s, step) && id in Next(s, step).store.runs && id in s.store.runs && !step.Retain?
    ensures var (before, after) := (Log(s.store, id), Log(Next(s, step).store, id));
            if WritesTo(s, step, id) then exists e :: Writes(s, step, id, e) && after == before + [e]
            else after == before
  {
    var (before, after) := (Log(s.store, id), Log(Next(s, step).store, id));
    if step.AppendOther? {
      AppendChanges(s, step, id);
    } else if step.Advance? {
      AdvanceChanges(s, step, id);
    }
  }

  lemma AppendChanges(s: System, step: Step, id: string)
    requires Enabled(s, step) && id in s.store.runs && step.AppendOther?
    ensures var (before, after) := (Log(s.store, id), Log(Next(s, step).store, id));
            if WritesTo(s, step, id) then exists e :: Writes(s, step, id, e) && after == before + [e]
            else after == before
  {
    if step.run == id {
      var e := Event(step.eventId, |Log(s.store, id)| + 1, step.typ, step.ref, "");
      assert Writes(s, step, id, e) && Log(Next(s, step).store, id) == Log(s.store, id) + [e];
    }
  }

  lemma AdvanceChanges(s: System, step: Step, id: string)
    requires Enabled(s, step) && id in s.store.runs && step.Advance?
    ensures var (before, after) := (Log(s.store, id), Log(Next(s, step).store, id));
            if WritesTo(s, step, id) then exists e :: Writes(s, step, id, e) && after == before + [e]
            else after == before
  {
    var t, n := s.threads[step.tid], |Log(s.store, id)| + 1;
    if t.run == id && t.phase.Prepare? && step.more {
      var e := Event(step.eventId, n, step.typ, step.ref, Text(t.kind));
      assert Writes(s, step, id, e) && Log(Next(s, step).store, id) == Log(s.store, id) + [e];
    } else if t.run == id && t.phase.Report? {
      var e := Event(step.eventId, n, Reports(t.kind), "", Text(t.kind));
      assert Ends(t.kind, Target(t.kind), e.typ);
      assert Writes(s, step, id, e) && Log(Next(s, step).store, id) == Log(s.store, id) + [e];
    }
  }

  /** A record is what its creation made of it, or what a finisher's decision made of it. */
  predicate Decides(s: System, step: Step, before: RunStore.Run, after: RunStore.Run) {
    && step.Advance? && step.tid < |s.threads| && s.threads[step.tid].run == before.id
    && s.threads[step.tid].phase.Decide?
    && before.status != Completed && before.status != RunStore.Failed && before.status != Cancelled
    && (exists typ :: Ends(s.threads[step.tid].kind, after.status, typ))
    && Carries(s.threads[step.tid].kind, after.error)
    && after.id == before.id && after.sessionId == before.sessionId && after.createdAt == before.createdAt
    && after.metadata == before.metadata
    && after.startedAt == (if after.status == Running && before.startedAt.None? then Some(step.now)
                           else before.startedAt)
    && after.completedAt == (if after.status != Running && before.completedAt.None? then Some(step.now)
                             else before.completedAt)
  }

  predicate Filed(s: System) {
    s.store.events.Keys <= s.store.runs.Keys <= s.used && forall id <- s.store.runs :: s.store.runs[id].id == id
  }

  /** A record changes only by a decision; and the decision of a finisher on a run that has not ended always changes it
      so. */
  lemma RecordsChange(s: System, step: Step, id: string)
    requires Filed(s) && Enabled(s, step) && id in s.store.runs && id in Next(s, step).store.runs
    ensures var (before, after) := (s.store.runs[id], Next(s, step).store.runs[id]);
            if step.Advance? && s.threads[step.tid].run == id && s.threads[step.tid].phase.Decide? &&
               (before.status == Queued || before.status == Running)
            then Decides(s, step, before, after)
            else after == before
  {
    if step.Advance? {
      var t := s.threads[step.tid];
      assert Ends(t.kind, Target(t.kind), Reports(t.kind));
    }
  }

  /** Records appear only by being created, in a session that exists, queued and without events. */
  lemma RecordsAppear(s: System, step: Step, id: string)
    requires Filed(s) && Enabled(s, step) && id !in s.store.runs && id in Next(s, step).store.runs
    ensures step.Create? && step.id == id && step.sessionId in s.store.sessions
    ensures Next(s, step).store.runs[id] ==
            RunStore.Run(id, step.sessionId, Queued, step.now, None, None, "", step.metadata)
    ensures Log(Next(s, step).store, id) == []
  {
  }

  lemma {:induction false} RunIsFiled(trace: seq<System>, steps: seq<Step>, n: nat)
    requires Finishers.Run(trace, steps) && n <= |steps|
    ensures Filed(trace[n])
  {
    if n > 0 {
      RunIsFiled(trace, steps, n - 1);
      assert Enabled(trace[n - 1], steps[n - 1]);
    }
  }

  /* ---------- where everything comes from ---------- */

  predicate CreatedBy(step: Step, run: RunStore.Run) {
    step.Create? && step.id == run.id && step.sessionId == run.sessionId && step.metadata == run.metadata &&
    step.now == run.createdAt
  }

  /** Every record was created by one step, whose identifier, session, metadata and time it has; and the session existed
      then. */
  lemma {:induction false} RecordOrigin(trace: seq<System>, steps: seq<Step>, n: nat, id: string) returns (k: nat)
    requires Finishers.Run(trace, steps) && n <= |steps| && id in trace[n].store.runs
    ensures k < n && CreatedBy(steps[k], trace[n].store.runs[id]) && steps[k].id == id
    ensures steps[k].sessionId in trace[k].store.sessions
  {
    var m: nat := n - 1;
    RunIsFiled(trace, steps, m);
    assert Enabled(trace[m], steps[m]) && trace[m + 1] == Next(trace[m], steps[m]);
    if id in trace[m].store.runs {
      k := RecordOrigin(trace, steps, m, id);
      RecordsChange(trace[m], steps[m], id);
    } else {
      k := m;
      RecordsAppear(trace[m], steps[m], id);
    }
  }

  /** The status, the error and the end of a run come from one decision: the last that was taken on it. */
  lemma {:induction false} StatusOrigin(trace: seq<System>, steps: seq<Step>, n: nat, id: string) returns (k: nat)
    requires Finishers.Run(trace, steps) && n <= |steps| && id in trace[n].store.runs
    requires trace[n].store.runs[id].status != Queued
    ensures k < n && id in trace[k].store.runs
    ensures Decides(trace[k], steps[k], trace[k].store.runs[id], trace[n].store.runs[id])
  {
    var m: nat := n - 1;
    RunIsFiled(trace, steps, m);
    assert Enabled(trace[m], steps[m]) && trace[m + 1] == Next(trace[m], steps[m]);
    if id !in trace[m].store.runs {
      RecordsAppear(trace[m], steps[m], id);
      k := m;
    } else {
      RecordsChange(trace[m], steps[m], id);
      if trace[n].store.runs[id] == trace[m].store.runs[id] {
        k := StatusOrigin(trace, steps, m, id);
      } else {
        k := m;
      }
    }
  }

  /** Every event of a log was written there by one step. */
  lemma {:induction false} EventOrigin(trace: seq<System>, steps: seq<Step>, n: nat, id: string, e: Event)
    returns (k: nat)
    requires Finishers.Run(trace, steps) && n <= |steps| && id in trace[n].store.runs && e in Log(trace[n].store, id)
    ensures k < n && Writes(trace[k], steps[k], id, e)
  {
    var m: nat := n - 1;
    RunIsFiled(trace, steps, m);
    assert Enabled(trace[m], steps[m]) && trace[m + 1] == Next(trace[m], steps[m]);
    if id !in trace[m].store.runs {
      RecordsAppear(trace[m], steps[m], id);
      k := m;
    } else if e in Log(trace[m].store, id) {
      k := EventOrigin(trace, steps, m, id, e);
    } else if steps[m].Retain? {
      RetainedWasThere(trace[m], steps[m], id, e);
      k := m;
    } else {
      LogsChange(trace[m], steps[m], id);
      k := m;
    }
  }

  /* ---------- finishers that come late, and sessions that go ---------- */

  /** The run has ended or is gone. */
  predicate Ended(s: System, id: string) {
    id in s.used && (id in s.store.runs ==>
      s.store.runs[id].status == Completed || s.store.runs[id].status == RunStore.Failed ||
      s.store.runs[id].status == Cancelled)
  }

  lemma StaysEnded(trace: seq<System>, steps: seq<Step>, i: nat, n: nat, id: string)
    requires Finishers.Run(trace, steps) && i <= n <= |steps| && Ended(trace[i], id)
    ensures Ended(trace[n], id)
  {
    if id in trace[i].store.runs {
      TerminalIsFinal(trace, steps, i, n, id);
    } else {
      GoneForGood(trace, steps, i, n, id);
    }
  }

  /** A finisher that has not looked yet, or is over. */
  predicate Idle(s: System, tid: nat) {
    tid < |s.threads| && (s.threads[tid].phase.Check? || s.threads[tid].phase.Over?)
  }

  lemma StepStaysIdle(s: System, step: Step, tid: nat)
    requires Enabled(s, step) && Idle(s, tid) && Ended(s, s.threads[tid].run)
    ensures Idle(Next(s, step), tid) && Next(s, step).threads[tid].run == s.threads[tid].run
  {
  }

  lemma {:induction false} StaysIdle(trace: seq<System>, steps: seq<Step>, i: nat, n: nat, tid: nat)
    requires Finishers.Run(trace, steps) && i <= n <= |steps| && Idle(trace[i], tid)
    requires Ended(trace[i], trace[i].threads[tid].run)
    ensures Idle(trace[n], tid) && trace[n].threads[tid].run == trace[i].threads[tid].run
    decreases n
  {
    if i < n {
      StaysIdle(trace, steps, i, n - 1, tid);
      StaysEnded(trace, steps, i, n - 1, trace[i].threads[tid].run);
      StepStaysIdle(trace[n - 1], steps[n - 1], tid);
    }
  }

  /** A finisher that looks at a run which has ended, or is gone, never touches the store. */
  lemma LateFinishersAreSilent(trace: seq<System>, steps: seq<Step>, i: nat, k: nat, tid: nat)
    requires Finishers.Run(trace, steps) && i <= k < |steps| && tid < |trace[i].threads|
    requires trace[i].threads[tid].phase.Check? && Ended(trace[i], trace[i].threads[tid].run)
    requires steps[k].Advance? && steps[k].tid == tid
    ensures trace[k + 1].store == trace[k].store
  {
    StaysIdle(trace, steps, i, k, tid);
    StaysEnded(trace, steps, i, k, trace[i].threads[tid].run);
    assert Enabled(trace[k], steps[k]) && trace[k + 1] == Next(trace[k], steps[k]);
  }

  /** A finisher that looks at a run which has not ended goes on to decide. */
  lemma TimelyFinishersDecide(s: System, step: Step)
    requires Enabled(s, step) && step.Advance? && s.threads[step.tid].run in s.store.runs
    requires !Ended(s, s.threads[step.tid].run) && s.threads[step.tid].run in s.used
    requires s.threads[step.tid].phase.Check? || (s.threads[step.tid].phase.Prepare? && !step.more)
    ensures Next(s, step).threads[step.tid].phase ==
            if s.threads[step.tid].phase.Check? then Phase.Prepare else Phase.Decide
  {
  }

  /** With a session go its runs and their logs, and nothing else. */
  lemma SessionsGo(s: Store, session: string)
    ensures var after := WithoutSession(s, session);
            && after.sessions == s.sessions - {session}
            && (session in s.sessions ==> forall id :: id in after.runs <==>
                  id in s.runs && s.runs[id].sessionId != session)
            && (forall id <- after.runs :: id in s.runs && after.runs[id] == s.runs[id] &&
                  Log(after, id) == Log(s, id))
            && (session !in s.sessions ==> after == s)
            && (s.events.Keys <= s.runs.Keys ==> after.events.Keys <= after.runs.Keys)
  {
  }

  /* ---------- the kinds of finishers by name ---------- */

  /** Which finishers may race, by name: a cancelled task only with cancellations, a failed child only with failures. */
  lemma AgreementByKinds(id: string, kinds: seq<Kind>)
    ensures AlwaysAgrees(id, kinds) <==>
            && (TaskCancel in kinds ==> forall k <- kinds :: k.Start? || k.Cancel? || k.TaskCancel?)
            && ((exists k <- kinds :: k.ChildFail?) ==> forall k <- kinds :: k.Start? || k.Fail? || k.ChildFail?)
  {
    AgreementExactly(id, kinds);
    var all := iset k | k in kinds;
    assert forall k :: k in all <==> k in kinds;
    if Compatible(all) {
      assert TaskCancel in kinds ==> forall k <- kinds :: !k.Start? ==> Target(k) == Target(TaskCancel);
      assert forall c <- kinds :: c.ChildFail? ==> forall k <- kinds :: !k.Start? ==> Target(k) == Target(c);
    } else {
      var u, k :| u in all && k in all && !Guarded(u) && !k.Start? && Target(k) != Target(u);
      assert u in kinds && k in kinds && (u == TaskCancel || u.ChildFail?);
    }
  }

  /** In every run with completions, failures and cancellations only, every closing event names the stored status. */
  lemma NamedFinishersAgree(trace: seq<System>, steps: seq<Step>, n: nat, id: string, e: Event)
    requires Finishers.Run(trace, steps) && n <= |steps| && id in trace[n].store.runs && e in Log(trace[n].store, id)
    requires forall i :: 0 <= i < |steps| && steps[i].Spawn? ==>
               steps[i].kind.Start? || steps[i].kind.Complete? || steps[i].kind.Fail? || steps[i].kind.Cancel?
    ensures e.typ == RunCompleted ==> trace[n].store.runs[id].status == Completed
    ensures e.typ == RunFailed ==> trace[n].store.runs[id].status == RunStore.Failed
    ensures e.typ == RunCancelled ==> trace[n].store.runs[id].status == Cancelled
  {
    if e.typ == RunCompleted || e.typ == RunFailed || e.typ == RunCancelled {
      FinishersAgree(trace, steps, n, id, e);
    }
  }
}
