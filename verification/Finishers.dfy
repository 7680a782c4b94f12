/** Several finishers racing on the runs of one store, interleaved at the granularity of single store calls. */
module Finishers {
  import opened RunStore
  import opened Wrappers

  /** The code paths that end a run, plus the recorder's start. The last two do not look at the status they got
      back before they report; the others do. */
  datatype Kind = Start | Complete | Fail(message: string) | Cancel | TaskCancel | ChildFail(message: string)

  predicate Guarded(k: Kind) {
    !k.TaskCancel? && !k.ChildFail?
  }

  function Target(k: Kind): Status {
    match k
    case Start => Running
    case Complete => Completed
    case Fail(_) | ChildFail(_) => Failed
    case Cancel | TaskCancel => Cancelled
  }

  function Reports(k: Kind): EventType {
    match k
    case Start => RunStarted
    case Complete => RunCompleted
    case Fail(_) | ChildFail(_) => RunFailed
    case Cancel | TaskCancel => RunCancelled
  }

  function Text(k: Kind): string {
    if k.Fail? || k.ChildFail? then k.message else ""
  }

  predicate Final(typ: EventType) {
    typ == RunCompleted || typ == RunFailed || typ == RunCancelled
  }

  function Claims(typ: EventType): Status
    requires Final(typ)
  {
    if typ == RunCompleted then Completed else if typ == RunFailed then RunStore.Failed else Cancelled
  }

  /* ---------- one finisher ---------- */

  /** Check reads the run; Prepare appends what goes before the status (final answer, citations, error); Decide
      updates the status; Report appends the closing event. */
  datatype Phase = Check | Prepare | Decide | Report | Over

  datatype Thread = Thread(run: string, kind: Kind, phase: Phase)

  datatype System = System(store: Store, threads: seq<Thread>, used: set<string>)

  /** `more` says whether a finisher in Prepare appends another event (`typ`, `ref`) or moves on. */
  datatype Step =
    | Spawn(run: string, kind: Kind)
    | Advance(tid: nat, now: int, eventId: string, more: bool, typ: EventType, ref: string)
    | Create(id: string, sessionId: string, metadata: Metadata, now: int)
    | AppendOther(run: string, eventId: string, typ: EventType, ref: string)
    | DeleteSession(sessionId: string)
    | Retain(runs: set<string>, logs: map<string, seq<Event>>)

  /** Run identifiers are drawn fresh; nobody but a finisher appends closing events; retention keeps some of the
      runs and, of each kept log, some of the events, none of them twice. */
  predicate Enabled(s: System, step: Step) {
    match step
    case Spawn(run, _) => run in s.used
    case Advance(tid, _, _, _, typ, _) => tid < |s.threads| && !Final(typ)
    case Create(id, sessionId, _, _) => id !in s.used && sessionId in s.store.sessions
    case AppendOther(_, _, typ, _) => !Final(typ)
    case DeleteSession(_) => true
    case Retain(_, logs) => forall id <- logs :: multiset(logs[id]) <= multiset(Log(s.store, id))
  }

  function Begin(k: Kind): Phase {
    if k.Start? then Decide else Check
  }

  function Advanced(s: System, step: Step): System
    requires step.Advance? && Enabled(s, step)
  {
    var t := s.threads[step.tid];
    var known := t.run in s.store.runs;
    match t.phase
    case Check =>
      s.(threads := s.threads[step.tid :=
          t.(phase := if !known || Terminal(s.store.runs[t.run].status) then Over else Prepare)])
    case Prepare =>
      if step.more then s.(store := Appended(s.store, t.run, step.eventId, step.typ, step.ref, Text(t.kind)))
      else s.(threads := s.threads[step.tid := t.(phase := Decide)])
    case Decide =>
      var store := WithStatus(s.store, t.run, Target(t.kind), Text(t.kind), step.now);
      var phase := if !known || (Guarded(t.kind) && store.runs[t.run].status != Target(t.kind)) then Over else Report;
      s.(store := store, threads := s.threads[step.tid := t.(phase := phase)])
    case Report =>
      s.(store := Appended(s.store, t.run, step.eventId, Reports(t.kind), "", Text(t.kind)),
         threads := s.threads[step.tid := t.(phase := Over)])
    case Over => s
  }

  function Next(s: System, step: Step): System
    requires Enabled(s, step)
  {
    match step
    case Spawn(run, kind) => s.(threads := s.threads + [Thread(run, kind, Begin(kind))])
    case Advance(_, _, _, _, _, _) => Advanced(s, step)
    case Create(id, sessionId, metadata, now) => s.(store := Created(s.store, id, sessionId, metadata, now),
        used := s.used + {id})
    case AppendOther(run, eventId, typ, ref) => s.(store := Appended(s.store, run, eventId, typ, ref, ""))
    case DeleteSession(sessionId) => s.(store := WithoutSession(s.store, sessionId))
    case Retain(runs, logs) =>
      s.(store := s.store.(runs := s.store.runs - (s.store.runs.Keys - runs),
                           events := map id | id in s.store.events && id in runs ::
                             if id in logs then logs[id] else s.store.events[id]))
  }

  predicate Initial(s: System) {
    s.store.runs == map[] && s.store.events == map[] && s.threads == [] && s.used == {}
  }

  predicate Run(trace: seq<System>, steps: seq<Step>) {
    && |trace| == |steps| + 1
    && Initial(trace[0])
    && forall i :: 0 <= i < |steps| ==> Enabled(trace[i], steps[i]) && trace[i + 1] == Next(trace[i], steps[i])
  }

  predicate OnlyGuarded(steps: seq<Step>) {
    forall i :: 0 <= i < |steps| && steps[i].Spawn? ==> Guarded(steps[i].kind)
  }

  /* ---------- agreement ---------- */

  /** The finishers spawned on one run are of these kinds. */
  ghost predicate OnlyFrom(steps: seq<Step>, id: string, kinds: iset<Kind>) {
    forall i :: 0 <= i < |steps| && steps[i].Spawn? && steps[i].run == id ==> steps[i].kind in kinds
  }

  /** Kinds that may race: one that reports without looking shares its target with every other that ends the run. */
  ghost predicate Compatible(kinds: iset<Kind>) {
    forall u <- kinds, k <- kinds :: !Guarded(u) && !k.Start? ==> Target(k) == Target(u)
  }

  predicate LogAgrees(s: Store, id: string)
    requires id in s.runs
  {
    forall e <- Log(s, id) :: Final(e.typ) ==> Claims(e.typ) == s.runs[id].status
  }

  /** If some finisher reports without looking, the run can only have ended as that one says. */
  ghost predicate EndsShared(s: Store, id: string, kinds: iset<Kind>)
    requires id in s.runs
  {
    Terminal(s.runs[id].status) ==> forall u <- kinds :: !Guarded(u) ==> s.runs[id].status == Target(u)
  }

  ghost predicate ReportsAgree(s: System, t: Thread, kinds: iset<Kind>) {
    && t.run in s.used
    && t.kind in kinds
    && (t.phase == Report && t.run in s.store.runs && Final(Reports(t.kind)) ==>
        s.store.runs[t.run].status == Target(t.kind))
  }

  ghost predicate Agree(s: System, id: string, kinds: iset<Kind>) {
    && s.store.events.Keys <= s.store.runs.Keys <= s.used
    && (id in s.store.runs ==> LogAgrees(s.store, id) && EndsShared(s.store, id, kinds))
    && (forall t <- s.threads :: t.run == id ==> ReportsAgree(s, t, kinds))
  }

  lemma AppendAgrees(s: System, id: string, kinds: iset<Kind>, run: string, eventId: string, typ: EventType,
      ref: string,
                     text: string)
    requires Agree(s, id, kinds)
    requires run == id && Final(typ) && run in s.store.runs ==> Claims(typ) == s.store.runs[run].status
    ensures Agree(s.(store := Appended(s.store, run, eventId, typ, ref, text)), id, kinds)
  {
    var s' := s.(store := Appended(s.store, run, eventId, typ, ref, text));
    if id in s.store.runs {
      assert id == run ==> Log(s'.store, id) == Log(s.store, id) + [NextEvent(s.store, run, eventId, typ, ref, text)];
      assert id != run ==> Log(s'.store, id) == Log(s.store, id);
    }
    forall t | t in s'.threads && t.run == id ensures ReportsAgree(s', t, kinds) {
      assert ReportsAgree(s, t, kinds);
    }
  }

  lemma StatusAgrees(s: System, id: string, kinds: iset<Kind>, t: Thread, now: int)
    requires Agree(s, id, kinds) && Compatible(kinds) && (t.run == id ==> t.kind in kinds)
    ensures Agree(s.(store := WithStatus(s.store, t.run, Target(t.kind), Text(t.kind), now)), id, kinds)
  {
    var s' := s.(store := WithStatus(s.store, t.run, Target(t.kind), Text(t.kind), now));
    assert Log(s'.store, id) == Log(s.store, id);
    forall u | u in s'.threads && u.run == id ensures ReportsAgree(s', u, kinds) {
      assert ReportsAgree(s, u, kinds);
    }
  }

  lemma ThreadAgrees(s: System, id: string, kinds: iset<Kind>, tid: nat, t: Thread)
    requires Agree(s, id, kinds) && tid < |s.threads| && (t.run == id ==> ReportsAgree(s, t, kinds))
    ensures Agree(s.(threads := s.threads[tid := t]), id, kinds)
  {
    var s' := s.(threads := s.threads[tid := t]);
    forall u | u in s'.threads && u.run == id ensures ReportsAgree(s', u, kinds) {
      assert u == t || u in s.threads;
      assert ReportsAgree(s, u, kinds);
    }
  }

  lemma AdvanceAgrees(s: System, step: Step, id: string, kinds: iset<Kind>)
    requires Agree(s, id, kinds) && Compatible(kinds) && step.Advance? && Enabled(s, step)
    ensures Agree(Advanced(s, step), id, kinds)
  {
    var t := s.threads[step.tid];
    assert t.run == id ==> ReportsAgree(s, t, kinds);
    match t.phase
    case Check => ThreadAgrees(s, id, kinds, step.tid, Advanced(s, step).threads[step.tid]);
    case Prepare =>
      if step.more {
        AppendAgrees(s, id, kinds, t.run, step.eventId, step.typ, step.ref, Text(t.kind));
      } else {
        ThreadAgrees(s, id, kinds, step.tid, t.(phase := Decide));
      }
    case Decide => DecisionAgrees(s, step, id, kinds);
    case Report =>
      AppendAgrees(s, id, kinds, t.run, step.eventId, Reports(t.kind), "", Text(t.kind));
      var s1 := s.(store := Appended(s.store, t.run, step.eventId, Reports(t.kind), "", Text(t.kind)));
      ThreadAgrees(s1, id, kinds, step.tid, t.(phase := Over));
    case Over =>
  }

  /** A finisher goes on to report only if the run has ended as it says: a guarded one looks, and the others share their
      target with all that can have ended the run before. */
  lemma DecisionAgrees(s: System, step: Step, id: string, kinds: iset<Kind>)
    requires Agree(s, id, kinds) && Compatible(kinds) && step.Advance? && Enabled(s, step)
    requires s.threads[step.tid].phase == Decide &&
        (s.threads[step.tid].run == id ==> ReportsAgree(s, s.threads[step.tid], kinds))
    ensures Agree(Advanced(s, step), id, kinds)
  {
    var t := s.threads[step.tid];
    StatusAgrees(s, id, kinds, t, step.now);
    var s1 := s.(store := WithStatus(s.store, t.run, Target(t.kind), Text(t.kind), step.now));
    ThreadAgrees(s1, id, kinds, step.tid, Advanced(s, step).threads[step.tid]);
  }

  lemma StepAgrees(s: System, step: Step, id: string, kinds: iset<Kind>)
    requires Agree(s, id, kinds) && Compatible(kinds) && Enabled(s, step)
    requires step.Spawn? && step.run == id ==> step.kind in kinds
    ensures Agree(Next(s, step), id, kinds)
  {
    match step
    case Advance(_, _, _, _, _, _) => AdvanceAgrees(s, step, id, kinds);
    case AppendOther(run, eventId, typ, ref) => AppendAgrees(s, id, kinds, run, eventId, typ, ref, "");
    case Spawn(_, _) =>
      var s' := Next(s, step);
      forall t | t in s'.threads && t.run == id ensures ReportsAgree(s', t, kinds) {
        assert t in s.threads ==> ReportsAgree(s, t, kinds);
      }
    case Retain(_, _) => RetainAgrees(s, step, id, kinds);
    case _ =>
      var s' := Next(s, step);
      forall t | t in s'.threads && t.run == id ensures ReportsAgree(s', t, kinds) {
        assert ReportsAgree(s, t, kinds);
      }
  }

  lemma RetainAgrees(s: System, step: Step, id: string, kinds: iset<Kind>)
    requires Agree(s, id, kinds) && Enabled(s, step) && step.Retain?
    ensures Agree(Next(s, step), id, kinds)
  {
    var s' := Next(s, step);
    forall e | e in Log(s'.store, id) ensures e in Log(s.store, id) {
      RetainedWasThere(s, step, id, e);
    }
    forall t | t in s'.threads && t.run == id ensures ReportsAgree(s', t, kinds) {
      assert ReportsAgree(s, t, kinds);
    }
  }

  lemma RetainedWasThere(s: System, step: Step, id: string, e: Event)
    requires Enabled(s, step) && step.Retain? && e in Log(Next(s, step).store, id)
    ensures e in Log(s.store, id)
  {
    if id in step.logs {
      assert e in multiset(step.logs[id]) ==> e in multiset(Log(s.store, id));
    }
  }

  lemma {:induction false} RunAgrees(trace: seq<System>, steps: seq<Step>, n: nat, id: string, kinds: iset<Kind>)
    requires Run(trace, steps) && OnlyFrom(steps, id, kinds) && Compatible(kinds) && n <= |steps|
    ensures Agree(trace[n], id, kinds)
  {
    if n > 0 {
      RunAgrees(trace, steps, n - 1, id, kinds);
      StepAgrees(trace[n - 1], steps[n - 1], id, kinds);
    }
  }

  /** However completion, failure, server failure and cancellation interleave: at every moment, every closing
      event in a run's log names the status that is stored. */
  lemma FinishersAgree(trace: seq<System>, steps: seq<Step>, n: nat, id: string, e: Event)
    requires Run(trace, steps) && OnlyGuarded(steps) && n <= |steps|
    requires id in trace[n].store.runs && e in Log(trace[n].store, id) && Final(e.typ)
    ensures trace[n].store.runs[id].status == Claims(e.typ)
  {
    RunAgrees(trace, steps, n, id, iset k: Kind | Guarded(k));
    assert LogAgrees(trace[n].store, id);
  }

  /* ---------- finality ---------- */

  /** A run has a completion time exactly when it is terminal. */
  predicate Stamped(s: System) {
    && s.store.runs.Keys <= s.used
    && forall id <- s.store.runs :: s.store.runs[id].completedAt.Some? <==> Terminal(s.store.runs[id].status)
  }

  lemma {:induction false} RunIsStamped(trace: seq<System>, steps: seq<Step>, n: nat)
    requires Run(trace, steps) && n <= |steps|
    ensures Stamped(trace[n])
  {
    if n > 0 {
      RunIsStamped(trace, steps, n - 1);
      StepStamps(trace[n - 1], steps[n - 1]);
    }
  }

  lemma StepStamps(s: System, step: Step)
    requires Stamped(s) && Enabled(s, step)
    ensures Stamped(Next(s, step)) && s.used <= Next(s, step).used
    ensures forall id <- s.store.runs :: Terminal(s.store.runs[id].status) ==>
              id !in Next(s, step).store.runs || Next(s, step).store.runs[id] == s.store.runs[id]
    ensures forall id <- s.used :: id !in s.store.runs ==> id !in Next(s, step).store.runs
  {
  }

  /** What never changes in a record while it exists: who it is, and each of its times once it is set. */
  predicate SameRecord(before: RunStore.Run, after: RunStore.Run) {
    && after.id == before.id && after.sessionId == before.sessionId && after.createdAt == before.createdAt
    && after.metadata == before.metadata
    && (before.startedAt.Some? ==> after.startedAt == before.startedAt)
    && (before.completedAt.Some? ==> after.completedAt == before.completedAt)
  }

  lemma StepKeepsRecords(s: System, step: Step, id: string)
    requires Stamped(s) && Enabled(s, step) && id in s.store.runs && id in Next(s, step).store.runs
    ensures SameRecord(s.store.runs[id], Next(s, step).store.runs[id])
  {
  }

  lemma {:induction false} GoneForGood(trace: seq<System>, steps: seq<Step>, i: nat, n: nat, id: string)
    requires Run(trace, steps) && i <= n <= |steps| && id in trace[i].used && id !in trace[i].store.runs
    ensures id in trace[n].used && id !in trace[n].store.runs
    decreases n
  {
    if i < n {
      GoneForGood(trace, steps, i, n - 1, id);
      RunIsStamped(trace, steps, n - 1);
      StepStamps(trace[n - 1], steps[n - 1]);
    }
  }

  lemma {:induction false} UsedOnlyGrows(trace: seq<System>, steps: seq<Step>, i: nat, n: nat, id: string)
    requires Run(trace, steps) && i <= n <= |steps| && id in trace[i].used
    ensures id in trace[n].used
    decreases n
  {
    if i < n {
      UsedOnlyGrows(trace, steps, i, n - 1, id);
      RunIsStamped(trace, steps, n - 1);
      StepStamps(trace[n - 1], steps[n - 1]);
    }
  }

  /** A run that is known at both ends was known in between: identifiers are not reused. */
  lemma KnownBetween(trace: seq<System>, steps: seq<Step>, i: nat, m: nat, n: nat, id: string)
    requires Run(trace, steps) && i <= m <= n <= |steps| && id in trace[i].store.runs && id in trace[n].store.runs
    ensures id in trace[m].store.runs
  {
    RunIsStamped(trace, steps, i);
    UsedOnlyGrows(trace, steps, i, m, id);
    if id !in trace[m].store.runs {
      GoneForGood(trace, steps, m, n, id);
    }
  }

  /** Whatever races on a run, it stays the same run, and neither its start nor its end is ever moved. */
  lemma {:induction false} RecordIsStable(trace: seq<System>, steps: seq<Step>, i: nat, n: nat, id: string)
    requires Run(trace, steps) && i <= n <= |steps| && id in trace[i].store.runs && id in trace[n].store.runs
    ensures SameRecord(trace[i].store.runs[id], trace[n].store.runs[id])
    decreases n
  {
    if i < n {
      KnownBetween(trace, steps, i, n - 1, n, id);
      RecordIsStable(trace, steps, i, n - 1, id);
      RunIsStamped(trace, steps, n - 1);
      StepKeepsRecords(trace[n - 1], steps[n - 1], id);
    }
  }

  /** What is decided stays decided: from the moment a run is terminal its status, error, times and metadata never
      change again, whoever races on it; the record can only disappear as a whole, and then for good. */
  lemma {:induction false} TerminalIsFinal(trace: seq<System>, steps: seq<Step>, i: nat, n: nat, id: string)
    requires Run(trace, steps) && i <= n <= |steps|
    requires id in trace[i].store.runs && Terminal(trace[i].store.runs[id].status)
    ensures id in trace[n].used
    ensures id in trace[n].store.runs ==> trace[n].store.runs[id] == trace[i].store.runs[id]
    ensures id in trace[n].store.runs ==> trace[n].store.runs[id].completedAt.Some?
    decreases n
  {
    RunIsStamped(trace, steps, n);
    if i < n {
      TerminalIsFinal(trace, steps, i, n - 1, id);
      RunIsStamped(trace, steps, n - 1);
      StepStamps(trace[n - 1], steps[n - 1]);
    }
  }
}
