/** Which finishers may race on one run, and what a race can do to the log, exactly: for every list of finishers,
    what holds however they interleave, with each other and with everything else that happens to the store. */
module FinisherRaces {
  import opened RunStore
  import opened Finishers

  /** The finishers spawned on one run, in order. */
  function FinishersOn(threads: seq<Thread>, id: string): seq<Kind> {
    if threads == [] then []
    else
      var last := threads[|threads| - 1];
      FinishersOn(threads[..|threads| - 1], id) + if last.run == id then [last.kind] else []
  }

  /** A run of the system in which exactly these finishers were spawned on the run `id`, which still exists. */
  ghost predicate RaceOf(trace: seq<System>, steps: seq<Step>, id: string, kinds: seq<Kind>) {
    && Finishers.Run(trace, steps)
    && FinishersOn(trace[|steps|].threads, id) == kinds
    && id in trace[|steps|].store.runs
  }

  /* ---------- the finishers on a run are those spawned ---------- */

  lemma {:induction false} SameFinishers(threads: seq<Thread>, tid: nat, t: Thread, id: string)
    requires tid < |threads| && t.run == threads[tid].run && t.kind == threads[tid].kind
    ensures FinishersOn(threads[tid := t], id) == FinishersOn(threads, id)
  {
    var init := threads[..|threads| - 1];
    if tid < |threads| - 1 {
      SameFinishers(init, tid, t, id);
      assert threads[tid := t][..|threads| - 1] == init[tid := t];
    } else {
      assert threads[tid := t][..|threads| - 1] == init;
    }
  }

  lemma NextFinishers(s: System, step: Step, id: string)
    requires Enabled(s, step)
    ensures FinishersOn(Next(s, step).threads, id) ==
            FinishersOn(s.threads, id) + if step.Spawn? && step.run == id then [step.kind] else []
  {
    assert FinishersOn(s.threads, id) + [] == FinishersOn(s.threads, id);
    if step.Spawn? {
      assert Next(s, step).threads[..|s.threads|] == s.threads;
    } else if step.Advance? {
      SameFinishers(s.threads, step.tid, Advanced(s, step).threads[step.tid], id);
    }
  }

  lemma {:induction false} SpawnedAreFinishers(trace: seq<System>, steps: seq<Step>, n: nat, i: nat, id: string)
    requires Finishers.Run(trace, steps) && i < n <= |steps| && steps[i].Spawn? && steps[i].run == id
    ensures steps[i].kind in FinishersOn(trace[n].threads, id)
    decreases n
  {
    var m: nat := n - 1;
    assert m + 1 == n;
    NextFinishers(trace[m], steps[m], id);
    if i < m {
      SpawnedAreFinishers(trace, steps, m, i, id);
    }
  }

  lemma RaceIsOnlyFrom(trace: seq<System>, steps: seq<Step>, id: string, kinds: seq<Kind>)
    requires RaceOf(trace, steps, id, kinds)
    ensures OnlyFrom(steps, id, iset k | k in kinds)
  {
    forall i | 0 <= i < |steps| && steps[i].Spawn? && steps[i].run == id ensures steps[i].kind in kinds {
      SpawnedAreFinishers(trace, steps, |steps|, i, id);
    }
  }

  /* ---------- a race in which two finishers report ---------- */

  /** The next store call of finisher `tid`. */
  lemma Move(trace: seq<System>, steps: seq<Step>, tid: nat, now: int)
    returns (trace': seq<System>, steps': seq<Step>, s: System)
    requires Finishers.Run(trace, steps) && tid < |trace[|steps|].threads|
    ensures Finishers.Run(trace', steps')
    ensures trace'[|steps'|] == s == Advanced(trace[|steps|], Advance(tid, now, "event", false, Message, ""))
    ensures OnlyGuarded(steps) ==> OnlyGuarded(steps')
  {
    trace', steps', s := Extend(trace, steps, Advance(tid, now, "event", false, Message, ""));
  }

  lemma Extend(trace: seq<System>, steps: seq<Step>, step: Step)
    returns (trace': seq<System>, steps': seq<Step>, s: System)
    requires Finishers.Run(trace, steps) && Enabled(trace[|steps|], step)
    ensures Finishers.Run(trace', steps') && trace'[|steps'|] == s == Next(trace[|steps|], step)
    ensures trace' == trace + [s] && steps' == steps + [step]
    ensures OnlyGuarded(steps) && (step.Spawn? ==> Guarded(step.kind)) ==> OnlyGuarded(steps')
  {
    s := Next(trace[|steps|], step);
    trace', steps' := trace + [s], steps + [step];
  }

  /** The threads are the finishers of the list, all on one run. */
  predicate ThreadsOf(threads: seq<Thread>, id: string, kinds: seq<Kind>) {
    |threads| == |kinds| && forall i :: 0 <= i < |kinds| ==> threads[i].run == id && threads[i].kind == kinds[i]
  }

  lemma {:induction false} ThreadsAreFinishers(threads: seq<Thread>, id: string, kinds: seq<Kind>)
    requires ThreadsOf(threads, id, kinds)
    ensures FinishersOn(threads, id) == kinds
  {
    if threads != [] {
      ThreadsAreFinishers(threads[..|threads| - 1], id, kinds[..|kinds| - 1]);
      assert kinds == kinds[..|kinds| - 1] + [kinds[|kinds| - 1]];
    }
  }

  predicate Fresh(s: System, id: string) {
    s.store.runs.Keys == {id} && s.store.runs[id].status == Queued && s.store.events == map[] && id in s.used
  }

  predicate AllGuarded(kinds: seq<Kind>) {
    forall k <- kinds :: Guarded(k)
  }

  lemma {:induction false} AllSpawned(id: string, kinds: seq<Kind>)
    returns (trace: seq<System>, steps: seq<Step>, s: System)
    ensures Finishers.Run(trace, steps) && trace[|steps|] == s && (AllGuarded(kinds) ==> OnlyGuarded(steps))
    ensures ThreadsOf(s.threads, id, kinds) && Fresh(s, id)
    ensures forall i :: 0 <= i < |kinds| ==> s.threads[i].phase == Begin(kinds[i])
  {
    if kinds == [] {
      s := System(Store({"session"}, map[], map[]), [], {});
      trace, steps := [s], [];
      trace, steps, s := Extend(trace, steps, Create(id, "session", Metadata("", "", ""), 0));
    } else {
      var init, last := kinds[..|kinds| - 1], kinds[|kinds| - 1];
      assert last in kinds && forall k <- init :: k in kinds;
      trace, steps, s := AllSpawned(id, init);
      trace, steps, s := Extend(trace, steps, Spawn(id, last));
    }
  }

  /** Finisher `tid` passes its check on the fresh run and prepares nothing. */
  lemma Checked(trace: seq<System>, steps: seq<Step>, tid: nat, id: string, kinds: seq<Kind>)
    returns (trace': seq<System>, steps': seq<Step>, s: System)
    requires Finishers.Run(trace, steps) && ThreadsOf(trace[|steps|].threads, id, kinds) && Fresh(trace[|steps|], id)
    requires tid < |kinds| && trace[|steps|].threads[tid].phase == Check
    ensures Finishers.Run(trace', steps') && trace'[|steps'|] == s && (OnlyGuarded(steps) ==> OnlyGuarded(steps'))
    ensures s == trace[|steps|].(threads := trace[|steps|].threads[tid := Thread(id, kinds[tid], Decide)])
  {
    trace', steps', s := Move(trace, steps, tid, 0);
    trace', steps', s := Move(trace', steps', tid, 0);
  }

  /** Two finishers that have both passed their check on a fresh run. */
  lemma BothChecked(id: string, kinds: seq<Kind>, a: nat, b: nat)
    returns (trace: seq<System>, steps: seq<Step>, s: System)
    requires a < |kinds| && b < |kinds| && a != b && !kinds[a].Start? && !kinds[b].Start?
    ensures Finishers.Run(trace, steps) && trace[|steps|] == s && (AllGuarded(kinds) ==> OnlyGuarded(steps))
    ensures ThreadsOf(s.threads, id, kinds) && Fresh(s, id) && s.threads[a].phase == s.threads[b].phase == Decide
  {
    trace, steps, s := AllSpawned(id, kinds);
    trace, steps, s := Checked(trace, steps, a, id, kinds);
    trace, steps, s := Checked(trace, steps, b, id, kinds);
  }

  /** Both have decided: the run has ended as the first says, and both are about to report. */
  lemma BothDecided(id: string, kinds: seq<Kind>, a: nat, b: nat)
    returns (trace: seq<System>, steps: seq<Step>, s: System)
    requires a < |kinds| && b < |kinds| && a != b && !kinds[a].Start? && !kinds[b].Start?
    requires Target(kinds[a]) == Target(kinds[b]) || !Guarded(kinds[b])
    ensures Finishers.Run(trace, steps) && trace[|steps|] == s && (AllGuarded(kinds) ==> OnlyGuarded(steps))
    ensures ThreadsOf(s.threads, id, kinds) && s.threads[a].phase == s.threads[b].phase == Report
    ensures id in s.store.runs && s.store.events == map[]
    ensures s.store.runs[id].status == Target(kinds[a]) && s.store.runs[id].error == Text(kinds[a])
  {
    trace, steps, s := BothChecked(id, kinds, a, b);
    trace, steps, s := Move(trace, steps, a, 1);
    trace, steps, s := Move(trace, steps, b, 2);
  }

  function Closing(n: nat, kind: Kind): Event {
    Event("event", n, Reports(kind), "", Text(kind))
  }

  /** A finisher that is about to report does so. */
  lemma Reporting(trace: seq<System>, steps: seq<Step>, tid: nat, id: string, kinds: seq<Kind>, log: seq<Event>)
    returns (trace': seq<System>, steps': seq<Step>, s: System)
    requires Finishers.Run(trace, steps) && ThreadsOf(trace[|steps|].threads, id, kinds) &&
        id in trace[|steps|].store.runs
    requires tid < |kinds| && trace[|steps|].threads[tid].phase == Report && Log(trace[|steps|].store, id) == log
    ensures Finishers.Run(trace', steps') && trace'[|steps'|] == s && (OnlyGuarded(steps) ==> OnlyGuarded(steps'))
    ensures s.threads == trace[|steps|].threads[tid := Thread(id, kinds[tid], Over)] && ThreadsOf(s.threads, id, kinds)
    ensures s.store.runs == trace[|steps|].store.runs && Log(s.store, id) == log + [Closing(|log| + 1, kinds[tid])]
  {
    trace', steps', s := Move(trace, steps, tid, 3);
  }

  lemma OneReported(id: string, kinds: seq<Kind>, a: nat, b: nat)
    returns (trace: seq<System>, steps: seq<Step>, s: System)
    requires a < |kinds| && b < |kinds| && a != b && !kinds[a].Start? && !kinds[b].Start?
    requires Target(kinds[a]) == Target(kinds[b]) || !Guarded(kinds[b])
    ensures Finishers.Run(trace, steps) && trace[|steps|] == s && (AllGuarded(kinds) ==> OnlyGuarded(steps))
    ensures ThreadsOf(s.threads, id, kinds) && s.threads[b].phase == Report && id in s.store.runs
    ensures s.store.runs[id].status == Target(kinds[a]) && s.store.runs[id].error == Text(kinds[a])
    ensures Log(s.store, id) == [Closing(1, kinds[a])]
  {
    trace, steps, s := BothDecided(id, kinds, a, b);
    trace, steps, s := Reporting(trace, steps, a, id, kinds, []);
  }

  /** Both report, in the order in which they decided. */
  lemma BothReport(id: string, kinds: seq<Kind>, a: nat, b: nat)
    returns (trace: seq<System>, steps: seq<Step>, s: System)
    requires a < |kinds| && b < |kinds| && a != b && !kinds[a].Start? && !kinds[b].Start?
    requires Target(kinds[a]) == Target(kinds[b]) || !Guarded(kinds[b])
    ensures RaceOf(trace, steps, id, kinds) && trace[|steps|] == s && (AllGuarded(kinds) ==> OnlyGuarded(steps))
    ensures s.store.runs[id].status == Target(kinds[a]) && s.store.runs[id].error == Text(kinds[a])
    ensures Log(s.store, id) == [Closing(1, kinds[a]), Closing(2, kinds[b])]
  {
    trace, steps, s := OneReported(id, kinds, a, b);
    trace, steps, s := Reporting(trace, steps, b, id, kinds, [Closing(1, kinds[a])]);
    ThreadsAreFinishers(s.threads, id, kinds);
  }

  /* ---------- agreement, exactly ---------- */

  ghost predicate AlwaysAgrees(id: string, kinds: seq<Kind>) {
    forall trace: seq<System>, steps: seq<Step> :: RaceOf(trace, steps, id, kinds) ==>
        LogAgrees(trace[|steps|].store, id)
  }

  lemma RaceAgrees(trace: seq<System>, steps: seq<Step>, id: string, kinds: seq<Kind>)
    requires Compatible(iset k | k in kinds) && RaceOf(trace, steps, id, kinds)
    ensures LogAgrees(trace[|steps|].store, id)
  {
    RaceIsOnlyFrom(trace, steps, id, kinds);
    RunAgrees(trace, steps, |steps|, id, iset k | k in kinds);
  }

  lemma RaceDisagrees(id: string, kinds: seq<Kind>, k: Kind, u: Kind) returns (trace: seq<System>, steps: seq<Step>)
    requires u in kinds && k in kinds && !Guarded(u) && !k.Start? && Target(k) != Target(u)
    ensures RaceOf(trace, steps, id, kinds) && !LogAgrees(trace[|steps|].store, id)
  {
    var a: nat :| a < |kinds| && kinds[a] == k;
    var b: nat :| b < |kinds| && kinds[b] == u;
    var s;
    trace, steps, s := BothReport(id, kinds, a, b);
    assert Log(s.store, id)[1] in Log(s.store, id);
  }

  /** However these finishers race, the closing events of the log name the status that is stored: this holds if and only
      if each finisher that reports without looking shares its target with all the others that end the run. */
  lemma AgreementExactly(id: string, kinds: seq<Kind>)
    ensures AlwaysAgrees(id, kinds) <==> Compatible(iset k | k in kinds)
  {
    if Compatible(iset k | k in kinds) {
      forall trace: seq<System>, steps: seq<Step> | RaceOf(trace, steps, id, kinds)
        ensures LogAgrees(trace[|steps|].store, id)
      {
        RaceAgrees(trace, steps, id, kinds);
      }
    } else {
      var u, k :| u in kinds && k in kinds && !Guarded(u) && !k.Start? && Target(k) != Target(u);
      var trace, steps := RaceDisagrees(id, kinds, k, u);
    }
  }

  /** Without the guard the log contradicts the record: a task cancel or a failed child that loses the race to
      completion still reports its own ending. */
  lemma UnguardedDisagrees(k: Kind) returns (trace: seq<System>, steps: seq<Step>, s: System)
    requires !Guarded(k)
    ensures Finishers.Run(trace, steps) && trace[|steps|] == s
    ensures "r" in s.store.runs && s.store.runs["r"].status == Completed
    ensures exists e <- Log(s.store, "r") :: e.typ == Reports(k) && Claims(e.typ) != Completed
  {
    trace, steps, s := BothReport("r", [Complete, k], 0, 1);
    assert Log(s.store, "r")[1] in Log(s.store, "r");
  }

  /* ---------- messages, exactly ---------- */

  /** The run's failures all carry this message: those under way, the stored one, and those reported. */
  predicate OneMessage(s: System, id: string, message: string) {
    && (forall t <- s.threads :: t.run == id && t.kind.Fail? ==> t.kind.message == message)
    && (forall t <- s.threads :: t.run == id ==> Guarded(t.kind))
    && (id in s.store.runs && s.store.runs[id].status == RunStore.Failed ==> s.store.runs[id].error == message)
    && (forall e <- Log(s.store, id) :: e.typ == RunFailed ==> e.text == message)
    && s.store.events.Keys <= s.store.runs.Keys <= s.used
  }

  lemma StepKeepsMessage(s: System, step: Step, id: string, message: string)
    requires OneMessage(s, id, message) && Enabled(s, step)
    requires step.Spawn? && step.run == id ==> Guarded(step.kind) && (step.kind.Fail? ==> step.kind.message == message)
    ensures OneMessage(Next(s, step), id, message)
  {
    var s' := Next(s, step);
    forall e | e in Log(s'.store, id) && e.typ == RunFailed ensures e.text == message {
      if step.Retain? {
        RetainedWasThere(s, step, id, e);
      } else if step.Advance? {
        var t := s.threads[step.tid];
        assert t in s.threads;
      }
    }
    if step.Advance? {
      var t := s.threads[step.tid];
      assert t in s.threads;
      forall u | u in s'.threads ensures u in s.threads || (u.run == t.run && u.kind == t.kind) {
      }
    }
  }

  lemma {:induction false} RunKeepsMessage(trace: seq<System>, steps: seq<Step>, n: nat, id: string, message: string)
    requires Finishers.Run(trace, steps) && n <= |steps|
    requires forall i :: 0 <= i < |steps| && steps[i].Spawn? && steps[i].run == id ==>
               Guarded(steps[i].kind) && (steps[i].kind.Fail? ==> steps[i].kind.message == message)
    ensures OneMessage(trace[n], id, message)
  {
    if n > 0 {
      RunKeepsMessage(trace, steps, n - 1, id, message);
      StepKeepsMessage(trace[n - 1], steps[n - 1], id, message);
    }
  }

  /** Every failure that the log reports carries the error that is stored. */
  predicate TextsAgree(s: Store, id: string)
    requires id in s.runs
  {
    forall e <- Log(s, id) :: e.typ == RunFailed ==> e.text == s.runs[id].error
  }

  predicate SameMessage(kinds: seq<Kind>) {
    forall a <- kinds, b <- kinds :: a.Fail? && b.Fail? ==> a.message == b.message
  }

  ghost predicate TextsAlwaysAgree(id: string, kinds: seq<Kind>) {
    forall trace: seq<System>, steps: seq<Step> :: RaceOf(trace, steps, id, kinds) ==>
        TextsAgree(trace[|steps|].store, id)
  }

  lemma RaceTextsAgree(trace: seq<System>, steps: seq<Step>, id: string, kinds: seq<Kind>)
    requires AllGuarded(kinds) && SameMessage(kinds) && RaceOf(trace, steps, id, kinds)
    ensures TextsAgree(trace[|steps|].store, id)
  {
    var message := if k :| k in kinds && k.Fail? then k.message else "";
    RaceIsOnlyFrom(trace, steps, id, kinds);
    RunKeepsMessage(trace, steps, |steps|, id, message);
    RunAgrees(trace, steps, |steps|, id, iset k | k in kinds);
  }

  /** However guarded finishers race, every reported failure carries the stored error: this holds if and only if all of
      them that fail carry one and the same message. */
  lemma MessagesExactly(id: string, kinds: seq<Kind>)
    requires AllGuarded(kinds)
    ensures TextsAlwaysAgree(id, kinds) <==> SameMessage(kinds)
  {
    if SameMessage(kinds) {
      forall trace: seq<System>, steps: seq<Step> | RaceOf(trace, steps, id, kinds)
        ensures TextsAgree(trace[|steps|].store, id)
      {
        RaceTextsAgree(trace, steps, id, kinds);
      }
    } else {
      var j, k :| j in kinds && k in kinds && j.Fail? && k.Fail? && j.message != k.message;
      var a: nat :| a < |kinds| && kinds[a] == j;
      var b: nat :| b < |kinds| && kinds[b] == k;
      var trace, steps, s := BothReport(id, kinds, a, b);
      assert Log(s.store, id)[1] in Log(s.store, id);
    }
  }

  /** The guard compares statuses, not messages. Of two failures that race, both report: the log then holds two
      run.failed events, and the later one carries a message that is not the stored error. */
  lemma SecondFailureReportsItsOwnMessage(first: string, second: string)
    returns (trace: seq<System>, steps: seq<Step>, s: System)
    requires first != second
    ensures Finishers.Run(trace, steps) && OnlyGuarded(steps) && trace[|steps|] == s
    ensures "r" in s.store.runs && s.store.runs["r"].status == RunStore.Failed && s.store.runs["r"].error == first
    ensures |Log(s.store, "r")| == 2 && forall e <- Log(s.store, "r") :: e.typ == RunFailed
    ensures Log(s.store, "r")[1].text == second
  {
    trace, steps, s := BothReport("r", [Fail(first), Fail(second)], 0, 1);
  }

  /* ---------- how many closing events, exactly ---------- */

  function Count(log: seq<Event>, typ: EventType): nat {
    if log == [] then 0 else Count(log[..|log| - 1], typ) + if log[|log| - 1].typ == typ then 1 else 0
  }

  function Closings(log: seq<Event>): nat {
    Count(log, RunCompleted) + Count(log, RunFailed) + Count(log, RunCancelled)
  }

  lemma {:induction false} CountConcat(a: seq<Event>, b: seq<Event>, typ: EventType)
    ensures Count(a + b, typ) == Count(a, typ) + Count(b, typ)
  {
    if b == [] {
      assert a + b == a;
    } else {
      assert (a + b)[..|a + b| - 1] == a + b[..|b| - 1];
      CountConcat(a, b[..|b| - 1], typ);
    }
  }

  lemma CountWithout(before: seq<Event>, e: Event, after: seq<Event>, typ: EventType)
    ensures Count(before + [e] + after, typ) == Count(before + after, typ) + if e.typ == typ then 1 else 0
  {
    CountConcat(before + [e], after, typ);
    CountConcat(before, [e], typ);
    CountConcat(before, after, typ);
    CountOne(e, typ);
  }

  lemma TakenOut(init: seq<Event>, last: Event, log: seq<Event>) returns (before: seq<Event>, after: seq<Event>)
    requires multiset(init + [last]) <= multiset(log)
    ensures log == before + [last] + after && multiset(init) <= multiset(before + after)
  {
    assert last in multiset(init + [last]);
    var i :| 0 <= i < |log| && log[i] == last;
    before, after := log[..i], log[i + 1..];
    assert log == before + [last] + after;
    forall x: Event ensures multiset(init)[x] <= multiset(before + after)[x] {
      assert multiset(init + [last])[x] == multiset(init)[x] + if x == last then 1 else 0;
      assert multiset(log)[x] == multiset(before + after)[x] + if x == last then 1 else 0;
    }
  }

  lemma {:induction false} CountKept(kept: seq<Event>, log: seq<Event>, typ: EventType)
    requires multiset(kept) <= multiset(log)
    ensures Count(kept, typ) <= Count(log, typ)
  {
    if kept != [] {
      var init, last := kept[..|kept| - 1], kept[|kept| - 1];
      assert kept == init + [last];
      var before, after := TakenOut(init, last, log);
      CountKept(init, before + after, typ);
      CountWithout(before, last, after, typ);
    }
  }

  lemma CountOne(e: Event, typ: EventType)
    ensures Count([e], typ) == if e.typ == typ then 1 else 0
  {
    assert [e][..0] == [];
  }

  /** How many finishers of a run are over and would have reported this. */
  function Reported(threads: seq<Thread>, id: string, typ: EventType): nat {
    if threads == [] then 0
    else Reported(threads[..|threads| - 1], id, typ) + ReportedBy(threads[|threads| - 1], id, typ)
  }

  function ReportedBy(t: Thread, id: string, typ: EventType): nat {
    if t.run == id && Reports(t.kind) == typ && t.phase == Over then 1 else 0
  }

  lemma {:induction false} ReportedUpdate(threads: seq<Thread>, tid: nat, t: Thread, id: string, typ: EventType)
    requires tid < |threads|
    ensures Reported(threads[tid := t], id, typ) + ReportedBy(threads[tid], id, typ) ==
            Reported(threads, id, typ) + ReportedBy(t, id, typ)
  {
    var init := threads[..|threads| - 1];
    if tid < |threads| - 1 {
      ReportedUpdate(init, tid, t, id, typ);
      assert threads[tid := t][..|threads| - 1] == init[tid := t];
    } else {
      assert threads[tid := t][..|threads| - 1] == init;
    }
  }

  /** Each closing event was reported by a finisher of its own. */
  predicate ReportedOnce(s: System, id: string, typ: EventType) {
    s.store.events.Keys <= s.store.runs.Keys <= s.used && Count(Log(s.store, id), typ) <= Reported(s.threads, id, typ)
  }

  lemma AppendCounts(s: Store, run: string, eventId: string, typ: EventType, ref: string, text: string, id: string,
      what: EventType)
    ensures Count(Log(Appended(s, run, eventId, typ, ref, text), id), what) <=
            Count(Log(s, id), what) + if run == id && typ == what then 1 else 0
  {
    if run == id && run in s.runs {
      var e := NextEvent(s, run, eventId, typ, ref, text);
      CountConcat(Log(s, id), [e], what);
      CountOne(e, what);
      assert Log(Appended(s, run, eventId, typ, ref, text), id) == Log(s, id) + [e];
    }
  }

  /** A store call adds a closing event only as its finisher is over. */
  lemma AdvanceCounts(s: System, step: Step, id: string, typ: EventType)
    requires Final(typ) && step.Advance? && Enabled(s, step)
    ensures Count(Log(Advanced(s, step).store, id), typ) + ReportedBy(s.threads[step.tid], id, typ) <=
            Count(Log(s.store, id), typ) + ReportedBy(Advanced(s, step).threads[step.tid], id, typ)
  {
    var t := s.threads[step.tid];
    match t.phase
    case Prepare =>
      if step.more {
        AppendCounts(s.store, t.run, step.eventId, step.typ, step.ref, Text(t.kind), id, typ);
      }
    case Report => AppendCounts(s.store, t.run, step.eventId, Reports(t.kind), "", Text(t.kind), id, typ);
    case _ => assert Log(Advanced(s, step).store, id) == Log(s.store, id);
  }

  lemma AdvanceReportsOnce(s: System, step: Step, id: string, typ: EventType)
    requires Final(typ) && ReportedOnce(s, id, typ) && step.Advance? && Enabled(s, step)
    ensures ReportedOnce(Advanced(s, step), id, typ)
  {
    AdvanceCounts(s, step, id, typ);
    ReportedUpdate(s.threads, step.tid, Advanced(s, step).threads[step.tid], id, typ);
  }

  lemma StepReportsOnce(s: System, step: Step, id: string, typ: EventType)
    requires Final(typ) && ReportedOnce(s, id, typ) && Enabled(s, step)
    ensures ReportedOnce(Next(s, step), id, typ)
  {
    match step
    case Advance(_, _, _, _, _, _) => AdvanceReportsOnce(s, step, id, typ);
    case AppendOther(run, eventId, other, ref) => AppendCounts(s.store, run, eventId, other, ref, "", id, typ);
    case Spawn(_, _) => assert Next(s, step).threads[..|s.threads|] == s.threads;
    case Retain(_, logs) =>
      if id in logs {
        CountKept(logs[id], Log(s.store, id), typ);
      }
    case _ =>
  }

  lemma {:induction false} RunReportsOnce(trace: seq<System>, steps: seq<Step>, n: nat, id: string, typ: EventType)
    requires Finishers.Run(trace, steps) && n <= |steps| && Final(typ)
    ensures ReportedOnce(trace[n], id, typ)
  {
    if n > 0 {
      RunReportsOnce(trace, steps, n - 1, id, typ);
      StepReportsOnce(trace[n - 1], steps[n - 1], id, typ);
    }
  }

  function Reporters(kinds: seq<Kind>, typ: EventType): nat {
    if kinds == [] then
      0
    else
      Reporters(kinds[..|kinds| - 1], typ) + if Reports(kinds[|kinds| - 1]) == typ then 1 else 0
  }

  lemma {:induction false} ReportedByFinishers(threads: seq<Thread>, id: string, typ: EventType)
    ensures Reported(threads, id, typ) <= Reporters(FinishersOn(threads, id), typ)
  {
    if threads != [] {
      var init, last := threads[..|threads| - 1], threads[|threads| - 1];
      ReportedByFinishers(init, id, typ);
      var before := FinishersOn(init, id);
      assert before + [] == before;
      assert (before + [last.kind])[..|before|] == before;
    }
  }

  /** No two finishers can both report: they have different targets and both look. */
  predicate Exclusive(kinds: seq<Kind>) {
    forall i, j :: 0 <= i < j < |kinds| && !kinds[i].Start? && !kinds[j].Start? ==>
      Target(kinds[i]) != Target(kinds[j]) && Guarded(kinds[i]) && Guarded(kinds[j])
  }

  lemma {:induction false} AtMostOneReporter(kinds: seq<Kind>, typ: EventType)
    requires Exclusive(kinds) && Final(typ)
    ensures Reporters(kinds, typ) <= 1
    ensures Reporters(kinds, typ) == 1 ==> exists k <- kinds :: Reports(k) == typ
  {
    if kinds != [] {
      var init, last := kinds[..|kinds| - 1], kinds[|kinds| - 1];
      AtMostOneReporter(init, typ);
      if Reports(last) == typ {
        assert last in kinds;
        forall k | k in init ensures Reports(k) != typ {
          var i :| 0 <= i < |init| && init[i] == k;
          assert kinds[i] == k && kinds[|kinds| - 1] == last;
        }
      }
    }
  }

  ghost predicate AlwaysOnce(id: string, kinds: seq<Kind>) {
    forall trace: seq<System>, steps: seq<Step> :: RaceOf(trace, steps, id, kinds) ==>
        Closings(Log(trace[|steps|].store, id)) <= 1
  }

  lemma {:induction false} CountedIsThere(log: seq<Event>, typ: EventType)
    ensures Count(log, typ) > 0 ==> exists e <- log :: e.typ == typ
  {
    if log != [] {
      CountedIsThere(log[..|log| - 1], typ);
      if log[|log| - 1].typ == typ {
        assert log[|log| - 1] in log;
      }
    }
  }

  /** Of two different endings only one is ever reported. */
  lemma OneEnding(trace: seq<System>, steps: seq<Step>, id: string, kinds: seq<Kind>, a: EventType, b: EventType)
    requires Exclusive(kinds) && RaceOf(trace, steps, id, kinds) && Final(a) && Final(b) && a != b
    ensures Count(Log(trace[|steps|].store, id), a) + Count(Log(trace[|steps|].store, id), b) <= 1
  {
    var log := Log(trace[|steps|].store, id);
    AtMostReported(trace, steps, id, kinds, a);
    AtMostReported(trace, steps, id, kinds, b);
    if Count(log, a) > 0 && Count(log, b) > 0 {
      var j :| j in kinds && Reports(j) == a;
      var k :| k in kinds && Reports(k) == b;
      assert Compatible(iset k | k in kinds) by {
        TwoAreGuarded(kinds, j, k);
      }
      RaceIsOnlyFrom(trace, steps, id, kinds);
      RunAgrees(trace, steps, |steps|, id, iset k | k in kinds);
      CountedIsThere(log, a);
      CountedIsThere(log, b);
    }
  }

  lemma AtMostReported(trace: seq<System>, steps: seq<Step>, id: string, kinds: seq<Kind>, typ: EventType)
    requires Exclusive(kinds) && RaceOf(trace, steps, id, kinds) && Final(typ)
    ensures Count(Log(trace[|steps|].store, id), typ) <= 1
    ensures Count(Log(trace[|steps|].store, id), typ) == 1 ==> exists k <- kinds :: Reports(k) == typ
  {
    RunReportsOnce(trace, steps, |steps|, id, typ);
    ReportedByFinishers(trace[|steps|].threads, id, typ);
    AtMostOneReporter(kinds, typ);
  }

  /** With two that end the run, all of them look. */
  lemma TwoAreGuarded(kinds: seq<Kind>, j: Kind, k: Kind)
    requires Exclusive(kinds) && j in kinds && k in kinds && j != k && !j.Start? && !k.Start?
    ensures AllGuarded(kinds)
  {
    forall u | u in kinds ensures Guarded(u) {
      if !u.Start? {
        var other := if u == j then k else j;
        var a :| 0 <= a < |kinds| && kinds[a] == u;
        var b :| 0 <= b < |kinds| && kinds[b] == other;
        assert if a < b then Guarded(kinds[a]) else Guarded(kinds[b]);
      }
    }
  }

  /** However these finishers race, the log holds at most one closing event: this holds if and only if any two of
      them that end the run have different targets and both look before they report. */
  lemma OnceExactly(id: string, kinds: seq<Kind>)
    ensures AlwaysOnce(id, kinds) <==> Exclusive(kinds)
  {
    if Exclusive(kinds) {
      forall trace: seq<System>, steps: seq<Step> | RaceOf(trace, steps, id, kinds)
        ensures Closings(Log(trace[|steps|].store, id)) <= 1
      {
        OneEnding(trace, steps, id, kinds, RunCompleted, RunFailed);
        OneEnding(trace, steps, id, kinds, RunCompleted, RunCancelled);
        OneEnding(trace, steps, id, kinds, RunFailed, RunCancelled);
      }
    } else {
      var i: nat, j: nat :| i < j < |kinds| && !kinds[i].Start? && !kinds[j].Start? &&
                            (Target(kinds[i]) == Target(kinds[j]) || !Guarded(kinds[i]) || !Guarded(kinds[j]));
      var (a, b) := if Guarded(kinds[j]) && Target(kinds[i]) != Target(kinds[j]) then (j, i) else (i, j);
      var trace, steps, s := BothReport(id, kinds, a, b);
      TwoClosings(Log(s.store, id));
    }
  }

  lemma TwoClosings(log: seq<Event>)
    requires |log| == 2 && Final(log[0].typ) && Final(log[1].typ)
    ensures Closings(log) == 2
  {
    assert log == [log[0]] + [log[1]];
    forall typ ensures Count(log, typ) == (if log[0].typ == typ then 1 else 0) + (if log[1].typ == typ then 1 else 0) {
      CountConcat([log[0]], [log[1]], typ);
      CountOne(log[0], typ);
      CountOne(log[1], typ);
    }
  }
}
