/** The in-memory agent store: sessions, runs, and an append-only event log per run. */
module RunStore {
  import opened Wrappers

  datatype Status = Queued | Running | Completed | Failed | Cancelled

  predicate Terminal(status: Status) {
    status == Completed || status == Failed || status == Cancelled
  }

  /** The three metadata entries the store's readers look at; "" stands for an absent or unreadable entry. */
  datatype Metadata = Metadata(retryOf: string, retryRoot: string, parent: string)

  datatype Run = Run(id: string, sessionId: string, status: Status, createdAt: int,
                     startedAt: Option<int>, completedAt: Option<int>, error: string, metadata: Metadata)

  datatype EventType =
    RunCreated | RunStarted | RunCompleted | RunFailed | RunCancelled | ErrorEvent | Artifact | Citation | Message

  /** `ref` is the artifact id of an artifact or citation event ("" when its data does not decode to one);
      `text` is the error message a failure event carries. */
  datatype Event = Event(id: string, sequence: nat, typ: EventType, ref: string, text: string)

  /** What the store keeps, as a value. A run without events has no entry in `events`. */
  datatype Store = Store(sessions: set<string>, runs: map<string, Run>, events: map<string, seq<Event>>)

  function Log(s: Store, runId: string): seq<Event> {
    if runId in s.events then s.events[runId] else []
  }

  /* ---------- the operations as functions of the store ---------- */

  function Created(s: Store, id: string, sessionId: string, metadata: Metadata, now: int): Store {
    s.(runs := s.runs[id := Run(id, sessionId, Queued, now, None, None, "", metadata)])
  }

  /** A terminal run is never written again; otherwise the status and message are replaced, and the two times are
      set once. */
  function Updated(run: Run, status: Status, message: string, now: int): Run {
    if Terminal(run.status) then run
    else run.(status := status, error := message,
              startedAt := if status == Running && run.startedAt.None? then Some(now) else run.startedAt,
              completedAt := if Terminal(status) && run.completedAt.None? then Some(now) else run.completedAt)
  }

  function WithStatus(s: Store, id: string, status: Status, message: string, now: int): Store {
    if id in s.runs then s.(runs := s.runs[id := Updated(s.runs[id], status, message, now)]) else s
  }

  function NextEvent(s: Store, runId: string, eventId: string, typ: EventType, ref: string, text: string): Event {
    Event(eventId, |Log(s, runId)| + 1, typ, ref, text)
  }

  function Appended(s: Store, runId: string, eventId: string, typ: EventType, ref: string, text: string): Store {
    if runId in s.runs
    then s.(events := s.events[runId := Log(s, runId) + [NextEvent(s, runId, eventId, typ, ref, text)]])
    else s
  }

  function SessionRuns(s: Store, sessionId: string): set<string> {
    set id <- s.runs | s.runs[id].sessionId == sessionId
  }

  function WithoutSession(s: Store, sessionId: string): Store {
    if sessionId in s.sessions
    then Store(s.sessions - {sessionId}, s.runs - SessionRuns(s, sessionId), s.events - SessionRuns(s, sessionId))
    else s
  }

  /* ---------- the store itself ---------- */

  class MemoryStore {
    var sessions: set<string>
    var runs: map<string, Run>
    var events: map<string, seq<Event>>

    ghost function State(): Store
      reads this
    {
      Store(sessions, runs, events)
    }

    constructor ()
      ensures State() == Store({}, map[], map[])
    {
      sessions, runs, events := {}, map[], map[];
    }

    /** Identifiers are random in the source; `id` is the one drawn. */
    method CreateRun(id: string, sessionId: string, metadata: Metadata, now: int) returns (run: Option<Run>)
      modifies this
      ensures run.Some? <==> sessionId in old(sessions)
      ensures State() == if run.Some? then Created(old(State()), id, sessionId, metadata, now) else old(State())
      ensures run.Some? ==> run.value == runs[id]
    {
      if sessionId !in sessions {
        return None;
      }
      var created := Run(id, sessionId, Queued, now, None, None, "", metadata);
      runs := runs[id := created];
      run := Some(created);
    }

    method UpdateRunStatus(id: string, status: Status, message: string, now: int) returns (run: Option<Run>)
      modifies this
      ensures State() == WithStatus(old(State()), id, status, message, now)
      ensures run == if id in runs then Some(runs[id]) else None
    {
      if id !in runs {
        return None;
      }
      var r := runs[id];
      if Terminal(r.status) {
        assert runs[id := r] == runs;
        return Some(r);
      }
      r := r.(status := status, error := message);
      if status == Running && r.startedAt.None? {
        r := r.(startedAt := Some(now));
      }
      if Terminal(status) && r.completedAt.None? {
        r := r.(completedAt := Some(now));
      }
      runs := runs[id := r];
      run := Some(r);
    }

    method AppendRunEvent(runId: string, eventId: string, typ: EventType, ref: string, text: string)
      returns (event: Option<Event>)
      modifies this
      ensures State() == Appended(old(State()), runId, eventId, typ, ref, text)
      ensures event ==
              if runId in old(runs) then Some(NextEvent(old(State()), runId, eventId, typ, ref, text)) else None
    {
      if runId !in runs {
        return None;
      }
      var log := if runId in events then events[runId] else [];
      var e := Event(eventId, |log| + 1, typ, ref, text);
      events := events[runId := log + [e]];
      event := Some(e);
    }

    method DeleteSession(sessionId: string) returns (found: bool)
      modifies this
      ensures found <==> sessionId in old(sessions)
      ensures State() == WithoutSession(old(State()), sessionId)
    {
      if sessionId !in sessions {
        return false;
      }
      sessions := sessions - {sessionId};
      var unseen := runs.Keys;
      ghost var all, logs := runs, events;
      while unseen != {}
        invariant unseen <= all.Keys
        invariant runs == Left(all, all, unseen, sessionId) && events == Left(all, logs, unseen, sessionId)
        invariant sessions == old(sessions) - {sessionId}
        decreases unseen
      {
        var id :| id in unseen;
        OneLess(all, all, unseen, sessionId, id);
        OneLess(all, logs, unseen, sessionId, id);
        unseen := unseen - {id};
        if runs[id].sessionId == sessionId {
          runs := runs - {id};
          events := events - {id};
        }
      }
      AllSeen(all, all, sessionId);
      AllSeen(all, logs, sessionId);
      return true;
    }
  }

  /** What is left of the entries of all runs while those of the session go, but for the ones not looked at yet. */
  function Left<T>(all: map<string, Run>, entries: map<string, T>, unseen: set<string>, sessionId: string)
    : map<string, T>
  {
    map id <- entries | id !in all || id in unseen || all[id].sessionId != sessionId :: entries[id]
  }

  lemma OneLess<T>(all: map<string, Run>, entries: map<string, T>, unseen: set<string>, sessionId: string, id: string)
    requires id in unseen && id in all
    ensures Left(all, entries, unseen - {id}, sessionId) ==
            var left := Left(all, entries, unseen, sessionId);
            if all[id].sessionId == sessionId then left - {id} else left
  {
  }

  lemma AllSeen<T>(all: map<string, Run>, entries: map<string, T>, sessionId: string)
    ensures Left(all, entries, {}, sessionId) == entries - (set id <- all | all[id].sessionId == sessionId)
  {
  }
}
