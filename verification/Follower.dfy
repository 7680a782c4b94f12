/** Followers of a run's event log: each poll writes what lies after the cursor and moves the cursor on. */
module Follower {
  import opened Strings
  import opened RunStore
  import Finishers
  import FinisherRaces

  datatype Cursor = Cursor(sequence: nat, id: string)

  const START := Cursor(0, "")

  predicate After(e: Event, c: Cursor) {
    if e.sequence != c.sequence then e.sequence > c.sequence else c.id == "" || Less(c.id, e.id)
  }

  function Pending(events: seq<Event>, c: Cursor): seq<Event> {
    if events == [] then []
    else
      var last := events[|events| - 1];
      Pending(events[..|events| - 1], c) + (if After(last, c) then [last] else [])
  }

  /** The connection: it takes events until it breaks. */
  class Connection {
    var written: seq<Event>
    var room: nat

    constructor (room: nat)
      ensures written == [] && this.room == room
    {
      written, this.room := [], room;
    }

    method Write(e: Event) returns (ok: bool)
      modifies this
      ensures ok <==> old(room) > 0
      ensures written == old(written) + (if ok then [e] else []) && room == old(room) - (if ok then 1 else 0)
    {
      ok := room > 0;
      if ok {
        written, room := written + [e], room - 1;
      }
    }
  }

  /* ---------- logs as the store numbers them ---------- */

  predicate Numbered(log: seq<Event>) {
    forall i :: 0 <= i < |log| ==> log[i].sequence == i + 1 && log[i].id != ""
  }

  /** The cursor of a follower that has seen the first `n` events. */
  function At(log: seq<Event>, n: nat): Cursor
    requires n <= |log|
  {
    if n == 0 then START else Cursor(n, log[n - 1].id)
  }

  lemma AfterInNumbered(log: seq<Event>, n: nat, i: nat)
    requires Numbered(log) && n <= |log| && i < |log|
    ensures After(log[i], At(log, n)) <==> n <= i
  {
    LessIsIrreflexive(log[i].id);
  }

  lemma OneMorePending(log: seq<Event>, k: nat, c: Cursor)
    requires k < |log|
    ensures Pending(log[..k + 1], c) == Pending(log[..k], c) + if After(log[k], c) then [log[k]] else []
  {
    assert log[..k + 1][..k] == log[..k];
  }

  lemma OneMore(log: seq<Event>, n: nat, k: nat)
    requires n <= k < |log|
    ensures log[n..k + 1] == log[n..k] + [log[k]]
  {
  }

  lemma {:induction false} PendingInNumbered(log: seq<Event>, n: nat, m: nat)
    requires Numbered(log) && n <= |log| && m <= |log|
    ensures Pending(log[..m], At(log, n)) == if n <= m then log[n..m] else []
    decreases m
  {
    if m > 0 {
      var k: nat := m - 1;
      assert k + 1 == m;
      PendingInNumbered(log, n, k);
      AfterInNumbered(log, n, k);
      OneMorePending(log, k, At(log, n));
      if n <= k {
        OneMore(log, n, k);
      }
    }
  }

  function CursorOf(e: Event): Cursor {
    Cursor(e.sequence, e.id)
  }

  predicate Named(events: seq<Event>) {
    forall e <- events :: e.id != ""
  }

  /** The cursor has moved past all of these. */
  predicate Passed(events: seq<Event>, c: Cursor) {
    forall e <- events :: !After(e, c)
  }

  lemma PassedMovesOn(events: seq<Event>, c: Cursor, next: Event)
    requires Passed(events, c) && After(next, c) && next.id != ""
    ensures Passed(events + [next], CursorOf(next))
  {
    LessIsIrreflexive(next.id);
    forall e | e in events ensures !After(e, CursorOf(next)) {
      if e.sequence == next.sequence == c.sequence && c.id != "" && Less(next.id, e.id) {
        LessIsTransitive(c.id, next.id, e.id);
      }
    }
  }

  /** The cursor stays or stands at an event that was written. */
  ghost predicate StandsAt(c: Cursor, written: seq<Event>, after: Cursor) {
    c == after || exists e <- written :: c == CursorOf(e)
  }

  /** Written is what was pending of the events read. The cursor ends at one of them, if there are any, and past all. */
  method WriteServerSentEvents(w: Connection, events: seq<Event>, after: Cursor)
    returns (cursor: Cursor, ok: bool, ghost read: nat)
    modifies w
    ensures read <= |events| && (ok ==> read == |events|)
    ensures w.written == old(w.written) + Pending(events[..read], after)
    ensures StandsAt(cursor, Pending(events[..read], after), after)
    ensures Named(events) ==> Passed(Pending(events[..read], after), cursor)
    ensures forall n: nat :: ok && Numbered(events) && n <= |events| && after == At(events, n) ==>
        cursor == At(events, |events|)
  {
    cursor, ok := after, true;
    read := 0;
    for i := 0 to |events|
      invariant read == i && ok
      invariant w.written == old(w.written) + Pending(events[..i], after)
      invariant StandsAt(cursor, Pending(events[..i], after), after)
      invariant Named(events) ==> Passed(Pending(events[..i], after), cursor)
      invariant forall n: nat :: Numbered(events) && n <= |events| && after == At(events, n) ==>
                  cursor == At(events, if n <= i then i else n)
    {
      var event := events[i];
      assert events[..i + 1][..i] == events[..i];
      forall n: nat | Numbered(events) && n <= |events| && after == At(events, n)
        ensures After(event, after) <==> n <= i
        ensures n <= i ==> After(event, cursor)
      {
        AfterInNumbered(events, n, i);
        AfterInNumbered(events, if n <= i then i else n, i);
      }
      if !After(event, after) {
        read := i + 1;
        continue;
      }
      ok := w.Write(event);
      if !ok {
        return;
      }
      read := i + 1;
      ghost var before := Pending(events[..i], after);
      assert Pending(events[..i + 1], after) == before + [event];
      if After(event, cursor) {
        if Named(events) {
          PassedMovesOn(before, cursor, event);
        }
        cursor := Cursor(event.sequence, event.id);
        assert event in before + [event];
      }
    }
  }

  /** Each poll reads a log that has grown since the last. */
  predicate Growing(polls: seq<seq<Event>>) {
    forall i, j :: 0 <= i <= j < |polls| ==> polls[i] <= polls[j]
  }

  /** One poll of a follower that has received the first `|w.written|` events of the log. */
  method Poll(w: Connection, events: seq<Event>, after: Cursor) returns (cursor: Cursor, ok: bool)
    requires Numbered(events) && w.written <= events && after == At(events, |w.written|)
    modifies w
    ensures w.written <= events
    ensures ok ==> w.written == events && cursor == At(events, |events|)
  {
    ghost var (n, before) := (|w.written|, w.written);
    ghost var read;
    cursor, ok, read := WriteServerSentEvents(w, events, after);
    PendingInNumbered(events, n, read);
    assert before == events[..n];
    assert n <= read ==> events[..n] + events[n..read] == events[..read];
  }

  /** Exactly once, in order: over any number of polls of a growing, numbered log the connection receives the last
      polled log, without gap or repetition; if it breaks, a prefix of what was polled. */
  method Follow(w: Connection, polls: seq<seq<Event>>) returns (ok: bool)
    requires polls != [] && Growing(polls) && forall i :: 0 <= i < |polls| ==> Numbered(polls[i])
    requires w.written == []
    modifies w
    ensures w.written <= polls[|polls| - 1]
    ensures ok ==> w.written == polls[|polls| - 1]
  {
    var cursor := START;
    ok := true;
    for i := 0 to |polls|
      invariant ok
      invariant w.written == if i == 0 then [] else polls[i - 1]
      invariant if i == 0 then cursor == START else cursor == At(polls[i - 1], |polls[i - 1]|)
    {
      assert i > 0 ==> polls[i - 1] <= polls[i];
      assert polls[i] <= polls[|polls| - 1];
      cursor, ok := Poll(w, polls[i], cursor);
      if !ok {
        return;
      }
    }
  }

  /* ---------- over the runs of the store ---------- */

  predicate FreshEventIds(steps: seq<Finishers.Step>) {
    forall i :: 0 <= i < |steps| ==>
      (steps[i].Advance? ==> steps[i].eventId != "") && (steps[i].AppendOther? ==> steps[i].eventId != "")
  }

  /** From moment `i` to moment `n` retention takes nothing out of the log of this run, or it takes the whole run. */
  predicate LogKept(trace: seq<Finishers.System>, steps: seq<Finishers.Step>, id: string, i: nat, n: nat)
    requires |trace| == |steps| + 1 && n <= |steps|
  {
    forall k :: i <= k < n && steps[k].Retain? && id in trace[k + 1].store.runs ==>
      Log(trace[k + 1].store, id) == Log(trace[k].store, id)
  }

  predicate Shaped(s: Finishers.System) {
    s.store.events.Keys <= s.store.runs.Keys <= s.used
  }

  lemma {:induction false} RunIsShaped(trace: seq<Finishers.System>, steps: seq<Finishers.Step>, n: nat)
    requires Finishers.Run(trace, steps) && n <= |steps|
    ensures Shaped(trace[n])
  {
    if n > 0 {
      RunIsShaped(trace, steps, n - 1);
      assert Finishers.Enabled(trace[n - 1], steps[n - 1]);
    }
  }

  /** What stands behind the first `from` events is numbered by its place. */
  predicate NumberedFrom(log: seq<Event>, from: nat) {
    forall i :: from <= i < |log| ==> log[i].sequence == i + 1 && log[i].id != ""
  }

  lemma AppendNumbers(s: Store, run: string, eventId: string, typ: EventType, ref: string, text: string, id: string)
    requires eventId != ""
    ensures var (before, after) := (Log(s, id), Log(Appended(s, run, eventId, typ, ref, text), id));
            before <= after && NumberedFrom(after, |before|)
  {
  }

  lemma StepNumbers(s: Finishers.System, step: Finishers.Step, id: string)
    requires Shaped(s) && Finishers.Enabled(s, step) && FreshEventIds([step])
    requires id in Finishers.Next(s, step).store.runs
    requires step.Retain? ==> Log(Finishers.Next(s, step).store, id) == Log(s.store, id)
    ensures var (before, after) := (Log(s.store, id), Log(Finishers.Next(s, step).store, id));
            before <= after && NumberedFrom(after, |before|)
  {
    assert [step][0] == step;
    match step
    case Advance(tid, _, eventId, _, typ, ref) =>
      var t := s.threads[tid];
      AppendNumbers(s.store, t.run, eventId, typ, ref, Finishers.Text(t.kind), id);
      AppendNumbers(s.store, t.run, eventId, Finishers.Reports(t.kind), "", Finishers.Text(t.kind), id);
    case AppendOther(run, eventId, typ, ref) => AppendNumbers(s.store, run, eventId, typ, ref, "", id);
    case _ =>
  }

  /** Whatever a log was, it grows at its end only, and what is new is numbered by its place. */
  lemma {:induction false} LogsGrow(trace: seq<Finishers.System>, steps: seq<Finishers.Step>, i: nat, n: nat,
      id: string)
    requires Finishers.Run(trace, steps) && FreshEventIds(steps) && i <= n <= |steps|
    requires LogKept(trace, steps, id, i, n) && id in trace[n].store.runs
    ensures Log(trace[i].store, id) <= Log(trace[n].store, id)
    ensures NumberedFrom(Log(trace[n].store, id), |Log(trace[i].store, id)|)
    decreases n
  {
    if i < n {
      var m: nat := n - 1;
      assert m + 1 == n;
      RunIsShaped(trace, steps, m);
      RunIsShaped(trace, steps, i);
      StepNumbers(trace[m], steps[m], id);
      if id in trace[m].store.runs {
        LogsGrow(trace, steps, i, m, id);
      } else if id in trace[i].store.runs {
        Finishers.KnownBetween(trace, steps, i, m, n, id);
      }
    }
  }

  lemma LogsStayNumbered(trace: seq<Finishers.System>, steps: seq<Finishers.Step>, n: nat, id: string)
    requires Finishers.Run(trace, steps) && FreshEventIds(steps) && n <= |steps| && LogKept(trace, steps, id, 0, n)
    ensures Numbered(Log(trace[n].store, id))
  {
    RunIsShaped(trace, steps, n);
    if id in trace[n].store.runs {
      LogsGrow(trace, steps, 0, n, id);
    }
  }

  /** The logs that a follower of one run reads at the moments `times` of a run of the whole system are growing and
      numbered, so `Follow` delivers them exactly once, as long as retention leaves the log of this run alone. */
  lemma PollsAreFollowable(trace: seq<Finishers.System>, steps: seq<Finishers.Step>, times: seq<nat>, n: nat,
      id: string)
    requires Finishers.Run(trace, steps) && FreshEventIds(steps) && n <= |steps| && LogKept(trace, steps, id, 0, n)
    requires forall i :: 0 <= i < |times| ==> times[i] <= n && id in trace[times[i]].store.runs
    requires forall i, j :: 0 <= i <= j < |times| ==> times[i] <= times[j]
    ensures var polls := seq(|times|, i requires 0 <= i < |times| => Log(trace[times[i]].store, id));
            Growing(polls) && forall i :: 0 <= i < |polls| ==> Numbered(polls[i])
  {
    forall i, j | 0 <= i <= j < |times|
      ensures Log(trace[times[i]].store, id) <= Log(trace[times[j]].store, id)
    {
      LogsGrow(trace, steps, times[i], times[j], id);
    }
    forall i | 0 <= i < |times| ensures Numbered(Log(trace[times[i]].store, id)) {
      LogsStayNumbered(trace, steps, times[i], id);
    }
  }
}
