/** The list and stream calls of a worker, one at a time: how they answer errors, what an expired version leads to, and
    that their summaries count what happened. Everything is said about runs of `CollectorRuns`, by their steps. */
module CollectorCalls {
  import opened Ingest
  import opened Cluster
  import opened Collector
  import opened CollectorRuns
  import opened Wrappers

  predicate InCall(s: State) {
    s.control.Listing? || s.control.Streaming?
  }

  /** What a list gives, and what a delivered event gives, in the call under way. */
  function ListGives(cfg: Config, s: State, step: Step): StepResult
    requires step.List? && InCall(s)
  {
    ListResource(step.p, cfg.scope.namespace, s.control.cur, step.version, step.items, step.previous)
  }

  function EventGives(s: State, step: Step): StepResult
    requires step.Deliver? && s.control.Streaming? && step.index < |s.log| && s.log[step.index].Event?
  {
    var e := s.log[step.index];
    WatchEvent(step.p, s.control.cur, Message(e.typ, e.ref, step.index + 1))
  }

  /** An error of a list call, or of a stream while it is followed. */
  ghost predicate Errs(cfg: Config, s: State, step: Step)
    requires Enabled(cfg, s, step)
  {
    match step
    case ListUnavailable(_) => s.control.Listing?
    case List(_, _, _, _, offsetFails, _) => s.control.Listing? && (!ListGives(cfg, s, step).ok || offsetFails)
    case Deliver(_, _, offsetFails, _) => !EventGives(s, step).ok || offsetFails
    case StreamFails(_) => true
    case _ => false
  }

  /** The list that a stream call makes itself does not succeed. */
  ghost predicate OwnListFails(cfg: Config, s: State, step: Step)
    requires Enabled(cfg, s, step)
  {
    s.control.Streaming? &&
    (step.ListUnavailable? || (step.List? && (!ListGives(cfg, s, step).ok || step.offsetFails)))
  }

  function KindOf(step: Step): ErrorKind {
    match step
    case List(_, _, _, _, _, kind) => kind
    case ListUnavailable(kind) => kind
    case Deliver(_, _, _, kind) => kind
    case StreamFails(kind) => kind
    case _ => Other
  }

  /* ---------- counting ---------- */

  /** What has happened in a call: errors, those of an expired version, those that are neither expired nor transient,
      events taken in, deletions among them, bookmarks, and objects listed. */
  datatype Tally = Tally(errors: nat, expired: nat, others: nat, events: nat, removed: nat, bookmarks: nat, listed: nat)

  function Bit(b: bool): nat {
    if b then 1 else 0
  }

  ghost function Counted(cfg: Config, s: State, step: Step, t: Tally): Tally
    requires Enabled(cfg, s, step)
  {
    var errs := Errs(cfg, s, step);
    var taken := step.Deliver? && EventGives(s, step).ok;
    Tally(t.errors + Bit(errs), t.expired + Bit(errs && KindOf(step) == Expired),
          t.others + Bit(errs && KindOf(step) == Other), t.events + Bit(taken),
          t.removed + Bit(taken && s.log[step.index].typ == Deleted), t.bookmarks + Bit(step.Bookmark?),
          t.listed + if step.List? then |step.items| else 0)
  }

  /** What has happened before moment `n` in the call that is under way then. */
  ghost function TallyOf(cfg: Config, trace: seq<State>, steps: seq<Step>, n: nat): Tally
    requires Run(cfg, trace, steps) && n <= |steps|
  {
    if n == 0 || !InCall(trace[n - 1]) then Tally(0, 0, 0, 0, 0, 0, 0)
    else Counted(cfg, trace[n - 1], steps[n - 1], TallyOf(cfg, trace, steps, n - 1))
  }

  /** The summary of the call says what has happened in it, and its number of attempts is that of its errors. */
  predicate Tells(s: State, t: Tally) {
    InCall(s) ==>
      var cur := s.control.cur;
      && s.control.attempts == t.errors
      && cur.relists == t.expired && cur.retries + t.expired == t.errors
      && cur.watchErrors == (if s.control.Listing? then t.errors else t.others)
      && cur.events == t.events && cur.deleted == cur.reconciledDeleted + t.removed
      && cur.bookmarks == t.bookmarks && cur.listed == t.listed
  }

  lemma ListTells(p: Pipeline, namespace: string, s: WatchSummary, version: nat, items: seq<Ref>, previous: seq<Ref>)
    ensures var r := ListResource(p, namespace, s, version, items, previous).summary;
            && r.relists == s.relists && r.retries == s.retries && r.watchErrors == s.watchErrors
            && r.events == s.events && r.bookmarks == s.bookmarks && r.listed == s.listed + |items|
            && r.deleted - r.reconciledDeleted == s.deleted - s.reconciledDeleted
            && r.resourceVersion == Some(version)
  {
  }

  lemma EventTells(p: Pipeline, s: WatchSummary, m: Message)
    ensures var r := WatchEvent(p, s, m);
            && r.summary.relists == s.relists && r.summary.retries == s.retries
            && r.summary.watchErrors == s.watchErrors
            && r.summary.events == s.events + Bit(r.ok) && r.summary.bookmarks == s.bookmarks
            && r.summary.listed == s.listed && r.summary.reconciledDeleted == s.reconciledDeleted
            && r.summary.deleted == s.deleted + Bit(r.ok && m.typ == Deleted)
            && r.summary.resourceVersion == Some(m.resourceVersion)
  {
  }

  lemma ListedTells(cfg: Config, s: State, step: Step, t: Tally)
    requires step.List? && Enabled(cfg, s, step) && Tells(s, t)
    ensures Tells(Listed(cfg, s, step), Counted(cfg, s, step, t))
  {
    ListTells(step.p, cfg.scope.namespace, s.control.cur, step.version, step.items, step.previous);
  }

  lemma DeliveredTells(cfg: Config, s: State, step: Step, t: Tally)
    requires step.Deliver? && Enabled(cfg, s, step) && Tells(s, t)
    ensures Tells(Delivered(cfg, s, step), Counted(cfg, s, step, t))
  {
    var e := s.log[step.index];
    EventTells(step.p, s.control.cur, Message(e.typ, e.ref, step.index + 1));
  }

  lemma StepTells(cfg: Config, s: State, step: Step, t: Tally)
    requires Enabled(cfg, s, step) && InCall(s) && Tells(s, t)
    ensures Tells(Next(cfg, s, step), Counted(cfg, s, step, t))
  {
    match step
    case List(_, _, _, _, _, _) => ListedTells(cfg, s, step, t);
    case Deliver(_, _, _, _) => DeliveredTells(cfg, s, step, t);
    case _ =>
  }

  /** In every reachable state the summary of the call under way tells what has happened in it. */
  lemma {:induction false} CallsTell(cfg: Config, trace: seq<State>, steps: seq<Step>, n: nat)
    requires Run(cfg, trace, steps) && n <= |steps|
    ensures Tells(trace[n], TallyOf(cfg, trace, steps, n))
  {
    if n > 0 {
      CallsTell(cfg, trace, steps, n - 1);
      if InCall(trace[n - 1]) {
        StepTells(cfg, trace[n - 1], steps[n - 1], TallyOf(cfg, trace, steps, n - 1));
      }
    }
  }

  /* ---------- how calls end ---------- */

  /** Whether a call of this configuration has had too many errors. */
  predicate TooMany(cfg: Config, errors: nat) {
    0 <= cfg.maxRetries < errors
  }

  /** An error ends the call exactly if the errors of the call, this one included, are more than the configuration
      allows; and an error that does not end it leaves a call of the same kind going on. */
  lemma ErrorsEndCalls(cfg: Config, trace: seq<State>, steps: seq<Step>, i: nat)
    requires Run(cfg, trace, steps) && i < |steps| && Errs(cfg, trace[i], steps[i])
    ensures !InCall(trace[i + 1]) <==> TooMany(cfg, TallyOf(cfg, trace, steps, i).errors + 1)
    ensures InCall(trace[i + 1]) ==> trace[i + 1].control.Streaming? == trace[i].control.Streaming?
    ensures !InCall(trace[i + 1]) ==>
            trace[i + 1].control == if trace[i].control.Listing? && !trace[i].control.initial then Queued else Done
  {
    CallsTell(cfg, trace, steps, i);
  }

  /** Without such an error a call ends only when its list has succeeded, when the stream's own list has failed, when
      the stream ends or is broken off, or when the context is cancelled. */
  lemma CallsEndOtherwise(cfg: Config, trace: seq<State>, steps: seq<Step>, i: nat)
    requires Run(cfg, trace, steps) && i < |steps| && InCall(trace[i]) && !Errs(cfg, trace[i], steps[i])
    ensures !InCall(trace[i + 1]) <==>
            || (trace[i].control.Listing? && steps[i].List?) || OwnListFails(cfg, trace[i], steps[i])
            || steps[i].StreamEnds? || steps[i].StreamAborts? || steps[i].Cancelled?
    ensures !InCall(trace[i + 1]) ==>
            trace[i + 1].control ==
              if trace[i].control.Listing? && (steps[i].List? || !trace[i].control.initial) then Queued
              else if steps[i].StreamEnds? && cfg.rotation then Queued
              else Done
  {
  }

  /** In the queue a worker stays until it relists, gets its slot, or is cancelled; one that is done stays so. */
  lemma QueueAndDone(cfg: Config, trace: seq<State>, steps: seq<Step>, i: nat)
    requires Run(cfg, trace, steps) && i < |steps| && !InCall(trace[i])
    ensures trace[i].control == Done ==> trace[i + 1].control == Done
    ensures trace[i].control == Queued ==>
            trace[i + 1].control == Queued || (steps[i].Cancelled? && trace[i + 1].control == Done) ||
              (steps[i].StartRelist? && trace[i + 1].control.Listing?) ||
              (steps[i].Grant? && trace[i + 1].control.Streaming?)
    ensures trace[i + 1].worker == trace[i].worker
  {
  }

  /* ---------- expiry ---------- */

  /** A stream call goes on from moment `i` to moment `j`. */
  predicate StreamGoesOn(trace: seq<State>, i: nat, j: nat) {
    j < |trace| && forall k :: i <= k <= j ==> trace[k].control.Streaming?
  }

  lemma {:induction false} NeedsListStays(cfg: Config, trace: seq<State>, steps: seq<Step>, i: nat, j: nat)
    requires Run(cfg, trace, steps) && i <= j <= |steps| && StreamGoesOn(trace, i, j)
    requires trace[i].control.needsList && forall k :: i <= k < j ==> !steps[k].List?
    ensures trace[j].control.needsList
    decreases j
  {
    if i < j {
      var m: nat := j - 1;
      assert m + 1 == j;
      NeedsListStays(cfg, trace, steps, i, m);
      assert Enabled(cfg, trace[m], steps[m]) && trace[j] == Next(cfg, trace[m], steps[m]);
    }
  }

  /** After an expiry that does not end the call the stream delivers nothing, event or bookmark, before it has
      listed. */
  lemma ExpiryRelists(cfg: Config, trace: seq<State>, steps: seq<Step>, i: nat, j: nat)
    requires Run(cfg, trace, steps) && i < j < |steps| && StreamGoesOn(trace, i, j)
    requires Errs(cfg, trace[i], steps[i]) && KindOf(steps[i]) == Expired
    requires steps[j].Deliver? || steps[j].Bookmark?
    ensures exists k :: i < k < j && steps[k].List?
  {
    assert Enabled(cfg, trace[j], steps[j]);
    if forall k :: i < k < j ==> !steps[k].List? {
      assert Enabled(cfg, trace[i], steps[i]) && trace[i + 1] == Next(cfg, trace[i], steps[i]);
      assert trace[i + 1].control.needsList;
      NeedsListStays(cfg, trace, steps, i + 1, j);
    }
  }

  /** A list that a stream makes and that succeeds is all it needs: it goes on from the version listed. */
  lemma OwnListServes(cfg: Config, trace: seq<State>, steps: seq<Step>, i: nat)
    requires Run(cfg, trace, steps) && i < |steps| && trace[i].control.Streaming?
    requires steps[i].List? && !OwnListFails(cfg, trace[i], steps[i])
    ensures trace[i + 1].control.Streaming? && !trace[i + 1].control.needsList
    ensures trace[i + 1].control.cur.resourceVersion == Some(steps[i].version)
  {
  }

  /** After any other error the stream goes on where it stood: at the version it had, or at that of the event whose
      ingest failed, and with a list only if it needed one before. */
  lemma OthersReconnect(cfg: Config, trace: seq<State>, steps: seq<Step>, i: nat)
    requires Run(cfg, trace, steps) && i < |steps| && Errs(cfg, trace[i], steps[i]) && KindOf(steps[i]) != Expired
    requires trace[i].control.Streaming? && trace[i + 1].control.Streaming?
    ensures trace[i + 1].control.needsList == trace[i].control.needsList
    ensures trace[i + 1].control.cur.resourceVersion ==
            if steps[i].Deliver? then Some(steps[i].index + 1) else trace[i].control.cur.resourceVersion
  {
  }

  /** A list that is asked for again is asked for without a version if the version had expired, and otherwise at the
      version that the call has recorded: that of the list which failed, if the server had given one. */
  lemma ListsAskAgain(cfg: Config, trace: seq<State>, steps: seq<Step>, i: nat)
    requires Run(cfg, trace, steps) && i < |steps| && Errs(cfg, trace[i], steps[i])
    requires trace[i].control.Listing? && trace[i + 1].control.Listing?
    ensures trace[i + 1].control.cur.resourceVersion ==
            if steps[i].List? then Some(steps[i].version) else trace[i].control.cur.resourceVersion
    ensures trace[i + 1].control.request ==
            if KindOf(steps[i]) == Expired then None else trace[i + 1].control.cur.resourceVersion
  {
  }

  /** A relist, and the list of a stream that has nothing to start from or has expired, start without a version; a
      stream starts at the version of its worker. */
  lemma CallsStart(cfg: Config, trace: seq<State>, steps: seq<Step>, i: nat)
    requires Run(cfg, trace, steps) && i < |steps| && !InCall(trace[i]) && InCall(trace[i + 1])
    ensures trace[i + 1].control.Listing? ==> trace[i + 1].control.request.None?
    ensures trace[i + 1].control.Streaming? ==>
            && trace[i + 1].control.cur.resourceVersion == trace[i].worker.resourceVersion
            && (trace[i + 1].control.needsList <==> trace[i].worker.resourceVersion.None?)
  {
  }

  /* ---------- no call is ever stuck ---------- */

  lemma {:induction false} Enumerable(refs: set<Ref>) returns (items: seq<Ref>)
    ensures Enumerates(items, refs)
  {
    if refs == {} {
      items := [];
    } else {
      var r :| r in refs;
      var rest := Enumerable(refs - {r});
      items := [r] + rest;
    }
  }

  /** The first entry from `start` on that a stream would be sent, or the end of the log. */
  lemma {:induction false} FirstVisible(scope: Scope, log: seq<Entry>, start: nat) returns (i: nat)
    requires start <= |log|
    ensures start <= i <= |log| && Quiet(scope, log, start, i)
    ensures i < |log| ==> log[i].Event? && Visible(scope, log[i].ref)
    decreases |log| - start
  {
    if start == |log| || (log[start].Event? && Visible(scope, log[start].ref)) {
      i := start;
    } else {
      i := FirstVisible(scope, log, start + 1);
    }
  }

  /** No version that a worker holds or asks for is ahead of the cluster, and a stream that does not need a list has
      one. */
  predicate InReach(s: State) {
    && Bounded(s.worker.resourceVersion, s.log)
    && (InCall(s) ==> Bounded(s.control.cur.resourceVersion, s.log))
    && (s.control.Listing? ==> Bounded(s.control.request, s.log))
    && (s.control.Streaming? && !s.control.needsList ==> s.control.cur.resourceVersion.Some?)
  }

  lemma ListInReach(cfg: Config, s: State, step: Step, r: StepResult)
    requires step.List? && InCall(s) && InReach(s) && step.version <= |s.log|
    requires r.summary.resourceVersion == Some(step.version)
    ensures InReach(AfterList(cfg, s, step, r))
  {
  }

  lemma DeliveryInReach(cfg: Config, s: State, step: Step, r: StepResult)
    requires step.Deliver? && s.control.Streaming? && InReach(s) && step.index < |s.log| && s.log[step.index].Event?
    requires r.summary.resourceVersion == Some(step.index + 1)
    ensures InReach(AfterDelivery(cfg, s, step, r))
  {
  }

  lemma StepInReach(cfg: Config, s: State, step: Step)
    requires Enabled(cfg, s, step) && InReach(s)
    ensures InReach(Next(cfg, s, step))
  {
    match step
    case List(version, items, previous, p, _, _) =>
      ListTells(p, cfg.scope.namespace, s.control.cur, version, items, previous);
      ListInReach(cfg, s, step, ListGives(cfg, s, step));
    case Deliver(i, p, _, _) =>
      EventTells(p, s.control.cur, Message(s.log[i].typ, s.log[i].ref, i + 1));
      DeliveryInReach(cfg, s, step, EventGives(s, step));
    case _ =>
  }

  lemma {:induction false} StaysInReach(cfg: Config, trace: seq<State>, steps: seq<Step>, n: nat)
    requires Run(cfg, trace, steps) && n <= |steps|
    ensures InReach(trace[n])
  {
    if n > 0 {
      StaysInReach(cfg, trace, steps, n - 1);
      StepInReach(cfg, trace[n - 1], steps[n - 1]);
    }
  }

  lemma ListIsPossible(cfg: Config, s: State, p: Pipeline, fails: bool, kind: ErrorKind)
    requires InReach(s) && (s.control.Listing? || (s.control.Streaming? && s.control.needsList))
    ensures exists items, previous :: Enabled(cfg, s, List(|s.log|, items, previous, p, fails, kind))
  {
    var items := Enumerable(VisibleRefs(cfg.scope, s.log));
    var previous := Enumerable(LatestResourceRefs(s.observations, cfg.scope.namespace));
    assert s.log[..|s.log|] == s.log;
    assert Enabled(cfg, s, List(|s.log|, items, previous, p, fails, kind));
  }

  lemma DeliveryIsPossible(cfg: Config, s: State, p: Pipeline, fails: bool, kind: ErrorKind)
    requires InReach(s) && s.control.Streaming? && !s.control.needsList
    ensures Enabled(cfg, s, Bookmark(|s.log|)) || exists i :: Enabled(cfg, s, Deliver(i, p, fails, kind))
  {
    var i := FirstVisible(cfg.scope, s.log, Version(s));
    assert i < |s.log| ==> Enabled(cfg, s, Deliver(i, p, fails, kind));
  }

  /** Whatever has happened, the cluster can still answer, and with any outcome: a call that lists can be given the
      latest list, a stream that is followed the next event or, when there is none, a bookmark at the latest version,
      and either of them any error. A worker in the queue can relist, get a slot or be cancelled. */
  lemma NeverStuck(cfg: Config, trace: seq<State>, steps: seq<Step>, n: nat, p: Pipeline, fails: bool, kind: ErrorKind)
    requires Run(cfg, trace, steps) && n <= |steps|
    ensures var s := trace[n];
            s.control.Listing? || (s.control.Streaming? && s.control.needsList) ==>
              && Enabled(cfg, s, ListUnavailable(kind))
              && exists items, previous :: Enabled(cfg, s, List(|s.log|, items, previous, p, fails, kind))
    ensures var s := trace[n];
            s.control.Streaming? && !s.control.needsList ==>
              Enabled(cfg, s, Bookmark(|s.log|)) || exists i :: Enabled(cfg, s, Deliver(i, p, fails, kind))
    ensures trace[n].control.Streaming? ==>
            Enabled(cfg, trace[n], StreamFails(kind)) && Enabled(cfg, trace[n], StreamEnds) &&
              Enabled(cfg, trace[n], StreamAborts)
    ensures trace[n].control.Queued? ==>
            Enabled(cfg, trace[n], StartRelist) && Enabled(cfg, trace[n], Grant) && Enabled(cfg, trace[n], Cancelled)
  {
    StaysInReach(cfg, trace, steps, n);
    var s := trace[n];
    if s.control.Listing? || (s.control.Streaming? && s.control.needsList) {
      ListIsPossible(cfg, s, p, fails, kind);
    } else if s.control.Streaming? {
      DeliveryIsPossible(cfg, s, p, fails, kind);
    }
  }

  /* ---------- what an ended call adds ---------- */

  lemma {:induction false} NewWorkers(cfg: Config, trace: seq<State>, steps: seq<Step>, n: nat)
    requires Run(cfg, trace, steps) && n <= |steps|
    ensures trace[n].control.Listing? && trace[n].control.initial ==> trace[n].worker == EMPTY
  {
    if n > 0 {
      NewWorkers(cfg, trace, steps, n - 1);
      assert Enabled(cfg, trace[n - 1], steps[n - 1]);
    }
  }

  /** What of a call that has ended is added to the worker's summary: nothing of a relist that did not succeed,
      and of any other call what was counted in it. An error that ends a call is no retry and no relist. */
  predicate Adds(before: WatchSummary, after: WatchSummary, t: Tally, dropped: bool, erred: bool) {
    if dropped then after == before
    else
      && after.events == before.events + t.events && after.bookmarks == before.bookmarks + t.bookmarks
      && after.listed == before.listed + t.listed
      && after.relists + after.retries + Bit(erred) == before.relists + before.retries + t.errors
  }

  ghost predicate Drops(cfg: Config, s: State, step: Step)
    requires Enabled(cfg, s, step)
  {
    s.control.Listing? && !s.control.initial && (Errs(cfg, s, step) || step.Cancelled?)
  }

  lemma ListEndAdds(cfg: Config, s: State, step: Step, t: Tally)
    requires step.List? && Enabled(cfg, s, step) && Tells(s, t)
    requires s.control.Listing? && s.control.initial ==> s.worker == EMPTY
    ensures var s' := Listed(cfg, s, step);
            !InCall(s') ==>
              Adds(s.worker, s'.worker, Counted(cfg, s, step, t), Drops(cfg, s, step), Errs(cfg, s, step))
  {
    ListTells(step.p, cfg.scope.namespace, s.control.cur, step.version, step.items, step.previous);
  }

  lemma DeliveryEndAdds(cfg: Config, s: State, step: Step, t: Tally)
    requires step.Deliver? && Enabled(cfg, s, step) && Tells(s, t)
    ensures var s' := Delivered(cfg, s, step);
            !InCall(s') ==>
              Adds(s.worker, s'.worker, Counted(cfg, s, step, t), Drops(cfg, s, step), Errs(cfg, s, step))
  {
    var e := s.log[step.index];
    EventTells(step.p, s.control.cur, Message(e.typ, e.ref, step.index + 1));
  }

  lemma EndAdds(cfg: Config, s: State, step: Step, t: Tally)
    requires Enabled(cfg, s, step) && InCall(s) && Tells(s, t)
    requires s.control.Listing? && s.control.initial ==> s.worker == EMPTY
    ensures var s' := Next(cfg, s, step);
            !InCall(s') ==>
              Adds(s.worker, s'.worker, Counted(cfg, s, step, t), Drops(cfg, s, step), Errs(cfg, s, step))
  {
    match step
    case List(_, _, _, _, _, _) => ListEndAdds(cfg, s, step, t);
    case Deliver(_, _, _, _) => DeliveryEndAdds(cfg, s, step, t);
    case _ =>
  }

  /** A call that has ended is counted in the worker's summary, unless it was a relist that did not succeed. */
  lemma EndedCallsCount(cfg: Config, trace: seq<State>, steps: seq<Step>, i: nat)
    requires Run(cfg, trace, steps) && i < |steps| && InCall(trace[i]) && !InCall(trace[i + 1])
    ensures Adds(trace[i].worker, trace[i + 1].worker,
        Counted(cfg, trace[i], steps[i], TallyOf(cfg, trace, steps, i)),
        Drops(cfg, trace[i], steps[i]), Errs(cfg, trace[i], steps[i]))
  {
    CallsTell(cfg, trace, steps, i);
    NewWorkers(cfg, trace, steps, i);
    EndAdds(cfg, trace[i], steps[i], TallyOf(cfg, trace, steps, i));
  }
}
