/** Whole runs of one resource's worker: initial list, queue, queued relists, streams with their retry machine,
    rotation and stop, interleaved with a cluster that keeps changing. */
module CollectorRuns {
  import opened Ingest
  import opened Cluster
  import opened Collector
  import opened Wrappers

  /** `maxRetries` below zero means no limit; `rotation` re-queues a worker whose stream ended gracefully. */
  datatype Config = Config(scope: Scope, maxRetries: int, rotation: bool)

  datatype ErrorKind = Expired | Transient | Other

  /** Where the worker's goroutine stands. `cur` is the summary local to the list or stream call under way. */
  datatype Control =
    | Listing(cur: WatchSummary, attempts: nat, request: Option<nat>, initial: bool)
    | Queued
    | Streaming(cur: WatchSummary, attempts: nat, needsList: bool)
    | Done

  /** `upto` is history: None before the first complete list and after a loss; otherwise the latest version that any
      list or event since has brought into the store. A loss is an addition or a deletion that is not stored; a list
      that is taken for complete although it lost an object; a list that fails halfway in the initial phase or inside a
      stream call, where its version is recorded all the same; and a relist that fails halfway at an older version or
      without storing its objects as they are. */
  datatype State = State(log: seq<Entry>, observations: seq<Observation>, worker: WatchSummary, control: Control,
                         upto: Option<nat>)

  datatype Step =
    | Grow(entry: Entry)
    | List(version: nat, items: seq<Ref>, previous: seq<Ref>, p: Pipeline, offsetFails: bool, kind: ErrorKind)
    | ListUnavailable(kind: ErrorKind)
    | StartRelist
    | Grant
    | Deliver(index: nat, p: Pipeline, offsetFails: bool, kind: ErrorKind)
    | Bookmark(version: nat)
    | StreamFails(kind: ErrorKind)
    | StreamEnds
    | StreamAborts
    | Cancelled

  /** The version from which the worker will go on: a relist under way has not replaced it yet. */
  function Recorded(s: State): Option<nat> {
    match s.control
    case Listing(cur, _, _, true) => cur.resourceVersion
    case Streaming(cur, _, _) => if cur.resourceVersion.Some? then cur.resourceVersion else s.worker.resourceVersion
    case _ => s.worker.resourceVersion
  }

  /* ---------- the retry machines ---------- */

  predicate GivesUp(cfg: Config, attempts: nat) {
    cfg.maxRetries >= 0 && attempts > cfg.maxRetries
  }

  /** The list call's answer to an error: give up, or ask again, without a version when the old one expired. A
      relist that gives up leaves the worker's summary as it was; what it had already stored stays. */
  function AfterListError(cfg: Config, s: State, cur: WatchSummary, kind: ErrorKind): State
    requires s.control.Listing?
  {
    var c := s.control;
    var failed := cur.(watchErrors := cur.watchErrors + 1);
    if GivesUp(cfg, c.attempts + 1) then
      if c.initial then s.(worker := failed, control := Done)
      else s.(control := Queued)
    else if kind == Expired then
      s.(control := Listing(failed.(relists := failed.relists + 1), c.attempts + 1, None, c.initial))
    else
      s.(control := Listing(failed.(retries := failed.retries + 1), c.attempts + 1, cur.resourceVersion, c.initial))
  }

  /** The stream's answer to an error: give up, relist when the version expired, otherwise reconnect where it stood. */
  function AfterStreamError(cfg: Config, s: State, cur: WatchSummary, kind: ErrorKind): State
    requires s.control.Streaming?
  {
    var attempts := s.control.attempts + 1;
    if GivesUp(cfg, attempts) then StreamOver(s, cur.(watchErrors := cur.watchErrors + 1), Done)
    else match kind
      case Expired => s.(control := Streaming(cur.(relists := cur.relists + 1), attempts, true))
      case Transient => s.(control := Streaming(cur.(retries := cur.retries + 1), attempts, s.control.needsList))
      case Other => s.(control :=
          Streaming(cur.(watchErrors := cur.watchErrors + 1, retries := cur.retries + 1), attempts,
          s.control.needsList))
  }

  /** A stream call that returns, whether with an error or not, is merged into the worker's summary. */
  function StreamOver(s: State, cur: WatchSummary, next: Control): State {
    s.(worker := MergeWatchSummary(s.worker, cur), control := next)
  }

  /* ---------- the transitions ---------- */

  function Version(s: State): nat
    requires s.control.Streaming? && s.control.cur.resourceVersion.Some?
  {
    s.control.cur.resourceVersion.value
  }

  /** What the environment may do next. The API server lists some version not older than the one asked for,
      delivers the events that follow the stream's version in order, and sends a bookmark only for a version up
      to which nothing is left to deliver. */
  ghost predicate Enabled(cfg: Config, s: State, step: Step) {
    match step
    case Grow(entry) => Admissible(cfg.scope, LiveRefs(s.log), entry)
    case List(version, items, previous, _, _, _) =>
      && (s.control.Listing? || (s.control.Streaming? && s.control.needsList))
      && version <= |s.log|
      && (s.control.Listing? && s.control.request.Some? ==> s.control.request.value <= version)
      && Enumerates(items, VisibleRefs(cfg.scope, s.log[..version]))
      && Enumerates(previous, LatestResourceRefs(s.observations, cfg.scope.namespace))
    case ListUnavailable(_) => s.control.Listing? || (s.control.Streaming? && s.control.needsList)
    case StartRelist => s.control.Queued?
    case Grant => s.control.Queued?
    case Deliver(i, _, _, _) =>
      && s.control.Streaming? && !s.control.needsList && s.control.cur.resourceVersion.Some?
      && Version(s) <= i < |s.log|
      && s.log[i].Event? && Visible(cfg.scope, s.log[i].ref)
      && Quiet(cfg.scope, s.log, Version(s), i)
    case Bookmark(version) =>
      && s.control.Streaming? && !s.control.needsList && s.control.cur.resourceVersion.Some?
      && Version(s) <= version <= |s.log|
      && Quiet(cfg.scope, s.log, Version(s), version)
    case Cancelled => s.control.Queued? || (s.control.Listing? && s.control.attempts > 0)
    case _ => s.control.Streaming?
  }

  function Later(a: nat, b: nat): nat {
    if a < b then b else a
  }

  /** A relist that fails leaves the worker's version where it was. */
  predicate Fails(s: State, step: Step, r: StepResult)
    requires step.List? && s.control.Listing?
  {
    !s.control.initial && (!r.ok || step.offsetFails)
  }

  function UptoAfterList(cfg: Config, s: State, step: Step, r: StepResult): Option<nat>
    requires step.List?
  {
    if s.control.Listing? && Fails(s, step, r) then
      if s.upto.Some? && Recorded(s).Some? && Recorded(s).value <= step.version &&
          StoresAsIs(step.p, step.items, step.previous)
      then Some(Later(s.upto.value, step.version)) else None
    else if r.ok && KeepsList(step.p, LiveKeys(s.observations, cfg.scope.namespace), step.items, step.previous)
    then Some(step.version) else None
  }

  function AfterStoring(cfg: Config, s: State, step: Step, r: StepResult): State
    requires step.List?
  {
    s.(observations := s.observations + r.stored, upto := UptoAfterList(cfg, s, step, r))
  }

  function Listed(cfg: Config, s: State, step: Step): State
    requires step.List? && (s.control.Listing? || s.control.Streaming?)
  {
    AfterList(cfg, s, step,
        ListResource(step.p, cfg.scope.namespace, s.control.cur, step.version, step.items, step.previous))
  }

  function AfterList(cfg: Config, s: State, step: Step, r: StepResult): State
    requires step.List? && (s.control.Listing? || s.control.Streaming?)
  {
    var s' := AfterStoring(cfg, s, step, r);
    if s.control.Listing? then
      if !r.ok || step.offsetFails then AfterListError(cfg, s', r.summary, step.kind)
      else s'.(worker := if s.control.initial then r.summary
          else MergeWatchSummary(s.worker, r.summary), control := Queued)
    else
      if !r.ok || step.offsetFails then StreamOver(s', r.summary, Done)
      else s'.(control := Streaming(r.summary, s.control.attempts, false))
  }

  function Delivered(cfg: Config, s: State, step: Step): State
    requires step.Deliver? && s.control.Streaming? && step.index < |s.log| && s.log[step.index].Event?
  {
    var e := s.log[step.index];
    AfterDelivery(cfg, s, step, WatchEvent(step.p, s.control.cur, Message(e.typ, e.ref, step.index + 1)))
  }

  function AfterEvent(s: State, step: Step, r: StepResult): State
    requires step.Deliver? && step.index < |s.log| && s.log[step.index].Event?
  {
    var e := s.log[step.index];
    s.(observations := s.observations + r.stored,
       upto := if s.upto.Some? && Harmless(step.p, Observation(e.typ, e.ref, "event"))
               then Some(Later(s.upto.value, step.index + 1)) else None)
  }

  function AfterDelivery(cfg: Config, s: State, step: Step, r: StepResult): State
    requires step.Deliver? && s.control.Streaming? && step.index < |s.log| && s.log[step.index].Event?
  {
    var s' := AfterEvent(s, step, r);
    if !r.ok || step.offsetFails then AfterStreamError(cfg, s', r.summary, step.kind)
    else s'.(control := Streaming(r.summary, s.control.attempts, false))
  }

  function AfterBookmark(s: State, version: nat): State
    requires s.control.Streaming?
  {
    s.(control := s.control.(cur := BookmarkEvent(s.control.cur, version)),
       upto := if s.upto.Some? then Some(Later(s.upto.value, version)) else None)
  }

  /** The context is cancelled in the queue, or while a list waits for its next attempt. A relist goes back to the queue
      without being merged, and from there the worker ends. */
  function AfterCancel(s: State): State
    requires s.control.Queued? || s.control.Listing?
  {
    if s.control.Queued? then s.(control := Done)
    else if s.control.initial then s.(worker := s.control.cur, control := Done)
    else s.(control := Queued)
  }

  function Next(cfg: Config, s: State, step: Step): State
    requires Enabled(cfg, s, step)
  {
    match step
    case Grow(entry) => s.(log := s.log + [entry])
    case List(_, _, _, _, _, _) => Listed(cfg, s, step)
    case ListUnavailable(kind) =>
      if s.control.Listing? then AfterListError(cfg, s, s.control.cur, kind) else StreamOver(s, s.control.cur, Done)
    case StartRelist => s.(control := Listing(EMPTY, 0, None, false))
    case Grant => s.(control :=
        Streaming(EMPTY.(resourceVersion := s.worker.resourceVersion), 0, s.worker.resourceVersion.None?))
    case Deliver(_, _, _, _) => Delivered(cfg, s, step)
    case Bookmark(version) => AfterBookmark(s, version)
    case StreamFails(kind) => AfterStreamError(cfg, s, s.control.cur, kind)
    case StreamEnds => StreamOver(s, s.control.cur, if cfg.rotation then Queued else Done)
    case StreamAborts => StreamOver(s, s.control.cur, Done)
    case Cancelled => AfterCancel(s)
  }

  /** A worker starts by listing, over a store that may hold anything from earlier runs. */
  predicate Initial(cfg: Config, s: State) {
    && WellFormed(cfg.scope, s.log)
    && s.worker == EMPTY
    && s.control == Listing(EMPTY, 0, None, true)
    && s.upto == None
  }

  /** `trace[i]` is the state before `steps[i]`. */
  ghost predicate Run(cfg: Config, trace: seq<State>, steps: seq<Step>) {
    && |trace| == |steps| + 1
    && Initial(cfg, trace[0])
    && forall i :: 0 <= i < |steps| ==>
        Enabled(cfg, trace[i], steps[i]) && trace[i + 1] == Next(cfg, trace[i], steps[i])
  }

  /* ---------- safety ---------- */

  predicate Bounded(version: Option<nat>, log: seq<Entry>) {
    version.Some? ==> version.value <= |log|
  }

  /** About each key, the store holds what was so in the cluster at some version from the recorded one to `upto`. */
  ghost predicate Safe(cfg: Config, s: State)
    requires s.upto.Some?
  {
    && Recorded(s).Some? && Recorded(s).value <= s.upto.value <= |s.log|
    && Between(cfg.scope, s.observations, s.log, Recorded(s).value, s.upto.value)
  }

  ghost predicate Consistent(cfg: Config, s: State) {
    && WellFormed(cfg.scope, s.log)
    && Bounded(s.worker.resourceVersion, s.log)
    && (s.control.Listing? && s.control.initial ==> s.worker.resourceVersion.None?)
    && (s.control.Listing? || s.control.Streaming? ==> Bounded(s.control.cur.resourceVersion, s.log))
    && (s.upto.Some? ==> Safe(cfg, s))
  }

  lemma GrowKeeps(cfg: Config, s: State, entry: Entry)
    requires Consistent(cfg, s) && Admissible(cfg.scope, LiveRefs(s.log), entry)
    ensures Consistent(cfg, s.(log := s.log + [entry]))
  {
    var log := s.log + [entry];
    forall i | 0 <= i < |log| ensures Admissible(cfg.scope, LiveRefs(log[..i]), log[i]) {
      assert log[..i] == s.log[..i];
      assert s.log[..|s.log|] == s.log;
    }
    if s.upto.Some? {
      BetweenGrows(cfg.scope, s.observations, s.log, entry, Recorded(s).value, s.upto.value);
    }
  }

  /** The state with a new local summary: every way a call goes on from there keeps consistency. */
  function WithCurrent(s: State, cur: WatchSummary): State
    requires s.control.Listing? || s.control.Streaming?
  {
    s.(control := s.control.(cur := cur))
  }

  lemma ListErrorKeeps(cfg: Config, s: State, cur: WatchSummary, kind: ErrorKind)
    requires s.control.Listing? && Consistent(cfg, WithCurrent(s, cur))
    ensures Consistent(cfg, AfterListError(cfg, s, cur, kind))
  {
  }

  lemma StreamOverKeeps(cfg: Config, s: State, cur: WatchSummary, next: Control)
    requires s.control.Streaming? && Consistent(cfg, WithCurrent(s, cur))
    requires next.Queued? || next.Done?
    ensures Consistent(cfg, StreamOver(s, cur, next))
  {
  }

  lemma StreamErrorKeeps(cfg: Config, s: State, cur: WatchSummary, kind: ErrorKind)
    requires s.control.Streaming? && Consistent(cfg, WithCurrent(s, cur))
    ensures Consistent(cfg, AfterStreamError(cfg, s, cur, kind))
  {
  }

  /** What a list leaves in the store: exactly the listed version if nothing was lost, and otherwise, if the worker
      keeps its version, each key as it was or as it was listed. */
  lemma ListedBetween(cfg: Config, s: State, step: Step, r: StepResult)
    requires cfg.scope.namespaced || cfg.scope.namespace == ""
    requires Consistent(cfg, s) && step.List? && Enabled(cfg, s, step)
    requires r == ListResource(step.p, cfg.scope.namespace, s.control.cur, step.version, step.items, step.previous)
    ensures var (upto, fails) := (UptoAfterList(cfg, s, step, r), s.control.Listing? && Fails(s, step, r));
            upto.Some? ==>
              && upto.value <= |s.log|
              && (fails ==> Recorded(s).Some? && Recorded(s).value <= upto.value
                            && Between(cfg.scope, s.observations + r.stored, s.log, Recorded(s).value, upto.value))
              && (!fails ==> upto.value == step.version
                             && Between(cfg.scope, s.observations + r.stored, s.log, step.version, step.version))
  {
    var upto := UptoAfterList(cfg, s, step, r);
    if upto.Some? {
      if s.control.Listing? && Fails(s, step, r) {
        ListKeepsBetween(step.p, cfg.scope, s.control.cur, s.observations, s.log, Recorded(s).value, s.upto.value,
                         step.version, step.items, step.previous, upto.value);
      } else {
        ListBringsInStep(step.p, cfg.scope, s.control.cur, s.observations, s.log, step.version, step.items,
            step.previous);
        BetweenIsInStep(cfg.scope, s.observations + r.stored, s.log, step.version);
      }
    }
  }

  lemma ListKeeps(cfg: Config, s: State, step: Step)
    requires cfg.scope.namespaced || cfg.scope.namespace == ""
    requires Consistent(cfg, s) && step.List? && Enabled(cfg, s, step)
    ensures Consistent(cfg, Listed(cfg, s, step))
  {
    var r := ListResource(step.p, cfg.scope.namespace, s.control.cur, step.version, step.items, step.previous);
    ListedBetween(cfg, s, step, r);
    ListRecords(step.p, cfg.scope.namespace, s.control.cur, step.version, step.items, step.previous);
    AfterListKeeps(cfg, s, step, r);
  }

  lemma ListRecords(p: Pipeline, namespace: string, s: WatchSummary, version: nat, items: seq<Ref>, previous: seq<Ref>)
    ensures ListResource(p, namespace, s, version, items, previous).summary.resourceVersion == Some(version)
  {
  }

  lemma AfterListKeeps(cfg: Config, s: State, step: Step, r: StepResult)
    requires Consistent(cfg, s) && step.List? && (s.control.Listing? || s.control.Streaming?) && step.version <= |s.log|
    requires r.summary.resourceVersion == Some(step.version)
    requires var (upto, fails) := (UptoAfterList(cfg, s, step, r), s.control.Listing? && Fails(s, step, r));
             upto.Some? ==>
               && upto.value <= |s.log|
               && (fails ==> Recorded(s).Some? && Recorded(s).value <= upto.value
                             && Between(cfg.scope, s.observations + r.stored, s.log, Recorded(s).value, upto.value))
               && (!fails ==> upto.value == step.version
                              && Between(cfg.scope, s.observations + r.stored, s.log, step.version, step.version))
    ensures Consistent(cfg, AfterList(cfg, s, step, r))
  {
    var s' := AfterStoring(cfg, s, step, r);
    if s.control.Listing? {
      if !r.ok || step.offsetFails {
        ListErrorKeeps(cfg, s', r.summary, step.kind);
      }
    } else {
      StreamOverKeeps(cfg, s', r.summary, Done);
    }
  }

  lemma DeliverKeeps(cfg: Config, s: State, step: Step)
    requires Consistent(cfg, s) && step.Deliver? && Enabled(cfg, s, step)
    ensures Consistent(cfg, Delivered(cfg, s, step))
  {
    var e := s.log[step.index];
    var r := WatchEvent(step.p, s.control.cur, Message(e.typ, e.ref, step.index + 1));
    var s' := AfterEvent(s, step, r);
    if s'.upto.Some? {
      EventKeepsBetween(step.p, cfg.scope, s.control.cur, s.observations, s.log, Version(s), s.upto.value, step.index,
                        s'.upto.value);
    }
    EventRecords(step.p, s.control.cur, Message(e.typ, e.ref, step.index + 1));
    AfterDeliveryKeeps(cfg, s, step, r);
  }

  lemma EventRecords(p: Pipeline, s: WatchSummary, m: Message)
    ensures WatchEvent(p, s, m).summary.resourceVersion == Some(m.resourceVersion)
  {
  }

  lemma AfterDeliveryKeeps(cfg: Config, s: State, step: Step, r: StepResult)
    requires Consistent(cfg, s) && step.Deliver? && Enabled(cfg, s, step)
    requires r.summary.resourceVersion == Some(step.index + 1)
    requires var s' := AfterEvent(s, step, r);
             s'.upto.Some? ==> Between(cfg.scope, s'.observations, s.log, step.index + 1, s'.upto.value)
    ensures Consistent(cfg, AfterDelivery(cfg, s, step, r))
  {
    StreamErrorKeeps(cfg, AfterEvent(s, step, r), r.summary, step.kind);
  }

  lemma BookmarkKeeps(cfg: Config, s: State, step: Step)
    requires Consistent(cfg, s) && step.Bookmark? && Enabled(cfg, s, step)
    ensures Consistent(cfg, AfterBookmark(s, step.version))
  {
    if s.upto.Some? {
      BetweenMoves(cfg.scope, s.observations, s.log, Version(s), s.upto.value, step.version,
          Later(s.upto.value, step.version));
    }
  }

  /** Errors, endings, relists and grants change no observation and no recorded version. */
  lemma ControlKeeps(cfg: Config, s: State, step: Step)
    requires Consistent(cfg, s) && Enabled(cfg, s, step)
    requires step.ListUnavailable? || step.StartRelist? || step.Grant? || step.StreamFails? || step.StreamEnds? ||
        step.StreamAborts? || step.Cancelled?
    ensures Consistent(cfg, Next(cfg, s, step))
  {
    if s.control.Listing? {
      assert WithCurrent(s, s.control.cur) == s;
      ListErrorKeeps(cfg, s, s.control.cur, if step.ListUnavailable? then step.kind else Other);
    } else if s.control.Streaming? {
      assert WithCurrent(s, s.control.cur) == s;
      StreamErrorKeeps(cfg, s, s.control.cur, if step.StreamFails? then step.kind else Other);
      StreamOverKeeps(cfg, s, s.control.cur, Done);
      StreamOverKeeps(cfg, s, s.control.cur, Queued);
    }
  }

  lemma StepKeeps(cfg: Config, s: State, step: Step)
    requires cfg.scope.namespaced || cfg.scope.namespace == ""
    requires Consistent(cfg, s) && Enabled(cfg, s, step)
    ensures Consistent(cfg, Next(cfg, s, step))
  {
    match step
    case Grow(entry) => GrowKeeps(cfg, s, entry);
    case List(_, _, _, _, _, _) => ListKeeps(cfg, s, step);
    case Deliver(_, _, _, _) => DeliverKeeps(cfg, s, step);
    case Bookmark(_) => BookmarkKeeps(cfg, s, step);
    case _ => ControlKeeps(cfg, s, step);
  }

  lemma {:induction false} RunConsistent(cfg: Config, trace: seq<State>, steps: seq<Step>, n: nat)
    requires cfg.scope.namespaced || cfg.scope.namespace == ""
    requires Run(cfg, trace, steps) && n <= |steps|
    ensures Consistent(cfg, trace[n])
  {
    if n > 0 {
      RunConsistent(cfg, trace, steps, n - 1);
      StepKeeps(cfg, trace[n - 1], steps[n - 1]);
    }
  }

  /** Whole-run safety: at every point of every run in which nothing has been lost since a complete list, the store
      holds about each key what was so in the cluster at some version from the recorded one to the latest the store has
      seen; and whenever the recorded version is the latest, what the store holds as live is exactly what was live in
      the cluster at that version. */
  lemma WholeRunSafety(cfg: Config, trace: seq<State>, steps: seq<Step>, n: nat)
    requires cfg.scope.namespaced || cfg.scope.namespace == ""
    requires Run(cfg, trace, steps) && n <= |steps| && trace[n].upto.Some?
    ensures Safe(cfg, trace[n])
    ensures Recorded(trace[n]) == trace[n].upto ==>
            InStep(cfg.scope, trace[n].observations, trace[n].log, trace[n].upto.value)
  {
    RunConsistent(cfg, trace, steps, n);
    BetweenIsInStep(cfg.scope, trace[n].observations, trace[n].log, Recorded(trace[n]).value);
  }

  /** The store is ahead of the recorded version only when a relist has failed after it stored something. While none
      fails, the two are in step at all times. */
  lemma {:induction false} InStepUnlessRelistsFail(cfg: Config, trace: seq<State>, steps: seq<Step>, n: nat)
    requires cfg.scope.namespaced || cfg.scope.namespace == ""
    requires Run(cfg, trace, steps) && n <= |steps|
    requires forall i :: 0 <= i < n ==> !FailingRelist(cfg, trace[i], steps[i])
    ensures trace[n].upto.Some? ==> Recorded(trace[n]) == trace[n].upto
    ensures trace[n].upto.Some? ==>
            Safe(cfg, trace[n]) && InStep(cfg.scope, trace[n].observations, trace[n].log, trace[n].upto.value)
  {
    RunConsistent(cfg, trace, steps, n);
    if n > 0 {
      InStepUnlessRelistsFail(cfg, trace, steps, n - 1);
      RunConsistent(cfg, trace, steps, n - 1);
      StaysLatest(cfg, trace[n - 1], steps[n - 1]);
    }
    if trace[n].upto.Some? {
      WholeRunSafety(cfg, trace, steps, n);
    }
  }

  ghost predicate FailingRelist(cfg: Config, s: State, step: Step) {
    step.List? && s.control.Listing? &&
    Fails(s, step, ListResource(step.p, cfg.scope.namespace, s.control.cur, step.version, step.items, step.previous))
  }

  predicate AtLatest(s: State) {
    s.upto.Some? ==> Recorded(s) == s.upto
  }

  lemma StaysLatest(cfg: Config, s: State, step: Step)
    requires Consistent(cfg, s) && Enabled(cfg, s, step) && !FailingRelist(cfg, s, step) && AtLatest(s)
    ensures AtLatest(Next(cfg, s, step))
  {
    match step
    case List(version, items, previous, p, _, _) =>
      var r := ListResource(p, cfg.scope.namespace, s.control.cur, version, items, previous);
      ListRecords(p, cfg.scope.namespace, s.control.cur, version, items, previous);
      ListStaysLatest(cfg, s, step, r);
    case Deliver(_, _, _, _) =>
      var r := RecordedResult(cfg, s, step);
      DeliveryStaysLatest(cfg, s, step, r);
    case _ =>
  }

  lemma RecordedResult(cfg: Config, s: State, step: Step) returns (r: StepResult)
    requires step.Deliver? && s.control.Streaming? && step.index < |s.log| && s.log[step.index].Event?
    ensures r.summary.resourceVersion == Some(step.index + 1)
    ensures Delivered(cfg, s, step) == AfterDelivery(cfg, s, step, r)
  {
    var e := s.log[step.index];
    var m := Message(e.typ, e.ref, step.index + 1);
    EventRecords(step.p, s.control.cur, m);
    r := WatchEvent(step.p, s.control.cur, m);
  }

  lemma ListStaysLatest(cfg: Config, s: State, step: Step, r: StepResult)
    requires step.List? && (s.control.Listing? || s.control.Streaming?)
    requires r.summary.resourceVersion == Some(step.version) && (s.control.Listing? ==> !Fails(s, step, r))
    ensures AtLatest(AfterList(cfg, s, step, r))
  {
  }

  lemma DeliveryStaysLatest(cfg: Config, s: State, step: Step, r: StepResult)
    requires Consistent(cfg, s) && step.Deliver? && Enabled(cfg, s, step) && AtLatest(s)
    requires r.summary.resourceVersion == Some(step.index + 1)
    ensures AtLatest(AfterDelivery(cfg, s, step, r))
  {
  }

  /* ---------- the configuration that is never reconciled ---------- */

  ghost predicate AlwaysSafe(cfg: Config) {
    forall trace: seq<State>, steps: seq<Step>, n: nat ::
      Run(cfg, trace, steps) && n <= |steps| && trace[n].upto.Some? ==> Safe(cfg, trace[n])
  }

  const PLAIN := Pipeline(o => [], o => false, o => false, o => false, o => false)
  const NODE := Ref("", "node", "1")

  /** A namespace option on a cluster-wide resource: the server ignores the option, the store does not. The node
      is listed, goes away between two lists, and the second list finds nothing known that could be missing. */
  lemma NamespacedNodeIsNeverDeleted(cfg: Config) returns (trace: seq<State>, steps: seq<Step>)
    requires !cfg.scope.namespaced && cfg.scope.namespace != ""
    ensures Run(cfg, trace, steps) && trace[|steps|].upto.Some? && !Safe(cfg, trace[|steps|])
  {
    var added, deleted := Event(Added, NODE), Event(Deleted, NODE);
    var s2;
    trace, steps, s2 := NodeIsListed(cfg);
    LogsOfOneNode(cfg.scope);
    LatestOfOne(cfg.scope.namespace);
    var s3 := s2.(log := [added, deleted]);
    assert [added] + [deleted] == [added, deleted];
    trace, steps := Extend(cfg, trace, steps, Grow(deleted), s3);
    var s4 := s3.(control := Listing(EMPTY, 0, None, false));
    trace, steps := Extend(cfg, trace, steps, StartRelist, s4);
    assert s4.log[..2] == s4.log;
    var second := List(2, [], [], PLAIN, false, Other);
    var s5 := PlainListing(cfg, s4, second);
    trace, steps := Extend(cfg, trace, steps, second, s5);
    assert s5.log[..2] == s5.log;
    BetweenIsInStep(cfg.scope, s5.observations, s5.log, 2);
  }

  lemma NodeIsListed(cfg: Config) returns (trace: seq<State>, steps: seq<Step>, s: State)
    requires !cfg.scope.namespaced && cfg.scope.namespace != ""
    ensures Run(cfg, trace, steps) && trace[|steps|] == s
    ensures s.log == [Event(Added, NODE)] && s.observations == [Observation(Modified, NODE, "item")] &&
        s.control == Queued
  {
    var s0 := State([], [], EMPTY, Listing(EMPTY, 0, None, true), None);
    var s1 := s0.(log := [Event(Added, NODE)]);
    var first := List(1, [NODE], [], PLAIN, false, Other);
    LogsOfOneNode(cfg.scope);
    LatestOfOne(cfg.scope.namespace);
    trace, steps := [s0], [];
    assert [] + [Event(Added, NODE)] == [Event(Added, NODE)];
    trace, steps := Extend(cfg, trace, steps, Grow(Event(Added, NODE)), s1);
    assert s1.log[..1] == s1.log;
    s := PlainListing(cfg, s1, first);
    trace, steps := Extend(cfg, trace, steps, first, s);
  }

  lemma Extend(cfg: Config, trace: seq<State>, steps: seq<Step>, step: Step, s: State)
    returns (trace': seq<State>, steps': seq<Step>)
    requires Run(cfg, trace, steps) && Enabled(cfg, trace[|steps|], step) && s == Next(cfg, trace[|steps|], step)
    ensures Run(cfg, trace', steps') && trace'[|steps'|] == s
  {
    trace', steps' := trace + [s], steps + [step];
  }

  lemma PlainListing(cfg: Config, s: State, step: Step) returns (s': State)
    requires s.control == Listing(EMPTY, 0, None, true) || s.control == Listing(EMPTY, 0, None, false)
    requires step == List(1, [NODE], [], PLAIN, false, Other) || step == List(2, [], [], PLAIN, false, Other)
    requires Enabled(cfg, s, step)
    ensures s' == Next(cfg, s, step)
    ensures s'.log == s.log && s'.upto == Some(step.version) && s'.control == Queued &&
        s'.worker.resourceVersion == Some(step.version)
    ensures s'.observations == s.observations + (if step.items == [] then [] else [Observation(Modified, NODE, "item")])
  {
    PlainListStores(cfg.scope.namespace, EMPTY, step.version, step.items, Observation(Modified, NODE, "item"));
    s' := Listed(cfg, s, step);
  }

  lemma LogsOfOneNode(scope: Scope)
    requires !scope.namespaced
    ensures var added, deleted := Event(Added, NODE), Event(Deleted, NODE);
            && LiveRefs([]) == {} && LiveRefs([added]) == {NODE} && LiveRefs([added, deleted]) == {}
            && VisibleRefs(scope, [added]) == {NODE} && VisibleRefs(scope, [added, deleted]) == {}
  {
    var added, deleted := Event(Added, NODE), Event(Deleted, NODE);
    assert [added][..0] == [] && [added, deleted][..1] == [added];
    assert [added][..1] == [added] && [added, deleted][..2] == [added, deleted];
  }

  lemma PlainListStores(namespace: string, s: WatchSummary, version: nat, items: seq<Ref>, o: Observation)
    requires items == [] || (items == [NODE] && o == Observation(Modified, NODE, "item"))
    ensures var r := ListResource(PLAIN, namespace, s, version, items, []);
            r.ok && r.stored == (if items == [] then [] else [o])
    ensures forall live :: KeepsList(PLAIN, live, items, [])
  {
    if items == [] {
      assert ListedObservations(items) == [];
    } else {
      assert ListedObservations(items) == [o];
      SingleIngest(PLAIN, o);
    }
  }

  lemma LatestOfOne(namespace: string)
    requires namespace != ""
    ensures LatestResourceRefs([], namespace) == {}
    ensures LatestResourceRefs([Observation(Modified, NODE, "item")], namespace) == {}
    ensures LiveKeys([Observation(Modified, NODE, "item")], "") == {Key(NODE)}
  {
    var o := Observation(Modified, NODE, "item");
    assert [o][..0] == [];
    assert Latest([o], "") == map[Key(NODE) := o];
    assert Latest([o], namespace) == map[];
  }

  /** Every run is safe exactly for the configurations that set a namespace on namespaced resources only. */
  lemma SafeConfigurations(cfg: Config)
    ensures AlwaysSafe(cfg) <==> cfg.scope.namespaced || cfg.scope.namespace == ""
  {
    if cfg.scope.namespaced || cfg.scope.namespace == "" {
      forall trace: seq<State>, steps: seq<Step>, n: nat | Run(cfg, trace, steps) && n <= |steps| && trace[n].upto.Some?
        ensures Safe(cfg, trace[n])
      {
        WholeRunSafety(cfg, trace, steps, n);
      }
    } else {
      var trace, steps := NamespacedNodeIsNeverDeleted(cfg);
    }
  }

  /* ---------- accounting ---------- */

  /** The books of a summary: what it says was stored is what its ingests stored; every observation is accounted
      for; a deletion was either reconciled or seen as an event. */
  predicate Balanced(s: WatchSummary) {
    && s.stored == s.ingest.stored
    && s.ingest.observations == s.ingest.stored + s.ingest.discardedChanges + s.ingest.discardedResources
    && s.ingest.modified <= s.ingest.stored
    && s.reconciledDeleted <= s.deleted <= s.reconciledDeleted + s.events
  }

  predicate BalancedState(s: State) {
    && Balanced(s.worker)
    && (s.control.Listing? || s.control.Streaming? ==> Balanced(s.control.cur))
  }

  lemma {:induction false} ReconciledBalance(p: Pipeline, namespace: string, previous: seq<Ref>, current: set<string>)
    ensures var i := Reconciled(p, namespace, previous, current).ingest;
            i.observations == i.stored + i.discardedChanges + i.discardedResources && i.modified <= i.stored
  {
    if previous != [] {
      ReconciledBalance(p, namespace, previous[..|previous| - 1], current);
      BatchAccounting(p, [DeletedObservation(previous[|previous| - 1])]);
    }
  }

  lemma ListBalances(p: Pipeline, namespace: string, s: WatchSummary, version: nat, items: seq<Ref>, previous: seq<Ref>)
    requires Balanced(s)
    ensures Balanced(ListResource(p, namespace, s, version, items, previous).summary)
  {
    BatchAccounting(p, ListedObservations(items));
    ReconciledBalance(p, namespace, previous, CurrentKeys(items));
  }

  lemma EventBalances(p: Pipeline, s: WatchSummary, m: Message)
    requires Balanced(s)
    ensures Balanced(WatchEvent(p, s, m).summary)
  {
    BatchAccounting(p, [Observation(m.typ, m.ref, "event")]);
  }

  lemma ListErrorBalances(cfg: Config, s: State, cur: WatchSummary, kind: ErrorKind)
    requires s.control.Listing? && Balanced(cur) && Balanced(s.worker)
    ensures BalancedState(AfterListError(cfg, s, cur, kind))
  {
  }

  lemma ListedBalances(cfg: Config, s: State, step: Step)
    requires step.List? && Enabled(cfg, s, step) && BalancedState(s)
    ensures BalancedState(Listed(cfg, s, step))
  {
    var r := ListResource(step.p, cfg.scope.namespace, s.control.cur, step.version, step.items, step.previous);
    ListBalances(step.p, cfg.scope.namespace, s.control.cur, step.version, step.items, step.previous);
    if s.control.Listing? {
      ListErrorBalances(cfg, AfterStoring(cfg, s, step, r), r.summary, step.kind);
    }
    MergeBalances(s.worker, r.summary);
  }

  lemma MergeBalances(base: WatchSummary, extra: WatchSummary)
    requires Balanced(base) && Balanced(extra)
    ensures Balanced(MergeWatchSummary(base, extra))
  {
  }

  lemma DeliveredBalances(cfg: Config, s: State, step: Step)
    requires step.Deliver? && s.control.Streaming? && step.index < |s.log| && s.log[step.index].Event?
    requires BalancedState(s)
    ensures BalancedState(Delivered(cfg, s, step))
  {
    var r := DeliveredResult(cfg, s, step);
    DeliveredSummaries(cfg, s, step, r);
  }

  lemma DeliveredResult(cfg: Config, s: State, step: Step) returns (r: StepResult)
    requires step.Deliver? && s.control.Streaming? && step.index < |s.log| && s.log[step.index].Event?
    requires Balanced(s.control.cur)
    ensures Balanced(r.summary) && Delivered(cfg, s, step) == AfterDelivery(cfg, s, step, r)
  {
    var e := s.log[step.index];
    var m := Message(e.typ, e.ref, step.index + 1);
    EventBalances(step.p, s.control.cur, m);
    r := WatchEvent(step.p, s.control.cur, m);
  }

  lemma DeliveredSummaries(cfg: Config, s: State, step: Step, r: StepResult)
    requires step.Deliver? && s.control.Streaming? && step.index < |s.log| && s.log[step.index].Event?
    requires Balanced(r.summary) && Balanced(s.worker)
    ensures BalancedState(AfterDelivery(cfg, s, step, r))
  {
    StreamErrorBalances(cfg, AfterEvent(s, step, r), r.summary, step.kind);
  }

  lemma StreamErrorBalances(cfg: Config, s: State, cur: WatchSummary, kind: ErrorKind)
    requires s.control.Streaming? && Balanced(cur) && Balanced(s.worker)
    ensures BalancedState(AfterStreamError(cfg, s, cur, kind))
  {
  }

  lemma ControlBalances(cfg: Config, s: State, step: Step)
    requires !step.List? && !step.Deliver? && Enabled(cfg, s, step) && BalancedState(s)
    ensures BalancedState(Next(cfg, s, step))
  {
    if s.control.Streaming? {
      StreamErrorBalances(cfg, s, s.control.cur, if step.StreamFails? then step.kind else Other);
      MergeBalances(s.worker, s.control.cur);
    }
  }

  lemma StepBalances(cfg: Config, s: State, step: Step)
    requires Enabled(cfg, s, step) && BalancedState(s)
    ensures BalancedState(Next(cfg, s, step))
  {
    match step
    case List(_, _, _, _, _, _) => ListedBalances(cfg, s, step);
    case Deliver(_, _, _, _) => DeliveredBalances(cfg, s, step);
    case _ => ControlBalances(cfg, s, step);
  }

  /** In every reachable state, whatever failed on the way, the books balance. */
  lemma {:induction false} RunBalances(cfg: Config, trace: seq<State>, steps: seq<Step>, n: nat)
    requires Run(cfg, trace, steps) && n <= |steps|
    ensures BalancedState(trace[n])
  {
    if n > 0 {
      RunBalances(cfg, trace, steps, n - 1);
      StepBalances(cfg, trace[n - 1], steps[n - 1]);
    }
  }

  /* ---------- what is counted as stored, and the store ---------- */

  /** What the worker's summary, and that of the call under way, count as stored. */
  function CountedStored(s: State): nat {
    s.worker.stored + if s.control.Listing? || s.control.Streaming? then s.control.cur.stored else 0
  }

  /** The store has grown from `base` observations by what is counted, or by more; if `exact`, by just that. */
  predicate Backed(s: State, base: nat, exact: bool) {
    && base + CountedStored(s) <= |s.observations|
    && (s.control.Listing? && s.control.initial ==> s.worker.stored == 0)
    && (exact ==> base + CountedStored(s) == |s.observations|)
    && (exact && s.control.Listing? && !s.control.initial ==> s.control.cur.stored == 0)
  }

  /** A list that does not succeed, and a relist that cannot record its offset: what they stored is not counted. */
  ghost predicate FailingList(cfg: Config, s: State, step: Step) {
    step.List? && (s.control.Listing? || s.control.Streaming?) &&
    var r := ListResource(step.p, cfg.scope.namespace, s.control.cur, step.version, step.items, step.previous);
    !r.ok || (s.control.Listing? && Fails(s, step, r))
  }

  lemma {:induction false} ReconciledStores(p: Pipeline, namespace: string, previous: seq<Ref>, current: set<string>)
    ensures var rec := Reconciled(p, namespace, previous, current); |rec.stored| == rec.ingest.stored
  {
    if previous != [] {
      ReconciledStores(p, namespace, previous[..|previous| - 1], current);
      BatchAccounting(p, [DeletedObservation(previous[|previous| - 1])]);
    }
  }

  predicate Stores(cur: WatchSummary, r: StepResult) {
    cur.stored <= r.summary.stored <= cur.stored + |r.stored| && (r.ok ==> r.summary.stored == cur.stored + |r.stored|)
  }

  lemma ListStores(p: Pipeline, namespace: string, s: WatchSummary, version: nat, items: seq<Ref>, previous: seq<Ref>)
    ensures Stores(s, ListResource(p, namespace, s, version, items, previous))
  {
    BatchAccounting(p, ListedObservations(items));
    ReconciledStores(p, namespace, previous, CurrentKeys(items));
  }

  lemma EventStores(p: Pipeline, s: WatchSummary, m: Message)
    ensures var r := WatchEvent(p, s, m); Stores(s, r) && r.summary.stored == s.stored + |r.stored|
  {
    BatchAccounting(p, [Observation(m.typ, m.ref, "event")]);
  }

  lemma ListedIsBacked(cfg: Config, s: State, step: Step, r: StepResult, base: nat, exact: bool)
    requires step.List? && (s.control.Listing? || s.control.Streaming?) && Backed(s, base, exact)
    requires Stores(s.control.cur, r) && (exact ==> r.ok && (s.control.Listing? ==> !Fails(s, step, r)))
    ensures Backed(AfterList(cfg, s, step, r), base, exact)
  {
  }

  lemma DeliveryIsBacked(cfg: Config, s: State, step: Step, base: nat, exact: bool)
    requires step.Deliver? && s.control.Streaming? && step.index < |s.log| && s.log[step.index].Event?
    requires Backed(s, base, exact)
    ensures Backed(Delivered(cfg, s, step), base, exact)
  {
    var r := StoredResult(cfg, s, step);
    StreamIsBacked(cfg, s, step, r, base, exact);
  }

  lemma StoredResult(cfg: Config, s: State, step: Step) returns (r: StepResult)
    requires step.Deliver? && s.control.Streaming? && step.index < |s.log| && s.log[step.index].Event?
    ensures r.summary.stored == s.control.cur.stored + |r.stored|
    ensures Delivered(cfg, s, step) == AfterDelivery(cfg, s, step, r)
  {
    var e := s.log[step.index];
    var m := Message(e.typ, e.ref, step.index + 1);
    EventStores(step.p, s.control.cur, m);
    r := WatchEvent(step.p, s.control.cur, m);
  }

  lemma StreamIsBacked(cfg: Config, s: State, step: Step, r: StepResult, base: nat, exact: bool)
    requires step.Deliver? && s.control.Streaming? && step.index < |s.log| && s.log[step.index].Event?
    requires Backed(s, base, exact) && r.summary.stored == s.control.cur.stored + |r.stored|
    ensures Backed(AfterDelivery(cfg, s, step, r), base, exact)
  {
  }

  lemma StepIsBacked(cfg: Config, s: State, step: Step, base: nat, exact: bool)
    requires Enabled(cfg, s, step) && Backed(s, base, exact) && (exact ==> !FailingList(cfg, s, step))
    ensures Backed(Next(cfg, s, step), base, exact)
  {
    match step
    case List(version, items, previous, p, _, _) =>
      ListStores(p, cfg.scope.namespace, s.control.cur, version, items, previous);
      ListedIsBacked(cfg, s, step,
          ListResource(p, cfg.scope.namespace, s.control.cur, version, items, previous), base, exact);
    case Deliver(_, _, _, _) => DeliveryIsBacked(cfg, s, step, base, exact);
    case _ =>
  }

  /** In every reachable state, whatever failed on the way, the store has grown by no less than what is counted as
      stored; and by exactly that, as long as no list has failed. */
  lemma {:induction false} StoredIsBacked(cfg: Config, trace: seq<State>, steps: seq<Step>, n: nat, exact: bool)
    requires Run(cfg, trace, steps) && n <= |steps|
    requires exact ==> forall i :: 0 <= i < n ==> !FailingList(cfg, trace[i], steps[i])
    ensures Backed(trace[n], |trace[0].observations|, exact)
  {
    if n > 0 {
      StoredIsBacked(cfg, trace, steps, n - 1, exact);
      StepIsBacked(cfg, trace[n - 1], steps[n - 1], |trace[0].observations|, exact);
    }
  }
}
