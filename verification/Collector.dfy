/** The collector's steps on one resource: list and reconcile, one watch event, one bookmark. */
module Collector {
  import opened Ingest
  import opened Cluster
  import opened Wrappers

  datatype WatchSummary = WatchSummary(
    listed: nat, events: nat, stored: nat, bookmarks: nat, deleted: nat, reconciledDeleted: nat, unknownVisibility: nat,
    relists: nat, retries: nat, watchErrors: nat, latestObjects: nat, resourceVersion: Option<nat>, ingest: Summary)

  const EMPTY := WatchSummary(0, 0, 0, 0, 0, 0, 0, 0, 0, 0, 0, None, ZERO)

  /** A watch message about an object: its type, and the resource version the object carries. */
  datatype Message = Message(typ: ObservationType, ref: Ref, resourceVersion: nat)

  /** What a step returns: the summary it updated, the observations it stored, and whether it succeeded. */
  datatype StepResult = StepResult(summary: WatchSummary, stored: seq<Observation>, ok: bool)

  function ListedObservations(items: seq<Ref>): seq<Observation> {
    seq(|items|, i requires 0 <= i < |items| => Observation(Modified, items[i], "item"))
  }

  function DeletedObservation(ref: Ref): Observation {
    Observation(Deleted, ref, "deleted")
  }

  function CurrentKeys(items: seq<Ref>): set<string> {
    set r <- items :: Key(r)
  }

  lemma CurrentKeysAppend(items: seq<Ref>)
    requires items != []
    ensures CurrentKeys(items) == CurrentKeys(items[..|items| - 1]) + {Key(items[|items| - 1])}
  {
    var init := items[..|items| - 1];
    assert items == init + [items[|items| - 1]];
  }

  /** The keys are collected item by item. */
  method KeysOfItems(items: seq<Ref>) returns (current: set<string>)
    ensures current == CurrentKeys(items)
  {
    current := {};
    for i := 0 to |items|
      invariant current == CurrentKeys(items[..i])
    {
      current := current + {Key(items[i])};
      assert items[..i + 1][..i] == items[..i];
      CurrentKeysAppend(items[..i + 1]);
    }
    assert items[..|items|] == items;
  }

  /* ---------- reconciliation ---------- */

  datatype Reconciliation = Reconciliation(deleted: nat, unknown: nat, ingest: Summary, stored: seq<Observation>,
      ok: bool)

  /** One previously known object: out of the namespace option, still listed, or gone and so observed as deleted. */
  function ReconcileOne(p: Pipeline, namespace: string, before: Reconciliation, ref: Ref,
      current: set<string>): Reconciliation {
    if !InNamespace(namespace, ref) then before.(unknown := before.unknown + 1)
    else if Key(ref) in current then before
    else
      var r := Ingested(p, [DeletedObservation(ref)]);
      if r.ok then before.(deleted := before.deleted + 1, ingest := Add(before.ingest, r.summary),
          stored := before.stored + r.stored)
      else before.(stored := before.stored + r.stored, ok := false)
  }

  function Reconciled(p: Pipeline, namespace: string, previous: seq<Ref>, current: set<string>): Reconciliation {
    if previous == [] then Reconciliation(0, 0, ZERO, [], true)
    else
      var before := Reconciled(p, namespace, previous[..|previous| - 1], current);
      if before.ok then ReconcileOne(p, namespace, before, previous[|previous| - 1], current) else before
  }

  lemma ReconciledNext(p: Pipeline, namespace: string, previous: seq<Ref>, current: set<string>, i: nat)
    requires i < |previous| && Reconciled(p, namespace, previous[..i], current).ok
    ensures Reconciled(p, namespace, previous[..i + 1], current) ==
            ReconcileOne(p, namespace, Reconciled(p, namespace, previous[..i], current), previous[i], current)
  {
    assert previous[..i + 1][..i] == previous[..i];
  }

  lemma {:induction false} ReconciledAfterError(p: Pipeline, namespace: string, previous: seq<Ref>,
      current: set<string>, i: nat)
    requires i <= |previous| && !Reconciled(p, namespace, previous[..i], current).ok
    ensures Reconciled(p, namespace, previous, current) == Reconciled(p, namespace, previous[..i], current)
    decreases |previous|
  {
    if i == |previous| {
      assert previous[..i] == previous;
    } else {
      assert previous[..|previous| - 1][..i] == previous[..i];
      ReconciledAfterError(p, namespace, previous[..|previous| - 1], current, i);
    }
  }

  /** A reconciliation loses no previously known object: each is still present, out of sight, or deleted, and
      the deletions and nothing else were ingested. */
  lemma {:induction false} ReconciliationAccounting(p: Pipeline, namespace: string, previous: seq<Ref>,
      current: set<string>)
    requires Reconciled(p, namespace, previous, current).ok
    ensures var r := Reconciled(p, namespace, previous, current);
            && |previous| == r.deleted + r.unknown + StillPresent(namespace, previous, current)
            && r.unknown == Outside(namespace, previous)
            && r.ingest.observations == r.deleted
            && |r.stored| == r.ingest.stored
            && r.ingest.discardedChanges + r.ingest.discardedResources + r.ingest.stored == r.deleted
  {
    if previous != [] {
      var init, ref := previous[..|previous| - 1], previous[|previous| - 1];
      ReconciliationAccounting(p, namespace, init, current);
      BatchAccounting(p, [DeletedObservation(ref)]);
    }
  }

  function StillPresent(namespace: string, previous: seq<Ref>, current: set<string>): nat {
    if previous == [] then 0
    else StillPresent(namespace, previous[..|previous| - 1], current) +
         (if InNamespace(namespace, previous[|previous| - 1]) && Key(previous[|previous| - 1]) in current then 1 else 0)
  }

  /* ---------- the steps ---------- */

  /** A whole list: what was listed is ingested, then what was known and is missing is observed as deleted. The
      resource version is recorded first, before anything is ingested. */
  function ListResource(p: Pipeline, namespace: string, s: WatchSummary, version: nat, items: seq<Ref>,
      previous: seq<Ref>)
    : StepResult
  {
    var s1 := s.(listed := s.listed + |items|, latestObjects := |items|, resourceVersion := Some(version));
    ListOutcome(s1, Ingested(p, ListedObservations(items)), Reconciled(p, namespace, previous, CurrentKeys(items)))
  }

  /** How many references lie outside a namespace. */
  function Outside(namespace: string, refs: seq<Ref>): nat {
    if refs == [] then 0
    else
      var last := refs[|refs| - 1];
      Outside(namespace, refs[..|refs| - 1]) + if namespace != "" && last.namespace != namespace then 1 else 0
  }

  /** The reconciliation counts only if the items went in, and each of the two is counted only if it succeeded. */
  function ListOutcome(s: WatchSummary, r: Result, rec: Reconciliation): StepResult {
    if !r.ok then StepResult(s, r.stored, false) else
    var s2 := s.(ingest := Add(s.ingest, r.summary), stored := s.stored + r.summary.stored);
    if !rec.ok then StepResult(s2, r.stored + rec.stored, false) else
    StepResult(s2.(deleted := s2.deleted + rec.deleted, reconciledDeleted := s2.reconciledDeleted + rec.deleted,
                   unknownVisibility := s2.unknownVisibility + rec.unknown, stored := s2.stored + rec.ingest.stored,
                   ingest := Add(s2.ingest, rec.ingest)),
               r.stored + rec.stored, true)
  }

  /** One watch event; again the resource version moves before the event is ingested. */
  function WatchEvent(p: Pipeline, s: WatchSummary, m: Message): StepResult {
    var s1 := s.(resourceVersion := Some(m.resourceVersion));
    var r := Ingested(p, [Observation(m.typ, m.ref, "event")]);
    if !r.ok then StepResult(s1, r.stored, false) else
    StepResult(s1.(events := s1.events + 1, deleted := s1.deleted + (if m.typ == Deleted then 1 else 0),
                   stored := s1.stored + r.summary.stored, ingest := Add(s1.ingest, r.summary)),
               r.stored, true)
  }

  function BookmarkEvent(s: WatchSummary, version: nat): WatchSummary {
    s.(resourceVersion := Some(version), bookmarks := s.bookmarks + 1)
  }

  /** Folding the summary of a relist or of a finished stream into the worker's. */
  function MergeWatchSummary(base: WatchSummary, extra: WatchSummary): WatchSummary {
    WatchSummary(
      base.listed + extra.listed, base.events + extra.events, base.stored + extra.stored,
          base.bookmarks + extra.bookmarks,
      base.deleted + extra.deleted, base.reconciledDeleted + extra.reconciledDeleted,
          base.unknownVisibility + extra.unknownVisibility,
      base.relists + extra.relists, base.retries + extra.retries, base.watchErrors + extra.watchErrors,
      if extra.listed > 0 || extra.latestObjects > 0 then extra.latestObjects else base.latestObjects,
      if extra.resourceVersion.Some? then extra.resourceVersion else base.resourceVersion,
      Add(base.ingest, extra.ingest))
  }

  /** Folding is grouping-free: a relist that has not begun adds nothing, and it does not matter in which groups the
      summaries of a worker's calls are folded. */
  lemma MergeLaws(a: WatchSummary, b: WatchSummary, c: WatchSummary)
    ensures MergeWatchSummary(EMPTY, a) == a == MergeWatchSummary(a, EMPTY)
    ensures MergeWatchSummary(MergeWatchSummary(a, b), c) == MergeWatchSummary(a, MergeWatchSummary(b, c))
  {
  }

  /** What a list that succeeds has counted: the objects of the list, and of those known before the ones outside the
      namespace and the ones that are gone; and these, with the items, are what was observed. */
  lemma ListCounts(p: Pipeline, namespace: string, s: WatchSummary, version: nat, items: seq<Ref>, previous: seq<Ref>)
    requires ListResource(p, namespace, s, version, items, previous).ok
    ensures var r := ListResource(p, namespace, s, version, items, previous).summary;
            var gone := |previous| - Outside(namespace, previous) -
                StillPresent(namespace, previous, CurrentKeys(items));
            && r.latestObjects == |items| && r.listed == s.listed + |items|
            && r.unknownVisibility == s.unknownVisibility + Outside(namespace, previous)
            && r.reconciledDeleted == s.reconciledDeleted + gone && r.deleted == s.deleted + gone
            && r.ingest.observations == s.ingest.observations + |items| + gone
  {
    BatchAccounting(p, ListedObservations(items));
    ReconciliationAccounting(p, namespace, previous, CurrentKeys(items));
  }

  /** Folding adds up: every counter of the result is the sum of the two, whatever was counted. */
  lemma MergeAddsUp(base: WatchSummary, extra: WatchSummary)
    ensures var m := MergeWatchSummary(base, extra);
            && m.listed - base.listed == extra.listed && m.events - base.events == extra.events
            && m.stored - base.stored == extra.stored && m.bookmarks - base.bookmarks == extra.bookmarks
            && m.deleted - base.deleted == extra.deleted
            && m.reconciledDeleted - base.reconciledDeleted == extra.reconciledDeleted
            && m.unknownVisibility - base.unknownVisibility == extra.unknownVisibility
            && m.relists - base.relists == extra.relists && m.retries - base.retries == extra.retries
            && m.watchErrors - base.watchErrors == extra.watchErrors
            && m.ingest.observations - base.ingest.observations == extra.ingest.observations
            && m.ingest.stored - base.ingest.stored == extra.ingest.stored
            && m.ingest.modified - base.ingest.modified == extra.ingest.modified
            && m.ingest.discardedChanges - base.ingest.discardedChanges == extra.ingest.discardedChanges
            && m.ingest.discardedResources - base.ingest.discardedResources == extra.ingest.discardedResources
    ensures extra.listed > 0 ==> MergeWatchSummary(base, extra).latestObjects == extra.latestObjects
  {
  }

  lemma Joined(a: seq<Observation>, b: seq<Observation>, c: seq<Observation>)
    ensures a + (b + c) == a + b + c
  {
  }

  /* ---------- the collector over its store ---------- */

  /** The state that the collector's functions update in place: the store and the running summary. */
  class ResourceWatcher {
    const store: MemoryStore
    const namespace: string
    var summary: WatchSummary

    constructor (store: MemoryStore, namespace: string, summary: WatchSummary)
      ensures this.store == store && this.namespace == namespace && this.summary == summary
    {
      this.store, this.namespace, this.summary := store, namespace, summary;
    }

    method ReconcileDeletedFromList(p: Pipeline, previous: seq<Ref>, items: seq<Ref>) returns (out: Reconciliation)
      modifies store
      ensures out == Reconciled(p, namespace, previous, CurrentKeys(items))
      ensures store.observations == old(store.observations) + out.stored
    {
      var current := KeysOfItems(items);
      out := Reconciliation(0, 0, ZERO, [], true);
      for i := 0 to |previous|
        invariant out.ok && out == Reconciled(p, namespace, previous[..i], current)
        invariant store.observations == old(store.observations) + out.stored
      {
        ReconciledNext(p, namespace, previous, current, i);
        var ref := previous[i];
        if !InNamespace(namespace, ref) {
          out := out.(unknown := out.unknown + 1);
          continue;
        }
        if Key(ref) in current {
          continue;
        }
        var size := |store.observations|;
        var added, ok := IngestJSON(p, [DeletedObservation(ref)], store);
        var written := store.observations[size..];
        if !ok {
          out := out.(stored := out.stored + written, ok := false);
          ReconciledAfterError(p, namespace, previous, current, i + 1);
          return;
        }
        out := out.(deleted := out.deleted + 1, ingest := Add(out.ingest, added), stored := out.stored + written);
      }
      assert previous[..|previous|] == previous;
    }

    /** `previous` is what the store knew before the list was asked for, in whatever order it reports it. */
    method ListResourceOnce(p: Pipeline, version: nat, items: seq<Ref>, previous: seq<Ref>) returns (ok: bool)
      modifies this`summary, store
      ensures var r := ListResource(p, namespace, old(summary), version, items, previous);
              summary == r.summary && ok == r.ok && store.observations == old(store.observations) + r.stored
    {
      summary := summary.(listed := summary.listed + |items|, latestObjects := |items|);
      summary := summary.(resourceVersion := Some(version));
      ghost var r := Ingested(p, ListedObservations(items));
      var ingested, listOk := IngestJSON(p, ListedObservations(items), store);
      if !listOk {
        ok := false;
        return;
      }
      summary := summary.(ingest := Add(summary.ingest, ingested), stored := summary.stored + ingested.stored);
      var reconciled := ReconcileDeletedFromList(p, previous, items);
      Joined(old(store.observations), r.stored, reconciled.stored);
      if !reconciled.ok {
        ok := false;
        return;
      }
      summary := summary.(deleted := summary.deleted + reconciled.deleted,
                          reconciledDeleted := summary.reconciledDeleted + reconciled.deleted,
                          unknownVisibility := summary.unknownVisibility + reconciled.unknown);
      summary := summary.(stored := summary.stored + reconciled.ingest.stored,
          ingest := Add(summary.ingest, reconciled.ingest));
      ok := true;
    }

    method HandleWatchEvent(p: Pipeline, m: Message) returns (ok: bool)
      modifies this`summary, store
      ensures var r := WatchEvent(p, old(summary), m);
              summary == r.summary && ok == r.ok && store.observations == old(store.observations) + r.stored
    {
      summary := summary.(resourceVersion := Some(m.resourceVersion));
      var ingested;
      ingested, ok := IngestJSON(p, [Observation(m.typ, m.ref, "event")], store);
      if !ok {
        return;
      }
      summary := summary.(events := summary.events + 1);
      if m.typ == Deleted {
        summary := summary.(deleted := summary.deleted + 1);
      }
      summary := summary.(stored := summary.stored + ingested.stored, ingest := Add(summary.ingest, ingested));
    }
  }

  /* ---------- what the steps do to the store's live keys ---------- */

  /** The pipeline keeps this observation: it is stored, as an observation of the same type of the same object. */
  predicate Keeps(p: Pipeline, o: Observation) {
    Fated(p, o) == Stored && Filtered(p, o).ref == o.ref && Filtered(p, o).typ == o.typ
  }

  lemma SingleIngest(p: Pipeline, o: Observation)
    ensures var r := Ingested(p, [o]);
            && (r.ok <==> Fated(p, o) != Errored)
            && r.stored == (if Fated(p, o) == Stored then [Filtered(p, o)] else [])
  {
    assert [o][..0] == [];
    assert Ingested(p, [o]) == IngestOne(p, Ingested(p, []), o);
  }

  lemma LiveKeysAfterAll(before: seq<Observation>, stored: seq<Observation>, o: Observation, namespace: string)
    requires InNamespace(namespace, o.ref)
    ensures var keys := LiveKeys(before + stored, namespace);
            LiveKeys(before + (stored + [o]), namespace) ==
              if o.typ == Deleted then keys - {Key(o.ref)} else keys + {Key(o.ref)}
  {
    assert before + (stored + [o]) == before + stored + [o];
    LiveKeysAfter(before + stored, o, namespace);
  }

  /** The filters drop the observation and nothing errs. */
  predicate Discarded(p: Pipeline, o: Observation) {
    Fated(p, o) == DroppedChange || Fated(p, o) == DroppedResource
  }

  /** A listed item does no harm if it is kept, or if it is dropped and its object was live already. */
  predicate HarmlessItem(p: Pipeline, live: set<string>, r: Ref) {
    var o := Observation(Modified, r, "item");
    Keeps(p, o) || (Key(r) in live && Discarded(p, o))
  }

  lemma IngestedItem(p: Pipeline, before: seq<Observation>, r: Result, item: Ref, namespace: string)
    requires HarmlessItem(p, LiveKeys(before, namespace), item) && InNamespace(namespace, item) && r.ok
    requires LiveKeys(before, namespace) <= LiveKeys(before + r.stored, namespace)
    ensures var next := IngestOne(p, r, Observation(Modified, item, "item"));
            next.ok &&
            LiveKeys(before + next.stored, namespace) == LiveKeys(before + r.stored, namespace) + {Key(item)}
  {
    var o := Observation(Modified, item, "item");
    if Keeps(p, o) {
      LiveKeysAfterAll(before, r.stored, Filtered(p, o), namespace);
    }
  }

  lemma {:induction false} IngestedItems(p: Pipeline, before: seq<Observation>, items: seq<Ref>, namespace: string)
    requires forall r <- items :: HarmlessItem(p, LiveKeys(before, namespace), r) && InNamespace(namespace, r)
    ensures var r := Ingested(p, ListedObservations(items));
            r.ok && LiveKeys(before + r.stored, namespace) == LiveKeys(before, namespace) + CurrentKeys(items)
    decreases |items|
  {
    if items == [] {
      assert before + [] == before;
    } else {
      var n := |items| - 1;
      var batch := ListedObservations(items);
      assert batch[..n] == ListedObservations(items[..n]);
      assert items[n] in items;
      IngestedItems(p, before, items[..n], namespace);
      CurrentKeysAppend(items);
      IngestedItem(p, before, Ingested(p, batch[..n]), items[n], namespace);
    }
  }

  lemma {:induction false} ReconciledKeys(p: Pipeline, before: seq<Observation>, previous: seq<Ref>,
      current: set<string>, namespace: string)
    requires forall r <- previous :: InNamespace(namespace, r)
    requires forall r <- previous :: Key(r) in current || Keeps(p, DeletedObservation(r))
    ensures var rec := Reconciled(p, namespace, previous, current);
            rec.ok && LiveKeys(before + rec.stored, namespace) ==
                LiveKeys(before, namespace) - (CurrentKeys(previous) - current)
    decreases |previous|
  {
    if previous == [] {
      assert before + [] == before;
    } else {
      var n := |previous| - 1;
      var ref, o := previous[n], DeletedObservation(previous[n]);
      ReconciledKeys(p, before, previous[..n], current, namespace);
      CurrentKeysAppend(previous);
      if Key(ref) !in current {
        SingleIngest(p, o);
        LiveKeysAfterAll(before, Reconciled(p, namespace, previous[..n], current).stored, Filtered(p, o), namespace);
      }
    }
  }

  /** The items and the previously known objects of a list are enumerations of the two sets, in any order. */
  ghost predicate Enumerates(items: seq<Ref>, refs: set<Ref>) {
    forall r :: r in items <==> r in refs
  }

  /** Nothing of the list is lost: `live` are the keys that the store holds as live beforehand. */
  predicate KeepsList(p: Pipeline, live: set<string>, items: seq<Ref>, previous: seq<Ref>) {
    && (forall r <- items :: HarmlessItem(p, live, r))
    && (forall r <- previous :: Key(r) in CurrentKeys(items) || Keeps(p, DeletedObservation(r)))
  }

  lemma KeysAfterBoth(before: seq<Observation>, listed: seq<Observation>, gone: seq<Observation>, namespace: string,
                      items: set<string>, previous: set<string>)
    requires LiveKeys(before + listed, namespace) == LiveKeys(before, namespace) + items
    requires LiveKeys(before + listed + gone, namespace) == LiveKeys(before + listed, namespace) - (previous - items)
    requires LiveKeys(before, namespace) == previous
    ensures LiveKeys(before + (listed + gone), namespace) == items
  {
    Joined(before, listed, gone);
  }

  lemma ListedKeys(p: Pipeline, namespace: string, s: WatchSummary, before: seq<Observation>, version: nat,
                   items: seq<Ref>, previous: seq<Ref>)
    requires forall r :: r in items || r in previous ==> InNamespace(namespace, r)
    requires KeepsList(p, LiveKeys(before, namespace), items, previous)
    requires LiveKeys(before, namespace) == CurrentKeys(previous)
    ensures var r := ListResource(p, namespace, s, version, items, previous);
            r.ok && LiveKeys(before + r.stored, namespace) == CurrentKeys(items)
  {
    var listed := Ingested(p, ListedObservations(items));
    var gone := Reconciled(p, namespace, previous, CurrentKeys(items));
    IngestedItems(p, before, items, namespace);
    ReconciledKeys(p, before + listed.stored, previous, CurrentKeys(items), namespace);
    KeysAfterBoth(before, listed.stored, gone.stored, namespace, CurrentKeys(items), CurrentKeys(previous));
    ListStores(p, namespace, s, version, items, previous);
  }

  lemma ListStores(p: Pipeline, namespace: string, s: WatchSummary, version: nat, items: seq<Ref>, previous: seq<Ref>)
    requires Ingested(p, ListedObservations(items)).ok && Reconciled(p, namespace, previous, CurrentKeys(items)).ok
    ensures var r := ListResource(p, namespace, s, version, items, previous);
            r.ok && r.stored == Ingested(p, ListedObservations(items)).stored +
                                Reconciled(p, namespace, previous, CurrentKeys(items)).stored
  {
  }

  /** A list brings the store in step with the cluster from ANY earlier content of the store. */
  lemma ListBringsInStep(p: Pipeline, scope: Scope, s: WatchSummary, before: seq<Observation>, log: seq<Entry>, n: nat,
                         items: seq<Ref>, previous: seq<Ref>)
    requires WellFormed(scope, log) && n <= |log|
    requires scope.namespaced || scope.namespace == ""
    requires Enumerates(items, VisibleRefs(scope, log[..n]))
    requires Enumerates(previous, LatestResourceRefs(before, scope.namespace))
    requires KeepsList(p, LiveKeys(before, scope.namespace), items, previous)
    ensures var r := ListResource(p, scope.namespace, s, n, items, previous);
            r.ok && InStep(scope, before + r.stored, log, n)
  {
    RefsHaveTheLiveKeys(before, scope.namespace);
    SameKeys(items, VisibleRefs(scope, log[..n]));
    SameKeys(previous, LatestResourceRefs(before, scope.namespace));
    ListedKeys(p, scope.namespace, s, before, n, items, previous);
  }

  /* ---------- lists that fail on the way ---------- */

  /** What is stored of the observation, if anything, is an observation of the same type of the same object. */
  predicate AsIs(p: Pipeline, o: Observation) {
    Fated(p, o) == Stored ==> Keeps(p, o)
  }

  predicate StoresAsIs(p: Pipeline, items: seq<Ref>, previous: seq<Ref>) {
    && (forall r <- items :: AsIs(p, Observation(Modified, r, "item")))
    && (forall r <- previous :: Key(r) in CurrentKeys(items) || AsIs(p, DeletedObservation(r)))
  }

  lemma {:induction false} PartOfItems(p: Pipeline, before: seq<Observation>, items: seq<Ref>, namespace: string)
    requires forall r <- items :: AsIs(p, Observation(Modified, r, "item")) && InNamespace(namespace, r)
    ensures var keys := LiveKeys(before + Ingested(p, ListedObservations(items)).stored, namespace);
            LiveKeys(before, namespace) <= keys <= LiveKeys(before, namespace) + CurrentKeys(items)
    decreases |items|
  {
    if items == [] {
      assert before + [] == before;
    } else {
      var n := |items| - 1;
      var batch, o := ListedObservations(items), Observation(Modified, items[n], "item");
      assert batch[..n] == ListedObservations(items[..n]);
      assert items[n] in items;
      PartOfItems(p, before, items[..n], namespace);
      CurrentKeysAppend(items);
      if Fated(p, o) == Stored {
        LiveKeysAfterAll(before, Ingested(p, batch[..n]).stored, Filtered(p, o), namespace);
      }
    }
  }

  lemma {:induction false} PartOfReconciled(p: Pipeline, before: seq<Observation>, previous: seq<Ref>,
      current: set<string>,
                                            namespace: string)
    requires forall r <- previous :: Key(r) in current || AsIs(p, DeletedObservation(r))
    ensures var keys := LiveKeys(before + Reconciled(p, namespace, previous, current).stored, namespace);
            LiveKeys(before, namespace) * current <= keys <= LiveKeys(before, namespace)
    decreases |previous|
  {
    if previous == [] {
      assert before + [] == before;
    } else {
      var n := |previous| - 1;
      var ref, o := previous[n], DeletedObservation(previous[n]);
      assert ref in previous;
      PartOfReconciled(p, before, previous[..n], current, namespace);
      var so := Reconciled(p, namespace, previous[..n], current);
      if so.ok && InNamespace(namespace, ref) && Key(ref) !in current {
        SingleIngest(p, o);
        if Fated(p, o) == Stored {
          LiveKeysAfterAll(before, so.stored, Filtered(p, o), namespace);
        } else {
          assert so.stored + [] == so.stored;
        }
      }
    }
  }

  /** However far a list gets, whatever it stores: what was live and is listed stays live, and nothing becomes live that
      was neither. */
  lemma PartOfList(p: Pipeline, namespace: string, s: WatchSummary, before: seq<Observation>, version: nat,
                   items: seq<Ref>, previous: seq<Ref>)
    requires (forall r <- items :: InNamespace(namespace, r)) && StoresAsIs(p, items, previous)
    ensures var (live, listed) := (LiveKeys(before, namespace), CurrentKeys(items));
            var keys := LiveKeys(before + ListResource(p, namespace, s, version, items, previous).stored, namespace);
            live * listed <= keys <= live + listed
  {
    var listed := Ingested(p, ListedObservations(items));
    var gone := Reconciled(p, namespace, previous, CurrentKeys(items));
    PartOfItems(p, before, items, namespace);
    PartOfReconciled(p, before + listed.stored, previous, CurrentKeys(items), namespace);
    Joined(before, listed.stored, gone.stored);
    ListStoresPart(s, listed, gone);
  }

  lemma ListStoresPart(s: WatchSummary, r: Result, rec: Reconciliation)
    ensures ListOutcome(s, r, rec).stored == if r.ok then r.stored + rec.stored else r.stored
  {
  }

  lemma SameKeys(items: seq<Ref>, refs: set<Ref>)
    requires Enumerates(items, refs)
    ensures CurrentKeys(items) == Keys(refs)
  {
    assert (set r | r in items) == refs;
  }

  /** Delivering the next visible event moves store and cluster together. */
  lemma EventKeepsInStep(p: Pipeline, scope: Scope, s: WatchSummary, before: seq<Observation>, log: seq<Entry>, at: nat,
      i: nat)
    requires WellFormed(scope, log) && at <= i < |log|
    requires InStep(scope, before, log, at) && Quiet(scope, log, at, i)
    requires log[i].Event? && Visible(scope, log[i].ref)
    requires Keeps(p, Observation(log[i].typ, log[i].ref, "event"))
    ensures var r := WatchEvent(p, s, Message(log[i].typ, log[i].ref, i + 1));
            r.ok && InStep(scope, before + r.stored, log, i + 1)
  {
    var o := Observation(log[i].typ, log[i].ref, "event");
    QuietKeepsVisible(scope, log, at, i);
    VisibleAfter(scope, log, i);
    SingleIngest(p, o);
    LiveKeysAfter(before, Filtered(p, o), ServerNamespace(scope));
  }

  /** What a lost event costs. When the ingest of an event stores nothing, the resource version has moved all
      the same, so the stream will never bring the event again: the store stays in step exactly when the event
      was a modification, which changes no key. */
  lemma LostEventExactly(p: Pipeline, scope: Scope, s: WatchSummary, before: seq<Observation>, log: seq<Entry>, at: nat,
      i: nat)
    requires WellFormed(scope, log) && at <= i < |log|
    requires InStep(scope, before, log, at) && Quiet(scope, log, at, i)
    requires log[i].Event? && Visible(scope, log[i].ref)
    requires Fated(p, Observation(log[i].typ, log[i].ref, "event")) != Stored
    ensures var r := WatchEvent(p, s, Message(log[i].typ, log[i].ref, i + 1));
            && r.summary.resourceVersion == Some(i + 1)
            && (InStep(scope, before + r.stored, log, i + 1) <==> log[i].typ == Modified)
  {
    var ref := log[i].ref;
    QuietKeepsVisible(scope, log, at, i);
    VisibleAfter(scope, log, i);
    SingleIngest(p, Observation(log[i].typ, ref, "event"));
    var r := WatchEvent(p, s, Message(log[i].typ, ref, i + 1));
    assert before + r.stored == before;
    assert Admissible(scope, LiveRefs(log[..i]), log[i]);
    assert Key(ref) in Keys(VisibleRefs(scope, log[..i])) <==> log[i].typ != Added by {
      if log[i].typ != Added {
        assert ref in VisibleRefs(scope, log[..i]);
      }
    }
  }

  /* ---------- a store between two versions ---------- */

  /** An event that is kept, or a modification that is not stored at all. */
  predicate Harmless(p: Pipeline, o: Observation) {
    Keeps(p, o) || (o.typ == Modified && Fated(p, o) != Stored)
  }

  /** The next visible event, after which the stream stands at its version. */
  lemma EventKeepsBetween(p: Pipeline, scope: Scope, s: WatchSummary, before: seq<Observation>, log: seq<Entry>,
      at: nat,
                          h: nat, i: nat, top: nat)
    requires WellFormed(scope, log) && at <= h <= |log| && Between(scope, before, log, at, h)
    requires at <= i < |log| && Quiet(scope, log, at, i) && log[i].Event? && Visible(scope, log[i].ref)
    requires Harmless(p, Observation(log[i].typ, log[i].ref, "event"))
    requires i + 1 <= top <= |log| && h <= top
    ensures Between(scope, before + WatchEvent(p, s, Message(log[i].typ, log[i].ref, i + 1)).stored, log, i + 1, top)
  {
    var o := Observation(log[i].typ, log[i].ref, "event");
    var after := before + WatchEvent(p, s, Message(log[i].typ, log[i].ref, i + 1)).stored;
    BetweenMoves(scope, before, log, at, h, i, top);
    VisibleAfter(scope, log, i);
    EventEffect(p, scope, s, before, log, i);
    var next: nat := i + 1;
    forall k ensures SomeAsOf(scope, after, log, k, next, top) {
      assert SomeAsOf(scope, before, log, k, i, top);
      var u: nat :| i <= u <= top && AsOf(scope, before, log, k, u);
      if (k == Key(o.ref) && Keeps(p, o)) || u == i {
        assert AsOf(scope, after, log, k, next);
      } else {
        assert AsOf(scope, after, log, k, u);
      }
    }
  }

  /** What a harmless event does to the store's keys, and that a modified object was live. */
  lemma EventEffect(p: Pipeline, scope: Scope, s: WatchSummary, before: seq<Observation>, log: seq<Entry>, i: nat)
    requires WellFormed(scope, log) && i < |log| && log[i].Event? && Visible(scope, log[i].ref)
    requires Harmless(p, Observation(log[i].typ, log[i].ref, "event"))
    ensures var (o, live) := (Observation(log[i].typ, log[i].ref, "event"), LiveKeys(before, ServerNamespace(scope)));
            LiveKeys(before + WatchEvent(p, s, Message(log[i].typ, log[i].ref, i + 1)).stored,
                ServerNamespace(scope)) ==
              if !Keeps(p, o) then live else if o.typ == Deleted then live - {Key(o.ref)} else live + {Key(o.ref)}
    ensures log[i].typ == Modified ==> Key(log[i].ref) in Keys(VisibleRefs(scope, log[..i]))
  {
    var o := Observation(log[i].typ, log[i].ref, "event");
    SingleIngest(p, o);
    LiveKeysAfter(before, Filtered(p, o), ServerNamespace(scope));
    assert before + [] == before;
    assert Admissible(scope, LiveRefs(log[..i]), log[i]);
    if log[i].typ == Modified {
      assert log[i].ref in VisibleRefs(scope, log[..i]);
    }
  }

  /** A list, however far it gets: each key is as it was or as it was listed. */
  lemma ListKeepsBetween(p: Pipeline, scope: Scope, s: WatchSummary, before: seq<Observation>, log: seq<Entry>, c: nat,
      h: nat,
                         n: nat, items: seq<Ref>, previous: seq<Ref>, top: nat)
    requires WellFormed(scope, log) && c <= h <= |log| && Between(scope, before, log, c, h) && c <= n <= |log|
    requires n <= top <= |log| && h <= top
    requires scope.namespaced || scope.namespace == ""
    requires Enumerates(items, VisibleRefs(scope, log[..n])) && StoresAsIs(p, items, previous)
    ensures Between(scope, before + ListResource(p, scope.namespace, s, n, items, previous).stored, log, c, top)
  {
    var after := before + ListResource(p, scope.namespace, s, n, items, previous).stored;
    PartOfList(p, scope.namespace, s, before, n, items, previous);
    SameKeys(items, VisibleRefs(scope, log[..n]));
    forall k ensures SomeAsOf(scope, after, log, k, c, top) {
      assert SomeAsOf(scope, before, log, k, c, h);
      var u: nat :| c <= u <= h && AsOf(scope, before, log, k, u);
      if k in LiveKeys(after, scope.namespace) <==> k in LiveKeys(before, scope.namespace) {
        assert AsOf(scope, after, log, k, u);
      } else {
        assert AsOf(scope, after, log, k, n);
      }
    }
  }
}
