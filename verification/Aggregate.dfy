/** The totals over all workers of a watch: recomputed from the workers, those that failed left out. */
module Aggregate {
  import opened Ingest
  import opened Collector
  import opened CollectorRuns
  import opened Wrappers

  datatype Worker = Worker(error: string, summary: Option<WatchSummary>)

  /** `totals` keeps neither a version nor an object count: those belong to a single resource. */
  datatype Totals = Totals(completed: nat, errors: nat, totals: WatchSummary)

  predicate Counts(w: Worker) {
    w.error == "" && w.summary.Some?
  }

  function AddTotals(total: WatchSummary, worker: WatchSummary): WatchSummary {
    MergeWatchSummary(total, worker).(latestObjects := total.latestObjects, resourceVersion := total.resourceVersion)
  }

  function Aggregated(workers: seq<Worker>): Totals {
    if workers == [] then Totals(0, 0, EMPTY)
    else
      var before, w := Aggregated(workers[..|workers| - 1]), workers[|workers| - 1];
      if w.error != "" then before.(errors := before.errors + 1)
      else if w.summary.None? then before
      else Totals(before.completed + 1, before.errors, AddTotals(before.totals, w.summary.value))
  }

  /** The summary that is updated in place, whatever it held before. */
  class WatchResourcesSummary {
    var workers: seq<Worker>
    var state: Totals

    constructor (workers: seq<Worker>, state: Totals)
      ensures this.workers == workers && this.state == state
    {
      this.workers, this.state := workers, state;
    }

    method Aggregate()
      modifies this`state
      ensures state == Aggregated(workers)
    {
      state := Totals(0, 0, EMPTY);
      for i := 0 to |workers|
        invariant state == Aggregated(workers[..i])
      {
        assert workers[..i + 1][..i] == workers[..i];
        var worker := workers[i];
        if worker.error != "" {
          state := state.(errors := state.errors + 1);
          continue;
        }
        if worker.summary.None? {
          continue;
        }
        state := Totals(state.completed + 1, state.errors, AddTotals(state.totals, worker.summary.value));
      }
      assert workers[..|workers|] == workers;
    }
  }

  /** If the books of every worker balance, so do the totals; every worker is completed, failed or without a summary;
      and what the totals say was stored is what the completed workers stored, and nobody else. */
  lemma {:induction false} TotalsBalance(workers: seq<Worker>)
    requires forall w <- workers :: Counts(w) ==> Balanced(w.summary.value)
    ensures var r := Aggregated(workers);
            && Balanced(r.totals)
            && r.completed == |Completed(workers)| && r.completed + r.errors <= |workers|
            && r.errors == |Errors(workers)|
            && r.totals.stored == StoredBy(Completed(workers))
  {
    if workers != [] {
      var init, last := workers[..|workers| - 1], workers[|workers| - 1];
      assert workers == init + [last];
      TotalsBalance(init);
      assert last in workers;
      if Counts(last) {
        assert (Completed(init) + [last.summary.value])[..|Completed(init)|] == Completed(init);
      } else {
        assert Completed(init) + [] == Completed(init);
      }
    }
  }

  /** What the workers that failed say, in order. */
  function Errors(workers: seq<Worker>): seq<string> {
    if workers == [] then []
    else
      var last := workers[|workers| - 1];
      Errors(workers[..|workers| - 1]) + if last.error != "" then [last.error] else []
  }

  function Completed(workers: seq<Worker>): seq<WatchSummary> {
    if workers == [] then []
    else
      var last := workers[|workers| - 1];
      Completed(workers[..|workers| - 1]) + if Counts(last) then [last.summary.value] else []
  }

  function SumOf(summaries: seq<WatchSummary>, counter: WatchSummary -> nat): nat {
    if summaries == [] then 0
    else SumOf(summaries[..|summaries| - 1], counter) + counter(summaries[|summaries| - 1])
  }

  /** A counter that starts at zero and adds up when two summaries are folded. */
  ghost predicate AddsUp(counter: WatchSummary -> nat) {
    counter(EMPTY) == 0 && forall a, b :: counter(AddTotals(a, b)) == counter(a) + counter(b)
  }

  lemma {:induction false} TotalIsSum(workers: seq<Worker>, counter: WatchSummary -> nat)
    requires AddsUp(counter)
    ensures counter(Aggregated(workers).totals) == SumOf(Completed(workers), counter)
  {
    if workers != [] {
      var init, last := workers[..|workers| - 1], workers[|workers| - 1];
      TotalIsSum(init, counter);
      if Counts(last) {
        assert (Completed(init) + [last.summary.value])[..|Completed(init)|] == Completed(init);
      } else {
        assert Completed(init) + [] == Completed(init);
      }
    }
  }

  /** Every total is the sum of what the completed workers counted, and the rest is as in an empty summary. */
  lemma TotalsAreSums(workers: seq<Worker>)
    ensures var (t, done) := (Aggregated(workers).totals, Completed(workers));
            && t.listed == SumOf(done, (s: WatchSummary) => s.listed)
            && t.events == SumOf(done, (s: WatchSummary) => s.events)
            && t.stored == SumOf(done, (s: WatchSummary) => s.stored)
            && t.bookmarks == SumOf(done, (s: WatchSummary) => s.bookmarks)
            && t.deleted == SumOf(done, (s: WatchSummary) => s.deleted)
            && t.reconciledDeleted == SumOf(done, (s: WatchSummary) => s.reconciledDeleted)
            && t.unknownVisibility == SumOf(done, (s: WatchSummary) => s.unknownVisibility)
            && t.relists == SumOf(done, (s: WatchSummary) => s.relists)
            && t.retries == SumOf(done, (s: WatchSummary) => s.retries)
            && t.watchErrors == SumOf(done, (s: WatchSummary) => s.watchErrors)
            && t.latestObjects == 0 && t.resourceVersion == None
  {
    TotalIsSum(workers, (s: WatchSummary) => s.listed);
    TotalIsSum(workers, (s: WatchSummary) => s.events);
    TotalIsSum(workers, (s: WatchSummary) => s.stored);
    TotalIsSum(workers, (s: WatchSummary) => s.bookmarks);
    TotalIsSum(workers, (s: WatchSummary) => s.deleted);
    TotalIsSum(workers, (s: WatchSummary) => s.reconciledDeleted);
    TotalIsSum(workers, (s: WatchSummary) => s.unknownVisibility);
    TotalIsSum(workers, (s: WatchSummary) => s.relists);
    TotalIsSum(workers, (s: WatchSummary) => s.retries);
    TotalIsSum(workers, (s: WatchSummary) => s.watchErrors);
    TotalsKeepNoVersion(workers);
  }

  lemma {:induction false} TotalsKeepNoVersion(workers: seq<Worker>)
    ensures Aggregated(workers).totals.latestObjects == 0 && Aggregated(workers).totals.resourceVersion == None
  {
    if workers != [] {
      TotalsKeepNoVersion(workers[..|workers| - 1]);
    }
  }

  function StoredBy(summaries: seq<WatchSummary>): nat {
    if summaries == [] then 0 else StoredBy(summaries[..|summaries| - 1]) + summaries[|summaries| - 1].stored
  }
}
