/** The ingest pipeline: a filter chain that stops at the first discard, and the loop that classifies,
    counts and stores every observation of a batch. */
module Ingest {

  datatype Ref = Ref(namespace: string, name: string, uid: string)

  datatype ObservationType = Added | Modified | Deleted

  datatype Observation = Observation(typ: ObservationType, ref: Ref, document: string)

  datatype Outcome = Keep | KeepModified | DiscardChange | DiscardResource

  datatype Verdict = Verdict(obs: Observation, outcome: Outcome) | Failed

  type Filter = Observation -> Verdict

  predicate IsDiscard(o: Outcome) {
    o == DiscardChange || o == DiscardResource
  }

  /* ---------- the filter chain ---------- */

  datatype ChainResult = ChainResult(obs: Observation, decisions: seq<Outcome>, ok: bool)

  /** What the first `n` filters of the chain leave behind. */
  function ChainPrefix(chain: seq<Filter>, n: nat, obs: Observation): (r: ChainResult)
    requires n <= |chain|
  {
    if n == 0 then ChainResult(obs, [], true)
    else
      var r := ChainPrefix(chain, n - 1, obs);
      if !r.ok || Stopped(r.decisions) then r
      else match chain[n - 1](r.obs)
        case Failed => r.(ok := false)
        case Verdict(next, outcome) => ChainResult(next, r.decisions + [outcome], true)
  }

  predicate Stopped(decisions: seq<Outcome>) {
    decisions != [] && IsDiscard(decisions[|decisions| - 1])
  }

  lemma {:induction false} ChainStays(chain: seq<Filter>, i: nat, n: nat, obs: Observation)
    requires i <= n <= |chain|
    requires !ChainPrefix(chain, i, obs).ok || Stopped(ChainPrefix(chain, i, obs).decisions)
    ensures ChainPrefix(chain, n, obs) == ChainPrefix(chain, i, obs)
    decreases n
  {
    if i < n {
      ChainStays(chain, i, n - 1, obs);
    }
  }

  method ApplyChain(chain: seq<Filter>, obs: Observation) returns (r: ChainResult)
    ensures r == ChainPrefix(chain, |chain|, obs)
  {
    r := ChainResult(obs, [], true);
    var i := 0;
    while i < |chain|
      invariant 0 <= i <= |chain|
      invariant r == ChainPrefix(chain, i, obs)
      invariant r.ok && !Stopped(r.decisions)
    {
      match chain[i](r.obs) {
        case Failed =>
          r := r.(ok := false);
        case Verdict(next, outcome) =>
          r := ChainResult(next, r.decisions + [outcome], true);
      }
      i := i + 1;
      if !r.ok || Stopped(r.decisions) {
        ChainStays(chain, i, |chain|, obs);
        return;
      }
    }
  }

  /** A chain stops at its first discard: no decision but the last can be one, so an observation is never
      discarded twice, and a chain that ends clean has asked every filter. */
  lemma {:induction false} DiscardEndsTheChain(chain: seq<Filter>, n: nat, obs: Observation)
    requires n <= |chain|
    ensures var r := ChainPrefix(chain, n, obs);
            && (forall i :: 0 <= i < |r.decisions| - 1 ==> !IsDiscard(r.decisions[i]))
            && (r.ok && !Stopped(r.decisions) ==> |r.decisions| == n)
            && !(DiscardChange in r.decisions && DiscardResource in r.decisions)
  {
    if n > 0 {
      DiscardEndsTheChain(chain, n - 1, obs);
    }
  }

  /** The way of an observation through a chain: filter k is given `seen[k]`, and what it returns is `seen[k + 1]`. A
      chain that fails does so at the first filter whose decision is missing, on what the one before it returned. */
  ghost predicate Threads(chain: seq<Filter>, r: ChainResult, seen: seq<Observation>) {
    && |seen| == |r.decisions| + 1 <= |chain| + 1
    && r.obs == seen[|r.decisions|]
    && (forall k :: 0 <= k < |r.decisions| ==> chain[k](seen[k]) == Verdict(seen[k + 1], r.decisions[k]))
    && (!r.ok ==> |r.decisions| < |chain| && chain[|r.decisions|](r.obs) == Failed)
  }

  lemma {:induction false} PrefixThreads(chain: seq<Filter>, n: nat, obs: Observation) returns (seen: seq<Observation>)
    requires n <= |chain|
    ensures Threads(chain, ChainPrefix(chain, n, obs), seen) && seen[0] == obs
    ensures |ChainPrefix(chain, n, obs).decisions| <= n
  {
    if n == 0 {
      seen := [obs];
    } else {
      seen := PrefixThreads(chain, n - 1, obs);
      var before, after := ChainPrefix(chain, n - 1, obs), ChainPrefix(chain, n, obs);
      if |after.decisions| > |before.decisions| {
        DiscardEndsTheChain(chain, n - 1, obs);
        seen := seen + [after.obs];
      } else if before.ok && !after.ok {
        DiscardEndsTheChain(chain, n - 1, obs);
      }
    }
  }

  /** Where a chain may end: at its first discard, at a failure, or when every filter has been asked. */
  predicate EndsWell(chain: seq<Filter>, r: ChainResult) {
    && (forall i :: 0 <= i < |r.decisions| - 1 ==> !IsDiscard(r.decisions[i]))
    && (if r.ok then Stopped(r.decisions) || |r.decisions| == |chain| else !Stopped(r.decisions))
  }

  lemma {:induction false} PrefixOf(chain: seq<Filter>, r: ChainResult, seen: seq<Observation>, k: nat)
    requires Threads(chain, r, seen) && EndsWell(chain, r) && k <= |r.decisions|
    ensures ChainPrefix(chain, k, seen[0]) == ChainResult(seen[k], r.decisions[..k], true)
  {
    if k > 0 {
      PrefixOf(chain, r, seen, k - 1);
      assert r.decisions[..k] == r.decisions[..k - 1] + [r.decisions[k - 1]];
    }
  }

  /** What a chain gives, exactly: each filter gets what the one before it returned, and the last to be asked
      decides how the chain ends. */
  lemma ChainExactly(chain: seq<Filter>, obs: Observation, r: ChainResult)
    ensures r == ChainPrefix(chain, |chain|, obs) <==>
            EndsWell(chain, r) && exists seen :: Threads(chain, r, seen) && seen[0] == obs
  {
    var whole := ChainPrefix(chain, |chain|, obs);
    var seen := PrefixThreads(chain, |chain|, obs);
    DiscardEndsTheChain(chain, |chain|, obs);
    FailureIsNoDiscard(chain, |chain|, obs);
    if EndsWell(chain, r) && exists other :: Threads(chain, r, other) && other[0] == obs {
      var other :| Threads(chain, r, other) && other[0] == obs;
      var n := |r.decisions|;
      PrefixOf(chain, r, other, n);
      assert r.decisions[..n] == r.decisions;
      if !r.ok {
        assert ChainPrefix(chain, n + 1, obs) == r;
        ChainStays(chain, n + 1, |chain|, obs);
      } else if n < |chain| {
        ChainStays(chain, n, |chain|, obs);
      }
    }
  }

  lemma {:induction false} FailureIsNoDiscard(chain: seq<Filter>, n: nat, obs: Observation)
    requires n <= |chain|
    ensures var r := ChainPrefix(chain, n, obs); !r.ok ==> !Stopped(r.decisions)
  {
    if n > 0 {
      FailureIsNoDiscard(chain, n - 1, obs);
    }
  }

  /* ---------- one observation ---------- */

  /** Everything an ingest call depends on: the chain chosen for an observation's profile, and which of the later calls
      (recording the decisions, storing the raw object, extraction, storing) fail. */
  datatype Pipeline = Pipeline(chainFor: Observation -> seq<Filter>, decisionsFail: Observation -> bool,
                               rawFails: Observation -> bool, extractFails: Observation -> bool,
                                   putFails: Observation -> bool)

  datatype Fate = Stored | DroppedChange | DroppedResource | Errored

  function Chained(p: Pipeline, obs: Observation): ChainResult {
    ChainPrefix(p.chainFor(obs), |p.chainFor(obs)|, obs)
  }

  function Fated(p: Pipeline, obs: Observation): Fate {
    var r := Chained(p, obs);
    if !r.ok || p.decisionsFail(r.obs) then Errored
    else if DiscardResource in r.decisions then DroppedResource
    else if p.rawFails(obs) then Errored
    else if DiscardChange in r.decisions && r.obs.typ != Deleted then DroppedChange
    else if p.extractFails(r.obs) || p.putFails(r.obs) then Errored
    else Stored
  }

  function Filtered(p: Pipeline, obs: Observation): Observation {
    Chained(p, obs).obs
  }

  predicate ModifiedByChain(p: Pipeline, obs: Observation) {
    KeepModified in Chained(p, obs).decisions
  }

  /** Of an observation that errs: whether it had come as far as being counted as modified. */
  predicate ErredLate(p: Pipeline, obs: Observation) {
    var r := Chained(p, obs);
    r.ok && !p.decisionsFail(r.obs) && !p.rawFails(obs)
  }

  /* ---------- a batch ---------- */

  datatype Summary = Summary(observations: nat, stored: nat, modified: nat, discardedChanges: nat,
      discardedResources: nat)

  const ZERO := Summary(0, 0, 0, 0, 0)

  function Add(total: Summary, next: Summary): Summary {
    Summary(total.observations + next.observations, total.stored + next.stored, total.modified + next.modified,
            total.discardedChanges + next.discardedChanges, total.discardedResources + next.discardedResources)
  }

  datatype Result = Result(summary: Summary, stored: seq<Observation>, ok: bool)

  /** One turn of the loop: what observation `obs` adds to the counters and the store. */
  function IngestOne(p: Pipeline, before: Result, obs: Observation): Result {
    var s := before.summary.(observations := before.summary.observations + 1);
    var touched := s.(modified := s.modified + if ModifiedByChain(p, obs) then 1 else 0);
    match Fated(p, obs)
    case DroppedResource => before.(summary := s.(discardedResources := s.discardedResources + 1))
    case DroppedChange => before.(summary := s.(discardedChanges := s.discardedChanges + 1))
    case Stored => Result(touched.(stored := s.stored + 1), before.stored + [Filtered(p, obs)], true)
    case Errored => before.(summary := if ErredLate(p, obs) then touched else s, ok := false)
  }

  /** What a batch counts and stores; nothing after the first error is looked at. */
  function Ingested(p: Pipeline, inputs: seq<Observation>): Result {
    if inputs == [] then Result(ZERO, [], true)
    else
      var before := Ingested(p, inputs[..|inputs| - 1]);
      if before.ok then IngestOne(p, before, inputs[|inputs| - 1]) else before
  }

  lemma {:induction false} IngestedAfterError(p: Pipeline, inputs: seq<Observation>, i: nat)
    requires i <= |inputs| && !Ingested(p, inputs[..i]).ok
    ensures Ingested(p, inputs) == Ingested(p, inputs[..i])
    decreases |inputs|
  {
    if i == |inputs| {
      assert inputs[..i] == inputs;
    } else {
      assert inputs[..|inputs| - 1][..i] == inputs[..i];
      IngestedAfterError(p, inputs[..|inputs| - 1], i);
    }
  }

  function CountFate(p: Pipeline, inputs: seq<Observation>, fate: Fate): nat {
    if inputs == [] then 0
    else CountFate(p, inputs[..|inputs| - 1], fate) + (if Fated(p, inputs[|inputs| - 1]) == fate then 1 else 0)
  }

  /** How many observations are stored that some filter has modified. */
  function CountModified(p: Pipeline, inputs: seq<Observation>): nat {
    if inputs == [] then 0
    else
      var last := inputs[|inputs| - 1];
      CountModified(p, inputs[..|inputs| - 1]) +
        if Fated(p, last) == Stored && KeepModified in Chained(p, last).decisions then 1 else 0
  }

  /** The accounting law of a batch. A batch succeeds exactly when none of its observations errs; then each
      observation is counted once, under its own fate, and the store grew by exactly the stored ones. */
  lemma {:induction false} BatchAccounting(p: Pipeline, inputs: seq<Observation>)
    ensures var r := Ingested(p, inputs); var s := r.summary;
            && (r.ok <==> forall obs <- inputs :: Fated(p, obs) != Errored)
            && |r.stored| == s.stored
            && s.observations == s.stored + s.discardedChanges + s.discardedResources + (if r.ok then 0 else 1)
            && s.modified <= s.stored + (if r.ok then 0 else 1)
            && (r.ok ==> && s.observations == |inputs|
                         && s.stored == CountFate(p, inputs, Stored)
                         && s.discardedChanges == CountFate(p, inputs, DroppedChange)
                         && s.discardedResources == CountFate(p, inputs, DroppedResource)
                         && s.modified == CountModified(p, inputs))
  {
    if inputs != [] {
      var init, last := inputs[..|inputs| - 1], inputs[|inputs| - 1];
      assert inputs == init + [last];
      BatchAccounting(p, init);
    }
  }

  /** How many observations of a batch are no deletions once they are filtered. */
  function CountOther(p: Pipeline, inputs: seq<Observation>): nat {
    if inputs == [] then 0
    else CountOther(p, inputs[..|inputs| - 1]) + (if Filtered(p, inputs[|inputs| - 1]).typ != Deleted then 1 else 0)
  }

  /** A deletion is never lost as a mere change: whatever the chain decides short of discarding the resource, a
      deleted observation is stored or the batch fails. So the discarded changes of any batch are among its other
      observations. */
  lemma {:induction false} DeletionsAreNotChanges(p: Pipeline, inputs: seq<Observation>)
    ensures Ingested(p, inputs).summary.discardedChanges <= CountOther(p, inputs)
    ensures forall obs <- inputs :: Filtered(p, obs).typ == Deleted ==> Fated(p, obs) != DroppedChange
  {
    if inputs != [] {
      var init, last := inputs[..|inputs| - 1], inputs[|inputs| - 1];
      assert inputs == init + [last];
      DeletionsAreNotChanges(p, init);
    }
  }

  function Ending(r: ChainResult): Outcome {
    if r.decisions == [] then Keep else r.decisions[|r.decisions| - 1]
  }

  /** What becomes of an observation, by how its way through the chain ends and what fails after it. */
  lemma FatesExactly(p: Pipeline, obs: Observation, r: ChainResult, seen: seq<Observation>)
    requires Threads(p.chainFor(obs), r, seen) && seen[0] == obs && EndsWell(p.chainFor(obs), r)
    ensures Fated(p, obs) == DroppedResource <==> r.ok && !p.decisionsFail(r.obs) && Ending(r) == DiscardResource
    ensures Fated(p, obs) == DroppedChange <==>
            r.ok && !p.decisionsFail(r.obs) && !p.rawFails(obs) && Ending(r) == DiscardChange && r.obs.typ != Deleted
    ensures Fated(p, obs) == Stored <==>
            r.ok && !p.decisionsFail(r.obs) && !p.rawFails(obs) && !p.extractFails(r.obs) && !p.putFails(r.obs) &&
            (Ending(r) == Keep || Ending(r) == KeepModified || (Ending(r) == DiscardChange && r.obs.typ == Deleted))
  {
    ChainExactly(p.chainFor(obs), obs, r);
    if r.decisions != [] {
      assert forall i :: 0 <= i < |r.decisions| ==> r.decisions[i] in r.decisions;
      assert forall o: Outcome :: o in r.decisions && IsDiscard(o) ==> o == Ending(r);
    }
  }

  /** `out` is what the chain makes of the observation. */
  ghost predicate Leaves(p: Pipeline, obs: Observation, out: Observation) {
    exists r, seen :: Threads(p.chainFor(obs), r, seen) && EndsWell(p.chainFor(obs), r) && seen[0] == obs &&
      r.ok && r.obs == out
  }

  /** What a batch stores is what the chains make of the observations at these places, in their order. */
  ghost predicate StoredFrom(p: Pipeline, inputs: seq<Observation>, stored: seq<Observation>, at: seq<nat>) {
    && |at| == |stored|
    && (forall i, j :: 0 <= i < j < |at| ==> at[i] < at[j])
    && (forall k :: 0 <= k < |at| ==> at[k] < |inputs| && Leaves(p, inputs[at[k]], stored[k]))
  }

  lemma ChainLeaves(p: Pipeline, obs: Observation)
    requires Chained(p, obs).ok
    ensures Leaves(p, obs, Filtered(p, obs))
  {
    ChainExactly(p.chainFor(obs), obs, Chained(p, obs));
    var seen :| Threads(p.chainFor(obs), Chained(p, obs), seen) && seen[0] == obs;
  }

  /** The store grows by what the chains make of the observations whose fate it is to be stored, in their order. */
  lemma {:induction false} StoredInOrder(p: Pipeline, inputs: seq<Observation>) returns (at: seq<nat>)
    ensures StoredFrom(p, inputs, Ingested(p, inputs).stored, at)
    ensures forall i :: i in at ==> i < |inputs| && Fated(p, inputs[i]) == Stored
    ensures Ingested(p, inputs).ok ==> forall i :: 0 <= i < |inputs| && Fated(p, inputs[i]) == Stored ==> i in at
  {
    at := [];
    if inputs != [] {
      var n: nat := |inputs| - 1;
      at := StoredInOrder(p, inputs[..n]);
      forall k | 0 <= k < |at| ensures at[k] < n && Leaves(p, inputs[at[k]], Ingested(p, inputs[..n]).stored[k]) {
        assert inputs[..n][at[k]] == inputs[at[k]];
      }
      if Ingested(p, inputs[..n]).ok && Fated(p, inputs[n]) == Stored {
        ChainLeaves(p, inputs[n]);
        at := at + [n];
      }
    }
  }

  class MemoryStore {
    var observations: seq<Observation>

    constructor ()
      ensures observations == []
    {
      observations := [];
    }

    method PutObservation(obs: Observation)
      modifies this
      ensures observations == old(observations) + [obs]
    {
      observations := observations + [obs];
    }
  }

  /** The body of the loop: one observation through the chain, the discards, extraction and the store. */
  method IngestObservation(p: Pipeline, obs: Observation, store: MemoryStore, counted: Summary,
      ghost kept: seq<Observation>)
    returns (summary: Summary, ok: bool)
    modifies store
    ensures old(store.observations) <= store.observations
    ensures Result(summary, kept + store.observations[|old(store.observations)|..], ok) ==
            IngestOne(p, Result(counted, kept, true), obs)
  {
    summary, ok := counted.(observations := counted.observations + 1), true;
    var r := ApplyChain(p.chainFor(obs), obs);
    if !r.ok || p.decisionsFail(r.obs) {
      ok := false;
    } else if DiscardResource in r.decisions {
      summary := summary.(discardedResources := summary.discardedResources + 1);
    } else if p.rawFails(obs) {
      ok := false;
    } else if DiscardChange in r.decisions && r.obs.typ != Deleted {
      summary := summary.(discardedChanges := summary.discardedChanges + 1);
    } else {
      if KeepModified in r.decisions {
        summary := summary.(modified := summary.modified + 1);
      }
      if p.extractFails(r.obs) || p.putFails(r.obs) {
        ok := false;
      } else {
        store.PutObservation(r.obs);
        summary := summary.(stored := summary.stored + 1);
      }
    }
  }

  method IngestJSON(p: Pipeline, inputs: seq<Observation>, store: MemoryStore) returns (summary: Summary, ok: bool)
    modifies store
    ensures var r := Ingested(p, inputs);
            summary == r.summary && ok == r.ok && store.observations == old(store.observations) + r.stored
  {
    summary, ok := ZERO, true;
    for i := 0 to |inputs|
      invariant ok
      invariant var r := Ingested(p, inputs[..i]);
                summary == r.summary && r.ok && store.observations == old(store.observations) + r.stored
    {
      ghost var before := Ingested(p, inputs[..i]);
      assert inputs[..i + 1][..i] == inputs[..i];
      summary, ok := IngestObservation(p, inputs[i], store, summary, before.stored);
      if !ok {
        IngestedAfterError(p, inputs, i + 1);
        return;
      }
    }
    assert inputs[..|inputs|] == inputs;
  }
}
