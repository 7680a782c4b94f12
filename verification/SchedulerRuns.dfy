/** Workers sharing the scheduler, one schedule key each, interleaved at the granularity of its critical sections. */
module SchedulerRuns {
  import opened Scheduler
  import opened Wrappers

  /** What the score callback reads: each stream's profile and load, both of which may change between steps. */
  type Streams = string -> (Profile, Option<Load>)

  function ScoreBy(streams: Streams): Score {
    (key, queuedFor) => WatchScheduleScore(streams(key).0, streams(key).1, queuedFor)
  }

  function BaseOf(streams: Streams, key: string): int {
    Base(streams(key).0, streams(key).1)
  }

  /** `waiting` holds the request each queued worker got from `register`; `holders` the workers with a slot. */
  datatype System = System(sched: Sched, waiting: map<string, Request>, holders: set<string>, clock: int)

  /** acquire = Arrive, then Try until granted, or Cancel when its context ends; Finish is the release function. */
  datatype Step =
    | Arrive(key: string, now: int)
    | Try(key: string, streams: Streams, now: int)
    | Cancel(key: string)
    | Finish(key: string)

  ghost predicate Wins(s: System, step: Step) {
    step.Try? && Grants(s.sched, step.key, ScoreBy(step.streams), step.now)
  }

  predicate Enabled(s: System, step: Step) {
    match step
    case Arrive(key, now) => key !in s.waiting && key !in s.holders && s.clock <= now
    case Try(key, _, now) => key in s.waiting && s.clock <= now
    case Cancel(key) => key in s.waiting
    case Finish(key) => key in s.holders
  }

  ghost function Next(s: System, step: Step): System
    requires Enabled(s, step)
  {
    match step
    case Arrive(key, now) =>
      var sched := Registered(s.sched, key, now);
      System(sched, s.waiting[key := sched.requests[key]], s.holders, now)
    case Try(key, streams, now) =>
      if Wins(s, step) then System(Granted(s.sched, key), s.waiting - {key}, s.holders + {key}, now)
          else s.(clock := now)
    case Cancel(key) => s.(sched := Unregistered(s.sched, s.waiting[key]), waiting := s.waiting - {key})
    case Finish(key) => s.(sched := Released(s.sched), holders := s.holders - {key})
  }

  predicate Initial(s: System) {
    s.sched.limit > 0 && s.sched == Sched(s.sched.limit, 0, 0, map[]) && s.waiting == map[] && s.holders == {}
  }

  ghost predicate Run(trace: seq<System>, steps: seq<Step>) {
    && |trace| == |steps| + 1
    && Initial(trace[0])
    && forall i :: 0 <= i < |steps| ==> Enabled(trace[i], steps[i]) && trace[i + 1] == Next(trace[i], steps[i])
  }

  /* ---------- slot safety ---------- */

  predicate Numbered(s: System) {
    && (forall k <- s.waiting :: 0 < s.waiting[k].seqNo <= s.sched.nextSeq && s.waiting[k].queuedAt <= s.clock)
    && (forall k, l :: k in s.waiting && l in s.waiting && s.waiting[k].seqNo < s.waiting[l].seqNo ==>
          s.waiting[k].queuedAt <= s.waiting[l].queuedAt)
  }

  /** Slots in use are the holders, never more than the limit; the queue is the waiting workers and nobody else. */
  predicate SlotSafe(s: System) {
    && s.sched.active == |s.holders| <= s.sched.limit
    && s.sched.requests == s.waiting
    && s.waiting.Keys !! s.holders
    && WellKeyed(s.waiting)
  }

  lemma ArriveKeepsSlots(s: System, key: string, now: int)
    requires Enabled(s, Arrive(key, now)) && SlotSafe(s) && Numbered(s)
    ensures SlotSafe(Next(s, Arrive(key, now)))
  {
  }

  lemma TryKeepsSlots(s: System, key: string, streams: Streams, now: int)
    requires Enabled(s, Try(key, streams, now)) && SlotSafe(s)
    ensures SlotSafe(Next(s, Try(key, streams, now)))
  {
    if Wins(s, Try(key, streams, now)) {
      assert key !in s.holders && |s.holders + {key}| == |s.holders| + 1;
    }
  }

  lemma CancelKeepsSlots(s: System, key: string)
    requires Enabled(s, Cancel(key)) && SlotSafe(s)
    ensures SlotSafe(Next(s, Cancel(key)))
  {
  }

  lemma FinishKeepsSlots(s: System, key: string)
    requires Enabled(s, Finish(key)) && SlotSafe(s)
    ensures SlotSafe(Next(s, Finish(key)))
  {
    assert |s.holders - {key}| == |s.holders| - 1;
  }

  lemma StepKeeps(s: System, step: Step)
    requires Enabled(s, step) && SlotSafe(s) && Numbered(s)
    ensures var s' := Next(s, step); SlotSafe(s') && Numbered(s') && s'.sched.limit == s.sched.limit
  {
    StepKeepsNumbers(s, step);
    match step
    case Arrive(key, now) => ArriveKeepsSlots(s, key, now);
    case Try(key, streams, now) => TryKeepsSlots(s, key, streams, now);
    case Cancel(key) => CancelKeepsSlots(s, key);
    case Finish(key) => FinishKeepsSlots(s, key);
  }

  lemma StepKeepsNumbers(s: System, step: Step)
    requires Enabled(s, step) && SlotSafe(s) && Numbered(s)
    ensures Numbered(Next(s, step))
  {
  }

  lemma {:induction false} RunIsSlotSafe(trace: seq<System>, steps: seq<Step>, n: nat)
    requires Run(trace, steps) && n <= |steps|
    ensures SlotSafe(trace[n]) && Numbered(trace[n])
  {
    if n > 0 {
      RunIsSlotSafe(trace, steps, n - 1);
      StepKeeps(trace[n - 1], steps[n - 1]);
    }
  }

  /** How many workers have arrived before moment `n`. */
  function Arrivals(steps: seq<Step>, n: nat): nat
    requires n <= |steps|
  {
    if n == 0 then 0 else Arrivals(steps, n - 1) + if steps[n - 1].Arrive? then 1 else 0
  }

  lemma {:induction false} NumbersCountArrivals(trace: seq<System>, steps: seq<Step>, n: nat)
    requires Run(trace, steps) && n <= |steps|
    ensures trace[n].sched.nextSeq == Arrivals(steps, n)
  {
    if n > 0 {
      NumbersCountArrivals(trace, steps, n - 1);
      RunIsSlotSafe(trace, steps, n - 1);
      assert Enabled(trace[n - 1], steps[n - 1]);
    }
  }

  /** A worker's request is what its arrival made of it, and it has waited with it since: the time in the request
      is that of the arrival, and its number says how many had arrived by then. */
  lemma {:induction false} WaitsSinceArrival(trace: seq<System>, steps: seq<Step>, n: nat, key: string) returns (k: nat)
    requires Run(trace, steps) && n <= |steps| && key in trace[n].waiting
    ensures k < n && steps[k] == Arrive(key, trace[n].waiting[key].queuedAt)
    ensures trace[n].waiting[key].seqNo == Arrivals(steps, k + 1) && trace[n].waiting[key].key == key
    ensures forall j :: k < j <= n ==> key in trace[j].waiting && trace[j].waiting[key] == trace[n].waiting[key]
  {
    var m: nat := n - 1;
    assert m + 1 == n && Enabled(trace[m], steps[m]) && trace[n] == Next(trace[m], steps[m]);
    RunIsSlotSafe(trace, steps, m);
    if key in trace[m].waiting {
      k := WaitsSinceArrival(trace, steps, m, key);
    } else {
      NumbersCountArrivals(trace, steps, m);
      k := m;
    }
  }

  /** Work conservation: in every reachable state with a free slot and somebody waiting there is exactly one
      worker whose attempt succeeds, and with no free slot there is none. */
  lemma WorkConserving(trace: seq<System>, steps: seq<Step>, n: nat, score: Score, now: int)
    requires Run(trace, steps) && n <= |steps|
    ensures var s := trace[n];
            if |s.holders| < s.sched.limit && s.waiting != map[]
            then exists k :: k in s.waiting && forall l :: Grants(s.sched, l, score, now) <==> l == k
            else forall l :: !Grants(s.sched, l, score, now)
  {
    var s := trace[n];
    RunIsSlotSafe(trace, steps, n);
    if |s.holders| < s.sched.limit && s.waiting != map[] {
      var r := BestExists(score, now, s.sched.requests);
      forall l ensures Grants(s.sched, l, score, now) <==> l == r.key {
        if Grants(s.sched, l, score, now) {
          var o :| IsBest(score, now, s.sched.requests, o) && o.key == l;
          BestIsUnique(score, now, s.sched.requests, r, o);
        }
      }
    }
  }

  /* ---------- no overtaking ---------- */

  /** A grant passes an earlier request only on a strictly higher base score; and once the earlier request has
      waited four minutes, only when base and aging credit together exceed the earlier base by more than eighty. */
  lemma NoOvertaking(trace: seq<System>, steps: seq<Step>, n: nat, older: string)
    requires Run(trace, steps) && n < |steps| && Wins(trace[n], steps[n])
    requires older in trace[n].waiting && steps[n].key in trace[n].waiting
    requires trace[n].waiting[older].seqNo < trace[n].waiting[steps[n].key].seqNo
    ensures var (s, streams, now) := (trace[n], steps[n].streams, steps[n].now);
            var (p, q) := (s.waiting[older], s.waiting[steps[n].key]);
            && BaseOf(streams, q.key) > BaseOf(streams, p.key)
            && (streams(older).0.enabled && now - p.queuedAt >= 4 * MINUTE ==>
                  BaseOf(streams, q.key) + Aging(now - q.queuedAt) > BaseOf(streams, p.key) + 80)
  {
    RunIsSlotSafe(trace, steps, n);
    var (s, streams, now) := (trace[n], steps[n].streams, steps[n].now);
    var (p, q) := (s.waiting[older], s.waiting[steps[n].key]);
    assert Beats(ScoreBy(streams), now, q, p);
    ScoreIsBasePlusAging(streams(p.key).0, streams(p.key).1, now - p.queuedAt);
    ScoreIsBasePlusAging(streams(q.key).0, streams(q.key).1, now - q.queuedAt);
    AgingGrows(now - q.queuedAt, now - p.queuedAt);
    AgingGrows(now - p.queuedAt, now - p.queuedAt);
  }

  /* ---------- round robin: how often a waiting worker can be passed ---------- */

  function Earlier(s: System, p: Request): set<string> {
    set k <- s.waiting | s.waiting[k].seqNo < p.seqNo
  }

  /** Worker `key` waits with one and the same request from state `i` to state `n`. */
  predicate WaitsThrough(trace: seq<System>, key: string, p: Request, i: nat, n: nat)
    requires n < |trace|
  {
    forall j :: i <= j <= n ==> key in trace[j].waiting && trace[j].waiting[key] == p
  }

  ghost function GrantCount(trace: seq<System>, steps: seq<Step>, i: nat, n: nat): nat
    requires n <= |steps| < |trace|
  {
    if n <= i then 0 else GrantCount(trace, steps, i, n - 1) + (if Wins(trace[n - 1], steps[n - 1]) then 1 else 0)
  }

  /** Whoever is granted a slot between `i` and `n` has no higher base score than `key` at that moment. */
  ghost predicate NoBetterBase(trace: seq<System>, steps: seq<Step>, key: string, i: nat, n: nat)
    requires n <= |steps| < |trace|
  {
    forall j :: i <= j < n && Wins(trace[j], steps[j]) ==>
        BaseOf(steps[j].streams, steps[j].key) <= BaseOf(steps[j].streams, key)
  }

  /** Every slot granted between `i` and `n` goes to a worker of `before` that is not in `after`. */
  ghost predicate GrantedAmong(trace: seq<System>, steps: seq<Step>, i: nat, n: nat, before: set<string>,
      after: set<string>)
    requires n <= |steps| < |trace|
  {
    forall j :: i <= j < n && Wins(trace[j], steps[j]) ==> steps[j].key in before && steps[j].key !in after
  }

  ghost predicate GrantedOnce(trace: seq<System>, steps: seq<Step>, i: nat, n: nat)
    requires n <= |steps| < |trace|
  {
    forall j, k :: i <= j < k < n && Wins(trace[j], steps[j]) && Wins(trace[k], steps[k]) ==>
        steps[j].key != steps[k].key
  }

  lemma OneFewer(a: set<string>, b: set<string>, x: string)
    requires a <= b - {x} && x in b
    ensures |a| + 1 <= |b|
  {
    Smaller(a, b - {x});
  }

  /** In one step nobody gets in front of a request that goes on waiting, and a grant to an earlier one takes that
      one away. */
  lemma EarlierShrinks(s: System, step: Step, key: string, p: Request)
    requires Enabled(s, step) && SlotSafe(s) && Numbered(s) && key in s.waiting && s.waiting[key] == p
    requires key in Next(s, step).waiting
    requires Wins(s, step) ==> s.waiting[step.key].seqNo <= p.seqNo
    ensures Earlier(Next(s, step), p) <= Earlier(s, p)
    ensures Wins(s, step) ==> step.key in Earlier(s, p) && step.key !in Earlier(Next(s, step), p)
  {
    var s' := Next(s, step);
    forall k | k in Earlier(s', p) ensures k in Earlier(s, p) {
      assert k in s'.waiting && s'.waiting[k].seqNo < p.seqNo;
      assert k in s.waiting && s.waiting[k] == s'.waiting[k];
    }
  }

  /** Round robin: while a worker waits and nobody with a better base score is served, every grant goes to a
      worker that was already queued before it. Workers that release and queue again go behind it, so it is
      passed at most once by each of those that stood before it. */
  lemma {:induction false} BoundedOvertaking(trace: seq<System>, steps: seq<Step>, key: string, p: Request, i: nat,
      n: nat)
    requires Run(trace, steps) && i <= n <= |steps|
    requires WaitsThrough(trace, key, p, i, n) && NoBetterBase(trace, steps, key, i, n)
    ensures Earlier(trace[n], p) <= Earlier(trace[i], p)
    ensures GrantCount(trace, steps, i, n) + |Earlier(trace[n], p)| <= |Earlier(trace[i], p)|
    ensures GrantedAmong(trace, steps, i, n, Earlier(trace[i], p), Earlier(trace[n], p)) &&
        GrantedOnce(trace, steps, i, n)
    decreases n
  {
    if i < n {
      var m: nat := n - 1;
      assert m + 1 == n;
      BoundedOvertaking(trace, steps, key, p, i, m);
      NotPassed(trace, steps, key, p, m);
      var before, after := Earlier(trace[m], p), Earlier(trace[n], p);
      GrantedNext(trace, steps, i, m, Earlier(trace[i], p), before, after);
      if Wins(trace[m], steps[m]) {
        OneFewer(after, before, steps[m].key);
      } else {
        Smaller(after, before);
      }
    }
  }

  lemma GrantedNext(trace: seq<System>, steps: seq<Step>, i: nat, m: nat, first: set<string>, before: set<string>,
      after: set<string>)
    requires m < |steps| < |trace| && GrantedAmong(trace, steps, i, m, first, before) && GrantedOnce(trace, steps, i, m)
    requires after <= before <= first && (Wins(trace[m], steps[m]) ==> steps[m].key in before && steps[m].key !in after)
    ensures GrantedAmong(trace, steps, i, m + 1, first, after) && GrantedOnce(trace, steps, i, m + 1)
  {
  }

  lemma NotPassed(trace: seq<System>, steps: seq<Step>, key: string, p: Request, m: nat)
    requires Run(trace, steps) && m < |steps|
    requires WaitsThrough(trace, key, p, m, m + 1) && NoBetterBase(trace, steps, key, m, m + 1)
    ensures var (before, after) := (Earlier(trace[m], p), Earlier(trace[m + 1], p));
            && after <= before
            && (Wins(trace[m], steps[m]) ==> steps[m].key in before && steps[m].key !in after)
  {
    var (s, step) := (trace[m], steps[m]);
    RunIsSlotSafe(trace, steps, m);
    assert key in s.waiting && s.waiting[key] == p && key in trace[m + 1].waiting;
    if Wins(s, step) && s.waiting[step.key].seqNo > p.seqNo {
      NoOvertaking(trace, steps, m, key);
    }
    EarlierShrinks(s, step, key, p);
  }

  lemma {:induction false} Smaller(a: set<string>, b: set<string>)
    requires a <= b
    ensures |a| <= |b|
    decreases a
  {
    if a != {} {
      var k :| k in a;
      Smaller(a - {k}, b - {k});
    }
  }
}
