/** The watch stream scheduler: a bounded number of stream slots granted to the best-scored waiting request. */
module Scheduler {
  import opened Wrappers

  /** Sequence numbers are never reused, so a request value stands for the source's request pointer. */
  datatype Request = Request(key: string, seqNo: nat, queuedAt: int)

  /** The score of a key after a given time in the queue, as the score callback answers at one moment. */
  type Score = (string, int) -> int

  function ScoreOf(score: Score, now: int, r: Request): int {
    score(r.key, now - r.queuedAt)
  }

  /** `r` goes before `o`: a higher score, or the same score and an earlier registration. */
  predicate Beats(score: Score, now: int, r: Request, o: Request) {
    ScoreOf(score, now, r) > ScoreOf(score, now, o) ||
        (ScoreOf(score, now, r) == ScoreOf(score, now, o) && r.seqNo < o.seqNo)
  }

  predicate IsBest(score: Score, now: int, requests: map<string, Request>, r: Request) {
    && r.key in requests && requests[r.key] == r
    && forall k <- requests :: requests[k] != r ==> Beats(score, now, r, requests[k])
  }

  predicate WellKeyed(requests: map<string, Request>) {
    && (forall k <- requests :: requests[k].key == k)
    && (forall k, l :: k in requests && l in requests && k != l ==> requests[k].seqNo != requests[l].seqNo)
  }

  lemma BestIsUnique(score: Score, now: int, requests: map<string, Request>, r: Request, o: Request)
    requires IsBest(score, now, requests, r) && IsBest(score, now, requests, o)
    ensures r == o
  {
  }

  lemma {:induction false} BestExists(score: Score, now: int, requests: map<string, Request>) returns (r: Request)
    requires WellKeyed(requests) && requests != map[]
    ensures IsBest(score, now, requests, r)
    decreases |requests|
  {
    var k :| k in requests;
    var rest := requests - {k};
    r := requests[k];
    if rest != map[] {
      var o := BestExists(score, now, rest);
      assert o.key in rest;
      if Beats(score, now, o, r) {
        r := o;
      }
      forall l | l in requests && requests[l] != r ensures Beats(score, now, r, requests[l]) {
        if l != k {
          assert l in rest;
        }
      }
    } else {
      assert requests.Keys - {k} == rest.Keys == {};
      assert requests.Keys == {k};
    }
  }

  /* ---------- the scheduler's own state ---------- */

  datatype Sched = Sched(limit: int, active: nat, nextSeq: nat, requests: map<string, Request>)

  function Registered(s: Sched, key: string, now: int): Sched {
    if key in s.requests then s
    else s.(nextSeq := s.nextSeq + 1, requests := s.requests[key := Request(key, s.nextSeq + 1, now)])
  }

  function Unregistered(s: Sched, r: Request): Sched {
    if r.key in s.requests && s.requests[r.key] == r then s.(requests := s.requests - {r.key}) else s
  }

  ghost predicate Grants(s: Sched, key: string, score: Score, now: int) {
    s.active < s.limit && exists r :: IsBest(score, now, s.requests, r) && r.key == key
  }

  function Granted(s: Sched, key: string): Sched {
    s.(active := s.active + 1, requests := s.requests - {key})
  }

  function Released(s: Sched): Sched {
    if s.active > 0 then s.(active := s.active - 1) else s
  }

  class WatchStreamScheduler {
    const limit: int
    var active: nat
    var nextSeq: nat
    var requests: map<string, Request>

    ghost function State(): Sched
      reads this
    {
      Sched(limit, active, nextSeq, requests)
    }

    constructor (limit: int)
      ensures State() == Sched(limit, 0, 0, map[])
    {
      this.limit, active, nextSeq, requests := limit, 0, 0, map[];
    }

    method Register(key: string, now: int) returns (r: Request)
      modifies this
      ensures State() == Registered(old(State()), key, now)
      ensures key in requests && r == requests[key]
    {
      if key in requests {
        return requests[key];
      }
      nextSeq := nextSeq + 1;
      r := Request(key, nextSeq, now);
      requests := requests[key := r];
    }

    method Unregister(r: Request)
      modifies this
      ensures State() == Unregistered(old(State()), r)
    {
      if r.key in requests && requests[r.key] == r {
        requests := requests - {r.key};
      }
    }

    /** The map is walked in an order nobody chose; what comes out is the one best request all the same. */
    method BestLocked(score: Score, now: int) returns (best: Option<Request>)
      requires WellKeyed(requests)
      ensures best.None? <==> requests == map[]
      ensures best.Some? ==> IsBest(score, now, requests, best.value)
    {
      best := None;
      var unseen := requests.Keys;
      while unseen != {}
        invariant unseen <= requests.Keys
        invariant best.None? <==> unseen == requests.Keys
        invariant best.Some? ==> best.value.key in requests.Keys - unseen && requests[best.value.key] == best.value
        invariant best.Some? ==>
          forall k :: k in requests.Keys - unseen && requests[k] != best.value ==>
              Beats(score, now, best.value, requests[k])
        decreases unseen
      {
        var k :| k in unseen;
        var r := requests[k];
        if best.None? || ScoreOf(score, now, r) > ScoreOf(score, now, best.value)
           || (ScoreOf(score, now, r) == ScoreOf(score, now, best.value) && r.seqNo < best.value.seqNo) {
          best := Some(r);
        }
        unseen := unseen - {k};
      }
    }

    method TryAcquire(key: string, score: Score, now: int) returns (ok: bool)
      requires WellKeyed(requests)
      modifies this
      ensures ok <==> Grants(old(State()), key, score, now)
      ensures State() == if ok then Granted(old(State()), key) else old(State())
    {
      if active >= limit {
        return false;
      }
      var best := BestLocked(score, now);
      if best.None? || best.value.key != key {
        if best.Some? {
          forall r | IsBest(score, now, requests, r) ensures r == best.value {
            BestIsUnique(score, now, requests, r, best.value);
          }
        }
        return false;
      }
      requests := requests - {key};
      active := active + 1;
      return true;
    }

    method Release()
      modifies this
      ensures State() == Released(old(State()))
    {
      if active > 0 {
        active := active - 1;
      }
    }
  }

  /* ---------- the score of a stream ---------- */

  datatype Priority = High | Normal | Low | Unranked

  datatype Profile = Profile(enabled: bool, priority: Priority)

  datatype Load = Load(events: nat, bookmarks: nat, latestObjects: nat, watchErrors: nat, retries: nat)

  const MINUTE: int := 60_000_000_000

  function Min(a: int, b: int): int {
    if a < b then a else b
  }

  /** Twenty points a minute, eighty at most. */
  function Aging(queuedFor: int): int {
    if queuedFor > 0 then Min(80, queuedFor / MINUTE * 20) else 0
  }

  function WatchScheduleScore(profile: Profile, load: Option<Load>, queuedFor: int): int {
    if !profile.enabled then -100000
    else
      var rank := match profile.priority case High => 100 case Normal => 50 case Low => 10 case Unranked => 0;
      var score := rank + Aging(queuedFor);
      if load.None? then score
      else
        var l := load.value;
        var busy := score + Min(50, l.events * 5 + l.bookmarks * 2);
        var sized := if l.latestObjects > 0 then busy - Min(40, l.latestObjects / 250) else busy;
        sized - Min(80, l.watchErrors * 20 + l.retries * 5)
  }

  function Base(profile: Profile, load: Option<Load>): int {
    WatchScheduleScore(profile, load, 0)
  }

  lemma AgingGrows(early: int, late: int)
    requires early <= late
    ensures 0 <= Aging(early) <= Aging(late) <= 80
    ensures late >= 4 * MINUTE ==> Aging(late) == 80
  {
    if early > 0 {
      var e, l := early / MINUTE, late / MINUTE;
      assert MINUTE * e <= early <= late < MINUTE * (l + 1);
      assert e <= l;
    }
    if late >= 4 * MINUTE {
      assert late / MINUTE >= 4;
    }
  }

  /** Waiting adds its credit to an enabled stream and nothing to a disabled one, which always comes last. */
  lemma ScoreIsBasePlusAging(profile: Profile, load: Option<Load>, queuedFor: int)
    ensures profile.enabled ==> WatchScheduleScore(profile, load, queuedFor) == Base(profile, load) + Aging(queuedFor)
    ensures profile.enabled ==> -120 <= Base(profile, load) <= 150
    ensures !profile.enabled ==> WatchScheduleScore(profile, load, queuedFor) == -100000
  {
  }

  /** Waiting pays twenty points for every full minute, of sixty thousand million nanoseconds, up to the fourth. */
  lemma MinutesOfWaiting(profile: Profile, load: Option<Load>, queuedFor: int)
    requires profile.enabled
    ensures queuedFor < 60_000_000_000 ==>
            WatchScheduleScore(profile, load, queuedFor) == WatchScheduleScore(profile, load, 0)
    ensures 0 <= queuedFor < 4 * 60_000_000_000 ==>
            WatchScheduleScore(profile, load, queuedFor + 60_000_000_000) ==
            WatchScheduleScore(profile, load, queuedFor) + 20
    ensures 4 * 60_000_000_000 <= queuedFor ==>
            WatchScheduleScore(profile, load, queuedFor) == WatchScheduleScore(profile, load, 4 * 60_000_000_000)
  {
    var q := queuedFor / MINUTE;
    assert (queuedFor + MINUTE) / MINUTE == q + 1;
    if queuedFor > 0 {
      assert MINUTE * q <= queuedFor < MINUTE * (q + 1);
    }
    AgingGrows(4 * MINUTE, if queuedFor < 4 * MINUTE then 4 * MINUTE else queuedFor);
  }

  /** The score of an enabled stream that is new and has no load: its rank. */
  lemma RankScores(queuedFor: int)
    requires queuedFor < 60_000_000_000
    ensures WatchScheduleScore(Profile(true, High), None, queuedFor) == 100
    ensures WatchScheduleScore(Profile(true, Normal), None, queuedFor) == 50
    ensures WatchScheduleScore(Profile(true, Low), None, queuedFor) == 10
    ensures WatchScheduleScore(Profile(true, Unranked), None, queuedFor) == 0
  {
    if queuedFor > 0 {
      assert queuedFor / MINUTE == 0;
    }
  }

  /** What the load adds to the score of an enabled stream. */
  function Credit(profile: Profile, load: Load, queuedFor: int): int {
    WatchScheduleScore(profile, Some(load), queuedFor) - WatchScheduleScore(profile, None, queuedFor)
  }

  /** The load counts in three parts that do not touch each other. An event pays five points and a bookmark two,
      fifty at most; every 250 objects cost one, forty at most; an error costs twenty and a retry five, eighty at
      most. */
  lemma LoadIsThreeParts(profile: Profile, l: Load, queuedFor: int)
    requires profile.enabled
    ensures Credit(profile, l, queuedFor) ==
            Credit(profile, Load(l.events, l.bookmarks, 0, 0, 0), queuedFor) +
            Credit(profile, Load(0, 0, l.latestObjects, 0, 0), queuedFor) +
            Credit(profile, Load(0, 0, 0, l.watchErrors, l.retries), queuedFor)
    ensures var busy := Credit(profile, Load(l.events, l.bookmarks, 0, 0, 0), queuedFor);
            if 5 * l.events + 2 * l.bookmarks <= 50 then busy == 5 * l.events + 2 * l.bookmarks else busy == 50
    ensures var size := -Credit(profile, Load(0, 0, l.latestObjects, 0, 0), queuedFor);
            if l.latestObjects < 10_000 then 250 * size <= l.latestObjects < 250 * (size + 1) else size == 40
    ensures var trouble := -Credit(profile, Load(0, 0, 0, l.watchErrors, l.retries), queuedFor);
            if 20 * l.watchErrors + 5 * l.retries <= 80 then trouble == 20 * l.watchErrors + 5 * l.retries
            else trouble == 80
  {
  }

  /** A stream that has delivered no less, is no larger and has failed no more often never scores lower. */
  predicate Healthier(a: Load, b: Load) {
    && a.events >= b.events && a.bookmarks >= b.bookmarks && a.latestObjects <= b.latestObjects
    && a.watchErrors <= b.watchErrors && a.retries <= b.retries
  }

  lemma HealthierScoresNoLower(profile: Profile, a: Load, b: Load, queuedFor: int)
    requires Healthier(a, b)
    ensures WatchScheduleScore(profile, Some(a), queuedFor) >= WatchScheduleScore(profile, Some(b), queuedFor)
  {
    assert a.latestObjects / 250 <= b.latestObjects / 250;
  }

  function Rank(priority: Priority): nat {
    match priority case High => 3 case Normal => 2 case Low => 1 case Unranked => 0
  }

  /** Between streams that are alike otherwise the higher priority scores higher. */
  lemma PriorityDecides(p: Priority, q: Priority, load: Option<Load>, queuedFor: int)
    ensures Rank(p) > Rank(q) <==>
            WatchScheduleScore(Profile(true, p), load, queuedFor) > WatchScheduleScore(Profile(true, q), load,
                queuedFor)
  {
  }

  /* ---------- the reconnection delay ---------- */

  function Doublings(n: nat): nat {
    if n == 0 then 1 else 2 * Doublings(n - 1)
  }

  lemma {:induction false} DoublingsGrow(m: nat, n: nat)
    requires m <= n
    ensures 1 <= Doublings(m) <= Doublings(n)
    decreases n
  {
    if m < n {
      DoublingsGrow(m, n - 1);
    } else if n > 0 {
      DoublingsGrow(n - 1, n - 1);
    }
  }

  lemma Twice(least: int, n: nat)
    ensures least * Doublings(n + 1) == 2 * (least * Doublings(n))
  {
  }

  lemma Monotone(least: int, m: nat, n: nat)
    requires 0 < least && m <= n
    ensures least <= least * Doublings(m) <= least * Doublings(n)
  {
    DoublingsGrow(0, m);
    DoublingsGrow(m, n);
  }

  /** Exponential backoff, capped: the loop that doubles and clips is the closed form `minBackoff * 2^(attempt-1)`
      clipped once, plus a jitter of less than half of that, clipped again. */
  method RetryDelay(attempt: int, minBackoff: int, maxBackoff: int, jitter: int -> int) returns (delay: int)
    requires 0 < minBackoff <= maxBackoff
    requires forall d :: d >= 0 ==> 0 <= jitter(d) && (jitter(d) == 0 || jitter(d) < d / 2)
    ensures var base := Min(maxBackoff, minBackoff * Doublings(if attempt < 1 then 0 else attempt - 1));
            delay == Min(maxBackoff, base + jitter(base))
    ensures minBackoff <= delay <= maxBackoff
  {
    var n := if attempt < 1 then 1 else attempt;
    delay := minBackoff;
    var i := 1;
    while i < n && delay < maxBackoff
      invariant 1 <= i <= n
      invariant delay == Min(maxBackoff, minBackoff * Doublings(i - 1))
      invariant minBackoff <= delay <= maxBackoff
    {
      Twice(minBackoff, i - 1);
      delay := delay * 2;
      if delay > maxBackoff {
        delay := maxBackoff;
      }
      i := i + 1;
    }
    if i < n {
      Monotone(minBackoff, i - 1, n - 1);
    }
    delay := delay + jitter(delay);
    if delay > maxBackoff {
      delay := maxBackoff;
    }
  }
}
