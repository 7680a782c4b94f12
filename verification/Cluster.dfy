/** The two sides a collector keeps in step: the cluster as an event log indexed by resource version, and the
    store as the sequence of observations it was given. */
module Cluster {
  import opened Ingest

  /** The identity under which observations of one object are joined. */
  function Key(ref: Ref): string {
    if ref.uid != "" then "uid:" + ref.uid else "name:" + ref.namespace + "/" + ref.name
  }

  /** Two objects are taken for one exactly if they have the same identifier, or neither has one and they agree in
      namespace and name as these are written with a slash between them. */
  lemma SameKeyExactly(a: Ref, b: Ref)
    ensures Key(a) == Key(b) <==>
            if a.uid != "" || b.uid != "" then a.uid == b.uid
            else a.namespace + "/" + a.name == b.namespace + "/" + b.name
  {
    assert ("uid:" + a.uid)[4..] == a.uid && ("uid:" + b.uid)[4..] == b.uid;
    var (x, y) := (a.namespace + "/" + a.name, b.namespace + "/" + b.name);
    assert "name:" + a.namespace + "/" + a.name == "name:" + x && ("name:" + x)[5..] == x;
    assert "name:" + b.namespace + "/" + b.name == "name:" + y && ("name:" + y)[5..] == y;
    assert Key(a) != [] && Key(b) != [] && (Key(a)[0] == 'u' <==> a.uid != "") && (Key(b)[0] == 'u' <==> b.uid != "");
  }

  function Keys(refs: set<Ref>): set<string> {
    set r <- refs :: Key(r)
  }

  /** What is collected: one resource, cluster-wide or namespaced, and the namespace option (empty for all). */
  datatype Scope = Scope(namespaced: bool, namespace: string)

  /** The namespace the API client is actually bound to: the option is applied to namespaced resources only. */
  function ServerNamespace(scope: Scope): string {
    if scope.namespaced then scope.namespace else ""
  }

  predicate InNamespace(namespace: string, ref: Ref) {
    namespace == "" || ref.namespace == namespace
  }

  predicate Visible(scope: Scope, ref: Ref) {
    InNamespace(ServerNamespace(scope), ref)
  }

  /* ---------- the cluster ---------- */

  /** One write in the cluster. Resource version n is the state after the first n writes; writes to other
      resources move the version as well. */
  datatype Entry = Event(typ: ObservationType, ref: Ref) | Elsewhere

  function LiveRefs(log: seq<Entry>): set<Ref> {
    if log == [] then {}
    else
      var before := LiveRefs(log[..|log| - 1]);
      match log[|log| - 1]
      case Elsewhere => before
      case Event(Deleted, ref) => before - {ref}
      case Event(_, ref) => before + {ref}
  }

  function VisibleRefs(scope: Scope, log: seq<Entry>): set<Ref> {
    set r <- LiveRefs(log) | Visible(scope, r)
  }

  /** The API server's own rules: an object is added while no live object has its identity, and changed or
      deleted while it is live. Objects of a cluster-wide resource have no namespace. */
  predicate Admissible(scope: Scope, live: set<Ref>, entry: Entry) {
    entry.Event? ==>
      && (entry.typ == Added <==> Key(entry.ref) !in Keys(live))
      && (entry.typ != Added ==> entry.ref in live)
      && (!scope.namespaced ==> entry.ref.namespace == "")
  }

  predicate WellFormed(scope: Scope, log: seq<Entry>) {
    forall i :: 0 <= i < |log| ==> Admissible(scope, LiveRefs(log[..i]), log[i])
  }

  lemma {:induction false} LiveKeysDistinct(scope: Scope, log: seq<Entry>, n: nat)
    requires WellFormed(scope, log) && n <= |log|
    ensures forall r, t :: r in LiveRefs(log[..n]) && t in LiveRefs(log[..n]) && Key(r) == Key(t) ==> r == t
  {
    if n > 0 {
      LiveKeysDistinct(scope, log, n - 1);
      assert log[..n][..n - 1] == log[..n - 1];
    }
  }

  lemma VisibleAfter(scope: Scope, log: seq<Entry>, n: nat)
    requires WellFormed(scope, log) && n < |log|
    ensures var before, after := Keys(VisibleRefs(scope, log[..n])), Keys(VisibleRefs(scope, log[..n + 1]));
            after == match log[n]
                     case Elsewhere => before
                     case Event(typ, ref) =>
                       if !Visible(scope, ref) then before
                       else if typ == Deleted then before - {Key(ref)} else before + {Key(ref)}
  {
    assert log[..n + 1][..n] == log[..n];
    var before, after := VisibleRefs(scope, log[..n]), VisibleRefs(scope, log[..n + 1]);
    LiveKeysDistinct(scope, log, n);
    match log[n]
    case Elsewhere =>
    case Event(typ, ref) =>
      if !Visible(scope, ref) {
        assert after == before;
      } else if typ == Deleted {
        assert after == before - {ref};
      } else {
        assert after == before + {ref};
      }
  }

  predicate Quiet(scope: Scope, log: seq<Entry>, start: nat, upto: nat)
    requires upto <= |log|
  {
    forall j :: start <= j < upto ==> log[j].Elsewhere? || !Visible(scope, log[j].ref)
  }

  lemma {:induction false} QuietKeepsVisible(scope: Scope, log: seq<Entry>, start: nat, upto: nat)
    requires WellFormed(scope, log) && start <= upto <= |log| && Quiet(scope, log, start, upto)
    ensures Keys(VisibleRefs(scope, log[..start])) == Keys(VisibleRefs(scope, log[..upto]))
    decreases upto
  {
    if start < upto {
      QuietKeepsVisible(scope, log, start, upto - 1);
      VisibleAfter(scope, log, upto - 1);
    }
  }

  /* ---------- the store ---------- */

  /** The last observation of every object seen in a namespace. */
  function Latest(observations: seq<Observation>, namespace: string): map<string, Observation> {
    if observations == [] then map[]
    else
      var before, o := Latest(observations[..|observations| - 1], namespace), observations[|observations| - 1];
      if InNamespace(namespace, o.ref) then before[Key(o.ref) := o] else before
  }

  function RefsOf(latest: map<string, Observation>): set<Ref> {
    set k | k in latest && latest[k].typ != Deleted :: latest[k].ref
  }

  function LatestResourceRefs(observations: seq<Observation>, namespace: string): set<Ref> {
    RefsOf(Latest(observations, namespace))
  }

  function LiveKeys(observations: seq<Observation>, namespace: string): set<string> {
    var latest := Latest(observations, namespace);
    set k <- latest | latest[k].typ != Deleted
  }

  predicate Keyed(latest: map<string, Observation>, namespace: string) {
    forall k :: k in latest ==> Key(latest[k].ref) == k && InNamespace(namespace, latest[k].ref)
  }

  lemma {:induction false} LatestIsKeyed(observations: seq<Observation>, namespace: string)
    ensures Keyed(Latest(observations, namespace), namespace)
  {
    if observations != [] {
      LatestIsKeyed(observations[..|observations| - 1], namespace);
    }
  }

  lemma RefsHaveTheLiveKeys(observations: seq<Observation>, namespace: string)
    ensures Keys(LatestResourceRefs(observations, namespace)) == LiveKeys(observations, namespace)
    ensures forall r <- LatestResourceRefs(observations, namespace) :: InNamespace(namespace, r)
  {
    LatestIsKeyed(observations, namespace);
    var latest, refs := Latest(observations, namespace), LatestResourceRefs(observations, namespace);
    forall k | k in LiveKeys(observations, namespace) ensures k in Keys(refs) {
      assert Key(latest[k].ref) == k && latest[k].ref in refs;
    }
  }

  lemma LiveKeysAfter(observations: seq<Observation>, o: Observation, namespace: string)
    ensures var before := LiveKeys(observations, namespace);
            LiveKeys(observations + [o], namespace) ==
              if !InNamespace(namespace, o.ref) then before
              else if o.typ == Deleted then before - {Key(o.ref)} else before + {Key(o.ref)}
  {
    assert (observations + [o])[..|observations|] == observations;
  }

  /** The store agrees with the cluster at version n on what is live among the objects the collector can see. */
  predicate InStep(scope: Scope, observations: seq<Observation>, log: seq<Entry>, n: nat)
    requires n <= |log|
  {
    LiveKeys(observations, ServerNamespace(scope)) == Keys(VisibleRefs(scope, log[..n]))
  }

  /** About one key, the store holds what was so in the cluster at version u. */
  predicate AsOf(scope: Scope, observations: seq<Observation>, log: seq<Entry>, k: string, u: nat)
    requires u <= |log|
  {
    k in LiveKeys(observations, ServerNamespace(scope)) <==> k in Keys(VisibleRefs(scope, log[..u]))
  }

  /** About every key, the store holds what was so at some version from c to h. */
  ghost predicate Between(scope: Scope, observations: seq<Observation>, log: seq<Entry>, c: nat, h: nat)
    requires c <= h <= |log|
  {
    forall k :: SomeAsOf(scope, observations, log, k, c, h)
  }

  ghost predicate SomeAsOf(scope: Scope, observations: seq<Observation>, log: seq<Entry>, k: string, c: nat, h: nat)
    requires c <= h <= |log|
  {
    exists u: nat :: c <= u <= h && AsOf(scope, observations, log, k, u)
  }

  /** With nothing in between, that is being in step. */
  lemma BetweenIsInStep(scope: Scope, observations: seq<Observation>, log: seq<Entry>, n: nat)
    requires n <= |log|
    ensures Between(scope, observations, log, n, n) <==> InStep(scope, observations, log, n)
  {
    var live, keys := LiveKeys(observations, ServerNamespace(scope)), Keys(VisibleRefs(scope, log[..n]));
    if Between(scope, observations, log, n, n) {
      forall k ensures k in live <==> k in keys {
        assert SomeAsOf(scope, observations, log, k, n, n);
      }
    }
    if live == keys {
      forall k ensures SomeAsOf(scope, observations, log, k, n, n) {
        assert AsOf(scope, observations, log, k, n);
      }
    }
  }

  lemma BetweenGrows(scope: Scope, observations: seq<Observation>, log: seq<Entry>, entry: Entry, c: nat, h: nat)
    requires c <= h <= |log| && Between(scope, observations, log, c, h)
    ensures Between(scope, observations, log + [entry], c, h)
  {
    forall k ensures SomeAsOf(scope, observations, log + [entry], k, c, h) {
      assert SomeAsOf(scope, observations, log, k, c, h);
      var u: nat :| c <= u <= h && AsOf(scope, observations, log, k, u);
      assert (log + [entry])[..u] == log[..u];
      assert AsOf(scope, observations, log + [entry], k, u);
    }
  }

  /** Where nothing visible happens, the recorded version may move up. */
  lemma BetweenMoves(scope: Scope, observations: seq<Observation>, log: seq<Entry>, c: nat, h: nat, n: nat, top: nat)
    requires WellFormed(scope, log) && c <= h <= |log| && Between(scope, observations, log, c, h)
    requires c <= n <= |log| && Quiet(scope, log, c, n) && n <= top <= |log| && h <= top
    ensures Between(scope, observations, log, n, top)
  {
    forall k ensures SomeAsOf(scope, observations, log, k, n, top) {
      assert SomeAsOf(scope, observations, log, k, c, h);
      var u: nat :| c <= u <= h && AsOf(scope, observations, log, k, u);
      if u < n {
        QuietKeepsVisible(scope, log, c, u);
        QuietKeepsVisible(scope, log, c, n);
        assert AsOf(scope, observations, log, k, n);
      }
    }
  }
}
