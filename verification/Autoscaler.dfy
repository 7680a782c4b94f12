/** The canonical form of the cluster autoscaler's status: probe times dropped, node groups sorted by name. */
module Autoscaler {
  import opened StableSort
  import opened Strings
  import opened Yaml
  import opened Wrappers

  predicate IsProbe(key: string) {
    key == "time" || key == "lastProbeTime"
  }

  /** The pairs of a mapping without the probe times; a last child without a partner goes too. */
  function Pruned(content: seq<Tree>): (r: seq<Tree>)
    ensures |r| <= |content| && |r| % 2 == 0
    ensures forall x :: x in r ==> x in content
  {
    if |content| < 2 then []
    else (if IsProbe(content[0].value) then [] else content[..2]) + Pruned(content[2..])
  }

  function NameOf(t: Tree): string {
    var name := MappingValue(t, "name");
    if name.Some? then name.value.value else ""
  }

  predicate IsGroups(key: Tree, value: Tree) {
    key.value == "nodeGroups" && value.kind == Sequence
  }

  function SortedGroups(t: Tree): Tree {
    t.(content := SortBy(t.content, NameOf))
  }

  function Normalize(t: Tree): (r: Tree)
    ensures r.kind == t.kind && r.tag == t.tag && r.value == t.value
    decreases Height(t), 1
  {
    match t.kind
    case Mapping => t.(content := NormalizePairs(Pruned(t.content)))
    case Scalar => t
    case Zero => t
    case _ => t.(content := NormalizeEach(t.content))
  }

  function NormalizeEach(content: seq<Tree>): (r: seq<Tree>)
    ensures |r| == |content|
    decreases Highest(content), 2
  {
    seq(|content|, i requires 0 <= i < |content| => Normalize(content[i]))
  }

  function NormalizePairs(content: seq<Tree>): (r: seq<Tree>)
    ensures |r| == |content|
    decreases Highest(content), 3
  {
    seq(|content|, i requires 0 <= i < |content| =>
      if i % 2 == 0 then content[i] else NormalizeValue(content[i - 1], content[i]))
  }

  function NormalizeValue(key: Tree, value: Tree): (r: Tree)
    ensures r.kind == value.kind && r.tag == value.tag && r.value == value.value
    decreases Height(value), 2
  {
    assert forall x :: x in SortBy(value.content, NameOf) ==> x in value.content;
    if IsGroups(key, value) then Normalize(SortedGroups(value)) else Normalize(value)
  }

  /* ---------- names survive, so sorting before or after normalising the groups is the same ---------- */

  /** A key finds the same in two lists. */
  predicate FindsSame(a: seq<Tree>, b: seq<Tree>, key: string) {
    var (i, j) := (Find(a, key, 0), Find(b, key, 0));
    i.Some? == j.Some? && (i.Some? ==> a[i.value] == b[j.value])
  }

  lemma PairInFront(pair: seq<Tree>, a: seq<Tree>, b: seq<Tree>, key: string)
    requires |pair| == 2 && FindsSame(a, b, key)
    ensures FindsSame(pair + a, pair + b, key)
    ensures pair[0].value != key ==> FindsSame(a, pair + b, key)
  {
    FindShifts(pair, a, key);
    FindShifts(pair, b, key);
  }

  lemma {:induction false} PrunedFinds(content: seq<Tree>, key: string)
    requires !IsProbe(key)
    ensures FindsSame(Pruned(content), content, key)
  {
    if |content| >= 2 {
      var pair, rest := content[..2], content[2..];
      PrunedFinds(rest, key);
      PairInFront(pair, Pruned(rest), rest, key);
      assert content == pair + rest;
      if IsProbe(content[0].value) {
        assert Pruned(content) == Pruned(rest);
      }
    }
  }

  lemma FindShifts(pair: seq<Tree>, rest: seq<Tree>, key: string)
    requires |pair| == 2
    ensures Find(pair + rest, key, 0) == if pair[0].value == key then Some(1)
              else var r := Find(rest, key, 0); if r.Some? then Some(r.value + 2) else None
  {
    if pair[0].value != key {
      FindShiftsFrom(pair, rest, key, 0);
    }
  }

  lemma {:induction false} FindShiftsFrom(pair: seq<Tree>, rest: seq<Tree>, key: string, i: nat)
    requires |pair| == 2
    ensures Find(pair + rest, key, i + 2) == var r := Find(rest, key, i); if r.Some? then Some(r.value + 2) else None
    decreases |rest| - i
  {
    if i + 1 < |rest| && rest[i].value != key {
      FindShiftsFrom(pair, rest, key, i + 2);
    }
  }

  lemma {:induction false} PairsKeepKeys(content: seq<Tree>, key: string, i: nat)
    requires i % 2 == 0
    ensures Find(NormalizePairs(content), key, i) == Find(content, key, i)
    decreases |content| - i
  {
    if i + 1 < |content| {
      PairsKeepKeys(content, key, i + 2);
    }
  }

  /** Normalising an entry does not change the name it is sorted by. */
  lemma NameSurvives(t: Tree)
    ensures NameOf(Normalize(t)) == NameOf(t)
  {
    if t.kind == Mapping {
      assert !IsProbe("name");
      PrunedFinds(t.content, "name");
      PairsKeepKeys(Pruned(t.content), "name", 0);
      FindIsEven(Pruned(t.content), "name", 0);
    }
  }

  /* ---------- the change flag ---------- */

  /** Whether the rewriting reports a change: a probe time dropped, or node groups whose names changed order. */
  predicate Changed(t: Tree)
    decreases Height(t), 1
  {
    match t.kind
    case Mapping => HasProbe(t.content) || PairChanged(Pruned(t.content))
    case Scalar => false
    case Zero => false
    case _ => EachChanged(t.content)
  }

  predicate HasProbe(content: seq<Tree>) {
    |content| >= 2 && (IsProbe(content[0].value) || HasProbe(content[2..]))
  }

  predicate EachChanged(content: seq<Tree>)
    decreases Highest(content), 2
  {
    exists i :: 0 <= i < |content| && Changed(content[i])
  }

  predicate PairChanged(content: seq<Tree>)
    decreases Highest(content), 3
  {
    exists i :: 0 < i < |content| && i % 2 == 1 && ValueChanged(content[i - 1], content[i])
  }

  predicate ValueChanged(key: Tree, value: Tree)
    decreases Height(value), 2
  {
    assert forall x :: x in SortBy(value.content, NameOf) ==> x in value.content;
    if IsGroups(key, value) then
      KeysOf(SortBy(value.content, NameOf), NameOf) != KeysOf(value.content, NameOf) || Changed(SortedGroups(value))
    else Changed(value)
  }

  /** Every mapping that the rewriting visits has a value for each key, as parsed mappings have. */
  predicate Even(t: Tree)
    decreases t
  {
    match t.kind
    case Mapping => |t.content| % 2 == 0 && forall i :: 0 < i < |t.content| && i % 2 == 1 ==> Even(t.content[i])
    case Scalar => true
    case Zero => true
    case _ => forall i :: 0 <= i < |t.content| ==> Even(t.content[i])
  }

  lemma {:induction false} PrunedIsWhole(content: seq<Tree>)
    ensures Pruned(content) == content <==> !HasProbe(content) && |content| % 2 == 0
    ensures |Pruned(content)| == |content| ==> Pruned(content) == content
  {
    if |content| >= 2 {
      PrunedIsWhole(content[2..]);
      assert content == content[..2] + content[2..];
    }
  }

  /** The flag is exact: on even mappings no change is reported exactly when the tree stays as it is. */
  lemma {:induction false} FlagIsExact(t: Tree)
    ensures Normalize(t) == t <==> !Changed(t) && Even(t)
    decreases Height(t), 1
  {
    match t.kind
    case Mapping =>
      PrunedIsWhole(t.content);
      if Pruned(t.content) == t.content {
        forall i | 0 < i < |t.content| && i % 2 == 1
          ensures NormalizeValue(t.content[i - 1], t.content[i]) == t.content[i]
             <==> !ValueChanged(t.content[i - 1], t.content[i]) && Even(t.content[i])
        {
          ValueFlagIsExact(t.content[i - 1], t.content[i]);
        }
        PairsFixed(t.content);
      }
    case Scalar =>
    case Zero =>
    case _ =>
      forall i | 0 <= i < |t.content| ensures Normalize(t.content[i]) == t.content[i] <==>
          !Changed(t.content[i]) && Even(t.content[i]) {
        FlagIsExact(t.content[i]);
      }
      EachFixed(t.content);
  }

  predicate ValuesFixed(content: seq<Tree>) {
    forall i :: 0 < i < |content| && i % 2 == 1 ==> NormalizeValue(content[i - 1], content[i]) == content[i]
  }

  lemma PairsFixed(content: seq<Tree>)
    ensures NormalizePairs(content) == content <==> ValuesFixed(content)
  {
    var r := NormalizePairs(content);
    if r == content {
      forall i | 0 < i < |content| && i % 2 == 1 ensures NormalizeValue(content[i - 1], content[i]) == content[i] {
        assert r[i] == content[i];
      }
    }
    if ValuesFixed(content) {
      forall i | 0 <= i < |content| ensures r[i] == content[i] {
      }
    }
  }

  lemma EachFixed(content: seq<Tree>)
    ensures NormalizeEach(content) == content <==> forall i :: 0 <= i < |content| ==>
        Normalize(content[i]) == content[i]
  {
    if NormalizeEach(content) == content {
      forall i | 0 <= i < |content| ensures Normalize(content[i]) == content[i] {
        assert NormalizeEach(content)[i] == content[i];
      }
    }
  }

  lemma {:induction false} ValueFlagIsExact(key: Tree, value: Tree)
    ensures NormalizeValue(key, value) == value <==> !ValueChanged(key, value) && Even(value)
    decreases Height(value), 2
  {
    if IsGroups(key, value) {
      var sorted := SortBy(value.content, NameOf);
      assert forall x :: x in sorted ==> x in value.content;
      FlagIsExact(SortedGroups(value));
      KeyOrderTellsChange(value.content, NameOf);
      if NormalizeValue(key, value) == value {
        NamesOfEach(sorted);
        assert NormalizeEach(sorted) == value.content;
      }
    } else {
      FlagIsExact(value);
    }
  }

  lemma NamesOfEach(content: seq<Tree>)
    ensures KeysOf(NormalizeEach(content), NameOf) == KeysOf(content, NameOf)
  {
    forall i | 0 <= i < |content| ensures NameOf(NormalizeEach(content)[i]) == NameOf(content[i]) {
      NameSurvives(content[i]);
    }
  }

  /* ---------- idempotence ---------- */

  lemma {:induction false} PairsStayPruned(content: seq<Tree>)
    ensures !HasProbe(Pruned(content))
  {
    if |content| >= 2 {
      PairsStayPruned(content[2..]);
      var pair, rest := content[..2], Pruned(content[2..]);
      assert (pair + rest)[2..] == rest && (pair + rest)[0] == content[0];
      assert Pruned(content) == if IsProbe(content[0].value) then rest else pair + rest;
    }
  }

  lemma {:induction false} SameKeysSameProbes(a: seq<Tree>, b: seq<Tree>)
    requires |a| == |b| && forall i :: 0 <= i < |a| && i % 2 == 0 ==> a[i] == b[i]
    ensures HasProbe(a) == HasProbe(b)
  {
    if |a| >= 2 {
      forall i | 0 <= i < |a[2..]| && i % 2 == 0 ensures a[2..][i] == b[2..][i] {
        assert (i + 2) % 2 == 0;
      }
      SameKeysSameProbes(a[2..], b[2..]);
    }
  }

  lemma SortedStaySorted(content: seq<Tree>)
    ensures var r := NormalizeEach(SortBy(content, NameOf)); SortBy(r, NameOf) == r
  {
    var sorted := SortBy(content, NameOf);
    var r := NormalizeEach(sorted);
    SortBySorts(content, NameOf);
    forall i | 0 <= i < |r| ensures NameOf(r[i]) == NameOf(sorted[i]) {
      NameSurvives(sorted[i]);
    }
    SortedIsFixed(r, NameOf);
  }

  /** Normalising twice is normalising once. */
  lemma {:induction false} NormalizeIsIdempotent(t: Tree)
    ensures Normalize(Normalize(t)) == Normalize(t)
    decreases Height(t), 1
  {
    match t.kind
    case Mapping =>
      var c := Pruned(t.content);
      var r := NormalizePairs(c);
      PairsStayPruned(t.content);
      SameKeysSameProbes(r, c);
      PrunedIsWhole(r);
      forall i | 0 < i < |r| && i % 2 == 1 ensures NormalizeValue(r[i - 1], r[i]) == r[i] {
        ValueIsIdempotent(c[i - 1], c[i]);
      }
      PairsFixed(r);
    case Scalar =>
    case Zero =>
    case _ =>
      EachIsIdempotent(t.content);
  }

  lemma {:induction false} EachIsIdempotent(content: seq<Tree>)
    ensures NormalizeEach(NormalizeEach(content)) == NormalizeEach(content)
    decreases Highest(content), 2
  {
    forall i | 0 <= i < |content| ensures Normalize(NormalizeEach(content)[i]) == NormalizeEach(content)[i] {
      NormalizeIsIdempotent(content[i]);
    }
    EachFixed(NormalizeEach(content));
  }

  lemma {:induction false} ValueIsIdempotent(key: Tree, value: Tree)
    ensures NormalizeValue(key, NormalizeValue(key, value)) == NormalizeValue(key, value)
    decreases Height(value), 2
  {
    if IsGroups(key, value) {
      assert forall x :: x in SortBy(value.content, NameOf) ==> x in value.content;
      SortedStaySorted(value.content);
      NormalizeIsIdempotent(SortedGroups(value));
    } else {
      NormalizeIsIdempotent(value);
    }
  }

  /* ---------- what the canonical form keeps ---------- */

  /** Node groups with distinct names become equal whatever order they were listed in. */
  lemma GroupOrderDoesNotMatter(key: Tree, a: Tree, b: Tree)
    requires key.value == "nodeGroups" && a.kind == Sequence && a.(content := b.content) == b
    requires DistinctKeys(a.content, NameOf) && DistinctKeys(b.content, NameOf) && SameMembers(a.content, b.content)
    ensures NormalizeValue(key, a) == NormalizeValue(key, b)
  {
    DistinctSortEqually(a.content, b.content, NameOf);
  }

  /** The name that an entry is sorted by: the text under "name" if it is a mapping, and else the empty text. */
  predicate NameIs(t: Tree, name: string) {
    match MappingValue(t, "name")
    case Some(value) => name == value.value
    case None => name == ""
  }

  /** The tree is like another with each of these children rewritten. */
  ghost predicate Rewritten(after: Tree, before: Tree, children: seq<Tree>) {
    && after.kind == before.kind && after.tag == before.tag && after.value == before.value
    && |after.content| == |children| && forall i :: 0 <= i < |children| ==> after.content[i] == Normalize(children[i])
  }

  /** Node groups come out in the order of their names, each rewritten, each as often as the list has it. */
  lemma GroupsInOrder(key: Tree, value: Tree) returns (sorted: seq<Tree>)
    requires key.value == "nodeGroups" && value.kind == Sequence
    ensures multiset(sorted) == multiset(value.content)
    ensures Rewritten(NormalizeValue(key, value), value, sorted)
    ensures forall i, j, a, b :: 0 <= i < j < |sorted| && NameIs(sorted[i], a) && NameIs(sorted[j], b) ==> !Less(b, a)
  {
    sorted := SortBy(value.content, NameOf);
    assert forall x :: x in sorted ==> x in value.content;
    SortByPermutes(value.content, NameOf);
    SortBySorts(value.content, NameOf);
    forall t, a | NameIs(t, a) ensures NameOf(t) == a {
    }
    EachRewritten(SortedGroups(value));
  }

  lemma EachRewritten(t: Tree)
    requires t.kind == Sequence || t.kind == Document
    ensures Rewritten(Normalize(t), t, t.content)
  {
    forall i | 0 <= i < |t.content| ensures NormalizeEach(t.content)[i] == Normalize(t.content[i]) {
    }
  }

  /** Anything else is rewritten child by child, in its place; scalars and empty nodes stay as they are. */
  lemma OthersInPlace(key: Tree, value: Tree)
    requires key.value != "nodeGroups" || value.kind != Sequence
    ensures value.kind == Scalar || value.kind == Zero ==> NormalizeValue(key, value) == value
    ensures value.kind == Sequence || value.kind == Document ==>
            Rewritten(NormalizeValue(key, value), value, value.content)
  {
    if value.kind == Sequence || value.kind == Document {
      EachRewritten(value);
    }
  }

  /** A mapping loses exactly its probe times; under every other key it still has what it had, normalised. */
  lemma KeysKept(t: Tree, key: Tree)
    requires t.kind == Mapping
    ensures var (before, after) := (MappingValue(t, key.value), MappingValue(Normalize(t), key.value));
            after == if before.None? || key.value == "time" || key.value == "lastProbeTime" then None
                     else Some(NormalizeValue(key, before.value))
  {
    var c := Pruned(t.content);
    PairsKeepKeys(c, key.value, 0);
    FindIsEven(c, key.value, 0);
    if IsProbe(key.value) {
      PairsStayPruned(t.content);
      NoProbeFound(c, key.value);
    } else {
      PrunedFinds(t.content, key.value);
    }
  }

  lemma {:induction false} NoProbeFound(content: seq<Tree>, key: string)
    requires IsProbe(key) && !HasProbe(content)
    ensures Find(content, key, 0).None?
  {
    if |content| >= 2 {
      NoProbeFound(content[2..], key);
      assert content == content[..2] + content[2..];
      FindShifts(content[..2], content[2..], key);
    }
  }
}
