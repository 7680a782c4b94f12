/** The autoscaler rewrite over mutable nodes: filtering and sorting the children in place, with change flags. */
module AutoscalerHeap {
  import opened Strings
  import opened StableSort
  import opened Yaml
  import opened YamlHeap
  import opened Autoscaler
  import opened Wrappers

  /* ---------- dropping the probe times ---------- */

  /** What is kept of the first `n` pairs. */
  function PruneFirst(v: seq<Tree>, n: nat): seq<Tree>
    requires 2 * n <= |v|
  {
    if n == 0 then []
    else PruneFirst(v, n - 1) + if IsProbe(v[2 * n - 2].value) then [] else [v[2 * n - 2], v[2 * n - 1]]
  }

  /** 1 if one of the first `n` keys is a probe time. */
  function ProbeFlag(v: seq<Tree>, n: nat): nat
    requires 2 * n <= |v|
  {
    if n == 0 then 0 else if IsProbe(v[2 * n - 2].value) then 1 else ProbeFlag(v, n - 1)
  }

  lemma PruneNext(v: seq<Tree>, n: nat)
    requires 2 * n + 1 < |v|
    ensures PruneFirst(v, n + 1) == if IsProbe(v[2 * n].value) then PruneFirst(v, n)
        else PruneFirst(v, n) + [v[2 * n], v[2 * n + 1]]
    ensures ProbeFlag(v, n + 1) == if IsProbe(v[2 * n].value) then 1 else ProbeFlag(v, n)
  {
    assert PruneFirst(v, n) + [] == PruneFirst(v, n);
  }

  lemma Regroup(a: seq<Tree>, b: seq<Tree>, c: seq<Tree>)
    ensures a + (b + c) == (a + b) + c
  {
  }

  lemma RestOfPairs(v: seq<Tree>, n: nat)
    requires 2 * n + 1 < |v|
    ensures Pruned(v[2 * n..]) ==
            (if IsProbe(v[2 * n].value) then [] else [v[2 * n], v[2 * n + 1]]) + Pruned(v[2 * (n + 1)..])
    ensures HasProbe(v[2 * n..]) == (IsProbe(v[2 * n].value) || HasProbe(v[2 * (n + 1)..]))
  {
    var rest := v[2 * n..];
    assert rest[2..] == v[2 * (n + 1)..] && rest[..2] == [v[2 * n], v[2 * n + 1]];
  }

  lemma {:induction false} PruneFirstAndRest(v: seq<Tree>, n: nat)
    requires 2 * n <= |v|
    ensures PruneFirst(v, n) + Pruned(v[2 * n..]) == Pruned(v)
    ensures ProbeFlag(v, n) > 0 || HasProbe(v[2 * n..]) <==> HasProbe(v)
  {
    if n == 0 {
      assert v[0..] == v;
    } else {
      var m: nat := n - 1;
      assert m + 1 == n;
      PruneFirstAndRest(v, m);
      RestOfPairs(v, m);
      Regroup(PruneFirst(v, m), if IsProbe(v[2 * m].value) then [] else [v[2 * m], v[2 * m + 1]], Pruned(v[2 * n..]));
    }
  }

  lemma PruneFirstIsPruned(v: seq<Tree>)
    ensures PruneFirst(v, |v| / 2) == Pruned(v) && (ProbeFlag(v, |v| / 2) > 0 <==> HasProbe(v))
  {
    PruneFirstAndRest(v, |v| / 2);
    assert Pruned(v[2 * (|v| / 2)..]) == [];
  }

  /** Kept nodes come from different places of the list; nothing from index `i` on has been kept. */
  ghost predicate Apart(kept: seq<Node>, content: seq<Node>, i: nat)
    reads kept, content
  {
    && (forall j, k :: 0 <= j < k < |kept| ==> kept[j].Repr !! kept[k].Repr)
    && (forall j, k :: 0 <= j < |kept| && i <= k < |content| ==> kept[j].Repr !! content[k].Repr)
  }

  ghost predicate Kept(node: Node, n: nat, kept: seq<Node>, values: seq<Tree>)
    requires node.Valid()
    reads node.Repr, kept
  {
    && |kept| == |values|
    && (forall k :: 0 <= k < |kept| ==> kept[k] in node.content && kept[k].Model() == values[k])
    && Apart(kept, node.content, 2 * n)
  }

  lemma KeepOrDrop(node: Node, n: nat, kept: seq<Node>, values: seq<Tree>)
    requires node.Valid() && 2 * n + 1 < |node.content| && Kept(node, n, kept, values)
    ensures var (i, j) := (2 * n, 2 * n + 1);
            && Kept(node, n + 1, kept, values)
            && Kept(node, n + 1, kept + [node.content[i], node.content[j]], values + [node.values[i], node.values[j]])
  {
  }

  lemma KeepNext(node: Node, n: nat, kept: seq<Node>)
    requires node.Valid() && 2 * n + 1 < |node.content| && Kept(node, n, kept, PruneFirst(node.values, n))
    ensures if IsProbe(node.content[2 * n].value) then
              Kept(node, n + 1, kept, PruneFirst(node.values, n + 1)) && ProbeFlag(node.values, n + 1) == 1
            else
              && Kept(node, n + 1, kept + [node.content[2 * n], node.content[2 * n + 1]],
                  PruneFirst(node.values, n + 1))
              && ProbeFlag(node.values, n + 1) == ProbeFlag(node.values, n)
  {
    PruneNext(node.values, n);
    KeepOrDrop(node, n, kept, PruneFirst(node.values, n));
    assert node.content[2 * n].value == node.values[2 * n].value;
  }

  /** One pair is kept or dropped. */
  method KeepPair(node: Node, n: nat, before: seq<Node>, already: bool) returns (kept: seq<Node>, changed: bool)
    requires node.Valid() && 2 * n + 1 < |node.content| && Kept(node, n, before, PruneFirst(node.values, n))
    requires already == (ProbeFlag(node.values, n) > 0)
    ensures Kept(node, n + 1, kept, PruneFirst(node.values, n + 1))
    ensures changed == (ProbeFlag(node.values, n + 1) > 0)
  {
    var key, value := node.content[2 * n], node.content[2 * n + 1];
    KeepNext(node, n, before);
    if IsProbe(key.value) {
      return before, true;
    }
    return before + [key, value], already;
  }

  method KeepPairs(node: Node) returns (kept: seq<Node>, changed: bool)
    requires node.Valid()
    ensures Kept(node, |node.content| / 2, kept, Pruned(node.values)) && changed == HasProbe(node.values)
  {
    kept, changed := [], false;
    for n := 0 to |node.content| / 2
      invariant Kept(node, n, kept, PruneFirst(node.values, n))
      invariant changed == (ProbeFlag(node.values, n) > 0)
    {
      kept, changed := KeepPair(node, n, kept, changed);
    }
    PruneFirstIsPruned(node.values);
  }

  method RemoveProbeKeys(node: Node) returns (changed: bool)
    requires node.Valid()
    modifies node
    ensures node.Valid() && node.Repr == old(node.Repr)
    ensures node.Model() == old(node.Model()).(content := Pruned(old(node.values)))
    ensures changed == HasProbe(old(node.values))
  {
    var kept;
    kept, changed := KeepPairs(node);
    assert forall k :: 0 <= k < |kept| ==> node.Owns(kept[k]) && kept[k].Valid() && kept[k] in node.Repr;
    node.content, node.values := kept, Pruned(node.values);
  }

  /* ---------- sorting the entries by name ---------- */

  method ReadName(node: Node) returns (name: string)
    requires node.Valid()
    ensures name == NameOf(node.Model())
  {
    name := "";
    if node.kind == Mapping {
      var at := IndexOf(node, "name");
      if at.Some? {
        name := node.content[at.value].value;
      }
    }
  }

  method NameOrder(node: Node) returns (names: seq<string>)
    requires node.Valid()
    ensures names == KeysOf(node.values, NameOf)
  {
    names := [];
    for i := 0 to |node.content|
      invariant names == KeysOf(node.values, NameOf)[..i]
    {
      var name := ReadName(node.content[i]);
      names := names + [name];
    }
  }

  /** Exchanges a child with the one before it. */
  method SwapWithPrevious(node: Node, j: nat)
    requires node.Valid() && 0 < j < |node.content|
    modifies node
    ensures node.Valid() && node.Repr == old(node.Repr) && |node.content| == old(|node.content|)
    ensures node.Model() == old(node.Model()).(content := Swapped(old(node.values), j))
  {
    node.content := Swapped(node.content, j);
    node.values := Swapped(node.values, j);
  }

  method OutOfOrder(node: Node, j: nat) returns (b: bool)
    requires node.Valid() && 0 < j < |node.content|
    ensures b == Less(NameOf(node.values[j]), NameOf(node.values[j - 1]))
  {
    var name := ReadName(node.content[j]);
    var before := ReadName(node.content[j - 1]);
    b := Less(name, before);
  }

  lemma SinkingMoves(values: seq<Tree>, n: nat, j: nat, was: seq<Tree>)
    requires 0 < j && Sinking(values, n, j, NameOf) && SameByKey(values, was, NameOf)
    ensures if Less(NameOf(values[j]), NameOf(values[j - 1])) then
              Sinking(Swapped(values, j), n, j - 1, NameOf) && SameByKey(Swapped(values, j), was, NameOf)
            else
              Sorted(values[..n], NameOf)
  {
    if Less(NameOf(values[j]), NameOf(values[j - 1])) {
      SwapKeepsAll(values, j, NameOf, was);
      SinkingSteps(values, n, j, NameOf);
    } else {
      SinkingEnds(values, n, j, NameOf);
    }
  }

  /** One exchange, if the child at `j` belongs before the one in front of it. */
  method SinkOnce(node: Node, i: nat, j: nat, ghost was: seq<Tree>) returns (sunk: bool)
    requires node.Valid() && 0 < j <= i < |node.content|
    requires Sinking(node.values, i + 1, j, NameOf) && SameByKey(node.values, was, NameOf)
    modifies node
    ensures node.Valid() && node.Repr == old(node.Repr) && |node.content| == old(|node.content|)
    ensures node.Model() == old(node.Model()).(content := node.values) && SameByKey(node.values, was, NameOf)
    ensures if sunk then Sinking(node.values, i + 1, j - 1, NameOf) else Sorted(node.values[..i + 1], NameOf)
  {
    sunk := OutOfOrder(node, j);
    SinkingMoves(node.values, i + 1, j, was);
    if sunk {
      SwapWithPrevious(node, j);
    }
  }

  /** Sinks the child at `j` into the sorted ones before it, exchange by exchange. */
  method SinkName(node: Node, i: nat, j: nat, ghost was: seq<Tree>)
    requires node.Valid() && j <= i < |node.content|
    requires Sinking(node.values, i + 1, j, NameOf) && SameByKey(node.values, was, NameOf)
    modifies node
    ensures node.Valid() && node.Repr == old(node.Repr) && |node.content| == old(|node.content|)
    ensures node.Model() == old(node.Model()).(content := node.values)
    ensures Sorted(node.values[..i + 1], NameOf) && SameByKey(node.values, was, NameOf)
    decreases j
  {
    if j == 0 {
      SinkingEnds(node.values, i + 1, 0, NameOf);
      return;
    }
    var sunk := SinkOnce(node, i, j, was);
    if sunk {
      SinkName(node, i, j - 1, was);
    }
  }

  /** The stable sort of the source's library, by insertion, and whether the order of the names has changed. */
  method SortSequenceByName(node: Node) returns (changed: bool)
    requires node.Valid()
    modifies node
    ensures node.Valid() && node.Repr == old(node.Repr)
    ensures node.Model() == SortedGroups(old(node.Model()))
    ensures changed == (KeysOf(SortBy(old(node.values), NameOf), NameOf) != KeysOf(old(node.values), NameOf))
  {
    ghost var was := node.values;
    var before := NameOrder(node);
    for i := 0 to |node.content|
      invariant node.Valid() && node.Repr == old(node.Repr) && |node.content| == old(|node.content|)
      invariant node.Model() == old(node.Model()).(content := node.values)
      invariant Sorted(node.values[..i], NameOf) && SameByKey(node.values, was, NameOf)
    {
      SinkingStarts(node.values, i, NameOf);
      SinkName(node, i, i, was);
    }
    assert node.values[..|node.values|] == node.values;
    StableSortIsSortBy(node.values, was, NameOf);
    var after := NameOrder(node);
    changed := before != after;
  }

  /* ---------- the rewrite ---------- */

  /** A value of a mapping; node groups are sorted first. */
  method NormalizeMember(node: Node, groups: bool) returns (changed: bool)
    requires node.Valid()
    modifies node.Repr
    ensures node.Valid() && node.Repr == old(node.Repr)
    ensures var t := if groups then SortedGroups(old(node.Model())) else old(node.Model());
            && node.Model() == Normalize(t)
            && changed == (Changed(t) || (groups && KeysOf(t.content, NameOf) != KeysOf(old(node.values), NameOf)))
    decreases node.Repr, 5
  {
    changed := false;
    if groups {
      changed := SortSequenceByName(node);
    }
    var more := NormalizeNode(node);
    changed := changed || more;
  }

  /** One child is rewritten; its siblings are other trees and stay as they are. */
  method NormalizeKid(node: Node, i: nat, groups: bool) returns (changed: bool)
    requires node.Valid() && i < |node.content|
    modifies node, node.content[i].Repr
    ensures node.Valid() && node.Repr == old(node.Repr) && node.content == old(node.content)
    ensures var t := if groups then SortedGroups(old(node.values)[i]) else old(node.values)[i];
            && node.Model() == old(node.Model()).(content := old(node.values)[i := Normalize(t)])
            && changed == (Changed(t) ||
                (groups && KeysOf(t.content, NameOf) != KeysOf(old(node.values)[i].content, NameOf)))
    decreases node.Repr, 0
  {
    assert node.Owns(node.content[i]);
    assert forall j :: 0 <= j < |node.content| && j != i ==> node.content[j].Repr !! node.content[i].Repr;
    changed := NormalizeMember(node.content[i], groups);
    Recorded(node, i);
  }

  /** The values of the first `n` pairs are rewritten. */
  function FirstPairs(content: seq<Tree>, n: nat): (r: seq<Tree>)
    requires 2 * n <= |content|
    ensures |r| == |content|
  {
    if n == 0 then content
    else
      var k := 2 * n - 1;
      FirstPairs(content, n - 1)[k := NormalizeValue(content[k - 1], content[k])]
  }

  /** 1 if one of the first `n` pairs reports a change. */
  function FirstPairsFlag(content: seq<Tree>, n: nat): nat
    requires 2 * n <= |content|
  {
    if n == 0 then 0 else if ValueChanged(content[2 * n - 2], content[2 * n - 1]) then 1
        else FirstPairsFlag(content, n - 1)
  }

  lemma {:induction false} FirstPairsRest(content: seq<Tree>, n: nat, i: nat)
    requires 2 * n <= i < |content|
    ensures FirstPairs(content, n)[i] == content[i]
  {
    if n > 0 {
      FirstPairsRest(content, n - 1, i);
    }
  }

  lemma {:induction false} FirstPairsAt(content: seq<Tree>, n: nat, i: nat)
    requires 2 * n <= |content| && i < 2 * n
    ensures FirstPairs(content, n)[i] == if i % 2 == 0 then content[i] else NormalizeValue(content[i - 1], content[i])
  {
    if i < 2 * n - 2 {
      FirstPairsAt(content, n - 1, i);
    } else {
      FirstPairsRest(content, n - 1, 2 * n - 2);
    }
  }

  lemma {:induction false} FirstPairsFlagWhere(content: seq<Tree>, n: nat)
    requires 2 * n <= |content|
    ensures FirstPairsFlag(content, n) > 0 <==>
            exists i :: 0 < i < |content| && i < 2 * n && i % 2 == 1 && ValueChanged(content[i - 1], content[i])
  {
    if n > 0 {
      FirstPairsFlagWhere(content, n - 1);
      assert (2 * n - 1) % 2 == 1;
    }
  }

  lemma FirstPairsEnd(content: seq<Tree>, n: nat)
    requires |content| == 2 * n
    ensures FirstPairs(content, n) == NormalizePairs(content) &&
        (FirstPairsFlag(content, n) > 0 <==> PairChanged(content))
  {
    FirstPairsFlagWhere(content, n);
    forall i | 0 <= i < |content| ensures FirstPairs(content, n)[i] == NormalizePairs(content)[i] {
      FirstPairsAt(content, n, i);
    }
  }

  lemma NextPairIs(content: seq<Tree>, n: nat)
    requires 2 * n + 1 < |content|
    ensures FirstPairs(content, n)[2 * n] == content[2 * n] && FirstPairs(content, n)[2 * n + 1] == content[2 * n + 1]
    ensures FirstPairs(content, n + 1) ==
        FirstPairs(content, n)[2 * n + 1 := NormalizeValue(content[2 * n], content[2 * n + 1])]
    ensures FirstPairsFlag(content, n + 1) == if ValueChanged(content[2 * n], content[2 * n + 1]) then 1
        else FirstPairsFlag(content, n)
  {
    FirstPairsRest(content, n, 2 * n);
    FirstPairsRest(content, n, 2 * n + 1);
  }

  /** The next pair, with the flag so far. */
  method NormalizePair(node: Node, n: nat, before: bool, ghost v: seq<Tree>) returns (changed: bool)
    requires node.Valid() && 2 * n + 1 < |node.content| == |v| && node.values == FirstPairs(v, n)
    requires before == (FirstPairsFlag(v, n) > 0)
    modifies node.Repr
    ensures node.Valid() && node.Repr == old(node.Repr) && node.content == old(node.content)
    ensures node.Model() == old(node.Model()).(content := FirstPairs(v, n + 1))
    ensures changed == (FirstPairsFlag(v, n + 1) > 0)
    decreases node.Repr, 1
  {
    NextPairIs(v, n);
    assert node.Owns(node.content[2 * n + 1]);
    var key, value := node.content[2 * n], node.content[2 * n + 1];
    var more := NormalizeKid(node, 2 * n + 1, key.value == "nodeGroups" && value.kind == Sequence);
    changed := before || more;
  }

  method NormalizeValues(node: Node, half: nat) returns (changed: bool)
    requires node.Valid() && |node.content| == 2 * half
    modifies node.Repr
    ensures node.Valid() && node.Repr == old(node.Repr)
    ensures node.Model() == old(node.Model()).(content := FirstPairs(old(node.values), half))
    ensures changed == (FirstPairsFlag(old(node.values), half) > 0)
    decreases node.Repr, 2
  {
    ghost var t, v := node.Model(), node.values;
    changed := false;
    for n := 0 to half
      invariant node.Valid() && node.Repr == old(node.Repr) && node.content == old(node.content)
      invariant node.Model() == t.(content := FirstPairs(v, n))
      invariant changed == (FirstPairsFlag(v, n) > 0)
    {
      changed := NormalizePair(node, n, changed, v);
    }
  }

  method NormalizeMapping(node: Node) returns (changed: bool)
    requires node.Valid() && node.kind == Mapping
    modifies node.Repr
    ensures node.Valid() && node.Repr == old(node.Repr)
    ensures node.Model() == Normalize(old(node.Model())) && changed == Changed(old(node.Model()))
    decreases node.Repr, 3
  {
    changed := RemoveProbeKeys(node);
    FirstPairsEnd(node.values, |node.content| / 2);
    var more := NormalizeValues(node, |node.content| / 2);
    changed := changed || more;
  }

  function FirstEach(content: seq<Tree>, n: nat): seq<Tree> {
    seq(|content|, i requires 0 <= i < |content| => if i < n then Normalize(content[i]) else content[i])
  }

  predicate FirstEachChanged(content: seq<Tree>, n: nat) {
    exists i :: 0 <= i < |content| && i < n && Changed(content[i])
  }

  lemma FirstEachStep(content: seq<Tree>, n: nat)
    requires n < |content|
    ensures FirstEach(content, n + 1) == FirstEach(content, n)[n := Normalize(content[n])]
    ensures FirstEachChanged(content, n + 1) == (FirstEachChanged(content, n) || Changed(content[n]))
  {
  }

  lemma FirstEachEnd(content: seq<Tree>)
    ensures FirstEach(content, |content|) == NormalizeEach(content) &&
        FirstEachChanged(content, |content|) == EachChanged(content)
    ensures FirstEach(content, 0) == content
  {
  }

  method NormalizeChildren(node: Node) returns (changed: bool)
    requires node.Valid() && (node.kind == Document || node.kind == Sequence)
    modifies node.Repr
    ensures node.Valid() && node.Repr == old(node.Repr)
    ensures node.Model() == Normalize(old(node.Model())) && changed == Changed(old(node.Model()))
    decreases node.Repr, 1
  {
    ghost var t, v := node.Model(), node.values;
    changed := false;
    FirstEachEnd(v);
    for i := 0 to |node.content|
      invariant node.Valid() && node.Repr == old(node.Repr) && node.content == old(node.content)
      invariant node.Model() == t.(content := FirstEach(v, i))
      invariant changed == FirstEachChanged(v, i)
    {
      FirstEachStep(v, i);
      assert node.Owns(node.content[i]);
      var more := NormalizeKid(node, i, false);
      changed := changed || more;
    }
  }

  method NormalizeNode(node: Node) returns (changed: bool)
    requires node.Valid()
    modifies node.Repr
    ensures node.Valid() && node.Repr == old(node.Repr)
    ensures node.Model() == Normalize(old(node.Model())) && changed == Changed(old(node.Model()))
    decreases node.Repr, 4
  {
    match node.kind {
      case Mapping => changed := NormalizeMapping(node);
      case Scalar => changed := false;
      case Zero => changed := false;
      case _ => changed := NormalizeChildren(node);
    }
  }
}
