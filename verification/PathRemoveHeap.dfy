/** The same filter over mutable documents: a deep clone, and deletion in place in the clone. */
module PathRemoveHeap {
  import opened Json
  import opened PathRemove
  import opened JsonPointer
  import opened Wrappers

  datatype Kind = TextNode | ScalarNode | ArrayNode | ObjectNode

  /** Members sit in slots, one each: slot `fields[k]` was made for the name `k`. */
  predicate Slotted(fields: map<string, nat>, names: seq<string>) {
    forall k :: k in fields ==> fields[k] < |names| && names[fields[k]] == k
  }

  function FieldsOf(fields: map<string, nat>, names: seq<string>, values: seq<Value>): map<string, Value>
    requires Slotted(fields, names) && |names| == |values|
  {
    map k | k in fields :: values[fields[k]]
  }

  function ModelOf(kind: Kind, text: string, fields: map<string, nat>, names: seq<string>, values: seq<Value>): Value
    requires Slotted(fields, names) && |names| == |values|
  {
    match kind
    case TextNode => Str(text)
    case ScalarNode => Scalar(text)
    case ArrayNode => Arr(values)
    case ObjectNode => Obj(FieldsOf(fields, names, values))
  }

  lemma SlotUpdated(fields: map<string, nat>, names: seq<string>, values: seq<Value>, k: string, v: Value)
    requires Slotted(fields, names) && |names| == |values| && k in fields
    ensures FieldsOf(fields, names, values[fields[k] := v]) == FieldsOf(fields, names, values)[k := v]
  {
  }

  lemma SlotRemoved(fields: map<string, nat>, names: seq<string>, values: seq<Value>, k: string)
    requires Slotted(fields, names) && |names| == |values|
    ensures FieldsOf(fields - {k}, names, values) == FieldsOf(fields, names, values) - {k}
    ensures k !in fields ==> FieldsOf(fields, names, values) - {k} == FieldsOf(fields, names, values)
  {
  }

  /** A document node. The elements of an array, or the member values of an object, sit in `kids`; an object's map
      leads from a member's name to its slot. The ghost fields: `names` says for which name a slot was made, `values`
      what each child stands for, and `Repr` holds the node and everything below it. */
  class Node {
    const kind: Kind
    const text: string
    var kids: seq<Node>
    var fields: map<string, nat>
    ghost var names: seq<string>
    ghost var values: seq<Value>
    ghost var Repr: set<Node>

    constructor (kind: Kind, text: string)
      ensures Valid() && fresh(Repr) && this.kind == kind && this.text == text && kids == [] && fields == map[]
    {
      this.kind, this.text := kind, text;
      kids, fields, names, values, Repr := [], map[], [], [], {this};
    }

    ghost predicate Owns(child: Node)
      reads this, child
    {
      child.Repr < Repr && this !in child.Repr
    }

    ghost predicate Valid()
      reads this, Repr
      decreases Repr
    {
      && this in Repr
      && |values| == |names| == |kids|
      && (forall i :: 0 <= i < |kids| ==>
          kids[i] in Repr && Owns(kids[i]) && kids[i].Valid() && kids[i].Model() == values[i])
      && (forall i, j :: 0 <= i < j < |kids| ==> kids[i].Repr !! kids[j].Repr)
      && Shaped()
    }

    ghost predicate Shaped()
      reads this
    {
      Slotted(fields, names) && |names| == |values|
    }

    /** The document as a value. */
    ghost function Model(): Value
      requires Shaped()
      reads this
    {
      ModelOf(kind, text, fields, names, values)
    }

    /** Puts a tree into a new slot. */
    method AddKid(c: Node, ghost name: string)
      requires Valid() && c.Valid() && c.Repr !! Repr
      modifies this
      ensures Valid() && Repr == old(Repr) + c.Repr && kids == old(kids) + [c] && fields == old(fields)
      ensures values == old(values) + [c.Model()] && names == old(names) + [name]
    {
      kids, values, names, Repr := kids + [c], values + [c.Model()], names + [name], Repr + c.Repr;
    }

    method DeleteField(key: string) returns (removed: nat)
      requires Valid() && kind == ObjectNode
      modifies this
      ensures Valid() && Repr == old(Repr)
      ensures Model() == Removed(old(Model()), [key]) && removed == Count(old(Model()), [key])
    {
      removed := 0;
      SlotRemoved(fields, names, values, key);
      if key in fields {
        fields := fields - {key};
        removed := 1;
      }
    }
  }

  /* ---------- the clone ---------- */

  /** A copy that shares no node with the original: every slot is cloned, and the map leads to the same slots. */
  method CloneAny(node: Node) returns (out: Node)
    requires node.Valid()
    ensures out.Valid() && fresh(out.Repr) && out.Model() == node.Model()
    decreases node.Repr, 1
  {
    out := CloneKids(node, |node.kids|);
    assert node.values[..|node.values|] == node.values && node.names[..|node.names|] == node.names;
    out.fields := node.fields;
  }

  lemma OneMore<T>(s: seq<T>, i: nat)
    requires i < |s|
    ensures s[..i + 1] == s[..i] + [s[i]]
  {
  }

  /** A fresh node of the same kind with copies of the first `n` children, and no member map yet. */
  method CloneKids(node: Node, n: nat) returns (out: Node)
    requires node.Valid() && n <= |node.kids|
    ensures out.Valid() && fresh(out.Repr) && out.kind == node.kind && out.text == node.text
    ensures out.values == node.values[..n] && out.names == node.names[..n]
    decreases node.Repr, 0
  {
    out := new Node(node.kind, node.text);
    for i := 0 to n
      invariant out.Valid() && fresh(out.Repr) && out.fields == map[]
      invariant node.Valid()
      invariant out.values == node.values[..i] && out.names == node.names[..i]
    {
      assert node.Owns(node.kids[i]);
      var c := CloneAny(node.kids[i]);
      out.AddKid(c, node.names[i]);
      OneMore(node.values, i);
      OneMore(node.names, i);
    }
  }

  /* ---------- removal in place ---------- */

  function Part(m: map<string, nat>, keys: set<string>): map<string, nat> {
    map k | k in m && k in keys :: m[k]
  }

  function Pruned(m: map<string, Value>, keys: set<string>, parts: seq<string>): map<string, Value> {
    map k | k in m :: if k in keys then Removed(m[k], parts) else m[k]
  }

  ghost function Counted(m: map<string, Value>, keys: set<string>, parts: seq<string>): nat {
    Sum(map k | k in m && k in keys :: Count(m[k], parts))
  }

  lemma PruneStep(m: map<string, Value>, unseen: set<string>, k: string, parts: seq<string>)
    requires k in unseen && k in m
    ensures var m' := m[k := Removed(m[k], parts)];
            && Pruned(m', unseen - {k}, parts) == Pruned(m, unseen, parts)
            && Counted(m, unseen, parts) == Count(m[k], parts) + Counted(m', unseen - {k}, parts)
  {
    var counts := map l | l in m && l in unseen :: Count(m[l], parts);
    var m' := m[k := Removed(m[k], parts)];
    SumWithout(counts, k);
    assert counts - {k} == map l | l in m' && l in unseen - {k} :: Count(m'[l], parts);
  }

  lemma PruneEnds(m: map<string, Value>, parts: seq<string>)
    ensures Pruned(m, {}, parts) == m && Counted(m, {}, parts) == 0
  {
    var none: set<string> := {};
    var counts := map k | k in m && k in none :: Count(m[k], parts);
    assert counts.Keys == {};
  }

  lemma {:induction false} PartIsAll(m: map<string, nat>, keys: set<string>)
    requires forall k :: k in m && k !in keys ==> m[k] == 0
    ensures Sum(Part(m, keys)) == Sum(m)
    decreases |m|
  {
    if k :| k in m && k !in keys {
      SumWithout(m, k);
      PartIsAll(m - {k}, keys);
      assert Part(m - {k}, keys) == Part(m, keys);
    } else {
      assert Part(m, keys) == m;
    }
  }

  /** Pruning the picked members is one step of the path through an object. */
  lemma PrunedPicked(m: map<string, Value>, keys: set<string>, parts: seq<string>)
    requires |parts| > 1 && forall k :: k in m ==> (k in keys <==> Picks(parts[0], Key(k)))
    ensures Obj(Pruned(m, keys, parts[1..])) == Removed(Obj(m), parts)
    ensures Counted(m, keys, parts[1..]) == Count(Obj(m), parts)
  {
    assert Pruned(m, keys, parts[1..]) == Removed(Obj(m), parts).fields;
    PartIsAll(MemberCounts(m, parts), keys);
    assert Part(MemberCounts(m, parts), keys) == map k | k in m && k in keys :: Count(m[k], parts[1..]);
  }

  /** Deletes in place and counts; only nodes of the document itself are written. */
  method RemovePath(node: Node, parts: seq<string>) returns (removed: nat)
    requires node.Valid()
    modifies node.Repr
    ensures node.Valid() && node.Repr == old(node.Repr)
    ensures node.Model() == Removed(old(node.Model()), parts) && removed == Count(old(node.Model()), parts)
    decreases |parts|, 2
  {
    removed := 0;
    if parts == [] {
      return;
    }
    match node.kind {
      case ObjectNode =>
        if |parts| == 1 {
          assert parts == [parts[0]];
          removed := node.DeleteField(parts[0]);
        } else {
          removed := RemoveInFields(node, parts);
        }
      case ArrayNode =>
        removed := RemoveInItems(node, parts);
      case _ =>
    }
  }

  /** One child is pruned; its siblings are other trees and stay as they are. */
  method RemoveInKid(node: Node, i: nat, parts: seq<string>) returns (removed: nat)
    requires node.Valid() && i < |node.kids|
    modifies node, node.kids[i].Repr
    ensures node.Valid() && node.Repr == old(node.Repr) && node.kids == old(node.kids)
    ensures node.fields == old(node.fields) && node.names == old(node.names)
    ensures node.values == old(node.values)[i := Removed(old(node.values)[i], parts)]
    ensures removed == Count(old(node.values)[i], parts)
    decreases |parts|, 3
  {
    assert node.Owns(node.kids[i]);
    assert forall j :: 0 <= j < |node.kids| && j != i ==> node.kids[j].Repr !! node.kids[i].Repr;
    removed := RemovePath(node.kids[i], parts);
    node.values := node.values[i := node.kids[i].Model()];
  }

  method RemoveInFields(node: Node, parts: seq<string>) returns (removed: nat)
    requires node.Valid() && node.kind == ObjectNode && |parts| > 1
    modifies node.Repr
    ensures node.Valid() && node.Repr == old(node.Repr)
    ensures node.Model() == Removed(old(node.Model()), parts) && removed == Count(old(node.Model()), parts)
    decreases |parts|, 1
  {
    removed := 0;
    var unseen := if parts[0] == "*" then node.fields.Keys else node.fields.Keys * {parts[0]};
    PrunedPicked(node.Model().fields, unseen, parts);
    while unseen != {}
      invariant node.Valid() && node.Repr == old(node.Repr) && unseen <= node.fields.Keys
      invariant Obj(Pruned(node.Model().fields, unseen, parts[1..])) == Removed(old(node.Model()), parts)
      invariant removed + Counted(node.Model().fields, unseen, parts[1..]) == Count(old(node.Model()), parts)
      decreases unseen
    {
      var k :| k in unseen;
      ghost var m := node.Model().fields;
      PruneStep(m, unseen, k, parts[1..]);
      SlotUpdated(node.fields, node.names, node.values, k, Removed(m[k], parts[1..]));
      assert node.Owns(node.kids[node.fields[k]]);
      var n := RemoveInKid(node, node.fields[k], parts[1..]);
      removed := removed + n;
      unseen := unseen - {k};
    }
    PruneEnds(node.Model().fields, parts[1..]);
  }

  function FirstPruned(items: seq<Value>, n: nat, parts: seq<string>): seq<Value> {
    seq(|items|, i requires 0 <= i < |items| => if i < n then Removed(items[i], parts) else items[i])
  }

  lemma FirstPrunedStep(items: seq<Value>, n: nat, parts: seq<string>)
    requires n < |items| && parts != [] && parts[0] == "*"
    ensures FirstPruned(items, n + 1, parts[1..]) ==
        FirstPruned(items, n, parts[1..])[n := Removed(items[n], parts[1..])]
    ensures SumSeq(ItemCounts(items, parts)[..n + 1]) == SumSeq(ItemCounts(items, parts)[..n]) +
        Count(items[n], parts[1..])
  {
    assert ItemCounts(items, parts)[..n + 1][..n] == ItemCounts(items, parts)[..n];
  }

  lemma FirstPrunedEnds(items: seq<Value>, parts: seq<string>)
    requires parts != [] && parts[0] == "*"
    ensures FirstPruned(items, 0, parts[1..]) == items
    ensures Arr(FirstPruned(items, |items|, parts[1..])) == Removed(Arr(items), parts)
    ensures SumSeq(ItemCounts(items, parts)[..|items|]) == Count(Arr(items), parts)
  {
    assert ItemCounts(items, parts)[..|items|] == ItemCounts(items, parts);
  }

  lemma {:induction false} OnlyOneCounts(s: seq<nat>, i: nat)
    requires i < |s| && forall j :: 0 <= j < |s| && j != i ==> s[j] == 0
    ensures SumSeq(s) == s[i]
  {
    if i < |s| - 1 {
      OnlyOneCounts(s[..|s| - 1], i);
    } else {
      SumSeqIsZero(s[..|s| - 1]);
    }
  }

  /** A number picks at most one element. */
  lemma NumberedStep(items: seq<Value>, parts: seq<string>)
    requires parts != [] && parts[0] != "*"
    ensures var index := Atoi(parts[0]);
            if index.Some? && 0 <= index.value < |items|
            then Removed(Arr(items), parts) == Arr(items[index.value := Removed(items[index.value], parts[1..])])
                 && Count(Arr(items), parts) == Count(items[index.value], parts[1..])
            else Removed(Arr(items), parts) == Arr(items) && Count(Arr(items), parts) == 0
  {
    var index, counts := Atoi(parts[0]), ItemCounts(items, parts);
    if index.Some? && 0 <= index.value < |items| {
      OnlyOneCounts(counts, index.value);
      assert Removed(Arr(items), parts).items == items[index.value := Removed(items[index.value], parts[1..])];
    } else {
      SumSeqIsZero(counts);
      assert Removed(Arr(items), parts).items == items;
    }
  }

  method RemoveInItems(node: Node, parts: seq<string>) returns (removed: nat)
    requires node.Valid() && node.kind == ArrayNode && parts != []
    modifies node.Repr
    ensures node.Valid() && node.Repr == old(node.Repr)
    ensures node.Model() == Removed(old(node.Model()), parts) && removed == Count(old(node.Model()), parts)
    decreases |parts|, 1
  {
    removed := 0;
    ghost var v := node.values;
    if parts[0] == "*" {
      FirstPrunedEnds(v, parts);
      for i := 0 to |node.kids|
        invariant node.Valid() && node.Repr == old(node.Repr) && node.kids == old(node.kids)
        invariant node.values == FirstPruned(v, i, parts[1..])
        invariant removed == SumSeq(ItemCounts(v, parts)[..i])
      {
        FirstPrunedStep(v, i, parts);
        assert node.Owns(node.kids[i]);
        var n := RemoveInKid(node, i, parts[1..]);
        removed := removed + n;
      }
      return;
    }
    NumberedStep(v, parts);
    var index := Atoi(parts[0]);
    if index.Some? && 0 <= index.value < |node.kids| {
      assert node.Owns(node.kids[index.value]);
      removed := RemoveInKid(node, index.value, parts[1..]);
    }
  }

  function ParseAll(paths: seq<string>): seq<seq<string>> {
    seq(|paths|, i requires 0 <= i < |paths| => Parse(paths[i]))
  }

  lemma ParseOneMore(paths: seq<string>, i: nat)
    requires i < |paths|
    ensures ParseAll(paths)[..i + 1][..i] == ParseAll(paths)[..i] && ParseAll(paths)[..i + 1][i] == Parse(paths[i])
  {
  }

  lemma NextPath(paths: seq<string>, i: nat, v: Value)
    requires i < |paths|
    ensures var (now, next) := (ParseAll(paths)[..i], ParseAll(paths)[..i + 1]);
            && RemovedAll(v, next) == Removed(RemovedAll(v, now), Parse(paths[i]))
            && CountAll(v, next) == CountAll(v, now) + Count(RemovedAll(v, now), Parse(paths[i]))
  {
    ParseOneMore(paths, i);
  }

  /** One turn of the filter's loop: the tree has lost the first `i` paths and loses the next. */
  method RemoveNext(next: Node, paths: seq<string>, i: nat, before: nat, ghost v: Value) returns (removed: nat)
    requires next.Valid() && i < |paths|
    requires next.Model() == RemovedAll(v, ParseAll(paths)[..i]) && before == CountAll(v, ParseAll(paths)[..i])
    modifies next.Repr
    ensures next.Valid() && next.Repr == old(next.Repr)
    ensures next.Model() == RemovedAll(v, ParseAll(paths)[..i + 1])
    ensures removed == CountAll(v, ParseAll(paths)[..i + 1])
  {
    NextPath(paths, i, v);
    var parts := ParsePointer(paths[i]);
    var n := RemovePath(next, parts);
    removed := before + n;
  }

  /** The filter: the input is cloned, the clone is pruned path by path, and the clone is returned only if
      something was removed. There is no modifies clause: the input document is never written. */
  method Apply(root: Node, paths: seq<string>) returns (out: Node, removed: nat)
    requires root.Valid()
    ensures removed == CountAll(root.Model(), ParseAll(paths))
    ensures out.Valid() && out.Model() == RemovedAll(root.Model(), ParseAll(paths))
    ensures if removed == 0 then out == root else fresh(out.Repr)
  {
    if paths == [] {
      return root, 0;
    }
    ghost var v, all := root.Model(), ParseAll(paths);
    var next := CloneAny(root);
    removed := 0;
    for i := 0 to |paths|
      invariant next.Valid() && fresh(next.Repr) && root.Valid()
      invariant next.Model() == RemovedAll(v, all[..i]) && removed == CountAll(v, all[..i])
    {
      removed := RemoveNext(next, paths, i, removed, v);
    }
    assert all[..|paths|] == all;
    PassCountsNothingIffUnchanged(v, all);
    out := if removed == 0 then root else next;
  }
}
