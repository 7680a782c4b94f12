/** The overlay merge over mutable nodes. */
module OverlayHeap {
  import opened Yaml
  import opened YamlHeap
  import opened Overlay
  import opened Wrappers

  /** The base node takes the fields of another, and with them its children. */
  method TakeFields(base: Node, c: Node)
    requires c.Valid() && base !in c.Repr
    modifies base
    ensures base.Valid() && base.Repr == c.Repr - {c} + {base} && base.Model() == c.Model()
  {
    assert forall i :: 0 <= i < |c.content| ==> c.Owns(c.content[i]);
    base.kind, base.tag, base.value, base.content := c.kind, c.tag, c.value, c.content;
    base.values, base.Repr := c.values, c.Repr - {c} + {base};
  }

  /** The base node becomes a copy of the overlay: its fields are overwritten, and its children are fresh. */
  method Overwrite(base: Node, overlay: Node)
    requires base.Valid() && overlay.Valid()
    modifies base
    ensures base.Valid() && fresh(base.Repr - {base})
    ensures base.Model() == old(overlay.Model())
  {
    var c := CloneNode(overlay);
    TakeFields(base, c);
  }

  /** Merges the overlay into the base in place. The overlay is not written, and afterwards the base shares no node
      with it: whatever came from the overlay is a fresh copy. */
  method MergeNode(base: Node, overlay: Node)
    requires base.Valid() && overlay.Valid() && base.Repr !! overlay.Repr
    modifies base.Repr
    ensures base.Valid() && fresh(base.Repr - old(base.Repr)) && base.Repr !! overlay.Repr
    ensures overlay.Valid() && overlay.Repr == old(overlay.Repr) && overlay.Model() == old(overlay.Model())
    ensures base.Model() == Merge(old(base.Model()), overlay.Model())
    decreases overlay.Repr, 3
  {
    if base.kind == Mapping && overlay.kind == Mapping {
      MergeMapping(base, overlay);
    } else {
      Overwrite(base, overlay);
    }
  }

  /** The value of one key is merged; its siblings are other trees and stay as they are. */
  method MergeValue(base: Node, j: nat, value: Node)
    requires base.Valid() && value.Valid() && base.Repr !! value.Repr && j < |base.content|
    modifies base, base.content[j].Repr
    ensures base.Valid() && fresh(base.Repr - old(base.Repr))
    ensures base.Model() ==
        old(base.Model()).(content := old(base.values)[j := Merge(old(base.values)[j], old(value.Model()))])
    decreases value.Repr, 4
  {
    assert base.Owns(base.content[j]);
    assert forall i :: 0 <= i < |base.content| && i != j ==>
        base.content[i].Repr !! base.content[j].Repr && base.Owns(base.content[i]);
    MergeNode(base.content[j], value);
    Recorded(base, j);
  }

  method AppendPair(base: Node, key: Node, value: Node)
    requires base.Valid() && key.Valid() && value.Valid()
    modifies base
    ensures base.Valid() && fresh(base.Repr - old(base.Repr))
    ensures base.Model() == old(base.Model()).(content := old(base.values) + [old(key.Model()), old(value.Model())])
  {
    var k := CloneNode(key);
    var v := CloneNode(value);
    base.Append(k);
    base.Append(v);
  }

  /** One pair of the overlay. */
  method MergePair(base: Node, key: Node, value: Node)
    requires base.Valid() && key.Valid() && value.Valid() && base.Repr !! value.Repr
    modifies base.Repr
    ensures base.Valid() && fresh(base.Repr - old(base.Repr))
    ensures base.Model() == PairMerged(old(base.Model()), old(key.Model()), old(value.Model()))
    decreases value.Repr, 5
  {
    var at := IndexOf(base, key.value);
    if at.None? {
      AppendPair(base, key, value);
    } else {
      assert base.Owns(base.content[at.value]);
      MergeValue(base, at.value, value);
    }
  }

  function PairMerged(b: Tree, key: Tree, value: Tree): Tree {
    var at := Find(b.content, key.value, 0);
    b.(content := Put(b.content, key, if at.None? then value else Merge(b.content[at.value], value)))
  }

  lemma NextPair(b: Tree, o: Tree, n: nat)
    requires 2 * n + 1 < |o.content|
    ensures PairMerged(b.(content := MergeFirst(b.content, o, n)), o.content[2 * n], o.content[2 * n + 1])
            == b.(content := MergeFirst(b.content, o, n + 1))
  {
  }

  /** The overlay's pair number `n`; the overlay itself is not written. */
  method MergeNth(base: Node, overlay: Node, n: nat, ghost b: Tree)
    requires base.Valid() && overlay.Valid() && base.Repr !! overlay.Repr && 2 * n + 1 < |overlay.content|
    requires base.Model() == b.(content := MergeFirst(b.content, overlay.Model(), n))
    modifies base.Repr
    ensures base.Valid() && fresh(base.Repr - old(base.Repr)) && base.Repr !! overlay.Repr
    ensures overlay.Valid() && unchanged(overlay)
    ensures base.Model() == b.(content := MergeFirst(b.content, overlay.Model(), n + 1))
    decreases overlay.Repr, 1
  {
    NextPair(b, overlay.Model(), n);
    var key, value := overlay.content[2 * n], overlay.content[2 * n + 1];
    assert overlay.Owns(key) && overlay.Owns(value);
    MergePair(base, key, value);
  }

  method MergeMapping(base: Node, overlay: Node)
    requires base.Valid() && overlay.Valid() && base.Repr !! overlay.Repr
    requires base.kind == overlay.kind == Mapping
    modifies base.Repr
    ensures base.Valid() && fresh(base.Repr - old(base.Repr))
    ensures base.Model() == Merge(old(base.Model()), old(overlay.Model()))
    decreases overlay.Repr, 2
  {
    ghost var b, o := base.Model(), overlay.Model();
    for n := 0 to |overlay.content| / 2
      invariant base.Valid() && fresh(base.Repr - old(base.Repr)) && base.Repr !! overlay.Repr
      invariant overlay.Valid() && unchanged(overlay)
      invariant base.Model() == b.(content := MergeFirst(b.content, o, n))
    {
      MergeNth(base, overlay, n, b);
    }
  }
}
