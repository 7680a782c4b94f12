/** YAML nodes as mutable objects, and their deep copy. */
module YamlHeap {
  import opened Yaml
  import opened Wrappers

  /** The ghost fields: `values` says what each child stands for, `Repr` holds the node and everything below it. */
  class Node {
    var kind: Kind
    var tag: string
    var value: string
    var content: seq<Node>
    ghost var values: seq<Tree>
    ghost var Repr: set<Node>

    constructor (kind: Kind, tag: string, value: string)
      ensures Valid() && fresh(Repr) && Model() == Tree(kind, tag, value, [])
    {
      this.kind, this.tag, this.value := kind, tag, value;
      content, values, Repr := [], [], {this};
    }

    ghost predicate Owns(child: Node)
      reads this, child
    {
      child.Repr < Repr && this !in child.Repr
    }

    ghost predicate Valid()
      reads this, Repr
      decreases Repr
    {
      && this in Repr
      && |values| == |content|
      && (forall i :: 0 <= i < |content| ==>
          content[i] in Repr && Owns(content[i]) && content[i].Valid() && content[i].Model() == values[i])
      && (forall i, j :: 0 <= i < j < |content| ==> content[i].Repr !! content[j].Repr)
    }

    /** The node as a value. */
    ghost function Model(): Tree
      reads this
    {
      Tree(kind, tag, value, values)
    }

    /** Puts a tree behind the other children. */
    method Append(c: Node)
      requires Valid() && c.Valid() && c.Repr !! Repr
      modifies this
      ensures Valid() && Repr == old(Repr) + c.Repr && content == old(content) + [c]
      ensures Model() == old(Model()).(content := old(values) + [c.Model()])
    {
      content, values, Repr := content + [c], values + [c.Model()], Repr + c.Repr;
    }
  }

  /** A copy that shares no node with the original. */
  method CloneNode(node: Node) returns (out: Node)
    requires node.Valid()
    ensures out.Valid() && fresh(out.Repr) && out.Model() == node.Model()
    decreases node.Repr
  {
    out := new Node(node.kind, node.tag, node.value);
    for i := 0 to |node.content|
      invariant out.Valid() && fresh(out.Repr) && node.Valid()
      invariant out.Model() == node.Model().(content := node.values[..i])
    {
      assert node.Owns(node.content[i]);
      var c := CloneNode(node.content[i]);
      out.Append(c);
      assert node.values[..i + 1] == node.values[..i] + [node.values[i]];
    }
    assert node.values[..|node.values|] == node.values;
  }

  /** What is left of a valid node once its child at `j` has become another tree. */
  ghost predicate ValidBesides(node: Node, j: nat)
    reads node, node.content, node.Repr, set c <- node.content, n <- c.Repr :: n
  {
    && node in node.Repr
    && j < |node.values| == |node.content|
    && (forall i :: 0 <= i < |node.content| ==>
        node.content[i] in node.Repr && node !in node.content[i].Repr && node.content[i].Valid())
    && (forall i :: 0 <= i < |node.content| && i != j ==>
        node.Owns(node.content[i]) && node.content[i].Model() == node.values[i])
    && (forall i, k :: 0 <= i < k < |node.content| ==> node.content[i].Repr !! node.content[k].Repr)
  }

  /** The node takes note of the new tree below it. */
  ghost method Recorded(node: Node, j: nat)
    requires ValidBesides(node, j)
    modifies node
    ensures node.Valid() && node.Repr == old(node.Repr) + node.content[j].Repr
    ensures node.content == old(node.content)
    ensures node.Model() == old(node.Model()).(content := old(node.values)[j := old(node.content[j].Model())])
  {
    node.values := node.values[j := node.content[j].Model()];
    node.Repr := node.Repr + node.content[j].Repr;
  }

  /** The index of the value under a key: the first match counts. */
  method IndexOf(node: Node, key: string) returns (r: Option<nat>)
    requires node.Valid()
    ensures r == Find(node.values, key, 0)
  {
    var i := 0;
    while i + 1 < |node.content|
      invariant i % 2 == 0 && Find(node.values, key, i) == Find(node.values, key, 0)
    {
      if node.content[i].value == key {
        return Some(i + 1);
      }
      i := i + 2;
    }
    r := None;
  }
}
