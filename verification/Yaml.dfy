/** Parsed YAML as values: every node has a kind, a tag, a text and a flat list of children. In a mapping the children
    are keys and values in turn. Aliases and anchors are not part of this model. */
module Yaml {
  import opened Wrappers

  datatype Kind = Document | Sequence | Mapping | Scalar | Zero

  datatype Tree = Tree(kind: Kind, tag: string, value: string, content: seq<Tree>)

  /** How deep a tree is, to bound recursion over trees that are rearranged on the way. */
  ghost function Height(t: Tree): nat
    decreases t, 1
  {
    1 + Highest(t.content)
  }

  ghost function Highest(content: seq<Tree>): (h: nat)
    ensures forall x :: x in content ==> Height(x) <= h
    ensures content != [] ==> exists x :: x in content && h == Height(x)
    ensures content == [] ==> h == 0
    decreases content, 0
  {
    if content == [] then 0
    else
      assert content == content[..|content| - 1] + [content[|content| - 1]];
      var (before, last) := (Highest(content[..|content| - 1]), Height(content[|content| - 1]));
      if before > last then before else last
  }

  /** The index of the first value whose key has this text, from pair `i` on. */
  function Find(content: seq<Tree>, key: string, i: nat): (r: Option<nat>)
    ensures r.Some? ==> i < r.value < |content| && content[r.value - 1].value == key
    decreases |content| - i
  {
    if i + 1 >= |content| then None
    else if content[i].value == key then Some(i + 1)
    else Find(content, key, i + 2)
  }

  function MappingValue(t: Tree, key: string): (r: Option<Tree>)
    ensures r.Some? ==> r.value < t
  {
    if t.kind != Mapping then None
    else
      var at := Find(t.content, key, 0);
      if at.Some? then Some(t.content[at.value]) else None
  }

  lemma {:induction false} FindIsEven(content: seq<Tree>, key: string, i: nat)
    requires i % 2 == 0
    ensures var r := Find(content, key, i); r.Some? ==> r.value % 2 == 1
    decreases |content| - i
  {
    if i + 1 < |content| && content[i].value != key {
      FindIsEven(content, key, i + 2);
    }
  }

  /** The value under a key in a flat list of pairs. */
  function Got(content: seq<Tree>, key: string): (r: Option<Tree>)
    ensures r.Some? ==> r.value in content
  {
    var at := Find(content, key, 0);
    if at.Some? then Some(content[at.value]) else None
  }

  /** Replacing a value leaves every key where it is. */
  lemma {:induction false} FindAfterUpdate(content: seq<Tree>, j: nat, x: Tree, key: string, i: nat)
    requires j < |content| && j % 2 == 1 && i % 2 == 0
    ensures Find(content[j := x], key, i) == Find(content, key, i)
    decreases |content| - i
  {
    if i + 1 < |content| && content[i].value != key {
      FindAfterUpdate(content, j, x, key, i + 2);
    }
  }

  lemma {:induction false} FindAppended(content: seq<Tree>, k: Tree, v: Tree, key: string, i: nat)
    requires |content| % 2 == 0 && i % 2 == 0 && i <= |content|
    ensures Find(content + [k, v], key, i) ==
            if Find(content, key, i).Some? then Find(content, key, i)
            else if k.value == key then Some(|content| + 1) else None
    decreases |content| - i
  {
    var more := content + [k, v];
    if i < |content| {
      assert more[i] == content[i];
      if content[i].value != key {
        FindAppended(content, k, v, key, i + 2);
      }
    } else if k.value != key {
      assert Find(more, key, i + 2).None?;
    }
  }

  /** The first `n` pairs. */
  function Pairs(content: seq<Tree>, n: nat): seq<Tree>
    requires 2 * n <= |content|
  {
    content[..2 * n]
  }

  lemma GotNext(content: seq<Tree>, n: nat, key: string)
    requires 2 * n + 1 < |content|
    ensures Got(Pairs(content, n + 1), key) ==
            if Got(Pairs(content, n), key).Some? then Got(Pairs(content, n), key)
            else if content[2 * n].value == key then Some(content[2 * n + 1]) else None
  {
    assert Pairs(content, n + 1) == Pairs(content, n) + [content[2 * n], content[2 * n + 1]];
    FindAppended(Pairs(content, n), content[2 * n], content[2 * n + 1], key, 0);
  }

  /** A last key without a value is never found. */
  lemma GotPairs(content: seq<Tree>, key: string)
    ensures Got(Pairs(content, |content| / 2), key) == Got(content, key)
  {
    if |content| % 2 == 0 {
      assert Pairs(content, |content| / 2) == content;
    } else {
      FindIgnoresOdd(content, key, 0);
    }
  }

  lemma {:induction false} FindIgnoresOdd(content: seq<Tree>, key: string, i: nat)
    requires |content| % 2 == 1 && i % 2 == 0 && i < |content|
    ensures Find(content[..|content| - 1], key, i) == Find(content, key, i)
    decreases |content| - i
  {
    if i + 1 < |content| && content[i].value != key {
      FindIgnoresOdd(content, key, i + 2);
    }
  }

  /* ---------- reading by a path of keys ---------- */

  function Read(t: Tree, path: seq<string>): Option<Tree>
  {
    if path == [] then Some(t)
    else
      var child := MappingValue(t, path[0]);
      if child.Some? then Read(child.value, path[1..]) else None
  }
}
