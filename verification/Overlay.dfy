/** Laying a user's configuration over the default one: the recursive merge of two YAML trees. */
module Overlay {
  import opened Yaml
  import opened Wrappers

  /** What becomes of the base: mappings are merged key by key, anything else is replaced by the overlay. */
  function Merge(b: Tree, o: Tree): Tree
    decreases o, 1
  {
    if b.kind == Mapping && o.kind == Mapping then b.(content := MergeFirst(b.content, o, |o.content| / 2)) else o
  }

  /** The base's children after the first `n` pairs of the overlay. */
  function MergeFirst(content: seq<Tree>, o: Tree, n: nat): (r: seq<Tree>)
    requires 2 * n <= |o.content|
    ensures |r| % 2 == |content| % 2
    decreases o, 0, n
  {
    if n == 0 then content
    else
      var c := MergeFirst(content, o, n - 1);
      var (key, value) := (o.content[2 * n - 2], o.content[2 * n - 1]);
      var at := Find(c, key.value, 0);
      Put(c, key, if at.None? then value else Merge(c[at.value], value))
  }

  /** The value goes under the key: in its place if the key is there, behind everything if not. */
  function Put(content: seq<Tree>, key: Tree, value: Tree): (r: seq<Tree>)
    ensures |r| % 2 == |content| % 2
  {
    var at := Find(content, key.value, 0);
    if at.None? then content + [key, value] else content[at.value := value]
  }

  /* ---------- what parsed trees are like ---------- */

  /** In every mapping reached through keys, each key has a value. */
  ghost predicate Paired(t: Tree) {
    t.kind == Mapping ==> |t.content| % 2 == 0 && forall i :: 0 < i < |t.content| && i % 2 == 1 ==> Paired(t.content[i])
  }

  /** In every mapping reached through keys, no key occurs twice. */
  ghost predicate Unique(t: Tree) {
    t.kind == Mapping ==> forall n {:trigger Pairs(t.content, n)} :: 0 <= 2 * n && 2 * n + 1 < |t.content| ==>
      Got(Pairs(t.content, n), t.content[2 * n].value).None? && Unique(t.content[2 * n + 1])
  }

  /* ---------- one key ---------- */

  function Combined(b: Option<Tree>, o: Option<Tree>): Option<Tree> {
    if o.None? then b else if b.None? then o else Some(Merge(b.value, o.value))
  }

  lemma PutGot(content: seq<Tree>, k: Tree, v: Tree, key: string)
    requires |content| % 2 == 0
    ensures Got(Put(content, k, v), key) == if k.value == key then Some(v) else Got(content, key)
  {
    var at := Find(content, k.value, 0);
    if at.None? {
      FindAppended(content, k, v, key, 0);
    } else {
      FindIsEven(content, k.value, 0);
      FindAfterUpdate(content, at.value, v, key, 0);
    }
  }

  lemma {:induction false} FirstCombines(content: seq<Tree>, o: Tree, n: nat, key: string)
    requires o.kind == Mapping && Unique(o) && |content| % 2 == 0 && 2 * n <= |o.content|
    ensures Got(MergeFirst(content, o, n), key) == Combined(Got(content, key), Got(Pairs(o.content, n), key))
    decreases n
  {
    if n > 0 {
      var m: nat := n - 1;
      assert m + 1 == n;
      var c, k, v := MergeFirst(content, o, m), o.content[2 * m], o.content[2 * m + 1];
      FirstCombines(content, o, m, key);
      FirstCombines(content, o, m, k.value);
      GotNext(o.content, m, key);
      assert Got(Pairs(o.content, m), k.value).None?;
      var at := Find(c, k.value, 0);
      PutGot(c, k, if at.None? then v else Merge(c[at.value], v), key);
    }
  }

  lemma MergeCombines(b: Tree, o: Tree, key: string)
    requires b.kind == o.kind == Mapping && |b.content| % 2 == 0 && Unique(o)
    ensures MappingValue(Merge(b, o), key) == Combined(MappingValue(b, key), MappingValue(o, key))
  {
    FirstCombines(b.content, o, |o.content| / 2, key);
    GotPairs(o.content, key);
  }

  /** Two mappings merge to a mapping with the base's own tag and text; anything else is the overlay, as it is. */
  lemma MergeKeepsTheNode(b: Tree, o: Tree)
    ensures b.kind == Mapping && o.kind == Mapping ==>
            Merge(b, o).kind == Mapping && Merge(b, o).tag == b.tag && Merge(b, o).value == b.value
    ensures b.kind != Mapping || o.kind != Mapping ==> Merge(b, o) == o
  {
  }

  lemma PairedBelow(t: Tree, key: string)
    requires Paired(t) && MappingValue(t, key).Some?
    ensures Paired(MappingValue(t, key).value)
  {
    FindIsEven(t.content, key, 0);
  }

  lemma UniqueBelow(t: Tree, key: string)
    requires Unique(t) && MappingValue(t, key).Some?
    ensures Unique(MappingValue(t, key).value)
  {
    FindIsEven(t.content, key, 0);
    var i: nat := Find(t.content, key, 0).value / 2;
    assert 2 * i + 1 == Find(t.content, key, 0).value;
    var _ := Pairs(t.content, i);
  }

  /* ---------- every path ---------- */

  /** The overlay sets something on the way to the path that is not a mapping. */
  ghost predicate Blocked(o: Tree, path: seq<string>) {
    exists n :: 0 <= n < |path| && Read(o, path[..n]).Some? && Read(o, path[..n]).value.kind != Mapping
  }

  lemma BlockedBelow(o: Tree, path: seq<string>)
    requires path != []
    ensures Blocked(o, path) <==>
            o.kind != Mapping || (MappingValue(o, path[0]).Some? && Blocked(MappingValue(o, path[0]).value, path[1..]))
  {
    var child := MappingValue(o, path[0]);
    if Blocked(o, path) && o.kind == Mapping {
      var n :| 0 <= n < |path| && Read(o, path[..n]).Some? && Read(o, path[..n]).value.kind != Mapping;
      assert path[..n][1..] == path[1..][..n - 1] && path[..n][0] == path[0];
    }
    if o.kind != Mapping {
      assert Read(o, path[..0]).Some?;
    } else if child.Some? && Blocked(child.value, path[1..]) {
      var n :| 0 <= n < |path[1..]| && Read(child.value, path[1..][..n]).Some? &&
          Read(child.value, path[1..][..n]).value.kind != Mapping;
      assert path[..n + 1][1..] == path[1..][..n] && path[..n + 1][0] == path[0];
      assert Read(o, path[..n + 1]) == Read(child.value, path[1..][..n]);
    }
  }

  /** What a path reads after the merge: the overlay's value where the overlay sets the path, merged only if both
      sides have mappings there; otherwise the base's, unless the overlay has replaced something on the way. */
  function Expected(b: Option<Tree>, o: Option<Tree>, blocked: bool): Option<Tree> {
    if o.Some? then
      if b.Some? && b.value.kind == Mapping && o.value.kind == Mapping then Some(Merge(b.value, o.value)) else o
    else if blocked then None
    else b
  }

  lemma {:induction false} MergeReads(b: Tree, o: Tree, path: seq<string>)
    requires Paired(b) && Unique(o)
    ensures Read(Merge(b, o), path) == Expected(Read(b, path), Read(o, path), Blocked(o, path))
    decreases |path|
  {
    if path != [] {
      var key, rest := path[0], path[1..];
      BlockedBelow(o, path);
      if b.kind == Mapping && o.kind == Mapping {
        var (x, y) := (MappingValue(b, key), MappingValue(o, key));
        MergeCombines(b, o, key);
        if x.Some? && y.Some? {
          PairedBelow(b, key);
          UniqueBelow(o, key);
          MergeReads(x.value, y.value, rest);
        }
      }
    }
  }

  /* ---------- the order of the keys ---------- */

  function Keys(content: seq<Tree>): seq<string> {
    seq(|content| / 2, i requires 0 <= i < |content| / 2 => content[2 * i].value)
  }

  /** The keys that the first `n` pairs of the overlay add to the base, in the overlay's order. */
  function NewKeys(content: seq<Tree>, o: Tree, n: nat): seq<string>
    requires 2 * n <= |o.content|
  {
    if n == 0 then []
    else
      var key := o.content[2 * n - 2].value;
      NewKeys(content, o, n - 1) + if Got(content, key).None? then [key] else []
  }

  lemma PutKeys(content: seq<Tree>, k: Tree, v: Tree)
    requires |content| % 2 == 0
    ensures Keys(Put(content, k, v)) == Keys(content) + if Got(content, k.value).None? then [k.value] else []
  {
    FindIsEven(content, k.value, 0);
  }

  /** A key of the overlay is in the base when its turn comes exactly if the base had it from the start. */
  lemma StillNew(content: seq<Tree>, o: Tree, n: nat)
    requires o.kind == Mapping && Unique(o) && |content| % 2 == 0 && 2 * n + 1 < |o.content|
    ensures Got(MergeFirst(content, o, n), o.content[2 * n].value) == Got(content, o.content[2 * n].value)
  {
    FirstCombines(content, o, n, o.content[2 * n].value);
    assert Got(Pairs(o.content, n), o.content[2 * n].value).None?;
  }

  lemma NextKeys(content: seq<Tree>, o: Tree, n: nat)
    requires |content| % 2 == 0 && 2 * n + 1 < |o.content|
    ensures var (c, k) := (MergeFirst(content, o, n), o.content[2 * n].value);
            Keys(MergeFirst(content, o, n + 1)) == Keys(c) + if Got(c, k).None? then [k] else []
  {
    var c, k, v := MergeFirst(content, o, n), o.content[2 * n], o.content[2 * n + 1];
    var at := Find(c, k.value, 0);
    PutKeys(c, k, if at.None? then v else Merge(c[at.value], v));
  }

  /** The base's keys stay in their order; new keys follow in the order of the overlay. */
  lemma {:induction false} KeysInOrder(content: seq<Tree>, o: Tree, n: nat)
    requires o.kind == Mapping && Unique(o) && |content| % 2 == 0 && 2 * n <= |o.content|
    ensures Keys(MergeFirst(content, o, n)) == Keys(content) + NewKeys(content, o, n)
    decreases n
  {
    if n > 0 {
      var m: nat := n - 1;
      assert m + 1 == n;
      KeysInOrder(content, o, m);
      StillNew(content, o, m);
      NextKeys(content, o, m);
    } else {
      assert Keys(content) + [] == Keys(content);
    }
  }

  /** Without unique keys the overlay is not what wins: of two values for one key the last is taken, while reading the
      overlay finds the first. */
  lemma RepeatedKeyTakesTheLast(tag: string, key: string, a: Tree, c: Tree)
    requires a.kind == c.kind == Scalar
    ensures var k := Tree(Scalar, tag, key, []);
            var o := Tree(Mapping, tag, "", [k, a, k, c]);
            && MappingValue(o, key) == Some(a)
            && MappingValue(Merge(Tree(Mapping, tag, "", []), o), key) == Some(c)
  {
    var k := Tree(Scalar, tag, key, []);
    var o := Tree(Mapping, tag, "", [k, a, k, c]);
    assert MergeFirst([], o, 1) == [k, a];
    assert Find([k, a], key, 0) == Some(1);
    assert MergeFirst([], o, 2) == [k, a][1 := c] == [k, c];
  }

  /* ---------- merging the same overlay again ---------- */

  /** The overlay's first `n` pairs change nothing if merging each value changes nothing. */
  lemma {:induction false} NothingNew(content: seq<Tree>, o: Tree, n: nat)
    requires o.kind == Mapping && 2 * n <= |o.content|
    requires forall i :: 0 <= i < n ==> Absorbed(content, o.content[2 * i], o.content[2 * i + 1])
    ensures MergeFirst(content, o, n) == content
    decreases n
  {
    if n > 0 {
      var m: nat := n - 1;
      assert m + 1 == n;
      NothingNew(content, o, m);
      assert Absorbed(content, o.content[2 * m], o.content[2 * m + 1]);
    }
  }

  predicate Absorbed(content: seq<Tree>, key: Tree, value: Tree) {
    var x := Got(content, key.value);
    x.Some? && Merge(x.value, value) == x.value
  }

  /** A pair of a mapping with unique keys is what its key finds. */
  lemma {:induction false} GotOwn(o: Tree, i: nat, n: nat)
    requires o.kind == Mapping && Unique(o) && i < n && 2 * n <= |o.content|
    ensures Got(Pairs(o.content, n), o.content[2 * i].value) == Some(o.content[2 * i + 1])
    decreases n
  {
    var m: nat := n - 1;
    assert m + 1 == n;
    GotNext(o.content, m, o.content[2 * i].value);
    if i < m {
      GotOwn(o, i, m);
    } else {
      assert Got(Pairs(o.content, i), o.content[2 * i].value).None?;
    }
  }

  lemma UniquePair(o: Tree, i: nat)
    requires o.kind == Mapping && Unique(o) && 2 * i + 1 < |o.content|
    ensures Unique(o.content[2 * i + 1])
  {
    var _ := Pairs(o.content, i);
  }

  lemma {:induction false} MergeSelf(o: Tree)
    requires Unique(o)
    ensures Merge(o, o) == o
    decreases o
  {
    if o.kind == Mapping {
      var n := |o.content| / 2;
      forall i | 0 <= i < n ensures Absorbed(o.content, o.content[2 * i], o.content[2 * i + 1]) {
        GotOwn(o, i, n);
        GotPairs(o.content, o.content[2 * i].value);
        UniquePair(o, i);
        MergeSelf(o.content[2 * i + 1]);
      }
      NothingNew(o.content, o, n);
    }
  }

  /** Merging the same overlay twice is merging it once. */
  lemma {:induction false} MergeIsIdempotent(b: Tree, o: Tree)
    requires Paired(b) && Unique(o)
    ensures Merge(Merge(b, o), o) == Merge(b, o)
    decreases o
  {
    if b.kind == Mapping && o.kind == Mapping {
      var n := |o.content| / 2;
      var r := MergeFirst(b.content, o, n);
      forall i | 0 <= i < n ensures Absorbed(r, o.content[2 * i], o.content[2 * i + 1]) {
        var (k, v) := (o.content[2 * i], o.content[2 * i + 1]);
        GotOwn(o, i, n);
        UniquePair(o, i);
        FirstCombines(b.content, o, n, k.value);
        var x := MappingValue(b, k.value);
        if x.None? {
          MergeSelf(v);
        } else {
          PairedBelow(b, k.value);
          MergeIsIdempotent(x.value, v);
        }
      }
      NothingNew(r, o, n);
    } else {
      MergeSelf(o);
    }
  }
}
