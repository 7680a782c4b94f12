/** The order in which the source compares strings, and the sorted list of a set of strings. */
module Strings {

  function Compare(a: string, b: string): int {
    if a == [] || b == [] then |a| - |b|
    else if a[0] == b[0] then Compare(a[1..], b[1..])
    else if a[0] < b[0] then -1 else 1
  }

  predicate Less(a: string, b: string) {
    Compare(a, b) < 0
  }

  lemma {:induction false} LessIsTotal(a: string, b: string)
    ensures Less(a, b) || a == b || Less(b, a)
  {
    if a != [] && b != [] && a[0] == b[0] {
      LessIsTotal(a[1..], b[1..]);
      assert a == [a[0]] + a[1..] && b == [b[0]] + b[1..];
    }
  }

  lemma {:induction false} LessIsTransitive(a: string, b: string, c: string)
    requires Less(a, b) && Less(b, c)
    ensures Less(a, c)
  {
    if a != [] && a[0] == b[0] == c[0] {
      LessIsTransitive(a[1..], b[1..], c[1..]);
    }
  }

  lemma {:induction false} LessIsIrreflexive(a: string)
    ensures !Less(a, a)
  {
    if a != [] {
      LessIsIrreflexive(a[1..]);
    }
  }

  /** The first difference of two texts is at place `i`, and `a` has the smaller character there. */
  predicate SmallerAt(a: string, b: string, i: nat) {
    i < |a| && i < |b| && a[..i] == b[..i] && a[i] < b[i]
  }

  lemma SmallerBelow(a: string, b: string, i: nat)
    requires a != [] && b != [] && a[0] == b[0]
    ensures SmallerAt(a, b, i + 1) <==> SmallerAt(a[1..], b[1..], i)
    ensures !SmallerAt(a, b, 0)
  {
    if i < |a[1..]| && i < |b[1..]| {
      assert a[..i + 1] == [a[0]] + a[1..][..i] && b[..i + 1] == [b[0]] + b[1..][..i];
    }
  }

  /** The order of the dictionary: a text goes before those it begins, and else the first difference decides. */
  lemma {:induction false} LessExactly(a: string, b: string)
    ensures Less(a, b) <==> a < b || exists i: nat :: SmallerAt(a, b, i)
  {
    if a != [] && b != [] && a[0] == b[0] {
      LessExactly(a[1..], b[1..]);
      assert a == [a[0]] + a[1..] && b == [b[0]] + b[1..];
      forall i: nat ensures SmallerAt(a, b, i + 1) <==> SmallerAt(a[1..], b[1..], i) {
        SmallerBelow(a, b, i);
      }
      SmallerBelow(a, b, 0);
      forall i: nat | SmallerAt(a, b, i) ensures SmallerAt(a[1..], b[1..], i - 1) {
        SmallerBelow(a, b, i - 1);
      }
    } else if a != [] && b != [] {
      assert a[..0] == b[..0];
      assert a[0] < b[0] ==> SmallerAt(a, b, 0);
    }
  }

  predicate StrictlySorted(s: seq<string>) {
    forall i, j :: 0 <= i < j < |s| ==> Less(s[i], s[j])
  }

  /** A strictly sorted list is determined by its elements. */
  lemma {:induction false} SortedIsCanonical(s: seq<string>, t: seq<string>)
    requires StrictlySorted(s) && StrictlySorted(t)
    requires forall x :: x in s <==> x in t
    ensures s == t
  {
    var (x, y) := (if s == [] then "" else s[0], if t == [] then "" else t[0]);
    assert (s == [] || x in s) && (t == [] || y in t);
    if s != [] && t != [] {
      assert s[0] in t;
      assert t[0] in s;
      FirstIsLeast(s, t);
      assert s[0] == t[0] by {
        if s[0] != t[0] {
          assert Less(s[0], t[0]) && Less(t[0], s[0]);
          LessIsTransitive(s[0], t[0], s[0]);
          LessIsIrreflexive(s[0]);
        }
      }
      forall x ensures x in s[1..] <==> x in t[1..] {
        TailElements(s, x);
        TailElements(t, x);
      }
      SortedIsCanonical(s[1..], t[1..]);
      assert s == [s[0]] + s[1..] && t == [t[0]] + t[1..];
    }
  }

  lemma FirstIsLeast(s: seq<string>, t: seq<string>)
    requires StrictlySorted(s) && StrictlySorted(t) && s != [] && t != []
    requires s[0] in t && t[0] in s
    ensures s[0] == t[0] || (Less(s[0], t[0]) && Less(t[0], s[0]))
  {
  }

  lemma TailElements(s: seq<string>, x: string)
    requires StrictlySorted(s) && s != []
    ensures x in s[1..] <==> x in s && x != s[0]
  {
    LessIsIrreflexive(s[0]);
    assert s == [s[0]] + s[1..];
  }

  predicate Least(x: string, values: set<string>) {
    x in values && forall y {:trigger y in values} :: y in values && y != x ==> Less(x, y)
  }

  lemma {:induction false} LeastExists(values: set<string>) returns (x: string)
    requires values != {}
    ensures Least(x, values)
    decreases values
  {
    x :| x in values;
    if values != {x} {
      var y := LeastExists(values - {x});
      LessIsTotal(x, y);
      if Less(y, x) {
        assert forall z :: z in values ==> z == x || z in values - {x};
        x := y;
      } else {
        forall z | z in values && z != x ensures Less(x, z) {
          assert z in values - {x};
          if z != y {
            LessIsTransitive(x, y, z);
          }
        }
      }
    }
  }

  /** The keys of a set, in order. */
  method SortedSet(values: set<string>) returns (out: seq<string>)
    ensures StrictlySorted(out) && |out| == |values|
    ensures forall x :: x in out <==> x in values
  {
    out := [];
    var rest := values;
    while rest != {}
      invariant rest <= values && |out| + |rest| == |values|
      invariant StrictlySorted(out)
      invariant forall x :: x in out <==> x in values && x !in rest
      invariant forall x, y {:trigger x in out, y in rest} :: x in out && y in rest ==> Less(x, y)
      decreases rest
    {
      ghost var least := LeastExists(rest);
      assert Least(least, rest);
      var x :| x in rest && forall y {:trigger y in rest} :: y in rest && y != x ==> Less(x, y);
      assert forall y :: y in out + [x] <==> y in out || y == x;
      assert forall i :: 0 <= i < |out| ==> out[i] in out;
      forall a, b | a in out + [x] && b in rest - {x} ensures Less(a, b) {
        assert a in out || a == x;
      }
      out := out + [x];
      rest := rest - {x};
    }
  }
}
