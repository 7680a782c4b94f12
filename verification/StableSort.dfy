/** Stable sorting by a string key: what it gives, that this is unique, and an in-place insertion sort that does it. */
module StableSort {
  import opened Strings

  predicate Sorted<T(!new)>(s: seq<T>, key: T -> string) {
    forall i, j :: 0 <= i < j < |s| ==> !Less(key(s[j]), key(s[i]))
  }

  /** The elements with one key, in their order. */
  function WithKey<T(!new)>(s: seq<T>, key: T -> string, k: string): seq<T> {
    if s == [] then []
    else
      var before := WithKey(s[..|s| - 1], key, k);
      if key(s[|s| - 1]) == k then before + [s[|s| - 1]] else before
  }

  /** `t` holds the elements of `s`, those with equal keys in the same order. */
  ghost predicate SameByKey<T(!new)>(t: seq<T>, s: seq<T>, key: T -> string) {
    forall k :: WithKey(t, key, k) == WithKey(s, key, k)
  }

  ghost predicate StableSortOf<T(!new)>(t: seq<T>, s: seq<T>, key: T -> string) {
    Sorted(t, key) && SameByKey(t, s, key)
  }

  /* ---------- lists with the same elements by key ---------- */

  lemma {:induction false} WithKeyConcat<T(!new)>(a: seq<T>, b: seq<T>, key: T -> string, k: string)
    ensures WithKey(a + b, key, k) == WithKey(a, key, k) + WithKey(b, key, k)
  {
    if b == [] {
      assert a + b == a;
    } else {
      assert (a + b)[..|a + b| - 1] == a + b[..|b| - 1];
      WithKeyConcat(a, b[..|b| - 1], key, k);
    }
  }

  lemma WithKeyOne<T(!new)>(x: T, key: T -> string, k: string)
    ensures WithKey([x], key, k) == if key(x) == k then [x] else []
  {
    assert [x][..0] == [];
  }

  lemma {:induction false} WithKeyMember<T(!new)>(s: seq<T>, key: T -> string, k: string, x: T)
    ensures x in WithKey(s, key, k) <==> x in s && key(x) == k
  {
    if s != [] {
      WithKeyMember(s[..|s| - 1], key, k, x);
      assert s == s[..|s| - 1] + [s[|s| - 1]];
    }
  }

  lemma SameElements<T(!new)>(t: seq<T>, s: seq<T>, key: T -> string, x: T)
    requires SameByKey(t, s, key)
    ensures x in t <==> x in s
  {
    WithKeyMember(t, key, key(x), x);
    WithKeyMember(s, key, key(x), x);
  }

  /** The last of two stably sorted lists with the same elements by key is the same. */
  lemma SameLast<T(!new)>(t: seq<T>, u: seq<T>, key: T -> string)
    requires Sorted(t, key) && Sorted(u, key) && SameByKey(t, u, key) && t != []
    ensures u != [] && t[|t| - 1] == u[|u| - 1]
  {
    var x := t[|t| - 1];
    SameElements(t, u, key, x);
    var y := u[|u| - 1];
    SameElements(t, u, key, y);
    LessIsTotal(key(x), key(y));
    var a, b := WithKey(t, key, key(x)), WithKey(u, key, key(y));
    assert a[|a| - 1] == x && b[|b| - 1] == y;
    assert WithKey(t, key, key(x)) == WithKey(u, key, key(x));
  }

  lemma {:induction false} StableSortIsUnique<T(!new)>(t: seq<T>, u: seq<T>, key: T -> string)
    requires Sorted(t, key) && Sorted(u, key) && SameByKey(t, u, key)
    ensures t == u
    decreases |t|
  {
    if t == [] {
      if u != [] {
        SameElements(t, u, key, u[0]);
      }
    } else {
      SameLast(t, u, key);
      var t', u' := t[..|t| - 1], u[..|u| - 1];
      forall k ensures WithKey(t', key, k) == WithKey(u', key, k) {
        var a, b := WithKey(t, key, k), WithKey(u, key, k);
        assert a == b;
        if key(t[|t| - 1]) == k {
          assert WithKey(t', key, k) == a[..|a| - 1] && WithKey(u', key, k) == b[..|b| - 1];
        }
      }
      StableSortIsUnique(t', u', key);
      assert t == t' + [t[|t| - 1]] && u == u' + [u[|u| - 1]];
    }
  }

  /* ---------- the sorted list as a function ---------- */

  /** Into a sorted list, behind everything with a key not above the new one. */
  function Insert<T(!new)>(s: seq<T>, x: T, key: T -> string): (r: seq<T>)
    ensures forall y :: y in r <==> y in s || y == x
  {
    if s != [] && Less(key(x), key(s[|s| - 1])) then
      assert s == s[..|s| - 1] + [s[|s| - 1]];
      Insert(s[..|s| - 1], x, key) + [s[|s| - 1]]
    else s + [x]
  }

  function SortBy<T(!new)>(s: seq<T>, key: T -> string): (r: seq<T>)
    ensures forall y :: y in r <==> y in s
  {
    if s == [] then []
    else
      assert s == s[..|s| - 1] + [s[|s| - 1]];
      Insert(SortBy(s[..|s| - 1], key), s[|s| - 1], key)
  }

  lemma AppendSorted<T(!new)>(s: seq<T>, x: T, key: T -> string)
    requires Sorted(s, key) && forall i :: 0 <= i < |s| ==> !Less(key(x), key(s[i]))
    ensures Sorted(s + [x], key)
  {
  }

  lemma {:induction false} InsertSorts<T(!new)>(s: seq<T>, x: T, key: T -> string)
    requires Sorted(s, key)
    ensures Sorted(Insert(s, x, key), key)
  {
    if s == [] {
    } else if Less(key(x), key(s[|s| - 1])) {
      var init, last := s[..|s| - 1], s[|s| - 1];
      InsertSorts(init, x, key);
      var r := Insert(init, x, key);
      forall i | 0 <= i < |r| ensures !Less(key(last), key(r[i])) {
        assert r[i] in r;
        if r[i] == x && Less(key(last), key(x)) {
          LessIsTransitive(key(x), key(last), key(x));
          LessIsIrreflexive(key(x));
        } else if r[i] != x {
          assert r[i] in init;
        }
      }
      AppendSorted(r, last, key);
    } else {
      forall i | 0 <= i < |s| ensures !Less(key(x), key(s[i])) {
        if Less(key(x), key(s[i])) {
          LessIsTotal(key(s[i]), key(s[|s| - 1]));
          if key(s[i]) != key(s[|s| - 1]) {
            LessIsTransitive(key(x), key(s[i]), key(s[|s| - 1]));
          }
        }
      }
      AppendSorted(s, x, key);
    }
  }

  lemma {:induction false} InsertKeepsKeys<T(!new)>(s: seq<T>, x: T, key: T -> string, k: string)
    ensures WithKey(Insert(s, x, key), key, k) == WithKey(s, key, k) + (if key(x) == k then [x] else [])
  {
    if s != [] && Less(key(x), key(s[|s| - 1])) {
      LessIsIrreflexive(key(x));
      InsertKeepsKeys(s[..|s| - 1], x, key, k);
      var r := Insert(s[..|s| - 1], x, key);
      WithKeyConcat(r, [s[|s| - 1]], key, k);
      WithKeyOne(s[|s| - 1], key, k);
    } else {
      WithKeyConcat(s, [x], key, k);
      WithKeyOne(x, key, k);
    }
  }

  lemma {:induction false} SortBySorts<T(!new)>(s: seq<T>, key: T -> string)
    ensures StableSortOf(SortBy(s, key), s, key)
  {
    if s != [] {
      var init := s[..|s| - 1];
      SortBySorts(init, key);
      InsertSorts(SortBy(init, key), s[|s| - 1], key);
      forall k ensures WithKey(SortBy(s, key), key, k) == WithKey(s, key, k) {
        InsertKeepsKeys(SortBy(init, key), s[|s| - 1], key, k);
        assert WithKey(SortBy(init, key), key, k) == WithKey(init, key, k);
      }
    }
  }

  lemma {:induction false} InsertAddsOne<T(!new)>(s: seq<T>, x: T, key: T -> string)
    ensures multiset(Insert(s, x, key)) == multiset(s) + multiset{x}
  {
    if s != [] {
      assert s == s[..|s| - 1] + [s[|s| - 1]];
      InsertAddsOne(s[..|s| - 1], x, key);
    }
  }

  lemma {:induction false} SortByPermutes<T(!new)>(s: seq<T>, key: T -> string)
    ensures multiset(SortBy(s, key)) == multiset(s)
  {
    if s != [] {
      assert s == s[..|s| - 1] + [s[|s| - 1]];
      SortByPermutes(s[..|s| - 1], key);
      InsertAddsOne(SortBy(s[..|s| - 1], key), s[|s| - 1], key);
    }
  }

  lemma StableSortIsSortBy<T(!new)>(t: seq<T>, s: seq<T>, key: T -> string)
    requires StableSortOf(t, s, key)
    ensures t == SortBy(s, key)
  {
    SortBySorts(s, key);
    forall k ensures WithKey(t, key, k) == WithKey(SortBy(s, key), key, k) {
      assert WithKey(t, key, k) == WithKey(s, key, k) == WithKey(SortBy(s, key), key, k);
    }
    StableSortIsUnique(t, SortBy(s, key), key);
  }

  /** Sorting gives equal lists exactly for lists with the same elements by key. */
  lemma SortedEqually<T(!new)>(s: seq<T>, t: seq<T>, key: T -> string)
    ensures SortBy(s, key) == SortBy(t, key) <==> SameByKey(s, t, key)
  {
    SortBySorts(s, key);
    SortBySorts(t, key);
    if SameByKey(s, t, key) {
      forall k ensures WithKey(SortBy(s, key), key, k) == WithKey(SortBy(t, key), key, k) {
        assert WithKey(SortBy(s, key), key, k) == WithKey(s, key, k) == WithKey(t, key, k);
      }
      StableSortIsUnique(SortBy(s, key), SortBy(t, key), key);
    }
    if SortBy(s, key) == SortBy(t, key) {
      forall k ensures WithKey(s, key, k) == WithKey(t, key, k) {
        assert WithKey(SortBy(s, key), key, k) == WithKey(s, key, k);
        assert WithKey(SortBy(t, key), key, k) == WithKey(t, key, k);
      }
    }
  }

  lemma SortIsIdempotent<T(!new)>(s: seq<T>, key: T -> string)
    ensures SortBy(SortBy(s, key), key) == SortBy(s, key)
  {
    SortBySorts(s, key);
    SortedEqually(SortBy(s, key), s, key);
  }

  lemma SortedIsFixed<T(!new)>(s: seq<T>, key: T -> string)
    ensures SortBy(s, key) == s <==> Sorted(s, key)
  {
    SortBySorts(s, key);
    if Sorted(s, key) {
      StableSortIsUnique(SortBy(s, key), s, key);
    }
  }

  /* ---------- keys ---------- */

  function KeysOf<T(!new)>(s: seq<T>, key: T -> string): seq<string> {
    seq(|s|, i requires 0 <= i < |s| => key(s[i]))
  }

  /** Comparing the keys before and after tells exactly whether sorting changed anything. This needs stability: the
      elements behind equal keys are not compared. */
  lemma KeyOrderTellsChange<T(!new)>(s: seq<T>, key: T -> string)
    ensures KeysOf(SortBy(s, key), key) == KeysOf(s, key) <==> SortBy(s, key) == s
  {
    var t := SortBy(s, key);
    SortBySorts(s, key);
    if KeysOf(t, key) == KeysOf(s, key) {
      assert |KeysOf(t, key)| == |t| && |KeysOf(s, key)| == |s|;
      forall i | 0 <= i < |s| ensures key(s[i]) == key(t[i]) {
        assert KeysOf(t, key)[i] == KeysOf(s, key)[i];
      }
      assert Sorted(s, key);
      SortedIsFixed(s, key);
    }
  }

  ghost predicate DistinctKeys<T(!new)>(s: seq<T>, key: T -> string) {
    forall i, j :: 0 <= i < j < |s| ==> key(s[i]) != key(s[j])
  }

  lemma {:induction false} AtMostOne<T(!new)>(s: seq<T>, key: T -> string, k: string)
    requires DistinctKeys(s, key)
    ensures |WithKey(s, key, k)| <= 1
  {
    if s != [] {
      var init, last := s[..|s| - 1], s[|s| - 1];
      AtMostOne(init, key, k);
      if key(last) == k && WithKey(init, key, k) != [] {
        WithKeyMember(init, key, k, WithKey(init, key, k)[0]);
      }
    }
  }

  ghost predicate SameMembers<T(!new)>(s: seq<T>, t: seq<T>) {
    forall x :: x in s <==> x in t
  }

  lemma OneByKey<T(!new)>(s: seq<T>, t: seq<T>, key: T -> string, k: string)
    requires DistinctKeys(s, key) && DistinctKeys(t, key) && SameMembers(s, t)
    ensures WithKey(s, key, k) == WithKey(t, key, k)
  {
    var a, b := WithKey(s, key, k), WithKey(t, key, k);
    AtMostOne(s, key, k);
    AtMostOne(t, key, k);
    if a != [] {
      WithKeyMember(s, key, k, a[0]);
      WithKeyMember(t, key, k, a[0]);
      assert a == [a[0]] == b;
    } else if b != [] {
      WithKeyMember(s, key, k, b[0]);
      WithKeyMember(t, key, k, b[0]);
    }
  }

  /** Lists with distinct keys sort to the same list exactly if they have the same elements. */
  lemma DistinctSortEqually<T(!new)>(s: seq<T>, t: seq<T>, key: T -> string)
    requires DistinctKeys(s, key) && DistinctKeys(t, key)
    ensures SortBy(s, key) == SortBy(t, key) <==> SameMembers(s, t)
  {
    if SameMembers(s, t) {
      forall k ensures WithKey(s, key, k) == WithKey(t, key, k) {
        OneByKey(s, t, key, k);
      }
      SortedEqually(s, t, key);
    }
    if SortBy(s, key) == SortBy(t, key) {
      forall x ensures x in s <==> x in t {
        assert x in s <==> x in SortBy(s, key);
      }
    }
  }

  /* ---------- in place ---------- */

  function Swapped<T>(s: seq<T>, j: nat): seq<T>
    requires 0 < j < |s|
  {
    s[j := s[j - 1]][j - 1 := s[j]]
  }

  lemma SwapKeepsKeys<T(!new)>(s: seq<T>, j: nat, key: T -> string, k: string)
    requires 0 < j < |s| && key(s[j]) != key(s[j - 1])
    ensures WithKey(Swapped(s, j), key, k) == WithKey(s, key, k)
  {
    var a, x, y, b := s[..j - 1], s[j - 1], s[j], s[j + 1..];
    assert s == a + [x] + [y] + b && Swapped(s, j) == a + [y] + [x] + b;
    WithKeyConcat(a + [x] + [y], b, key, k);
    WithKeyConcat(a + [y] + [x], b, key, k);
    WithKeyConcat(a + [x], [y], key, k);
    WithKeyConcat(a + [y], [x], key, k);
    WithKeyConcat(a, [x], key, k);
    WithKeyConcat(a, [y], key, k);
    WithKeyOne(x, key, k);
    WithKeyOne(y, key, k);
  }

  lemma SwapKeepsAll<T(!new)>(s: seq<T>, j: nat, key: T -> string, was: seq<T>)
    requires 0 < j < |s| && Less(key(s[j]), key(s[j - 1])) && SameByKey(s, was, key)
    ensures SameByKey(Swapped(s, j), was, key)
  {
    LessIsIrreflexive(key(s[j]));
    forall k ensures WithKey(Swapped(s, j), key, k) == WithKey(was, key, k) {
      SwapKeepsKeys(s, j, key, k);
      assert WithKey(s, key, k) == WithKey(was, key, k);
    }
  }

  /** The first `n` are sorted, but for the one at `j`, which is below everything behind it. */
  predicate Sinking<T(!new)>(s: seq<T>, n: nat, j: nat, key: T -> string) {
    && j < n <= |s|
    && (forall p, q :: 0 <= p < q < n && p != j && q != j ==> !Less(key(s[q]), key(s[p])))
    && (forall q :: j < q < n ==> Less(key(s[j]), key(s[q])))
  }

  lemma SinkingStarts<T(!new)>(s: seq<T>, n: nat, key: T -> string)
    requires n < |s| && Sorted(s[..n], key)
    ensures Sinking(s, n + 1, n, key)
  {
    forall p, q | 0 <= p < q < n ensures !Less(key(s[q]), key(s[p])) {
      assert s[..n][p] == s[p] && s[..n][q] == s[q];
    }
  }

  lemma SinkingSteps<T(!new)>(s: seq<T>, n: nat, j: nat, key: T -> string)
    requires Sinking(s, n, j, key) && 0 < j && Less(key(s[j]), key(s[j - 1]))
    ensures Sinking(Swapped(s, j), n, j - 1, key)
  {
  }

  lemma SinkingEnds<T(!new)>(s: seq<T>, n: nat, j: nat, key: T -> string)
    requires Sinking(s, n, j, key) && (j == 0 || !Less(key(s[j]), key(s[j - 1])))
    ensures Sorted(s[..n], key)
  {
    forall p, q | 0 <= p < q < n ensures !Less(key(s[q]), key(s[p])) {
      if p == j {
        NotBoth(key(s[p]), key(s[q]));
      } else if q == j && p != j - 1 {
        NotBelow(key(s[j]), key(s[j - 1]), key(s[p]));
      }
    }
  }

  lemma NotBoth(a: string, b: string)
    requires Less(a, b)
    ensures !Less(b, a)
  {
    if Less(b, a) {
      LessIsTransitive(a, b, a);
      LessIsIrreflexive(a);
    }
  }

  lemma NotBelow(a: string, b: string, c: string)
    requires !Less(a, b) && !Less(b, c)
    ensures !Less(a, c)
  {
    LessIsTotal(a, b);
    if Less(a, c) && a != b {
      LessIsTransitive(b, a, c);
    }
  }

  /** What the library's stable sort promises, done by the insertion sort it uses on short slices. */
  method SliceStable<T(!new)>(a: array<T>, key: T -> string)
    modifies a
    ensures a[..] == SortBy(old(a[..]), key)
  {
    ghost var was := a[..];
    for i := 0 to a.Length
      invariant Sorted(a[..i], key) && SameByKey(a[..], was, key)
    {
      var j := i;
      SinkingStarts(a[..], i, key);
      while 0 < j && Less(key(a[j]), key(a[j - 1]))
        invariant 0 <= j <= i && Sinking(a[..], i + 1, j, key) && SameByKey(a[..], was, key)
      {
        SwapKeepsAll(a[..], j, key, was);
        SinkingSteps(a[..], i + 1, j, key);
        ghost var s := a[..];
        a[j], a[j - 1] := a[j - 1], a[j];
        assert a[..] == Swapped(s, j);
        j := j - 1;
      }
      SinkingEnds(a[..], i + 1, j, key);
      assert a[..][..i + 1] == a[..i + 1];
    }
    assert a[..a.Length] == a[..];
    StableSortIsSortBy(a[..], was, key);
  }
}
