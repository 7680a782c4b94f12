/** Finding the cluster that a user means: exact aliases first, then fuzzy ones, and failure when that is not one. */
module ClusterResolver {
  import opened Text
  import opened AliasTokens

  datatype Cluster = Cluster(name: string, uid: string, source: string, objects: int, versions: int, latest: int)

  /** What listing the clusters gives: stores without that ability, a failure, or the list. */
  datatype Listing = Unsupported | Failed | Clusters(list: seq<Cluster>)

  datatype Outcome = Resolved(id: string) | Ambiguous(names: seq<string>) | NotFound(available: seq<string>) | ListError

  predicate Named(c: Cluster) {
    TrimSpace(c.name) != ""
  }

  predicate HasEvidence(c: Cluster) {
    c.objects > 0 || c.versions > 0 || c.latest > 0
  }

  /* ---------- aliases ---------- */

  function DisplayAlias(c: Cluster): string {
    if Fields(c.source) != [] then Fields(c.source)[0] else c.name
  }

  function RawAliases(c: Cluster): seq<string> {
    [c.name, c.uid, c.source, DisplayAlias(c)] + Fields(c.source)
  }

  /** A text by which the cluster is known. */
  ghost predicate IsAlias(c: Cluster, alias: string) {
    alias != "" && exists k :: 0 <= k < |RawAliases(c)| && TrimSpace(RawAliases(c)[k]) == alias
  }

  method ClusterAliases(c: Cluster) returns (out: seq<string>)
    ensures forall x :: x in out <==> IsAlias(c, x)
    ensures forall i, j :: 0 <= i < j < |out| ==> out[i] != out[j]
  {
    var aliases := RawAliases(c);
    out := [];
    var seen: set<string> := {};
    for k := 0 to |aliases|
      invariant forall x :: x in out <==> x != "" && exists j :: 0 <= j < k && TrimSpace(aliases[j]) == x
      invariant forall x :: x in out <==> x in seen
      invariant forall i, j :: 0 <= i < j < |out| ==> out[i] != out[j]
    {
      var alias := TrimSpace(aliases[k]);
      if alias == "" || alias in seen {
        continue;
      }
      seen, out := seen + {alias}, out + [alias];
    }
  }

  function Normalize(a: Alphabet, value: string): string {
    Lower(a, TrimSpace(value))
  }

  /* ---------- the two ways to match ---------- */

  ghost predicate AliasMatches(a: Alphabet, c: Cluster, input: string) {
    exists alias :: IsAlias(c, alias) && Normalize(a, alias) == Normalize(a, input)
  }

  method ClusterAliasMatches(a: Alphabet, c: Cluster, input: string) returns (b: bool)
    ensures b <==> AliasMatches(a, c, input)
  {
    var aliases := ClusterAliases(c);
    var want := Normalize(a, input);
    for i := 0 to |aliases|
      invariant forall j :: 0 <= j < i ==> Normalize(a, aliases[j]) != want
    {
      if Normalize(a, aliases[i]) == want {
        assert IsAlias(c, aliases[i]);
        return true;
      }
    }
    b := false;
  }

  /** The length of a text in bytes, as the source's language counts it. */
  function Bytes(s: string): nat {
    if s == "" then 0
    else
      var c := s[0] as int;
      (if c < 0x80 then 1 else if c < 0x800 then 2 else if c < 0x10000 then 3 else 4) + Bytes(s[1..])
  }

  predicate Contains(s: string, part: string) {
    (|part| <= |s| && s[..|part|] == part) || (s != "" && Contains(s[1..], part))
  }

  /** The wanted tokens are among the alias's in order, or the wanted letters and digits stand together in it. */
  ghost predicate FuzzyAlias(a: Alphabet, alias: string, input: string) {
    || (Tokens(a, input) != [] && Subsequence(Tokens(a, input), Tokens(a, alias)))
    || (Bytes(Join(Tokens(a, input))) >= 4 && Contains(Join(Tokens(a, alias)), Join(Tokens(a, input))))
  }

  ghost predicate FuzzyMatches(a: Alphabet, c: Cluster, input: string) {
    |Tokens(a, input)| >= 2 && exists alias :: IsAlias(c, alias) && FuzzyAlias(a, alias, input)
  }

  method ClusterAliasFuzzyMatches(a: Alphabet, c: Cluster, input: string) returns (b: bool)
    ensures b <==> FuzzyMatches(a, c, input)
  {
    var wantTokens := ClusterAliasTokens(a, input);
    if |wantTokens| < 2 {
      return false;
    }
    var wantCompact := Join(wantTokens);
    var aliases := ClusterAliases(c);
    for i := 0 to |aliases|
      invariant forall j :: 0 <= j < i ==> !FuzzyAlias(a, aliases[j], input)
    {
      assert IsAlias(c, aliases[i]);
      var aliasTokens := ClusterAliasTokens(a, aliases[i]);
      var found := TokenSubsequence(wantTokens, aliasTokens);
      if found {
        return true;
      }
      if Bytes(wantCompact) >= 4 && Contains(Join(aliasTokens), wantCompact) {
        return true;
      }
    }
    b := false;
  }

  /* ---------- the matching clusters ---------- */

  ghost predicate Matches(a: Alphabet, input: string, fuzzy: bool, c: Cluster) {
    Named(c) && if fuzzy then FuzzyMatches(a, c, input) else AliasMatches(a, c, input)
  }

  ghost function Matching(a: Alphabet, input: string, fuzzy: bool, list: seq<Cluster>): seq<Cluster> {
    if list == [] then []
    else
      var last := list[|list| - 1];
      Matching(a, input, fuzzy, list[..|list| - 1]) + if Matches(a, input, fuzzy, last) then [last] else []
  }

  method MatchingClusters(a: Alphabet, list: seq<Cluster>, input: string, fuzzy: bool) returns (out: seq<Cluster>)
    ensures out == Matching(a, input, fuzzy, list)
  {
    out := [];
    for i := 0 to |list|
      invariant out == Matching(a, input, fuzzy, list[..i])
    {
      assert list[..i + 1][..i] == list[..i];
      var c := list[i];
      if TrimSpace(c.name) == "" {
        continue;
      }
      var b;
      if fuzzy {
        b := ClusterAliasFuzzyMatches(a, c, input);
      } else {
        b := ClusterAliasMatches(a, c, input);
      }
      if b {
        out := out + [c];
      }
    }
    assert list[..|list|] == list;
  }

  /** The clusters other than the one named that hold data. */
  function Dataful(list: seq<Cluster>, name: string): seq<Cluster> {
    if list == [] then []
    else
      var last := list[|list| - 1];
      Dataful(list[..|list| - 1], name) + if last.name != name && HasEvidence(last) then [last] else []
  }

  function Names(list: seq<Cluster>): seq<string> {
    seq(|list|, i requires 0 <= i < |list| => list[i].name)
  }

  function Display(c: Cluster): string {
    if DisplayAlias(c) != "" && DisplayAlias(c) != c.name then DisplayAlias(c) + " (id=" + c.name + ")" else c.name
  }

  function Available(list: seq<Cluster>): seq<string> {
    if list == [] then []
    else
      var last := list[|list| - 1];
      Available(list[..|list| - 1]) + if Named(last) then [Display(last)] else []
  }

  /* ---------- the resolution ---------- */

  function Decide(exact: seq<Cluster>, fuzzy: seq<Cluster>, available: seq<string>): Outcome {
    if |exact| == 1 && HasEvidence(exact[0]) then Resolved(exact[0].name)
    else if |exact| == 1 && |Dataful(fuzzy, exact[0].name)| == 1 then Resolved(Dataful(fuzzy, exact[0].name)[0].name)
    else
      var matches := if exact == [] then fuzzy else exact;
      if |matches| == 1 then Resolved(matches[0].name)
      else if |matches| > 1 then Ambiguous(Names(matches))
      else NotFound(available)
  }

  ghost function Choose(a: Alphabet, value: string, list: seq<Cluster>): Outcome {
    Decide(Matching(a, value, false, list), Matching(a, value, true, list), Available(list))
  }

  ghost function Resolve(a: Alphabet, input: string, listing: Listing): Outcome {
    var value := TrimSpace(input);
    if value == "" then Resolved("")
    else match listing
      case Unsupported => Resolved(value)
      case Failed => ListError
      case Clusters(list) => if exists c :: c in list && Named(c) then Choose(a, value, list) else Resolved(value)
  }

  method HasNamedCluster(list: seq<Cluster>) returns (b: bool)
    ensures b <==> exists c :: c in list && Named(c)
  {
    for i := 0 to |list|
      invariant forall j :: 0 <= j < i ==> !Named(list[j])
    {
      if TrimSpace(list[i].name) != "" {
        assert list[i] in list && Named(list[i]);
        return true;
      }
    }
    b := false;
  }

  method DatafulOf(list: seq<Cluster>, name: string) returns (out: seq<Cluster>)
    ensures out == Dataful(list, name)
  {
    out := [];
    for i := 0 to |list|
      invariant out == Dataful(list[..i], name)
    {
      assert list[..i + 1][..i] == list[..i];
      if list[i].name != name && HasEvidence(list[i]) {
        out := out + [list[i]];
      }
    }
    assert list[..|list|] == list;
  }

  method AvailableOf(list: seq<Cluster>) returns (out: seq<string>)
    ensures out == Available(list)
  {
    out := [];
    for i := 0 to |list|
      invariant out == Available(list[..i])
    {
      assert list[..i + 1][..i] == list[..i];
      if TrimSpace(list[i].name) == "" {
        continue;
      }
      out := out + [Display(list[i])];
    }
    assert list[..|list|] == list;
  }

  method ResolveClusterID(a: Alphabet, input: string, listing: Listing) returns (out: Outcome)
    ensures out == Resolve(a, input, listing)
  {
    var value := TrimSpace(input);
    if value == "" {
      return Resolved("");
    }
    if listing.Unsupported? {
      return Resolved(value);
    }
    if listing.Failed? {
      return ListError;
    }
    var list := listing.list;
    var named := HasNamedCluster(list);
    if |list| == 0 || !named {
      return Resolved(value);
    }
    var matches := MatchingClusters(a, list, value, false);
    if |matches| == 1 && HasEvidence(matches[0]) {
      return Resolved(matches[0].name);
    }
    var fuzzyMatches := MatchingClusters(a, list, value, true);
    if |matches| == 1 && !HasEvidence(matches[0]) {
      var dataful := DatafulOf(fuzzyMatches, matches[0].name);
      if |dataful| == 1 {
        return Resolved(dataful[0].name);
      }
    }
    if |matches| == 0 {
      matches := fuzzyMatches;
    }
    if |matches| == 1 {
      return Resolved(matches[0].name);
    }
    if |matches| > 1 {
      return Ambiguous(Names(matches));
    }
    var available := AvailableOf(list);
    out := NotFound(available);
  }

  /* ---------- the order of the list does not matter ---------- */

  lemma {:induction false} MatchingCounts(a: Alphabet, input: string, fuzzy: bool, list: seq<Cluster>, c: Cluster)
    ensures multiset(Matching(a, input, fuzzy, list))[c] == if Matches(a, input, fuzzy, c) then multiset(list)[c] else 0
  {
    if list != [] {
      MatchingCounts(a, input, fuzzy, list[..|list| - 1], c);
      assert list == list[..|list| - 1] + [list[|list| - 1]];
    }
  }

  lemma {:induction false} DatafulCounts(list: seq<Cluster>, name: string, c: Cluster)
    ensures multiset(Dataful(list, name))[c] == if c.name != name && HasEvidence(c) then multiset(list)[c] else 0
  {
    if list != [] {
      DatafulCounts(list[..|list| - 1], name, c);
      assert list == list[..|list| - 1] + [list[|list| - 1]];
    }
  }

  predicate Permuted<T(==)>(s: seq<T>, t: seq<T>) {
    multiset(s) == multiset(t)
  }

  lemma MatchingPermuted(a: Alphabet, input: string, fuzzy: bool, s: seq<Cluster>, t: seq<Cluster>)
    requires Permuted(s, t)
    ensures Permuted(Matching(a, input, fuzzy, s), Matching(a, input, fuzzy, t))
  {
    var (x, y) := (multiset(Matching(a, input, fuzzy, s)), multiset(Matching(a, input, fuzzy, t)));
    forall c: Cluster ensures x[c] == y[c] {
      MatchingCounts(a, input, fuzzy, s, c);
      MatchingCounts(a, input, fuzzy, t, c);
    }
    assert x == y;
  }

  lemma DatafulPermuted(s: seq<Cluster>, t: seq<Cluster>, name: string)
    requires Permuted(s, t)
    ensures Permuted(Dataful(s, name), Dataful(t, name))
  {
    var (x, y) := (multiset(Dataful(s, name)), multiset(Dataful(t, name)));
    forall c: Cluster ensures x[c] == y[c] {
      DatafulCounts(s, name, c);
      DatafulCounts(t, name, c);
    }
    assert x == y;
  }

  lemma PermutedShape<T>(s: seq<T>, t: seq<T>)
    requires Permuted(s, t)
    ensures |s| == |t| && (|s| == 1 ==> s == t)
  {
    assert |multiset(s)| == |s| && |multiset(t)| == |t|;
    if |s| == 1 {
      assert s[0] in multiset(s);
      assert t == [t[0]];
    }
  }

  /** Lists made element by element from permuted lists are permuted. */
  ghost function Made(list: seq<Cluster>, keep: Cluster -> bool, text: Cluster -> string): seq<string> {
    if list == [] then []
    else
      var last := list[|list| - 1];
      Made(list[..|list| - 1], keep, text) + if keep(last) then [text(last)] else []
  }

  lemma {:induction false} MadeConcat(s: seq<Cluster>, t: seq<Cluster>, keep: Cluster -> bool, text: Cluster -> string)
    ensures Made(s + t, keep, text) == Made(s, keep, text) + Made(t, keep, text)
  {
    if t == [] {
      assert s + t == s;
    } else {
      assert (s + t)[..|s + t| - 1] == s + t[..|t| - 1];
      MadeConcat(s, t[..|t| - 1], keep, text);
    }
  }

  /** Taking one element out of a list takes what it makes out of the made list. */
  lemma MadeWithout(before: seq<Cluster>, c: Cluster, after: seq<Cluster>, keep: Cluster -> bool,
      text: Cluster -> string)
    ensures multiset(Made(before + [c] + after, keep, text)) ==
            multiset(Made(before + after, keep, text)) + multiset(Made([c], keep, text))
  {
    MadeConcat(before + [c], after, keep, text);
    MadeConcat(before, [c], keep, text);
    MadeConcat(before, after, keep, text);
  }

  lemma Picked<T>(s: seq<T>, x: T) returns (before: seq<T>, after: seq<T>)
    requires x in multiset(s)
    ensures s == before + [x] + after && multiset(before + after) == multiset(s) - multiset{x}
  {
    var i :| 0 <= i < |s| && s[i] == x;
    before, after := s[..i], s[i + 1..];
    assert s == before + [x] + after;
  }

  lemma {:induction false} MadePermuted(s: seq<Cluster>, t: seq<Cluster>, keep: Cluster -> bool,
      text: Cluster -> string)
    requires Permuted(s, t)
    ensures Permuted(Made(s, keep, text), Made(t, keep, text))
    decreases |s|
  {
    PermutedShape(s, t);
    if s != [] {
      var init, last := s[..|s| - 1], s[|s| - 1];
      LastApart(init, last);
      assert s == init + [last];
      var before, after := Picked(t, last);
      MadePermuted(init, before + after, keep, text);
      MadeConcat(init, [last], keep, text);
      MadeWithout(before, last, after, keep, text);
    }
  }

  lemma LastApart<T>(init: seq<T>, last: T)
    ensures last in multiset(init + [last]) && multiset(init) == multiset(init + [last]) - multiset{last}
  {
  }

  lemma AvailablePermuted(s: seq<Cluster>, t: seq<Cluster>)
    requires Permuted(s, t)
    ensures Permuted(Available(s), Available(t))
  {
    AvailableIsMade(s);
    AvailableIsMade(t);
    MadePermuted(s, t, Named, Display);
  }

  lemma NamesPermuted(s: seq<Cluster>, t: seq<Cluster>)
    requires Permuted(s, t)
    ensures Permuted(Names(s), Names(t))
  {
    NamesAreMade(s);
    NamesAreMade(t);
    MadePermuted(s, t, Anyone, NameOf);
  }

  lemma {:induction false} AvailableIsMade(list: seq<Cluster>)
    ensures Available(list) == Made(list, Named, Display)
  {
    if list != [] {
      AvailableIsMade(list[..|list| - 1]);
    }
  }

  function NameOf(c: Cluster): string {
    c.name
  }

  predicate Anyone(c: Cluster) {
    true
  }

  lemma {:induction false} NamesAreMade(list: seq<Cluster>)
    ensures Names(list) == Made(list, Anyone, NameOf)
  {
    if list != [] {
      NamesAreMade(list[..|list| - 1]);
      assert Names(list) == Names(list[..|list| - 1]) + [list[|list| - 1].name];
    }
  }

  predicate SameOutcome(x: Outcome, y: Outcome) {
    match (x, y)
    case (Resolved(i), Resolved(j)) => i == j
    case (Ambiguous(s), Ambiguous(t)) => Permuted(s, t)
    case (NotFound(s), NotFound(t)) => Permuted(s, t)
    case (ListError, ListError) => true
    case _ => false
  }

  /** Whatever order the store lists the clusters in, the same ID comes out, or the same failure about the same
      clusters. */
  lemma OrderDoesNotMatter(a: Alphabet, input: string, s: seq<Cluster>, t: seq<Cluster>)
    requires Permuted(s, t)
    ensures SameOutcome(Resolve(a, input, Clusters(s)), Resolve(a, input, Clusters(t)))
  {
    assert forall c :: c in s <==> c in multiset(s);
    assert forall c :: c in t <==> c in multiset(t);
    ChooseSame(a, TrimSpace(input), s, t);
  }

  lemma ChooseSame(a: Alphabet, value: string, s: seq<Cluster>, t: seq<Cluster>)
    requires Permuted(s, t)
    ensures SameOutcome(Choose(a, value, s), Choose(a, value, t))
  {
    MatchingPermuted(a, value, false, s, t);
    MatchingPermuted(a, value, true, s, t);
    AvailablePermuted(s, t);
    DecideSame(Matching(a, value, false, s), Matching(a, value, true, s), Available(s),
               Matching(a, value, false, t), Matching(a, value, true, t), Available(t));
  }

  lemma DecideSame(exact: seq<Cluster>, fuzzy: seq<Cluster>, available: seq<string>,
                   exact': seq<Cluster>, fuzzy': seq<Cluster>, available': seq<string>)
    requires Permuted(exact, exact') && Permuted(fuzzy, fuzzy') && Permuted(available, available')
    ensures SameOutcome(Decide(exact, fuzzy, available), Decide(exact', fuzzy', available'))
  {
    PermutedShape(exact, exact');
    PermutedShape(fuzzy, fuzzy');
    if |exact| == 1 {
      DatafulPermuted(fuzzy, fuzzy', exact[0].name);
      PermutedShape(Dataful(fuzzy, exact[0].name), Dataful(fuzzy', exact[0].name));
    } else if |exact| > 1 {
      NamesPermuted(exact, exact');
    } else if |fuzzy| > 1 {
      NamesPermuted(fuzzy, fuzzy');
    }
  }

  /* ---------- what the answer means ---------- */

  lemma MatchingMember(a: Alphabet, input: string, fuzzy: bool, list: seq<Cluster>, c: Cluster)
    ensures c in Matching(a, input, fuzzy, list) <==> c in list && Matches(a, input, fuzzy, c)
  {
    MatchingCounts(a, input, fuzzy, list, c);
    assert c in Matching(a, input, fuzzy, list) <==> c in multiset(Matching(a, input, fuzzy, list));
    assert c in list <==> c in multiset(list);
  }

  /** An ID that is chosen is the ID of a listed cluster that matches the input. */
  lemma ChosenIsListed(a: Alphabet, value: string, list: seq<Cluster>) returns (c: Cluster)
    requires Choose(a, value, list).Resolved?
    ensures c in list && c.name == Choose(a, value, list).id
    ensures Matches(a, value, false, c) || Matches(a, value, true, c)
  {
    var exact, fuzzy := Matching(a, value, false, list), Matching(a, value, true, list);
    if |exact| == 1 && !HasEvidence(exact[0]) && |Dataful(fuzzy, exact[0].name)| == 1 {
      c := Dataful(fuzzy, exact[0].name)[0];
      DatafulCounts(fuzzy, exact[0].name, c);
      assert c in multiset(Dataful(fuzzy, exact[0].name));
      assert c in multiset(fuzzy);
    } else {
      c := if exact == [] then fuzzy[0] else exact[0];
    }
    MatchingMember(a, value, false, list, c);
    MatchingMember(a, value, true, list, c);
  }

  ghost predicate OnlyDataIsOf(list: seq<Cluster>, name: string) {
    forall d <- list :: HasEvidence(d) ==> d.name == name
  }

  lemma SingleOther(fuzzy: seq<Cluster>, name: string)
    requires |Dataful(fuzzy, name)| == 1
    ensures var d := Dataful(fuzzy, name)[0]; d in fuzzy && HasEvidence(d) && d.name != name
  {
    var others := Dataful(fuzzy, name);
    DatafulCounts(fuzzy, name, others[0]);
    assert others[0] in multiset(others);
    assert others[0] in multiset(fuzzy);
  }

  /** A single exact match always resolves: to itself if it holds data or nothing else that matches does, and else at
      most to the one other cluster that matches fuzzily and holds data. */
  lemma SingleExactMatchResolves(a: Alphabet, value: string, list: seq<Cluster>, c: Cluster) returns (id: string)
    requires Matching(a, value, false, list) == [c]
    ensures Choose(a, value, list) == Resolved(id)
    ensures HasEvidence(c) || OnlyDataIsOf(Matching(a, value, true, list), c.name) ==> id == c.name
    ensures id != c.name ==> exists d <- Matching(a, value, true, list) :: HasEvidence(d) && d.name == id
  {
    var fuzzy := Matching(a, value, true, list);
    id := Decide([c], fuzzy, Available(list)).id;
    if |Dataful(fuzzy, c.name)| == 1 {
      SingleOther(fuzzy, c.name);
    }
  }

  ghost predicate NoneMatches(a: Alphabet, input: string, fuzzy: bool, list: seq<Cluster>) {
    forall c :: c in list ==> !Matches(a, input, fuzzy, c)
  }

  lemma NoneMatching(a: Alphabet, input: string, fuzzy: bool, list: seq<Cluster>)
    ensures Matching(a, input, fuzzy, list) == [] <==> NoneMatches(a, input, fuzzy, list)
  {
    var found := Matching(a, input, fuzzy, list);
    if found != [] {
      MatchingMember(a, input, fuzzy, list, found[0]);
    }
    forall c | found == [] && c in list ensures !Matches(a, input, fuzzy, c) {
      MatchingMember(a, input, fuzzy, list, c);
    }
  }

  /** Nothing is found exactly if no listed cluster matches in either way. */
  lemma NotFoundExactly(a: Alphabet, value: string, list: seq<Cluster>)
    ensures Choose(a, value, list).NotFound? <==>
        NoneMatches(a, value, false, list) && NoneMatches(a, value, true, list)
  {
    NoneMatching(a, value, false, list);
    NoneMatching(a, value, true, list);
  }
}
