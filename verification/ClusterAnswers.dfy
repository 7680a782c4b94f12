/** What `ClusterResolver` answers, said by the fields of the clusters alone. */
module ClusterAnswers {
  import opened Text
  import opened AliasTokens
  import opened ClusterResolver

  /* ---------- the texts by which a cluster is known ---------- */

  /** The trimmed name, identifier or source, or a stretch of the source without white space; never the empty text. */
  ghost predicate KnownBy(c: Cluster, text: string) {
    text != "" && (text == TrimSpace(c.name) || text == TrimSpace(c.uid) || text == TrimSpace(c.source) ||
                   HasStretch(c.source, text))
  }

  lemma StretchIsTrimmed(s: string, w: string)
    requires HasStretch(s, w)
    ensures w != "" && TrimSpace(w) == w
  {
    var i: nat, j: nat :| Stretch(s, i, j) && s[i..j] == w;
    TrimmedIsFixed(w);
  }

  lemma FieldIsStretch(s: string, k: nat)
    requires k < |Fields(s)|
    ensures HasStretch(s, Fields(s)[k]) && TrimSpace(Fields(s)[k]) == Fields(s)[k]
  {
    assert Fields(s)[k] in Fields(s);
    FieldsAreStretches(s, Fields(s)[k]);
    StretchIsTrimmed(s, Fields(s)[k]);
  }

  lemma RawAliasesAre(c: Cluster)
    ensures var (raw, fields) := (RawAliases(c), Fields(c.source));
            && |raw| == |fields| + 4 && (forall k :: 0 <= k < |fields| ==> raw[k + 4] == fields[k])
            && raw[0] == c.name && raw[1] == c.uid && raw[2] == c.source
            && raw[3] == if fields == [] then c.name else fields[0]
  {
  }

  lemma AliasIsKnown(c: Cluster, k: nat)
    requires k < |RawAliases(c)| && TrimSpace(RawAliases(c)[k]) != ""
    ensures KnownBy(c, TrimSpace(RawAliases(c)[k]))
  {
    RawAliasesAre(c);
    var fields := Fields(c.source);
    if k >= 4 {
      assert RawAliases(c)[k - 4 + 4] == fields[k - 4];
      FieldIsStretch(c.source, k - 4);
    } else if k == 3 && fields != [] {
      FieldIsStretch(c.source, 0);
    }
  }

  lemma StretchIsAlias(c: Cluster, text: string)
    requires HasStretch(c.source, text)
    ensures IsAlias(c, text)
  {
    StretchIsTrimmed(c.source, text);
    FieldsAreStretches(c.source, text);
    RawAliasesAre(c);
    var k :| 0 <= k < |Fields(c.source)| && Fields(c.source)[k] == text;
    assert RawAliases(c)[k + 4] == text;
  }

  lemma KnownExactly(c: Cluster, text: string)
    ensures IsAlias(c, text) <==> KnownBy(c, text)
  {
    if IsAlias(c, text) {
      var k :| 0 <= k < |RawAliases(c)| && TrimSpace(RawAliases(c)[k]) == text;
      AliasIsKnown(c, k);
    }
    if HasStretch(c.source, text) {
      StretchIsAlias(c, text);
    }
    RawAliasesAre(c);
  }

  /** Two texts are the same up to case. */
  predicate SameText(a: Alphabet, x: string, y: string) {
    |x| == |y| && forall i :: 0 <= i < |x| ==> a.toLower(x[i]) == a.toLower(y[i])
  }

  lemma SameTextIsLower(a: Alphabet, x: string, y: string)
    ensures Lower(a, x) == Lower(a, y) <==> SameText(a, x, y)
  {
    if Lower(a, x) == Lower(a, y) {
      assert |x| == |Lower(a, x)| && |y| == |Lower(a, y)|;
      assert forall i :: 0 <= i < |x| ==> Lower(a, x)[i] == a.toLower(x[i]) && Lower(a, y)[i] == a.toLower(y[i]);
    }
  }

  /** The cluster is known by the input, up to case and the white space around it. */
  ghost predicate KnownAs(a: Alphabet, c: Cluster, input: string) {
    exists text :: KnownBy(c, text) && SameText(a, text, TrimSpace(input))
  }

  lemma KnownIsTrimmed(c: Cluster, text: string)
    requires KnownBy(c, text)
    ensures TrimSpace(text) == text
  {
    TrimTwice(c.name);
    TrimTwice(c.uid);
    TrimTwice(c.source);
    if HasStretch(c.source, text) {
      StretchIsTrimmed(c.source, text);
    }
  }

  /** No other text matches exactly. */
  lemma MatchesExactly(a: Alphabet, c: Cluster, input: string)
    ensures AliasMatches(a, c, input) <==> KnownAs(a, c, input)
  {
    forall text ensures IsAlias(c, text) <==> KnownBy(c, text) {
      KnownExactly(c, text);
    }
    forall text | KnownBy(c, text)
      ensures Normalize(a, text) == Normalize(a, input) <==> SameText(a, text, TrimSpace(input))
    {
      KnownIsTrimmed(c, text);
      SameTextIsLower(a, text, TrimSpace(input));
    }
  }

  /* ---------- fuzzy matches ---------- */

  predicate StandsAt(s: string, part: string, i: nat) {
    i + |part| <= |s| && s[i..i + |part|] == part
  }

  lemma {:induction false} ContainsExactly(s: string, part: string)
    ensures Contains(s, part) <==> exists i: nat :: StandsAt(s, part, i)
  {
    assert |part| <= |s| && s[..|part|] == part <==> StandsAt(s, part, 0);
    if s != "" {
      ContainsExactly(s[1..], part);
      forall i: nat ensures StandsAt(s[1..], part, i) <==> StandsAt(s, part, i + 1) {
        if i + 1 + |part| <= |s| {
          assert s[1..][i..i + |part|] == s[i + 1..i + 1 + |part|];
        }
      }
      forall i: nat | i > 0 && StandsAt(s, part, i) ensures StandsAt(s[1..], part, i - 1) {
        assert StandsAt(s[1..], part, i - 1) <==> StandsAt(s, part, i - 1 + 1);
      }
    }
  }

  /** Every character takes a byte, and one beyond the first 128, 2048 or 65536 takes one more for each. */
  lemma {:induction false} BytesExactly(s: string)
    ensures Bytes(s) == |s| + |Beyond(s, 0x80)| + |Beyond(s, 0x800)| + |Beyond(s, 0x10000)|
  {
    if s != "" {
      BytesExactly(s[1..]);
    }
  }

  function Beyond(s: string, n: nat): string {
    if s == "" then "" else (if s[0] as int >= n then [s[0]] else "") + Beyond(s[1..], n)
  }

  /** The tokens of the input stand in the text in order, or its letters and digits, four bytes of them or more, stand
      in those of the text side by side. */
  ghost predicate Resembles(a: Alphabet, text: string, input: string) {
    || (exists at :: Embedding(Tokens(a, input), Tokens(a, text), at))
    || (Bytes(Compact(a, input)) >= 4 && exists i: nat :: StandsAt(Compact(a, text), Compact(a, input), i))
  }

  /** A fuzzy match takes two tokens at least, and a text by which the cluster is known that resembles the input. */
  lemma FuzzyExactly(a: Alphabet, c: Cluster, input: string)
    ensures FuzzyMatches(a, c, input) <==>
            |Tokens(a, input)| >= 2 && exists text :: KnownBy(c, text) && Resembles(a, text, input)
  {
    JoinIsCompact(a, input, 0);
    assert input[0..] == input;
    forall text ensures IsAlias(c, text) <==> KnownBy(c, text) {
      KnownExactly(c, text);
    }
    forall text | |Tokens(a, input)| >= 2 ensures FuzzyAlias(a, text, input) <==> Resembles(a, text, input) {
      JoinIsCompact(a, text, 0);
      assert text[0..] == text;
      ContainsExactly(Compact(a, text), Compact(a, input));
    }
  }

  /* ---------- the answer ---------- */

  predicate HasName(c: Cluster) {
    exists k :: 0 <= k < |c.name| && !IsSpace(c.name[k])
  }

  predicate HasData(c: Cluster) {
    c.objects > 0 || c.versions > 0 || c.latest > 0
  }

  lemma NamedExactly(c: Cluster)
    ensures Named(c) <==> HasName(c)
  {
    var i, j := TrimExactly(c.name);
    assert i < j ==> !IsSpace(c.name[i]);
  }

  /** The clusters of the list that can be meant, by their places. */
  ghost function Meant(a: Alphabet, list: seq<Cluster>, input: string): set<nat> {
    set k: nat | k < |list| && HasName(list[k]) && KnownAs(a, list[k], input)
  }

  ghost predicate Similar(a: Alphabet, c: Cluster, input: string) {
    |Tokens(a, TrimSpace(input))| >= 2 && exists text :: KnownBy(c, text) && Resembles(a, text, TrimSpace(input))
  }

  ghost function MeantLoosely(a: Alphabet, list: seq<Cluster>, input: string): set<nat> {
    set k: nat | k < |list| && HasName(list[k]) && Similar(a, list[k], input)
  }

  ghost function Places(a: Alphabet, list: seq<Cluster>, value: string, fuzzy: bool): set<nat> {
    set k: nat | k < |list| && Matches(a, value, fuzzy, list[k])
  }

  lemma PlacesAre(a: Alphabet, list: seq<Cluster>, input: string)
    ensures Places(a, list, TrimSpace(input), false) == Meant(a, list, input)
    ensures Places(a, list, TrimSpace(input), true) == MeantLoosely(a, list, input)
  {
    TrimTwice(input);
    forall k: nat | k < |list|
      ensures Matches(a, TrimSpace(input), false, list[k]) <==> HasName(list[k]) && KnownAs(a, list[k], input)
      ensures Matches(a, TrimSpace(input), true, list[k]) <==> HasName(list[k]) && Similar(a, list[k], input)
    {
      NamedExactly(list[k]);
      MatchesExactly(a, list[k], TrimSpace(input));
      FuzzyExactly(a, list[k], TrimSpace(input));
    }
  }

  /** The elements of a filtered list, by their places in the list. */
  predicate At(list: seq<Cluster>, found: seq<Cluster>, at: seq<nat>) {
    && |at| == |found| && (forall i :: 0 <= i < |at| ==> at[i] < |list| && found[i] == list[at[i]])
    && (forall i, j :: 0 <= i < j < |at| ==> at[i] < at[j])
  }

  /** In addition, these are all the places where such elements stand. */
  ghost predicate PlacedAt(list: seq<Cluster>, found: seq<Cluster>, at: seq<nat>, places: set<nat>) {
    At(list, found, at) && forall k :: k in at <==> k in places
  }

  lemma PlacedOneMore(list: seq<Cluster>, found: seq<Cluster>, at: seq<nat>, places: set<nat>, n: nat)
    requires n + 1 == |list| && PlacedAt(list[..n], found, at, places)
    ensures PlacedAt(list, found, at, places)
    ensures PlacedAt(list, found + [list[n]], at + [n], places + {n})
  {
    assert forall i :: 0 <= i < |at| ==> at[i] < n && list[..n][at[i]] == list[at[i]];
  }

  lemma PlacesOneMore(a: Alphabet, list: seq<Cluster>, value: string, fuzzy: bool, n: nat)
    requires n + 1 == |list|
    ensures Places(a, list, value, fuzzy) ==
            Places(a, list[..n], value, fuzzy) + if Matches(a, value, fuzzy, list[n]) then {n} else {}
  {
    assert forall k: nat :: k < n ==> list[..n][k] == list[k];
  }

  lemma {:induction false} MatchingAt(a: Alphabet, list: seq<Cluster>, value: string, fuzzy: bool)
    returns (at: seq<nat>)
    ensures PlacedAt(list, Matching(a, value, fuzzy, list), at, Places(a, list, value, fuzzy))
  {
    at := [];
    if list != [] {
      var n: nat := |list| - 1;
      at := MatchingAt(a, list[..n], value, fuzzy);
      PlacedOneMore(list, Matching(a, value, fuzzy, list[..n]), at, Places(a, list[..n], value, fuzzy), n);
      PlacesOneMore(a, list, value, fuzzy, n);
      if Matches(a, value, fuzzy, list[n]) {
        at := at + [n];
      }
    }
  }

  lemma {:induction false} AsManyPlaces(at: seq<nat>, places: set<nat>)
    requires forall i, j :: 0 <= i < j < |at| ==> at[i] < at[j]
    requires forall k :: k in at <==> k in places
    ensures |at| == |places|
  {
    if at == [] {
      assert places == {};
    } else {
      var last := at[|at| - 1];
      assert at == at[..|at| - 1] + [last];
      AsManyPlaces(at[..|at| - 1], places - {last});
    }
  }

  /** The matching clusters are those at the places, one for each. */
  lemma MatchingIsPlaces(a: Alphabet, list: seq<Cluster>, value: string, fuzzy: bool)
    ensures |Matching(a, value, fuzzy, list)| == |Places(a, list, value, fuzzy)|
    ensures forall k <- Places(a, list, value, fuzzy) :: list[k] in Matching(a, value, fuzzy, list)
    ensures forall c <- Matching(a, value, fuzzy, list) :: exists k <- Places(a, list, value, fuzzy) :: list[k] == c
  {
    var at := MatchingAt(a, list, value, fuzzy);
    AsManyPlaces(at, Places(a, list, value, fuzzy));
  }

  function DatafulIn(list: seq<Cluster>, name: string): set<nat> {
    set k: nat | k < |list| && list[k].name != name && HasData(list[k])
  }

  lemma DatafulOneMore(list: seq<Cluster>, name: string, n: nat)
    requires n + 1 == |list|
    ensures DatafulIn(list, name) ==
            DatafulIn(list[..n], name) + if list[n].name != name && HasData(list[n]) then {n} else {}
  {
    assert forall k: nat :: k < n ==> list[..n][k] == list[k];
  }

  lemma {:induction false} DatafulAt(list: seq<Cluster>, name: string) returns (at: seq<nat>)
    ensures PlacedAt(list, Dataful(list, name), at, DatafulIn(list, name))
  {
    at := [];
    if list != [] {
      var n: nat := |list| - 1;
      at := DatafulAt(list[..n], name);
      PlacedOneMore(list, Dataful(list[..n], name), at, DatafulIn(list[..n], name), n);
      DatafulOneMore(list, name, n);
      if list[n].name != name && HasEvidence(list[n]) {
        at := at + [n];
      }
    }
  }

  /** The places of other clusters that are meant loosely and hold data. */
  ghost function OthersWithData(a: Alphabet, list: seq<Cluster>, input: string, name: string): set<nat> {
    set k | k in MeantLoosely(a, list, input) && k < |list| && list[k].name != name && HasData(list[k])
  }

  /** Filtering twice: the places in the list of what is kept of what matches. */
  lemma DatafulPlaces(list: seq<Cluster>, found: seq<Cluster>, at: seq<nat>, name: string) returns (kept: seq<nat>)
    requires At(list, found, at)
    ensures At(list, Dataful(found, name), kept)
    ensures forall k :: k in kept <==> k in at && k < |list| && list[k].name != name && HasData(list[k])
  {
    var inner := DatafulAt(found, name);
    kept := seq(|inner|, i requires 0 <= i < |inner| => at[inner[i]]);
    forall k | k in kept ensures k in at && k < |list| && list[k].name != name && HasData(list[k]) {
      var i :| 0 <= i < |kept| && kept[i] == k;
      assert inner[i] in DatafulIn(found, name);
    }
    forall k | k in at && k < |list| && list[k].name != name && HasData(list[k]) ensures k in kept {
      var i :| 0 <= i < |at| && at[i] == k;
      assert i in DatafulIn(found, name);
      var j :| 0 <= j < |inner| && inner[j] == i;
      assert kept[j] == k;
    }
  }

  lemma OthersAre(a: Alphabet, list: seq<Cluster>, input: string, name: string)
    ensures var others := Dataful(Matching(a, TrimSpace(input), true, list), name);
            && |others| == |OthersWithData(a, list, input, name)|
            && forall k <- OthersWithData(a, list, input, name) :: list[k] in others
  {
    var at := MatchingAt(a, list, TrimSpace(input), true);
    PlacesAre(a, list, input);
    var kept := DatafulPlaces(list, Matching(a, TrimSpace(input), true, list), at, name);
    AsManyPlaces(kept, OthersWithData(a, list, input, name));
    forall k | k in OthersWithData(a, list, input, name)
      ensures list[k] in Dataful(Matching(a, TrimSpace(input), true, list), name)
    {
      assert k in kept;
    }
  }

  /** The names of the clusters at these places, one for each. */
  ghost predicate NamesAt(list: seq<Cluster>, places: set<nat>, names: seq<string>) {
    && |names| == |places| && (forall k <- places :: k < |list| && list[k].name in names)
    && (forall name <- names :: exists k <- places :: k < |list| && list[k].name == name)
  }

  lemma NamesAreAt(a: Alphabet, list: seq<Cluster>, value: string, fuzzy: bool)
    ensures NamesAt(list, Places(a, list, value, fuzzy), Names(Matching(a, value, fuzzy, list)))
  {
    var found, places := Matching(a, value, fuzzy, list), Places(a, list, value, fuzzy);
    MatchingIsPlaces(a, list, value, fuzzy);
    forall k | k in places ensures list[k].name in Names(found) {
      var i :| 0 <= i < |found| && found[i] == list[k];
      assert Names(found)[i] == list[k].name;
    }
    forall name | name in Names(found) ensures exists k <- places :: k < |list| && list[k].name == name {
      var i :| 0 <= i < |found| && Names(found)[i] == name;
      assert found[i] in found;
    }
  }

  lemma ResolveChooses(a: Alphabet, list: seq<Cluster>, input: string)
    requires TrimSpace(input) != "" && exists k :: 0 <= k < |list| && HasName(list[k])
    ensures Resolve(a, input, Clusters(list)) == Choose(a, TrimSpace(input), list)
  {
    var k :| 0 <= k < |list| && HasName(list[k]);
    NamedExactly(list[k]);
    assert list[k] in list && Named(list[k]);
  }

  lemma MeantAreNamed(a: Alphabet, list: seq<Cluster>, input: string, k: nat)
    requires TrimSpace(input) != "" && k in Meant(a, list, input)
    ensures k < |list| && Resolve(a, input, Clusters(list)) == Choose(a, TrimSpace(input), list)
  {
    ResolveChooses(a, list, input);
  }

  lemma OneOf(list: seq<Cluster>, found: seq<Cluster>, places: set<nat>)
    requires |found| == |places| && forall k <- places :: k < |list| && list[k] in found
    ensures |found| == 1 ==> forall k <- places :: list[k] == found[0]
  {
  }

  lemma OnlyPlace(a: Alphabet, list: seq<Cluster>, value: string, fuzzy: bool, k: nat)
    requires k in Places(a, list, value, fuzzy) && |Places(a, list, value, fuzzy)| == 1
    ensures Matching(a, value, fuzzy, list) == [list[k]]
  {
    var at := MatchingAt(a, list, value, fuzzy);
    AsManyPlaces(at, Places(a, list, value, fuzzy));
    AtOne(list, Matching(a, value, fuzzy, list), at, k);
  }

  lemma AtOne(list: seq<Cluster>, found: seq<Cluster>, at: seq<nat>, k: nat)
    requires At(list, found, at) && |at| == 1 && k in at
    ensures k < |list| && found == [list[k]]
  {
  }

  /** An input without text means no cluster; and where nothing can be looked up the trimmed input is taken as it is. */
  lemma TakenAsIs(a: Alphabet, input: string, listing: Listing)
    requires TrimSpace(input) == "" || listing.Unsupported? ||
             (listing.Clusters? && forall k :: 0 <= k < |listing.list| ==> !HasName(listing.list[k]))
    ensures Resolve(a, input, listing) == Resolved(TrimSpace(input))
  {
    if listing.Clusters? {
      forall c | c in listing.list ensures Named(c) <==> HasName(c) {
        NamedExactly(c);
      }
    }
  }

  lemma DecideOnOne(c: Cluster, fuzzy: seq<Cluster>, available: seq<string>)
    ensures var others := Dataful(fuzzy, c.name);
            Decide([c], fuzzy, available) == Resolved(if HasData(c) || |others| != 1 then c.name else others[0].name)
  {
  }

  lemma ChooseOne(a: Alphabet, list: seq<Cluster>, value: string, k: nat)
    requires Places(a, list, value, false) == {k} && k < |list|
    ensures var others := Dataful(Matching(a, value, true, list), list[k].name);
            Choose(a, value, list) ==
            Resolved(if HasData(list[k]) || |others| != 1 then list[k].name else others[0].name)
  {
    OnlyPlace(a, list, value, false, k);
    DecideOnOne(list[k], Matching(a, value, true, list), Available(list));
  }

  /** A single cluster that is meant is the answer, unless it holds no data and just one other that is meant loosely
      does: then that one is. */
  lemma SingleAnswer(a: Alphabet, list: seq<Cluster>, input: string, k: nat)
    requires TrimSpace(input) != "" && Meant(a, list, input) == {k}
    ensures k < |list|
    ensures var others := OthersWithData(a, list, input, list[k].name);
            if HasData(list[k]) || |others| != 1 then Resolve(a, input, Clusters(list)) == Resolved(list[k].name)
            else forall j <- others :: Resolve(a, input, Clusters(list)) == Resolved(list[j].name)
  {
    MeantAreNamed(a, list, input, k);
    PlacesAre(a, list, input);
    ChooseOne(a, list, TrimSpace(input), k);
    OthersAre(a, list, input, list[k].name);
    OneOf(list, Dataful(Matching(a, TrimSpace(input), true, list), list[k].name),
        OthersWithData(a, list, input, list[k].name));
  }

  /** In particular a text by which exactly one named cluster is known, and which holds data, resolves to its name. */
  lemma OneWithData(a: Alphabet, list: seq<Cluster>, input: string, k: nat)
    requires TrimSpace(input) != "" && k < |list| && HasName(list[k]) && KnownAs(a, list[k], input)
    requires forall j :: 0 <= j < |list| && j != k ==> !(HasName(list[j]) && KnownAs(a, list[j], input))
    requires list[k].objects > 0 || list[k].versions > 0 || list[k].latest > 0
    ensures Resolve(a, input, Clusters(list)) == Resolved(list[k].name)
  {
    assert Meant(a, list, input) == {k};
    SingleAnswer(a, list, input, k);
  }

  lemma ChooseSeveral(a: Alphabet, list: seq<Cluster>, value: string)
    requires |Places(a, list, value, false)| > 1
    ensures Choose(a, value, list) == Ambiguous(Names(Matching(a, value, false, list)))
  {
    MatchingIsPlaces(a, list, value, false);
  }

  /** Several clusters that are meant are ambiguous, and all of them are named. */
  lemma SeveralAnswers(a: Alphabet, list: seq<Cluster>, input: string)
    requires TrimSpace(input) != "" && |Meant(a, list, input)| > 1
    ensures var out := Resolve(a, input, Clusters(list));
            out.Ambiguous? && NamesAt(list, Meant(a, list, input), out.names)
  {
    var k :| k in Meant(a, list, input);
    MeantAreNamed(a, list, input, k);
    PlacesAre(a, list, input);
    ChooseSeveral(a, list, TrimSpace(input));
    NamesAreAt(a, list, TrimSpace(input), false);
  }

  /** If no cluster is meant, those that are meant loosely decide: one is the answer, several are ambiguous, and with
      none the named clusters are listed. */
  lemma LooseAnswers(a: Alphabet, list: seq<Cluster>, input: string)
    requires TrimSpace(input) != "" && Meant(a, list, input) == {} && exists k :: 0 <= k < |list| && HasName(list[k])
    ensures var (out, loosely) := (Resolve(a, input, Clusters(list)), MeantLoosely(a, list, input));
            && (|loosely| == 1 ==> forall k <- loosely :: out == Resolved(list[k].name))
            && (|loosely| > 1 ==> out.Ambiguous? && NamesAt(list, loosely, out.names))
            && (|loosely| == 0 ==> out.NotFound? && Lists(list, out.available))
  {
    var value, loosely := TrimSpace(input), MeantLoosely(a, list, input);
    ResolveChooses(a, list, input);
    PlacesAre(a, list, input);
    MatchingIsPlaces(a, list, value, false);
    MatchingIsPlaces(a, list, value, true);
    NamesAreAt(a, list, value, true);
    forall k | k in loosely && |loosely| == 1 ensures Matching(a, value, true, list) == [list[k]] {
      OnlyPlace(a, list, value, true, k);
    }
    AvailableIsLabels(list);
  }

  /** How a cluster is shown: the first stretch of its source with the name behind it, or the name alone if there is no
      such stretch or it is the name. */
  ghost predicate Labels(c: Cluster, text: string) {
    if exists w :: HasStretch(c.source, w) then
      exists i: nat, j: nat :: Stretch(c.source, i, j) && (forall k :: 0 <= k < i ==> IsSpace(c.source[k])) &&
        var first := c.source[i..j]; text == if first == c.name then c.name else first + " (id=" + c.name + ")"
    else text == c.name
  }

  lemma DisplayLabels(c: Cluster)
    ensures Labels(c, Display(c))
  {
    if Fields(c.source) != [] {
      FieldIsStretch(c.source, 0);
      var i, j := FirstField(c.source);
      assert c.source[i..j] == Fields(c.source)[0];
    } else if exists w :: HasStretch(c.source, w) {
      var w :| HasStretch(c.source, w);
      FieldsAreStretches(c.source, w);
    }
  }

  /** The named clusters as they are shown, in the order of the list. */
  ghost predicate Lists(list: seq<Cluster>, texts: seq<string>) {
    exists at: seq<nat> ::
      LabelledAt(list, texts, at, NamedPlaces(list))
  }

  function NamedPlaces(list: seq<Cluster>): set<nat> {
    set k: nat | k < |list| && HasName(list[k])
  }

  lemma NamedOneMore(list: seq<Cluster>, n: nat)
    requires n + 1 == |list|
    ensures NamedPlaces(list) == NamedPlaces(list[..n]) + if HasName(list[n]) then {n} else {}
  {
    assert forall k: nat :: k < n ==> list[..n][k] == list[k];
  }

  /** The texts are the labels of the clusters at these places. */
  ghost predicate LabelledAt(list: seq<Cluster>, texts: seq<string>, at: seq<nat>, places: set<nat>) {
    && |at| == |texts| && (forall i :: 0 <= i < |at| ==> at[i] < |list| && Labels(list[at[i]], texts[i]))
    && (forall i, j :: 0 <= i < j < |at| ==> at[i] < at[j])
    && (forall k :: k in at <==> k in places)
  }

  lemma LabelledOneMore(list: seq<Cluster>, texts: seq<string>, at: seq<nat>, places: set<nat>, n: nat, text: string)
    requires n + 1 == |list| && LabelledAt(list[..n], texts, at, places) && Labels(list[n], text)
    ensures LabelledAt(list, texts, at, places) && LabelledAt(list, texts + [text], at + [n], places + {n})
  {
    assert forall i :: 0 <= i < |at| ==> at[i] < n && list[..n][at[i]] == list[at[i]];
  }

  lemma {:induction false} AvailableAt(list: seq<Cluster>) returns (at: seq<nat>)
    ensures LabelledAt(list, Available(list), at, NamedPlaces(list))
  {
    at := [];
    if list != [] {
      var n: nat := |list| - 1;
      at := AvailableAt(list[..n]);
      NamedExactly(list[n]);
      DisplayLabels(list[n]);
      LabelledOneMore(list, Available(list[..n]), at, NamedPlaces(list[..n]), n, Display(list[n]));
      NamedOneMore(list, n);
      if HasName(list[n]) {
        at := at + [n];
        assert Available(list) == Available(list[..n]) + [Display(list[n])];
      } else {
        assert Available(list) == Available(list[..n]);
      }
    }
  }

  lemma AvailableIsLabels(list: seq<Cluster>)
    ensures Lists(list, Available(list))
  {
    var at := AvailableAt(list);
  }
}
