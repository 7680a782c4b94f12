/** The filter that puts the conditions of a status into canonical form: timestamps dropped, sorted by type. */
module Conditions {
  import opened Json
  import opened StableSort
  import opened Strings
  import opened Wrappers

  const TIMESTAMPS := ["lastHeartbeatTime", "lastTransitionTime", "lastUpdateTime"]

  function SortKey(condition: Value): string {
    if condition.Obj? && "type" in condition.fields && condition.fields["type"].Str? then condition.fields["type"].text
    else ""
  }

  function Without(m: map<string, Value>, names: seq<string>): map<string, Value> {
    if names == [] then m else Without(m, names[..|names| - 1]) - {names[|names| - 1]}
  }

  /** How many of the names the map has. */
  function Found(m: map<string, Value>, names: seq<string>): nat {
    if names == [] then 0
    else
      var init, last := names[..|names| - 1], names[|names| - 1];
      Found(m, init) + if last in Without(m, init) then 1 else 0
  }

  function Stripped(condition: Value): Value {
    if condition.Obj? then Obj(Without(condition.fields, TIMESTAMPS)) else condition
  }

  function Present(condition: Value): nat {
    if condition.Obj? then Found(condition.fields, TIMESTAMPS) else 0
  }

  function StrippedAll(conditions: seq<Value>): seq<Value> {
    seq(|conditions|, i requires 0 <= i < |conditions| => Stripped(conditions[i]))
  }

  function PresentAll(conditions: seq<Value>): nat {
    if conditions == [] then 0 else PresentAll(conditions[..|conditions| - 1]) + Present(conditions[|conditions| - 1])
  }

  function Canonical(conditions: seq<Value>): seq<Value> {
    SortBy(StrippedAll(conditions), SortKey)
  }

  /* ---------- the list of conditions ---------- */

  lemma {:induction false} WithoutHas(m: map<string, Value>, names: seq<string>, k: string)
    ensures k in Without(m, names) <==> k in m && k !in names
    ensures k in Without(m, names) ==> Without(m, names)[k] == m[k]
  {
    if names != [] {
      WithoutHas(m, names[..|names| - 1], k);
      assert names == names[..|names| - 1] + [names[|names| - 1]];
    }
  }

  lemma {:induction false} FoundNone(m: map<string, Value>, names: seq<string>)
    ensures Found(m, names) == 0 <==> Without(m, names) == m
  {
    if names != [] {
      var init, last := names[..|names| - 1], names[|names| - 1];
      FoundNone(m, init);
      WithoutHas(m, names, last);
      if Without(m, names) == m {
        forall k ensures k in Without(m, init) <==> k in m {
          WithoutHas(m, init, k);
          WithoutHas(m, names, k);
        }
        forall k | k in m ensures Without(m, init)[k] == m[k] {
          WithoutHas(m, init, k);
        }
        assert Without(m, init) == m;
      }
    }
  }

  lemma WithoutTwice(m: map<string, Value>, names: seq<string>)
    ensures Without(Without(m, names), names) == Without(m, names)
  {
    var once := Without(m, names);
    forall k ensures k in Without(once, names) <==> k in once {
      WithoutHas(m, names, k);
      WithoutHas(once, names, k);
    }
    forall k | k in once ensures Without(once, names)[k] == once[k] {
      WithoutHas(once, names, k);
    }
  }

  lemma TypeIsNoStamp()
    ensures "type" !in TIMESTAMPS
  {
    assert |TIMESTAMPS[0]| == 17 && |TIMESTAMPS[1]| == 18 && |TIMESTAMPS[2]| == 14;
  }

  lemma StripFacts(condition: Value)
    ensures SortKey(Stripped(condition)) == SortKey(condition)
    ensures Stripped(Stripped(condition)) == Stripped(condition)
    ensures Present(condition) == 0 <==> Stripped(condition) == condition
  {
    if condition.Obj? {
      TypeIsNoStamp();
      WithoutHas(condition.fields, TIMESTAMPS, "type");
      WithoutTwice(condition.fields, TIMESTAMPS);
      FoundNone(condition.fields, TIMESTAMPS);
    }
  }

  lemma {:induction false} PresentAllIsZero(conditions: seq<Value>)
    ensures PresentAll(conditions) == 0 <==> StrippedAll(conditions) == conditions
  {
    if conditions != [] {
      var init, last := conditions[..|conditions| - 1], conditions[|conditions| - 1];
      PresentAllIsZero(init);
      StripFacts(last);
      assert StrippedAll(conditions) == StrippedAll(init) + [Stripped(last)];
      assert conditions == init + [last];
    }
  }

  lemma CanonicalIsStripped(conditions: seq<Value>)
    ensures StrippedAll(Canonical(conditions)) == Canonical(conditions)
  {
    var r := Canonical(conditions);
    forall i | 0 <= i < |r| ensures Stripped(r[i]) == r[i] {
      assert r[i] in StrippedAll(conditions);
      var j :| 0 <= j < |conditions| && r[i] == Stripped(conditions[j]);
      StripFacts(conditions[j]);
    }
  }

  /** Two lists have the same canonical form exactly if, timestamps aside, the conditions of each type are the same in
      the same order. */
  lemma CanonicalForm(a: seq<Value>, b: seq<Value>)
    ensures Canonical(a) == Canonical(b) <==> SameByKey(StrippedAll(a), StrippedAll(b), SortKey)
  {
    SortedEqually(StrippedAll(a), StrippedAll(b), SortKey);
  }

  /** With distinct types the order does not matter: the canonical forms are equal exactly if the two lists hold the
      same conditions, timestamps aside. */
  lemma OrderDoesNotMatter(a: seq<Value>, b: seq<Value>)
    requires DistinctKeys(a, SortKey) && DistinctKeys(b, SortKey)
    ensures Canonical(a) == Canonical(b) <==> SameMembers(StrippedAll(a), StrippedAll(b))
  {
    StrippedStayDistinct(a);
    StrippedStayDistinct(b);
    DistinctSortEqually(StrippedAll(a), StrippedAll(b), SortKey);
  }

  lemma StrippedStayDistinct(conditions: seq<Value>)
    requires DistinctKeys(conditions, SortKey)
    ensures DistinctKeys(StrippedAll(conditions), SortKey)
  {
    forall i | 0 <= i < |conditions| ensures SortKey(StrippedAll(conditions)[i]) == SortKey(conditions[i]) {
      StripFacts(conditions[i]);
    }
  }

  lemma CanonicalIsIdempotent(conditions: seq<Value>)
    ensures Canonical(Canonical(conditions)) == Canonical(conditions)
  {
    CanonicalIsStripped(conditions);
    SortIsIdempotent(StrippedAll(conditions), SortKey);
  }

  /** What the filter looks at to call a list unchanged, and when the list is. */
  lemma UnchangedExactly(conditions: seq<Value>)
    ensures Canonical(conditions) == conditions <==>
            PresentAll(conditions) == 0
            && KeysOf(Canonical(conditions), SortKey) == KeysOf(StrippedAll(conditions), SortKey)
  {
    PresentAllIsZero(conditions);
    KeyOrderTellsChange(StrippedAll(conditions), SortKey);
    CanonicalIsStripped(conditions);
  }

  /* ---------- what is dropped and what sorts, by name ---------- */

  predicate IsStamp(k: string) {
    k == "lastHeartbeatTime" || k == "lastTransitionTime" || k == "lastUpdateTime"
  }

  lemma StampsByName(k: string)
    ensures k in TIMESTAMPS <==> IsStamp(k)
  {
    assert TIMESTAMPS[0] == "lastHeartbeatTime" && TIMESTAMPS[1] == "lastTransitionTime" &&
      TIMESTAMPS[2] == "lastUpdateTime";
  }

  /** A condition that is a map loses its three timestamps, and keeps everything else as it is. */
  lemma StrippedExactly(condition: Value, k: string)
    ensures condition.Obj? ==>
              && Stripped(condition).Obj?
              && (k in Stripped(condition).fields <==> k in condition.fields && !IsStamp(k))
              && (k in Stripped(condition).fields ==> Stripped(condition).fields[k] == condition.fields[k])
    ensures !condition.Obj? ==> Stripped(condition) == condition
  {
    StampsByName(k);
    if condition.Obj? {
      WithoutHas(condition.fields, TIMESTAMPS, k);
    }
  }

  /** The timestamps of the conditions, by the place of the condition and their name. */
  function Stamps(conditions: seq<Value>): set<(nat, string)> {
    set i: nat, k | i < |conditions| && k in StampNames(conditions[i]) :: (i, k)
  }

  function StampNames(condition: Value): set<string> {
    if condition.Obj? then set k <- condition.fields | IsStamp(k) else {}
  }

  function StampsOf(i: nat, names: set<string>): set<(nat, string)> {
    set k <- names :: (i, k)
  }

  lemma {:induction false} AsManyStamps(i: nat, names: set<string>)
    ensures |StampsOf(i, names)| == |names|
  {
    if names != {} {
      var k :| k in names;
      AsManyStamps(i, names - {k});
      assert StampsOf(i, names) == StampsOf(i, names - {k}) + {(i, k)};
    }
  }

  function Had(m: map<string, Value>, names: seq<string>): set<string> {
    set k <- names | k in m
  }

  lemma HadOneMore(m: map<string, Value>, init: seq<string>, last: string)
    requires last !in init
    ensures |Had(m, init + [last])| == |Had(m, init)| + if last in m then 1 else 0
  {
    assert Had(m, init + [last]) == Had(m, init) + if last in m then {last} else {};
  }

  lemma {:induction false} FoundAre(m: map<string, Value>, names: seq<string>)
    requires forall i, j :: 0 <= i < j < |names| ==> names[i] != names[j]
    ensures Found(m, names) == |Had(m, names)|
  {
    if names != [] {
      var init, last := names[..|names| - 1], names[|names| - 1];
      FoundAre(m, init);
      WithoutHas(m, init, last);
      HadOneMore(m, init, last);
      assert names == init + [last];
    } else {
      assert Had(m, names) == {};
    }
  }

  lemma PresentAre(condition: Value)
    ensures Present(condition) == |StampNames(condition)|
  {
    if condition.Obj? {
      StampLengths();
      FoundAre(condition.fields, TIMESTAMPS);
      forall k ensures k in TIMESTAMPS <==> IsStamp(k) {
        StampsByName(k);
      }
      assert Had(condition.fields, TIMESTAMPS) == StampNames(condition);
    }
  }

  lemma StampLengths()
    ensures forall i, j :: 0 <= i < j < |TIMESTAMPS| ==> TIMESTAMPS[i] != TIMESTAMPS[j]
  {
    TypeIsNoStamp();
    assert |TIMESTAMPS[0]| == 17 && |TIMESTAMPS[1]| == 18 && |TIMESTAMPS[2]| == 14;
  }

  lemma StampsOneMore(init: seq<Value>, last: Value)
    ensures |Stamps(init + [last])| == |Stamps(init)| + |StampNames(last)|
  {
    var conditions, here := init + [last], StampsOf(|init|, StampNames(last));
    AsManyStamps(|init|, StampNames(last));
    forall i: nat, k: string ensures (i, k) in Stamps(conditions) <==> (i, k) in Stamps(init) || (i, k) in here {
      assert i < |init| ==> conditions[i] == init[i];
    }
    assert Stamps(conditions) == Stamps(init) + here;
    assert Stamps(init) !! here;
  }

  /** What is counted as removed is the number of these timestamps. */
  lemma {:induction false} PresentAllAre(conditions: seq<Value>)
    ensures PresentAll(conditions) == |Stamps(conditions)|
  {
    if conditions == [] {
      assert Stamps(conditions) == {};
    } else {
      var n: nat := |conditions| - 1;
      var init, last := conditions[..n], conditions[n];
      PresentAllAre(init);
      StampsOneMore(init, last);
      assert conditions == init + [last];
      PresentAre(last);
    }
  }

  /** The text that a condition is sorted by is its type, if it is a map with a text there, and else the empty text. */
  predicate TypeIs(condition: Value, t: string) {
    if condition.Obj? && "type" in condition.fields && condition.fields["type"].Str?
    then condition.fields["type"] == Str(t) else t == ""
  }

  /** The canonical list holds the stripped conditions, each as often as the list has it, in the order of the types. */
  lemma CanonicalByType(conditions: seq<Value>, i: nat, j: nat, s: string, t: string)
    requires i < j < |Canonical(conditions)|
    requires TypeIs(Canonical(conditions)[i], s) && TypeIs(Canonical(conditions)[j], t)
    ensures !Less(t, s)
    ensures multiset(Canonical(conditions)) == multiset(StrippedAll(conditions))
  {
    SortBySorts(StrippedAll(conditions), SortKey);
    SortByPermutes(StrippedAll(conditions), SortKey);
  }

  /* ---------- the document ---------- */

  predicate HasConditions(root: map<string, Value>) {
    && "status" in root && root["status"].Obj?
    && "conditions" in root["status"].fields && root["status"].fields["conditions"].Arr?
  }

  function ConditionsOf(root: map<string, Value>): seq<Value>
    requires HasConditions(root)
  {
    root["status"].fields["conditions"].items
  }

  function WithConditions(root: map<string, Value>, conditions: seq<Value>): map<string, Value>
    requires HasConditions(root)
  {
    root["status" := Obj(root["status"].fields["conditions" := Arr(conditions)])]
  }

  function Normalized(root: map<string, Value>): map<string, Value> {
    if HasConditions(root) then WithConditions(root, Canonical(ConditionsOf(root))) else root
  }

  lemma WithConditionsFacts(root: map<string, Value>, conditions: seq<Value>)
    requires HasConditions(root)
    ensures HasConditions(WithConditions(root, conditions))
    ensures ConditionsOf(WithConditions(root, conditions)) == conditions
    ensures WithConditions(root, conditions) == root <==> conditions == ConditionsOf(root)
    ensures forall more :: WithConditions(WithConditions(root, conditions), more) == WithConditions(root, more)
  {
    var status := root["status"].fields;
    if conditions == ConditionsOf(root) {
      assert status["conditions" := Arr(conditions)] == status;
      assert root["status" := Obj(status)] == root;
    }
    forall more ensures WithConditions(WithConditions(root, conditions), more) == WithConditions(root, more) {
      assert status["conditions" := Arr(conditions)]["conditions" := Arr(more)] == status["conditions" := Arr(more)];
    }
  }

  /** Nothing in the document changes but the list of conditions in its status. */
  lemma OnlyConditionsChange(root: map<string, Value>, k: string, l: string)
    ensures var after := Normalized(root);
            && after.Keys == root.Keys && (k in root && k != "status" ==> after[k] == root[k])
            && ("status" in root && !root["status"].Obj? ==> after == root)
            && ("status" in root && root["status"].Obj? ==>
                  after["status"].Obj? && after["status"].fields.Keys == root["status"].fields.Keys &&
                  (l in root["status"].fields ==>
                    after["status"].fields[l] ==
                    if l == "conditions" && root["status"].fields[l].Arr?
                    then Arr(Canonical(root["status"].fields[l].items)) else root["status"].fields[l]))
  {
  }

  lemma NormalizedIsIdempotent(root: map<string, Value>)
    ensures Normalized(Normalized(root)) == Normalized(root)
  {
    if HasConditions(root) {
      var c := Canonical(ConditionsOf(root));
      WithConditionsFacts(root, c);
      CanonicalIsIdempotent(ConditionsOf(root));
    }
  }

  /** Documents that differ in the order and the timestamps of their conditions only, with distinct types, become
      equal. */
  lemma PermutationsBecomeEqual(root: map<string, Value>, conditions: seq<Value>)
    requires HasConditions(root)
    requires DistinctKeys(ConditionsOf(root), SortKey) && DistinctKeys(conditions, SortKey)
    requires SameMembers(StrippedAll(ConditionsOf(root)), StrippedAll(conditions))
    ensures Normalized(WithConditions(root, conditions)) == Normalized(root)
  {
    WithConditionsFacts(root, conditions);
    OrderDoesNotMatter(ConditionsOf(root), conditions);
  }

  /* ---------- the filter ---------- */

  datatype Decision = Decision(modified: bool, reason: string, removedFields: nat, sortedLists: bool)

  function Reason(root: Option<map<string, Value>>): string {
    if root.None? then "no_object"
    else if "status" !in root.value || !root.value["status"].Obj? then "no_status"
    else if !HasConditions(root.value) then "conditions_absent"
    else if Normalized(root.value) == root.value then "condition_set_already_normalized"
    else "condition_set_normalized"
  }

  /** Deletes the names from the map, one after the other, and counts those it found. */
  method DeleteFields(m: map<string, Value>, names: seq<string>) returns (fields: map<string, Value>, removed: nat)
    ensures fields == Without(m, names) && removed == Found(m, names)
  {
    fields, removed := m, 0;
    for k := 0 to |names|
      invariant fields == Without(m, names[..k]) && removed == Found(m, names[..k])
    {
      assert names[..k + 1][..k] == names[..k];
      if names[k] in fields {
        fields := fields - {names[k]};
        removed := removed + 1;
      } else {
        assert fields - {names[k]} == fields;
      }
    }
    assert names[..|names|] == names;
  }

  /** A condition that is a map is cloned, and the timestamps are deleted from the clone. */
  method Strip(condition: Value) returns (next: Value, removed: nat)
    ensures next == Stripped(condition) && removed == Present(condition)
  {
    next, removed := condition, 0;
    if condition.Obj? {
      var fields;
      fields, removed := DeleteFields(condition.fields, TIMESTAMPS);
      next := Obj(fields);
    }
  }

  method StripTimestamps(conditions: seq<Value>) returns (next: array<Value>, removed: nat)
    ensures fresh(next) && next[..] == StrippedAll(conditions) && removed == PresentAll(conditions)
  {
    next := new Value[|conditions|](i requires 0 <= i < |conditions| => conditions[i]);
    removed := 0;
    for i := 0 to |conditions|
      invariant next[..i] == StrippedAll(conditions)[..i]
      invariant removed == PresentAll(conditions[..i])
    {
      assert conditions[..i + 1][..i] == conditions[..i];
      var condition, n := Strip(conditions[i]);
      next[i] := condition;
      removed := removed + n;
    }
    assert conditions[..|conditions|] == conditions;
    assert next[..] == next[..|conditions|];
  }

  method Apply(root: Option<map<string, Value>>) returns (out: Option<map<string, Value>>, decision: Decision)
    ensures out == if root.Some? then Some(Normalized(root.value)) else None
    ensures decision.modified <==> out != root
    ensures decision.reason == Reason(root)
    ensures decision.modified ==> decision.removedFields == PresentAll(ConditionsOf(root.value))
    ensures decision.modified ==> (decision.sortedLists <==>
            Canonical(ConditionsOf(root.value)) != StrippedAll(ConditionsOf(root.value)))
  {
    if root.None? {
      return root, Decision(false, "no_object", 0, false);
    }
    var document := root.value;
    if "status" !in document || !document["status"].Obj? {
      return root, Decision(false, "no_status", 0, false);
    }
    var status := document["status"].fields;
    if "conditions" !in status || !status["conditions"].Arr? {
      return root, Decision(false, "conditions_absent", 0, false);
    }
    var conditions := status["conditions"].items;
    var next, removed := StripTimestamps(conditions);
    var before := KeysOf(next[..], SortKey);
    SliceStable(next, SortKey);
    var sorted := KeysOf(next[..], SortKey) != before;
    KeyOrderTellsChange(StrippedAll(conditions), SortKey);
    UnchangedExactly(conditions);
    WithConditionsFacts(document, next[..]);
    if removed == 0 && !sorted {
      return root, Decision(false, "condition_set_already_normalized", 0, false);
    }
    out := Some(document["status" := Obj(status["conditions" := Arr(next[..])])]);
    decision := Decision(true, "condition_set_normalized", removed, sorted);
  }
}
