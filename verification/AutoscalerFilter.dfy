/** The filter around the autoscaler rewrite: the status text inside a document, and the last-updated annotation. */
module AutoscalerFilter {
  import opened Json
  import opened Yaml
  import opened Autoscaler
  import opened Wrappers

  /** The YAML library. */
  datatype Library = Library(parse: string -> Option<Tree>, render: Tree -> Option<string>)

  /** What the rewrite prints for this text reads back, without the newlines at its end, as the rewritten tree. */
  predicate FaithfulAt(lib: Library, s: string) {
    lib.parse(s).Some? ==> ReadsBack(lib, Normalize(lib.parse(s).value))
  }

  predicate ReadsBack(lib: Library, t: Tree) {
    lib.render(t).Some? ==> lib.parse(TrimNewlines(lib.render(t).value)) == Some(t)
  }

  function TrimNewlines(s: string): string {
    if s != "" && s[|s| - 1] == '\n' then TrimNewlines(s[..|s| - 1]) else s
  }

  lemma {:induction false} TrimmedTwice(s: string)
    ensures TrimNewlines(TrimNewlines(s)) == TrimNewlines(s)
  {
    if s != "" && s[|s| - 1] == '\n' {
      TrimmedTwice(s[..|s| - 1]);
    }
  }

  /* ---------- the status text ---------- */

  function NormalizeStatus(lib: Library, status: string): (string, bool) {
    var doc := lib.parse(status);
    if doc.None? then (status, false)
    else
      var out := lib.render(Normalize(doc.value));
      if out.None? then (status, false)
      else
        var normalized := TrimNewlines(out.value);
        (normalized, Changed(doc.value) || normalized != TrimNewlines(status))
  }

  /** A change of the text is reported only if there is one. */
  lemma ReportedTextDiffers(lib: Library, status: string)
    requires FaithfulAt(lib, status) && NormalizeStatus(lib, status).1
    ensures NormalizeStatus(lib, status).0 != status
  {
    var doc := lib.parse(status).value;
    var out := lib.render(Normalize(doc)).value;
    TrimmedTwice(out);
    if TrimNewlines(out) == status {
      assert ReadsBack(lib, Normalize(doc));
      FlagIsExact(doc);
    }
  }

  /** A text that the rewrite has produced is not changed again. */
  lemma SecondTextIsQuiet(lib: Library, status: string)
    requires FaithfulAt(lib, status) && NormalizeStatus(lib, status).1
    ensures !NormalizeStatus(lib, NormalizeStatus(lib, status).0).1
  {
    var doc := lib.parse(status).value;
    var out := lib.render(Normalize(doc)).value;
    assert ReadsBack(lib, Normalize(doc));
    NormalizeIsIdempotent(doc);
    FlagIsExact(Normalize(doc));
    TrimmedTwice(out);
  }

  /* ---------- the document ---------- */

  const UPDATED := "cluster-autoscaler.kubernetes.io/last-updated"

  function Member(m: map<string, Value>, key: string): map<string, Value> {
    if key in m && m[key].Obj? then m[key].fields else map[]
  }

  function StatusOf(root: map<string, Value>): string {
    var data := Member(root, "data");
    if "status" in data && data["status"].Str? then data["status"].text else ""
  }

  function WithStatus(root: map<string, Value>, status: string): map<string, Value> {
    root["data" := Obj(Member(root, "data")["status" := Str(status)])]
  }

  predicate StatusChanges(lib: Library, root: map<string, Value>) {
    StatusOf(root) != "" && NormalizeStatus(lib, StatusOf(root)).1
  }

  function AnnotationsOf(root: map<string, Value>): map<string, Value> {
    Member(Member(root, "metadata"), "annotations")
  }

  /** The annotation goes, and with the last annotation the whole map of them. */
  function WithoutUpdated(root: map<string, Value>): map<string, Value> {
    if UPDATED !in AnnotationsOf(root) then root
    else
      var (metadata, rest) := (Member(root, "metadata"), AnnotationsOf(root) - {UPDATED});
      root["metadata" := Obj(if rest == map[] then metadata - {"annotations"}
          else metadata["annotations" := Obj(rest)])]
  }

  function Normalized(lib: Library, root: map<string, Value>): map<string, Value> {
    if "data" !in root || !root["data"].Obj? then root
    else
      WithoutUpdated(
        if StatusChanges(lib, root) then WithStatus(root, NormalizeStatus(lib, StatusOf(root)).0) else root)
  }

  lemma StatusIsApart(root: map<string, Value>, status: string)
    ensures StatusOf(WithStatus(root, status)) == status
    ensures AnnotationsOf(WithStatus(root, status)) == AnnotationsOf(root)
    ensures StatusOf(WithoutUpdated(root)) == StatusOf(root)
    ensures Member(WithoutUpdated(root), "data") == Member(root, "data")
  {
    assert "data" != "metadata" by {
      assert |"data"| != |"metadata"|;
    }
  }

  lemma UpdatedIsGone(root: map<string, Value>)
    ensures UPDATED !in AnnotationsOf(WithoutUpdated(root))
    ensures WithoutUpdated(root) == root <==> UPDATED !in AnnotationsOf(root)
    ensures "data" in root && root["data"].Obj? ==>
        "data" in WithoutUpdated(root) && WithoutUpdated(root)["data"] == root["data"]
  {
    assert "data" != "metadata" by {
      assert |"data"| != |"metadata"|;
    }
    var next := WithoutUpdated(root);
    if UPDATED in AnnotationsOf(root) {
      assert UPDATED !in AnnotationsOf(next);
      assert next != root;
    }
  }

  /** The document is unchanged exactly if neither part has anything to change. */
  lemma UnchangedExactly(lib: Library, root: map<string, Value>)
    requires FaithfulAt(lib, StatusOf(root)) && "data" in root && root["data"].Obj?
    ensures Normalized(lib, root) == root <==> !StatusChanges(lib, root) && UPDATED !in AnnotationsOf(root)
  {
    if StatusChanges(lib, root) {
      var status := NormalizeStatus(lib, StatusOf(root)).0;
      ReportedTextDiffers(lib, StatusOf(root));
      StatusIsApart(root, status);
      StatusIsApart(WithStatus(root, status), status);
      assert StatusOf(Normalized(lib, root)) == status != StatusOf(root);
    } else {
      UpdatedIsGone(root);
    }
  }

  /** The filter applied twice is the filter applied once. */
  lemma NormalizedIsIdempotent(lib: Library, root: map<string, Value>)
    requires FaithfulAt(lib, StatusOf(root))
    ensures Normalized(lib, Normalized(lib, root)) == Normalized(lib, root)
  {
    if "data" in root && root["data"].Obj? {
      var status := NormalizeStatus(lib, StatusOf(root)).0;
      var middle := if StatusChanges(lib, root) then WithStatus(root, status) else root;
      var next := WithoutUpdated(middle);
      StatusIsApart(root, status);
      StatusIsApart(middle, status);
      UpdatedIsGone(middle);
      if StatusChanges(lib, root) {
        SecondTextIsQuiet(lib, StatusOf(root));
      }
      assert !StatusChanges(lib, next);
      UpdatedIsGone(next);
    }
  }

  /** Nothing in the document changes but the status text of its data, and among the annotations the time of the last
      update; with the last annotation the map of them goes. A document whose data is no map is left alone. */
  lemma OnlyTheseChange(lib: Library, root: map<string, Value>, k: string, l: string, m: string)
    ensures var after := Normalized(lib, root);
            && after.Keys == root.Keys && (k in root && k != "data" && k != "metadata" ==> after[k] == root[k])
            && ("data" in root && root["data"].Obj? ==>
                  after["data"].Obj? && after["data"].fields.Keys == root["data"].fields.Keys &&
                  (l in root["data"].fields && l != "status" ==>
                    after["data"].fields[l] == root["data"].fields[l]))
            && ("data" !in root || !root["data"].Obj? ==> after == root)
    ensures var after := Normalized(lib, root);
            "data" in root && root["data"].Obj? && "metadata" in root && root["metadata"].Obj? ==>
              && after["metadata"].Obj?
              && (m in root["metadata"].fields && m != "annotations" ==>
                    m in after["metadata"].fields && after["metadata"].fields[m] == root["metadata"].fields[m])
              && (m in after["metadata"].fields ==> m in root["metadata"].fields)
  {
    DataIsNoMetadata();
    if StatusChanges(lib, root) {
      var data := Member(root, "data");
      assert "status" in data;
    }
  }

  lemma DataIsNoMetadata()
    ensures "data" != "metadata"
  {
    assert |"data"| != |"metadata"|;
  }

  /** The annotations afterwards: those there were without the time of the last update, and no empty map is left behind
      where there was one more. */
  lemma AnnotationsExactly(lib: Library, root: map<string, Value>)
    requires "data" in root && root["data"].Obj?
    ensures AnnotationsOf(Normalized(lib, root)) ==
            AnnotationsOf(root) - {"cluster-autoscaler.kubernetes.io/last-updated"}
    ensures AnnotationsOf(root).Keys == {"cluster-autoscaler.kubernetes.io/last-updated"} ==>
            "annotations" !in Member(Normalized(lib, root), "metadata")
  {
    var middle := if StatusChanges(lib, root) then WithStatus(root, NormalizeStatus(lib, StatusOf(root)).0) else root;
    StatusIsApart(root, NormalizeStatus(lib, StatusOf(root)).0);
    assert AnnotationsOf(middle) == AnnotationsOf(root);
    AnnotationsWithout(middle);
  }

  lemma AnnotationsWithout(root: map<string, Value>)
    ensures AnnotationsOf(WithoutUpdated(root)) == AnnotationsOf(root) - {UPDATED}
    ensures AnnotationsOf(root).Keys == {UPDATED} ==> "annotations" !in Member(WithoutUpdated(root), "metadata")
  {
    if UPDATED in AnnotationsOf(root) {
      var rest := AnnotationsOf(root) - {UPDATED};
      assert AnnotationsOf(root).Keys == {UPDATED} ==> rest == map[];
    }
  }

  /** The status text afterwards is what the rewrite prints for it without the newlines at its end, if the text reads as
      a document that can be printed; else it stays. */
  lemma StatusExactly(lib: Library, root: map<string, Value>)
    requires "data" in root && root["data"].Obj? && "status" in root["data"].fields
    requires root["data"].fields["status"].Str? && root["data"].fields["status"].text != ""
    ensures var (before, after) := (root["data"].fields["status"].text, Member(Normalized(lib, root), "data"));
            && "status" in after && after["status"].Str?
            && (if lib.parse(before).Some? && lib.render(Normalize(lib.parse(before).value)).Some?
                then var printed := TrimNewlines(lib.render(Normalize(lib.parse(before).value)).value);
                     after["status"].text == printed || (after["status"].text == before &&
                        printed == TrimNewlines(before) && !Changed(lib.parse(before).value))
                else after["status"].text == before)
  {
    DataIsNoMetadata();
    var status := NormalizeStatus(lib, StatusOf(root)).0;
    StatusIsApart(root, status);
    var middle := if StatusChanges(lib, root) then WithStatus(root, status) else root;
    StatusIsApart(middle, status);
    assert Member(Normalized(lib, root), "data") == Member(middle, "data");
  }

  /* ---------- the filter ---------- */

  datatype Decision = Decision(modified: bool, reason: string, changed: nat)

  method RemoveLastUpdated(root: map<string, Value>) returns (out: map<string, Value>, removed: nat)
    ensures out == WithoutUpdated(root) && removed == if UPDATED in AnnotationsOf(root) then 1 else 0
  {
    if "metadata" !in root || !root["metadata"].Obj? {
      return root, 0;
    }
    var metadata := root["metadata"].fields;
    if "annotations" !in metadata || !metadata["annotations"].Obj? {
      return root, 0;
    }
    var annotations := metadata["annotations"].fields;
    if UPDATED !in annotations {
      return root, 0;
    }
    annotations := annotations - {UPDATED};
    metadata := if |annotations| == 0 then metadata - {"annotations"} else metadata["annotations" := Obj(annotations)];
    assert |annotations| == 0 <==> annotations == map[];
    return root["metadata" := Obj(metadata)], 1;
  }

  /** Under any library a document that is reported as kept is kept; under one that is faithful at its status text a
      document that is reported as modified is modified. */
  method Apply(lib: Library, root: Option<map<string, Value>>)
    returns (out: Option<map<string, Value>>, decision: Decision)
    ensures out == if root.Some? then Some(Normalized(lib, root.value)) else None
    ensures !decision.modified ==> out == root
    ensures root.Some? && FaithfulAt(lib, StatusOf(root.value)) ==> (decision.modified <==> out != root)
  {
    if root.None? {
      return root, Decision(false, "no_object", 0);
    }
    var document := root.value;
    if "data" !in document || !document["data"].Obj? {
      return root, Decision(false, "data_absent", 0);
    }
    var data := document["data"].fields;
    var status := if "status" in data && data["status"].Str? then data["status"].text else "";
    var changed, next := 0, document;
    if status != "" {
      var (normalized, reported) := NormalizeStatus(lib, status);
      if reported {
        next := document["data" := Obj(data["status" := Str(normalized)])];
        changed := 1;
      }
    }
    StatusIsApart(document, NormalizeStatus(lib, status).0);
    var removed;
    next, removed := RemoveLastUpdated(next);
    changed := changed + removed;
    if FaithfulAt(lib, StatusOf(document)) {
      UnchangedExactly(lib, document);
    }
    if changed == 0 {
      return root, Decision(false, "autoscaler_status_already_normalized", 0);
    }
    out, decision := Some(next), Decision(true, "cluster_autoscaler_status_normalized", changed);
  }
}
