/** White space, and trimming it. */
module Text {

  predicate IsSpace(c: char) {
    c == ' ' || '\t' <= c <= '\r' || c == '\U{0085}' || c == '\U{00A0}' || c == '\U{1680}' ||
        '\U{2000}' <= c <= '\U{200A}'
    || c == '\U{2028}' || c == '\U{2029}' || c == '\U{202F}' || c == '\U{205F}' || c == '\U{3000}'
  }

  function TrimRight(s: string): string {
    if s != "" && IsSpace(s[|s| - 1]) then TrimRight(s[..|s| - 1]) else s
  }

  function TrimLeft(s: string): string {
    if s != "" && IsSpace(s[0]) then TrimLeft(s[1..]) else s
  }

  function TrimSpace(s: string): string {
    TrimRight(TrimLeft(s))
  }

  /** The stretches without white space. */
  function Fields(s: string): (fields: seq<string>)
    decreases |s|
  {
    if s == "" then []
    else if IsSpace(s[0]) then Fields(s[1..])
    else
      var n := WordEnd(s, 1);
      [s[..n]] + Fields(s[n..])
  }

  function WordEnd(s: string, i: nat): (end: nat)
    requires i <= |s|
    ensures i <= end <= |s|
    decreases |s| - i
  {
    if i < |s| && !IsSpace(s[i]) then WordEnd(s, i + 1) else i
  }

  /* ---------- what trimming and the stretches are ---------- */

  /** White space on both sides is gone, and nothing else. */
  lemma TrimExactly(s: string) returns (i: nat, j: nat)
    ensures i <= j <= |s| && TrimSpace(s) == s[i..j]
    ensures (forall k :: 0 <= k < i || j <= k < |s| ==> IsSpace(s[k]))
    ensures i < j ==> !IsSpace(s[i]) && !IsSpace(s[j - 1])
  {
    i := TrimLeftExactly(s);
    var n := TrimRightExactly(s[i..]);
    j := i + n;
    assert forall k :: j <= k < |s| ==> s[k] == s[i..][k - i];
    assert s[i..][..n] == s[i..j];
  }

  lemma {:induction false} TrimLeftExactly(s: string) returns (i: nat)
    ensures i <= |s| && TrimLeft(s) == s[i..] && (forall k :: 0 <= k < i ==> IsSpace(s[k]))
    ensures i < |s| ==> !IsSpace(s[i])
  {
    i := 0;
    if s != "" && IsSpace(s[0]) {
      i := TrimLeftExactly(s[1..]);
      assert forall k :: 0 < k < |s| ==> s[k] == s[1..][k - 1];
      i := i + 1;
    }
  }

  lemma {:induction false} TrimRightExactly(s: string) returns (j: nat)
    ensures j <= |s| && TrimRight(s) == s[..j] && (forall k :: j <= k < |s| ==> IsSpace(s[k]))
    ensures j > 0 ==> !IsSpace(s[j - 1])
  {
    j := |s|;
    if s != "" && IsSpace(s[|s| - 1]) {
      j := TrimRightExactly(s[..|s| - 1]);
    }
  }

  /** What has no white space at its ends is left alone. */
  lemma TrimmedIsFixed(s: string)
    requires s != "" ==> !IsSpace(s[0]) && !IsSpace(s[|s| - 1])
    ensures TrimSpace(s) == s
  {
  }

  lemma TrimTwice(s: string)
    ensures TrimSpace(TrimSpace(s)) == TrimSpace(s)
  {
    var i, j := TrimExactly(s);
    TrimmedIsFixed(s[i..j]);
  }

  /** A stretch without white space that cannot be made longer. */
  predicate Stretch(s: string, i: nat, j: nat) {
    && i < j <= |s| && (forall k :: i <= k < j ==> !IsSpace(s[k]))
    && (i > 0 ==> IsSpace(s[i - 1])) && (j < |s| ==> IsSpace(s[j]))
  }

  lemma WordEndIs(s: string, i: nat)
    requires i <= |s|
    ensures var end := WordEnd(s, i);
            (forall k :: i <= k < end ==> !IsSpace(s[k])) && (end < |s| ==> IsSpace(s[end]))
    decreases |s| - i
  {
  }

  /** A text can be cut at `d` without cutting a stretch. */
  predicate Break(s: string, d: nat) {
    0 < d <= |s| && (IsSpace(s[d - 1]) || d == |s| || IsSpace(s[d]))
  }

  /** Behind white space, or at white space, the stretches of the rest are those of the text. */
  lemma StretchShifts(s: string, d: nat, i: nat, j: nat)
    requires Break(s, d)
    ensures Stretch(s[d..], i, j) <==> Stretch(s, i + d, j + d)
  {
    assert forall k :: 0 <= k < |s| - d ==> s[d..][k] == s[k + d];
    if Stretch(s[d..], i, j) {
      forall k | i + d <= k < j + d ensures !IsSpace(s[k]) {
        assert s[k] == s[d..][k - d];
      }
    }
  }

  /** Up to the first break there is one stretch if the text begins with one, and none if it begins with white space. */
  lemma FirstStretch(s: string, d: nat)
    requires s != "" && d == if IsSpace(s[0]) then 1 else WordEnd(s, 1)
    ensures !IsSpace(s[0]) ==> Stretch(s, 0, d)
    ensures forall i: nat, j: nat :: Stretch(s, i, j) && i < d ==> !IsSpace(s[0]) && i == 0 && j == d
  {
    WordEndIs(s, 1);
  }

  ghost predicate HasStretch(s: string, w: string) {
    exists i: nat, j: nat :: Stretch(s, i, j) && s[i..j] == w
  }

  lemma StretchOfRest(s: string, d: nat, i: nat, j: nat)
    requires Break(s, d) && Stretch(s[d..], i, j)
    ensures HasStretch(s, s[d..][i..j])
  {
    StretchShifts(s, d, i, j);
    assert s[d..][i..j] == s[i + d..j + d];
  }

  lemma StretchInRest(s: string, d: nat, i: nat, j: nat)
    requires Break(s, d) && Stretch(s, i, j) && d <= i
    ensures HasStretch(s[d..], s[i..j])
  {
    StretchShifts(s, d, i - d, j - d);
    assert s[d..][i - d..j - d] == s[i..j];
  }

  lemma FirstBreak(s: string, d: nat)
    requires s != "" && d == if IsSpace(s[0]) then 1 else WordEnd(s, 1)
    ensures Break(s, d)
  {
    WordEndIs(s, 1);
  }

  /** The fields are exactly these stretches. */
  lemma {:induction false} FieldsAreStretches(s: string, w: string)
    ensures w in Fields(s) <==> HasStretch(s, w)
    decreases |s|
  {
    if s != "" {
      var d := if IsSpace(s[0]) then 1 else WordEnd(s, 1);
      FieldsAreStretches(s[d..], w);
      FirstBreak(s, d);
      FirstStretch(s, d);
      if HasStretch(s[d..], w) {
        var i: nat, j: nat :| Stretch(s[d..], i, j) && s[d..][i..j] == w;
        StretchOfRest(s, d, i, j);
      }
      if HasStretch(s, w) {
        var i: nat, j: nat :| Stretch(s, i, j) && s[i..j] == w;
        if d <= i {
          StretchInRest(s, d, i, j);
        }
      }
    }
  }

  /** The first field is the first stretch. */
  lemma {:induction false} FirstField(s: string) returns (i: nat, j: nat)
    requires Fields(s) != []
    ensures Stretch(s, i, j) && s[i..j] == Fields(s)[0] && forall k :: 0 <= k < i ==> IsSpace(s[k])
    decreases |s|
  {
    if IsSpace(s[0]) {
      i, j := FirstField(s[1..]);
      StretchShifts(s, 1, i, j);
      assert s[1..][i..j] == s[i + 1..j + 1];
      assert forall k :: 0 < k < |s| ==> s[k] == s[1..][k - 1];
      i, j := i + 1, j + 1;
    } else {
      i, j := 0, WordEnd(s, 1);
      FirstStretch(s, j);
    }
  }
}
