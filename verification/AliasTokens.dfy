/** Cutting cluster aliases into tokens, and matching one list of tokens inside another. */
module AliasTokens {

  datatype Class = NoClass | Letter | Digit

  /** The character tables of the source's library: everything here holds for any of them. */
  datatype Alphabet = Alphabet(classOf: char -> Class, toLower: char -> char)

  function Lower(a: Alphabet, s: string): string {
    seq(|s|, i requires 0 <= i < |s| => a.toLower(s[i]))
  }

  /* ---------- the tokens ---------- */

  /** The end of the run of one class that goes on at `i`. */
  function RunEnd(a: Alphabet, s: string, c: Class, i: nat): (end: nat)
    requires i <= |s|
    ensures i <= end <= |s|
    ensures forall k :: i <= k < end ==> a.classOf(s[k]) == c
    ensures end < |s| ==> a.classOf(s[end]) != c
    decreases |s| - i
  {
    if i < |s| && a.classOf(s[i]) == c then RunEnd(a, s, c, i + 1) else i
  }

  datatype Span = Span(start: nat, end: nat)

  /** The runs of letters and the runs of digits, from `i` on. */
  function Spans(a: Alphabet, s: string, i: nat): seq<Span>
    requires i <= |s|
    decreases |s| - i
  {
    if i == |s| then []
    else if a.classOf(s[i]) == NoClass then Spans(a, s, i + 1)
    else
      var end := RunEnd(a, s, a.classOf(s[i]), i + 1);
      [Span(i, end)] + Spans(a, s, end)
  }

  function TokenAt(a: Alphabet, s: string, span: Span): string
    requires span.start <= span.end <= |s|
  {
    Lower(a, Lower(a, s[span.start..span.end]))
  }

  function TokensFrom(a: Alphabet, s: string, i: nat): seq<string>
    requires i <= |s|
    decreases |s| - i
  {
    if i == |s| then []
    else if a.classOf(s[i]) == NoClass then TokensFrom(a, s, i + 1)
    else
      var end := RunEnd(a, s, a.classOf(s[i]), i + 1);
      [TokenAt(a, s, Span(i, end))] + TokensFrom(a, s, end)
  }

  function Tokens(a: Alphabet, s: string): seq<string> {
    TokensFrom(a, s, 0)
  }

  lemma RunEndIs(a: Alphabet, s: string, c: Class, i: nat, end: nat)
    requires i <= end <= |s| && (forall k :: i <= k < end ==> a.classOf(s[k]) == c)
    requires end < |s| ==> a.classOf(s[end]) != c
    ensures RunEnd(a, s, c, i) == end
  {
  }

  /** The state of the scan before character `i`: what is still in the builder began at `start`. */
  ghost predicate Scanned(a: Alphabet, s: string, i: nat, start: nat, b: string, last: Class, tokens: seq<string>) {
    && start <= i <= |s| && b == Lower(a, s[start..i])
    && (b != "" ==> last != NoClass && forall k :: start <= k < i ==> a.classOf(s[k]) == last)
    && tokens + TokensFrom(a, s, start) == Tokens(a, s)
  }

  lemma Flush(a: Alphabet, s: string, i: nat, start: nat, b: string, last: Class, tokens: seq<string>)
    requires Scanned(a, s, i, start, b, last, tokens) && b != "" && (i < |s| ==> a.classOf(s[i]) != last)
    ensures Scanned(a, s, i, i, "", last, tokens + [Lower(a, b)])
  {
    RunEndIs(a, s, last, start + 1, i);
    assert TokensFrom(a, s, start) == [Lower(a, b)] + TokensFrom(a, s, i);
  }

  lemma Skip(a: Alphabet, s: string, i: nat, start: nat, last: Class, tokens: seq<string>)
    requires Scanned(a, s, i, start, "", last, tokens) && i < |s| && a.classOf(s[i]) == NoClass
    ensures Scanned(a, s, i + 1, i + 1, "", NoClass, tokens)
  {
    assert start == i;
  }

  lemma Grow(a: Alphabet, s: string, i: nat, start: nat, b: string, last: Class, tokens: seq<string>)
    requires Scanned(a, s, i, start, b, last, tokens) && i < |s| && a.classOf(s[i]) != NoClass
    requires b == "" || a.classOf(s[i]) == last
    ensures Scanned(a, s, i + 1, start, b + [a.toLower(s[i])], a.classOf(s[i]), tokens)
  {
  }

  /** The scan: `b` collects lower-cased characters of one class and is flushed where the class changes. */
  method ClusterAliasTokens(a: Alphabet, value: string) returns (tokens: seq<string>)
    ensures tokens == Tokens(a, value)
  {
    tokens := [];
    var b, last := "", NoClass;
    ghost var start := 0;
    for i := 0 to |value|
      invariant Scanned(a, value, i, start, b, last, tokens)
    {
      var kind := a.classOf(value[i]);
      if kind == NoClass {
        if b != "" {
          Flush(a, value, i, start, b, last, tokens);
          tokens, b, start := tokens + [Lower(a, b)], "", i;
        }
        Skip(a, value, i, start, last, tokens);
        last, start := NoClass, i + 1;
        continue;
      }
      if b != "" && last != NoClass && kind != last {
        Flush(a, value, i, start, b, last, tokens);
        tokens, b, start := tokens + [Lower(a, b)], "", i;
      }
      Grow(a, value, i, start, b, last, tokens);
      b, last := b + [a.toLower(value[i])], kind;
    }
    if b != "" {
      Flush(a, value, |value|, start, b, last, tokens);
      tokens := tokens + [Lower(a, b)];
    }
  }

  /* ---------- what the tokens are ---------- */

  /** A stretch of letters or a stretch of digits that cannot be made longer. */
  predicate MaximalRun(a: Alphabet, s: string, span: Span) {
    && span.start < span.end <= |s|
    && a.classOf(s[span.start]) != NoClass
    && (forall k :: span.start <= k < span.end ==> a.classOf(s[k]) == a.classOf(s[span.start]))
    && (span.start > 0 ==> a.classOf(s[span.start - 1]) != a.classOf(s[span.start]))
    && (span.end < |s| ==> a.classOf(s[span.end]) != a.classOf(s[span.start]))
  }

  /** The spans are exactly the maximal runs from `i` on, if no run goes on across `i`. */
  lemma {:induction false} SpansAreTheMaximalRuns(a: Alphabet, s: string, i: nat, span: Span)
    requires i <= |s| && (0 < i < |s| ==> a.classOf(s[i - 1]) == NoClass || a.classOf(s[i - 1]) != a.classOf(s[i]))
    ensures span in Spans(a, s, i) <==> span.start >= i && MaximalRun(a, s, span)
    decreases |s| - i
  {
    if i == |s| {
    } else if a.classOf(s[i]) == NoClass {
      SpansAreTheMaximalRuns(a, s, i + 1, span);
    } else {
      var end := RunEnd(a, s, a.classOf(s[i]), i + 1);
      SpansAreTheMaximalRuns(a, s, end, span);
      assert MaximalRun(a, s, Span(i, end));
      if span.start >= i && MaximalRun(a, s, span) {
        RunsMeet(a, s, i, end, span);
      }
    }
  }

  /** From left to right, without overlap. */
  lemma {:induction false} SpansInOrder(a: Alphabet, s: string, i: nat)
    requires i <= |s|
    ensures forall k :: 0 <= k < |Spans(a, s, i)| ==> i <= Spans(a, s, i)[k].start < Spans(a, s, i)[k].end
    ensures forall j, k :: 0 <= j < k < |Spans(a, s, i)| ==> Spans(a, s, i)[j].end <= Spans(a, s, i)[k].start
    decreases |s| - i
  {
    if i == |s| {
    } else if a.classOf(s[i]) == NoClass {
      SpansInOrder(a, s, i + 1);
    } else {
      SpansInOrder(a, s, RunEnd(a, s, a.classOf(s[i]), i + 1));
    }
  }

  lemma RunsMeet(a: Alphabet, s: string, i: nat, end: nat, span: Span)
    requires MaximalRun(a, s, Span(i, end)) && MaximalRun(a, s, span) && i <= span.start
    ensures span == Span(i, end) || span.start >= end
  {
  }

  /** Token by token, the tokens are the lower-cased texts of the maximal runs. */
  lemma {:induction false} TokensAreTheRuns(a: Alphabet, s: string, i: nat)
    requires i <= |s|
    ensures |TokensFrom(a, s, i)| == |Spans(a, s, i)|
    ensures forall k :: 0 <= k < |Spans(a, s, i)| ==>
      var span := Spans(a, s, i)[k];
      span.start <= span.end <= |s| && TokensFrom(a, s, i)[k] == TokenAt(a, s, span)
    decreases |s| - i
  {
    if i == |s| {
    } else if a.classOf(s[i]) == NoClass {
      TokensAreTheRuns(a, s, i + 1);
    } else {
      TokensAreTheRuns(a, s, RunEnd(a, s, a.classOf(s[i]), i + 1));
    }
  }

  function Join(tokens: seq<string>): string {
    if tokens == [] then "" else tokens[0] + Join(tokens[1..])
  }

  /** The letters and digits of a text, lower-cased as the tokens are, in order. */
  function Compact(a: Alphabet, s: string): string {
    if s == "" then ""
    else (if a.classOf(s[0]) == NoClass then "" else [a.toLower(a.toLower(s[0]))]) + Compact(a, s[1..])
  }

  lemma LowerFirst(a: Alphabet, s: string, i: nat, end: nat)
    requires i < end <= |s|
    ensures Lower(a, Lower(a, s[i..end])) == [a.toLower(a.toLower(s[i]))] + Lower(a, Lower(a, s[i + 1..end]))
  {
    assert Lower(a, s[i..end]) == [a.toLower(s[i])] + Lower(a, s[i + 1..end]);
  }

  lemma {:induction false} CompactRun(a: Alphabet, s: string, i: nat, end: nat)
    requires i <= end <= |s| && forall k :: i <= k < end ==> a.classOf(s[k]) != NoClass
    ensures Compact(a, s[i..]) == Lower(a, Lower(a, s[i..end])) + Compact(a, s[end..])
    decreases end - i
  {
    if i < end {
      CompactRun(a, s, i + 1, end);
      LowerFirst(a, s, i, end);
      assert s[i..][1..] == s[i + 1..];
    } else {
      assert Lower(a, Lower(a, s[i..end])) == "";
    }
  }

  /** Joining the tokens gives the letters and digits of the text, lower-cased, nothing lost and nothing moved. */
  lemma {:induction false} JoinIsCompact(a: Alphabet, s: string, i: nat)
    requires i <= |s|
    ensures Join(TokensFrom(a, s, i)) == Compact(a, s[i..])
    decreases |s| - i
  {
    if i == |s| {
    } else if a.classOf(s[i]) == NoClass {
      JoinIsCompact(a, s, i + 1);
      assert s[i..][1..] == s[i + 1..];
    } else {
      var end := RunEnd(a, s, a.classOf(s[i]), i + 1);
      JoinIsCompact(a, s, end);
      CompactRun(a, s, i, end);
    }
  }

  /* ---------- one list of tokens inside another ---------- */

  /** Where the needles stand in the haystack, from left to right. */
  predicate Embedding(needles: seq<string>, haystack: seq<string>, at: seq<nat>) {
    && |at| == |needles|
    && (forall i :: 0 <= i < |at| ==> at[i] < |haystack| && haystack[at[i]] == needles[i])
    && (forall i, j :: 0 <= i < j < |at| ==> at[i] < at[j])
  }

  ghost predicate Subsequence(needles: seq<string>, haystack: seq<string>) {
    exists at :: Embedding(needles, haystack, at)
  }

  /** How many needles the greedy scan has found after the first `n` tokens. */
  function Greedy(needles: seq<string>, haystack: seq<string>, n: nat): (next: nat)
    requires n <= |haystack|
    ensures next <= |needles|
  {
    if n == 0 then 0
    else
      var next := Greedy(needles, haystack, n - 1);
      if next < |needles| && haystack[n - 1] == needles[next] then next + 1 else next
  }

  /** What the scan has found is embedded in what it has read. */
  lemma {:induction false} GreedyEmbeds(needles: seq<string>, haystack: seq<string>, n: nat) returns (at: seq<nat>)
    requires n <= |haystack|
    ensures Embedding(needles[..Greedy(needles, haystack, n)], haystack[..n], at)
  {
    at := [];
    if n > 0 {
      at := GreedyEmbeds(needles, haystack, n - 1);
      var before := Greedy(needles, haystack, n - 1);
      assert forall i :: 0 <= i < |at| ==>
          haystack[..n - 1][at[i]] == haystack[..n][at[i]] && needles[..before][i] == needles[i];
      if Greedy(needles, haystack, n) > before {
        at := at + [n - 1];
      }
    }
  }

  /** No embedding is ahead of the greedy scan. */
  lemma {:induction false} GreedyIsAhead(needles: seq<string>, haystack: seq<string>, at: seq<nat>, i: nat, n: nat)
    requires Embedding(needles, haystack, at) && i < |at| && at[i] < n <= |haystack|
    ensures Greedy(needles, haystack, n) > i
    decreases n
  {
    if at[i] < n - 1 {
      GreedyIsAhead(needles, haystack, at, i, n - 1);
    } else if i > 0 {
      assert at[i - 1] < at[i];
      GreedyIsAhead(needles, haystack, at, i - 1, n - 1);
    }
  }

  lemma GreedyIsExact(needles: seq<string>, haystack: seq<string>)
    ensures Subsequence(needles, haystack) <==> Greedy(needles, haystack, |haystack|) == |needles|
  {
    if Subsequence(needles, haystack) {
      var at :| Embedding(needles, haystack, at);
      if needles != [] {
        GreedyIsAhead(needles, haystack, at, |needles| - 1, |haystack|);
      }
    }
    if Greedy(needles, haystack, |haystack|) == |needles| {
      var at := GreedyEmbeds(needles, haystack, |haystack|);
      assert needles[..|needles|] == needles && haystack[..|haystack|] == haystack;
    }
  }

  lemma {:induction false} GreedyStays(needles: seq<string>, haystack: seq<string>, n: nat, m: nat)
    requires n <= m <= |haystack|
    ensures Greedy(needles, haystack, n) <= Greedy(needles, haystack, m)
    decreases m
  {
    if n < m {
      GreedyStays(needles, haystack, n, m - 1);
    }
  }

  /** One pass over the haystack decides it: each needle is taken at its first chance. */
  method TokenSubsequence(needles: seq<string>, haystack: seq<string>) returns (found: bool)
    ensures found <==> needles != [] && Subsequence(needles, haystack)
  {
    if needles == [] {
      return false;
    }
    GreedyIsExact(needles, haystack);
    var next := 0;
    for i := 0 to |haystack|
      invariant next == Greedy(needles, haystack, i) < |needles|
    {
      if haystack[i] == needles[next] {
        next := next + 1;
        if next == |needles| {
          GreedyStays(needles, haystack, i + 1, |haystack|);
          return true;
        }
      }
    }
    found := false;
  }
}
