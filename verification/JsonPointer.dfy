/** JSON Pointers as text: how they are parsed, and that parsing inverts the encoding of RFC 6901. */
module JsonPointer {
  import opened Text

  /* ---------- the source's string helpers ---------- */

  /** Every occurrence of the two characters `a`, `b`, from the left and without overlap, becomes `c`. */
  function Replace(s: string, a: char, b: char, c: char): string {
    if |s| < 2 then s
    else if s[0] == a && s[1] == b then [c] + Replace(s[2..], a, b, c)
    else [s[0]] + Replace(s[1..], a, b, c)
  }

  /** The pieces between the separators; always at least one. */
  function Split(s: string, sep: char): (parts: seq<string>)
    ensures parts != []
  {
    if s == "" then [""]
    else
      var rest := Split(s[1..], sep);
      if s[0] == sep then [""] + rest else [[s[0]] + rest[0]] + rest[1..]
  }

  /* ---------- parsing ---------- */

  function Unescape(part: string): string {
    Replace(Replace(part, '~', '1', '/'), '~', '0', '~')
  }

  function UnescapeAll(parts: seq<string>): seq<string> {
    seq(|parts|, i requires 0 <= i < |parts| => Unescape(parts[i]))
  }

  function Parse(path: string): seq<string> {
    var s := TrimSpace(path);
    if s == "" || s == "/" then [] else UnescapeAll(Split(if s[0] == '/' then s[1..] else s, '/'))
  }

  /** The slice of parts is rewritten in place, part by part. */
  method ParsePointer(path: string) returns (parts: seq<string>)
    ensures parts == Parse(path)
  {
    var s := TrimSpace(path);
    if s == "" || s == "/" {
      return [];
    }
    if s[0] == '/' {
      s := s[1..];
    }
    parts := Split(s, '/');
    ghost var pieces := parts;
    for i := 0 to |parts|
      invariant |parts| == |pieces|
      invariant forall j :: 0 <= j < |parts| ==> parts[j] == if j < i then Unescape(pieces[j]) else pieces[j]
    {
      var part := Replace(parts[i], '~', '1', '/');
      part := Replace(part, '~', '0', '~');
      parts := parts[i := part];
    }
    assert parts == UnescapeAll(pieces);
  }

  /* ---------- encoding, by section 3 of RFC 6901 ---------- */

  function EscapeChar(c: char): string {
    if c == '~' then "~0" else if c == '/' then "~1" else [c]
  }

  function Escape(token: string): string {
    if token == "" then "" else EscapeChar(token[0]) + Escape(token[1..])
  }

  function Encode(tokens: seq<string>): string {
    if tokens == [] then "" else "/" + Escape(tokens[0]) + Encode(tokens[1..])
  }

  /* ---------- decoding inverts escaping ---------- */

  /** A token with only its tildes escaped: what is left after the first of the two replacements. */
  function HalfEscape(token: string): string {
    if token == "" then ""
    else (if token[0] == '~' then "~0" else [token[0]]) + HalfEscape(token[1..])
  }

  lemma ReplaceKeepsFirst(c: char, s: string, a: char, b: char, d: char)
    requires c != a || s == "" || s[0] != b
    ensures Replace([c] + s, a, b, d) == [c] + Replace(s, a, b, d)
  {
    assert ([c] + s)[1..] == s;
  }

  lemma ReplaceFirst(s: string, a: char, b: char, d: char)
    ensures Replace([a, b] + s, a, b, d) == [d] + Replace(s, a, b, d)
  {
    assert ([a, b] + s)[2..] == s;
  }

  lemma {:induction false} SlashesComeBack(token: string)
    ensures Replace(Escape(token), '~', '1', '/') == HalfEscape(token)
  {
    if token != "" {
      var rest := Escape(token[1..]);
      SlashesComeBack(token[1..]);
      if token[0] == '~' {
        assert "~0" + rest == ['~'] + (['0'] + rest);
        ReplaceKeepsFirst('~', ['0'] + rest, '~', '1', '/');
        ReplaceKeepsFirst('0', rest, '~', '1', '/');
      } else if token[0] == '/' {
        ReplaceFirst(rest, '~', '1', '/');
      } else {
        ReplaceKeepsFirst(token[0], rest, '~', '1', '/');
      }
    }
  }

  lemma {:induction false} TildesComeBack(token: string)
    ensures Replace(HalfEscape(token), '~', '0', '~') == token
  {
    if token != "" {
      var rest := HalfEscape(token[1..]);
      TildesComeBack(token[1..]);
      assert token == [token[0]] + token[1..];
      if token[0] == '~' {
        ReplaceFirst(rest, '~', '0', '~');
      } else {
        ReplaceKeepsFirst(token[0], rest, '~', '0', '~');
      }
    }
  }

  lemma UnescapeInverts(token: string)
    ensures Unescape(Escape(token)) == token
  {
    SlashesComeBack(token);
    TildesComeBack(token);
  }

  /* ---------- why the order of the two replacements matters ---------- */

  function UnescapeTildesFirst(part: string): string {
    Replace(Replace(part, '~', '0', '~'), '~', '1', '/')
  }

  predicate Occurs(s: string, a: char, b: char) {
    |s| >= 2 && ((s[0] == a && s[1] == b) || Occurs(s[1..], a, b))
  }

  /** A token with only its slashes escaped. */
  function SlashEscape(token: string): string {
    if token == "" then ""
    else (if token[0] == '/' then "~1" else [token[0]]) + SlashEscape(token[1..])
  }

  lemma TildeFirst(c: char, rest: string)
    ensures Replace(EscapeChar(c) + rest, '~', '0', '~') == (if c == '/' then "~1" else [c]) +
        Replace(rest, '~', '0', '~')
  {
    if c == '~' {
      ReplaceFirst(rest, '~', '0', '~');
    } else if c == '/' {
      assert "~1" + rest == ['~'] + (['1'] + rest);
      ReplaceKeepsFirst('~', ['1'] + rest, '~', '0', '~');
      ReplaceKeepsFirst('1', rest, '~', '0', '~');
    } else {
      ReplaceKeepsFirst(c, rest, '~', '0', '~');
    }
  }

  lemma {:induction false} TildesFirst(token: string)
    ensures Replace(Escape(token), '~', '0', '~') == SlashEscape(token)
  {
    if token != "" {
      TildesFirst(token[1..]);
      TildeFirst(token[0], Escape(token[1..]));
    }
  }

  lemma {:induction false} SlashesLast(token: string)
    ensures Replace(SlashEscape(token), '~', '1', '/') == Replace(token, '~', '1', '/')
  {
    if token != "" {
      var rest := SlashEscape(token[1..]);
      assert token == [token[0]] + token[1..];
      SlashesLast(token[1..]);
      if token[0] == '/' {
        ReplaceFirst(rest, '~', '1', '/');
        ReplaceKeepsFirst('/', token[1..], '~', '1', '/');
      } else if |token| >= 2 && token[0] == '~' && token[1] == '1' {
        SlashesLast(token[2..]);
        assert token[1..][1..] == token[2..] && rest == ['1'] + SlashEscape(token[2..]);
        assert ['~'] + rest == ['~', '1'] + SlashEscape(token[2..]);
        ReplaceFirst(SlashEscape(token[2..]), '~', '1', '/');
      } else {
        ReplaceKeepsFirst(token[0], rest, '~', '1', '/');
        ReplaceKeepsFirst(token[0], token[1..], '~', '1', '/');
      }
    }
  }

  lemma {:induction false} ReplaceShortens(s: string, a: char, b: char, c: char)
    ensures |Replace(s, a, b, c)| <= |s|
    ensures Replace(s, a, b, c) == s <==> !Occurs(s, a, b)
  {
    if |s| >= 2 {
      if s[0] == a && s[1] == b {
        ReplaceShortens(s[2..], a, b, c);
      } else {
        ReplaceShortens(s[1..], a, b, c);
        assert s == [s[0]] + s[1..];
      }
    }
  }

  /** With "~0" replaced first, every "~1" of the token itself turns into a slash: the token comes back exactly if
      it has none. */
  lemma OtherOrderExactly(token: string)
    ensures UnescapeTildesFirst(Escape(token)) == Replace(token, '~', '1', '/')
    ensures UnescapeTildesFirst(Escape(token)) == token <==> !Occurs(token, '~', '1')
  {
    TildesFirst(token);
    SlashesLast(token);
    ReplaceShortens(token, '~', '1', '/');
  }

  /* ---------- splitting inverts joining ---------- */

  lemma {:induction false} EscapeHasNoSlash(token: string)
    ensures forall i :: 0 <= i < |Escape(token)| ==> Escape(token)[i] != '/'
  {
    if token != "" {
      EscapeHasNoSlash(token[1..]);
    }
  }

  lemma {:induction false} SplitPiece(piece: string, rest: string)
    requires forall i :: 0 <= i < |piece| ==> piece[i] != '/'
    ensures Split(piece + "/" + rest, '/') == [piece] + Split(rest, '/')
    ensures Split(piece, '/') == [piece]
  {
    if piece == "" {
      assert ("" + "/" + rest)[1..] == rest;
    } else {
      SplitPiece(piece[1..], rest);
      assert (piece + "/" + rest)[1..] == piece[1..] + "/" + rest;
      assert [piece[0]] + piece[1..] == piece;
    }
  }

  function EscapeAll(tokens: seq<string>): seq<string> {
    seq(|tokens|, i requires 0 <= i < |tokens| => Escape(tokens[i]))
  }

  lemma EncodeMore(tokens: seq<string>)
    requires |tokens| > 1
    ensures Encode(tokens[1..]) != "" && Encode(tokens)[1..] == Escape(tokens[0]) + "/" + Encode(tokens[1..])[1..]
  {
    var first, second, rest := Escape(tokens[0]), Escape(tokens[1..][0]), Encode(tokens[1..][1..]);
    assert Encode(tokens[1..]) == "/" + second + rest;
    Regroup(first, second, rest);
  }

  lemma Regroup(first: string, second: string, rest: string)
    ensures ("/" + second + rest)[1..] == second + rest
    ensures ("/" + first + ("/" + second + rest))[1..] == first + "/" + (second + rest)
  {
  }

  lemma {:induction false} SplitEncoded(tokens: seq<string>)
    requires tokens != []
    ensures Split(Encode(tokens)[1..], '/') == EscapeAll(tokens)
  {
    var first := Escape(tokens[0]);
    EscapeHasNoSlash(tokens[0]);
    if |tokens| == 1 {
      assert Encode(tokens)[1..] == first + Encode(tokens[1..]) == first;
      SplitPiece(first, "");
      assert EscapeAll(tokens) == [first];
    } else {
      var rest := Encode(tokens[1..])[1..];
      SplitEncoded(tokens[1..]);
      EncodeMore(tokens);
      SplitPiece(first, rest);
      EscapeAllStep(tokens);
    }
  }

  lemma EscapeAllStep(tokens: seq<string>)
    requires tokens != []
    ensures EscapeAll(tokens) == [Escape(tokens[0])] + EscapeAll(tokens[1..])
  {
  }

  /* ---------- the round trip ---------- */

  /** The tokens with trailing white space of the last one cut off: what trimming the text does to them. */
  function TrimLast(tokens: seq<string>): seq<string> {
    if tokens == [] then [] else tokens[|tokens| - 1 := TrimRight(tokens[|tokens| - 1])]
  }

  lemma {:induction false} EscapeAppend(token: string, c: char)
    ensures Escape(token + [c]) == Escape(token) + EscapeChar(c)
  {
    if token == "" {
      assert "" + [c] == [c];
    } else {
      EscapeAppend(token[1..], c);
      assert (token + [c])[1..] == token[1..] + [c] && (token + [c])[0] == token[0];
      Associative(EscapeChar(token[0]), Escape(token[1..]), EscapeChar(c));
    }
  }

  lemma Associative(x: string, y: string, z: string)
    ensures x + (y + z) == (x + y) + z
  {
  }

  lemma TrimRightStep(text: string, c: char)
    ensures TrimRight(text + [c]) == if IsSpace(c) then TrimRight(text) else text + [c]
  {
    assert (text + [c])[..|text + [c]| - 1] == text;
  }

  lemma TrimRightKeeps(text: string)
    requires text != "" && !IsSpace(text[|text| - 1])
    ensures TrimRight(text) == text
  {
  }

  lemma EscapeLast(before: string, init: string, c: char)
    ensures IsSpace(c) ==> before + Escape(init + [c]) == before + Escape(init) + [c]
    ensures !IsSpace(c) ==> var text := before + Escape(init + [c]); text != "" && !IsSpace(text[|text| - 1])
  {
    EscapeAppend(init, c);
    var tail := EscapeChar(c);
    var text := before + Escape(init) + tail;
    assert before + (Escape(init) + tail) == text;
    assert text[|text| - 1] == tail[|tail| - 1];
  }

  /** Trimming passes over text that ends in something solid. */
  lemma {:induction false} TrimAfter(before: string, token: string)
    requires before != "" && !IsSpace(before[|before| - 1])
    ensures TrimRight(before + Escape(token)) == before + Escape(TrimRight(token))
    decreases |token|
  {
    if token == "" {
      assert before + "" == before;
      TrimRightKeeps(before);
    } else {
      var init, c := token[..|token| - 1], token[|token| - 1];
      assert token == init + [c];
      EscapeLast(before, init, c);
      TrimRightStep(init, c);
      if IsSpace(c) {
        TrimRightStep(before + Escape(init), c);
        TrimAfter(before, init);
      } else {
        TrimRightKeeps(before + Escape(token));
      }
    }
  }

  lemma {:induction false} EncodeAppend(tokens: seq<string>, last: string)
    ensures Encode(tokens + [last]) == Encode(tokens) + "/" + Escape(last)
  {
    if tokens == [] {
      assert [] + [last] == [last] && [last][1..] == [];
      assert "/" + Escape(last) + "" == "" + "/" + Escape(last);
    } else {
      EncodeAppend(tokens[1..], last);
      assert (tokens + [last])[1..] == tokens[1..] + [last] && (tokens + [last])[0] == tokens[0];
      Associative("/" + Escape(tokens[0]), Encode(tokens[1..]), "/" + Escape(last));
      Associative(Encode(tokens), "/", Escape(last));
      Associative(Encode(tokens[1..]), "/", Escape(last));
    }
  }

  lemma TrimEncoded(tokens: seq<string>)
    ensures TrimSpace(Encode(tokens)) == Encode(TrimLast(tokens))
  {
    if tokens != [] {
      var init, last := tokens[..|tokens| - 1], tokens[|tokens| - 1];
      assert tokens == init + [last] && TrimLast(tokens) == init + [TrimRight(last)];
      EncodeAppend(init, last);
      EncodeAppend(init, TrimRight(last));
      TrimAfter(Encode(init) + "/", last);
    }
  }

  /** What parsing an encoded pointer gives, for every list of tokens: the tokens, but for white space at the end of
      the last one, and but for the single empty token, which reads as the pointer to the whole document. */
  lemma ParseEncoded(tokens: seq<string>)
    ensures Parse(Encode(tokens)) == if TrimLast(tokens) == [""] then [] else TrimLast(tokens)
  {
    var trimmed := TrimLast(tokens);
    TrimEncoded(tokens);
    if trimmed != [] {
      var text := Encode(trimmed);
      SplitEncoded(trimmed);
      assert text[0] == '/';
      assert text == "/" <==> trimmed == [""] by {
        EncodedRootOnly(trimmed);
      }
      forall i | 0 <= i < |trimmed| ensures Unescape(EscapeAll(trimmed)[i]) == trimmed[i] {
        UnescapeInverts(trimmed[i]);
      }
      assert UnescapeAll(EscapeAll(trimmed)) == trimmed;
    }
  }

  lemma EncodedRootOnly(tokens: seq<string>)
    requires tokens != []
    ensures Encode(tokens) == "/" <==> tokens == [""]
  {
    if |tokens| > 1 {
      assert |Encode(tokens[1..])| > 0;
    } else if tokens[0] != "" {
      assert |Escape(tokens[0])| > 0;
    } else {
      assert tokens == [""];
    }
  }

  /** The round trip holds exactly for the lists other than [""] whose last token does not end in white space. */
  lemma RoundTrip(tokens: seq<string>)
    ensures Parse(Encode(tokens)) == tokens <==>
            tokens == [] || (tokens != [""] &&
                (tokens[|tokens| - 1] == "" || !IsSpace(tokens[|tokens| - 1][|tokens[|tokens| - 1]| - 1])))
  {
    ParseEncoded(tokens);
    if tokens != [] {
      var last := tokens[|tokens| - 1];
      TrimShortens(last);
      assert TrimLast(tokens)[|tokens| - 1] == TrimRight(last);
      if TrimRight(last) == last {
        assert TrimLast(tokens) == tokens;
      }
    }
  }

  lemma {:induction false} TrimShortens(s: string)
    ensures |TrimRight(s)| <= |s|
    ensures TrimRight(s) == s <==> s == "" || !IsSpace(s[|s| - 1])
  {
    if s != "" && IsSpace(s[|s| - 1]) {
      TrimShortens(s[..|s| - 1]);
    }
  }
}
