/** Removing fields by JSON Pointer, with "*" for any member or element. */
module PathRemove {
  import opened Json
  import opened Wrappers

  /* ---------- one path ---------- */

  predicate AllDigits(s: string) {
    forall i :: 0 <= i < |s| ==> '0' <= s[i] <= '9'
  }

  function DigitsValue(s: string): nat
    requires AllDigits(s)
  {
    if s == [] then 0 else 10 * DigitsValue(s[..|s| - 1]) + (s[|s| - 1] as int - '0' as int)
  }

  /** Integers as the source's library reads them: an optional sign and decimal digits. */
  function Atoi(s: string): Option<int> {
    if s != [] && AllDigits(s) then Some(DigitsValue(s))
    else if |s| > 1 && (s[0] == '+' || s[0] == '-') && AllDigits(s[1..]) then
      var n: int := DigitsValue(s[1..]);
      Some(if s[0] == '-' then -n else n)
    else None
  }

  /** The decimal digits of a number, as they are written. */
  function Decimal(n: nat): (s: string)
    ensures s != "" && AllDigits(s)
  {
    if n < 10 then [('0' as int + n) as char] else Decimal(n / 10) + [('0' as int + n % 10) as char]
  }

  function Zeros(n: nat): (s: string)
    ensures |s| == n && AllDigits(s)
  {
    if n == 0 then "" else "0" + Zeros(n - 1)
  }

  lemma ValueOneMore(s: string, d: char)
    requires AllDigits(s) && '0' <= d <= '9'
    ensures AllDigits(s + [d]) && DigitsValue(s + [d]) == 10 * DigitsValue(s) + (d as int - '0' as int)
  {
    assert (s + [d])[..|s|] == s;
  }

  lemma {:induction false} ZerosAreZero(n: nat)
    ensures DigitsValue(Zeros(n)) == 0
  {
    if n > 0 {
      ZerosAreZero(n - 1);
      ZerosFromBehind(n - 1);
      ValueOneMore(Zeros(n - 1), '0');
    }
  }

  lemma {:induction false} ZerosFromBehind(n: nat)
    ensures Zeros(n + 1) == Zeros(n) + "0"
  {
    if n > 0 {
      ZerosFromBehind(n - 1);
    }
  }

  lemma {:induction false} ValueOfDecimal(zeros: nat, n: nat)
    ensures AllDigits(Zeros(zeros) + Decimal(n)) && DigitsValue(Zeros(zeros) + Decimal(n)) == n
  {
    var d := ('0' as int + n % 10) as char;
    if n < 10 {
      ZerosAreZero(zeros);
      ValueOneMore(Zeros(zeros), d);
    } else {
      ValueOfDecimal(zeros, n / 10);
      ValueOneMore(Zeros(zeros) + Decimal(n / 10), d);
      assert Zeros(zeros) + Decimal(n) == Zeros(zeros) + Decimal(n / 10) + [d];
    }
  }

  /** Digits are the written form of a number, behind some zeros. */
  lemma {:induction false} DigitsAreDecimal(s: string) returns (zeros: nat)
    requires s != "" && AllDigits(s)
    ensures s == Zeros(zeros) + Decimal(DigitsValue(s))
  {
    var init, d := s[..|s| - 1], s[|s| - 1];
    assert s == init + [d];
    if init == "" {
      zeros := 0;
      assert DigitsValue(init) == 0;
    } else {
      var v := DigitsValue(init);
      zeros := DigitsAreDecimal(init);
      if v == 0 {
        assert init == Zeros(zeros) + "0";
        ZerosFromBehind(zeros);
        zeros := zeros + 1;
      } else {
        assert DigitsValue(s) / 10 == v;
      }
    }
  }

  /** An optional sign, some zeros, and a number as it is written. */
  function Written(sign: string, zeros: nat, n: nat): string {
    sign + Zeros(zeros) + Decimal(n)
  }

  predicate IsSign(sign: string) {
    sign == "" || sign == "+" || sign == "-"
  }

  function Signed(sign: string, n: int): int {
    if sign == "-" then -n else n
  }

  lemma AtoiOfDigits(sign: string, digits: string)
    requires IsSign(sign) && digits != "" && AllDigits(digits)
    ensures Atoi(sign + digits) == Some(Signed(sign, DigitsValue(digits)))
  {
    var s := sign + digits;
    if sign == "" {
      assert s == digits;
    } else {
      assert s[0] == sign[0] && s[1..] == digits;
      assert !AllDigits(s);
    }
  }

  lemma AtoiReads(sign: string, zeros: nat, n: nat)
    requires IsSign(sign)
    ensures Atoi(Written(sign, zeros, n)) == Some(Signed(sign, n))
  {
    var digits := Zeros(zeros) + Decimal(n);
    assert Written(sign, zeros, n) == sign + digits;
    ValueOfDecimal(zeros, n);
    AtoiOfDigits(sign, digits);
  }

  lemma WrittenSomehow(s: string) returns (sign: string, zeros: nat, n: nat)
    requires Atoi(s).Some?
    ensures IsSign(sign) && s == Written(sign, zeros, n)
  {
    sign := if AllDigits(s) then "" else s[..1];
    var digits := s[|sign|..];
    zeros := DigitsAreDecimal(digits);
    n := DigitsValue(digits);
    assert s == sign + digits && digits == Zeros(zeros) + Decimal(n);
    assert sign + (Zeros(zeros) + Decimal(n)) == sign + Zeros(zeros) + Decimal(n);
  }

  /** What the source's library reads as an integer, exactly. */
  lemma AtoiExactly(s: string, v: int)
    ensures Atoi(s) == Some(v) <==>
            exists sign: string, zeros: nat, n: nat ::
              IsSign(sign) && s == Written(sign, zeros, n) && v == Signed(sign, n)
  {
    if Atoi(s) == Some(v) {
      var sign, zeros, n := WrittenSomehow(s);
      AtoiReads(sign, zeros, n);
    }
    forall sign: string, zeros: nat, n: nat | IsSign(sign) && s == Written(sign, zeros, n)
      ensures Atoi(s) == Some(Signed(sign, n))
    {
      AtoiReads(sign, zeros, n);
    }
  }

  predicate Picks(part: string, s: Step) {
    part == "*" || match s case Key(k) => k == part case Idx(i) => Atoi(part) == Some(i)
  }

  /** Which steps a part of a path takes: "*" takes every step, a name that member, and a text that reads as a number
      that element. */
  lemma PicksExactly(part: string, k: string, i: nat)
    ensures Picks(part, Key(k)) <==> part == "*" || part == k
    ensures Picks(part, Idx(i)) <==>
            (part == "*" || exists sign: string, zeros: nat ::
               IsSign(sign) && (sign == "-" ==> i == 0) && part == Written(sign, zeros, i))
  {
    AtoiExactly(part, i);
    if part != "*" && Picks(part, Idx(i)) {
      var sign: string, zeros: nat, n: nat :| IsSign(sign) && part == Written(sign, zeros, n) && i == Signed(sign, n);
      assert n == i && (sign == "-" ==> i == 0);
    }
    forall sign: string, zeros: nat | IsSign(sign) && (sign == "-" ==> i == 0) && part == Written(sign, zeros, i)
      ensures Atoi(part) == Some(i)
    {
      assert i == Signed(sign, i);
      AtoiReads(sign, zeros, i);
    }
  }

  /** What is left after one path. The last part names a member literally and removes it; the parts before it
      lead down through members and elements. */
  function Removed(v: Value, parts: seq<string>): Value
    decreases v
  {
    if parts == [] then v
    else match v
      case Obj(m) =>
        if |parts| == 1 then Obj(m - {parts[0]})
        else Obj(map k | k in m :: if Picks(parts[0], Key(k)) then Removed(m[k], parts[1..]) else m[k])
      case Arr(items) =>
        Arr(seq(|items|, i requires 0 <= i < |items| => if Picks(parts[0], Idx(i)) then Removed(items[i], parts[1..])
            else items[i]))
      case _ => v
  }

  /** The concrete paths a parsed path removes, whatever the document. */
  predicate Hits(parts: seq<string>, p: Path) {
    && |parts| == |p| > 0
    && (forall n :: 0 <= n < |p| - 1 ==> Picks(parts[n], p[n]))
    && p[|p| - 1] == Key(parts[|p| - 1])
  }

  /** Some node on the way to `p`, or `p` itself, is removed. */
  predicate Cuts(parts: seq<string>, p: Path) {
    exists n :: 0 < n <= |p| && Hits(parts, p[..n])
  }

  lemma CutsBelow(parts: seq<string>, p: Path)
    requires parts != [] && p != []
    ensures Cuts(parts, p) <==>
            if |parts| == 1 then p[0] == Key(parts[0]) else Picks(parts[0], p[0]) && Cuts(parts[1..], p[1..])
  {
    if |parts| == 1 {
      assert Hits(parts, p[..1]) <==> p[0] == Key(parts[0]);
    } else {
      forall n | 0 < n <= |p| ensures Hits(parts, p[..n]) <==>
          n > 1 && Picks(parts[0], p[0]) && Hits(parts[1..], p[1..][..n - 1]) {
        if n > 1 {
          HitsBelow(parts, p[..n]);
          assert p[..n][1..] == p[1..][..n - 1];
        }
      }
      if Cuts(parts[1..], p[1..]) && Picks(parts[0], p[0]) {
        var n :| 0 < n <= |p[1..]| && Hits(parts[1..], p[1..][..n]);
        assert Hits(parts, p[..n + 1]);
      }
    }
  }

  lemma HitsBelow(parts: seq<string>, p: Path)
    requires |parts| > 1 && |p| > 1
    ensures Hits(parts, p) <==> Picks(parts[0], p[0]) && Hits(parts[1..], p[1..])
  {
    if |parts| == |p| {
      assert forall n :: 0 <= n < |p| - 2 ==> parts[1..][n] == parts[n + 1] && p[1..][n] == p[n + 1];
    }
    if Picks(parts[0], p[0]) && Hits(parts[1..], p[1..]) {
      forall n | 0 <= n < |p| - 1 ensures Picks(parts[n], p[n]) {
        if n > 0 {
          assert Picks(parts[1..][n - 1], p[1..][n - 1]);
        }
      }
    }
  }

  /** Removal, path by path: what is cut is gone, and what is not cut is still there with the same text, token or
      length. */
  lemma {:induction false} RemovedAt(v: Value, parts: seq<string>, p: Path)
    ensures ShapeAt(Removed(v, parts), p) == if Cuts(parts, p) then None else ShapeAt(v, p)
    decreases |p|
  {
    if parts != [] && p != [] {
      CutsBelow(parts, p);
      if |parts| > 1 && Child(v, p[0]).Some? {
        RemovedAt(Child(v, p[0]).value, parts[1..], p[1..]);
      } else if |parts| == 1 && v.Arr? && Child(v, p[0]).Some? {
        assert Removed(Child(v, p[0]).value, parts[1..]) == Child(v, p[0]).value;
      }
    }
  }

  /* ---------- many paths ---------- */

  function RemovedAll(v: Value, paths: seq<seq<string>>): Value {
    if paths == [] then v else Removed(RemovedAll(v, paths[..|paths| - 1]), paths[|paths| - 1])
  }

  predicate CutByAny(paths: seq<seq<string>>, p: Path) {
    exists parts <- paths :: Cuts(parts, p)
  }

  lemma {:induction false} RemovedAllAt(v: Value, paths: seq<seq<string>>, p: Path)
    ensures ShapeAt(RemovedAll(v, paths), p) == if CutByAny(paths, p) then None else ShapeAt(v, p)
  {
    if paths != [] {
      var init, last := paths[..|paths| - 1], paths[|paths| - 1];
      assert paths == init + [last];
      RemovedAllAt(v, init, p);
      RemovedAt(RemovedAll(v, init), last, p);
    }
  }

  /** The result depends on which paths are given and on nothing else: neither their order nor how often each
      is given. */
  lemma OrderIsIrrelevant(v: Value, paths: seq<seq<string>>, other: seq<seq<string>>)
    requires forall parts :: parts in paths <==> parts in other
    ensures RemovedAll(v, paths) == RemovedAll(v, other)
  {
    var a, b := RemovedAll(v, paths), RemovedAll(v, other);
    forall p: Path ensures ShapeAt(a, p) == ShapeAt(b, p) {
      RemovedAllAt(v, paths, p);
      RemovedAllAt(v, other, p);
    }
    ShapesDetermine(a, b);
  }

  /* ---------- counting ---------- */

  ghost function Sum(m: map<string, nat>): nat {
    if m == map[] then 0 else var k :| k in m; m[k] + Sum(m - {k})
  }

  lemma {:induction false} SumWithout(m: map<string, nat>, k: string)
    requires k in m
    ensures Sum(m) == m[k] + Sum(m - {k})
    decreases |m|
  {
    var first :| first in m && Sum(m) == m[first] + Sum(m - {first});
    if first != k {
      SumWithout(m - {first}, k);
      SumWithout(m - {k}, first);
      assert m - {first} - {k} == m - {k} - {first};
    }
  }

  predicate AllZero(m: map<string, nat>) {
    forall k :: k in m ==> m[k] == 0
  }

  lemma {:induction false} SumIsZero(m: map<string, nat>)
    ensures Sum(m) == 0 <==> AllZero(m)
    decreases |m|
  {
    if m != map[] {
      var k :| k in m;
      SumWithout(m, k);
      SumIsZero(m - {k});
      if AllZero(m - {k}) && m[k] == 0 {
        assert forall l :: l in m ==> l == k || (l in m - {k} && m[l] == (m - {k})[l]);
      }
    }
  }

  ghost function SumSeq(s: seq<nat>): nat {
    if s == [] then 0 else SumSeq(s[..|s| - 1]) + s[|s| - 1]
  }

  predicate AllZeros(s: seq<nat>) {
    forall i :: 0 <= i < |s| ==> s[i] == 0
  }

  lemma {:induction false} SumSeqIsZero(s: seq<nat>)
    ensures SumSeq(s) == 0 <==> AllZeros(s)
  {
    if s != [] {
      SumSeqIsZero(s[..|s| - 1]);
      if AllZeros(s[..|s| - 1]) {
        assert forall i :: 0 <= i < |s| - 1 ==> s[i] == s[..|s| - 1][i];
      }
    }
  }

  /** How many members one path removes. */
  ghost function Count(v: Value, parts: seq<string>): nat
    decreases v, 1
  {
    if parts == [] then 0
    else match v
      case Obj(m) => if |parts| == 1 then (if parts[0] in m then 1 else 0) else Sum(MemberCounts(m, parts))
      case Arr(items) => SumSeq(ItemCounts(items, parts))
      case _ => 0
  }

  ghost function MemberCounts(m: map<string, Value>, parts: seq<string>): map<string, nat>
    requires parts != []
    decreases Obj(m), 0
  {
    map k | k in m :: if Picks(parts[0], Key(k)) then Count(m[k], parts[1..]) else 0
  }

  ghost function ItemCounts(items: seq<Value>, parts: seq<string>): seq<nat>
    requires parts != []
    decreases Arr(items), 0
  {
    seq(|items|, i requires 0 <= i < |items| => if Picks(parts[0], Idx(i)) then Count(items[i], parts[1..]) else 0)
  }

  /** The paths of the members that one path removes. */
  ghost function Gone(v: Value, parts: seq<string>): set<Path>
    decreases v, 1
  {
    if parts == [] then {}
    else match v
      case Obj(m) =>
        if |parts| == 1 then (if parts[0] in m then {[Key(parts[0])]} else {}) else MembersGone(m, parts)
      case Arr(items) => ItemsGone(items, parts)
      case _ => {}
  }

  ghost function MembersGone(m: map<string, Value>, parts: seq<string>): set<Path>
    requires parts != []
    decreases Obj(m), 0
  {
    set k, q | k in m && Picks(parts[0], Key(k)) && q in Gone(m[k], parts[1..]) :: [Key(k)] + q
  }

  ghost function ItemsGone(items: seq<Value>, parts: seq<string>): set<Path>
    requires parts != []
    decreases Arr(items), 0
  {
    set i, q | 0 <= i < |items| && Picks(parts[0], Idx(i)) && q in Gone(items[i], parts[1..]) :: [Idx(i)] + q
  }

  lemma InMembersGone(m: map<string, Value>, parts: seq<string>, p: Path)
    requires parts != []
    ensures p in MembersGone(m, parts) <==>
            p != [] && p[0].Key? && p[0].key in m && Picks(parts[0], p[0]) && p[1..] in Gone(m[p[0].key], parts[1..])
  {
    if p in MembersGone(m, parts) {
      var k: string, q: Path :| k in m && Picks(parts[0], Key(k)) && q in Gone(m[k], parts[1..]) && p == [Key(k)] + q;
      assert p[0] == Key(k) && p[1..] == q;
    }
    if p != [] && p[0].Key? && p[0].key in m && Picks(parts[0], p[0]) && p[1..] in Gone(m[p[0].key], parts[1..]) {
      assert p == [Key(p[0].key)] + p[1..];
    }
  }

  lemma InItemsGone(items: seq<Value>, parts: seq<string>, p: Path)
    requires parts != []
    ensures p in ItemsGone(items, parts) <==>
            p != [] && p[0].Idx? && p[0].index < |items| && Picks(parts[0], p[0]) &&
            p[1..] in Gone(items[p[0].index], parts[1..])
  {
    if p in ItemsGone(items, parts) {
      var i: int, q: Path :| 0 <= i < |items| && Picks(parts[0], Idx(i)) && q in Gone(items[i], parts[1..]) &&
          p == [Idx(i)] + q;
      assert p[0] == Idx(i) && p[1..] == q;
    }
    if p != [] && p[0].Idx? && p[0].index < |items| && Picks(parts[0], p[0]) &&
       p[1..] in Gone(items[p[0].index], parts[1..]) {
      assert p == [Idx(p[0].index)] + p[1..];
    }
  }

  lemma GoneBelow(v: Value, parts: seq<string>, p: Path)
    requires |parts| > 1 || (parts != [] && v.Arr?)
    ensures p in Gone(v, parts) <==>
            p != [] && Child(v, p[0]).Some? && Picks(parts[0], p[0]) && p[1..] in Gone(Child(v, p[0]).value, parts[1..])
  {
    if v.Obj? {
      InMembersGone(v.fields, parts, p);
    } else if v.Arr? {
      InItemsGone(v.items, parts, p);
    }
  }

  /** They are the paths that the parts pick and that exist. */
  lemma {:induction false} GoneExactly(v: Value, parts: seq<string>, p: Path)
    ensures p in Gone(v, parts) <==> Hits(parts, p) && Lookup(v, p).Some?
    decreases v
  {
    if |parts| > 1 || (parts != [] && v.Arr?) {
      GoneBelow(v, parts, p);
      if p != [] && Child(v, p[0]).Some? {
        GoneExactly(Child(v, p[0]).value, parts[1..], p[1..]);
      }
      if |parts| > 1 && |p| > 1 {
        HitsBelow(parts, p);
      }
    } else if |parts| == 1 && |p| == 1 {
      assert Lookup(v, p) == Child(v, p[0]);
      assert p == [Key(parts[0])] <==> p[0] == Key(parts[0]);
    }
  }

  function Under(s: Step, paths: set<Path>): set<Path> {
    set q | q in paths :: [s] + q
  }

  lemma InUnder(s: Step, paths: set<Path>, p: Path)
    ensures p in Under(s, paths) <==> p != [] && p[0] == s && p[1..] in paths
  {
    if p in Under(s, paths) {
      var q :| q in paths && p == [s] + q;
      assert p[1..] == q;
    }
    if p != [] && p[0] == s {
      assert p == [s] + p[1..];
    }
  }

  lemma {:induction false} UnderIsAsMany(s: Step, paths: set<Path>)
    ensures |Under(s, paths)| == |paths|
  {
    if paths != {} {
      var q :| q in paths;
      var rest := paths - {q};
      UnderIsAsMany(s, rest);
      assert ([s] + q)[1..] == q;
      forall p ensures p in Under(s, paths) <==> p in Under(s, rest) || p == [s] + q {
        InUnder(s, paths, p);
        InUnder(s, rest, p);
        assert p != [] ==> p == [p[0]] + p[1..];
      }
      InUnder(s, rest, [s] + q);
      assert Under(s, paths) == Under(s, rest) + {[s] + q};
    }
  }

  /** Below one step: what is gone under the child it leads to, if the part picks it. */
  ghost function GoneUnder(s: Step, child: Value, parts: seq<string>): set<Path>
    requires parts != []
  {
    if Picks(parts[0], s) then Under(s, Gone(child, parts[1..])) else {}
  }

  lemma GoneUnderCounted(s: Step, child: Value, parts: seq<string>)
    requires parts != []
    ensures |GoneUnder(s, child, parts)| == if Picks(parts[0], s) then |Gone(child, parts[1..])| else 0
  {
    UnderIsAsMany(s, Gone(child, parts[1..]));
  }

  lemma OneMember(m: map<string, Value>, parts: seq<string>, k: string)
    requires parts != [] && k in m
    ensures |MembersGone(m, parts)| == |MembersGone(m - {k}, parts)| + |GoneUnder(Key(k), m[k], parts)|
  {
    forall p
      ensures p in MembersGone(m, parts) <==> p in MembersGone(m - {k}, parts) || p in GoneUnder(Key(k), m[k], parts)
      ensures !(p in MembersGone(m - {k}, parts) && p in GoneUnder(Key(k), m[k], parts))
    {
      InMembersGone(m, parts, p);
      InMembersGone(m - {k}, parts, p);
      InUnder(Key(k), Gone(m[k], parts[1..]), p);
    }
    assert MembersGone(m, parts) == MembersGone(m - {k}, parts) + GoneUnder(Key(k), m[k], parts);
  }

  lemma OneItem(items: seq<Value>, parts: seq<string>)
    requires parts != [] && items != []
    ensures var n := |items| - 1;
            |ItemsGone(items, parts)| == |ItemsGone(items[..n], parts)| + |GoneUnder(Idx(n), items[n], parts)|
  {
    var n: nat := |items| - 1;
    forall p
      ensures p in ItemsGone(items, parts) <==>
              p in ItemsGone(items[..n], parts) || p in GoneUnder(Idx(n), items[n], parts)
      ensures !(p in ItemsGone(items[..n], parts) && p in GoneUnder(Idx(n), items[n], parts))
    {
      InItemsGone(items, parts, p);
      InItemsGone(items[..n], parts, p);
      InUnder(Idx(n), Gone(items[n], parts[1..]), p);
    }
    assert ItemsGone(items, parts) == ItemsGone(items[..n], parts) + GoneUnder(Idx(n), items[n], parts);
  }

  lemma {:induction false} MembersCounted(m: map<string, Value>, parts: seq<string>)
    requires parts != [] && forall k <- m :: Count(m[k], parts[1..]) == |Gone(m[k], parts[1..])|
    ensures Sum(MemberCounts(m, parts)) == |MembersGone(m, parts)|
    decreases |m|
  {
    if m == map[] {
      forall p ensures p !in MembersGone(m, parts) {
        InMembersGone(m, parts, p);
      }
      assert MembersGone(m, parts) == {};
    } else {
      var k :| k in m;
      MembersCounted(m - {k}, parts);
      SumWithout(MemberCounts(m, parts), k);
      assert MemberCounts(m, parts) - {k} == MemberCounts(m - {k}, parts);
      OneMember(m, parts, k);
      GoneUnderCounted(Key(k), m[k], parts);
    }
  }

  lemma {:induction false} ItemsCounted(items: seq<Value>, parts: seq<string>)
    requires parts != [] && forall i :: 0 <= i < |items| ==> Count(items[i], parts[1..]) == |Gone(items[i], parts[1..])|
    ensures SumSeq(ItemCounts(items, parts)) == |ItemsGone(items, parts)|
    decreases |items|
  {
    if items == [] {
      forall p ensures p !in ItemsGone(items, parts) {
        InItemsGone(items, parts, p);
      }
      assert ItemsGone(items, parts) == {};
    } else {
      var n: nat := |items| - 1;
      ItemsCounted(items[..n], parts);
      assert ItemCounts(items, parts)[..n] == ItemCounts(items[..n], parts);
      OneItem(items, parts);
      GoneUnderCounted(Idx(n), items[n], parts);
    }
  }

  /** The count of one path is the number of members it removes. */
  lemma {:induction false} CountIsGone(v: Value, parts: seq<string>)
    ensures Count(v, parts) == |Gone(v, parts)|
    decreases v
  {
    if parts != [] {
      match v
      case Obj(m) =>
        if |parts| > 1 {
          forall k | k in m ensures Count(m[k], parts[1..]) == |Gone(m[k], parts[1..])| {
            CountIsGone(m[k], parts[1..]);
          }
          MembersCounted(m, parts);
        }
      case Arr(items) =>
        forall i | 0 <= i < |items| ensures Count(items[i], parts[1..]) == |Gone(items[i], parts[1..])| {
          CountIsGone(items[i], parts[1..]);
        }
        ItemsCounted(items, parts);
      case _ =>
    }
  }

  /** Nothing is counted exactly when nothing changes. */
  lemma {:induction false} CountZeroIffUnchanged(v: Value, parts: seq<string>)
    ensures Count(v, parts) == 0 <==> Removed(v, parts) == v
    decreases v
  {
    if parts != [] {
      match v
      case Obj(m) =>
        if |parts| == 1 {
          assert parts[0] !in m ==> m - {parts[0]} == m;
        } else {
          forall k | k in m ensures Count(m[k], parts[1..]) == 0 <==> Removed(m[k], parts[1..]) == m[k] {
            CountZeroIffUnchanged(m[k], parts[1..]);
          }
          MembersUnchanged(m, parts);
        }
      case Arr(items) =>
        forall i | 0 <= i < |items| ensures Count(items[i], parts[1..]) == 0 <==>
            Removed(items[i], parts[1..]) == items[i] {
          CountZeroIffUnchanged(items[i], parts[1..]);
        }
        ItemsUnchanged(items, parts);
      case _ =>
    }
  }

  lemma MembersUnchanged(m: map<string, Value>, parts: seq<string>)
    requires |parts| > 1
    requires forall k <- m :: Count(m[k], parts[1..]) == 0 <==> Removed(m[k], parts[1..]) == m[k]
    ensures Sum(MemberCounts(m, parts)) == 0 <==> Removed(Obj(m), parts) == Obj(m)
  {
    var counts, n := MemberCounts(m, parts), Removed(Obj(m), parts).fields;
    SumIsZero(counts);
    forall k | k in m ensures k in n && (counts[k] == 0 <==> n[k] == m[k]) {
    }
    if AllZero(counts) {
      assert n == m;
    }
  }

  lemma ItemsUnchanged(items: seq<Value>, parts: seq<string>)
    requires parts != []
    requires forall i :: 0 <= i < |items| ==>
        (Count(items[i], parts[1..]) == 0 <==> Removed(items[i], parts[1..]) == items[i])
    ensures SumSeq(ItemCounts(items, parts)) == 0 <==> Removed(Arr(items), parts) == Arr(items)
  {
    var counts, n := ItemCounts(items, parts), Removed(Arr(items), parts).items;
    SumSeqIsZero(counts);
    forall i | 0 <= i < |items| ensures counts[i] == 0 <==> n[i] == items[i] {
    }
    if AllZeros(counts) {
      assert n == items;
    }
  }

  ghost function CountAll(v: Value, paths: seq<seq<string>>): nat {
    if paths == [] then 0
    else CountAll(v, paths[..|paths| - 1]) + Count(RemovedAll(v, paths[..|paths| - 1]), paths[|paths| - 1])
  }

  lemma {:induction false} CountAllZero(v: Value, paths: seq<seq<string>>)
    ensures CountAll(v, paths) == 0 <==> forall parts <- paths :: Removed(v, parts) == v
    ensures CountAll(v, paths) == 0 ==> RemovedAll(v, paths) == v
  {
    if paths != [] {
      var init, last := paths[..|paths| - 1], paths[|paths| - 1];
      assert paths == init + [last];
      CountAllZero(v, init);
      CountZeroIffUnchanged(RemovedAll(v, init), last);
      if forall parts <- init :: Removed(v, parts) == v {
        assert CountAll(v, init) == 0;
      }
    }
  }

  /** A pass over a list of paths counts nothing exactly when it leaves the document as it was. */
  lemma PassCountsNothingIffUnchanged(v: Value, paths: seq<seq<string>>)
    ensures CountAll(v, paths) == 0 <==> RemovedAll(v, paths) == v
  {
    CountAllZero(v, paths);
    if RemovedAll(v, paths) == v {
      forall parts | parts in paths ensures Removed(v, parts) == v {
        forall p: Path ensures ShapeAt(Removed(v, parts), p) == ShapeAt(v, p) {
          RemovedAt(v, parts, p);
          RemovedAllAt(v, paths, p);
        }
        ShapesDetermine(Removed(v, parts), v);
      }
    }
  }

  /** A second pass removes nothing. */
  lemma SecondPassRemovesNothing(v: Value, paths: seq<seq<string>>)
    ensures RemovedAll(RemovedAll(v, paths), paths) == RemovedAll(v, paths)
    ensures CountAll(RemovedAll(v, paths), paths) == 0
  {
    var once := RemovedAll(v, paths);
    var twice := RemovedAll(once, paths);
    forall p: Path ensures ShapeAt(twice, p) == ShapeAt(once, p) {
      RemovedAllAt(v, paths, p);
      RemovedAllAt(once, paths, p);
    }
    ShapesDetermine(twice, once);
    PassCountsNothingIffUnchanged(once, paths);
  }
}
