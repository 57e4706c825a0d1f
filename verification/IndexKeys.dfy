/** How the keys of an index compare: segment by segment, each column by its kind. */
module IndexKeys {
  import opened Common
  import opened Assoc
  import opened Weights
  import Collation

  type Text = seq<Byte>

  datatype Kind = Mixed | Number | Textual

  /** What the library reads a text as: `parse_number`, for a text that is a number and nothing else, and `text_to_number`, which reads any text. */
  datatype Doubles = Doubles(parse: Text -> Option<real>, read: Text -> real)

  // ---- one segment ----

  function Sign(n: int): int { if n < 0 then -1 else if n > 0 then 1 else 0 }

  predicate IsDigit(b: Byte) { 0x30 <= b <= 0x39 }

  predicate AllDigits(s: Text) { s != [] && forall i :: 0 <= i < |s| ==> IsDigit(s[i]) }

  function DigitOf(b: Byte): nat
    requires IsDigit(b)
  {
    var n: int := b;
    n - 0x30
  }

  function Value(s: Text): nat
    requires forall i :: 0 <= i < |s| ==> IsDigit(s[i])
  {
    if s == [] then 0 else 10 * Value(s[..|s| - 1]) + DigitOf(s[|s| - 1])
  }

  /** `plain_uint` */
  predicate PlainUint(s: Text) { AllDigits(s) && |s| <= 15 && (|s| > 1 ==> s[0] != 0x30) }

  /** `plain_uint` as it looks at the text. */
  method IsPlainUint(s: Text) returns (r: bool)
    ensures r == PlainUint(s)
  {
    if s == [] || |s| > 15 {
      return false;
    }
    if |s| > 1 && s[0] == 0x30 {
      return false;
    }
    for i := 0 to |s|
      invariant forall k :: 0 <= k < i ==> IsDigit(s[k])
    {
      if s[i] < 0x30 || s[i] > 0x39 {
        return false;
      }
    }
    return true;
  }

  /** Shorter first, then by the bytes. */
  function PlainOrder(a: Text, b: Text): int { if |a| != |b| then if |a| < |b| then -1 else 1 else Lex(a, b) }

  /** `parse_int64_text` */
  function Int64(s: Text): Option<int>
  {
    var u := if s != [] && s[0] == 0x2B then s[1..] else s;
    var negative := u != [] && u[0] == 0x2D;
    var d := if negative then u[1..] else u;
    if !AllDigits(d) then None
    else
      var n: int := if negative then 0 - Value(d) else Value(d);
      if -0x8000_0000_0000_0000 <= n < 0x8000_0000_0000_0000 then Some(n) else None
  }

  /** `parse_wide_integer_text`, as the number it stands for. */
  function Wide(s: Text): Option<int>
  {
    var signed := s != [] && (s[0] == 0x2B || s[0] == 0x2D);
    var d := if signed then s[1..] else s;
    if !AllDigits(d) || Value(d) >= 0x1_0000_0000_0000_0000 then None
    else
      var n: int := if signed && s[0] == 0x2D then 0 - Value(d) else Value(d);
      Some(n)
  }

  function RealSign(x: real, y: real): int { if x < y then -1 else if x > y then 1 else 0 }

  /** `compare_numbers` */
  function CompareNumbers(d: Doubles, a: Text, b: Text): int
  {
    if Int64(a).Some? && Int64(b).Some? then Sign(Int64(a).value - Int64(b).value)
    else if Wide(a).Some? && Wide(b).Some? then Sign(Wide(a).value - Wide(b).value)
    else RealSign(d.read(a), d.read(b))
  }

  /** `cmp_key_segment` */
  ghost function SegmentOrder(t: Table, d: Doubles, kind: Kind, a: Text, b: Text): int
    requires Sound(t)
  {
    if a == b then 0
    else if kind == Textual then Collation.Order(t, a, b)
    else if PlainUint(a) && PlainUint(b) then PlainOrder(a, b)
    else if kind == Number then
      if CompareNumbers(d, a, b) != 0 then CompareNumbers(d, a, b) else Lex(a, b)
    else if a == [] then -1
    else if b == [] then 1
    else
      match (d.parse(a), d.parse(b))
      case (Some(x), Some(y)) => if x < y then -1 else if x > y then 1 else Lex(a, b)
      case (Some(_), None) => -1
      case (None, Some(_)) => 1
      case (None, None) => Collation.Order(t, a, b)
  }

  // ---- keys of several columns ----

  function KindOf(kinds: seq<Kind>, segment: nat): Kind
  {
    if kinds == [] then Mixed else kinds[if segment < |kinds| then segment else |kinds| - 1]
  }

  /** The segments of a key, which NUL bytes separate. */
  function Segments(s: Text): (parts: seq<Text>)
    ensures |parts| >= 1
  {
    if s == [] then [[]]
    else
      var rest := Segments(s[1..]);
      if s[0] == 0 then [[]] + rest else [[s[0]] + rest[0]] + rest[1..]
  }

  /** How the segments of one place compare. */
  type Compare = (nat, Text, Text) -> int

  function PartsOrder(seg: Compare, a: seq<Text>, b: seq<Text>, segment: nat): int
    requires |a| >= 1 && |b| >= 1
    decreases |a|
  {
    var c := seg(segment, a[0], b[0]);
    if c != 0 then c
    else if |a| == 1 && |b| == 1 then 0
    else if |a| == 1 then -1
    else if |b| == 1 then 1
    else PartsOrder(seg, a[1..], b[1..], segment + 1)
  }

  ghost function Columns(t: Table, d: Doubles, kinds: seq<Kind>): Compare
    requires Sound(t)
  {
    (segment: nat, a: Text, b: Text) => SegmentOrder(t, d, KindOf(kinds, segment), a, b)
  }

  ghost function KeyOrder(t: Table, d: Doubles, kinds: seq<Kind>, a: Text, b: Text): int
    requires Sound(t)
  {
    PartsOrder(Columns(t, d, kinds), Segments(a), Segments(b), 0)
  }

  /** `std::string_view::find` of a NUL byte: its place, or the end. */
  function FindNul(s: Text, pos: nat): (k: nat)
    requires pos <= |s|
    ensures pos <= k <= |s| && (k < |s| ==> s[k] == 0) && Free(s, 0, pos, k)
    decreases |s| - pos
  {
    if pos == |s| || s[pos] == 0 then pos
    else
      var at := FindNul(s, pos + 1);
      FreeBehind(s, pos, at);
      at
  }

  lemma FreeBehind(s: Text, pos: nat, at: nat)
    requires pos < at <= |s| && s[pos] != 0 && Free(s, 0, pos + 1, at)
    ensures Free(s, 0, pos, at)
  {
    assert s[pos..at] == [s[pos]] + s[pos + 1..at];
  }

  /** The segments from `pos` on are the one up to the next NUL byte and those behind it. */
  lemma SegmentsAt(s: Text, pos: nat)
    requires pos <= |s|
    ensures var k := FindNul(s, pos);
      Segments(s[pos..]) == [s[pos..k]] + if k == |s| then [] else Segments(s[k + 1..])
  {
    hide Segments;
    var k := FindNul(s, pos);
    assert s[pos..] == s[pos..k] + s[k..];
    if k == |s| {
      assert s[pos..k] == s[pos..];
      PlainKeyIsSegment(s[pos..]);
    } else {
      SegmentsAfter(s[pos..k], s[k + 1..]);
      assert s[k..] == [0] + s[k + 1..];
    }
  }

  lemma {:induction false} SegmentsAfter(p: Text, rest: Text)
    requires 0 !in p
    ensures Segments(p + ([0] + rest)) == [p] + Segments(rest)
  {
    if p == [] {
      assert p + ([0] + rest) == [0] + rest && ([0] + rest)[1..] == rest;
    } else {
      assert (p + ([0] + rest))[1..] == p[1..] + ([0] + rest);
      SegmentsAfter(p[1..], rest);
      assert [p[0]] + p[1..] == p;
    }
  }

  lemma OneStep(seg: Compare, x: Text, xs: seq<Text>, y: Text, ys: seq<Text>, segment: nat)
    ensures PartsOrder(seg, [x] + xs, [y] + ys, segment) ==
            if seg(segment, x, y) != 0 then seg(segment, x, y)
            else if xs == [] || ys == [] then if xs == ys then 0 else if xs == [] then -1 else 1
            else PartsOrder(seg, xs, ys, segment + 1)
  {
    assert ([x] + xs)[1..] == xs && ([y] + ys)[1..] == ys;
  }

  /** `cmp_keys` */
  method CmpKeys(seg: Compare, a: Text, b: Text) returns (r: int)
    ensures r == PartsOrder(seg, Segments(a), Segments(b), 0)
  {
    hide Segments, PartsOrder;
    if FindNul(a, 0) == |a| && FindNul(b, 0) == |b| {
      assert a[0..|a|] == a && b[0..|b|] == b;
      PlainKeyIsSegment(a);
      PlainKeyIsSegment(b);
      OneStep(seg, a, [], b, [], 0);
      assert [a] + [] == [a] && [b] + [] == [b];
      return seg(0, a, b);
    }
    var pa, pb, segment := 0, 0, 0;
    assert a[0..] == a && b[0..] == b;
    while true
      invariant pa <= |a| && pb <= |b|
      invariant PartsOrder(seg, Segments(a[pa..]), Segments(b[pb..]), segment) == PartsOrder(seg, Segments(a), Segments(b), 0)
      decreases |a| - pa
    {
      SegmentsAt(a, pa);
      SegmentsAt(b, pb);
      var da, db := FindNul(a, pa), FindNul(b, pb);
      ghost var x := if da == |a| then [] else Segments(a[da + 1..]);
      ghost var y := if db == |b| then [] else Segments(b[db + 1..]);
      OneStep(seg, a[pa..da], x, b[pb..db], y, segment);
      r := seg(segment, a[pa..da], b[pb..db]);
      if r != 0 {
        return;
      }
      if da == |a| && db == |b| {
        return 0;
      }
      if da == |a| {
        return -1;
      }
      if db == |b| {
        return 1;
      }
      pa, pb, segment := da + 1, db + 1, segment + 1;
    }
  }

  /** A key without a NUL byte is its own segment: comparing it without cutting it changes nothing. */
  lemma {:induction false} PlainKeyIsSegment(s: Text)
    requires 0 !in s
    ensures Segments(s) == [s]
  {
    if s != [] {
      PlainKeyIsSegment(s[1..]);
      assert s == [s[0]] + s[1..];
    }
  }

  // ---- plain numbers ----

  function Ten(k: nat): nat { if k == 0 then 1 else 10 * Ten(k - 1) }

  lemma {:induction false} ValueBounds(s: Text)
    requires forall i :: 0 <= i < |s| ==> IsDigit(s[i])
    ensures Value(s) < Ten(|s|)
    ensures s != [] && s[0] != 0x30 ==> Value(s) >= Ten(|s| - 1)
  {
    if |s| == 1 {
      assert s[..0] == [];
    } else if s != [] {
      ValueBounds(s[..|s| - 1]);
    }
  }

  lemma {:induction false} TenGrows(i: nat, j: nat)
    requires i <= j
    ensures Ten(i) <= Ten(j)
    decreases j
  {
    if i < j {
      TenGrows(i, j - 1);
    }
  }

  lemma {:induction false} LexLast(a: Text, b: Text, x: Byte, y: Byte)
    requires |a| == |b|
    ensures Lex(a + [x], b + [y]) == if Lex(a, b) != 0 then Lex(a, b) else Sign(x - y)
  {
    if a == [] {
      assert a + [x] == [x] && b + [y] == [y] && [x][1..] == [] && [y][1..] == [];
    } else {
      assert (a + [x])[1..] == a[1..] + [x] && (b + [y])[1..] == b[1..] + [y];
      LexLast(a[1..], b[1..], x, y);
    }
  }

  lemma {:induction false} SameLengthByBytes(a: Text, b: Text)
    requires |a| == |b| && (forall i :: 0 <= i < |a| ==> IsDigit(a[i])) && forall i :: 0 <= i < |b| ==> IsDigit(b[i])
    ensures Lex(a, b) == Sign(Value(a) - Value(b))
  {
    if a != [] {
      var m := |a| - 1;
      SameLengthByBytes(a[..m], b[..m]);
      LexLast(a[..m], b[..m], a[m], b[m]);
      assert a == a[..m] + [a[m]] && b == b[..m] + [b[m]];
    }
  }

  /** "Shorter first, then by text" is the order of the numbers. */
  lemma PlainOrderIsNumeric(a: Text, b: Text)
    requires PlainUint(a) && PlainUint(b)
    ensures PlainOrder(a, b) == Sign(Value(a) - Value(b))
  {
    ValueBounds(a);
    ValueBounds(b);
    if |a| < |b| {
      TenGrows(|a|, |b| - 1);
    } else if |b| < |a| {
      TenGrows(|b|, |a| - 1);
    } else {
      SameLengthByBytes(a, b);
    }
  }

  // ---- each kind of column is in order ----

  /** The library reads up to fifteen digits exactly. */
  ghost predicate Exact(d: Doubles) { forall s :: PlainUint(s) ==> d.parse(s) == Some(Value(s) as real) && d.read(s) == Value(s) as real }

  /** What a total preorder needs of three values. */
  ghost predicate InOrder(ab: int, ba: int, bc: int, ac: int)
  {
    (ab < 0 <==> ba > 0) && (ab == 0 <==> ba == 0) && (ab <= 0 && bc <= 0 ==> ac <= 0)
  }

  /** The empty key, then the numbers by value and bytes, then the texts. */
  function Rank(d: Doubles, s: Text): nat { if s == [] then 0 else if d.parse(s).Some? then 1 else 2 }

  ghost function MixedOrder(t: Table, d: Doubles, a: Text, b: Text): int
    requires Sound(t)
  {
    if Rank(d, a) != Rank(d, b) then Sign(Rank(d, a) - Rank(d, b))
    else if Rank(d, a) == 1 then
      var c := RealSign(d.parse(a).value, d.parse(b).value);
      if c != 0 then c else Lex(a, b)
    else if Rank(d, a) == 0 then 0
    else Collation.Order(t, a, b)
  }

  lemma MixedIs(t: Table, d: Doubles, a: Text, b: Text)
    requires Sound(t) && Exact(d)
    ensures SegmentOrder(t, d, Mixed, a, b) == MixedOrder(t, d, a, b)
  {
    Collation.OrderIsTotalPreorder(t, a, b, a);
    LexReflects(a, b);
    if a != b && PlainUint(a) && PlainUint(b) {
      PlainOrderIsNumeric(a, b);
      if |a| == |b| {
        SameLengthByBytes(a, b);
      }
    }
  }

  lemma MixedInOrder(t: Table, d: Doubles, a: Text, b: Text, c: Text)
    requires Sound(t) && Exact(d)
    ensures var o := (x, y) => SegmentOrder(t, d, Mixed, x, y); InOrder(o(a, b), o(b, a), o(b, c), o(a, c))
  {
    MixedIs(t, d, a, b);
    MixedIs(t, d, b, a);
    MixedIs(t, d, b, c);
    MixedIs(t, d, a, c);
    hide SegmentOrder;
    Collation.OrderIsTotalPreorder(t, a, b, c);
    LexReflects(a, b);
    if Lex(a, b) <= 0 && Lex(b, c) <= 0 {
      LexTransitive(a, b, c);
    }
  }

  lemma TextualInOrder(t: Table, d: Doubles, a: Text, b: Text, c: Text)
    requires Sound(t)
    ensures var o := (x, y) => SegmentOrder(t, d, Textual, x, y); InOrder(o(a, b), o(b, a), o(b, c), o(a, c))
  {
    Collation.OrderIsTotalPreorder(t, a, b, c);
    Collation.OrderIsTotalPreorder(t, a, a, c);
  }
}
