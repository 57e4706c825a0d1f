/** Prepared statements: placeholders are counted and replaced, parameter values are read from the binary payload. */
module Prepared {
  import opened Common
  import opened Packets

  // ---- placeholders ----

  /** In a string after `c`: a quote toggles unless a backslash stands before it. */
  function InString(c: char, prev: char, inStr: bool): bool { if c == '\'' && prev != '\\' then !inStr else inStr }

  /** The text between the placeholders; `cur` is the piece begun, `prev` the character before. */
  function Pieces(q: string, inStr: bool, prev: char, cur: string): (ps: seq<string>)
    ensures |ps| >= 1
    decreases |q|
  {
    if q == "" then [cur]
    else
      var now := InString(q[0], prev, inStr);
      if q[0] == '?' && !now then [cur] + Pieces(q[1..], now, q[0], "") else Pieces(q[1..], now, q[0], cur + [q[0]])
  }

  function QueryPieces(q: string): (ps: seq<string>)
    ensures |ps| >= 1
  {
    Pieces(q, false, ' ', "")
  }

  /** `count_placeholders` */
  method CountPlaceholders(q: string) returns (n: nat)
    ensures n == |QueryPieces(q)| - 1 == PlaceholdersBefore(q, |q|)
  {
    PlaceholdersAre(q);
    var inStr, prev := false, ' ';
    ghost var cur := "";
    n := 0;
    assert q[0..] == q;
    for i := 0 to |q|
      invariant n + |Pieces(q[i..], inStr, prev, cur)| == |QueryPieces(q)|
    {
      var c := q[i];
      assert q[i..][1..] == q[i + 1..] && q[i..][0] == c;
      if c == '\'' && prev != '\\' {
        inStr := !inStr;
      }
      if c == '?' && !inStr {
        n := n + 1;
        cur := "";
      } else {
        cur := cur + [c];
      }
      prev := c;
    }
  }

  /** What the `k`-th placeholder becomes: the `k`-th value, or itself when there is none. */
  function ValueAt(params: seq<string>, k: nat): string { if k < |params| then params[k] else "?" }

  /** Pieces with the values from the `k`-th on between them. */
  function Weave(ps: seq<string>, params: seq<string>, k: nat): string
    requires |ps| >= 1
  {
    if |ps| == 1 then ps[0] else ps[0] + ValueAt(params, k) + Weave(ps[1..], params, k + 1)
  }

  lemma {:induction false} WeaveFront(a: string, ps: seq<string>, params: seq<string>, k: nat)
    requires |ps| >= 1
    ensures Weave([a + ps[0]] + ps[1..], params, k) == a + Weave(ps, params, k)
  {
    var qs := [a + ps[0]] + ps[1..];
    assert qs[1..] == ps[1..];
    if |ps| > 1 {
      assert a + ps[0] + ValueAt(params, k) + Weave(ps[1..], params, k + 1) == a + (ps[0] + ValueAt(params, k) + Weave(ps[1..], params, k + 1));
    }
  }

  lemma {:induction false} PiecesFront(q: string, inStr: bool, prev: char, cur: string)
    ensures var ps, qs := Pieces(q, inStr, prev, ""), Pieces(q, inStr, prev, cur); qs == [cur + ps[0]] + ps[1..]
    decreases |q|
  {
    if q != "" {
      var now := InString(q[0], prev, inStr);
      if q[0] == '?' && !now {
        assert cur + "" == cur;
      } else {
        PiecesFront(q[1..], now, q[0], cur + [q[0]]);
        PiecesFront(q[1..], now, q[0], "" + [q[0]]);
        var rest := Pieces(q[1..], now, q[0], "");
        assert cur + [q[0]] + rest[0] == cur + ("" + [q[0]] + rest[0]);
      }
    } else {
      assert cur + "" == cur;
    }
  }

  /** How the rest of a query is bound at a character. */
  lemma BindStep(q: string, inStr: bool, prev: char, params: seq<string>, k: nat)
    requires q != ""
    ensures var now := InString(q[0], prev, inStr);
      Weave(Pieces(q, inStr, prev, ""), params, k) ==
      if q[0] == '?' && !now then ValueAt(params, k) + Weave(Pieces(q[1..], now, q[0], ""), params, k + 1)
      else [q[0]] + Weave(Pieces(q[1..], now, q[0], ""), params, k)
  {
    var now := InString(q[0], prev, inStr);
    var rest := Pieces(q[1..], now, q[0], "");
    if q[0] == '?' && !now {
      assert ([""] + rest)[1..] == rest;
      assert "" + ValueAt(params, k) + Weave(rest, params, k + 1) == ValueAt(params, k) + Weave(rest, params, k + 1);
    } else {
      PiecesFront(q[1..], now, q[0], "" + [q[0]]);
      WeaveFront([q[0]], rest, params, k);
      assert "" + [q[0]] == [q[0]];
    }
  }

  /** `bind_params` */
  method BindParams(q: string, params: seq<string>) returns (result: string)
    ensures result == Weave(QueryPieces(q), params, 0)
  {
    hide Pieces, Weave;
    result := "";
    var idx, inStr, prev := 0, false, ' ';
    ghost var left := Weave(QueryPieces(q), params, 0);
    assert q[0..] == q;
    for i := 0 to |q|
      invariant left == Weave(Pieces(q[i..], inStr, prev, ""), params, idx) && result + left == Weave(QueryPieces(q), params, 0)
    {
      var c := q[i];
      BindStep(q[i..], inStr, prev, params, idx);
      assert q[i..][1..] == q[i + 1..] && q[i..][0] == c;
      if c == '\'' && prev != '\\' {
        inStr := !inStr;
      }
      ghost var now := if c == '?' && !inStr then idx + 1 else idx;
      left := Weave(Pieces(q[i + 1..], inStr, c, ""), params, now);
      if c == '?' && !inStr {
        Regroup(result, ValueAt(params, idx), left);
        if idx < |params| {
          result := result + params[idx];
        } else {
          result := result + "?";
        }
        idx := idx + 1;
      } else {
        Regroup(result, [c], left);
        result := result + [c];
      }
      prev := c;
    }
    NothingLeft(inStr, prev, params, idx);
    assert q[|q|..] == "";
  }

  lemma NothingLeft(inStr: bool, prev: char, params: seq<string>, k: nat)
    ensures Weave(Pieces("", inStr, prev, ""), params, k) == ""
  {
  }

  /** Putting the placeholders back gives the query: binding changes nothing else. */
  lemma {:induction false} UnboundIsQuery(q: string, inStr: bool, prev: char, k: nat)
    ensures Weave(Pieces(q, inStr, prev, ""), [], k) == q
    decreases |q|
  {
    if q == "" {
      NothingLeft(inStr, prev, [], k);
    } else {
      var now := InString(q[0], prev, inStr);
      BindStep(q, inStr, prev, [], k);
      UnboundIsQuery(q[1..], now, q[0], k + 1);
      UnboundIsQuery(q[1..], now, q[0], k);
      assert q == [q[0]] + q[1..];
      assert q[0] == '?' ==> "?" == [q[0]];
    }
  }

  // ---- the query by its characters ----

  /** The quotes among the first `i` characters that no backslash stands before. */
  function QuotesBefore(q: string, i: nat): nat
    requires i <= |q|
  {
    if i == 0 then 0 else QuotesBefore(q, i - 1) + if q[i - 1] == '\'' && (i == 1 || q[i - 2] != '\\') then 1 else 0
  }

  /** A question mark with an even number of them before it. */
  predicate IsPlaceholder(q: string, i: nat)
    requires i < |q|
  {
    q[i] == '?' && QuotesBefore(q, i) % 2 == 0
  }

  function PlaceholdersBefore(q: string, i: nat): nat
    requires i <= |q|
  {
    if i == 0 then 0 else PlaceholdersBefore(q, i - 1) + if IsPlaceholder(q, i - 1) then 1 else 0
  }

  /** What the first `i` characters become: each placeholder its value, everything else itself. */
  function Bound(q: string, params: seq<string>, i: nat): string
    requires i <= |q|
  {
    if i == 0 then ""
    else Bound(q, params, i - 1) + if IsPlaceholder(q, i - 1) then ValueAt(params, PlaceholdersBefore(q, i - 1)) else [q[i - 1]]
  }

  function Prev(q: string, i: nat): char
    requires i <= |q|
  {
    if i == 0 then ' ' else q[i - 1]
  }

  /** The bound query is the query with each placeholder replaced, wherever the pieces are cut. */
  lemma {:induction false} BoundByPosition(q: string, params: seq<string>, i: nat)
    requires i <= |q|
    ensures Weave(QueryPieces(q), params, 0) ==
            Bound(q, params, i) + Weave(Pieces(q[i..], QuotesBefore(q, i) % 2 == 1, Prev(q, i), ""), params, PlaceholdersBefore(q, i))
  {
    hide Weave, Pieces;
    if i == 0 {
      assert q[0..] == q;
    } else {
      var m := i - 1;
      BoundByPosition(q, params, m);
      BindStep(q[m..], QuotesBefore(q, m) % 2 == 1, Prev(q, m), params, PlaceholdersBefore(q, m));
      assert q[m..][1..] == q[i..] && q[m..][0] == q[m];
      InStringIs(q, m);
      var unit := if IsPlaceholder(q, m) then ValueAt(params, PlaceholdersBefore(q, m)) else [q[m]];
      Regroup(Bound(q, params, m), unit, Weave(Pieces(q[i..], QuotesBefore(q, i) % 2 == 1, q[m], ""), params, PlaceholdersBefore(q, i)));
    }
  }

  lemma InStringIs(q: string, m: nat)
    requires m < |q|
    ensures InString(q[m], Prev(q, m), QuotesBefore(q, m) % 2 == 1) == (QuotesBefore(q, m + 1) % 2 == 1)
    ensures q[m] == '?' ==> QuotesBefore(q, m + 1) == QuotesBefore(q, m)
  {
  }

  lemma BoundQuery(q: string, params: seq<string>)
    ensures Weave(QueryPieces(q), params, 0) == Bound(q, params, |q|)
  {
    BoundByPosition(q, params, |q|);
    NothingLeft(QuotesBefore(q, |q|) % 2 == 1, Prev(q, |q|), params, PlaceholdersBefore(q, |q|));
    assert q[|q|..] == "" && Bound(q, params, |q|) + "" == Bound(q, params, |q|);
  }

  /** And the placeholders that are counted are those. */
  lemma {:induction false} CountByPosition(q: string, i: nat)
    requires i <= |q|
    ensures |QueryPieces(q)| == PlaceholdersBefore(q, i) + |Pieces(q[i..], QuotesBefore(q, i) % 2 == 1, Prev(q, i), "")|
  {
    if i == 0 {
      assert q[0..] == q;
    } else {
      var m := i - 1;
      CountByPosition(q, m);
      InStringIs(q, m);
      assert q[m..][1..] == q[i..] && q[m..][0] == q[m];
      PiecesFront(q[i..], QuotesBefore(q, i) % 2 == 1, q[m], "" + [q[m]]);
    }
  }

  lemma PlaceholdersAre(q: string)
    ensures |QueryPieces(q)| - 1 == PlaceholdersBefore(q, |q|)
  {
    CountByPosition(q, |q|);
    assert q[|q|..] == "";
  }

  lemma {:induction false} BoundGrows(q: string, params: seq<string>, i: nat, j: nat)
    requires i <= j <= |q|
    ensures Bound(q, params, i) <= Bound(q, params, j)
  {
    if i < j {
      BoundGrows(q, params, i, j - 1);
    }
  }

  /** The value of a placeholder stands where the text before the placeholder ends. */
  lemma ValueStands(q: string, params: seq<string>, i: nat)
    requires i < |q| && IsPlaceholder(q, i)
    ensures var r, at, v := Weave(QueryPieces(q), params, 0), |Bound(q, params, i)|, ValueAt(params, PlaceholdersBefore(q, i));
      at + |v| <= |r| && r[..at] == Bound(q, params, i) && r[at..at + |v|] == v
  {
    BoundQuery(q, params);
    BoundGrows(q, params, i + 1, |q|);
    var v := ValueAt(params, PlaceholdersBefore(q, i));
    assert Bound(q, params, i + 1) == Bound(q, params, i) + v;
    hide *;
    InFront(Bound(q, params, i), v, Bound(q, params, |q|));
  }

  lemma InFront(a: string, v: string, r: string)
    requires a + v <= r
    ensures |a| + |v| <= |r| && r[..|a|] == a && r[|a|..|a| + |v|] == v
  {
    assert r[..|a + v|] == a + v;
  }

  // ---- parameter values ----

  /** `std::to_string` of an integer */
  function IntText(n: int): string { if n < 0 then "-" + Decimal(-n) else Decimal(n) }

  /** A number with leading zeros up to the width, as `%0*u` prints it. */
  function Padded(n: nat, width: nat): string
  {
    var d := Decimal(n);
    if |d| >= width then d else seq(width - |d|, _ => '0') + d
  }

  /** The two's complement value of an unsigned number of `size` values. */
  function Signed(n: nat, size: nat): int { if n >= size / 2 then n - size else n }

  function DayText(y: nat, mo: nat, d: nat): string { Padded(y, 4) + "-" + Padded(mo, 2) + "-" + Padded(d, 2) }

  function ClockText(h: nat, mi: nat, s: nat): string { Padded(h, 2) + ":" + Padded(mi, 2) + ":" + Padded(s, 2) }

  function DateText(y: nat, mo: nat, d: nat): string { "'" + DayText(y, mo, d) + "'" }

  function DateTimeText(y: nat, mo: nat, d: nat, h: nat, mi: nat, s: nat): string { "'" + (DayText(y, mo, d) + " " + ClockText(h, mi, s)) + "'" }

  /** Bytes between quotes, each quote among them doubled. */
  function Quoted(s: seq<Byte>): string { "'" + Doubled(s) + "'" }

  function Doubled(s: seq<Byte>): string
  {
    if s == [] then "" else (if s[0] == 0x27 then "''" else [s[0] as char]) + Doubled(s[1..])
  }

  /** How floating-point bits are printed: left to the library. */
  datatype Floats = Floats(float: seq<Byte> -> string, double: seq<Byte> -> string)

  /** The value of a parameter of type `ft` at `pos`, and the position after it. A value the payload is too short for reads as NULL. */
  function ReadValue(fl: Floats, p: seq<Byte>, pos: nat, ft: Byte): (r: (string, nat))
    ensures r.1 >= pos || r.1 == |p|
  {
    if ft == 0x01 then (IntText(Signed(if pos < |p| then p[pos] else 0, 256)), pos + 1)
    else if ft == 0x02 then
      if pos + 2 > |p| then ("NULL", |p|) else (IntText(Signed(FromLittleEndian(p[pos..pos + 2]), 0x1_0000)), pos + 2)
    else if ft == 0x03 || ft == 0x09 then
      if pos + 4 > |p| then ("NULL", |p|) else (IntText(Signed(FromLittleEndian(p[pos..pos + 4]), 0x1_0000_0000)), pos + 4)
    else if ft == 0x08 || ft == 0x10 then
      if pos + 8 > |p| then ("NULL", |p|) else (IntText(Signed(FromLittleEndian(p[pos..pos + 8]), TWO64)), pos + 8)
    else if ft == 0x04 then
      if pos + 4 > |p| then ("NULL", |p|) else (fl.float(p[pos..pos + 4]), pos + 4)
    else if ft == 0x05 then
      if pos + 8 > |p| then ("NULL", |p|) else (fl.double(p[pos..pos + 8]), pos + 8)
    else if ft == 0x0a then
      if pos + 4 > |p| then ("NULL", |p|) else (DateText(FromLittleEndian(p[pos..pos + 2]), p[pos + 2], p[pos + 3]), pos + 4)
    else if ft == 0x0b || ft == 0x0c then ReadDateTime(p, pos)
    else ReadText(p, pos)
  }

  /** A length byte, then the date and, when there is room for it, the time. */
  function ReadDateTime(p: seq<Byte>, pos: nat): (r: (string, nat))
    ensures r.1 > pos
  {
    var len: nat := if pos < |p| then p[pos] else 0;
    var at := pos + 1;
    if len >= 4 && at + 4 <= |p| then
      var long := len >= 7 && at + 7 <= |p|;
      (DateTimeText(FromLittleEndian(p[at..at + 2]), p[at + 2], p[at + 3],
                    if long then p[at + 4] else 0, if long then p[at + 5] else 0, if long then p[at + 6] else 0), at + len)
    else ("NULL", at + len)
  }

  function ReadText(p: seq<Byte>, pos: nat): (r: (string, nat))
    ensures r.1 >= pos
  {
    if pos >= |p| then ("NULL", pos)
    else
      var (len, used) := ReadLenEnc(p[pos..]);
      if pos + used + len > |p| then ("NULL", pos + used) else (Quoted(p[pos + used..pos + used + len]), pos + used + len)
  }

  function Power2(k: nat): (p: nat)
    ensures p > 0
  {
    if k == 0 then 1 else 2 * Power2(k - 1)
  }

  predicate Bit(b: Byte, k: nat) { b / Power2(k) % 2 == 1 }

  /** The null bitmap, which starts behind the nine bytes of the header. */
  predicate IsNullParam(p: seq<Byte>, i: nat)
    requires 9 + i / 8 < |p|
  {
    Bit(p[9 + i / 8], i % 8)
  }

  /** The type byte of parameter `i`; a text when the payload gives no types, or ends. */
  function TypeOf(p: seq<Byte>, n: nat, i: nat): Byte
  {
    var at := 9 + (n + 7) / 8;
    if at < |p| && p[at] == 1 && at + 1 + 2 * i < |p| then p[at + 1 + 2 * i] else 0xfd
  }

  function ValuesStart(p: seq<Byte>, n: nat): nat
  {
    var at := 9 + (n + 7) / 8;
    if at < |p| && p[at] == 1 then at + 1 + 2 * n else at + 1
  }

  /** The parameters from `i` on, the values being read from `pos`. */
  function ReadFrom(fl: Floats, p: seq<Byte>, n: nat, i: nat, pos: nat): (vs: seq<string>)
    requires i <= n && 9 + (n + 7) / 8 <= |p|
    ensures |vs| == n - i
    decreases n - i
  {
    if i == n then []
    else if IsNullParam(p, i) then ["NULL"] + ReadFrom(fl, p, n, i + 1, pos)
    else var (v, next) := ReadValue(fl, p, pos, TypeOf(p, n, i)); [v] + ReadFrom(fl, p, n, i + 1, next)
  }

  function ParseParams(fl: Floats, p: seq<Byte>, n: nat): (vs: seq<string>)
    ensures |vs| == n
  {
    if n == 0 then [] else if |p| <= 9 || 9 + (n + 7) / 8 > |p| then seq(n, _ => "NULL") else ReadFrom(fl, p, n, 0, ValuesStart(p, n))
  }

  /** The switch of `parse_execute_params` for one value. */
  method TakeValue(fl: Floats, p: seq<Byte>, start: nat, ft: Byte) returns (val: string, pos: nat)
    ensures (val, pos) == ReadValue(fl, p, start, ft)
  {
    pos := start;
    match ft
    case 0x01 =>
      var v: nat := if pos < |p| then p[pos] else 0;
      return IntText(Signed(v, 256)), pos + 1;
    case 0x02 =>
      if pos + 2 > |p| {
        return "NULL", |p|;
      }
      Low2(p, pos);
      return IntText(Signed(Number3(p[pos], p[pos + 1], 0), 0x1_0000)), pos + 2;
    case 0x03 | 0x09 =>
      if pos + 4 > |p| {
        return "NULL", |p|;
      }
      return IntText(Signed(FromLittleEndian(p[pos..pos + 4]), 0x1_0000_0000)), pos + 4;
    case 0x08 | 0x10 =>
      if pos + 8 > |p| {
        return "NULL", |p|;
      }
      return IntText(Signed(FromLittleEndian(p[pos..pos + 8]), TWO64)), pos + 8;
    case 0x04 =>
      if pos + 4 > |p| {
        return "NULL", |p|;
      }
      return fl.float(p[pos..pos + 4]), pos + 4;
    case 0x05 =>
      if pos + 8 > |p| {
        return "NULL", |p|;
      }
      return fl.double(p[pos..pos + 8]), pos + 8;
    case 0x0a =>
      if pos + 4 > |p| {
        return "NULL", |p|;
      }
      Low2(p, pos);
      return DateText(Number3(p[pos], p[pos + 1], 0), p[pos + 2], p[pos + 3]), pos + 4;
    case 0x0b | 0x0c =>
      val, pos := TakeDateTime(p, pos);
    case _ =>
      val, pos := TakeText(p, pos);
  }

  method TakeDateTime(p: seq<Byte>, start: nat) returns (val: string, pos: nat)
    ensures (val, pos) == ReadDateTime(p, start)
  {
    hide DateTimeText, Number3, FromLittleEndian;
    var len: nat := if start < |p| then p[start] else 0;
    pos := start + 1;
    if len >= 4 && pos + 4 <= |p| {
      Low2(p, pos);
      var h: nat, mi: nat, s: nat := 0, 0, 0;
      if len >= 7 && pos + 7 <= |p| {
        h, mi, s := p[pos + 4], p[pos + 5], p[pos + 6];
      }
      return DateTimeText(Number3(p[pos], p[pos + 1], 0), p[pos + 2], p[pos + 3], h, mi, s), pos + len;
    }
    return "NULL", pos + len;
  }

  method TakeText(p: seq<Byte>, start: nat) returns (val: string, pos: nat)
    ensures (val, pos) == ReadText(p, start)
  {
    pos := start;
    if pos >= |p| {
      return "NULL", pos;
    }
    var (len, used) := ReadLenEnc(p[pos..]);
    pos := pos + used;
    if pos + len > |p| {
      return "NULL", pos;
    }
    var escaped := Escape(p[pos..pos + len]);
    return "'" + escaped + "'", pos + len;
  }

  lemma Low2(p: seq<Byte>, pos: nat)
    requires pos + 2 <= |p|
    ensures FromLittleEndian(p[pos..pos + 2]) == Number3(p[pos], p[pos + 1], 0)
  {
    var b := p[pos..pos + 2];
    assert b[1..] == [p[pos + 1]] && b[1..][1..] == [];
    assert FromLittleEndian(b[1..]) == p[pos + 1];
  }

  method Escape(s: seq<Byte>) returns (escaped: string)
    ensures escaped == Doubled(s)
  {
    escaped := "";
    assert s[0..] == s;
    for i := 0 to |s|
      invariant escaped + Doubled(s[i..]) == Doubled(s)
    {
      assert s[i..][1..] == s[i + 1..] && s[i..][0] == s[i];
      var unit := if s[i] == 0x27 then "''" else [s[i] as char];
      Regroup(escaped, unit, Doubled(s[i + 1..]));
      escaped := escaped + unit;
    }
  }

  /** `parse_execute_params`: as many values as parameters for every payload, and no byte read outside it. */
  method ParseExecuteParams(fl: Floats, p: seq<Byte>, n: nat) returns (params: seq<string>)
    ensures params == ParseParams(fl, p, n)
  {
    if n == 0 {
      return [];
    }
    var pos: nat := 9;
    if pos >= |p| {
      return seq(n, _ => "NULL");
    }
    var bitmap := (n + 7) / 8;
    if pos + bitmap > |p| {
      return seq(n, _ => "NULL");
    }
    pos := pos + bitmap;
    var types := ReadTypes(p, n);
    var bound := pos < |p| && p[pos] == 1;
    pos := if bound then pos + 1 + 2 * n else pos + 1;
    params := TakeValues(fl, p, n, pos, types);
  }

  method TakeValues(fl: Floats, p: seq<Byte>, n: nat, start: nat, types: seq<Byte>) returns (params: seq<string>)
    requires 9 + (n + 7) / 8 <= |p| && |types| == n && forall i :: 0 <= i < n ==> types[i] == TypeOf(p, n, i)
    ensures params == ReadFrom(fl, p, n, 0, start)
  {
    hide ReadValue, Bit, TypeOf;
    var pos := start;
    params := [];
    for i := 0 to n
      invariant params + ReadFrom(fl, p, n, i, pos) == ReadFrom(fl, p, n, 0, start)
    {
      var val := "NULL";
      if !Bit(p[9 + i / 8], i % 8) {
        val, pos := TakeValue(fl, p, pos, types[i]);
      }
      Regroup(params, [val], ReadFrom(fl, p, n, i + 1, pos));
      params := params + [val];
    }
    assert params + [] == params;
  }

  method ReadTypes(p: seq<Byte>, n: nat) returns (types: seq<Byte>)
    ensures |types| == n && forall i :: 0 <= i < n ==> types[i] == TypeOf(p, n, i)
  {
    var pos := 9 + (n + 7) / 8;
    var bound := if pos < |p| then p[pos] else 0;
    pos := pos + 1;
    types := [];
    for i := 0 to n
      invariant pos == 9 + (n + 7) / 8 + 1 + 2 * i
      invariant |types| == i && forall k :: 0 <= k < i ==> types[k] == TypeOf(p, n, k)
    {
      if bound == 1 {
        var ft := if pos < |p| then p[pos] else 0xfd;
        types := types + [ft];
      } else {
        types := types + [0xfd];
      }
      pos := pos + 2;
    }
  }
}
