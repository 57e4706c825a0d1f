/** utf8mb4_0900_ai_ci: the weights of a text, the comparison of two texts and the two kinds of key. */
module Collation {
  import opened Common
  import opened Utf8
  import opened Weights

  // ---- the weights of a text ----

  /** What the cursor yields for a code point: ASCII goes through the ASCII table, the rest through `weights_of`. */
  ghost function CharWeights(t: Table, cp: CodePoint): seq<Weight>
    requires Sound(t)
  {
    if cp < 0x80 then AsciiWeights(t, cp) else WeightsOf(t, cp)
  }

  /** The weights of code points, one after the other. */
  ghost function WeightsOfAll(t: Table, cs: seq<CodePoint>): seq<Weight>
    requires Sound(t)
  {
    if cs == [] then [] else CharWeights(t, cs[0]) + WeightsOfAll(t, cs[1..])
  }

  ghost function TextWeights(t: Table, s: seq<Byte>, pos: nat): seq<Weight>
    requires Sound(t) && pos <= |s|
  {
    WeightsOfAll(t, CodePointsFrom(s, pos))
  }

  lemma NextCharWeights(t: Table, s: seq<Byte>, pos: nat)
    requires Sound(t) && pos < |s|
    ensures TextWeights(t, s, pos) == CharWeights(t, DecodeAt(s, pos).0) + TextWeights(t, s, DecodeAt(s, pos).1)
    ensures s[pos] >= 0x80 ==> DecodeAt(s, pos).0 >= 0x80
  {
    var (cp, next) := DecodeAt(s, pos);
    assert CodePointsFrom(s, pos) == [cp] + CodePointsFrom(s, next);
    DecodeIsExact(s, pos);
    assert s[pos..next][0] == s[pos];
  }

  /** A walk over the weights of a text that keeps one character's weights in a buffer. */
  class Cursor {
    const s: seq<Byte>
    const table: AsciiTable
    var pos: nat
    const buf: array<Weight>
    var n: nat
    var i: nat
    ghost var rest: seq<Weight> // the weights still to come

    ghost predicate Valid()
      reads this, buf
    {
      && table.Valid() && buf.Length == ROOM && pos <= |s| && i <= n <= ROOM
      && rest == buf[i..n] + TextWeights(table.t, s, pos)
    }

    constructor (s: seq<Byte>, table: AsciiTable)
      requires table.Valid()
      ensures Valid() && this.s == s && this.table == table && fresh(buf)
      ensures rest == TextWeights(table.t, s, 0)
    {
      this.s := s;
      this.table := table;
      buf := new Weight[ROOM];
      pos, n, i := 0, 0, 0;
      rest := TextWeights(table.t, s, 0);
    }

    /** The next character that is not ASCII goes into the buffer. */
    method Refill()
      requires Valid() && i == n && pos < |s| && s[pos] >= 0x80
      modifies this, buf
      ensures Valid() && pos > old(pos) && rest == old(rest)
    {
      NextCharWeights(table.t, s, pos);
      var cp, next := Decode(s, pos);
      pos := next;
      n := FillWeights(table.t, cp, buf);
      i := 0;
      assert buf[0..n] == buf[..n];
    }

    /** Moves past an ASCII character, which has the weight the table says, if any. */
    method PassAscii() returns (c: Byte)
      requires Valid() && i == n && pos < |s| && s[pos] < 0x80
      modifies `pos
      ensures c == old(s[pos]) < 0x80 && pos == old(pos) + 1 <= |s|
      ensures rest == (if table.n[c] != 0 then [table.w[c]] else []) + TextWeights(table.t, s, pos)
    {
      c := s[pos];
      NextCharWeights(table.t, s, pos);
      assert rest == TextWeights(table.t, s, pos);
      pos := pos + 1;
    }

    /** The next weight; false exactly at the end of the text. */
    method Next() returns (w: Weight, more: bool)
      requires Valid()
      modifies this, buf
      ensures Valid()
      ensures more <==> old(rest) != []
      ensures rest == if more then old(rest)[1..] else []
      ensures more ==> w == old(rest)[0]
    {
      hide Sound, AsciiWeights;
      while true
        invariant Valid() && rest == old(rest)
        decreases |s| - pos, n - i
      {
        if i < n {
          assert rest[1..] == buf[i + 1..n] + TextWeights(table.t, s, pos);
          i, rest := i + 1, rest[1..];
          return buf[i - 1], true;
        }
        if pos >= |s| {
          return 0, false;
        }
        if s[pos] < 0x80 {
          var c := PassAscii();
          assert buf[i..n] == [];
          if table.n[c] != 0 {
            rest := rest[1..];
            return table.w[c], true;
          }
          continue;
        }
        Refill();
      }
    }
  }

  // ---- comparison ----

  const NULL_TEXT: seq<Byte> := [0x4E, 0x55, 0x4C, 0x4C]

  predicate IsNull(s: seq<Byte>) { s == NULL_TEXT }

  /** How two texts compare: NULL first, then by their weights. */
  ghost function Order(t: Table, a: seq<Byte>, b: seq<Byte>): int
    requires Sound(t)
  {
    if IsNull(a) || IsNull(b) then
      if IsNull(a) then if IsNull(b) then 0 else -1 else 1
    else
      Lex(TextWeights(t, a, 0), TextWeights(t, b, 0))
  }

  method Compare(ascii: AsciiTable, a: seq<Byte>, b: seq<Byte>) returns (r: int)
    requires ascii.Valid()
    ensures r == Order(ascii.t, a, b)
  {
    if IsNull(a) || IsNull(b) {
      return if IsNull(a) then if IsNull(b) then 0 else -1 else 1;
    }
    var ca := new Cursor(a, ascii);
    var cb := new Cursor(b, ascii);
    while true
      invariant ca.Valid() && cb.Valid() && fresh(ca) && fresh(ca.buf) && fresh(cb) && fresh(cb.buf)
      invariant ca != cb && ca.buf != cb.buf
      invariant Order(ascii.t, a, b) == Lex(ca.rest, cb.rest)
      decreases |ca.rest|
    {
      ghost var ra, rb := ca.rest, cb.rest;
      var wa, ha := ca.Next();
      var wb, hb := cb.Next();
      if !ha || !hb {
        return if ha == hb then 0 else if ha then 1 else -1;
      }
      assert ra[0] == wa && rb[0] == wb && ra[1..] == ca.rest && rb[1..] == cb.rest;
      if wa != wb {
        return if wa < wb then -1 else 1;
      }
    }
  }

  ghost predicate Same(t: Table, a: seq<Byte>, b: seq<Byte>)
    requires Sound(t)
  {
    Order(t, a, b) == 0
  }

  /** `equal`: identical bytes short-cut the comparison without changing its answer. */
  method Equal(ascii: AsciiTable, a: seq<Byte>, b: seq<Byte>) returns (r: bool)
    requires ascii.Valid()
    ensures r == Same(ascii.t, a, b)
  {
    if a == b {
      LexReflects(TextWeights(ascii.t, a, 0), TextWeights(ascii.t, a, 0));
      return true;
    }
    var c := Compare(ascii, a, b);
    r := c == 0;
  }

  /** The comparison is a total preorder: antisymmetric in sign, transitive, and so reflexive; NULL is below every other text. */
  lemma OrderIsTotalPreorder(t: Table, a: seq<Byte>, b: seq<Byte>, c: seq<Byte>)
    requires Sound(t)
    ensures Order(t, a, b) == -Order(t, b, a)
    ensures Order(t, a, b) <= 0 && Order(t, b, c) <= 0 ==> Order(t, a, c) <= 0
    ensures !IsNull(a) ==> Order(t, NULL_TEXT, a) < 0
  {
    var wa, wb, wc := TextWeights(t, a, 0), TextWeights(t, b, 0), TextWeights(t, c, 0);
    LexReflects(wa, wb);
    if Lex(wa, wb) <= 0 && Lex(wb, wc) <= 0 {
      LexTransitive(wa, wb, wc);
    }
  }

  /** Two texts are the same value exactly when both are NULL, or neither is and their weights are the same. */
  lemma SameIsSameWeights(t: Table, a: seq<Byte>, b: seq<Byte>)
    requires Sound(t)
    ensures Same(t, a, b) <==> IsNull(a) == IsNull(b) && (!IsNull(a) ==> TextWeights(t, a, 0) == TextWeights(t, b, 0))
  {
    LexReflects(TextWeights(t, a, 0), TextWeights(t, b, 0));
  }

  // ---- sort_key ----

  /** A weight as a big-endian 16-bit number. */
  function TwoBytes(w: Weight): seq<Byte> { [w / 256, w % 256] }

  /** Weights as big-endian 16-bit numbers. */
  function BigEndian(ws: seq<Weight>): (b: seq<Byte>)
    ensures |b| == 2 * |ws|
  {
    if ws == [] then [] else TwoBytes(ws[0]) + BigEndian(ws[1..])
  }

  lemma {:induction false} BigEndianAppend(a: seq<Weight>, w: Weight)
    ensures BigEndian(a + [w]) == BigEndian(a) + TwoBytes(w)
  {
    if a == [] {
      assert a + [w] == [w];
    } else {
      assert (a + [w])[1..] == a[1..] + [w];
      BigEndianAppend(a[1..], w);
    }
  }

  method SortKey(ascii: AsciiTable, s: seq<Byte>) returns (out: seq<Byte>)
    requires ascii.Valid()
    ensures out == BigEndian(TextWeights(ascii.t, s, 0))
  {
    hide Cursor.Valid, TextWeights, BigEndian;
    out := [];
    var c := new Cursor(s, ascii);
    ghost var seen: seq<Weight> := [];
    while true
      invariant c.Valid() && fresh(c) && fresh(c.buf)
      invariant out == BigEndian(seen)
      invariant TextWeights(ascii.t, s, 0) == seen + c.rest
      decreases |c.rest|
    {
      var w, more := c.Next();
      if !more {
        assert seen + [] == seen;
        return;
      }
      out := out + TwoBytes(w);
      BigEndianAppend(seen, w);
      seen := seen + [w];
    }
  }

  /** Big-endian bytes keep the order of the weights. */
  lemma {:induction false} BigEndianKeepsOrder(a: seq<Weight>, b: seq<Weight>)
    ensures Lex(BigEndian(a), BigEndian(b)) == Lex(a, b)
  {
    if a != [] && b != [] {
      var ba, bb := BigEndian(a), BigEndian(b);
      assert ba[1..][1..] == BigEndian(a[1..]) && bb[1..][1..] == BigEndian(b[1..]);
      assert ba[1..][0] == a[0] % 256 && bb[1..][0] == b[0] % 256;
      BigEndianKeepsOrder(a[1..], b[1..]);
      assert Lex(ba, bb) == if a[0] / 256 != b[0] / 256 then (if a[0] / 256 < b[0] / 256 then -1 else 1) else Lex(ba[1..], bb[1..]);
      if a[0] / 256 == b[0] / 256 {
        assert Lex(ba[1..], bb[1..]) == if a[0] % 256 != b[0] % 256 then (if a[0] % 256 < b[0] % 256 then -1 else 1) else Lex(ba[1..][1..], bb[1..][1..]);
      }
    }
  }

  /** The byte order of two sort keys is the comparison, for texts that are not NULL. */
  lemma SortKeyOrder(t: Table, a: seq<Byte>, b: seq<Byte>)
    requires Sound(t) && !IsNull(a) && !IsNull(b)
    ensures Lex(BigEndian(TextWeights(t, a, 0)), BigEndian(TextWeights(t, b, 0))) == Order(t, a, b)
  {
    BigEndianKeepsOrder(TextWeights(t, a, 0), TextWeights(t, b, 0));
  }
}
