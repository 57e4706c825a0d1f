/** Parameter values as a client sends them, by the binary protocol of MySQL (Binary Protocol Value), and what the server reads: when a value arrives, exactly. */
module PreparedFacts {
  import opened Common
  import opened Packets
  import opened Prepared

  // ---- the values of the protocol ----

  const TINY: Byte := 0x01
  const SHORT: Byte := 0x02
  const LONG: Byte := 0x03
  const LONGLONG: Byte := 0x08
  const INT24: Byte := 0x09
  const YEAR: Byte := 0x0d
  const FLOAT: Byte := 0x04
  const DOUBLE: Byte := 0x05
  const TIMESTAMP: Byte := 0x07
  const DATE: Byte := 0x0a
  const TIME: Byte := 0x0b
  const DATETIME: Byte := 0x0c
  const BIT: Byte := 0x10

  /** The types whose values are length-encoded texts: DECIMAL, VARCHAR, BIT, JSON, NEWDECIMAL, ENUM, SET, the BLOBs, VAR_STRING, STRING and GEOMETRY. */
  const TEXTS: set<Byte> := {0x00, 0x0f, BIT, 0xf5, 0xf6, 0xf7, 0xf8, 0xf9, 0xfa, 0xfb, 0xfc, 0xfd, 0xfe, 0xff}

  /** A value with the type a client announces it by; `size` is the length byte of a temporal value, which may leave a zero time and zero microseconds out. */
  datatype Value =
    | Null
    | Integer(ft: Byte, unsigned: bool, n: int)
    | Float(bits: seq<Byte>)
    | Double(bits: seq<Byte>)
    | Moment(ft: Byte, size: nat, y: nat, mo: nat, d: nat, h: nat, mi: nat, s: nat, micros: nat)
    | Span(size: nat, negative: bool, days: nat, h: nat, mi: nat, s: nat, micros: nat)
    | Text(ft: Byte, bytes: seq<Byte>)

  function Width(ft: Byte): nat { if ft == TINY then 1 else if ft == SHORT || ft == YEAR then 2 else if ft == LONG || ft == INT24 then 4 else 8 }

  /** How many values an integer of the type has. */
  function Range(ft: Byte): nat { if Width(ft) == 1 then 0x100 else if Width(ft) == 2 then 0x1_0000 else if Width(ft) == 4 then 0x1_0000_0000 else TWO64 }

  predicate ValueOk(v: Value)
  {
    match v
    case Null => true
    case Integer(ft, unsigned, n) =>
      && ft in {TINY, SHORT, LONG, LONGLONG, INT24, YEAR}
      && if unsigned then 0 <= n < Range(ft) else -(Range(ft) / 2) <= n < Range(ft) / 2
    case Float(b) => |b| == 4
    case Double(b) => |b| == 8
    case Moment(ft, size, y, mo, d, h, mi, s, micros) =>
      && ft in {DATE, DATETIME, TIMESTAMP} && size in {0, 4, 7, 11} && (ft == DATE ==> size <= 4)
      && y < 0x1_0000 && mo < 256 && d < 256 && h < 256 && mi < 256 && s < 256 && micros < 1_000_000
      && (size < 11 ==> micros == 0) && (size < 7 ==> h == mi == s == 0) && (size < 4 ==> y == mo == d == 0)
    case Span(size, negative, days, h, mi, s, micros) =>
      && size in {0, 8, 12} && days < 0x1_0000_0000 && h < 256 && mi < 256 && s < 256 && micros < 1_000_000
      && (size < 12 ==> micros == 0) && (size < 8 ==> !negative && days == h == mi == s == 0)
    case Text(ft, bytes) => ft in TEXTS && |bytes| < TWO64
  }

  function TypeByte(v: Value): Byte
    requires !v.Null?
  {
    match v
    case Integer(ft, _, _) => ft
    case Float(_) => FLOAT
    case Double(_) => DOUBLE
    case Moment(ft, _, _, _, _, _, _, _, _) => ft
    case Span(_, _, _, _, _, _, _) => TIME
    case Text(ft, _) => ft
  }

  /** The byte behind the type: 0x80 for an unsigned integer. */
  function FlagByte(v: Value): Byte { if v.Integer? && v.unsigned then 0x80 else 0 }

  function Unsigned(n: int, size: nat): int { if n < 0 then n + size else n }

  /** The bytes of a value; none for NULL, which only the bitmap carries. */
  function ValueBytes(v: Value): seq<Byte>
    requires ValueOk(v)
  {
    match v
    case Null => []
    case Integer(ft, _, n) => LittleEndian(Unsigned(n, Range(ft)), Width(ft))
    case Float(b) => b
    case Double(b) => b
    case Moment(_, size, _, _, _, _, _, _, _) => [size as Byte] + MomentBody(v)
    case Span(size, _, _, _, _, _, _) => [size as Byte] + SpanBody(v)
    case Text(_, bytes) => LenEnc(|bytes|) + bytes
  }

  function MomentBody(v: Value): (b: seq<Byte>)
    requires v.Moment? && ValueOk(v)
    ensures |b| == v.size
  {
    if v.size == 0 then []
    else LittleEndian(v.y, 2) + ([v.mo, v.d] + if v.size == 4 then [] else [v.h, v.mi, v.s] + if v.size == 7 then [] else LittleEndian(v.micros, 4))
  }

  function SpanBody(v: Value): (b: seq<Byte>)
    requires v.Span? && ValueOk(v)
    ensures |b| == v.size
  {
    if v.size == 0 then []
    else [if v.negative then 1 else 0] + (LittleEndian(v.days, 4) + ([v.h, v.mi, v.s] + if v.size == 8 then [] else LittleEndian(v.micros, 4)))
  }

  /** The SQL text the value stands for. */
  function Literal(fl: Floats, v: Value): string
  {
    match v
    case Null => "NULL"
    case Integer(_, _, n) => IntText(n)
    case Float(b) => fl.float(b)
    case Double(b) => fl.double(b)
    case Moment(ft, _, y, mo, d, h, mi, s, micros) =>
      if ft == DATE then DateText(y, mo, d) else "'" + MomentText(y, mo, d, h, mi, s, micros) + "'"
    case Span(_, negative, days, h, mi, s, micros) =>
      "'" + ((if negative then "-" else "") + ClockText(24 * days + h, mi, s) + Fraction(micros)) + "'"
    case Text(_, bytes) => Quoted(bytes)
  }

  function MomentText(y: nat, mo: nat, d: nat, h: nat, mi: nat, s: nat, micros: nat): string { (DayText(y, mo, d) + " " + ClockText(h, mi, s)) + Fraction(micros) }

  function Fraction(micros: nat): string { if micros == 0 then "" else "." + Padded(micros, 6) }

  /** Which values arrive: integers below half their range of a type that is known, DATETIMEs with a date and without microseconds, texts shorter than 2^24 bytes. */
  predicate Handled(v: Value)
  {
    match v
    case Null => true
    case Integer(ft, _, n) => ft != YEAR && n < Range(ft) / 2
    case Float(_) => true
    case Double(_) => true
    case Moment(ft, size, _, _, _, _, _, _, micros) => ft == DATETIME && size >= 4 && micros == 0
    case Span(_, _, _, _, _, _, _) => false
    case Text(ft, bytes) => ft != BIT && |bytes| < TWO24
  }

  /** The bytes of `v` stand at `pos`. */
  ghost predicate Stands(p: seq<Byte>, pos: nat, v: Value, rest: seq<Byte>)
  {
    !v.Null? && ValueOk(v) && pos <= |p| && p[pos..] == ValueBytes(v) + rest
  }

  /** The value is read as its literal, and the reader stops where the value ends. */
  ghost predicate Arrives(fl: Floats, p: seq<Byte>, pos: nat, v: Value)
    requires !v.Null? && ValueOk(v)
  {
    ReadValue(fl, p, pos, TypeByte(v)) == (Literal(fl, v), pos + |ValueBytes(v)|)
  }

  lemma Sizes()
    ensures Power256(1) == 0x100 && Power256(2) == 0x1_0000 && Power256(4) == 0x1_0000_0000 && Power256(8) == TWO64
  {
    Powers();
    assert Power256(4) == 256 * Power256(3);
  }

  // ---- what texts look like ----

  predicate Digits(t: string) { forall i :: 0 <= i < |t| ==> '0' <= t[i] <= '9' }

  lemma PaddedDigits(n: nat, width: nat)
    ensures Digits(Padded(n, width)) && |Padded(n, width)| >= width && |Padded(n, width)| > 0
  {
  }

  lemma IntTextStart(n: int)
    ensures IntText(n) != "" && (if n < 0 then IntText(n)[0] == '-' else '0' <= IntText(n)[0] <= '9')
  {
  }

  lemma ReadTextStart(p: seq<Byte>, pos: nat)
    ensures var t := ReadText(p, pos).0; t == "NULL" || (t != "" && t[0] == '\'')
  {
  }

  lemma {:induction false} QuotesShow(s: seq<Byte>)
    ensures |Doubled(s)| == |s| || '\'' in Doubled(s)
  {
    if s != [] {
      QuotesShow(s[1..]);
    }
  }

  // ---- integers ----

  lemma IntegerBack(p: seq<Byte>, pos: nat, n: nat, k: nat, rest: seq<Byte>)
    requires pos <= |p| && p[pos..] == LittleEndian(n, k) + rest && n < Power256(k)
    ensures pos + k <= |p| && FromLittleEndian(p[pos..pos + k]) == n
  {
    assert p[pos..pos + k] == p[pos..][..k] == LittleEndian(n, k);
    LittleEndianRoundTrip(n, k);
  }

  lemma DateBack(p: seq<Byte>, pos: nat, y: nat, b: seq<Byte>)
    requires pos <= |p| && y < 0x1_0000 && p[pos..] == LittleEndian(y, 2) + b
    ensures pos + 2 <= |p| && FromLittleEndian(p[pos..pos + 2]) == y
    ensures forall i :: 0 <= i < |b| ==> p[pos + 2 + i] == b[i]
  {
    Sizes();
    IntegerBack(p, pos, y, 2, b);
    forall i | 0 <= i < |b| ensures p[pos + 2 + i] == b[i] {
      assert p[pos + 2 + i] == p[pos..][2 + i];
    }
  }

  /** What is read of an integer: the flag makes no difference, and the upper half of the range becomes negative. */
  lemma IntegerRead(fl: Floats, p: seq<Byte>, pos: nat, v: Value, rest: seq<Byte>)
    requires v.Integer? && v.ft != YEAR && Stands(p, pos, v, rest)
    ensures ReadValue(fl, p, pos, v.ft) == (IntText(if v.n < Range(v.ft) / 2 then v.n else v.n - Range(v.ft)), pos + |ValueBytes(v)|)
  {
    hide LittleEndian, FromLittleEndian, IntText, Power256;
    Sizes();
    IntegerBack(p, pos, Unsigned(v.n, Range(v.ft)), Width(v.ft), rest);
    if v.ft == TINY {
      OneByte(Unsigned(v.n, 0x100));
      assert p[pos] == p[pos..][0];
    }
  }

  lemma OneByte(n: nat)
    requires n < 256
    ensures LittleEndian(n, 1) == [n]
  {
    assert LittleEndian(n / 256, 0) == [];
  }

  lemma IntegerExactly(fl: Floats, p: seq<Byte>, pos: nat, v: Value, rest: seq<Byte>)
    requires v.Integer? && Stands(p, pos, v, rest)
    ensures Arrives(fl, p, pos, v) <==> Handled(v)
  {
    IntTextStart(v.n);
    IntTextStart(v.n - Range(v.ft));
    if v.ft == YEAR {
      ReadTextStart(p, pos);
      hide ReadText;
    } else {
      IntegerRead(fl, p, pos, v, rest);
    }
    hide IntText, ValueBytes;
  }

  /** A TINYINT UNSIGNED of 200 is read as -56. */
  lemma UnsignedTurnsNegative(fl: Floats, p: seq<Byte>, pos: nat, rest: seq<Byte>)
    requires pos <= |p| && p[pos..] == [200] + rest
    ensures Literal(fl, Integer(TINY, true, 200)) == IntText(200) && ReadValue(fl, p, pos, TINY) == (IntText(-56), pos + 1)
  {
    OneByte(200);
    IntegerRead(fl, p, pos, Integer(TINY, true, 200), rest);
  }

  // ---- dates and times ----

  /** What is read of a DATETIME: its microseconds are passed over, and without a date it is NULL. */
  lemma MomentRead(fl: Floats, p: seq<Byte>, pos: nat, v: Value, rest: seq<Byte>)
    requires v.Moment? && v.ft == DATETIME && Stands(p, pos, v, rest)
    ensures ReadValue(fl, p, pos, DATETIME) == (if v.size == 0 then "NULL" else DateTimeText(v.y, v.mo, v.d, v.h, v.mi, v.s), pos + 1 + v.size)
    ensures |ValueBytes(v)| == 1 + v.size
  {
    hide LittleEndian, FromLittleEndian, DateTimeText;
    assert p[pos] == p[pos..][0] == v.size;
    if v.size > 0 {
      assert p[pos + 1..] == p[pos..][1..] == MomentBody(v) + rest;
      MomentFields(p, pos + 1, v, rest);
      hide MomentBody, ValueBytes;
    }
  }

  lemma MomentFields(p: seq<Byte>, at: nat, v: Value, rest: seq<Byte>)
    requires v.Moment? && ValueOk(v) && v.size > 0 && at <= |p| && p[at..] == MomentBody(v) + rest
    ensures at + v.size <= |p| && FromLittleEndian(p[at..at + 2]) == v.y && p[at + 2] == v.mo && p[at + 3] == v.d
    ensures v.size >= 7 ==> p[at + 4] == v.h && p[at + 5] == v.mi && p[at + 6] == v.s
  {
    hide LittleEndian, FromLittleEndian;
    var tail := if v.size == 4 then [] else [v.h, v.mi, v.s] + if v.size == 7 then [] else LittleEndian(v.micros, 4);
    var b := ([v.mo, v.d] + tail) + rest;
    assert p[at..] == LittleEndian(v.y, 2) + b;
    DateBack(p, at, v.y, b);
    assert p[at + 2 + 0] == b[0] && p[at + 2 + 1] == b[1];
    if v.size >= 7 {
      assert p[at + 2 + 2] == b[2] == v.h && p[at + 2 + 3] == b[3] == v.mi && p[at + 2 + 4] == b[4] == v.s;
    }
  }

  lemma DateTimeIs(y: nat, mo: nat, d: nat, h: nat, mi: nat, s: nat, micros: nat)
    ensures var t, u := DateTimeText(y, mo, d, h, mi, s), "'" + MomentText(y, mo, d, h, mi, s, micros) + "'";
      if micros == 0 then t == u else |u| > |t|
  {
    hide DayText, ClockText;
    var stamp := DayText(y, mo, d) + " " + ClockText(h, mi, s);
    assert stamp + "" == stamp;
  }

  /** A TIMESTAMP is read as a text of its bytes. */
  lemma TimestampRead(fl: Floats, p: seq<Byte>, pos: nat, v: Value, rest: seq<Byte>)
    requires v.Moment? && v.ft == TIMESTAMP && Stands(p, pos, v, rest)
    ensures ReadValue(fl, p, pos, TIMESTAMP) == (Quoted(MomentBody(v)), pos + |ValueBytes(v)|)
  {
    var b := MomentBody(v);
    hide MomentBody, Quoted;
    assert p[pos..][0] == v.size && ReadLenEnc(p[pos..]) == (v.size, 1);
    assert p[pos + 1..pos + 1 + v.size] == p[pos..][1..1 + v.size] == b;
  }

  /** No text of so few bytes is a date with a time. */
  lemma ShortIsNoMoment(b: seq<Byte>, y: nat, mo: nat, d: nat, h: nat, mi: nat, s: nat, micros: nat)
    requires |b| <= 11
    ensures Quoted(b) != "'" + MomentText(y, mo, d, h, mi, s, micros) + "'"
  {
    var t := MomentText(y, mo, d, h, mi, s, micros);
    DayShape(y, mo, d);
    ClockShape(h, mi, s);
    FractionShape(micros);
    hide DayText, ClockText, Fraction;
    assert |t| > 11 && '\'' !in t;
    hide MomentText;
    if Quoted(b) == "'" + t + "'" {
      InQuotes(Doubled(b), t);
      QuotesShow(b);
    }
  }

  lemma InQuotes(a: string, b: string)
    requires "'" + a + "'" == "'" + b + "'"
    ensures a == b
  {
    assert ("'" + a + "'")[1..|a| + 1] == a && ("'" + b + "'")[1..|b| + 1] == b;
  }

  lemma DayShape(y: nat, mo: nat, d: nat)
    ensures |DayText(y, mo, d)| >= 10 && '\'' !in DayText(y, mo, d)
  {
    PaddedDigits(y, 4);
    PaddedDigits(mo, 2);
    PaddedDigits(d, 2);
    hide Padded;
  }

  lemma ClockShape(h: nat, mi: nat, s: nat)
    ensures |ClockText(h, mi, s)| >= 8 && '\'' !in ClockText(h, mi, s) && ' ' !in ClockText(h, mi, s)
  {
    PaddedDigits(h, 2);
    PaddedDigits(mi, 2);
    PaddedDigits(s, 2);
    hide Padded;
  }

  lemma FractionShape(micros: nat)
    ensures '\'' !in Fraction(micros) && ' ' !in Fraction(micros)
  {
    PaddedDigits(micros, 6);
    hide Padded;
  }

  /** A DATE is read without its length byte: the reader stops elsewhere, whatever it reads. */
  lemma DateIsLost(fl: Floats, p: seq<Byte>, pos: nat, v: Value, rest: seq<Byte>)
    requires v.Moment? && v.ft == DATE && Stands(p, pos, v, rest)
    ensures !Arrives(fl, p, pos, v)
  {
    assert |ValueBytes(v)| == 1 + v.size;
    assert DateText(v.y, v.mo, v.d)[0] == '\'';
    hide DateText, ValueBytes;
  }

  lemma MomentExactly(fl: Floats, p: seq<Byte>, pos: nat, v: Value, rest: seq<Byte>)
    requires v.Moment? && Stands(p, pos, v, rest)
    ensures Arrives(fl, p, pos, v) <==> Handled(v)
  {
    if v.ft == DATE {
      DateIsLost(fl, p, pos, v, rest);
    } else if v.ft == TIMESTAMP {
      TimestampRead(fl, p, pos, v, rest);
      ShortIsNoMoment(MomentBody(v), v.y, v.mo, v.d, v.h, v.mi, v.s, v.micros);
    } else {
      MomentRead(fl, p, pos, v, rest);
      DateTimeIs(v.y, v.mo, v.d, v.h, v.mi, v.s, v.micros);
    }
    hide ReadValue, DayText, ClockText, Fraction, Quoted, DateTimeText, ValueBytes, MomentBody;
  }

  /** A TIME is read as a DATETIME, which its bytes are not: the sign and the first byte of the days become the year. */
  lemma SpanRead(fl: Floats, p: seq<Byte>, pos: nat, v: Value, rest: seq<Byte>)
    requires v.Span? && Stands(p, pos, v, rest)
    ensures v.size == 0 ==> ReadValue(fl, p, pos, TIME).0 == "NULL"
    ensures v.size > 0 ==> var b := SpanBody(v); ReadValue(fl, p, pos, TIME).0 == DateTimeText(Number3(b[0], b[1], 0), b[2], b[3], b[4], b[5], b[6])
  {
    var b := SpanBody(v);
    assert p[pos] == p[pos..][0] == v.size;
    if v.size > 0 {
      hide SpanBody, DateTimeText;
      forall i | 0 <= i < 7 ensures p[pos + 1 + i] == b[i] {
        assert p[pos + 1 + i] == p[pos..][1 + i];
      }
      assert p[pos + 1 + 0] == b[0] && p[pos + 1 + 1] == b[1] && p[pos + 1 + 2] == b[2] && p[pos + 1 + 3] == b[3];
      assert p[pos + 1 + 4] == b[4] && p[pos + 1 + 5] == b[5] && p[pos + 1 + 6] == b[6];
      Low2(p, pos + 1);
    }
  }

  /** A blank stands in a date with a time, none in a time. */
  lemma SpanIsNoMoment(fl: Floats, v: Value, y: nat, mo: nat, d: nat, h: nat, mi: nat, s: nat)
    requires v.Span?
    ensures ' ' in DateTimeText(y, mo, d, h, mi, s) && ' ' !in Literal(fl, v) && Literal(fl, v)[0] == '\''
  {
    ClockShape(24 * v.days + v.h, v.mi, v.s);
    FractionShape(v.micros);
    hide ClockText, Fraction, DayText;
    var t := DayText(y, mo, d) + " " + ClockText(h, mi, s);
    assert t[|DayText(y, mo, d)|] == ' ';
    InsideQuotes(t, ' ');
    var u := (if v.negative then "-" else "") + ClockText(24 * v.days + v.h, v.mi, v.s) + Fraction(v.micros);
    assert ' ' !in u;
    InsideQuotes(u, ' ');
  }

  lemma InsideQuotes(t: string, c: char)
    requires c != '\''
    ensures c in "'" + t + "'" <==> c in t
  {
  }

  lemma SpanIsLost(fl: Floats, p: seq<Byte>, pos: nat, v: Value, rest: seq<Byte>)
    requires v.Span? && Stands(p, pos, v, rest)
    ensures !Arrives(fl, p, pos, v)
  {
    SpanRead(fl, p, pos, v, rest);
    hide ReadValue, Literal, DateTimeText, ValueBytes;
    if v.size > 0 {
      var b := SpanBody(v);
      hide SpanBody;
      SpanIsNoMoment(fl, v, Number3(b[0], b[1], 0), b[2], b[3], b[4], b[5], b[6]);
    } else {
      SpanIsNoMoment(fl, v, 0, 0, 0, 0, 0, 0);
      assert "NULL"[0] != '\'';
    }
  }

  /** A date sent with a length byte in front, as the other temporal types have it, is not read as that date: the length and the low byte of the year
      become the year, the high byte the month, the month the day. */
  lemma DateWithLengthByte(fl: Floats, p: seq<Byte>, pos: nat, y: nat, mo: nat, d: nat, rest: seq<Byte>)
    requires y < 0x1_0000 && mo < 256 && d < 256 && pos <= |p| && p[pos..] == [4] + LittleEndian(y, 2) + [mo, d] + rest
    ensures ReadValue(fl, p, pos, 0x0a) == (DateText(4 + 256 * (y % 256), y / 256, mo), pos + 4)
  {
    var b := p[pos..];
    assert LittleEndian(y / 256, 1) == [y / 256 % 256];
    assert b[0] == 4 && b[1] == y % 256 && b[2] == y / 256 && b[3] == mo;
    assert p[pos] == b[0] && p[pos + 1] == b[1] && p[pos + 2] == b[2] && p[pos + 3] == b[3];
    Low2(p, pos);
  }

  // ---- texts ----

  lemma TextBack(p: seq<Byte>, pos: nat, s: seq<Byte>, rest: seq<Byte>)
    requires |s| < TWO24 && pos <= |p| && p[pos..] == LenEnc(|s|) + s + rest
    ensures ReadText(p, pos) == (Quoted(s), pos + |LenEnc(|s|)| + |s|)
  {
    Regroup(LenEnc(|s|), s, rest);
    LenEncRoundTrip(|s|, s + rest);
    var used := |LenEnc(|s|)|;
    assert p[pos + used..pos + used + |s|] == p[pos..][used..used + |s|] == s;
  }

  /** Texts of 2^24 bytes and more cannot be sent: their length is not understood, and an empty text is read. */
  lemma LongTextIsLost(p: seq<Byte>, pos: nat, s: seq<Byte>, rest: seq<Byte>)
    requires TWO24 <= |s| < TWO64 && pos <= |p| && p[pos..] == LenEnc(|s|) + s + rest
    ensures ReadText(p, pos) == ("''", pos + 1) && Quoted(s) != "''"
  {
    var b := p[pos..];
    assert b[0] == LenEnc(|s|)[0] == 0xfe;
    assert ReadLenEnc(b) == (0, 1);
    assert p[pos + 1..pos + 1] == [];
    assert Quoted([]) == "''";
    assert |Doubled(s)| >= 1 && |Quoted(s)| == |Doubled(s)| + 2;
  }

  /** A text is read back, and the reader stops behind it, exactly when it is shorter than that. */
  lemma TextBackExactly(p: seq<Byte>, pos: nat, s: seq<Byte>, rest: seq<Byte>)
    requires |s| < TWO64 && pos <= |p| && p[pos..] == LenEnc(|s|) + s + rest
    ensures ReadText(p, pos) == (Quoted(s), pos + |LenEnc(|s|)| + |s|) <==> |s| < TWO24
  {
    hide ReadText, LenEnc, Quoted;
    if |s| < TWO24 {
      TextBack(p, pos, s, rest);
    } else {
      LongTextIsLost(p, pos, s, rest);
    }
  }

  lemma BitIsLost(fl: Floats, p: seq<Byte>, pos: nat, s: seq<Byte>)
    ensures ReadValue(fl, p, pos, BIT).0 != Quoted(s)
  {
    if pos + 8 <= |p| {
      IntTextStart(Signed(FromLittleEndian(p[pos..pos + 8]), TWO64));
    }
    assert Quoted(s)[0] == '\'' && "NULL"[0] != '\'';
    hide IntText, Quoted, FromLittleEndian;
  }

  lemma TextExactly(fl: Floats, p: seq<Byte>, pos: nat, v: Value, rest: seq<Byte>)
    requires v.Text? && Stands(p, pos, v, rest)
    ensures Arrives(fl, p, pos, v) <==> Handled(v)
  {
    hide ReadText, LenEnc, Quoted;
    if v.ft == BIT {
      BitIsLost(fl, p, pos, v.bytes);
      hide ReadValue;
    } else {
      TextBackExactly(p, pos, v.bytes, rest);
      assert ReadValue(fl, p, pos, v.ft) == ReadText(p, pos);
    }
  }

  /** A quoted text gives its bytes back: undoing the doubled quotes. */
  function Undoubled(t: string): seq<Byte>
    requires forall i :: 0 <= i < |t| ==> t[i] as int < 256
  {
    if t == "" then []
    else if t[0] == '\'' && |t| > 1 && t[1] == '\'' then [0x27] + Undoubled(t[2..])
    else [t[0] as int] + Undoubled(t[1..])
  }

  /** Doubling the quotes loses nothing, and leaves no single quote that could end the text early. */
  lemma {:induction false} QuotingRoundTrip(s: seq<Byte>)
    ensures forall i :: 0 <= i < |Doubled(s)| ==> Doubled(s)[i] as int < 256
    ensures Undoubled(Doubled(s)) == s
    ensures Paired(Doubled(s))
  {
    if s != [] {
      QuotingRoundTrip(s[1..]);
      var t := Doubled(s);
      if s[0] == 0x27 {
        assert t[2..] == Doubled(s[1..]);
      } else {
        assert t[1..] == Doubled(s[1..]);
        assert t[0] != '\'';
      }
      assert s == [s[0]] + s[1..];
    }
  }

  /** Quotes come in pairs only. */
  ghost predicate Paired(t: string)
  {
    t == "" || (if t[0] == '\'' then |t| > 1 && t[1] == '\'' && Paired(t[2..]) else Paired(t[1..]))
  }

  // ---- what arrives ----

  /** A value is read as its literal, and the reader stops where the value ends, exactly when it is one of those that are handled. */
  lemma ValueExactly(fl: Floats, p: seq<Byte>, pos: nat, v: Value, rest: seq<Byte>)
    requires Stands(p, pos, v, rest)
    ensures Arrives(fl, p, pos, v) <==> Handled(v)
  {
    match v
    case Integer(_, _, _) => IntegerExactly(fl, p, pos, v, rest);
    case Float(b) => assert p[pos..pos + 4] == p[pos..][..4] == b;
    case Double(b) => assert p[pos..pos + 8] == p[pos..][..8] == b;
    case Moment(_, _, _, _, _, _, _, _, _) => MomentExactly(fl, p, pos, v, rest);
    case Span(_, _, _, _, _, _, _) => SpanIsLost(fl, p, pos, v, rest);
    case Text(_, _) => TextExactly(fl, p, pos, v, rest);
  }

  predicate AllOk(vs: seq<Value>) { forall i :: 0 <= i < |vs| ==> ValueOk(vs[i]) }

  predicate AllHandled(vs: seq<Value>, i: nat) { forall j :: i <= j < |vs| ==> Handled(vs[j]) }

  function AllBytes(vs: seq<Value>): seq<Byte>
    requires AllOk(vs)
  {
    if vs == [] then [] else ValueBytes(vs[0]) + AllBytes(vs[1..])
  }

  function Literals(fl: Floats, vs: seq<Value>): (ls: seq<string>)
    ensures |ls| == |vs|
  {
    if vs == [] then [] else [Literal(fl, vs[0])] + Literals(fl, vs[1..])
  }

  /** A payload that sends the values: the bitmap marks exactly the NULLs, each value is announced by its type and its flag, and the bytes of the values follow.
      What stands in the nine bytes of the header, in the other bits and behind the values does not matter. */
  ghost predicate Sends(p: seq<Byte>, vs: seq<Value>, tail: seq<Byte>)
  {
    var n := |vs|;
    var at := 9 + (n + 7) / 8;
    && AllOk(vs) && at + 1 + 2 * n <= |p| && p[at] == 1
    && (forall i :: 0 <= i < n ==> IsNullParam(p, i) == vs[i].Null?)
    && (forall i :: 0 <= i < n && !vs[i].Null? ==> TypeOf(p, n, i) == TypeByte(vs[i]) && p[at + 2 + 2 * i] == FlagByte(vs[i]))
    && p[at + 1 + 2 * n..] == AllBytes(vs) + tail
  }

  /** From the `i`-th parameter on every value arrives, and NULL where NULL is sent. */
  ghost predicate AllArrive(fl: Floats, p: seq<Byte>, vs: seq<Value>, i: nat, pos: nat)
    requires i <= |vs| && AllOk(vs)
    decreases |vs| - i
  {
    i == |vs| || if vs[i].Null? then AllArrive(fl, p, vs, i + 1, pos) else Arrives(fl, p, pos, vs[i]) && AllArrive(fl, p, vs, i + 1, pos + |ValueBytes(vs[i])|)
  }

  lemma {:induction false} ArriveFrom(fl: Floats, p: seq<Byte>, vs: seq<Value>, tail: seq<Byte>, i: nat, pos: nat)
    requires Sends(p, vs, tail) && i <= |vs| && pos <= |p| && p[pos..] == AllBytes(vs[i..]) + tail
    ensures AllArrive(fl, p, vs, i, pos) <==> AllHandled(vs, i)
    ensures AllArrive(fl, p, vs, i, pos) ==> ReadFrom(fl, p, |vs|, i, pos) == Literals(fl, vs[i..])
    decreases |vs| - i
  {
    hide Bit, ValueBytes, TypeOf, Literal, Arrives, Handled, ReadValue, TypeByte;
    if i < |vs| {
      var v, rest := vs[i], AllBytes(vs[i + 1..]) + tail;
      assert vs[i..][1..] == vs[i + 1..] && vs[i..][0] == v;
      Regroup(ValueBytes(v), AllBytes(vs[i + 1..]), tail);
      HandledFrom(vs, i);
      hide AllHandled;
      if v.Null? {
        NullBytes(fl, v, rest);
        ArriveFrom(fl, p, vs, tail, i + 1, pos);
      } else {
        ArriveNext(fl, p, vs, tail, i, pos);
        ArriveFrom(fl, p, vs, tail, i + 1, pos + |ValueBytes(v)|);
      }
      assert IsNullParam(p, i) == v.Null?;
      hide Sends, AllBytes, IsNullParam;
    }
  }

  lemma HandledFrom(vs: seq<Value>, i: nat)
    requires i < |vs|
    ensures AllHandled(vs, i) <==> Handled(vs[i]) && AllHandled(vs, i + 1)
  {
    hide Handled;
  }

  lemma ArriveNext(fl: Floats, p: seq<Byte>, vs: seq<Value>, tail: seq<Byte>, i: nat, pos: nat)
    requires Sends(p, vs, tail) && i < |vs| && !vs[i].Null? && pos <= |p| && p[pos..] == ValueBytes(vs[i]) + (AllBytes(vs[i + 1..]) + tail)
    ensures var v, next := vs[i], pos + |ValueBytes(vs[i])|;
      && next <= |p| && p[next..] == AllBytes(vs[i + 1..]) + tail && (Arrives(fl, p, pos, v) <==> Handled(v))
      && (Arrives(fl, p, pos, v) ==> ReadValue(fl, p, pos, TypeOf(p, |vs|, i)) == (Literal(fl, v), next))
  {
    hide ValueBytes, TypeOf, Literal, Handled, ReadValue, TypeByte;
    var v, rest := vs[i], AllBytes(vs[i + 1..]) + tail;
    ValueExactly(fl, p, pos, v, rest);
    assert p[pos + |ValueBytes(v)|..] == p[pos..][|ValueBytes(v)|..] == rest;
  }

  lemma NullBytes(fl: Floats, v: Value, rest: seq<Byte>)
    requires v.Null?
    ensures ValueBytes(v) + rest == rest && Literal(fl, v) == "NULL" && Handled(v)
  {
  }

  /** The parameters of a payload arrive, each and in its place, exactly when all values are of those that are handled; then they are read as their literals. */
  lemma ParamsExactly(fl: Floats, p: seq<Byte>, vs: seq<Value>, tail: seq<Byte>)
    requires Sends(p, vs, tail)
    ensures AllArrive(fl, p, vs, 0, ValuesStart(p, |vs|)) <==> AllHandled(vs, 0)
    ensures AllHandled(vs, 0) ==> ParseParams(fl, p, |vs|) == Literals(fl, vs)
  {
    if vs != [] {
      assert vs[0..] == vs;
      ArriveFrom(fl, p, vs, tail, 0, ValuesStart(p, |vs|));
    }
  }

  /** What is executed: with one such value for each placeholder, the query with the literal of the k-th value where the k-th placeholder stood, and everything
      else as it was. */
  lemma ExecutedQuery(fl: Floats, q: string, p: seq<Byte>, vs: seq<Value>, tail: seq<Byte>)
    requires Sends(p, vs, tail) && AllHandled(vs, 0) && |vs| == PlaceholdersBefore(q, |q|)
    ensures Weave(QueryPieces(q), ParseParams(fl, p, |vs|), 0) == Bound(q, Literals(fl, vs), |q|)
    ensures forall i :: 0 <= i < |q| && IsPlaceholder(q, i) ==> PlaceholdersBefore(q, i) < |vs|
  {
    ParamsExactly(fl, p, vs, tail);
    BoundQuery(q, Literals(fl, vs));
    forall i | 0 <= i < |q| && IsPlaceholder(q, i) ensures PlaceholdersBefore(q, i) < |vs| {
      FewerBefore(q, i + 1, |q|);
    }
  }

  lemma {:induction false} FewerBefore(q: string, i: nat, j: nat)
    requires i <= j <= |q|
    ensures PlaceholdersBefore(q, i) <= PlaceholdersBefore(q, j)
  {
    if i < j {
      FewerBefore(q, i, j - 1);
    }
  }
}
