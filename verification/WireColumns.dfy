/** The type a result column is announced with: what the statement says, unless a cell is not what that type needs. */
module WireColumns {
  import opened Common
  import opened WireTypes

  datatype Check = Integer | Number | Date | DateTime | Time

  datatype WireType = WireType(code: Byte, flags: nat, decimals: Byte, length: nat, check: Check)

  const TEXT := WireType(0xfd, 0, 0, 0xffff_ffff, Integer)

  datatype DataType =
    | TinyInt | Boolean | SmallInt | Int | BigInt | Year | Float | Double | Decimal(precision: Byte, scale: Byte)
    | DateType | DateTimeType | Timestamp | TimeType | Other

  datatype ColumnDef = ColumnDef(dataType: DataType, isUnsigned: bool)
  datatype ColumnType = ColumnType(column: Option<ColumnDef>, byValue: bool)

  type Rows = seq<seq<string>>

  predicate CellFits(check: Check, v: string)
  {
    match check
    case Integer => IntegerCell(v)
    case Number => NumberText(v)
    case Date => DateCell(v)
    case DateTime => DateTimeCell(v)
    case Time => TimeCell(v)
  }

  /** The row has a value in the column. */
  predicate Shown(row: seq<string>, col: nat) { col < |row| && row[col] != "NULL" }

  predicate AllFit(check: Check, rows: Rows, col: nat) { forall r :: 0 <= r < |rows| && Shown(rows[r], col) ==> CellFits(check, rows[r][col]) }

  /** `fits` */
  method Fits(check: Check, rows: Rows, col: nat) returns (ok: bool)
    ensures ok == AllFit(check, rows, col)
  {
    hide IntegerCell, NumberText, DateCell, DateTimeCell, TimeCell;
    for i := 0 to |rows|
      invariant forall r :: 0 <= r < i && Shown(rows[r], col) ==> CellFits(check, rows[r][col])
    {
      if col < |rows[i]| && rows[i][col] != "NULL" && !CellFits(check, rows[i][col]) {
        return false;
      }
    }
    return true;
  }

  method Make(t: WireType, rows: Rows, col: nat) returns (w: WireType)
    ensures w == if AllFit(t.check, rows, col) then t else TEXT
  {
    var ok := Fits(t.check, rows, col);
    return if ok then t else TEXT;
  }

  /** What a declared column asks for. */
  function Declared(c: ColumnDef): WireType
  {
    var un := if c.isUnsigned then 0x20 else 0;
    match c.dataType
    case TinyInt => WireType(1, un, 0, 4, Integer)
    case Boolean => WireType(1, 0, 0, 1, Integer)
    case SmallInt => WireType(2, un, 0, 6, Integer)
    case Int => WireType(3, un, 0, 11, Integer)
    case BigInt => WireType(8, un, 0, 20, Integer)
    case Year => WireType(13, 0, 0, 4, Integer)
    case Float => WireType(4, 0, 31, 12, Number)
    case Double => WireType(5, 0, 31, 22, Number)
    case Decimal(p, s) => WireType(246, 0, s, p + if s != 0 then 2 else 1, Number)
    case DateType => WireType(10, 0, 0, 10, Date)
    case DateTimeType => WireType(12, 0, 0, 19, DateTime)
    case Timestamp => WireType(7, 0, 0, 19, DateTime)
    case TimeType => WireType(11, 0, 0, 10, Time)
    case Other => TEXT
  }

  const BIGINT := WireType(8, 0, 0, 20, Integer)
  const DOUBLE := WireType(5, 0, 31, 22, Number)
  function DecimalOf(scale: nat): WireType { WireType(246, 0, if scale < 30 then scale else 30, 40, Number) }

  predicate HasExponent(v: string) { exists i :: 0 <= i < |v| && (v[i] == 'e' || v[i] == 'E') }

  /** The number of characters behind the point of a text without exponent. */
  function ScaleOf(v: string): nat
  {
    if HasExponent(v) || Find(v, '.', 0) == |v| then 0 else |v| - Find(v, '.', 0) - 1
  }

  predicate SomeShown(rows: Rows, col: nat) { exists r :: 0 <= r < |rows| && Shown(rows[r], col) }
  predicate SomeExponent(rows: Rows, col: nat) { exists r :: 0 <= r < |rows| && Shown(rows[r], col) && HasExponent(rows[r][col]) }

  /** `scale` is the largest scale of a value. */
  ghost predicate IsScale(scale: nat, rows: Rows, col: nat)
  {
    && (forall r :: 0 <= r < |rows| && Shown(rows[r], col) ==> ScaleOf(rows[r][col]) <= scale)
    && (scale == 0 || exists r :: 0 <= r < |rows| && Shown(rows[r], col) && ScaleOf(rows[r][col]) == scale)
  }

  method FindExponent(v: string) returns (found: bool)
    ensures found == HasExponent(v)
  {
    for i := 0 to |v|
      invariant forall k :: 0 <= k < i ==> v[k] != 'e' && v[k] != 'E'
    {
      if v[i] == 'e' || v[i] == 'E' {
        return true;
      }
    }
    return false;
  }

  /** What the scan of an arithmetic result knows of the rows before the `i`-th. */
  datatype Scan = Scan(any: bool, whole: bool, exponent: bool, scale: nat) {
    ghost predicate Of(rows: Rows, col: nat)
    {
      && any == SomeShown(rows, col) && whole == AllFit(Integer, rows, col) && exponent == SomeExponent(rows, col)
      && IsScale(scale, rows, col) && AllFit(Number, rows, col)
    }
  }

  lemma ScanSkip(s: Scan, rows: Rows, row: seq<string>, col: nat)
    requires s.Of(rows, col) && !Shown(row, col)
    ensures s.Of(rows + [row], col)
  {
    hide CellFits, HasExponent, ScaleOf;
    var all := rows + [row];
    assert forall r :: 0 <= r < |rows| ==> all[r] == rows[r];
  }

  lemma ScanTake(s: Scan, rows: Rows, row: seq<string>, col: nat, s': Scan)
    requires s.Of(rows, col) && Shown(row, col) && CellFits(Number, row[col]) && s'.any
    requires s'.whole == (s.whole && CellFits(Integer, row[col])) && s'.exponent == (s.exponent || HasExponent(row[col]))
    requires s'.scale == if s.scale < ScaleOf(row[col]) then ScaleOf(row[col]) else s.scale
    ensures s'.Of(rows + [row], col)
  {
    hide CellFits, HasExponent, ScaleOf;
    var all := rows + [row];
    assert forall r :: 0 <= r < |rows| ==> all[r] == rows[r];
    assert all[|rows|] == row;
  }

  method TakeCell(s: Scan, v: string) returns (s': Scan)
    ensures s' == Scan(true, s.whole && CellFits(Integer, v), s.exponent || HasExponent(v), if s.scale < ScaleOf(v) then ScaleOf(v) else s.scale)
  {
    s' := s.(any := true);
    if !IntegerCell(v) {
      s' := s'.(whole := false);
    }
    var e := FindExponent(v);
    if e {
      s' := s'.(exponent := true);
    } else {
      var dot := Find(v, '.', 0);
      if dot < |v| && s.scale < |v| - dot - 1 {
        s' := s'.(scale := |v| - dot - 1);
      }
    }
  }

  /** The part of `wire_type_for` for an arithmetic result. */
  method ValueType(rows: Rows, col: nat) returns (w: WireType)
    ensures !SomeShown(rows, col) || !AllFit(Number, rows, col) ==> w == TEXT
    ensures SomeShown(rows, col) && AllFit(Number, rows, col) ==>
              if AllFit(Integer, rows, col) then w == BIGINT
              else if SomeExponent(rows, col) then w == DOUBLE
              else exists scale: nat :: IsScale(scale, rows, col) && w == DecimalOf(scale)
  {
    hide CellFits, HasExponent, ScaleOf, IsScale;
    var s := Scan(false, true, false, 0);
    assert IsScale(0, [], col) by { NoScale(col); }
    assert rows[..0] == [];
    for i := 0 to |rows|
      invariant s.Of(rows[..i], col)
    {
      assert rows[..i + 1] == rows[..i] + [rows[i]];
      if col >= |rows[i]| || rows[i][col] == "NULL" {
        ScanSkip(s, rows[..i], rows[i], col);
        continue;
      }
      var number := NumberCell(rows[i][col]);
      if !number {
        assert !CellFits(Number, rows[i][col]) by { NotNumber(rows[i][col]); }
        assert Shown(rows[i], col);
        return TEXT;
      }
      assert CellFits(Number, rows[i][col]) by { IsNumber(rows[i][col]); }
      var s' := TakeCell(s, rows[i][col]);
      ScanTake(s, rows[..i], rows[i], col, s');
      s := s';
    }
    assert rows[..|rows|] == rows;
    if !s.any {
      return TEXT;
    }
    if s.whole {
      w := Make(BIGINT, rows, col);
    } else if s.exponent {
      w := Make(DOUBLE, rows, col);
    } else {
      w := Make(DecimalOf(s.scale), rows, col);
    }
  }

  lemma NoScale(col: nat)
    ensures IsScale(0, [], col)
  {
  }

  lemma NotNumber(v: string)
    requires !NumberText(v)
    ensures !CellFits(Number, v)
  {
  }

  lemma IsNumber(v: string)
    requires NumberText(v)
    ensures CellFits(Number, v)
  {
  }

  /** What `wire_type_for` answers. */
  ghost predicate Announced(t: ColumnType, rows: Rows, col: nat, w: WireType)
  {
    match t.column
    case Some(c) => w == if AllFit(Declared(c).check, rows, col) then Declared(c) else TEXT
    case None =>
      if !t.byValue || !SomeShown(rows, col) || !AllFit(Number, rows, col) then w == TEXT
      else if AllFit(Integer, rows, col) then w == BIGINT
      else if SomeExponent(rows, col) then w == DOUBLE
      else exists scale: nat :: IsScale(scale, rows, col) && w == DecimalOf(scale)
  }

  /** `wire_type_for` */
  method WireTypeFor(t: ColumnType, rows: Rows, col: nat) returns (w: WireType)
    ensures Announced(t, rows, col, w)
  {
    hide AllFit, SomeShown, SomeExponent, IsScale, CellFits, HasExponent, ScaleOf;
    match t.column
    case Some(c) =>
      if c.dataType.Other? {
        return TEXT;
      }
      w := Make(Declared(c), rows, col);
    case None =>
      if !t.byValue {
        return TEXT;
      }
      w := ValueType(rows, col);
  }

  /** A column announced as anything but text holds no value its type does not read. */
  lemma AnnouncedIsSound(t: ColumnType, rows: Rows, col: nat, w: WireType)
    requires Announced(t, rows, col, w) && w != TEXT
    ensures AllFit(w.check, rows, col)
  {
    hide CellFits;
  }

  /** What is sent for a column of a row: NULL, or a text, which is empty when the row is too short. */
  function Sent(row: seq<string>, col: nat): Option<string>
  {
    var v := if col < |row| then row[col] else "";
    if v == "NULL" then None else Some(v)
  }

  /** Every value sent in a typed column is what its type reads exactly when no row is too short for the column. */
  lemma SentIsSound(t: ColumnType, rows: Rows, col: nat, w: WireType)
    requires Announced(t, rows, col, w) && w != TEXT
    ensures (forall r :: 0 <= r < |rows| && Sent(rows[r], col).Some? ==> CellFits(w.check, Sent(rows[r], col).value))
       <==> (forall r :: 0 <= r < |rows| ==> col < |rows[r]|)
  {
    AnnouncedIsSound(t, rows, col, w);
    assert forall check :: !CellFits(check, "") by {
      forall check ensures !CellFits(check, "") {
        EmptyNeverFits(check);
      }
    }
    hide CellFits;
    if exists r :: 0 <= r < |rows| && |rows[r]| <= col {
      var r :| 0 <= r < |rows| && |rows[r]| <= col;
      assert Sent(rows[r], col) == Some("");
    } else {
      assert forall r :: 0 <= r < |rows| && Sent(rows[r], col).Some? ==> Shown(rows[r], col) && Sent(rows[r], col).value == rows[r][col];
    }
  }

  lemma EmptyNeverFits(check: Check)
    ensures !CellFits(check, "")
  {
  }

  /** An integer column also passes as a number column. */
  lemma IntegersAreNumbers(rows: Rows, col: nat)
    requires AllFit(Integer, rows, col)
    ensures AllFit(Number, rows, col)
  {
    forall r | 0 <= r < |rows| && Shown(rows[r], col) ensures CellFits(Number, rows[r][col]) {
      IntegerIsNumber(rows[r][col]);
    }
  }

  lemma BeforeExponent(n: Numeral)
    requires NumeralOk(n)
    ensures var a := SignText(n) + n.whole; forall i :: 0 <= i < |a| ==> a[i] == '-' || IsDigit(a[i])
    ensures var b := SignText(n) + n.whole + FractionText(n);
      forall i :: 0 <= i < |b| ==> b[i] == '-' || IsDigit(b[i]) || (n.fraction.Some? && b[i] == '.')
  {
  }

  lemma NumberPlaces(n: Numeral)
    requires NumeralOk(n)
    ensures var v, a, b := NumeralText(n), SignText(n) + n.whole, SignText(n) + n.whole + FractionText(n);
      v == b + ExponentText(n) && v == a + (FractionText(n) + ExponentText(n)) && (n.exponent.None? ==> v == b)
  {
  }

  /** The letter and the point stand where the parts of the numeral begin. */
  lemma PartsOfNumber(n: Numeral)
    requires NumeralOk(n)
    ensures HasExponent(NumeralText(n)) <==> n.exponent.Some?
    ensures ScaleOf(NumeralText(n)) == if n.exponent.Some? || n.fraction.None? then 0 else |n.fraction.value|
  {
    hide NumeralText, Digits, AllDigits, Find;
    var v, a, b := NumeralText(n), SignText(n) + n.whole, SignText(n) + n.whole + FractionText(n);
    NumberPlaces(n);
    BeforeExponent(n);
    if n.exponent.Some? {
      assert v[|b|] == n.exponent.value.letter;
    } else {
      assert !HasExponent(v);
      if n.fraction.Some? {
        assert v[|a|] == '.';
        FindIs(v, '.', 0, |a|);
      }
    }
  }

  /** A column announced as DECIMAL shows every digit behind the point of each value when none has more than 30. */
  lemma DecimalsShowAll(rows: Rows, col: nat, w: WireType, r: nat, n: Numeral)
    requires Announced(ColumnType(None, true), rows, col, w) && w.code == 246
    requires r < |rows| && Shown(rows[r], col) && NumeralOk(n) && rows[r][col] == NumeralText(n)
    ensures n.exponent.None? && (n.fraction.Some? ==> |n.fraction.value| <= w.decimals || w.decimals == 30)
  {
    PartsOfNumber(n);
  }
}
