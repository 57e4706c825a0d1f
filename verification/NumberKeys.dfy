/** Columns of numbers in an index, where whole numbers compare exactly and everything else as doubles; and the order of keys of several columns. */
module NumberKeys {
  import opened Common
  import opened Assoc
  import opened Weights
  import opened IndexKeys

  // ---- columns of numbers ----

  function Whole(s: Text): Option<int> { if Int64(s).Some? then Int64(s) else Wide(s) }

  lemma WideIsInt64(s: Text)
    requires Int64(s).Some? && Wide(s).Some?
    ensures Int64(s) == Wide(s)
  {
  }

  function ByRead(d: Doubles, a: Text, b: Text): int
  {
    var c := RealSign(d.read(a), d.read(b));
    if c != 0 then c else Lex(a, b)
  }

  function ByValue(a: Text, b: Text): int
    requires Whole(a).Some? && Whole(b).Some?
  {
    var c := Sign(Whole(a).value - Whole(b).value);
    if c != 0 then c else Lex(a, b)
  }

  /** Two whole numbers compare by their values, anything else by its double; texts that are equal so far by their bytes. */
  function NumberOrder(d: Doubles, a: Text, b: Text): int { if Whole(a).Some? && Whole(b).Some? then ByValue(a, b) else ByRead(d, a, b) }

  /** A whole number that only the one parser reads and one that only the other does are as far apart as doubles as they are as numbers: the second is
      beyond 2^63, the first is written with two signs and read as 0. */
  ghost predicate FarApart(d: Doubles)
  {
    forall a, b :: Int64(a).Some? && Wide(a).None? && Int64(b).None? && Wide(b).Some? ==>
      RealSign(d.read(a), d.read(b)) == Sign(Whole(a).value - Whole(b).value)
  }

  lemma CompareNumbersIs(d: Doubles, a: Text, b: Text)
    requires FarApart(d)
    ensures CompareNumbers(d, a, b) ==
            if Whole(a).Some? && Whole(b).Some? then Sign(Whole(a).value - Whole(b).value) else RealSign(d.read(a), d.read(b))
  {
    if Wide(a).Some? && Int64(a).Some? {
      WideIsInt64(a);
    }
    if Wide(b).Some? && Int64(b).Some? {
      WideIsInt64(b);
    }
    assert RealSign(d.read(a), d.read(b)) == -RealSign(d.read(b), d.read(a));
    hide Int64, Wide;
  }

  lemma PlainIsWhole(x: Text)
    requires PlainUint(x)
    ensures Whole(x) == Some(Value(x))
  {
    ValueBounds(x);
    TenGrows(|x|, 15);
    TenFifteen();
    assert IsDigit(x[0]);
  }

  lemma NumberSegmentIs(t: Table, d: Doubles, a: Text, b: Text)
    requires Sound(t) && FarApart(d)
    ensures SegmentOrder(t, d, Number, a, b) == NumberOrder(d, a, b)
  {
    CompareNumbersIs(d, a, b);
    LexReflects(a, b);
    hide CompareNumbers, FarApart, Whole;
    if PlainUint(a) && PlainUint(b) {
      PlainIsWhole(a);
      PlainIsWhole(b);
      PlainOrderIsNumeric(a, b);
      if |a| == |b| {
        SameLengthByBytes(a, b);
      }
    }
  }

  // ---- when a column of numbers is in order ----

  /** Two whole numbers whose doubles say otherwise than their values, and a text that is no whole number and stands between them as doubles: the
      three go round in a circle. */
  predicate Tangled(d: Doubles, a: Text, b: Text, x: Text)
  {
    Whole(a).Some? && Whole(b).Some? && Whole(x).None? && ByValue(a, b) < 0 && ByRead(d, b, x) < 0 && ByRead(d, x, a) < 0
  }

  ghost predicate Untangled(d: Doubles, keys: iset<Text>) { forall a, b, x :: a in keys && b in keys && x in keys ==> !Tangled(d, a, b, x) }

  ghost predicate Ordered(t: Table, d: Doubles, kind: Kind, keys: iset<Text>)
    requires Sound(t)
  {
    forall a, b, c :: a in keys && b in keys && c in keys ==>
      InOrder(SegmentOrder(t, d, kind, a, b), SegmentOrder(t, d, kind, b, a), SegmentOrder(t, d, kind, b, c), SegmentOrder(t, d, kind, a, c))
  }

  lemma ByReadStrict(d: Doubles, a: Text, b: Text, c: Text)
    ensures ByRead(d, a, b) == -ByRead(d, b, a) && (ByRead(d, a, b) == 0 <==> a == b)
    ensures ByRead(d, a, b) <= 0 && ByRead(d, b, c) <= 0 ==> ByRead(d, a, c) <= 0
  {
    LexReflects(a, b);
    LexReflects(b, a);
    if Lex(a, b) <= 0 && Lex(b, c) <= 0 {
      LexTransitive(a, b, c);
    }
  }

  lemma ByValueStrict(a: Text, b: Text, c: Text)
    requires Whole(a).Some? && Whole(b).Some? && Whole(c).Some?
    ensures ByValue(a, b) == -ByValue(b, a) && (ByValue(a, b) == 0 <==> a == b)
    ensures ByValue(a, b) <= 0 && ByValue(b, c) <= 0 ==> ByValue(a, c) <= 0
  {
    hide Whole;
    LexReflects(a, b);
    LexReflects(b, a);
    if Lex(a, b) <= 0 && Lex(b, c) <= 0 {
      LexTransitive(a, b, c);
    }
  }

  /** Different texts never compare as equal. */
  lemma NumberStrict(d: Doubles, a: Text, b: Text)
    ensures NumberOrder(d, a, b) == -NumberOrder(d, b, a) && (NumberOrder(d, a, b) == 0 <==> a == b)
  {
    hide Whole, ByValue, ByRead;
    if Whole(a).Some? && Whole(b).Some? {
      ByValueStrict(a, b, b);
    } else {
      ByReadStrict(d, a, b, b);
    }
  }

  lemma NoCircle(d: Doubles, a: Text, b: Text, c: Text)
    requires NumberOrder(d, a, b) < 0 && NumberOrder(d, b, c) < 0 && NumberOrder(d, c, a) < 0
    ensures Tangled(d, a, b, c) || Tangled(d, b, c, a) || Tangled(d, c, a, b)
  {
    hide Whole, ByValue, ByRead;
    if Whole(a).Some? && Whole(b).Some? && Whole(c).Some? {
      ByValueStrict(a, b, c);
      ByValueStrict(c, a, b);
    } else {
      ByReadStrict(d, a, b, c);
      ByReadStrict(d, b, c, a);
      ByReadStrict(d, c, a, b);
    }
  }

  lemma TripleInOrder(d: Doubles, a: Text, b: Text, c: Text)
    requires !Tangled(d, a, b, c) && !Tangled(d, b, c, a) && !Tangled(d, c, a, b)
    ensures InOrder(NumberOrder(d, a, b), NumberOrder(d, b, a), NumberOrder(d, b, c), NumberOrder(d, a, c))
  {
    hide NumberOrder, Tangled;
    NumberStrict(d, a, b);
    NumberStrict(d, b, c);
    NumberStrict(d, a, c);
    if NumberOrder(d, a, b) < 0 && NumberOrder(d, b, c) < 0 && NumberOrder(d, a, c) > 0 {
      NoCircle(d, a, b, c);
    }
  }

  /** A column of numbers is in order on a set of keys exactly when no three of them are tangled. */
  lemma NumbersInOrderExactly(t: Table, d: Doubles, keys: iset<Text>)
    requires Sound(t) && FarApart(d)
    ensures Ordered(t, d, Number, keys) <==> Untangled(d, keys)
  {
    hide SegmentOrder, NumberOrder, FarApart;
    if Untangled(d, keys) {
      forall a, b, c | a in keys && b in keys && c in keys
        ensures InOrder(SegmentOrder(t, d, Number, a, b), SegmentOrder(t, d, Number, b, a), SegmentOrder(t, d, Number, b, c), SegmentOrder(t, d, Number, a, c))
      {
        NumberSegmentIs(t, d, a, b);
        NumberSegmentIs(t, d, b, a);
        NumberSegmentIs(t, d, b, c);
        NumberSegmentIs(t, d, a, c);
        TripleInOrder(d, a, b, c);
      }
    }
    forall a, b, x | a in keys && b in keys && x in keys && Tangled(d, a, b, x)
      ensures !Ordered(t, d, Number, keys)
    {
      TangledGoRound(t, d, a, b, x);
      assert !InOrder(SegmentOrder(t, d, Number, b, x), SegmentOrder(t, d, Number, x, b), SegmentOrder(t, d, Number, x, a), SegmentOrder(t, d, Number, b, a));
    }
  }

  /** Three tangled keys: each is below the next. */
  lemma TangledGoRound(t: Table, d: Doubles, a: Text, b: Text, x: Text)
    requires Sound(t) && FarApart(d) && Tangled(d, a, b, x)
    ensures SegmentOrder(t, d, Number, a, b) < 0 < SegmentOrder(t, d, Number, b, a)
    ensures SegmentOrder(t, d, Number, b, x) < 0 && SegmentOrder(t, d, Number, x, a) < 0
  {
    hide SegmentOrder, Whole, ByValue, ByRead, FarApart;
    NumberSegmentIs(t, d, a, b);
    NumberSegmentIs(t, d, b, a);
    NumberSegmentIs(t, d, b, x);
    NumberSegmentIs(t, d, x, a);
    NumberStrict(d, a, b);
  }

  /** Keys are untangled when all of them are whole numbers, when none is, or when the whole ones are read as the doubles they are. */
  lemma WhenUntangled(d: Doubles, keys: iset<Text>)
    requires (forall a :: a in keys ==> Whole(a).Some?) || (forall a :: a in keys ==> Whole(a).None?)
          || (forall a :: a in keys && Whole(a).Some? ==> d.read(a) == Whole(a).value as real)
    ensures Untangled(d, keys)
  {
    hide Whole;
    forall a, b, x | a in keys && b in keys && x in keys ensures !Tangled(d, a, b, x) {
      ByReadStrict(d, b, x, a);
      ByReadStrict(d, a, b, b);
    }
  }

  lemma TenFifteen()
    ensures Ten(15) == 1_000_000_000_000_000 && Ten(16) == 10_000_000_000_000_000
  {
    assert Ten(4) == 10000;
    assert Ten(8) == 100000000;
    assert Ten(12) == 1000000000000;
    assert Ten(15) == 1_000_000_000_000_000;
  }

  /** Minus nine quadrillion and some, up to its last digit: 900719925474099. */
  const STEM: Text := [0x39, 0x30, 0x30, 0x37, 0x31, 0x39, 0x39, 0x32, 0x35, 0x34, 0x37, 0x34, 0x30, 0x39, 0x39]

  const ODD: Text := [0x2D] + (STEM + [0x33])
  const EVEN: Text := [0x2D] + (STEM + [0x32])
  const EVEN_POINT: Text := EVEN + [0x2E, 0x30]

  lemma StemValue(last: Byte)
    requires last == 0x32 || last == 0x33
    ensures Int64([0x2D] + (STEM + [last])) == Some(0 - (10 * Value(STEM) + last - 0x30))
  {
    var s := [0x2D] + (STEM + [last]);
    var u := STEM + [last];
    assert s[1..] == u && u[..15] == STEM;
    ValueBounds(u);
    TenFifteen();
    assert AllDigits(u);
  }

  /** -9007199254740993 < -9007199254740992 < -9007199254740992.0 < -9007199254740993 in a column of numbers, since the three are one double: an index over
      such a column has no order to keep. */
  lemma NumberColumnsCanGoRound(t: Table, d: Doubles)
    requires Sound(t) && FarApart(d) && d.read(ODD) == d.read(EVEN) == d.read(EVEN_POINT)
    ensures Tangled(d, ODD, EVEN, EVEN_POINT)
    ensures SegmentOrder(t, d, Number, ODD, EVEN) < 0 && SegmentOrder(t, d, Number, EVEN, EVEN_POINT) < 0
    ensures SegmentOrder(t, d, Number, EVEN_POINT, ODD) < 0
  {
    StemValue(0x32);
    StemValue(0x33);
    SpellingsRise();
    NotWhole();
    hide Int64, Wide, Value, Lex, SegmentOrder;
    TangledGoRound(t, d, ODD, EVEN, EVEN_POINT);
  }

  lemma SpellingsRise()
    ensures Lex(EVEN, EVEN_POINT) < 0 && Lex(EVEN_POINT, ODD) < 0
  {
    LexPrefix(EVEN, [0x2E, 0x30]);
    LexDiffers([0x2D] + STEM, [0x32, 0x2E, 0x30], [0x33]);
    hide Lex;
    assert EVEN_POINT == ([0x2D] + STEM) + [0x32, 0x2E, 0x30] && ODD == ([0x2D] + STEM) + [0x33];
  }

  lemma NotWhole()
    ensures Int64(EVEN_POINT) == Wide(EVEN_POINT) == None
  {
    var rest := EVEN_POINT[1..];
    assert rest[16] == EVEN_POINT[17] == 0x2E;
    assert !IsDigit(rest[16]);
  }

  lemma {:induction false} LexPrefix(a: Text, b: Text)
    requires b != []
    ensures Lex(a, a + b) < 0
  {
    if a != [] {
      assert (a + b)[1..] == a[1..] + b;
      LexPrefix(a[1..], b);
    }
  }

  lemma {:induction false} LexDiffers(p: Text, a: Text, b: Text)
    requires a != [] && b != [] && a[0] < b[0]
    ensures Lex(p + a, p + b) < 0
  {
    if p != [] {
      assert (p + a)[1..] == p[1..] + a && (p + b)[1..] == p[1..] + b;
      LexDiffers(p[1..], a, b);
    } else {
      assert p + a == a && p + b == b;
    }
  }

  // ---- keys of several columns ----

  /** The segments that stand at a place of some key. */
  ghost function Place(keys: iset<Text>, i: nat): iset<Text> { iset k | k in keys && i < |Segments(k)| :: Segments(k)[i] }

  ghost predicate AllInOrder(seg: Compare, keys: iset<Text>)
  {
    forall i: nat, a, b, c :: a in Place(keys, i) && b in Place(keys, i) && c in Place(keys, i) ==>
      InOrder(seg(i, a, b), seg(i, b, a), seg(i, b, c), seg(i, a, c))
  }

  /** Columns of numbers hold untangled segments. */
  ghost predicate NumbersUntangled(d: Doubles, kinds: seq<Kind>, keys: iset<Text>)
  {
    forall i: nat :: KindOf(kinds, i) == Number ==> Untangled(d, Place(keys, i))
  }

  lemma ColumnsInOrder(t: Table, d: Doubles, kinds: seq<Kind>, keys: iset<Text>)
    requires Sound(t) && Exact(d) && (Number in kinds ==> FarApart(d)) && NumbersUntangled(d, kinds, keys)
    ensures AllInOrder(Columns(t, d, kinds), keys)
  {
    hide SegmentOrder, Place, Exact, FarApart, Untangled;
    forall i: nat, a, b, c | a in Place(keys, i) && b in Place(keys, i) && c in Place(keys, i)
      ensures var seg := Columns(t, d, kinds); InOrder(seg(i, a, b), seg(i, b, a), seg(i, b, c), seg(i, a, c))
    {
      match KindOf(kinds, i)
      case Mixed => MixedInOrder(t, d, a, b, c);
      case Textual => TextualInOrder(t, d, a, b, c);
      case Number => NumbersInOrderExactly(t, d, Place(keys, i));
    }
  }

  /** The segments of a key stand at their places, from `i` on. */
  ghost predicate Placed(keys: iset<Text>, parts: seq<Text>, i: nat)
  {
    |parts| >= 1 && forall j :: 0 <= j < |parts| ==> parts[j] in Place(keys, i + j)
  }

  lemma PlacedRest(keys: iset<Text>, parts: seq<Text>, i: nat)
    requires Placed(keys, parts, i)
    ensures parts[0] in Place(keys, i) && (|parts| > 1 ==> Placed(keys, parts[1..], i + 1))
  {
    assert parts[0] in Place(keys, i + 0);
    forall j | 0 <= j < |parts| - 1 ensures parts[1..][j] in Place(keys, i + 1 + j) {
      assert parts[j + 1] in Place(keys, i + (j + 1));
    }
  }

  /** Where the segments of every place are in order, so are whole keys. */
  lemma {:induction false} PartsInOrder(seg: Compare, keys: iset<Text>, a: seq<Text>, b: seq<Text>, c: seq<Text>, i: nat)
    requires AllInOrder(seg, keys) && Placed(keys, a, i) && Placed(keys, b, i) && Placed(keys, c, i)
    ensures InOrder(PartsOrder(seg, a, b, i), PartsOrder(seg, b, a, i), PartsOrder(seg, b, c, i), PartsOrder(seg, a, c, i))
    decreases |a| + |b|
  {
    PlacedRest(keys, a, i);
    PlacedRest(keys, b, i);
    PlacedRest(keys, c, i);
    hide Place, Placed;
    var x, y, z := a[0], b[0], c[0];
    assert InOrder(seg(i, x, y), seg(i, y, x), seg(i, y, z), seg(i, x, z));
    assert InOrder(seg(i, y, z), seg(i, z, y), seg(i, z, x), seg(i, y, x));
    assert InOrder(seg(i, x, z), seg(i, z, x), seg(i, z, y), seg(i, x, y));
    hide AllInOrder;
    if |a| > 1 && |b| > 1 {
      if |c| > 1 {
        PartsInOrder(seg, keys, a[1..], b[1..], c[1..], i + 1);
      } else {
        PartsInOrder(seg, keys, a[1..], b[1..], b[1..], i + 1);
      }
    }
  }

  lemma KeyIsPlaced(keys: iset<Text>, k: Text)
    requires k in keys
    ensures Placed(keys, Segments(k), 0)
  {
  }

  /** `cmp_keys` is in order on every set of keys whose columns of numbers hold no three tangled segments. */
  lemma KeysInOrder(t: Table, d: Doubles, kinds: seq<Kind>, keys: iset<Text>, a: Text, b: Text, c: Text)
    requires Sound(t) && Exact(d) && (Number in kinds ==> FarApart(d)) && NumbersUntangled(d, kinds, keys)
    requires a in keys && b in keys && c in keys
    ensures InOrder(KeyOrder(t, d, kinds, a, b), KeyOrder(t, d, kinds, b, a), KeyOrder(t, d, kinds, b, c), KeyOrder(t, d, kinds, a, c))
  {
    hide PartsOrder, Segments, Exact, FarApart, Columns, Place, Placed;
    ColumnsInOrder(t, d, kinds, keys);
    KeyIsPlaced(keys, a);
    KeyIsPlaced(keys, b);
    KeyIsPlaced(keys, c);
    PartsInOrder(Columns(t, d, kinds), keys, Segments(a), Segments(b), Segments(c), 0);
  }

  /** What `InOrder` says of every three keys is what a tree needs of its comparison. */
  lemma OrderedIsTotal<K(!new)>(c: Cmp<K>)
    requires forall x, y, z :: InOrder(c(x, y), c(y, x), c(y, z), c(x, z))
    ensures Total(c)
  {
    forall a, b ensures (c(a, b) > 0 <==> Lt(c, b, a)) && (Lt(c, a, b) ==> !Lt(c, b, a)) {
      assert InOrder(c(a, b), c(b, a), c(b, a), c(a, a));
      assert InOrder(c(b, a), c(a, b), c(a, b), c(b, b));
    }
    forall a, b, e | !Lt(c, a, b) && !Lt(c, b, e) ensures !Lt(c, a, e) {
      assert InOrder(c(e, b), c(b, e), c(b, a), c(e, a));
      assert InOrder(c(a, e), c(e, a), c(e, b), c(a, b));
      assert InOrder(c(b, a), c(a, b), c(a, e), c(b, e));
    }
  }

  /** The keys of an index over columns of text, or of columns whose type is not known, are totally preordered: what a tree needs to find them. */
  lemma KeysAreOrdered(t: Table, d: Doubles, kinds: seq<Kind>)
    requires Sound(t) && Exact(d) && Number !in kinds
    ensures Total((a: Text, b: Text) => KeyOrder(t, d, kinds, a, b))
  {
    hide KeyOrder, Exact;
    var c := (a: Text, b: Text) => KeyOrder(t, d, kinds, a, b);
    forall x, y, z ensures InOrder(c(x, y), c(y, x), c(y, z), c(x, z)) {
      KeysInOrder(t, d, kinds, iset{x, y, z}, x, y, z);
    }
    OrderedIsTotal(c);
  }

  const TWO53 := 0x20_0000_0000_0000

  /** A key of one column that is a whole number. */
  type WholeKey = s: Text | 0 !in s && Whole(s).Some? witness [0x30]

  /** A key of one column of numbers whose whole numbers are no larger than 2^53 and written with one sign at most. */
  type SmallKey = s: Text | 0 !in s && (Whole(s).Some? ==> Wide(s).Some? && -TWO53 <= Wide(s).value <= TWO53) witness [0x30]

  /** Whole numbers up to 2^53 are read exactly. */
  ghost predicate ExactTo53(d: Doubles)
  {
    forall s :: Wide(s).Some? && -TWO53 <= Wide(s).value <= TWO53 ==> d.read(s) == Wide(s).value as real
  }

  lemma OneNumber(t: Table, d: Doubles, a: Text, b: Text)
    requires Sound(t) && 0 !in a && 0 !in b
    ensures KeyOrder(t, d, [Number], a, b) == SegmentOrder(t, d, Number, a, b)
  {
    hide SegmentOrder;
    PlainKeyIsSegment(a);
    PlainKeyIsSegment(b);
    assert PartsOrder(Columns(t, d, [Number]), [a], [b], 0) == SegmentOrder(t, d, KindOf([Number], 0), a, b);
  }

  /** An index over one column of numbers that holds whole numbers only has a total order. */
  lemma WholeKeysAreOrdered(t: Table, d: Doubles)
    requires Sound(t) && FarApart(d)
    ensures Total((a: WholeKey, b: WholeKey) => KeyOrder(t, d, [Number], a, b))
  {
    hide KeyOrder, FarApart, SegmentOrder, Untangled, Whole;
    var c := (a: WholeKey, b: WholeKey) => KeyOrder(t, d, [Number], a, b);
    var keys := iset k: Text | Whole(k).Some?;
    WhenUntangled(d, keys);
    NumbersInOrderExactly(t, d, keys);
    forall x: WholeKey, y: WholeKey, z: WholeKey ensures InOrder(c(x, y), c(y, x), c(y, z), c(x, z)) {
      OneNumber(t, d, x, y);
      OneNumber(t, d, y, x);
      OneNumber(t, d, y, z);
      OneNumber(t, d, x, z);
      assert x in keys && y in keys && z in keys;
    }
    OrderedIsTotal(c);
  }

  /** So has one over any numbers whose whole ones are no larger than 2^53. */
  lemma SmallKeysAreOrdered(t: Table, d: Doubles)
    requires Sound(t) && FarApart(d) && ExactTo53(d)
    ensures Total((a: SmallKey, b: SmallKey) => KeyOrder(t, d, [Number], a, b))
  {
    hide KeyOrder, FarApart, SegmentOrder, Untangled;
    var c := (a: SmallKey, b: SmallKey) => KeyOrder(t, d, [Number], a, b);
    var keys := iset k: Text | Whole(k).Some? ==> Wide(k).Some? && -TWO53 <= Wide(k).value <= TWO53;
    forall k | k in keys && Whole(k).Some? ensures d.read(k) == Whole(k).value as real {
      if Int64(k).Some? {
        WideIsInt64(k);
      }
    }
    WhenUntangled(d, keys);
    NumbersInOrderExactly(t, d, keys);
    hide Whole, Wide;
    forall x: SmallKey, y: SmallKey, z: SmallKey ensures InOrder(c(x, y), c(y, x), c(y, z), c(x, z)) {
      OneNumber(t, d, x, y);
      OneNumber(t, d, y, x);
      OneNumber(t, d, y, z);
      OneNumber(t, d, x, z);
      assert x in keys && y in keys && z in keys;
    }
    OrderedIsTotal(c);
  }
}
