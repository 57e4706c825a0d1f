/** The type a column is announced with: what its cells must look like, and which type the cells allow. */
module WireTypes {
  import opened Common

  predicate IsDigit(c: char) { '0' <= c <= '9' }

  predicate AllDigits(v: string, from: nat, to: nat)
    requires to <= |v|
  {
    from < to && forall i :: from <= i < to ==> IsDigit(v[i])
  }

  /** `digits_only` */
  method DigitsOnly(v: string, from: nat, to: nat) returns (ok: bool)
    requires to <= |v|
    ensures ok == AllDigits(v, from, to)
  {
    if from >= to {
      return false;
    }
    for i := from to to
      invariant forall k :: from <= k < i ==> IsDigit(v[k])
    {
      if v[i] < '0' || v[i] > '9' {
        return false;
      }
    }
    return true;
  }

  // ---- recognisers ----

  function SignEnd(v: string): nat { if v != "" && v[0] == '-' then 1 else 0 }

  predicate IntegerCell(v: string) { AllDigits(v, SignEnd(v), |v|) }

  /** Where the digits from `i` on end. */
  function DigitsEnd(v: string, i: nat): (j: nat)
    requires i <= |v|
    ensures i <= j <= |v| && (forall k :: i <= k < j ==> IsDigit(v[k])) && (j < |v| ==> !IsDigit(v[j]))
    decreases |v| - i
  {
    if i < |v| && IsDigit(v[i]) then DigitsEnd(v, i + 1) else i
  }

  function AfterFraction(v: string, i: nat): (r: Option<nat>)
    requires i <= |v|
    ensures r.Some? ==> i <= r.value <= |v|
  {
    if i < |v| && v[i] == '.' then if DigitsEnd(v, i + 1) == i + 1 then None else Some(DigitsEnd(v, i + 1)) else Some(i)
  }

  function AfterSign(v: string, i: nat): nat
    requires i <= |v|
  {
    if i < |v| && (v[i] == '+' || v[i] == '-') then i + 1 else i
  }

  function AfterExponent(v: string, i: nat): Option<nat>
    requires i <= |v|
  {
    if i < |v| && (v[i] == 'e' || v[i] == 'E') then
      var from := AfterSign(v, i + 1);
      if DigitsEnd(v, from) == from then None else Some(DigitsEnd(v, from))
    else Some(i)
  }

  predicate NumberText(v: string)
  {
    var i := DigitsEnd(v, SignEnd(v));
    && i > SignEnd(v) && AfterFraction(v, i).Some?
    && AfterExponent(v, AfterFraction(v, i).value) == Some(|v|)
  }

  method SkipDigits(v: string, start: nat) returns (i: nat)
    requires start <= |v|
    ensures i == DigitsEnd(v, start)
  {
    i := start;
    while i < |v| && '0' <= v[i] <= '9'
      invariant start <= i <= |v| && DigitsEnd(v, i) == DigitsEnd(v, start)
    {
      i := i + 1;
    }
  }

  method SkipFraction(v: string, start: nat) returns (i: Option<nat>)
    requires start <= |v|
    ensures i == AfterFraction(v, start)
  {
    if start < |v| && v[start] == '.' {
      var end := SkipDigits(v, start + 1);
      return if end == start + 1 then None else Some(end);
    }
    return Some(start);
  }

  method SkipExponent(v: string, start: nat) returns (i: Option<nat>)
    requires start <= |v|
    ensures i == AfterExponent(v, start)
  {
    if start < |v| && (v[start] == 'e' || v[start] == 'E') {
      var from := start + 1;
      if from < |v| && (v[from] == '+' || v[from] == '-') {
        from := from + 1;
      }
      var end := SkipDigits(v, from);
      return if end == from then None else Some(end);
    }
    return Some(start);
  }

  /** `number_cell`: exactly the numerals. */
  method NumberCell(v: string) returns (ok: bool)
    ensures ok == NumberText(v)
    ensures ok <==> exists n :: NumeralOk(n) && NumeralText(n) == v
  {
    hide NumeralOk, NumeralText, DigitsEnd, AfterFraction, AfterExponent;
    NumberGrammar(v);
    var digits := if v != "" && v[0] == '-' then 1 else 0;
    var i := SkipDigits(v, digits);
    if i == digits {
      return false;
    }
    var whole := SkipFraction(v, i);
    if whole.None? {
      return false;
    }
    var end := SkipExponent(v, whole.value);
    return end == Some(|v|);
  }

  predicate DateCell(v: string)
  {
    |v| == 10 && AllDigits(v, 0, 4) && v[4] == '-' && AllDigits(v, 5, 7) && v[7] == '-' && AllDigits(v, 8, 10)
  }

  predicate FractionOk(v: string, at: nat)
    requires at <= |v|
  {
    at == |v| || (v[at] == '.' && AllDigits(v, at + 1, |v|))
  }

  predicate DateTimeCell(v: string)
  {
    && |v| >= 19 && DateCell(v[..10]) && v[10] == ' ' && AllDigits(v, 11, 13) && v[13] == ':' && AllDigits(v, 14, 16) && v[16] == ':'
    && AllDigits(v, 17, 19) && FractionOk(v, 19)
  }

  /** `std::string::find`: the first place of `c` from `from` on, or the length. */
  function Find(v: string, c: char, from: nat): (k: nat)
    requires from <= |v|
    ensures from <= k <= |v| && (k < |v| ==> v[k] == c) && forall i :: from <= i < k ==> v[i] != c
    decreases |v| - from
  {
    if from == |v| || v[from] == c then from else Find(v, c, from + 1)
  }

  predicate TimeCell(v: string)
  {
    var from := SignEnd(v);
    var colon := Find(v, ':', from);
    && colon < |v| && 1 <= colon - from <= 3 && AllDigits(v, from, colon) && |v| >= colon + 6
    && AllDigits(v, colon + 1, colon + 3) && v[colon + 3] == ':' && AllDigits(v, colon + 4, colon + 6) && FractionOk(v, colon + 6)
  }

  // ---- what they recognise ----

  datatype Exponent = Exponent(letter: char, sign: string, digits: string)
  datatype Numeral = Numeral(negative: bool, whole: string, fraction: Option<string>, exponent: Option<Exponent>)

  predicate Digits(s: string) { AllDigits(s, 0, |s|) }

  predicate NumeralOk(n: Numeral)
  {
    && Digits(n.whole) && (n.fraction.Some? ==> Digits(n.fraction.value))
    && (n.exponent.Some? ==> n.exponent.value.letter in "eE" && n.exponent.value.sign in {"", "+", "-"} && Digits(n.exponent.value.digits))
  }

  function SignText(n: Numeral): string { if n.negative then "-" else "" }
  function FractionText(n: Numeral): string { if n.fraction.None? then "" else "." + n.fraction.value }
  function ExponentText(n: Numeral): string
  {
    if n.exponent.None? then "" else [n.exponent.value.letter] + (n.exponent.value.sign + n.exponent.value.digits)
  }

  function NumeralText(n: Numeral): string { SignText(n) + (n.whole + (FractionText(n) + ExponentText(n))) }

  lemma {:induction false} DigitsEndIs(v: string, i: nat, j: nat)
    requires i <= j <= |v| && (forall k :: i <= k < j ==> IsDigit(v[k])) && (j < |v| ==> !IsDigit(v[j]))
    ensures DigitsEnd(v, i) == j
    decreases j - i
  {
    if i < j {
      DigitsEndIs(v, i + 1, j);
    }
  }

  /** Digits in the middle of a text end where they end. */
  lemma DigitsIn(v: string, a: string, d: string, b: string)
    requires v == a + (d + b) && (d == "" || Digits(d)) && (b != "" ==> !IsDigit(b[0]))
    ensures DigitsEnd(v, |a|) == |a| + |d|
  {
    forall k | |a| <= k < |a| + |d| ensures IsDigit(v[k]) {
      assert v[k] == d[k - |a|];
    }
    DigitsEndIs(v, |a|, |a| + |d|);
  }

  lemma ExponentIn(n: Numeral, a: string)
    requires NumeralOk(n)
    ensures AfterExponent(a + ExponentText(n), |a|) == Some(|a| + |ExponentText(n)|)
  {
    if n.exponent.None? {
      assert a + "" == a;
    } else {
      SomeExponentIn(n.exponent.value, a);
    }
  }

  lemma SomeExponentIn(e: Exponent, a: string)
    requires e.letter in "eE" && e.sign in {"", "+", "-"} && Digits(e.digits)
    ensures var t := [e.letter] + (e.sign + e.digits); AfterExponent(a + t, |a|) == Some(|a| + |t|)
  {
    hide DigitsEnd;
    var v := a + ([e.letter] + (e.sign + e.digits));
    var b := a + [e.letter] + e.sign;
    assert v[|a|] == e.letter;
    assert v == b + (e.digits + "");
    assert e.digits[0] == v[|b|];
    assert e.sign != "" ==> v[|a| + 1] == e.sign[0];
    assert AfterSign(v, |a| + 1) == |b|;
    DigitsIn(v, b, e.digits, "");
  }

  lemma WholeIn(n: Numeral, tail: string)
    requires NumeralOk(n) && (tail != "" ==> !IsDigit(tail[0]))
    ensures var v, s := SignText(n) + (n.whole + tail), |SignText(n)|; SignEnd(v) == s && DigitsEnd(v, s) == s + |n.whole|
  {
    var v, s := SignText(n) + (n.whole + tail), SignText(n);
    assert v[|s|] == n.whole[0];
    DigitsIn(v, s, n.whole, tail);
  }

  lemma FractionIn(n: Numeral, a: string)
    requires NumeralOk(n)
    ensures AfterFraction(a + (FractionText(n) + ExponentText(n)), |a|) == Some(|a| + |FractionText(n)|)
  {
    var f, e := FractionText(n), ExponentText(n);
    var v := a + (f + e);
    if n.fraction.Some? {
      assert v[|a|] == '.' && v == (a + ".") + (n.fraction.value + e);
      assert n.fraction.value[0] == v[|a| + 1];
      DigitsIn(v, a + ".", n.fraction.value, e);
    } else {
      assert f + e == e && (e != "" ==> v[|a|] == e[0]);
    }
  }

  lemma NumeralIsNumber(n: Numeral)
    requires NumeralOk(n)
    ensures NumberText(NumeralText(n))
    ensures AfterFraction(NumeralText(n), |SignText(n)| + |n.whole|) == Some(|SignText(n)| + |n.whole| + |FractionText(n)|)
  {
    hide DigitsEnd, AfterFraction, AfterExponent, SignEnd;
    var v, s, f, e := NumeralText(n), SignText(n), FractionText(n), ExponentText(n);
    assert f + e != "" ==> !IsDigit((f + e)[0]);
    WholeIn(n, f + e);
    assert n.whole != "";
    Regroup(s, n.whole, f + e);
    FractionIn(n, s + n.whole);
    Regroup(s + n.whole, f, e);
    ExponentIn(n, s + n.whole + f);
  }

  lemma ExponentFrom(v: string, j: nat) returns (e: Exponent)
    requires j < |v| && AfterExponent(v, j) == Some(|v|)
    ensures e.letter in "eE" && e.sign in {"", "+", "-"} && Digits(e.digits) && [e.letter] + (e.sign + e.digits) == v[j..]
  {
    var from := AfterSign(v, j + 1);
    e := Exponent(v[j], v[j + 1..from], v[from..]);
    assert v[j + 1..from] == if from == j + 1 then "" else [v[j + 1]];
  }

  /** The parts of a number, as the recogniser takes them. */
  lemma NumberIsNumeral(v: string) returns (n: Numeral)
    requires NumberText(v)
    ensures NumeralOk(n) && NumeralText(n) == v
  {
    hide DigitsEnd, AllDigits;
    var s := SignEnd(v);
    var i := DigitsEnd(v, s);
    var j := AfterFraction(v, i).value;
    Slice(v, s, i);
    var fraction := FractionFrom(v, i);
    var exponent := None;
    if j < |v| {
      var e := ExponentFrom(v, j);
      exponent := Some(e);
    }
    n := Numeral(s == 1, v[s..i], fraction, exponent);
    assert NumeralOk(n) && SignText(n) == v[..s] && FractionText(n) == v[i..j] && ExponentText(n) == v[j..];
    hide *;
    Assemble(n, v, s, i, j);
  }

  lemma Assemble(n: Numeral, v: string, i: nat, j: nat, k: nat)
    requires i <= j <= k <= |v| && SignText(n) == v[..i] && n.whole == v[i..j] && FractionText(n) == v[j..k] && ExponentText(n) == v[k..]
    ensures NumeralText(n) == v
  {
    hide SignText, FractionText, ExponentText;
    Pieces(v, i, j, k);
  }

  lemma Slice(v: string, a: nat, b: nat)
    requires a <= b <= |v| && forall k :: a <= k < b ==> IsDigit(v[k])
    ensures a < b ==> Digits(v[a..b])
  {
  }

  lemma Pieces(v: string, i: nat, j: nat, k: nat)
    requires i <= j <= k <= |v|
    ensures v == v[..i] + (v[i..j] + (v[j..k] + v[k..]))
  {
  }

  lemma FractionFrom(v: string, i: nat) returns (f: Option<string>)
    requires i <= |v| && AfterFraction(v, i).Some?
    ensures i <= AfterFraction(v, i).value <= |v| && (f.Some? ==> Digits(f.value))
    ensures v[i..AfterFraction(v, i).value] == if f.None? then "" else "." + f.value
  {
    var j := AfterFraction(v, i).value;
    if j == i {
      f := None;
    } else {
      Slice(v, i + 1, j);
      f := Some(v[i + 1..j]);
    }
  }

  /** `number_cell` accepts exactly a sign, digits, a fraction or none, an exponent or none. */
  lemma NumberGrammar(v: string)
    ensures NumberText(v) <==> exists n :: NumeralOk(n) && NumeralText(n) == v
  {
    if NumberText(v) {
      var n := NumberIsNumeral(v);
    }
    forall n | NumeralOk(n) && NumeralText(n) == v ensures NumberText(v) {
      NumeralIsNumber(n);
    }
  }

  /** An integer is a number without fraction and exponent, and no other number is an integer. */
  lemma IntegerIsNumber(v: string)
    ensures IntegerCell(v) <==> exists n :: NumeralOk(n) && NumeralText(n) == v && n.fraction.None? && n.exponent.None?
    ensures IntegerCell(v) ==> NumberText(v)
  {
    if IntegerCell(v) {
      var n := Numeral(SignEnd(v) == 1, v[SignEnd(v)..], None, None);
      assert v[SignEnd(v)..] + "" == v[SignEnd(v)..];
      assert NumeralText(n) == v;
      NumeralIsNumber(n);
    }
    forall n | NumeralOk(n) && NumeralText(n) == v && n.fraction.None? && n.exponent.None? ensures IntegerCell(v) {
      WholeIsInteger(n);
    }
  }

  lemma WholeIsInteger(n: Numeral)
    requires NumeralOk(n) && n.fraction.None? && n.exponent.None?
    ensures IntegerCell(NumeralText(n))
  {
    var v, s := NumeralText(n), |SignText(n)|;
    assert v == SignText(n) + n.whole;
    assert n.whole[0] == v[s];
    assert forall k :: s <= k < |v| ==> v[k] == n.whole[k - s];
  }

  /** `d` in a pattern stands for a digit, any other character for itself. */
  predicate Matches(v: string, pattern: string)
  {
    |v| == |pattern| && forall i :: 0 <= i < |v| ==> if pattern[i] == 'd' then IsDigit(v[i]) else v[i] == pattern[i]
  }

  /** Nothing, or a dot and digits. */
  predicate Fraction(s: string) { s == "" || (s[0] == '.' && Digits(s[1..])) }

  lemma FractionAt(v: string, at: nat)
    requires at <= |v|
    ensures FractionOk(v, at) <==> Fraction(v[at..])
  {
    if at < |v| {
      assert v[at..][1..] == v[at + 1..];
      assert forall k :: at + 1 <= k < |v| ==> v[k] == v[at + 1..][k - at - 1];
      assert Digits(v[at + 1..]) ==> AllDigits(v, at + 1, |v|);
    }
  }

  lemma DateGrammar(v: string)
    ensures DateCell(v) <==> Matches(v, "dddd-dd-dd")
  {
    if Matches(v, "dddd-dd-dd") {
      var p := "dddd-dd-dd";
      assert forall k :: 0 <= k < 10 && k != 4 && k != 7 ==> p[k] == 'd';
      assert p[4] == '-' && p[7] == '-';
    }
  }

  lemma DateTimeGrammar(v: string)
    ensures DateTimeCell(v) <==> |v| >= 19 && Matches(v[..19], "dddd-dd-dd dd:dd:dd") && Fraction(v[19..])
  {
    if |v| >= 19 {
      FractionAt(v, 19);
      var w, p := v[..19], "dddd-dd-dd dd:dd:dd";
      assert forall k :: 0 <= k < 19 ==> w[k] == v[k];
      assert p[..10] == "dddd-dd-dd" && forall k :: 0 <= k < 10 ==> p[k] == p[..10][k];
      assert p[10] == ' ' && p[11] == p[12] == p[14] == p[15] == p[17] == p[18] == 'd' && p[13] == p[16] == ':';
      DateGrammar(v[..10]);
      assert forall k :: 0 <= k < 10 ==> v[..10][k] == v[k];
      if Matches(w, p) {
        assert Matches(v[..10], "dddd-dd-dd");
      }
    }
  }

  datatype Clock = Clock(negative: bool, hours: string, minutes: string, fraction: string)

  predicate ClockOk(t: Clock) { 1 <= |t.hours| <= 3 && Digits(t.hours) && Matches(t.minutes, ":dd:dd") && Fraction(t.fraction) }

  function ClockText(t: Clock): string { (if t.negative then "-" else "") + (t.hours + (t.minutes + t.fraction)) }

  /** A time is up to three digits of hours, two of minutes, two of seconds, and a fraction or none. */
  lemma TimeGrammar(v: string)
    ensures TimeCell(v) <==> exists t :: ClockOk(t) && ClockText(t) == v
  {
    hide TimeCell, ClockOk, ClockText;
    if TimeCell(v) {
      var t := TimeIsClock(v);
    }
    forall t | ClockOk(t) && ClockText(t) == v ensures TimeCell(v) {
      ClockIsTime(t);
    }
  }

  lemma TimeIsClock(v: string) returns (t: Clock)
    requires TimeCell(v)
    ensures ClockOk(t) && ClockText(t) == v
  {
    hide Find, Matches, AllDigits, Fraction, FractionOk;
    var s := SignEnd(v);
    var c := Find(v, ':', s);
    SliceAll(v, s, c);
    MinutesAre(v, c);
    FractionAt(v, c + 6);
    t := Clock(s == 1, v[s..c], v[c..c + 6], v[c + 6..]);
    ClockIs(v, s, c, t);
  }

  lemma ClockIs(v: string, s: nat, c: nat, t: Clock)
    requires s == SignEnd(v) <= c && c + 6 <= |v| && t == Clock(s == 1, v[s..c], v[c..c + 6], v[c + 6..])
    ensures ClockText(t) == v
  {
    Pieces(v, s, c, c + 6);
    assert v[..s] == if s == 1 then "-" else "";
  }

  lemma SliceAll(v: string, a: nat, b: nat)
    requires b <= |v| && AllDigits(v, a, b)
    ensures Digits(v[a..b])
  {
  }

  lemma MinutesAre(v: string, c: nat)
    requires |v| >= c + 6 && v[c] == v[c + 3] == ':' && AllDigits(v, c + 1, c + 3) && AllDigits(v, c + 4, c + 6)
    ensures Matches(v[c..c + 6], ":dd:dd")
  {
    var m, p := v[c..c + 6], ":dd:dd";
    assert p[0] == p[3] == ':' && p[1] == p[2] == p[4] == p[5] == 'd';
    assert m[1] == v[c + 1] && m[2] == v[c + 2] && m[4] == v[c + 4] && m[5] == v[c + 5];
  }

  lemma {:induction false} FindIs(v: string, c: char, from: nat, k: nat)
    requires from <= k < |v| && v[k] == c && forall i :: from <= i < k ==> v[i] != c
    ensures Find(v, c, from) == k
  {
  }

  lemma ClockIsTime(t: Clock)
    requires ClockOk(t)
    ensures TimeCell(ClockText(t))
  {
    hide Find, Matches, AllDigits, Fraction;
    var v := ClockText(t);
    var sign := if t.negative then "-" else "";
    var s, rest := |sign|, t.minutes + t.fraction;
    var c := s + |t.hours|;
    HoursIn(v, sign, t.hours, rest);
    assert v[c..] == rest;
    MinutesLength(t.minutes);
    assert rest[..6] == t.minutes && rest[6..] == t.fraction;
    MinutesIn(v, c, rest);
    FindIs(v, ':', s, c);
    assert v[c + 6..] == rest[6..];
    FractionAt(v, c + 6);
  }

  lemma MinutesLength(m: string)
    requires Matches(m, ":dd:dd")
    ensures |m| == 6
  {
  }

  lemma HoursIn(v: string, sign: string, hours: string, rest: string)
    requires v == sign + (hours + rest) && sign in {"", "-"} && Digits(hours)
    ensures SignEnd(v) == |sign| && AllDigits(v, |sign|, |sign| + |hours|) && forall i :: |sign| <= i < |sign| + |hours| ==> v[i] != ':'
  {
    assert forall k :: |sign| <= k < |sign| + |hours| ==> v[k] == hours[k - |sign|];
    assert v[|sign|] == hours[0];
  }

  lemma MinutesIn(v: string, c: nat, rest: string)
    requires c <= |v| && v[c..] == rest && |rest| >= 6 && Matches(rest[..6], ":dd:dd")
    ensures v[c] == v[c + 3] == ':' && AllDigits(v, c + 1, c + 3) && AllDigits(v, c + 4, c + 6)
  {
    var m, p := rest[..6], ":dd:dd";
    assert p[0] == p[3] == ':' && p[1] == p[2] == p[4] == p[5] == 'd';
    assert forall k :: 0 <= k < 6 ==> v[c + k] == rest[k] == m[k];
    assert v[c + 0] == m[0] && v[c + 1] == m[1] && v[c + 2] == m[2] && v[c + 3] == m[3] && v[c + 4] == m[4] && v[c + 5] == m[5];
  }
}
