/** `key`: a text such that two texts are the same value exactly when their keys are the same bytes. */
module Keys {
  import opened Common
  import opened Utf8
  import opened Weights
  import opened Collation

  // ---- the printable character of a weight ----

  predicate IsPlain(c: int) { IsPrintable(c) && !IsUpper(c) }

  ghost predicate HasPlain(t: Table, w: Weight)
    requires Sound(t)
  {
    exists c: Byte :: IsPlain(c) && AsciiWeights(t, c) == [w]
  }

  /** The lower-case printable character that weighs `w`. */
  ghost function PlainOf(t: Table, w: Weight): (c: Byte)
    requires Sound(t) && HasPlain(t, w)
    ensures IsPlain(c) && AsciiWeights(t, c) == [w]
  {
    var c: Byte :| IsPlain(c) && AsciiWeights(t, c) == [w];
    c
  }

  /** No other plain character has its weight. */
  lemma PlainIsUnique(t: Table, w: Weight, c: Byte)
    requires AsciiSound(t) && IsPlain(c) && AsciiWeights(t, c) == [w]
    ensures HasPlain(t, w) && PlainOf(t, w) == c
  {
    var d := PlainOf(t, w);
    SameWeightSameLetter(t, c, d);
  }

  lemma SameWeightSameLetter(t: Table, c: Byte, d: Byte)
    requires AsciiSound(t) && IsPlain(c) && IsPlain(d) && AsciiWeights(t, c) == AsciiWeights(t, d)
    ensures c == d
  {
    assert |WeightsOf(t, c)| == 1 && |WeightsOf(t, d)| == 1;
    hide WeightsOf;
    assert WeightsOf(t, c) == AsciiWeights(t, c) && WeightsOf(t, d) == AsciiWeights(t, d);
  }

  ghost predicate AllPlain(t: Table, ws: seq<Weight>)
    requires Sound(t)
  {
    forall w :: w in ws ==> HasPlain(t, w)
  }

  ghost function PlainText(t: Table, ws: seq<Weight>): (s: seq<Byte>)
    requires Sound(t) && AllPlain(t, ws)
    ensures |s| == |ws|
  {
    if ws == [] then [] else [PlainOf(t, ws[0])] + PlainText(t, ws[1..])
  }

  lemma {:induction false} PlainTextAppend(t: Table, ws: seq<Weight>, w: Weight)
    requires Sound(t) && AllPlain(t, ws) && HasPlain(t, w)
    ensures AllPlain(t, ws + [w]) && PlainText(t, ws + [w]) == PlainText(t, ws) + [PlainOf(t, w)]
  {
    if ws == [] {
      assert ws + [w] == [w];
    } else {
      assert (ws + [w])[1..] == ws[1..] + [w];
      PlainTextAppend(t, ws[1..], w);
    }
  }

  lemma SamePlain(t: Table, x: Weight, y: Weight)
    requires Sound(t) && HasPlain(t, x) && HasPlain(t, y) && PlainOf(t, x) == PlainOf(t, y)
    ensures x == y
  {
    assert [x] == AsciiWeights(t, PlainOf(t, x)) == [y];
    assert [x][0] == [y][0];
  }

  lemma {:induction false} PlainTextIsInjective(t: Table, a: seq<Weight>, b: seq<Weight>)
    requires Sound(t) && AllPlain(t, a) && AllPlain(t, b) && PlainText(t, a) == PlainText(t, b)
    ensures a == b
  {
    hide PlainOf, HasPlain;
    if a != [] {
      var pa, pb := PlainText(t, a), PlainText(t, b);
      assert |a| == |pa| == |pb| == |b|;
      assert pa[0] == PlainOf(t, a[0]) && pb[0] == PlainOf(t, b[0]);
      SamePlain(t, a[0], b[0]);
      assert pa[1..] == PlainText(t, a[1..]) && pb[1..] == PlainText(t, b[1..]);
      PlainTextIsInjective(t, a[1..], b[1..]);
      assert a == [a[0]] + a[1..] && b == [b[0]] + b[1..];
    }
  }

  lemma {:induction false} PlainTextIsPrintable(t: Table, ws: seq<Weight>)
    requires Sound(t) && AllPlain(t, ws)
    ensures forall c :: c in PlainText(t, ws) ==> IsPrintable(c)
  {
    if ws != [] {
      PlainTextIsPrintable(t, ws[1..]);
    }
  }

  lemma {:induction false} BigEndianIsInjective(a: seq<Weight>, b: seq<Weight>)
    requires BigEndian(a) == BigEndian(b)
    ensures a == b
  {
    BigEndianKeepsOrder(a, b);
    LexReflects(BigEndian(a), BigEndian(b));
    LexReflects(a, b);
  }

  // ---- what the key is ----

  const NULL_KEY: seq<Byte> := [2, 0x4E]

  /** The key by the weights alone: a mark for NULL, the plain characters of the weights when every weight has one, else the weights behind a \x01. */
  ghost function KeyOf(t: Table, s: seq<Byte>): seq<Byte>
    requires Sound(t)
  {
    var ws := TextWeights(t, s, 0);
    if IsNull(s) then NULL_KEY
    else if AllPlain(t, ws) then PlainText(t, ws)
    else [1] + BigEndian(ws)
  }

  /** Two texts have the same key exactly when they are the same value, NULL included. */
  lemma KeyIffSame(t: Table, a: seq<Byte>, b: seq<Byte>)
    requires Sound(t)
    ensures KeyOf(t, a) == KeyOf(t, b) <==> Same(t, a, b)
  {
    var wa, wb := TextWeights(t, a, 0), TextWeights(t, b, 0);
    SameIsSameWeights(t, a, b);
    KeyStart(t, a);
    KeyStart(t, b);
    if !IsNull(a) && !IsNull(b) && KeyOf(t, a) == KeyOf(t, b) {
      if AllPlain(t, wa) {
        PlainTextIsInjective(t, wa, wb);
      } else {
        assert ([1] + BigEndian(wa))[1..] == BigEndian(wa) && ([1] + BigEndian(wb))[1..] == BigEndian(wb);
        BigEndianIsInjective(wa, wb);
      }
    }
  }

  /** The first byte of a key tells its kind. */
  lemma KeyStart(t: Table, s: seq<Byte>)
    requires Sound(t)
    ensures IsNull(s) <==> KeyOf(t, s) != [] && KeyOf(t, s)[0] == 2
    ensures !IsNull(s) ==> (AllPlain(t, TextWeights(t, s, 0)) <==> KeyOf(t, s) == [] || KeyOf(t, s)[0] >= 0x20)
  {
    if AllPlain(t, TextWeights(t, s, 0)) {
      PlainTextIsPrintable(t, TextWeights(t, s, 0));
    }
  }

  // ---- the short way for printable ASCII ----

  function LowerText(s: seq<Byte>): (r: seq<Byte>)
    requires forall i :: 0 <= i < |s| ==> IsPrintable(s[i])
    ensures |r| == |s|
  {
    seq(|s|, i requires 0 <= i < |s| => Lower(s[i]))
  }

  lemma PrintableWeight(t: Table, c: Byte) returns (w: Weight)
    requires AsciiSound(t) && IsPrintable(c)
    ensures AsciiWeights(t, c) == [w] && HasPlain(t, w) && PlainOf(t, w) == Lower(c)
  {
    var l: Byte := Lower(c);
    assert IsPlain(l) && Lower(l) == Lower(c);
    assert WeightsOf(t, c) == WeightsOf(t, l) && |WeightsOf(t, c)| == 1;
    w := WeightsOf(t, c)[0];
    assert WeightsOf(t, c) == [w];
    PlainIsUnique(t, w, l);
  }

  lemma PlainTextCons(t: Table, w: Weight, ws: seq<Weight>)
    requires Sound(t) && HasPlain(t, w) && AllPlain(t, ws)
    ensures AllPlain(t, [w] + ws) && PlainText(t, [w] + ws) == [PlainOf(t, w)] + PlainText(t, ws)
  {
    hide HasPlain, Sound;
    assert ([w] + ws)[1..] == ws;
  }

  lemma PrintableHead(t: Table, c: Byte, cs: seq<Byte>)
    requires AsciiSound(t) && IsPrintable(c) && AllPlain(t, WeightsOfAll(t, cs))
    ensures var ws := AsciiWeights(t, c) + WeightsOfAll(t, cs); AllPlain(t, ws) && PlainText(t, ws) == [Lower(c)] + PlainText(t, WeightsOfAll(t, cs))
  {
    assert Sound(t);
    hide *;
    var w := PrintableWeight(t, c);
    PlainTextCons(t, w, WeightsOfAll(t, cs));
  }

  lemma LowerFirst(cs: seq<Byte>)
    requires cs != [] && forall i :: 0 <= i < |cs| ==> IsPrintable(cs[i])
    ensures LowerText(cs) == [Lower(cs[0])] + LowerText(cs[1..])
  {
  }

  /** For printable ASCII the key by the weights is the text in lower case. */
  lemma {:induction false} PrintableKey(t: Table, cs: seq<Byte>)
    requires AsciiSound(t) && forall i :: 0 <= i < |cs| ==> IsPrintable(cs[i])
    ensures AllPlain(t, WeightsOfAll(t, cs)) && PlainText(t, WeightsOfAll(t, cs)) == LowerText(cs)
  {
    assert Sound(t);
    hide AsciiSound, Sound, AsciiWeights, HasPlain, AllPlain, PlainText, IsPrintable, LowerText, Lower;
    if cs == [] {
      NothingIsPlain(t);
      assert LowerText([]) == [];
    } else {
      PrintableKey(t, cs[1..]);
      PrintableHead(t, cs[0], cs[1..]);
      LowerFirst(cs);
    }
  }

  // ---- the sorted table of plain characters ----

  datatype Entry = Entry(weight: Weight, letter: Byte)

  predicate Less(a: Entry, b: Entry) { a.weight < b.weight || (a.weight == b.weight && a.letter < b.letter) }

  ghost predicate Sorted(es: seq<Entry>)
  {
    forall i, j :: 0 <= i < j < |es| ==> !Less(es[j], es[i])
  }

  /** `std::sort` on pairs, by what it promises: the same entries, in order. */
  method Sort(es: seq<Entry>) returns (r: seq<Entry>)
    ensures Sorted(r) && forall e :: e in r <==> e in es
  {
    r := [];
    for k := 0 to |es|
      invariant Sorted(r) && forall e :: e in r <==> e in es[..k]
    {
      r := Insert(r, es[k]);
      assert es[..k + 1] == es[..k] + [es[k]];
    }
    assert es[..|es|] == es;
  }

  method Insert(es: seq<Entry>, e: Entry) returns (r: seq<Entry>)
    requires Sorted(es)
    ensures Sorted(r) && forall x :: x in r <==> x in es || x == e
  {
    var at := LowerBound(es, e);
    r := es[..at] + [e] + es[at..];
    assert forall x :: x in es <==> x in es[..at] || x in es[at..] by {
      assert es == es[..at] + es[at..];
    }
  }

  /** `std::lower_bound`: the place of the first entry that is not below `e`. */
  method LowerBound(es: seq<Entry>, e: Entry) returns (at: nat)
    requires Sorted(es)
    ensures at <= |es|
    ensures forall i :: 0 <= i < at ==> Less(es[i], e)
    ensures forall i :: at <= i < |es| ==> !Less(es[i], e)
  {
    var hi := |es|;
    at := 0;
    while at < hi
      invariant 0 <= at <= hi <= |es|
      invariant forall i :: 0 <= i < at ==> Less(es[i], e)
      invariant forall i :: hi <= i < |es| ==> !Less(es[i], e)
    {
      var mid := (at + hi) / 2;
      if Less(es[mid], e) {
        at := mid + 1;
      } else {
        hi := mid;
      }
    }
  }

  ghost predicate IsPlainTable(t: Table, es: seq<Entry>)
    requires Sound(t)
  {
    && Sorted(es)
    && (forall e :: e in es ==> IsPlain(e.letter) && AsciiWeights(t, e.letter) == [e.weight])
    && (forall c: Byte :: IsPlain(c) ==> exists e :: e in es && e.letter == c)
  }

  /** `ascii_of_weight`: the printable characters without the upper case, by weight. */
  method AsciiOfWeight(ascii: AsciiTable) returns (es: seq<Entry>)
    requires ascii.Valid() && AsciiSound(ascii.t)
    ensures IsPlainTable(ascii.t, es)
  {
    hide AsciiSound, AsciiWeights;
    var raw: seq<Entry> := [];
    for c := 0x20 to 0x7F
      invariant forall e :: e in raw <==> IsPlain(e.letter) && e.letter < c && AsciiWeights(ascii.t, e.letter) == [e.weight]
    {
      PrintableEntry(ascii, c);
      if !IsUpper(c) {
        raw := raw + [Entry(ascii.w[c], c)];
      }
    }
    es := Sort(raw);
    forall c: Byte | IsPlain(c) ensures exists e :: e in es && e.letter == c {
      PrintableEntry(ascii, c);
      assert Entry(ascii.w[c], c) in raw;
    }
  }

  lemma PrintableEntry(ascii: AsciiTable, c: Byte)
    requires ascii.Valid() && AsciiSound(ascii.t) && IsPrintable(c)
    ensures AsciiWeights(ascii.t, c) == [ascii.w[c]]
  {
    var w := PrintableWeight(ascii.t, c);
  }

  lemma PlainIsListed(t: Table, es: seq<Entry>, w: Weight)
    requires Sound(t) && IsPlainTable(t, es) && HasPlain(t, w)
    ensures exists i :: 0 <= i < |es| && es[i].weight == w
  {
    var c := PlainOf(t, w);
    assert AsciiWeights(t, c) == [w];
    hide AsciiWeights, Sound;
    var e :| e in es && e.letter == c;
    assert [e.weight][0] == [w][0];
  }

  /** Looking a weight up in the sorted table finds its plain character exactly when it has one. */
  method FindPlain(ascii: AsciiTable, es: seq<Entry>, w: Weight) returns (r: Option<Byte>)
    requires ascii.Valid() && AsciiSound(ascii.t) && IsPlainTable(ascii.t, es)
    ensures r.Some? <==> HasPlain(ascii.t, w)
    ensures r.Some? ==> r.value == PlainOf(ascii.t, w)
  {
    if HasPlain(ascii.t, w) {
      PlainIsListed(ascii.t, es, w);
    }
    var at := LowerBound(es, Entry(w, 0));
    if at == |es| || es[at].weight != w {
      return None;
    }
    assert es[at] in es;
    PlainIsUnique(ascii.t, w, es[at].letter);
    r := Some(es[at].letter);
  }

  // ---- key ----

  /** `key`: all four shapes are the one key by the weights. */
  method Key(ascii: AsciiTable, s: seq<Byte>) returns (out: seq<Byte>)
    requires ascii.Valid() && AsciiSound(ascii.t)
    ensures out == KeyOf(ascii.t, s)
  {
    hide AsciiSound, AllPlain, PlainText, TextWeights;
    if IsNull(s) {
      return NULL_KEY;
    }
    if forall i :: 0 <= i < |s| ==> IsPrintable(s[i]) {
      KeyOfPrintable(ascii.t, s);
      return LowerText(s);
    }
    var weights := AllWeights(ascii, s);
    var plain := PlainIfAll(ascii, weights);
    if |plain| == |weights| {
      return plain;
    }
    out := WeightKey(weights);
  }

  lemma KeyOfPrintable(t: Table, s: seq<Byte>)
    requires AsciiSound(t) && !IsNull(s) && forall i :: 0 <= i < |s| ==> IsPrintable(s[i])
    ensures KeyOf(t, s) == LowerText(s)
  {
    AsciiCodePoints(s, 0);
    assert s[0..] == s;
    PrintableKey(t, s);
    hide AsciiSound, AllPlain, PlainText;
  }

  method WeightKey(weights: seq<Weight>) returns (out: seq<Byte>)
    ensures out == [1] + BigEndian(weights)
  {
    out := [1];
    for k := 0 to |weights|
      invariant out == [1] + BigEndian(weights[..k])
    {
      BigEndianAppend(weights[..k], weights[k]);
      assert weights[..k + 1] == weights[..k] + [weights[k]];
      out := out + TwoBytes(weights[k]);
    }
    assert weights[..|weights|] == weights;
  }

  lemma NothingIsPlain(t: Table)
    requires Sound(t)
    ensures AllPlain(t, []) && PlainText(t, []) == []
  {
  }

  method AllWeights(ascii: AsciiTable, s: seq<Byte>) returns (weights: seq<Weight>)
    requires ascii.Valid()
    ensures weights == TextWeights(ascii.t, s, 0)
  {
    hide Cursor.Valid, TextWeights;
    weights := [];
    var c := new Cursor(s, ascii);
    while true
      invariant c.Valid() && fresh(c) && fresh(c.buf)
      invariant TextWeights(ascii.t, s, 0) == weights + c.rest
      decreases |c.rest|
    {
      var w, more := c.Next();
      if !more {
        assert weights + [] == weights;
        return;
      }
      weights := weights + [w];
    }
  }

  /** The plain characters of the weights; empty as soon as one weight has none, so that the length tells. */
  method PlainIfAll(ascii: AsciiTable, weights: seq<Weight>) returns (plain: seq<Byte>)
    requires ascii.Valid() && AsciiSound(ascii.t)
    ensures |plain| == |weights| <==> AllPlain(ascii.t, weights)
    ensures |plain| == |weights| ==> plain == PlainText(ascii.t, weights)
  {
    hide AsciiSound, HasPlain, IsPlainTable, PlainText;
    NothingIsPlain(ascii.t);
    var es := AsciiOfWeight(ascii);
    plain := [];
    for k := 0 to |weights|
      invariant AllPlain(ascii.t, weights[..k]) && plain == PlainText(ascii.t, weights[..k])
    {
      var c := FindPlain(ascii, es, weights[k]);
      if c.None? {
        assert weights[k] in weights;
        return [];
      }
      PlainTextAppend(ascii.t, weights[..k], weights[k]);
      assert weights[..k + 1] == weights[..k] + [weights[k]];
      plain := plain + [c.value];
    }
    assert weights[..|weights|] == weights;
  }
}
