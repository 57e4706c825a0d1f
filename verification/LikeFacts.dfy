/** How the two walks of LIKE, and LIKE and the comparison, agree. */
module LikeFacts {
  import opened Common
  import opened Utf8
  import opened Weights
  import opened Collation
  import opened Like

  // ---- the byte walk and the code point walk ----

  /** An ASCII character without weight, U+0000 included. */
  ghost predicate Ignored(t: Table, c: CodePoint)
    requires Sound(t)
  {
    c < 0x80 && AsciiWeights(t, c) == []
  }

  /** The generated table has no run for U+0000, so `weights_of` gives it the two implicit weights while the ASCII table gives it none; U+0001 is ignored by its run. */
  ghost predicate NulHasNoRun(t: Table)
  {
    AsciiSound(t) && Lookup(t, 0).None? && Ignored(t, 1)
  }

  ghost predicate SameInBoth(t: Table, a: CodePoint, b: CodePoint)
    requires Sound(t)
  {
    SameChar(t, Bytes, a, b) == SameChar(t, CodePoints, a, b)
  }

  /** The two tests of one ASCII character against another differ exactly for U+0000 against another ignored character. */
  lemma WhereTestsDiffer(t: Table, a: CodePoint, b: CodePoint)
    requires NulHasNoRun(t) && a < 0x80 && b < 0x80
    ensures SameInBoth(t, a, b) <==> !(a == 0 != b && Ignored(t, b)) && !(b == 0 != a && Ignored(t, a))
  {
    assert WeightsOf(t, 0) == Implicit(0);
    if a != 0 {
      assert AsciiWeights(t, a) == WeightsOf(t, a);
    }
    if b != 0 {
      assert AsciiWeights(t, b) == WeightsOf(t, b);
    }
  }

  lemma {:induction false} WalksAgree(t: Table, v: seq<CodePoint>, p: seq<CodePoint>, vi: nat, pi: nat)
    requires Sound(t) && vi <= |v| && pi <= |p|
    requires forall a, b :: a in p && b in v ==> SameInBoth(t, a, b)
    ensures Matches(Question(t, Bytes, v, p), vi, pi) == Matches(Question(t, CodePoints, v, p), vi, pi)
    decreases |p| - pi
  {
    hide SameChar, Sound;
    var q, r := Question(t, Bytes, v, p), Question(t, CodePoints, v, p);
    if pi < |p| && p[pi] == PERCENT {
      var rest := pi + 1;
      forall k | vi <= k <= |v| ensures Matches(q, k, rest) == Matches(r, k, rest) {
        WalksAgree(t, v, p, k, rest);
      }
    } else if pi < |p| && vi < |v| {
      var sign := if Escaped(p, pi) then pi + 1 else pi;
      assert p[sign] in p && v[vi] in v;
      assert SameInBoth(t, p[sign], v[vi]);
      WalksAgree(t, v, p, vi + 1, sign + 1);
    }
  }

  /** Every character of `q` behind a backslash: a pattern without signs. */
  function Literal(q: seq<CodePoint>): (p: seq<CodePoint>)
    ensures |p| == 2 * |q|
    ensures forall i :: 0 <= i < |q| ==> p[2 * i] == BACKSLASH && p[2 * i + 1] == q[i]
  {
    if q == [] then [] else
      var front := Literal(q[..|q| - 1]);
      front + [BACKSLASH, q[|q| - 1]]
  }

  /** A pattern without signs matches exactly the texts of its length that match it character by character. */
  lemma {:induction false} LiteralMatches(t: Table, m: Mode, v: seq<CodePoint>, q: seq<CodePoint>, i: nat)
    requires Sound(t) && i <= |v| && i <= |q|
    ensures Matches(Question(t, m, v, Literal(q)), i, 2 * i) <==> |v| == |q| && forall k :: i <= k < |q| ==> SameChar(t, m, q[k], v[k])
    decreases |q| - i
  {
    hide SameChar, Sound;
    var p := Literal(q);
    if i < |q| && i < |v| {
      LiteralMatches(t, m, v, q, i + 1);
      assert p[2 * i] == BACKSLASH && p[2 * i + 1] == q[i];
      assert Escaped(p, 2 * i);
      assert 2 * i + 2 == 2 * (i + 1);
    } else if i < |q| {
      assert p[2 * i] == BACKSLASH;
    }
  }

  lemma LiteralIsAscii(w: seq<CodePoint>)
    requires IsAscii(w)
    ensures IsAscii(Literal(w))
  {
    forall k | 0 <= k < |Literal(w)| ensures Literal(w)[k] < 0x80 {
      var h := k / 2;
      assert Literal(w)[2 * h] == BACKSLASH && Literal(w)[2 * h + 1] == w[h];
    }
  }

  /** Exchanging an ignored character of a value with another one, of which one is U+0000, gives a literal pattern the two walks disagree on. */
  lemma WalksDiffer(t: Table, v: seq<CodePoint>, w: seq<CodePoint>, i: nat)
    requires NulHasNoRun(t) && IsAscii(v) && i < |v| && Ignored(t, v[i])
    requires w == v[i := if v[i] == 0 then 1 else 0]
    ensures IsAscii(Literal(w))
    ensures Matches(Question(t, Bytes, v, Literal(w)), 0, 0) && !Matches(Question(t, CodePoints, v, Literal(w)), 0, 0)
  {
    LiteralIsAscii(w);
    WhereTestsDiffer(t, w[i], v[i]);
    assert AsciiWeights(t, w[i]) == AsciiWeights(t, v[i]);
    hide WeightsOf, AsciiWeights, NulHasNoRun, Matches;
    assert SameChar(t, Bytes, w[i], v[i]) && !SameChar(t, CodePoints, w[i], v[i]);
    LiteralMatches(t, Bytes, v, w, 0);
    LiteralMatches(t, CodePoints, v, w, 0);
  }

  /** A value answers the same to both walks for every ASCII pattern exactly when it holds no ignored character. */
  lemma WalksAgreeExactly(t: Table, v: seq<CodePoint>)
    requires NulHasNoRun(t) && IsAscii(v)
    ensures (forall c :: c in v ==> !Ignored(t, c)) <==>
            forall p: seq<CodePoint> :: IsAscii(p) ==> Matches(Question(t, Bytes, v, p), 0, 0) == Matches(Question(t, CodePoints, v, p), 0, 0)
  {
    if forall c :: c in v ==> !Ignored(t, c) {
      forall p: seq<CodePoint> | IsAscii(p)
        ensures Matches(Question(t, Bytes, v, p), 0, 0) == Matches(Question(t, CodePoints, v, p), 0, 0)
      {
        forall a, b | a in p && b in v ensures SameInBoth(t, a, b) {
          WhereTestsDiffer(t, a, b);
        }
        WalksAgree(t, v, p, 0, 0);
      }
    } else {
      var i :| 0 <= i < |v| && Ignored(t, v[i]);
      WalksDiffer(t, v, v[i := if v[i] == 0 then 1 else 0], i);
    }
  }

  // ---- LIKE and the comparison ----

  lemma SameCharSameWeights(t: Table, m: Mode, a: CodePoint, b: CodePoint)
    requires AsciiSound(t) && SameChar(t, m, a, b) && (m == CodePoints ==> a != 0 && b != 0)
    ensures CharWeights(t, a) == CharWeights(t, b)
  {
    if m == CodePoints {
      assert 0 < a < 0x80 ==> AsciiWeights(t, a) == WeightsOf(t, a);
      assert 0 < b < 0x80 ==> AsciiWeights(t, b) == WeightsOf(t, b);
    }
  }

  lemma {:induction false} SameCharsSameWeights(t: Table, m: Mode, v: seq<CodePoint>, q: seq<CodePoint>)
    requires AsciiSound(t) && |v| == |q| && (forall k :: 0 <= k < |q| ==> SameChar(t, m, q[k], v[k]))
    requires m == CodePoints ==> 0 !in v && 0 !in q
    ensures WeightsOfAll(t, v) == WeightsOfAll(t, q)
  {
    if q != [] {
      SameCharSameWeights(t, m, q[0], v[0]);
      SameCharsSameWeights(t, m, v[1..], q[1..]);
    }
  }

  /** Which walk answers. */
  function WalkFor(value: seq<Byte>, pattern: seq<Byte>): Mode { if IsAscii(value) && IsAscii(pattern) then Bytes else CodePoints }

  /** Whichever walk answers, a text is LIKE a pattern exactly when it is not NULL and the relation holds of the code points. */
  lemma LikeByCodePoints(t: Table, value: seq<Byte>, pattern: seq<Byte>)
    requires Sound(t)
    ensures IsLike(t, value, pattern) <==>
            !IsNull(value) && Matches(Question(t, WalkFor(value, pattern), CodePointsFrom(value, 0), CodePointsFrom(pattern, 0)), 0, 0)
  {
    if IsAscii(value) && IsAscii(pattern) {
      AsciiCodePoints(value, 0);
      AsciiCodePoints(pattern, 0);
      assert value[0..] == value && pattern[0..] == pattern;
    }
  }

  lemma CodePointsOfAll(cs: seq<CodePoint>)
    ensures CodePointsFrom(EncodeAll(cs), 0) == cs
  {
    CodePointsOfEncoded([], cs);
    assert [] + EncodeAll(cs) == EncodeAll(cs);
  }

  /** A text that is LIKE a pattern without signs is the same value as the text the pattern spells, when neither holds U+0000 and that text is not NULL. */
  lemma LikeLiteralIsSame(t: Table, value: seq<Byte>, q: seq<CodePoint>)
    requires AsciiSound(t) && !IsNull(EncodeAll(q))
    requires 0 !in CodePointsFrom(value, 0) && 0 !in q
    requires IsLike(t, value, EncodeAll(Literal(q)))
    ensures Same(t, value, EncodeAll(q))
  {
    var m := WalkFor(value, EncodeAll(Literal(q)));
    assert Sound(t);
    LikeByCodePoints(t, value, EncodeAll(Literal(q)));
    hide Matches, SameChar, IsLike, Sound, AsciiSound, Same, CodePointsFrom, EncodeAll, Literal;
    CodePointsOfAll(q);
    CodePointsOfAll(Literal(q));
    var v := CodePointsFrom(value, 0);
    LiteralMatches(t, m, v, q, 0);
    SameCharsSameWeights(t, m, v, q);
    SameIsSameWeights(t, value, EncodeAll(q));
  }
}
