/** The weights of one code point: the table of runs, the Hangul rule, the implicit weights and the table of the ASCII code points. */
module Weights {
  import opened Common
  import opened Utf8

  type Weight = w: int | 0 <= w < 0x10000

  /** `rising`: the last weight goes up by one for each following code point (kind 1). */
  datatype Run = Run(start: nat, count: nat, rising: bool, n: nat, pool: nat)

  datatype Table = Table(runs: seq<Run>, pool: seq<Weight>)

  const ROOM := 24
  const MOST := 8

  ghost predicate Holds(run: Run, cp: CodePoint) { run.start <= cp < run.start + run.count }

  /** What the generated table promises the lookup: runs in order and disjoint, at most eight weights each, all of them in the pool. */
  ghost predicate Sound(t: Table)
  {
    && (forall i, j :: 0 <= i < j < |t.runs| ==> t.runs[i].start + t.runs[i].count <= t.runs[j].start)
    && (forall i :: 0 <= i < |t.runs| ==> t.runs[i].count > 0 && t.runs[i].n <= MOST && t.runs[i].pool + t.runs[i].n <= |t.pool|)
  }

  /** The weights of `cp` in its run. */
  function RunWeights(t: Table, run: Run, cp: CodePoint): (ws: seq<Weight>)
    requires run.pool + run.n <= |t.pool| && run.start <= cp
    ensures |ws| == run.n
  {
    var listed := t.pool[run.pool..run.pool + run.n];
    if run.rising && run.n > 0 then listed[run.n - 1 := (listed[run.n - 1] + (cp - run.start)) % 0x10000] else listed
  }

  /** The weights of a code point some run holds. */
  ghost function Lookup(t: Table, cp: CodePoint): (r: Option<seq<Weight>>)
    requires Sound(t)
    ensures r.Some? ==> |r.value| <= MOST
  {
    if k: nat :| k < |t.runs| && Holds(t.runs[k], cp) then Some(RunWeights(t, t.runs[k], cp)) else None
  }

  /** At most one run holds a code point, so the lookup does not depend on which one is found. */
  lemma LookupAt(t: Table, cp: CodePoint, k: nat)
    requires Sound(t) && k < |t.runs| && Holds(t.runs[k], cp)
    ensures Lookup(t, cp) == Some(RunWeights(t, t.runs[k], cp))
  {
    forall j: nat | j < |t.runs| && Holds(t.runs[j], cp) ensures j == k {
      assert Holds(t.runs[j], cp) && Holds(t.runs[k], cp);
    }
  }

  /** The binary search of `from_runs`: how many runs start at or before `cp`. */
  method RunsUpTo(t: Table, cp: CodePoint) returns (lo: nat)
    requires Sound(t)
    ensures lo <= |t.runs|
    ensures forall i :: 0 <= i < lo ==> t.runs[i].start <= cp
    ensures forall i :: lo <= i < |t.runs| ==> cp < t.runs[i].start
  {
    var hi := |t.runs|;
    lo := 0;
    while lo < hi
      invariant 0 <= lo <= hi <= |t.runs|
      invariant forall i :: 0 <= i < lo ==> t.runs[i].start <= cp
      invariant forall i :: hi <= i < |t.runs| ==> cp < t.runs[i].start
    {
      var mid := lo + (hi - lo) / 2;
      if t.runs[mid].start <= cp {
        lo := mid + 1;
      } else {
        hi := mid;
      }
    }
  }

  /** The part of `from_runs` that writes: the weights of `cp` in `run`, from `at` on. */
  method CopyWeights(t: Table, run: Run, cp: CodePoint, out: array<Weight>, at: nat)
    requires run.pool + run.n <= |t.pool| && run.start <= cp && at + run.n <= out.Length
    modifies out
    ensures out[at..at + run.n] == RunWeights(t, run, cp)
    ensures forall i :: 0 <= i < out.Length && !(at <= i < at + run.n) ==> out[i] == old(out[i])
  {
    for i := 0 to run.n
      invariant out[at..at + i] == t.pool[run.pool..run.pool + i]
      invariant forall j :: 0 <= j < out.Length && !(at <= j < at + i) ==> out[j] == old(out[j])
    {
      ghost var before := out[at..at + i];
      out[at + i] := t.pool[run.pool + i];
      assert out[at..at + i] == before;
    }
    if run.rising && run.n > 0 {
      out[at + run.n - 1] := (out[at + run.n - 1] + (cp - run.start)) % 0x10000;
    }
  }

  /** `from_runs`: the number of weights written at `at`, or -1 exactly when no run holds `cp`. */
  method FromRuns(t: Table, cp: CodePoint, out: array<Weight>, at: nat) returns (m: int)
    requires Sound(t) && at + MOST <= out.Length
    modifies out
    ensures m == -1 <==> Lookup(t, cp).None?
    ensures m != -1 ==> 0 <= m <= MOST && out[at..at + m] == Lookup(t, cp).value
    ensures forall i :: 0 <= i < out.Length && !(at <= i < at + m) ==> out[i] == old(out[i])
  {
    var lo := RunsUpTo(t, cp);
    if lo == 0 {
      return -1;
    }
    var run := t.runs[lo - 1];
    assert forall i :: 0 <= i < lo - 1 ==> t.runs[i].start + t.runs[i].count <= run.start;
    if cp >= run.start + run.count {
      return -1;
    }
    LookupAt(t, cp, lo - 1);
    CopyWeights(t, run, cp, out, at);
    m := run.n;
  }

  // ---- implicit weights ----

  /** The base of the first implicit weight, by the block of the code point. */
  function ImplicitBase(cp: CodePoint): (b: Weight)
    ensures b in {0xFB40, 0xFB80, 0xFBC0}
  {
    if 0x4E00 <= cp <= 0x9FFF
       || cp in {0xFA0E, 0xFA0F, 0xFA11, 0xFA13, 0xFA14, 0xFA1F, 0xFA21, 0xFA23, 0xFA24, 0xFA27, 0xFA28, 0xFA29} then 0xFB40
    else if 0x3400 <= cp <= 0x4DBF || 0x20000 <= cp <= 0x2A6DF || 0x2A700 <= cp <= 0x2EBEF then 0xFB80
    else 0xFBC0
  }

  function Implicit(cp: CodePoint): (ws: seq<Weight>)
    ensures |ws| == 2
  {
    [ImplicitBase(cp) + cp / 0x8000, cp % 0x8000 + 0x8000]
  }

  /** No two code points have the same implicit weights, whatever their blocks. */
  lemma ImplicitIsInjective(a: CodePoint, b: CodePoint)
    requires Implicit(a) == Implicit(b)
    ensures a == b
  {
    assert Implicit(a)[0] == Implicit(b)[0] && Implicit(a)[1] == Implicit(b)[1];
    assert 0 <= a / 0x8000 < 0x40 && 0 <= b / 0x8000 < 0x40;
    assert ImplicitBase(a) == ImplicitBase(b);
    assert a == a / 0x8000 * 0x8000 + a % 0x8000 && b == b / 0x8000 * 0x8000 + b % 0x8000;
  }

  // ---- Hangul ----

  predicate IsHangul(cp: CodePoint) { 0xAC00 <= cp <= 0xD7A3 }

  /** The jamo of a syllable; the third is left out when it has none. */
  function Jamo(cp: CodePoint): (js: seq<CodePoint>)
    requires IsHangul(cp)
    ensures 2 <= |js| <= 3
  {
    var s := cp - 0xAC00;
    [0x1100 + s / 588, 0x1161 + s % 588 / 28] + (if s % 28 == 0 then [] else [0x11A7 + s % 28])
  }

  /** Section 3.12 of the Unicode Standard: the syllable a leading consonant, a vowel and a trailing consonant (0: none) compose. */
  function Compose(l: nat, v: nat, t: nat): int { 0xAC00 + (l * 21 + v) * 28 + t }

  /** Splitting a composed syllable gives its jamo. */
  lemma JamoOfComposed(l: nat, v: nat, t: nat)
    requires l < 19 && v < 21 && t < 28
    ensures IsHangul(Compose(l, v, t))
    ensures Jamo(Compose(l, v, t)) == [0x1100 + l, 0x1161 + v] + if t == 0 then [] else [0x11A7 + t]
  {
    var s := (l * 21 + v) * 28 + t;
    assert s == l * 588 + (v * 28 + t) && v * 28 + t < 588;
    assert s / 588 == l && s % 588 == v * 28 + t;
    assert s % 28 == t;
  }

  /** Composing the jamo of a syllable gives the syllable. */
  lemma ComposedOfJamo(cp: CodePoint)
    requires IsHangul(cp)
    ensures var js := Jamo(cp);
      && 0 <= js[0] - 0x1100 < 19 && 0 <= js[1] - 0x1161 < 21 && (|js| == 3 ==> 0 < js[2] - 0x11A7 < 28)
      && cp == Compose(js[0] - 0x1100, js[1] - 0x1161, if |js| == 3 then js[2] - 0x11A7 else 0)
  {
    var s := cp - 0xAC00;
    assert s == s / 588 * 588 + s % 588;
    assert s % 588 % 28 == s % 28;
  }

  ghost function JamoWeights(t: Table, js: seq<CodePoint>): (ws: seq<Weight>)
    requires Sound(t)
    ensures |ws| <= MOST * |js|
  {
    if js == [] then [] else
      var last := Lookup(t, js[|js| - 1]);
      JamoWeights(t, js[..|js| - 1]) + (if last.Some? then last.value else [])
  }

  // ---- any code point ----

  /** The weights of a code point: those of its run, or of its jamo, or the implicit ones. */
  ghost function WeightsOf(t: Table, cp: CodePoint): (ws: seq<Weight>)
    requires Sound(t)
    ensures |ws| <= ROOM
  {
    var r := Lookup(t, cp);
    if r.Some? then r.value else if IsHangul(cp) then JamoWeights(t, Jamo(cp)) else Implicit(cp)
  }

  /** The weights of all jamo, one after the other; a jamo without a run adds none. */
  method FillJamo(t: Table, jamo: seq<CodePoint>, out: array<Weight>) returns (n: nat)
    requires Sound(t) && MOST * |jamo| <= out.Length
    modifies out
    ensures n <= MOST * |jamo| && out[..n] == JamoWeights(t, jamo)
  {
    n := 0;
    for k := 0 to |jamo|
      invariant n <= MOST * k && out[..n] == JamoWeights(t, jamo[..k])
    {
      ghost var before := out[..n];
      var more := FromRuns(t, jamo[k], out, n);
      assert out[..n] == before;
      assert jamo[..k + 1][..k] == jamo[..k] && jamo[..k + 1][k] == jamo[k];
      if more > 0 {
        assert out[..n + more] == out[..n] + out[n..n + more];
        n := n + more;
      }
    }
    assert jamo[..|jamo|] == jamo;
  }

  /** `weights_of`: never writes past the room of a character. */
  method FillWeights(t: Table, cp: CodePoint, out: array<Weight>) returns (n: nat)
    requires Sound(t) && out.Length == ROOM
    modifies out
    ensures n <= ROOM && out[..n] == WeightsOf(t, cp)
  {
    var m := FromRuns(t, cp, out, 0);
    if m >= 0 {
      assert out[..m] == out[0..0 + m];
      return m;
    }
    if IsHangul(cp) {
      n := FillJamo(t, Jamo(cp), out);
      return n;
    }
    out[0] := ImplicitBase(cp) + cp / 0x8000;
    out[1] := cp % 0x8000 + 0x8000;
    assert out[..2] == Implicit(cp);
    n := 2;
  }

  // ---- ASCII ----

  /** What the generated table promises about ASCII: 1 to 127 have a run with at most one weight, a printable character has exactly one, the
      two cases of a letter share theirs and no other two printable characters do. (U+0000 has no run: the ASCII table ignores it by itself.) */
  ghost predicate AsciiSound(t: Table)
  {
    && Sound(t)
    && (forall c: CodePoint :: 1 <= c < 0x80 ==> Lookup(t, c).Some? && |Lookup(t, c).value| <= 1)
    && (forall c: CodePoint :: IsPrintable(c) ==> |WeightsOf(t, c)| == 1)
    && (forall c: CodePoint, d: CodePoint :: IsPrintable(c) && IsPrintable(d) ==>
          (WeightsOf(t, c) == WeightsOf(t, d) <==> Lower(c) == Lower(d)))
  }

  predicate IsPrintable(c: int) { 0x20 <= c <= 0x7E }

  predicate IsUpper(c: int) { 0x41 <= c <= 0x5A }

  function Lower(c: int): int { if IsUpper(c) then c + 32 else c }

  /** The weights the ASCII table gives: none for U+0000, else the first one of the code point. */
  ghost function AsciiWeights(t: Table, c: CodePoint): (ws: seq<Weight>)
    requires Sound(t) && c < 0x80
    ensures |ws| <= 1
  {
    var all := WeightsOf(t, c);
    if c == 0 || all == [] then [] else all[..1]
  }

  /** The table `ascii_table` builds once and never changes: how many weights each ASCII code point has, and the weight. */
  class AsciiTable {
    const t: Table
    const n: seq<Byte>
    const w: seq<Weight>

    ghost predicate Valid()
    {
      && Sound(t) && |n| == 128 && |w| == 128
      && forall c: Byte :: c < 0x80 ==> n[c] == |AsciiWeights(t, c)| && (n[c] > 0 ==> w[c] == AsciiWeights(t, c)[0])
    }

    constructor (t: Table)
      requires Sound(t)
      ensures Valid() && this.t == t
    {
      var counts, weights := new Byte[128], new Weight[128];
      for c := 0 to 128
        invariant forall d :: 0 <= d < c ==>
          counts[d] == |AsciiWeights(t, d)| && (counts[d] > 0 ==> weights[d] == AsciiWeights(t, d)[0])
      {
        var buf := new Weight[ROOM];
        var k := 0;
        if c != 0 {
          k := FillWeights(t, c, buf);
          assert k > 0 ==> buf[0] == buf[..k][0];
        }
        counts[c] := if k > 1 then 1 else k;
        weights[c] := if k > 0 then buf[0] else 0;
      }
      this.t, this.n, this.w := t, counts[..], weights[..];
    }
  }
}
