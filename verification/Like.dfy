/** `value LIKE pattern`: the walk that goes back only to the last `%`, held against the recursive relation. */
module Like {
  import opened Common
  import opened Utf8
  import opened Weights
  import opened Collation

  const PERCENT: CodePoint := 0x25
  const UNDERSCORE: CodePoint := 0x5F
  const BACKSLASH: CodePoint := 0x5C

  /** Which table tells whether two characters match: the one for ASCII bytes, or the weights of any code points. */
  datatype Mode = Bytes | CodePoints

  /** A question the walk answers: the value `v` against the pattern `p`. */
  datatype Question = Question(t: Table, m: Mode, v: seq<CodePoint>, p: seq<CodePoint>)

  type Asked = q: Question | Sound(q.t) ghost witness Question(Table([], []), Bytes, [], [])

  ghost predicate SameChar(t: Table, m: Mode, a: CodePoint, b: CodePoint)
    requires Sound(t)
  {
    a == b || (if m == Bytes then a < 0x80 && b < 0x80 && AsciiWeights(t, a) == AsciiWeights(t, b) else WeightsOf(t, a) == WeightsOf(t, b))
  }

  predicate Escaped(p: seq<CodePoint>, pi: nat) { pi + 1 < |p| && p[pi] == BACKSLASH }

  /** What LIKE means: the value from `vi` on matches the pattern from `pi` on. `%` is any run of characters, `_` any one, `\x` the character x itself; a
      backslash that ends the pattern is a backslash. */
  ghost predicate Matches(q: Asked, vi: nat, pi: nat)
    requires vi <= |q.v| && pi <= |q.p|
    decreases |q.p| - pi
  {
    if pi == |q.p| then vi == |q.v|
    else if q.p[pi] == PERCENT then exists k, rest :: vi <= k <= |q.v| && rest == pi + 1 && Matches(q, k, rest)
    else if vi == |q.v| then false
    else if Escaped(q.p, pi) then SameChar(q.t, q.m, q.p[pi + 1], q.v[vi]) && Matches(q, vi + 1, pi + 2)
    else (q.p[pi] == UNDERSCORE || SameChar(q.t, q.m, q.p[pi], q.v[vi])) && Matches(q, vi + 1, pi + 1)
  }

  /** The pattern from `pi` on matches the value from some place at or after `from`. */
  ghost predicate Later(q: Asked, from: nat, pi: nat)
    requires pi <= |q.p|
  {
    exists k :: from <= k <= |q.v| && Matches(q, k, pi)
  }

  /** What the walk keeps. Before any `%`: the question is still the whole question. After one: it is whether the rest of the pattern after the last `%`
      matches from `mark` or later (`Later`), the part already walked matched one character per sign (`Aligned`), and the current attempt is the one at `mark`. */
  ghost predicate Walk(q: Asked, vi: nat, pi: nat, star: int, mark: nat)
  {
    && vi <= |q.v| && pi <= |q.p| && -1 <= star < pi + 1 && mark <= vi
    && if star == -1 then Matches(q, 0, 0) == Matches(q, vi, pi)
       else
         && star < pi
         && Matches(q, 0, 0) == Later(q, mark, star + 1)
         && Matches(q, mark, star + 1) == Matches(q, vi, pi)
         && Aligned(q, star + 1, mark, vi - mark, pi)
  }

  /** Wherever the pattern from `pi` on matches, at `mark` or later, its part up to `pj` takes `n` characters. */
  ghost predicate Aligned(q: Asked, pi: nat, mark: nat, n: nat, pj: nat)
    requires pi <= |q.p| && pj <= |q.p|
  {
    forall k :: mark <= k <= |q.v| && Matches(q, k, pi) ==> k + n <= |q.v| && Matches(q, k + n, pj)
  }

  /** How many pattern characters the sign at `pi` takes when it stands for the character at `vi`: 2 when escaped, else 1; 0 when it does not. */
  ghost function Step(q: Asked, vi: nat, pi: nat): (n: nat)
    requires vi < |q.v|
    ensures pi + n <= |q.p| || n == 0
  {
    if pi >= |q.p| || q.p[pi] == PERCENT then 0
    else if Escaped(q.p, pi) then if SameChar(q.t, q.m, q.p[pi + 1], q.v[vi]) then 2 else 0
    else if q.p[pi] == UNDERSCORE || SameChar(q.t, q.m, q.p[pi], q.v[vi]) then 1 else 0
  }

  lemma WalkSign(q: Asked, vi: nat, pi: nat, star: int, mark: nat)
    requires Walk(q, vi, pi, star, mark) && vi < |q.v| && Step(q, vi, pi) > 0
    ensures Walk(q, vi + 1, pi + Step(q, vi, pi), star, mark)
  {
    hide SameChar;
    if star != -1 {
      AlignedSign(q, star + 1, mark, vi - mark, pi, vi);
    }
  }

  lemma AlignedSign(q: Asked, pi: nat, mark: nat, n: nat, pj: nat, vi: nat)
    requires pi <= |q.p| && vi < |q.v| && Step(q, vi, pj) > 0 && Aligned(q, pi, mark, n, pj)
    requires mark + n == vi
    ensures Aligned(q, pi, mark, n + 1, pj + Step(q, vi, pj))
  {
    hide SameChar;
    forall k | mark <= k <= |q.v| && Matches(q, k, pi)
      ensures k + n + 1 <= |q.v| && Matches(q, k + n + 1, pj + Step(q, vi, pj))
    {
      assert Matches(q, k + n, pj);
    }
  }

  /** A new `%` makes the earlier one needless: whatever it could still skip, the new one can skip. */
  lemma WalkStar(q: Asked, vi: nat, pi: nat, star: int, mark: nat)
    requires Walk(q, vi, pi, star, mark) && vi < |q.v| && pi < |q.p| && q.p[pi] == PERCENT
    ensures star < pi && Walk(q, vi, pi + 1, pi, vi)
  {
    hide SameChar;
    var next := pi + 1;
    assert Matches(q, vi, pi) == Later(q, vi, next);
    if star != -1 {
      var rest := star + 1;
      if k :| mark <= k <= |q.v| && Matches(q, k, rest) {
        assert Matches(q, k + (vi - mark), pi);
        assert Later(q, k + (vi - mark), next);
        var later :| k + (vi - mark) <= later <= |q.v| && Matches(q, later, next);
        assert Later(q, vi, next);
      }
      assert Matches(q, mark, rest) ==> Later(q, mark, rest);
    }
    assert Aligned(q, next, vi, 0, next);
  }

  /** A dead end sends the walk back to the last `%`, which skips one character more. */
  lemma WalkBack(q: Asked, vi: nat, pi: nat, star: nat, mark: nat)
    requires Walk(q, vi, pi, star, mark) && vi < |q.v|
    requires !Matches(q, vi, pi)
    ensures Walk(q, mark + 1, star + 1, star, mark + 1)
  {
    assert Later(q, mark, star + 1) == Later(q, mark + 1, star + 1);
  }

  lemma DeadEnd(q: Asked, vi: nat, pi: nat)
    requires vi < |q.v| && pi <= |q.p| && (pi < |q.p| ==> q.p[pi] != PERCENT) && Step(q, vi, pi) == 0
    ensures !Matches(q, vi, pi)
  {
  }

  /** At the end of the value the answer is whether only `%` are left. */
  lemma {:induction false} OnlyStarsLeft(q: Asked, pi: nat)
    requires pi <= |q.p|
    ensures Matches(q, |q.v|, pi) <==> forall i :: pi <= i < |q.p| ==> q.p[i] == PERCENT
    decreases |q.p| - pi
  {
    if pi < |q.p| && q.p[pi] == PERCENT {
      OnlyStarsLeft(q, pi + 1);
    }
  }

  lemma WalkEnd(q: Asked, pi: nat, star: int, mark: nat)
    requires Walk(q, |q.v|, pi, star, mark)
    ensures Matches(q, 0, 0) == Matches(q, |q.v|, pi)
  {
    if star != -1 {
      var rest := star + 1;
      assert Matches(q, mark, rest) ==> Later(q, mark, rest);
      if Later(q, mark, rest) {
        var k :| mark <= k <= |q.v| && Matches(q, k, rest);
        assert k == mark;
      }
    }
  }

  // ---- the two walks ----

  /** The end of both walks: `%` signs that are left match nothing. */
  method SkipStars(p: seq<CodePoint>, from: nat) returns (all: bool)
    requires from <= |p|
    ensures all <==> forall i :: from <= i < |p| ==> p[i] == PERCENT
  {
    var pi := from;
    while pi < |p| && p[pi] == PERCENT
      invariant from <= pi <= |p| && forall i :: from <= i < pi ==> p[i] == PERCENT
    {
      pi := pi + 1;
    }
    all := pi == |p|;
  }

  /** One turn of both walks: the branch taken, given how many pattern characters the sign at `pi` takes. */
  method Turn(ghost q: Asked, p: seq<CodePoint>, vi: nat, pi: nat, star: int, mark: nat, step: nat)
    returns (vi': nat, pi': nat, star': int, mark': nat, failed: bool)
    requires p == q.p && vi < |q.v| && step == Step(q, vi, pi) && Walk(q, vi, pi, star, mark)
    ensures failed ==> !Matches(q, 0, 0)
    ensures !failed ==> Walk(q, vi', pi', star', mark')
    ensures !failed ==> star' > star || (star' == star && (mark' > mark || (mark' == mark && vi' > vi)))
  {
    vi', pi', star', mark', failed := vi, pi, star, mark, false;
    if pi < |p| && p[pi] == PERCENT {
      WalkStar(q, vi, pi, star, mark);
      star', pi', mark' := pi, pi + 1, vi;
    } else if step > 0 {
      WalkSign(q, vi, pi, star, mark);
      pi', vi' := pi + step, vi + 1;
    } else if star != -1 {
      DeadEnd(q, vi, pi);
      WalkBack(q, vi, pi, star, mark);
      pi', mark', vi' := star + 1, mark + 1, mark + 1;
    } else {
      DeadEnd(q, vi, pi);
      failed := true;
    }
  }

  predicate IsAscii(s: seq<CodePoint>) { forall i :: 0 <= i < |s| ==> s[i] < 0x80 }

  /** The two tests of `like_ascii` on the sign at `pi`. */
  method ByteStep(ascii: AsciiTable, v: seq<CodePoint>, vi: nat, p: seq<CodePoint>, pi: nat) returns (n: nat)
    requires ascii.Valid() && IsAscii(v) && IsAscii(p) && vi < |v|
    ensures n == Step(Question(ascii.t, Bytes, v, p), vi, pi)
  {
    var escaped := Escaped(p, pi);
    if escaped {
      SameByteIs(ascii, p[pi + 1], v[vi]);
    } else if pi < |p| {
      SameByteIs(ascii, p[pi], v[vi]);
    }
    if pi < |p| && p[pi] == PERCENT {
      n := 0;
    } else if escaped && SameByte(ascii, p[pi + 1], v[vi]) {
      n := 2;
    } else if !escaped && pi < |p| && (p[pi] == UNDERSCORE || SameByte(ascii, p[pi], v[vi])) {
      n := 1;
    } else {
      n := 0;
    }
  }

  /** `like_ascii`: the walk over bytes. */
  method LikeAscii(ascii: AsciiTable, v: seq<CodePoint>, p: seq<CodePoint>) returns (r: bool)
    requires ascii.Valid() && IsAscii(v) && IsAscii(p)
    ensures r == Matches(Question(ascii.t, Bytes, v, p), 0, 0)
  {
    var vi: nat, pi: nat, star, mark: nat, failed := 0, 0, -1, 0, false;
    ghost var q: Asked := Question(ascii.t, Bytes, v, p);
    while vi < |v|
      invariant Walk(q, vi, pi, star, mark)
      decreases |p| - star, |v| - mark, |v| - vi
    {
      var step := ByteStep(ascii, v, vi, p, pi);
      vi, pi, star, mark, failed := Turn(q, p, vi, pi, star, mark, step);
      if failed {
        return false;
      }
    }
    WalkEnd(q, pi, star, mark);
    OnlyStarsLeft(q, pi);
    r := SkipStars(p, pi);
  }

  /** The test of `like_ascii` on two bytes: the same byte, or the same entry in the ASCII table. */
  predicate SameByte(ascii: AsciiTable, a: CodePoint, b: CodePoint)
    requires ascii.Valid() && a < 0x80 && b < 0x80
  {
    var x: Byte, y: Byte := a, b;
    a == b || (ascii.n[x] == ascii.n[y] && (ascii.n[x] == 0 || ascii.w[x] == ascii.w[y]))
  }

  lemma SameByteIs(ascii: AsciiTable, a: CodePoint, b: CodePoint)
    requires ascii.Valid() && a < 0x80 && b < 0x80
    ensures SameByte(ascii, a, b) == SameChar(ascii.t, Bytes, a, b)
  {
    hide AsciiWeights;
    var x: Byte, y: Byte := a, b;
    var u, v := AsciiWeights(ascii.t, x), AsciiWeights(ascii.t, y);
    assert ascii.n[x] == |u| && ascii.n[y] == |v| && |u| <= 1 && |v| <= 1;
    assert |u| == |v| == 1 && u[0] == v[0] ==> u == v;
  }

  /** `same_weights` */
  method SameWeights(t: Table, a: CodePoint, b: CodePoint) returns (r: bool)
    requires Sound(t)
    ensures r == SameChar(t, CodePoints, a, b)
  {
    if a == b {
      return true;
    }
    var wa, wb := new Weight[ROOM], new Weight[ROOM];
    var na := FillWeights(t, a, wa);
    var nb := FillWeights(t, b, wb);
    r := na == nb && wa[..na] == wb[..nb];
  }

  /** The two tests of `like` on the sign at `pi`. */
  method CodePointStep(t: Table, v: seq<CodePoint>, vi: nat, p: seq<CodePoint>, pi: nat) returns (n: nat)
    requires Sound(t) && vi < |v|
    ensures n == Step(Question(t, CodePoints, v, p), vi, pi)
  {
    if pi >= |p| || p[pi] == PERCENT {
      return 0;
    }
    var escaped := Escaped(p, pi);
    var same := SameWeights(t, if escaped then p[pi + 1] else p[pi], v[vi]);
    n := if escaped then if same then 2 else 0 else if p[pi] == UNDERSCORE || same then 1 else 0;
  }

  /** The walk of `like` over code points. */
  method LikeCodePoints(t: Table, v: seq<CodePoint>, p: seq<CodePoint>) returns (r: bool)
    requires Sound(t)
    ensures r == Matches(Question(t, CodePoints, v, p), 0, 0)
  {
    var vi: nat, pi: nat, star, mark: nat, failed := 0, 0, -1, 0, false;
    ghost var q: Asked := Question(t, CodePoints, v, p);
    while vi < |v|
      invariant Walk(q, vi, pi, star, mark)
      decreases |p| - star, |v| - mark, |v| - vi
    {
      var step := CodePointStep(t, v, vi, p, pi);
      vi, pi, star, mark, failed := Turn(q, p, vi, pi, star, mark, step);
      if failed {
        return false;
      }
    }
    WalkEnd(q, pi, star, mark);
    OnlyStarsLeft(q, pi);
    r := SkipStars(p, pi);
  }

  /** What `like` answers: nothing is LIKE for NULL; two ASCII texts are compared byte by byte, others code point by code point. */
  ghost predicate IsLike(t: Table, value: seq<Byte>, pattern: seq<Byte>)
    requires Sound(t)
  {
    && !IsNull(value)
    && if IsAscii(value) && IsAscii(pattern) then Matches(Question(t, Bytes, value, pattern), 0, 0)
       else Matches(Question(t, CodePoints, CodePointsFrom(value, 0), CodePointsFrom(pattern, 0)), 0, 0)
  }

  /** `like` */
  method LikeText(ascii: AsciiTable, value: seq<Byte>, pattern: seq<Byte>) returns (r: bool)
    requires ascii.Valid()
    ensures r == IsLike(ascii.t, value, pattern)
  {
    if IsNull(value) {
      return false;
    }
    if IsAscii(value) && IsAscii(pattern) {
      r := LikeAscii(ascii, value, pattern);
      return;
    }
    var v := Utf8.CodePoints(value);
    var p := Utf8.CodePoints(pattern);
    r := LikeCodePoints(ascii.t, v, p);
  }
}
