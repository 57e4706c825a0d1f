/** The UTF-8 decoder of the collation, held against the encoding of section 3 of RFC 3629 (surrogates included, as the code lets them through). */
module Utf8 {
  import opened Common

  type CodePoint = c: int | 0 <= c <= 0x10FFFF

  const REPLACEMENT: CodePoint := 0xFFFD

  /** The bytes of one code point. */
  function Encode(c: CodePoint): (b: seq<Byte>)
    ensures 1 <= |b| <= 4
  {
    if c < 0x80 then [c]
    else if c < 0x800 then [0xC0 + c / 64, 0x80 + c % 64]
    else if c < 0x10000 then [0xE0 + c / 4096, 0x80 + c / 64 % 64, 0x80 + c % 64]
    else [0xF0 + c / 262144, 0x80 + c / 4096 % 64, 0x80 + c / 64 % 64, 0x80 + c % 64]
  }

  function EncodeAll(cs: seq<CodePoint>): seq<Byte>
  {
    if cs == [] then [] else Encode(cs[0]) + EncodeAll(cs[1..])
  }

  /** `(d & 0xC0) == 0x80` */
  predicate IsTail(d: Byte) { 0x80 <= d <= 0xBF }

  /** How long a sequence its first byte announces; 0 when no sequence starts so. */
  function SequenceLength(c: Byte): nat
  {
    if c < 0x80 then 1 else if 0xC2 <= c <= 0xDF then 2 else if 0xE0 <= c <= 0xEF then 3 else if 0xF0 <= c <= 0xF4 then 4 else 0
  }

  /** The payload bits of the first byte. */
  function LeadBits(c: Byte): int
  {
    if c < 0x80 then c else if c < 0xE0 then c % 32 else if c < 0xF0 then c % 16 else c % 8
  }

  /** The bits collected from the `k` bytes at `pos`. */
  function Bits(s: seq<Byte>, pos: nat, k: nat): int
    requires 1 <= k && pos + k <= |s|
  {
    if k == 1 then LeadBits(s[pos]) else Bits(s, pos, k - 1) * 64 + s[pos + k - 1] % 64
  }

  ghost predicate TailsFollow(s: seq<Byte>, pos: nat, k: nat)
    requires pos + k <= |s|
  {
    forall j :: pos < j < pos + k ==> IsTail(s[j])
  }

  /** A code point stands at `pos` in its shortest form. */
  ghost predicate WellFormedAt(s: seq<Byte>, pos: nat)
    requires pos < |s|
  {
    var n := SequenceLength(s[pos]);
    && n > 0 && pos + n <= |s| && TailsFollow(s, pos, n)
    && (n == 3 ==> Bits(s, pos, n) >= 0x800)
    && (n == 4 ==> 0x10000 <= Bits(s, pos, n) <= 0x10FFFF)
  }

  /** The code point at `pos` and the position after it; a byte that starts no well-formed sequence counts as U+FFFD. */
  ghost function DecodeAt(s: seq<Byte>, pos: nat): (r: (CodePoint, nat))
    requires pos < |s|
    ensures pos < r.1 <= |s|
    ensures s[pos] < 0x80 ==> r == (s[pos], pos + 1)
  {
    if WellFormedAt(s, pos) then
      BitsInRange(s, pos);
      (Bits(s, pos, SequenceLength(s[pos])), pos + SequenceLength(s[pos]))
    else
      (REPLACEMENT, pos + 1)
  }

  lemma BitsInRange(s: seq<Byte>, pos: nat)
    requires pos < |s| && WellFormedAt(s, pos)
    ensures 0 <= Bits(s, pos, SequenceLength(s[pos])) <= 0x10FFFF
  {
    var n := SequenceLength(s[pos]);
    assert n > 1 ==> Bits(s, pos, 2) == LeadBits(s[pos]) * 64 + s[pos + 1] % 64;
    assert n > 2 ==> Bits(s, pos, 3) == Bits(s, pos, 2) * 64 + s[pos + 2] % 64;
  }

  /** `decode`: moves on to `next` and returns the code point. */
  method Decode(s: seq<Byte>, pos: nat) returns (cp: CodePoint, next: nat)
    requires pos < |s|
    ensures (cp, next) == DecodeAt(s, pos)
  {
    var c := s[pos];
    if c < 0x80 {
      return c, pos + 1;
    }
    var len: nat, bits: int;
    if 0xC2 <= c <= 0xDF {
      len, bits := 2, c % 32;
    } else if 0xE0 <= c <= 0xEF {
      len, bits := 3, c % 16;
    } else if 0xF0 <= c <= 0xF4 {
      len, bits := 4, c % 8;
    } else {
      return REPLACEMENT, pos + 1;
    }
    if pos + len > |s| {
      return REPLACEMENT, pos + 1;
    }
    for k := 1 to len
      invariant TailsFollow(s, pos, k)
      invariant bits == Bits(s, pos, k)
    {
      var d := s[pos + k];
      if !IsTail(d) {
        return REPLACEMENT, pos + 1;
      }
      bits := bits * 64 + d % 64;
    }
    if (len == 3 && bits < 0x800) || (len == 4 && (bits < 0x10000 || bits > 0x10FFFF)) {
      return REPLACEMENT, pos + 1;
    }
    assert WellFormedAt(s, pos);
    BitsInRange(s, pos);
    return bits, pos + len;
  }

  /** The code points of `s` from `pos` on. */
  ghost function CodePointsFrom(s: seq<Byte>, pos: nat): seq<CodePoint>
    requires pos <= |s|
    decreases |s| - pos
  {
    if pos == |s| then [] else [DecodeAt(s, pos).0] + CodePointsFrom(s, DecodeAt(s, pos).1)
  }

  /** `code_points` */
  method CodePoints(s: seq<Byte>) returns (out: seq<CodePoint>)
    ensures out == CodePointsFrom(s, 0)
  {
    out := [];
    var pos := 0;
    while pos < |s|
      invariant pos <= |s|
      invariant out + CodePointsFrom(s, pos) == CodePointsFrom(s, 0)
    {
      var cp, next := Decode(s, pos);
      out := out + [cp];
      pos := next;
    }
  }

  // ---- the decoder is exact ----

  /** Digits in base 64, taken apart and put together. */
  lemma Digits(x: int, a: nat, b: nat, c: nat, d: nat)
    requires b < 64 && c < 64 && d < 64
    ensures x == ((a * 64 + b) * 64 + c) * 64 + d <==> a == x / 262144 && b == x / 4096 % 64 && c == x / 64 % 64 && d == x % 64
  {
    assert x / 4096 == x / 64 / 64;
    assert x / 262144 == x / 4096 / 64;
  }

  lemma UnfoldBits(s: seq<Byte>, pos: nat, n: nat)
    requires 1 <= n <= 4 && pos + n <= |s|
    ensures n >= 2 ==> Bits(s, pos, 2) == LeadBits(s[pos]) * 64 + s[pos + 1] % 64
    ensures n >= 3 ==> Bits(s, pos, 3) == (LeadBits(s[pos]) * 64 + s[pos + 1] % 64) * 64 + s[pos + 2] % 64
    ensures n >= 4 ==> Bits(s, pos, 4) == ((LeadBits(s[pos]) * 64 + s[pos + 1] % 64) * 64 + s[pos + 2] % 64) * 64 + s[pos + 3] % 64
  {
    assert n >= 2 ==> Bits(s, pos, 2) == Bits(s, pos, 1) * 64 + s[pos + 1] % 64;
    assert n >= 3 ==> Bits(s, pos, 3) == Bits(s, pos, 2) * 64 + s[pos + 2] % 64;
    assert n >= 4 ==> Bits(s, pos, 4) == Bits(s, pos, 3) * 64 + s[pos + 3] % 64;
  }

  lemma EncodeTwo(l: Byte, t: Byte)
    requires 0xC2 <= l <= 0xDF && IsTail(t)
    ensures Encode(l % 32 * 64 + t % 64) == [l, t]
  {
    Digits(l % 32 * 64 + t % 64, 0, 0, l % 32, t % 64);
  }

  lemma EncodeThree(l: Byte, t: Byte, u: Byte)
    requires 0xE0 <= l <= 0xEF && IsTail(t) && IsTail(u)
    requires (l % 16 * 64 + t % 64) * 64 + u % 64 >= 0x800
    ensures Encode((l % 16 * 64 + t % 64) * 64 + u % 64) == [l, t, u]
  {
    var c: CodePoint := (l % 16 * 64 + t % 64) * 64 + u % 64;
    Digits(c, 0, l % 16, t % 64, u % 64);
    assert c / 4096 == l % 16;
  }

  lemma EncodeFour(l: Byte, t: Byte, u: Byte, v: Byte)
    requires 0xF0 <= l <= 0xF4 && IsTail(t) && IsTail(u) && IsTail(v)
    requires 0x10000 <= ((l % 8 * 64 + t % 64) * 64 + u % 64) * 64 + v % 64 <= 0x10FFFF
    ensures Encode(((l % 8 * 64 + t % 64) * 64 + u % 64) * 64 + v % 64) == [l, t, u, v]
  {
    var c: CodePoint := ((l % 8 * 64 + t % 64) * 64 + u % 64) * 64 + v % 64;
    Digits(c, l % 8, t % 64, u % 64, v % 64);
    assert c / 262144 == l % 8;
  }

  /** The bytes the decoder consumed are the encoding of what it read. */
  lemma WellFormedIsEncoded(s: seq<Byte>, pos: nat)
    requires pos < |s| && WellFormedAt(s, pos)
    ensures s[pos..DecodeAt(s, pos).1] == Encode(DecodeAt(s, pos).0)
  {
    var n := SequenceLength(s[pos]);
    UnfoldBits(s, pos, n);
    if n == 2 {
      EncodeTwo(s[pos], s[pos + 1]);
    } else if n == 3 {
      EncodeThree(s[pos], s[pos + 1], s[pos + 2]);
    } else if n == 4 {
      EncodeFour(s[pos], s[pos + 1], s[pos + 2], s[pos + 3]);
    }
  }

  lemma TailDigit(x: nat)
    requires x < 64
    ensures IsTail(0x80 + x) && (0x80 + x) % 64 == x
  {
  }

  /** What the bytes `e` announce and hold. */
  ghost predicate Holds(e: seq<Byte>, c: int)
    requires e != []
  {
    SequenceLength(e[0]) == |e| && Bits(e, 0, |e|) == c && TailsFollow(e, 0, |e|)
  }

  lemma TwoHold(a: nat, x: nat)
    requires 2 <= a < 32 && x < 64
    ensures Holds([0xC0 + a, 0x80 + x], a * 64 + x)
  {
    TailDigit(x);
    UnfoldBits([0xC0 + a, 0x80 + x], 0, 2);
  }

  lemma ThreeHold(a: nat, x: nat, y: nat)
    requires a < 16 && x < 64 && y < 64
    ensures Holds([0xE0 + a, 0x80 + x, 0x80 + y], (a * 64 + x) * 64 + y)
  {
    TailDigit(x);
    TailDigit(y);
    UnfoldBits([0xE0 + a, 0x80 + x, 0x80 + y], 0, 3);
    hide Bits;
  }

  lemma FourHold(a: nat, x: nat, y: nat, z: nat)
    requires a < 5 && x < 64 && y < 64 && z < 64
    ensures Holds([0xF0 + a, 0x80 + x, 0x80 + y, 0x80 + z], ((a * 64 + x) * 64 + y) * 64 + z)
  {
    TailDigit(x);
    TailDigit(y);
    TailDigit(z);
    UnfoldBits([0xF0 + a, 0x80 + x, 0x80 + y, 0x80 + z], 0, 4);
    hide Bits;
  }

  /** The first byte announces the length and the bits add up. */
  lemma EncodedBits(c: CodePoint)
    ensures Holds(Encode(c), c)
  {
    if c < 0x80 {
      assert Bits([c], 0, 1) == c;
    } else {
      hide Holds;
      if c < 0x800 {
        TwoHold(c / 64, c % 64);
      } else if c < 0x10000 {
        Digits(c, 0, c / 4096, c / 64 % 64, c % 64);
        assert c / 262144 == 0 && c / 4096 % 64 == c / 4096;
        ThreeHold(c / 4096, c / 64 % 64, c % 64);
      } else {
        Digits(c, c / 262144, c / 4096 % 64, c / 64 % 64, c % 64);
        FourHold(c / 262144, c / 4096 % 64, c / 64 % 64, c % 64);
      }
    }
  }

  lemma {:induction false} BitsOfSlice(s: seq<Byte>, pos: nat, e: seq<Byte>, k: nat)
    requires pos <= |s| && 1 <= k <= |e| && e <= s[pos..]
    ensures Bits(s, pos, k) == Bits(e, 0, k)
  {
    assert e[k - 1] == s[pos..][k - 1] == s[pos + k - 1];
    if k > 1 {
      BitsOfSlice(s, pos, e, k - 1);
    }
  }

  /** Where the encoding of `c` stands, the decoder reads `c` and stops right after it. */
  lemma EncodedIsWellFormed(s: seq<Byte>, pos: nat, c: CodePoint)
    requires pos < |s| && Encode(c) <= s[pos..]
    ensures WellFormedAt(s, pos)
    ensures DecodeAt(s, pos) == (c, pos + |Encode(c)|)
  {
    var e := Encode(c);
    EncodedBits(c);
    BitsOfSlice(s, pos, e, |e|);
    assert forall k :: 0 <= k < |e| ==> s[pos + k] == e[k];
    forall j | pos < j < pos + |e| ensures IsTail(s[j]) {
      assert s[j] == e[j - pos];
    }
    assert WellFormedAt(s, pos);
  }

  /** The decoder reads `c` exactly where the encoding of `c` stands; it answers U+FFFD for one byte exactly where no encoding stands. */
  lemma DecodeIsExact(s: seq<Byte>, pos: nat)
    requires pos < |s|
    ensures WellFormedAt(s, pos) ==> s[pos..DecodeAt(s, pos).1] == Encode(DecodeAt(s, pos).0)
    ensures WellFormedAt(s, pos) <==> exists c: CodePoint :: Encode(c) <= s[pos..]
  {
    if WellFormedAt(s, pos) {
      WellFormedIsEncoded(s, pos);
      assert Encode(DecodeAt(s, pos).0) <= s[pos..];
    } else {
      forall c: CodePoint ensures !(Encode(c) <= s[pos..]) {
        if Encode(c) <= s[pos..] {
          EncodedIsWellFormed(s, pos, c);
          assert false;
        }
      }
    }
  }

  /** Decoding the UTF-8 text of any code points gives those code points. */
  lemma {:induction false} CodePointsOfEncoded(before: seq<Byte>, cs: seq<CodePoint>)
    ensures CodePointsFrom(before + EncodeAll(cs), |before|) == cs
    decreases |cs|
  {
    hide WellFormedAt, Encode;
    var s := before + EncodeAll(cs);
    if cs != [] {
      var e := Encode(cs[0]);
      assert s[|before|..] == e + EncodeAll(cs[1..]);
      EncodedIsWellFormed(s, |before|, cs[0]);
      CodePointsOfEncoded(before + e, cs[1..]);
      assert (before + e) + EncodeAll(cs[1..]) == s;
      assert [cs[0]] + cs[1..] == cs;
    }
  }

  /** A text is its code points encoded exactly when the decoder meets no malformed byte. */
  ghost predicate WellFormedFrom(s: seq<Byte>, pos: nat)
    requires pos <= |s|
    decreases |s| - pos
  {
    pos == |s| || (WellFormedAt(s, pos) && WellFormedFrom(s, DecodeAt(s, pos).1))
  }

  lemma {:induction false} EncodedCodePoints(s: seq<Byte>, pos: nat)
    requires pos <= |s|
    ensures WellFormedFrom(s, pos) <==> EncodeAll(CodePointsFrom(s, pos)) == s[pos..]
    decreases |s| - pos
  {
    hide DecodeAt, WellFormedAt, Encode;
    if pos < |s| {
      var (cp, next) := DecodeAt(s, pos);
      DecodeIsExact(s, pos);
      EncodedCodePoints(s, next);
      var all := EncodeAll(CodePointsFrom(s, pos));
      assert all == Encode(cp) + EncodeAll(CodePointsFrom(s, next)) by {
        assert CodePointsFrom(s, pos)[1..] == CodePointsFrom(s, next);
      }
      if WellFormedAt(s, pos) {
        assert s[pos..] == s[pos..next] + s[next..];
        assert all[|Encode(cp)|..] == EncodeAll(CodePointsFrom(s, next));
        assert s[pos..][|Encode(cp)|..] == s[next..];
      } else {
        assert Encode(cp) <= all;
      }
    }
  }

  lemma {:induction false} AsciiCodePoints(s: seq<Byte>, pos: nat)
    requires pos <= |s|
    requires forall k :: pos <= k < |s| ==> s[k] < 0x80
    ensures CodePointsFrom(s, pos) == s[pos..]
    decreases |s| - pos
  {
    if pos < |s| {
      AsciiCodePoints(s, pos + 1);
      assert s[pos..] == [s[pos]] + s[pos + 1..];
    }
  }
}
