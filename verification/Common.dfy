/** What the other modules share: bytes, optional values and a few facts about sequences. */
module Common {
  type Byte = b: int | 0 <= b < 256

  datatype Option<+T> = None | Some(value: T) {
    function GetOr(default: T): T { if Some? then value else default }
  }

  /** The unsigned lexicographic order of two sequences of numbers, as -1, 0 or 1: the order of `memcmp` on bytes. */
  function Lex(a: seq<int>, b: seq<int>): int
  {
    if a == [] || b == [] then
      if a == b then 0 else if a == [] then -1 else 1
    else if a[0] != b[0] then
      if a[0] < b[0] then -1 else 1
    else
      Lex(a[1..], b[1..])
  }

  lemma Regroup<T>(a: seq<T>, b: seq<T>, c: seq<T>)
    ensures (a + b) + c == a + (b + c)
  {
  }

  /** No `x` among the elements from `i` to `k`. */
  predicate Free<T(==)>(s: seq<T>, x: T, i: nat, k: nat)
    requires i <= k <= |s|
  {
    x !in s[i..k]
  }

  lemma FreeFront<T>(s: seq<T>, x: T, k: nat)
    requires s != [] && s[0] != x && k < |s| && Free(s[1..], x, 0, k)
    ensures Free(s, x, 0, k + 1)
  {
    assert s[0..k + 1] == [s[0]] + s[1..][0..k];
  }

  /** The elements of all parts, in order. */
  function Concat<T>(parts: seq<seq<T>>): seq<T>
  {
    if parts == [] then [] else parts[0] + Concat(parts[1..])
  }

  lemma {:induction false} LexReflects(a: seq<int>, b: seq<int>)
    ensures Lex(a, b) == 0 <==> a == b
    ensures Lex(a, b) == -Lex(b, a)
  {
    if a != [] && b != [] && a[0] == b[0] {
      LexReflects(a[1..], b[1..]);
      assert a == [a[0]] + a[1..] && b == [b[0]] + b[1..];
    }
  }

  lemma {:induction false} LexTransitive(a: seq<int>, b: seq<int>, c: seq<int>)
    requires Lex(a, b) <= 0 && Lex(b, c) <= 0
    ensures Lex(a, c) <= 0
  {
    if a != [] && b != [] && c != [] && a[0] == b[0] == c[0] {
      LexTransitive(a[1..], b[1..], c[1..]);
    }
  }

  function Digit(d: nat): char
    requires d < 10
  {
    "0123456789"[d]
  }

  /** `std::to_string` of a number that is not negative. */
  function Decimal(n: nat): (s: string)
    ensures s != "" && forall i :: 0 <= i < |s| ==> '0' <= s[i] <= '9'
  {
    if n < 10 then [Digit(n)] else Decimal(n / 10) + [Digit(n % 10)]
  }
}
