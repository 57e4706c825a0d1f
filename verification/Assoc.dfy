/** Sorted lists of keys with values: what an index is, whatever tree holds it. Keys that compare as equal are one key. */
module Assoc {
  import opened Common

  type Cmp<!K> = (K, K) -> int

  predicate Lt<K>(c: Cmp<K>, a: K, b: K) { c(a, b) < 0 }

  /** A total preorder, as a comparison that answers with a sign. */
  ghost predicate Total<K(!new)>(c: Cmp<K>)
  {
    && (forall a, b :: c(a, b) > 0 <==> Lt(c, b, a))
    && (forall a, b :: Lt(c, a, b) ==> !Lt(c, b, a))
    && (forall a, b, d :: !Lt(c, a, b) && !Lt(c, b, d) ==> !Lt(c, a, d))
  }

  lemma LtThrough<K(!new)>(c: Cmp<K>, a: K, b: K, d: K)
    requires Total(c)
    ensures Lt(c, a, b) && !Lt(c, d, b) ==> Lt(c, a, d)
    ensures !Lt(c, b, a) && Lt(c, b, d) ==> Lt(c, a, d)
    ensures Lt(c, a, b) && Lt(c, b, d) ==> Lt(c, a, d)
  {
  }

  type Entries<K, V> = seq<(K, V)>

  ghost predicate AllLt<K, V>(c: Cmp<K>, s: Entries<K, V>, k: K) { forall i :: 0 <= i < |s| ==> Lt(c, s[i].0, k) }
  ghost predicate AllGe<K, V>(c: Cmp<K>, s: Entries<K, V>, k: K) { forall i :: 0 <= i < |s| ==> !Lt(c, s[i].0, k) }
  ghost predicate AllGt<K, V>(c: Cmp<K>, s: Entries<K, V>, k: K) { forall i :: 0 <= i < |s| ==> Lt(c, k, s[i].0) }

  ghost predicate Sorted<K, V>(c: Cmp<K>, s: Entries<K, V>) { forall i, j :: 0 <= i < j < |s| ==> Lt(c, s[i].0, s[j].0) }

  /** The value of a key. */
  ghost function Lookup<K, V>(c: Cmp<K>, s: Entries<K, V>, k: K): Option<V>
  {
    if s == [] then None else if c(s[0].0, k) == 0 then Some(s[0].1) else Lookup(c, s[1..], k)
  }

  /** A key that is there already keeps its spelling and gets the new value. */
  ghost function Put<K, V>(c: Cmp<K>, s: Entries<K, V>, k: K, v: V): Entries<K, V>
  {
    if s == [] || Lt(c, k, s[0].0) then [(k, v)] + s
    else if Lt(c, s[0].0, k) then [s[0]] + Put(c, s[1..], k, v)
    else [(s[0].0, v)] + s[1..]
  }

  ghost function Drop<K, V>(c: Cmp<K>, s: Entries<K, V>, k: K): Entries<K, V>
  {
    if s == [] then [] else if c(s[0].0, k) == 0 then s[1..] else [s[0]] + Drop(c, s[1..], k)
  }

  ghost predicate InRange<K>(c: Cmp<K>, k: K, lo: K, hi: K) { !Lt(c, k, lo) && !Lt(c, hi, k) }

  /** What of an entry goes into an answer. */
  type Keep<!K, !V, +T> = (K, V) -> T

  function KeyOf<K, V>(k: K, v: V): K { k }
  function ValueOf<K, V>(k: K, v: V): V { v }

  /** What is kept of the entries from `lo` to `hi`, both included. */
  ghost function Between<K, V, T>(keep: Keep<K, V, T>, c: Cmp<K>, s: Entries<K, V>, lo: K, hi: K): seq<T>
  {
    if s == [] then [] else (if InRange(c, s[0].0, lo, hi) then [keep(s[0].0, s[0].1)] else []) + Between(keep, c, s[1..], lo, hi)
  }

  // ---- what is left and right of the place of a key does not matter ----

  lemma {:induction false} PutMiddle<K(!new), V>(c: Cmp<K>, a: Entries<K, V>, x: Entries<K, V>, b: Entries<K, V>, k: K, v: V)
    requires Total(c) && AllLt(c, a, k) && AllGt(c, b, k)
    ensures Put(c, a + (x + b), k, v) == a + (Put(c, x, k, v) + b)
    decreases |a|, |x|
  {
    if a != [] {
      assert (a + (x + b))[1..] == a[1..] + (x + b) && (a + (x + b))[0] == a[0];
      PutMiddle(c, a[1..], x, b, k, v);
      Regroup([a[0]], a[1..], Put(c, x, k, v) + b);
      assert [a[0]] + a[1..] == a;
    } else {
      PutFront(c, x, b, k, v);
      assert a + (x + b) == x + b && a + (Put(c, x, k, v) + b) == Put(c, x, k, v) + b;
    }
  }

  lemma {:induction false} PutFront<K(!new), V>(c: Cmp<K>, x: Entries<K, V>, b: Entries<K, V>, k: K, v: V)
    requires Total(c) && AllGt(c, b, k)
    ensures Put(c, x + b, k, v) == Put(c, x, k, v) + b
  {
    if x == [] {
      assert x + b == b;
      assert b != [] ==> Lt(c, k, b[0].0);
    } else {
      assert (x + b)[0] == x[0] && (x + b)[1..] == x[1..] + b;
      if Lt(c, k, x[0].0) {
        Regroup([(k, v)], x, b);
      } else if Lt(c, x[0].0, k) {
        PutFront(c, x[1..], b, k, v);
        Regroup([x[0]], Put(c, x[1..], k, v), b);
      } else {
        Regroup([(x[0].0, v)], x[1..], b);
      }
    }
  }

  lemma {:induction false} DropMiddle<K(!new), V>(c: Cmp<K>, a: Entries<K, V>, x: Entries<K, V>, b: Entries<K, V>, k: K)
    requires Total(c) && AllLt(c, a, k) && AllGt(c, b, k)
    ensures Drop(c, a + (x + b), k) == a + (Drop(c, x, k) + b)
  {
    if a != [] {
      assert (a + (x + b))[1..] == a[1..] + (x + b) && (a + (x + b))[0] == a[0];
      DropMiddle(c, a[1..], x, b, k);
      Regroup([a[0]], a[1..], Drop(c, x, k) + b);
      assert [a[0]] + a[1..] == a;
    } else {
      DropFront(c, x, b, k);
      assert a + (x + b) == x + b && a + (Drop(c, x, k) + b) == Drop(c, x, k) + b;
    }
  }

  lemma {:induction false} DropFront<K(!new), V>(c: Cmp<K>, x: Entries<K, V>, b: Entries<K, V>, k: K)
    requires Total(c) && AllGt(c, b, k)
    ensures Drop(c, x + b, k) == Drop(c, x, k) + b
  {
    if x == [] {
      assert x + b == b;
      DropNothing(c, b, k);
    } else {
      assert (x + b)[0] == x[0] && (x + b)[1..] == x[1..] + b;
      if c(x[0].0, k) != 0 {
        DropFront(c, x[1..], b, k);
        Regroup([x[0]], Drop(c, x[1..], k), b);
      }
    }
  }

  lemma {:induction false} DropNothing<K(!new), V>(c: Cmp<K>, b: Entries<K, V>, k: K)
    requires Total(c) && AllGt(c, b, k)
    ensures Drop(c, b, k) == b
  {
    if b != [] {
      assert Lt(c, k, b[0].0);
      DropNothing(c, b[1..], k);
      assert b == [b[0]] + b[1..];
    }
  }

  lemma {:induction false} LookupMiddle<K(!new), V>(c: Cmp<K>, a: Entries<K, V>, x: Entries<K, V>, b: Entries<K, V>, k: K)
    requires Total(c) && AllLt(c, a, k) && AllGt(c, b, k)
    ensures Lookup(c, a + (x + b), k) == Lookup(c, x, k)
  {
    if a != [] {
      assert (a + (x + b))[1..] == a[1..] + (x + b) && (a + (x + b))[0] == a[0];
      assert Lt(c, a[0].0, k);
      LookupMiddle(c, a[1..], x, b, k);
    } else {
      LookupFront(c, x, b, k);
      assert a + (x + b) == x + b;
    }
  }

  lemma {:induction false} LookupFront<K(!new), V>(c: Cmp<K>, x: Entries<K, V>, b: Entries<K, V>, k: K)
    requires Total(c) && AllGt(c, b, k)
    ensures Lookup(c, x + b, k) == Lookup(c, x, k)
  {
    if x == [] {
      assert x + b == b;
      if b != [] {
        assert Lt(c, k, b[0].0);
        LookupFront(c, x, b[1..], k);
        assert [] + b[1..] == b[1..];
      }
    } else {
      assert (x + b)[0] == x[0] && (x + b)[1..] == x[1..] + b;
      if c(x[0].0, k) != 0 {
        LookupFront(c, x[1..], b, k);
      }
    }
  }

  lemma {:induction false} BetweenAppend<K, V, T>(keep: Keep<K, V, T>, c: Cmp<K>, a: Entries<K, V>, b: Entries<K, V>, lo: K, hi: K)
    ensures Between(keep, c, a + b, lo, hi) == Between(keep, c, a, lo, hi) + Between(keep, c, b, lo, hi)
  {
    if a == [] {
      assert a + b == b;
    } else {
      assert (a + b)[0] == a[0] && (a + b)[1..] == a[1..] + b;
      BetweenAppend(keep, c, a[1..], b, lo, hi);
      Regroup(if InRange(c, a[0].0, lo, hi) then [keep(a[0].0, a[0].1)] else [], Between(keep, c, a[1..], lo, hi), Between(keep, c, b, lo, hi));
    }
  }

  lemma {:induction false} BetweenNothing<K, V, T>(keep: Keep<K, V, T>, c: Cmp<K>, a: Entries<K, V>, lo: K, hi: K)
    requires AllLt(c, a, lo) || AllGt(c, a, hi)
    ensures Between(keep, c, a, lo, hi) == []
  {
    if a != [] {
      BetweenNothing(keep, c, a[1..], lo, hi);
    }
  }

  // ---- a sorted list is a map ----

  /** Putting keeps the list sorted and changes what is found at the keys equal to the one put, and nowhere else. */
  lemma {:induction false} PutIsMap<K(!new), V>(c: Cmp<K>, s: Entries<K, V>, k: K, v: V, q: K)
    requires Total(c) && Sorted(c, s)
    ensures Lookup(c, Put(c, s, k, v), q) == if c(k, q) == 0 then Some(v) else Lookup(c, s, q)
  {
    if s != [] {
      assert Sorted(c, s[1..]) by {
        assert forall i :: 0 <= i < |s| - 1 ==> s[1..][i] == s[i + 1];
      }
      PutIsMap(c, s[1..], k, v, q);
      LtThrough(c, k, s[0].0, q);
      LtThrough(c, s[0].0, k, q);
      if !Lt(c, k, s[0].0) && !Lt(c, s[0].0, k) && c(s[0].0, q) != 0 {
        assert c(k, q) != 0;
      }
      if Lt(c, k, s[0].0) {
        assert ([(k, v)] + s)[1..] == s;
      }
    }
  }

  lemma {:induction false} PutSorted<K(!new), V>(c: Cmp<K>, s: Entries<K, V>, k: K, v: V)
    requires Total(c) && Sorted(c, s)
    ensures Sorted(c, Put(c, s, k, v))
    ensures forall m :: AllGt(c, s, m) && Lt(c, m, k) ==> AllGt(c, Put(c, s, k, v), m)
  {
    if s != [] {
      var t := s[1..];
      assert Sorted(c, t) by {
        assert forall i :: 0 <= i < |t| ==> t[i] == s[i + 1];
      }
      PutSorted(c, t, k, v);
      if Lt(c, k, s[0].0) {
        SortedFront(c, (k, v), s);
      } else if Lt(c, s[0].0, k) {
        assert AllGt(c, t, s[0].0) by {
          assert forall i :: 0 <= i < |t| ==> t[i] == s[i + 1];
        }
        SortedCons(c, s[0], Put(c, t, k, v));
      } else {
        forall i | 0 <= i < |t| ensures Lt(c, s[0].0, t[i].0) {
          assert t[i] == s[i + 1];
        }
        SortedCons(c, (s[0].0, v), t);
      }
    }
  }

  lemma SortedCons<K(!new), V>(c: Cmp<K>, e: (K, V), s: Entries<K, V>)
    requires Sorted(c, s) && AllGt(c, s, e.0)
    ensures Sorted(c, [e] + s)
  {
  }

  lemma SortedFront<K(!new), V>(c: Cmp<K>, e: (K, V), s: Entries<K, V>)
    requires Total(c) && Sorted(c, s) && s != [] && Lt(c, e.0, s[0].0)
    ensures Sorted(c, [e] + s)
  {
    forall i | 0 <= i < |s| ensures Lt(c, e.0, s[i].0) {
      LtThrough(c, e.0, s[0].0, s[i].0);
    }
    SortedCons(c, e, s);
  }

  /** Dropping a key leaves nothing to be found at the keys equal to it, and everything else. */
  lemma {:induction false} DropIsMap<K(!new), V>(c: Cmp<K>, s: Entries<K, V>, k: K, q: K)
    requires Total(c) && Sorted(c, s)
    ensures Lookup(c, Drop(c, s, k), q) == if c(k, q) == 0 then None else Lookup(c, s, q)
  {
    if s != [] {
      var t := s[1..];
      assert Sorted(c, t) && AllGt(c, t, s[0].0) by {
        assert forall i :: 0 <= i < |t| ==> t[i] == s[i + 1];
      }
      LtThrough(c, k, s[0].0, q);
      LtThrough(c, s[0].0, k, q);
      if c(s[0].0, k) == 0 {
        if c(k, q) == 0 {
          NotFound(c, t, q, s[0].0);
        }
      } else {
        DropIsMap(c, t, k, q);
      }
    }
  }

  lemma {:induction false} NotFound<K(!new), V>(c: Cmp<K>, s: Entries<K, V>, q: K, m: K)
    requires Total(c) && AllGt(c, s, m) && !Lt(c, m, q)
    ensures Lookup(c, s, q) == None
  {
    if s != [] {
      LtThrough(c, q, m, s[0].0);
      assert Lt(c, m, s[0].0);
      NotFound(c, s[1..], q, m);
    }
  }
}
