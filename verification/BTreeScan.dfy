/** The walks over a tree that collect its entries: all of them, or those on one side of a bound. */
module BTreeScan {
  import opened Common
  import opened Assoc
  import opened BTree

  // ---- what a walk collects ----

  /** The entries whose key is asked for. */
  ghost function Picked<K, V>(p: K -> bool, s: Entries<K, V>): Entries<K, V>
  {
    if s == [] then [] else (if p(s[0].0) then [s[0]] else []) + Picked(p, s[1..])
  }

  ghost function Kept<K, V, T>(keep: Keep<K, V, T>, s: Entries<K, V>): seq<T> { seq(|s|, i requires 0 <= i < |s| => keep(s[i].0, s[i].1)) }

  ghost function AtLeast<K>(c: Cmp<K>, start: K, inclusive: bool): K -> bool { k => if inclusive then c(k, start) >= 0 else c(k, start) > 0 }
  ghost function AtMost<K>(c: Cmp<K>, end: K, inclusive: bool): K -> bool { k => if inclusive then c(k, end) <= 0 else c(k, end) < 0 }
  ghost function Inside<K>(c: Cmp<K>, lo: K, hi: K): K -> bool { k => InRange(c, k, lo, hi) }

  ghost predicate NonePicked<K, V>(p: K -> bool, s: Entries<K, V>) { forall i :: 0 <= i < |s| ==> !p(s[i].0) }

  lemma {:induction false} PickedNothing<K, V>(p: K -> bool, s: Entries<K, V>)
    requires NonePicked(p, s)
    ensures Picked(p, s) == []
  {
    if s != [] {
      PickedNothing(p, s[1..]);
    }
  }

  lemma {:induction false} PickedAppend<K, V>(p: K -> bool, a: Entries<K, V>, b: Entries<K, V>)
    ensures Picked(p, a + b) == Picked(p, a) + Picked(p, b)
  {
    if a == [] {
      assert a + b == b;
    } else {
      assert (a + b)[0] == a[0] && (a + b)[1..] == a[1..] + b;
      PickedAppend(p, a[1..], b);
      Regroup(if p(a[0].0) then [a[0]] else [], Picked(p, a[1..]), Picked(p, b));
    }
  }

  /** What is picked is what stands in the list and is asked for. */
  lemma {:induction false} PickedExactly<K, V>(p: K -> bool, s: Entries<K, V>, e: (K, V))
    ensures e in Picked(p, s) <==> e in s && p(e.0)
  {
    if s != [] {
      PickedExactly(p, s[1..], e);
      assert s == [s[0]] + s[1..];
    }
  }

  lemma PickedAbove<K, V>(c: Cmp<K>, p: K -> bool, s: Entries<K, V>, m: K)
    requires AllGt(c, s, m)
    ensures AllGt(c, Picked(p, s), m)
  {
    var r := Picked(p, s);
    forall i | 0 <= i < |r| ensures Lt(c, m, r[i].0) {
      PickedExactly(p, s, r[i]);
    }
  }

  /** And it stands in the same order. */
  lemma {:induction false} PickedSorted<K, V>(c: Cmp<K>, p: K -> bool, s: Entries<K, V>)
    requires Sorted(c, s)
    ensures Sorted(c, Picked(p, s))
  {
    if s != [] {
      var t := s[1..];
      assert Sorted(c, t) && AllGt(c, t, s[0].0) by {
        assert forall i :: 0 <= i < |t| ==> t[i] == s[i + 1];
      }
      PickedSorted(c, p, t);
      PickedAbove(c, p, t, s[0].0);
      assert [] + Picked(p, t) == Picked(p, t);
    }
  }

  lemma {:induction false} PickedTwice<K, V>(p: K -> bool, q: K -> bool, both: K -> bool, s: Entries<K, V>)
    requires forall k :: both(k) <==> p(k) && q(k)
    ensures Picked(p, Picked(q, s)) == Picked(both, s)
  {
    if s != [] {
      PickedTwice(p, q, both, s[1..]);
      if q(s[0].0) {
        assert ([s[0]] + Picked(q, s[1..]))[1..] == Picked(q, s[1..]);
      } else {
        assert [] + Picked(q, s[1..]) == Picked(q, s[1..]);
      }
    }
  }

  lemma {:induction false} BetweenIsPicked<K, V, T>(keep: Keep<K, V, T>, c: Cmp<K>, s: Entries<K, V>, lo: K, hi: K)
    ensures Between(keep, c, s, lo, hi) == Kept(keep, Picked(Inside(c, lo, hi), s))
  {
    if s != [] {
      BetweenIsPicked(keep, c, s[1..], lo, hi);
    }
  }

  /** A range is what two scans from its ends have in common. */
  lemma RangeIsTwoScans<K(!new), V, T>(keep: Keep<K, V, T>, c: Cmp<K>, s: Entries<K, V>, lo: K, hi: K)
    requires Total(c)
    ensures Between(keep, c, s, lo, hi) == Kept(keep, Picked(AtLeast(c, lo, true), Picked(AtMost(c, hi, true), s)))
  {
    BetweenIsPicked(keep, c, s, lo, hi);
    PickedTwice(AtLeast(c, lo, true), AtMost(c, hi, true), Inside(c, lo, hi), s);
  }

  /** A scan up to a key and one from it, which only one of them includes, give every entry once and in order. */
  lemma {:induction false} ScansCoverAll<K(!new), V>(c: Cmp<K>, s: Entries<K, V>, k: K, inclusive: bool)
    requires Total(c) && Sorted(c, s)
    ensures Picked(AtMost(c, k, inclusive), s) + Picked(AtLeast(c, k, !inclusive), s) == s
  {
    if s != [] {
      var t := s[1..];
      assert Sorted(c, t) && AllGt(c, t, s[0].0) by {
        assert forall i :: 0 <= i < |t| ==> t[i] == s[i + 1];
      }
      ScansCoverAll(c, t, k, inclusive);
      if !AtMost(c, k, inclusive)(s[0].0) {
        forall i | 0 <= i < |t| ensures !AtMost(c, k, inclusive)(t[i].0) {
          LtThrough(c, k, s[0].0, t[i].0);
        }
        PickedNothing(AtMost(c, k, inclusive), t);
      }
      assert s == [s[0]] + t;
    }
  }

  // ---- steps of the walks ----

  /** What is left of a leaf or of a list of children is its first one and the rest. */
  lemma NextEntry<K, V>(p: K -> bool, keys: seq<K>, values: seq<V>, i: nat)
    requires |keys| == |values| && i < |keys|
    ensures var all := Zip(keys, values);
      Picked(p, all[i..]) == (if p(keys[i]) then [(keys[i], values[i])] else []) + Picked(p, all[i + 1..])
  {
    var all := Zip(keys, values);
    assert all[i..][1..] == all[i + 1..] && all[i..][0] == (keys[i], values[i]);
  }

  lemma NextPicked<K, V>(p: K -> bool, children: seq<Node<K, V>>, i: nat)
    requires i < |children|
    ensures Picked(p, Flat(children[i..])) == Picked(p, All(children[i])) + Picked(p, Flat(children[i + 1..]))
  {
    assert children[i..][0] == children[i] && children[i..][1..] == children[i + 1..];
    PickedAppend(p, All(children[i]), Flat(children[i + 1..]));
  }

  lemma NoneLeft<K, V>(p: K -> bool, children: seq<Node<K, V>>)
    ensures Picked(p, Flat(children[|children|..])) == []
  {
    assert children[|children|..] == [];
  }

  lemma LeftOfStart<K(!new), V>(c: Cmp<K>, keys: seq<K>, children: seq<Node<K, V>>, h: nat, i: nat, start: K, inclusive: bool)
    requires Total(c) && Chain(c, keys, children, h) && i < |keys| && c(keys[i], start) <= 0
    ensures Picked(AtLeast(c, start, inclusive), All(children[i])) == []
  {
    hide Tree;
    assert Parted(c, children[i], keys[i], children[i + 1]);
    var a := All(children[i]);
    forall j | 0 <= j < |a| ensures Lt(c, a[j].0, start) {
      LtThrough(c, a[j].0, keys[i], start);
    }
    PickedNothing(AtLeast(c, start, inclusive), a);
  }

  lemma RightOfEnd<K(!new), V>(c: Cmp<K>, keys: seq<K>, children: seq<Node<K, V>>, h: nat, i: nat, end: K, inclusive: bool)
    requires Total(c) && Chain(c, keys, children, h) && 0 < i < |children| && !AtMost(c, end, inclusive)(keys[i - 1])
    ensures Picked(AtMost(c, end, inclusive), Flat(children[i..])) == []
  {
    hide Chain, Tree;
    ChainPartsRight(c, keys, children, h, i - 1);
    var a := Flat(children[i..]);
    forall j | 0 <= j < |a| ensures !AtMost(c, end, inclusive)(a[j].0) {
      LtThrough(c, end, keys[i - 1], a[j].0);
      assert !Lt(c, a[j].0, keys[i - 1]) && !Lt(c, keys[i - 1], end);
    }
    PickedNothing(AtMost(c, end, inclusive), a);
  }

  lemma RestIsAbove<K(!new), V>(c: Cmp<K>, keys: seq<K>, values: seq<V>, i: nat, end: K, inclusive: bool)
    requires Total(c) && |keys| == |values| && Increasing(c, keys) && i < |keys| && c(keys[i], end) > 0
    ensures Picked(AtMost(c, end, inclusive), Zip(keys, values)[i..]) == []
  {
    var rest := Zip(keys, values)[i..];
    forall j | 0 <= j < |rest| ensures Lt(c, end, rest[j].0) {
      LtThrough(c, end, keys[i], keys[i + j]);
    }
    PickedNothing(AtMost(c, end, inclusive), rest);
  }

  // ---- from a key on ----

  method FromLeaf<K(!new), V>(c: Cmp<K>, keys: seq<K>, values: seq<V>, start: K, inclusive: bool, found: Entries<K, V>) returns (result: Entries<K, V>)
    requires |keys| == |values|
    ensures result == found + Picked(AtLeast(c, start, inclusive), Zip(keys, values))
  {
    hide Picked;
    ghost var p, all := AtLeast(c, start, inclusive), Zip(keys, values);
    assert all[0..] == all;
    result := found;
    for i := 0 to |keys|
      invariant result + Picked(p, all[i..]) == found + Picked(p, all)
    {
      NextEntry(p, keys, values, i);
      ghost var head := if p(keys[i]) then [(keys[i], values[i])] else [];
      Regroup(result, head, Picked(p, all[i + 1..]));
      var ord := c(keys[i], start);
      var wanted := if inclusive then ord >= 0 else ord > 0;
      if wanted {
        result := result + [(keys[i], values[i])];
      } else {
        assert result + [] == result;
      }
    }
    PickedNothing(p, all[|keys|..]);
    assert result + [] == result;
  }

  /** `scan_from_node` */
  method FromNode<K(!new), V>(c: Cmp<K>, n: Node<K, V>, start: K, inclusive: bool, found: Entries<K, V>, ghost h: nat, ghost min: nat)
    returns (result: Entries<K, V>)
    requires Total(c) && Tree(c, n, h, min)
    ensures result == found + Picked(AtLeast(c, start, inclusive), All(n))
    decreases h, 1
  {
    match n
    case Leaf(keys, values) => result := FromLeaf(c, keys, values, start, inclusive, found);
    case Internal(keys, children) => result := FromChildren(c, keys, children, start, inclusive, found, h - 1);
  }

  method FromChildren<K(!new), V>(c: Cmp<K>, keys: seq<K>, children: seq<Node<K, V>>, start: K, inclusive: bool, found: Entries<K, V>, ghost h: nat)
    returns (result: Entries<K, V>)
    requires Total(c) && Chain(c, keys, children, h)
    ensures result == found + Picked(AtLeast(c, start, inclusive), Flat(children))
    decreases h + 1, 0
  {
    hide Tree, Flat, Picked;
    ghost var p := AtLeast(c, start, inclusive);
    result := found;
    assert children[0..] == children;
    for i := 0 to |children|
      invariant result + Picked(p, Flat(children[i..])) == found + Picked(p, Flat(children))
    {
      NextPicked(p, children, i);
      ghost var own, rest := Picked(p, All(children[i])), Picked(p, Flat(children[i + 1..]));
      if i < |keys| && c(keys[i], start) <= 0 {
        LeftOfStart(c, keys, children, h, i, start, inclusive);
        assert [] + rest == rest;
        continue;
      }
      Regroup(result, own, rest);
      result := FromNode(c, children[i], start, inclusive, result, h, MIN_KEYS);
    }
    NoneLeft(p, children);
    assert result + [] == result;
  }

  // ---- up to a key ----

  method ToLeaf<K(!new), V>(c: Cmp<K>, keys: seq<K>, values: seq<V>, end: K, inclusive: bool, found: Entries<K, V>) returns (result: Entries<K, V>)
    requires Total(c) && |keys| == |values| && Increasing(c, keys)
    ensures result == found + Picked(AtMost(c, end, inclusive), Zip(keys, values))
  {
    hide Picked, Increasing, Total;
    ghost var p, all := AtMost(c, end, inclusive), Zip(keys, values);
    assert all[0..] == all;
    result := found;
    for i := 0 to |keys|
      invariant result + Picked(p, all[i..]) == found + Picked(p, all)
    {
      NextEntry(p, keys, values, i);
      ghost var head := if p(keys[i]) then [(keys[i], values[i])] else [];
      Regroup(result, head, Picked(p, all[i + 1..]));
      var ord := c(keys[i], end);
      if ord > 0 {
        RestIsAbove(c, keys, values, i, end, inclusive);
        assert result + [] == result;
        return;
      }
      if inclusive || ord < 0 {
        result := result + [(keys[i], values[i])];
      } else {
        assert result + [] == result;
      }
    }
    PickedNothing(p, all[|keys|..]);
    assert result + [] == result;
  }

  /** `scan_to_node`: where the end is excluded, a separator equal to it already stops the walk. */
  method ToNode<K(!new), V>(c: Cmp<K>, n: Node<K, V>, end: K, inclusive: bool, found: Entries<K, V>, ghost h: nat, ghost min: nat)
    returns (result: Entries<K, V>)
    requires Total(c) && Tree(c, n, h, min)
    ensures result == found + Picked(AtMost(c, end, inclusive), All(n))
    decreases h, 1
  {
    match n
    case Leaf(keys, values) => result := ToLeaf(c, keys, values, end, inclusive, found);
    case Internal(keys, children) => result := ToChildren(c, keys, children, end, inclusive, found, h - 1);
  }

  method ToChildren<K(!new), V>(c: Cmp<K>, keys: seq<K>, children: seq<Node<K, V>>, end: K, inclusive: bool, found: Entries<K, V>, ghost h: nat)
    returns (result: Entries<K, V>)
    requires Total(c) && Chain(c, keys, children, h)
    ensures result == found + Picked(AtMost(c, end, inclusive), Flat(children))
    decreases h + 1, 0
  {
    hide Tree, Flat, Picked;
    ghost var p := AtMost(c, end, inclusive);
    result := found;
    assert children[0..] == children;
    for i := 0 to |children|
      invariant result + Picked(p, Flat(children[i..])) == found + Picked(p, Flat(children))
    {
      NextPicked(p, children, i);
      ghost var own, rest := Picked(p, All(children[i])), Picked(p, Flat(children[i + 1..]));
      if i > 0 {
        var ord := c(keys[i - 1], end);
        var stop := if inclusive then ord > 0 else ord >= 0;
        if stop {
          RightOfEnd(c, keys, children, h, i, end, inclusive);
          assert result + [] == result;
          return;
        }
      }
      Regroup(result, own, rest);
      result := ToNode(c, children[i], end, inclusive, result, h, MIN_KEYS);
    }
    NoneLeft(p, children);
    assert result + [] == result;
  }

  // ---- everything ----

  /** `collect_kv_node` */
  method CollectNode<K(!new), V>(n: Node<K, V>, found: Entries<K, V>) returns (result: Entries<K, V>)
    requires WellBuilt(n)
    ensures result == found + All(n)
    decreases n, 1
  {
    result := found;
    match n
    case Leaf(keys, values) =>
      ghost var all := Zip(keys, values);
      for i := 0 to |keys|
        invariant result == found + all[..i]
      {
        assert all[..i + 1] == all[..i] + [(keys[i], values[i])];
        result := result + [(keys[i], values[i])];
      }
      assert all[..|keys|] == all;
    case Internal(_, children) =>
      for i := 0 to |children|
        invariant result == found + Flat(children[..i])
      {
        FlatFront(children, i);
        Regroup(found, Flat(children[..i]), All(children[i]));
        result := CollectNode(children[i], result);
      }
      assert children[..|children|] == children;
  }

  /** Every leaf has a value for each of its keys. */
  ghost predicate WellBuilt<K, V>(n: Node<K, V>)
  {
    match n
    case Leaf(keys, values) => |keys| == |values|
    case Internal(_, children) => forall i :: 0 <= i < |children| ==> WellBuilt(children[i])
  }

  lemma TreeIsWellBuilt<K(!new), V>(c: Cmp<K>, n: Node<K, V>, h: nat, min: nat)
    requires Tree(c, n, h, min)
    ensures WellBuilt(n)
    decreases h
  {
    if n.Internal? {
      forall i | 0 <= i < |n.children| ensures WellBuilt(n.children[i]) {
        TreeIsWellBuilt(c, n.children[i], h - 1, MIN_KEYS);
      }
    }
  }
}
