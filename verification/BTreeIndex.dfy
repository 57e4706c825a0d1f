/** The index as its users see it: whatever is done to it, it answers as the sorted list of its entries does. */
module BTreeIndex {
  import opened Common
  import opened Assoc
  import opened BTree
  import opened BTreeInsert
  import opened BTreeRemove
  import opened BTreeScan

  /** The leaf's part of `search_node`: the value of the first equal key. */
  method SearchLeaf<K(!new), V>(c: Cmp<K>, keys: seq<K>, values: seq<V>, key: K) returns (r: Option<V>)
    requires |keys| == |values|
    ensures r == Lookup(c, Zip(keys, values), key)
  {
    ghost var all := Zip(keys, values);
    assert all[0..] == all;
    for i := 0 to |keys|
      invariant Lookup(c, all[i..], key) == Lookup(c, all, key)
    {
      assert all[i..][1..] == all[i + 1..] && all[i..][0] == (keys[i], values[i]);
      if c(keys[i], key) == 0 {
        return Some(values[i]);
      }
    }
    return None;
  }

  /** `search_node` */
  method SearchNode<K(!new), V>(c: Cmp<K>, n: Node<K, V>, key: K, ghost h: nat, ghost min: nat) returns (r: Option<V>)
    requires Total(c) && Tree(c, n, h, min)
    ensures r == Lookup(c, All(n), key)
    decreases h
  {
    match n
    case Leaf(keys, values) => r := SearchLeaf(c, keys, values, key);
    case Internal(keys, children) =>
      var idx := ChildFor(c, n, key);
      ChildIsTree(c, n, h, min, idx);
      PathParts(c, n, h, min, key);
      LookupMiddle(c, Flat(children[..idx]), All(children[idx]), Flat(children[idx + 1..]), key);
      r := SearchNode(c, children[idx], key, h - 1, MIN_KEYS);
  }

  /** The leaf's part of `range_collect`. */
  method RangeLeaf<K(!new), V, T>(keep: Keep<K, V, T>, c: Cmp<K>, keys: seq<K>, values: seq<V>, lo: K, hi: K, found: seq<T>) returns (result: seq<T>)
    requires Total(c) && |keys| == |values| && Increasing(c, keys)
    ensures result == found + Between(keep, c, Zip(keys, values), lo, hi)
  {
    ghost var all := Zip(keys, values);
    assert all[0..] == all;
    result := found;
    for i := 0 to |keys|
      invariant result + Between(keep, c, all[i..], lo, hi) == found + Between(keep, c, all, lo, hi)
    {
      assert all[i..][1..] == all[i + 1..] && all[i..][0] == (keys[i], values[i]);
      if c(keys[i], hi) > 0 {
        RestIsGreater(c, keys, values, i, hi);
        BetweenNothing(keep, c, all[i..], lo, hi);
        assert result + [] == result;
        return;
      }
      ghost var head := if InRange(c, keys[i], lo, hi) then [keep(keys[i], values[i])] else [];
      Regroup(result, head, Between(keep, c, all[i + 1..], lo, hi));
      if c(keys[i], lo) >= 0 {
        result := result + [keep(keys[i], values[i])];
      } else {
        assert result + [] == result;
      }
    }
    assert result + [] == result;
  }

  lemma RestIsGreater<K(!new), V>(c: Cmp<K>, keys: seq<K>, values: seq<V>, i: nat, hi: K)
    requires Total(c) && |keys| == |values| && Increasing(c, keys) && i < |keys| && c(keys[i], hi) > 0
    ensures AllGt(c, Zip(keys, values)[i..], hi)
  {
    var all := Zip(keys, values);
    forall j | i <= j < |keys| ensures Lt(c, hi, all[j].0) {
      LtThrough(c, hi, keys[i], keys[j]);
    }
  }

  /** `range_collect`, and `range_collect_keys`, which keeps the keys: the subtrees that cannot hold a key of the range are passed over. */
  method RangeCollect<K(!new), V, T>(keep: Keep<K, V, T>, c: Cmp<K>, n: Node<K, V>, lo: K, hi: K, found: seq<T>, ghost h: nat, ghost min: nat)
    returns (result: seq<T>)
    requires Total(c) && Tree(c, n, h, min)
    ensures result == found + Between(keep, c, All(n), lo, hi)
    decreases h, 1
  {
    match n
    case Leaf(keys, values) => result := RangeLeaf(keep, c, keys, values, lo, hi, found);
    case Internal(keys, children) => result := RangeChildren(keep, c, keys, children, lo, hi, found, h - 1);
  }

  method RangeChildren<K(!new), V, T>(keep: Keep<K, V, T>, c: Cmp<K>, keys: seq<K>, children: seq<Node<K, V>>, lo: K, hi: K, found: seq<T>, ghost h: nat)
    returns (result: seq<T>)
    requires Total(c) && Chain(c, keys, children, h)
    ensures result == found + Between(keep, c, Flat(children), lo, hi)
    decreases h + 1, 0
  {
    hide Tree, Flat, Between;
    result := found;
    assert children[0..] == children;
    for i := 0 to |children|
      invariant result + Between(keep, c, Flat(children[i..]), lo, hi) == found + Between(keep, c, Flat(children), lo, hi)
    {
      NextChild(keep, c, children, i, lo, hi);
      ghost var own, rest := Between(keep, c, All(children[i]), lo, hi), Between(keep, c, Flat(children[i + 1..]), lo, hi);
      if i < |keys| && c(keys[i], lo) <= 0 {
        LeftOfRange(keep, c, keys, children, h, i, lo, hi);
        assert [] + rest == rest;
        continue;
      }
      if i > 0 && c(keys[i - 1], hi) > 0 {
        RightOfRange(keep, c, keys, children, h, i, lo, hi);
        assert result + [] == result;
        return;
      }
      Regroup(result, own, rest);
      result := RangeCollect(keep, c, children[i], lo, hi, result, h, MIN_KEYS);
    }
    assert children[|children|..] == [];
    NoValues(keep, c, lo, hi, result);
  }

  lemma NoValues<K, V, T>(keep: Keep<K, V, T>, c: Cmp<K>, lo: K, hi: K, result: seq<T>)
    ensures result + Between(keep, c, Flat<K, V>([]), lo, hi) == result
  {
  }

  lemma NextChild<K, V, T>(keep: Keep<K, V, T>, c: Cmp<K>, children: seq<Node<K, V>>, i: nat, lo: K, hi: K)
    requires i < |children|
    ensures Between(keep, c, Flat(children[i..]), lo, hi) ==
            Between(keep, c, All(children[i]), lo, hi) + Between(keep, c, Flat(children[i + 1..]), lo, hi)
  {
    assert children[i..][0] == children[i] && children[i..][1..] == children[i + 1..];
    BetweenAppend(keep, c, All(children[i]), Flat(children[i + 1..]), lo, hi);
  }

  lemma LeftOfRange<K(!new), V, T>(keep: Keep<K, V, T>, c: Cmp<K>, keys: seq<K>, children: seq<Node<K, V>>, h: nat, i: nat, lo: K, hi: K)
    requires Total(c) && Chain(c, keys, children, h) && i < |keys| && c(keys[i], lo) <= 0
    ensures Between(keep, c, All(children[i]), lo, hi) == []
  {
    hide Tree;
    assert Parted(c, children[i], keys[i], children[i + 1]);
    var a := All(children[i]);
    forall j | 0 <= j < |a| ensures Lt(c, a[j].0, lo) {
      LtThrough(c, a[j].0, keys[i], lo);
    }
    BetweenNothing(keep, c, a, lo, hi);
  }

  lemma RightOfRange<K(!new), V, T>(keep: Keep<K, V, T>, c: Cmp<K>, keys: seq<K>, children: seq<Node<K, V>>, h: nat, i: nat, lo: K, hi: K)
    requires Total(c) && Chain(c, keys, children, h) && 0 < i < |children| && c(keys[i - 1], hi) > 0
    ensures Between(keep, c, Flat(children[i..]), lo, hi) == []
  {
    hide Chain, Tree;
    ChainPartsRight(c, keys, children, h, i - 1);
    var a := Flat(children[i..]);
    forall j | 0 <= j < |a| ensures Lt(c, hi, a[j].0) {
      LtThrough(c, hi, keys[i - 1], a[j].0);
    }
    BetweenNothing(keep, c, a, lo, hi);
  }

  /** `BPlusTree` */
  class Index<K(!new), V> {
    const cmp: Cmp<K>
    var root: Option<Node<K, V>>
    ghost var height: nat

    ghost predicate Valid()
      reads this
    {
      Total(cmp) && (root.Some? ==> Tree(cmp, root.value, height, 1))
    }

    ghost function Content(): Entries<K, V>
      reads this
    {
      if root.None? then [] else All(root.value)
    }

    constructor (cmp: Cmp<K>)
      requires Total(cmp)
      ensures Valid() && this.cmp == cmp && Content() == []
    {
      this.cmp := cmp;
      root := None;
      height := 0;
    }

    method Search(key: K) returns (r: Option<V>)
      requires Valid()
      ensures r == Lookup(cmp, Content(), key)
    {
      if root.None? {
        return None;
      }
      r := SearchNode(cmp, root.value, key, height, 1);
    }

    method Insert(key: K, value: V)
      requires Valid()
      modifies this
      ensures Valid() && Content() == Put(cmp, old(Content()), key, value)
    {
      if root.None? {
        root, height := Some(Leaf([key], [value])), 0;
        return;
      }
      var r := InsertNode(cmp, root.value, key, value, height, 1);
      if r.split.None? {
        root := Some(r.node);
      } else {
        var s := r.split.value;
        TwoChain(cmp, r.node, s.key, s.right, height);
        root, height := Some(Internal([s.key], [r.node, s.right])), height + 1;
      }
    }

    method Remove(key: K)
      requires Valid()
      modifies this
      ensures Valid() && Content() == Drop(cmp, old(Content()), key)
    {
      if root.None? {
        return;
      }
      var r := RemoveNode(cmp, root.value, key, height, 1);
      height := if r.Some? && !Tree(cmp, r.value, height, 1) then height - 1 else height;
      root := r;
    }

    method RangeSearch(lo: K, hi: K) returns (result: seq<V>)
      requires Valid()
      ensures result == Between(ValueOf, cmp, Content(), lo, hi)
    {
      if root.None? {
        return [];
      }
      result := RangeCollect(ValueOf, cmp, root.value, lo, hi, [], height, 1);
    }

    method RangeKeys(lo: K, hi: K) returns (result: seq<K>)
      requires Valid()
      ensures result == Between(KeyOf, cmp, Content(), lo, hi)
    {
      if root.None? {
        return [];
      }
      result := RangeCollect(KeyOf, cmp, root.value, lo, hi, [], height, 1);
    }

    method ScanFrom(start: K, inclusive: bool) returns (result: Entries<K, V>)
      requires Valid()
      ensures result == Picked(AtLeast(cmp, start, inclusive), Content())
    {
      if root.None? {
        return [];
      }
      result := FromNode(cmp, root.value, start, inclusive, [], height, 1);
    }

    method ScanTo(end: K, inclusive: bool) returns (result: Entries<K, V>)
      requires Valid()
      ensures result == Picked(AtMost(cmp, end, inclusive), Content())
    {
      if root.None? {
        return [];
      }
      result := ToNode(cmp, root.value, end, inclusive, [], height, 1);
    }

    method CollectAll() returns (result: Entries<K, V>)
      requires Valid()
      ensures result == Content() && Sorted(cmp, result)
    {
      if root.None? {
        return [];
      }
      TreeIsWellBuilt(cmp, root.value, height, 1);
      result := CollectNode(root.value, []);
      TreeIsSorted(cmp, root.value, height, 1);
    }

    /** The number of levels is at most logarithmic in the number of entries. */
    lemma HeightBound()
      requires Valid() && root.Some?
      ensures |Content()| >= if height == 0 then 1 else 2 * MIN_KEYS * LeastLeaves(height - 1)
    {
      HeightIsLogarithmic(cmp, root.value, height, 1);
    }
  }

  // ---- what the shape is good for ----

  /** The entries of a tree are in order, and no two keys are equal. */
  lemma {:induction false} TreeIsSorted<K(!new), V>(c: Cmp<K>, n: Node<K, V>, h: nat, min: nat)
    requires Total(c) && Tree(c, n, h, min)
    ensures Sorted(c, All(n))
    decreases h, |n.keys| + 2
  {
    if n.Internal? {
      ChainIsSorted(c, n.keys, n.children, h - 1, |n.keys|);
      assert n.children[..|n.keys| + 1] == n.children;
    }
  }

  lemma {:induction false} ChainIsSorted<K(!new), V>(c: Cmp<K>, keys: seq<K>, children: seq<Node<K, V>>, h: nat, i: nat)
    requires Total(c) && Chain(c, keys, children, h) && i <= |keys|
    ensures Sorted(c, Flat(children[..i + 1]))
    decreases h + 1, i
  {
    FlatFront(children, i);
    TreeIsSorted(c, children[i], h, MIN_KEYS);
    if i > 0 {
      ChainIsSorted(c, keys, children, h, i - 1);
      ChainParts(c, keys, children, h, i - 1);
      assert Parted(c, children[i - 1], keys[i - 1], children[i]);
      SortedAppend(c, Flat(children[..i]), keys[i - 1], All(children[i]));
    } else {
      assert children[..0] == [];
    }
  }

  lemma SortedAppend<K(!new), V>(c: Cmp<K>, a: Entries<K, V>, k: K, b: Entries<K, V>)
    requires Total(c) && Sorted(c, a) && Sorted(c, b) && AllLt(c, a, k) && AllGe(c, b, k)
    ensures Sorted(c, a + b)
  {
    forall i, j | 0 <= i < |a| && 0 <= j < |b| ensures Lt(c, a[i].0, b[j].0) {
      LtThrough(c, a[i].0, k, b[j].0);
    }
  }

  /** How many leaves stand at least below a node of some height: every node has one child more than keys. */
  function LeastLeaves(h: nat): nat { if h == 0 then 1 else (MIN_KEYS + 1) * LeastLeaves(h - 1) }

  /** A tree is no deeper than the logarithm of what it holds: below the top every node has at least MIN_KEYS + 1 children, every leaf MIN_KEYS keys. */
  lemma {:induction false} HeightIsLogarithmic<K(!new), V>(c: Cmp<K>, n: Node<K, V>, h: nat, min: nat)
    requires Tree(c, n, h, min) && 1 <= min <= MIN_KEYS
    ensures |All(n)| >= if min == MIN_KEYS then MIN_KEYS * LeastLeaves(h) else if h == 0 then 1 else 2 * MIN_KEYS * LeastLeaves(h - 1)
    decreases h, |n.keys| + 2
  {
    if n.Internal? {
      ManyBelow(c, n.keys, n.children, h - 1, |n.keys|);
      assert n.children[..|n.keys| + 1] == n.children;
      Products(|n.keys| + 1, min, LeastLeaves(h - 1));
    }
  }

  lemma Products(children: nat, min: nat, p: nat)
    requires children >= min + 1 && 1 <= min <= MIN_KEYS
    ensures children * (MIN_KEYS * p) >= 2 * MIN_KEYS * p
    ensures min == MIN_KEYS ==> children * (MIN_KEYS * p) >= MIN_KEYS * ((MIN_KEYS + 1) * p)
  {
    var x := MIN_KEYS * p;
    TimesGrows(2, children, x);
    if min == MIN_KEYS {
      TimesGrows(MIN_KEYS + 1, children, x);
    }
  }

  lemma {:induction false} TimesGrows(a: nat, b: nat, x: nat)
    requires a <= b
    ensures a * x <= b * x && (a + 1) * x == a * x + x
  {
  }

  lemma {:induction false} ManyBelow<K(!new), V>(c: Cmp<K>, keys: seq<K>, children: seq<Node<K, V>>, h: nat, i: nat)
    requires Chain(c, keys, children, h) && i <= |keys|
    ensures |Flat(children[..i + 1])| >= (i + 1) * (MIN_KEYS * LeastLeaves(h))
    decreases h + 1, i
  {
    hide Flat, All, LeastLeaves;
    FlatFront(children, i);
    assert Tree(c, children[i], h, MIN_KEYS);
    HeightIsLogarithmic(c, children[i], h, MIN_KEYS);
    var x := MIN_KEYS * LeastLeaves(h);
    TimesGrows(i, i, x);
    if i > 0 {
      ManyBelow(c, keys, children, h, i - 1);
      assert |Flat(children[..i])| >= i * x;
    } else {
      assert 0 * x == 0;
    }
  }

  // ---- every run ----

  datatype Step<K, V> = Insert(key: K, value: V) | Remove(key: K)

  /** What an index holds after the steps. */
  ghost function After<K, V>(c: Cmp<K>, steps: seq<Step<K, V>>): Entries<K, V>
  {
    if steps == [] then []
    else
      var before, last := After(c, steps[..|steps| - 1]), steps[|steps| - 1];
      match last
      case Insert(k, v) => Put(c, before, k, v)
      case Remove(k) => Drop(c, before, k)
  }

  /** What the last step that named an equal key said of it. */
  function LastSaid<K, V>(c: Cmp<K>, steps: seq<Step<K, V>>, q: K): Option<V>
  {
    if steps == [] then None
    else
      var last := steps[|steps| - 1];
      if c(last.key, q) != 0 then LastSaid(c, steps[..|steps| - 1], q)
      else if last.Insert? then Some(last.value) else None
  }

  /** After any steps, looking a key up finds what the last step that named an equal key said. */
  lemma {:induction false} RunIsMap<K(!new), V>(c: Cmp<K>, steps: seq<Step<K, V>>, q: K)
    requires Total(c)
    ensures Sorted(c, After(c, steps)) && Lookup(c, After(c, steps), q) == LastSaid(c, steps, q)
  {
    if steps != [] {
      var before, last := steps[..|steps| - 1], steps[|steps| - 1];
      RunIsMap(c, before, q);
      match last
      case Insert(k, v) =>
        PutSorted(c, After(c, before), k, v);
        PutIsMap(c, After(c, before), k, v, q);
      case Remove(k) =>
        DropSorted(c, After(c, before), k);
        DropIsMap(c, After(c, before), k, q);
    }
  }

  lemma {:induction false} DropSorted<K(!new), V>(c: Cmp<K>, s: Entries<K, V>, k: K)
    requires Total(c) && Sorted(c, s)
    ensures Sorted(c, Drop(c, s, k))
    ensures forall m :: AllGt(c, s, m) ==> AllGt(c, Drop(c, s, k), m)
  {
    if s != [] {
      var t := s[1..];
      assert Sorted(c, t) && AllGt(c, t, s[0].0) by {
        assert forall i :: 0 <= i < |t| ==> t[i] == s[i + 1];
      }
      DropSorted(c, t, k);
      if c(s[0].0, k) != 0 {
        SortedCons(c, s[0], Drop(c, t, k));
      }
    }
  }

  /** An index on which the steps were taken, one after the other, holds what they leave. */
  method Run<K(!new), V>(cmp: Cmp<K>, steps: seq<Step<K, V>>) returns (t: Index<K, V>)
    requires Total(cmp)
    ensures fresh(t) && t.Valid() && t.cmp == cmp && t.Content() == After(cmp, steps)
  {
    t := new Index(cmp);
    for i := 0 to |steps|
      invariant fresh(t) && t.Valid() && t.cmp == cmp && t.Content() == After(cmp, steps[..i])
    {
      assert steps[..i + 1][..i] == steps[..i];
      match steps[i] {
        case Insert(key, value) => t.Insert(key, value);
        case Remove(key) => t.Remove(key);
      }
    }
    assert steps[..|steps|] == steps;
  }

  /** After any steps the tree finds what the last step that named an equal key said. */
  method SearchAfter<K(!new), V>(cmp: Cmp<K>, steps: seq<Step<K, V>>, q: K) returns (r: Option<V>)
    requires Total(cmp)
    ensures r == LastSaid(cmp, steps, q)
  {
    RunIsMap(cmp, steps, q);
    var t := Run(cmp, steps);
    r := t.Search(q);
  }

  /** And a range search gives the values that a search would find somewhere in the range. */
  method RangeAfter<K(!new), V>(cmp: Cmp<K>, steps: seq<Step<K, V>>, lo: K, hi: K) returns (found: seq<V>)
    requires Total(cmp)
    ensures forall v :: v in found <==> exists q :: InRange(cmp, q, lo, hi) && LastSaid(cmp, steps, q) == Some(v)
  {
    var t := Run(cmp, steps);
    found := t.RangeSearch(lo, hi);
    forall v ensures v in found <==> exists q :: InRange(cmp, q, lo, hi) && LastSaid(cmp, steps, q) == Some(v) {
      BetweenFinds(cmp, steps, lo, hi, v);
    }
  }

  lemma BetweenFinds<K(!new), V>(c: Cmp<K>, steps: seq<Step<K, V>>, lo: K, hi: K, v: V)
    requires Total(c)
    ensures v in Between(ValueOf, c, After(c, steps), lo, hi) <==> exists q :: InRange(c, q, lo, hi) && LastSaid(c, steps, q) == Some(v)
  {
    hide After, LastSaid, Between, Lookup;
    var s := After(c, steps);
    RunIsMap(c, steps, lo);
    if v in Between(ValueOf, c, s, lo, hi) {
      var k := KeyInRange(c, s, lo, hi, v);
      RunIsMap(c, steps, k);
    }
    forall q | InRange(c, q, lo, hi) && LastSaid(c, steps, q) == Some(v) ensures v in Between(ValueOf, c, s, lo, hi) {
      RunIsMap(c, steps, q);
      FoundInRange(c, s, lo, hi, q);
    }
  }

  lemma {:induction false} KeyInRange<K(!new), V>(c: Cmp<K>, s: Entries<K, V>, lo: K, hi: K, v: V) returns (k: K)
    requires Total(c) && Sorted(c, s) && v in Between(ValueOf, c, s, lo, hi)
    ensures InRange(c, k, lo, hi) && Lookup(c, s, k) == Some(v) && exists i :: 0 <= i < |s| && s[i].0 == k
  {
    if InRange(c, s[0].0, lo, hi) && s[0].1 == v {
      k := s[0].0;
    } else {
      var t := s[1..];
      assert forall i :: 0 <= i < |t| ==> t[i] == s[i + 1];
      k := KeyInRange(c, t, lo, hi, v);
      var i :| 0 <= i < |t| && t[i].0 == k;
      assert s[i + 1].0 == k && Lt(c, s[0].0, s[i + 1].0);
    }
  }

  lemma {:induction false} FoundInRange<K(!new), V>(c: Cmp<K>, s: Entries<K, V>, lo: K, hi: K, q: K)
    requires Total(c) && InRange(c, q, lo, hi) && Lookup(c, s, q).Some?
    ensures Lookup(c, s, q).value in Between(ValueOf, c, s, lo, hi)
  {
    if c(s[0].0, q) == 0 {
      LtThrough(c, s[0].0, q, lo);
      LtThrough(c, hi, s[0].0, q);
      assert InRange(c, s[0].0, lo, hi);
    } else {
      FoundInRange(c, s[1..], lo, hi, q);
    }
  }
}
