/** Removal from the index: a node that is left with too few keys takes one from a sibling, or the two become one. */
module BTreeRemove {
  import opened Common
  import opened Assoc
  import opened BTree
  import opened BTreeInsert

  /** The first key that compares as equal; `std::find_if`. */
  function FindEq<K>(c: Cmp<K>, keys: seq<K>, key: K): (i: nat)
    ensures i <= |keys| && (forall j :: 0 <= j < i ==> c(keys[j], key) != 0) && (i < |keys| ==> c(keys[i], key) == 0)
  {
    if keys == [] || c(keys[0], key) == 0 then 0 else 1 + FindEq(c, keys[1..], key)
  }

  function LeafRemove<K, V>(c: Cmp<K>, n: Node<K, V>, key: K): (m: Node<K, V>)
    requires n.Leaf? && |n.keys| == |n.values|
    ensures m.Leaf?
  {
    var pos := FindEq(c, n.keys, key);
    if pos < |n.keys| then Leaf(EraseAt(n.keys, pos), EraseAt(n.values, pos)) else n
  }

  // ---- two neighbours ----

  predicate Shaped<K, V>(n: Node<K, V>) { if n.Leaf? then |n.values| == |n.keys| else |n.children| == |n.keys| + 1 }

  predicate Twins<K, V>(l: Node<K, V>, r: Node<K, V>) { Shaped(l) && Shaped(r) && l.Leaf? == r.Leaf? }

  datatype Pair<K, V> = Pair(left: Node<K, V>, key: K, right: Node<K, V>)

  function MoveRight<K, V>(l: Node<K, V>, s: K, r: Node<K, V>): Pair<K, V>
    requires Twins(l, r) && l.keys != []
  {
    var last := |l.keys| - 1;
    if l.Leaf? then Pair(Leaf(l.keys[..last], l.values[..last]), l.keys[last], Leaf([l.keys[last]] + r.keys, [l.values[last]] + r.values))
    else Pair(Internal(l.keys[..last], l.children[..last + 1]), l.keys[last], Internal([s] + r.keys, [l.children[last + 1]] + r.children))
  }

  function MoveLeft<K, V>(l: Node<K, V>, s: K, r: Node<K, V>): Pair<K, V>
    requires Twins(l, r) && |r.keys| > 1
  {
    if l.Leaf? then Pair(Leaf(l.keys + [r.keys[0]], l.values + [r.values[0]]), r.keys[1], Leaf(r.keys[1..], r.values[1..]))
    else Pair(Internal(l.keys + [s], l.children + [r.children[0]]), r.keys[0], Internal(r.keys[1..], r.children[1..]))
  }

  function Merge<K, V>(l: Node<K, V>, s: K, r: Node<K, V>): Node<K, V>
    requires Twins(l, r)
  {
    if l.Leaf? then Leaf(l.keys + r.keys, l.values + r.values) else Internal(l.keys + [s] + r.keys, l.children + r.children)
  }

  // ---- the node above ----

  predicate Alike<K, V>(n: Node<K, V>)
  {
    n.Internal? && Shaped(n) && forall i :: 0 <= i < |n.keys| ==> Twins(n.children[i], n.children[i + 1])
  }

  function SetPair<K, V>(n: Node<K, V>, i: nat, p: Pair<K, V>): Node<K, V>
    requires n.Internal? && Shaped(n) && i < |n.keys|
  {
    Internal(n.keys[i := p.key], n.children[i := p.left][i + 1 := p.right])
  }

  function SetMerged<K, V>(n: Node<K, V>, i: nat, m: Node<K, V>): Node<K, V>
    requires n.Internal? && Shaped(n) && i < |n.keys|
  {
    Internal(EraseAt(n.keys, i), EraseAt(n.children[i := m], i + 1))
  }

  /** `borrow_from_left` */
  function BorrowFromLeft<K, V>(n: Node<K, V>, idx: nat): Node<K, V>
    requires Alike(n) && 0 < idx < |n.children| && n.children[idx - 1].keys != []
  {
    SetPair(n, idx - 1, MoveRight(n.children[idx - 1], n.keys[idx - 1], n.children[idx]))
  }

  /** `borrow_from_right` */
  function BorrowFromRight<K, V>(n: Node<K, V>, idx: nat): Node<K, V>
    requires Alike(n) && idx < |n.keys| && |n.children[idx + 1].keys| > 1
  {
    SetPair(n, idx, MoveLeft(n.children[idx], n.keys[idx], n.children[idx + 1]))
  }

  /** `merge_with_left` at `i + 1`, `merge_with_right` at `i`: the separator goes down into the one node the two become. */
  function MergeAt<K, V>(n: Node<K, V>, i: nat): Node<K, V>
    requires Alike(n) && i < |n.keys|
  {
    SetMerged(n, i, Merge(n.children[i], n.keys[i], n.children[i + 1]))
  }

  /** `rebalance_child` */
  function RebalanceChild<K, V>(n: Node<K, V>, idx: nat): Node<K, V>
    requires Alike(n) && idx < |n.children|
  {
    if idx > 0 && |n.children[idx - 1].keys| > MIN_KEYS then BorrowFromLeft(n, idx)
    else if idx + 1 < |n.children| && |n.children[idx + 1].keys| > MIN_KEYS then BorrowFromRight(n, idx)
    else if idx > 0 then MergeAt(n, idx - 1)
    else if idx + 1 < |n.children| then MergeAt(n, idx)
    else n
  }

  /** `remove_node`. The child below an internal node never becomes empty: the fallback for that case is not reached. */
  method RemoveNode<K(!new), V>(c: Cmp<K>, n: Node<K, V>, key: K, ghost h: nat, ghost min: nat) returns (r: Option<Node<K, V>>)
    requires Total(c) && Tree(c, n, h, min) && 1 <= min <= MIN_KEYS
    ensures RemoveOk(c, n, key, h, min, r)
    decreases h
  {
    if n.Leaf? {
      var m := LeafRemove(c, n, key);
      LeafRemoveOk(c, n, key, min);
      r := if m.keys == [] then None else Some(m);
    } else {
      var idx := ChildFor(c, n, key);
      ChildIsTree(c, n, h, min, idx);
      var child := RemoveNode(c, n.children[idx], key, h - 1, MIN_KEYS);
      InternalRemoveOk(c, n, key, h, min, child.value);
      r := Some(Settle(n, idx, child.value));
    }
  }

  /** The node with the child replaced, put right if the child has become too small; a node with a single child gives way to it. */
  function Settle<K, V>(n: Node<K, V>, idx: nat, child: Node<K, V>): Node<K, V>
    requires n.Internal? && idx < |n.children| && Alike(n.(children := n.children[idx := child]))
  {
    var m := n.(children := n.children[idx := child]);
    var b := if |child.keys| < MIN_KEYS then RebalanceChild(m, idx) else m;
    if |b.children| == 1 then b.children[0] else b
  }

  ghost predicate RemoveOk<K(!new), V>(c: Cmp<K>, n: Node<K, V>, key: K, h: nat, min: nat, r: Option<Node<K, V>>)
  {
    match r
    case None => min == 1 && Drop(c, All(n), key) == []
    case Some(m) => All(m) == Drop(c, All(n), key) && Shrunk(c, m, h, min)
  }

  /** A tree that may have lost a key at its top, or its top. */
  ghost predicate Shrunk<K(!new), V>(c: Cmp<K>, m: Node<K, V>, h: nat, min: nat)
  {
    if min > 1 then Tree(c, m, h, min - 1) else Tree(c, m, h, 1) || (h > 0 && Tree(c, m, h - 1, 1))
  }

  lemma WeakerMin<K(!new), V>(c: Cmp<K>, n: Node<K, V>, h: nat, min: nat, min': nat)
    requires Tree(c, n, h, min) && min' <= |n.keys|
    ensures Tree(c, n, h, min')
  {
  }

  // ---- leaves ----

  lemma LeafRemoveOk<K(!new), V>(c: Cmp<K>, n: Node<K, V>, key: K, min: nat)
    requires Total(c) && n.Leaf? && Tree(c, n, 0, min) && 1 <= min <= MIN_KEYS
    ensures var m := LeafRemove(c, n, key); RemoveOk(c, n, key, 0, min, if m.keys == [] then None else Some(m))
  {
    var pos := FindEq(c, n.keys, key);
    if pos < |n.keys| {
      LeafDrop(c, n.keys, n.values, pos, key);
    } else {
      DropAbsent(c, n.keys, n.values, key);
    }
    hide Drop, Zip;
    var m := LeafRemove(c, n, key);
    if m.keys == [] {
      assert All(m) == [] by { NoZip(m); }
    }
  }

  lemma NoZip<K, V>(m: Node<K, V>)
    requires m.Leaf? && m.keys == []
    ensures All(m) == []
  {
  }

  lemma {:induction false} DropAbsent<K, V>(c: Cmp<K>, keys: seq<K>, values: seq<V>, key: K)
    requires |keys| == |values| && forall j :: 0 <= j < |keys| ==> c(keys[j], key) != 0
    ensures Drop(c, Zip(keys, values), key) == Zip(keys, values)
  {
    var z := Zip(keys, values);
    if keys != [] {
      assert z[1..] == Zip(keys[1..], values[1..]) && z[0] == (keys[0], values[0]);
      DropAbsent(c, keys[1..], values[1..], key);
      assert z == [z[0]] + z[1..];
    }
  }

  lemma LeafDrop<K(!new), V>(c: Cmp<K>, keys: seq<K>, values: seq<V>, pos: nat, key: K)
    requires Total(c) && Increasing(c, keys) && |keys| == |values| && pos < |keys| && c(keys[pos], key) == 0
    ensures Drop(c, Zip(keys, values), key) == Zip(EraseAt(keys, pos), EraseAt(values, pos)) && Increasing(c, EraseAt(keys, pos))
  {
    LeafSides(c, keys, values, pos, key);
    hide Zip, Increasing, Drop;
    var a, b := Zip(keys[..pos], values[..pos]), Zip(keys[pos + 1..], values[pos + 1..]);
    var x := [(keys[pos], values[pos])];
    ZipAt(keys, values, pos);
    DropMiddle(c, a, x, b, key);
    DropOne(c, x[0], key);
    assert [] + b == b;
    ZipAppend(keys[..pos], values[..pos], keys[pos + 1..], values[pos + 1..]);
  }

  lemma DropOne<K, V>(c: Cmp<K>, e: (K, V), key: K)
    requires c(e.0, key) == 0
    ensures Drop(c, [e], key) == []
  {
  }

  /** The keys before that of a place are smaller, the keys behind it greater. */
  lemma LeafSides<K(!new), V>(c: Cmp<K>, keys: seq<K>, values: seq<V>, pos: nat, key: K)
    requires Total(c) && Increasing(c, keys) && |keys| == |values| && pos < |keys| && c(keys[pos], key) == 0
    ensures AllLt(c, Zip(keys[..pos], values[..pos]), key) && AllGt(c, Zip(keys[pos + 1..], values[pos + 1..]), key)
    ensures Increasing(c, EraseAt(keys, pos))
  {
    hide Zip;
    ZipParts(c, keys[..pos], values[..pos], key);
    ZipParts(c, keys[pos + 1..], values[pos + 1..], key);
    forall i | 0 <= i < pos ensures Lt(c, keys[i], key) {
      LtThrough(c, keys[i], keys[pos], key);
    }
    forall i | pos < i < |keys| ensures Lt(c, key, keys[i]) {
      LtThrough(c, key, keys[pos], keys[i]);
    }
  }

  // ---- neighbours keep what they hold ----

  ghost predicate PairOk<K(!new), V>(c: Cmp<K>, p: Pair<K, V>, h: nat, held: Entries<K, V>)
  {
    Tree(c, p.left, h, MIN_KEYS) && Tree(c, p.right, h, MIN_KEYS) && Parted(c, p.left, p.key, p.right) && All(p.left) + All(p.right) == held
  }

  lemma TwinsAtHeight<K(!new), V>(c: Cmp<K>, l: Node<K, V>, r: Node<K, V>, h: nat, a: nat, b: nat)
    requires Tree(c, l, h, a) && Tree(c, r, h, b)
    ensures Twins(l, r) && (l.Leaf? <==> h == 0)
  {
  }

  /** The keys of two neighbouring leaves. */
  lemma JoinLeaves<K(!new), V>(c: Cmp<K>, l: Node<K, V>, s: K, r: Node<K, V>, a: nat, b: nat)
    requires Total(c) && Tree(c, l, 0, a) && Tree(c, r, 0, b) && Parted(c, l, s, r)
    ensures l.Leaf? && r.Leaf? && |l.keys| == |l.values| && |r.keys| == |r.values|
    ensures Increasing(c, l.keys + r.keys) && Zip(l.keys + r.keys, l.values + r.values) == All(l) + All(r)
  {
    hide Zip;
    ZipAppend(l.keys, l.values, r.keys, r.values);
    ZipParts(c, l.keys, l.values, s);
    ZipParts(c, r.keys, r.values, s);
    forall i, j | 0 <= i < |l.keys| && 0 <= j < |r.keys| ensures Lt(c, l.keys[i], r.keys[j]) {
      LtThrough(c, l.keys[i], s, r.keys[j]);
    }
  }

  /** The keys of two neighbours with children, and the key between them. */
  lemma JoinInternals<K(!new), V>(c: Cmp<K>, l: Node<K, V>, s: K, r: Node<K, V>, h: nat, a: nat, b: nat)
    requires Total(c) && h > 0 && Tree(c, l, h, a) && Tree(c, r, h, b) && Parted(c, l, s, r)
    ensures l.Internal? && r.Internal? && Chain(c, l.keys + [s] + r.keys, l.children + r.children, h - 1)
    ensures Flat(l.children + r.children) == All(l) + All(r)
  {
    hide Chain, Flat;
    IsChain(c, l, h, a);
    IsChain(c, r, h, b);
    JoinChain(c, l.keys, l.children, s, r.keys, r.children, h - 1);
  }

  lemma MoveRightOk<K(!new), V>(c: Cmp<K>, l: Node<K, V>, s: K, r: Node<K, V>, h: nat)
    requires Total(c) && Tree(c, l, h, MIN_KEYS + 1) && Tree(c, r, h, MIN_KEYS - 1) && |r.keys| < MIN_KEYS && Parted(c, l, s, r)
    ensures Twins(l, r) && PairOk(c, MoveRight(l, s, r), h, All(l) + All(r))
  {
    hide Parted, Zip, Flat, Chain, Increasing;
    TwinsAtHeight(c, l, r, h, MIN_KEYS + 1, MIN_KEYS - 1);
    var last := |l.keys| - 1;
    if h == 0 {
      JoinLeaves(c, l, s, r, MIN_KEYS + 1, MIN_KEYS - 1);
      CutLeaf(c, l.keys + r.keys, l.values + r.values, last);
      assert (l.keys + r.keys)[..last] == l.keys[..last] && (l.keys + r.keys)[last..] == [l.keys[last]] + r.keys;
      assert (l.values + r.values)[..last] == l.values[..last] && (l.values + r.values)[last..] == [l.values[last]] + r.values;
    } else {
      JoinInternals(c, l, s, r, h, MIN_KEYS + 1, MIN_KEYS - 1);
      var keys, children := l.keys + [s] + r.keys, l.children + r.children;
      CutInternal(c, keys, children, h, last);
      assert keys[..last] == l.keys[..last] && keys[last + 1..] == [s] + r.keys;
      assert children[..last + 1] == l.children[..last + 1] && children[last + 1..] == [l.children[last + 1]] + r.children;
    }
  }

  lemma MoveLeftOk<K(!new), V>(c: Cmp<K>, l: Node<K, V>, s: K, r: Node<K, V>, h: nat)
    requires Total(c) && Tree(c, l, h, MIN_KEYS - 1) && Tree(c, r, h, MIN_KEYS + 1) && |l.keys| < MIN_KEYS && Parted(c, l, s, r)
    ensures Twins(l, r) && PairOk(c, MoveLeft(l, s, r), h, All(l) + All(r))
  {
    hide Parted, Zip, Flat, Chain, Increasing;
    TwinsAtHeight(c, l, r, h, MIN_KEYS - 1, MIN_KEYS + 1);
    var m := |l.keys| + 1;
    if h == 0 {
      JoinLeaves(c, l, s, r, MIN_KEYS - 1, MIN_KEYS + 1);
      CutLeaf(c, l.keys + r.keys, l.values + r.values, m);
      assert (l.keys + r.keys)[..m] == l.keys + [r.keys[0]] && (l.keys + r.keys)[m..] == r.keys[1..];
      assert (l.values + r.values)[..m] == l.values + [r.values[0]] && (l.values + r.values)[m..] == r.values[1..];
    } else {
      JoinInternals(c, l, s, r, h, MIN_KEYS - 1, MIN_KEYS + 1);
      var keys, children := l.keys + [s] + r.keys, l.children + r.children;
      CutInternal(c, keys, children, h, m);
      assert keys[..m] == l.keys + [s] && keys[m + 1..] == r.keys[1..] && keys[m] == r.keys[0];
      assert children[..m + 1] == l.children + [r.children[0]] && children[m + 1..] == r.children[1..];
    }
  }

  lemma CutLeaf<K(!new), V>(c: Cmp<K>, keys: seq<K>, values: seq<V>, m: nat)
    requires Total(c) && Increasing(c, keys) && |keys| == |values| < ORDER + MIN_KEYS && MIN_KEYS <= m < ORDER && m + MIN_KEYS <= |keys|
    ensures PairOk(c, Pair(Leaf(keys[..m], values[..m]), keys[m], Leaf(keys[m..], values[m..])), 0, Zip(keys, values))
  {
    hide Zip, Parted;
    LeafCut(c, keys, values, m);
  }

  lemma CutInternal<K(!new), V>(c: Cmp<K>, keys: seq<K>, children: seq<Node<K, V>>, h: nat, m: nat)
    requires Total(c) && h > 0 && Chain(c, keys, children, h - 1) && MIN_KEYS <= m < ORDER && m + 1 + MIN_KEYS <= |keys| < ORDER + MIN_KEYS + 1
    ensures PairOk(c, Pair(Internal(keys[..m], children[..m + 1]), keys[m], Internal(keys[m + 1..], children[m + 1..])), h, Flat(children))
  {
    hide Chain, Flat, Parted;
    CutChain(c, keys, children, h - 1, m);
    PartedFlat(c, keys, children, m);
  }

  lemma MergeOk<K(!new), V>(c: Cmp<K>, l: Node<K, V>, s: K, r: Node<K, V>, h: nat)
    requires Total(c) && Tree(c, l, h, MIN_KEYS - 1) && Tree(c, r, h, MIN_KEYS - 1) && Parted(c, l, s, r)
    requires MIN_KEYS <= |l.keys| + |r.keys| < 2 * MIN_KEYS
    ensures Twins(l, r) && Tree(c, Merge(l, s, r), h, MIN_KEYS) && All(Merge(l, s, r)) == All(l) + All(r)
  {
    TwinsAtHeight(c, l, r, h, MIN_KEYS - 1, MIN_KEYS - 1);
    if h == 0 {
      JoinLeaves(c, l, s, r, MIN_KEYS - 1, MIN_KEYS - 1);
    } else {
      hide Chain, Flat;
      JoinInternals(c, l, s, r, h, MIN_KEYS - 1, MIN_KEYS - 1);
    }
  }

  // ---- the node above keeps its order ----

  ghost predicate PairRoom<K, V>(c: Cmp<K>, n: Node<K, V>, i: nat, s: Entries<K, V>)
    requires i < |n.keys|
  {
    (i > 0 ==> AllGe(c, s, n.keys[i - 1])) && (i + 1 < |n.keys| ==> AllLt(c, s, n.keys[i + 1]))
  }

  lemma SetPairOk<K(!new), V>(c: Cmp<K>, n: Node<K, V>, h: nat, i: nat, p: Pair<K, V>, held: Entries<K, V>)
    requires Total(c) && n.Internal? && Chain(c, n.keys, n.children, h) && i < |n.keys| && PairOk(c, p, h, held) && PairRoom(c, n, i, held)
    ensures var m := SetPair(n, i, p); Chain(c, m.keys, m.children, h) && |m.keys| == |n.keys|
    ensures Flat(SetPair(n, i, p).children) == Flat(n.children[..i]) + (held + Flat(n.children[i + 2..]))
  {
    hide Tree, Chain, Flat, Parted;
    AroundChain(c, n.keys, n.children, h, i, i + 1);
    TwoChain(c, p.left, p.key, p.right, h);
    Splice(c, n.keys, n.children, h, i, i + 1, [p.key], [p.left, p.right]);
    assert n.keys[..i] + ([p.key] + n.keys[i + 1..]) == n.keys[i := p.key];
    assert n.children[..i] + ([p.left, p.right] + n.children[i + 2..]) == n.children[i := p.left][i + 1 := p.right];
  }

  lemma SetMergedOk<K(!new), V>(c: Cmp<K>, n: Node<K, V>, h: nat, i: nat, m: Node<K, V>)
    requires Total(c) && n.Internal? && Chain(c, n.keys, n.children, h) && i < |n.keys| && Tree(c, m, h, MIN_KEYS) && PairRoom(c, n, i, All(m))
    ensures var r := SetMerged(n, i, m); Chain(c, r.keys, r.children, h) && |r.keys| == |n.keys| - 1
    ensures Flat(SetMerged(n, i, m).children) == Flat(n.children[..i]) + (All(m) + Flat(n.children[i + 2..]))
  {
    hide Tree, Chain, Flat;
    AroundChain(c, n.keys, n.children, h, i, i + 1);
    OneChain(c, m, h);
    Splice(c, n.keys, n.children, h, i, i + 1, [], [m]);
    assert n.keys[..i] + ([] + n.keys[i + 1..]) == EraseAt(n.keys, i);
    assert n.children[..i] + ([m] + n.children[i + 2..]) == EraseAt(n.children[i := m], i + 1);
  }

  lemma BothParts<K(!new), V>(c: Cmp<K>, a: Entries<K, V>, b: Entries<K, V>, k: K)
    ensures AllLt(c, a, k) && AllLt(c, b, k) ==> AllLt(c, a + b, k)
    ensures AllGe(c, a, k) && AllGe(c, b, k) ==> AllGe(c, a + b, k)
  {
  }

  lemma LtThroughAll<K(!new), V>(c: Cmp<K>, s: Entries<K, V>, a: K, b: K)
    requires Total(c) && AllLt(c, s, a) && Lt(c, a, b)
    ensures AllLt(c, s, b)
  {
    forall i | 0 <= i < |s| ensures Lt(c, s[i].0, b) {
      LtThrough(c, s[i].0, a, b);
    }
  }

  /** The child at `idx` and its left neighbour. */
  lemma LeftPair<K(!new), V>(c: Cmp<K>, n: Node<K, V>, h: nat, idx: nat, x: Node<K, V>)
    requires Total(c) && n.Internal? && Chain(c, n.keys, n.children, h) && 0 < idx < |n.children| && Room(c, n, idx, All(x))
    ensures Parted(c, n.children[idx - 1], n.keys[idx - 1], x) && PairRoom(c, n, idx - 1, All(n.children[idx - 1]) + All(x))
    ensures Flat(n.children[..idx]) + (All(x) + Flat(n.children[idx + 1..])) ==
            Flat(n.children[..idx - 1]) + ((All(n.children[idx - 1]) + All(x)) + Flat(n.children[idx + 1..]))
  {
    hide Tree, Flat, All;
    var i := idx - 1;
    var l := n.children[i];
    assert Parted(c, l, n.keys[i], n.children[i + 1]);
    if i > 0 {
      assert Parted(c, n.children[i - 1], n.keys[i - 1], l);
      KeysRise(c, n.keys, n.children, h, i - 1);
      GeThrough(c, All(x), n.keys[i - 1], n.keys[i]);
      BothParts(c, All(l), All(x), n.keys[i - 1]);
    }
    if i + 1 < |n.keys| {
      KeysRise(c, n.keys, n.children, h, i);
      LtThroughAll(c, All(l), n.keys[i], n.keys[i + 1]);
      BothParts(c, All(l), All(x), n.keys[i + 1]);
    }
    FlatFront(n.children, i);
    var a, b := Flat(n.children[..i]), Flat(n.children[idx + 1..]);
    Regroup(a, All(l), All(x) + b);
    Regroup(All(l), All(x), b);
  }

  /** The child at `idx` and its right neighbour. */
  lemma RightPair<K(!new), V>(c: Cmp<K>, n: Node<K, V>, h: nat, idx: nat, x: Node<K, V>)
    requires Total(c) && n.Internal? && Chain(c, n.keys, n.children, h) && idx < |n.keys| && Room(c, n, idx, All(x))
    ensures Parted(c, x, n.keys[idx], n.children[idx + 1]) && PairRoom(c, n, idx, All(x) + All(n.children[idx + 1]))
    ensures Flat(n.children[..idx]) + (All(x) + Flat(n.children[idx + 1..])) ==
            Flat(n.children[..idx]) + ((All(x) + All(n.children[idx + 1])) + Flat(n.children[idx + 2..]))
  {
    hide Tree, All;
    var r := n.children[idx + 1];
    assert Parted(c, n.children[idx], n.keys[idx], r);
    if idx > 0 {
      KeysRise(c, n.keys, n.children, h, idx - 1);
      GeThrough(c, All(r), n.keys[idx - 1], n.keys[idx]);
      BothParts(c, All(x), All(r), n.keys[idx - 1]);
    }
    if idx + 1 < |n.keys| {
      assert Parted(c, r, n.keys[idx + 1], n.children[idx + 2]);
      KeysRise(c, n.keys, n.children, h, idx);
      LtThroughAll(c, All(x), n.keys[idx], n.keys[idx + 1]);
      BothParts(c, All(x), All(r), n.keys[idx + 1]);
    }
    assert n.children[idx + 1..][0] == r && n.children[idx + 1..][1..] == n.children[idx + 2..];
    Regroup(All(x), All(r), Flat(n.children[idx + 2..]));
  }

  ghost predicate Rebalanced<K(!new), V>(c: Cmp<K>, n: Node<K, V>, h: nat, held: Entries<K, V>, b: Node<K, V>)
  {
    b.Internal? && Chain(c, b.keys, b.children, h) && |n.keys| - 1 <= |b.keys| <= |n.keys| && Flat(b.children) == held
  }

  lemma AlikeNow<K(!new), V>(c: Cmp<K>, n: Node<K, V>, h: nat, idx: nat, x: Node<K, V>)
    requires n.Internal? && Chain(c, n.keys, n.children, h) && idx < |n.children| && Tree(c, x, h, MIN_KEYS - 1)
    ensures Alike(n.(children := n.children[idx := x]))
  {
    hide Twins;
    var m := n.(children := n.children[idx := x]);
    forall i | 0 <= i < |n.keys| ensures Twins(m.children[i], m.children[i + 1]) {
      var a, b := if i == idx then MIN_KEYS - 1 else MIN_KEYS, if i + 1 == idx then MIN_KEYS - 1 else MIN_KEYS;
      TwinsAtHeight(c, m.children[i], m.children[i + 1], h, a, b);
    }
  }

  lemma FromLeft<K(!new), V>(c: Cmp<K>, n: Node<K, V>, h: nat, idx: nat, x: Node<K, V>)
    requires Total(c) && n.Internal? && Chain(c, n.keys, n.children, h) && 0 < idx < |n.children| && Room(c, n, idx, All(x))
    requires Tree(c, n.children[idx - 1], h, MIN_KEYS) && Tree(c, x, h, MIN_KEYS - 1) && |x.keys| < MIN_KEYS
    requires Alike(n.(children := n.children[idx := x]))
    ensures var m := n.(children := n.children[idx := x]); var held := Flat(n.children[..idx]) + (All(x) + Flat(n.children[idx + 1..]));
      Rebalanced(c, n, h, held, if |n.children[idx - 1].keys| > MIN_KEYS then BorrowFromLeft(m, idx) else MergeAt(m, idx - 1))
  {
    hide Tree, Chain, Flat, All, Parted, Room, Alike, MoveRight, Merge;
    var i := idx - 1;
    var m, l := n.(children := n.children[idx := x]), n.children[i];
    assert m.children[i] == l && m.children[i + 1] == x && m.keys == n.keys;
    LeftPair(c, n, h, idx, x);
    if |l.keys| > MIN_KEYS {
      WeakerMin(c, l, h, MIN_KEYS, MIN_KEYS + 1);
      MoveRightOk(c, l, n.keys[i], x, h);
      var p := MoveRight(l, n.keys[i], x);
      SetPairOk(c, n, h, i, p, All(l) + All(x));
      assert m.children[i := p.left][i + 1 := p.right] == n.children[i := p.left][i + 1 := p.right];
    } else {
      KeyCount(c, l, h, MIN_KEYS);
      KeyCount(c, x, h, MIN_KEYS - 1);
      WeakerMin(c, l, h, MIN_KEYS, MIN_KEYS - 1);
      MergeOk(c, l, n.keys[i], x, h);
      var one := Merge(l, n.keys[i], x);
      SetMergedOk(c, n, h, i, one);
      assert EraseAt(m.children[i := one], i + 1) == EraseAt(n.children[i := one], i + 1);
    }
  }

  lemma FromRight<K(!new), V>(c: Cmp<K>, n: Node<K, V>, h: nat, idx: nat, x: Node<K, V>)
    requires Total(c) && n.Internal? && Chain(c, n.keys, n.children, h) && idx < |n.keys| && Room(c, n, idx, All(x))
    requires Tree(c, n.children[idx + 1], h, MIN_KEYS) && Tree(c, x, h, MIN_KEYS - 1) && |x.keys| < MIN_KEYS
    requires Alike(n.(children := n.children[idx := x]))
    ensures var m := n.(children := n.children[idx := x]); var held := Flat(n.children[..idx]) + (All(x) + Flat(n.children[idx + 1..]));
      Rebalanced(c, n, h, held, if |n.children[idx + 1].keys| > MIN_KEYS then BorrowFromRight(m, idx) else MergeAt(m, idx))
  {
    hide Tree, Chain, Flat, All, Parted, Room, Alike, MoveLeft, Merge;
    var m, r := n.(children := n.children[idx := x]), n.children[idx + 1];
    assert m.children[idx] == x && m.children[idx + 1] == r && m.keys == n.keys;
    RightPair(c, n, h, idx, x);
    if |r.keys| > MIN_KEYS {
      WeakerMin(c, r, h, MIN_KEYS, MIN_KEYS + 1);
      MoveLeftOk(c, x, n.keys[idx], r, h);
      var p := MoveLeft(x, n.keys[idx], r);
      SetPairOk(c, n, h, idx, p, All(x) + All(r));
      assert m.children[idx := p.left][idx + 1 := p.right] == n.children[idx := p.left][idx + 1 := p.right];
    } else {
      KeyCount(c, r, h, MIN_KEYS);
      KeyCount(c, x, h, MIN_KEYS - 1);
      WeakerMin(c, r, h, MIN_KEYS, MIN_KEYS - 1);
      MergeOk(c, x, n.keys[idx], r, h);
      var one := Merge(x, n.keys[idx], r);
      SetMergedOk(c, n, h, idx, one);
      assert EraseAt(m.children[idx := one], idx + 1) == EraseAt(n.children[idx := one], idx + 1);
    }
  }

  lemma KeyCount<K(!new), V>(c: Cmp<K>, n: Node<K, V>, h: nat, min: nat)
    requires Tree(c, n, h, min)
    ensures min <= |n.keys| < ORDER
  {
  }

  /** The smaller child is filled up or joined; nothing is lost. */
  lemma RebalanceOk<K(!new), V>(c: Cmp<K>, n: Node<K, V>, h: nat, idx: nat, x: Node<K, V>)
    requires Total(c) && n.Internal? && n.keys != [] && Chain(c, n.keys, n.children, h) && idx < |n.children| && Room(c, n, idx, All(x))
    requires Tree(c, x, h, MIN_KEYS - 1) && |x.keys| < MIN_KEYS && Alike(n.(children := n.children[idx := x]))
    ensures var held := Flat(n.children[..idx]) + (All(x) + Flat(n.children[idx + 1..]));
      Rebalanced(c, n, h, held, RebalanceChild(n.(children := n.children[idx := x]), idx))
  {
    assert idx > 0 ==> Tree(c, n.children[idx - 1], h, MIN_KEYS);
    assert idx + 1 < |n.children| ==> Tree(c, n.children[idx + 1], h, MIN_KEYS);
    hide Tree, Chain, Flat, All, Room, Alike, Rebalanced, BorrowFromLeft, BorrowFromRight, MergeAt;
    if idx > 0 {
      FromLeft(c, n, h, idx, x);
    }
    if idx < |n.keys| {
      FromRight(c, n, h, idx, x);
    }
  }

  lemma {:induction false} DropBounds<K(!new), V>(c: Cmp<K>, s: Entries<K, V>, key: K, b: K)
    ensures AllLt(c, s, b) ==> AllLt(c, Drop(c, s, key), b)
    ensures AllGe(c, s, b) ==> AllGe(c, Drop(c, s, key), b)
  {
    if s != [] {
      DropBounds(c, s[1..], key, b);
    }
  }

  lemma DropRoom<K(!new), V>(c: Cmp<K>, n: Node<K, V>, h: nat, idx: nat, key: K)
    requires n.Internal? && Chain(c, n.keys, n.children, h) && idx < |n.children|
    ensures Room(c, n, idx, Drop(c, All(n.children[idx]), key))
  {
    hide Tree, Drop;
    if idx > 0 {
      assert Parted(c, n.children[idx - 1], n.keys[idx - 1], n.children[idx]);
      DropBounds(c, All(n.children[idx]), key, n.keys[idx - 1]);
    }
    if idx < |n.keys| {
      assert Parted(c, n.children[idx], n.keys[idx], n.children[idx + 1]);
      DropBounds(c, All(n.children[idx]), key, n.keys[idx]);
    }
  }

  lemma InternalRemoveOk<K(!new), V>(c: Cmp<K>, n: Node<K, V>, key: K, h: nat, min: nat, x: Node<K, V>)
    requires Total(c) && n.Internal? && Tree(c, n, h, min) && 1 <= min <= MIN_KEYS
    requires All(x) == Drop(c, All(n.children[ChildFor(c, n, key)]), key) && Tree(c, x, h - 1, MIN_KEYS - 1)
    ensures Alike(n.(children := n.children[ChildFor(c, n, key) := x]))
    ensures RemoveOk(c, n, key, h, min, Some(Settle(n, ChildFor(c, n, key), x)))
  {
    hide Tree, Chain, Flat, All, Alike, Drop, RebalanceChild, FirstGreater;
    var idx := ChildFor(c, n, key);
    IsChain(c, n, h, min);
    PathParts(c, n, h, min, key);
    var a, b := Flat(n.children[..idx]), Flat(n.children[idx + 1..]);
    DropMiddle(c, a, All(n.children[idx]), b, key);
    DropRoom(c, n, h - 1, idx, key);
    AlikeNow(c, n, h - 1, idx, x);
    var m := n.(children := n.children[idx := x]);
    if |x.keys| < MIN_KEYS {
      RebalanceOk(c, n, h - 1, idx, x);
      SettledOk(c, n, h, min, a + (All(x) + b), RebalanceChild(m, idx));
    } else {
      WeakerMin(c, x, h - 1, MIN_KEYS - 1, MIN_KEYS);
      ReplaceOne(c, n, h - 1, idx, x);
      SettledOk(c, n, h, min, a + (All(x) + b), m);
    }
  }

  lemma SettledOk<K(!new), V>(c: Cmp<K>, n: Node<K, V>, h: nat, min: nat, held: Entries<K, V>, b: Node<K, V>)
    requires h > 0 && 1 <= min <= |n.keys| < ORDER && Rebalanced(c, n, h - 1, held, b)
    ensures var r := if |b.children| == 1 then b.children[0] else b; All(r) == held && Shrunk(c, r, h, min)
  {
    if |b.children| == 1 {
      assert b.children == [b.children[0]];
      FlatOne(b.children[0]);
      assert Tree(c, b.children[0], h - 1, MIN_KEYS);
      WeakerMin(c, b.children[0], h - 1, MIN_KEYS, 1);
    }
  }
}
