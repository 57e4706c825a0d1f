/** Insertion into the index: the entry goes into its leaf, nodes that become too full are cut in two on the way back. */
module BTreeInsert {
  import opened Common
  import opened Assoc
  import opened BTree

  datatype Split<K, V> = Split(key: K, right: Node<K, V>)
  datatype Inserted<K, V> = Inserted(node: Node<K, V>, split: Option<Split<K, V>>)

  /** A node that has become too full is cut in two. */
  function Overflow<K, V>(n: Node<K, V>): Inserted<K, V>
    requires |n.keys| <= ORDER && (n.Internal? ==> |n.children| == |n.keys| + 1) && (n.Leaf? ==> |n.values| == |n.keys|)
  {
    if |n.keys| < ORDER then Inserted(n, None)
    else
      var mid := |n.keys| / 2;
      match n
      case Leaf(keys, values) => Inserted(Leaf(keys[..mid], values[..mid]), Some(Split(keys[mid], Leaf(keys[mid..], values[mid..]))))
      case Internal(keys, children) =>
        Inserted(Internal(keys[..mid], children[..mid + 1]), Some(Split(keys[mid], Internal(keys[mid + 1..], children[mid + 1..]))))
  }

  function LeafInsert<K, V>(c: Cmp<K>, n: Node<K, V>, key: K, value: V): Node<K, V>
    requires n.Leaf? && |n.keys| == |n.values|
  {
    var pos := FirstGeq(c, n.keys, key);
    if pos < |n.keys| && c(n.keys[pos], key) == 0 then n.(values := n.values[pos := value])
    else Leaf(InsertAt(n.keys, pos, key), InsertAt(n.values, pos, value))
  }

  /** `insert_node` */
  method InsertNode<K(!new), V>(c: Cmp<K>, n: Node<K, V>, key: K, value: V, ghost h: nat, ghost min: nat) returns (r: Inserted<K, V>)
    requires Total(c) && Tree(c, n, h, min) && min <= MIN_KEYS
    ensures InsertOk(c, n, key, value, h, min, r)
    decreases h
  {
    if n.Leaf? {
      LeafInsertOk(c, n, key, value, min);
      r := Overflow(LeafInsert(c, n, key, value));
    } else {
      var idx := ChildFor(c, n, key);
      ChildIsTree(c, n, h, min, idx);
      var child := InsertNode(c, n.children[idx], key, value, h - 1, MIN_KEYS);
      InternalInsertOk(c, n, key, value, h, min, child);
      r := Overflow(Attach(c, n, idx, child));
    }
  }

  /** The node with the child at `idx` replaced, and a new child behind it if that one was cut in two. */
  function Attach<K, V>(c: Cmp<K>, n: Node<K, V>, idx: nat, child: Inserted<K, V>): Node<K, V>
    requires n.Internal? && idx < |n.children| == |n.keys| + 1
  {
    var children := n.children[idx := child.node];
    match child.split
    case None => n.(children := children)
    case Some(s) =>
      var pos := FirstGeq(c, n.keys, s.key);
      Internal(InsertAt(n.keys, pos, s.key), InsertAt(children, pos + 1, s.right))
  }

  ghost predicate InsertOk<K(!new), V>(c: Cmp<K>, n: Node<K, V>, key: K, value: V, h: nat, min: nat, r: Inserted<K, V>)
  {
    match r.split
    case None => Tree(c, r.node, h, min) && All(r.node) == Put(c, All(n), key, value)
    case Some(s) =>
      && Tree(c, r.node, h, MIN_KEYS) && Tree(c, s.right, h, MIN_KEYS) && Parted(c, r.node, s.key, s.right)
      && All(r.node) + All(s.right) == Put(c, All(n), key, value)
  }

  // ---- leaves ----

  /** A leaf cut at `m`. */
  lemma LeafCut<K(!new), V>(c: Cmp<K>, keys: seq<K>, values: seq<V>, m: nat)
    requires Total(c) && Increasing(c, keys) && |keys| == |values| && m < |keys|
    ensures var l, r := Leaf(keys[..m], values[..m]), Leaf(keys[m..], values[m..]);
      Parted(c, l, keys[m], r) && All(l) + All(r) == Zip(keys, values) && Increasing(c, l.keys) && Increasing(c, r.keys)
  {
    assert keys == keys[..m] + keys[m..] && values == values[..m] + values[m..];
    ZipAppend(keys[..m], values[..m], keys[m..], values[m..]);
    forall i | m <= i < |keys| ensures !Lt(c, keys[i], keys[m]) {
      assert i > m ==> Lt(c, keys[m], keys[i]);
    }
  }

  lemma LeafPutNew<K(!new), V>(c: Cmp<K>, n: Node<K, V>, key: K, value: V)
    requires Total(c) && n.Leaf? && |n.keys| == |n.values| && Increasing(c, n.keys)
    requires var pos := FirstGeq(c, n.keys, key); pos == |n.keys| || c(n.keys[pos], key) != 0
    ensures var m := LeafInsert(c, n, key, value); All(m) == Put(c, All(n), key, value) && Increasing(c, m.keys) && |m.keys| == |n.keys| + 1
  {
    hide Zip;
    var pos := FirstGeq(c, n.keys, key);
    var a, b := Zip(n.keys[..pos], n.values[..pos]), Zip(n.keys[pos..], n.values[pos..]);
    forall i | pos <= i < |n.keys| ensures Lt(c, key, n.keys[i]) {
      LtThrough(c, key, n.keys[pos], n.keys[i]);
    }
    ZipAt(n.keys, n.values, pos);
    ZipParts(c, n.keys[..pos], n.values[..pos], key);
    ZipParts(c, n.keys[pos..], n.values[pos..], key);
    PutMiddle(c, a, [], b, key, value);
    assert Put(c, [], key, value) == [(key, value)] && [] + b == b;
    InsertedZip(n.keys, n.values, pos, key, value);
    InsertedIncreasing(c, n.keys, pos, key);
  }

  lemma InsertedZip<K, V>(keys: seq<K>, values: seq<V>, pos: nat, key: K, value: V)
    requires |keys| == |values| && pos <= |keys|
    ensures Zip(InsertAt(keys, pos, key), InsertAt(values, pos, value)) == Zip(keys[..pos], values[..pos]) + ([(key, value)] + Zip(keys[pos..], values[pos..]))
  {
  }

  lemma InsertedIncreasing<K(!new)>(c: Cmp<K>, keys: seq<K>, pos: nat, key: K)
    requires Increasing(c, keys) && pos <= |keys|
    requires (forall i :: 0 <= i < pos ==> Lt(c, keys[i], key)) && forall i :: pos <= i < |keys| ==> Lt(c, key, keys[i])
    ensures Increasing(c, InsertAt(keys, pos, key))
  {
  }

  lemma LeafPutOld<K(!new), V>(c: Cmp<K>, n: Node<K, V>, key: K, value: V)
    requires Total(c) && n.Leaf? && |n.keys| == |n.values| && Increasing(c, n.keys)
    requires var pos := FirstGeq(c, n.keys, key); pos < |n.keys| && c(n.keys[pos], key) == 0
    ensures var m := LeafInsert(c, n, key, value); All(m) == Put(c, All(n), key, value) && m.keys == n.keys
  {
    hide Zip;
    var pos := FirstGeq(c, n.keys, key);
    var a, b := Zip(n.keys[..pos], n.values[..pos]), Zip(n.keys[pos + 1..], n.values[pos + 1..]);
    forall i | pos < i < |n.keys| ensures Lt(c, key, n.keys[i]) {
      LtThrough(c, key, n.keys[pos], n.keys[i]);
    }
    var x, y := [(n.keys[pos], n.values[pos])], [(n.keys[pos], value)];
    ZipAt(n.keys, n.values, pos);
    ZipParts(c, n.keys[..pos], n.values[..pos], key);
    ZipParts(c, n.keys[pos + 1..], n.values[pos + 1..], key);
    PutMiddle(c, a, x, b, key, value);
    assert Put(c, x, key, value) == y + x[1..] == y;
    ReplacedZip(n.keys, n.values, pos, value);
  }

  lemma ReplacedZip<K, V>(keys: seq<K>, values: seq<V>, pos: nat, value: V)
    requires |keys| == |values| && pos < |keys|
    ensures Zip(keys, values[pos := value]) == Zip(keys[..pos], values[..pos]) + ([(keys[pos], value)] + Zip(keys[pos + 1..], values[pos + 1..]))
  {
  }

  lemma LeafInsertOk<K(!new), V>(c: Cmp<K>, n: Node<K, V>, key: K, value: V, min: nat)
    requires Total(c) && n.Leaf? && Tree(c, n, 0, min) && min <= MIN_KEYS
    ensures InsertOk(c, n, key, value, 0, min, Overflow(LeafInsert(c, n, key, value)))
  {
    var pos := FirstGeq(c, n.keys, key);
    if pos < |n.keys| && c(n.keys[pos], key) == 0 {
      LeafPutOld(c, n, key, value);
    } else {
      LeafPutNew(c, n, key, value);
    }
    hide Put, Increasing, Zip, Parted, LeafInsert;
    var m := LeafInsert(c, n, key, value);
    if |m.keys| == ORDER {
      LeafCut(c, m.keys, m.values, ORDER / 2);
    }
  }

  // ---- internal nodes ----

  lemma {:induction false} PutBounds<K(!new), V>(c: Cmp<K>, s: Entries<K, V>, key: K, value: V, b: K)
    requires Total(c)
    ensures AllLt(c, s, b) && Lt(c, key, b) ==> AllLt(c, Put(c, s, key, value), b)
    ensures AllGe(c, s, b) && !Lt(c, key, b) ==> AllGe(c, Put(c, s, key, value), b)
  {
    if s != [] {
      PutBounds(c, s[1..], key, value, b);
    }
  }

  /** The child for a key keeps between the keys around it. */
  lemma ChildBounds<K(!new), V>(c: Cmp<K>, n: Node<K, V>, h: nat, min: nat, key: K, value: V)
    requires Total(c) && n.Internal? && Tree(c, n, h, min)
    ensures var i := ChildFor(c, n, key); var put := Put(c, All(n.children[i]), key, value);
      Room(c, n, i, put)
  {
    var i := ChildFor(c, n, key);
    if i > 0 {
      assert Parted(c, n.children[i - 1], n.keys[i - 1], n.children[i]);
      PutBounds(c, All(n.children[i]), key, value, n.keys[i - 1]);
    }
    if i < |n.keys| {
      assert Parted(c, n.children[i], n.keys[i], n.children[i + 1]);
      PutBounds(c, All(n.children[i]), key, value, n.keys[i]);
    }
  }

  lemma {:induction false} FirstGeqIs<K>(c: Cmp<K>, keys: seq<K>, key: K, i: nat)
    requires i <= |keys| && (forall j :: 0 <= j < i ==> Lt(c, keys[j], key)) && (i < |keys| ==> !Lt(c, keys[i], key))
    ensures FirstGeq(c, keys, key) == i
  {
    if i > 0 {
      assert forall j :: 0 <= j < i - 1 ==> keys[1..][j] == keys[j + 1];
      FirstGeqIs(c, keys[1..], key, i - 1);
    }
  }

  /** A child that was cut in two comes back with the key between the halves, and that key goes where the child stood. */
  lemma PlaceOfKey<K(!new), V>(c: Cmp<K>, n: Node<K, V>, h: nat, idx: nat, l: Node<K, V>, k: K, r: Node<K, V>)
    requires Total(c) && n.Internal? && Chain(c, n.keys, n.children, h) && idx < |n.children| && Parted(c, l, k, r) && All(l) != [] && All(r) != []
    requires idx > 0 ==> AllGe(c, All(l), n.keys[idx - 1])
    requires idx < |n.keys| ==> AllLt(c, All(r), n.keys[idx])
    ensures FirstGeq(c, n.keys, k) == idx
  {
    hide Chain, FirstGeq, Flat, All;
    assert Lt(c, All(l)[0].0, k) && !Lt(c, All(r)[0].0, k);
    forall j | 0 <= j < idx ensures Lt(c, n.keys[j], k) {
      KeyBelow(c, n, h, idx, All(l)[0].0, k, j);
    }
    if idx < |n.keys| {
      LtThrough(c, k, All(r)[0].0, n.keys[idx]);
    }
    FirstGeqIs(c, n.keys, k, idx);
  }

  lemma KeyBelow<K(!new), V>(c: Cmp<K>, n: Node<K, V>, h: nat, idx: nat, e: K, k: K, j: nat)
    requires Total(c) && n.Internal? && Chain(c, n.keys, n.children, h) && j < idx < |n.children|
    requires !Lt(c, e, n.keys[idx - 1]) && Lt(c, e, k)
    ensures Lt(c, n.keys[j], k)
  {
    hide Chain;
    LtThrough(c, n.keys[idx - 1], e, k);
    if j < idx - 1 {
      Within(c, n.keys, n.children, h, j + 1, idx - 1);
      LtThrough(c, n.keys[j], n.keys[idx - 1], k);
    }
  }

  ghost predicate Room<K, V>(c: Cmp<K>, n: Node<K, V>, idx: nat, s: Entries<K, V>)
    requires idx <= |n.keys|
  {
    (idx > 0 ==> AllGe(c, s, n.keys[idx - 1])) && (idx < |n.keys| ==> AllLt(c, s, n.keys[idx]))
  }

  /** A child replaced by another with room for it. */
  lemma ReplaceOne<K(!new), V>(c: Cmp<K>, n: Node<K, V>, h: nat, idx: nat, x: Node<K, V>)
    requires Total(c) && n.Internal? && Chain(c, n.keys, n.children, h) && idx < |n.children|
    requires Tree(c, x, h, MIN_KEYS) && Room(c, n, idx, All(x))
    ensures Chain(c, n.keys, n.children[idx := x], h)
    ensures Flat(n.children[idx := x]) == Flat(n.children[..idx]) + (All(x) + Flat(n.children[idx + 1..]))
  {
    hide Tree, Chain, Flat;
    AroundChain(c, n.keys, n.children, h, idx, idx);
    OneChain(c, x, h);
    Splice(c, n.keys, n.children, h, idx, idx, [], [x]);
    assert n.keys[..idx] + ([] + n.keys[idx..]) == n.keys;
    assert n.children[..idx] + ([x] + n.children[idx + 1..]) == n.children[idx := x];
  }

  /** A child replaced by two with a key between them. */
  lemma ReplaceTwo<K(!new), V>(c: Cmp<K>, n: Node<K, V>, h: nat, idx: nat, l: Node<K, V>, k: K, r: Node<K, V>)
    requires Total(c) && n.Internal? && Chain(c, n.keys, n.children, h) && idx < |n.children|
    requires Tree(c, l, h, MIN_KEYS) && Tree(c, r, h, MIN_KEYS) && Parted(c, l, k, r) && Room(c, n, idx, All(l) + All(r))
    ensures FirstGeq(c, n.keys, k) == idx
    ensures var children := InsertAt(n.children[idx := l], idx + 1, r);
      Chain(c, InsertAt(n.keys, idx, k), children, h)
      && Flat(children) == Flat(n.children[..idx]) + ((All(l) + All(r)) + Flat(n.children[idx + 1..]))
  {
    hide Tree, Chain, Flat, Parted;
    AroundChain(c, n.keys, n.children, h, idx, idx);
    TwoChain(c, l, k, r, h);
    PartBounds(c, n, idx, All(l), All(r));
    PlaceOfKey(c, n, h, idx, l, k, r);
    Splice(c, n.keys, n.children, h, idx, idx, [k], [l, r]);
    assert n.keys[..idx] + ([k] + n.keys[idx..]) == InsertAt(n.keys, idx, k);
    assert n.children[..idx] + ([l, r] + n.children[idx + 1..]) == InsertAt(n.children[idx := l], idx + 1, r);
  }

  lemma PartBounds<K(!new), V>(c: Cmp<K>, n: Node<K, V>, idx: nat, l: Entries<K, V>, r: Entries<K, V>)
    requires idx <= |n.keys| && Room(c, n, idx, l + r)
    ensures idx > 0 ==> AllGe(c, l, n.keys[idx - 1])
    ensures idx < |n.keys| ==> AllLt(c, r, n.keys[idx])
  {
    assert forall i :: 0 <= i < |l| ==> l[i] == (l + r)[i];
    assert forall i :: 0 <= i < |r| ==> r[i] == (l + r)[|l| + i];
  }

  /** The node with its new child or children is in order, and holds the entry. */
  lemma AttachOk<K(!new), V>(c: Cmp<K>, n: Node<K, V>, key: K, value: V, h: nat, min: nat, child: Inserted<K, V>)
    requires Total(c) && n.Internal? && Tree(c, n, h, min)
    requires InsertOk(c, n.children[ChildFor(c, n, key)], key, value, h - 1, MIN_KEYS, child)
    ensures var m := Attach(c, n, ChildFor(c, n, key), child);
      m.Internal? && Chain(c, m.keys, m.children, h - 1) && |n.keys| <= |m.keys| <= |n.keys| + 1 && Flat(m.children) == Put(c, All(n), key, value)
  {
    hide Tree, Chain, Parted, Put, Flat, FirstGreater, FirstGeq;
    var idx := ChildFor(c, n, key);
    IsChain(c, n, h, min);
    PathParts(c, n, h, min, key);
    ChildBounds(c, n, h, min, key, value);
    PutMiddle(c, Flat(n.children[..idx]), All(n.children[idx]), Flat(n.children[idx + 1..]), key, value);
    match child.split
    case None => ReplaceOne(c, n, h - 1, idx, child.node);
    case Some(s) => ReplaceTwo(c, n, h - 1, idx, child.node, s.key, s.right);
  }

  lemma InternalInsertOk<K(!new), V>(c: Cmp<K>, n: Node<K, V>, key: K, value: V, h: nat, min: nat, child: Inserted<K, V>)
    requires Total(c) && n.Internal? && Tree(c, n, h, min) && min <= MIN_KEYS
    requires InsertOk(c, n.children[ChildFor(c, n, key)], key, value, h - 1, MIN_KEYS, child)
    ensures var m := Attach(c, n, ChildFor(c, n, key), child);
      m.Internal? && |m.children| == |m.keys| + 1 <= ORDER + 1 && InsertOk(c, n, key, value, h, min, Overflow(m))
  {
    AttachOk(c, n, key, value, h, min, child);
    IsChain(c, n, h, min);
    OverflowOk(c, n, key, value, h, min, Attach(c, n, ChildFor(c, n, key), child));
  }

  lemma OverflowOk<K(!new), V>(c: Cmp<K>, n: Node<K, V>, key: K, value: V, h: nat, min: nat, m: Node<K, V>)
    requires Total(c) && h > 0 && m.Internal? && Chain(c, m.keys, m.children, h - 1) && min <= |m.keys| <= ORDER && min <= MIN_KEYS
    requires Flat(m.children) == Put(c, All(n), key, value)
    ensures InsertOk(c, n, key, value, h, min, Overflow(m))
  {
    hide Put, Flat, Chain, Parted;
    if |m.keys| == ORDER {
      CutChain(c, m.keys, m.children, h - 1, ORDER / 2);
      PartedFlat(c, m.keys, m.children, ORDER / 2);
    }
  }

  lemma PartedFlat<K(!new), V>(c: Cmp<K>, keys: seq<K>, children: seq<Node<K, V>>, m: nat)
    requires |children| == |keys| + 1 && m < |keys|
    requires AllLt(c, Flat(children[..m + 1]), keys[m]) && AllGe(c, Flat(children[m + 1..]), keys[m])
    ensures Parted(c, Internal(keys[..m], children[..m + 1]), keys[m], Internal(keys[m + 1..], children[m + 1..]))
  {
  }
}
