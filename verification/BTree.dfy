/** The index of the engine: a B+Tree of order 16, for any total preorder of its keys. */
module BTree {
  import opened Common
  import opened Assoc

  const ORDER := 16
  const MIN_KEYS := ORDER / 2 - 1

  datatype Node<K, V> =
    | Leaf(keys: seq<K>, values: seq<V>)
    | Internal(keys: seq<K>, children: seq<Node<K, V>>)

  // ---- what a tree holds ----

  function Smaller(a: nat, b: nat): nat { if a < b then a else b }

  ghost function Zip<K, V>(keys: seq<K>, values: seq<V>): (s: Entries<K, V>)
    ensures |s| == Smaller(|keys|, |values|)
  {
    seq(Smaller(|keys|, |values|), i requires 0 <= i < |keys| && i < |values| => (keys[i], values[i]))
  }

  /** The entries of the leaves, from left to right. */
  ghost function All<K, V>(n: Node<K, V>): Entries<K, V>
    decreases n, 0
  {
    match n
    case Leaf(keys, values) => Zip(keys, values)
    case Internal(_, children) => Flat(children)
  }

  ghost function Flat<K, V>(ns: seq<Node<K, V>>): Entries<K, V>
    decreases ns, 1
  {
    if ns == [] then [] else All(ns[0]) + Flat(ns[1..])
  }

  ghost predicate Increasing<K>(c: Cmp<K>, keys: seq<K>) { forall i, j :: 0 <= i < j < |keys| ==> Lt(c, keys[i], keys[j]) }

  /** A tree of height `h`: keys in order, each between what stands left and right of it, every leaf at the same depth, no node too full, and none but the
      topmost with fewer than MIN_KEYS keys; that one has at least `min`. */
  ghost predicate Tree<K(!new), V>(c: Cmp<K>, n: Node<K, V>, h: nat, min: nat)
    ensures Tree(c, n, h, min) && n.Internal? ==> h > 0 && |n.children| == |n.keys| + 1
    decreases h, 1
  {
    && min <= |n.keys| < ORDER
    && match n
       case Leaf(keys, values) => h == 0 && |keys| == |values| && Increasing(c, keys)
       case Internal(keys, children) => h > 0 && Chain(c, keys, children, h - 1)
  }

  /** Children and the keys between them. */
  ghost predicate Chain<K(!new), V>(c: Cmp<K>, keys: seq<K>, children: seq<Node<K, V>>, h: nat)
    ensures Chain(c, keys, children, h) ==> |children| == |keys| + 1
    decreases h, 2
  {
    && |children| == |keys| + 1
    && (forall i :: 0 <= i < |children| ==> Tree(c, children[i], h, MIN_KEYS))
    && (forall i :: 0 <= i < |keys| ==> Parted(c, children[i], keys[i], children[i + 1]))
  }

  ghost predicate Parted<K, V>(c: Cmp<K>, l: Node<K, V>, k: K, r: Node<K, V>) { AllLt(c, All(l), k) && AllGe(c, All(r), k) }

  // ---- operations ----

  /** The first place whose key is greater. */
  function FirstGreater<K>(c: Cmp<K>, keys: seq<K>, key: K): (i: nat)
    ensures i <= |keys| && (forall j :: 0 <= j < i ==> c(keys[j], key) <= 0) && (i < |keys| ==> c(keys[i], key) > 0)
  {
    if keys == [] || c(keys[0], key) > 0 then 0 else 1 + FirstGreater(c, keys[1..], key)
  }

  function FirstGeq<K>(c: Cmp<K>, keys: seq<K>, key: K): (i: nat)
    ensures i <= |keys| && (forall j :: 0 <= j < i ==> Lt(c, keys[j], key)) && (i < |keys| ==> !Lt(c, keys[i], key))
  {
    if keys == [] || !Lt(c, keys[0], key) then 0 else 1 + FirstGeq(c, keys[1..], key)
  }

  ghost predicate SplitsAt<K>(keys: seq<K>, left: K -> bool, i: nat)
  {
    i <= |keys| && (forall j :: 0 <= j < i ==> left(keys[j])) && forall j :: i <= j < |keys| ==> !left(keys[j])
  }

  /** Where the keys rise, these are the partition points, which the library finds by halving: left of them every key meets the condition, from them on
      none does, and no other place is like that. */
  lemma ArePartitionPoints<K(!new)>(c: Cmp<K>, keys: seq<K>, key: K, i: nat)
    requires Total(c) && Increasing(c, keys)
    ensures SplitsAt(keys, k => c(k, key) <= 0, i) <==> i == FirstGreater(c, keys, key)
    ensures SplitsAt(keys, k => c(k, key) < 0, i) <==> i == FirstGeq(c, keys, key)
  {
    hide FirstGreater, FirstGeq;
    var g, e := FirstGreater(c, keys, key), FirstGeq(c, keys, key);
    forall j | g < j < |keys| ensures c(keys[j], key) > 0 {
      LtThrough(c, key, keys[g], keys[j]);
    }
    forall j | e < j < |keys| ensures c(keys[j], key) >= 0 {
      LtThrough(c, keys[j], key, keys[e]);
      LtThrough(c, keys[e], keys[j], key);
    }
    SplitsOnce(keys, k => c(k, key) <= 0, g, i);
    SplitsOnce(keys, k => c(k, key) < 0, e, i);
  }

  lemma SplitsOnce<K>(keys: seq<K>, left: K -> bool, i: nat, j: nat)
    requires SplitsAt(keys, left, i)
    ensures SplitsAt(keys, left, j) <==> j == i
  {
    if j < i {
      assert left(keys[j]);
    } else if i < j <= |keys| {
      assert !left(keys[i]);
    }
  }

  function InsertAt<T>(s: seq<T>, i: nat, x: T): seq<T>
    requires i <= |s|
  {
    s[..i] + [x] + s[i..]
  }

  function EraseAt<T>(s: seq<T>, i: nat): seq<T>
    requires i < |s|
  {
    s[..i] + s[i + 1..]
  }

  // ---- sequences of nodes ----

  lemma {:induction false} FlatAppend<K, V>(a: seq<Node<K, V>>, b: seq<Node<K, V>>)
    ensures Flat(a + b) == Flat(a) + Flat(b)
  {
    if a == [] {
      assert a + b == b;
    } else {
      assert (a + b)[1..] == a[1..] + b && (a + b)[0] == a[0];
      FlatAppend(a[1..], b);
      Regroup(All(a[0]), Flat(a[1..]), Flat(b));
    }
  }

  lemma FlatOne<K, V>(n: Node<K, V>)
    ensures Flat([n]) == All(n)
  {
    assert Flat([n][1..]) == [];
  }

  lemma FlatAt<K, V>(ns: seq<Node<K, V>>, i: nat)
    requires i < |ns|
    ensures Flat(ns) == Flat(ns[..i]) + (All(ns[i]) + Flat(ns[i + 1..]))
    ensures Flat(ns[..i + 1]) == Flat(ns[..i]) + All(ns[i])
  {
    hide Flat, All;
    FlatFront(ns, i);
    assert ns == ns[..i + 1] + ns[i + 1..];
    FlatAppend(ns[..i + 1], ns[i + 1..]);
    Regroup(Flat(ns[..i]), All(ns[i]), Flat(ns[i + 1..]));
  }

  lemma FlatFront<K, V>(ns: seq<Node<K, V>>, i: nat)
    requires i < |ns|
    ensures Flat(ns[..i + 1]) == Flat(ns[..i]) + All(ns[i])
  {
    hide Flat, All;
    assert ns[..i + 1] == ns[..i] + [ns[i]];
    FlatAppend(ns[..i], [ns[i]]);
    FlatOne(ns[i]);
  }

  lemma ZipAppend<K, V>(k1: seq<K>, v1: seq<V>, k2: seq<K>, v2: seq<V>)
    requires |k1| == |v1| && |k2| == |v2|
    ensures Zip(k1 + k2, v1 + v2) == Zip(k1, v1) + Zip(k2, v2)
  {
  }

  lemma ZipAt<K, V>(keys: seq<K>, values: seq<V>, m: nat)
    requires |keys| == |values| && m <= |keys|
    ensures Zip(keys, values) == Zip(keys[..m], values[..m]) + Zip(keys[m..], values[m..])
    ensures m < |keys| ==> Zip(keys[m..], values[m..]) == [(keys[m], values[m])] + Zip(keys[m + 1..], values[m + 1..])
  {
  }

  lemma ZipParts<K, V>(c: Cmp<K>, keys: seq<K>, values: seq<V>, k: K)
    requires |keys| == |values|
    ensures AllLt(c, Zip(keys, values), k) <==> forall i :: 0 <= i < |keys| ==> Lt(c, keys[i], k)
    ensures AllGt(c, Zip(keys, values), k) <==> forall i :: 0 <= i < |keys| ==> Lt(c, k, keys[i])
    ensures AllGe(c, Zip(keys, values), k) <==> forall i :: 0 <= i < |keys| ==> !Lt(c, keys[i], k)
  {
    var z := Zip(keys, values);
    assert forall i :: 0 <= i < |keys| ==> z[i].0 == keys[i];
  }

  lemma NotEmpty<K(!new), V>(c: Cmp<K>, n: Node<K, V>, h: nat, min: nat)
    requires Tree(c, n, h, min) && min >= 1
    ensures All(n) != []
    decreases h
  {
    if n.Internal? {
      NotEmpty(c, n.children[0], h - 1, MIN_KEYS);
    }
  }

  /** Every key stands between all that is left and all that is right of it. */
  lemma {:induction false} ChainParts<K(!new), V>(c: Cmp<K>, keys: seq<K>, children: seq<Node<K, V>>, h: nat, i: nat)
    requires Total(c) && Chain(c, keys, children, h) && i < |keys|
    ensures AllLt(c, Flat(children[..i + 1]), keys[i])
    decreases i
  {
    hide Tree;
    FlatAt(children, i);
    assert Parted(c, children[i], keys[i], children[i + 1]);
    if i > 0 {
      ChainParts(c, keys, children, h, i - 1);
      assert Parted(c, children[i - 1], keys[i - 1], children[i]);
      KeysRise(c, keys, children, h, i - 1);
      var a := Flat(children[..i]);
      forall j | 0 <= j < |a| ensures Lt(c, a[j].0, keys[i]) {
        LtThrough(c, a[j].0, keys[i - 1], keys[i]);
      }
    } else {
      assert children[..0] == [];
    }
  }

  lemma KeysRise<K(!new), V>(c: Cmp<K>, keys: seq<K>, children: seq<Node<K, V>>, h: nat, i: nat)
    requires Total(c) && Chain(c, keys, children, h) && i + 1 < |keys|
    ensures Lt(c, keys[i], keys[i + 1])
  {
    assert Parted(c, children[i], keys[i], children[i + 1]) && Parted(c, children[i + 1], keys[i + 1], children[i + 2]);
    NotEmpty(c, children[i + 1], h, MIN_KEYS);
    var e := All(children[i + 1])[0];
    LtThrough(c, keys[i], e.0, keys[i + 1]);
  }

  lemma {:induction false} ChainPartsRight<K(!new), V>(c: Cmp<K>, keys: seq<K>, children: seq<Node<K, V>>, h: nat, i: nat)
    requires Total(c) && Chain(c, keys, children, h) && i < |keys|
    ensures AllGe(c, Flat(children[i + 1..]), keys[i])
    decreases |keys| - i
  {
    hide Tree;
    assert Parted(c, children[i], keys[i], children[i + 1]);
    assert children[i + 1..][0] == children[i + 1] && children[i + 1..][1..] == children[i + 2..];
    if i + 1 < |keys| {
      ChainPartsRight(c, keys, children, h, i + 1);
      KeysRise(c, keys, children, h, i);
      var b := Flat(children[i + 2..]);
      forall j | 0 <= j < |b| ensures !Lt(c, b[j].0, keys[i]) {
        LtThrough(c, b[j].0, keys[i], keys[i + 1]);
      }
    } else {
      assert children[i + 2..] == [];
    }
  }

  /** A chain cut at one of its keys. */
  lemma CutChain<K(!new), V>(c: Cmp<K>, keys: seq<K>, children: seq<Node<K, V>>, h: nat, m: nat)
    requires Total(c) && Chain(c, keys, children, h) && m < |keys|
    ensures Chain(c, keys[..m], children[..m + 1], h) && Chain(c, keys[m + 1..], children[m + 1..], h)
    ensures AllLt(c, Flat(children[..m + 1]), keys[m]) && AllGe(c, Flat(children[m + 1..]), keys[m])
    ensures Flat(children) == Flat(children[..m + 1]) + Flat(children[m + 1..])
  {
    hide Tree, Parted;
    ChainParts(c, keys, children, h, m);
    ChainPartsRight(c, keys, children, h, m);
    assert children == children[..m + 1] + children[m + 1..];
    FlatAppend(children[..m + 1], children[m + 1..]);
  }

  /** Two chains with a key between them. */
  lemma JoinChain<K(!new), V>(c: Cmp<K>, k1: seq<K>, c1: seq<Node<K, V>>, s: K, k2: seq<K>, c2: seq<Node<K, V>>, h: nat)
    requires Chain(c, k1, c1, h) && Chain(c, k2, c2, h) && AllLt(c, Flat(c1), s) && AllGe(c, Flat(c2), s)
    ensures Chain(c, k1 + [s] + k2, c1 + c2, h) && Flat(c1 + c2) == Flat(c1) + Flat(c2)
  {
    hide Tree, Flat, All;
    FlatNone<K, V>();
    FlatAppend(c1, c2);
    FlatAt(c1, |k1|);
    FlatAt(c2, 0);
    assert c1[|k1| + 1..] == [] && c2[..0] == [];
    var keys, children := k1 + [s] + k2, c1 + c2;
    assert Flat(c1) == Flat(c1[..|k1|]) + All(c1[|k1|]) && Flat(c2) == All(c2[0]) + Flat(c2[1..]);
    Ends(c, Flat(c1[..|k1|]), All(c1[|k1|]), All(c2[0]), Flat(c2[1..]), s);
    JoinKeys(c, k1, c1, s, k2, c2);
  }

  lemma Ends<K(!new), V>(c: Cmp<K>, a: Entries<K, V>, l: Entries<K, V>, r: Entries<K, V>, b: Entries<K, V>, s: K)
    requires AllLt(c, a + l, s) && AllGe(c, r + b, s)
    ensures AllLt(c, l, s) && AllGe(c, r, s)
  {
    assert forall j :: 0 <= j < |l| ==> l[j] == (a + l)[|a| + j];
    assert forall j :: 0 <= j < |r| ==> r[j] == (r + b)[j];
  }

  lemma JoinKeys<K(!new), V>(c: Cmp<K>, k1: seq<K>, c1: seq<Node<K, V>>, s: K, k2: seq<K>, c2: seq<Node<K, V>>)
    requires |c1| == |k1| + 1 && |c2| == |k2| + 1 && Parted(c, c1[|k1|], s, c2[0])
    requires forall i :: 0 <= i < |k1| ==> Parted(c, c1[i], k1[i], c1[i + 1])
    requires forall i :: 0 <= i < |k2| ==> Parted(c, c2[i], k2[i], c2[i + 1])
    ensures forall i :: 0 <= i < |k1| + 1 + |k2| ==> Parted(c, (c1 + c2)[i], (k1 + [s] + k2)[i], (c1 + c2)[i + 1])
  {
    hide Parted;
    var keys, children := k1 + [s] + k2, c1 + c2;
    forall i | 0 <= i < |keys| ensures Parted(c, children[i], keys[i], children[i + 1]) {
      if i < |k1| {
        assert children[i] == c1[i] && children[i + 1] == c1[i + 1] && keys[i] == k1[i];
      } else if i > |k1| {
        var j := i - |k1| - 1;
        assert children[i] == c2[j] && children[i + 1] == c2[j + 1] && keys[i] == k2[j];
      }
    }
  }

  // ---- a stretch of children replaced ----

  /** What stands before the `i`-th and behind the `j`-th child is in order. */
  ghost predicate Around<K(!new), V>(c: Cmp<K>, keys: seq<K>, children: seq<Node<K, V>>, h: nat, i: nat, j: nat)
  {
    && |children| == |keys| + 1 && i <= j < |children|
    && (i > 0 ==> Chain(c, keys[..i - 1], children[..i], h) && AllLt(c, Flat(children[..i]), keys[i - 1]))
    && (j < |keys| ==> Chain(c, keys[j + 1..], children[j + 1..], h) && AllGe(c, Flat(children[j + 1..]), keys[j]))
    && (0 < i && j < |keys| ==> Lt(c, keys[i - 1], keys[j]))
  }

  lemma AroundChain<K(!new), V>(c: Cmp<K>, keys: seq<K>, children: seq<Node<K, V>>, h: nat, i: nat, j: nat)
    requires Total(c) && Chain(c, keys, children, h) && i <= j < |children|
    ensures Around(c, keys, children, h, i, j)
  {
    hide Chain;
    if i > 0 {
      CutChain(c, keys, children, h, i - 1);
    }
    if j < |keys| {
      CutChain(c, keys, children, h, j);
      if i > 0 {
        Within(c, keys, children, h, i, j);
      }
    }
  }

  lemma Within<K(!new), V>(c: Cmp<K>, keys: seq<K>, children: seq<Node<K, V>>, h: nat, i: nat, j: nat)
    requires Total(c) && Chain(c, keys, children, h) && 0 < i <= j < |keys|
    ensures Lt(c, keys[i - 1], keys[j])
  {
    if i < j {
      Within(c, keys, children, h, i, j - 1);
    }
    KeysRise(c, keys, children, h, j - 1);
    LtThrough(c, keys[i - 1], keys[j - 1], keys[j]);
  }

  /** The keys of an inner node rise, as those of a leaf do. */
  lemma NodeKeysRise<K(!new), V>(c: Cmp<K>, n: Node<K, V>, h: nat, min: nat)
    requires Total(c) && Tree(c, n, h, min)
    ensures Increasing(c, n.keys)
  {
    if n.Internal? {
      hide Tree;
      forall i, j | 0 <= i < j < |n.keys| ensures Lt(c, n.keys[i], n.keys[j]) {
        IsChain(c, n, h, min);
        Within(c, n.keys, n.children, h - 1, i + 1, j);
      }
    }
  }

  lemma GeThrough<K(!new), V>(c: Cmp<K>, s: Entries<K, V>, a: K, b: K)
    requires Total(c) && AllGe(c, s, b) && Lt(c, a, b)
    ensures AllGe(c, s, a)
  {
    forall i | 0 <= i < |s| ensures !Lt(c, s[i].0, a) {
      LtThrough(c, s[i].0, a, b);
    }
  }

  lemma Splice<K(!new), V>(c: Cmp<K>, keys: seq<K>, children: seq<Node<K, V>>, h: nat, i: nat, j: nat, mk: seq<K>, mc: seq<Node<K, V>>)
    requires Total(c) && Around(c, keys, children, h, i, j) && Chain(c, mk, mc, h)
    requires i > 0 ==> AllGe(c, Flat(mc), keys[i - 1])
    requires j < |keys| ==> AllLt(c, Flat(mc), keys[j])
    ensures Chain(c, keys[..i] + (mk + keys[j..]), children[..i] + (mc + children[j + 1..]), h)
    ensures Flat(children[..i] + (mc + children[j + 1..])) == Flat(children[..i]) + (Flat(mc) + Flat(children[j + 1..]))
  {
    hide Chain, Flat;
    FlatAppend(mc, children[j + 1..]);
    FlatAppend(children[..i], mc + children[j + 1..]);
    var rk, rc := mk, mc;
    if j < |keys| {
      JoinChain(c, mk, mc, keys[j], keys[j + 1..], children[j + 1..], h);
      rk, rc := mk + [keys[j]] + keys[j + 1..], mc + children[j + 1..];
      assert rk == mk + keys[j..];
    } else {
      assert keys[j..] == [] && children[j + 1..] == [] && mk + keys[j..] == mk && mc + children[j + 1..] == mc;
    }
    if i > 0 {
      if j < |keys| {
        GeThrough(c, Flat(children[j + 1..]), keys[i - 1], keys[j]);
      }
      JoinChain(c, keys[..i - 1], children[..i], keys[i - 1], rk, rc, h);
      assert keys[..i - 1] + [keys[i - 1]] + rk == keys[..i] + rk;
    } else {
      assert keys[..i] + rk == rk && children[..i] + rc == rc;
    }
  }

  /** The child whose range holds a key. */
  function ChildFor<K, V>(c: Cmp<K>, n: Node<K, V>, key: K): (i: nat)
    requires n.Internal? && |n.children| == |n.keys| + 1
    ensures i < |n.children| && i == FirstGreater(c, n.keys, key)
  {
    Smaller(FirstGreater(c, n.keys, key), |n.children| - 1)
  }

  lemma IsChain<K(!new), V>(c: Cmp<K>, n: Node<K, V>, h: nat, min: nat)
    requires n.Internal? && Tree(c, n, h, min)
    ensures h > 0 && |n.children| == |n.keys| + 1 && min <= |n.keys| < ORDER && Chain(c, n.keys, n.children, h - 1) && All(n) == Flat(n.children)
  {
  }

  lemma ChildIsTree<K(!new), V>(c: Cmp<K>, n: Node<K, V>, h: nat, min: nat, i: nat)
    requires n.Internal? && Tree(c, n, h, min) && i < |n.children|
    ensures h > 0 && Tree(c, n.children[i], h - 1, MIN_KEYS)
  {
  }

  lemma OneChain<K(!new), V>(c: Cmp<K>, n: Node<K, V>, h: nat)
    requires Tree(c, n, h, MIN_KEYS)
    ensures Chain(c, [], [n], h) && Flat([n]) == All(n)
  {
    hide Tree;
    FlatOne(n);
  }

  lemma TwoChain<K(!new), V>(c: Cmp<K>, l: Node<K, V>, k: K, r: Node<K, V>, h: nat)
    requires Tree(c, l, h, MIN_KEYS) && Tree(c, r, h, MIN_KEYS) && Parted(c, l, k, r)
    ensures Chain(c, [k], [l, r], h) && Flat([l, r]) == All(l) + All(r) && All(l) != [] && All(r) != []
  {
    NotEmpty(c, l, h, MIN_KEYS);
    NotEmpty(c, r, h, MIN_KEYS);
    hide Tree;
    FlatOne(l);
    FlatOne(r);
    assert [l, r] == [l] + [r];
    FlatAppend([l], [r]);
  }

  /** What stands left of the child for a key is smaller, what stands right of it greater. */
  lemma PathParts<K(!new), V>(c: Cmp<K>, n: Node<K, V>, h: nat, min: nat, key: K)
    requires Total(c) && n.Internal? && Tree(c, n, h, min)
    ensures var i := ChildFor(c, n, key);
      AllLt(c, Flat(n.children[..i]), key) && AllGt(c, Flat(n.children[i + 1..]), key)
      && Flat(n.children) == Flat(n.children[..i]) + (All(n.children[i]) + Flat(n.children[i + 1..]))
  {
    hide Chain, Flat;
    IsChain(c, n, h, min);
    hide Tree;
    var i := ChildFor(c, n, key);
    FlatAt(n.children, i);
    if i > 0 {
      ChainParts(c, n.keys, n.children, h - 1, i - 1);
      var a := Flat(n.children[..i]);
      forall j | 0 <= j < |a| ensures Lt(c, a[j].0, key) {
        LtThrough(c, a[j].0, n.keys[i - 1], key);
      }
    } else {
      assert n.children[..i] == [];
      FlatNone<K, V>();
    }
    if i < |n.keys| {
      ChainPartsRight(c, n.keys, n.children, h - 1, i);
      var b := Flat(n.children[i + 1..]);
      forall j | 0 <= j < |b| ensures Lt(c, key, b[j].0) {
        LtThrough(c, key, n.keys[i], b[j].0);
      }
    } else {
      assert n.children[i + 1..] == [];
      FlatNone<K, V>();
    }
  }

  lemma FlatNone<K, V>()
    ensures Flat<K, V>([]) == []
  {
  }
}
