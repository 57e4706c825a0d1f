/** Who waits for whom: at most one arrow leaves each transaction. */
module WaitGraph {
  import opened Common

  type Txn = nat
  type Graph = map<Txn, Txn>

  /** Where `n` arrows lead. */
  ghost function Hop(w: Graph, a: Txn, n: nat): Option<Txn>
  {
    if n == 0 then Some(a)
    else
      var b := Hop(w, a, n - 1);
      if b.Some? && b.value in w then Some(w[b.value]) else None
  }

  ghost predicate Reaches(w: Graph, a: Txn, b: Txn) { exists n: nat :: Hop(w, a, n) == Some(b) }

  /** Nobody waits for himself, however indirectly. */
  ghost predicate Acyclic(w: Graph) { forall t: Txn, n: nat :: n >= 1 ==> Hop(w, t, n) != Some(t) }

  lemma {:induction false} HopFront(w: Graph, a: Txn, n: nat)
    requires n >= 1
    ensures Hop(w, a, n) == if a in w then Hop(w, w[a], n - 1) else None
  {
    if n > 1 {
      HopFront(w, a, n - 1);
    } else {
      assert Hop(w, a, 0) == Some(a);
    }
  }

  lemma {:induction false} HopAdd(w: Graph, a: Txn, b: Txn, n: nat, m: nat)
    requires Hop(w, a, n) == Some(b)
    ensures Hop(w, a, n + m) == Hop(w, b, m)
  {
    if m > 0 {
      HopAdd(w, a, b, n, m - 1);
    }
  }

  /** A walk that comes back to where it was stays where it has been. */
  lemma {:induction false} StaysInside(w: Graph, a: Txn, seen: set<Txn>, m: nat, n: nat, k: nat)
    requires m < n && Hop(w, a, n) == Hop(w, a, m) && k >= n
    requires forall i :: 0 <= i < n ==> Hop(w, a, i).Some? && Hop(w, a, i).value in seen
    ensures Hop(w, a, k).Some? && Hop(w, a, k).value in seen
  {
    if k == n {
      return;
    }
    var x := Hop(w, a, m).value;
    HopAdd(w, a, x, n, k - n);
    HopAdd(w, a, x, m, k - n);
    var j := m + (k - n);
    if j >= n {
      StaysInside(w, a, seen, m, n, j);
    }
  }

  /** `creates_cycle`: whether following the arrows from `to` leads to `from`. */
  method CreatesCycle(w: Graph, from: Txn, to: Txn) returns (r: bool)
    ensures r <==> Reaches(w, to, from)
  {
    var current := to;
    var visited: set<Txn> := {};
    ghost var n: nat := 0;
    while true
      invariant Hop(w, to, n) == Some(current) && visited <= w.Keys
      invariant forall i :: 0 <= i < n ==> Hop(w, to, i).Some? && Hop(w, to, i).value in visited
      invariant forall v :: v in visited ==> exists i :: 0 <= i < n && Hop(w, to, i) == Some(v)
      invariant from !in visited
      decreases w.Keys - visited
    {
      if current == from {
        return true;
      }
      if current in visited {
        ghost var m :| 0 <= m < n && Hop(w, to, m) == Some(current);
        NeverThere(w, to, from, visited, m, n);
        return false;
      }
      if current !in w {
        DeadEnd(w, to, from, visited, current, n);
        return false;
      }
      visited := visited + {current};
      current := w[current];
      n := n + 1;
    }
  }

  lemma NeverThere(w: Graph, to: Txn, from: Txn, visited: set<Txn>, m: nat, n: nat)
    requires m < n && Hop(w, to, n) == Hop(w, to, m) && from !in visited
    requires forall i :: 0 <= i < n ==> Hop(w, to, i).Some? && Hop(w, to, i).value in visited
    ensures !Reaches(w, to, from)
  {
    forall k: nat ensures Hop(w, to, k) != Some(from) {
      if k >= n {
        StaysInside(w, to, visited, m, n, k);
      }
    }
  }

  lemma DeadEnd(w: Graph, to: Txn, from: Txn, visited: set<Txn>, current: Txn, n: nat)
    requires Hop(w, to, n) == Some(current) && current !in w && current != from && from !in visited
    requires forall i :: 0 <= i < n ==> Hop(w, to, i).Some? && Hop(w, to, i).value in visited
    ensures !Reaches(w, to, from)
  {
    forall k: nat ensures Hop(w, to, k) != Some(from) {
      if k > n {
        HopAdd(w, to, current, n, k - n);
        HopFront(w, current, k - n);
      }
    }
  }

  // ---- changes ----

  ghost predicate Within(w': Graph, w: Graph) { forall t :: t in w' ==> t in w && w'[t] == w[t] }

  lemma {:induction false} HopWithin(w': Graph, w: Graph, a: Txn, n: nat)
    requires Within(w', w) && Hop(w', a, n).Some?
    ensures Hop(w, a, n) == Hop(w', a, n)
  {
    if n > 0 {
      HopWithin(w', w, a, n - 1);
    }
  }

  /** Taking arrows away makes no cycle. */
  lemma FewerArrows(w': Graph, w: Graph)
    requires Within(w', w) && Acyclic(w)
    ensures Acyclic(w')
  {
    forall t: Txn, n: nat | n >= 1 ensures Hop(w', t, n) != Some(t) {
      if Hop(w', t, n) == Some(t) {
        HopWithin(w', w, t, n);
      }
    }
  }

  /** Graphs that differ in the arrow of `t` only agree until the walk has come to `t`. */
  lemma {:induction false} HopAgrees(w: Graph, w': Graph, t: Txn, a: Txn, n: nat)
    requires forall x :: x != t ==> (x in w <==> x in w') && (x in w ==> w[x] == w'[x])
    requires forall i: nat :: i < n ==> Hop(w, a, i) != Some(t)
    ensures Hop(w, a, n) == Hop(w', a, n)
  {
    if n > 0 {
      HopAgrees(w, w', t, a, n - 1);
      assert Hop(w, a, n - 1) != Some(t);
    }
  }

  /** The first time a walk comes to `t`. */
  lemma {:induction false} FirstTime(w: Graph, a: Txn, t: Txn, n: nat) returns (m: nat)
    requires Hop(w, a, n) == Some(t)
    ensures m <= n && Hop(w, a, m) == Some(t) && forall i: nat :: i < m ==> Hop(w, a, i) != Some(t)
  {
    if i: nat :| i < n && Hop(w, a, i) == Some(t) {
      m := FirstTime(w, a, t, i);
    } else {
      m := n;
    }
  }

  /** A cycle can be walked from any of its members. */
  lemma CycleFrom(w: Graph, x: Txn, t: Txn, n: nat, m: nat)
    requires n >= 1 && Hop(w, x, n) == Some(x) && Hop(w, x, m) == Some(t) && m <= n
    ensures Hop(w, t, n) == Some(t)
  {
    hide Hop;
    var rest := n - m;
    HopAdd(w, x, t, m, rest);
    HopAdd(w, t, x, rest, m);
  }

  /** Turning one arrow keeps the graph free of cycles exactly when `creates_cycle` says so. */
  lemma TurnedArrow(w: Graph, t: Txn, h: Txn)
    requires Acyclic(w)
    ensures Acyclic(w[t := h]) <==> !Reaches(w, h, t)
  {
    var w' := w[t := h];
    if Reaches(w, h, t) {
      var n: nat :| Hop(w, h, n) == Some(t);
      var m := FirstTime(w, h, t, n);
      HopAgrees(w, w', t, h, m);
      HopFront(w', t, m + 1);
    } else {
      forall x: Txn, n: nat | n >= 1 ensures Hop(w', x, n) != Some(x) {
        if Hop(w', x, n) == Some(x) {
          NoCycle(w, t, h, x, n);
        }
      }
    }
  }

  lemma NoCycle(w: Graph, t: Txn, h: Txn, x: Txn, n: nat)
    requires Acyclic(w) && n >= 1 && Hop(w[t := h], x, n) == Some(x)
    ensures Reaches(w, h, t)
  {
    var w' := w[t := h];
    if m: nat :| m < n && Hop(w', x, m) == Some(t) {
      CycleFrom(w', x, t, n, m);
      HopFront(w', t, n);
      var k := FirstTime(w', h, t, n - 1);
      HopAgrees(w', w, t, h, k);
      assert Hop(w, h, k) == Some(t);
    } else {
      HopAgrees(w', w, t, x, n);
    }
  }
}
