/** The snapshots of the B+Tree page: nodes by number, and the tree such a snapshot shows. */
module NodeTree {
  /** A node as stored: its children are numbers. */
  datatype NodeSnap = NodeSnap(leaf: bool, keys: seq<int>, children: seq<nat>)

  datatype Tree = Leaf(id: nat, keys: seq<int>) | Node(id: nat, keys: seq<int>, children: seq<Tree>)

  function Roots(ts: seq<Tree>): (ids: seq<nat>)
    ensures |ids| == |ts| && forall i :: 0 <= i < |ts| ==> ids[i] == ts[i].id
  {
    seq(|ts|, i requires 0 <= i < |ts| => ts[i].id)
  }

  function Stored(t: Tree): NodeSnap
  {
    if t.Leaf? then NodeSnap(true, t.keys, []) else NodeSnap(false, t.keys, Roots(t.children))
  }

  /** The nodes under `t.id` are those of `t`. */
  ghost predicate Shows(nodes: map<nat, NodeSnap>, t: Tree)
  {
    && t.id in nodes && nodes[t.id] == Stored(t)
    && (t.Node? ==> forall i :: 0 <= i < |t.children| ==> Shows(nodes, t.children[i]))
  }

  ghost function Ids(t: Tree): (ids: set<nat>)
    ensures t.id in ids
    decreases t, 1, 0
  {
    {t.id} + if t.Leaf? then {} else IdsOf(t, |t.children|)
  }

  ghost function IdsOf(t: Tree, k: nat): set<nat>
    requires t.Node? && k <= |t.children|
    decreases t, 0, k
  {
    if k == 0 then {} else IdsOf(t, k - 1) + Ids(t.children[k - 1])
  }

  lemma {:induction false} IdsOfChild(t: Tree, i: nat, k: nat)
    requires t.Node? && i < k <= |t.children|
    ensures Ids(t.children[i]) <= IdsOf(t, k)
    decreases k
  {
    if i < k - 1 {
      IdsOfChild(t, i, k - 1);
    }
  }

  /** No two nodes carry the same number. */
  ghost predicate Distinct(t: Tree)
  {
    t.Node? ==>
      && t.id !in IdsOf(t, |t.children|)
      && forall i :: 0 <= i < |t.children| ==> Distinct(t.children[i]) && Ids(t.children[i]) !! IdsOf(t, i)
  }

  /** An internal node has one child more than keys. */
  ghost predicate Branches(t: Tree)
  {
    t.Node? ==> |t.children| == |t.keys| + 1 && forall i :: 0 <= i < |t.children| ==> Branches(t.children[i])
  }

  /** `t`, hung at `depth`, has the node `id` at depth `d`. */
  ghost predicate Has(t: Tree, depth: nat, id: nat, d: nat)
  {
    || (t.id == id && depth == d)
    || (t.Node? && exists i :: 0 <= i < |t.children| && Has(t.children[i], depth + 1, id, d))
  }

  /** What a drawing needs of a snapshot. */
  ghost predicate Proper(nodes: map<nat, NodeSnap>, t: Tree) { Shows(nodes, t) && Distinct(t) && Branches(t) }

  lemma ProperChild(nodes: map<nat, NodeSnap>, t: Tree, i: nat)
    requires Proper(nodes, t) && t.Node? && i < |t.children|
    ensures Proper(nodes, t.children[i]) && Ids(t.children[i]) !! IdsOf(t, i)
  {
  }

  lemma ProperRoot(nodes: map<nat, NodeSnap>, t: Tree)
    requires Proper(nodes, t)
    ensures t.id in nodes && nodes[t.id] == Stored(t)
    ensures t.Node? ==> t.children != [] && t.id !in IdsOf(t, |t.children|) && Ids(t) == {t.id} + IdsOf(t, |t.children|)
    ensures t.Leaf? ==> Ids(t) == {t.id}
  {
  }
}
