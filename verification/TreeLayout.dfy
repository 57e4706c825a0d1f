/** Where the boxes of a B+Tree are drawn: leaves from left to right, every other node centred over its children. */
module TreeLayout {
  import opened NodeTree

  const KEY_W := 52
  const KEY_H := 48
  const PAD := 8
  const GAP := 28
  const LEVEL_H := 190
  const MARGIN := 36
  const GUTTER := 96

  datatype Box = Box(x: real, y: int, w: int) {
    function Right(): real { x + w as real }
  }

  function WidthOf(keys: nat): int { (if keys < 1 then 1 else keys) * KEY_W + 2 * PAD }

  function RowY(depth: nat): int { MARGIN + depth * LEVEL_H }

  function Max(a: nat, b: nat): nat { if a < b then b else a }

  /** The cursor behind a tree whose first leaf stands at `c`. */
  function End(t: Tree, c: int): (e: int)
    ensures t.Leaf? ==> e == c + WidthOf(|t.keys|) + GAP
    decreases t, 1, 0
  {
    if t.Leaf? then c + WidthOf(|t.keys|) + GAP else EndOf(t, |t.children|, c)
  }

  /** The cursor behind the first `i` children. */
  function EndOf(t: Tree, i: nat, c: int): int
    requires t.Node? && i <= |t.children|
    decreases t, 0, i
  {
    if i == 0 then c else End(t.children[i - 1], EndOf(t, i - 1, c))
  }

  function Levels(t: Tree): (n: nat)
    ensures n >= 1
    decreases t, 1, 0
  {
    if t.Leaf? then 1 else 1 + LevelsOf(t, |t.children|)
  }

  function LevelsOf(t: Tree, i: nat): nat
    requires t.Node? && i <= |t.children|
    decreases t, 0, i
  {
    if i == 0 then 0 else Max(LevelsOf(t, i - 1), Levels(t.children[i - 1]))
  }

  /** The left end of a box of width `w` centred over two others. */
  function Centred(first: Box, last: Box, w: int): real { (first.x + last.Right()) / 2.0 - w as real / 2.0 }

  /** Every node of `t`, hung at `depth` with its first leaf at `c`, has its box. */
  ghost predicate Laid(t: Tree, depth: nat, c: int, pos: map<nat, Box>)
    decreases t, 1
  {
    && t.id in pos && pos[t.id].y == RowY(depth) && pos[t.id].w == WidthOf(|t.keys|)
    && (t.Leaf? ==> pos[t.id].x == c as real)
    && (t.Node? ==> LaidOf(t, |t.children|, depth, c, pos))
    && (t.Node? && t.children != [] ==>
          pos[t.id].x == Centred(pos[t.children[0].id], pos[t.children[|t.children| - 1].id], pos[t.id].w))
  }

  ghost predicate LaidOf(t: Tree, k: nat, depth: nat, c: int, pos: map<nat, Box>)
    requires t.Node? && k <= |t.children|
    decreases t, 0
  {
    forall i :: 0 <= i < k ==> t.children[i].id in pos && Laid(t.children[i], depth + 1, EndOf(t, i, c), pos)
  }

  lemma {:induction false} LaidElsewhere(t: Tree, depth: nat, c: int, pos: map<nat, Box>, pos': map<nat, Box>)
    requires Laid(t, depth, c, pos) && forall id :: id in Ids(t) ==> id in pos && id in pos' && pos'[id] == pos[id]
    ensures Laid(t, depth, c, pos')
  {
    if t.Node? {
      forall i | 0 <= i < |t.children| ensures t.children[i].id in pos' && Laid(t.children[i], depth + 1, EndOf(t, i, c), pos') {
        IdsOfChild(t, i, |t.children|);
        LaidElsewhere(t.children[i], depth + 1, EndOf(t, i, c), pos, pos');
      }
      RootIds(t);
    }
  }

  lemma {:induction false} LaidHasAll(t: Tree, depth: nat, c: int, pos: map<nat, Box>)
    requires Laid(t, depth, c, pos)
    ensures Ids(t) <= pos.Keys
    decreases t, 1, 0
  {
    if t.Node? {
      LaidOfHasAll(t, |t.children|, depth, c, pos);
    }
  }

  lemma {:induction false} LaidOfHasAll(t: Tree, k: nat, depth: nat, c: int, pos: map<nat, Box>)
    requires t.Node? && k <= |t.children| && LaidOf(t, k, depth, c, pos)
    ensures IdsOf(t, k) <= pos.Keys
    decreases t, 0, k
  {
    if k > 0 {
      LaidOfHasAll(t, k - 1, depth, c, pos);
      LaidHasAll(t.children[k - 1], depth + 1, EndOf(t, k - 1, c), pos);
    }
  }

  lemma RootIds(t: Tree)
    requires t.Node?
    ensures forall i :: 0 <= i < |t.children| ==> t.children[i].id in IdsOf(t, |t.children|)
  {
    forall i | 0 <= i < |t.children| ensures t.children[i].id in IdsOf(t, |t.children|) {
      IdsOfChild(t, i, |t.children|);
    }
  }

  predicate Agree(pos: map<nat, Box>, pos': map<nat, Box>, changed: set<nat>)
  {
    forall k :: k in pos && k !in changed ==> k in pos' && pos'[k] == pos[k]
  }

  /** Boxes stay placed while others are changed. */
  lemma LaidOfElsewhere(t: Tree, k: nat, depth: nat, c: int, pos: map<nat, Box>, pos': map<nat, Box>, changed: set<nat>)
    requires t.Node? && k <= |t.children| && LaidOf(t, k, depth, c, pos) && Agree(pos, pos', changed)
    requires IdsOf(t, k) !! changed
    ensures LaidOf(t, k, depth, c, pos')
  {
    forall i | 0 <= i < k ensures t.children[i].id in pos' && Laid(t.children[i], depth + 1, EndOf(t, i, c), pos') {
      IdsOfChild(t, i, k);
      LaidHasAll(t.children[i], depth + 1, EndOf(t, i, c), pos);
      LaidElsewhere(t.children[i], depth + 1, EndOf(t, i, c), pos, pos');
    }
  }

  /** The state of `layout` while it places the nodes. */
  class Board {
    const nodes: map<nat, NodeSnap>
    var pos: map<nat, Box>
    var cursor: int
    var levels: nat

    constructor (nodes: map<nat, NodeSnap>)
      ensures this.nodes == nodes && pos == map[] && cursor == GUTTER && levels == 0
    {
      this.nodes := nodes;
      pos, cursor, levels := map[], GUTTER, 0;
    }

    /** `place` */
    method Place(id: nat, depth: nat, ghost t: Tree)
      requires t.id == id && Proper(nodes, t)
      modifies this
      ensures Laid(t, depth, old(cursor), pos) && cursor == End(t, old(cursor)) && levels == Max(old(levels), depth + Levels(t))
      ensures pos.Keys == old(pos.Keys) + Ids(t) && Agree(old(pos), pos, Ids(t))
      decreases t, 1
    {
      hide Centred, RowY, Laid, LaidOf, IdsOf, Ids, Proper, Agree, LevelsOf, EndOf;
      ProperRoot(nodes, t);
      levels := Max(levels, depth + 1);
      var n := nodes[id];
      var w := WidthOf(|n.keys|);
      ghost var before := pos;
      if n.leaf {
        pos := pos[id := Box(cursor as real, RowY(depth), w)];
        LeafLaid(t, depth, cursor, before);
        cursor := cursor + w + GAP;
        return;
      }
      PlaceChildren(n.children, depth, t);
      ghost var middle := pos;
      RootsPlaced(t, depth, old(cursor), middle);
      var first, last := pos[n.children[0]], pos[n.children[|n.children| - 1]];
      pos := pos[id := Box(Centred(first, last, w), RowY(depth), w)];
      ParentLaid(t, depth, old(cursor), before, middle);
    }

    /** `n.children.forEach` */
    method PlaceChildren(children: seq<nat>, depth: nat, ghost t: Tree)
      requires Proper(nodes, t) && t.Node? && children == Roots(t.children) && levels >= depth + 1
      modifies this
      ensures LaidOf(t, |children|, depth, old(cursor), pos) && cursor == EndOf(t, |children|, old(cursor))
      ensures levels == Max(old(levels), depth + 1 + LevelsOf(t, |children|))
      ensures pos.Keys == old(pos.Keys) + IdsOf(t, |children|) && Agree(old(pos), pos, IdsOf(t, |children|))
      decreases t, 0
    {
      hide Laid, LaidOf, End, EndOf, Levels, LevelsOf, Ids, IdsOf, Proper, Agree;
      NothingLaid(t, depth, cursor, pos);
      for i := 0 to |children|
        invariant LaidOf(t, i, depth, old(cursor), pos) && cursor == EndOf(t, i, old(cursor))
        invariant levels == Max(old(levels), depth + 1 + LevelsOf(t, i))
        invariant pos.Keys == old(pos.Keys) + IdsOf(t, i) && Agree(old(pos), pos, IdsOf(t, i))
      {
        ghost var before := pos;
        ProperChild(nodes, t, i);
        Place(children[i], depth + 1, t.children[i]);
        LaidOfElsewhere(t, i, depth, old(cursor), before, pos, Ids(t.children[i]));
        OneMore(t, i, depth, old(cursor), old(pos), before, pos);
      }
    }
  }

  lemma LeafLaid(t: Tree, depth: nat, c: int, before: map<nat, Box>)
    requires t.Leaf?
    ensures var after := before[t.id := Box(c as real, RowY(depth), WidthOf(|t.keys|))]; Laid(t, depth, c, after) && Agree(before, after, {t.id})
  {
  }

  lemma ParentLaid(t: Tree, depth: nat, c: int, before: map<nat, Box>, middle: map<nat, Box>)
    requires t.Node? && t.children != [] && t.id !in IdsOf(t, |t.children|) && LaidOf(t, |t.children|, depth, c, middle)
    requires Agree(before, middle, IdsOf(t, |t.children|))
    ensures var w := WidthOf(|t.keys|);
      var x := Centred(middle[t.children[0].id], middle[t.children[|t.children| - 1].id], w);
      var after := middle[t.id := Box(x, RowY(depth), w)];
      Laid(t, depth, c, after) && Agree(before, after, Ids(t))
  {
    hide Centred, RowY;
    var w := WidthOf(|t.keys|);
    var first, last := t.children[0].id, t.children[|t.children| - 1].id;
    var after := middle[t.id := Box(Centred(middle[first], middle[last], w), RowY(depth), w)];
    LaidOfElsewhere(t, |t.children|, depth, c, middle, after, {t.id});
    RootIds(t);
    assert first in IdsOf(t, |t.children|) && last in IdsOf(t, |t.children|);
  }

  lemma NothingLaid(t: Tree, depth: nat, c: int, pos: map<nat, Box>)
    requires t.Node?
    ensures LaidOf(t, 0, depth, c, pos) && Agree(pos, pos, {}) && IdsOf(t, 0) == {} && EndOf(t, 0, c) == c && LevelsOf(t, 0) == 0
  {
  }

  lemma OneMore(t: Tree, i: nat, depth: nat, c: int, start: map<nat, Box>, before: map<nat, Box>, after: map<nat, Box>)
    requires t.Node? && i < |t.children| && LaidOf(t, i, depth, c, after) && Laid(t.children[i], depth + 1, EndOf(t, i, c), after)
    requires Agree(start, before, IdsOf(t, i)) && Agree(before, after, Ids(t.children[i]))
    ensures LaidOf(t, i + 1, depth, c, after) && Agree(start, after, IdsOf(t, i + 1))
    ensures IdsOf(t, i + 1) == IdsOf(t, i) + Ids(t.children[i]) && EndOf(t, i + 1, c) == End(t.children[i], EndOf(t, i, c))
    ensures LevelsOf(t, i + 1) == Max(LevelsOf(t, i), Levels(t.children[i]))
  {
  }

  lemma RootsPlaced(t: Tree, depth: nat, c: int, pos: map<nat, Box>)
    requires t.Node? && LaidOf(t, |t.children|, depth, c, pos)
    ensures forall i :: 0 <= i < |t.children| ==> t.children[i].id in pos
  {
  }

  datatype Drawing = Drawing(pos: map<nat, Box>, width: int, height: int, levels: nat)

  /** What `layout` promises of the tree it drew: one box for each node and the size of the board. */
  ghost predicate Drawn(t: Tree, g: Drawing)
  {
    && Laid(t, 0, GUTTER, g.pos) && g.pos.Keys == Ids(t)
    && g.width == End(t, GUTTER) - GAP + MARGIN && g.levels == Levels(t)
    && g.height == MARGIN * 2 + (g.levels - 1) * LEVEL_H + KEY_H
  }

  method Layout(nodes: map<nat, NodeSnap>, root: nat, ghost t: Tree) returns (g: Drawing)
    requires t.id == root && Proper(nodes, t)
    ensures Drawn(t, g)
  {
    hide Laid, Ids, Proper, Levels, End, Agree;
    var board := new Board(nodes);
    board.Place(root, 0, t);
    g := Drawing(board.pos, board.cursor - GAP + MARGIN, MARGIN * 2 + (board.levels - 1) * LEVEL_H + KEY_H, board.levels);
  }

  // ---- where boxes stand ----

  lemma {:induction false} EndGrows(t: Tree, c: int)
    requires Branches(t)
    ensures End(t, c) >= c
    decreases t, 1, 0
  {
    if t.Node? {
      EndOfGrows(t, 0, |t.children|, c);
    }
  }

  lemma {:induction false} EndOfGrows(t: Tree, i: nat, j: nat, c: int)
    requires Branches(t) && t.Node? && i <= j <= |t.children|
    ensures c <= EndOf(t, i, c) <= EndOf(t, j, c)
    decreases t, 0, j
  {
    if i < j {
      EndOfGrows(t, i, j - 1, c);
      EndGrows(t.children[j - 1], EndOf(t, j - 1, c));
    } else if 0 < i {
      EndOfGrows(t, 0, i - 1, c);
      EndGrows(t.children[i - 1], EndOf(t, i - 1, c));
    }
  }

  lemma CentredFits(first: Box, last: Box, w: int)
    requires first.x + w as real <= last.Right()
    ensures first.x <= Centred(first, last, w) && Centred(first, last, w) + w as real <= last.Right()
  {
  }

  lemma NextRight(a: Box, b: Box, room: int, k: nat)
    requires a.x + ((k + 1) * (KEY_W + 2 * PAD) + k * GAP) as real <= room as real - GAP as real
    requires room as real <= b.x && b.w >= KEY_W + 2 * PAD
    ensures a.x + ((k + 2) * (KEY_W + 2 * PAD) + (k + 1) * GAP) as real <= b.Right()
  {
  }

  lemma ParentFields(t: Tree, depth: nat, c: int, pos: map<nat, Box>)
    requires Branches(t) && t.Node? && Laid(t, depth, c, pos)
    ensures |t.children| == |t.keys| + 1 && RootsIn(t, pos) && LaidOf(t, |t.children|, depth, c, pos)
    ensures pos[t.id] == Box(Centred(pos[t.children[0].id], pos[t.children[|t.keys|].id], WidthOf(|t.keys|)), RowY(depth), WidthOf(|t.keys|))
  {
    hide Centred, RowY, WidthOf;
    RootsPlaced(t, depth, c, pos);
  }

  /** The boxes of the first children take at least the room their keys and the gaps between them need. */
  lemma {:induction false} ChildrenSpan(t: Tree, k: nat, depth: nat, c: int, pos: map<nat, Box>)
    requires Branches(t) && t.Node? && k < |t.children| && LaidOf(t, |t.children|, depth, c, pos)
    ensures var first, last := pos[t.children[0].id], pos[t.children[k].id];
      c as real <= first.x && last.Right() + GAP as real <= EndOf(t, k + 1, c) as real
      && first.x + ((k + 1) * (KEY_W + 2 * PAD) + k * GAP) as real <= last.Right()
    decreases t, 0, k
  {
    hide Laid, Centred, RowY, End, Branches, RootsIn;
    BranchesBelow(t, k);
    BoxSpan(t.children[k], depth + 1, EndOf(t, k, c), pos);
    if k > 0 {
      ChildrenSpan(t, k - 1, depth, c, pos);
      RootsPlaced(t, depth, c, pos);
      NextRight(pos[t.children[0].id], pos[t.children[k].id], EndOf(t, k, c), k - 1);
    }
  }

  /** A box stays between where its tree begins and where it ends: a parent stands over its children. */
  lemma {:induction false} BoxSpan(t: Tree, depth: nat, c: int, pos: map<nat, Box>)
    requires Branches(t) && Laid(t, depth, c, pos)
    ensures t.id in pos && c as real <= pos[t.id].x && pos[t.id].Right() + GAP as real <= End(t, c) as real
    ensures pos[t.id].w >= KEY_W + 2 * PAD && pos[t.id].y == RowY(depth)
    ensures t.Node? ==> RootsIn(t, pos) && pos[t.children[0].id].x <= pos[t.id].x && pos[t.id].Right() <= pos[t.children[|t.keys|].id].Right()
    decreases t, 1, 0
  {
    if t.Node? {
      hide Laid, LaidOf, Centred, RowY, EndOf, Branches;
      ParentFields(t, depth, c, pos);
      ChildrenSpan(t, |t.keys|, depth, c, pos);
      var first, last := pos[t.children[0].id], pos[t.children[|t.keys|].id];
      WidthFits(|t.keys|);
      CentredFits(first, last, WidthOf(|t.keys|));
    }
  }

  lemma BranchesBelow(t: Tree, k: nat)
    requires Branches(t) && t.Node? && k < |t.children|
    ensures Branches(t.children[k])
  {
  }

  lemma WidthFits(keys: nat)
    ensures KEY_W + 2 * PAD <= WidthOf(keys) <= (keys + 1) * (KEY_W + 2 * PAD) + keys * GAP
  {
  }

  ghost predicate RootsIn(t: Tree, pos: map<nat, Box>)
    requires t.Node?
  {
    t.children != [] && forall i :: 0 <= i < |t.children| ==> t.children[i].id in pos
  }

  /** The child below which a node stands. */
  lemma ChildWith(t: Tree, depth: nat, c: int, pos: map<nat, Box>, id: nat, d: nat) returns (i: nat)
    requires Branches(t) && Laid(t, depth, c, pos) && Has(t, depth, id, d) && (id != t.id || d != depth)
    ensures t.Node? && i < |t.children| && Has(t.children[i], depth + 1, id, d)
    ensures Branches(t.children[i]) && Laid(t.children[i], depth + 1, EndOf(t, i, c), pos)
  {
    i :| 0 <= i < |t.children| && Has(t.children[i], depth + 1, id, d);
  }

  /** The strip of a child is part of the strip of its parent. */
  lemma ChildStrip(t: Tree, i: nat, c: int)
    requires Branches(t) && t.Node? && i < |t.children|
    ensures c <= EndOf(t, i, c) && End(t.children[i], EndOf(t, i, c)) == EndOf(t, i + 1, c) <= End(t, c)
    ensures 1 + Levels(t.children[i]) <= Levels(t)
  {
    EndOfGrows(t, 0, i, c);
    EndOfGrows(t, i + 1, |t.children|, c);
    LevelsCover(t, i, |t.children|);
  }

  /** Every box of a tree stands in the tree's strip of the board, in the row of its depth. */
  lemma {:induction false} BoxInside(t: Tree, depth: nat, c: int, pos: map<nat, Box>, id: nat, d: nat)
    requires Branches(t) && Laid(t, depth, c, pos) && Has(t, depth, id, d)
    ensures id in pos && c as real <= pos[id].x && pos[id].Right() + GAP as real <= End(t, c) as real
    ensures pos[id].y == RowY(d) && depth <= d < depth + Levels(t)
  {
    hide Branches, Laid, Has, End, EndOf, Levels, LevelsOf, RowY, RootsIn;
    if t.id != id || d != depth {
      var i := ChildWith(t, depth, c, pos, id, d);
      BoxInside(t.children[i], depth + 1, EndOf(t, i, c), pos, id, d);
      ChildStrip(t, i, c);
    } else {
      BoxSpan(t, depth, c, pos);
    }
  }

  lemma {:induction false} LevelsCover(t: Tree, i: nat, k: nat)
    requires t.Node? && i < k <= |t.children|
    ensures Levels(t.children[i]) <= LevelsOf(t, k)
    decreases k
  {
    if i < k - 1 {
      LevelsCover(t, i, k - 1);
    }
  }

  ghost predicate LeftOf(a: Box, b: Box) { a.Right() + GAP as real <= b.x }

  /** Two boxes of one row keep the gap between them. */
  lemma {:induction false} BoxesApart(t: Tree, depth: nat, c: int, pos: map<nat, Box>, a: nat, b: nat, d: nat)
    requires Branches(t) && Laid(t, depth, c, pos) && Has(t, depth, a, d) && Has(t, depth, b, d) && a != b
    ensures a in pos && b in pos && (LeftOf(pos[a], pos[b]) || LeftOf(pos[b], pos[a]))
  {
    hide Branches, Laid, Has, End, EndOf, Levels, LevelsOf, RowY;
    BoxInside(t, depth, c, pos, a, d);
    BoxInside(t, depth, c, pos, b, d);
    if d == depth {
      RootAlone(t, depth, a);
      RootAlone(t, depth, b);
    } else {
      var i := ChildWith(t, depth, c, pos, a, d);
      var j := ChildWith(t, depth, c, pos, b, d);
      if i == j {
        BoxesApart(t.children[i], depth + 1, EndOf(t, i, c), pos, a, b, d);
      } else if i < j {
        SiblingsApart(t, i, j, depth, c, pos, a, b, d);
      } else {
        SiblingsApart(t, j, i, depth, c, pos, b, a, d);
      }
    }
  }

  lemma SiblingsApart(t: Tree, i: nat, j: nat, depth: nat, c: int, pos: map<nat, Box>, a: nat, b: nat, d: nat)
    requires Branches(t) && t.Node? && i < j < |t.children| && Laid(t, depth, c, pos)
    requires Has(t.children[i], depth + 1, a, d) && Has(t.children[j], depth + 1, b, d)
    ensures a in pos && b in pos && LeftOf(pos[a], pos[b])
  {
    hide Has, End, EndOf, Levels, RowY;
    BoxInside(t.children[i], depth + 1, EndOf(t, i, c), pos, a, d);
    BoxInside(t.children[j], depth + 1, EndOf(t, j, c), pos, b, d);
    ChildStrip(t, i, c);
    EndOfGrows(t, i + 1, j, c);
  }

  lemma {:induction false} Deeper(t: Tree, depth: nat, id: nat, d: nat)
    requires Has(t, depth, id, d)
    ensures d >= depth
  {
    if t.id != id || d != depth {
      var i :| 0 <= i < |t.children| && Has(t.children[i], depth + 1, id, d);
      Deeper(t.children[i], depth + 1, id, d);
    }
  }

  lemma RootAlone(t: Tree, depth: nat, id: nat)
    requires Has(t, depth, id, depth)
    ensures id == t.id
  {
    if t.id != id {
      var i :| 0 <= i < |t.children| && Has(t.children[i], depth + 1, id, depth);
      Deeper(t.children[i], depth + 1, id, depth);
    }
  }

  /** Every box is drawn on the board: right of the gutter, left of the margin, between the top and the bottom margin. */
  lemma DrawnOnBoard(t: Tree, g: Drawing, id: nat, d: nat)
    requires Branches(t) && Drawn(t, g) && Has(t, 0, id, d)
    ensures id in g.pos && GUTTER as real <= g.pos[id].x && g.pos[id].Right() <= (g.width - MARGIN) as real
    ensures MARGIN <= g.pos[id].y && g.pos[id].y + KEY_H <= g.height - MARGIN
  {
    BoxInside(t, 0, GUTTER, g.pos, id, d);
  }

  /** No two boxes overlap: in one row they keep the gap, and rows are further apart than a box is high. */
  lemma DrawnApart(t: Tree, g: Drawing, a: nat, da: nat, b: nat, db: nat)
    requires Branches(t) && Drawn(t, g) && Has(t, 0, a, da) && Has(t, 0, b, db) && a != b
    ensures a in g.pos && b in g.pos
    ensures da == db ==> LeftOf(g.pos[a], g.pos[b]) || LeftOf(g.pos[b], g.pos[a])
    ensures da < db ==> g.pos[a].y + KEY_H < g.pos[b].y
  {
    BoxInside(t, 0, GUTTER, g.pos, a, da);
    BoxInside(t, 0, GUTTER, g.pos, b, db);
    if da == db {
      BoxesApart(t, 0, GUTTER, g.pos, a, b, da);
    }
  }

  /** Without a child for each gap between keys a parent can be wider than what stands under it, and leave the board. */
  lemma WideParentLeaves(g: Drawing)
    requires Drawn(Node(1, [1, 2, 3], [Leaf(2, [1])]), g)
    ensures g.pos[1].x < GUTTER as real && g.pos[1].Right() > (g.width - MARGIN) as real
  {
    var t := Node(1, [1, 2, 3], [Leaf(2, [1])]);
    assert Laid(t.children[0], 1, EndOf(t, 0, GUTTER), g.pos);
    assert End(t, GUTTER) == End(t.children[0], EndOf(t, 0, GUTTER));
  }
}
