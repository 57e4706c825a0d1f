/** The shortest chain of foreign keys between two tables. */
module FkPath {
  import opened Common

  /** A foreign key: `join` is its ready join condition. */
  datatype Edge = Edge(child: string, parent: string, join: string)

  predicate Touches(e: Edge, table: string) { table == e.child || table == e.parent }

  /** The table at the other end. */
  function Other(e: Edge, here: string): string { if e.child == here then e.parent else e.child }

  /** A chain of edges, either way round, that leads from one table to another. */
  ghost predicate IsChain(edges: seq<Edge>, path: seq<Edge>, from: string, to: string)
  {
    if path == [] then from == to
    else path[0] in edges && Touches(path[0], from) && IsChain(edges, path[1..], Other(path[0], from), to)
  }

  lemma {:induction false} ChainAppend(edges: seq<Edge>, path: seq<Edge>, from: string, mid: string, e: Edge)
    requires IsChain(edges, path, from, mid) && e in edges && Touches(e, mid)
    ensures IsChain(edges, path + [e], from, Other(e, mid))
  {
    if path == [] {
      assert path + [e] == [e] && [e][1..] == [];
    } else {
      assert (path + [e])[1..] == path[1..] + [e];
      ChainAppend(edges, path[1..], Other(path[0], from), mid, e);
    }
  }

  /** `to` can be reached from `from` over at most `n` edges. */
  ghost predicate Reach(edges: seq<Edge>, from: string, to: string, n: nat)
    decreases n
  {
    if n == 0 then to == from
    else Reach(edges, from, to, n - 1) || exists u, e :: Reach(edges, from, u, n - 1) && e in edges && Touches(e, u) && Other(e, u) == to
  }

  lemma {:induction false} ReachMore(edges: seq<Edge>, from: string, to: string, m: nat, n: nat)
    requires Reach(edges, from, to, m) && m <= n
    ensures Reach(edges, from, to, n)
    decreases n - m
  {
    if m < n {
      ReachMore(edges, from, to, m + 1, n);
    }
  }

  /** A chain reaches its end in as many steps as it has edges. */
  lemma {:induction false} ChainReaches(edges: seq<Edge>, path: seq<Edge>, start: string, from: string, to: string, n: nat)
    requires Reach(edges, start, from, n) && IsChain(edges, path, from, to)
    ensures Reach(edges, start, to, n + |path|)
    decreases |path|
  {
    if path != [] {
      var u := from;
      assert Reach(edges, start, u, n) && path[0] in edges && Touches(path[0], u);
      assert Reach(edges, start, Other(path[0], from), n + 1);
      ChainReaches(edges, path[1..], start, Other(path[0], from), to, n + 1);
    }
  }

  /** A table waiting in the queue with the chain that led to it. */
  datatype Entry = Entry(table: string, path: seq<Edge>)

  ghost predicate Queued(queue: seq<Entry>, table: string) { exists k :: 0 <= k < |queue| && queue[k].table == table }

  /** What holds of the search at distance `d`: whoever waits has a shortest chain, of `d` or `d + 1` edges and in that order; everything within `d` edges
      has been seen. */
  ghost predicate Level(edges: seq<Edge>, start: string, seen: set<string>, queue: seq<Entry>, d: nat)
  {
    && (forall k :: 0 <= k < |queue| ==> IsChain(edges, queue[k].path, start, queue[k].table) && queue[k].table in seen)
    && (forall k :: 0 <= k < |queue| ==> d <= |queue[k].path| <= d + 1)
    && (forall k :: 0 <= k < |queue| && |queue[k].path| == d + 1 ==> !Reach(edges, start, queue[k].table, d))
    && (forall j, k :: 0 <= j < k < |queue| ==> |queue[j].path| <= |queue[k].path|)
    && (forall v :: Reach(edges, start, v, d) ==> v in seen)
  }

  /** Every table that was seen and no longer waits has had its neighbours seen. */
  ghost predicate Done(edges: seq<Edge>, seen: set<string>, queue: seq<Entry>, except: Option<string>)
  {
    forall u, e :: u in seen && !Queued(queue, u) && Some(u) != except && e in edges && Touches(e, u) ==> Other(e, u) in seen
  }

  /** When only tables at distance `d + 1` wait, everything within `d + 1` edges has been seen. */
  lemma NextLevel(edges: seq<Edge>, start: string, seen: set<string>, queue: seq<Entry>, d: nat)
    requires Level(edges, start, seen, queue, d) && Done(edges, seen, queue, None)
    requires queue != [] && |queue[0].path| == d + 1
    ensures Level(edges, start, seen, queue, d + 1)
  {
    forall k | 0 <= k < |queue| ensures |queue[k].path| == d + 1 {
      assert |queue[0].path| <= |queue[k].path|;
    }
    forall v | Reach(edges, start, v, d + 1) ensures v in seen {
      if !Reach(edges, start, v, d) {
        var u, e :| Reach(edges, start, u, d) && e in edges && Touches(e, u) && Other(e, u) == v;
        assert u in seen && !Queued(queue, u);
      }
    }
  }

  /** When nobody waits, whatever a chain reaches has been seen. */
  lemma {:induction false} SeenIsClosed(edges: seq<Edge>, seen: set<string>, path: seq<Edge>, from: string, to: string)
    requires Done(edges, seen, [], None) && from in seen && IsChain(edges, path, from, to)
    ensures to in seen
  {
    if path != [] {
      assert !Queued([], from);
      SeenIsClosed(edges, seen, path[1..], Other(path[0], from), to);
    }
  }

  function Tables(edges: seq<Edge>, start: string): (ts: set<string>)
    ensures start in ts && forall e :: e in edges ==> e.child in ts && e.parent in ts
  {
    if edges == [] then {start} else Tables(edges[1..], start) + {edges[0].child, edges[0].parent}
  }

  /** The outcome of the search: no chain at all, or a chain no other is shorter than. */
  ghost predicate Answers(edges: seq<Edge>, start: string, goal: string, r: Option<seq<Edge>>)
  {
    if r.None? then forall p :: !IsChain(edges, p, start, goal)
    else IsChain(edges, r.value, start, goal) && forall p :: IsChain(edges, p, start, goal) ==> |r.value| <= |p|
  }

  /** `_fk_join_path` */
  method FkJoinPath(edges: seq<Edge>, start: string, goal: string) returns (r: Option<seq<Edge>>)
    ensures Answers(edges, start, goal, r)
  {
    if start == goal {
      return Some([]);
    }
    var seen, queue := {start}, [Entry(start, [])];
    ghost var d := 0;
    assert queue[0].table == start;
    while queue != []
      invariant start in seen && goal !in seen && seen <= Tables(edges, start)
      invariant Level(edges, start, seen, queue, d) && Done(edges, seen, queue, None)
      decreases Tables(edges, start) - seen, |queue|
    {
      if |queue[0].path| == d + 1 {
        NextLevel(edges, start, seen, queue, d);
        d := d + 1;
      }
      var found: Option<seq<Edge>>;
      found, seen, queue := Visit(edges, start, goal, seen, queue, d);
      if found.Some? {
        return found;
      }
    }
    forall p ensures !IsChain(edges, p, start, goal) {
      if IsChain(edges, p, start, goal) {
        SeenIsClosed(edges, seen, p, start, goal);
      }
    }
    r := None;
  }

  /** One turn of the search: the table in front of the queue is taken and its neighbours are looked at, one edge after the other. */
  method Visit(edges: seq<Edge>, start: string, goal: string, before: set<string>, waiting: seq<Entry>, ghost d: nat)
    returns (found: Option<seq<Edge>>, seen: set<string>, queue: seq<Entry>)
    requires waiting != [] && |waiting[0].path| == d && start in before && goal !in before && before <= Tables(edges, start)
    requires Level(edges, start, before, waiting, d) && Done(edges, before, waiting, None)
    ensures found.Some? ==> Answers(edges, start, goal, found)
    ensures found.None? ==>
      && before <= seen <= Tables(edges, start) && goal !in seen && (seen == before ==> |queue| < |waiting|)
      && Level(edges, start, seen, queue, d) && Done(edges, seen, queue, None)
  {
    hide IsChain, Reach;
    var Entry(here, path) := waiting[0];
    seen, queue := before, waiting[1..];
    PopFront(edges, before, waiting);
    for i := 0 to |edges|
      invariant before <= seen <= Tables(edges, start) && goal !in seen && (seen == before ==> |queue| < |waiting|)
      invariant Level(edges, start, seen, queue, d) && Done(edges, seen, queue, Some(here))
      invariant forall k :: 0 <= k < i && Touches(edges[k], here) ==> Other(edges[k], here) in seen
    {
      var e := edges[i];
      if !Touches(e, here) {
        continue;
      }
      var there := Other(e, here);
      if there in seen {
        continue;
      }
      ChainAppend(edges, path, start, here, e);
      if there == goal {
        FoundIsShortest(edges, start, goal, seen, queue, d, path + [e]);
        return Some(path + [e]), seen, queue;
      }
      Discover(edges, start, seen, queue, d, here, Entry(there, path + [e]));
      seen := seen + {there};
      queue := queue + [Entry(there, path + [e])];
    }
    found := None;
  }

  lemma PopFront(edges: seq<Edge>, seen: set<string>, queue: seq<Entry>)
    requires queue != [] && Done(edges, seen, queue, None)
    ensures Done(edges, seen, queue[1..], Some(queue[0].table))
  {
    forall k | 0 < k < |queue| ensures Queued(queue[1..], queue[k].table) {
      assert queue[1..][k - 1] == queue[k];
    }
  }

  lemma FoundIsShortest(edges: seq<Edge>, start: string, goal: string, seen: set<string>, queue: seq<Entry>, d: nat, path: seq<Edge>)
    requires goal !in seen && Level(edges, start, seen, queue, d) && IsChain(edges, path, start, goal) && |path| == d + 1
    ensures Answers(edges, start, goal, Some(path))
  {
    hide IsChain, Reach;
    assert !Reach(edges, start, goal, d);
    hide Level;
    forall p | IsChain(edges, p, start, goal) ensures |path| <= |p| {
      ChainReaches(edges, p, start, start, goal, 0);
      if |p| <= d {
        ReachMore(edges, start, goal, |p|, d);
      }
    }
  }

  lemma Discover(edges: seq<Edge>, start: string, seen: set<string>, queue: seq<Entry>, d: nat, here: string, entry: Entry)
    requires Level(edges, start, seen, queue, d) && Done(edges, seen, queue, Some(here))
    requires entry.table !in seen && |entry.path| == d + 1 && IsChain(edges, entry.path, start, entry.table)
    ensures Level(edges, start, seen + {entry.table}, queue + [entry], d)
    ensures Done(edges, seen + {entry.table}, queue + [entry], Some(here))
  {
    var queue' := queue + [entry];
    assert queue'[|queue|] == entry;
    forall k | 0 <= k < |queue| ensures Queued(queue', queue[k].table) {
      assert queue'[k] == queue[k];
    }
  }
}
