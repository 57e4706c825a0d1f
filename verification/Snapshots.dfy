/** Row versions and the snapshots that read them: what a transaction sees while others begin, write, finish and clean up. */
module Snapshots {
  import opened Common

  type Txn = nat

  /** A physical version of a row; `xmax` is 0 while it is the current one. */
  datatype Version = Version(data: string, xmin: Txn, xmax: Txn)

  /** What a snapshot knows: its own transaction, the first id that did not exist yet, the ids that were open. */
  datatype Ctx = Ctx(self: Txn, cutoff: Txn, inProgress: set<Txn>)

  predicate CommittedAsOf(c: Ctx, id: Txn) { id == 0 || (id < c.cutoff && id !in c.inProgress) }

  /** The snapshot knows who wrote the version. */
  predicate Created(v: Version, c: Ctx) { v.xmin == c.self || CommittedAsOf(c, v.xmin) }

  /** `is_visible_for_read`, and `visible_under`, which is the same. */
  predicate VisibleTo(v: Version, c: Ctx) { Created(v, c) && (v.xmax == 0 || (v.xmax != c.self && !CommittedAsOf(c, v.xmax))) }

  /** What is read of a version: its data, and whose it is. */
  type Seen = (string, Txn)

  /** The versions a snapshot reads, in their order. */
  function Visible(rows: seq<Version>, c: Ctx): seq<Seen>
  {
    if rows == [] then [] else (if VisibleTo(rows[0], c) then [(rows[0].data, rows[0].xmin)] else []) + Visible(rows[1..], c)
  }

  function Data(seen: seq<Seen>): seq<string> { seq(|seen|, i requires 0 <= i < |seen| => seen[i].0) }

  method Read(rows: seq<Version>, c: Ctx) returns (found: seq<string>)
    ensures found == Data(Visible(rows, c))
  {
    found := [];
    ghost var seen: seq<Seen> := [];
    assert rows[0..] == rows;
    for i := 0 to |rows|
      invariant found == Data(seen) && seen + Visible(rows[i..], c) == Visible(rows, c)
    {
      assert rows[i..][0] == rows[i] && rows[i..][1..] == rows[i + 1..];
      Regroup(seen, [(rows[i].data, rows[i].xmin)], Visible(rows[i + 1..], c));
      assert [] + Visible(rows[i + 1..], c) == Visible(rows[i + 1..], c);
      if VisibleTo(rows[i], c) {
        found := found + [rows[i].data];
        seen := seen + [(rows[i].data, rows[i].xmin)];
      }
    }
    assert seen + [] == seen;
  }

  // ---- what happens to the rows ----

  /** A rollback erases what the transaction wrote and revives what it ended. */
  function Undone(rows: seq<Version>, u: Txn): seq<Version>
  {
    if rows == [] then []
    else if rows[0].xmin == u then Undone(rows[1..], u)
    else [Revived(rows[0], u)] + Undone(rows[1..], u)
  }

  function Revived(v: Version, u: Txn): Version { if v.xmax == u then v.(xmax := 0) else v }

  /** `is_vacuumable` */
  predicate Vacuumable(v: Version, horizon: Txn) { v.xmax != 0 && v.xmax < horizon }

  function Vacuumed(rows: seq<Version>, horizon: Txn): seq<Version>
  {
    if rows == [] then [] else (if Vacuumable(rows[0], horizon) then [] else [rows[0]]) + Vacuumed(rows[1..], horizon)
  }

  // ---- the engine ----

  /** The id counter; who holds the lock on the open transactions while it begins; those that have begun and are not in the set yet; the open ones; the autocommit
      statements under way with an id; the rows; the snapshots that are kept for a whole transaction. */
  datatype State = State(next: Txn, holder: Option<Txn>, begun: set<Txn>, active: set<Txn>, taken: set<Txn>, rows: seq<Version>, frozen: map<Txn, Ctx>)

  /** BEGIN is three steps: under the lock it takes its id (`Begin`), then looks at the counter and copies the open transactions (`Look`); it lets go of the
      lock, takes it again and enters its id (`Enter`). */
  datatype Event =
    | Begin
    | Look(freeze: bool)
    | Enter(txn: Txn)
    | Take
    | Insert(txn: Txn, data: string)
    | End(txn: Txn, at: nat)
    | Commit(txn: Txn)
    | Rollback(txn: Txn)
    | Vacuum(horizon: Txn)

  /** `oldest_active_txn_id` */
  ghost predicate IsHorizon(s: State, h: Txn)
  {
    if s.active == {} then h == s.next else h in s.active && forall a :: a in s.active ==> h <= a
  }

  predicate MayWrite(s: State, u: Txn) { u in s.active || u in s.taken }

  /** The snapshot of the transaction that holds the lock. */
  function Now(s: State, t: Txn): Ctx { Ctx(t, s.next, s.active) }

  ghost predicate Step(s: State, e: Event, s': State)
  {
    match e
    case Begin => s.holder.None? && s' == s.(next := s.next + 1, holder := Some(s.next))
    case Look(freeze) =>
      && s.holder.Some?
      && var t := s.holder.value;
         s' == s.(holder := None, begun := s.begun + {t}, frozen := if freeze then s.frozen[t := Now(s, t)] else s.frozen)
    case Enter(t) => s.holder.None? && t in s.begun && s' == s.(begun := s.begun - {t}, active := s.active + {t})
    case Take => s' == s.(next := s.next + 1, taken := s.taken + {s.next})
    case Insert(u, data) => MayWrite(s, u) && s' == s.(rows := s.rows + [Version(data, u, 0)])
    case End(u, i) => MayWrite(s, u) && i < |s.rows| && s.rows[i].xmax == 0 && s' == s.(rows := s.rows[i := s.rows[i].(xmax := u)])
    case Commit(u) =>
      && MayWrite(s, u) && (u in s.active ==> s.holder.None?)
      && s' == s.(active := s.active - {u}, taken := s.taken - {u}, frozen := s.frozen - {u})
    case Rollback(u) => u in s.active && s.holder.None? && s' == s.(active := s.active - {u}, frozen := s.frozen - {u}, rows := Undone(s.rows, u))
    case Vacuum(h) => s' == s.(rows := Vacuumed(s.rows, h))
  }

  // ---- one step under a snapshot ----

  lemma {:induction false} VisibleAppend(a: seq<Version>, b: seq<Version>, c: Ctx)
    ensures Visible(a + b, c) == Visible(a, c) + Visible(b, c)
  {
    if a == [] {
      assert a + b == b;
    } else {
      assert (a + b)[0] == a[0] && (a + b)[1..] == a[1..] + b;
      VisibleAppend(a[1..], b, c);
      Regroup(if VisibleTo(a[0], c) then [(a[0].data, a[0].xmin)] else [], Visible(a[1..], c), Visible(b, c));
    }
  }

  lemma VisibleOne(v: Version, c: Ctx)
    ensures Visible([v], c) == if VisibleTo(v, c) then [(v.data, v.xmin)] else []
  {
    assert Visible([v][1..], c) == [];
  }

  lemma VisibleAt(rows: seq<Version>, i: nat, v: Version, c: Ctx)
    requires i < |rows|
    ensures Visible(rows[i := v], c) == Visible(rows[..i], c) + (Visible([v], c) + Visible(rows[i + 1..], c))
  {
    assert rows[i := v] == rows[..i] + ([v] + rows[i + 1..]);
    VisibleAppend(rows[..i], [v] + rows[i + 1..], c);
    VisibleAppend([v], rows[i + 1..], c);
  }

  /** The snapshot changes when another's version appears exactly when it takes the writer for committed. */
  lemma InsertSeen(rows: seq<Version>, u: Txn, data: string, c: Ctx)
    requires u != c.self
    ensures Visible(rows + [Version(data, u, 0)], c) == Visible(rows, c) <==> !CommittedAsOf(c, u)
  {
    VisibleAppend(rows, [Version(data, u, 0)], c);
    VisibleOne(Version(data, u, 0), c);
    assert Visible(rows, c) + [] == Visible(rows, c);
  }

  lemma EndSeen(rows: seq<Version>, u: Txn, i: nat, c: Ctx)
    requires u != c.self && u != 0 && i < |rows| && rows[i].xmax == 0
    ensures Visible(rows[i := rows[i].(xmax := u)], c) == Visible(rows, c) <==> !VisibleTo(rows[i], c) || !CommittedAsOf(c, u)
  {
    var v := rows[i].(xmax := u);
    assert rows[i := rows[i]] == rows;
    VisibleAt(rows, i, rows[i], c);
    VisibleAt(rows, i, v, c);
    VisibleOne(rows[i], c);
    VisibleOne(v, c);
  }

  /** A rollback does not concern the snapshot: it reads nothing of what is erased, and of what is revived only what it reads already. */
  ghost predicate NoneUndone(rows: seq<Version>, u: Txn, c: Ctx) { forall i :: 0 <= i < |rows| ==> UndoQuiet(rows[i], u, c) }

  predicate UndoQuiet(v: Version, u: Txn, c: Ctx) { if v.xmin == u then !VisibleTo(v, c) else VisibleTo(Revived(v, u), c) ==> VisibleTo(v, c) }

  /** How many of the versions read are not written by `u`. */
  function Foreign(seen: seq<Seen>, u: Txn): nat { if seen == [] then 0 else (if seen[0].1 != u then 1 else 0) + Foreign(seen[1..], u) }

  lemma ForeignFirst(x: Seen, seen: seq<Seen>, u: Txn)
    ensures Foreign([x] + seen, u) == (if x.1 != u then 1 else 0) + Foreign(seen, u)
  {
    assert ([x] + seen)[1..] == seen;
  }

  lemma VisibleFirst(v: Version, rows: seq<Version>, c: Ctx)
    ensures Visible([v] + rows, c) == if VisibleTo(v, c) then [(v.data, v.xmin)] + Visible(rows, c) else Visible(rows, c)
  {
    assert ([v] + rows)[1..] == rows && [] + Visible(rows, c) == Visible(rows, c);
  }

  /** What was read before a rollback and is read after it: nothing of the transaction is left, and of the others there is no less than before; more, or something
      is gone, unless the rollback is quiet. */
  ghost predicate Counted(was: seq<Seen>, now: seq<Seen>, u: Txn, quiet: bool)
  {
    && |now| == Foreign(now, u) >= Foreign(was, u) && |was| >= Foreign(was, u)
    && if quiet then now == was else |now| > Foreign(was, u) || |was| > Foreign(was, u)
  }

  lemma CountFirst(v: Version, u: Txn, c: Ctx, was: seq<Seen>, now: seq<Seen>, quiet: bool)
    requires u != c.self && Counted(was, now, u, quiet)
    ensures var e := [(v.data, v.xmin)];
      var wasMore := if VisibleTo(v, c) then e + was else was;
      var nowMore := if v.xmin != u && VisibleTo(Revived(v, u), c) then e + now else now;
      Counted(wasMore, nowMore, u, quiet && UndoQuiet(v, u, c))
  {
    ForeignFirst((v.data, v.xmin), was, u);
    ForeignFirst((v.data, v.xmin), now, u);
    hide Foreign;
  }

  lemma {:induction false} RollbackCount(rows: seq<Version>, u: Txn, c: Ctx)
    requires u != c.self
    ensures Counted(Visible(rows, c), Visible(Undone(rows, u), c), u, NoneUndone(rows, u, c))
  {
    if rows != [] {
      var v, t := rows[0], rows[1..];
      RollbackCount(t, u, c);
      assert NoneUndone(rows, u, c) <==> UndoQuiet(v, u, c) && NoneUndone(t, u, c) by {
        assert forall i :: 1 <= i < |rows| ==> rows[i] == t[i - 1];
      }
      assert rows == [v] + t;
      VisibleFirst(v, t, c);
      VisibleFirst(Revived(v, u), Undone(t, u), c);
      hide NoneUndone, Visible, VisibleTo, UndoQuiet, Counted;
      CountFirst(v, u, c, Visible(t, c), Visible(Undone(t, u), c), NoneUndone(t, u, c));
    }
  }

  /** The snapshot reads the same after a rollback exactly when the rollback does not concern it. */
  lemma RollbackSeen(rows: seq<Version>, u: Txn, c: Ctx)
    requires u != c.self
    ensures Visible(Undone(rows, u), c) == Visible(rows, c) <==> NoneUndone(rows, u, c)
  {
    hide Visible, Foreign, NoneUndone, Undone;
    RollbackCount(rows, u, c);
  }

  /** Nor does it concern one that does not take the transaction for committed. */
  lemma OpenUndoneUnseen(rows: seq<Version>, u: Txn, c: Ctx)
    requires u != c.self && !CommittedAsOf(c, u)
    ensures NoneUndone(rows, u, c)
  {
  }

  ghost predicate NoneSeen(rows: seq<Version>, h: Txn, c: Ctx) { forall i :: 0 <= i < |rows| && Vacuumable(rows[i], h) ==> !VisibleTo(rows[i], c) }

  /** A snapshot survives a vacuum exactly when nothing it reads is taken. */
  lemma {:induction false} VacuumSeen(rows: seq<Version>, h: Txn, c: Ctx)
    ensures |Visible(Vacuumed(rows, h), c)| <= |Visible(rows, c)|
    ensures Visible(Vacuumed(rows, h), c) == Visible(rows, c) <==> NoneSeen(rows, h, c)
    ensures !NoneSeen(rows, h, c) ==> |Visible(Vacuumed(rows, h), c)| < |Visible(rows, c)|
  {
    if rows != [] {
      var t := rows[1..];
      VacuumSeen(t, h, c);
      assert NoneSeen(rows, h, c) <==> NoneSeen(t, h, c) && (Vacuumable(rows[0], h) ==> !VisibleTo(rows[0], c)) by {
        assert forall i :: 1 <= i < |rows| ==> rows[i] == t[i - 1];
      }
      if Vacuumable(rows[0], h) {
        assert [] + Vacuumed(t, h) == Vacuumed(t, h);
      } else {
        assert ([rows[0]] + Vacuumed(t, h))[1..] == Vacuumed(t, h);
      }
    }
  }

  /** A horizon not above anything the snapshot saw open takes nothing the snapshot reads. */
  lemma LowHorizonIsSafe(rows: seq<Version>, h: Txn, c: Ctx)
    requires h <= c.cutoff && forall a :: a in c.inProgress ==> h <= a
    ensures NoneSeen(rows, h, c)
  {
  }

  // ---- runs ----

  ghost predicate Path(states: seq<State>, events: seq<Event>)
  {
    |states| == |events| + 1 && forall i :: 0 <= i < |events| ==> Step(states[i], events[i], states[i + 1])
  }

  ghost predicate Fresh(s: State) { s.active == {} == s.taken && s.begun == {} && s.holder == None && s.frozen == map[] && s.next > 0 }

  ghost predicate Run(states: seq<State>, events: seq<Event>) { Path(states, events) && Fresh(states[0]) }

  /** Ids are below the counter, and nobody is in two places. */
  ghost predicate Sound(s: State)
  {
    && s.next > 0
    && (forall u: Txn :: Known(s, u) ==> 0 < u < s.next)
    && (forall u: Txn :: u in s.begun ==> u !in s.active && u !in s.taken && s.holder != Some(u))
    && (forall u: Txn :: u in s.active ==> u !in s.taken && s.holder != Some(u))
    && (forall u: Txn :: u in s.taken ==> s.holder != Some(u))
  }

  /** Has an id and is not finished. */
  predicate Known(s: State, u: Txn) { MayWrite(s, u) || u in s.begun || s.holder == Some(u) }

  lemma StepSound(s: State, e: Event, s': State)
    requires Step(s, e, s') && Sound(s)
    ensures Sound(s')
  {
    forall u: Txn | Known(s', u) ensures 0 < u < s'.next {
      assert Known(s, u) || u == s.next;
    }
    assert !Known(s, s.next);
  }

  lemma {:induction false} RunSound(states: seq<State>, events: seq<Event>, i: nat)
    requires Path(states, events) && Sound(states[0]) && i < |states|
    ensures Sound(states[i])
  {
    hide Step, Sound;
    if i > 0 {
      RunSound(states, events, i - 1);
      StepSound(states[i - 1], events[i - 1], states[i]);
    }
  }

  ghost predicate Others(e: Event, t: Txn) { (e.Insert? || e.End? || e.Commit? || e.Rollback?) ==> e.txn != t }

  // ---- exactly when reads repeat ----

  /** The step does not concern the snapshot. */
  ghost predicate Quiet(s: State, e: Event, c: Ctx)
  {
    match e
    case Insert(u, _) => !CommittedAsOf(c, u)
    case End(u, i) => i < |s.rows| && VisibleTo(s.rows[i], c) ==> !CommittedAsOf(c, u)
    case Rollback(u) => NoneUndone(s.rows, u, c)
    case Vacuum(h) => NoneSeen(s.rows, h, c)
    case _ => true
  }

  lemma StepSeen(s: State, e: Event, s': State, c: Ctx)
    requires Sound(s) && Step(s, e, s') && Others(e, c.self)
    ensures Visible(s'.rows, c) == Visible(s.rows, c) <==> Quiet(s, e, c)
  {
    match e
    case Insert(u, data) => InsertSeen(s.rows, u, data, c);
    case End(u, i) =>
      assert Known(s, u);
      EndSeen(s.rows, u, i, c);
    case Rollback(u) => RollbackSeen(s.rows, u, c);
    case Vacuum(h) => VacuumSeen(s.rows, h, c);
    case _ =>
  }

  ghost predicate ReadsSame(states: seq<State>, i: nat, j: nat, c: Ctx)
    requires i <= j < |states|
  {
    forall k :: i <= k <= j ==> Visible(states[k].rows, c) == Visible(states[i].rows, c)
  }

  ghost predicate AllQuiet(states: seq<State>, events: seq<Event>, i: nat, j: nat, c: Ctx)
    requires i <= j <= |events| && |states| == |events| + 1
  {
    forall k :: i <= k < j ==> Quiet(states[k], events[k], c)
  }

  ghost predicate AllOthers(events: seq<Event>, i: nat, j: nat, t: Txn)
    requires i <= j <= |events|
  {
    forall k :: i <= k < j ==> Others(events[k], t)
  }

  /** In every run, whatever a snapshot is: it reads the same all the time exactly when no step concerns it. */
  lemma {:induction false} ReadsRepeatExactly(states: seq<State>, events: seq<Event>, i: nat, j: nat, c: Ctx)
    requires Path(states, events) && Sound(states[0]) && i <= j < |states| && AllOthers(events, i, j, c.self)
    ensures ReadsSame(states, i, j, c) <==> AllQuiet(states, events, i, j, c)
    decreases j
  {
    hide Step, Sound, Visible, Quiet, Others;
    if i < j {
      ReadsRepeatExactly(states, events, i, j - 1, c);
      RunSound(states, events, j - 1);
      assert Others(events[j - 1], c.self);
      StepSeen(states[j - 1], events[j - 1], states[j], c);
      assert ReadsSame(states, i, j, c) <==> ReadsSame(states, i, j - 1, c) && Visible(states[j].rows, c) == Visible(states[i].rows, c);
      assert AllQuiet(states, events, i, j, c) <==> AllQuiet(states, events, i, j - 1, c) && Quiet(states[j - 1], events[j - 1], c);
    }
  }

  // ---- exactly which snapshots are safe ----

  /** The transaction that looks is alone: nobody else has an id without being among the open transactions. */
  predicate Alone(s: State) { s.begun == {} && s.taken == {} }

  /** Nobody else who is not finished counts as committed. */
  ghost predicate Shielded(s: State, c: Ctx) { c.cutoff <= s.next && forall u: Txn :: Known(s, u) && u != c.self ==> !CommittedAsOf(c, u) }

  lemma LookShields(s: State, freeze: bool, s': State, t: Txn)
    requires Sound(s) && Step(s, Look(freeze), s') && s.holder == Some(t) && Alone(s)
    ensures Shielded(s', Now(s, t))
  {
    forall u: Txn | Known(s', u) && u != t ensures !CommittedAsOf(Now(s, t), u) {
      assert Known(s, u);
    }
  }

  lemma StepShielded(s: State, e: Event, s': State, c: Ctx)
    requires Sound(s) && Step(s, e, s') && Shielded(s, c) && Others(e, c.self)
    ensures Shielded(s', c) && (!e.Vacuum? ==> Quiet(s, e, c))
  {
    forall u: Txn | Known(s', u) && u != c.self ensures !CommittedAsOf(c, u) {
      assert Known(s, u) || u == s.next;
    }
    if e.Rollback? {
      assert Known(s, e.txn);
      OpenUndoneUnseen(s.rows, e.txn, c);
    } else if e.Insert? || e.End? {
      assert Known(s, e.txn);
    }
  }

  lemma {:induction false} PathShielded(states: seq<State>, events: seq<Event>, j: nat, c: Ctx)
    requires Path(states, events) && Sound(states[0]) && Shielded(states[0], c) && j < |states| && AllOthers(events, 0, j, c.self)
    ensures Shielded(states[j], c) && forall k :: 0 <= k < j && !events[k].Vacuum? ==> Quiet(states[k], events[k], c)
  {
    hide Step, Sound, Shielded, Quiet, Others;
    if j > 0 {
      PathShielded(states, events, j - 1, c);
      RunSound(states, events, j - 1);
      assert Others(events[j - 1], c.self);
      StepShielded(states[j - 1], events[j - 1], states[j], c);
    }
  }

  ghost predicate VacuumsSafe(states: seq<State>, events: seq<Event>, c: Ctx)
    requires |states| == |events| + 1
  {
    forall k :: 0 <= k < |events| && events[k].Vacuum? ==> NoneSeen(states[k].rows, events[k].horizon, c)
  }

  /** Repeatable reads: on every path from a snapshot taken alone the transaction, as long as it does not write itself, reads the same exactly when no vacuum
      takes what it reads, whatever the others insert, end, commit and roll back. */
  lemma ReadsRepeat(states: seq<State>, events: seq<Event>, before: State, t: Txn)
    requires Path(states, events) && Sound(before) && before.holder == Some(t) && Alone(before) && Step(before, Look(true), states[0])
    requires AllOthers(events, 0, |events|, t)
    ensures ReadsSame(states, 0, |events|, Now(before, t)) <==> VacuumsSafe(states, events, Now(before, t))
  {
    var c := Now(before, t);
    StepSound(before, Look(true), states[0]);
    LookShields(before, true, states[0], t);
    hide Step, Sound, Shielded, NoneSeen, Visible;
    PathShielded(states, events, |events|, c);
    ReadsRepeatExactly(states, events, 0, |events|, c);
  }

  /** The others cannot change what the snapshot reads, however they go on. */
  ghost predicate Undisturbed(s: State, c: Ctx)
  {
    forall states, events :: Path(states, events) && states[0] == s && AllOthers(events, 0, |events|, c.self) && NoVacuum(events)
                         ==> ReadsSame(states, 0, |events|, c)
  }

  ghost predicate NoVacuum(events: seq<Event>) { forall k :: 0 <= k < |events| ==> !events[k].Vacuum? }

  /** A snapshot is safe from the others exactly when it was taken alone: when nobody else had begun and was not in the set yet, and no autocommit statement was
      under way with an id. */
  lemma SafeExactlyWhenAlone(s: State, s': State, t: Txn)
    requires Sound(s) && Step(s, Look(true), s') && s.holder == Some(t)
    ensures Undisturbed(s', Now(s, t)) <==> Alone(s)
  {
    var c := Now(s, t);
    StepSound(s, Look(true), s');
    if Alone(s) {
      forall states, events | Path(states, events) && states[0] == s' && AllOthers(events, 0, |events|, t) && NoVacuum(events)
        ensures ReadsSame(states, 0, |events|, c)
      {
        ReadsRepeat(states, events, s, t);
      }
    } else {
      var states, events := Disturb(s, s', t);
      assert !ReadsSame(states, 0, |events|, c);
    }
  }

  /** Whoever else has an id and is not in the set writes a row, once the transaction can read. */
  lemma Disturb(s: State, s': State, t: Txn) returns (states: seq<State>, events: seq<Event>)
    requires Sound(s) && Step(s, Look(true), s') && s.holder == Some(t) && !Alone(s)
    ensures Path(states, events) && states[0] == s' && AllOthers(events, 0, |events|, t) && NoVacuum(events)
    ensures !ReadsSame(states, 0, |events|, Now(s, t))
  {
    var c := Now(s, t);
    var s1 := s'.(begun := s'.begun - {t}, active := s'.active + {t});
    assert Step(s', Enter(t), s1);
    var u: Txn := if s.taken != {} then (var u :| u in s.taken; u) else (var u :| u in s.begun; u);
    assert Known(s, u);
    if u in s.taken {
      var s2 := s1.(rows := s1.rows + [Version("x", u, 0)]);
      states, events := [s', s1, s2], [Enter(t), Insert(u, "x")];
      InsertSeen(s1.rows, u, "x", c);
    } else {
      var s2 := s1.(begun := s1.begun - {u}, active := s1.active + {u});
      var s3 := s2.(rows := s2.rows + [Version("x", u, 0)]);
      states, events := [s', s1, s2, s3], [Enter(t), Enter(u), Insert(u, "x")];
      InsertSeen(s2.rows, u, "x", c);
    }
    assert Visible(states[|events|].rows, c) != Visible(states[0].rows, c);
  }

  // ---- where reads do not repeat ----

  const START := State(1, None, {}, {}, {}, [Version("old", 0, 0)], map[])

  /** VACUUM goes by ids: it takes what a transaction ended that committed before the vacuum, though an older snapshot than its commit, with a higher id, still
      reads it. One begins, two begins alone and keeps its snapshot, one replaces the row and commits, vacuum: two reads nothing. */
  lemma VacuumTakesWhatIsRead() returns (states: seq<State>, events: seq<Event>)
    ensures |states| == 11 && Run(states, events) && events[4] == Look(true) && Alone(states[4]) && IsHorizon(states[9], 2) && events[9] == Vacuum(2)
    ensures 2 in states[6].frozen && 2 in states[6].active && Data(Visible(states[6].rows, states[6].frozen[2])) == ["old"]
    ensures 2 in states[10].frozen && Data(Visible(states[10].rows, states[10].frozen[2])) == []
    ensures AllOthers(events, 6, |events|, 2)
  {
    hide Visible, Undone, Vacuumed;
    var c := Ctx(2, 3, {1});
    var before, after := Version("old", 0, 1), Version("new", 1, 0);
    var s4 := State(3, Some(2), {}, {1}, {}, START.rows, map[]);
    var s5 := s4.(holder := None, begun := {2}, frozen := map[2 := c]);
    var s6 := s5.(begun := {}, active := {1, 2});
    var s7 := s6.(rows := [before]);
    var s8 := s6.(rows := [before, after]);
    var s9 := s8.(active := {2});
    var s10 := s9.(rows := [after]);
    OneBegins();
    states := [START, START.(next := 2, holder := Some(1)), START.(next := 2, begun := {1}), START.(next := 2, active := {1}), s4, s5, s6, s7, s8, s9, s10];
    events := [Begin, Look(false), Enter(1), Begin, Look(true), Enter(2), End(1, 0), Insert(1, "new"), Commit(1), Vacuum(2)];
    assert s6.active == s5.active + {2};
    assert s9.active == s8.active - {1} && s9.frozen == s8.frozen - {1} && s9.taken == s8.taken - {1};
    assert s7.rows == s6.rows[0 := before];
    TwoRows(before, after, 2);
    VisibleOne(Version("old", 0, 0), c);
    VisibleOne(after, c);
  }

  lemma OneBegins()
    ensures Step(START, Begin, START.(next := 2, holder := Some(1)))
    ensures Step(START.(next := 2, holder := Some(1)), Look(false), START.(next := 2, begun := {1}))
    ensures Step(START.(next := 2, begun := {1}), Enter(1), START.(next := 2, active := {1}))
  {
  }

  lemma TwoRows(a: Version, b: Version, h: Txn)
    requires Vacuumable(a, h) && !Vacuumable(b, h)
    ensures Vacuumed([a, b], h) == [b]
  {
    assert [a, b][1..] == [b] && [b][1..] == [];
    assert Vacuumed([b], h) == [b];
  }

  /** An autocommit statement takes its id first and writes later; a snapshot begun in between takes the id for committed, and sees the row change. */
  lemma LateStatementIsRead() returns (states: seq<State>, events: seq<Event>)
    ensures |states| == 7 && Run(states, events)
    ensures 2 in states[4].frozen && 2 in states[4].active && Data(Visible(states[4].rows, states[4].frozen[2])) == ["old"]
    ensures 2 in states[6].frozen && Data(Visible(states[6].rows, states[6].frozen[2])) == ["new"]
    ensures AllOthers(events, 4, |events|, 2) && NoVacuum(events)
  {
    hide Visible, Undone, Vacuumed;
    var c := Ctx(2, 3, {});
    var before, after := Version("old", 0, 1), Version("new", 1, 0);
    var s0 := START;
    var s1 := s0.(next := 2, taken := {1});
    var s2 := s1.(next := 3, holder := Some(2));
    var s3 := s2.(holder := None, begun := {2}, frozen := map[2 := c]);
    var s4 := s3.(begun := {}, active := {2});
    var s5 := s4.(rows := [before]);
    var s6 := s4.(rows := [before, after]);
    states := [s0, s1, s2, s3, s4, s5, s6];
    events := [Take, Begin, Look(true), Enter(2), End(1, 0), Insert(1, "new")];
    assert s5.rows == s4.rows[0 := before];
    VisibleOne(Version("old", 0, 0), c);
    ReplacedRow(before, after, c);
  }

  lemma ReplacedRow(a: Version, b: Version, c: Ctx)
    ensures Visible([a, b], c) == (if VisibleTo(a, c) then [(a.data, a.xmin)] else []) + if VisibleTo(b, c) then [(b.data, b.xmin)] else []
  {
    VisibleAppend([a], [b], c);
    VisibleOne(a, c);
    VisibleOne(b, c);
    assert [a] + [b] == [a, b];
  }

  /** Between taking its id and entering the open transactions one is in neither the copy nor beyond the cutoff of another that begins: what it writes is read
      before it commits, and no more once it has rolled back. */
  lemma UncommittedIsRead() returns (states: seq<State>, events: seq<Event>)
    ensures |states| == 9 && Run(states, events)
    ensures 2 in states[6].frozen && 2 in states[6].active && Data(Visible(states[6].rows, states[6].frozen[2])) == ["old"]
    ensures 2 in states[7].frozen && Data(Visible(states[7].rows, states[7].frozen[2])) == ["old", "new"] && 1 in states[7].active
    ensures 2 in states[8].frozen && Data(Visible(states[8].rows, states[8].frozen[2])) == ["old"]
    ensures AllOthers(events, 6, |events|, 2) && NoVacuum(events)
  {
    hide Visible, Undone, Vacuumed;
    var c := Ctx(2, 3, {});
    var before, after := Version("old", 0, 0), Version("new", 1, 0);
    var s0 := START;
    var s1 := s0.(next := 2, holder := Some(1));
    var s2 := s1.(holder := None, begun := {1});
    var s3 := s2.(next := 3, holder := Some(2));
    var s4 := s3.(holder := None, begun := {1, 2}, frozen := map[2 := c]);
    var s5 := s4.(begun := {1}, active := {2});
    var s6 := s5.(begun := {}, active := {1, 2});
    var s7 := s6.(rows := [before, after]);
    var s8 := s6.(active := {2});
    states := [s0, s1, s2, s3, s4, s5, s6, s7, s8];
    events := [Begin, Look(false), Begin, Look(true), Enter(2), Enter(1), Insert(1, "new"), Rollback(1)];
    assert s4.begun == s3.begun + {2} && s5.begun == s4.begun - {2} && s6.active == s5.active + {1};
    assert s8.active == s7.active - {1} && s8.frozen == s7.frozen - {1};
    UndoneTwo(before, after, 1);
    VisibleOne(before, c);
    ReplacedRow(before, after, c);
  }

  lemma UndoneTwo(a: Version, b: Version, u: Txn)
    requires a.xmin != u && a.xmax != u && b.xmin == u
    ensures Undone([a, b], u) == [a]
  {
    assert [a, b][1..] == [b] && [b][1..] == [];
    assert Undone([b], u) == [];
  }
}
