/** Every run of the lock manager: locks keep others out until they are released; when a deadlock is found, and when one is not. */
module LockRuns {
  import opened Common
  import opened WaitGraph
  import opened LockManager

  ghost predicate Run(states: seq<State>, events: seq<Event>)
  {
    && |states| == |events| + 1 && states[0] == State(map[], map[], map[])
    && forall i :: 0 <= i < |events| ==> Step(states[i], events[i], states[i + 1])
  }

  // ---- a lock is kept until it is released ----

  predicate Holds(s: State, txn: Txn, row: Row) { row in s.locks && txn in HoldersOf(s.locks[row]) }
  predicate HoldsAlone(s: State, txn: Txn, row: Row) { row in s.locks && s.locks[row] == Exclusive(txn) }

  lemma StepKeepsLock(s: State, e: Event, s': State, txn: Txn, row: Row)
    requires Step(s, e, s') && Holds(s, txn, row) && e != Release(txn)
    ensures Holds(s', txn, row) && (HoldsAlone(s, txn, row) ==> HoldsAlone(s', txn, row))
  {
    match e
    case Release(u) =>
      assert txn in HoldersOf(s.locks[row]) - {u};
    case _ =>
  }

  /** What a granted request gives. */
  lemma GrantedIsHeld(s: State, e: Event, s': State)
    requires Step(s, e, s') && !e.Release? && e.answer == Granted
    ensures var req := if e.Ask? then e.req else s.asleep[e.txn];
      Holds(s', e.txn, req.row) && (req.exclusive ==> HoldsAlone(s', e.txn, req.row))
  {
    var req := if e.Ask? then e.req else s.asleep[e.txn];
    if req.row in s.locks && s.locks[req.row].Exclusive? {
      var holder := s.locks[req.row].holder;
      assert holder == e.txn || holder in Blockers(s.locks, e.txn, req);
    }
  }

  /** A lock lasts until its transaction releases. */
  lemma {:induction false} LockLasts(states: seq<State>, events: seq<Event>, i: nat, j: nat, txn: Txn, row: Row)
    requires Run(states, events) && i <= j <= |events| && Holds(states[i], txn, row)
    requires forall k :: i <= k < j ==> events[k] != Release(txn)
    ensures Holds(states[j], txn, row) && (HoldsAlone(states[i], txn, row) ==> HoldsAlone(states[j], txn, row))
    decreases j
  {
    hide Step;
    if i < j {
      LockLasts(states, events, i, j - 1, txn, row);
      StepKeepsLock(states[j - 1], events[j - 1], states[j], txn, row);
    }
  }

  ghost function Wanted(states: seq<State>, events: seq<Event>, i: nat): Request
    requires Run(states, events) && i < |events| && !events[i].Release?
  {
    assert Step(states[i], events[i], states[i + 1]);
    if events[i].Ask? then events[i].req else states[i].asleep[events[i].txn]
  }

  /** In no run do two transactions have the same row at once, one of them for itself alone: after a grant, and until its transaction releases, no other
      grant on the row goes with it unless both are shared. */
  lemma NoTwoOwners(states: seq<State>, events: seq<Event>, i: nat, j: nat)
    requires Run(states, events) && i < j < |events| && !events[i].Release? && !events[j].Release?
    requires events[i].answer == Granted && events[j].answer == Granted && events[i].txn != events[j].txn
    requires Wanted(states, events, i).row == Wanted(states, events, j).row
    requires forall k :: i < k < j ==> events[k] != Release(events[i].txn)
    ensures !Wanted(states, events, i).exclusive && !Wanted(states, events, j).exclusive
  {
    var row, t, u := Wanted(states, events, i).row, events[i].txn, events[j].txn;
    GrantedIsHeld(states[i], events[i], states[i + 1]);
    GrantedIsHeld(states[j], events[j], states[j + 1]);
    LockLasts(states, events, i + 1, j + 1, t, row);
  }

  // ---- cycles ----

  /** Every step but one kind keeps the arrows free of cycles. A sleeper that finds a new holder in its way turns its arrow to it without looking: then they
      stay free exactly when `creates_cycle` would have said no. */
  lemma StepKeepsAcyclic(s: State, e: Event, s': State)
    requires Step(s, e, s') && Acyclic(s.waits)
    ensures !(e.Wake? && e.answer.Waiting?) ==> Acyclic(s'.waits)
    ensures e.Wake? && e.answer.Waiting? ==> (Acyclic(s'.waits) <==> !Reaches(s.waits, e.answer.holder, e.txn))
  {
    hide Acyclic, Reaches;
    match e
    case Ask(txn, req, patient, answer) =>
      if answer.Conflict? || answer.Waiting? {
        TurnedArrow(s.waits, txn, answer.holder);
      }
    case Wake(txn, answer) =>
      if answer.Waiting? {
        TurnedArrow(s.waits, txn, answer.holder);
      } else {
        FewerArrows(s'.waits, s.waits);
      }
    case Release(txn) => FewerArrows(s'.waits, s.waits);
  }

  ghost predicate Looked(s: State, e: Event) { e.Wake? && e.answer.Waiting? ==> !Reaches(s.waits, e.answer.holder, e.txn) }

  lemma NoArrows()
    ensures Acyclic(map[])
  {
    forall t: Txn, n: nat | n >= 1 ensures Hop(map[], t, n) != Some(t) {
      HopFront(map[], t, n);
    }
  }

  /** A run has no cycle at any time exactly when no sleeper ever turns to a holder that waits for it. */
  lemma {:induction false} RunIsAcyclic(states: seq<State>, events: seq<Event>)
    requires Run(states, events)
    ensures (forall i :: 0 <= i < |states| ==> Acyclic(states[i].waits)) <==> (forall i :: 0 <= i < |events| ==> Looked(states[i], events[i]))
  {
    if forall i :: 0 <= i < |states| ==> Acyclic(states[i].waits) {
      forall i | 0 <= i < |events| ensures Looked(states[i], events[i]) {
        StepKeepsAcyclic(states[i], events[i], states[i + 1]);
      }
    }
    if forall i :: 0 <= i < |events| ==> Looked(states[i], events[i]) {
      forall i | 0 <= i < |states| ensures Acyclic(states[i].waits) {
        AcyclicUpTo(states, events, i);
      }
    }
  }

  lemma {:induction false} AcyclicUpTo(states: seq<State>, events: seq<Event>, i: nat)
    requires Run(states, events) && i < |states| && forall k :: 0 <= k < |events| ==> Looked(states[k], events[k])
    ensures Acyclic(states[i].waits)
  {
    hide Step, Acyclic;
    if i == 0 {
      NoArrows();
    } else {
      AcyclicUpTo(states, events, i - 1);
      assert Looked(states[i - 1], events[i - 1]);
      StepKeepsAcyclic(states[i - 1], events[i - 1], states[i]);
    }
  }

  // ---- a deadlock nobody sees ----

  const A: Row := ("t", [1])
  const B: Row := ("t", [2])

  /** One has B and sleeps for A; three has A and sleeps for B. */
  predicate Stuck(s: State)
  {
    HoldsAlone(s, 1, B) && HoldsAlone(s, 3, A) && 1 in s.asleep && s.asleep[1] == Request(A, true) && 3 in s.asleep && s.asleep[3] == Request(B, true)
  }

  /** Release takes away the arrow of a sleeper that has not yet woken; until it wakes, a new holder of its row can go to sleep for one of its locks. Nobody
      is told of a deadlock, and both sleep. */
  lemma DeadlockUnseen() returns (states: seq<State>, events: seq<Event>)
    ensures Run(states, events) && Stuck(states[|events|]) && !Acyclic(states[|events|].waits)
    ensures forall i :: 0 <= i < |events| && !events[i].Release? ==> !events[i].answer.Deadlock?
  {
    var a, b := Request(A, true), Request(B, true);
    var s0 := State(map[], map[], map[]);
    var s1 := s0.(locks := map[B := Exclusive(1)]);
    var s2 := s0.(locks := map[B := Exclusive(1), A := Exclusive(2)]);
    var s3 := State(s2.locks, map[1 := 2], map[1 := a]);
    var s4 := State(map[B := Exclusive(1)], map[], map[1 := a]);
    var s5 := s4.(locks := map[B := Exclusive(1), A := Exclusive(3)]);
    var s6 := State(s5.locks, map[3 := 1], map[1 := a, 3 := b]);
    var s7 := s6.(waits := map[3 := 1, 1 := 3]);
    states := [s0, s1, s2, s3, s4, s5, s6, s7];
    events := [Ask(1, b, true, Granted), Ask(2, a, true, Granted), Ask(1, a, true, Waiting(2)), Release(2), Ask(3, a, true, Granted),
               Ask(3, b, true, Waiting(1)), Wake(1, Waiting(3))];
    NoneReached(2, 1);
    NoneReached(1, 3);
    assert Step(s0, events[0], s1);
    assert Step(s1, events[1], s2);
    assert Step(s2, events[2], s3);
    ReleasedTwo(s3, s4);
    assert Step(s4, events[4], s5);
    assert Step(s5, events[5], s6);
    assert Step(s6, events[6], s7);
    Circle(s7.waits);
  }

  lemma Circle(w: Graph)
    requires w == map[3 := 1, 1 := 3]
    ensures !Acyclic(w)
  {
    assert Hop(w, 1, 1) == Some(3);
    assert Hop(w, 1, 2) == Some(1);
  }

  lemma NoneReached(a: Txn, b: Txn)
    requires a != b
    ensures !Reaches(map[], a, b)
  {
    forall n: nat ensures Hop(map[], a, n) != Some(b) {
      if n > 0 {
        HopFront(map[], a, n);
      }
    }
  }

  lemma ReleasedTwo(s: State, s': State)
    requires s.locks == map[B := Exclusive(1), A := Exclusive(2)] && s.waits == map[1 := 2] && 2 !in s.asleep
    requires s' == State(map[B := Exclusive(1)], map[], s.asleep)
    ensures Step(s, Release(2), s')
  {
    assert HoldersOf(s.locks[A]) - {2} == {};
    assert 1 in HoldersOf(s.locks[B]) - {2};
    assert Released(s.locks, 2) == s'.locks;
    assert WithoutTxn(s.waits, 2) == s'.waits;
  }

  /** Such a deadlock ends only when one of the two gives up at its deadline: no other step of anybody changes it. */
  lemma OnlyATimeoutEndsIt(s: State, e: Event, s': State)
    requires Stuck(s) && Step(s, e, s')
    ensures Stuck(s') || (e.Wake? && e.answer.Timeout? && (e.txn == 1 || e.txn == 3))
  {
    assert Holds(s, 1, B) && Holds(s, 3, A);
    if !e.Release? || (e.txn != 1 && e.txn != 3) {
      StepKeepsLock(s, e, s', 1, B);
      StepKeepsLock(s, e, s', 3, A);
    }
    assert 3 in Blockers(s.locks, 1, s.asleep[1]) && 1 in Blockers(s.locks, 3, s.asleep[3]);
  }

  // ---- a deadlock that is reported is one ----

  /** Whoever has an arrow sleeps, and the arrow points at one that is in its way. */
  ghost predicate TrueArrows(s: State)
  {
    forall t :: t in s.waits ==> t in s.asleep && s.waits[t] in Blockers(s.locks, t, s.asleep[t])
  }

  lemma GrantKeepsBlockers(l: Locks, txn: Txn, req: Request, t: Txn, want: Request, h: Txn)
    requires Blockers(l, txn, req) == {} && h in Blockers(l, t, want) && t != txn
    ensures h in Blockers(Grant(l, txn, req), t, want)
  {
    if want.row == req.row && l[want.row].Shared? && req.exclusive {
      assert HoldersOf(l[req.row]) - {txn} == {};
      assert h == txn;
    }
  }

  /** While every request is ready to wait, arrows stay true. */
  lemma StepKeepsTrueArrows(s: State, e: Event, s': State)
    requires Step(s, e, s') && TrueArrows(s) && (e.Ask? ==> e.patient)
    ensures TrueArrows(s')
  {
    forall t | t in s'.waits ensures t in s'.asleep && s'.waits[t] in Blockers(s'.locks, t, s'.asleep[t]) {
      match e
      case Ask(txn, req, _, answer) =>
        if answer == Granted {
          GrantKeepsBlockers(s.locks, txn, req, t, s.asleep[t], s.waits[t]);
        }
      case Wake(txn, answer) =>
        if answer == Granted {
          GrantKeepsBlockers(s.locks, txn, s.asleep[txn], t, s.asleep[t], s.waits[t]);
        }
      case Release(txn) =>
        assert s.waits[t] in HoldersOf(s.locks[s.asleep[t].row]) - {txn};
    }
  }

  /** In a run whose requests all wait, a transaction that is told of a deadlock would have closed a circle: from the holder in its way on, everyone sleeps
      for a row the next one holds, and the last is the transaction itself. */
  lemma DeadlockIsReal(states: seq<State>, events: seq<Event>, i: nat) returns (n: nat)
    requires Run(states, events) && i < |events| && events[i].Ask? && events[i].answer.Deadlock?
    requires forall k :: 0 <= k < |events| && events[k].Ask? ==> events[k].patient
    ensures var s, h := states[i], events[i].answer.holder;
      && h in Blockers(s.locks, events[i].txn, events[i].req) && Hop(s.waits, h, n) == Some(events[i].txn)
      && forall k: nat :: k < n ==> Blocked(s, Hop(s.waits, h, k), Hop(s.waits, h, k + 1))
  {
    var s, h := states[i], events[i].answer.holder;
    ArrowsAreTrue(states, events, i);
    assert Step(s, events[i], states[i + 1]);
    n :| Hop(s.waits, h, n) == Some(events[i].txn);
    forall k: nat | k < n ensures Blocked(s, Hop(s.waits, h, k), Hop(s.waits, h, k + 1)) {
      PathBefore(s.waits, h, n, k + 1);
    }
  }

  /** The one sleeps for a row that the other has. */
  ghost predicate Blocked(s: State, a: Option<Txn>, b: Option<Txn>)
  {
    a.Some? && b.Some? && a.value in s.asleep && b.value in Blockers(s.locks, a.value, s.asleep[a.value])
  }

  lemma {:induction false} PathBefore(w: Graph, a: Txn, n: nat, k: nat)
    requires Hop(w, a, n).Some? && k <= n
    ensures Hop(w, a, k).Some?
    decreases n
  {
    if k < n {
      PathBefore(w, a, n - 1, k);
    }
  }

  lemma {:induction false} ArrowsAreTrue(states: seq<State>, events: seq<Event>, i: nat)
    requires Run(states, events) && i < |states| && forall k :: 0 <= k < |events| && events[k].Ask? ==> events[k].patient
    ensures TrueArrows(states[i])
  {
    hide Step;
    if i > 0 {
      ArrowsAreTrue(states, events, i - 1);
      StepKeepsTrueArrows(states[i - 1], events[i - 1], states[i]);
    }
  }
}
