/** Row locks: who holds them, who waits, and what the manager answers. */
module LockManager {
  import opened Common
  import opened WaitGraph

  /** A table and the collation key of a primary key. */
  type Row = (string, seq<Byte>)

  datatype Entry = Exclusive(holder: Txn) | Shared(holders: set<Txn>)
  datatype Request = Request(row: Row, exclusive: bool)
  datatype Answer = Granted | Conflict(holder: Txn) | Deadlock(holder: Txn) | Waiting(holder: Txn) | Timeout(holder: Txn)

  type Locks = map<Row, Entry>

  /** The manager and the threads that sleep in it. */
  datatype State = State(locks: Locks, waits: Graph, asleep: map<Txn, Request>)

  // ---- locks ----

  function HoldersOf(e: Entry): set<Txn> { if e.Exclusive? then {e.holder} else e.holders }

  /** The transactions whose lock stands in the way. */
  function Blockers(l: Locks, txn: Txn, req: Request): set<Txn>
  {
    if req.row !in l || (l[req.row].Shared? && !req.exclusive) then {} else HoldersOf(l[req.row]) - {txn}
  }

  /** The locks once the request is granted. */
  function Grant(l: Locks, txn: Txn, req: Request): Locks
  {
    if req.row !in l then l[req.row := if req.exclusive then Exclusive(txn) else Shared({txn})]
    else if l[req.row].Exclusive? then l
    else if req.exclusive then l[req.row := Exclusive(txn)]
    else l[req.row := Shared(l[req.row].holders + {txn})]
  }

  function Rest(e: Entry, txn: Txn): Entry { if e.Exclusive? then e else Shared(e.holders - {txn}) }

  /** The locks without those of a transaction; an entry nobody holds any more is gone. */
  function Released(l: Locks, txn: Txn): Locks
  {
    map row | row in l && HoldersOf(l[row]) - {txn} != {} :: Rest(l[row], txn)
  }

  /** The arrows that neither leave nor reach a transaction. */
  function WithoutTxn(w: Graph, txn: Txn): Graph
  {
    map t | t in w && t != txn && w[t] != txn :: w[t]
  }

  /** No entry without a holder. */
  predicate Tidy(l: Locks) { forall row :: row in l ==> HoldersOf(l[row]) != {} }

  // ---- steps ----

  datatype Event =
    | Ask(txn: Txn, req: Request, patient: bool, answer: Answer)
    | Wake(txn: Txn, answer: Answer)
    | Release(txn: Txn)

  /** `acquire` and `acquire_shared` up to the sleep. */
  ghost predicate AskStep(s: State, txn: Txn, req: Request, patient: bool, answer: Answer, s': State)
  {
    && txn !in s.asleep
    && match answer
       case Granted => Blockers(s.locks, txn, req) == {} && s' == s.(locks := Grant(s.locks, txn, req))
       case Deadlock(h) => h in Blockers(s.locks, txn, req) && Reaches(s.waits, h, txn) && s' == s
       case Conflict(h) => !patient && h in Blockers(s.locks, txn, req) && !Reaches(s.waits, h, txn) && s' == s.(waits := s.waits[txn := h])
       case Waiting(h) =>
         && patient && h in Blockers(s.locks, txn, req) && !Reaches(s.waits, h, txn)
         && s' == s.(waits := s.waits[txn := h], asleep := s.asleep[txn := req])
       case Timeout(_) => false
  }

  /** A sleeper looks again: at a signal, after 100 ms, at its deadline. */
  ghost predicate WakeStep(s: State, txn: Txn, answer: Answer, s': State)
  {
    && txn in s.asleep
    && var blockers := Blockers(s.locks, txn, s.asleep[txn]);
       match answer
       case Granted => blockers == {} && s' == State(Grant(s.locks, txn, s.asleep[txn]), s.waits - {txn}, s.asleep - {txn})
       case Timeout(h) => h in blockers && s' == State(s.locks, s.waits - {txn}, s.asleep - {txn})
       case Waiting(h) => h in blockers && s' == s.(waits := s.waits[txn := h])
       case _ => false
  }

  ghost predicate Step(s: State, e: Event, s': State)
  {
    match e
    case Ask(txn, req, patient, answer) => AskStep(s, txn, req, patient, answer, s')
    case Wake(txn, answer) => WakeStep(s, txn, answer, s')
    case Release(txn) => txn !in s.asleep && s' == State(Released(s.locks, txn), WithoutTxn(s.waits, txn), s.asleep)
  }

  lemma OnlyOne(holders: set<Txn>, txn: Txn)
    requires holders != {} && forall h :: h in holders ==> h == txn
    ensures holders == {txn}
  {
  }

  /** `LockManager`, under its mutex; `asleep` is what its condition variable keeps. */
  class Manager {
    var locks: Locks
    var waits: Graph
    var history: seq<(Txn, Txn)>
    ghost var asleep: map<Txn, Request>

    ghost function Now(): State
      reads this
    {
      State(locks, waits, asleep)
    }

    constructor ()
      ensures Now() == State(map[], map[], map[]) && history == [] && Tidy(locks)
    {
      locks, waits, history, asleep := map[], map[], [], map[];
    }

    /** `try_grant_exclusive_locked` and `try_grant_shared_locked`: grants, or names a holder that is in the way. */
    method TryGrant(txn: Txn, req: Request) returns (blocker: Option<Txn>)
      requires Tidy(locks)
      modifies this`locks
      ensures Tidy(locks)
      ensures blocker.None? ==> Blockers(old(locks), txn, req) == {} && locks == Grant(old(locks), txn, req)
      ensures blocker.Some? ==> blocker.value in Blockers(old(locks), txn, req) && locks == old(locks)
    {
      if req.row !in locks {
        locks := locks[req.row := if req.exclusive then Exclusive(txn) else Shared({txn})];
        return None;
      }
      match locks[req.row]
      case Exclusive(holder) =>
        return if holder == txn then None else Some(holder);
      case Shared(holders) =>
        assert HoldersOf(locks[req.row]) == holders;
        if !req.exclusive {
          locks := locks[req.row := Shared(holders + {txn})];
          assert txn in HoldersOf(locks[req.row]);
          return None;
        }
        if holders == {txn} {
          locks := locks[req.row := Exclusive(txn)];
          return None;
        }
        if forall h :: h in holders ==> h == txn {
          OnlyOne(holders, txn);
        }
        var h :| h in holders && h != txn;
        return Some(h);
    }

    /** `acquire`: the answer, or the beginning of a sleep. */
    method Acquire(txn: Txn, req: Request, patient: bool) returns (answer: Answer)
      requires Tidy(locks) && txn !in asleep
      modifies this
      ensures Tidy(locks) && Step(old(Now()), Ask(txn, req, patient, answer), Now())
      ensures history == old(history) + if answer.Deadlock? then [(txn, answer.holder)] else []
    {
      var blocker := TryGrant(txn, req);
      if blocker.None? {
        return Granted;
      }
      var h := blocker.value;
      var cycle := CreatesCycle(waits, txn, h);
      if cycle {
        history := history + [(txn, h)];
        return Deadlock(h);
      }
      waits := waits[txn := h];
      if !patient {
        return Conflict(h);
      }
      asleep := asleep[txn := req];
      return Waiting(h);
    }

    /** One turn of the waiting loop. */
    method Retry(txn: Txn, req: Request, expired: bool) returns (answer: Answer)
      requires Tidy(locks) && txn in asleep && asleep[txn] == req
      modifies this
      ensures Tidy(locks) && Step(old(Now()), Wake(txn, answer), Now()) && history == old(history)
      ensures answer.Timeout? ==> expired
    {
      var blocker := TryGrant(txn, req);
      if blocker.None? {
        waits, asleep := waits - {txn}, asleep - {txn};
        return Granted;
      }
      if expired {
        waits, asleep := waits - {txn}, asleep - {txn};
        return Timeout(blocker.value);
      }
      waits := waits[txn := blocker.value];
      return Waiting(blocker.value);
    }

    /** `release` */
    method ReleaseAll(txn: Txn)
      requires Tidy(locks) && txn !in asleep
      modifies this
      ensures Tidy(locks) && Step(old(Now()), Release(txn), Now()) && history == old(history)
    {
      ReleaseLocks(txn);
      ReleaseWaits(txn);
    }

    method ReleaseLocks(txn: Txn)
      requires Tidy(locks)
      modifies this`locks
      ensures Tidy(locks) && locks == Released(old(locks), txn)
    {
      var todo := locks.Keys;
      while todo != {}
        invariant todo <= locks.Keys <= old(locks.Keys)
        invariant forall row :: row in old(locks) ==> (row in locks <==> row in todo || HoldersOf(old(locks)[row]) - {txn} != {})
        invariant forall row :: row in locks ==> locks[row] == if row in todo then old(locks)[row] else Rest(old(locks)[row], txn)
        decreases todo
      {
        var row :| row in todo;
        todo := todo - {row};
        var entry := Rest(locks[row], txn);
        if HoldersOf(entry) - {txn} == {} {
          locks := locks - {row};
        } else {
          locks := locks[row := entry];
        }
      }
    }

    method ReleaseWaits(txn: Txn)
      modifies this`waits
      ensures waits == WithoutTxn(old(waits), txn)
    {
      var todo := waits.Keys;
      while todo != {}
        invariant todo <= waits.Keys <= old(waits.Keys)
        invariant forall t :: t in waits ==> waits[t] == old(waits)[t]
        invariant forall t :: t in old(waits) ==> (t in waits <==> t in todo || (t != txn && old(waits)[t] != txn))
        decreases todo
      {
        var t :| t in todo;
        todo := todo - {t};
        if t == txn || waits[t] == txn {
          waits := waits - {t};
        }
      }
    }
  }
}
