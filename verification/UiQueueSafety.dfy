/** What every interleaving of senders, polls and completions keeps. */
module UiQueueSafety {
  import opened Common
  import opened UiQueue

  // ---- one command in the list, before and after a change ----

  ghost predicate Distinct(cs: seq<Command>)
  {
    cs == [] || (Find(cs[1..], cs[0].id).None? && Distinct(cs[1..]))
  }

  /** What a change does to the command with the id. */
  function Seen(job: Job, was: Option<Command>, id: Id): Option<Command>
  {
    match job
    case Send(cmd) => if id == cmd.id then Some(cmd) else if was.Some? && was.value.status != Done then was else None
    case Collect(gone, _) => if id == gone then None else was
    case Poll(inst) => if was.Some? then Some(Claimed(was.value, inst)) else None
    case Complete(_, done, result) => if was.Some? && id == done then Some(was.value.(status := Done, result := Some(result))) else was
  }

  lemma {:induction false} FindUnfinished(cs: seq<Command>, id: Id)
    requires Distinct(cs)
    ensures Find(Unfinished(cs), id) == if Find(cs, id).Some? && Find(cs, id).value.status != Done then Find(cs, id) else None
  {
    if cs != [] {
      FindUnfinished(cs[1..], id);
      var kept := if cs[0].status != Done then [cs[0]] else [];
      assert kept != [] ==> Unfinished(cs)[1..] == Unfinished(cs[1..]);
      assert kept == [] ==> Unfinished(cs) == Unfinished(cs[1..]);
    }
  }

  lemma {:induction false} FindAppended(cs: seq<Command>, c: Command, id: Id)
    requires Find(cs, c.id).None?
    ensures Find(cs + [c], id) == if id == c.id then Some(c) else Find(cs, id)
  {
    if cs != [] {
      assert (cs + [c])[1..] == cs[1..] + [c];
      FindAppended(cs[1..], c, id);
    }
  }

  lemma {:induction false} FindWithout(cs: seq<Command>, gone: Id, id: Id)
    ensures Find(Without(cs, gone), id) == if id == gone then None else Find(cs, id)
  {
    if cs != [] {
      FindWithout(cs[1..], gone, id);
      var kept := if cs[0].id != gone then [cs[0]] else [];
      assert kept != [] ==> Without(cs, gone)[1..] == Without(cs[1..], gone);
      assert kept == [] ==> Without(cs, gone) == Without(cs[1..], gone);
    }
  }

  lemma {:induction false} FindClaimed(cs: seq<Command>, inst: string, id: Id)
    ensures Find(ClaimAll(cs, inst), id) == if Find(cs, id).Some? then Some(Claimed(Find(cs, id).value, inst)) else None
  {
    if cs != [] {
      FindClaimed(cs[1..], inst, id);
      assert ClaimAll(cs, inst)[1..] == ClaimAll(cs[1..], inst);
    }
  }

  lemma {:induction false} FindCompleted(cs: seq<Command>, done: Id, result: string, id: Id)
    ensures Find(Completed(cs, done, result), id) ==
            if Find(cs, id).Some? && id == done then Some(Find(cs, id).value.(status := Done, result := Some(result))) else Find(cs, id)
  {
    if cs != [] {
      FindCompleted(cs[1..], done, result, id);
      assert Completed(cs, done, result)[1..] == if cs[0].id == done then cs[1..] else Completed(cs[1..], done, result);
    }
  }

  /** A change does to each command what `Seen` says, whatever else is in the list. */
  lemma FindUpdated(job: Job, cs: seq<Command>, id: Id)
    requires Distinct(cs) && (job.Send? ==> Find(cs, job.cmd.id).None?)
    ensures Find(Update(job, cs), id) == Seen(job, Find(cs, id), id)
  {
    match job
    case Send(cmd) =>
      FindUnfinished(cs, id);
      FindUnfinished(cs, cmd.id);
      FindAppended(Unfinished(cs), cmd, id);
    case Collect(gone, _) => FindWithout(cs, gone, id);
    case Poll(inst) => FindClaimed(cs, inst, id);
    case Complete(_, done, result) => FindCompleted(cs, done, result, id);
  }

  lemma {:induction false} DistinctAppended(cs: seq<Command>, c: Command)
    requires Distinct(cs) && Find(cs, c.id).None?
    ensures Distinct(cs + [c])
  {
    if cs == [] {
      assert (cs + [c])[1..] == [];
    } else {
      assert (cs + [c])[1..] == cs[1..] + [c];
      DistinctAppended(cs[1..], c);
      FindAppended(cs[1..], c, cs[0].id);
    }
  }

  lemma {:induction false} DistinctPart(job: Job, cs: seq<Command>)
    requires Distinct(cs) && !job.Send?
    ensures Distinct(Update(job, cs))
    decreases |cs|
  {
    if cs != [] {
      DistinctPart(job, cs[1..]);
      FindUpdated(job, cs[1..], cs[0].id);
      match job
      case Collect(gone, _) =>
        assert cs[0].id != gone ==> Without(cs, gone)[1..] == Without(cs[1..], gone);
        assert cs[0].id == gone ==> Without(cs, gone) == Without(cs[1..], gone);
      case Poll(inst) => assert ClaimAll(cs, inst)[1..] == ClaimAll(cs[1..], inst);
      case Complete(_, done, result) =>
        assert Completed(cs, done, result)[1..] == if cs[0].id == done then cs[1..] else Completed(cs[1..], done, result);
    }
  }

  lemma {:induction false} DistinctUnfinished(cs: seq<Command>)
    requires Distinct(cs)
    ensures Distinct(Unfinished(cs))
  {
    if cs != [] {
      DistinctUnfinished(cs[1..]);
      FindUnfinished(cs[1..], cs[0].id);
      assert cs[0].status != Done ==> Unfinished(cs)[1..] == Unfinished(cs[1..]);
      assert cs[0].status == Done ==> Unfinished(cs) == Unfinished(cs[1..]);
    }
  }

  lemma DistinctUpdated(job: Job, cs: seq<Command>)
    requires Distinct(cs) && (job.Send? ==> Find(cs, job.cmd.id).None?)
    ensures Distinct(Update(job, cs))
  {
    if job.Send? {
      DistinctUnfinished(cs);
      FindUnfinished(cs, job.cmd.id);
      DistinctAppended(Unfinished(cs), job.cmd);
    } else {
      DistinctPart(job, cs);
    }
  }

  // ---- events ----

  ghost predicate IsClaimed(es: seq<Claim>, id: Id) { exists e :: e in es && e.id == id }

  ghost predicate ClaimedOnce(es: seq<Claim>) { forall i, j :: 0 <= i < j < |es| ==> es[i].id != es[j].id }

  /** A poll emits an event for exactly the pending commands it may take. */
  lemma {:induction false} ClaimsAre(cs: seq<Command>, inst: string, e: Claim)
    requires Distinct(cs)
    ensures e in Claims(cs, inst) <==> e.inst == inst && Find(cs, e.id).Some? && Find(cs, e.id).value.status == Pending && Takes(Find(cs, e.id).value, inst)
  {
    if cs != [] {
      ClaimsAre(cs[1..], inst, e);
    }
  }

  lemma {:induction false} ClaimsAreDistinct(cs: seq<Command>, inst: string)
    requires Distinct(cs)
    ensures ClaimedOnce(Claims(cs, inst))
  {
    if cs != [] {
      ClaimsAreDistinct(cs[1..], inst);
      var rest := Claims(cs[1..], inst);
      forall j | 0 <= j < |rest| ensures rest[j].id != cs[0].id {
        ClaimsAre(cs[1..], inst, rest[j]);
        assert rest[j] in rest;
      }
    }
  }

  // ---- the invariant ----

  ghost predicate LockHeld(s: State)
  {
    && (forall p :: p in s.crit && s.crit[p].phase != Wants ==> s.lock == Some(p))
    && (s.lock.Some? ==> s.lock.value in s.crit && s.crit[s.lock.value].phase != Wants)
  }

  /** Whoever has read the file still has it as it is: no write is lost. */
  ghost predicate SnapshotsFresh(s: State)
  {
    forall p :: p in s.crit ==>
      match s.crit[p].phase
      case Has(snapshot) => snapshot == s.file
      case Changed(next) => next == Update(s.crit[p].job, s.file)
      case _ => true
  }

  ghost predicate Answered(s: State, id: Id, result: string) { exists a :: a in s.answers && a.id == id && a.result == result }

  /** The lock holder has emitted the event of the command and is about to write its new status. */
  ghost predicate ClaimUnderWay(s: State, c: Command)
  {
    && s.lock.Some? && s.lock.value in s.crit
    && var k := s.crit[s.lock.value]; k.job.Poll? && k.phase.Changed? && Takes(c, k.job.inst)
  }

  ghost predicate CommandOk(s: State, c: Command)
  {
    && c.id in s.senders && c.body == s.senders[c.id].cmd.body && c.target == s.senders[c.id].cmd.target
    && (c.status == Pending && IsClaimed(s.emitted, c.id) ==> ClaimUnderWay(s, c))
    && (c.status != Pending ==> IsClaimed(s.emitted, c.id))
    && (c.status == Done ==> c.result.Some? && Answered(s, c.id, c.result.value))
  }

  ghost predicate CommandsOk(s: State)
  {
    forall id :: Find(s.file, id).Some? ==> CommandOk(s, Find(s.file, id).value)
  }

  ghost predicate EventsOk(s: State)
  {
    && ClaimedOnce(s.emitted)
    && (forall e :: e in s.emitted ==> e.id in s.senders && Takes(s.senders[e.id].cmd, e.inst))
    && (forall a :: a in s.answers ==> Claim(a.id, a.inst) in s.emitted)
  }

  ghost predicate JobOk(s: State, k: Crit)
  {
    match k.job
    case Send(cmd) =>
      && cmd.id in s.senders && s.senders[cmd.id] == Sender(cmd, Sending) && cmd.status == Pending
      && (k.phase != Written ==> Find(s.file, cmd.id).None? && !IsClaimed(s.emitted, cmd.id))
    case Collect(id, outcome) =>
      && id in s.senders && s.senders[id].phase == Collecting
      && (outcome.Some? ==> Answered(s, id, outcome.value))
      && (k.phase == Written ==> Find(s.file, id).None?)
    case Poll(inst) => k.phase.Changed? ==> forall e :: e in Claims(s.file, inst) ==> e in s.emitted
    case Complete(inst, id, _) => Claim(id, inst) in s.emitted
  }

  /** The sender a critical section belongs to. */
  function Owner(job: Job): Option<Id>
  {
    match job
    case Send(cmd) => Some(cmd.id)
    case Collect(id, _) => Some(id)
    case _ => None
  }

  ghost predicate JobsOk(s: State)
  {
    && (forall p :: p in s.crit ==> JobOk(s, s.crit[p]))
    && (forall p, q :: p in s.crit && q in s.crit && p != q && Owner(s.crit[p].job).Some? ==> Owner(s.crit[p].job) != Owner(s.crit[q].job))
  }

  ghost predicate SendersOk(s: State)
  {
    forall id :: id in s.senders ==>
      s.senders[id].cmd.id == id
      && (s.senders[id].phase.Returned? ==>
            && Find(s.file, id).None?
            && (s.senders[id].phase.outcome.Some? ==> Answered(s, id, s.senders[id].phase.outcome.value)))
  }

  ghost predicate Inv(s: State)
  {
    LockHeld(s) && SnapshotsFresh(s) && Distinct(s.file) && CommandsOk(s) && EventsOk(s) && JobsOk(s) && SendersOk(s)
  }

  lemma InvStart()
    ensures Inv(Start)
  {
  }

  lemma BeginKeepsJobs(s: State, step: Step)
    requires Inv(s) && step.Begin? && Enabled(s, step)
    ensures JobsOk(Apply(s, step))
  {
    var t := Apply(s, step);
    forall p | p in t.crit ensures JobOk(t, t.crit[p]) {
      if p != step.pid {
        assert JobOk(s, s.crit[p]);
      } else if step.job.Collect? && step.job.outcome.Some? {
        assert CommandOk(s, Find(s.file, step.job.id).value);
      }
    }
  }

  lemma InvBegin(s: State, step: Step)
    requires Inv(s) && step.Begin? && Enabled(s, step)
    ensures Inv(Apply(s, step))
  {
    BeginKeepsJobs(s, step);
    var t := Apply(s, step);
    forall id | Find(t.file, id).Some? ensures CommandOk(t, Find(t.file, id).value) {
      assert CommandOk(s, Find(s.file, id).value);
    }
  }

  lemma InvAcquireOrRead(s: State, step: Step)
    requires Inv(s) && (step.Acquire? || step.Read?) && Enabled(s, step)
    ensures Inv(Apply(s, step))
  {
    var t := Apply(s, step);
    forall id | Find(t.file, id).Some? ensures CommandOk(t, Find(t.file, id).value) {
      assert CommandOk(s, Find(s.file, id).value);
    }
    forall p | p in t.crit ensures JobOk(t, t.crit[p]) {
      assert JobOk(s, s.crit[p]);
    }
  }

  lemma InvRelease(s: State, step: Step)
    requires Inv(s) && step.Release? && Enabled(s, step)
    ensures Inv(Apply(s, step))
  {
    var t := Apply(s, step);
    assert JobOk(s, s.crit[step.pid]);
    forall id | Find(t.file, id).Some? ensures CommandOk(t, Find(t.file, id).value) {
      assert CommandOk(s, Find(s.file, id).value);
    }
    forall p | p in t.crit ensures JobOk(t, t.crit[p]) {
      assert JobOk(s, s.crit[p]);
      assert Owner(s.crit[p].job).Some? ==> Owner(s.crit[p].job) != Owner(s.crit[step.pid].job);
    }
  }

  lemma ClaimedOnceAppend(a: seq<Claim>, b: seq<Claim>)
    requires ClaimedOnce(a) && ClaimedOnce(b) && forall e :: e in b ==> !IsClaimed(a, e.id)
    ensures ClaimedOnce(a + b)
  {
    var c := a + b;
    forall i, j | 0 <= i < j < |c| ensures c[i].id != c[j].id {
      if i < |a| <= j {
        assert c[i] in a && c[j] in b;
        assert !IsClaimed(a, c[j].id);
      }
    }
  }

  lemma InvChangePoll(s: State, step: Step)
    requires Inv(s) && step.Change? && Enabled(s, step) && s.crit[step.pid].job.Poll?
    ensures Inv(Apply(s, step))
  {
    var t := Apply(s, step);
    var inst := s.crit[step.pid].job.inst;
    var more := Claims(s.file, inst);
    assert t.emitted == s.emitted + more;
    forall e | e in more
      ensures !IsClaimed(s.emitted, e.id) && e.id in s.senders && Takes(s.senders[e.id].cmd, e.inst)
    {
      ClaimsAre(s.file, inst, e);
      assert CommandOk(s, Find(s.file, e.id).value);
    }
    ClaimsAreDistinct(s.file, inst);
    ClaimedOnceAppend(s.emitted, more);
    forall id | Find(t.file, id).Some? ensures CommandOk(t, Find(t.file, id).value) {
      var c := Find(s.file, id).value;
      assert CommandOk(s, c);
      if c.status == Pending && IsClaimed(t.emitted, id) {
        var e :| e in t.emitted && e.id == id;
        assert e in more;
        ClaimsAre(s.file, inst, e);
        assert ClaimUnderWay(t, c);
      }
      if IsClaimed(s.emitted, id) {
        var e :| e in s.emitted && e.id == id;
        assert e in t.emitted;
      }
    }
    forall p | p in t.crit ensures JobOk(t, t.crit[p]) {
      assert JobOk(s, s.crit[p]);
      if s.crit[p].job.Send? && IsClaimed(t.emitted, s.crit[p].job.cmd.id) && s.crit[p].phase != Written {
        var e :| e in t.emitted && e.id == s.crit[p].job.cmd.id;
        assert e in more;
        ClaimsAre(s.file, inst, e);
        assert false;
      }
    }
  }

  lemma InvChangeOther(s: State, step: Step)
    requires Inv(s) && step.Change? && Enabled(s, step) && !s.crit[step.pid].job.Poll?
    ensures Inv(Apply(s, step))
  {
    var t := Apply(s, step);
    assert t.emitted == s.emitted;
    forall id | Find(t.file, id).Some? ensures CommandOk(t, Find(t.file, id).value) {
      assert CommandOk(s, Find(s.file, id).value);
    }
    forall p | p in t.crit ensures JobOk(t, t.crit[p]) {
      assert JobOk(s, s.crit[p]);
    }
  }

  /** The command with the id after a write. */
  lemma WrittenCommand(s: State, step: Step, id: Id)
    requires Inv(s) && step.Write? && Enabled(s, step)
    ensures Find(Apply(s, step).file, id) == Seen(s.crit[step.pid].job, Find(s.file, id), id)
  {
    assert JobOk(s, s.crit[step.pid]);
    FindUpdated(s.crit[step.pid].job, s.file, id);
  }

  lemma WrittenCommandOk(s: State, step: Step, id: Id)
    requires Inv(s) && step.Write? && Enabled(s, step) && Find(Apply(s, step).file, id).Some?
    ensures CommandOk(Apply(s, step), Find(Apply(s, step).file, id).value)
  {
    var t := Apply(s, step);
    var k := s.crit[step.pid];
    var c := Find(t.file, id).value;
    WrittenCommand(s, step, id);
    assert JobOk(s, k);
    assert s.lock == Some(step.pid);
    if !(k.job.Send? && id == k.job.cmd.id) {
      assert CommandOk(s, Find(s.file, id).value);
      if Find(s.file, id).value.status == Done {
        var a :| a in s.answers && a.id == id && a.result == Find(s.file, id).value.result.value;
        assert a in t.answers;
      }
    }
    if k.job.Poll? && Find(s.file, id).value.status == Pending && Takes(Find(s.file, id).value, k.job.inst) {
      ClaimsAre(s.file, k.job.inst, Claim(id, k.job.inst));
      assert Claim(id, k.job.inst) in t.emitted;
    }
    if k.job.Complete? && id == k.job.done {
      assert Claim(id, k.job.inst) in t.emitted;
      assert t.answers[|s.answers|] == Answer(id, k.job.inst, k.job.result);
    }
  }

  lemma StillAnswered(s: State, step: Step, id: Id, result: string)
    requires step.Write? && Enabled(s, step) && Answered(s, id, result)
    ensures Answered(Apply(s, step), id, result)
  {
    var a :| a in s.answers && a.id == id && a.result == result;
    assert a in Apply(s, step).answers;
  }

  lemma WriteKeepsJobs(s: State, step: Step)
    requires Inv(s) && step.Write? && Enabled(s, step)
    ensures JobsOk(Apply(s, step))
  {
    var t := Apply(s, step);
    forall p | p in t.crit ensures JobOk(t, t.crit[p]) {
      var job := s.crit[p].job;
      assert JobOk(s, s.crit[p]);
      if Owner(job).Some? {
        WrittenCommand(s, step, Owner(job).value);
        assert p != step.pid ==> Owner(job) != Owner(s.crit[step.pid].job);
      }
      if job.Collect? && job.outcome.Some? {
        StillAnswered(s, step, job.id, job.outcome.value);
      }
    }
  }

  lemma WriteKeepsSenders(s: State, step: Step)
    requires Inv(s) && step.Write? && Enabled(s, step)
    ensures SendersOk(Apply(s, step))
  {
    var t := Apply(s, step);
    assert JobOk(s, s.crit[step.pid]);
    forall id | id in t.senders && t.senders[id].phase.Returned?
      ensures Find(t.file, id).None? && (t.senders[id].phase.outcome.Some? ==> Answered(t, id, t.senders[id].phase.outcome.value))
    {
      WrittenCommand(s, step, id);
      if t.senders[id].phase.outcome.Some? {
        StillAnswered(s, step, id, t.senders[id].phase.outcome.value);
      }
    }
  }

  lemma InvWrite(s: State, step: Step)
    requires Inv(s) && step.Write? && Enabled(s, step)
    ensures Inv(Apply(s, step))
  {
    var t := Apply(s, step);
    assert JobOk(s, s.crit[step.pid]);
    DistinctUpdated(s.crit[step.pid].job, s.file);
    forall id | Find(t.file, id).Some? ensures CommandOk(t, Find(t.file, id).value) {
      WrittenCommandOk(s, step, id);
    }
    WriteKeepsJobs(s, step);
    WriteKeepsSenders(s, step);
  }

  /** Every step keeps the invariant. */
  lemma InvStep(s: State, step: Step)
    requires Inv(s) && Enabled(s, step)
    ensures Inv(Apply(s, step))
  {
    match step
    case Begin(_, _) => InvBegin(s, step);
    case Acquire(_) => InvAcquireOrRead(s, step);
    case Read(_) => InvAcquireOrRead(s, step);
    case Change(pid) => if s.crit[pid].job.Poll? { InvChangePoll(s, step); } else { InvChangeOther(s, step); }
    case Write(_) => InvWrite(s, step);
    case Release(_) => InvRelease(s, step);
  }
}
