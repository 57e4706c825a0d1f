/** The queue of UI commands: one file that senders, app instances and completions read, change and write back whole under one lock file. */
module UiQueue {
  import opened Common

  type Id = nat
  type Pid = nat

  datatype Status = Pending | InProgress | Done

  /** `target`: the only instance that may take the command; "" lets any. */
  datatype Command = Command(id: Id, body: string, target: string, status: Status, result: Option<string>)

  // ---- what each party does to the list it read ----

  predicate Takes(c: Command, inst: string) { c.target == "" || c.target == inst }

  function Unfinished(cs: seq<Command>): seq<Command>
  {
    if cs == [] then [] else (if cs[0].status != Done then [cs[0]] else []) + Unfinished(cs[1..])
  }

  function Without(cs: seq<Command>, id: Id): seq<Command>
  {
    if cs == [] then [] else (if cs[0].id != id then [cs[0]] else []) + Without(cs[1..], id)
  }

  function Claimed(c: Command, inst: string): Command
  {
    if c.status == Pending && Takes(c, inst) then c.(status := InProgress) else c
  }

  function ClaimAll(cs: seq<Command>, inst: string): seq<Command>
  {
    if cs == [] then [] else [Claimed(cs[0], inst)] + ClaimAll(cs[1..], inst)
  }

  datatype Claim = Claim(id: Id, inst: string)

  function Event(c: Command, inst: string): seq<Claim>
  {
    if c.status == Pending && Takes(c, inst) then [Claim(c.id, inst)] else []
  }

  /** The events a poll emits, in order. */
  function Claims(cs: seq<Command>, inst: string): seq<Claim>
  {
    if cs == [] then [] else Event(cs[0], inst) + Claims(cs[1..], inst)
  }

  function Completed(cs: seq<Command>, id: Id, result: string): seq<Command>
  {
    if cs == [] then []
    else if cs[0].id == id then [cs[0].(status := Done, result := Some(result))] + cs[1..]
    else [cs[0]] + Completed(cs[1..], id, result)
  }

  function Find(cs: seq<Command>, id: Id): (r: Option<Command>)
    ensures r.Some? ==> r.value.id == id && r.value in cs
  {
    if cs == [] then None else if cs[0].id == id then Some(cs[0]) else Find(cs[1..], id)
  }

  /** The loop of the polling thread over the commands it read: statuses change in place, an event goes out for each. */
  method PollLoop(cs: array<Command>, inst: string) returns (emitted: seq<Claim>, changed: bool)
    modifies cs
    ensures cs[..] == ClaimAll(old(cs[..]), inst)
    ensures emitted == Claims(old(cs[..]), inst)
    ensures !changed ==> cs[..] == old(cs[..])
  {
    emitted, changed := [], false;
    ghost var before, left := cs[..], Claims(cs[..], inst);
    assert before[0..] == before;
    for k := 0 to cs.Length
      invariant forall j :: 0 <= j < k ==> cs[j] == Claimed(before[j], inst)
      invariant forall j :: k <= j < cs.Length ==> cs[j] == before[j]
      invariant left == Claims(before[k..], inst) && emitted + left == Claims(before, inst)
      invariant !changed ==> forall j :: 0 <= j < k ==> cs[j] == before[j]
    {
      NextClaims(before, inst, k);
      left := Claims(before[k + 1..], inst);
      var event := Event(cs[k], inst);
      Regroup(emitted, event, left);
      emitted := emitted + event;
      if event != [] {
        cs[k] := cs[k].(status := InProgress);
        changed := true;
      }
    }
    ClaimAllIs(before, inst);
  }

  lemma NextClaims(cs: seq<Command>, inst: string, k: nat)
    requires k < |cs|
    ensures Claims(cs[k..], inst) == Event(cs[k], inst) + Claims(cs[k + 1..], inst)
  {
    assert cs[k..][1..] == cs[k + 1..];
  }

  lemma {:induction false} ClaimAllIs(cs: seq<Command>, inst: string)
    ensures |ClaimAll(cs, inst)| == |cs|
    ensures forall k :: 0 <= k < |cs| ==> ClaimAll(cs, inst)[k] == Claimed(cs[k], inst)
  {
    if cs != [] {
      ClaimAllIs(cs[1..], inst);
    }
  }

  /** `complete_ui_command` on the commands it read: the first with the id is done. */
  method CompleteLoop(cs: array<Command>, id: Id, result: string)
    modifies cs
    ensures cs[..] == Completed(old(cs[..]), id, result)
  {
    ghost var before := cs[..];
    var k := 0;
    while k < cs.Length && cs[k].id != id
      invariant k <= cs.Length && cs[..] == before
      invariant forall i :: 0 <= i < k ==> before[i].id != id
    {
      k := k + 1;
    }
    CompletedAt(before, k, id, result);
    hide Completed;
    if k < cs.Length {
      cs[k] := cs[k].(status := Done, result := Some(result));
      assert cs[..] == before[k := cs[k]];
    }
  }

  lemma {:induction false} CompletedAt(cs: seq<Command>, k: nat, id: Id, result: string)
    requires k <= |cs| && (forall i :: 0 <= i < k ==> cs[i].id != id) && (k < |cs| ==> cs[k].id == id)
    ensures Completed(cs, id, result) == if k == |cs| then cs else cs[k := cs[k].(status := Done, result := Some(result))]
  {
    if cs != [] {
      assert cs == [cs[0]] + cs[1..];
      if k > 0 {
        CompletedAt(cs[1..], k - 1, id, result);
      }
    }
  }

  // ---- the protocol ----

  /** A critical section: the outcome of `Collect` is what its sender returns, None after a timeout. */
  datatype Job = Send(cmd: Command) | Collect(id: Id, outcome: Option<string>) | Poll(inst: string) | Complete(inst: string, done: Id, result: string)

  datatype Phase = Wants | Holds | Has(snapshot: seq<Command>) | Changed(next: seq<Command>) | Written

  datatype Crit = Crit(job: Job, phase: Phase)

  datatype SenderPhase = Sending | Waiting | Collecting | Returned(outcome: Option<string>)

  datatype Sender = Sender(cmd: Command, phase: SenderPhase)

  datatype Answer = Answer(id: Id, inst: string, result: string)

  /** The shared file, the lock file, the critical sections under way, the senders, and two logs: the events emitted and the completions written. */
  datatype State = State(file: seq<Command>, lock: Option<Pid>, crit: map<Pid, Crit>, senders: map<Id, Sender>,
                         emitted: seq<Claim>, answers: seq<Answer>)

  const Start := State([], None, map[], map[], [], [])

  datatype Step =
    | Begin(pid: Pid, job: Job)
    | Acquire(pid: Pid)
    | Read(pid: Pid)
    | Change(pid: Pid)
    | Write(pid: Pid)
    | Release(pid: Pid)

  /** What a party makes of the list it read. */
  function Update(job: Job, cs: seq<Command>): seq<Command>
  {
    match job
    case Send(cmd) => Unfinished(cs) + [cmd]
    case Collect(id, _) => Without(cs, id)
    case Poll(inst) => ClaimAll(cs, inst)
    case Complete(_, id, result) => Completed(cs, id, result)
  }

  /** A critical section begins: a sender with a fresh id; a sender that waits and either saw its command done in an unlocked look at the file or gave up;
      an instance's poll at any time; a completion for an event the instance got. */
  predicate MayBegin(s: State, job: Job)
  {
    match job
    case Send(cmd) => cmd.id !in s.senders && cmd.status == Pending && cmd.result == None
    case Collect(id, outcome) =>
      && id in s.senders && s.senders[id].phase == Waiting
      && (outcome.Some? ==> var c := Find(s.file, id); c.Some? && c.value.status == Done && outcome == Some(c.value.result.GetOr("")))
    case Poll(_) => true
    case Complete(inst, id, _) => Claim(id, inst) in s.emitted
  }

  predicate Enabled(s: State, step: Step)
  {
    if step.Begin? then step.pid !in s.crit && MayBegin(s, step.job)
    else
      && step.pid in s.crit
      && var phase := s.crit[step.pid].phase;
         match step
         case Acquire(_) => phase == Wants && s.lock == None
         case Read(_) => phase == Holds
         case Change(_) => phase.Has?
         case Write(_) => phase.Changed?
         case Release(_) => phase == Written
  }

  function At(s: State, pid: Pid, phase: Phase): map<Pid, Crit>
    requires pid in s.crit
  {
    s.crit[pid := s.crit[pid].(phase := phase)]
  }

  function Apply(s: State, step: Step): State
    requires Enabled(s, step)
  {
    match step
    case Begin(pid, job) =>
      var senders := match job
                     case Send(cmd) => s.senders[cmd.id := Sender(cmd, Sending)]
                     case Collect(id, _) => s.senders[id := s.senders[id].(phase := Collecting)]
                     case _ => s.senders;
      s.(crit := s.crit[pid := Crit(job, Wants)], senders := senders)
    case Acquire(pid) => s.(lock := Some(pid), crit := At(s, pid, Holds))
    case Read(pid) => s.(crit := At(s, pid, Has(s.file)))
    case Change(pid) =>
      var Crit(job, phase) := s.crit[pid];
      s.(crit := At(s, pid, Changed(Update(job, phase.snapshot))),
      emitted := s.emitted + if job.Poll? then Claims(phase.snapshot, job.inst) else [])
    case Write(pid) =>
      var Crit(job, phase) := s.crit[pid];
      s.(file := phase.next, crit := At(s, pid, Written),
      answers := s.answers + if job.Complete? then [Answer(job.done, job.inst, job.result)] else [])
    case Release(pid) =>
      var job := s.crit[pid].job;
      var senders := match job
                     case Send(cmd) => if cmd.id in s.senders then s.senders[cmd.id := s.senders[cmd.id].(phase := Waiting)] else s.senders
                     case Collect(id, outcome) => if id in s.senders then s.senders[id := s.senders[id].(phase := Returned(outcome))] else s.senders
                     case _ => s.senders;
      s.(lock := None, crit := s.crit - {pid}, senders := senders)
  }
}
