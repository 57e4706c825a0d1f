/** The queue over whole runs. */
module UiQueueRuns {
  import opened Common
  import opened UiQueue
  import opened UiQueueSafety

  /** Any interleaving of steps from the empty queue. */
  ghost predicate IsRun(states: seq<State>, steps: seq<Step>)
  {
    && |states| == |steps| + 1 && states[0] == Start
    && forall i :: 0 <= i < |steps| ==> Enabled(states[i], steps[i]) && states[i + 1] == Apply(states[i], steps[i])
  }

  lemma {:induction false} RunKeepsInv(states: seq<State>, steps: seq<Step>, i: nat)
    requires IsRun(states, steps) && i < |states|
    ensures Inv(states[i])
  {
    if i == 0 {
      InvStart();
    } else {
      RunKeepsInv(states, steps, i - 1);
      InvStep(states[i - 1], steps[i - 1]);
    }
  }

  // ---- one step ----

  /** A command leaves the file exactly when its own sender removes it or, once it is done, when another command is sent. */
  lemma LeavesExactly(s: State, step: Step, id: Id)
    requires Inv(s) && Enabled(s, step) && Find(s.file, id).Some?
    ensures Find(Apply(s, step).file, id).None? <==>
            step.Write? && var job := s.crit[step.pid].job;
            (job.Collect? && job.id == id) || (job.Send? && Find(s.file, id).value.status == Done)
  {
    if step.Write? {
      WrittenCommand(s, step, id);
    }
  }

  /** A command that stays changes only when an instance that may take it takes it, from pending to in progress, or when that instance completes it;
      and a completion never finds it pending. */
  lemma ChangesExactly(s: State, step: Step, id: Id)
    requires Inv(s) && Enabled(s, step) && Find(s.file, id).Some? && Find(Apply(s, step).file, id).Some?
    ensures var c, d := Find(s.file, id).value, Find(Apply(s, step).file, id).value;
      d == c
      || (step.Write? && var job := s.crit[step.pid].job;
          || (job.Poll? && c.status == Pending && Takes(c, job.inst) && Claim(id, job.inst) in s.emitted && d == c.(status := InProgress))
          || (job.Complete? && job.done == id && c.status != Pending && Claim(id, job.inst) in s.emitted
              && d == c.(status := Done, result := Some(job.result))))
  {
    if step.Write? {
      var k := s.crit[step.pid];
      var c := Find(s.file, id).value;
      assert JobOk(s, k) && CommandOk(s, c);
      WrittenCommand(s, step, id);
      if k.job.Poll? && c.status == Pending && Takes(c, k.job.inst) {
        ClaimsAre(s.file, k.job.inst, Claim(id, k.job.inst));
      }
      if k.job.Complete? && k.job.done == id {
        assert IsClaimed(s.emitted, id);
        assert s.lock == Some(step.pid);
        assert !ClaimUnderWay(s, c);
      }
    }
  }

  /** A command appears only when its sender writes it, before which it had never been there. */
  lemma AppearsExactly(s: State, step: Step, id: Id)
    requires Inv(s) && Enabled(s, step) && Find(s.file, id).None?
    ensures Find(Apply(s, step).file, id).Some? <==> step.Write? && s.crit[step.pid].job.Send? && s.crit[step.pid].job.cmd.id == id
  {
    if step.Write? {
      WrittenCommand(s, step, id);
    }
  }

  /** As long as a critical section is under way some step of one can be taken: nobody waits for a lock that is never given back. */
  lemma NoDeadlock(s: State)
    requires Inv(s) && s.crit != map[]
    ensures exists step: Step :: !step.Begin? && Enabled(s, step)
  {
    var p: Pid :| p in s.crit;
    var q := if s.lock.Some? then s.lock.value else p;
    var phase := s.crit[q].phase;
    var step := match phase
                case Wants => Acquire(q)
                case Holds => Read(q)
                case Has(_) => Change(q)
                case Changed(_) => Write(q)
                case Written => Release(q);
    assert Enabled(s, step);
  }

  // ---- claims ----

  /** Over a whole run no command is taken twice, and one that names an instance only by that instance. */
  lemma ClaimedOnceByItsTarget(states: seq<State>, steps: seq<Step>, i: nat, a: nat, b: nat)
    requires IsRun(states, steps) && i < |states| && a < |states[i].emitted| && b < |states[i].emitted|
    ensures states[i].emitted[a].id == states[i].emitted[b].id ==> a == b
    ensures var e := states[i].emitted[a]; e.id in states[i].senders && Takes(states[i].senders[e.id].cmd, e.inst)
  {
    RunKeepsInv(states, steps, i);
    assert states[i].emitted[a] in states[i].emitted;
  }

  // ---- status ----

  function Rank(st: Status): nat { match st case Pending => 0 case InProgress => 1 case Done => 2 }

  /** A command that was in the file: its sender will not write it again. */
  ghost predicate Spent(s: State, id: Id)
  {
    id in s.senders && forall p :: p in s.crit && s.crit[p].job.Send? && s.crit[p].job.cmd.id == id ==> s.crit[p].phase == Written
  }

  lemma FoundIsSpent(s: State, id: Id)
    requires Inv(s) && Find(s.file, id).Some?
    ensures Spent(s, id)
  {
    assert CommandOk(s, Find(s.file, id).value);
    forall p | p in s.crit && s.crit[p].job.Send? && s.crit[p].job.cmd.id == id ensures s.crit[p].phase == Written {
      assert JobOk(s, s.crit[p]);
    }
  }

  lemma SpentStays(s: State, step: Step, id: Id)
    requires Inv(s) && Enabled(s, step) && Spent(s, id)
    ensures Spent(Apply(s, step), id)
    ensures Find(s.file, id).None? ==> Find(Apply(s, step).file, id).None?
  {
    if Find(s.file, id).None? {
      AppearsExactly(s, step, id);
    }
  }

  lemma {:induction false} SpentRun(states: seq<State>, steps: seq<Step>, i: nat, j: nat, id: Id)
    requires IsRun(states, steps) && i <= j < |states| && Spent(states[i], id)
    ensures Spent(states[j], id)
    ensures Find(states[i].file, id).None? ==> Find(states[j].file, id).None?
    decreases j - i
  {
    if i < j {
      RunKeepsInv(states, steps, i);
      SpentStays(states[i], steps[i], id);
      SpentRun(states, steps, i + 1, j, id);
    }
  }

  /** A command that left the file never comes back. */
  lemma NeverComesBack(states: seq<State>, steps: seq<Step>, i: nat, j: nat, k: nat, id: Id)
    requires IsRun(states, steps) && i <= j <= k < |states|
    requires Find(states[i].file, id).Some? && Find(states[j].file, id).None?
    ensures Find(states[k].file, id).None?
  {
    RunKeepsInv(states, steps, i);
    FoundIsSpent(states[i], id);
    SpentRun(states, steps, i, j, id);
    SpentRun(states, steps, j, k, id);
  }

  /** Over a whole run the status of a command only goes from pending over in progress to done, and nothing else of what was asked changes. */
  lemma {:induction false} StatusOnlyRises(states: seq<State>, steps: seq<Step>, i: nat, j: nat, id: Id)
    requires IsRun(states, steps) && i <= j < |states|
    requires Find(states[i].file, id).Some? && Find(states[j].file, id).Some?
    ensures var c, d := Find(states[i].file, id).value, Find(states[j].file, id).value;
      Rank(c.status) <= Rank(d.status) && c.body == d.body && c.target == d.target
    decreases j - i
  {
    if i < j {
      RunKeepsInv(states, steps, i);
      if Find(states[i + 1].file, id).None? {
        NeverComesBack(states, steps, i, i + 1, j, id);
      } else {
        ChangesExactly(states[i], steps[i], id);
        StatusOnlyRises(states, steps, i + 1, j, id);
      }
    }
  }

  // ---- nothing asked is lost ----

  /** The sender has written its command and neither collected nor given up. */
  ghost predicate Posted(s: State, id: Id)
  {
    && id in s.senders
    && (s.senders[id].phase == Waiting
        || (s.senders[id].phase == Sending && exists p :: p in s.crit && s.crit[p].job.Send? && s.crit[p].job.cmd.id == id && s.crit[p].phase == Written))
  }

  ghost predicate WasAnswered(s: State, id: Id) { exists a :: a in s.answers && a.id == id }

  ghost predicate NothingLost(s: State)
  {
    forall id :: Posted(s, id) ==> Find(s.file, id).Some? || WasAnswered(s, id)
  }

  lemma NothingLostStep(s: State, step: Step, id: Id)
    requires Inv(s) && NothingLost(s) && Enabled(s, step) && Posted(Apply(s, step), id)
    ensures Find(Apply(s, step).file, id).Some? || WasAnswered(Apply(s, step), id)
  {
    var t := Apply(s, step);
    if Find(s.file, id).Some? && Find(s.file, id).value.status == Done {
      DoneIsAnswered(s, id);
    }
    if WasAnswered(s, id) {
      var a :| a in s.answers && a.id == id;
      assert a in t.answers;
    } else if step.Write? && s.crit[step.pid].job.Send? && s.crit[step.pid].job.cmd.id == id {
      WrittenCommand(s, step, id);
    } else {
      PostedBefore(s, step, id);
      LeavesExactly(s, step, id);
      if step.Write? {
        assert JobOk(s, s.crit[step.pid]);
      }
    }
  }

  lemma DoneIsAnswered(s: State, id: Id)
    requires Inv(s) && Find(s.file, id).Some? && Find(s.file, id).value.status == Done
    ensures WasAnswered(s, id)
  {
    assert CommandOk(s, Find(s.file, id).value);
  }

  lemma PostedBefore(s: State, step: Step, id: Id)
    requires Inv(s) && Enabled(s, step) && Posted(Apply(s, step), id)
    requires !(step.Write? && s.crit[step.pid].job.Send? && s.crit[step.pid].job.cmd.id == id)
    ensures Posted(s, id)
  {
    var t := Apply(s, step);
    if step.Release? {
      assert JobOk(s, s.crit[step.pid]);
    }
    if t.senders[id].phase == Sending {
      var p :| p in t.crit && t.crit[p].job.Send? && t.crit[p].job.cmd.id == id && t.crit[p].phase == Written;
      assert p in s.crit;
      assert JobOk(s, s.crit[p]);
    }
  }

  /** Over a whole run a command that was written and whose sender still waits is in the file, unless it has been completed. */
  lemma {:induction false} NoCommandIsLost(states: seq<State>, steps: seq<Step>, i: nat)
    requires IsRun(states, steps) && i < |states|
    ensures NothingLost(states[i])
  {
    if i > 0 {
      NoCommandIsLost(states, steps, i - 1);
      RunKeepsInv(states, steps, i - 1);
      forall id | Posted(states[i], id) ensures Find(states[i].file, id).Some? || WasAnswered(states[i], id) {
        NothingLostStep(states[i - 1], steps[i - 1], id);
      }
    }
  }

  /** What a sender returns, other than a timeout, is a result written by an instance that took its command. */
  lemma ReturnsAnAnswer(states: seq<State>, steps: seq<Step>, i: nat, id: Id)
    requires IsRun(states, steps) && i < |states|
    requires id in states[i].senders && states[i].senders[id].phase.Returned? && states[i].senders[id].phase.outcome.Some?
    ensures exists a :: a in states[i].answers && a.id == id && a.result == states[i].senders[id].phase.outcome.value
              && Claim(id, a.inst) in states[i].emitted && Takes(states[i].senders[id].cmd, a.inst)
  {
    RunKeepsInv(states, steps, i);
    var a :| a in states[i].answers && a.id == id && a.result == states[i].senders[id].phase.outcome.value;
    assert Claim(id, a.inst) in states[i].emitted;
  }

  // ---- a result can be lost ----

  /** A critical section that meets no other: its six steps in a row. */
  lemma Undisturbed(states: seq<State>, steps: seq<Step>, pid: Pid, job: Job) returns (states': seq<State>, steps': seq<Step>)
    requires IsRun(states, steps) && |states| == |steps| + 1
    requires var s := states[|steps|]; s.lock == None && s.crit == map[] && MayBegin(s, job)
    ensures IsRun(states', steps') && |states'| == |steps'| + 1
    ensures var s, t := states[|steps|], states'[|steps'|];
      && t.lock == None && t.crit == map[] && t.file == Update(job, s.file)
      && t.emitted == s.emitted + (if job.Poll? then Claims(s.file, job.inst) else [])
      && t.answers == s.answers + (if job.Complete? then [Answer(job.done, job.inst, job.result)] else [])
      && (job.Send? ==> t.senders == s.senders[job.cmd.id := Sender(job.cmd, Waiting)])
      && (job.Poll? || job.Complete? ==> t.senders == s.senders)
  {
    states', steps' := OneMore(states, steps, Begin(pid, job));
    states', steps' := OneMore(states', steps', Acquire(pid));
    states', steps' := OneMore(states', steps', Read(pid));
    states', steps' := OneMore(states', steps', Change(pid));
    states', steps' := OneMore(states', steps', Write(pid));
    states', steps' := OneMore(states', steps', Release(pid));
  }

  lemma OneMore(states: seq<State>, steps: seq<Step>, step: Step) returns (states': seq<State>, steps': seq<Step>)
    requires IsRun(states, steps) && Enabled(states[|steps|], step)
    ensures IsRun(states', steps') && |steps'| == |steps| + 1 && states'[|steps'|] == Apply(states[|steps|], step)
  {
    states' := states + [Apply(states[|steps|], step)];
    steps' := steps + [step];
  }

  const ONE := Command(1, "write_to_editor", "", Pending, None)
  const TWO := Command(2, "new_editor_tab", "", Pending, None)

  lemma OneTaken() returns (states: seq<State>, steps: seq<Step>)
    ensures IsRun(states, steps) && |states| == |steps| + 1
    ensures states[|steps|] == State([ONE.(status := InProgress)], None, map[], map[1 := Sender(ONE, Waiting)], [Claim(1, "window")], [])
  {
    hide IsRun;
    OneCommand(ONE, "window", "ok");
    states, steps := StartRun();
    states, steps := Undisturbed(states, steps, 0, Send(ONE));
    assert states[|steps|].file == [ONE];
    states, steps := Undisturbed(states, steps, 0, Poll("window"));
  }

  /** A result that its sender has not collected can be lost: here the window completes command 1, then command 2 is sent, and the sender of
      command 1, still waiting, can only time out. */
  lemma ResultCanBeLost() returns (states: seq<State>, steps: seq<Step>)
    ensures IsRun(states, steps) && |states| == |steps| + 1
    ensures var s := states[|steps|];
      && 1 in s.senders && s.senders[1].phase == Waiting && Answer(1, "window", "ok") in s.answers
      && Find(s.file, 1).None? && !MayBegin(s, Collect(1, Some("ok"))) && MayBegin(s, Collect(1, None))
  {
    hide IsRun;
    var taken := ONE.(status := InProgress);
    OneCommand(taken, "window", "ok");
    OneCommand(taken.(status := Done, result := Some("ok")), "window", "ok");
    states, steps := OneTaken();
    states, steps := Undisturbed(states, steps, 0, Complete("window", 1, "ok"));
    states, steps := Undisturbed(states, steps, 0, Send(TWO));
    assert states[|steps|].file == [TWO];
  }

  lemma StartRun() returns (states: seq<State>, steps: seq<Step>)
    ensures IsRun(states, steps) && |states| == 1 && |steps| == 0 && states[0] == Start
  {
    states, steps := [Start], [];
  }

  /** What each change makes of a list of one command. */
  lemma OneCommand(c: Command, inst: string, result: string)
    ensures Unfinished([c]) == if c.status == Done then [] else [c]
    ensures ClaimAll([c], inst) == [Claimed(c, inst)] && Claims([c], inst) == Event(c, inst)
    ensures Completed([c], c.id, result) == [c.(status := Done, result := Some(result))]
  {
    assert [c][1..] == [];
  }
}
