/**
 * The objects behind module CommandOwnership: freeing is a precondition here, so a second
 * delete or a use after one would not verify.
 */
module CommandObjects {
  import CommandOwnership
  import TP = ThreadPool
  import opened PdmThreadPoolObject

  /** What a command carries: the DeviceClass of a uevent or the CommandType of a request. */
  class Payload {
    ghost var frees: nat

    constructor ()
      ensures frees == 0
    {
      frees := 0;
    }

    /** delete. */
    ghost method Free()
      requires frees == 0
      modifies this
      ensures frees == 1
    {
      frees := 1;
    }
  }

  /** What an execution runs into: nothing, or an exception from the device manager or the callback. */
  datatype Fault = NoFault | ManagerThrows | CallbackThrows

  /** DeviceClassCommand and PdmCommand; kind stands for the virtual dispatch. */
  class Command {
    const kind: CommandOwnership.Kind
    ghost const payload: Payload?
    var ptr: Payload?
    ghost var frees: nat
    ghost var replies: nat  // calls of m_cmdCallBack

    /** Neither the command nor the payload in it has been freed. */
    ghost predicate Owns()
      reads this, payload
    {
      frees == 0 && ptr == payload && (payload != null ==> payload.frees == 0)
    }

    /** What execute leaves when it returns: a uevent is freed and forgotten, a request is kept. */
    ghost predicate Executed()
      reads this, payload
    {
      if kind.Uevent? && payload != null then frees == 0 && ptr == null && payload.frees == 1 else Owns()
    }

    ghost predicate Gone()
      reads this, payload
    {
      frees == 1 && (payload != null ==> payload.frees == 1)
    }

    constructor (kind: CommandOwnership.Kind, ptr: Payload?)
      requires ptr != null ==> ptr.frees == 0
      ensures Owns() && this.kind == kind && payload == ptr && replies == 0
    {
      this.kind, payload, this.ptr, frees, replies := kind, ptr, ptr, 0, 0;
    }

    /** DeviceClassCommand::execute; throws: HandlePdmDevice lets a std::exception escape. */
    method ExecuteUevent(throws: bool)
      requires kind.Uevent? && Owns()
      modifies this, payload
      ensures replies == old(replies) && if throws && payload != null then Owns() else Executed()
    {
      if ptr != null {
        assert ptr.frees == 0; // the device manager works on a live event
        if throws {
          return;
        }
        if ptr != null {
          ptr.Free();
        }
        ptr := null;
      }
    }

    /** PdmCommand::execute: the request stays owned, and is answered unless the device manager throws. */
    method ExecuteService(fault: Fault)
      requires kind.Service? && Owns()
      modifies this`replies
      ensures Owns() && replies == old(replies) + if fault.ManagerThrows? then 0 else 1
    {
      assert ptr != null ==> ptr.frees == 0; // the device manager works on a live request
      if fault == ManagerThrows {
        return;
      }
      Callback();
    }

    /** m_cmdCallBack, whether or not it throws in the end. */
    method Callback()
      requires frees == 0
      modifies this`replies
      ensures replies == old(replies) + 1
    {
      replies := replies + 1;
    }

    method Execute(fault: Fault)
      requires Owns()
      modifies this, payload
      ensures Owns() || Executed()
      ensures replies == old(replies) + Due(fault)
    {
      if kind.Uevent? {
        ExecuteUevent(fault != NoFault);
      } else {
        ExecuteService(fault);
      }
    }

    /** How many answers this command is due, given what its execution runs into. */
    ghost function Due(fault: Fault): nat {
      if kind.Service? && !fault.ManagerThrows? then 1 else 0
    }

    /** Either destructor, and the delete around it. */
    method Delete()
      requires Owns() || Executed()
      modifies this, payload
      ensures Gone() && replies == old(replies)
    {
      if ptr != null {
        ptr.Free();
      }
      ptr := null;
      frees := 1;
    }
  }

  ghost function Payloads(cmds: seq<Command>): set<Payload?> {
    set c | c in cmds :: c.payload
  }

  /** No two commands are the same object or carry the same payload. */
  ghost predicate Apart(cmds: seq<Command>) {
    forall i, j :: 0 <= i < j < |cmds| ==>
      cmds[i] != cmds[j] && (cmds[i].payload != cmds[j].payload || cmds[i].payload == null)
  }

  lemma ApartFrom(cmds: seq<Command>, n: nat)
    requires Apart(cmds) && n < |cmds|
    ensures forall i :: 0 <= i < |cmds| && i != n ==>
      cmds[i] != cmds[n] && (cmds[i].payload != cmds[n].payload || cmds[n].payload == null)
  {
  }

  class CommandManager {
    const m_cmdPool: PdmThreadPool
    /** The command bound into job n. */
    var jobs: seq<Command>

    /** The pool's one worker frees a command and its payload with the job, and nobody else touches them. */
    ghost predicate Valid()
      reads this, m_cmdPool, jobs, Payloads(jobs)
    {
      && m_cmdPool.Valid() && |m_cmdPool.workers| == 1
      && |m_cmdPool.completed| <= |jobs| == |m_cmdPool.accepted|
      && Apart(jobs)
      && DoneUpTo(|m_cmdPool.completed|)
    }

    /** The first n jobs are gone with their payloads, the others untouched and unanswered. */
    ghost predicate DoneUpTo(n: nat)
      requires n <= |jobs|
      reads this, jobs, Payloads(jobs)
    {
      && (forall i :: 0 <= i < n ==> jobs[i].Gone())
      && (forall i :: n <= i < |jobs| ==> jobs[i].Owns() && jobs[i].replies == 0)
    }

    constructor ()
      ensures Valid() && fresh(m_cmdPool) && jobs == [] && m_cmdPool.Abs() == TP.Init(1)
    {
      m_cmdPool := new PdmThreadPool(1);
      jobs := [];
    }

    /** One enqueue and the notify_one that follows it. */
    ghost predicate Accepted(s: TP.State, t: TP.State) {
      && TP.Enabled(s, TP.Enqueue)
      && exists k :: TP.Enabled(TP.Apply(s, TP.Enqueue), TP.NotifyOne(k))
                     && t == TP.Apply(TP.Apply(s, TP.Enqueue), TP.NotifyOne(k))
    }

    method SendCommand(cmd: Command?) returns (ok: bool)
      requires Valid()
      requires cmd != null ==> cmd.Owns() && cmd.replies == 0 && Apart(jobs + [cmd])
      modifies this, m_cmdPool, cmd, if cmd == null then {} else {cmd.payload}
      ensures Valid()
      ensures ok <==> cmd != null && !old(m_cmdPool.terminate)
      ensures jobs == if ok then old(jobs) + [cmd] else old(jobs)
      ensures cmd != null ==> cmd.replies == 0 && if ok then cmd.Owns() else cmd.Gone()
      ensures if ok then Accepted(old(m_cmdPool.Abs()), m_cmdPool.Abs()) else m_cmdPool.Abs() == old(m_cmdPool.Abs())
    {
      if cmd == null {
        return false;
      }
      ghost var all := jobs + [cmd];
      assert forall i :: 0 <= i < |jobs| ==> all[i] == jobs[i] && all[|jobs|] == cmd;
      ok := m_cmdPool.Enqueue();
      if ok {
        jobs := jobs + [cmd];
        m_cmdPool.NotifyOneWorker();
      } else { // enqueue throws, the handler deletes
        cmd.Delete();
      }
    }

    static method ExecuteCommand(cmd: Command?, fault: Fault) returns (ok: bool)
      requires cmd != null ==> cmd.Owns()
      modifies cmd, if cmd == null then {} else {cmd.payload}
      ensures ok <==> cmd != null
      ensures cmd != null ==> cmd.Gone() && cmd.replies == old(cmd.replies) + cmd.Due(fault)
    {
      if cmd == null {
        return false;
      }
      cmd.Execute(fault);
      cmd.Delete();
      ok := true;
    }

    /** With one worker, what runs is the oldest job that has not completed. */
    lemma RunsTheNext()
      requires Valid() && m_cmdPool.workers[0].Running?
      ensures m_cmdPool.workers[0].job == |m_cmdPool.completed| < |jobs|
    {
      var s := m_cmdPool.Abs();
      assert s.started == s.completed + [s.workers[0].job];
      assert s.started[|s.completed|] == s.accepted[|s.completed|];
    }

    /**
     * One move of the worker thread: a look at the queue, or the job it took; faults says what the
     * execution of each job runs into.
     */
    method WorkerMoves(faults: nat -> Fault)
      requires Valid() && (m_cmdPool.workers[0].Checking? || m_cmdPool.workers[0].Running?)
      modifies m_cmdPool, jobs, Payloads(jobs)
      ensures Valid()
      ensures m_cmdPool.Abs() ==
        TP.Apply(old(m_cmdPool.Abs()), if old(m_cmdPool.workers[0].Checking?) then TP.Check(0) else TP.Finish(0))
      ensures forall i :: 0 <= i < |jobs| ==>
        (jobs[i].replies ==
          if old(m_cmdPool.workers[0].Running?) && i == |old(m_cmdPool.completed)| then jobs[i].Due(faults(i))
          else old(jobs[i].replies))
    {
      if m_cmdPool.workers[0].Checking? {
        m_cmdPool.WorkerCheck(0);
      } else {
        RunJob(faults);
      }
    }

    method RunJob(faults: nat -> Fault)
      requires Valid() && m_cmdPool.workers[0].Running?
      modifies m_cmdPool, jobs, Payloads(jobs)
      ensures Valid()
      ensures m_cmdPool.Abs() == TP.Apply(old(m_cmdPool.Abs()), TP.Finish(0))
      ensures forall i :: 0 <= i < |jobs| ==>
        (jobs[i].replies ==
          if i == |old(m_cmdPool.completed)| then jobs[i].Due(faults(i)) else old(jobs[i].replies))
    {
      RunsTheNext();
      ghost var n := |m_cmdPool.completed|;
      ExecuteNext(faults);
      assert DoneUpTo(n + 1);
      m_cmdPool.WorkerFinish(0);
    }

    /** The running job's command is executed and deleted; every other command is as it was. */
    method ExecuteNext(faults: nat -> Fault)
      requires Valid() && m_cmdPool.workers[0].Running?
      requires m_cmdPool.workers[0].job == |m_cmdPool.completed| < |jobs|
      modifies jobs, Payloads(jobs)
      ensures var n := |m_cmdPool.completed|;
        && jobs[n].Gone() && jobs[n].replies == jobs[n].Due(faults(n))
        && (forall i :: 0 <= i < n ==> jobs[i].Gone() && jobs[i].replies == old(jobs[i].replies))
        && (forall i :: n < i < |jobs| ==> jobs[i].Owns() && jobs[i].replies == 0 == old(jobs[i].replies))
    {
      var n := m_cmdPool.workers[0].job;
      var cmd := jobs[n];
      assert cmd in jobs && cmd.payload in Payloads(jobs);
      ApartFrom(jobs, n);
      var _ := ExecuteCommand(cmd, faults(n));
    }

    /**
     * Destroying the pool drains it: every command ever sent is gone with its payload, each freed
     * once, and each request still waiting is answered once, or not at all if the device manager
     * throws on it.
     */
    method Destroy(faults: nat -> Fault)
      requires Valid() && m_cmdPool.teardown.NotBegun?
      modifies m_cmdPool, jobs, Payloads(jobs)
      ensures Valid() && m_cmdPool.teardown.Joined?
      ensures TP.Drained(m_cmdPool.Abs())
      ensures forall i :: 0 <= i < |jobs| ==> jobs[i].Gone()
      ensures forall i :: 0 <= i < |jobs| ==>
        (jobs[i].replies ==
          if i < |old(m_cmdPool.completed)| then old(jobs[i].replies) else jobs[i].Due(faults(i)))
    {
      ghost var done := |m_cmdPool.completed|;
      m_cmdPool.Terminate();
      assert |m_cmdPool.completed| == done && DoneUpTo(done);
      DrainJobs(faults);
      m_cmdPool.FinishJoins();
      AllCompleted();
    }

    /** What the join waits for. */
    method DrainJobs(faults: nat -> Fault)
      requires Valid() && m_cmdPool.teardown.Woken?
      modifies m_cmdPool, jobs, Payloads(jobs)
      ensures Valid() && m_cmdPool.teardown.Woken? && m_cmdPool.workers[0].Exited?
      ensures |old(m_cmdPool.completed)| <= |m_cmdPool.completed|
      ensures forall i :: 0 <= i < |old(m_cmdPool.completed)| ==> jobs[i].replies == old(jobs[i].replies)
      ensures forall i :: |old(m_cmdPool.completed)| <= i < |m_cmdPool.completed| ==>
        jobs[i].replies == jobs[i].Due(faults(i))
    {
      ghost var done := |m_cmdPool.completed|;
      while m_cmdPool.workers[0] != TP.Exited
        invariant Valid() && m_cmdPool.teardown.Woken? && done <= |m_cmdPool.completed|
        invariant forall i :: 0 <= i < done ==> jobs[i].replies == old(jobs[i].replies)
        invariant forall i :: done <= i < |m_cmdPool.completed| ==> jobs[i].replies == jobs[i].Due(faults(i))
        decreases TP.Measure(m_cmdPool.Abs())
      {
        TP.WokenWorkersMove(m_cmdPool.Abs(), 0);
        TP.ShutdownStep(m_cmdPool.Abs(), if m_cmdPool.workers[0].Checking? then TP.Check(0) else TP.Finish(0));
        WorkerMoves(faults);
      }
    }

    lemma AllCompleted()
      requires Valid() && m_cmdPool.teardown.Joined?
      ensures |m_cmdPool.completed| == |jobs|
    {
      var s := m_cmdPool.Abs();
      assert s.workers[0].Exited? && s.workers[0] in s.workers;
      assert s.queue == [] && s.started == s.completed;
    }
  }

  class PdmNetlinkClassAdapter {
    var mCmdManager: CommandManager?

    constructor ()
      ensures mCmdManager == null
    {
      mCmdManager := null;
    }

    method SetCommandManager(cmdMgr: CommandManager?)
      modifies this
      ensures mCmdManager == cmdMgr
    {
      mCmdManager := cmdMgr;
    }

    /**
     * device is what the factory made of the uevent. Either nothing came in, or the event ends
     * up in the manager's last job inside one new command, or it has been freed when this returns.
     */
    method HandleEvent(device: Payload?, noMemory: bool)
      requires device != null ==> device.frees == 0
      requires mCmdManager != null ==> mCmdManager.Valid()
      requires mCmdManager != null && device != null ==> device !in Payloads(mCmdManager.jobs)
      modifies device, mCmdManager, if mCmdManager == null then null else mCmdManager.m_cmdPool
      ensures mCmdManager == old(mCmdManager)
      ensures mCmdManager != null ==> mCmdManager.Valid()
      ensures device != null ==>
        (device.frees == 0 <==> mCmdManager != null && !noMemory && !old(mCmdManager.m_cmdPool.terminate))
        && device.frees <= 1
      ensures mCmdManager != null ==>
        if device != null && device.frees == 0
        then |mCmdManager.jobs| == |old(mCmdManager.jobs)| + 1
          && mCmdManager.jobs[..|old(mCmdManager.jobs)|] == old(mCmdManager.jobs)
          && fresh(mCmdManager.jobs[|old(mCmdManager.jobs)|])
          && mCmdManager.jobs[|old(mCmdManager.jobs)|].payload == device
          && mCmdManager.jobs[|old(mCmdManager.jobs)|].kind.Uevent?
        else mCmdManager.jobs == old(mCmdManager.jobs)
    {
      if device == null {
        return;
      }
      if mCmdManager == null {
        device.Free();
        return;
      }
      if noMemory {
        device.Free();
        return;
      }
      var devClassCmd := new Command(CommandOwnership.Uevent, device);
      var _ := mCmdManager.SendCommand(devClassCmd);
    }
  }
}
