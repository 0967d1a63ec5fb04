/** The pool as the object the code has, each method tied to the steps of the protocol. */
module PdmThreadPoolObject {
  import opened Base
  import opened ThreadPool

  class PdmThreadPool {
    var terminate: bool
    var workers: seq<Worker>
    var pdmTasks: seq<nat>
    var nextJob: nat
    ghost var owed: nat
    ghost var teardown: Teardown
    ghost var accepted: seq<nat>
    ghost var started: seq<nat>
    ghost var completed: seq<nat>

    ghost function Abs(): State
      reads this
    {
      State(terminate, pdmTasks, workers, owed, teardown, accepted, started, completed)
    }

    ghost predicate Valid()
      reads this
    {
      Inv(Abs()) && nextJob == |accepted|
    }

    constructor (threads: nat)
      ensures Valid() && Abs() == Init(threads)
    {
      terminate, pdmTasks, nextJob := false, [], 0;
      owed, teardown, accepted, started, completed := 0, NotBegun, [], [], [];
      var spawned: seq<Worker> := [];
      for i := 0 to threads
        invariant spawned == seq(i, _ => Checking)
      {
        spawned := spawned + [Checking];
      }
      workers := spawned;
      new;
      InitInv(threads);
    }

    /** The critical section of enqueue; ok is false where the code throws. */
    method Enqueue() returns (ok: bool)
      requires Valid()
      modifies this
      ensures Valid() && ok == !old(terminate)
      ensures Abs() == Apply(old(Abs()), if ok then Action.Enqueue else EnqueueRefused)
    {
      StepInv(Abs(), if terminate then EnqueueRefused else Action.Enqueue);
      if terminate {
        return false;
      }
      pdmTasks, nextJob := pdmTasks + [nextJob], nextJob + 1;
      owed, accepted := owed + 1, accepted + [|accepted|];
      ok := true;
    }

    /** One evaluation of the wait predicate by worker w and what follows it under the lock. */
    method WorkerCheck(w: nat)
      requires Valid() && Enabled(Abs(), Check(w))
      modifies this
      ensures Valid() && Abs() == Apply(old(Abs()), Check(w))
    {
      StepInv(Abs(), Check(w));
      if !(terminate || pdmTasks != []) {
        workers := workers[w := Sleeping];
      } else if terminate && pdmTasks == [] {
        workers := workers[w := Exited];
      } else {
        started := started + [pdmTasks[0]];
        workers := workers[w := Running(pdmTasks[0])];
        pdmTasks := pdmTasks[1..];
      }
    }

    /** The job that worker w runs returns. */
    method WorkerFinish(w: nat)
      requires Valid() && Enabled(Abs(), Finish(w))
      modifies this
      ensures Valid() && Abs() == Apply(old(Abs()), Finish(w))
    {
      StepInv(Abs(), Finish(w));
      completed := completed + [workers[w].job];
      workers := workers[w := Checking];
    }

    /** notify_one: the system picks the sleeper, if there is one. */
    method NotifyOneWorker()
      requires Valid() && owed > 0
      modifies this
      ensures Valid()
      ensures exists k :: Enabled(old(Abs()), NotifyOne(k)) && Abs() == Apply(old(Abs()), NotifyOne(k))
    {
      ghost var before := Abs();
      if w :| 0 <= w < |workers| && workers[w].Sleeping? {
        workers := workers[w := Checking];
        owed := owed - 1;
        StepInv(before, NotifyOne(Some(w)));
        assert Enabled(before, NotifyOne(Some(w))) && Abs() == Apply(before, NotifyOne(Some(w)));
      } else {
        owed := owed - 1;
        StepInv(before, NotifyOne(None));
        assert Enabled(before, NotifyOne(None)) && Abs() == Apply(before, NotifyOne(None));
      }
    }

    /**
     * The destructor: set the flag, wake everybody, and wait until each worker has exited.
     * The loop lets any live worker move next, so it stands for every schedule.
     */
    method Destroy()
      requires Valid() && teardown.NotBegun?
      modifies this
      ensures Valid() && teardown.Joined?
      ensures |workers| == |old(workers)| && accepted == old(accepted)
      ensures forall w :: 0 <= w < |workers| ==> workers[w].Exited?
      ensures Drained(Abs()) <==> |workers| > 0 || accepted == []
    {
      Terminate();
      JoinWorkers();
      FinishJoins();
    }

    /** The flag and notify_all. */
    method Terminate()
      requires Valid() && teardown.NotBegun?
      modifies this
      ensures Valid() && teardown.Woken?
      ensures Abs() == Apply(Apply(old(Abs()), SetTerminate), NotifyAll)
    {
      StepInv(Abs(), SetTerminate);
      terminate, teardown := true, Flagged;
      StepInv(Abs(), NotifyAll);
      workers, teardown := WakeAll(workers), Woken;
    }

    /** The joins have returned. */
    method FinishJoins()
      requires Valid() && teardown.Woken? && forall w :: 0 <= w < |workers| ==> workers[w].Exited?
      modifies this
      ensures Valid() && Abs() == Apply(old(Abs()), JoinAll)
      ensures Drained(Abs()) <==> |workers| > 0 || accepted == []
    {
      StepInv(Abs(), JoinAll);
      teardown := Joined;
      JoinedMeansDrained(Abs());
    }

    /** What the joins wait for. */
    method JoinWorkers()
      requires Valid() && teardown.Woken?
      modifies this
      ensures Valid() && teardown.Woken?
      ensures |workers| == |old(workers)| && accepted == old(accepted)
      ensures forall w :: 0 <= w < |workers| ==> workers[w].Exited?
    {
      while exists w :: 0 <= w < |workers| && !workers[w].Exited?
        invariant Valid() && teardown.Woken?
        invariant |workers| == |old(workers)| && accepted == old(accepted)
        decreases Measure(Abs())
      {
        var w: nat :| w < |workers| && !workers[w].Exited?;
        WokenWorkersMove(Abs(), w);
        if workers[w].Checking? {
          ShutdownStep(Abs(), Check(w));
          WorkerCheck(w);
        } else {
          ShutdownStep(Abs(), Finish(w));
          WorkerFinish(w);
        }
      }
    }
  }
}
