/**
 * The command pool: jobs queued under one mutex, workers that sleep on a condition
 * variable, and a destructor that sets a flag, wakes everybody and joins.
 *
 * A critical section is one step, because the mutex makes it one; what happens outside
 * the mutex (notify_one after the unlock, notify_all, running a job, a spurious wake-up)
 * is a step of its own, so every interleaving the code allows is a run here.
 */
module ThreadPool {
  import opened Base

  /** Checking: about to evaluate the wait predicate with the lock held. */
  datatype Worker = Checking | Sleeping | Running(job: nat) | Exited

  /** How far the destructor has got. */
  datatype Teardown = NotBegun | Flagged | Woken | Joined

  datatype State = State(
    terminate: bool,
    queue: seq<nat>,
    workers: seq<Worker>,
    owed: nat,              // producers that pushed and have not called notify_one yet
    teardown: Teardown,
    accepted: seq<nat>,     // history: jobs in the order enqueue accepted them
    started: seq<nat>,      // history: jobs in the order workers took them
    completed: seq<nat>)    // history: jobs in the order they returned

  datatype Action =
    | Enqueue
    | EnqueueRefused
    | NotifyOne(sleeper: Option<nat>)
    | SpuriousWake(w: nat)
    | Check(w: nat)
    | Finish(w: nat)
    | SetTerminate
    | NotifyAll
    | JoinAll

  function Init(threads: nat): State {
    State(false, [], seq(threads, _ => Checking), 0, NotBegun, [], [], [])
  }

  predicate Enabled(s: State, a: Action) {
    match a
    case Enqueue => !s.terminate
    case EnqueueRefused => s.terminate
    case NotifyOne(None) => s.owed > 0 && Sleeping !in s.workers
    case NotifyOne(Some(w)) => s.owed > 0 && w < |s.workers| && s.workers[w].Sleeping?
    case SpuriousWake(w) => w < |s.workers| && s.workers[w].Sleeping?
    case Check(w) => w < |s.workers| && s.workers[w].Checking?
    case Finish(w) => w < |s.workers| && s.workers[w].Running?
    case SetTerminate => s.teardown.NotBegun?
    case NotifyAll => s.teardown.Flagged?
    case JoinAll => s.teardown.Woken? && forall w :: 0 <= w < |s.workers| ==> s.workers[w].Exited?
  }

  function WakeAll(ws: seq<Worker>): seq<Worker> {
    seq(|ws|, i requires 0 <= i < |ws| => if ws[i].Sleeping? then Checking else ws[i])
  }

  function Apply(s: State, a: Action): State
    requires Enabled(s, a)
  {
    match a
    case Enqueue =>
      // Every call makes a new packaged job, so the fresh name is the acceptance number.
      var job := |s.accepted|;
      s.(queue := s.queue + [job], accepted := s.accepted + [job], owed := s.owed + 1)
    case EnqueueRefused => s
    case NotifyOne(None) => s.(owed := s.owed - 1)
    case NotifyOne(Some(w)) => s.(owed := s.owed - 1, workers := s.workers[w := Checking])
    case SpuriousWake(w) => s.(workers := s.workers[w := Checking])
    case Check(w) =>
      if !s.terminate && s.queue == [] then s.(workers := s.workers[w := Sleeping])
      else if s.queue == [] then s.(workers := s.workers[w := Exited])
      else s.(workers := s.workers[w := Running(s.queue[0])], queue := s.queue[1..],
              started := s.started + [s.queue[0]])
    case Finish(w) =>
      s.(workers := s.workers[w := Checking], completed := s.completed + [s.workers[w].job])
    case SetTerminate => s.(terminate := true, teardown := Flagged)
    case NotifyAll => s.(workers := WakeAll(s.workers), teardown := Woken)
    case JoinAll => s.(teardown := Joined)
  }

  predicate Legal(s: State, run: seq<Action>)
    decreases |run|
  {
    run == [] || (Enabled(s, run[0]) && Legal(Apply(s, run[0]), run[1..]))
  }

  function Exec(s: State, run: seq<Action>): State
    requires Legal(s, run)
    decreases |run|
  {
    if run == [] then s else Exec(Apply(s, run[0]), run[1..])
  }

  // ---------------------------------------------------------------- the invariant

  function Awake(ws: seq<Worker>): nat {
    multiset(ws)[Checking]
  }

  /** The claim that matters: a queued job never waits beside a sleeper nobody will wake. */
  ghost predicate NoLostWakeUp(s: State) {
    !s.terminate && Sleeping in s.workers ==> |s.queue| <= s.owed + Awake(s.workers)
  }

  ghost predicate Ordered(s: State) {
    && s.started + s.queue == s.accepted
    && forall i :: 0 <= i < |s.accepted| ==> s.accepted[i] == i
  }

  /** A started job has either completed or is being run by exactly as many workers as took it. */
  ghost predicate Conserved(s: State) {
    forall j: nat {:trigger multiset(s.started)[j]} ::
      multiset(s.completed)[j] + multiset(s.workers)[Running(j)] == multiset(s.started)[j]
  }

  ghost predicate TornDown(s: State) {
    && (s.terminate <==> !s.teardown.NotBegun?)
    && (s.teardown.Woken? || s.teardown.Joined? ==> Sleeping !in s.workers)
    && (Exited in s.workers ==> s.terminate && s.queue == [])
    && (s.teardown.Joined? ==> forall w :: 0 <= w < |s.workers| ==> s.workers[w].Exited?)
    && (|s.workers| == 0 ==> s.started == [])
  }

  ghost predicate SingleFile(s: State) {
    |s.workers| == 1 ==>
      s.started == s.completed + (if s.workers[0].Running? then [s.workers[0].job] else [])
  }

  ghost predicate Inv(s: State) {
    NoLostWakeUp(s) && Ordered(s) && Conserved(s) && TornDown(s) && SingleFile(s)
  }

  lemma {:induction false} WakeAllKeeps(ws: seq<Worker>, x: Worker)
    requires x != Checking && x != Sleeping
    ensures multiset(WakeAll(ws))[x] == multiset(ws)[x]
  {
    if ws != [] {
      assert WakeAll(ws) == [WakeAll(ws)[0]] + WakeAll(ws[1..]);
      assert ws == [ws[0]] + ws[1..];
      WakeAllKeeps(ws[1..], x);
    }
  }

  lemma InitInv(threads: nat)
    ensures Inv(Init(threads))
  {
  }

  lemma StepWakeUp(s: State, a: Action)
    requires NoLostWakeUp(s) && TornDown(s) && Enabled(s, a)
    ensures NoLostWakeUp(Apply(s, a))
  {
  }

  lemma StepOrdered(s: State, a: Action)
    requires Ordered(s) && Enabled(s, a)
    ensures Ordered(Apply(s, a))
  {
    if a.Check? && s.queue != [] {
      assert s.queue == [s.queue[0]] + s.queue[1..];
    }
  }

  lemma ReplaceCount(ws: seq<Worker>, w: nat, x: Worker, y: Worker)
    requires w < |ws|
    ensures multiset(ws[w := x])[y]
         == multiset(ws)[y] - (if ws[w] == y then 1 else 0) + (if x == y then 1 else 0)
  {
    assert multiset(ws[w := x]) == multiset(ws) - multiset{ws[w]} + multiset{x};
    assert ws[w] in multiset(ws);
  }

  lemma ConservedAt(s: State, a: Action, j: nat)
    requires Enabled(s, a)
    requires multiset(s.completed)[j] + multiset(s.workers)[Running(j)] == multiset(s.started)[j]
    ensures var t := Apply(s, a);
      multiset(t.completed)[j] + multiset(t.workers)[Running(j)] == multiset(t.started)[j]
  {
    var t := Apply(s, a);
    match a
    case NotifyOne(Some(w)) => ReplaceCount(s.workers, w, Checking, Running(j));
    case SpuriousWake(w) => ReplaceCount(s.workers, w, Checking, Running(j));
    case Check(w) =>
      ReplaceCount(s.workers, w, t.workers[w], Running(j));
      if s.queue != [] {
        assert multiset(t.started) == multiset(s.started) + multiset{s.queue[0]};
      }
    case Finish(w) =>
      ReplaceCount(s.workers, w, Checking, Running(j));
      assert multiset(t.completed) == multiset(s.completed) + multiset{s.workers[w].job};
    case NotifyAll => WakeAllKeeps(s.workers, Running(j));
    case _ =>
  }

  lemma StepConserved(s: State, a: Action)
    requires Conserved(s) && Enabled(s, a)
    ensures Conserved(Apply(s, a))
  {
    var t := Apply(s, a);
    forall j: nat
      ensures multiset(t.completed)[j] + multiset(t.workers)[Running(j)] == multiset(t.started)[j]
    {
      ConservedAt(s, a, j);
    }
  }

  lemma StepTornDown(s: State, a: Action)
    requires TornDown(s) && Enabled(s, a)
    ensures TornDown(Apply(s, a)) && |Apply(s, a).workers| == |s.workers|
  {
  }

  lemma StepSingleFile(s: State, a: Action)
    requires SingleFile(s) && Enabled(s, a)
    ensures SingleFile(Apply(s, a))
  {
  }

  lemma StepInv(s: State, a: Action)
    requires Inv(s) && Enabled(s, a)
    ensures Inv(Apply(s, a)) && |Apply(s, a).workers| == |s.workers|
  {
    StepWakeUp(s, a);
    StepOrdered(s, a);
    StepConserved(s, a);
    StepTornDown(s, a);
    StepSingleFile(s, a);
  }

  lemma {:induction false} RunInv(s: State, run: seq<Action>)
    requires Inv(s) && Legal(s, run)
    ensures Inv(Exec(s, run)) && |Exec(s, run).workers| == |s.workers|
    decreases |run|
  {
    if run != [] {
      StepInv(s, run[0]);
      RunInv(Apply(s, run[0]), run[1..]);
    }
  }

  // ---------------------------------------------------------------- what every run keeps

  lemma EveryRunInv(threads: nat, run: seq<Action>)
    requires Legal(Init(threads), run)
    ensures Inv(Exec(Init(threads), run)) && |Exec(Init(threads), run).workers| == threads
  {
    InitInv(threads);
    RunInv(Init(threads), run);
  }

  /**
   * With push and notify_one as separate steps and spurious wake-ups allowed: queued jobs
   * never outnumber the notifies still to come plus the awake idle workers while somebody
   * sleeps. So when nothing is left to happen by itself (no notify owed, nobody awake and
   * idle, nobody running) the queue is empty and every worker sleeps.
   */
  lemma NoJobWaitsBesideASleeper(threads: nat, run: seq<Action>)
    requires Legal(Init(threads), run)
    ensures var s := Exec(Init(threads), run);
      && |s.workers| == threads
      && NoLostWakeUp(s)
      && (threads > 0 && !s.terminate
          && (forall w :: !Enabled(s, Check(w)) && !Enabled(s, Finish(w)))
          && (forall k :: !Enabled(s, NotifyOne(k)))
          ==> s.queue == [] && forall w :: 0 <= w < threads ==> s.workers[w].Sleeping?)
  {
    EveryRunInv(threads, run);
    var s := Exec(Init(threads), run);
    if threads > 0 && !s.terminate
       && (forall w :: !Enabled(s, Check(w)) && !Enabled(s, Finish(w)))
       && (forall k :: !Enabled(s, NotifyOne(k)))
    {
      forall w | 0 <= w < threads ensures s.workers[w].Sleeping? {
        assert !Enabled(s, Check(w)) && !Enabled(s, Finish(w));
        assert s.workers[w].Exited? ==> Exited in s.workers;
      }
      assert s.workers[0].Sleeping?;
      assert !Enabled(s, NotifyOne(Some(0)));
      assert Checking !in s.workers;
    }
  }

  /** Jobs start in the order they were accepted, each at most once, and complete at most once. */
  lemma ExactlyOnceInOrder(threads: nat, run: seq<Action>)
    requires Legal(Init(threads), run)
    ensures var s := Exec(Init(threads), run);
      && s.started + s.queue == s.accepted
      && Distinct(s.started + s.queue)
      && (forall j: nat :: multiset(s.completed)[j] <= multiset(s.started)[j] <= 1)
  {
    EveryRunInv(threads, run);
    var s := Exec(Init(threads), run);
    forall j: nat ensures multiset(s.completed)[j] <= multiset(s.started)[j] <= 1 {
      assert multiset(s.completed)[j] + multiset(s.workers)[Running(j)] == multiset(s.started)[j];
      assert forall i :: 0 <= i < |s.started| ==> s.started[i] == s.accepted[i];
      OccursOnce(s.started, j);
    }
  }

  lemma {:induction false} OccursOnce(s: seq<nat>, j: nat)
    requires forall i :: 0 <= i < |s| ==> s[i] == i
    ensures multiset(s)[j] == if j < |s| then 1 else 0
  {
    if s != [] {
      var n := |s| - 1;
      OccursOnce(s[..n], j);
      assert s == s[..n] + [s[n]];
    }
  }

  /** The pool of size one that the command manager builds completes jobs in acceptance order. */
  lemma OneWorkerCompletesInOrder(run: seq<Action>)
    requires Legal(Init(1), run)
    ensures var s := Exec(Init(1), run); s.completed <= s.accepted
  {
    EveryRunInv(1, run);
  }

  // ---------------------------------------------------------------- shutting down

  function Weight(w: Worker): nat {
    match w
    case Exited => 0
    case Checking => 1
    case Sleeping => 2
    case Running(_) => 2
  }

  function Load(ws: seq<Worker>): nat {
    if ws == [] then 0 else Weight(ws[0]) + Load(ws[1..])
  }

  /** Work left once the flag is set: queued jobs, live workers, owed notifies, destructor steps. */
  function Measure(s: State): nat {
    3 * |s.queue| + Load(s.workers) + s.owed
    + match s.teardown case NotBegun => 3 case Flagged => 2 case Woken => 1 case Joined => 0
  }

  lemma {:induction false} LoadReplace(ws: seq<Worker>, w: nat, x: Worker)
    requires w < |ws|
    ensures Load(ws[w := x]) == Load(ws) - Weight(ws[w]) + Weight(x)
  {
    if w == 0 {
      assert ws[0 := x][1..] == ws[1..];
    } else {
      assert ws[w := x][1..] == ws[1..][w - 1 := x];
      LoadReplace(ws[1..], w - 1, x);
    }
  }

  lemma {:induction false} LoadWakeAll(ws: seq<Worker>)
    ensures Load(WakeAll(ws)) <= Load(ws)
  {
    if ws != [] {
      assert WakeAll(ws)[1..] == WakeAll(ws[1..]);
      LoadWakeAll(ws[1..]);
    }
  }

  /** From the moment the flag is set nothing is accepted, nobody goes to sleep, and every step is progress. */
  lemma ShutdownStep(s: State, a: Action)
    requires Inv(s) && s.terminate && Enabled(s, a)
    ensures var t := Apply(s, a);
      && t.terminate && t.accepted == s.accepted
      && (forall w :: 0 <= w < |s.workers| && t.workers[w].Sleeping? ==> s.workers[w].Sleeping?)
      && (a.EnqueueRefused? ==> t == s)
      && (!a.EnqueueRefused? ==> Measure(t) < Measure(s))
  {
    var t := Apply(s, a);
    match a
    case NotifyOne(Some(w)) => LoadReplace(s.workers, w, Checking);
    case SpuriousWake(w) => LoadReplace(s.workers, w, Checking);
    case Check(w) => LoadReplace(s.workers, w, t.workers[w]);
    case Finish(w) => LoadReplace(s.workers, w, Checking);
    case NotifyAll => LoadWakeAll(s.workers);
    case _ =>
  }

  /** Every accepted job has run to completion and none is left. */
  ghost predicate Drained(s: State) {
    s.queue == [] && forall j: nat :: multiset(s.completed)[j] == multiset(s.accepted)[j]
  }

  /** When the destructor's joins have returned, all is drained exactly if there was a worker or nothing to do. */
  lemma JoinedMeansDrained(s: State)
    requires Inv(s) && s.teardown.Joined?
    ensures Drained(s) <==> |s.workers| > 0 || s.accepted == []
  {
    if |s.workers| > 0 {
      assert s.workers[0] == Exited;
      forall j: nat ensures multiset(s.completed)[j] == multiset(s.accepted)[j] {
        assert multiset(s.completed)[j] + multiset(s.workers)[Running(j)] == multiset(s.started)[j];
        assert Running(j) !in s.workers;
      }
    } else {
      assert s.accepted == s.queue;
      if s.accepted == [] {
        assert forall j: nat :: multiset(s.completed)[j] + multiset(s.workers)[Running(j)] == multiset(s.started)[j];
      }
    }
  }

  /** A pool without workers takes a job, is destroyed, and leaves the job undone. */
  lemma UnmannedPoolLosesAJob()
    ensures var run := [Enqueue, NotifyOne(None), SetTerminate, NotifyAll, JoinAll];
      && Legal(Init(0), run) && Exec(Init(0), run).teardown.Joined?
      && Exec(Init(0), run).accepted == [0] && !Drained(Exec(Init(0), run))
  {
    var s1 := Apply(Init(0), Enqueue);
    var s2 := Apply(s1, NotifyOne(None));
    var s3 := Apply(s2, SetTerminate);
    var s4 := Apply(s3, NotifyAll);
    var s5 := Apply(s4, JoinAll);
    OneStep(s4, JoinAll, []);
    OneStep(s3, NotifyAll, [JoinAll]);
    OneStep(s2, SetTerminate, [NotifyAll, JoinAll]);
    OneStep(s1, NotifyOne(None), [SetTerminate, NotifyAll, JoinAll]);
    OneStep(Init(0), Enqueue, [NotifyOne(None), SetTerminate, NotifyAll, JoinAll]);
    assert s5.queue == [0];
  }

  lemma OneStep(s: State, a: Action, rest: seq<Action>)
    requires Enabled(s, a) && Legal(Apply(s, a), rest)
    ensures Legal(s, [a] + rest) && Exec(s, [a] + rest) == Exec(Apply(s, a), rest)
  {
    assert ([a] + rest)[1..] == rest;
  }

  /**
   * However the steps after the flag interleave, there are at most Measure(s) of them, and
   * a run that cannot be continued has joined every worker.
   */
  lemma {:induction false} ShutdownTerminates(s: State, run: seq<Action>)
    requires Inv(s) && s.terminate && Legal(s, run)
    requires forall k :: 0 <= k < |run| ==> !run[k].EnqueueRefused?
    ensures |run| + Measure(Exec(s, run)) <= Measure(s)
    ensures var t := Exec(s, run);
      (forall a :: Enabled(t, a) ==> a.EnqueueRefused?) ==>
        t.teardown.Joined? && (Drained(t) <==> |s.workers| > 0 || s.accepted == [])
    decreases |run|
  {
    if run == [] {
      if forall a :: Enabled(s, a) ==> a.EnqueueRefused? {
        StuckIsJoined(s);
        JoinedMeansDrained(s);
      }
    } else {
      ShutdownStep(s, run[0]);
      StepInv(s, run[0]);
      ShutdownTerminates(Apply(s, run[0]), run[1..]);
    }
  }

  lemma WokenWorkersMove(s: State, w: nat)
    requires Inv(s) && s.teardown.Woken? && w < |s.workers| && !s.workers[w].Exited?
    ensures Enabled(s, Check(w)) || Enabled(s, Finish(w))
  {
    assert s.workers[w] in s.workers;
  }

  lemma StuckIsJoined(s: State)
    requires Inv(s) && s.terminate
    requires forall a :: Enabled(s, a) ==> a.EnqueueRefused?
    ensures s.teardown.Joined?
  {
    assert !Enabled(s, NotifyAll) && !Enabled(s, JoinAll);
    if s.teardown.Woken? {
      var w :| 0 <= w < |s.workers| && !s.workers[w].Exited?;
      WokenWorkersMove(s, w);
      assert false;
    }
  }
}
