/**
 * The netlink listener: a thread that waits on the udev monitor and on an eventfd, and the
 * start and stop calls of its owner. Each system call is a step; the thread may be anywhere
 * while the owner moves.
 */
module Listener {
  datatype Ready = StopReady | UdevReady

  /** NoThread: nothing to join. Handling: the events of the last wait that are still to be handled. */
  datatype Thread = NoThread | Setup | Waiting | Handling(events: seq<Ready>) | Leaving | Exited

  /** Where the owner is in startListener or stopListener. */
  datatype Owner = Idle | OpeningFd | Spawning | Signalling | Joining | Closing | Unreferencing

  datatype State = State(
    owner: Owner,
    thread: Thread,
    udev: bool,            // m_udev is set
    stopFd: bool,          // m_stopFd is open
    signalled: bool,       // the eventfd has been written
    waits: nat,            // waits that returned since it was written
    udevNews: nat, udevUnrefs: nat, fdOpens: nat, fdCloses: nat,
    misused: bool)         // something was released under a live thread, or used after its release

  datatype Action =
    | Start(udevOk: bool)
    | OpenFd(ok: bool)
    | Spawn
    | Stop
    | Signal(ok: bool)
    | Join
    | CloseFd
    | UnrefUdev
    | SetupDone(ok: bool)
    | WaitInterrupted
    | WaitFailed
    | WaitReturns(events: seq<Ready>)
    | HandleNext
    | Cleanup

  function Init(): State {
    State(Idle, NoThread, false, false, false, 0, 0, 0, 0, 0, false)
  }

  /**
   * The readable descriptors a wait can deliver: level-triggered, with room for both, so the
   * eventfd is among them exactly if it has been written. Descriptors that are not readable
   * are skipped by the loop, so there may be none.
   */
  predicate Deliverable(s: State, events: seq<Ready>) {
    && |events| <= 2
    && (|events| == 2 ==> events[0] != events[1])
    && (StopReady in events <==> s.signalled)
  }

  predicate Enabled(s: State, a: Action) {
    match a
    case Start(_) => s.owner.Idle? && !s.udev && !s.stopFd && s.thread.NoThread?
    case OpenFd(_) => s.owner.OpeningFd?
    case Spawn => s.owner.Spawning?
    case Stop => s.owner.Idle?
    case Signal(_) => s.owner.Signalling?
    case Join => s.owner.Joining? && s.thread.Exited?
    case CloseFd => s.owner.Closing?
    case UnrefUdev => s.owner.Unreferencing?
    case SetupDone(_) => s.thread.Setup?
    case WaitInterrupted => s.thread.Waiting?
    case WaitFailed => s.thread.Waiting?
    case WaitReturns(events) => s.thread.Waiting? && Deliverable(s, events)
    case HandleNext => s.thread.Handling?
    case Cleanup => s.thread.Leaving?
  }

  predicate Running(t: Thread) {
    !t.NoThread? && !t.Exited?
  }

  /** The thread needs the udev context and the eventfd. */
  function Touch(s: State): State {
    s.(misused := s.misused || !s.udev || !s.stopFd)
  }

  /** The owner releases something. */
  function Release(s: State): State {
    s.(misused := s.misused || Running(s.thread))
  }

  function Apply(s: State, a: Action): State
    requires Enabled(s, a)
  {
    match a
    case Start(ok) => if ok then s.(udev := true, udevNews := s.udevNews + 1, owner := OpeningFd) else s
    case OpenFd(ok) =>
      if ok then s.(stopFd := true, fdOpens := s.fdOpens + 1, signalled := false, waits := 0, owner := Spawning)
      else Release(s).(udev := false, udevUnrefs := s.udevUnrefs + 1, owner := Idle)
    case Spawn => s.(thread := Setup, owner := Idle)
    case Stop =>
      s.(owner := if s.thread.NoThread? then Closing else if s.stopFd then Signalling else Joining)
    case Signal(ok) => s.(owner := Joining, signalled := s.signalled || ok, waits := if s.signalled then s.waits else 0)
    case Join => s.(thread := NoThread, owner := Closing)
    case CloseFd =>
      if s.stopFd then Release(s).(stopFd := false, fdCloses := s.fdCloses + 1, owner := Unreferencing)
      else s.(owner := Unreferencing)
    case UnrefUdev =>
      if s.udev then Release(s).(udev := false, udevUnrefs := s.udevUnrefs + 1, owner := Idle)
      else s.(owner := Idle)
    case SetupDone(ok) => Touch(s).(thread := if ok then Waiting else Leaving)
    case WaitInterrupted => Touch(s)
    case WaitFailed => Touch(s).(thread := Leaving)
    case WaitReturns(events) =>
      Touch(s).(thread := Handling(events), waits := if s.signalled then s.waits + 1 else s.waits)
    case HandleNext =>
      var events := s.thread.events;
      if events == [] then Touch(s).(thread := Waiting)
      else if events[0].StopReady? then Touch(s).(thread := Leaving)
      else Touch(s).(thread := Handling(events[1..]))
    case Cleanup => Touch(s).(thread := Exited)
  }

  predicate Legal(s: State, run: seq<Action>)
    decreases |run|
  {
    run == [] || (Enabled(s, run[0]) && Legal(Apply(s, run[0]), run[1..]))
  }

  function Exec(s: State, run: seq<Action>): State
    requires Legal(s, run)
    decreases |run|
  {
    if run == [] then s else Exec(Apply(s, run[0]), run[1..])
  }

  // ---------------------------------------------------------------- the invariant

  ghost predicate Held(s: State) {
    && !s.misused
    && s.udevNews == s.udevUnrefs + (if s.udev then 1 else 0)
    && s.fdOpens == s.fdCloses + (if s.stopFd then 1 else 0)
    && (!s.thread.NoThread? ==> s.udev && s.stopFd)
    && (!s.thread.NoThread? ==> s.owner.Idle? || s.owner.Signalling? || s.owner.Joining?)
    && (s.owner.OpeningFd? ==> s.udev && !s.stopFd)
    && (s.owner.Spawning? ==> s.udev && s.stopFd)
    && (s.owner.Idle? && s.thread.NoThread? ==> !s.udev && !s.stopFd)
    && (s.owner.Signalling? || s.owner.Joining? ==> !s.thread.NoThread?)
    && (s.owner.Unreferencing? ==> !s.stopFd)
  }

  /** Events delivered by a wait after the signal still hold the stop event. */
  ghost predicate OneWait(s: State) {
    && s.waits <= 1
    && (s.thread.Handling? ==> |s.thread.events| <= 2)
    && (s.thread.Setup? || s.thread.Waiting? || s.owner.Spawning? ==> s.waits == 0)
    && (s.thread.Handling? && s.waits == 1 ==> StopReady in s.thread.events)
    && (s.thread.Handling? && StopReady in s.thread.events ==> s.signalled)
    && (!s.signalled ==> s.waits == 0)
  }

  lemma StepHeld(s: State, a: Action)
    requires Held(s) && Enabled(s, a)
    ensures Held(Apply(s, a))
  {
  }

  lemma StepOneWait(s: State, a: Action)
    requires Held(s) && OneWait(s) && Enabled(s, a)
    ensures OneWait(Apply(s, a))
  {
  }

  lemma {:induction false} RunInv(s: State, run: seq<Action>)
    requires Held(s) && OneWait(s) && Legal(s, run)
    ensures Held(Exec(s, run)) && OneWait(Exec(s, run))
    decreases |run|
  {
    if run != [] {
      StepHeld(s, run[0]);
      StepOneWait(s, run[0]);
      RunInv(Apply(s, run[0]), run[1..]);
    }
  }

  // ---------------------------------------------------------------- the results

  /**
   * In every interleaving of the thread with any number of start and stop calls: what was
   * acquired is released at most once and only when no thread runs, nothing is used after its
   * release, and whenever the owner is done with no thread left, all is released.
   */
  lemma ReleasedOnceAfterExit(run: seq<Action>)
    requires Legal(Init(), run)
    ensures var s := Exec(Init(), run);
      && !s.misused
      && s.udevUnrefs <= s.udevNews && s.fdCloses <= s.fdOpens
      && (Running(s.thread) ==> s.udev && s.stopFd)
      && (s.owner.Idle? && s.thread.NoThread? ==> s.udevUnrefs == s.udevNews && s.fdCloses == s.fdOpens)
  {
    RunInv(Init(), run);
  }

  /** After the eventfd has been written at most one more wait returns before the thread leaves. */
  lemma LeavesWithinOneWait(run: seq<Action>)
    requires Legal(Init(), run)
    ensures var s := Exec(Init(), run);
      s.waits <= 1 && (s.signalled && s.waits == 1 ==> !s.thread.Waiting? && !s.thread.Setup?)
  {
    RunInv(Init(), run);
  }

  predicate OfThread(a: Action) {
    a.SetupDone? || a.WaitFailed? || a.WaitReturns? || a.HandleNext? || a.Cleanup?
  }

  /** Steps the thread can still take once it has been signalled, interrupted waits aside. */
  function StepsLeft(t: Thread): nat {
    match t
    case NoThread => 0
    case Exited => 0
    case Leaving => 1
    case Handling(events) => |events| + if StopReady in events then 1 else 6
    case Waiting => 5
    case Setup => 6
  }

  /** How many steps of the thread a run takes. */
  function ThreadSteps(run: seq<Action>): nat {
    if run == [] then 0 else (if OfThread(run[0]) then 1 else 0) + ThreadSteps(run[1..])
  }

  /** A signalled thread, or what is left of it, and an owner who is not about to start another. */
  ghost predicate Leaves(s: State) {
    Held(s) && OneWait(s) && s.signalled && !s.owner.OpeningFd? && !s.owner.Spawning?
  }

  lemma LeavesStep(s: State, a: Action)
    requires Leaves(s) && Enabled(s, a) && !a.Start?
    ensures Leaves(Apply(s, a))
    ensures StepsLeft(Apply(s, a).thread) + (if OfThread(a) then 1 else 0) <= StepsLeft(s.thread)
  {
    StepHeld(s, a);
    StepOneWait(s, a);
  }

  lemma SomeThreadStep(s: State)
    requires s.signalled && Running(s.thread)
    ensures exists b :: OfThread(b) && Enabled(s, b)
  {
    var b := match s.thread
      case Setup => SetupDone(true)
      case Waiting => WaitReturns([StopReady])
      case Handling(_) => HandleNext
      case _ => Cleanup;
    assert OfThread(b) && Enabled(s, b);
  }

  lemma {:induction false} LeavesRun(s: State, run: seq<Action>)
    requires Leaves(s) && Legal(s, run) && forall k :: 0 <= k < |run| ==> !run[k].Start?
    ensures Leaves(Exec(s, run)) && ThreadSteps(run) + StepsLeft(Exec(s, run).thread) <= StepsLeft(s.thread)
    decreases |run|
  {
    if run != [] {
      LeavesStep(s, run[0]);
      LeavesRun(Apply(s, run[0]), run[1..]);
    }
  }

  /**
   * From the moment the eventfd is written, for every run until the owner starts anew: the thread
   * takes at most as many steps as it had left, interrupted waits aside, and a run in which it
   * can take no further step has seen it exit.
   */
  lemma {:induction false} SignalledThreadExits(before: seq<Action>, s: State, run: seq<Action>)
    requires Legal(Init(), before) && s == Exec(Init(), before) && s.signalled && Running(s.thread)
    requires Legal(s, run) && forall k :: 0 <= k < |run| ==> !run[k].Start?
    ensures ThreadSteps(run) + StepsLeft(Exec(s, run).thread) <= StepsLeft(s.thread) <= 8
    ensures (forall b :: OfThread(b) ==> !Enabled(Exec(s, run), b)) ==> !Running(Exec(s, run).thread)
  {
    RunInv(Init(), before);
    LeavesRun(s, run);
    if Running(Exec(s, run).thread) { SomeThreadStep(Exec(s, run)); }
  }

  /** The whole of a stop call on a listener without a thread, be it stopped or never started. */
  lemma StopAgainDoesNothing(run: seq<Action>)
    requires Legal(Init(), run)
    requires Exec(Init(), run).owner.Idle? && Exec(Init(), run).thread.NoThread?
    ensures var s := Exec(Init(), run);
      Legal(s, [Stop, CloseFd, UnrefUdev]) && Exec(s, [Stop, CloseFd, UnrefUdev]) == s
  {
    RunInv(Init(), run);
    var s := Exec(Init(), run);
    var s1 := Apply(s, Stop);
    var s2 := Apply(s1, CloseFd);
    assert [Stop, CloseFd, UnrefUdev][1..] == [CloseFd, UnrefUdev];
    assert [CloseFd, UnrefUdev][1..] == [UnrefUdev] && [UnrefUdev][1..] == [];
    assert Legal(s2, [UnrefUdev]) && Exec(s2, [UnrefUdev]) == s;
    assert Legal(s1, [CloseFd, UnrefUdev]) && Exec(s1, [CloseFd, UnrefUdev]) == s;
  }

  /** Terminated: a thread is assigned over one that can still be joined, which ends the process. */
  datatype StartOutcome = Started | NotStarted | Terminated

  /** Blocked: the join does not return. */
  datatype StopOutcome = Stopped | Blocked

  /** The owner's side as the object has it. */
  class PdmNetlinkListener {
    var udev: bool
    var stopFd: int
    var joinable: bool
    ghost var udevNews: nat
    ghost var udevUnrefs: nat
    ghost var udevLost: nat  // overwritten while still held
    ghost var fdOpens: nat
    ghost var fdCloses: nat
    ghost var fdsLost: nat

    ghost predicate Valid()
      reads this
    {
      && udevNews == udevUnrefs + udevLost + (if udev then 1 else 0)
      && fdOpens == fdCloses + fdsLost + (if stopFd >= 0 then 1 else 0)
    }

    constructor ()
      ensures Valid() && !udev && stopFd == -1 && !joinable
      ensures udevNews == udevLost == fdOpens == fdsLost == 0
    {
      udev, stopFd, joinable := false, -1, false;
      udevNews, udevUnrefs, udevLost, fdOpens, fdCloses, fdsLost := 0, 0, 0, 0, 0, 0;
    }

    /**
     * newFd is what eventfd returns, negative when it fails. A start on a stopped listener loses
     * nothing; on a running one it loses what is held, and ends the process if all else works.
     */
    method StartListener(udevOk: bool, newFd: int) returns (outcome: StartOutcome)
      requires Valid()
      modifies this
      ensures Valid()
      ensures outcome == if !udevOk || newFd < 0 then NotStarted else if old(joinable) then Terminated else Started
      ensures udev == (udevOk && newFd >= 0) && joinable == (old(joinable) || outcome.Started?)
      ensures stopFd == if udevOk then newFd else old(stopFd)
      ensures udevLost == old(udevLost) + (if old(udev) then 1 else 0)
      ensures fdsLost == old(fdsLost) + (if old(stopFd) >= 0 && udevOk then 1 else 0)
    {
      udevLost := udevLost + if udev then 1 else 0;
      udev := udevOk;
      if !udevOk {
        return NotStarted;
      }
      udevNews := udevNews + 1;
      fdsLost := fdsLost + if stopFd >= 0 then 1 else 0;
      stopFd := newFd;
      if stopFd < 0 {
        udev, udevUnrefs := false, udevUnrefs + 1;
        return NotStarted;
      }
      fdOpens := fdOpens + 1;
      if joinable {
        return Terminated;
      }
      joinable := true;
      outcome := Started;
    }

    /**
     * On a listener that runs, was stopped, or never started. signalOk: the write succeeds;
     * leaves: the thread exits of itself, as it does when its setup or a wait fails. Either the
     * join blocks and nothing has been released, or everything held is released once.
     */
    method StopListener(signalOk: bool, leaves: bool) returns (outcome: StopOutcome)
      requires Valid()
      modifies this
      ensures Valid()
      ensures outcome.Blocked? <==> old(joinable) && !leaves && !(old(stopFd) >= 0 && signalOk)
      ensures outcome.Blocked? ==>
        && udev == old(udev) && stopFd == old(stopFd) && joinable
        && udevUnrefs == old(udevUnrefs) && fdCloses == old(fdCloses)
      ensures outcome.Stopped? ==>
        !udev && stopFd < 0 && !joinable && udevUnrefs + udevLost == udevNews && fdCloses + fdsLost == fdOpens
      ensures udevNews == old(udevNews) && fdOpens == old(fdOpens)
      ensures udevLost == old(udevLost) && fdsLost == old(fdsLost)
    {
      if joinable {
        var signalled := stopFd >= 0 && signalOk;
        if !signalled && !leaves {
          return Blocked;
        }
        joinable := false;
      }
      if stopFd >= 0 {
        stopFd, fdCloses := -1, fdCloses + 1;
      }
      if udev {
        udev, udevUnrefs := false, udevUnrefs + 1;
      }
      outcome := Stopped;
    }
  }
}
