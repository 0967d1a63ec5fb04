/**
 * One storage device from its first event to its unplugging: the pool worker that runs the
 * handler, the checking threads that may notify at any moment, the handles they are joined by,
 * and what observers are told. Starting a thread and storing its handle are separate steps, and
 * so are emitting ADD and setting the flag that remembers it.
 */
module Lifecycle {
  import opened Base

  /** Notices that carry the device. */
  datatype Event = AddEv | TimedOutEv | UnsupportedEv | RemoveBeforeMountEv | RemoveUnsupportedEv | RemoveEv

  /** Where a call of storageDeviceNotification is. */
  datatype Note = Decide | TellTimedOut | TellAdd | SetFlag | Returned

  /** What the call finds: a timed-out check, a mounted partition, or neither. */
  datatype Finding = SomeTimedOut | SomeMounted | Neither

  /** A checking thread works on its partition, counts down, and notifies if that left zero. */
  datatype Thread = Working(part: nat) | Counting | Noting(note: Note) | Ended

  datatype Worker =
    | Idle
    | Storing(thread: nat)                        // a thread was started, its handle is not stored yet
    | DirectNote(note: Note)                      // read-only disk: mounted at once, then notified
    | UnsupportedAdd | UnsupportedFlag | UnsupportedTell
    | Joining(k: nat)                             // the join loop is at handle k
    | Freeing | CheckingRemoval | Removing | Gone

  datatype State = State(
    worker: Worker,
    parts: nat,           // partition objects alive
    threads: seq<Thread>, // in the order they were started
    handles: seq<nat>,    // m_fsckThreadArray: the thread behind each handle
    notified: bool,       // m_isDevAddEventNotified
    unsupported: bool,    // m_hasUnsupportedFs
    freed: bool,          // the partition objects have been deleted
    misused: bool,        // a thread touched a partition that was not alive
    trace: seq<Event>,
    body: seq<Event>)     // history: the trace when the removal notices begin

  datatype Action =
    | NewPartition
    | StartThread(p: nat)     // for partition p
    | StoreHandle
    | ThreadChecks(i: nat)
    | ThreadEnds(i: nat)      // its decrement did not leave zero
    | ThreadNotifies(i: nat)  // it did
    | ThreadNote(i: nat, finding: Finding)
    | BeginDirect
    | WorkerNote(finding: Finding)
    | BeginUnsupported
    | UnsupportedStep
    | Unplug
    | UnplugStep

  function Init(): State {
    State(Idle, 0, [], [], false, false, false, false, [], [])
  }

  /** One step of storageDeviceNotification. */
  function NoteStep(s: State, note: Note, finding: Finding): (State, Note) {
    match note
    case Decide =>
      (s, match finding case SomeTimedOut => TellTimedOut case SomeMounted => TellAdd case Neither => Returned)
    case TellTimedOut => (s.(trace := s.trace + [TimedOutEv]), TellAdd)
    case TellAdd => (s.(trace := s.trace + [AddEv]), SetFlag)
    case SetFlag => (s.(notified := true), Returned)
    case Returned => (s, Returned)
  }

  /** Some steps of a call of storageDeviceNotification, one after the other. */
  function Noted(s: State, note: Note, finding: Finding, steps: nat): State
    decreases steps
  {
    if steps == 0 then s
    else
      var (t, next) := NoteStep(s, note, finding);
      Noted(t, next, finding, steps - 1)
  }

  lemma TellsAdd(s: State, finding: Finding)
    ensures Noted(s, TellAdd, finding, 2) == s.(trace := s.trace + [AddEv], notified := true)
  {
    var t := s.(trace := s.trace + [AddEv]);
    assert Noted(t, SetFlag, finding, 1) == Noted(t.(notified := true), Returned, finding, 0);
  }

  /**
   * What a call does: ADD and its flag, for a timed-out check or a mounted partition, with
   * FSCK_TIMED_OUT before it for the former; and nothing for neither.
   */
  lemma NotificationSays(s: State, finding: Finding)
    ensures finding == SomeTimedOut ==>
      Noted(s, Decide, finding, 4) == s.(trace := s.trace + [TimedOutEv] + [AddEv], notified := true)
    ensures finding == SomeMounted ==>
      Noted(s, Decide, finding, 3) == s.(trace := s.trace + [AddEv], notified := true)
    ensures finding == Neither ==> NoteStep(s, Decide, finding) == (s, Returned)
  {
    if finding == SomeTimedOut {
      TellsAdd(s.(trace := s.trace + [TimedOutEv]), finding);
      assert Noted(s, Decide, finding, 4) == Noted(s, TellTimedOut, finding, 3);
    } else if finding == SomeMounted {
      TellsAdd(s, finding);
    }
  }

  /** A thread reads or writes partition p. */
  function Touch(s: State, p: nat): State {
    s.(misused := s.misused || p >= s.parts)
  }

  /** The notification scans the partition list. */
  function Scan(s: State): State {
    s.(misused := s.misused || s.freed)
  }

  predicate AllEnded(s: State) {
    forall i :: 0 <= i < |s.threads| ==> s.threads[i].Ended?
  }

  predicate Enabled(s: State, a: Action) {
    match a
    case NewPartition => s.worker.Idle?
    case StartThread(p) => s.worker.Idle? && p < s.parts
    case StoreHandle => s.worker.Storing?
    case ThreadChecks(i) => i < |s.threads| && s.threads[i].Working?
    case ThreadEnds(i) => i < |s.threads| && s.threads[i].Counting?
    case ThreadNotifies(i) => i < |s.threads| && s.threads[i].Counting?
    case ThreadNote(i, _) => i < |s.threads| && s.threads[i].Noting?
    case BeginDirect => s.worker.Idle?
    case WorkerNote(_) => s.worker.DirectNote?
    case BeginUnsupported => s.worker.Idle?
    case UnsupportedStep => s.worker.UnsupportedAdd? || s.worker.UnsupportedFlag? || s.worker.UnsupportedTell?
    case Unplug => s.worker.Idle?
    case UnplugStep =>
      // join returns once the thread behind the handle has ended
      || (s.worker.Joining? && s.worker.k < |s.handles| && s.handles[s.worker.k] < |s.threads|
          && s.threads[s.handles[s.worker.k]].Ended?)
      || (s.worker.Joining? && s.worker.k >= |s.handles|)
      || s.worker.Freeing? || s.worker.CheckingRemoval? || s.worker.Removing?
  }

  function Apply(s: State, a: Action): State
    requires Enabled(s, a)
  {
    match a
    case NewPartition => s.(parts := s.parts + 1)
    case StartThread(p) => s.(threads := s.threads + [Working(p)], worker := Storing(|s.threads|))
    case StoreHandle => s.(handles := s.handles + [s.worker.thread], worker := Idle)
    case ThreadChecks(i) => Touch(s, s.threads[i].part).(threads := s.threads[i := Counting])
    case ThreadEnds(i) => s.(threads := s.threads[i := Ended])
    case ThreadNotifies(i) => s.(threads := s.threads[i := Noting(Decide)])
    case ThreadNote(i, finding) =>
      var (t, note) := NoteStep(if s.threads[i].note.Decide? then Scan(s) else s, s.threads[i].note, finding);
      t.(threads := s.threads[i := if note.Returned? then Ended else Noting(note)])
    case BeginDirect => s.(worker := DirectNote(Decide))
    case WorkerNote(finding) =>
      var (t, note) := NoteStep(s, s.worker.note, finding);
      t.(worker := if note.Returned? then Idle else DirectNote(note))
    case BeginUnsupported => s.(unsupported := true, worker := UnsupportedAdd)
    case UnsupportedStep =>
      (match s.worker
       case UnsupportedAdd => s.(trace := s.trace + [AddEv], worker := UnsupportedFlag)
       case UnsupportedFlag => s.(notified := true, worker := UnsupportedTell)
       case _ => s.(trace := s.trace + [UnsupportedEv], worker := Idle))
    case Unplug => s.(worker := Joining(0))
    case UnplugStep =>
      (match s.worker
       case Joining(k) => if k < |s.handles| then s.(worker := Joining(k + 1)) else s.(handles := [], worker := Freeing)
       case Freeing => s.(freed := true, parts := 0, worker := CheckingRemoval, body := s.trace)
       case CheckingRemoval =>
         s.(worker := Removing,
            trace := s.trace + if !s.notified then [RemoveBeforeMountEv]
                               else if s.unsupported then [RemoveUnsupportedEv] else [])
       case _ => s.(worker := Gone, trace := s.trace + if s.notified then [RemoveEv] else []))
  }

  predicate Legal(s: State, run: seq<Action>)
    decreases |run|
  {
    run == [] || (Enabled(s, run[0]) && Legal(Apply(s, run[0]), run[1..]))
  }

  function Exec(s: State, run: seq<Action>): State
    requires Legal(s, run)
    decreases |run|
  {
    if run == [] then s else Exec(Apply(s, run[0]), run[1..])
  }

  // ---------------------------------------------------------------- the invariant

  predicate IsRemoval(e: Event) {
    e.RemoveBeforeMountEv? || e.RemoveUnsupportedEv? || e.RemoveEv?
  }

  ghost predicate NoRemoval(trace: seq<Event>) {
    forall i :: 0 <= i < |trace| ==> !IsRemoval(trace[i])
  }

  /** Somebody has emitted ADD and not yet set the flag. */
  ghost predicate FlagPending(s: State) {
    s.worker == DirectNote(SetFlag) || s.worker.UnsupportedFlag? || ThreadPending(s.threads)
  }

  ghost predicate ThreadPending(threads: seq<Thread>) {
    exists i :: 0 <= i < |threads| && threads[i] == Noting(SetFlag)
  }

  ghost predicate InUnsupported(s: State) {
    s.worker.UnsupportedAdd? || s.worker.UnsupportedFlag? || s.worker.UnsupportedTell?
  }

  ghost predicate Unplugged(s: State) {
    s.worker.Freeing? || s.worker.CheckingRemoval? || s.worker.Removing? || s.worker.Gone?
  }

  /** The part of the trace that precedes the removal notices. */
  function Plain(s: State): seq<Event> {
    if s.worker.CheckingRemoval? || s.worker.Removing? || s.worker.Gone? then s.body else s.trace
  }

  function FirstNotice(s: State): seq<Event> {
    if !s.notified then [RemoveBeforeMountEv] else if s.unsupported then [RemoveUnsupportedEv] else []
  }

  /** All removal notices of a device that is gone. */
  function Farewell(s: State): seq<Event> {
    FirstNotice(s) + if s.notified then [RemoveEv] else []
  }

  ghost predicate Flags(s: State) {
    && (s.notified || FlagPending(s) ==> AddEv in Plain(s))
    && (AddEv in Plain(s) ==> s.notified || FlagPending(s))
    && (UnsupportedEv in Plain(s) ==> s.unsupported && s.notified)
    && (s.unsupported && !InUnsupported(s) ==> UnsupportedEv in Plain(s))
    && (s.worker.UnsupportedTell? ==> s.notified)
    && (InUnsupported(s) ==> s.unsupported)
  }

  ghost predicate Shape(s: State) {
    && NoRemoval(Plain(s))
    && (s.worker.CheckingRemoval? ==> s.trace == s.body)
    && (s.worker.Removing? ==> s.trace == s.body + FirstNotice(s))
    && (s.worker.Gone? ==> s.trace == s.body + Farewell(s))
  }

  /** The handles are those of the threads in the order they were started, up to one not yet stored. */
  ghost predicate HandlesInOrder(s: State) {
    && |s.handles| == (if s.worker.Storing? then |s.threads| - 1 else |s.threads|)
    && (s.worker.Storing? ==> s.worker.thread == |s.threads| - 1)
    && forall j :: 0 <= j < |s.handles| ==> s.handles[j] == j
  }

  /** The handle at which the join loop is, or 0 before it. */
  function NextJoin(s: State): nat {
    if s.worker.Joining? then s.worker.k else 0
  }

  /** A handle the join loop has still to come to leads to thread i. */
  ghost predicate HandleAhead(s: State, i: nat) {
    exists j :: NextJoin(s) <= j < |s.handles| && s.handles[j] == i
  }

  /** No live thread is overlooked: it has a handle still to be joined, or its handle is about to be stored. */
  ghost predicate LiveThreadsHaveHandles(s: State) {
    forall i: nat :: i < |s.threads| && !s.threads[i].Ended? ==>
      HandleAhead(s, i) || (s.worker.Storing? && s.worker.thread == i)
  }

  ghost predicate HandlesKept(s: State) {
    && (if Unplugged(s) then s.handles == [] else HandlesInOrder(s))
    && (s.worker.Joining? ==> s.worker.k <= |s.handles|)
  }

  ghost predicate Handled(s: State) {
    HandlesKept(s) && LiveThreadsHaveHandles(s)
  }

  /** Partitions are alive as long as a thread works on one, and nothing was touched after its deletion. */
  ghost predicate PartsAlive(s: State) {
    && !s.misused
    && (s.freed <==> s.worker.CheckingRemoval? || s.worker.Removing? || s.worker.Gone?)
    && forall i :: 0 <= i < |s.threads| && s.threads[i].Working? ==> s.threads[i].part < s.parts
  }

  ghost predicate Inv(s: State) {
    Flags(s) && Shape(s) && Handled(s) && PartsAlive(s)
  }

  ghost predicate Quiescent(s: State) {
    Unplugged(s) ==> AllEnded(s)
  }

  /** With no handle left to join there is no live thread. */
  lemma NoHandleNoThread(s: State)
    requires LiveThreadsHaveHandles(s) && !s.worker.Storing? && NextJoin(s) >= |s.handles|
    ensures AllEnded(s)
  {
    forall i | 0 <= i < |s.threads| ensures s.threads[i].Ended? {
      assert !HandleAhead(s, i);
    }
  }

  lemma UnpluggedMeansEnded(s: State)
    requires Handled(s)
    ensures Quiescent(s)
  {
    if Unplugged(s) { NoHandleNoThread(s); }
  }

  lemma StepHandlesKept(s: State, a: Action)
    requires HandlesKept(s) && Enabled(s, a)
    ensures HandlesKept(Apply(s, a))
  {
    if !a.StoreHandle? && !a.UnplugStep? { OthersKeepHandles(s, a); }
  }

  lemma StepHandled(s: State, a: Action)
    requires Handled(s) && Enabled(s, a)
    ensures Handled(Apply(s, a))
  {
    StepHandlesKept(s, a);
    var t := Apply(s, a);
    forall i: nat | i < |t.threads| && !t.threads[i].Ended?
      ensures HandleAhead(t, i) || (t.worker.Storing? && t.worker.thread == i)
    {
      if i < |s.threads| {
        LiveStays(s, a, i);
      } else {
        NewThreadIsStored(s, a);
      }
    }
  }

  lemma NewThreadIsStored(s: State, a: Action)
    requires Enabled(s, a) && |Apply(s, a).threads| > |s.threads|
    ensures var t := Apply(s, a); |t.threads| == |s.threads| + 1 && t.worker == Storing(|s.threads|)
  {
  }

  lemma LiveStays(s: State, a: Action, i: nat)
    requires Handled(s) && Enabled(s, a) && i < |s.threads|
    requires !Apply(s, a).threads[i].Ended?
    ensures var t := Apply(s, a); HandleAhead(t, i) || (t.worker.Storing? && t.worker.thread == i)
  {
    if s.threads[i].Ended? {
      EndedStays(s, a, i);
      assert false;
    }
    match a
    case StoreHandle => StoreKeepsAhead(s, i);
    case UnplugStep => UnplugKeepsAhead(s, i);
    case _ =>
      OthersKeepHandles(s, a);
      if HandleAhead(s, i) { OthersKeepAhead(s, a, i); }
  }

  lemma EndedStays(s: State, a: Action, i: nat)
    requires Enabled(s, a) && i < |s.threads| && s.threads[i].Ended?
    ensures Apply(s, a).threads[i].Ended?
  {
  }

  lemma StoreKeepsAhead(s: State, i: nat)
    requires s.worker.Storing? && (HandleAhead(s, i) || s.worker.thread == i)
    ensures HandleAhead(Apply(s, StoreHandle), i)
  {
    var t := Apply(s, StoreHandle);
    assert t.handles == s.handles + [s.worker.thread] && NextJoin(t) == NextJoin(s) == 0;
    if s.worker.thread == i {
      assert t.handles[|s.handles|] == i;
    } else {
      var j :| NextJoin(s) <= j < |s.handles| && s.handles[j] == i;
      assert t.handles[j] == i;
    }
  }

  /** The join loop only passes the handle of a thread that has ended. */
  lemma UnplugKeepsAhead(s: State, i: nat)
    requires Enabled(s, UnplugStep) && i < |s.threads| && !s.threads[i].Ended? && HandleAhead(s, i)
    requires Unplugged(s) ==> s.handles == []
    ensures HandleAhead(Apply(s, UnplugStep), i)
  {
    var t := Apply(s, UnplugStep);
    var j :| NextJoin(s) <= j < |s.handles| && s.handles[j] == i;
    assert s.worker.Joining? && s.worker.k < |s.handles|;
    assert j != s.worker.k;
    assert t.handles[j] == i && NextJoin(t) == s.worker.k + 1;
  }

  lemma OthersKeepHandles(s: State, a: Action)
    requires Enabled(s, a) && !a.StoreHandle? && !a.UnplugStep?
    ensures var t := Apply(s, a);
      t.handles == s.handles && NextJoin(t) == NextJoin(s) && (s.worker.Storing? ==> t.worker == s.worker)
  {
    if a.ThreadNote? {
      assert Apply(s, a).worker == s.worker;
    } else {
      PlainStepsKeepHandles(s, a);
    }
  }

  lemma PlainStepsKeepHandles(s: State, a: Action)
    requires Enabled(s, a) && !a.StoreHandle? && !a.UnplugStep? && !a.ThreadNote?
    ensures var t := Apply(s, a);
      t.handles == s.handles && NextJoin(t) == NextJoin(s) && (s.worker.Storing? ==> t.worker == s.worker)
  {
  }

  lemma OthersKeepAhead(s: State, a: Action, i: nat)
    requires Enabled(s, a) && !a.StoreHandle? && !a.UnplugStep? && HandleAhead(s, i)
    ensures HandleAhead(Apply(s, a), i)
  {
    OthersKeepHandles(s, a);
    var j :| NextJoin(s) <= j < |s.handles| && s.handles[j] == i;
    assert Apply(s, a).handles[j] == i;
  }

  lemma StepPartsAlive(s: State, a: Action)
    requires PartsAlive(s) && Quiescent(s) && Enabled(s, a)
    ensures PartsAlive(Apply(s, a))
  {
  }

  lemma StepShape(s: State, a: Action)
    requires Shape(s) && Quiescent(s) && Enabled(s, a)
    ensures Shape(Apply(s, a))
  {
    if a.ThreadNote? || a.WorkerNote? {
      ShapeNote(s, a);
    } else if a.UnplugStep? {
      ShapeUnplug(s);
    } else {
      ShapeRest(s, a);
    }
  }

  lemma ShapeNote(s: State, a: Action)
    requires Shape(s) && Quiescent(s) && Enabled(s, a) && (a.ThreadNote? || a.WorkerNote?)
    ensures Shape(Apply(s, a))
  {
    var t := Apply(s, a);
    assert !Unplugged(s) && !Unplugged(t);
    assert t.trace == s.trace || t.trace == s.trace + [TimedOutEv] || t.trace == s.trace + [AddEv];
  }

  lemma ShapeUnplug(s: State)
    requires Shape(s) && Enabled(s, UnplugStep)
    ensures Shape(Apply(s, UnplugStep))
  {
  }

  lemma ShapeRest(s: State, a: Action)
    requires Shape(s) && Quiescent(s) && Enabled(s, a) && !a.ThreadNote? && !a.WorkerNote? && !a.UnplugStep?
    ensures Shape(Apply(s, a))
  {
    var t := Apply(s, a);
    assert !Unplugged(s) && !Unplugged(t);
    assert t.trace == s.trace || t.trace == s.trace + [UnsupportedEv] || t.trace == s.trace + [AddEv];
  }

  lemma StepFlags(s: State, a: Action)
    requires Flags(s) && Quiescent(s) && Enabled(s, a)
    ensures Flags(Apply(s, a))
  {
    if a.ThreadNote? {
      ThreadNoteFlags(s, a.i, a.finding);
    } else if a.ThreadChecks? || a.ThreadEnds? || a.ThreadNotifies? {
      PendingStays(s, Apply(s, a), a.i);
    } else if a.StartThread? {
      StartFlags(s, a.p);
    } else {
      match a
      case WorkerNote(finding) => NoteFlags(s, finding);
      case BeginUnsupported => UnsupportedFlags(s, a);
      case UnsupportedStep => UnsupportedFlags(s, a);
      case _ => WorkerFlags(s, a);
    }
  }

  lemma ThreadNoteFlags(s: State, i: nat, finding: Finding)
    requires Flags(s) && Quiescent(s) && Enabled(s, ThreadNote(i, finding))
    ensures Flags(Apply(s, ThreadNote(i, finding)))
  {
    var t := Apply(s, ThreadNote(i, finding));
    assert Plain(s) == s.trace && Plain(t) == t.trace;
    PendingStays(s, t, i);
    match s.threads[i].note
    case TellAdd => ThreadTells(s, i, finding, AddEv);
    case TellTimedOut => ThreadTells(s, i, finding, TimedOutEv);
    case _ =>
  }

  /** What a thread says is at the end of the trace, and the flags stay for the time being. */
  lemma ThreadTells(s: State, i: nat, finding: Finding, e: Event)
    requires Enabled(s, ThreadNote(i, finding))
    requires (e.AddEv? && s.threads[i].note.TellAdd?) || (e.TimedOutEv? && s.threads[i].note.TellTimedOut?)
    ensures var t := Apply(s, ThreadNote(i, finding));
      && t.trace == s.trace + [e] && t.worker == s.worker
      && t.notified == s.notified && t.unsupported == s.unsupported
      && forall x :: x in t.trace <==> x in s.trace || x == e
  {
  }

  lemma StartFlags(s: State, p: nat)
    requires Flags(s) && Enabled(s, StartThread(p))
    ensures Flags(Apply(s, StartThread(p)))
  {
    var t := Apply(s, StartThread(p));
    forall i | 0 <= i < |s.threads| && s.threads[i] == Noting(SetFlag) ensures FlagPending(t) {
      assert t.threads[i] == Noting(SetFlag);
    }
    forall i | 0 <= i < |t.threads| && t.threads[i] == Noting(SetFlag) ensures FlagPending(s) {
      assert s.threads[i] == Noting(SetFlag);
    }
  }

  lemma WorkerFlags(s: State, a: Action)
    requires Flags(s) && Quiescent(s) && Enabled(s, a)
    requires a.NewPartition? || a.StoreHandle? || a.BeginDirect? || a.Unplug? || a.UnplugStep?
    ensures Flags(Apply(s, a))
  {
    assert Apply(s, a).threads == s.threads && Plain(Apply(s, a)) == Plain(s);
  }

  lemma NoteFlags(s: State, finding: Finding)
    requires Flags(s) && Enabled(s, WorkerNote(finding))
    ensures Flags(Apply(s, WorkerNote(finding)))
  {
    assert Apply(s, WorkerNote(finding)).threads == s.threads;
  }

  lemma UnsupportedFlags(s: State, a: Action)
    requires Flags(s) && Enabled(s, a) && (a.BeginUnsupported? || a.UnsupportedStep?)
    ensures Flags(Apply(s, a))
  {
    assert Apply(s, a).threads == s.threads;
  }

  /** A step of thread k leaves every other pending flag pending. */
  lemma PendingStays(s: State, t: State, k: nat)
    requires k < |s.threads| == |t.threads| && t.worker == s.worker
    requires forall i :: 0 <= i < |s.threads| && i != k ==> t.threads[i] == s.threads[i]
    ensures FlagPending(s) && s.threads[k] != Noting(SetFlag) ==> FlagPending(t)
    ensures t.threads[k] == Noting(SetFlag) ==> FlagPending(t)
    ensures FlagPending(t) ==> FlagPending(s) || t.threads[k] == Noting(SetFlag)
  {
    if ThreadPending(t.threads) {
      var i :| 0 <= i < |t.threads| && t.threads[i] == Noting(SetFlag);
      assert i != k ==> s.threads[i] == Noting(SetFlag);
    }
    if ThreadPending(s.threads) {
      var i :| 0 <= i < |s.threads| && s.threads[i] == Noting(SetFlag);
      assert i != k ==> t.threads[i] == Noting(SetFlag);
    }
  }

  lemma {:induction false} RunInv(s: State, run: seq<Action>)
    requires Inv(s) && Legal(s, run)
    ensures Inv(Exec(s, run))
    decreases |run|
  {
    if run != [] {
      UnpluggedMeansEnded(s);
      StepHandled(s, run[0]);
      StepPartsAlive(s, run[0]);
      StepShape(s, run[0]);
      StepFlags(s, run[0]);
      RunInv(Apply(s, run[0]), run[1..]);
    }
  }

  // ---------------------------------------------------------------- the results

  /** In every run a live thread has a handle that the join loop has still to come to, or that is being stored. */
  lemma EveryLiveThreadIsJoined(run: seq<Action>)
    requires Legal(Init(), run)
    ensures LiveThreadsHaveHandles(Exec(Init(), run))
  {
    RunInv(Init(), run);
  }

  /**
   * No thread ever touches a partition that has been deleted; once the unplug path has deleted
   * them, every checking thread has ended and nothing but the unplug can go on.
   */
  lemma NoThreadOutlivesPartitions(run: seq<Action>)
    requires Legal(Init(), run)
    ensures var s := Exec(Init(), run);
      && !s.misused
      && (s.freed ==> AllEnded(s) && forall a :: Enabled(s, a) ==> a.UnplugStep?)
  {
    RunInv(Init(), run);
    UnpluggedMeansEnded(Exec(Init(), run));
  }

  /** The notices an observer can rely on when the device is gone. */
  ghost predicate Paired(trace: seq<Event>) {
    && (Count(trace, AddEv) == 0 ==>
         Count(trace, RemoveBeforeMountEv) == 1 && Count(trace, RemoveEv) == 0)
    && (Count(trace, AddEv) > 0 ==>
         Count(trace, RemoveBeforeMountEv) == 0 && Count(trace, RemoveEv) == 1 && trace[|trace| - 1] == RemoveEv)
    && Count(trace, RemoveUnsupportedEv) == (if UnsupportedEv in trace then 1 else 0)
    && (UnsupportedEv in trace ==>
         |trace| >= 2 && trace[|trace| - 2] == RemoveUnsupportedEv && UnsupportedEv !in trace[|trace| - 2..])
  }

  lemma PlainCounts(body: seq<Event>, tail: seq<Event>, e: Event)
    requires NoRemoval(body)
    ensures Count(body + tail, e) == Count(body, e) + Count(tail, e)
    ensures IsRemoval(e) ==> Count(body, e) == 0
    ensures Count(body, e) > 0 <==> e in body
  {
    CountAppend(body, tail, e);
    CountZero(body, e);
  }

  /**
   * However checking threads and the worker interleave: when an unplugged device is gone, its
   * observers have seen either no ADD, one REMOVE_BEFORE_MOUNT and no REMOVE, or some ADD and one
   * final REMOVE; and one REMOVE_UNSUPPORTED_FS after every UNSUPPORTED_FS_FORMAT_NEEDED exactly
   * if there was one.
   */
  lemma {:induction false} NoticesPair(run: seq<Action>)
    requires Legal(Init(), run) && Exec(Init(), run).worker.Gone?
    ensures Paired(Exec(Init(), run).trace)
  {
    RunInv(Init(), run);
    GoneMeansPaired(Exec(Init(), run));
  }

  lemma GoneMeansPaired(s: State)
    requires Inv(s) && s.worker.Gone?
    ensures Paired(s.trace)
  {
    var tail := Farewell(s);
    assert s.trace == s.body + tail;
    PlainCounts(s.body, tail, AddEv);
    PlainCounts(s.body, tail, RemoveBeforeMountEv);
    PlainCounts(s.body, tail, RemoveEv);
    PlainCounts(s.body, tail, RemoveUnsupportedEv);
    CountTail(s);
    assert AddEv in s.trace <==> AddEv in s.body;
    if UnsupportedEv in s.trace {
      assert UnsupportedEv in s.body;
      assert tail == [RemoveUnsupportedEv, RemoveEv];
      assert s.trace[|s.trace| - 2..] == tail;
    }
  }

  lemma CountTail(s: State)
    ensures var tail := Farewell(s);
      && Count(tail, AddEv) == 0
      && Count(tail, RemoveBeforeMountEv) == (if s.notified then 0 else 1)
      && Count(tail, RemoveEv) == (if s.notified then 1 else 0)
      && Count(tail, RemoveUnsupportedEv) == (if s.notified && s.unsupported then 1 else 0)
      && UnsupportedEv !in tail
  {
    var tail := Farewell(s);
    assert [RemoveBeforeMountEv][1..] == [] && [RemoveEv][1..] == [];
    if s.notified && s.unsupported {
      assert tail[1..] == [RemoveEv];
    } else {
      assert tail == [if s.notified then RemoveEv else RemoveBeforeMountEv];
    }
  }
}
