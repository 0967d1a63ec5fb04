/**
 * When a device is announced: over every run of its operations, exactly when the last checking
 * thread of its batches counts down with something to announce, or an arrival says so at once.
 */
module Announcements {
  import opened StorageModel
  import opened StorageRuns
  import opened StorageMeaning
  import opened ArrivalMeaning
  import opened StorageNotices
  import opened PartitionArrival

  /** The counter says how many checking threads have not ended. */
  ghost predicate Counted(w: World) {
    w.disk.fsckThreadCount == Pending(w.disk.fsckThreads)
  }

  /** A thread that has checked counts down, and all others have ended. */
  predicate EndsBatch(u: World, op: Op) {
    && op.OpThreadCounts? && op.k < |u.disk.fsckThreads| && u.disk.fsckThreads[op.k].progress == ToCount
    && Pending(u.disk.fsckThreads) == 1
  }

  /** The announcing ones among some notices. */
  function Announcing(ns: seq<Notice>): seq<Notice> {
    if ns == [] then []
    else Announcing(ns[..|ns| - 1]) + if Announces(ns[|ns| - 1]) then [ns[|ns| - 1]] else []
  }

  lemma {:induction false} AnnouncingAppend(a: seq<Notice>, b: seq<Notice>)
    ensures Announcing(a + b) == Announcing(a) + Announcing(b)
  {
    if b == [] {
      assert a + b == a;
    } else {
      AnnouncingAppend(a, b[..|b| - 1]);
      assert (a + b)[..|a + b| - 1] == a + b[..|b| - 1];
    }
  }

  lemma {:induction false} NothingAnnounced(ns: seq<Notice>)
    requires NoneAnnounces(ns)
    ensures Announcing(ns) == []
  {
    if ns != [] {
      NothingAnnounced(ns[..|ns| - 1]);
    }
  }

  /** What was announced from u to v is ns. */
  ghost predicate Announced(u: World, v: World, ns: seq<Notice>) {
    u.notices <= v.notices && Announcing(v.notices[|u.notices|..]) == ns
  }

  lemma AnnouncedInTurn(u: World, v: World, w: World, a: seq<Notice>, b: seq<Notice>)
    requires Announced(u, v, a) && Announced(v, w, b)
    ensures Announced(u, w, a + b)
  {
    var more, most := v.notices[|u.notices|..], w.notices[|v.notices|..];
    AnnouncingAppend(more, most);
    assert w.notices[|u.notices|..] == more + most;
  }

  lemma Tells(u: World, v: World, quiet: seq<Notice>, loud: seq<Notice>)
    requires v.notices == u.notices + quiet + loud
    requires NoneAnnounces(quiet) && forall k :: 0 <= k < |loud| ==> Announces(loud[k])
    ensures Announced(u, v, loud)
  {
    NothingAnnounced(quiet);
    AnnouncingAppend(quiet, loud);
    assert v.notices[|u.notices|..] == quiet + loud;
    LoudAnnounces(loud);
  }

  lemma {:induction false} LoudAnnounces(loud: seq<Notice>)
    requires forall k :: 0 <= k < |loud| ==> Announces(loud[k])
    ensures Announcing(loud) == loud
  {
    if loud != [] {
      LoudAnnounces(loud[..|loud| - 1]);
      assert loud == loud[..|loud| - 1] + [loud[|loud| - 1]];
    }
  }

  // ---------------------------------------------------------------- one operation

  lemma QuietStep(u: World, op: Op)
    requires Counted(u) && !op.OpArrive? && !op.OpThreadCounts?
    ensures var v := Step(u, op);
      Counted(v) && Pending(v.disk.fsckThreads) == Pending(u.disk.fsckThreads) && Announced(u, v, [])
  {
    var v := Step(u, op);
    if op.OpTimer? {
      TimerExact(u);
      Tells(u, v, v.notices[|u.notices|..], []);
    } else {
      StepQuiet(u, op);
      Tells(u, v, v.notices[|u.notices|..], []);
    }
  }

  lemma CountStep(u: World, k: nat)
    requires Counted(u)
    ensures var v := ThreadCounts(u, k); var ends := EndsBatch(u, OpThreadCounts(k));
      && Counted(v) && Announced(u, v, if ends then Announcement(u.disk.parts) else [])
      && (ends ==> Pending(v.disk.fsckThreads) == 0)
      && (Pending(v.disk.fsckThreads) == 0 ==> ends || Pending(u.disk.fsckThreads) == 0)
  {
    var v := ThreadCounts(u, k);
    if k < |u.disk.fsckThreads| && u.disk.fsckThreads[k].progress == ToCount {
      ThreadCountsExact(u, k);
      CountDownExact(u);
      PendingUpdate(u.disk.fsckThreads, k, FsckThread(u.disk.fsckThreads[k].at, Done));
      Tells(u, v, [], if u.disk.fsckThreadCount == 1 then Announcement(u.disk.parts) else []);
    } else {
      Tells(u, v, [], []);
    }
  }

  /** What an arrival announces by itself. */
  function ArrivalSays(batch: Batch, after: seq<Part>): seq<Notice> {
    match batch
    case DirectMount => Announcement(after)
    case UnsupportedNotice => [Add, UnsupportedFsFormatNeeded]
    case _ => []
  }

  lemma {:induction false} MountNoticesAreQuiet(parts: seq<Part>, env: nat -> Answers, i: nat)
    ensures NoneAnnounces(MountNotices(parts, env, i))
    decreases |parts| - i
  {
    if i < |parts| {
      MountNoticesAreQuiet(parts, env, i + 1);
    }
  }

  lemma {:induction false} PendingAppend(threads: seq<FsckThread>, more: seq<FsckThread>)
    requires forall k :: 0 <= k < |more| ==> more[k].progress == ToCheck
    ensures Pending(threads + more) == Pending(threads) + |more|
  {
    if more == [] {
      assert threads + more == threads;
    } else {
      PendingAppend(threads, more[..|more| - 1]);
      assert (threads + more)[..|threads + more| - 1] == threads + more[..|more| - 1];
    }
  }

  lemma ChecksCounted(u: World, v: World, n: nat, id: nat)
    requires Counted(u) && CheckingStarted(u, v, n, id)
    ensures Counted(v) && Pending(v.disk.fsckThreads) == Pending(u.disk.fsckThreads) + n && Announced(u, v, [])
  {
    var more := v.disk.fsckThreads[|u.disk.fsckThreads|..];
    assert v.disk.fsckThreads == u.disk.fsckThreads + more;
    PendingAppend(u.disk.fsckThreads, more);
    Tells(u, v, [], []);
  }

  lemma ArriveStep(u: World, ev: PartEvent, env: nat -> Answers, v: World, batch: Batch)
    requires Counted(u) && (v, batch) == Arrive(u, ev, env)
    ensures Counted(v) && Announced(u, v, ArrivalSays(batch, v.disk.parts))
  {
    var w := Appended(u, ev);
    ArriveExact(u, ev, env, v, batch);
    if batch == DirectMount {
      MountNoticesAreQuiet(w.disk.parts, env, 0);
      Tells(u, v, MountNotices(w.disk.parts, env, 0), Announcement(v.disk.parts));
    } else if batch.FsckThreads? {
      ChecksCounted(w, v, batch.n, env(0).sourceId);
    } else if batch == UnsupportedNotice {
      Tells(u, v, [], [Add, UnsupportedFsFormatNeeded]);
    } else {
      Tells(u, v, [], []);
    }
  }

  // ---------------------------------------------------------------- runs

  lemma {:induction false} CountedRun(w: World, ops: seq<Op>, k: nat)
    requires Counted(w) && k <= |ops|
    ensures Counted(WorldAfter(w, ops, k))
  {
    if k > 0 {
      CountedRun(w, ops, k - 1);
      StepSays(WorldAfter(w, ops, k - 1), ops[k - 1], WorldAfter(w, ops, k), BatchAt(w, ops, k - 1));
    }
  }

  /** What an operation announces, from what it found and what it left. */
  function Says(u: World, op: Op, v: World, batch: Batch): seq<Notice> {
    if EndsBatch(u, op) then Announcement(u.disk.parts) else ArrivalSays(batch, v.disk.parts)
  }

  /** Any operation; batch is what it started. */
  lemma StepSays(u: World, op: Op, v: World, batch: Batch)
    requires Counted(u) && v == Step(u, op)
    requires batch == if op.OpArrive? then Arrive(u, op.ev, op.env).1 else NoBatch
    ensures Counted(v) && Announced(u, v, Says(u, op, v, batch))
    ensures !op.OpArrive? ==>
      (Pending(v.disk.fsckThreads) == 0 <==> EndsBatch(u, op) || Pending(u.disk.fsckThreads) == 0)
  {
    if op.OpArrive? {
      ArriveStep(u, op.ev, op.env, v, batch);
    } else if op.OpThreadCounts? {
      CountStep(u, op.k);
    } else {
      QuietStep(u, op);
    }
  }

  /** A device as constructed is where all this begins: nothing announced, no thread, no timeout. */
  lemma NewDeviceStarts(root: string, mounts: multiset<string>)
    ensures var w := World(NewDisk(root), mounts, [], {});
      Unannounced(w) && Kept(w) && Inv(w) && Counted(w) && ThreadsInRange(w.disk) && !w.disk.deviceIsMounted
  {
  }

  /** What operation k of a run is to announce. */
  function Due(w: World, ops: seq<Op>, k: nat): seq<Notice>
    requires k < |ops|
  {
    Says(WorldAfter(w, ops, k), ops[k], WorldAfter(w, ops, k + 1), BatchAt(w, ops, k))
  }

  /**
   * In every run the counter is the number of threads that have not ended, and each operation
   * announces what is due and nothing else: the countdown of the last thread whether a partition
   * timed out or is mounted, an arrival on a write-protected disk the same right after mounting,
   * and one on a disk without a usable file system that it has to be formatted.
   */
  lemma EveryAnnouncementIsDue(w: World, ops: seq<Op>, k: nat)
    requires Counted(w) && k < |ops|
    ensures Counted(WorldAfter(w, ops, k))
    ensures Announced(WorldAfter(w, ops, k), WorldAfter(w, ops, k + 1), Due(w, ops, k))
  {
    CountedRun(w, ops, k);
    StepSays(WorldAfter(w, ops, k), ops[k], WorldAfter(w, ops, k + 1), BatchAt(w, ops, k));
  }

  /** The operation that ended the batch, and what it announced is all that was announced. */
  ghost predicate EndedAt(w: World, ops: seq<Op>, n: nat, k: nat)
    requires n <= |ops|
  {
    && k < n && EndsBatch(WorldAfter(w, ops, k), ops[k])
    && Announced(w, WorldAfter(w, ops, n), Announcement(WorldAfter(w, ops, k).disk.parts))
  }

  ghost predicate Ended(w: World, ops: seq<Op>, n: nat)
    requires n <= |ops|
  {
    exists k :: EndedAt(w, ops, n, k)
  }

  /** Nothing yet while a thread has not ended, and then the one announcement that is due. */
  ghost predicate AnnouncedOnce(w: World, ops: seq<Op>, n: nat)
    requires n <= |ops|
  {
    var v := WorldAfter(w, ops, n);
    if Pending(v.disk.fsckThreads) == 0 then Ended(w, ops, n) else Announced(w, v, [])
  }

  /**
   * While checking threads run and no partition arrives, whatever else goes on: as long as one of
   * them has not ended nothing is announced; and once all have, exactly one announcement was made,
   * by the last to count down: ADD exactly if some partition was mounted or timed out then, with
   * FSCK_TIMED_OUT before it exactly if one timed out.
   */
  lemma {:induction false} BatchAnnouncesOnce(w: World, ops: seq<Op>, n: nat)
    requires Counted(w) && Pending(w.disk.fsckThreads) >= 1 && n <= |ops|
    requires forall k :: 0 <= k < |ops| ==> !ops[k].OpArrive?
    ensures AnnouncedOnce(w, ops, n)
  {
    if n == 0 {
      Tells(w, w, [], []);
    } else {
      BatchAnnouncesOnce(w, ops, n - 1);
      OneMore(w, ops, n);
    }
  }

  lemma OneMore(w: World, ops: seq<Op>, n: nat)
    requires Counted(w) && 0 < n <= |ops| && !ops[n - 1].OpArrive? && AnnouncedOnce(w, ops, n - 1)
    ensures AnnouncedOnce(w, ops, n)
  {
    var u, v := LastOp(w, ops, n);
    StillOnce(w, ops, n, u, v);
  }

  lemma LastOp(w: World, ops: seq<Op>, n: nat) returns (u: World, v: World)
    requires Counted(w) && 0 < n <= |ops| && !ops[n - 1].OpArrive?
    ensures u == WorldAfter(w, ops, n - 1) && v == WorldAfter(w, ops, n)
    ensures Announced(u, v, if EndsBatch(u, ops[n - 1]) then Announcement(u.disk.parts) else [])
    ensures Pending(v.disk.fsckThreads) == 0 <==> EndsBatch(u, ops[n - 1]) || Pending(u.disk.fsckThreads) == 0
  {
    u, v := WorldAfter(w, ops, n - 1), WorldAfter(w, ops, n);
    CountedRun(w, ops, n - 1);
    StepSays(u, ops[n - 1], v, NoBatch);
  }

  lemma StillOnce(w: World, ops: seq<Op>, n: nat, u: World, v: World)
    requires 0 < n <= |ops| && u == WorldAfter(w, ops, n - 1) && v == WorldAfter(w, ops, n)
    requires AnnouncedOnce(w, ops, n - 1)
    requires Announced(u, v, if EndsBatch(u, ops[n - 1]) then Announcement(u.disk.parts) else [])
    requires Pending(v.disk.fsckThreads) == 0 <==> EndsBatch(u, ops[n - 1]) || Pending(u.disk.fsckThreads) == 0
    ensures AnnouncedOnce(w, ops, n)
  {
    if EndsBatch(u, ops[n - 1]) {
      AnnouncedInTurn(w, u, v, [], Announcement(u.disk.parts));
      assert [] + Announcement(u.disk.parts) == Announcement(u.disk.parts);
      assert EndedAt(w, ops, n, n - 1);
    } else if Pending(u.disk.fsckThreads) == 0 {
      var k :| EndedAt(w, ops, n - 1, k);
      var said := Announcement(WorldAfter(w, ops, k).disk.parts);
      AnnouncedInTurn(w, u, v, said, []);
      assert said + [] == said && EndedAt(w, ops, n, k);
    } else {
      AnnouncedInTurn(w, u, v, [], []);
    }
  }

  // ---------------------------------------------------------------- the joins of a removal

  lemma {:induction false} AfterShifts(w: World, ops: seq<Op>, k: nat)
    requires 1 <= k <= |ops|
    ensures WorldAfter(w, ops, k) == WorldAfter(Step(w, ops[0]), ops[1..], k - 1)
  {
    if k > 1 {
      AfterShifts(w, ops, k - 1);
    }
  }

  lemma RunFirst(w: World, ops: seq<Op>, v: World)
    requires ops != [] && v == Step(w, ops[0])
    ensures Run(w, ops) == Run(v, ops[1..])
  {
  }

  lemma FirstOp(w: World, ops: seq<Op>) returns (v: World)
    requires ops != []
    ensures Run(w, ops) == Run(v, ops[1..]) && WorldAfter(w, ops, |ops|) == WorldAfter(v, ops[1..], |ops[1..]|)
  {
    v := Step(w, ops[0]);
    RunFirst(w, ops, v);
    AfterShifts(w, ops, |ops|);
  }

  lemma {:induction false} RunIsWorldAfter(w: World, ops: seq<Op>)
    ensures Run(w, ops) == WorldAfter(w, ops, |ops|)
    decreases |ops|
  {
    if ops != [] {
      var v := FirstOp(w, ops);
      RunIsWorldAfter(v, ops[1..]);
    }
  }

  lemma {:induction false} AllEnded(threads: seq<FsckThread>)
    requires forall k :: 0 <= k < |threads| ==> threads[k].progress.Done?
    ensures Pending(threads) == 0
  {
    if threads != [] {
      AllEnded(threads[..|threads| - 1]);
    }
  }

  lemma {:induction false} JoinsBringNothing(n: nat, k: nat, joins: nat -> Answers)
    ensures forall i :: 0 <= i < |JoinOps(n, k, joins)| ==> !JoinOps(n, k, joins)[i].OpArrive?
    decreases n - k
  {
    if k < n {
      JoinsBringNothing(n, k + 1, joins);
    }
  }

  /**
   * A device removed while its checking threads run: joining them ends the batch, with the one
   * announcement that is due then, before anything is taken down.
   */
  lemma JoinAnnouncesOnce(w: World, joins: nat -> Answers)
    requires Counted(w) && Pending(w.disk.fsckThreads) >= 1 && ThreadsInRange(w.disk)
    ensures var ops := JoinOps(|w.disk.fsckThreads|, 0, joins);
      JoinFrom(w, 0, joins) == WorldAfter(w, ops, |ops|) && Ended(w, ops, |ops|)
  {
    var ops := JoinOps(|w.disk.fsckThreads|, 0, joins);
    JoinIsRun(w, 0, joins);
    RunIsWorldAfter(w, ops);
    JoinsEndEveryThread(w, 0, joins);
    AllEnded(JoinFrom(w, 0, joins).disk.fsckThreads);
    JoinsBringNothing(|w.disk.fsckThreads|, 0, joins);
    BatchAnnouncesOnce(w, ops, |ops|);
  }
}
