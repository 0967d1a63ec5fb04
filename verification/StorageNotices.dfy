/**
 * What observers of one device are told from its first event to its removal, operation by
 * operation, and which timeout of the device is live meanwhile.
 */
module StorageNotices {
  import opened Base
  import opened CommandTables
  import opened StorageModel
  import opened StorageRuns

  /** The notices that announce a device, say how its checks went, or take the announcement back. */
  predicate Announces(n: Notice) {
    || n.Add? || n.FsckTimedOut? || n.UnsupportedFsFormatNeeded?
    || n.RemoveBeforeMount? || n.RemoveUnsupportedFs? || n.Remove?
  }

  ghost predicate NoneAnnounces(ns: seq<Notice>) {
    forall k :: 0 <= k < |ns| ==> !Announces(ns[k])
  }

  /** How many checking threads have not ended. */
  function Pending(threads: seq<FsckThread>): nat {
    if threads == [] then 0
    else Pending(threads[..|threads| - 1]) + if threads[|threads| - 1].progress.Done? then 0 else 1
  }

  lemma {:induction false} PendingUpdate(threads: seq<FsckThread>, k: nat, t: FsckThread)
    requires k < |threads|
    ensures Pending(threads[k := t]) == Pending(threads)
      + (if t.progress.Done? then 0 else 1) - (if threads[k].progress.Done? then 0 else 1)
  {
    var n := |threads| - 1;
    if k < n {
      PendingUpdate(threads[..n], k, t);
      assert threads[k := t][..n] == threads[..n][k := t];
    } else {
      assert threads[k := t][..n] == threads[..n];
    }
  }

  /**
   * From w to v nothing was announced, the flags that remember announcements and the timeout stand,
   * and no checking thread began or ended.
   */
  ghost predicate Quiet(w: World, v: World) {
    && v.disk.fsckThreadCount == w.disk.fsckThreadCount
    && Pending(v.disk.fsckThreads) == Pending(w.disk.fsckThreads)
    && v.disk.devAddNotified == w.disk.devAddNotified && v.disk.hasUnsupportedFs == w.disk.hasUnsupportedFs
    && v.disk.timeoutId == w.disk.timeoutId && v.sources == w.sources
    && w.notices <= v.notices && NoneAnnounces(v.notices[|w.notices|..])
  }

  lemma QuietTransitive(u: World, v: World, w: World)
    requires Quiet(u, v) && Quiet(v, w)
    ensures Quiet(u, w)
  {
    assert w.notices[|u.notices|..] == v.notices[|u.notices|..] + w.notices[|v.notices|..];
  }

  lemma QuietWith(w: World, i: nat, o: Outcome)
    requires i < |w.disk.parts| && NoneAnnounces(o.notices)
    ensures Quiet(w, With(w, i, o))
  {
    assert (w.notices + o.notices)[|w.notices|..] == o.notices;
  }

  lemma QuietTell(w: World, ns: seq<Notice>)
    requires NoneAnnounces(ns)
    ensures Quiet(w, Tell(w, ns))
  {
    assert (w.notices + ns)[|w.notices|..] == ns;
  }

  lemma CallsAreQuiet(p: Part, mounts: multiset<string>, a: Answers, lazy: bool, mode: string)
    ensures NoneAnnounces(Umount(p, mounts, a, lazy).notices)
    ensures NoneAnnounces(Mount(p, mounts, a).notices)
    ensures NoneAnnounces(Fsck(p, mounts, a, mode).notices)
  {
    FsckIsQuiet(p, mounts, a, mode);
  }

  lemma MountIfPassedIsQuiet(p: Part, mounts: multiset<string>, a: Answers, verdict: Status)
    ensures NoneAnnounces(MountIfPassed(p, mounts, a, verdict).notices)
  {
  }

  lemma BracketIsQuiet(run: seq<Notice>, inner: seq<Notice>)
    requires NoneAnnounces(run) && NoneAnnounces(inner)
    ensures NoneAnnounces([FsckStartedEvent] + run + inner + [FsckFinishedEvent])
  {
  }

  lemma FsckIsQuiet(p: Part, mounts: multiset<string>, a: Answers, mode: string)
    ensures NoneAnnounces(Fsck(p, mounts, a, mode).notices)
  {
    var verdict := FsckVerdict(p, a.fsckExit);
    MountIfPassedIsQuiet(Checked(p, a.fsckExit), mounts, a, verdict);
    BracketIsQuiet(CheckRun(p, mode), MountIfPassed(Checked(p, a.fsckExit), mounts, a, verdict).notices);
  }

  lemma UmountFromUnfolds(w: World, i: nat, env: nat -> Answers, lazy: bool, result: Status)
    requires i < |w.disk.parts|
    ensures var o := Umount(w.disk.parts[i], w.mounts, env(i), lazy);
      var next := if o.status.Success? then result else UmountAllFail;
      && UmountFrom(w, i, env, lazy, result) == UmountFrom(With(w, i, o), i + 1, env, lazy, next)
      && Quiet(w, With(w, i, o))
  {
    CallsAreQuiet(w.disk.parts[i], w.mounts, env(i), lazy, AUTO);
    QuietWith(w, i, Umount(w.disk.parts[i], w.mounts, env(i), lazy));
  }

  lemma {:induction false} UmountFromQuiet(w: World, i: nat, env: nat -> Answers, lazy: bool, result: Status)
    ensures Quiet(w, UmountFrom(w, i, env, lazy, result).0)
    decreases |w.disk.parts| - i
  {
    if i < |w.disk.parts| {
      var o := Umount(w.disk.parts[i], w.mounts, env(i), lazy);
      var next := if o.status.Success? then result else UmountAllFail;
      var v := With(w, i, o);
      UmountFromUnfolds(w, i, env, lazy, result);
      UmountFromQuiet(v, i + 1, env, lazy, next);
      QuietTransitive(w, v, UmountFrom(v, i + 1, env, lazy, next).0);
    }
  }

  lemma {:induction false} MountFromQuiet(w: World, i: nat, env: nat -> Answers, result: Status)
    ensures Quiet(w, MountFrom(w, i, env, result).0)
    decreases |w.disk.parts| - i
  {
    if i < |w.disk.parts| {
      if !w.disk.parts[i].supportedFs {
        MountFromQuiet(w, i + 1, env, result);
      } else {
        var o := Mount(w.disk.parts[i], w.mounts, env(i));
        var next := if o.status.Success? then result else MountAllFail;
        CallsAreQuiet(w.disk.parts[i], w.mounts, env(i), false, AUTO);
        QuietWith(w, i, o);
        MountFromQuiet(With(w, i, o), i + 1, env, next);
        QuietTransitive(w, With(w, i, o), MountFrom(With(w, i, o), i + 1, env, next).0);
      }
    }
  }

  lemma {:induction false} EnforceFromQuiet(w: World, i: nat, env: nat -> Answers, needFsck: bool, result: Status)
    ensures Quiet(w, EnforceFrom(w, i, env, needFsck, result).0)
    decreases |w.disk.parts| - i
  {
    if i < |w.disk.parts| {
      var p := w.disk.parts[i];
      if (!needFsck && !p.mounted) || p.fsckStatus == FsckResult(FsckTimeout) {
        var o := if !needFsck && !p.mounted then Mount(p, w.mounts, env(i)) else Fsck(p, w.mounts, env(i), FORCE);
        var next := if o.status.Success? then result else Error;
        CallsAreQuiet(p, w.mounts, env(i), false, FORCE);
        QuietWith(w, i, o);
        EnforceFromQuiet(With(w, i, o), i + 1, env, needFsck, next);
        QuietTransitive(w, With(w, i, o), EnforceFrom(With(w, i, o), i + 1, env, needFsck, next).0);
      } else {
        EnforceFromQuiet(w, i + 1, env, needFsck, result);
      }
    }
  }

  lemma RemountQuiet(w: World, i: nat, verdict: Status, a: Answers)
    requires i < |w.disk.parts|
    ensures Quiet(w, Remount(w, i, verdict, a).0)
  {
    var p := w.disk.parts[i];
    if !verdict.Success? {
      QuietTell(w, [FormatFailed(p.driveName)]);
    } else {
      var m := Mount(p, w.mounts, a);
      CallsAreQuiet(p, w.mounts, a, false, AUTO);
      QuietWith(w, i, m);
      var said := if m.status.Success? then FormatSuccess(p.driveName) else FormatFailed(p.driveName);
      QuietTell(With(w, i, m), [said]);
      QuietTransitive(w, With(w, i, m), Tell(With(w, i, m), [said]));
    }
  }

  lemma FormatQuiet(w: World, name: string, requested: string, volLabel: string, a: Answers)
    ensures Quiet(w, Format(w, name, requested, volLabel, a).0)
  {
    var found := FindPartition(w.disk.parts, name);
    if found.Some? && !w.disk.readOnly {
      var i := found.value;
      var o := Umount(w.disk.parts[i], w.mounts, a, false);
      var w1 := With(w, i, o);
      CallsAreQuiet(w.disk.parts[i], w.mounts, a, false, AUTO);
      QuietWith(w, i, o);
      if o.status.Success? {
        MakeFsQuiet(w1, i, requested, volLabel, a);
        QuietTransitive(w, w1, MakeFs(w1, i, requested, volLabel, a).0);
      }
    }
  }

  lemma MakeFsQuiet(w: World, i: nat, requested: string, volLabel: string, a: Answers)
    requires i < |w.disk.parts|
    ensures Quiet(w, MakeFs(w, i, requested, volLabel, a).0)
  {
    var p := w.disk.parts[i];
    var (f, verdict) := FormatOutcome(p, requested, volLabel, a.mkfsExit);
    var said := [FormatStarted(p.driveName)] + MkfsRun(p, requested, volLabel);
    var v := WithPart(Tell(w, said), i, f);
    QuietTell(w, said);
    assert Quiet(w, v);
    RemountQuiet(v, i, verdict, a);
    QuietTransitive(w, v, Remount(v, i, verdict, a).0);
  }

  lemma FsckDriveQuiet(w: World, name: string, a: Answers)
    ensures Quiet(w, FsckDrive(w, name, a).0)
  {
    var found := FindPartition(w.disk.parts, name);
    if found.Some? && !w.disk.readOnly {
      var i := found.value;
      var o := Umount(w.disk.parts[i], w.mounts, a, false);
      var w1 := With(w, i, o);
      CallsAreQuiet(w.disk.parts[i], w.mounts, a, false, AUTO);
      QuietWith(w, i, o);
      if o.status.Success? {
        CallsAreQuiet(o.part, o.mounts, a, false, AUTO);
        QuietWith(w1, i, Fsck(o.part, o.mounts, a, AUTO));
        QuietTransitive(w, w1, With(w1, i, Fsck(o.part, o.mounts, a, AUTO)));
      }
    }
  }

  lemma LabelQuiet(w: World, name: string, volLabel: string, a: Answers)
    ensures Quiet(w, SetLabel(w, name, volLabel, a).0)
  {
    var found := FindPartition(w.disk.parts, name);
    if found.Some? {
      var p := w.disk.parts[found.value];
      QuietTell(w, [Ran(LabelArgv(p.fsType, p.driveName, volLabel))]);
    }
  }

  // ---------------------------------------------------------------- the flags are honest

  /** The two flags say which announcements were made, and nothing has been taken back. */
  ghost predicate Honest(w: World) {
    && (w.disk.devAddNotified <==> Add in w.notices)
    && (w.disk.hasUnsupportedFs <==> UnsupportedFsFormatNeeded in w.notices)
    && (w.disk.hasUnsupportedFs ==> w.disk.devAddNotified)
    && RemoveBeforeMount !in w.notices && RemoveUnsupportedFs !in w.notices && Remove !in w.notices
  }

  lemma QuietIsHonest(w: World, v: World)
    requires Honest(w) && Quiet(w, v)
    ensures Honest(v)
  {
    var more := v.notices[|w.notices|..];
    assert v.notices == w.notices + more;
    assert forall n :: n in more ==> !Announces(n);
  }

  /** The only live timeout is the one the device remembers, if any. */
  ghost predicate Timed(w: World) {
    w.sources == if w.disk.timeoutId == 0 then {} else {w.disk.timeoutId}
  }

  ghost predicate Kept(w: World) {
    Honest(w) && Timed(w)
  }

  lemma NotificationHonest(w: World)
    requires Honest(w)
    ensures Honest(Notification(w))
  {
  }

  lemma CountDownKept(w: World)
    requires Kept(w)
    ensures Kept(CountDown(w))
  {
    NotificationHonest(w.(disk := w.disk.(fsckThreadCount := w.disk.fsckThreadCount - 1)));
  }

  lemma TimerFiresKept(w: World)
    requires Kept(w)
    ensures Kept(TimerFires(w))
  {
    if w.disk.timeoutId in w.sources {
      assert !Announces(Connecting);
    }
  }

  lemma ArmKept(w: World, id: nat)
    requires Kept(w) && id != 0
    ensures Kept(Arm(w, id))
  {
  }

  lemma ArriveKept(w: World, ev: PartEvent, env: nat -> Answers)
    requires Kept(w)
    ensures Kept(Arrive(w, ev, env).0)
  {
    if FindPartition(w.disk.parts, ev.name).None? {
      var v := w.(disk := w.disk.(parts := w.disk.parts + [NewPart(w.disk, ev)]));
      BeginKept(v, env);
    }
  }

  lemma BeginKept(w: World, env: nat -> Answers)
    requires Kept(w)
    ensures Kept(Begin(w, env).0)
  {
    match BatchFor(w.disk)
    case NoBatch =>
    case UnsupportedNotice =>
    case DirectMount =>
      MountFromQuiet(w, 0, env, Success);
      QuietIsHonest(w, MountAll(w, env).0);
      NotificationHonest(MountAll(w, env).0);
    case FsckThreads(_) =>
      ArmKept(Spawn(w, SupportedFrom(w.disk.parts, 0)), env(0).sourceId);
  }

  lemma ThreadChecksQuiet(w: World, k: nat, a: Answers)
    ensures Quiet(w, ThreadChecks(w, k, a))
  {
    if ThreadChecks(w, k, a) != w {
      var at := w.disk.fsckThreads[k].at;
      FsckIsQuiet(w.disk.parts[at], w.mounts, a, AUTO);
      QuietWith(w, at, Fsck(w.disk.parts[at], w.mounts, a, AUTO));
      PendingUpdate(w.disk.fsckThreads, k, FsckThread(at, ToCount));
    }
  }

  lemma StepKept(w: World, op: Op)
    requires Kept(w)
    ensures Kept(Step(w, op))
  {
    match op
    case OpArrive(ev, env) => ArriveKept(w, ev, env);
    case OpThreadCounts(k) => CountDownKept(w);
    case OpTimer => TimerFiresKept(w);
    case _ =>
      StepQuiet(w, op);
      QuietIsHonest(w, Step(w, op));
  }

  lemma StepQuiet(w: World, op: Op)
    requires !op.OpArrive? && !op.OpThreadCounts? && !op.OpTimer?
    ensures Quiet(w, Step(w, op))
  {
    match op
    case OpMountAll(env) => MountFromQuiet(w, 0, env, Success);
    case OpUmountAll(lazy, env) => UmountFromQuiet(w, 0, env, lazy, Success);
    case OpEject(env) => UmountFromQuiet(w, 0, env, false, Success);
    case OpFormat(name, fs, volLabel, a) => FormatQuiet(w, name, fs, volLabel, a);
    case OpFsck(name, a) => FsckDriveQuiet(w, name, a);
    case OpLabel(name, volLabel, a) => LabelQuiet(w, name, volLabel, a);
    case OpEnforce(needFsck, env) => EnforceFromQuiet(w, 0, env, needFsck, Success);
    case OpThreadChecks(k, a) => ThreadChecksQuiet(w, k, a);
    case OpDelete(env) => UmountFromQuiet(w, 0, env, true, Success);
  }

  /**
   * Every run keeps the two flags honest, and the device's timeout the only live one and known to
   * the device.
   */
  lemma {:induction false} RunKept(w: World, ops: seq<Op>)
    requires Kept(w)
    ensures Kept(Run(w, ops))
    decreases |ops|
  {
    if ops != [] {
      StepKept(w, ops[0]);
      RunKept(Step(w, ops[0]), ops[1..]);
    }
  }

  // ---------------------------------------------------------------- the result

  ghost predicate Paired(ns: seq<Notice>) {
    && Count(ns, RemoveBeforeMount) == (if Add in ns then 0 else 1)
    && Count(ns, Remove) == (if Add in ns then 1 else 0)
    && (Add in ns ==> ns[|ns| - 1] == Remove)
    && Count(ns, RemoveUnsupportedFs) == (if UnsupportedFsFormatNeeded in ns then 1 else 0)
  }

  /** A device as constructed: nothing announced, no timeout armed. */
  predicate Unannounced(w: World) {
    && w.notices == [] && !w.disk.devAddNotified && !w.disk.hasUnsupportedFs
    && w.disk.timeoutId == 0 && w.sources == {}
  }

  /**
   * Whatever operations a new device went through, and whatever its checking threads still do
   * while they are joined: once onDeviceRemove and removeDevice are done with it, observers saw
   * either no ADD and one REMOVE_BEFORE_MOUNT, or an ADD and one last REMOVE; and one
   * REMOVE_UNSUPPORTED_FS exactly if UNSUPPORTED_FS_FORMAT_NEEDED was sent. After the destructor
   * no timeout of the device is live.
   */
  lemma UnpluggedNoticesPair(w: World, ops: seq<Op>, joins: nat -> Answers, env: nat -> Answers)
    requires Unannounced(w)
    ensures var u := Retire(OnDeviceRemove(Run(w, ops), joins, env));
      Paired(u.notices) && Destroyed(u, env).sources == {}
  {
    RunKept(w, ops);
    var j := JoinFrom(Run(w, ops), 0, joins);
    JoinIsRun(Run(w, ops), 0, joins);
    RunKept(Run(w, ops), JoinOps(|Run(w, ops).disk.fsckThreads|, 0, joins));
    var i := j.(disk := j.disk.(fsckThreads := [], fsckThreadCount := 0));
    var v := DeleteParts(i, env);
    UmountFromQuiet(i, 0, env, true, Success);
    QuietIsHonest(i, v);
    RemovalPairs(v.(disk := v.disk.(rootPath := "")));
    var u := Retire(OnDeviceRemove(Run(w, ops), joins, env));
    assert Timed(u);
    UmountFromQuiet(Cancel(u), 0, env, true, Success);
  }

  lemma RemovalPairs(w: World)
    requires Honest(w)
    ensures Paired(Retire(CheckRemoval(w)).notices)
  {
    var ns := Retire(CheckRemoval(w)).notices;
    var tail := Farewell(w.disk);
    assert ns == w.notices + tail;
    FarewellCounts(w.notices, tail, RemoveBeforeMount);
    FarewellCounts(w.notices, tail, RemoveUnsupportedFs);
    FarewellCounts(w.notices, tail, Remove);
    assert Count([RemoveUnsupportedFs, Remove], Remove) == Count([Remove], Remove);
  }

  function Farewell(d: Disk): seq<Notice> {
    if !d.devAddNotified then [RemoveBeforeMount]
    else if d.hasUnsupportedFs then [RemoveUnsupportedFs, Remove]
    else [Remove]
  }

  lemma FarewellCounts(ns: seq<Notice>, tail: seq<Notice>, n: Notice)
    requires n !in ns
    ensures Count(ns + tail, n) == Count(tail, n)
  {
    CountAppend(ns, tail, n);
    CountZero(ns, n);
  }
}
