/** What every run of storage operations keeps, and what each operation means. */
module StorageRuns {
  import opened CommandTables
  import opened StorageModel

  // ---------------------------------------------------------------- reported mounted, really mounted

  /** Partition names are unique (unnamed ones aside) and mount points follow from them. */
  ghost predicate WellNamed(d: Disk) {
    && (forall i :: 0 <= i < |d.parts| ==> d.parts[i].mountName == MountPoint(d.rootPath, d.parts[i].driveName))
    && (forall i, j :: 0 <= i < j < |d.parts| && d.parts[i].driveName != "" ==>
          d.parts[i].driveName != d.parts[j].driveName)
  }

  ghost predicate ReportedIsReal(parts: seq<Part>, mounts: multiset<string>) {
    forall i :: 0 <= i < |parts| && parts[i].mounted ==> parts[i].mountName != "" && parts[i].mountName in mounts
  }

  ghost predicate Inv(w: World) {
    WellNamed(w.disk) && ReportedIsReal(w.disk.parts, w.mounts)
  }

  lemma MountPointsDiffer(d: Disk, i: nat, j: nat)
    requires WellNamed(d) && i < |d.parts| && j < |d.parts| && i != j
    requires d.parts[i].mountName != ""
    ensures d.parts[i].mountName != d.parts[j].mountName
  {
    var a, b := d.parts[i].driveName, d.parts[j].driveName;
    if d.parts[j].mountName != "" {
      var prefix := d.rootPath + "/";
      assert a == (prefix + a)[|prefix|..] && b == (prefix + b)[|prefix|..];
    }
  }

  /** An outcome that only touches its own mount point and status, and mounts before it reports. */
  ghost predicate Sound(p: Part, mounts: multiset<string>, o: Outcome) {
    && o.part.driveName == p.driveName && o.part.mountName == p.mountName
    && (forall m :: m != p.mountName ==> o.mounts[m] == mounts[m])
    && (o.part.mounted ==> o.part.mountName != "" && o.part.mountName in o.mounts)
  }

  lemma UmountSound(p: Part, mounts: multiset<string>, a: Answers, lazy: bool)
    requires p.mounted ==> p.mountName != "" && p.mountName in mounts
    ensures Sound(p, mounts, Umount(p, mounts, a, lazy))
  {
  }

  lemma MountSound(p: Part, mounts: multiset<string>, a: Answers)
    ensures Sound(p, mounts, Mount(p, mounts, a))
  {
  }

  lemma FsckSound(p: Part, mounts: multiset<string>, a: Answers, mode: string)
    requires p.mounted ==> p.mountName != "" && p.mountName in mounts
    ensures Sound(p, mounts, Fsck(p, mounts, a, mode))
  {
    MountSound(Checked(p, a.fsckExit), mounts, a);
  }

  lemma WithInv(w: World, i: nat, o: Outcome)
    requires Inv(w) && i < |w.disk.parts| && Sound(w.disk.parts[i], w.mounts, o)
    ensures Inv(With(w, i, o))
  {
    var v := With(w, i, o);
    forall j | 0 <= j < |v.disk.parts| && v.disk.parts[j].mounted
      ensures v.disk.parts[j].mountName != "" && v.disk.parts[j].mountName in v.mounts
    {
      if j != i {
        MountPointsDiffer(w.disk, j, i);
        assert v.mounts[w.disk.parts[j].mountName] == w.mounts[w.disk.parts[j].mountName];
      }
    }
  }

  lemma {:induction false} UmountFromInv(w: World, i: nat, env: nat -> Answers, lazy: bool, result: Status)
    requires Inv(w)
    ensures Inv(UmountFrom(w, i, env, lazy, result).0)
    decreases |w.disk.parts| - i
  {
    if i < |w.disk.parts| {
      var o := Umount(w.disk.parts[i], w.mounts, env(i), lazy);
      UmountSound(w.disk.parts[i], w.mounts, env(i), lazy);
      WithInv(w, i, o);
      UmountFromInv(With(w, i, o), i + 1, env, lazy, if o.status.Success? then result else UmountAllFail);
    }
  }

  lemma {:induction false} MountFromInv(w: World, i: nat, env: nat -> Answers, result: Status)
    requires Inv(w)
    ensures Inv(MountFrom(w, i, env, result).0)
    decreases |w.disk.parts| - i
  {
    if i < |w.disk.parts| {
      if !w.disk.parts[i].supportedFs {
        MountFromInv(w, i + 1, env, result);
      } else {
        var o := Mount(w.disk.parts[i], w.mounts, env(i));
        MountSound(w.disk.parts[i], w.mounts, env(i));
        WithInv(w, i, o);
        MountFromInv(With(w, i, o), i + 1, env, if o.status.Success? then result else MountAllFail);
      }
    }
  }

  lemma {:induction false} EnforceFromInv(w: World, i: nat, env: nat -> Answers, needFsck: bool, result: Status)
    requires Inv(w)
    ensures Inv(EnforceFrom(w, i, env, needFsck, result).0)
    decreases |w.disk.parts| - i
  {
    if i < |w.disk.parts| {
      var p := w.disk.parts[i];
      if !needFsck && !p.mounted {
        var o := Mount(p, w.mounts, env(i));
        MountSound(p, w.mounts, env(i));
        WithInv(w, i, o);
        EnforceFromInv(With(w, i, o), i + 1, env, needFsck, if o.status.Success? then result else Error);
      } else if p.fsckStatus == FsckResult(FsckTimeout) {
        var o := Fsck(p, w.mounts, env(i), FORCE);
        FsckSound(p, w.mounts, env(i), FORCE);
        WithInv(w, i, o);
        EnforceFromInv(With(w, i, o), i + 1, env, needFsck, if o.status.Success? then result else Error);
      } else {
        EnforceFromInv(w, i + 1, env, needFsck, result);
      }
    }
  }

  lemma RemountInv(w: World, i: nat, f: Part, verdict: Status, a: Answers)
    requires Inv(w) && i < |w.disk.parts|
    requires f == w.disk.parts[i].(fsType := f.fsType, volumeLabel := f.volumeLabel)
    ensures Inv(Remount(WithPart(w, i, f), i, verdict, a).0)
  {
    var w1 := WithPart(w, i, f);
    assert Inv(w1);
    MountSound(f, w1.mounts, a);
    WithInv(w1, i, Mount(f, w1.mounts, a));
  }

  lemma FormatInv(w: World, name: string, requested: string, volLabel: string, a: Answers)
    requires Inv(w)
    ensures Inv(Format(w, name, requested, volLabel, a).0)
  {
    var found := FindPartition(w.disk.parts, name);
    if found.Some? && !w.disk.readOnly {
      var i := found.value;
      var p := w.disk.parts[i];
      var o := Umount(p, w.mounts, a, false);
      UmountSound(p, w.mounts, a, false);
      WithInv(w, i, o);
      if o.status.Success? {
        MakeFsInv(With(w, i, o), i, requested, volLabel, a);
      }
    }
  }

  lemma MakeFsInv(w: World, i: nat, requested: string, volLabel: string, a: Answers)
    requires Inv(w) && i < |w.disk.parts|
    ensures Inv(MakeFs(w, i, requested, volLabel, a).0)
  {
    var p := w.disk.parts[i];
    var (f, verdict) := FormatOutcome(p, requested, volLabel, a.mkfsExit);
    var v := Tell(w, [FormatStarted(p.driveName)] + MkfsRun(p, requested, volLabel));
    SameMountsInv(w, v);
    RemountInv(v, i, f, verdict, a);
  }

  lemma FsckDriveInv(w: World, name: string, a: Answers)
    requires Inv(w)
    ensures Inv(FsckDrive(w, name, a).0)
  {
    var found := FindPartition(w.disk.parts, name);
    if found.Some? && !w.disk.readOnly {
      var i := found.value;
      var o := Umount(w.disk.parts[i], w.mounts, a, false);
      UmountSound(w.disk.parts[i], w.mounts, a, false);
      WithInv(w, i, o);
      FsckSound(o.part, o.mounts, a, AUTO);
      WithInv(With(w, i, o), i, Fsck(o.part, o.mounts, a, AUTO));
    }
  }

  lemma AppendedInv(w: World, ev: PartEvent)
    requires Inv(w) && FindPartition(w.disk.parts, ev.name).None?
    ensures Inv(w.(disk := w.disk.(parts := w.disk.parts + [NewPart(w.disk, ev)])))
  {
  }

  /** Notices, flags, counters, threads and timeouts do not matter to the invariant. */
  predicate SameMounts(w: World, v: World) {
    v.disk.parts == w.disk.parts && v.disk.rootPath == w.disk.rootPath && v.mounts == w.mounts
  }

  lemma SameMountsInv(w: World, v: World)
    requires Inv(w) && SameMounts(w, v)
    ensures Inv(v)
  {
  }

  lemma NotificationSameMounts(w: World)
    ensures SameMounts(w, Notification(w)) && SameMounts(w, Cancel(Notification(w))) && SameMounts(w, CountDown(w))
  {
  }

  lemma BeginInv(w: World, env: nat -> Answers)
    requires Inv(w)
    ensures Inv(Begin(w, env).0)
  {
    var v := Begin(w, env).0;
    if BatchFor(w.disk).DirectMount? {
      var m := MountAll(w, env).0;
      MountFromInv(w, 0, env, Success);
      NotificationSameMounts(m);
      SameMountsInv(m, v);
    } else {
      assert SameMounts(w, v);
      SameMountsInv(w, v);
    }
  }

  lemma ArriveInv(w: World, ev: PartEvent, env: nat -> Answers)
    requires Inv(w)
    ensures Inv(Arrive(w, ev, env).0)
  {
    if FindPartition(w.disk.parts, ev.name).None? {
      AppendedInv(w, ev);
      var w1 := w.(disk := w.disk.(parts := w.disk.parts + [NewPart(w.disk, ev)]));
      BeginInv(w1, env);
    }
  }

  datatype Op =
    | OpArrive(ev: PartEvent, env: nat -> Answers)
    | OpMountAll(env: nat -> Answers)
    | OpUmountAll(lazy: bool, env: nat -> Answers)
    | OpEject(env: nat -> Answers)
    | OpFormat(name: string, fs: string, volLabel: string, a: Answers)
    | OpFsck(name: string, a: Answers)
    | OpLabel(name: string, volLabel: string, a: Answers)
    | OpEnforce(needFsck: bool, env: nat -> Answers)
    | OpThreadChecks(k: nat, a: Answers)   // the two halves of checking thread k
    | OpThreadCounts(k: nat)
    | OpTimer                              // the main loop runs the connecting timeout
    | OpDelete(env: nat -> Answers)        // deletePartitionData

  function Step(w: World, op: Op): World {
    match op
    case OpArrive(ev, env) => Arrive(w, ev, env).0
    case OpMountAll(env) => MountAll(w, env).0
    case OpUmountAll(lazy, env) => UmountAll(w, env, lazy).0
    case OpEject(env) => Eject(w, env).0
    case OpFormat(name, fs, volLabel, a) => Format(w, name, fs, volLabel, a).0
    case OpFsck(name, a) => FsckDrive(w, name, a).0
    case OpLabel(name, volLabel, a) => SetLabel(w, name, volLabel, a).0
    case OpEnforce(needFsck, env) => Enforce(w, env, needFsck).0
    case OpThreadChecks(k, a) => ThreadChecks(w, k, a)
    case OpThreadCounts(k) => ThreadCounts(w, k)
    case OpTimer => TimerFires(w)
    case OpDelete(env) => DeleteParts(w, env)
  }

  function Run(w: World, ops: seq<Op>): World
    decreases |ops|
  {
    if ops == [] then w else Run(Step(w, ops[0]), ops[1..])
  }

  lemma ThreadChecksInv(w: World, k: nat, a: Answers)
    requires Inv(w)
    ensures Inv(ThreadChecks(w, k, a))
  {
    if ThreadChecks(w, k, a) != w {
      var at := w.disk.fsckThreads[k].at;
      var v := With(w, at, Fsck(w.disk.parts[at], w.mounts, a, AUTO));
      FsckSound(w.disk.parts[at], w.mounts, a, AUTO);
      WithInv(w, at, Fsck(w.disk.parts[at], w.mounts, a, AUTO));
      SameMountsInv(v, ThreadAt(v, k, ToCount));
    }
  }

  lemma ThreadCountsInv(w: World, k: nat)
    requires Inv(w)
    ensures Inv(ThreadCounts(w, k))
  {
    NotificationSameMounts(w);
    SameMountsInv(w, ThreadCounts(w, k));
  }

  lemma LabelInv(w: World, name: string, volLabel: string, a: Answers)
    requires Inv(w)
    ensures Inv(SetLabel(w, name, volLabel, a).0)
  {
  }

  /** A device just created, before any partition arrived, is where such runs begin. */
  lemma NewDeviceInv(w: World)
    requires w.disk.parts == []
    ensures Inv(w)
  {
  }

  lemma EjectInv(w: World, env: nat -> Answers)
    requires Inv(w)
    ensures Inv(Eject(w, env).0)
  {
    UmountFromInv(w, 0, env, false, Success);
    SameMountsInv(UmountAll(w, env, false).0, Eject(w, env).0);
  }

  lemma EnforceInv(w: World, env: nat -> Answers, needFsck: bool)
    requires Inv(w)
    ensures Inv(Enforce(w, env, needFsck).0)
  {
    EnforceFromInv(w, 0, env, needFsck, Success);
    SameMountsInv(EnforceFrom(w, 0, env, needFsck, Success).0, Enforce(w, env, needFsck).0);
  }

  lemma StepInv(w: World, op: Op, v: World)
    requires Inv(w) && v == Step(w, op)
    ensures Inv(v)
  {
    match op
    case OpArrive(ev, env) => ArriveInv(w, ev, env);
    case OpMountAll(env) => MountFromInv(w, 0, env, Success);
    case OpUmountAll(lazy, env) => UmountFromInv(w, 0, env, lazy, Success);
    case OpEject(env) => EjectInv(w, env);
    case OpFormat(name, fs, volLabel, a) => FormatInv(w, name, fs, volLabel, a);
    case OpFsck(name, a) => FsckDriveInv(w, name, a);
    case OpLabel(name, volLabel, a) => LabelInv(w, name, volLabel, a);
    case OpEnforce(needFsck, env) => EnforceInv(w, env, needFsck);
    case OpThreadChecks(k, a) => ThreadChecksInv(w, k, a);
    case OpThreadCounts(k) => ThreadCountsInv(w, k);
    case OpTimer => SameMountsInv(w, TimerFires(w));
    case OpDelete(env) => NewDeviceInv(DeleteParts(w, env));
  }

  /**
   * Whatever the system answers, in whatever order the operations come: a partition that
   * reports itself mounted is in the kernel's mount table.
   */
  lemma {:induction false} ReportedMountedIsMounted(w: World, ops: seq<Op>)
    requires Inv(w)
    ensures Inv(Run(w, ops))
    ensures forall i :: 0 <= i < |Run(w, ops).disk.parts| && Run(w, ops).disk.parts[i].mounted ==>
      Run(w, ops).disk.parts[i].mountName in Run(w, ops).mounts
    decreases |ops|
  {
    if ops != [] {
      StepInv(w, ops[0], Step(w, ops[0]));
      ReportedMountedIsMounted(Step(w, ops[0]), ops[1..]);
    }
  }

  // ---------------------------------------------------------------- joining the checking threads

  ghost predicate ThreadsInRange(d: Disk) {
    forall k :: 0 <= k < |d.fsckThreads| ==> d.fsckThreads[k].at < |d.parts|
  }

  lemma ThreadRunsEnds(w: World, k: nat, a: Answers)
    requires ThreadsInRange(w.disk) && k < |w.disk.fsckThreads|
    ensures var v := ThreadRuns(w, k, a);
      && |v.disk.parts| == |w.disk.parts|
      && v.disk.fsckThreads == w.disk.fsckThreads[k := w.disk.fsckThreads[k].(progress := Done)]
  {
    ThreadChecksMoves(w, k, a);
    ThreadCountsMoves(ThreadChecks(w, k, a), k);
  }

  lemma ThreadCountsMoves(w: World, k: nat)
    requires k < |w.disk.fsckThreads|
    ensures var v := ThreadCounts(w, k); var t := w.disk.fsckThreads[k];
      && v.disk.parts == w.disk.parts
      && v.disk.fsckThreads == w.disk.fsckThreads[k := if t.progress.ToCount? then t.(progress := Done) else t]
  {
    assert CountDown(w).disk.fsckThreads == w.disk.fsckThreads && CountDown(w).disk.parts == w.disk.parts;
  }

  lemma ThreadChecksMoves(w: World, k: nat, a: Answers)
    requires ThreadsInRange(w.disk) && k < |w.disk.fsckThreads|
    ensures var v := ThreadChecks(w, k, a); var t := w.disk.fsckThreads[k];
      && |v.disk.parts| == |w.disk.parts|
      && v.disk.fsckThreads == w.disk.fsckThreads[k := if t.progress.ToCheck? then t.(progress := ToCount) else t]
  {
  }

  /** When the join loop is through, no thread has anything left to do on the partitions. */
  lemma {:induction false} JoinsEndEveryThread(w: World, k: nat, joins: nat -> Answers)
    requires ThreadsInRange(w.disk)
    requires forall i :: 0 <= i < k && i < |w.disk.fsckThreads| ==> w.disk.fsckThreads[i].progress.Done?
    ensures var v := JoinFrom(w, k, joins);
      && |v.disk.parts| == |w.disk.parts| && |v.disk.fsckThreads| == |w.disk.fsckThreads|
      && forall i :: 0 <= i < |v.disk.fsckThreads| ==> v.disk.fsckThreads[i].progress.Done?
    decreases |w.disk.fsckThreads| - k
  {
    if k < |w.disk.fsckThreads| {
      ThreadRunsEnds(w, k, joins(k));
      JoinsEndEveryThread(ThreadRuns(w, k, joins(k)), k + 1, joins);
    }
  }

  /** The operations of a join loop over n threads, from thread k on. */
  function JoinOps(n: nat, k: nat, joins: nat -> Answers): seq<Op>
    decreases n - k
  {
    if k >= n then [] else [OpThreadChecks(k, joins(k)), OpThreadCounts(k)] + JoinOps(n, k + 1, joins)
  }

  lemma RunTwo(w: World, a: Op, b: Op, rest: seq<Op>)
    ensures Run(w, [a, b] + rest) == Run(Step(Step(w, a), b), rest)
  {
    var ops := [a, b] + rest;
    assert ops[1..] == [b] + rest && ops[1..][1..] == rest;
  }

  lemma ThreadRunsKeepThreads(w: World, k: nat, a: Answers)
    ensures |ThreadChecks(w, k, a).disk.fsckThreads| == |w.disk.fsckThreads|
    ensures |ThreadCounts(w, k).disk.fsckThreads| == |w.disk.fsckThreads|
  {
  }

  lemma RunsInTwoSteps(w: World, k: nat, a: Answers) returns (u: World, v: World)
    ensures u == Step(w, OpThreadChecks(k, a)) && v == Step(u, OpThreadCounts(k)) && v == ThreadRuns(w, k, a)
    ensures |v.disk.fsckThreads| == |w.disk.fsckThreads|
  {
    u := ThreadChecks(w, k, a);
    v := ThreadCounts(u, k);
    ThreadRunsKeepThreads(w, k, a);
    ThreadRunsKeepThreads(u, k, a);
  }

  lemma JoinUnfolds(w: World, k: nat, joins: nat -> Answers, v: World)
    requires k < |w.disk.fsckThreads| && v == ThreadRuns(w, k, joins(k))
    ensures JoinFrom(w, k, joins) == JoinFrom(v, k + 1, joins)
  {
  }

  lemma JoinOne(w: World, k: nat, joins: nat -> Answers, rest: seq<Op>) returns (v: World)
    requires k < |w.disk.fsckThreads|
    ensures |v.disk.fsckThreads| == |w.disk.fsckThreads|
    ensures JoinFrom(w, k, joins) == JoinFrom(v, k + 1, joins)
    ensures Run(w, [OpThreadChecks(k, joins(k)), OpThreadCounts(k)] + rest) == Run(v, rest)
  {
    var u;
    u, v := RunsInTwoSteps(w, k, joins(k));
    JoinUnfolds(w, k, joins, v);
    RunTwo(w, OpThreadChecks(k, joins(k)), OpThreadCounts(k), rest);
  }

  /** Joining is a run of what the threads have left to do. */
  lemma {:induction false} JoinIsRun(w: World, k: nat, joins: nat -> Answers)
    ensures JoinFrom(w, k, joins) == Run(w, JoinOps(|w.disk.fsckThreads|, k, joins))
    decreases |w.disk.fsckThreads| - k
  {
    if k < |w.disk.fsckThreads| {
      var v := JoinOne(w, k, joins, JoinOps(|w.disk.fsckThreads|, k + 1, joins));
      JoinIsRun(v, k + 1, joins);
    }
  }

  // ---------------------------------------------------------------- the converse fails, and exactly when

  /**
   * After a failed unmount the partition reports itself unmounted, so the next request
   * succeeds without doing anything while the file system is still there.
   */
  lemma FailedUmountThenFalseSuccess(p: Part, mounts: multiset<string>, a: Answers, b: Answers, lazy: bool, again: bool)
    requires p.mounted && p.mountName in mounts
    ensures var first := Umount(p, mounts, a, lazy);
      first.status.UmountFail? ==>
        var second := Umount(first.part, first.mounts, b, again);
        second.status.Success? && second == Outcome(first.part, mounts, [], Success)
        && p.mountName in second.mounts
  {
  }

  /** A successful request leaves the mount point free exactly if it was reported and mounted once, or free. */
  lemma UmountSuccessMeansGone(p: Part, mounts: multiset<string>, a: Answers, lazy: bool)
    requires Umount(p, mounts, a, lazy).status.Success?
    ensures p.mountName !in Umount(p, mounts, a, lazy).mounts <==> mounts[p.mountName] == if p.mounted then 1 else 0
  {
  }

  // ---------------------------------------------------------------- what a format leaves behind

  /** The partition can be labelled, and checked in every mode. */
  ghost predicate Serviceable(p: Part) {
    && (forall volLabel :: LabelArgv(p.fsType, p.driveName, volLabel) != [])
    && (forall mode :: FsckArgv(mode, p.fsType, p.driveName) != [])
  }

  /**
   * Whatever file system was asked for, a partition that was formatted successfully holds the type
   * its mkfs vector was for, and keeps its label unless a new one was given. On FLASH, HDD and EMMC
   * that type is supported and serviceable. Elsewhere it is never supported, and serviceable
   * exactly if it is not jfs. A format without success changes nothing.
   */
  lemma FormattedPartitionIsServiceable(p: Part, requested: string, volLabel: string, exit: int)
    ensures var (q, verdict) := FormatOutcome(p, requested, volLabel, exit);
      && (verdict.Success? <==> HasMkfs(Resolve(p.storageType, p.fsType, requested)) && exit == 0)
      && (!verdict.Success? ==> q == p)
      && (verdict.Success? ==>
           && q == p.(fsType := Resolve(p.storageType, p.fsType, requested), volumeLabel := q.volumeLabel)
           && q.volumeLabel == (if volLabel == "" then p.volumeLabel else volLabel)
           && FormatArgv(p.driveName, q.fsType, volLabel) != []
           && (IsSupportedFileSystem(q.fsType, TypeString(q.storageType)) <==> Formattable(q.storageType))
           && (Serviceable(q) <==> q.fsType != "jfs")
           && (Formattable(q.storageType) ==> Serviceable(q)))
  {
    var fs := Resolve(p.storageType, p.fsType, requested);
    FormatClosure(p.storageType, p.fsType, requested, p.driveName, volLabel, "", "");
    FormatArgvWrittenOut(p.driveName, fs, volLabel);
    if HasMkfs(fs) {
      forall text: string ensures LabelArgv(fs, p.driveName, text) != [] <==> fs != "jfs" {
        LabelArgvExists(fs, p.driveName, text);
      }
      forall mode: string ensures FsckArgv(mode, fs, p.driveName) != [] {
        CheckProgramExists(mode, fs, p.driveName);
      }
      assert fs == "jfs" ==> LabelArgv(fs, p.driveName, "") == [];
    }
  }

  // ---------------------------------------------------------------- a request touches one partition

  /** Nothing but partitions called name differs, and none is renamed. */
  ghost predicate TouchesOnly(w: World, v: World, name: string) {
    && |v.disk.parts| == |w.disk.parts|
    && forall k :: 0 <= k < |w.disk.parts| ==>
         v.disk.parts[k].driveName == w.disk.parts[k].driveName
         && (w.disk.parts[k].driveName != name ==> v.disk.parts[k] == w.disk.parts[k])
  }

  lemma FormatTouchesOnly(w: World, name: string, requested: string, volLabel: string, a: Answers)
    ensures var (v, status) := Format(w, name, requested, volLabel, a);
      TouchesOnly(w, v, name) && (FindPartition(w.disk.parts, name).None? ==> v == w && status.PartitionNotFound?)
  {
    var found := FindPartition(w.disk.parts, name);
    if found.Some? && !w.disk.readOnly {
      var i := found.value;
      var w1 := With(w, i, Umount(w.disk.parts[i], w.mounts, a, false));
      var run := MkfsRun(w1.disk.parts[i], requested, volLabel);
      var w2 := Tell(w1, [FormatStarted(w1.disk.parts[i].driveName)] + run);
      var (f, verdict) := FormatOutcome(w1.disk.parts[i], requested, volLabel, a.mkfsExit);
      RemountTouchesOnly(w2, i, f, verdict, a);
    }
  }

  lemma RemountTouchesOnly(w: World, i: nat, f: Part, verdict: Status, a: Answers)
    requires i < |w.disk.parts| && f.driveName == w.disk.parts[i].driveName
    ensures var v := Remount(WithPart(w, i, f), i, verdict, a).0;
      && |v.disk.parts| == |w.disk.parts|
      && v.disk.parts[i].driveName == w.disk.parts[i].driveName
      && forall k :: 0 <= k < |w.disk.parts| && k != i ==> v.disk.parts[k] == w.disk.parts[k]
  {
  }

  lemma FsckTouchesOnly(w: World, name: string, a: Answers)
    ensures var (v, status) := FsckDrive(w, name, a);
      TouchesOnly(w, v, name) && (FindPartition(w.disk.parts, name).None? ==> v == w && status.PartitionNotFound?)
  {
    var found := FindPartition(w.disk.parts, name);
    if found.Some? && !w.disk.readOnly {
      var i := found.value;
      var o := Umount(w.disk.parts[i], w.mounts, a, false);
      CallsKeepTheName(w.disk.parts[i], w.mounts, a);
      CallsKeepTheName(o.part, o.mounts, a);
      WithTouchesOnly(w, i, o);
      WithTouchesOnly(With(w, i, o), i, Fsck(o.part, o.mounts, a, AUTO));
    }
  }

  lemma CallsKeepTheName(p: Part, mounts: multiset<string>, a: Answers)
    ensures Umount(p, mounts, a, false).part.driveName == p.driveName
    ensures Fsck(p, mounts, a, AUTO).part.driveName == p.driveName
  {
  }

  lemma WithTouchesOnly(w: World, i: nat, o: Outcome)
    requires i < |w.disk.parts| && o.part.driveName == w.disk.parts[i].driveName
    ensures TouchesOnly(w, With(w, i, o), w.disk.parts[i].driveName)
  {
  }

  lemma LabelTouchesOnly(w: World, name: string, volLabel: string, a: Answers)
    ensures var (v, status) := SetLabel(w, name, volLabel, a);
      TouchesOnly(w, v, name) && (FindPartition(w.disk.parts, name).None? ==> v == w && status.PartitionNotFound?)
  {
  }
}
