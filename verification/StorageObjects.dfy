/** The storage device, its partitions and the calls on them as objects, tied to StorageModel. */
module StorageObjects {
  import opened Base
  import opened CommandTables
  import opened StorageModel

  /** The kernel's side of mount and umount2. */
  class MountTable {
    var mounts: multiset<string>

    method Umount2(name: string, a: Answers) returns (ok: bool)
      modifies this
      ensures ok == (a.umountOk && name in old(mounts))
      ensures mounts == if ok then old(mounts) - multiset{name} else old(mounts)
    {
      ok := a.umountOk && name in mounts;
      if ok {
        mounts := mounts - multiset{name};
      }
    }

    method MountOn(name: string, done: bool)
      modifies this
      ensures mounts == if done then old(mounts) + multiset{name} else old(mounts)
    {
      if done {
        mounts := mounts + multiset{name};
      }
    }
  }

  /** The GLib main context: the live timeouts. */
  class MainContext {
    var sources: set<nat>

    /** g_timeout_add, with the id it hands out. */
    method TimeoutAdd(id: SourceId) returns (r: nat)
      modifies this
      ensures r == id && sources == old(sources) + {id}
    {
      sources := sources + {id};
      r := id;
    }

    method SourceRemove(id: nat)
      modifies this
      ensures sources == old(sources) - {id}
    {
      sources := sources - {id};
    }
  }

  class DiskPartitionInfo {
    var driveName: string
    var mountName: string
    var fsType: string
    var volumeLabel: string
    var storageType: StorageType
    var isSupportedFS: bool
    var isMounted: bool
    var driveStatus: DriveStatus
    var fsckStatus: FsckState

    ghost function View(): Part
      reads this
    {
      Part(driveName, mountName, fsType, volumeLabel, storageType, isSupportedFS, isMounted, driveStatus, fsckStatus)
    }

    constructor ()
      ensures View() == Part("", "", "", "", UsbUndefined, false, false, MountNotOk, FsckNone)
    {
      driveName, mountName, fsType, volumeLabel := "", "", "", "";
      storageType, isSupportedFS, isMounted := UsbUndefined, false, false;
      driveStatus, fsckStatus := MountNotOk, FsckNone;
    }

    method SetPartitionInfo(ev: PartEvent, deviceRootPath: string)
      modifies this
      ensures View() == old(View()).(driveName := ev.name,
        mountName := if ev.name != "" && deviceRootPath != "" then deviceRootPath + "/" + ev.name else old(mountName),
        fsType := if ev.fsType != "" then ev.fsType else old(fsType),
        volumeLabel := if ev.fsLabel != "" then ev.fsLabel else old(volumeLabel))
    {
      driveName := ev.name;
      if driveName != "" && deviceRootPath != "" {
        mountName := deviceRootPath + "/" + driveName;
      }
      if ev.fsType != "" {
        fsType := ev.fsType;
      }
      if ev.fsLabel != "" {
        volumeLabel := ev.fsLabel;
      }
    }

    method SetDriveStatus(status: DriveStatus)
      modifies this
      ensures View() == SetStatus(old(View()), status)
    {
      isMounted := false;
      driveStatus := status;
      if driveStatus == MountOk {
        isMounted := true;
      }
    }

    method SetFsType(fs: string)
      modifies this
      ensures View() == old(View()).(fsType := if fs == "" then old(fsType) else fs)
    {
      if fs == "" {
        return;
      }
      fsType := fs;
    }

    method SetVolumeLabel(volLabel: string)
      modifies this
      ensures View() == old(View()).(volumeLabel := if volLabel == "" then old(volumeLabel) else volLabel)
    {
      if volLabel == "" {
        return;
      }
      volumeLabel := volLabel;
    }
  }

  ghost function Views(list: seq<DiskPartitionInfo>): (r: seq<Part>)
    reads list
    ensures |r| == |list|
    ensures forall i :: 0 <= i < |list| ==> r[i] == list[i].View()
  {
    seq(|list|, i requires 0 <= i < |list| reads list => list[i].View())
  }

  class StorageDevice {
    const kernel: MountTable
    const context: MainContext
    var rootPath: string
    var storageType: StorageType
    var isReadOnly: bool
    var partitionCount: int
    var diskPartitionList: seq<DiskPartitionInfo>
    var fsckThreadCount: int
    var errorReason: Reason
    var deviceStatus: Reason
    var deviceIsMounted: bool
    var hasUnsupportedFs: bool
    var isDevAddEventNotified: bool
    var timeoutId: nat
    var fsckThreadArray: seq<FsckThread>
    ghost var notices: seq<Notice>

    ghost predicate Valid()
      reads this
    {
      Distinct(diskPartitionList)
    }

    ghost function Abs(): World
      reads this, kernel, context, diskPartitionList
    {
      World(Disk(rootPath, storageType, isReadOnly, partitionCount, Views(diskPartitionList), fsckThreadCount,
                 errorReason, deviceStatus, deviceIsMounted, hasUnsupportedFs, isDevAddEventNotified,
                 timeoutId, fsckThreadArray),
            kernel.mounts, notices, context.sources)
    }

    constructor (rootPath: string, kernel: MountTable, context: MainContext)
      ensures Valid() && diskPartitionList == [] && this.kernel == kernel && this.context == context
      ensures Abs() == World(NewDisk(rootPath), kernel.mounts, [], context.sources)
    {
      this.kernel, this.context := kernel, context;
      timeoutId, fsckThreadArray := 0, [];
      this.rootPath, storageType, isReadOnly, partitionCount := rootPath, UsbUndefined, false, 0;
      diskPartitionList, fsckThreadCount, errorReason, deviceStatus := [], 0, NoMounted, Nothing;
      deviceIsMounted, hasUnsupportedFs, isDevAddEventNotified, notices := false, false, false, [];
    }

    /** PdmUtils::runCommand; what the process exits with is an input where it matters. */
    method RunCommand(argv: seq<string>)
      modifies this`notices
      ensures notices == old(notices) + [Ran(argv)]
    {
      Notify(Ran(argv));
    }

    ghost method Notify(n: Notice)
      modifies this`notices
      ensures notices == old(notices) + [n]
    {
      notices := notices + [n];
    }

    method FindPartitionInList(driveName: string) returns (partition: DiskPartitionInfo?, at: nat)
      ensures FindPartition(Views(diskPartitionList), driveName) == if partition == null then None else Some(at)
      ensures partition != null ==> at < |diskPartitionList| && partition == diskPartitionList[at]
    {
      at := 0;
      if driveName == "" {
        return null, 0;
      }
      for i := 0 to |diskPartitionList|
        invariant forall k :: 0 <= k < i ==> diskPartitionList[k].driveName != driveName
      {
        if driveName == diskPartitionList[i].driveName {
          assert Views(diskPartitionList)[i].driveName == driveName;
          return diskPartitionList[i], i;
        }
      }
      partition := null;
    }

    /** A call on the i-th partition, seen from the whole device; w is the world before it. */
    lemma DidAt(w: World, i: nat, o: Outcome)
      requires i < |w.disk.parts| == |diskPartitionList|
      requires Abs().disk == w.disk.(parts := Views(diskPartitionList))
      requires forall k :: 0 <= k < |diskPartitionList| && k != i ==> diskPartitionList[k].View() == w.disk.parts[k]
      requires diskPartitionList[i].View() == o.part && kernel.mounts == o.mounts && notices == w.notices + o.notices
      requires context.sources == w.sources
      ensures Abs() == With(w, i, o)
    {
      assert Views(diskPartitionList) == w.disk.parts[i := o.part];
    }

    method UmountPartition(partition: DiskPartitionInfo, a: Answers, lazyUnmount: bool)
      returns (status: Status)
      modifies this`notices, kernel, partition
      ensures var o := Umount(old(partition.View()), old(kernel.mounts), a, lazyUnmount);
        && partition.View() == o.part && kernel.mounts == o.mounts && notices == old(notices) + o.notices
        && status == o.status
    {
      status := Success;
      if partition.isMounted {
        if !lazyUnmount && a.busy {
          status := Busy;
        } else {
          status := UmountNow(partition, a);
        }
      }
    }

    /** The part of umountPartition under the partition's lock. */
    method UmountNow(partition: DiskPartitionInfo, a: Answers) returns (status: Status)
      modifies this`notices, kernel, partition
      ensures var works := UmountWorks(old(partition.View()), old(kernel.mounts), a);
        && status == (if works then Success else UmountFail)
        && partition.View() == SetStatus(old(partition.View()), if works then UmountOk else UmountNotOk)
        && kernel.mounts == (if works then old(kernel.mounts) - multiset{partition.mountName} else old(kernel.mounts))
        && notices == old(notices) + [UmountEvent, if works then UmountEvent else MountEvent]
    {
      partition.SetDriveStatus(IsUnmounting);
      Notify(UmountEvent);
      var done := kernel.Umount2(partition.mountName, a);
      status := RecordUmount(partition, done);
    }

    method RecordUmount(partition: DiskPartitionInfo, done: bool) returns (status: Status)
      modifies this`notices, partition
      ensures partition.View() == SetStatus(old(partition.View()), if done then UmountOk else UmountNotOk)
      ensures notices == old(notices) + [if done then UmountEvent else MountEvent]
      ensures status == if done then Success else UmountFail
    {
      if done {
        partition.SetDriveStatus(UmountOk);
        Notify(UmountEvent);
        status := Success;
      } else {
        partition.SetDriveStatus(UmountNotOk);
        Notify(MountEvent);
        status := UmountFail;
      }
    }

    /** PdmFs::mountPartition: the directory must exist; a refused mount is retried read-only. */
    method FsMount(partition: DiskPartitionInfo, a: Answers) returns (ok: bool)
      modifies kernel
      ensures ok == MountWorks(partition.View(), a)
      ensures kernel.mounts == if ok then old(kernel.mounts) + multiset{partition.mountName} else old(kernel.mounts)
    {
      if !(partition.mountName != "" && a.isDirectory) {
        return false;
      }
      ok := a.mountTry.Mounted?;
      if !ok && a.mountTry.Denied? {
        ok := a.retryOk;
      }
      kernel.MountOn(partition.mountName, ok);
    }

    method MountPartition(partition: DiskPartitionInfo, a: Answers) returns (status: Status)
      modifies this`notices, kernel, partition
      ensures var o := Mount(old(partition.View()), old(kernel.mounts), a);
        && partition.View() == o.part && kernel.mounts == o.mounts && notices == old(notices) + o.notices
        && status == o.status
    {
      status := Success;
      partition.SetDriveStatus(IsMounting);
      Notify(MountEvent);
      var ok := FsMount(partition, a);
      if ok {
        partition.SetDriveStatus(MountOk);
        Notify(MountEvent);
      } else {
        partition.SetDriveStatus(MountNotOk);
        status := UmountFail;
        Notify(UmountEvent);
      }
    }

    /** PdmFs::fsck with the exit code of the check program. */
    method FsFsck(partition: DiskPartitionInfo, mode: string, exit: int) returns (status: Status)
      modifies this`notices, partition
      ensures partition.View() == Checked(old(partition.View()), exit)
      ensures status == FsckVerdict(old(partition.View()), exit)
      ensures notices == old(notices) + CheckRun(old(partition.View()), mode)
    {
      partition.fsckStatus := FsckStarted;
      status := RunCheck(mode, partition.fsType, partition.driveName, exit);
      partition.fsckStatus := FsckResult(status);
      if status == FsckTimeout {
        partition.SetDriveStatus(NeedFsck);
      }
    }

    /** PdmFsck::fsck. */
    method RunCheck(mode: string, fsType: string, driveName: string, exit: int) returns (status: Status)
      modifies this`notices
      ensures status ==
        if !HasFsck(fsType) || exit == 1 || exit == 2 then FsckFail else if exit == 124 then FsckTimeout else Success
      ensures notices ==
        old(notices) + if HasFsck(fsType) then [Ran(FsckArgv(mode, fsType, driveName))] else []
    {
      var argv := FsckCommand(mode, fsType, driveName);
      CheckProgramExists(mode, fsType, driveName);
      if argv == [] {
        return FsckFail;
      }
      RunCommand(argv);
      if exit == 1 || exit == 2 {
        status := FsckFail;
      } else if exit == 124 {
        status := FsckTimeout;
      } else {
        status := Success;
      }
    }

    method FsckPartition(partition: DiskPartitionInfo, a: Answers, mode: string) returns (status: Status)
      modifies this`notices, kernel, partition
      ensures var o := StorageModel.Fsck(old(partition.View()), old(kernel.mounts), a, mode);
        && partition.View() == o.part && kernel.mounts == o.mounts && notices == old(notices) + o.notices
        && status == o.status
    {
      Notify(FsckStartedEvent);
      status := FsFsck(partition, mode, a.fsckExit);
      ghost var inner := MountIfPassed(partition.View(), kernel.mounts, a, status).notices;
      status := MountChecked(partition, status, a);
      Notify(FsckFinishedEvent);
      InTurn(old(notices), [FsckStartedEvent], CheckRun(old(partition.View()), mode), inner, [FsckFinishedEvent]);
    }

    lemma InTurn(said: seq<Notice>, a: seq<Notice>, b: seq<Notice>, c: seq<Notice>, d: seq<Notice>)
      ensures said + a + b + c + d == said + (a + b + c + d)
    {
    }

    /** Mount if the check passed. */
    method MountChecked(partition: DiskPartitionInfo, verdict: Status, a: Answers) returns (status: Status)
      modifies this`notices, kernel, partition
      ensures var o := MountIfPassed(old(partition.View()), old(kernel.mounts), a, verdict);
        && partition.View() == o.part && kernel.mounts == o.mounts && notices == old(notices) + o.notices
        && status == o.status
    {
      status := verdict;
      if status == Success {
        status := MountPartition(partition, a);
      }
    }

    method UmountAt(i: nat, a: Answers, lazyUnmount: bool) returns (status: Status)
      requires Valid() && i < |diskPartitionList|
      modifies this`notices, kernel, diskPartitionList[i]
      ensures var o := Umount(old(Abs()).disk.parts[i], old(kernel.mounts), a, lazyUnmount);
        Abs() == With(old(Abs()), i, o) && status == o.status
    {
      status := UmountPartition(diskPartitionList[i], a, lazyUnmount);
      DidAt(old(Abs()), i, Umount(old(Abs()).disk.parts[i], old(kernel.mounts), a, lazyUnmount));
    }

    method MountAt(i: nat, a: Answers) returns (status: Status)
      requires Valid() && i < |diskPartitionList|
      modifies this`notices, kernel, diskPartitionList[i]
      ensures var o := Mount(old(Abs()).disk.parts[i], old(kernel.mounts), a);
        Abs() == With(old(Abs()), i, o) && status == o.status
    {
      status := MountPartition(diskPartitionList[i], a);
      DidAt(old(Abs()), i, Mount(old(Abs()).disk.parts[i], old(kernel.mounts), a));
    }

    method FsckAt(i: nat, a: Answers, mode: string) returns (status: Status)
      requires Valid() && i < |diskPartitionList|
      modifies this`notices, kernel, diskPartitionList[i]
      ensures var o := StorageModel.Fsck(old(Abs()).disk.parts[i], old(kernel.mounts), a, mode);
        Abs() == With(old(Abs()), i, o) && status == o.status
    {
      status := FsckPartition(diskPartitionList[i], a, mode);
      DidAt(old(Abs()), i, StorageModel.Fsck(old(Abs()).disk.parts[i], old(kernel.mounts), a, mode));
    }

    method UmountAllPartition(env: nat -> Answers, lazyUnmount: bool) returns (result: Status)
      requires Valid()
      modifies this`notices, kernel, diskPartitionList
      ensures (Abs(), result) == UmountAll(old(Abs()), env, lazyUnmount)
    {
      ghost var w := Abs();
      result := Success;
      for i := 0 to |diskPartitionList|
        invariant UmountFrom(Abs(), i, env, lazyUnmount, result) == UmountAll(w, env, lazyUnmount)
      {
        var status := UmountAt(i, env(i), lazyUnmount);
        if status != Success {
          result := UmountAllFail;
        }
      }
    }

    method MountAllPartition(env: nat -> Answers) returns (result: Status)
      requires Valid()
      modifies this`notices, kernel, diskPartitionList
      ensures (Abs(), result) == MountAll(old(Abs()), env)
    {
      ghost var w := Abs();
      result := Success;
      for i := 0 to |diskPartitionList|
        invariant MountFrom(Abs(), i, env, result) == MountAll(w, env)
      {
        if diskPartitionList[i].isSupportedFS {
          var status := MountAt(i, env(i));
          if status != Success {
            result := MountAllFail;
          }
        }
      }
    }

    method Eject(env: nat -> Answers) returns (status: Status)
      requires Valid()
      modifies this`notices, this`errorReason, this`deviceStatus, kernel, diskPartitionList
      ensures (Abs(), status) == StorageModel.Eject(old(Abs()), env)
    {
      status := UmountAllPartition(env, false);
      if status == Success {
        deviceStatus := Ejected;
        errorReason := deviceStatus;
        return Success;
      }
      status := EjectFail;
    }

    method EnforceFsckAndMount(env: nat -> Answers, needFsck: bool) returns (result: Status)
      requires Valid()
      modifies this`notices, this`errorReason, this`deviceIsMounted, kernel, diskPartitionList
      ensures (Abs(), result) == Enforce(old(Abs()), env, needFsck)
    {
      result := EnforceLoop(env, needFsck);
      if result == Success {
        errorReason := Nothing;
        deviceIsMounted := true;
      }
    }

    method EnforceLoop(env: nat -> Answers, needFsck: bool) returns (result: Status)
      requires Valid()
      modifies this`notices, kernel, diskPartitionList
      ensures (Abs(), result) == EnforceFrom(old(Abs()), 0, env, needFsck, Success)
    {
      ghost var w := Abs();
      result := Success;
      for i := 0 to |diskPartitionList|
        invariant EnforceFrom(Abs(), i, env, needFsck, result) == EnforceFrom(w, 0, env, needFsck, Success)
      {
        result := EnforceAt(i, env, needFsck, result);
      }
    }

    /** One round of the loop, from verdict result to verdict next. */
    method EnforceAt(i: nat, env: nat -> Answers, needFsck: bool, result: Status) returns (next: Status)
      requires Valid() && i < |diskPartitionList|
      modifies this`notices, kernel, diskPartitionList[i]
      ensures EnforceFrom(Abs(), i + 1, env, needFsck, next) == EnforceFrom(old(Abs()), i, env, needFsck, result)
    {
      next := result;
      var partition := diskPartitionList[i];
      if !needFsck && !partition.isMounted {
        var status := MountAt(i, env(i));
        if status != Success {
          next := Error;
        }
      } else if partition.fsckStatus == FsckResult(FsckTimeout) {
        var status := FsckAt(i, env(i), FORCE);
        if status != Success {
          next := Error;
        }
      }
    }

    /** DiskFormat::formatDrive behind PdmFs::format. */
    method FsFormat(partition: DiskPartitionInfo, requested: string, volLabel: string, exit: int)
      returns (status: Status)
      modifies this`notices, partition
      ensures (partition.View(), status) == FormatOutcome(old(partition.View()), requested, volLabel, exit)
      ensures notices == old(notices) + MkfsRun(old(partition.View()), requested, volLabel)
    {
      var fs := requested;
      if !IsSupportedFileSystem(fs, TypeString(partition.storageType)) {
        fs := DefaultFs(TypeString(partition.storageType), partition.fsType);
      }
      var argv := FormatCommand(partition.driveName, fs, volLabel);
      FormatArgvWrittenOut(partition.driveName, fs, volLabel);
      if argv == [] {
        return UnsupportedFs;
      }
      RunCommand(argv);
      if exit != 0 {
        return FormatFail;
      }
      partition.SetFsType(fs);
      partition.SetVolumeLabel(volLabel);
      status := Success;
    }

    method FormatDiskStart(driveName: string, requested: string, volLabel: string, a: Answers) returns (status: Status)
      requires Valid()
      modifies this`notices, this`errorReason, kernel, diskPartitionList
      ensures (Abs(), status) == Format(old(Abs()), driveName, requested, volLabel, a)
    {
      var partition, at := FindPartitionInList(driveName);
      if partition == null {
        return PartitionNotFound;
      }
      if isReadOnly {
        return FormatFail;
      }
      status := UmountAt(at, a, false);
      if status != Success {
        return UmountFail;
      }
      status := MakeFsAt(at, requested, volLabel, a);
    }

    method MakeFsAt(at: nat, requested: string, volLabel: string, a: Answers) returns (status: Status)
      requires Valid() && at < |diskPartitionList|
      modifies this`notices, this`errorReason, kernel, diskPartitionList[at]
      ensures (Abs(), status) == MakeFs(old(Abs()), at, requested, volLabel, a)
    {
      ghost var w := Abs();
      ghost var run := MkfsRun(w.disk.parts[at], requested, volLabel);
      NotifyStarted(at);
      status := FormatAt(at, requested, volLabel, a.mkfsExit);
      assert w.notices + [FormatStarted(w.disk.parts[at].driveName)] + run
          == w.notices + ([FormatStarted(w.disk.parts[at].driveName)] + run);
      status := RemountAt(at, status, a);
    }

    method NotifyStarted(at: nat)
      requires at < |diskPartitionList|
      modifies this`notices
      ensures Abs() == Tell(old(Abs()), [FormatStarted(old(Abs()).disk.parts[at].driveName)])
    {
      Notify(FormatStarted(diskPartitionList[at].driveName));
      assert Views(diskPartitionList) == old(Views(diskPartitionList));
    }

    method FormatAt(at: nat, requested: string, volLabel: string, exit: int) returns (status: Status)
      requires Valid() && at < |diskPartitionList|
      modifies this`notices, diskPartitionList[at]
      ensures var w := old(Abs()); var p := w.disk.parts[at];
        var (f, verdict) := FormatOutcome(p, requested, volLabel, exit);
        Abs() == WithPart(Tell(w, MkfsRun(p, requested, volLabel)), at, f) && status == verdict
    {
      ghost var w := Abs();
      status := FsFormat(diskPartitionList[at], requested, volLabel, exit);
      assert Abs().disk.parts == w.disk.parts[at := diskPartitionList[at].View()];
    }

    /** The end of formatDiskStart. */
    method RemountAt(at: nat, verdict: Status, a: Answers) returns (status: Status)
      requires Valid() && at < |diskPartitionList|
      modifies this`notices, this`errorReason, kernel, diskPartitionList[at]
      ensures (Abs(), status) == Remount(old(Abs()), at, verdict, a)
    {
      var drive := diskPartitionList[at].driveName;
      if verdict == Success {
        status := MountAt(at, a);
        if status == Success {
          ReportFormat(drive, true);
          return;
        }
      }
      ReportFormat(drive, false);
      status := FormatFail;
    }

    method ReportFormat(drive: string, ok: bool)
      modifies this`notices, this`errorReason
      ensures var w := old(Abs());
        Abs() == if ok then Tell(w.(disk := w.disk.(errorReason := Nothing)), [FormatSuccess(drive)])
                 else Tell(w, [FormatFailed(drive)])
    {
      if ok {
        errorReason := Nothing;
        Notify(FormatSuccess(drive));
      } else {
        Notify(FormatFailed(drive));
      }
      assert Views(diskPartitionList) == old(Views(diskPartitionList));
    }

    method FsckOnDrive(driveName: string, a: Answers) returns (status: Status)
      requires Valid()
      modifies this`notices, kernel, diskPartitionList
      ensures (Abs(), status) == FsckDrive(old(Abs()), driveName, a)
    {
      var partition, at := FindPartitionInList(driveName);
      if partition == null {
        return PartitionNotFound;
      }
      if isReadOnly {
        return FsckFail;
      }
      status := UmountAt(at, a, false);
      if status != Success {
        return UmountFail;
      }
      status := FsckAt(at, a, AUTO);
      if status != Success {
        status := FsckFail;
      }
    }

    method SetPartitionVolumeLabel(driveName: string, volLabel: string, a: Answers) returns (status: Status)
      requires Valid()
      modifies this`notices, diskPartitionList
      ensures (Abs(), status) == SetLabel(old(Abs()), driveName, volLabel, a)
    {
      var partition, at := FindPartitionInList(driveName);
      if partition == null {
        return PartitionNotFound;
      }
      if volLabel == "" {
        return VolumeLabelEmpty;
      }
      var argv := LabelArgv(partition.fsType, partition.driveName, volLabel);
      if argv == [] {
        return UnsupportedFs;
      }
      ghost var w := Abs();
      RunCommand(argv);
      assert Abs() == Tell(w, [Ran(argv)]);
      if a.labelExit != 0 {
        return SetVolumeLabelFail;
      }
      LabelAt(at, volLabel);
      status := Success;
    }

    method LabelAt(at: nat, volLabel: string)
      requires Valid() && at < |diskPartitionList| && volLabel != ""
      modifies diskPartitionList[at]
      ensures Abs() == WithPart(old(Abs()), at, old(Abs()).disk.parts[at].(volumeLabel := volLabel))
    {
      ghost var w := Abs();
      diskPartitionList[at].SetVolumeLabel(volLabel);
      assert Abs().disk.parts == w.disk.parts[at := diskPartitionList[at].View()];
    }

    method DeletePartitionData(env: nat -> Answers)
      requires Valid()
      modifies this, kernel, diskPartitionList
      ensures Valid() && Abs() == DeleteParts(old(Abs()), env)
    {
      var _ := UmountAllPartition(env, true);
      diskPartitionList := [];
      partitionCount := 0;
    }

    /** onDeviceRemove: a thread that is joined first does what it has left to do. */
    method OnDeviceRemove(joins: nat -> Answers, env: nat -> Answers)
      requires Valid()
      modifies this, kernel, context, diskPartitionList
      ensures Valid() && Abs() == StorageModel.OnDeviceRemove(old(Abs()), joins, env)
    {
      JoinThreads(joins);
      ClearThreads();
      DeletePartitionData(env);
      RemoveRootDir();
      CheckRemovalNotifications();
    }

    method JoinThreads(joins: nat -> Answers)
      requires Valid()
      modifies this, kernel, context, diskPartitionList
      ensures Valid() && diskPartitionList == old(diskPartitionList) && Abs() == JoinFrom(old(Abs()), 0, joins)
    {
      ghost var w := Abs();
      var n := |fsckThreadArray|;
      for k := 0 to n
        invariant Valid() && diskPartitionList == old(diskPartitionList) && |fsckThreadArray| == n
        invariant JoinFrom(Abs(), k, joins) == JoinFrom(w, 0, joins)
      {
        FsckOnDeviceAddThread(k, joins(k));
      }
    }

    method ClearThreads()
      modifies this`fsckThreadArray, this`fsckThreadCount
      ensures Abs() == old(Abs()).(disk := old(Abs()).disk.(fsckThreads := [], fsckThreadCount := 0))
    {
      fsckThreadArray := [];
      fsckThreadCount := 0;
      assert Views(diskPartitionList) == old(Views(diskPartitionList));
    }

    /** The destructor. */
    method Destroy(env: nat -> Answers)
      requires Valid()
      modifies this, kernel, context, diskPartitionList
      ensures Valid() && Abs() == Destroyed(old(Abs()), env)
    {
      CancelConnectingTimeout();
      DeletePartitionData(env);
    }

    method CancelConnectingTimeout()
      modifies this`timeoutId, context
      ensures Abs() == Cancel(old(Abs()))
    {
      if timeoutId != 0 {
        context.SourceRemove(timeoutId);
        timeoutId := 0;
      }
      assert Views(diskPartitionList) == old(Views(diskPartitionList));
    }

    /** notifyStorageConnecting; the main loop runs it while its source is live, and then drops the source. */
    method NotifyStorageConnecting()
      requires timeoutId in context.sources
      modifies this`timeoutId, this`notices, context
      ensures Abs() == TimerFires(old(Abs()))
    {
      context.SourceRemove(timeoutId);
      timeoutId := 0;
      Notify(Connecting);
      assert Views(diskPartitionList) == old(Views(diskPartitionList));
    }

    /** removeRootDir, as far as the device's own state goes. */
    method RemoveRootDir()
      modifies this`rootPath
      ensures Abs() == old(Abs()).(disk := old(Abs()).disk.(rootPath := ""))
    {
      if rootPath != "" {
        rootPath := "";
      }
      assert Views(diskPartitionList) == old(Views(diskPartitionList));
    }

    method CheckRemovalNotifications()
      modifies this`notices
      ensures Abs() == CheckRemoval(old(Abs()))
    {
      if !isDevAddEventNotified {
        Notify(RemoveBeforeMount);
      } else if hasUnsupportedFs {
        Notify(RemoveUnsupportedFs);
      }
      assert Views(diskPartitionList) == old(Views(diskPartitionList));
    }

    method SomeTimedOut() returns (r: bool)
      ensures r == AnyTimedOut(Views(diskPartitionList))
    {
      for i := 0 to |diskPartitionList|
        invariant forall k :: 0 <= k < i ==> diskPartitionList[k].fsckStatus != FsckResult(FsckTimeout)
      {
        if diskPartitionList[i].fsckStatus == FsckResult(FsckTimeout) {
          assert Views(diskPartitionList)[i].fsckStatus == FsckResult(FsckTimeout);
          return true;
        }
      }
      r := false;
    }

    method SomeMounted() returns (r: bool)
      ensures r == AnyMounted(Views(diskPartitionList))
    {
      for i := 0 to |diskPartitionList|
        invariant forall k :: 0 <= k < i ==> !diskPartitionList[k].isMounted
      {
        if diskPartitionList[i].isMounted {
          assert Views(diskPartitionList)[i].mounted;
          return true;
        }
      }
      r := false;
    }

    method SomeSupported() returns (r: bool)
      ensures r == AnySupported(Views(diskPartitionList))
    {
      for i := 0 to |diskPartitionList|
        invariant forall k :: 0 <= k < i ==> !diskPartitionList[k].isSupportedFS
      {
        if diskPartitionList[i].isSupportedFS {
          assert Views(diskPartitionList)[i].supportedFs;
          return true;
        }
      }
      r := false;
    }

    method StorageDeviceNotification()
      requires Valid()
      modifies this
      ensures Valid() && Abs() == Notification(old(Abs()))
      ensures diskPartitionList == old(diskPartitionList) && fsckThreadArray == old(fsckThreadArray)
    {
      ghost var w := Abs();
      var timedOut := SomeTimedOut();
      var mounted := SomeMounted();
      if timedOut {
        errorReason := NeedsFsck;
        Notify(FsckTimedOut);
        Notify(Add);
        isDevAddEventNotified := true;
        assert notices == w.notices + [FsckTimedOut, Add];
      } else if mounted {
        errorReason := Nothing;
        deviceIsMounted := true;
        Notify(Add);
        isDevAddEventNotified := true;
      }
      assert Views(diskPartitionList) == w.disk.parts;
    }

    method StorageDeviceFsckNotification()
      requires Valid()
      modifies this, context
      ensures Valid() && Abs() == CountDown(old(Abs()))
      ensures diskPartitionList == old(diskPartitionList) && fsckThreadArray == old(fsckThreadArray)
    {
      fsckThreadCount := fsckThreadCount - 1;
      assert Views(diskPartitionList) == old(Views(diskPartitionList));
      if fsckThreadCount == 0 {
        StorageDeviceNotification();
        CancelConnectingTimeout();
      }
    }

    /** What checking thread k still has to do; both halves, or the second one if the first is behind it. */
    method FsckOnDeviceAddThread(k: nat, a: Answers)
      requires Valid() && k < |fsckThreadArray|
      modifies this, kernel, context, diskPartitionList
      ensures Valid() && diskPartitionList == old(diskPartitionList) && |fsckThreadArray| == |old(fsckThreadArray)|
      ensures Abs() == ThreadRuns(old(Abs()), k, a)
    {
      ThreadCheck(k, a);
      ThreadCount(k);
    }

    method ThreadCheck(k: nat, a: Answers)
      requires Valid() && k < |fsckThreadArray|
      modifies this, kernel, diskPartitionList
      ensures Valid() && diskPartitionList == old(diskPartitionList) && |fsckThreadArray| == |old(fsckThreadArray)|
      ensures Abs() == ThreadChecks(old(Abs()), k, a)
    {
      var t := fsckThreadArray[k];
      if t.progress == ToCheck && t.at < |diskPartitionList| {
        var _ := FsckAt(t.at, a, AUTO);
        SetProgress(k, ToCount);
      }
    }

    method ThreadCount(k: nat)
      requires Valid() && k < |fsckThreadArray|
      modifies this, context
      ensures Valid() && diskPartitionList == old(diskPartitionList) && |fsckThreadArray| == |old(fsckThreadArray)|
      ensures Abs() == ThreadCounts(old(Abs()), k)
    {
      if fsckThreadArray[k].progress == ToCount {
        StorageDeviceFsckNotification();
        SetProgress(k, Done);
      }
    }

    method SetProgress(k: nat, progress: Progress)
      requires k < |fsckThreadArray|
      modifies this`fsckThreadArray
      ensures |fsckThreadArray| == |old(fsckThreadArray)| && Abs() == ThreadAt(old(Abs()), k, progress)
    {
      fsckThreadArray := fsckThreadArray[k := fsckThreadArray[k].(progress := progress)];
      assert Views(diskPartitionList) == old(Views(diskPartitionList));
    }

    /** checkFileSystem after the partition object has been filled. */
    method NewPartition(ev: PartEvent) returns (partition: DiskPartitionInfo)
      ensures fresh(partition) && partition.View() == NewPart(Abs().disk, ev)
    {
      partition := new DiskPartitionInfo();
      partition.storageType := storageType;
      partition.SetPartitionInfo(ev, rootPath);
      partition.isSupportedFS := IsSupportedFileSystem(partition.fsType, TypeString(storageType));
    }

    /** The loop that starts a checking thread for each supported partition, in order, and counts it. */
    method SpawnFsckThreads()
      requires Valid()
      modifies this`fsckThreadCount, this`fsckThreadArray
      ensures Abs() == Spawn(old(Abs()), SupportedFrom(old(Abs()).disk.parts, 0))
    {
      ghost var w := Abs();
      ghost var positions: seq<nat> := [];
      SpawnNone(w);
      for i := 0 to |diskPartitionList|
        invariant positions + SupportedFrom(w.disk.parts, i) == SupportedFrom(w.disk.parts, 0)
        invariant Abs() == Spawn(w, positions)
      {
        SupportedOneMore(positions, w.disk.parts, i);
        if diskPartitionList[i].isSupportedFS {
          StartThread(i);
          SpawnOneMore(w, positions, i);
          positions := positions + [i];
        }
      }
    }

    /** Start a thread for the partition at position i, store its handle and count it. */
    method StartThread(i: nat)
      modifies this`fsckThreadCount, this`fsckThreadArray
      ensures Abs() == Spawn(old(Abs()), [i])
    {
      ghost var w := Abs();
      fsckThreadArray := fsckThreadArray + [FsckThread(i, ToCheck)];
      fsckThreadCount := fsckThreadCount + 1;
      assert Views(diskPartitionList) == w.disk.parts && Spawned([i]) == [FsckThread(i, ToCheck)];
    }

    lemma SupportedOneMore(positions: seq<nat>, parts: seq<Part>, i: nat)
      requires i < |parts|
      ensures positions + SupportedFrom(parts, i)
           == (if parts[i].supportedFs then positions + [i] else positions) + SupportedFrom(parts, i + 1)
    {
    }

    lemma SpawnNone(w: World)
      ensures Spawn(w, []) == w
    {
      assert w.disk.fsckThreads + Spawned([]) == w.disk.fsckThreads;
    }

    lemma SpawnOneMore(w: World, positions: seq<nat>, i: nat)
      ensures Spawn(Spawn(w, positions), [i]) == Spawn(w, positions + [i])
    {
      assert Spawned(positions + [i]) == Spawned(positions) + Spawned([i]);
      assert (w.disk.fsckThreads + Spawned(positions)) + Spawned([i])
          == w.disk.fsckThreads + (Spawned(positions) + Spawned([i]));
    }

    method SetPartitionInfo(ev: PartEvent, env: nat -> Answers) returns (batch: Batch)
      requires Valid()
      modifies this, kernel, context, diskPartitionList
      ensures Valid() && (Abs(), batch) == Arrive(old(Abs()), ev, env)
    {
      var existing, at := FindPartitionInList(ev.name);
      if existing != null {
        return NoBatch;
      }
      ghost var w := Abs();
      var partition := NewPartition(ev);
      diskPartitionList := diskPartitionList + [partition];
      ghost var d := Abs().disk;
      assert d == w.disk.(parts := d.parts) && d.parts == w.disk.parts + [NewPart(w.disk, ev)];
      batch := StartBatch(env);
    }

    /** The second half of setPartitionInfo, after the new partition was appended. */
    method StartBatch(env: nat -> Answers) returns (batch: Batch)
      requires Valid()
      modifies this, kernel, context, diskPartitionList
      ensures Valid() && (Abs(), batch) == Begin(old(Abs()), env)
    {
      if !(partitionCount == 0 || |diskPartitionList| == partitionCount) {
        return NoBatch;
      }
      var supported := SomeSupported();
      if !supported {
        TellUnsupported();
        batch := UnsupportedNotice;
      } else if isReadOnly {
        var _ := MountAllPartition(env);
        StorageDeviceNotification();
        batch := DirectMount;
      } else {
        batch := StartChecking(env(0).sourceId);
      }
    }

    /** The branch of setPartitionInfo that starts the checking threads and arms the timeout. */
    method StartChecking(id: SourceId) returns (batch: Batch)
      requires Valid()
      modifies this, context
      ensures Valid() && Abs() == Arm(Spawn(old(Abs()), SupportedFrom(old(Abs()).disk.parts, 0)), id)
      ensures batch == FsckThreads(|SupportedFrom(old(Abs()).disk.parts, 0)|)
    {
      var before := |fsckThreadArray|;
      SpawnFsckThreads();
      batch := FsckThreads(|fsckThreadArray| - before);
      ArmConnectingTimeout(id);
    }

    method ArmConnectingTimeout(id: SourceId)
      modifies this`timeoutId, context
      ensures Abs() == Arm(old(Abs()), id)
    {
      CancelConnectingTimeout();
      timeoutId := context.TimeoutAdd(id);
      assert Views(diskPartitionList) == old(Views(diskPartitionList));
    }

    /** The branch of setPartitionInfo for a disk without a supported file system. */
    method TellUnsupported()
      requires Valid()
      modifies this
      ensures Valid() && diskPartitionList == old(diskPartitionList)
      ensures Abs() == Tell(old(Abs()), [Add, UnsupportedFsFormatNeeded]).(disk :=
        old(Abs()).disk.(errorReason := UnsupportFs, hasUnsupportedFs := true, devAddNotified := true))
    {
      ghost var w := Abs();
      errorReason := UnsupportFs;
      hasUnsupportedFs := true;
      Notify(Add);
      isDevAddEventNotified := true;
      Notify(UnsupportedFsFormatNeeded);
      assert notices == w.notices + [Add, UnsupportedFsFormatNeeded];
      assert Views(diskPartitionList) == w.disk.parts;
    }
  }
}
