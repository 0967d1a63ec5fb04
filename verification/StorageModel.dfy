/**
 * A storage device and its partitions as values: what mount, unmount, check, format, eject and
 * partition arrival do to the reported status, to the kernel's mount table and to observers.
 * Answers of the system (mount, umount2, lsof, mkfs, fsck) are inputs.
 */
module StorageModel {
  import opened Base
  import opened CommandTables

  datatype Status =
    | Success | MountAllFail | UmountFail | UmountAllFail | EjectFail | FormatFail | FsckFail | FsckTimeout
    | SetVolumeLabelFail | VolumeLabelEmpty | UnsupportedFs | Busy | PartitionNotFound | DeviceNotFound
    | DriveNotFound | Error

  datatype FsckState = FsckNone | FsckStarted | FsckResult(status: Status)

  datatype DriveStatus = MountOk | MountNotOk | IsMounting | IsUnmounting | UmountOk | UmountNotOk | NeedFsck

  datatype Reason = Nothing | NoMounted | UnsupportFs | Ejected | NeedsFsck | Usb30BlackDevice

  /** The modes of a check. */
  const AUTO := "auto"
  const FORCE := "force"

  /** Events handed to the observers, those that carry an object name it; and the commands run in between. */
  datatype Notice =
    | MountEvent | UmountEvent | FsckStartedEvent | FsckFinishedEvent
    | FormatStarted(drive: string) | FormatSuccess(drive: string) | FormatFailed(drive: string)
    | FsckTimedOut | Add | UnsupportedFsFormatNeeded
    | RemoveBeforeMount | RemoveUnsupportedFs | Remove | MaxCountReached | UnmountAll | Connecting
    | CardGone
    | Ran(argv: seq<string>)

  datatype Part = Part(
    driveName: string, mountName: string, fsType: string, volumeLabel: string, storageType: StorageType,
    supportedFs: bool, mounted: bool, driveStatus: DriveStatus, fsckStatus: FsckState)

  /** First mount attempt: done, refused with EACCES or EROFS, or failed otherwise. */
  datatype MountTry = Mounted | Denied | Failed

  /** Ids of GLib sources are never zero. */
  type SourceId = n: nat | n > 0 witness 1

  /** What the system answers while one partition is worked on; sourceId is what g_timeout_add hands out. */
  datatype Answers = Answers(
    busy: bool, umountOk: bool, isDirectory: bool, mountTry: MountTry, retryOk: bool,
    mkfsExit: int, fsckExit: int, labelExit: int, sourceId: SourceId)

  /** A checking thread: still to check, checked and still to count down, or ended. */
  datatype Progress = ToCheck | ToCount | Done

  /** at is the position of its partition. */
  datatype FsckThread = FsckThread(at: nat, progress: Progress)

  datatype Disk = Disk(
    rootPath: string, storageType: StorageType, readOnly: bool, partitionCount: int,
    parts: seq<Part>, fsckThreadCount: int, errorReason: Reason, deviceStatus: Reason,
    deviceIsMounted: bool, hasUnsupportedFs: bool, devAddNotified: bool,
    timeoutId: nat, fsckThreads: seq<FsckThread>)

  /**
   * mounts: the kernel's table, one entry per mount on a mount point; sources: the ids of the
   * live GLib timeouts.
   */
  datatype World = World(disk: Disk, mounts: multiset<string>, notices: seq<Notice>, sources: set<nat>)

  datatype Outcome = Outcome(part: Part, mounts: multiset<string>, notices: seq<Notice>, status: Status)

  /** A StorageDevice as constructed. */
  function NewDisk(rootPath: string): Disk {
    Disk(rootPath, UsbUndefined, false, 0, [], 0, NoMounted, Nothing, false, false, false, 0, [])
  }

  /** DiskPartitionInfo::setDriveStatus. */
  function SetStatus(p: Part, status: DriveStatus): Part {
    p.(mounted := status.MountOk?, driveStatus := status)
  }

  // ---------------------------------------------------------------- one partition

  /** umount2 can only succeed on what is mounted. */
  predicate UmountWorks(p: Part, mounts: multiset<string>, a: Answers) {
    a.umountOk && p.mountName in mounts
  }

  function Umount(p: Part, mounts: multiset<string>, a: Answers, lazy: bool): Outcome {
    if !p.mounted then Outcome(p, mounts, [], Success)
    else if !lazy && a.busy then Outcome(p, mounts, [], Busy)
    else if UmountWorks(p, mounts, a) then
      Outcome(SetStatus(p, UmountOk), mounts - multiset{p.mountName}, [UmountEvent, UmountEvent], Success)
    else
      Outcome(SetStatus(p, UmountNotOk), mounts, [UmountEvent, MountEvent], UmountFail)
  }

  /** The empty path is no directory. */
  predicate MountWorks(p: Part, a: Answers) {
    p.mountName != "" && a.isDirectory && (a.mountTry.Mounted? || (a.mountTry.Denied? && a.retryOk))
  }

  function Mount(p: Part, mounts: multiset<string>, a: Answers): Outcome {
    if MountWorks(p, a) then
      Outcome(SetStatus(p, MountOk), mounts + multiset{p.mountName}, [MountEvent, MountEvent], Success)
    else
      Outcome(SetStatus(p, MountNotOk), mounts, [MountEvent, UmountEvent], UmountFail)
  }

  /** PdmFsck::fsck: no command is a failure, as are exit codes 1 and 2; 124 is a timeout; anything else passes. */
  function FsckVerdict(p: Part, exit: int): Status {
    if !HasFsck(p.fsType) then FsckFail
    else if exit == 1 || exit == 2 then FsckFail
    else if exit == 124 then FsckTimeout
    else Success
  }

  /** PdmFs::fsck. */
  function Checked(p: Part, exit: int): Part {
    var verdict := FsckVerdict(p, exit);
    var p1 := p.(fsckStatus := FsckResult(verdict));
    if verdict.FsckTimeout? then SetStatus(p1, NeedFsck) else p1
  }

  /** The command that checks p, if there is one. */
  function CheckRun(p: Part, mode: string): seq<Notice> {
    if HasFsck(p.fsType) then [Ran(FsckArgv(mode, p.fsType, p.driveName))] else []
  }

  function MountIfPassed(p: Part, mounts: multiset<string>, a: Answers, verdict: Status): Outcome {
    if verdict.Success? then Mount(p, mounts, a) else Outcome(p, mounts, [], verdict)
  }

  /** fsckPartition: check, and mount if the check passed. */
  function Fsck(p: Part, mounts: multiset<string>, a: Answers, mode: string): Outcome {
    var o := MountIfPassed(Checked(p, a.fsckExit), mounts, a, FsckVerdict(p, a.fsckExit));
    o.(notices := [FsckStartedEvent] + CheckRun(p, mode) + o.notices + [FsckFinishedEvent])
  }

  /** PdmFs::format, up to the partition's new type and label. */
  function FormatVerdict(fs: string, exit: int): Status {
    if !HasMkfs(fs) then UnsupportedFs
    else if exit != 0 then FormatFail
    else Success
  }

  function Formatted(p: Part, fs: string, volLabel: string): Part {
    p.(fsType := if fs == "" then p.fsType else fs,
       volumeLabel := if volLabel == "" then p.volumeLabel else volLabel)
  }

  /** The command that formats p, if there is one. */
  function MkfsRun(p: Part, requested: string, volLabel: string): seq<Notice> {
    var fs := Resolve(p.storageType, p.fsType, requested);
    if HasMkfs(fs) then [Ran(FormatArgv(p.driveName, fs, volLabel))] else []
  }

  /** PdmFs::format: resolve the file system, make it, and record type and label on success. */
  function FormatOutcome(p: Part, requested: string, volLabel: string, exit: int): (Part, Status) {
    var fs := Resolve(p.storageType, p.fsType, requested);
    var verdict := FormatVerdict(fs, exit);
    (if verdict.Success? then Formatted(p, fs, volLabel) else p, verdict)
  }

  // ---------------------------------------------------------------- the device

  function With(w: World, i: nat, o: Outcome): World
    requires i < |w.disk.parts|
  {
    w.(disk := w.disk.(parts := w.disk.parts[i := o.part]), mounts := o.mounts, notices := w.notices + o.notices)
  }

  function WithPart(w: World, i: nat, p: Part): World
    requires i < |w.disk.parts|
  {
    w.(disk := w.disk.(parts := w.disk.parts[i := p]))
  }

  function Tell(w: World, notices: seq<Notice>): World {
    w.(notices := w.notices + notices)
  }

  /** findPartition: exact, and the empty name finds nothing. */
  function FindPartition(parts: seq<Part>, name: string): (r: Option<nat>)
    ensures r.Some? ==> r.value < |parts| && parts[r.value].driveName == name != ""
                        && forall i :: 0 <= i < r.value ==> parts[i].driveName != name
    ensures r.None? ==> name == "" || forall i :: 0 <= i < |parts| ==> parts[i].driveName != name
  {
    if name == "" || parts == [] then None
    else if parts[0].driveName == name then Some(0)
    else
      match FindPartition(parts[1..], name)
      case None => None
      case Some(k) => Some(k + 1)
  }

  /** The loop of umountAllPartition from position i on. */
  function UmountFrom(w: World, i: nat, env: nat -> Answers, lazy: bool, result: Status): (World, Status)
    decreases |w.disk.parts| - i
  {
    if i >= |w.disk.parts| then (w, result)
    else
      var o := Umount(w.disk.parts[i], w.mounts, env(i), lazy);
      UmountFrom(With(w, i, o), i + 1, env, lazy, if o.status.Success? then result else UmountAllFail)
  }

  function UmountAll(w: World, env: nat -> Answers, lazy: bool): (World, Status) {
    UmountFrom(w, 0, env, lazy, Success)
  }

  function MountFrom(w: World, i: nat, env: nat -> Answers, result: Status): (World, Status)
    decreases |w.disk.parts| - i
  {
    if i >= |w.disk.parts| then (w, result)
    else if !w.disk.parts[i].supportedFs then MountFrom(w, i + 1, env, result)
    else
      var o := Mount(w.disk.parts[i], w.mounts, env(i));
      MountFrom(With(w, i, o), i + 1, env, if o.status.Success? then result else MountAllFail)
  }

  function MountAll(w: World, env: nat -> Answers): (World, Status) {
    MountFrom(w, 0, env, Success)
  }

  function Eject(w: World, env: nat -> Answers): (World, Status) {
    var (v, status) := UmountAll(w, env, false);
    if status.Success? then (v.(disk := v.disk.(errorReason := Ejected, deviceStatus := Ejected)), Success)
    else (v, EjectFail)
  }

  /** The end of formatDiskStart: mount what was formatted, and tell how it went. */
  function Remount(w: World, i: nat, verdict: Status, a: Answers): (World, Status)
    requires i < |w.disk.parts|
  {
    var p := w.disk.parts[i];
    if !verdict.Success? then (Tell(w, [FormatFailed(p.driveName)]), FormatFail)
    else
      var m := Mount(p, w.mounts, a);
      var v := With(w, i, m);
      if m.status.Success? then
        (Tell(v.(disk := v.disk.(errorReason := Nothing)), [FormatSuccess(p.driveName)]), Success)
      else (Tell(v, [FormatFailed(p.driveName)]), FormatFail)
  }

  /** formatDiskStart. */
  function Format(w: World, name: string, requested: string, volLabel: string, a: Answers): (World, Status) {
    var found := FindPartition(w.disk.parts, name);
    if found.None? then (w, PartitionNotFound)
    else if w.disk.readOnly then (w, FormatFail)
    else
      var i := found.value;
      var o := Umount(w.disk.parts[i], w.mounts, a, false);
      var w1 := With(w, i, o);
      if !o.status.Success? then (w1, UmountFail) else MakeFs(w1, i, requested, volLabel, a)
  }

  /** The rest of formatDiskStart, once the partition is unmounted. */
  function MakeFs(w: World, i: nat, requested: string, volLabel: string, a: Answers): (World, Status)
    requires i < |w.disk.parts|
  {
    var p := w.disk.parts[i];
    var (f, verdict) := FormatOutcome(p, requested, volLabel, a.mkfsExit);
    Remount(WithPart(Tell(w, [FormatStarted(p.driveName)] + MkfsRun(p, requested, volLabel)), i, f), i, verdict, a)
  }

  /** StorageDevice::fsck. */
  function FsckDrive(w: World, name: string, a: Answers): (World, Status) {
    var found := FindPartition(w.disk.parts, name);
    if found.None? then (w, PartitionNotFound)
    else if w.disk.readOnly then (w, FsckFail)
    else
      var i := found.value;
      var o := Umount(w.disk.parts[i], w.mounts, a, false);
      var w1 := With(w, i, o);
      if !o.status.Success? then (w1, UmountFail)
      else
        var c := Fsck(o.part, o.mounts, a, AUTO);
        (With(w1, i, c), if c.status.Success? then Success else FsckFail)
  }

  /** PdmFs::setVolumeLabel on the partition found. */
  function SetLabel(w: World, name: string, volLabel: string, a: Answers): (World, Status) {
    var found := FindPartition(w.disk.parts, name);
    if found.None? then (w, PartitionNotFound)
    else
      var p := w.disk.parts[found.value];
      if volLabel == "" then (w, VolumeLabelEmpty)
      else if LabelArgv(p.fsType, p.driveName, volLabel) == [] then (w, UnsupportedFs)
      else
        var v := Tell(w, [Ran(LabelArgv(p.fsType, p.driveName, volLabel))]);
        if a.labelExit != 0 then (v, SetVolumeLabelFail)
        else (WithPart(v, found.value, p.(volumeLabel := volLabel)), Success)
  }

  /** The loop of enforceFsckAndMount from position i on. */
  function EnforceFrom(w: World, i: nat, env: nat -> Answers, needFsck: bool, result: Status): (World, Status)
    decreases |w.disk.parts| - i
  {
    if i >= |w.disk.parts| then (w, result)
    else
      var p := w.disk.parts[i];
      if !needFsck && !p.mounted then
        var o := Mount(p, w.mounts, env(i));
        EnforceFrom(With(w, i, o), i + 1, env, needFsck, if o.status.Success? then result else Error)
      else if p.fsckStatus == FsckResult(FsckTimeout) then
        var o := Fsck(p, w.mounts, env(i), FORCE);
        EnforceFrom(With(w, i, o), i + 1, env, needFsck, if o.status.Success? then result else Error)
      else EnforceFrom(w, i + 1, env, needFsck, result)
  }

  function Enforce(w: World, env: nat -> Answers, needFsck: bool): (World, Status) {
    var (v, status) := EnforceFrom(w, 0, env, needFsck, Success);
    if status.Success? then (v.(disk := v.disk.(errorReason := Nothing, deviceIsMounted := true)), status)
    else (v, status)
  }

  /** deletePartitionData. */
  function DeleteParts(w: World, env: nat -> Answers): World {
    var v := UmountAll(w, env, true).0;
    v.(disk := v.disk.(parts := [], partitionCount := 0))
  }

  // ---------------------------------------------------------------- the connecting timeout

  /** cancelConnectingTimeout. */
  function Cancel(w: World): World {
    if w.disk.timeoutId == 0 then w
    else w.(disk := w.disk.(timeoutId := 0), sources := w.sources - {w.disk.timeoutId})
  }

  function Arm(w: World, id: nat): World {
    var v := Cancel(w);
    v.(disk := v.disk.(timeoutId := id), sources := v.sources + {id})
  }

  /** notifyStorageConnecting, run by the main loop while the source is live. */
  function TimerFires(w: World): World {
    if w.disk.timeoutId !in w.sources then w
    else Tell(w.(disk := w.disk.(timeoutId := 0), sources := w.sources - {w.disk.timeoutId}), [Connecting])
  }

  // ---------------------------------------------------------------- checking threads

  function ThreadAt(w: World, k: nat, progress: Progress): World
    requires k < |w.disk.fsckThreads|
  {
    var threads := w.disk.fsckThreads;
    w.(disk := w.disk.(fsckThreads := threads[k := threads[k].(progress := progress)]))
  }

  /** The first half of fsckOnDeviceAddThread in thread k: check the partition, and mount it if it passed. */
  function ThreadChecks(w: World, k: nat, a: Answers): World {
    if k < |w.disk.fsckThreads| && w.disk.fsckThreads[k].progress.ToCheck?
       && w.disk.fsckThreads[k].at < |w.disk.parts| then
      var at := w.disk.fsckThreads[k].at;
      ThreadAt(With(w, at, Fsck(w.disk.parts[at], w.mounts, a, AUTO)), k, ToCount)
    else w
  }

  /** The second half: storageDeviceFsckNotification, undisturbed; module FsckBatch takes its two halves apart. */
  function ThreadCounts(w: World, k: nat): World {
    if k < |w.disk.fsckThreads| && w.disk.fsckThreads[k].progress.ToCount? then ThreadAt(CountDown(w), k, Done)
    else w
  }

  function CountDown(w: World): World {
    var v := w.(disk := w.disk.(fsckThreadCount := w.disk.fsckThreadCount - 1));
    if v.disk.fsckThreadCount == 0 then Cancel(Notification(v)) else v
  }

  function ThreadRuns(w: World, k: nat, a: Answers): World {
    ThreadCounts(ThreadChecks(w, k, a), k)
  }

  /** The join loop from handle k on: a thread has done what it had to do when its join returns. */
  function JoinFrom(w: World, k: nat, env: nat -> Answers): World
    decreases |w.disk.fsckThreads| - k
  {
    if k >= |w.disk.fsckThreads| then w else JoinFrom(ThreadRuns(w, k, env(k)), k + 1, env)
  }

  // ---------------------------------------------------------------- removal

  /** onDeviceRemove; joins answers for the threads that are still running. */
  function OnDeviceRemove(w: World, joins: nat -> Answers, env: nat -> Answers): World {
    var j := JoinFrom(w, 0, joins);
    var v := DeleteParts(j.(disk := j.disk.(fsckThreads := [], fsckThreadCount := 0)), env);
    CheckRemoval(v.(disk := v.disk.(rootPath := "")))
  }

  /** The destructor. */
  function Destroyed(w: World, env: nat -> Answers): World {
    DeleteParts(Cancel(w), env)
  }

  /** checkRemovalNotifications. */
  function CheckRemoval(w: World): World {
    if !w.disk.devAddNotified then Tell(w, [RemoveBeforeMount])
    else if w.disk.hasUnsupportedFs then Tell(w, [RemoveUnsupportedFs])
    else w
  }

  /** The notice of removeDevice, the last thing said about a device. */
  function Retire(w: World): World {
    if w.disk.devAddNotified then Tell(w, [Remove]) else w
  }

  // ---------------------------------------------------------------- partition arrival

  datatype PartEvent = PartEvent(name: string, fsType: string, fsLabel: string)

  /** What an arrival starts, once all partitions of the disk are there. */
  datatype Batch = NoBatch | DirectMount | FsckThreads(n: nat) | UnsupportedNotice

  function MountPoint(rootPath: string, name: string): string {
    if name == "" || rootPath == "" then "" else rootPath + "/" + name
  }

  /** DiskPartitionInfo as constructed, filled and checked for a supported file system. */
  function NewPart(d: Disk, ev: PartEvent): Part {
    Part(ev.name, MountPoint(d.rootPath, ev.name), ev.fsType, ev.fsLabel, d.storageType,
         IsSupportedFileSystem(ev.fsType, TypeString(d.storageType)), false, MountNotOk, FsckNone)
  }

  /** The positions of the supported partitions from i on. */
  function SupportedFrom(parts: seq<Part>, i: nat): seq<nat>
    decreases |parts| - i
  {
    if i >= |parts| then [] else (if parts[i].supportedFs then [i] else []) + SupportedFrom(parts, i + 1)
  }

  function Spawned(positions: seq<nat>): seq<FsckThread> {
    seq(|positions|, k requires 0 <= k < |positions| => FsckThread(positions[k], ToCheck))
  }

  predicate AnyTimedOut(parts: seq<Part>) {
    exists i :: 0 <= i < |parts| && parts[i].fsckStatus == FsckResult(FsckTimeout)
  }

  predicate AnyMounted(parts: seq<Part>) {
    exists i :: 0 <= i < |parts| && parts[i].mounted
  }

  predicate AnySupported(parts: seq<Part>) {
    exists i :: 0 <= i < |parts| && parts[i].supportedFs
  }

  /** storageDeviceNotification. */
  function Notification(w: World): World {
    if AnyTimedOut(w.disk.parts) then
      Tell(w, [FsckTimedOut, Add]).(disk := w.disk.(errorReason := NeedsFsck, devAddNotified := true))
    else if AnyMounted(w.disk.parts) then
      Tell(w, [Add]).(disk := w.disk.(errorReason := Nothing, deviceIsMounted := true, devAddNotified := true))
    else w
  }

  /** Which batch the partition list calls for right after a new partition was appended. */
  function BatchFor(d: Disk): Batch {
    if d.partitionCount != 0 && |d.parts| != d.partitionCount then NoBatch
    else if !AnySupported(d.parts) then UnsupportedNotice
    else if d.readOnly then DirectMount
    else FsckThreads(|SupportedFrom(d.parts, 0)|)
  }

  /** What the batch does at once. */
  function Begin(w: World, env: nat -> Answers): (World, Batch) {
    var d := w.disk;
    match BatchFor(d)
    case NoBatch => (w, NoBatch)
    case DirectMount => (Notification(MountAll(w, env).0), DirectMount)
    case FsckThreads(n) => (Arm(Spawn(w, SupportedFrom(d.parts, 0)), env(0).sourceId), FsckThreads(n))
    case UnsupportedNotice =>
      (Tell(w, [Add, UnsupportedFsFormatNeeded]).(disk :=
         d.(errorReason := UnsupportFs, hasUnsupportedFs := true, devAddNotified := true)), UnsupportedNotice)
  }

  /** The loop that starts and counts a checking thread for each position. */
  function Spawn(w: World, positions: seq<nat>): World {
    w.(disk := w.disk.(fsckThreadCount := w.disk.fsckThreadCount + |positions|,
                       fsckThreads := w.disk.fsckThreads + Spawned(positions)))
  }

  /** setPartitionInfo. */
  function Arrive(w: World, ev: PartEvent, env: nat -> Answers): (World, Batch) {
    if FindPartition(w.disk.parts, ev.name).Some? then (w, NoBatch)
    else Begin(w.(disk := w.disk.(parts := w.disk.parts + [NewPart(w.disk, ev)])), env)
  }
}
