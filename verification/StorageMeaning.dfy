/**
 * What each operation of a storage device does, read off the answers of the system, the tables and
 * the world before it; none of these results is stated in the terms the operations are built from.
 */
module StorageMeaning {
  import opened Base
  import opened CommandTables
  import opened StorageModel
  import opened StorageRuns
  import opened StorageLoops

  /** What one operation on partition i leaves: part there, and mounts, reason and more notices; all else as before. */
  ghost predicate Became(w: World, v: World, i: nat, part: Part, mounts: multiset<string>, reason: Reason,
                         said: seq<Notice>)
  {
    && i < |w.disk.parts| == |v.disk.parts|
    && v.disk.parts[i] == part
    && (forall k :: 0 <= k < |w.disk.parts| && k != i ==> v.disk.parts[k] == w.disk.parts[k])
    && v.mounts == mounts && v.notices == w.notices + said && v.sources == w.sources
    && v.disk.errorReason == reason
    && v.disk == w.disk.(parts := v.disk.parts, errorReason := reason)
  }

  // ---------------------------------------------------------------- unmount and mount

  /** Not mounted, or not held by a busy drive, and umount2 takes it out of the table. */
  predicate CanUmount(p: Part, mounts: multiset<string>, a: Answers, lazy: bool) {
    !p.mounted || ((lazy || !a.busy) && a.umountOk && p.mountName in mounts)
  }

  /** The partition after an unmount that went well. */
  function Freed(p: Part): Part {
    if p.mounted then Marked(p, false, UmountOk) else p
  }

  function MountsWithout(p: Part, mounts: multiset<string>): multiset<string> {
    if p.mounted then mounts - multiset{p.mountName} else mounts
  }

  function FreeingSays(p: Part): seq<Notice> {
    if p.mounted then [UmountEvent, UmountEvent] else []
  }

  lemma UmountExact(p: Part, mounts: multiset<string>, a: Answers, lazy: bool)
    ensures var o := Umount(p, mounts, a, lazy);
      && (o.status.Success? <==> CanUmount(p, mounts, a, lazy))
      && (o.status.Busy? <==> p.mounted && a.busy && !lazy)
      && (o.status.Success? || o.status.Busy? || o.status.UmountFail?)
      && (o.status.Success? ==>
            o.part == Freed(p) && o.mounts == MountsWithout(p, mounts) && o.notices == FreeingSays(p))
      && (o.status.Busy? ==> o.part == p && o.mounts == mounts && o.notices == [])
      && (o.status.UmountFail? ==>
            o.part == Marked(p, false, UmountNotOk) && o.mounts == mounts && o.notices == [UmountEvent, MountEvent])
  {
  }

  lemma MountExact(p: Part, mounts: multiset<string>, a: Answers)
    ensures var o := Mount(p, mounts, a);
      && (o.status.Success? <==> CanMount(p, a))
      && (o.status.Success? ==>
            && o.part == Marked(p, true, MountOk) && o.mounts == mounts + multiset{p.mountName}
            && o.notices == [MountEvent, MountEvent])
      && (!o.status.Success? ==>
            && o.status.UmountFail? && o.part == Marked(p, false, MountNotOk) && o.mounts == mounts
            && o.notices == [MountEvent, UmountEvent])
  {
  }

  // ---------------------------------------------------------------- a check

  /**
   * What a check records, for every type and exit code: success exactly if the type has a check
   * program that exited with none of 1, 2 and 124; a timeout exactly if it has one and it exited
   * with 124, and then the partition needs a check and is not mounted; a failure otherwise, and
   * then, as after a success, the partition reports mounted or not as before.
   */
  lemma CheckExact(p: Part, exit: int)
    ensures var q := Checked(p, exit);
      && (q.fsckStatus == FsckResult(Success) <==> HasFsck(p.fsType) && exit != 1 && exit != 2 && exit != 124)
      && (q.fsckStatus == FsckResult(FsckTimeout) <==> HasFsck(p.fsType) && exit == 124)
      && (q.fsckStatus == FsckResult(FsckFail) <==> !HasFsck(p.fsType) || exit == 1 || exit == 2)
      && (if HasFsck(p.fsType) && exit == 124 then !q.mounted && q.driveStatus == NeedFsck
          else q.mounted == p.mounted && q.driveStatus == p.driveStatus)
      && q == p.(mounted := q.mounted, driveStatus := q.driveStatus, fsckStatus := q.fsckStatus)
      && q.fsckStatus == FsckResult(FsckVerdict(p, exit))
  {
  }

  /** What observers are told of a check, with the command that is run for it. */
  function CheckingSays(p: Part, a: Answers, mode: string): seq<Notice> {
    [FsckStartedEvent]
    + (if HasFsck(p.fsType) then [Ran(FsckArgv(mode, p.fsType, p.driveName))] else [])
    + (if !PassesCheck(p, a) then []
       else if CanMount(p, a) then [MountEvent, MountEvent] else [MountEvent, UmountEvent])
    + [FsckFinishedEvent]
  }

  /**
   * Check and mount succeeds exactly if the check passed and the mount worked; then the partition
   * is mounted, once more than before, and its check recorded. Otherwise no mount is added.
   */
  lemma FsckExact(p: Part, mounts: multiset<string>, a: Answers, mode: string)
    ensures var o := Fsck(p, mounts, a, mode);
      && (o.status.Success? <==> PassesCheck(p, a) && CanMount(p, a))
      && (o.status.FsckTimeout? <==> HasFsck(p.fsType) && a.fsckExit == 124)
      && (o.status.FsckFail? <==> !HasFsck(p.fsType) || a.fsckExit == 1 || a.fsckExit == 2)
      && (o.status.Success? ==>
            o.part == Marked(Recorded(p, Success), true, MountOk) && o.mounts == mounts + multiset{p.mountName})
      && (!o.status.Success? ==> o.mounts == mounts)
      && o.part == FsckEffect(p, a).part
      && o.notices == CheckingSays(p, a, mode)
  {
    CheckExact(p, a.fsckExit);
    MountExact(Checked(p, a.fsckExit), mounts, a);
    assert CanMount(Checked(p, a.fsckExit), a) <==> CanMount(p, a);
  }

  // ---------------------------------------------------------------- format

  /** The type asked for resolves to one with a mkfs program, and that exited with zero. */
  predicate CanMake(p: Part, requested: string, a: Answers) {
    HasMkfs(Resolve(p.storageType, p.fsType, requested)) && a.mkfsExit == 0
  }

  /** The partition with the file system just made, and its new label if one was given. */
  function Made(p: Part, requested: string, volLabel: string): Part {
    Part(p.driveName, p.mountName, Resolve(p.storageType, p.fsType, requested),
         if volLabel == "" then p.volumeLabel else volLabel,
         p.storageType, p.supportedFs, p.mounted, p.driveStatus, p.fsckStatus)
  }

  /** The notices from FORMAT_STARTED on, with the command that is run in between. */
  function MakingSays(p: Part, requested: string, volLabel: string, a: Answers): seq<Notice> {
    var fs := Resolve(p.storageType, p.fsType, requested);
    [FormatStarted(p.driveName)]
    + (if HasMkfs(fs) then [Ran(FormatArgv(p.driveName, fs, volLabel))] else [])
    + (if !CanMake(p, requested, a) then [FormatFailed(p.driveName)]
       else if CanMount(p, a) then [MountEvent, MountEvent, FormatSuccess(p.driveName)]
       else [MountEvent, UmountEvent, FormatFailed(p.driveName)])
  }

  lemma RemountExact(w: World, i: nat, verdict: Status, a: Answers, v: World, status: Status)
    requires i < |w.disk.parts| && (v, status) == Remount(w, i, verdict, a)
    ensures var p := w.disk.parts[i];
      && (status.Success? <==> verdict.Success? && CanMount(p, a))
      && (status.Success? || status.FormatFail?)
      && Became(w, v, i,
           if !verdict.Success? then p
           else if CanMount(p, a) then Marked(p, true, MountOk) else Marked(p, false, MountNotOk),
           if status.Success? then w.mounts + multiset{p.mountName} else w.mounts,
           if status.Success? then Nothing else w.disk.errorReason,
           if !verdict.Success? then [FormatFailed(p.driveName)]
           else if CanMount(p, a) then [MountEvent, MountEvent, FormatSuccess(p.driveName)]
           else [MountEvent, UmountEvent, FormatFailed(p.driveName)])
  {
    var p := w.disk.parts[i];
    MountExact(p, w.mounts, a);
    Associate(w.notices, Mount(p, w.mounts, a).notices, [FormatSuccess(p.driveName)]);
    Associate(w.notices, Mount(p, w.mounts, a).notices, [FormatFailed(p.driveName)]);
  }

  lemma FormatOutcomeExact(p: Part, requested: string, volLabel: string, exit: int, a: Answers)
    requires exit == a.mkfsExit
    ensures var (q, verdict) := FormatOutcome(p, requested, volLabel, exit);
      && (verdict.Success? <==> CanMake(p, requested, a))
      && q == if CanMake(p, requested, a) then Made(p, requested, volLabel) else p
  {
  }

  /**
   * Making the file system on a partition that was unmounted: success exactly if the resolved type
   * has a mkfs program, that exited with zero and the mount worked; then the partition holds the
   * resolved type, is mounted with one more mount, the error reason is cleared, and
   * FORMAT_SUCCESS comes last. Otherwise FORMAT_FAIL comes last and no mount is added.
   */
  lemma MakeFsExact(w: World, i: nat, requested: string, volLabel: string, a: Answers, v: World, status: Status)
    requires i < |w.disk.parts| && (v, status) == MakeFs(w, i, requested, volLabel, a)
    ensures var p := w.disk.parts[i];
      && (status.Success? <==> CanMake(p, requested, a) && CanMount(p, a))
      && (status.Success? || status.FormatFail?)
      && Became(w, v, i,
           if !CanMake(p, requested, a) then p
           else if CanMount(p, a) then Marked(Made(p, requested, volLabel), true, MountOk)
           else Marked(Made(p, requested, volLabel), false, MountNotOk),
           if status.Success? then w.mounts + multiset{p.mountName} else w.mounts,
           if status.Success? then Nothing else w.disk.errorReason,
           MakingSays(p, requested, volLabel, a))
  {
    var p := w.disk.parts[i];
    var (f, verdict) := FormatOutcome(p, requested, volLabel, a.mkfsExit);
    FormatOutcomeExact(p, requested, volLabel, a.mkfsExit, a);
    var said := [FormatStarted(p.driveName)] + MkfsRun(p, requested, volLabel);
    var u := WithPart(Tell(w, said), i, f);
    RemountExact(u, i, verdict, a, v, status);
    assert CanMount(f, a) <==> CanMount(p, a);
    var tail := v.notices[|u.notices|..];
    Associate(w.notices, said, tail);
  }

  /** The world in which FORMAT_STARTED is told: the partition is out of the mount table, and nothing else new. */
  function BeforeMaking(w: World, i: nat): World
    requires i < |w.disk.parts|
  {
    var p := w.disk.parts[i];
    World(w.disk.(parts := w.disk.parts[i := Freed(p)]), MountsWithout(p, w.mounts), w.notices + FreeingSays(p),
          w.sources)
  }

  /** The three ways of a format request up to FORMAT_STARTED. */
  lemma FormatUnmountsFirst(w: World, name: string, requested: string, volLabel: string, a: Answers, i: nat)
    requires i < |w.disk.parts| && w.disk.parts[i].driveName == name != ""
    requires forall k :: 0 <= k < i ==> w.disk.parts[k].driveName != name
    ensures var (v, status) := Format(w, name, requested, volLabel, a); var p := w.disk.parts[i];
      && (w.disk.readOnly ==> status.FormatFail? && v == w)
      && (!w.disk.readOnly && CanUmount(p, w.mounts, a, false) ==>
            (v, status) == MakeFs(BeforeMaking(w, i), i, requested, volLabel, a))
      && (!w.disk.readOnly && !CanUmount(p, w.mounts, a, false) ==>
            status.UmountFail? && UnmountFailed(w, v, i, a))
  {
    FoundAt(w.disk.parts, name, i);
    var o := Umount(w.disk.parts[i], w.mounts, a, false);
    UmountExact(w.disk.parts[i], w.mounts, a, false);
    if o.status.Success? {
      assert With(w, i, o) == BeforeMaking(w, i);
    }
  }

  /** A busy partition is left alone; one that umount2 refused is marked so, and reported mounted again. */
  ghost predicate UnmountFailed(w: World, v: World, i: nat, a: Answers)
    requires i < |w.disk.parts|
  {
    if a.busy then v == w
    else Became(w, v, i, Marked(w.disk.parts[i], false, UmountNotOk), w.mounts, w.disk.errorReason,
                [UmountEvent, MountEvent])
  }

  /** The rest of it, told from the world before the request. */
  lemma FormatMakes(w: World, i: nat, requested: string, volLabel: string, a: Answers, v: World, status: Status)
    requires i < |w.disk.parts| && (v, status) == MakeFs(BeforeMaking(w, i), i, requested, volLabel, a)
    ensures var p := w.disk.parts[i]; var ok := CanMake(p, requested, a) && CanMount(p, a);
      && status == (if ok then Success else FormatFail)
      && v.notices == w.notices + (FreeingSays(p) + MakingSays(p, requested, volLabel, a))
      && Became(w, v, i,
           if ok then Marked(Made(p, requested, volLabel), true, MountOk)
           else if CanMake(p, requested, a) then Marked(Made(p, requested, volLabel), false, MountNotOk)
           else Freed(p),
           if ok then MountsWithout(p, w.mounts) + multiset{p.mountName} else MountsWithout(p, w.mounts),
           if ok then Nothing else w.disk.errorReason,
           FreeingSays(p) + MakingSays(p, requested, volLabel, a))
      && v.notices[|v.notices| - 1] == if ok then FormatSuccess(p.driveName) else FormatFailed(p.driveName)
  {
    var p := w.disk.parts[i];
    MakeFsExact(BeforeMaking(w, i), i, requested, volLabel, a, v, status);
    FreedIsMade(p, requested, volLabel, a);
    FreedBecame(w, v, i, v.disk.parts[i], v.mounts, v.disk.errorReason, MakingSays(p, requested, volLabel, a));
  }

  /** What became of it after the unmount, told from the world before it. */
  lemma FreedBecame(w: World, v: World, i: nat, part: Part, mounts: multiset<string>, reason: Reason, said: seq<Notice>)
    requires i < |w.disk.parts| && Became(BeforeMaking(w, i), v, i, part, mounts, reason, said)
    ensures Became(w, v, i, part, mounts, reason, FreeingSays(w.disk.parts[i]) + said)
  {
    Associate(w.notices, FreeingSays(w.disk.parts[i]), said);
  }

  /**
   * A format request, for every world and all answers, read off the first partition of that name
   * (a name is never empty). On a write-protected disk it fails and changes nothing. It answers
   * that the unmount failed exactly if the partition was mounted and busy, refused or not in the
   * table, and then nothing was started. Otherwise the mount was gone before FORMAT_STARTED; and
   * it succeeds exactly if the resolved type has a mkfs program that exited with zero and the
   * mount worked: then the partition holds that type, is mounted, with one mount more than after
   * the unmount, the reason is cleared and FORMAT_SUCCESS comes last. Otherwise FORMAT_FAIL does.
   */
  lemma FormatExact(w: World, name: string, requested: string, volLabel: string, a: Answers, i: nat,
                    v: World, status: Status)
    requires i < |w.disk.parts| && w.disk.parts[i].driveName == name != ""
    requires forall k :: 0 <= k < i ==> w.disk.parts[k].driveName != name
    requires (v, status) == Format(w, name, requested, volLabel, a)
    ensures w.disk.readOnly ==> status.FormatFail? && v == w
    ensures status.UmountFail? <==>
      && !w.disk.readOnly && w.disk.parts[i].mounted
      && (a.busy || !a.umountOk || w.disk.parts[i].mountName !in w.mounts)
    ensures status.UmountFail? ==> UnmountFailed(w, v, i, a)
    ensures !w.disk.readOnly && !status.UmountFail? ==>
      (v, status) == MakeFs(BeforeMaking(w, i), i, requested, volLabel, a)
    ensures var p := w.disk.parts[i];
      status.Success? <==>
        && !w.disk.readOnly && (p.mounted ==> !a.busy && a.umountOk && p.mountName in w.mounts)
        && HasMkfs(Resolve(p.storageType, p.fsType, requested)) && a.mkfsExit == 0 && CanMount(p, a)
    ensures var p := w.disk.parts[i];
      status.Success? ==>
        && Became(w, v, i, Marked(Made(p, requested, volLabel), true, MountOk),
                  MountsWithout(p, w.mounts) + multiset{p.mountName}, Nothing,
                  FreeingSays(p) + MakingSays(p, requested, volLabel, a))
        && v.notices[|v.notices| - 1] == FormatSuccess(p.driveName)
    ensures var p := w.disk.parts[i];
      !w.disk.readOnly && !status.Success? && !status.UmountFail? ==>
        && status.FormatFail?
        && Became(w, v, i,
                  if CanMake(p, requested, a) then Marked(Made(p, requested, volLabel), false, MountNotOk)
                  else Freed(p),
                  MountsWithout(p, w.mounts), w.disk.errorReason,
                  FreeingSays(p) + MakingSays(p, requested, volLabel, a))
        && v.notices[|v.notices| - 1] == FormatFailed(p.driveName)
  {
    FormatUnmountsFirst(w, name, requested, volLabel, a, i);
    if !w.disk.readOnly && CanUmount(w.disk.parts[i], w.mounts, a, false) {
      FormatMakes(w, i, requested, volLabel, a, v, status);
    }
  }

  /** An unmount does not matter to what is made of a partition. */
  lemma FreedIsMade(p: Part, requested: string, volLabel: string, a: Answers)
    ensures CanMake(Freed(p), requested, a) <==> CanMake(p, requested, a)
    ensures CanMount(Freed(p), a) <==> CanMount(p, a)
    ensures MakingSays(Freed(p), requested, volLabel, a) == MakingSays(p, requested, volLabel, a)
    ensures forall mounted, status ::
      Marked(Made(Freed(p), requested, volLabel), mounted, status)
      == Marked(Made(p, requested, volLabel), mounted, status)
  {
  }

  /** The search finds the first of that name. */
  lemma FoundAt(parts: seq<Part>, name: string, i: nat)
    requires i < |parts| && parts[i].driveName == name != ""
    requires forall k :: 0 <= k < i ==> parts[k].driveName != name
    ensures FindPartition(parts, name) == Some(i)
  {
    assert FindPartition(parts, name).Some?;
  }

  /** A format, check or label request for a name that no partition has finds nothing and changes nothing. */
  lemma UnknownName(w: World, name: string, requested: string, volLabel: string, a: Answers)
    requires name == "" || forall k :: 0 <= k < |w.disk.parts| ==> w.disk.parts[k].driveName != name
    ensures Format(w, name, requested, volLabel, a) == (w, PartitionNotFound)
    ensures FsckDrive(w, name, a) == (w, PartitionNotFound)
    ensures SetLabel(w, name, volLabel, a) == (w, PartitionNotFound)
  {
  }

  // ---------------------------------------------------------------- a check on request, and a label

  lemma FsckDriveUnmountsFirst(w: World, name: string, a: Answers, i: nat)
    requires i < |w.disk.parts| && w.disk.parts[i].driveName == name != ""
    requires forall k :: 0 <= k < i ==> w.disk.parts[k].driveName != name
    ensures var (v, status) := FsckDrive(w, name, a); var p := w.disk.parts[i];
      && (w.disk.readOnly ==> status.FsckFail? && v == w)
      && (!w.disk.readOnly && CanUmount(p, w.mounts, a, false) ==>
            var c := Fsck(Freed(p), MountsWithout(p, w.mounts), a, "auto");
            v == With(BeforeMaking(w, i), i, c) && status == if c.status.Success? then Success else FsckFail)
      && (!w.disk.readOnly && !CanUmount(p, w.mounts, a, false) ==>
            status.UmountFail? && UnmountFailed(w, v, i, a))
  {
    FoundAt(w.disk.parts, name, i);
    var o := Umount(w.disk.parts[i], w.mounts, a, false);
    UmountExact(w.disk.parts[i], w.mounts, a, false);
    if o.status.Success? {
      assert With(w, i, o) == BeforeMaking(w, i);
    }
  }

  lemma FsckDriveChecks(w: World, i: nat, a: Answers)
    requires i < |w.disk.parts|
    ensures var p := w.disk.parts[i]; var m := MountsWithout(p, w.mounts);
      var c := Fsck(Freed(p), m, a, "auto"); var ok := PassesCheck(p, a) && CanMount(p, a);
      && (c.status.Success? <==> ok)
      && Became(w, With(BeforeMaking(w, i), i, c), i, FsckEffect(Freed(p), a).part,
                if ok then m + multiset{p.mountName} else m,
                w.disk.errorReason, FreeingSays(p) + CheckingSays(p, a, "auto"))
  {
    var p := w.disk.parts[i];
    var m := MountsWithout(p, w.mounts);
    FreedIsChecked(p, a);
    FsckExact(Freed(p), m, a, "auto");
    FreedThen(w, i, Fsck(Freed(p), m, a, "auto"));
  }

  lemma FreedIsChecked(p: Part, a: Answers)
    ensures Freed(p).mountName == p.mountName
    ensures CanMount(Freed(p), a) <==> CanMount(p, a)
    ensures PassesCheck(Freed(p), a) <==> PassesCheck(p, a)
    ensures CheckingSays(Freed(p), a, "auto") == CheckingSays(p, a, "auto")
  {
  }

  /** An outcome o after the unmount. */
  lemma FreedThen(w: World, i: nat, o: Outcome)
    requires i < |w.disk.parts|
    ensures Became(w, With(BeforeMaking(w, i), i, o), i, o.part, o.mounts, w.disk.errorReason,
                   FreeingSays(w.disk.parts[i]) + o.notices)
  {
    Associate(w.notices, FreeingSays(w.disk.parts[i]), o.notices);
  }

  /** A check on request: unmount first or do nothing more, then check, and mount if it passed. */
  lemma FsckDriveExact(w: World, name: string, a: Answers, i: nat, v: World, status: Status)
    requires i < |w.disk.parts| && w.disk.parts[i].driveName == name != ""
    requires forall k :: 0 <= k < i ==> w.disk.parts[k].driveName != name
    requires (v, status) == FsckDrive(w, name, a)
    ensures w.disk.readOnly ==> status.FsckFail? && v == w
    ensures status.UmountFail? <==>
      && !w.disk.readOnly && w.disk.parts[i].mounted
      && (a.busy || !a.umountOk || w.disk.parts[i].mountName !in w.mounts)
    ensures status.UmountFail? ==> UnmountFailed(w, v, i, a)
    ensures var p := w.disk.parts[i];
      status.Success? <==>
        && !w.disk.readOnly && (p.mounted ==> !a.busy && a.umountOk && p.mountName in w.mounts)
        && HasFsck(p.fsType) && a.fsckExit !in {1, 2, 124} && CanMount(p, a)
    ensures var p := w.disk.parts[i]; var m := MountsWithout(p, w.mounts);
      !w.disk.readOnly && !status.UmountFail? ==>
        && (status.Success? || status.FsckFail?)
        && Became(w, v, i, FsckEffect(Freed(p), a).part, if status.Success? then m + multiset{p.mountName} else m,
                  w.disk.errorReason, FreeingSays(p) + CheckingSays(p, a, "auto"))
  {
    FsckDriveUnmountsFirst(w, name, a, i);
    if !w.disk.readOnly && CanUmount(w.disk.parts[i], w.mounts, a, false) {
      FsckDriveChecks(w, i, a);
    }
  }

  /**
   * A label is recorded exactly if it is not empty, the type can be labelled and the program
   * exited with zero; it is run whenever there is one for a label that is not empty.
   */
  lemma LabelExact(w: World, name: string, volLabel: string, a: Answers, i: nat, v: World, status: Status)
    requires i < |w.disk.parts| && w.disk.parts[i].driveName == name != ""
    requires forall k :: 0 <= k < i ==> w.disk.parts[k].driveName != name
    requires (v, status) == SetLabel(w, name, volLabel, a)
    ensures status.VolumeLabelEmpty? <==> volLabel == ""
    ensures status.UnsupportedFs? <==> volLabel != "" && !CanLabel(w.disk.parts[i])
    ensures status.SetVolumeLabelFail? <==> volLabel != "" && CanLabel(w.disk.parts[i]) && a.labelExit != 0
    ensures status.Success? <==> volLabel != "" && CanLabel(w.disk.parts[i]) && a.labelExit == 0
    ensures var p := w.disk.parts[i];
      Became(w, v, i, if status.Success? then p.(volumeLabel := volLabel) else p, w.mounts, w.disk.errorReason,
        if volLabel != "" && CanLabel(p) then [Ran(LabelArgv(p.fsType, p.driveName, volLabel))] else [])
  {
    FoundAt(w.disk.parts, name, i);
    LabelArgvWrittenOut(w.disk.parts[i].fsType, w.disk.parts[i].driveName, volLabel);
  }

  /** There is a program that labels the type. */
  predicate CanLabel(p: Part) {
    p.fsType in {"ntfs", "tntfs", "vfat", "tfat", "ext2", "ext3", "ext4"}
  }

  // ---------------------------------------------------------------- what the loops tell

  /** What is told of mounting the partitions from i on. */
  function MountNotices(parts: seq<Part>, env: nat -> Answers, i: nat): seq<Notice>
    decreases |parts| - i
  {
    if i >= |parts| then []
    else if !parts[i].supportedFs then MountNotices(parts, env, i + 1)
    else [MountEvent, if CanMount(parts[i], env(i)) then MountEvent else UmountEvent] + MountNotices(parts, env, i + 1)
  }

  lemma MountAllSays(w: World, env: nat -> Answers)
    ensures MountAll(w, env).0.notices == w.notices + MountNotices(w.disk.parts, env, 0)
  {
    MountFromSays(w.disk.parts, w, 0, env, Success);
  }

  lemma {:induction false} MountFromSays(parts: seq<Part>, w: World, i: nat, env: nat -> Answers, result: Status)
    requires |w.disk.parts| == |parts| && forall k :: i <= k < |parts| ==> w.disk.parts[k] == parts[k]
    ensures MountFrom(w, i, env, result).0.notices == w.notices + MountNotices(parts, env, i)
    decreases |parts| - i
  {
    if i < |parts| {
      if !parts[i].supportedFs {
        MountFromSays(parts, w, i + 1, env, result);
      } else {
        var o := Mount(w.disk.parts[i], w.mounts, env(i));
        MountExact(parts[i], w.mounts, env(i));
        MountFromSays(parts, With(w, i, o), i + 1, env, if o.status.Success? then result else MountAllFail);
        Associate(w.notices, o.notices, MountNotices(parts, env, i + 1));
      }
    }
  }

  /** What an enforced check and mount tells of one partition; its checks are forced. */
  function EnforcingSays(p: Part, a: Answers, needFsck: bool): seq<Notice> {
    if !needFsck && !p.mounted then [MountEvent, if CanMount(p, a) then MountEvent else UmountEvent]
    else if p.fsckStatus == FsckResult(FsckTimeout) then CheckingSays(p, a, "force")
    else []
  }

  /** And of all from i on. */
  function EnforceNotices(parts: seq<Part>, env: nat -> Answers, needFsck: bool, i: nat): seq<Notice>
    decreases |parts| - i
  {
    if i >= |parts| then []
    else EnforcingSays(parts[i], env(i), needFsck) + EnforceNotices(parts, env, needFsck, i + 1)
  }

  lemma EnforceCallSays(p: Part, mounts: multiset<string>, a: Answers, needFsck: bool)
    requires EnforceCalls(p, needFsck)
    ensures EnforceCall(p, mounts, a, needFsck).notices == EnforcingSays(p, a, needFsck)
  {
    if !needFsck && !p.mounted { MountExact(p, mounts, a); } else { FsckExact(p, mounts, a, FORCE); }
  }

  lemma EnforceUnfolds(w: World, i: nat, env: nat -> Answers, needFsck: bool, result: Status, o: Outcome)
    requires i < |w.disk.parts| && EnforceCalls(w.disk.parts[i], needFsck)
    requires o == EnforceCall(w.disk.parts[i], w.mounts, env(i), needFsck)
    ensures EnforceFrom(w, i, env, needFsck, result)
         == EnforceFrom(With(w, i, o), i + 1, env, needFsck, if o.status.Success? then result else Error)
  {
  }

  /** One round of the enforcing loop. */
  lemma EnforceSaysOne(w: World, i: nat, env: nat -> Answers, needFsck: bool, result: Status)
    returns (v: World, next: Status)
    requires i < |w.disk.parts|
    ensures EnforceFrom(w, i, env, needFsck, result) == EnforceFrom(v, i + 1, env, needFsck, next)
    ensures v.notices == w.notices + EnforcingSays(w.disk.parts[i], env(i), needFsck)
    ensures |v.disk.parts| == |w.disk.parts|
    ensures forall k :: i < k < |w.disk.parts| ==> v.disk.parts[k] == w.disk.parts[k]
  {
    v, next := w, result;
    if EnforceCalls(w.disk.parts[i], needFsck) {
      var o := EnforceCall(w.disk.parts[i], w.mounts, env(i), needFsck);
      v, next := With(w, i, o), if o.status.Success? then result else Error;
      EnforceUnfolds(w, i, env, needFsck, result, o);
      EnforceCallSays(w.disk.parts[i], w.mounts, env(i), needFsck);
    }
  }

  lemma {:induction false} EnforceFromSays(parts: seq<Part>, w: World, i: nat, env: nat -> Answers, needFsck: bool,
                                           result: Status)
    requires |w.disk.parts| == |parts| && forall k :: i <= k < |parts| ==> w.disk.parts[k] == parts[k]
    ensures EnforceFrom(w, i, env, needFsck, result).0.notices == w.notices + EnforceNotices(parts, env, needFsck, i)
    decreases |parts| - i
  {
    if i < |parts| {
      var v, next := EnforceSaysOne(w, i, env, needFsck, result);
      EnforceFromSays(parts, v, i + 1, env, needFsck, next);
      Associate(w.notices, EnforcingSays(parts[i], env(i), needFsck), EnforceNotices(parts, env, needFsck, i + 1));
    }
  }

  /** An enforced check and mount tells, partition by partition, of mounts and of forced checks, with their commands. */
  lemma EnforceSays(w: World, env: nat -> Answers, needFsck: bool)
    ensures Enforce(w, env, needFsck).0.notices == w.notices + EnforceNotices(w.disk.parts, env, needFsck, 0)
  {
    EnforceFromSays(w.disk.parts, w, 0, env, needFsck, Success);
  }

  // ---------------------------------------------------------------- announcing

  /** What is to be said of a batch whose partitions are these. */
  function Announcement(parts: seq<Part>): seq<Notice> {
    if exists i :: 0 <= i < |parts| && parts[i].fsckStatus == FsckResult(FsckTimeout) then [FsckTimedOut, Add]
    else if exists i :: 0 <= i < |parts| && parts[i].mounted then [Add]
    else []
  }

  /**
   * ADD is sent exactly if some partition timed out or is mounted, and FSCK_TIMED_OUT right before
   * it exactly if one timed out. The reason becomes that a check is needed in the first case; in
   * the second, where none timed out, it is cleared and the device reports itself mounted.
   */
  lemma NotificationExact(w: World)
    ensures var v := Notification(w); var parts := w.disk.parts;
      var timedOut := exists i :: 0 <= i < |parts| && parts[i].fsckStatus == FsckResult(FsckTimeout);
      var mounted := exists i :: 0 <= i < |parts| && parts[i].mounted;
      && v.notices == w.notices + (if timedOut then [FsckTimedOut, Add] else if mounted then [Add] else [])
      && v.disk.errorReason == (if timedOut then NeedsFsck else if mounted then Nothing else w.disk.errorReason)
      && v.disk.deviceIsMounted == (w.disk.deviceIsMounted || (mounted && !timedOut))
      && v.disk.devAddNotified == (w.disk.devAddNotified || timedOut || mounted)
      && v.disk == w.disk.(errorReason := v.disk.errorReason, deviceIsMounted := v.disk.deviceIsMounted,
                           devAddNotified := v.disk.devAddNotified)
      && v.mounts == w.mounts && v.sources == w.sources
  {
  }

  /** An announcement, as NotificationExact says, of a device whose partitions are those of w. */
  function Announced(d: Disk): Disk {
    var timedOut := exists i :: 0 <= i < |d.parts| && d.parts[i].fsckStatus == FsckResult(FsckTimeout);
    var mounted := exists i :: 0 <= i < |d.parts| && d.parts[i].mounted;
    d.(errorReason := if timedOut then NeedsFsck else if mounted then Nothing else d.errorReason,
       deviceIsMounted := d.deviceIsMounted || (mounted && !timedOut),
       devAddNotified := d.devAddNotified || timedOut || mounted)
  }

  lemma NotificationAnnounces(w: World)
    ensures Notification(w) == World(Announced(w.disk), w.mounts, w.notices + Announcement(w.disk.parts), w.sources)
  {
    NotificationExact(w);
  }

  /**
   * Counting down takes one off, and exactly if that gives zero, the announcement due is made and
   * the timeout, if there is one, is removed and forgotten.
   */
  lemma CountDownExact(w: World)
    ensures var d := w.disk.(fsckThreadCount := w.disk.fsckThreadCount - 1);
      && (w.disk.fsckThreadCount != 1 ==> CountDown(w) == World(d, w.mounts, w.notices, w.sources))
      && (w.disk.fsckThreadCount == 1 ==>
            CountDown(w) == World(Announced(d).(timeoutId := 0), w.mounts, w.notices + Announcement(w.disk.parts),
                                  if w.disk.timeoutId == 0 then w.sources else w.sources - {w.disk.timeoutId}))
  {
    NotificationAnnounces(w.(disk := w.disk.(fsckThreadCount := w.disk.fsckThreadCount - 1)));
  }

  // ---------------------------------------------------------------- checking threads

  /**
   * The first half of a checking thread checks its own partition in automatic mode, with everything
   * a check does, and touches no other; it happens once, and only where the thread is to check.
   */
  lemma ThreadChecksExact(w: World, k: nat, a: Answers)
    requires k < |w.disk.fsckThreads| && w.disk.fsckThreads[k].at < |w.disk.parts|
    ensures var v := ThreadChecks(w, k, a); var t := w.disk.fsckThreads[k]; var p := w.disk.parts[t.at];
      && (t.progress != ToCheck ==> v == w)
      && (t.progress == ToCheck ==>
            && v.disk.fsckThreads == w.disk.fsckThreads[k := FsckThread(t.at, ToCount)]
            && Became(w, v.(disk := v.disk.(fsckThreads := w.disk.fsckThreads)), t.at, FsckEffect(p, a).part,
                      if PassesCheck(p, a) && CanMount(p, a) then w.mounts + multiset{p.mountName} else w.mounts,
                      w.disk.errorReason, CheckingSays(p, a, "auto")))
  {
    FsckExact(w.disk.parts[w.disk.fsckThreads[k].at], w.mounts, a, "auto");
  }

  /** The second half counts down, once, and only where the thread has checked; then the thread has ended. */
  lemma ThreadCountsExact(w: World, k: nat)
    requires k < |w.disk.fsckThreads|
    ensures var v := ThreadCounts(w, k); var t := w.disk.fsckThreads[k];
      && (t.progress != ToCount ==> v == w)
      && (t.progress == ToCount ==>
            v == CountDown(w).(disk := CountDown(w).disk.(fsckThreads :=
              w.disk.fsckThreads[k := FsckThread(t.at, Done)])))
  {
    CountDownExact(w);
  }

  // ---------------------------------------------------------------- timeout and removal

  /** The timeout fires exactly while it is live: it is gone and forgotten, and CONNECTING is told. */
  lemma TimerExact(w: World)
    ensures var v := TimerFires(w); var id := w.disk.timeoutId;
      && (id !in w.sources ==> v == w)
      && (id in w.sources ==>
            v == World(w.disk.(timeoutId := 0), w.mounts, w.notices + [Connecting], w.sources - {id}))
  {
  }

  /** Arming leaves the new timeout as the one remembered, in place of the one before. */
  lemma ArmExact(w: World, id: nat)
    ensures Arm(w, id) == World(w.disk.(timeoutId := id), w.mounts, w.notices,
      (if w.disk.timeoutId == 0 then w.sources else w.sources - {w.disk.timeoutId}) + {id})
  {
  }

  /**
   * When the partitions of a device are dropped, each mounted one is unmounted, busy or not, and
   * its mount leaves the table exactly if umount2 took it.
   */
  lemma DeleteExact(w: World, env: nat -> Answers)
    requires Inv(w)
    ensures var v := DeleteParts(w, env);
      && v.disk == w.disk.(parts := [], partitionCount := 0) && v.sources == w.sources
      && forall m: string :: v.mounts[m] == w.mounts[m] - Taken(w.disk.parts, env, |w.disk.parts|, m)
  {
    var effects := UmountEffects(w.disk.parts, env, true);
    UmountAllExact(w, env, true);
    forall m: string
      ensures ChangeAt(w.disk.parts, effects, |w.disk.parts|, m) == -Taken(w.disk.parts, env, |w.disk.parts|, m)
    {
      TakenChange(w.disk.parts, env, effects, |w.disk.parts|, m);
    }
  }

  /** How many of the first n partitions were mounted on m, with umount2 taking it. */
  function Taken(parts: seq<Part>, env: nat -> Answers, n: nat, m: string): int
    requires n <= |parts|
  {
    if n == 0 then 0
    else
      Taken(parts, env, n - 1, m)
      + if parts[n - 1].mounted && parts[n - 1].mountName == m && env(n - 1).umountOk then 1 else 0
  }

  lemma {:induction false} TakenChange(parts: seq<Part>, env: nat -> Answers, effects: seq<Effect>, n: nat, m: string)
    requires n <= |parts| && effects == UmountEffects(parts, env, true)
    ensures ChangeAt(parts, effects, n, m) == -Taken(parts, env, n, m)
  {
    if n > 0 {
      TakenChange(parts, env, effects, n - 1, m);
      assert effects[n - 1] == UmountEffect(parts[n - 1], env(n - 1), true);
    }
  }

  /** The farewell of a device: what is said of it depends on what was announced, and REMOVE comes last. */
  lemma FarewellExact(w: World)
    ensures CheckRemoval(w) == World(w.disk, w.mounts, w.notices
      + (if !w.disk.devAddNotified then [RemoveBeforeMount]
         else if w.disk.hasUnsupportedFs then [RemoveUnsupportedFs] else []), w.sources)
    ensures Retire(w)
      == World(w.disk, w.mounts, w.notices + (if w.disk.devAddNotified then [Remove] else []), w.sources)
  {
  }

  /**
   * A removal first lets every checking thread do what it has left; only then are the partitions
   * unmounted and dropped, in the world the threads left, and the device is forgotten.
   */
  lemma RemoveExact(w: World, joins: nat -> Answers, env: nat -> Answers, v: World)
    requires Inv(w) && ThreadsInRange(w.disk) && v == OnDeviceRemove(w, joins, env)
    ensures var j := JoinFrom(w, 0, joins);
      && (forall k :: 0 <= k < |j.disk.fsckThreads| ==> j.disk.fsckThreads[k].progress == Done)
      && v.disk == j.disk.(parts := [], partitionCount := 0, fsckThreads := [], fsckThreadCount := 0, rootPath := "")
      && (forall m: string :: v.mounts[m] == j.mounts[m] - Taken(j.disk.parts, env, |j.disk.parts|, m))
      && v.sources == j.sources
  {
    var j := JoinFrom(w, 0, joins);
    JoinsEndEveryThread(w, 0, joins);
    JoinIsRun(w, 0, joins);
    ReportedMountedIsMounted(w, JoinOps(|w.disk.fsckThreads|, 0, joins));
    var i := j.(disk := j.disk.(fsckThreads := [], fsckThreadCount := 0));
    SameMountsInv(j, i);
    DeleteExact(i, env);
    var d := DeleteParts(i, env);
    FarewellExact(d.(disk := d.disk.(rootPath := "")));
  }

  /** The destructor removes the timeout, if there is one, and drops the partitions. */
  lemma DestroyExact(w: World, env: nat -> Answers)
    requires Inv(w)
    ensures var v := Destroyed(w, env);
      && v.disk == w.disk.(parts := [], partitionCount := 0, timeoutId := 0)
      && (forall m: string :: v.mounts[m] == w.mounts[m] - Taken(w.disk.parts, env, |w.disk.parts|, m))
      && v.sources == (if w.disk.timeoutId == 0 then w.sources else w.sources - {w.disk.timeoutId})
  {
    SameMountsInv(w, Cancel(w));
    DeleteExact(Cancel(w), env);
  }
}
