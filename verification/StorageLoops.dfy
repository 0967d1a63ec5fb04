/** What the three loops over all partitions of a device do: unmount, mount, enforced check and mount. */
module StorageLoops {
  import opened CommandTables
  import opened StorageModel
  import opened StorageRuns

  /**
   * What a loop makes of one partition, given its own answers only: the partition afterwards, how
   * many mounts its mount point gains, and whether it went well.
   */
  datatype Effect = Effect(part: Part, change: int, fine: bool)

  /** p with a new mounted flag and drive status, and nothing else new. */
  function Marked(p: Part, mounted: bool, status: DriveStatus): Part {
    Part(p.driveName, p.mountName, p.fsType, p.volumeLabel, p.storageType, p.supportedFs, mounted, status, p.fsckStatus)
  }

  /** p with a new result of its last check, and nothing else new. */
  function Recorded(p: Part, result: Status): Part {
    Part(p.driveName, p.mountName, p.fsType, p.volumeLabel, p.storageType, p.supportedFs, p.mounted, p.driveStatus,
         FsckResult(result))
  }

  /** Reported mounted, not held by a busy drive: unmounted, or marked as not unmountable. */
  function UmountEffect(p: Part, a: Answers, lazy: bool): Effect {
    if !p.mounted then Effect(p, 0, true)
    else if !lazy && a.busy then Effect(p, 0, false)
    else if a.umountOk then Effect(Marked(p, false, UmountOk), -1, true)
    else Effect(Marked(p, false, UmountNotOk), 0, false)
  }

  /** The mount point is there, and the first attempt works, or it is refused and the read-only one works. */
  predicate CanMount(p: Part, a: Answers) {
    && p.mountName != "" && a.isDirectory
    && (a.mountTry == Mounted || (a.mountTry == Denied && a.retryOk))
  }

  function MountEffect(p: Part, a: Answers): Effect {
    if CanMount(p, a) then Effect(Marked(p, true, MountOk), 1, true) else Effect(Marked(p, false, MountNotOk), 0, false)
  }

  /** There is a check program for the type, and its exit code is none of 1, 2 and 124. */
  predicate PassesCheck(p: Part, a: Answers) {
    HasFsck(p.fsType) && a.fsckExit !in {1, 2, 124}
  }

  /** A passed check is recorded and the partition mounted; a timeout leaves it unmounted; a failure as it was. */
  function FsckEffect(p: Part, a: Answers): Effect {
    if PassesCheck(p, a) then MountEffect(Recorded(p, Success), a)
    else if HasFsck(p.fsType) && a.fsckExit == 124 then
      Effect(Marked(Recorded(p, FsckTimeout), false, NeedFsck), 0, false)
    else Effect(Recorded(p, FsckFail), 0, false)
  }

  /** Without a demanded check what is unmounted is mounted; of the rest, what timed out is checked. */
  function EnforceEffect(p: Part, a: Answers, needFsck: bool): Effect {
    if !needFsck && !p.mounted then MountEffect(p, a)
    else if p.fsckStatus == FsckResult(FsckTimeout) then FsckEffect(p, a)
    else Effect(p, 0, true)
  }

  function UmountEffects(parts: seq<Part>, env: nat -> Answers, lazy: bool): (r: seq<Effect>)
    ensures |r| == |parts|
  {
    seq(|parts|, k requires 0 <= k < |parts| => UmountEffect(parts[k], env(k), lazy))
  }

  /** Only partitions with a supported file system are mounted. */
  function MountEffects(parts: seq<Part>, env: nat -> Answers): (r: seq<Effect>)
    ensures |r| == |parts|
  {
    seq(|parts|, k requires 0 <= k < |parts| =>
      if parts[k].supportedFs then MountEffect(parts[k], env(k)) else Effect(parts[k], 0, true))
  }

  function EnforceEffects(parts: seq<Part>, env: nat -> Answers, needFsck: bool): (r: seq<Effect>)
    ensures |r| == |parts|
  {
    seq(|parts|, k requires 0 <= k < |parts| => EnforceEffect(parts[k], env(k), needFsck))
  }

  /** What the effects on the first n partitions add to the mounts on m. */
  function ChangeAt(parts: seq<Part>, effects: seq<Effect>, n: nat, m: string): int
    requires n <= |parts| == |effects|
  {
    if n == 0 then 0
    else ChangeAt(parts, effects, n - 1, m) + if parts[n - 1].mountName == m then effects[n - 1].change else 0
  }

  ghost predicate AllFine(effects: seq<Effect>, n: nat)
    requires n <= |effects|
  {
    forall k :: 0 <= k < n ==> effects[k].fine
  }

  // ---------------------------------------------------------------- the state of a loop

  ghost predicate PartsDone(v: World, w: World, i: nat, effects: seq<Effect>) {
    && i <= |v.disk.parts| == |w.disk.parts| == |effects|
    && (forall k :: 0 <= k < i ==> w.disk.parts[k] == effects[k].part)
    && (forall k :: i <= k < |v.disk.parts| ==> w.disk.parts[k] == v.disk.parts[k])
    && w.disk == v.disk.(parts := w.disk.parts) && w.sources == v.sources
  }

  ghost predicate MountsDone(v: World, w: World, i: nat, effects: seq<Effect>)
    requires i <= |v.disk.parts| == |effects|
  {
    forall m: string :: w.mounts[m] == v.mounts[m] + ChangeAt(v.disk.parts, effects, i, m)
  }

  /** The loop has handled the first i partitions of v; w is the state now and result its verdict so far. */
  ghost predicate Reached(v: World, w: World, i: nat, effects: seq<Effect>, result: Status, bad: Status) {
    && PartsDone(v, w, i, effects) && MountsDone(v, w, i, effects)
    && !bad.Success? && result == if AllFine(effects, i) then Success else bad
  }

  /** A call on partition p had effect e. */
  ghost predicate HadEffect(p: Part, mounts: multiset<string>, o: Outcome, e: Effect) {
    && o.part == e.part && (o.status.Success? <==> e.fine)
    && forall m: string :: o.mounts[m] == mounts[m] + if m == p.mountName then e.change else 0
  }

  lemma MountsStep(v: World, w: World, i: nat, effects: seq<Effect>, o: Outcome)
    requires i < |v.disk.parts| == |w.disk.parts| == |effects| && w.disk.parts[i] == v.disk.parts[i]
    requires MountsDone(v, w, i, effects) && HadEffect(w.disk.parts[i], w.mounts, o, effects[i])
    ensures MountsDone(v, With(w, i, o), i + 1, effects)
  {
    forall m: string ensures o.mounts[m] == v.mounts[m] + ChangeAt(v.disk.parts, effects, i + 1, m) {
      assert w.mounts[m] == v.mounts[m] + ChangeAt(v.disk.parts, effects, i, m);
    }
  }

  lemma FineStep(effects: seq<Effect>, i: nat)
    requires i < |effects|
    ensures AllFine(effects, i + 1) <==> AllFine(effects, i) && effects[i].fine
  {
  }

  lemma ReachedStep(v: World, w: World, i: nat, effects: seq<Effect>, result: Status, bad: Status, o: Outcome)
    requires Reached(v, w, i, effects, result, bad) && i < |v.disk.parts|
    requires HadEffect(w.disk.parts[i], w.mounts, o, effects[i])
    ensures Reached(v, With(w, i, o), i + 1, effects, if o.status.Success? then result else bad, bad)
  {
    MountsStep(v, w, i, effects, o);
    FineStep(effects, i);
  }

  /** A partition the loop passes over. */
  lemma ReachedSkip(v: World, w: World, i: nat, effects: seq<Effect>, result: Status, bad: Status)
    requires Reached(v, w, i, effects, result, bad) && i < |v.disk.parts|
    requires effects[i] == Effect(v.disk.parts[i], 0, true)
    ensures Reached(v, w, i + 1, effects, result, bad)
  {
    FineStep(effects, i);
    forall m: string ensures w.mounts[m] == v.mounts[m] + ChangeAt(v.disk.parts, effects, i + 1, m) {
      assert w.mounts[m] == v.mounts[m] + ChangeAt(v.disk.parts, effects, i, m);
    }
  }

  lemma ReachedStart(v: World, effects: seq<Effect>, bad: Status)
    requires !bad.Success? && |effects| == |v.disk.parts|
    ensures Reached(v, v, 0, effects, Success, bad)
  {
  }

  /**
   * What a whole loop from w to u comes to: it succeeds exactly if every effect is fine, each
   * partition is as its own effect says, the mount table changes by the effects and nothing
   * else, and the device and its timeout stay as they were.
   */
  ghost predicate Did(w: World, u: World, effects: seq<Effect>, status: Status, bad: Status) {
    && |effects| == |w.disk.parts|
    && (status.Success? <==> forall k :: 0 <= k < |effects| ==> effects[k].fine)
    && (!status.Success? ==> status == bad)
    && DidParts(w, u, effects)
    && u.disk == w.disk.(parts := u.disk.parts)
  }

  ghost predicate DidParts(w: World, u: World, effects: seq<Effect>) {
    && |effects| == |w.disk.parts| == |u.disk.parts|
    && (forall k :: 0 <= k < |effects| ==> u.disk.parts[k] == effects[k].part)
    && (forall m: string :: u.mounts[m] == w.mounts[m] + ChangeAt(w.disk.parts, effects, |effects|, m))
    && u.sources == w.sources
  }

  lemma ReachedEnd(v: World, u: World, effects: seq<Effect>, status: Status, bad: Status)
    requires Reached(v, u, |v.disk.parts|, effects, status, bad)
    ensures Did(v, u, effects, status, bad)
  {
  }

  // ---------------------------------------------------------------- unmount all

  lemma UmountHasEffect(p: Part, mounts: multiset<string>, a: Answers, lazy: bool)
    requires p.mounted ==> p.mountName in mounts
    ensures HadEffect(p, mounts, Umount(p, mounts, a, lazy), UmountEffect(p, a, lazy))
  {
  }

  lemma UmountStepInv(w: World, i: nat, a: Answers, lazy: bool)
    requires Inv(w) && i < |w.disk.parts|
    ensures Inv(With(w, i, Umount(w.disk.parts[i], w.mounts, a, lazy)))
  {
    UmountSound(w.disk.parts[i], w.mounts, a, lazy);
    WithInv(w, i, Umount(w.disk.parts[i], w.mounts, a, lazy));
  }

  /** One round of the loop, from w with verdict result to w1 with verdict next. */
  lemma UmountReachesOne(v: World, w: World, i: nat, env: nat -> Answers, lazy: bool,
                         effects: seq<Effect>, result: Status)
    returns (w1: World, next: Status)
    requires effects == UmountEffects(v.disk.parts, env, lazy)
    requires Inv(w) && Reached(v, w, i, effects, result, UmountAllFail) && i < |w.disk.parts|
    ensures Inv(w1) && Reached(v, w1, i + 1, effects, next, UmountAllFail) && |w1.disk.parts| == |w.disk.parts|
    ensures UmountFrom(w, i, env, lazy, result) == UmountFrom(w1, i + 1, env, lazy, next)
  {
    var o := Umount(w.disk.parts[i], w.mounts, env(i), lazy);
    w1, next := With(w, i, o), if o.status.Success? then result else UmountAllFail;
    assert effects[i] == UmountEffect(w.disk.parts[i], env(i), lazy);
    UmountHasEffect(w.disk.parts[i], w.mounts, env(i), lazy);
    ReachedStep(v, w, i, effects, result, UmountAllFail, o);
    UmountStepInv(w, i, env(i), lazy);
  }

  lemma {:induction false} UmountFromReaches(v: World, w: World, i: nat, env: nat -> Answers, lazy: bool,
                                             effects: seq<Effect>, result: Status)
    requires effects == UmountEffects(v.disk.parts, env, lazy)
    requires Inv(w) && Reached(v, w, i, effects, result, UmountAllFail)
    ensures var (u, status) := UmountFrom(w, i, env, lazy, result);
      Reached(v, u, |v.disk.parts|, effects, status, UmountAllFail)
    decreases |w.disk.parts| - i
  {
    if i < |w.disk.parts| {
      var w1, next := UmountReachesOne(v, w, i, env, lazy, effects, result);
      UmountFromReaches(v, w1, i + 1, env, lazy, effects, next);
    }
  }

  /**
   * Unmount-all succeeds exactly if no mounted partition was busy (unless lazy) and none failed;
   * it goes on past a busy one; unmounted ones are untouched, every other one is decided by its
   * own answers alone; and the mount table loses exactly the points that were freed.
   */
  lemma UmountAllExact(w: World, env: nat -> Answers, lazy: bool)
    requires Inv(w)
    ensures var (u, status) := UmountAll(w, env, lazy);
      Did(w, u, UmountEffects(w.disk.parts, env, lazy), status, UmountAllFail)
  {
    var effects := UmountEffects(w.disk.parts, env, lazy);
    ReachedStart(w, effects, UmountAllFail);
    UmountFromReaches(w, w, 0, env, lazy, effects, Success);
    var (u, status) := UmountAll(w, env, lazy);
    ReachedEnd(w, u, effects, status, UmountAllFail);
  }

  /**
   * An eject succeeds exactly if no mounted partition was busy or could not be unmounted; then no
   * partition is reported mounted and the device is marked as ejected. A failed one leaves the
   * device's marks alone; either way each partition and the mount table are as unmount-all leaves them.
   */
  lemma EjectLeavesNothingMounted(w: World, env: nat -> Answers)
    requires Inv(w)
    ensures var (u, status) := Eject(w, env);
      && (status.Success? || status.EjectFail?)
      && (status.Success? <==>
           forall k :: 0 <= k < |w.disk.parts| && w.disk.parts[k].mounted ==> !env(k).busy && env(k).umountOk)
      && (status.Success? ==> forall k :: 0 <= k < |u.disk.parts| ==> !u.disk.parts[k].mounted)
      && u.disk == w.disk.(parts := u.disk.parts,
                           errorReason := if status.Success? then Ejected else w.disk.errorReason,
                           deviceStatus := if status.Success? then Ejected else w.disk.deviceStatus)
      && DidParts(w, u, UmountEffects(w.disk.parts, env, false))
  {
    var effects := UmountEffects(w.disk.parts, env, false);
    UmountAllExact(w, env, false);
    var (u, status) := UmountAll(w, env, false);
    forall k | 0 <= k < |w.disk.parts|
      ensures effects[k].fine <==> (w.disk.parts[k].mounted ==> !env(k).busy && env(k).umountOk)
      ensures effects[k].fine ==> !effects[k].part.mounted
    {
      assert effects[k] == UmountEffect(w.disk.parts[k], env(k), false);
    }
  }

  // ---------------------------------------------------------------- mount all

  lemma MountHasEffect(p: Part, mounts: multiset<string>, a: Answers)
    ensures HadEffect(p, mounts, Mount(p, mounts, a), MountEffect(p, a))
  {
  }

  lemma MountReachesOne(v: World, w: World, i: nat, env: nat -> Answers, effects: seq<Effect>, result: Status)
    returns (w1: World, next: Status)
    requires effects == MountEffects(v.disk.parts, env)
    requires Reached(v, w, i, effects, result, MountAllFail) && i < |w.disk.parts|
    ensures Reached(v, w1, i + 1, effects, next, MountAllFail) && |w1.disk.parts| == |w.disk.parts|
    ensures MountFrom(w, i, env, result) == MountFrom(w1, i + 1, env, next)
  {
    if w.disk.parts[i].supportedFs {
      var o := Mount(w.disk.parts[i], w.mounts, env(i));
      w1, next := With(w, i, o), if o.status.Success? then result else MountAllFail;
      MountHasEffect(w.disk.parts[i], w.mounts, env(i));
      ReachedStep(v, w, i, effects, result, MountAllFail, o);
    } else {
      w1, next := w, result;
      ReachedSkip(v, w, i, effects, result, MountAllFail);
    }
  }

  lemma {:induction false} MountFromReaches(v: World, w: World, i: nat, env: nat -> Answers,
                                            effects: seq<Effect>, result: Status)
    requires effects == MountEffects(v.disk.parts, env)
    requires Reached(v, w, i, effects, result, MountAllFail)
    ensures var (u, status) := MountFrom(w, i, env, result);
      Reached(v, u, |v.disk.parts|, effects, status, MountAllFail)
    decreases |w.disk.parts| - i
  {
    if i < |w.disk.parts| {
      var w1, next := MountReachesOne(v, w, i, env, effects, result);
      MountFromReaches(v, w1, i + 1, env, effects, next);
    }
  }

  /**
   * Mount-all succeeds exactly if every supported partition could be mounted; it goes on past one
   * that could not; each supported partition reports what became of it and has one more mount if
   * it worked; unsupported ones are untouched.
   */
  lemma MountAllExact(w: World, env: nat -> Answers)
    ensures var (u, status) := MountAll(w, env);
      && Did(w, u, MountEffects(w.disk.parts, env), status, MountAllFail)
      && (status.Success? <==>
           forall k :: 0 <= k < |w.disk.parts| && w.disk.parts[k].supportedFs ==> CanMount(w.disk.parts[k], env(k)))
  {
    var effects := MountEffects(w.disk.parts, env);
    ReachedStart(w, effects, MountAllFail);
    MountFromReaches(w, w, 0, env, effects, Success);
    var (u, status) := MountAll(w, env);
    ReachedEnd(w, u, effects, status, MountAllFail);
    forall k | 0 <= k < |w.disk.parts|
      ensures effects[k].fine <==> (w.disk.parts[k].supportedFs ==> CanMount(w.disk.parts[k], env(k)))
    {
      var p := w.disk.parts[k];
      assert effects[k] == if p.supportedFs then MountEffect(p, env(k)) else Effect(p, 0, true);
    }
  }

  // ---------------------------------------------------------------- enforced check and mount

  lemma FsckHasEffect(p: Part, mounts: multiset<string>, a: Answers)
    ensures HadEffect(p, mounts, Fsck(p, mounts, a, FORCE), FsckEffect(p, a))
  {
    MountHasEffect(Checked(p, a.fsckExit), mounts, a);
  }

  predicate EnforceCalls(p: Part, needFsck: bool) {
    (!needFsck && !p.mounted) || p.fsckStatus == FsckResult(FsckTimeout)
  }

  function EnforceCall(p: Part, mounts: multiset<string>, a: Answers, needFsck: bool): Outcome
    requires EnforceCalls(p, needFsck)
  {
    if !needFsck && !p.mounted then Mount(p, mounts, a) else Fsck(p, mounts, a, FORCE)
  }

  lemma EnforceHasEffect(p: Part, mounts: multiset<string>, a: Answers, needFsck: bool)
    requires EnforceCalls(p, needFsck)
    ensures HadEffect(p, mounts, EnforceCall(p, mounts, a, needFsck), EnforceEffect(p, a, needFsck))
  {
    if !needFsck && !p.mounted { MountHasEffect(p, mounts, a); } else { FsckHasEffect(p, mounts, a); }
  }

  lemma EnforceReachesOne(v: World, w: World, i: nat, env: nat -> Answers, needFsck: bool,
                          effects: seq<Effect>, result: Status)
    returns (w1: World, next: Status)
    requires effects == EnforceEffects(v.disk.parts, env, needFsck)
    requires Reached(v, w, i, effects, result, Error) && i < |w.disk.parts|
    ensures Reached(v, w1, i + 1, effects, next, Error) && |w1.disk.parts| == |w.disk.parts|
    ensures EnforceFrom(w, i, env, needFsck, result) == EnforceFrom(w1, i + 1, env, needFsck, next)
  {
    var p := w.disk.parts[i];
    assert effects[i] == EnforceEffect(p, env(i), needFsck);
    if EnforceCalls(p, needFsck) {
      var o := EnforceCall(p, w.mounts, env(i), needFsck);
      w1, next := With(w, i, o), if o.status.Success? then result else Error;
      EnforceHasEffect(p, w.mounts, env(i), needFsck);
      ReachedStep(v, w, i, effects, result, Error, o);
    } else {
      w1, next := w, result;
      ReachedSkip(v, w, i, effects, result, Error);
    }
  }

  lemma {:induction false} EnforceFromReaches(v: World, w: World, i: nat, env: nat -> Answers, needFsck: bool,
                                              effects: seq<Effect>, result: Status)
    requires effects == EnforceEffects(v.disk.parts, env, needFsck)
    requires Reached(v, w, i, effects, result, Error)
    ensures var (u, status) := EnforceFrom(w, i, env, needFsck, result);
      Reached(v, u, |v.disk.parts|, effects, status, Error)
    decreases |w.disk.parts| - i
  {
    if i < |w.disk.parts| {
      var w1, next := EnforceReachesOne(v, w, i, env, needFsck, effects, result);
      EnforceFromReaches(v, w1, i + 1, env, needFsck, effects, next);
    }
  }

  /** The device fields an enforced mount touches. */
  function Settled(d: Disk, ok: bool): Disk {
    if ok then d.(errorReason := Nothing, deviceIsMounted := true) else d
  }

  predicate AllMounted(parts: seq<Part>) {
    forall k :: 0 <= k < |parts| ==> parts[k].mounted
  }

  predicate TimedOut(p: Part) {
    p.fsckStatus == FsckResult(FsckTimeout)
  }

  /**
   * An enforced check and mount handles each partition on its own as EnforceEffect says, and
   * succeeds exactly if all of that worked; exactly then the error reason is cleared and the device
   * reports itself mounted. That report is right about every partition exactly if no check was
   * demanded, or each partition was mounted or timed out before; and about at least one exactly
   * if one was mounted or timed out before, or no check was demanded and there is a partition.
   */
  lemma EnforceExact(w: World, env: nat -> Answers, needFsck: bool)
    ensures var (u, status) := Enforce(w, env, needFsck);
      && Did(w, u.(disk := u.disk.(errorReason := w.disk.errorReason, deviceIsMounted := w.disk.deviceIsMounted)),
             EnforceEffects(w.disk.parts, env, needFsck), status, Error)
      && u.disk == Settled(w.disk, status.Success?).(parts := u.disk.parts)
      && (status.Success? ==>
           && (AllMounted(u.disk.parts) <==>
                !needFsck
                || forall k :: 0 <= k < |w.disk.parts| ==> w.disk.parts[k].mounted || TimedOut(w.disk.parts[k]))
           && (AnyMounted(u.disk.parts) <==>
                if needFsck then AnyMounted(w.disk.parts) || AnyTimedOut(w.disk.parts) else w.disk.parts != []))
  {
    var effects := EnforceEffects(w.disk.parts, env, needFsck);
    ReachedStart(w, effects, Error);
    EnforceFromReaches(w, w, 0, env, needFsck, effects, Success);
    var (u, status) := EnforceFrom(w, 0, env, needFsck, Success);
    ReachedEnd(w, u, effects, status, Error);
    if status.Success? {
      EnforcedMounts(w.disk.parts, env, needFsck, u.disk.parts);
    }
  }

  /** What became mounted when every effect was fine. */
  lemma EnforcedMounts(before: seq<Part>, env: nat -> Answers, needFsck: bool, after: seq<Part>)
    requires |after| == |before|
    requires var effects := EnforceEffects(before, env, needFsck);
      forall k :: 0 <= k < |before| ==> effects[k].fine && after[k] == effects[k].part
    ensures AllMounted(after) <==>
      !needFsck || forall k :: 0 <= k < |before| ==> before[k].mounted || TimedOut(before[k])
    ensures AnyMounted(after) <==>
      if needFsck then AnyMounted(before) || AnyTimedOut(before) else before != []
  {
    forall k | 0 <= k < |before|
      ensures after[k].mounted <==> !needFsck || before[k].mounted || TimedOut(before[k])
    {
      var effects := EnforceEffects(before, env, needFsck);
      assert effects[k] == EnforceEffect(before[k], env(k), needFsck) && effects[k].fine;
    }
    if !needFsck && before != [] {
      assert after[0].mounted;
    }
  }

  /**
   * With a check demanded and none timed out, nothing is tried: the device comes out as mounted,
   * whatever is mounted.
   */
  lemma EnforcedCheckMayMountNothing(w: World, env: nat -> Answers)
    requires !AnyTimedOut(w.disk.parts)
    ensures Enforce(w, env, true) == (w.(disk := Settled(w.disk, true)), Success)
  {
    EnforceFromPasses(w, 0, env);
  }

  /** Such a device: one partition, unmounted and never checked. */
  lemma UnmountedDeviceReportsMounted(w: World, p: Part, env: nat -> Answers)
    requires w.disk.parts == [p] && !p.mounted && p.fsckStatus == FsckNone
    ensures var (u, status) := Enforce(w, env, true);
      status.Success? && u.disk.deviceIsMounted && u.disk.errorReason.Nothing? && !AnyMounted(u.disk.parts)
  {
    EnforcedCheckMayMountNothing(w, env);
  }

  lemma {:induction false} EnforceFromPasses(w: World, i: nat, env: nat -> Answers)
    requires !AnyTimedOut(w.disk.parts)
    ensures EnforceFrom(w, i, env, true, Success) == (w, Success)
    decreases |w.disk.parts| - i
  {
    if i < |w.disk.parts| {
      EnforceFromPasses(w, i + 1, env);
    }
  }
}
