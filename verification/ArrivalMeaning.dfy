/** What a partition event of a storage device does: which batch it starts, and what that is. */
module ArrivalMeaning {
  import opened CommandTables
  import opened StorageModel
  import opened StorageLoops
  import opened StorageMeaning

  /** The file systems that are mounted, and on what. */
  predicate Usable(st: StorageType, fsType: string) {
    st in {UsbStick, UsbHdd, UsbCardReader, Emmc} && fsType in {"vfat", "ntfs", "ext2", "ext3", "ext4"}
  }

  /** The partition an event brings: unmounted, unchecked, and supported or not by its type and its disk's. */
  function Arrived(d: Disk, ev: PartEvent): Part {
    Part(ev.name, if ev.name == "" || d.rootPath == "" then "" else d.rootPath + "/" + ev.name, ev.fsType, ev.fsLabel,
         d.storageType, Usable(d.storageType, ev.fsType), false, MountNotOk, FsckNone)
  }

  lemma ArrivedIsNew(d: Disk, ev: PartEvent)
    ensures NewPart(d, ev) == Arrived(d, ev)
  {
    SupportedExactly(d.storageType, ev.fsType);
  }

  predicate Known(parts: seq<Part>, name: string) {
    name != "" && exists i :: 0 <= i < |parts| && parts[i].driveName == name
  }

  lemma FoundIfKnown(parts: seq<Part>, name: string)
    ensures FindPartition(parts, name).Some? <==> Known(parts, name)
  {
    var found := FindPartition(parts, name);
    if found.Some? { assert parts[found.value].driveName == name; }
  }

  /** The world with the new partition at the end of the list. */
  function Appended(w: World, ev: PartEvent): World {
    w.(disk := w.disk.(parts := w.disk.parts + [Arrived(w.disk, ev)]))
  }

  /** All partitions are there, or the disk has none that is counted. */
  predicate Complete(d: Disk) {
    d.partitionCount == 0 || |d.parts| == d.partitionCount
  }

  predicate SomeSupported(parts: seq<Part>) {
    exists i :: 0 <= i < |parts| && parts[i].supportedFs
  }

  /**
   * What an arrival starts: nothing for a known name or while partitions are missing. Then, with
   * a supported partition, the direct mount exactly on a write-protected disk, and checking
   * threads exactly on a writable one; and without one, the notice that it has to be formatted.
   */
  lemma ArriveExact(w: World, ev: PartEvent, env: nat -> Answers, v: World, batch: Batch)
    requires (v, batch) == Arrive(w, ev, env)
    ensures var u := Appended(w, ev); var starts := !Known(w.disk.parts, ev.name) && Complete(u.disk);
      && (batch == NoBatch <==> !starts)
      && (batch == DirectMount <==> starts && SomeSupported(u.disk.parts) && w.disk.readOnly)
      && (batch.FsckThreads? <==> starts && SomeSupported(u.disk.parts) && !w.disk.readOnly)
      && (batch == UnsupportedNotice <==> starts && !SomeSupported(u.disk.parts))
      && (Known(w.disk.parts, ev.name) ==> v == w)
      && (!Known(w.disk.parts, ev.name) && !starts ==> v == u)
      && (batch == DirectMount ==> MountedDirectly(u, v, env))
      && (batch.FsckThreads? ==> CheckingStarted(u, v, batch.n, env(0).sourceId))
      && (batch == UnsupportedNotice ==>
            v == World(u.disk.(errorReason := UnsupportFs, hasUnsupportedFs := true, devAddNotified := true),
                       u.mounts, u.notices + [Add, UnsupportedFsFormatNeeded], u.sources))
  {
    FoundIfKnown(w.disk.parts, ev.name);
    ArrivedIsNew(w.disk, ev);
    if !Known(w.disk.parts, ev.name) {
      BeginExact(Appended(w, ev), env, v, batch);
    }
  }

  lemma BeginExact(u: World, env: nat -> Answers, v: World, batch: Batch)
    requires (v, batch) == Begin(u, env)
    ensures batch == NoBatch <==> !Complete(u.disk)
    ensures batch == DirectMount <==> Complete(u.disk) && SomeSupported(u.disk.parts) && u.disk.readOnly
    ensures batch.FsckThreads? <==> Complete(u.disk) && SomeSupported(u.disk.parts) && !u.disk.readOnly
    ensures batch == UnsupportedNotice <==> Complete(u.disk) && !SomeSupported(u.disk.parts)
    ensures batch == NoBatch ==> v == u
    ensures batch == DirectMount ==> MountedDirectly(u, v, env)
    ensures batch.FsckThreads? ==> CheckingStarted(u, v, batch.n, env(0).sourceId)
    ensures batch == UnsupportedNotice ==>
      v == World(u.disk.(errorReason := UnsupportFs, hasUnsupportedFs := true, devAddNotified := true),
                 u.mounts, u.notices + [Add, UnsupportedFsFormatNeeded], u.sources)
  {
    if batch == DirectMount {
      DirectMountExact(u, env);
    } else if batch.FsckThreads? {
      ChecksExact(u, env(0).sourceId);
    }
  }

  /** A partition after the attempt to mount it, if it is supported. */
  function MountedOrNot(p: Part, a: Answers): Part {
    if !p.supportedFs then p
    else if CanMount(p, a) then Marked(p, true, MountOk) else Marked(p, false, MountNotOk)
  }

  /**
   * The direct mount: each supported partition is mounted or not as its own answers say, the others
   * are as they were, no thread is started, and what then is due is announced.
   */
  ghost predicate MountedDirectly(u: World, v: World, env: nat -> Answers) {
    && |v.disk.parts| == |u.disk.parts|
    && (forall k :: 0 <= k < |u.disk.parts| ==> v.disk.parts[k] == MountedOrNot(u.disk.parts[k], env(k)))
    && (forall m: string :: v.mounts[m] == u.mounts[m] + Gained(u.disk.parts, env, |u.disk.parts|, m))
    && v.disk == Announced(u.disk.(parts := v.disk.parts))
    && v.notices == u.notices + MountNotices(u.disk.parts, env, 0) + Announcement(v.disk.parts)
    && v.sources == u.sources
  }

  /** How many of the first n partitions are supported and now mounted on m. */
  function Gained(parts: seq<Part>, env: nat -> Answers, n: nat, m: string): int
    requires n <= |parts|
  {
    if n == 0 then 0
    else
      Gained(parts, env, n - 1, m)
      + if parts[n - 1].supportedFs && parts[n - 1].mountName == m && CanMount(parts[n - 1], env(n - 1)) then 1 else 0
  }

  lemma {:induction false} GainedChange(parts: seq<Part>, env: nat -> Answers, effects: seq<Effect>, n: nat, m: string)
    requires n <= |parts| && effects == MountEffects(parts, env)
    ensures ChangeAt(parts, effects, n, m) == Gained(parts, env, n, m)
  {
    if n > 0 {
      GainedChange(parts, env, effects, n - 1, m);
      var p := parts[n - 1];
      assert effects[n - 1] == if p.supportedFs then MountEffect(p, env(n - 1)) else Effect(p, 0, true);
    }
  }

  lemma DirectMountExact(u: World, env: nat -> Answers)
    ensures MountedDirectly(u, Notification(MountAll(u, env).0), env)
  {
    var effects := MountEffects(u.disk.parts, env);
    var m := MountAll(u, env).0;
    MountAllExact(u, env);
    NotificationAnnounces(m);
    var v := Notification(m);
    forall k | 0 <= k < |u.disk.parts|
      ensures v.disk.parts[k] == MountedOrNot(u.disk.parts[k], env(k))
    {
      var p := u.disk.parts[k];
      assert effects[k] == if p.supportedFs then MountEffect(p, env(k)) else Effect(p, 0, true);
    }
    forall point: string
      ensures v.mounts[point] == u.mounts[point] + Gained(u.disk.parts, env, |u.disk.parts|, point)
    {
      GainedChange(u.disk.parts, env, effects, |u.disk.parts|, point);
    }
    MountAllSays(u, env);
  }

  /**
   * The checks: one new thread for each supported partition, in the order of the list, all still to
   * check; they are counted; the timeout is armed anew; and nothing else has happened yet.
   */
  ghost predicate CheckingStarted(u: World, v: World, n: nat, id: nat) {
    var threads := v.disk.fsckThreads;
    && |threads| == |u.disk.fsckThreads| + n && n >= 1
    && threads[..|u.disk.fsckThreads|] == u.disk.fsckThreads
    && OnePerSupported(threads[|u.disk.fsckThreads|..], u.disk.parts)
    && v == World(u.disk.(fsckThreads := threads, fsckThreadCount := u.disk.fsckThreadCount + n, timeoutId := id),
                  u.mounts, u.notices,
                  (if u.disk.timeoutId == 0 then u.sources else u.sources - {u.disk.timeoutId}) + {id})
  }

  /** The threads are for the supported partitions, in order, each for one of its own. */
  ghost predicate OnePerSupported(threads: seq<FsckThread>, parts: seq<Part>) {
    && (forall k :: 0 <= k < |threads| ==>
         threads[k].progress == ToCheck && threads[k].at < |parts| && parts[threads[k].at].supportedFs)
    && (forall j, k :: 0 <= j < k < |threads| ==> threads[j].at < threads[k].at)
    && (forall i :: 0 <= i < |parts| && parts[i].supportedFs ==> FsckThread(i, ToCheck) in threads)
  }

  /** Exactly the supported positions from i on, in order. */
  ghost predicate SupportedPositions(ps: seq<nat>, parts: seq<Part>, i: nat) {
    && (forall k :: 0 <= k < |ps| ==> i <= ps[k] < |parts| && parts[ps[k]].supportedFs)
    && (forall j, k :: 0 <= j < k < |ps| ==> ps[j] < ps[k])
    && (forall p :: i <= p < |parts| && parts[p].supportedFs ==> p in ps)
  }

  lemma {:induction false} SupportedFromExact(parts: seq<Part>, i: nat)
    ensures SupportedPositions(SupportedFrom(parts, i), parts, i)
    decreases |parts| - i
  {
    if i < |parts| {
      SupportedFromExact(parts, i + 1);
      PositionsOneMore(SupportedFrom(parts, i + 1), parts, i);
    }
  }

  lemma PositionsOneMore(rest: seq<nat>, parts: seq<Part>, i: nat)
    requires i < |parts| && SupportedPositions(rest, parts, i + 1)
    ensures SupportedPositions((if parts[i].supportedFs then [i] else []) + rest, parts, i)
  {
    if parts[i].supportedFs {
      FirstPosition(rest, parts, i);
    } else {
      assert [] + rest == rest;
    }
  }

  lemma FirstPosition(rest: seq<nat>, parts: seq<Part>, i: nat)
    requires i < |parts| && parts[i].supportedFs && SupportedPositions(rest, parts, i + 1)
    ensures SupportedPositions([i] + rest, parts, i)
  {
    var ps := [i] + rest;
    forall p | i <= p < |parts| && parts[p].supportedFs ensures p in ps {
      if p == i { assert ps[0] == p; } else { assert p in rest; }
    }
    forall j, k | 0 <= j < k < |ps| ensures ps[j] < ps[k] {
      assert ps[k] == rest[k - 1];
      if j > 0 { assert ps[j] == rest[j - 1]; }
    }
  }

  lemma SpawnedOnePerSupported(ps: seq<nat>, parts: seq<Part>)
    requires SupportedPositions(ps, parts, 0)
    ensures OnePerSupported(Spawned(ps), parts)
    ensures SomeSupported(parts) ==> |ps| >= 1
  {
    var threads := Spawned(ps);
    forall i | 0 <= i < |parts| && parts[i].supportedFs ensures FsckThread(i, ToCheck) in threads {
      var k :| 0 <= k < |ps| && ps[k] == i;
      assert threads[k] == FsckThread(i, ToCheck);
    }
  }

  lemma ChecksExact(u: World, id: nat)
    requires SomeSupported(u.disk.parts)
    ensures CheckingStarted(u, Arm(Spawn(u, SupportedFrom(u.disk.parts, 0)), id), |SupportedFrom(u.disk.parts, 0)|, id)
  {
    var ps := SupportedFrom(u.disk.parts, 0);
    SupportedFromExact(u.disk.parts, 0);
    SpawnedOnePerSupported(ps, u.disk.parts);
    SpawnStarts(u, ps, id);
  }

  lemma SpawnStarts(u: World, ps: seq<nat>, id: nat)
    requires OnePerSupported(Spawned(ps), u.disk.parts) && |ps| >= 1
    ensures CheckingStarted(u, Arm(Spawn(u, ps), id), |ps|, id)
  {
    ArmExact(Spawn(u, ps), id);
    assert (u.disk.fsckThreads + Spawned(ps))[|u.disk.fsckThreads|..] == Spawned(ps);
  }
}
