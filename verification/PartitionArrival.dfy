/**
 * A disk of n partitions starts one batch, at the event that brings the n-th distinct name, whatever
 * else goes on; which batch that is follows from the events and the write protection.
 */
module PartitionArrival {
  import opened Base
  import opened CommandTables
  import opened StorageModel
  import opened StorageRuns
  import opened StorageLoops
  import opened ArrivalMeaning

  /** The partitions are never dropped, and every partition event names one. */
  ghost predicate Proper(ops: seq<Op>) {
    forall i :: 0 <= i < |ops| ==> !ops[i].OpDelete? && (ops[i].OpArrive? ==> ops[i].ev.name != "")
  }

  /** The world after the first k operations. */
  function WorldAfter(w: World, ops: seq<Op>, k: nat): World
    requires k <= |ops|
  {
    if k == 0 then w else Step(WorldAfter(w, ops, k - 1), ops[k - 1])
  }

  function BatchAt(w: World, ops: seq<Op>, k: nat): Batch
    requires k < |ops|
  {
    match ops[k]
    case OpArrive(ev, env) => Arrive(WorldAfter(w, ops, k), ev, env).1
    case _ => NoBatch
  }

  /** How many of the first k operations started a batch. */
  function BatchesStarted(w: World, ops: seq<Op>, k: nat): nat
    requires k <= |ops|
  {
    if k == 0 then 0
    else BatchesStarted(w, ops, k - 1) + if BatchAt(w, ops, k - 1).NoBatch? then 0 else 1
  }

  /** The name an operation brings that is not among the names before. */
  predicate BringsNew(op: Op, before: seq<string>) {
    op.OpArrive? && op.ev.name !in before
  }

  /** The distinct names among the first k operations, in order of first appearance. */
  function NamesSeen(ops: seq<Op>, k: nat): seq<string>
    requires k <= |ops|
  {
    if k == 0 then []
    else
      var before := NamesSeen(ops, k - 1);
      if BringsNew(ops[k - 1], before) then before + [ops[k - 1].ev.name] else before
  }

  /** The events that brought them. */
  function FirstEvents(ops: seq<Op>, k: nat): seq<PartEvent>
    requires k <= |ops|
  {
    if k == 0 then []
    else
      var before := FirstEvents(ops, k - 1);
      if BringsNew(ops[k - 1], NamesSeen(ops, k - 1)) then before + [ops[k - 1].ev] else before
  }

  /** Which of some events bring a usable file system to a disk of that type. */
  function Usables(st: StorageType, evs: seq<PartEvent>): (r: seq<bool>)
    ensures |r| == |evs|
  {
    seq(|evs|, i requires 0 <= i < |evs| => Usable(st, evs[i].fsType))
  }

  ghost predicate Arrives(ops: seq<Op>, k: nat, x: string)
    requires k <= |ops|
  {
    exists i :: 0 <= i < k && ops[i].OpArrive? && ops[i].ev.name == x
  }

  lemma {:induction false} SeenOnceEach(ops: seq<Op>, k: nat)
    requires k <= |ops|
    ensures Distinct(NamesSeen(ops, k))
    ensures forall x :: x in NamesSeen(ops, k) <==> Arrives(ops, k, x)
  {
    if k > 0 {
      SeenOnceEach(ops, k - 1);
      forall x ensures x in NamesSeen(ops, k) <==> Arrives(ops, k, x) {
        SeenUpTo(ops, k, x);
      }
    }
  }

  lemma SeenUpTo(ops: seq<Op>, k: nat, x: string)
    requires 0 < k <= |ops|
    requires x in NamesSeen(ops, k - 1) <==> Arrives(ops, k - 1, x)
    ensures x in NamesSeen(ops, k) <==> Arrives(ops, k, x)
  {
    if Arrives(ops, k - 1, x) {
      var i :| 0 <= i < k - 1 && ops[i].OpArrive? && ops[i].ev.name == x;
      assert Arrives(ops, k, x);
    } else if Arrives(ops, k, x) {
      var i :| 0 <= i < k && ops[i].OpArrive? && ops[i].ev.name == x;
      assert i == k - 1;
    }
  }

  function Names(parts: seq<Part>): (r: seq<string>)
    ensures |r| == |parts|
  {
    seq(|parts|, i requires 0 <= i < |parts| => parts[i].driveName)
  }

  function Supports(parts: seq<Part>): (r: seq<bool>)
    ensures |r| == |parts|
  {
    seq(|parts|, i requires 0 <= i < |parts| => parts[i].supportedFs)
  }

  // ---------------------------------------------------------------- what keeps the names

  ghost predicate KeepsKind(w: World, v: World) {
    && v.disk.partitionCount == w.disk.partitionCount
    && v.disk.readOnly == w.disk.readOnly && v.disk.storageType == w.disk.storageType
  }

  ghost predicate KeepsNames(w: World, v: World) {
    && Names(v.disk.parts) == Names(w.disk.parts) && Supports(v.disk.parts) == Supports(w.disk.parts)
    && KeepsKind(w, v)
  }

  /** The two partitions have one name, and are both supported or both not. */
  predicate Alike(p: Part, q: Part) {
    p.driveName == q.driveName && p.supportedFs == q.supportedFs
  }

  lemma WithKeepsNames(w: World, i: nat, o: Outcome)
    requires i < |w.disk.parts| && Alike(o.part, w.disk.parts[i])
    ensures KeepsNames(w, With(w, i, o))
  {
  }

  lemma CallsKeepName(p: Part, mounts: multiset<string>, a: Answers, lazy: bool, mode: string)
    ensures Alike(Umount(p, mounts, a, lazy).part, p)
    ensures Alike(Mount(p, mounts, a).part, p)
    ensures Alike(Fsck(p, mounts, a, mode).part, p)
  {
    FsckKeepsName(p, mounts, a, mode);
  }

  lemma FsckKeepsName(p: Part, mounts: multiset<string>, a: Answers, mode: string)
    ensures Alike(Fsck(p, mounts, a, mode).part, p)
  {
    var q := Checked(p, a.fsckExit);
    assert Alike(q, p) && Alike(Mount(q, mounts, a).part, q);
  }

  /** One round of the loop. */
  lemma UmountKeepsNames(w: World, i: nat, env: nat -> Answers, lazy: bool, result: Status)
    returns (v: World, next: Status)
    requires i < |w.disk.parts|
    ensures KeepsNames(w, v) && |v.disk.parts| == |w.disk.parts|
    ensures UmountFrom(w, i, env, lazy, result) == UmountFrom(v, i + 1, env, lazy, next)
  {
    var o := Umount(w.disk.parts[i], w.mounts, env(i), lazy);
    v, next := With(w, i, o), if o.status.Success? then result else UmountAllFail;
    CallsKeepName(w.disk.parts[i], w.mounts, env(i), lazy, AUTO);
    WithKeepsNames(w, i, o);
  }

  lemma {:induction false} UmountFromKeepsNames(w: World, i: nat, env: nat -> Answers, lazy: bool, result: Status)
    ensures KeepsNames(w, UmountFrom(w, i, env, lazy, result).0)
    decreases |w.disk.parts| - i
  {
    if i < |w.disk.parts| {
      var v, next := UmountKeepsNames(w, i, env, lazy, result);
      UmountFromKeepsNames(v, i + 1, env, lazy, next);
    }
  }

  /** A loop whose effects keep each partition's name and support. */
  lemma EffectsKeepNames(before: seq<Part>, after: seq<Part>, effects: seq<Effect>)
    requires |before| == |after| == |effects|
    requires forall k :: 0 <= k < |before| ==> after[k] == effects[k].part && Alike(effects[k].part, before[k])
    ensures Names(after) == Names(before) && Supports(after) == Supports(before)
  {
  }

  lemma MountAllKeepsNames(w: World, env: nat -> Answers)
    ensures KeepsNames(w, MountAll(w, env).0)
  {
    var effects := MountEffects(w.disk.parts, env);
    MountAllExact(w, env);
    forall k | 0 <= k < |w.disk.parts| ensures Alike(effects[k].part, w.disk.parts[k]) {
      var p := w.disk.parts[k];
      assert effects[k] == if p.supportedFs then MountEffect(p, env(k)) else Effect(p, 0, true);
    }
    EffectsKeepNames(w.disk.parts, MountAll(w, env).0.disk.parts, effects);
  }

  lemma EnforceEffectsAlike(parts: seq<Part>, env: nat -> Answers, needFsck: bool, k: nat)
    requires k < |parts|
    ensures Alike(EnforceEffects(parts, env, needFsck)[k].part, parts[k])
  {
    assert EnforceEffects(parts, env, needFsck)[k] == EnforceEffect(parts[k], env(k), needFsck);
  }

  lemma EnforceKeepsNames(w: World, env: nat -> Answers, needFsck: bool)
    ensures KeepsNames(w, Enforce(w, env, needFsck).0)
  {
    EnforceExact(w, env, needFsck);
    forall k | 0 <= k < |w.disk.parts|
      ensures Alike(EnforceEffects(w.disk.parts, env, needFsck)[k].part, w.disk.parts[k])
    {
      EnforceEffectsAlike(w.disk.parts, env, needFsck, k);
    }
    EffectsKeepNames(w.disk.parts, Enforce(w, env, needFsck).0.disk.parts, EnforceEffects(w.disk.parts, env, needFsck));
  }

  lemma MakeFsKeepsNames(w: World, i: nat, requested: string, volLabel: string, a: Answers)
    requires i < |w.disk.parts|
    ensures KeepsNames(w, MakeFs(w, i, requested, volLabel, a).0)
  {
    var (f, verdict) := FormatOutcome(w.disk.parts[i], requested, volLabel, a.mkfsExit);
    var run := MkfsRun(w.disk.parts[i], requested, volLabel);
    var v := WithPart(Tell(w, [FormatStarted(w.disk.parts[i].driveName)] + run), i, f);
    assert KeepsNames(w, v);
    CallsKeepName(f, v.mounts, a, false, AUTO);
    WithKeepsNames(v, i, Mount(f, v.mounts, a));
  }

  lemma FormatKeepsNames(w: World, name: string, fs: string, volLabel: string, a: Answers)
    ensures KeepsNames(w, Format(w, name, fs, volLabel, a).0)
  {
    var found := FindPartition(w.disk.parts, name);
    if found.Some? && !w.disk.readOnly {
      var o := Umount(w.disk.parts[found.value], w.mounts, a, false);
      CallsKeepName(w.disk.parts[found.value], w.mounts, a, false, AUTO);
      WithKeepsNames(w, found.value, o);
      MakeFsKeepsNames(With(w, found.value, o), found.value, fs, volLabel, a);
    }
  }

  lemma FsckDriveKeepsNames(w: World, name: string, a: Answers)
    ensures KeepsNames(w, FsckDrive(w, name, a).0)
  {
    var found := FindPartition(w.disk.parts, name);
    if found.Some? && !w.disk.readOnly {
      var o := Umount(w.disk.parts[found.value], w.mounts, a, false);
      CallsKeepName(w.disk.parts[found.value], w.mounts, a, false, AUTO);
      WithKeepsNames(w, found.value, o);
      FsckKeepsName(o.part, o.mounts, a, AUTO);
      WithKeepsNames(With(w, found.value, o), found.value, Fsck(o.part, o.mounts, a, AUTO));
    }
  }

  lemma LabelKeepsNames(w: World, name: string, volLabel: string, a: Answers)
    ensures KeepsNames(w, SetLabel(w, name, volLabel, a).0)
  {
  }

  lemma ThreadCountsKeepsNames(w: World, k: nat)
    ensures KeepsNames(w, ThreadCounts(w, k))
  {
  }

  lemma ThreadChecksKeepsNames(w: World, k: nat, a: Answers)
    ensures KeepsNames(w, ThreadChecks(w, k, a))
  {
    if ThreadChecks(w, k, a) != w {
      var at := w.disk.fsckThreads[k].at;
      CallsKeepName(w.disk.parts[at], w.mounts, a, false, AUTO);
      WithKeepsNames(w, at, Fsck(w.disk.parts[at], w.mounts, a, AUTO));
    }
  }

  lemma OthersKeepNames(w: World, op: Op)
    requires !op.OpArrive? && !op.OpDelete?
    ensures KeepsNames(w, Step(w, op))
  {
    match op
    case OpMountAll(env) => MountAllKeepsNames(w, env);
    case OpUmountAll(lazy, env) => UmountFromKeepsNames(w, 0, env, lazy, Success);
    case OpEject(env) => UmountFromKeepsNames(w, 0, env, false, Success);
    case OpEnforce(needFsck, env) => EnforceKeepsNames(w, env, needFsck);
    case OpThreadChecks(k, a) => ThreadChecksKeepsNames(w, k, a);
    case OpThreadCounts(k) => ThreadCountsKeepsNames(w, k);
    case OpTimer =>
    case OpFormat(name, fs, volLabel, a) => FormatKeepsNames(w, name, fs, volLabel, a);
    case OpFsck(name, a) => FsckDriveKeepsNames(w, name, a);
    case OpLabel(name, volLabel, a) => LabelKeepsNames(w, name, volLabel, a);
  }

  // ---------------------------------------------------------------- arrivals

  /** The batch for a list of partitions that is complete, from which of them are supported. */
  function KindOf(readOnly: bool, supports: seq<bool>): Batch {
    if true !in supports then UnsupportedNotice
    else if readOnly then DirectMount
    else FsckThreads(Count(supports, true))
  }

  lemma {:induction false} SupportedCount(parts: seq<Part>, i: nat)
    requires i <= |parts|
    ensures |SupportedFrom(parts, i)| == Count(Supports(parts)[i..], true)
    decreases |parts| - i
  {
    if i < |parts| {
      SupportedCount(parts, i + 1);
      assert Supports(parts)[i..][1..] == Supports(parts)[i + 1..];
    }
  }

  lemma BeginKind(u: World, env: nat -> Answers)
    ensures var batch := Begin(u, env).1;
      !batch.NoBatch? ==> batch == KindOf(u.disk.readOnly, Supports(u.disk.parts))
  {
    var flags := Supports(u.disk.parts);
    SupportedCount(u.disk.parts, 0);
    assert flags[0..] == flags;
    if i :| 0 <= i < |flags| && u.disk.parts[i].supportedFs {
      assert flags[i] && AnySupported(u.disk.parts);
    }
  }

  lemma BeginNames(u: World, env: nat -> Answers, v: World, batch: Batch)
    requires (v, batch) == Begin(u, env)
    ensures KeepsNames(u, v)
    ensures !batch.NoBatch? <==> u.disk.partitionCount == 0 || |u.disk.parts| == u.disk.partitionCount
    ensures !batch.NoBatch? ==> batch == KindOf(u.disk.readOnly, Supports(u.disk.parts))
  {
    MountAllKeepsNames(u, env);
    BeginKind(u, env);
  }

  lemma AppendedNames(w: World, ev: PartEvent)
    ensures Names(Appended(w, ev).disk.parts) == Names(w.disk.parts) + [ev.name]
    ensures Supports(Appended(w, ev).disk.parts) == Supports(w.disk.parts) + [Usable(w.disk.storageType, ev.fsType)]
  {
  }

  lemma NameIsKnown(parts: seq<Part>, name: string)
    requires name != ""
    ensures Known(parts, name) <==> name in Names(parts)
  {
    if i :| 0 <= i < |parts| && parts[i].driveName == name {
      assert Names(parts)[i] == name;
    }
  }

  lemma ArriveNames(w: World, ev: PartEvent, env: nat -> Answers, u: World, batch: Batch)
    requires ev.name != "" && (u, batch) == Arrive(w, ev, env)
    ensures KeepsKind(w, u)
    ensures ev.name in Names(w.disk.parts) ==> u == w && batch == NoBatch
    ensures ev.name !in Names(w.disk.parts) ==>
      && Names(u.disk.parts) == Names(w.disk.parts) + [ev.name]
      && Supports(u.disk.parts) == Supports(w.disk.parts) + [Usable(w.disk.storageType, ev.fsType)]
      && (!batch.NoBatch? <==> w.disk.partitionCount == 0 || |w.disk.parts| + 1 == w.disk.partitionCount)
      && (!batch.NoBatch? ==> batch == KindOf(w.disk.readOnly, Supports(u.disk.parts)))
  {
    FoundIfKnown(w.disk.parts, ev.name);
    NameIsKnown(w.disk.parts, ev.name);
    if ev.name !in Names(w.disk.parts) {
      ArrivedIsNew(w.disk, ev);
      AppendedNames(w, ev);
      BeginNames(Appended(w, ev), env, u, batch);
    }
  }

  lemma {:induction false} ArrivalsInv(w: World, ops: seq<Op>, k: nat)
    requires w.disk.parts == [] && k <= |ops|
    requires Proper(ops)
    ensures var u := WorldAfter(w, ops, k);
      Names(u.disk.parts) == NamesSeen(ops, k) && u.disk.partitionCount == w.disk.partitionCount
  {
    if k > 0 {
      ArrivalsInv(w, ops, k - 1);
      StepNames(WorldAfter(w, ops, k - 1), ops[k - 1], NamesSeen(ops, k - 1));
    }
  }

  lemma StepNames(u: World, op: Op, before: seq<string>)
    requires Names(u.disk.parts) == before && !op.OpDelete? && (op.OpArrive? ==> op.ev.name != "")
    ensures var v := Step(u, op);
      && v.disk.partitionCount == u.disk.partitionCount
      && Names(v.disk.parts) == if BringsNew(op, before) then before + [op.ev.name] else before
  {
    if op.OpArrive? {
      ArriveNames(u, op.ev, op.env, Step(u, op), Arrive(u, op.ev, op.env).1);
    } else {
      OthersKeepNames(u, op);
    }
  }

  lemma {:induction false} SupportsInv(w: World, ops: seq<Op>, k: nat)
    requires w.disk.parts == [] && k <= |ops|
    requires Proper(ops)
    ensures var u := WorldAfter(w, ops, k);
      Supports(u.disk.parts) == Usables(w.disk.storageType, FirstEvents(ops, k)) && KeepsKind(w, u)
  {
    if k > 0 {
      SupportsInv(w, ops, k - 1);
      ArrivalsInv(w, ops, k - 1);
      StepSupports(WorldAfter(w, ops, k - 1), ops[k - 1], NamesSeen(ops, k - 1), FirstEvents(ops, k - 1));
    }
  }

  lemma StepSupports(u: World, op: Op, before: seq<string>, evs: seq<PartEvent>)
    requires Names(u.disk.parts) == before && Supports(u.disk.parts) == Usables(u.disk.storageType, evs)
    requires !op.OpDelete? && (op.OpArrive? ==> op.ev.name != "")
    ensures var v := Step(u, op);
      && KeepsKind(u, v)
      && Supports(v.disk.parts)
         == Usables(u.disk.storageType, if BringsNew(op, before) then evs + [op.ev] else evs)
  {
    if op.OpArrive? {
      ArriveNames(u, op.ev, op.env, Step(u, op), Arrive(u, op.ev, op.env).1);
      var st := u.disk.storageType;
      assert Usables(st, evs + [op.ev]) == Usables(st, evs) + [Usable(st, op.ev.fsType)];
    } else {
      OthersKeepNames(u, op);
    }
  }

  /** Event k is the one that brings the n-th distinct name. */
  predicate Completes(ops: seq<Op>, k: nat, n: int)
    requires k < |ops|
  {
    BringsNew(ops[k], NamesSeen(ops, k)) && |NamesSeen(ops, k + 1)| == n
  }

  lemma BatchStartsAt(w: World, ops: seq<Op>, k: nat)
    requires w.disk.parts == [] && w.disk.partitionCount >= 1 && k < |ops|
    requires Proper(ops)
    ensures !BatchAt(w, ops, k).NoBatch? <==> Completes(ops, k, w.disk.partitionCount)
  {
    var u := WorldAfter(w, ops, k);
    ArrivalsInv(w, ops, k);
    if ops[k].OpArrive? { ArriveNames(u, ops[k].ev, ops[k].env, Step(u, ops[k]), BatchAt(w, ops, k)); }
    assert |u.disk.parts| == |NamesSeen(ops, k)|;
  }

  /** The batch it starts, from the first events of the names, and the device as it was. */
  function BatchDue(d: Disk, ops: seq<Op>, k: nat): Batch
    requires k < |ops|
  {
    KindOf(d.readOnly, Usables(d.storageType, FirstEvents(ops, k + 1)))
  }

  lemma BatchKindAt(w: World, ops: seq<Op>, k: nat)
    requires w.disk.parts == [] && w.disk.partitionCount >= 1 && k < |ops|
    requires Proper(ops) && Completes(ops, k, w.disk.partitionCount)
    ensures BatchAt(w, ops, k) == BatchDue(w.disk, ops, k)
  {
    var u := WorldAfter(w, ops, k);
    ArrivalsInv(w, ops, k);
    BatchStartsAt(w, ops, k);
    SupportsInv(w, ops, k);
    SupportsInv(w, ops, k + 1);
    ArriveNames(u, ops[k].ev, ops[k].env, Step(u, ops[k]), BatchAt(w, ops, k));
  }

  lemma UncountedBatchAt(w: World, ops: seq<Op>, k: nat)
    requires w.disk.parts == [] && w.disk.partitionCount == 0 && k < |ops|
    requires Proper(ops)
    ensures !BatchAt(w, ops, k).NoBatch? <==> BringsNew(ops[k], NamesSeen(ops, k))
  {
    var u := WorldAfter(w, ops, k);
    ArrivalsInv(w, ops, k);
    if ops[k].OpArrive? { ArriveNames(u, ops[k].ev, ops[k].env, Step(u, ops[k]), BatchAt(w, ops, k)); }
  }

  lemma UncountedOneMore(w: World, ops: seq<Op>, k: nat)
    requires w.disk.parts == [] && w.disk.partitionCount == 0 && k < |ops|
    requires Proper(ops)
    ensures BatchesStarted(w, ops, k + 1) - BatchesStarted(w, ops, k)
         == |NamesSeen(ops, k + 1)| - |NamesSeen(ops, k)|
  {
    StartedOneMore(w, ops, k);
    UncountedBatchAt(w, ops, k);
  }

  lemma StartedOneMore(w: World, ops: seq<Op>, k: nat)
    requires k < |ops|
    ensures BatchesStarted(w, ops, k + 1)
         == BatchesStarted(w, ops, k) + if BatchAt(w, ops, k).NoBatch? then 0 else 1
  {
  }

  lemma SeenOneMore(ops: seq<Op>, k: nat, n: int)
    requires k < |ops|
    ensures |NamesSeen(ops, k)| <= |NamesSeen(ops, k + 1)| <= |NamesSeen(ops, k)| + 1
    ensures Completes(ops, k, n) <==> |NamesSeen(ops, k)| < n == |NamesSeen(ops, k + 1)|
  {
  }

  lemma {:induction false} CountBatches(w: World, ops: seq<Op>, k: nat)
    requires w.disk.parts == [] && k <= |ops| && w.disk.partitionCount >= 1
    requires Proper(ops)
    ensures BatchesStarted(w, ops, k) == if |NamesSeen(ops, k)| >= w.disk.partitionCount then 1 else 0
  {
    if k > 0 {
      CountBatches(w, ops, k - 1);
      StartedOneMore(w, ops, k - 1);
      BatchStartsAt(w, ops, k - 1);
      SeenOneMore(ops, k - 1, w.disk.partitionCount);
    }
  }

  /**
   * For a disk with n >= 1 partitions and any sequence of named partition events, in any order
   * with any repeats, and with any requests, checks, countdowns and timeouts in between: the list
   * holds each name once, in order of first appearance; an operation starts a batch exactly if it
   * is the event that brings the n-th distinct name; so there is one batch if n distinct names
   * came, and none otherwise. If none of these n brought a usable file system, the batch is the
   * notice that the disk has to be formatted. Otherwise a write-protected disk is mounted directly,
   * and on a writable one a checking thread is started for each of the n that did.
   */
  lemma SingleBatch(w: World, ops: seq<Op>)
    requires w.disk.parts == [] && w.disk.partitionCount >= 1
    requires Proper(ops)
    ensures Names(WorldAfter(w, ops, |ops|).disk.parts) == NamesSeen(ops, |ops|)
    ensures Distinct(NamesSeen(ops, |ops|))
    ensures forall k :: 0 <= k < |ops| ==>
      (!BatchAt(w, ops, k).NoBatch? <==> Completes(ops, k, w.disk.partitionCount))
    ensures forall k :: 0 <= k < |ops| && Completes(ops, k, w.disk.partitionCount) ==>
      BatchAt(w, ops, k) == BatchDue(w.disk, ops, k)
    ensures BatchesStarted(w, ops, |ops|)
         == if |NamesSeen(ops, |ops|)| >= w.disk.partitionCount then 1 else 0
  {
    ArrivalsInv(w, ops, |ops|);
    SeenOnceEach(ops, |ops|);
    CountBatches(w, ops, |ops|);
    forall k | 0 <= k < |ops|
      ensures !BatchAt(w, ops, k).NoBatch? <==> Completes(ops, k, w.disk.partitionCount)
    {
      BatchStartsAt(w, ops, k);
    }
    forall k | 0 <= k < |ops| && Completes(ops, k, w.disk.partitionCount)
      ensures BatchAt(w, ops, k) == BatchDue(w.disk, ops, k)
    {
      BatchKindAt(w, ops, k);
    }
  }

  /**
   * With a partition count of zero, as on an unpartitioned disk, every new name starts a batch of
   * its own, for all partitions there are by then.
   */
  lemma {:induction false} UncountedDiskRestarts(w: World, ops: seq<Op>, k: nat)
    requires w.disk.parts == [] && w.disk.partitionCount == 0 && k <= |ops|
    requires Proper(ops)
    ensures BatchesStarted(w, ops, k) == |NamesSeen(ops, k)|
  {
    if k > 0 {
      UncountedDiskRestarts(w, ops, k - 1);
      UncountedOneMore(w, ops, k - 1);
    }
  }
}
