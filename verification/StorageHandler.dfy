/**
 * The storage handler: the uevents and the requests that name a drive or a device number, looked up
 * over its list. A device is the value that module StorageObjects ties to the device object.
 */
module StorageHandler {
  import opened Base
  import opened StorageModel
  import StorageRuns
  import opened DriveLookup
  import opened StorageFilling

  /** The request with its blanks removed, as the fsck command does. */
  function WithoutBlanks(s: string): string {
    if s == "" then "" else (if s[0] == ' ' then "" else [s[0]]) + WithoutBlanks(s[1..])
  }

  /** Exactly the blanks are gone. */
  lemma {:induction false} WithoutBlanksExact(s: string)
    ensures var r := WithoutBlanks(s);
      && ' ' !in r && |r| == |s| - Count(s, ' ')
      && (' ' !in s ==> r == s)
  {
    if s != "" {
      WithoutBlanksExact(s[1..]);
      assert s == [s[0]] + s[1..];
    }
  }

  lemma OneInFront(s: string, t: string)
    requires s != ""
    ensures WithoutBlanks(s + t) == (if s[0] == ' ' then "" else [s[0]]) + WithoutBlanks(s[1..] + t)
  {
    assert (s + t)[1..] == s[1..] + t;
  }

  /** And what is left keeps its order. */
  lemma {:induction false} WithoutBlanksInTurn(s: string, t: string)
    ensures WithoutBlanks(s + t) == WithoutBlanks(s) + WithoutBlanks(t)
  {
    if s == "" {
      assert s + t == t;
    } else {
      WithoutBlanksInTurn(s[1..], t);
      OneInFront(s, t);
      CommandTables.Associate(if s[0] == ' ' then "" else [s[0]], WithoutBlanks(s[1..]), WithoutBlanks(t));
    }
  }

  /** The commands that name a drive. */
  datatype Request =
    | FormatRequest(fsType: string, volLabel: string)
    | FsckRequest
    | LabelRequest(volLabel: string)

  function Serve(w: World, drive: string, r: Request, a: Answers): (World, Status) {
    match r
    case FormatRequest(fsType, volLabel) => Format(w, drive, fsType, volLabel, a)
    case FsckRequest => FsckDrive(w, drive, a)
    case LabelRequest(volLabel) => SetLabel(w, drive, volLabel, a)
  }

  lemma ServeTouchesOnly(w: World, drive: string, r: Request, a: Answers)
    ensures var (v, status) := Serve(w, drive, r, a);
      StorageRuns.TouchesOnly(w, v, drive)
      && (FindPartition(w.disk.parts, drive).None? ==> v == w && status.PartitionNotFound?)
  {
    match r
    case FormatRequest(fsType, volLabel) => StorageRuns.FormatTouchesOnly(w, drive, fsType, volLabel, a);
    case FsckRequest => StorageRuns.FsckTouchesOnly(w, drive, a);
    case LabelRequest(volLabel) => StorageRuns.LabelTouchesOnly(w, drive, volLabel, a);
  }

  /** The device a remove event retires, if any: a USB device by path, a disk only if it is an extra card. */
  function Retired(list: seq<Device>, devType: string, devPath: string, devName: string): (r: Option<nat>)
    ensures r.Some? ==> r.value < |list|
  {
    if devType == "usb_device" then ByPath(list, devPath)
    else if devType == "disk" then
      match ByName(list, devName)
      case None => None
      case Some(i) => if list[i].id.extraSdCard then Some(i) else None
    else None
  }

  /**
   * A remove event of a USB device retires the first whose path is a prefix; that of a disk the
   * first by name, and only if it is an extra card; any other retires nothing.
   */
  lemma RetiredExact(list: seq<Device>, devType: string, devPath: string, devName: string)
    ensures match Retired(list, devType, devPath, devName)
      case Some(at) =>
        || (devType == "usb_device" && FirstAbove(list, at, devPath))
        || (devType == "disk" && FirstNamed(list, at, devName) && list[at].id.extraSdCard)
      case None =>
        && (devType == "usb_device" ==> forall j :: 0 <= j < |list| ==> !(list[j].id.path <= devPath))
        && (devType == "disk" ==> forall j: nat :: FirstNamed(list, j, devName) ==> !list[j].id.extraSdCard)
  {
    ByPathIsFirst(list, devPath);
    ByNameIsFirst(list, devName);
  }

  /** Device i is the first with this number. */
  predicate FirstWithNum(list: seq<Device>, i: nat, deviceNumber: int)
    requires i < |list|
  {
    list[i].id.num == deviceNumber && forall k :: 0 <= k < i ==> list[k].id.num != deviceNumber
  }

  class StorageDeviceHandler {
    const m_maxStorageDevices: nat
    const rootPath: string  // the configured root
    var mStorageList: seq<Device>
    var mounts: multiset<string>
    var notices: seq<Notice>
    var sources: set<nat>

    function WorldOf(i: nat): World
      requires i < |mStorageList|
      reads this
    {
      World(mStorageList[i].disk, mounts, notices, sources)
    }

    /** Nothing has happened since the call began. */
    twostate predicate Idle()
      reads this
    {
      && mStorageList == old(mStorageList) && mounts == old(mounts)
      && notices == old(notices) && sources == old(sources)
    }

    constructor (maxStorageDevices: nat, rootPath: string)
      ensures m_maxStorageDevices == maxStorageDevices && this.rootPath == rootPath
      ensures mStorageList == [] && mounts == multiset{} && notices == [] && sources == {}
    {
      m_maxStorageDevices, this.rootPath := maxStorageDevices, rootPath;
      mStorageList, mounts, notices, sources := [], multiset{}, [], {};
    }

    /** getDeviceWithName. */
    method GetDeviceWithName(devName: string) returns (at: Option<nat>)
      ensures at == ByName(mStorageList, devName)
    {
      for i := 0 to |mStorageList|
        invariant forall k :: 0 <= k < i ==> !(mStorageList[k].id.name <= devName)
      {
        if mStorageList[i].id.name <= devName {
          assert Names(Drives(mStorageList))[i] == mStorageList[i].id.name;
          return Some(i);
        }
      }
      at := None;
    }

    method GetDeviceWithPath(devPath: string) returns (at: Option<nat>)
      ensures at == ByPath(mStorageList, devPath)
    {
      for i := 0 to |mStorageList|
        invariant forall k :: 0 <= k < i ==> !(mStorageList[k].id.path <= devPath)
      {
        if mStorageList[i].id.path <= devPath {
          assert Paths(mStorageList)[i] == mStorageList[i].id.path;
          return Some(i);
        }
      }
      at := None;
    }

    /** HandlerEvent: a removal is claimed if a USB device went, another event if it is for a block device. */
    method HandlerEvent(ev: Uevent, joins: nat -> Answers, env: nat -> Answers) returns (claimed: bool)
      modifies this
      ensures |old(mStorageList)| <= m_maxStorageDevices ==> |mStorageList| <= m_maxStorageDevices
      ensures claimed ==
        if ev.action == "remove" then
          ev.devType == "usb_device" && ByPath(old(mStorageList), ev.devPath).Some?
        else ev.isStorage && ev.devType != "usb_device" && ev.subsystem == "block"
      ensures
        if ev.action == "remove" then Deletes(ev, joins, env)
        else if (ev.action == "add" || ev.action == "change")
          && ev.isStorage && (ev.devType == "usb_device" || ev.subsystem == "block") then Routes(ev, env)
        else Idle()
    {
      if ev.action == "remove" {
        claimed := DeleteStorageDevice(ev, joins, env);
        return;
      }
      if !ev.isStorage {
        return false;
      }
      if ev.devType == "usb_device" {
        ProcessStorageDevice(ev, env);
        return false;
      } else if ev.subsystem == "block" {
        ProcessStorageDevice(ev, env);
        return true;
      }
      return false;
    }

    method ProcessStorageDevice(ev: Uevent, env: nat -> Answers)
      modifies this
      ensures if ev.action == "add" || ev.action == "change" then Routes(ev, env) else Idle()
      ensures |old(mStorageList)| <= m_maxStorageDevices ==> |mStorageList| <= m_maxStorageDevices
    {
      if ev.action == "add" || ev.action == "change" {
        CheckStorageDevice(ev, env);
      }
    }

    /** What an event for a storage device does: at most one device differs, or one is new at the end. */
    twostate predicate Routes(ev: Uevent, env: nat -> Answers)
      reads this
    {
      match Routed(old(mStorageList), ev)
      case Create(parent) => Creates(ev, parent, env)
      case Fill(at) => Fills(at, ev, env)
      case Ignore => Idle()
    }

    twostate predicate Creates(ev: Uevent, parent: Option<nat>, env: nat -> Answers)
      requires parent.Some? ==> parent.value < |old(mStorageList)|
      reads this
    {
      if |old(mStorageList)| >= m_maxStorageDevices then
        && mStorageList == old(mStorageList) && mounts == old(mounts) && sources == old(sources)
        && notices == old(notices) + [MaxCountReached]
      else
        var blank := World(NewDisk(rootPath), old(mounts), old(notices), old(sources));
        var extra := parent.Some?;
        var given := Id("", if extra then 10 * old(mStorageList)[parent.value].id.num else 0, "", extra, false);
        var (id, w) := SetDeviceInfo(given, blank, ev, env, rootPath);
        && mStorageList == old(mStorageList) + [Device(id, w.disk)]
        && mounts == w.mounts && notices == w.notices && sources == w.sources
    }

    twostate predicate Fills(at: nat, ev: Uevent, env: nat -> Answers)
      requires at < |old(mStorageList)|
      reads this
    {
      var (id, w) := SetDeviceInfo(old(mStorageList)[at].id, old(WorldOf(at)), ev, env, rootPath);
      && mStorageList == old(mStorageList)[at := Device(id, w.disk)]
      && mounts == w.mounts && notices == w.notices && sources == w.sources
    }

    method CheckStorageDevice(ev: Uevent, env: nat -> Answers)
      modifies this
      ensures Routes(ev, env)
      ensures |old(mStorageList)| <= m_maxStorageDevices ==> |mStorageList| <= m_maxStorageDevices
    {
      var byPath := GetDeviceWithPath(ev.devPath);
      if ev.devType == "usb_device" && byPath.None? {
        CreateStorageDevice(ev, None, env);
        return;
      }
      if byPath.Some? && mStorageList[byPath.value].id.name == "" {
        FillDevice(byPath.value, ev, env);
        return;
      }
      var byName := GetDeviceWithName(ev.devName);
      if byName.Some? && byPath.Some? {
        FillDevice(byName.value, ev, env);
        return;
      }
      if byPath.Some? && byName.None? {
        CreateStorageDevice(ev, byPath, env);
      }
    }

    method FillDevice(at: nat, ev: Uevent, env: nat -> Answers)
      requires at < |mStorageList|
      modifies this
      ensures Fills(at, ev, env)
    {
      var (id, w) := SetDeviceInfo(mStorageList[at].id, WorldOf(at), ev, env, rootPath);
      mStorageList := mStorageList[at := Device(id, w.disk)];
      mounts, notices, sources := w.mounts, w.notices, w.sources;
    }

    /** createStorageDevice; parent is the device whose extra card the new one is. */
    method CreateStorageDevice(ev: Uevent, parent: Option<nat>, env: nat -> Answers)
      requires parent.Some? ==> parent.value < |mStorageList|
      modifies this
      ensures Creates(ev, parent, env)
      ensures |old(mStorageList)| <= m_maxStorageDevices ==> |mStorageList| <= m_maxStorageDevices
    {
      if |mStorageList| >= m_maxStorageDevices {
        notices := notices + [MaxCountReached];
        return;
      }
      var id := NewId();
      if parent.Some? {
        id := id.(extraSdCard := true, num := mStorageList[parent.value].id.num * 10);
      }
      var (filled, w) := SetDeviceInfo(id, World(NewDisk(rootPath), mounts, notices, sources), ev, env, rootPath);
      mStorageList := mStorageList + [Device(filled, w.disk)];
      mounts, notices, sources := w.mounts, w.notices, w.sources;
    }

    /**
     * The one device a remove event is about goes through onDeviceRemove, removeDevice and its
     * destructor; every other device stays as and where it was.
     */
    twostate predicate Deletes(ev: Uevent, joins: nat -> Answers, env: nat -> Answers)
      reads this
    {
      match Retired(old(mStorageList), ev.devType, ev.devPath, ev.devName)
      case None => Idle()
      case Some(at) =>
        var w := Destroyed(Retire(OnDeviceRemove(old(WorldOf(at)), joins, env)), env);
        && mStorageList == RemoveAt(old(mStorageList), at)
        && mounts == w.mounts && notices == w.notices && sources == w.sources
    }

    /** Only a USB device's event is claimed. */
    method DeleteStorageDevice(ev: Uevent, joins: nat -> Answers, env: nat -> Answers)
      returns (deviceRemoveStatus: bool)
      modifies this
      ensures Deletes(ev, joins, env)
      ensures deviceRemoveStatus ==
        (ev.devType == "usb_device" && Retired(old(mStorageList), ev.devType, ev.devPath, ev.devName).Some?)
    {
      deviceRemoveStatus := false;
      var at: Option<nat> := None;
      if ev.devType == "usb_device" {
        at := GetDeviceWithPath(ev.devPath);
        if at.Some? {
          deviceRemoveStatus := true;
        }
      } else if ev.devType == "disk" {
        at := GetDeviceWithName(ev.devName);
        if at.None? || !mStorageList[at.value].id.extraSdCard {
          return;
        }
      }
      if at.None? {
        return;
      }
      Store(at.value, OnDeviceRemove(WorldOf(at.value), joins, env));
      RemoveDevice(at.value, env);
    }

    /** removeDevice, destructor included. */
    method RemoveDevice(at: nat, env: nat -> Answers)
      requires at < |mStorageList|
      modifies this
      ensures mStorageList == RemoveAt(old(mStorageList), at)
      ensures var w := Destroyed(Retire(old(WorldOf(at))), env);
        mounts == w.mounts && notices == w.notices && sources == w.sources
    {
      var storageDevice := mStorageList[at];
      mStorageList := RemoveAt(mStorageList, at);
      if storageDevice.disk.devAddNotified {
        notices := notices + [Remove];
      }
      var w := Destroyed(World(storageDevice.disk, mounts, notices, sources), env);
      mounts, notices, sources := w.mounts, w.notices, w.sources;
    }

    /** Put the outcome of a call on device i back. */
    method Store(i: nat, w: World)
      requires i < |mStorageList|
      modifies this
      ensures mStorageList == old(mStorageList)[i := old(mStorageList)[i].(disk := w.disk)]
      ensures mounts == w.mounts && notices == w.notices && sources == w.sources && WorldOf(i) == w
    {
      mStorageList := mStorageList[i := mStorageList[i].(disk := w.disk)];
      mounts, notices, sources := w.mounts, w.notices, w.sources;
    }

    /**
     * format, fsck and setVolumeLabel: the device found by prefix serves the request. Whatever
     * the names are, only a partition of exactly the requested name can differ afterwards, and
     * if the two-level search finds none then nothing does.
     */
    method Command(request: string, r: Request, a: Answers) returns (ret: bool, result: Status)
      modifies this
      ensures var drive := if r.FsckRequest? then WithoutBlanks(request) else request;
        var found := ByName(old(mStorageList), drive);
        && ret == found.Some? && |mStorageList| == |old(mStorageList)|
        && (found.None? ==> result == DriveNotFound)
        && (found.Some? ==>
             (WorldOf(found.value), result) ==
               match r
               case FormatRequest(fsType, volLabel) => Format(old(WorldOf(found.value)), drive, fsType, volLabel, a)
               case FsckRequest => FsckDrive(old(WorldOf(found.value)), drive, a)
               case LabelRequest(volLabel) => SetLabel(old(WorldOf(found.value)), drive, volLabel, a))
        && OnlyNamed(Drives(old(mStorageList)), Drives(mStorageList), drive)
        && (TwoLevel(Drives(old(mStorageList)), drive).None? ==> Idle())
    {
      var drive := if r.FsckRequest? then WithoutBlanks(request) else request;
      var at := GetDeviceWithName(drive);
      if at.None? {
        return false, DriveNotFound;
      }
      ghost var w := WorldOf(at.value);
      ServeTouchesOnly(w, drive, r, a);
      var (v, status) := Serve(WorldOf(at.value), drive, r, a);
      Store(at.value, v);
      ret, result := true, status;
    }

    /**
     * getDeviceWithNum and the eject command: the first device with the number is ejected, and only
     * then, whether or not it worked, the end of unmounting is announced.
     */
    method EjectDevice(deviceNumber: int, env: nat -> Answers) returns (ret: bool, result: Status)
      modifies this
      ensures ret <==> exists i :: 0 <= i < |old(mStorageList)| && old(mStorageList)[i].id.num == deviceNumber
      ensures !ret ==> result == DeviceNotFound && Idle()
      ensures ret ==> exists i: nat ::
        (i < |old(mStorageList)| && FirstWithNum(old(mStorageList), i, deviceNumber)
         && |mStorageList| == |old(mStorageList)|
         && WorldOf(i) == Tell(Eject(old(WorldOf(i)), env).0, [UnmountAll]) && result == Eject(old(WorldOf(i)), env).1
         && forall k :: 0 <= k < |mStorageList| && k != i ==> mStorageList[k] == old(mStorageList)[k])
    {
      for i := 0 to |mStorageList|
        invariant Idle()
        invariant forall k :: 0 <= k < i ==> mStorageList[k].id.num != deviceNumber
      {
        if mStorageList[i].id.num == deviceNumber {
          var (v, status) := Eject(WorldOf(i), env);
          Store(i, v);
          notices := notices + [UnmountAll];
          assert WorldOf(i) == Tell(v, [UnmountAll]);
          return true, status;
        }
      }
      ret, result := false, DeviceNotFound;
    }
  }
}
