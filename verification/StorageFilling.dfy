/**
 * How the uevents of a USB stick, of its disk and of its partitions reach a device of the storage
 * handler, and what they fill in.
 */
module StorageFilling {
  import opened Base
  import opened CommandTables
  import opened StorageModel
  import DeviceLists
  import DriveLookup
  import PartitionArrival

  /** What identifies a device; sdCardRemoved asks for the next event to be skipped. */
  datatype Id = Id(name: string, num: int, path: string, extraSdCard: bool, sdCardRemoved: bool)

  datatype Device = Device(id: Id, disk: Disk)

  /** The numbers are what the event's text parses to; listed is how many partitions lsblk shows. */
  datatype Uevent = Uevent(
    action: string, devType: string, subsystem: string, devName: string, devPath: string,
    devNumber: Option<int>, instance: Option<int>, fsType: string, fsLabel: string,
    isStorage: bool, isReadOnly: bool, isCardReader: bool, isHardDisk: bool, isBlackListed: bool,
    isMediaChange: bool, listed: nat)

  function NewId(): Id {
    Id("", 0, "", false, false)
  }

  /** countPartitions. */
  function CountPartitions(name: string, ev: Uevent): nat {
    if name == "" then 0 else ev.listed
  }

  function InterfaceType(ev: Uevent): StorageType {
    if ev.isCardReader then UsbCardReader else if ev.isHardDisk then UsbHdd else UsbStick
  }

  /** What follows the last slash. */
  function BaseName(s: string): string {
    if '/' !in s then s else BaseName(s[1..])
  }

  function PartOf(ev: Uevent): PartEvent {
    PartEvent(ev.devName, ev.fsType, ev.fsLabel)
  }

  /** updateDeviceInfo, for a USB device. */
  function UpdateDeviceInfo(id: Id, w: World, ev: Uevent): (Id, World) {
    (id.(path := ev.devPath, num := if ev.devNumber.Some? then ev.devNumber.value else id.num),
     if ev.isBlackListed then w.(disk := w.disk.(errorReason := Usb30BlackDevice)) else w)
  }

  /** The add branch of updateDiskInfo, up to the count of partitions. */
  function DiskAdded(d: Disk, ev: Uevent, root: string): Disk {
    d.(readOnly := d.readOnly || ev.isReadOnly, storageType := InterfaceType(ev),
       rootPath := if d.rootPath != "" && root == d.rootPath then d.rootPath + BaseName(ev.devName) else d.rootPath,
       partitionCount := CountPartitions(ev.devName, ev))
  }

  /** handleCardReaderDeviceChange. */
  function CardChanged(id: Id, w: World, ev: Uevent, env: nat -> Answers): World {
    var count := CountPartitions(id.name, ev);
    if count == w.disk.partitionCount then w
    else if w.disk.partitionCount != 0 then Tell(DeleteParts(w, env), [CardGone])
    else w.(disk := w.disk.(partitionCount := count))
  }

  /** updateDiskInfo. */
  function UpdateDiskInfo(id: Id, w: World, ev: Uevent, env: nat -> Answers, root: string): (Id, World) {
    if ev.action == "add" then
      var v := w.(disk := DiskAdded(w.disk, ev, root));
      (id.(name := ev.devName),
       if v.disk.partitionCount == 0 && !v.disk.storageType.UsbCardReader? then Arrive(v, PartOf(ev), env).0 else v)
    else if ev.action == "change" then
      (id,
       if w.disk.storageType.UsbCardReader? then CardChanged(id, w, ev, env)
       else if CountPartitions(id.name, ev) == 0 && !ev.isCardReader then Arrive(w, PartOf(ev), env).0
       else w)
    else (id, w)
  }

  /** updateMultiSdCard. */
  function UpdateMultiSdCard(id: Id, ev: Uevent): Id {
    if id.path != "" then id
    else id.(path := ev.devPath, num := id.num + if ev.instance.Some? then ev.instance.value else 0)
  }

  /** checkSdCardAddRemove. */
  function CheckSdCard(id: Id, w: World, ev: Uevent, env: nat -> Answers): (Id, World) {
    if w.disk.storageType.UsbStick? && ev.isMediaChange && ev.isCardReader && CountPartitions(id.name, ev) == 0
    then (id.(sdCardRemoved := true), Tell(DeleteParts(w, env), [CardGone]))
    else (id, w)
  }

  /** setDeviceInfo; a device type that is none of the three is taken for a USB device. */
  function SetDeviceInfo(id: Id, w: World, ev: Uevent, env: nat -> Answers, root: string): (Id, World) {
    if id.sdCardRemoved then (id.(sdCardRemoved := false), w)
    else if ev.devType == "disk" then
      var (i, v) := UpdateDiskInfo(id, w, ev, env, root);
      CheckSdCard(UpdateMultiSdCard(i, ev), v, ev, env)
    else if ev.devType == "partition" then (id, Arrive(w, PartOf(ev), env).0)
    else UpdateDeviceInfo(id, w, ev)
  }

  // ---------------------------------------------------------------- which device an event reaches

  function Drives(list: seq<Device>): (r: seq<DriveLookup.Drive>)
    ensures |r| == |list|
    ensures forall i :: 0 <= i < |r| ==> r[i] == DriveLookup.Drive(list[i].id.name, list[i].disk.parts)
  {
    seq(|list|, i requires 0 <= i < |list| => DriveLookup.Drive(list[i].id.name, list[i].disk.parts))
  }

  function Paths(list: seq<Device>): (r: seq<string>)
    ensures |r| == |list|
    ensures forall i :: 0 <= i < |r| ==> r[i] == list[i].id.path
  {
    seq(|list|, i requires 0 <= i < |list| => list[i].id.path)
  }

  function ByPath(list: seq<Device>, path: string): Option<nat> {
    DeviceLists.FirstMatch(Paths(list), path)
  }

  function ByName(list: seq<Device>, name: string): Option<nat> {
    DeviceLists.FirstMatch(DriveLookup.Names(Drives(list)), name)
  }

  /** A new device, as an extra card of the device at parent if there is one; or an event for a known device. */
  datatype Route = Create(parent: Option<nat>) | Fill(at: nat) | Ignore

  /** checkStorageDevice. */
  function Routed(list: seq<Device>, ev: Uevent): (r: Route)
    ensures r.Create? && r.parent.Some? ==> r.parent.value < |list|
    ensures r.Fill? ==> r.at < |list|
  {
    var byPath := ByPath(list, ev.devPath);
    if ev.devType == "usb_device" && byPath.None? then Create(None)
    else if byPath.Some? && list[byPath.value].id.name == "" then Fill(byPath.value)
    else if byPath.None? then Ignore
    else
      match ByName(list, ev.devName)
      case Some(i) => Fill(i)
      case None => Create(byPath)
  }

  /** Device k is the first whose path is a prefix of this one. */
  ghost predicate FirstAbove(list: seq<Device>, k: nat, path: string) {
    k < |list| && list[k].id.path <= path && forall j :: 0 <= j < k ==> !(list[j].id.path <= path)
  }

  /** Device k is the first whose name is a prefix of this one. */
  ghost predicate FirstNamed(list: seq<Device>, k: nat, name: string) {
    k < |list| && list[k].id.name <= name && forall j :: 0 <= j < k ==> !(list[j].id.name <= name)
  }

  lemma ByPathIsFirst(list: seq<Device>, path: string)
    ensures match ByPath(list, path)
      case Some(k) => FirstAbove(list, k, path)
      case None => forall j :: 0 <= j < |list| ==> !(list[j].id.path <= path)
  {
    var paths := Paths(list);
    assert forall j :: 0 <= j < |list| ==> paths[j] == list[j].id.path;
  }

  lemma ByNameIsFirst(list: seq<Device>, name: string)
    ensures match ByName(list, name)
      case Some(k) => FirstNamed(list, k, name)
      case None => forall j :: 0 <= j < |list| ==> !(list[j].id.name <= name)
  {
    var names := DriveLookup.Names(Drives(list));
    assert forall j :: 0 <= j < |list| ==> names[j] == list[j].id.name;
  }

  /**
   * Where an event goes. Below no stored path, a USB device is new and anything else ignored. Else
   * the first device above it takes it while it has no name yet; and then the first device whose
   * name the event's name extends, or a new device that is an extra card of the one above.
   */
  lemma RoutedExact(list: seq<Device>, ev: Uevent, above: nat)
    requires above == |list| || FirstAbove(list, above, ev.devPath)
    requires above == |list| ==> forall j :: 0 <= j < |list| ==> !(list[j].id.path <= ev.devPath)
    ensures above == |list| ==> Routed(list, ev) == if ev.devType == "usb_device" then Create(None) else Ignore
    ensures above < |list| && list[above].id.name == "" ==> Routed(list, ev) == Fill(above)
    ensures above < |list| && list[above].id.name != "" ==>
      match Routed(list, ev)
      case Fill(at) => FirstNamed(list, at, ev.devName)
      case Create(parent) =>
        parent == Some(above) && forall j :: 0 <= j < |list| ==> !(list[j].id.name <= ev.devName)
      case Ignore => false
  {
    ByPathIsFirst(list, ev.devPath);
    ByNameIsFirst(list, ev.devName);
  }

  /** No earlier device has a name that this name extends; one without a name always does. */
  ghost predicate Unclaimed(list: seq<Device>, i: nat, name: string)
    requires i <= |list|
  {
    forall k :: 0 <= k < i ==> !(list[k].id.name <= name)
  }

  /**
   * An event below the path of a named device, for a name that extends the device's, is filled
   * into that device exactly if no earlier device claims the name; otherwise into an earlier one.
   */
  lemma ReachesItsDeviceExactly(list: seq<Device>, ev: Uevent, i: nat)
    requires ByPath(list, ev.devPath) == Some(i)
    requires list[i].id.name != "" && list[i].id.name <= ev.devName
    ensures Routed(list, ev).Fill? && Routed(list, ev).at <= i
    ensures Routed(list, ev) == Fill(i) <==> Unclaimed(list, i, ev.devName)
  {
    var names := DriveLookup.Names(Drives(list));
    assert forall k :: 0 <= k < |list| ==> names[k] == list[k].id.name;
    assert names[i] <= ev.devName;
  }

  /** A stick that is plugged in first and has no disk yet gets the partitions of every other stick. */
  lemma NamelessDeviceTakesPartitions(nameless: Device, stick: Device, ev: Uevent, env: nat -> Answers, root: string)
    requires nameless.id.name == "" && !nameless.id.sdCardRemoved && !(nameless.id.path <= ev.devPath)
    requires stick.id.name != "" && stick.id.name <= ev.devName && stick.id.path <= ev.devPath
    requires ev.devType == "partition" && FindPartition(nameless.disk.parts, ev.devName).None?
    requires nameless.disk.partitionCount == 0 && !nameless.disk.readOnly
    ensures Routed([nameless, stick], ev) == Fill(0)
    ensures var v := SetDeviceInfo(nameless.id, World(nameless.disk, multiset{}, [], {}), ev, env, root).1;
      |v.disk.parts| == |nameless.disk.parts| + 1 && v.disk.parts[|nameless.disk.parts|].driveName == ev.devName
  {
    var list := [nameless, stick];
    assert Paths(list)[0] == nameless.id.path && Paths(list)[1] == stick.id.path;
    assert DriveLookup.Names(Drives(list))[0] == "" && "" <= ev.devName;
  }

  // ---------------------------------------------------------------- what an event fills in

  /** What follows the last slash, or all of it where there is none. */
  lemma {:induction false} BaseNameExact(s: string)
    ensures var b := BaseName(s);
      && '/' !in b && |b| <= |s| && s[|s| - |b|..] == b
      && (|b| < |s| ==> s[|s| - |b| - 1] == '/') && (|b| == |s| <==> '/' !in s)
  {
    if '/' in s {
      BaseNameExact(s[1..]);
      if '/' !in s[1..] {
        assert s[0] == '/' by {
          assert s == [s[0]] + s[1..];
        }
      }
    }
  }

  /** After the last partition of a card went, the next event of any kind is skipped. */
  lemma SkippedEvent(id: Id, w: World, ev: Uevent, env: nat -> Answers, root: string)
    requires id.sdCardRemoved
    ensures SetDeviceInfo(id, w, ev, env, root) == (Id(id.name, id.num, id.path, id.extraSdCard, false), w)
  {
  }

  /** A USB device's event, or one of no known type, gives path, number and the mark of the black list. */
  lemma UsbExact(id: Id, w: World, ev: Uevent, env: nat -> Answers, root: string)
    requires !id.sdCardRemoved && ev.devType != "disk" && ev.devType != "partition"
    ensures var (i, v) := SetDeviceInfo(id, w, ev, env, root);
      && i == Id(id.name, if ev.devNumber.Some? then ev.devNumber.value else id.num, ev.devPath, id.extraSdCard, false)
      && v == World(w.disk.(errorReason := if ev.isBlackListed then Usb30BlackDevice else w.disk.errorReason),
                    w.mounts, w.notices, w.sources)
  {
  }

  /** What a disk's event adds to the identity: path and number where there is no path yet. */
  ghost predicate Identified(id: Id, i: Id, ev: Uevent) {
    && i.extraSdCard == id.extraSdCard
    && (id.path != "" ==> i.path == id.path && i.num == id.num)
    && (id.path == "" ==>
         i.path == ev.devPath && i.num == id.num + match ev.instance case Some(n) => n case None => 0)
  }

  /**
   * The add of a disk: the name is the event's; write protection is only ever added; the type is
   * that of the interface; a root path that is still the configured one is extended by the
   * disk's own name; partitions are counted. Where there are none, and the disk is not in a
   * card reader, the event is taken for that of a partition, and nothing else changes.
   */
  lemma DiskAddExact(id: Id, w: World, ev: Uevent, env: nat -> Answers, root: string, d: Disk)
    requires !id.sdCardRemoved && ev.devType == "disk" && ev.action == "add"
    requires d == w.disk.(
      readOnly := w.disk.readOnly || ev.isReadOnly,
      storageType := if ev.isCardReader then UsbCardReader else if ev.isHardDisk then UsbHdd else UsbStick,
      rootPath := if w.disk.rootPath == root != "" then root + BaseName(ev.devName) else w.disk.rootPath,
      partitionCount := if ev.devName == "" then 0 else ev.listed)
    ensures var (i, v) := SetDeviceInfo(id, w, ev, env, root);
      && i.name == ev.devName && Identified(id, i, ev) && !i.sdCardRemoved
      && v == if d.partitionCount == 0 && !ev.isCardReader then
                Arrive(w.(disk := d), PartEvent(ev.devName, ev.fsType, ev.fsLabel), env).0
              else w.(disk := d)
  {
  }

  /**
   * Any other event of a disk: a change in a card reader is a card that went if there were
   * partitions, and a new count if there were none, and nothing if the count is the same; a
   * change without partitions elsewhere is taken for a partition's, unless it comes from a card
   * reader's slot: then, on a stick whose media changed, the card went, and the next event is skipped.
   */
  lemma DiskChangeExact(id: Id, w: World, ev: Uevent, env: nat -> Answers, root: string, listed: nat)
    requires !id.sdCardRemoved && ev.devType == "disk" && ev.action != "add"
    requires listed == if id.name == "" then 0 else ev.listed
    ensures var (i, v) := SetDeviceInfo(id, w, ev, env, root);
      var reader := w.disk.storageType == UsbCardReader && ev.action == "change";
      var gone := w.disk.storageType == UsbStick && ev.isMediaChange && ev.isCardReader && listed == 0;
      && i.name == id.name && Identified(id, i, ev) && i.sdCardRemoved == gone
      && (reader && listed == w.disk.partitionCount ==> v == w)
      && (reader && listed != w.disk.partitionCount && w.disk.partitionCount != 0 ==>
            v == Tell(DeleteParts(w, env), [CardGone]))
      && (reader && listed != w.disk.partitionCount && w.disk.partitionCount == 0 ==>
            v == w.(disk := w.disk.(partitionCount := listed)))
      && (gone ==> v == Tell(DeleteParts(w, env), [CardGone]))
      && (!reader && !gone ==>
           v == if ev.action == "change" && listed == 0 && !ev.isCardReader then
                  Arrive(w, PartEvent(ev.devName, ev.fsType, ev.fsLabel), env).0
                else w)
  {
    PartitionArrival.UmountFromKeepsNames(w, 0, env, true, Success);
  }

  /** A partition's event brings that partition and says nothing of the device. */
  lemma PartitionExact(id: Id, w: World, ev: Uevent, env: nat -> Answers, root: string)
    requires !id.sdCardRemoved && ev.devType == "partition"
    ensures SetDeviceInfo(id, w, ev, env, root)
         == (id, Arrive(w, PartEvent(ev.devName, ev.fsType, ev.fsLabel), env).0)
  {
  }

  // ---------------------------------------------------------------- what a whole arrival fills in

  /** A stick whose disk has n >= 1 partitions comes up: the device and its disk are as announced. */
  lemma StickComesUp(root: string, usb: Uevent, disk: Uevent, env: nat -> Answers, w: World)
    requires w.disk == NewDisk(root) && usb.devType == "usb_device" && disk.devType == "disk" && disk.action == "add"
    requires disk.devName != "" && disk.listed >= 1 && !(disk.isMediaChange && disk.isCardReader)
    ensures var (i, v) := SetDeviceInfo(NewId(), w, usb, env, root);
      var (id, u) := SetDeviceInfo(i, v, disk, env, root);
      && id.name == disk.devName && id.path == (if usb.devPath == "" then disk.devPath else usb.devPath)
      && u.disk.partitionCount == disk.listed && u.disk.parts == []
      && u.disk.storageType
         == (if disk.isCardReader then UsbCardReader else if disk.isHardDisk then UsbHdd else UsbStick)
      && u.disk.readOnly == disk.isReadOnly
      && u.disk.rootPath == (if root == "" then "" else root + BaseName(disk.devName))
      && u.notices == w.notices && u.mounts == w.mounts && u.sources == w.sources
  {
  }
}
