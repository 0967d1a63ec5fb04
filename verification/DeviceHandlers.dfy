/** The HID and NFC handlers as objects over a list of device objects. */
module DeviceHandlers {
  import opened Base
  import opened DeviceLists

  class Device {
    var devicePath: string

    constructor ()
      ensures devicePath == ""
    {
      devicePath := "";
    }

    /** Device::setDeviceInfo, as far as the path goes. */
    method SetDeviceInfo(ev: Uevent)
      modifies this
      ensures devicePath == ev.devPath
    {
      devicePath := ev.devPath;
    }
  }

  ghost function Paths(list: seq<Device>): (r: seq<string>)
    reads list
    ensures |r| == |list|
  {
    seq(|list|, i requires 0 <= i < |list| reads list => list[i].devicePath)
  }

  /** getDeviceWithPath: the loop, and the object it stops at. */
  method GetDeviceWithPath(list: seq<Device>, devPath: string) returns (device: Device?, ghost at: Option<nat>)
    ensures at == FirstMatch(Paths(list), devPath)
    ensures device == match FirstMatch(Paths(list), devPath) case None => null case Some(k) => list[k]
  {
    for i := 0 to |list|
      invariant forall k :: 0 <= k < i ==> !(list[k].devicePath <= devPath)
    {
      if list[i].devicePath <= devPath {
        at := FirstMatch(Paths(list), devPath);
        assert Paths(list)[i] == list[i].devicePath;
        return list[i], at;
      }
    }
    at := FirstMatch(Paths(list), devPath);
    device := null;
  }

  class DeviceHandler {
    const kind: Kind
    var sList: seq<Device>
    var m_deviceRemoved: bool
    ghost var notices: seq<Notice>

    ghost predicate Valid()
      reads this
    {
      Distinct(sList)
    }

    ghost function View(): Handler
      reads this, sList
    {
      Handler(Paths(sList), m_deviceRemoved, notices)
    }

    constructor (kind: Kind)
      ensures Valid() && this.kind == kind && View() == FRESH
    {
      this.kind := kind;
      sList, m_deviceRemoved, notices := [], false, [];
    }

    /** std::list::remove of a pointer that occurs once. */
    method RemoveDevice(device: Device, ghost at: nat)
      requires Valid() && at < |sList| && sList[at] == device
      modifies this
      ensures Valid() && sList == RemoveAt(old(sList), at)
      ensures m_deviceRemoved == old(m_deviceRemoved)
      ensures notices == old(notices) + [RemovedDevice(device.devicePath)]
    {
      var kept: seq<Device> := [];
      for i := 0 to |sList|
        invariant kept == if i <= at then sList[..i] else sList[..at] + sList[at + 1..i]
      {
        if sList[i] != device {
          kept := kept + [sList[i]];
        }
      }
      sList := kept;
      notices := notices + [RemovedDevice(device.devicePath)];
    }

    /** ProcessHIDDevice and ProcessNfcDevice; actions outside the map, bind and change do nothing. */
    method ProcessDevice(ev: Uevent)
      requires Valid()
      modifies this, sList
      ensures Valid() && View() == Process(kind, old(View()), ev)
      ensures fresh(set d | d in sList && d !in old(sList))
    {
      if ev.action == "add" {
        AddOrUpdate(ev);
        if kind.Hid? && ev.devType != "usb_device" && ev.processed {
          notices := notices + [AddedAny];
        }
      } else if ev.action == "remove" {
        RemoveFound(ev);
      }
    }

    /** The remove branch. */
    method RemoveFound(ev: Uevent)
      requires Valid()
      modifies this
      ensures Valid() && forall d :: d in sList ==> d in old(sList)
      ensures var at := FirstMatch(old(Paths(sList)), ev.devPath);
        if at.None? then View() == old(View())
        else
          && Paths(sList) == RemoveAt(old(Paths(sList)), at.value) && m_deviceRemoved
          && notices == old(notices) + [RemovedDevice(old(Paths(sList))[at.value])]
    {
      ghost var before := Paths(sList);
      var device, at := GetDeviceWithPath(sList, ev.devPath);
      if device != null {
        RemoveDevice(device, at.value);
        m_deviceRemoved := true;
        assert Paths(sList) == RemoveAt(before, at.value);
      }
    }

    /** The add branch, up to the notice that a HID handler sends for updates too. */
    method AddOrUpdate(ev: Uevent)
      requires Valid()
      modifies this, sList
      ensures Valid() && m_deviceRemoved == old(m_deviceRemoved)
      ensures fresh(set d | d in sList && d !in old(sList))
      ensures var at := FirstMatch(old(Paths(sList)), ev.devPath);
        && Paths(sList) == (if at.None? then old(Paths(sList)) + [ev.devPath]
                            else old(Paths(sList))[at.value := ev.devPath])
        && notices == old(notices) + if at.None? && kind.Nfc? then [AddedDevice(ev.devPath)] else []
    {
      ghost var before := Paths(sList);
      var device, at := GetDeviceWithPath(sList, ev.devPath);
      if device == null {
        device := new Device();
        device.SetDeviceInfo(ev);
        sList := sList + [device];
        if kind.Nfc? {
          notices := notices + [AddedDevice(device.devicePath)];
        }
        assert Paths(sList) == before + [ev.devPath];
      } else {
        device.SetDeviceInfo(ev);
        assert Paths(sList) == before[at.value := ev.devPath];
      }
    }

    method HandlerEvent(ev: Uevent) returns (claimed: bool)
      requires Valid()
      modifies this, sList
      ensures Valid() && (View(), claimed) == Handle(kind, old(View()), ev)
      ensures fresh(set d | d in sList && d !in old(sList))
    {
      if kind.Hid? {
        claimed := HidEvent(ev);
      } else {
        claimed := NfcEvent(ev);
      }
    }

    /** HIDDeviceHandler::HandlerEvent. */
    method HidEvent(ev: Uevent) returns (claimed: bool)
      requires Valid() && kind.Hid?
      modifies this, sList
      ensures Valid() && (View(), claimed) == HandleHid(old(View()), ev)
      ensures fresh(set d | d in sList && d !in old(sList))
    {
      if ev.action == "remove" {
        m_deviceRemoved := false;
        ProcessDevice(ev);
        if m_deviceRemoved {
          return true;
        }
      }
      claimed := HidTail(ev);
    }

    method HidTail(ev: Uevent) returns (claimed: bool)
      requires Valid() && kind.Hid?
      modifies this, sList
      ensures Valid() && (View(), claimed) == HidRest(old(View()), ev)
      ensures fresh(set d | d in sList && d !in old(sList))
    {
      if !ev.classMatches {
        return false;
      }
      if ev.devType == "usb_device" {
        ProcessDevice(ev);
        return false;
      } else if ev.subsystem == "input" {
        ProcessDevice(ev);
        return true;
      }
      return false;
    }

    /** NfcDeviceHandler::HandlerEvent. */
    method NfcEvent(ev: Uevent) returns (claimed: bool)
      requires Valid() && kind.Nfc?
      modifies this, sList
      ensures Valid() && (View(), claimed) == HandleNfc(old(View()), ev)
      ensures fresh(set d | d in sList && d !in old(sList))
    {
      if ev.action == "remove" {
        ProcessDevice(ev);
        if m_deviceRemoved {
          return true;
        }
      }
      if ev.classMatches {
        ProcessDevice(ev);
        return true;
      }
      return false;
    }
  }
}
