/**
 * Lists of devices searched by path prefix: the first device whose stored path is a prefix of
 * the requested one wins. The ordering that makes this behave like an index is proved here.
 */
module DeviceLists {
  import opened Base

  /** The value of getDeviceWithPath and getDeviceWithName on the stored strings. */
  function FirstMatch(stored: seq<string>, key: string): (r: Option<nat>)
    ensures r.Some? ==> r.value < |stored| && stored[r.value] <= key
                        && forall i :: 0 <= i < r.value ==> !(stored[i] <= key)
    ensures r.None? ==> forall i :: 0 <= i < |stored| ==> !(stored[i] <= key)
  {
    if stored == [] then None
    else if stored[0] <= key then Some(0)
    else
      match FirstMatch(stored[1..], key)
      case None => None
      case Some(k) => Some(k + 1)
  }

  /** What the handlers read of a uevent. */
  datatype Uevent = Uevent(
    action: string, devPath: string, devType: string, subsystem: string,
    classMatches: bool,   // the interface class contains the handler's class
    processed: bool)

  datatype Notice = AddedDevice(path: string) | AddedAny | RemovedDevice(path: string)

  datatype Handler = Handler(paths: seq<string>, removed: bool, notices: seq<Notice>)

  datatype Kind = Hid | Nfc

  /** ProcessHIDDevice and ProcessNfcDevice, on the list of stored paths. */
  function Process(kind: Kind, h: Handler, ev: Uevent): Handler {
    var found := FirstMatch(h.paths, ev.devPath);
    if ev.action == "add" then
      var told :=
        if kind.Hid? then (if ev.devType != "usb_device" && ev.processed then [AddedAny] else [])
        else (if found.None? then [AddedDevice(ev.devPath)] else []);
      h.(paths := if found.None? then h.paths + [ev.devPath] else h.paths[found.value := ev.devPath],
         notices := h.notices + told)
    else if ev.action == "remove" && found.Some? then
      Handler(RemoveAt(h.paths, found.value), true, h.notices + [RemovedDevice(h.paths[found.value])])
    else h
  }

  function HandleHid(h: Handler, ev: Uevent): (Handler, bool) {
    var h1 := if ev.action == "remove" then Process(Hid, h.(removed := false), ev) else h;
    if ev.action == "remove" && h1.removed then (h1, true) else HidRest(h1, ev)
  }

  /** What the HID handler does with an event that did not remove a device. */
  function HidRest(h: Handler, ev: Uevent): (Handler, bool) {
    if !ev.classMatches then (h, false)
    else if ev.devType == "usb_device" then (Process(Hid, h, ev), false)
    else if ev.subsystem == "input" then (Process(Hid, h, ev), true)
    else (h, false)
  }

  function HandleNfc(h: Handler, ev: Uevent): (Handler, bool) {
    var h1 := if ev.action == "remove" then Process(Nfc, h, ev) else h;
    if ev.action == "remove" && h1.removed then (h1, true)
    else if ev.classMatches then (Process(Nfc, h1, ev), true)
    else (h1, false)
  }

  function Handle(kind: Kind, h: Handler, ev: Uevent): (Handler, bool) {
    if kind.Hid? then HandleHid(h, ev) else HandleNfc(h, ev)
  }

  function Run(kind: Kind, h: Handler, evs: seq<Uevent>): Handler
    decreases |evs|
  {
    if evs == [] then h else Run(kind, Handle(kind, h, evs[0]).0, evs[1..])
  }

  const FRESH := Handler([], false, [])

  // ---------------------------------------------------------------- the ordering invariant

  /** No earlier stored path is a prefix of a later one. */
  ghost predicate PrefixOrdered(paths: seq<string>) {
    forall i, j :: 0 <= i < j < |paths| ==> !(paths[i] <= paths[j])
  }

  lemma PrefixTransitive(a: string, b: string, c: string)
    requires a <= b && b <= c
    ensures a <= c
  {
  }

  lemma ProcessOrdered(kind: Kind, h: Handler, ev: Uevent)
    requires PrefixOrdered(h.paths)
    ensures PrefixOrdered(Process(kind, h, ev).paths)
  {
    var found := FirstMatch(h.paths, ev.devPath);
    var after := Process(kind, h, ev).paths;
    if ev.action == "add" && found.Some? {
      forall j | found.value < j < |after| ensures !(after[found.value] <= after[j]) {
        if ev.devPath <= h.paths[j] {
          PrefixTransitive(h.paths[found.value], ev.devPath, h.paths[j]);
          assert false;
        }
      }
    }
  }

  lemma {:induction false} RunOrdered(kind: Kind, h: Handler, evs: seq<Uevent>)
    requires PrefixOrdered(h.paths)
    ensures PrefixOrdered(Run(kind, h, evs).paths)
    decreases |evs|
  {
    if evs != [] {
      var ev := evs[0];
      var h1 := if kind.Hid? then h.(removed := false) else h;
      ProcessOrdered(kind, h, ev);
      ProcessOrdered(kind, h1, ev);
      ProcessOrdered(kind, Process(kind, h1, ev), ev);
      RunOrdered(kind, Handle(kind, h, ev).0, evs[1..]);
    }
  }

  /** In an ordered list the first-match search is exact on stored paths, and they are distinct. */
  lemma StoredPathIsFound(paths: seq<string>, k: nat)
    requires PrefixOrdered(paths) && k < |paths|
    ensures FirstMatch(paths, paths[k]) == Some(k)
    ensures forall i :: 0 <= i < |paths| && paths[i] == paths[k] ==> i == k
  {
    assert paths[k] <= paths[k];
    assert forall i :: 0 <= i < k ==> !(paths[i] <= paths[k]);
    assert forall i :: k < i < |paths| ==> !(paths[k] <= paths[i]);
  }

  /** Whether the handler stores the path of this event. */
  predicate Accepts(kind: Kind, ev: Uevent) {
    && ev.action == "add" && ev.classMatches
    && (kind.Nfc? || ev.devType == "usb_device" || ev.subsystem == "input")
  }

  /**
   * After any run of events the stored paths are distinct and no earlier one is a prefix of a
   * later one; and right after an accepted add of path d the search for d finds the device
   * whose path is exactly d.
   */
  lemma LookupBehavesLikeAnIndex(kind: Kind, evs: seq<Uevent>, ev: Uevent)
    ensures var paths := Run(kind, FRESH, evs).paths;
      PrefixOrdered(paths) && Distinct(paths)
    ensures var after := Handle(kind, Run(kind, FRESH, evs), ev).0.paths;
      Accepts(kind, ev) ==>
        var r := FirstMatch(after, ev.devPath);
        r.Some? && after[r.value] == ev.devPath
  {
    RunOrdered(kind, FRESH, evs);
    var h := Run(kind, FRESH, evs);
    forall i, j | 0 <= i < j < |h.paths| ensures h.paths[i] != h.paths[j] {
      StoredPathIsFound(h.paths, j);
    }
    if Accepts(kind, ev) {
      var after := Process(kind, h, ev).paths;
      ProcessOrdered(kind, h, ev);
      var found := FirstMatch(h.paths, ev.devPath);
      StoredPathIsFound(after, if found.None? then |h.paths| else found.value);
    }
  }

  /**
   * The ordering is one-sided, and a stored path can be lost: a second device below the first
   * takes over its entry, while one that is not below it, be it the parent, is stored behind.
   */
  lemma TwoAdds(kind: Kind, first: Uevent, second: Uevent)
    requires Accepts(kind, first) && Accepts(kind, second)
    ensures Run(kind, FRESH, [first, second]).paths
         == if first.devPath <= second.devPath then [second.devPath] else [first.devPath, second.devPath]
  {
    var h := Handle(kind, FRESH, first).0;
    assert h.paths == [first.devPath];
    var h2 := Process(kind, h, second);
    assert FirstMatch(h.paths, second.devPath) == if first.devPath <= second.devPath then Some(0) else None;
    assert Handle(kind, h, second).0.paths == h2.paths;
    assert Run(kind, h, [second]) == Handle(kind, h, second).0;
    assert [first, second][1..] == [second];
    assert [second][1..] == [];
  }

  // ---------------------------------------------------------------- what a remove event reports

  /** key takes the place of the first of its prefixes in the list, or comes last if it has none. */
  ghost predicate Takes(before: seq<string>, after: seq<string>, key: string) {
    match FirstMatch(before, key)
    case None => after == before + [key]
    case Some(k) =>
      |after| == |before| && after[k] == key && forall i :: 0 <= i < |before| && i != k ==> after[i] == before[i]
  }

  /** The first prefix of key is gone from the list, and said to be. */
  ghost predicate Drops(h: Handler, v: Handler, key: string) {
    match FirstMatch(h.paths, key)
    case None => false
    case Some(k) =>
      v.paths == h.paths[..k] + h.paths[k + 1..] && v.notices == h.notices + [RemovedDevice(h.paths[k])]
  }

  /**
   * The HID handler, event by event: a remove below a stored path drops the first such device; an
   * add of its class, of a USB or an input device, stores the path, and is told once it was
   * processed unless it is the USB device itself; nothing else changes anything. It claims what
   * it dropped, and what is of its class and an input device.
   */
  lemma HidExact(h: Handler, ev: Uevent)
    ensures var (v, claimed) := HandleHid(h, ev);
      var drops := ev.action == "remove" && FirstMatch(h.paths, ev.devPath).Some?;
      var usb, input := ev.devType == "usb_device", ev.devType != "usb_device" && ev.subsystem == "input";
      var stores := ev.action == "add" && ev.classMatches && (usb || input);
      && (claimed <==> drops || (ev.classMatches && input))
      && (drops ==> Drops(h, v, ev.devPath))
      && (stores ==> Takes(h.paths, v.paths, ev.devPath)
                     && v.notices == h.notices + if input && ev.processed then [AddedAny] else [])
      && (!drops && !stores ==> v.paths == h.paths && v.notices == h.notices)
      && (v.removed <==> if ev.action == "remove" then drops else h.removed)
  {
  }

  /**
   * The NFC handler: the same removes; an add of its class stores the path and is told exactly if
   * no stored path is a prefix of it. It claims what is of its class, and every remove once it
   * has dropped a device.
   */
  lemma NfcExact(h: Handler, ev: Uevent)
    ensures var (v, claimed) := HandleNfc(h, ev);
      var drops := ev.action == "remove" && FirstMatch(h.paths, ev.devPath).Some?;
      var stores := ev.action == "add" && ev.classMatches;
      && (claimed <==> ev.classMatches || (ev.action == "remove" && (drops || h.removed)))
      && (drops ==> Drops(h, v, ev.devPath))
      && (stores ==> Takes(h.paths, v.paths, ev.devPath)
                     && v.notices == h.notices + if FirstMatch(h.paths, ev.devPath).None?
                                                 then [AddedDevice(ev.devPath)] else [])
      && (!drops && !stores ==> v.paths == h.paths && v.notices == h.notices)
      && (v.removed <==> h.removed || drops)
  {
  }

  /** The HID handler claims a remove event exactly if it found a device or takes it for input. */
  lemma HidClaimsRemove(h: Handler, ev: Uevent)
    requires ev.action == "remove"
    ensures HandleHid(h, ev).1 <==>
      FirstMatch(h.paths, ev.devPath).Some?
      || (ev.classMatches && ev.devType != "usb_device" && ev.subsystem == "input")
  {
    var h1 := Process(Hid, h.(removed := false), ev);
    assert FirstMatch(h.paths, ev.devPath).None? ==> h1 == h.(removed := false);
  }

  /** Some event of the run made the NFC handler drop a device. */
  ghost predicate EverDropped(evs: seq<Uevent>) {
    exists k :: 0 <= k < |evs| && evs[k].action == "remove"
      && FirstMatch(Run(Nfc, FRESH, evs[..k]).paths, evs[k].devPath).Some?
  }

  lemma {:induction false} RunSplit(kind: Kind, h: Handler, evs: seq<Uevent>, ev: Uevent)
    ensures Run(kind, h, evs + [ev]) == Handle(kind, Run(kind, h, evs), ev).0
    decreases |evs|
  {
    if evs == [] {
      assert [ev][1..] == [];
    } else {
      assert (evs + [ev])[1..] == evs[1..] + [ev];
      RunSplit(kind, Handle(kind, h, evs[0]).0, evs[1..], ev);
    }
  }

  lemma {:induction false} NfcFlagIsSticky(evs: seq<Uevent>)
    ensures Run(Nfc, FRESH, evs).removed <==> EverDropped(evs)
  {
    if evs != [] {
      var n := |evs| - 1;
      var init, last := evs[..n], evs[n];
      assert evs == init + [last];
      RunSplit(Nfc, FRESH, init, last);
      NfcFlagIsSticky(init);
      forall k | 0 <= k < n ensures evs[..k] == init[..k] && evs[k] == init[k] {}
      var h := Run(Nfc, FRESH, init);
      if EverDropped(init) {
        var k :| 0 <= k < |init| && init[k].action == "remove"
                 && FirstMatch(Run(Nfc, FRESH, init[..k]).paths, init[k].devPath).Some?;
        assert evs[..k] == init[..k];
        assert EverDropped(evs);
      }
      if last.action == "remove" && FirstMatch(h.paths, last.devPath).Some? {
        assert evs[..n] == init;
        assert EverDropped(evs);
      }
    }
  }

  /**
   * The NFC handler never clears its flag, so it claims a remove event exactly if the class
   * matches, a device was found now, or any earlier event ever dropped one. The HID handler,
   * which clears it, does not have the last case.
   */
  lemma NfcClaimsRemove(evs: seq<Uevent>, ev: Uevent)
    requires ev.action == "remove"
    ensures HandleNfc(Run(Nfc, FRESH, evs), ev).1 <==>
      ev.classMatches
      || FirstMatch(Run(Nfc, FRESH, evs).paths, ev.devPath).Some?
      || EverDropped(evs)
  {
    NfcFlagIsSticky(evs);
  }

  /** After one device came and went, the NFC handler claims the removal of any stranger; HID does not. */
  lemma StrangerIsClaimed(add: Uevent, remove: Uevent, stranger: Uevent)
    requires add.action == "add" && add.classMatches && remove.action == "remove" && !remove.classMatches
    requires add.devPath == remove.devPath
    requires stranger.action == "remove" && !stranger.classMatches
    ensures Run(Nfc, FRESH, [add, remove]).paths == []
    ensures HandleNfc(Run(Nfc, FRESH, [add, remove]), stranger).1
    ensures !HandleHid(Run(Nfc, FRESH, [add, remove]), stranger).1
  {
    var h1 := Handle(Nfc, FRESH, add).0;
    assert h1.paths == [add.devPath] && FirstMatch(h1.paths, remove.devPath) == Some(0);
    var h2 := Handle(Nfc, h1, remove).0;
    assert h2 == Process(Nfc, h1, remove) && h2.paths == [] && h2.removed;
    assert [add, remove][1..] == [remove] && [remove][1..] == [];
    assert Run(Nfc, h1, [remove]) == h2;
  }
}
