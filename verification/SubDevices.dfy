/** The sub-device lists of sound and video devices, as lists and as the map they stand for. */
module SubDevices {
  import opened Base

  datatype Sub<A> = Sub(path: string, attrs: A)

  datatype Update<A> = AddSub(name: string, attrs: A) | RemoveSub(name: string) | NoUpdate

  function PathOf(name: string): string {
    "/dev/" + name
  }

  /** getSubDevice. */
  function Find<A>(list: seq<Sub<A>>, path: string): (r: Option<nat>)
    ensures r.Some? ==> r.value < |list| && list[r.value].path == path
                        && forall i :: 0 <= i < r.value ==> list[i].path != path
    ensures r.None? ==> forall i :: 0 <= i < |list| ==> list[i].path != path
  {
    if list == [] then None
    else if list[0].path == path then Some(0)
    else
      match Find(list[1..], path)
      case None => None
      case Some(k) => Some(k + 1)
  }

  function Put<A>(list: seq<Sub<A>>, path: string, attrs: A): seq<Sub<A>> {
    match Find(list, path)
    case Some(k) => list[k := Sub(path, attrs)]
    case None => list + [Sub(path, attrs)]
  }

  function Drop<A>(list: seq<Sub<A>>, path: string): seq<Sub<A>> {
    match Find(list, path)
    case Some(k) => RemoveAt(list, k)
    case None => list
  }

  /** The switch of updateDeviceInfo. */
  function Updated<A>(list: seq<Sub<A>>, u: Update<A>): seq<Sub<A>> {
    match u
    case NoUpdate => list
    case AddSub(name, attrs) => if name == "" then list else Put(list, PathOf(name), attrs)
    case RemoveSub(name) => Drop(list, PathOf(name))
  }

  function Run<A>(list: seq<Sub<A>>, us: seq<Update<A>>): seq<Sub<A>>
    decreases |us|
  {
    if us == [] then list else Run(Updated(list, us[0]), us[1..])
  }

  /** The same updates on a map from path to attributes. */
  function UpdatedMap<A>(m: map<string, A>, u: Update<A>): map<string, A> {
    match u
    case NoUpdate => m
    case AddSub(name, attrs) => if name == "" then m else m[PathOf(name) := attrs]
    case RemoveSub(name) => m - {PathOf(name)}
  }

  function RunMap<A>(m: map<string, A>, us: seq<Update<A>>): map<string, A>
    decreases |us|
  {
    if us == [] then m else RunMap(UpdatedMap(m, us[0]), us[1..])
  }

  ghost predicate EachPathOnce<A>(list: seq<Sub<A>>) {
    forall i, j :: 0 <= i < j < |list| ==> list[i].path != list[j].path
  }

  ghost predicate Agrees<A>(list: seq<Sub<A>>, m: map<string, A>) {
    forall i :: 0 <= i < |list| ==> list[i].path in m && m[list[i].path] == list[i].attrs
  }

  ghost predicate Covers<A>(list: seq<Sub<A>>, m: map<string, A>) {
    forall p :: p in m ==> Find(list, p).Some?
  }

  /** Each path occurs once, and list and map hold the same associations. */
  ghost predicate Represents<A>(list: seq<Sub<A>>, m: map<string, A>) {
    EachPathOnce(list) && Agrees(list, m) && Covers(list, m)
  }

  lemma FindHits<A>(list: seq<Sub<A>>, k: nat)
    requires k < |list|
    ensures Find(list, list[k].path).Some?
  {
  }

  lemma PutRepresents<A>(list: seq<Sub<A>>, m: map<string, A>, path: string, attrs: A)
    requires Represents(list, m)
    ensures Represents(Put(list, path, attrs), m[path := attrs])
  {
    var after := Put(list, path, attrs);
    var at := match Find(list, path) case Some(k) => k case None => |list|;
    assert after[at] == Sub(path, attrs) && forall i :: 0 <= i < |after| && i != at ==> after[i] == list[i];
    forall p | p in m[path := attrs] ensures Find(after, p).Some? {
      FindHits(after, if p == path then at else Find(list, p).value);
    }
  }

  lemma DropRepresents<A>(list: seq<Sub<A>>, m: map<string, A>, path: string)
    requires Represents(list, m)
    ensures Represents(Drop(list, path), m - {path})
  {
    if Find(list, path).None? {
      assert m - {path} == m;
    } else {
      var at := Find(list, path).value;
      DropAgrees(list, m, at);
      DropCovers(list, m, at);
    }
  }

  lemma DropAgrees<A>(list: seq<Sub<A>>, m: map<string, A>, at: nat)
    requires EachPathOnce(list) && Agrees(list, m) && at < |list|
    ensures EachPathOnce(RemoveAt(list, at)) && Agrees(RemoveAt(list, at), m - {list[at].path})
  {
    var after := RemoveAt(list, at);
    forall i | 0 <= i < |after| ensures after[i].path in m && after[i].path != list[at].path
                                        && m[after[i].path] == after[i].attrs {
      var from := if i < at then i else i + 1;
      assert after[i] == list[from];
    }
  }

  lemma DropCovers<A>(list: seq<Sub<A>>, m: map<string, A>, at: nat)
    requires Covers(list, m) && at < |list|
    ensures Covers(RemoveAt(list, at), m - {list[at].path})
  {
    var after := RemoveAt(list, at);
    forall p | p in m - {list[at].path} ensures Find(after, p).Some? {
      var k := Find(list, p).value;
      var to := if k < at then k else k - 1;
      assert after[to] == list[k];
      FindHits(after, to);
    }
  }

  lemma UpdatedRepresents<A>(list: seq<Sub<A>>, m: map<string, A>, u: Update<A>)
    requires Represents(list, m)
    ensures Represents(Updated(list, u), UpdatedMap(m, u))
  {
    match u
    case NoUpdate =>
    case AddSub(name, attrs) => PutRepresents(list, m, PathOf(name), attrs);
    case RemoveSub(name) => DropRepresents(list, m, PathOf(name));
  }

  /** For every sequence of updates the list, read as a map, is the fold of them over a map. */
  lemma {:induction false} ListRefinesMap<A>(list: seq<Sub<A>>, m: map<string, A>, us: seq<Update<A>>)
    requires Represents(list, m)
    ensures Represents(Run(list, us), RunMap(m, us))
    decreases |us|
  {
    if us != [] {
      UpdatedRepresents(list, m, us[0]);
      ListRefinesMap(Updated(list, us[0]), UpdatedMap(m, us[0]), us[1..]);
    }
  }

  // ---------------------------------------------------------------- which events update what

  datatype Uevent = Uevent(
    action: string, subsystem: string, devName: string, devPath: string,
    capabilities: string, productName: string, version: string)

  /** std::string::find(part) != npos. */
  predicate Contains(s: string, part: string) {
    part <= s || (s != "" && Contains(s[1..], part))
  }

  /** SoundDevice::findDeviceType. */
  function SoundType(devicePath: string): string {
    if Contains(devicePath, "pcm") then
      if devicePath != "" && devicePath[|devicePath| - 1] == 'c' then "capture"
      else if devicePath != "" && devicePath[|devicePath| - 1] == 'p' then "playback"
      else "misc"
    else if Contains(devicePath, "control") then "control"
    else "misc"
  }

  function SoundUpdate(ev: Uevent): Update<string> {
    if ev.subsystem != "sound" then NoUpdate
    else if ev.action == "add" then AddSub(ev.devName, SoundType(ev.devPath))
    else if ev.action == "remove" then RemoveSub(ev.devName)
    else NoUpdate
  }

  datatype VideoAttrs = VideoAttrs(capabilities: string, productName: string, version: string)

  function VideoUpdate(ev: Uevent): Update<VideoAttrs> {
    if !(ev.subsystem == "video4linux" && Contains(ev.capabilities, ":capture:")) then NoUpdate
    else if ev.action == "add" then AddSub(ev.devName, VideoAttrs(ev.capabilities, ev.productName, ev.version))
    else if ev.action == "remove" then RemoveSub(ev.devName)
    else NoUpdate
  }

  /** The updates that a sequence of uevents stands for. */
  function UpdatesOf<A>(evs: seq<Uevent>, updateOf: Uevent -> Update<A>): (r: seq<Update<A>>)
    ensures |r| == |evs|
  {
    seq(|evs|, i requires 0 <= i < |evs| => updateOf(evs[i]))
  }

  // ---------------------------------------------------------------- what the list holds in the end

  /** The path an update is about; adds without a name are ignored. */
  predicate About<A>(u: Update<A>, path: string) {
    match u
    case AddSub(name, _) => name != "" && PathOf(name) == path
    case RemoveSub(name) => PathOf(name) == path
    case NoUpdate => false
  }

  /** Update k is the last one about this path. */
  ghost predicate LastAbout<A>(us: seq<Update<A>>, k: nat, path: string) {
    k < |us| && About(us[k], path) && forall j :: k < j < |us| ==> !About(us[j], path)
  }

  /** m holds exactly the paths whose last update was an add, with the attributes of that add. */
  ghost predicate HoldsTheLastWord<A>(m: map<string, A>, us: seq<Update<A>>) {
    && (forall path :: path in m ==> exists k: nat :: LastAbout(us, k, path) && us[k].AddSub?)
    && (forall k: nat, path :: LastAbout(us, k, path) ==>
          if us[k].AddSub? then path in m && m[path] == us[k].attrs else path !in m)
  }

  lemma {:induction false} RunMapOneMore<A>(m: map<string, A>, us: seq<Update<A>>, u: Update<A>)
    ensures RunMap(m, us + [u]) == UpdatedMap(RunMap(m, us), u)
    decreases |us|
  {
    if us == [] {
      assert us + [u] == [u] && [u][1..] == [];
    } else {
      assert (us + [u])[1..] == us[1..] + [u];
      RunMapOneMore(UpdatedMap(m, us[0]), us[1..], u);
    }
  }

  lemma LastAboutOneMore<A>(us: seq<Update<A>>, u: Update<A>, k: nat, path: string)
    ensures LastAbout(us + [u], k, path) <==>
      (if k == |us| then About(u, path) else LastAbout(us, k, path) && !About(u, path))
  {
    var all := us + [u];
    if k < |us| {
      assert all[k] == us[k] && all[|us|] == u;
      if LastAbout(us, k, path) && !About(u, path) {
        forall j | k < j < |all| ensures !About(all[j], path) {
          assert j < |us| ==> all[j] == us[j];
        }
      }
      if LastAbout(all, k, path) {
        forall j | k < j < |us| ensures !About(us[j], path) { assert all[j] == us[j]; }
      }
    }
  }

  lemma {:induction false} FoldHoldsTheLastWord<A>(us: seq<Update<A>>)
    ensures HoldsTheLastWord(RunMap(map[], us), us)
    decreases |us|
  {
    if us != [] {
      var init, u := us[..|us| - 1], us[|us| - 1];
      assert us == init + [u];
      FoldHoldsTheLastWord(init);
      RunMapOneMore(map[], init, u);
      var before, after := RunMap(map[], init), RunMap(map[], us);
      forall k: nat, path | LastAbout(us, k, path)
        ensures if us[k].AddSub? then path in after && after[path] == us[k].attrs else path !in after
      {
        LastAboutOneMore(init, u, k, path);
        assert k < |init| ==> us[k] == init[k];
      }
      forall path | path in after ensures exists k: nat :: LastAbout(us, k, path) && us[k].AddSub? {
        if About(u, path) {
          LastAboutOneMore(init, u, |init|, path);
          assert LastAbout(us, |init|, path);
        } else {
          assert path in before;
          var k: nat :| LastAbout(init, k, path) && init[k].AddSub?;
          LastAboutOneMore(init, u, k, path);
          assert LastAbout(us, k, path) && us[k] == init[k];
        }
      }
    }
  }

  // ---------------------------------------------------------------- the same, said of the uevents

  /** part stands somewhere in s. */
  predicate Occurs(s: string, part: string) {
    exists i :: 0 <= i <= |s| && part <= s[i..]
  }

  lemma {:induction false} ContainsOccurs(s: string, part: string)
    ensures Contains(s, part) <==> Occurs(s, part)
  {
    if part <= s {
      assert part <= s[0..];
    } else if s != "" {
      ContainsOccurs(s[1..], part);
      if i :| 0 <= i <= |s[1..]| && part <= s[1..][i..] {
        assert s[i + 1..] == s[1..][i..];
      }
      if i :| 0 <= i <= |s| && part <= s[i..] {
        assert i > 0 && s[1..][i - 1..] == s[i..];
      }
    }
  }

  /** Event k is the last of those that matter for the path. */
  ghost predicate LastWord(evs: seq<Uevent>, matters: (Uevent, string) -> bool, k: nat, path: string) {
    k < |evs| && matters(evs[k], path) && forall j :: k < j < |evs| ==> !matters(evs[j], path)
  }

  /**
   * Each path occurs once; a path is in the list exactly if the last event that matters for it is
   * an add; and it has the attributes of that event.
   */
  ghost predicate HoldsTheLastAdds<A>(list: seq<Sub<A>>, evs: seq<Uevent>, matters: (Uevent, string) -> bool,
                                      attrsOf: Uevent -> A)
  {
    && EachPathOnce(list)
    && (forall i :: 0 <= i < |list| ==> exists k: nat ::
         LastWord(evs, matters, k, list[i].path) && evs[k].action == "add" && list[i].attrs == attrsOf(evs[k]))
    && (forall k: nat, path :: LastWord(evs, matters, k, path) && evs[k].action == "add" ==> Find(list, path).Some?)
  }

  /** An update that is an add, with what the event says, or a removal. */
  ghost predicate SaysSo<A>(u: Update<A>, ev: Uevent, attrs: A) {
    match u
    case AddSub(_, given) => ev.action == "add" && given == attrs
    case RemoveSub(_) => ev.action == "remove"
    case NoUpdate => true
  }

  lemma LastWordIsLastAbout<A>(evs: seq<Uevent>, updateOf: Uevent -> Update<A>, matters: (Uevent, string) -> bool,
                               k: nat, path: string)
    requires forall ev, p :: matters(ev, p) <==> About(updateOf(ev), p)
    ensures LastWord(evs, matters, k, path) <==> LastAbout(UpdatesOf(evs, updateOf), k, path)
  {
    var us := UpdatesOf(evs, updateOf);
    assert forall j :: 0 <= j < |evs| ==> us[j] == updateOf(evs[j]);
  }

  lemma ListHoldsTheLastAdds<A>(evs: seq<Uevent>, updateOf: Uevent -> Update<A>,
                                matters: (Uevent, string) -> bool, attrsOf: Uevent -> A)
    requires forall ev, path :: matters(ev, path) <==> About(updateOf(ev), path)
    requires forall ev :: SaysSo(updateOf(ev), ev, attrsOf(ev))
    ensures HoldsTheLastAdds(Run([], UpdatesOf(evs, updateOf)), evs, matters, attrsOf)
  {
    var us := UpdatesOf(evs, updateOf);
    var list, m := Run([], us), RunMap(map[], us);
    ListRefinesMap([], map[], us);
    FoldHoldsTheLastWord(us);
    forall i | 0 <= i < |list|
      ensures exists k: nat ::
        LastWord(evs, matters, k, list[i].path) && evs[k].action == "add" && list[i].attrs == attrsOf(evs[k])
    {
      var k: nat :| LastAbout(us, k, list[i].path) && us[k].AddSub?;
      LastWordIsLastAbout(evs, updateOf, matters, k, list[i].path);
      assert SaysSo(updateOf(evs[k]), evs[k], attrsOf(evs[k]));
    }
    forall k: nat, path | LastWord(evs, matters, k, path) && evs[k].action == "add" ensures Find(list, path).Some? {
      LastWordIsLastAbout(evs, updateOf, matters, k, path);
      assert SaysSo(updateOf(evs[k]), evs[k], attrsOf(evs[k]));
    }
  }

  /** A sound event of that name, an add only if it has one. */
  predicate SoundMatters(ev: Uevent, path: string) {
    && ev.subsystem == "sound" && "/dev/" + ev.devName == path
    && ((ev.action == "add" && ev.devName != "") || ev.action == "remove")
  }

  /** The kind of a sound device, from the text of its path. */
  function SoundKind(ev: Uevent): string {
    var p := ev.devPath;
    if Occurs(p, "pcm") && p[|p| - 1] == 'c' then "capture"
    else if Occurs(p, "pcm") && p[|p| - 1] == 'p' then "playback"
    else if !Occurs(p, "pcm") && Occurs(p, "control") then "control"
    else "misc"
  }

  lemma SoundTypeIsKind(ev: Uevent)
    ensures SoundType(ev.devPath) == SoundKind(ev)
  {
    ContainsOccurs(ev.devPath, "pcm");
    ContainsOccurs(ev.devPath, "control");
  }

  /**
   * For every sequence of uevents to a new sound device: its list holds each path once, and a path
   * exactly if the last sound event of its name, named adds and removes, is an add; and then as
   * capture, playback, control or misc by the text of that event's path.
   */
  lemma SoundListHoldsTheLastWord(evs: seq<Uevent>)
    ensures HoldsTheLastAdds(Run([], UpdatesOf(evs, SoundUpdate)), evs, SoundMatters, SoundKind)
  {
    forall ev, path ensures SoundMatters(ev, path) <==> About(SoundUpdate(ev), path) {
    }
    forall ev ensures SaysSo(SoundUpdate(ev), ev, SoundKind(ev)) {
      SoundTypeIsKind(ev);
    }
    ListHoldsTheLastAdds(evs, SoundUpdate, SoundMatters, SoundKind);
  }

  /** An event of a capturing video4linux device of that name, an add only if it has one. */
  predicate VideoMatters(ev: Uevent, path: string) {
    && ev.subsystem == "video4linux" && Occurs(ev.capabilities, ":capture:") && "/dev/" + ev.devName == path
    && ((ev.action == "add" && ev.devName != "") || ev.action == "remove")
  }

  function VideoFields(ev: Uevent): VideoAttrs {
    VideoAttrs(ev.capabilities, ev.productName, ev.version)
  }

  /** The same for a video device, whose entries hold capabilities, product name and version of that add. */
  lemma VideoListHoldsTheLastWord(evs: seq<Uevent>)
    ensures HoldsTheLastAdds(Run([], UpdatesOf(evs, VideoUpdate)), evs, VideoMatters, VideoFields)
  {
    forall ev, path ensures VideoMatters(ev, path) <==> About(VideoUpdate(ev), path) {
      ContainsOccurs(ev.capabilities, ":capture:");
    }
    forall ev ensures SaysSo(VideoUpdate(ev), ev, VideoFields(ev)) {
    }
    ListHoldsTheLastAdds(evs, VideoUpdate, VideoMatters, VideoFields);
  }

  // ---------------------------------------------------------------- the objects

  class SubDevice<A> {
    var devPath: string
    var attrs: A

    constructor (devName: string, attrs: A)
      ensures devPath == PathOf(devName) && this.attrs == attrs
    {
      this.devPath := "/dev/" + devName;
      this.attrs := attrs;
    }

    method UpdateInfo(devName: string, attrs: A)
      modifies this
      ensures devPath == PathOf(devName) && this.attrs == attrs
    {
      this.devPath := "/dev/" + devName;
      this.attrs := attrs;
    }
  }

  ghost function Subs<A>(list: seq<SubDevice<A>>): (r: seq<Sub<A>>)
    reads list
    ensures |r| == |list|
  {
    seq(|list|, i requires 0 <= i < |list| reads list => Sub(list[i].devPath, list[i].attrs))
  }

  /**
   * The sub-device list of a SoundDevice or a VideoDevice; updateOf is the filter of the device's
   * updateDeviceInfo, SoundUpdate or VideoUpdate.
   */
  class SubDeviceList<A> {
    const updateOf: Uevent -> Update<A>
    var mSubDeviceList: seq<SubDevice<A>>

    ghost predicate Valid()
      reads this
    {
      Distinct(mSubDeviceList)
    }

    constructor (updateOf: Uevent -> Update<A>)
      ensures Valid() && mSubDeviceList == [] && this.updateOf == updateOf
    {
      this.updateOf := updateOf;
      mSubDeviceList := [];
    }

    method GetSubDevice(devPath: string) returns (subDevice: SubDevice?<A>, at: nat)
      ensures Find(Subs(mSubDeviceList), devPath) == if subDevice == null then None else Some(at)
      ensures subDevice != null ==> at < |mSubDeviceList| && subDevice == mSubDeviceList[at]
    {
      for i := 0 to |mSubDeviceList|
        invariant forall k :: 0 <= k < i ==> mSubDeviceList[k].devPath != devPath
      {
        if mSubDeviceList[i].devPath == devPath {
          assert Subs(mSubDeviceList)[i].path == devPath;
          return mSubDeviceList[i], i;
        }
      }
      subDevice, at := null, 0;
    }

    /** updateDeviceInfo, as far as the list goes. */
    method UpdateDeviceInfo(ev: Uevent)
      requires Valid()
      modifies this, mSubDeviceList
      ensures Valid() && Subs(mSubDeviceList) == Updated(old(Subs(mSubDeviceList)), updateOf(ev))
    {
      var u := updateOf(ev);
      if u.NoUpdate? {
        return;
      }
      ghost var before := Subs(mSubDeviceList);
      var subDevice, at := GetSubDevice(PathOf(u.name));
      match u
      case AddSub(name, attrs) =>
        if name != "" {
          if subDevice != null {
            subDevice.UpdateInfo(name, attrs);
            assert Subs(mSubDeviceList) == before[at := Sub(PathOf(name), attrs)];
          } else {
            var added := new SubDevice<A>(name, attrs);
            mSubDeviceList := mSubDeviceList + [added];
            assert Subs(mSubDeviceList) == before + [Sub(PathOf(name), attrs)];
          }
        }
      case RemoveSub(_) =>
        if subDevice != null {
          mSubDeviceList := RemoveAt(mSubDeviceList, at);
          assert Subs(mSubDeviceList) == RemoveAt(before, at);
        }
    }
  }
}
