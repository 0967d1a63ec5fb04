/** Finding a partition in two levels: the device by name prefix, then the partition exactly. */
module DriveLookup {
  import opened Base
  import opened DeviceLists
  import opened StorageModel

  datatype Drive = Drive(name: string, parts: seq<Part>)

  function Names(drives: seq<Drive>): (r: seq<string>)
    ensures |r| == |drives|
    ensures forall i :: 0 <= i < |r| ==> r[i] == drives[i].name
  {
    seq(|drives|, i requires 0 <= i < |drives| => drives[i].name)
  }

  /** What a format, check or label request reaches: a device and a partition position in it. */
  function TwoLevel(drives: seq<Drive>, request: string): Option<(nat, nat)> {
    match FirstMatch(Names(drives), request)
    case None => None
    case Some(i) =>
      match FindPartition(drives[i].parts, request)
      case None => None
      case Some(j) => Some((i, j))
  }

  /** The reference: the first partition anywhere with exactly this name. */
  function Flat(drives: seq<Drive>, request: string): (r: Option<(nat, nat)>)
    ensures r.Some? ==> r.value.0 < |drives| && FindPartition(drives[r.value.0].parts, request) == Some(r.value.1)
    ensures r.Some? ==> forall k :: 0 <= k < r.value.0 ==> FindPartition(drives[k].parts, request).None?
    ensures r.None? ==> forall k :: 0 <= k < |drives| ==> FindPartition(drives[k].parts, request).None?
  {
    if drives == [] then None
    else
      match FindPartition(drives[0].parts, request)
      case Some(j) => Some((0, j))
      case None =>
        match Flat(drives[1..], request)
        case None => None
        case Some((i, j)) => Some((i + 1, j))
  }

  /** p is a partition name of device i and of no earlier device. */
  ghost predicate FirstHolder(drives: seq<Drive>, i: nat, p: string) {
    && i < |drives| && p != ""
    && FindPartition(drives[i].parts, p).Some?
    && forall k :: 0 <= k < i ==> FindPartition(drives[k].parts, p).None?
  }

  /** Every name extends the name of the device that holds it first and of no device before that. */
  ghost predicate NoShadow(drives: seq<Drive>) {
    forall i: nat, p :: FirstHolder(drives, i, p) ==>
      drives[i].name <= p && forall k :: 0 <= k < i ==> !(drives[k].name <= p)
  }

  lemma AgreeOn(drives: seq<Drive>, request: string)
    requires NoShadow(drives)
    ensures TwoLevel(drives, request) == Flat(drives, request)
  {
    var flat := Flat(drives, request);
    if flat.Some? {
      var i := flat.value.0;
      assert FirstHolder(drives, i, request);
      assert Names(drives)[i] <= request;
      assert FirstMatch(Names(drives), request) == Some(i);
    }
  }

  /** The two searches agree on every request exactly if no name is shadowed. */
  lemma TwoLevelIsFlat(drives: seq<Drive>)
    ensures (forall request :: TwoLevel(drives, request) == Flat(drives, request)) <==> NoShadow(drives)
  {
    if NoShadow(drives) {
      forall request ensures TwoLevel(drives, request) == Flat(drives, request) {
        AgreeOn(drives, request);
      }
    }
    if forall request :: TwoLevel(drives, request) == Flat(drives, request) {
      forall i: nat, p | FirstHolder(drives, i, p)
        ensures drives[i].name <= p && forall k :: 0 <= k < i ==> !(drives[k].name <= p)
      {
        assert TwoLevel(drives, p) == Flat(drives, p);
        assert FirstMatch(Names(drives), p) == Some(i);
        assert forall k :: 0 <= k < i ==> !(Names(drives)[k] <= p);
      }
    }
  }

  /** A drive name that is a prefix of another one hides the other's partitions: sda hides sdaa1. */
  lemma ShadowedPartitionIsMissed(drives: seq<Drive>, p: Part)
    requires p.driveName == "sdaa1" && drives == [Drive("sda", []), Drive("sdaa", [p])]
    ensures TwoLevel(drives, "sdaa1") == None && Flat(drives, "sdaa1") == Some((1, 0))
  {
    assert Names(drives)[0] == "sda" && "sda" <= "sdaa1";
    assert FirstMatch(Names(drives), "sdaa1") == Some(0);
    assert FindPartition([p], "sdaa1") == Some(0);
    assert drives[1..] == [Drive("sdaa", [p])];
    assert Flat(drives[1..], "sdaa1") == Some((0, 0));
  }

  lemma PrefixesCompare(a: string, b: string, p: string)
    requires a <= p && b <= p
    ensures a <= b || b <= a
  {
    if |a| <= |b| { assert a == b[..|a|]; } else { assert b == a[..|b|]; }
  }

  /** Prefix-free device names, each a prefix of its partitions' names, are enough. */
  lemma PrefixFreeNamesSuffice(drives: seq<Drive>)
    requires forall i, k :: 0 <= i < |drives| && 0 <= k < |drives| && i != k ==> !(drives[i].name <= drives[k].name)
    requires forall i, j :: 0 <= i < |drives| && 0 <= j < |drives[i].parts| ==>
      drives[i].name <= drives[i].parts[j].driveName
    ensures NoShadow(drives)
    ensures forall request :: TwoLevel(drives, request) == Flat(drives, request)
  {
    forall i: nat, p | FirstHolder(drives, i, p)
      ensures drives[i].name <= p && forall k :: 0 <= k < i ==> !(drives[k].name <= p)
    {
      forall k | 0 <= k < i ensures !(drives[k].name <= p) {
        if drives[k].name <= p {
          PrefixesCompare(drives[k].name, drives[i].name, p);
          assert false;
        }
      }
    }
    TwoLevelIsFlat(drives);
  }

  /** Without any hypothesis, what is reached is a partition whose name is the request. */
  lemma ReachesOnlyTheRequested(drives: seq<Drive>, request: string)
    ensures var r := TwoLevel(drives, request);
      r.Some? ==>
        && r.value.0 < |drives| && r.value.1 < |drives[r.value.0].parts|
        && drives[r.value.0].parts[r.value.1].driveName == request != ""
  {
  }

  /** From a to b, nothing but partitions called name differs. */
  ghost predicate OnlyNamed(a: seq<Drive>, b: seq<Drive>, name: string) {
    && |a| == |b|
    && forall i :: 0 <= i < |a| ==>
         && a[i].name == b[i].name && |a[i].parts| == |b[i].parts|
         && forall j :: 0 <= j < |a[i].parts| ==>
              && a[i].parts[j].driveName == b[i].parts[j].driveName
              && (a[i].parts[j].driveName != name ==> a[i].parts[j] == b[i].parts[j])
  }
}
