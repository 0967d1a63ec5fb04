/**
 * The connecting timeout: a GLib source that holds a bare pointer to its device. Any number of
 * devices arm, cancel, fire and die in any order, next to sources of other components.
 */
module Timers {
  datatype State = State(
    sources: map<nat, nat>,    // live sources of this service: id -> device in their data
    others: set<nat>,          // ids of live sources of anybody else
    timeoutId: map<nat, nat>,  // live devices: their m_timeoutId
    strayRemoves: nat,         // g_source_remove on an id that is not a live source of the caller
    strayFires: nat)           // callbacks that ran with the pointer of a destroyed device

  datatype Action =
    | Create(d: nat)
    | Arm(d: nat, id: nat)     // setPartitionInfo: cancel, then g_timeout_add hands out id
    | Cancel(d: nat)           // cancelConnectingTimeout, as the notification calls it
    | Fire(id: nat)            // the main loop runs notifyStorageConnecting
    | Destroy(d: nat)          // the destructor
    | OtherAdd(id: nat)
    | OtherRemove(id: nat)

  function Init(): State {
    State(map[], {}, map[], 0, 0)
  }

  /** g_source_remove(id) called on behalf of device d. */
  function Remove(s: State, d: nat, id: nat): State {
    var own := id in s.sources && s.sources[id] == d;
    s.(sources := s.sources - {id}, others := s.others - {id},
       strayRemoves := s.strayRemoves + if own then 0 else 1)
  }

  /** cancelConnectingTimeout. */
  function Cancelled(s: State, d: nat): State
    requires d in s.timeoutId
  {
    if s.timeoutId[d] != 0 then
      var t := Remove(s, d, s.timeoutId[d]);
      t.(timeoutId := t.timeoutId[d := 0])
    else s
  }

  predicate Enabled(s: State, a: Action) {
    match a
    case Create(d) => d !in s.timeoutId
    case Arm(d, id) =>
      d in s.timeoutId && id != 0 && var t := Cancelled(s, d); id !in t.sources && id !in t.others
    case Cancel(d) => d in s.timeoutId
    case Fire(id) => id in s.sources
    case Destroy(d) => d in s.timeoutId
    case OtherAdd(id) => id != 0 && id !in s.sources && id !in s.others
    case OtherRemove(id) => id in s.others
  }

  function Apply(s: State, a: Action): State
    requires Enabled(s, a)
  {
    match a
    case Create(d) => s.(timeoutId := s.timeoutId[d := 0])
    case Arm(d, id) =>
      var t := Cancelled(s, d);
      t.(sources := t.sources[id := d], timeoutId := t.timeoutId[d := id])
    case Cancel(d) => Cancelled(s, d)
    case Fire(id) =>
      var d := s.sources[id];
      var t := s.(sources := s.sources - {id}); // the callback returns false
      if d in s.timeoutId then t.(timeoutId := s.timeoutId[d := 0]) else t.(strayFires := s.strayFires + 1)
    case Destroy(d) =>
      var t := Cancelled(s, d);
      t.(timeoutId := t.timeoutId - {d})
    case OtherAdd(id) => s.(others := s.others + {id})
    case OtherRemove(id) => s.(others := s.others - {id})
  }

  predicate Legal(s: State, run: seq<Action>)
    decreases |run|
  {
    run == [] || (Enabled(s, run[0]) && Legal(Apply(s, run[0]), run[1..]))
  }

  function Exec(s: State, run: seq<Action>): State
    requires Legal(s, run)
    decreases |run|
  {
    if run == [] then s else Exec(Apply(s, run[0]), run[1..])
  }

  /** A device's id is 0 or names a source of its own, and every source is named by its device. */
  ghost predicate Inv(s: State) {
    && (forall d :: d in s.timeoutId && s.timeoutId[d] != 0 ==>
          s.timeoutId[d] in s.sources && s.sources[s.timeoutId[d]] == d)
    && (forall id :: id in s.sources ==>
          id != 0 && id !in s.others && s.sources[id] in s.timeoutId && s.timeoutId[s.sources[id]] == id)
    && s.strayRemoves == 0 && s.strayFires == 0
  }

  lemma CancelledInv(s: State, d: nat)
    requires Inv(s) && d in s.timeoutId
    ensures Inv(Cancelled(s, d)) && Cancelled(s, d).timeoutId[d] == 0
    ensures Cancelled(s, d).others == s.others
    ensures Cancelled(s, d).timeoutId.Keys == s.timeoutId.Keys
  {
  }

  lemma StepInv(s: State, a: Action)
    requires Inv(s) && Enabled(s, a)
    ensures Inv(Apply(s, a))
    ensures Apply(s, a).others == match a
      case OtherAdd(id) => s.others + {id}
      case OtherRemove(id) => s.others - {id}
      case _ => s.others
  {
    if a.Arm? || a.Cancel? || a.Destroy? { CancelledInv(s, a.d); }
  }

  lemma {:induction false} RunInv(s: State, run: seq<Action>)
    requires Inv(s) && Legal(s, run)
    ensures Inv(Exec(s, run))
    decreases |run|
  {
    if run != [] {
      StepInv(s, run[0]);
      RunInv(Apply(s, run[0]), run[1..]);
    }
  }

  /**
   * In every interleaving: a device's id is 0 and it has no source, or the id is its only
   * source; only own live sources are ever removed, so nobody else loses one; no source refers
   * to a destroyed device, and no callback ever ran on one.
   */
  lemma TimerOwnership(run: seq<Action>)
    requires Legal(Init(), run)
    ensures var s := Exec(Init(), run);
      && s.strayRemoves == 0 && s.strayFires == 0
      && (forall id :: id in s.sources ==> s.sources[id] in s.timeoutId)
      && (forall d :: d in s.timeoutId ==>
           forall id :: id in s.sources && s.sources[id] == d <==> id == s.timeoutId[d] && id != 0)
    ensures forall a :: Enabled(Exec(Init(), run), a) && !a.OtherAdd? && !a.OtherRemove? ==>
      Apply(Exec(Init(), run), a).others == Exec(Init(), run).others
  {
    RunInv(Init(), run);
    var s := Exec(Init(), run);
    forall a | Enabled(s, a) && !a.OtherAdd? && !a.OtherRemove? ensures Apply(s, a).others == s.others {
      StepInv(s, a);
    }
  }

  /** After its destructor a device has no source left, whatever else is live. */
  lemma DestroyedDeviceIsForgotten(run: seq<Action>, d: nat)
    requires Legal(Init(), run) && Enabled(Exec(Init(), run), Destroy(d))
    ensures var t := Apply(Exec(Init(), run), Destroy(d));
      d !in t.timeoutId && forall id :: id in t.sources ==> t.sources[id] != d
  {
    RunInv(Init(), run);
    StepInv(Exec(Init(), run), Destroy(d));
  }
}
