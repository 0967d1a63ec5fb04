/**
 * Who frees what. Two kinds of command are queued on the pool: one for each uevent object that
 * enters handleEvent, and one for each request of the bus service. Both carry a payload that
 * their destructor frees; a uevent command also frees it at the end of execute. The pool is the
 * protocol of module ThreadPool, so these runs include every interleaving of its steps.
 */
module CommandOwnership {
  import opened Base
  import TP = ThreadPool

  /** What entered n-th: its payload object, and the command object made for it. */
  datatype Obj = Payload(n: nat) | Command(n: nat)

  datatype Kind = Uevent | Service

  /** Where executeCommand is with a command; Waiting covers the time before execute is entered. */
  datatype Stage = Waiting | Handled | Executed | Threw | Released

  /**
   * A command: ptr is the payload pointer its destructor tests, carries whether it came with one,
   * failed whether the device manager threw.
   */
  datatype Cmd = Cmd(entry: nat, kind: Kind, carries: bool, ptr: Option<nat>, stage: Stage, failed: bool)

  datatype World = World(
    pool: TP.State,
    entered: nat,          // uevents given to handleEvent and commands given to sendCommand so far
    payloads: set<nat>,    // those that came with a payload object
    made: set<nat>,        // those for which there was a command object
    cmds: seq<Cmd>,        // job number -> the command queued as that job
    freed: multiset<Obj>,  // every delete that was executed
    replies: multiset<nat>,// every callback that was made, by entry
    misused: bool)         // some object was used or freed after it had been freed

  datatype Action =
    | ReceiveNoManager            // handleEvent without a command manager
    | ReceiveNoMemory             // handleEvent, but allocating the command failed
    | Send(kind: Kind, carries: bool)        // sendCommand: enqueue took the command
    | SendRefused(kind: Kind, carries: bool) // enqueue threw; sendCommand catches and deletes
    | Pool(step: TP.Action)       // a step of the pool that touches no command
    | Handle(w: nat, throws: bool)// execute: the device manager works on the payload
    | FreePayload(w: nat)         // execute of a uevent command: delete and null the pointer
    | Reply(w: nat, throws: bool) // execute of a service command: the callback
    | DeleteCommand(w: nat)       // executeCommand: delete cmd, which runs the destructor
    | Return(w: nat)              // executeCommand returns to the worker loop

  function Init(threads: nat): World {
    World(TP.Init(threads), 0, {}, {}, [], multiset{}, multiset{}, false)
  }

  function Use(w: World, o: Obj): World {
    w.(misused := w.misused || o in w.freed)
  }

  function Free(w: World, o: Obj): World {
    w.(misused := w.misused || o in w.freed, freed := w.freed + multiset{o})
  }

  /** delete on a command: the destructor frees the payload unless the pointer is null. */
  function Delete(w: World, cmd: Cmd): World {
    var used := Use(w, Command(cmd.entry));
    var inner := if cmd.ptr.Some? then Free(used, Payload(cmd.ptr.value)) else used;
    Free(inner, Command(cmd.entry))
  }

  predicate Executes(w: World, k: nat) {
    k < |w.pool.workers| && w.pool.workers[k].Running? && w.pool.workers[k].job < |w.cmds|
  }

  function CmdOf(w: World, k: nat): Cmd
    requires Executes(w, k)
  {
    w.cmds[w.pool.workers[k].job]
  }

  function WithCmd(w: World, k: nat, cmd: Cmd): World
    requires Executes(w, k)
  {
    w.(cmds := w.cmds[w.pool.workers[k].job := cmd])
  }

  function NewCmd(e: nat, kind: Kind, carries: bool): Cmd {
    Cmd(e, kind, carries, if carries then Some(e) else None, Waiting, false)
  }

  /** The next entry, with or without a payload and a command object. */
  function Enter(w: World, payload: bool, command: bool): World {
    w.(entered := w.entered + 1,
       payloads := w.payloads + if payload then {w.entered} else {},
       made := w.made + if command then {w.entered} else {})
  }

  predicate Enabled(w: World, a: Action) {
    match a
    case ReceiveNoManager => true
    case ReceiveNoMemory => true
    case Send(_, _) => TP.Enabled(w.pool, TP.Enqueue)
    case SendRefused(_, _) => TP.Enabled(w.pool, TP.EnqueueRefused)
    case Pool(s) => !s.Enqueue? && !s.EnqueueRefused? && !s.Finish? && TP.Enabled(w.pool, s)
    case Handle(k, _) => Executes(w, k) && CmdOf(w, k).stage.Waiting?
    case FreePayload(k) => Executes(w, k) && CmdOf(w, k).stage.Handled? && CmdOf(w, k).kind.Uevent?
    case Reply(k, _) => Executes(w, k) && CmdOf(w, k).stage.Handled? && CmdOf(w, k).kind.Service?
    case DeleteCommand(k) => Executes(w, k) && (CmdOf(w, k).stage.Executed? || CmdOf(w, k).stage.Threw?)
    case Return(k) => Executes(w, k) && CmdOf(w, k).stage.Released? && TP.Enabled(w.pool, TP.Finish(k))
  }

  function Apply(w: World, a: Action): World
    requires Enabled(w, a)
  {
    var e := w.entered;
    match a
    case ReceiveNoManager => Free(Enter(w, true, false), Payload(e))
    case ReceiveNoMemory => Free(Enter(w, true, false), Payload(e))
    case Send(kind, carries) =>
      Enter(w, carries, true).(pool := TP.Apply(w.pool, TP.Enqueue), cmds := w.cmds + [NewCmd(e, kind, carries)])
    case SendRefused(kind, carries) =>
      Delete(Enter(w, carries, true).(pool := TP.Apply(w.pool, TP.EnqueueRefused)), NewCmd(e, kind, carries))
    case Pool(s) => w.(pool := TP.Apply(w.pool, s))
    case Handle(k, throws) =>
      var cmd := CmdOf(w, k);
      var used := Use(w, Command(cmd.entry));
      var v := if cmd.ptr.Some? then Use(used, Payload(cmd.ptr.value)) else used;
      // A uevent command without payload is left alone by execute.
      if cmd.kind.Uevent? && cmd.ptr.None? then WithCmd(v, k, cmd.(stage := Executed))
      else WithCmd(v, k, cmd.(stage := if throws then Threw else Handled, failed := throws))
    case FreePayload(k) =>
      var cmd := CmdOf(w, k);
      var inner := if cmd.ptr.Some? then Free(w, Payload(cmd.ptr.value)) else w;
      WithCmd(inner, k, cmd.(ptr := None, stage := Executed))
    case Reply(k, throws) =>
      var cmd := CmdOf(w, k);
      WithCmd(Use(w, Command(cmd.entry)).(replies := w.replies + multiset{cmd.entry}), k,
              cmd.(stage := if throws then Threw else Executed))
    case DeleteCommand(k) =>
      var cmd := CmdOf(w, k);
      WithCmd(Delete(w, cmd), k, cmd.(ptr := None, stage := Released))
    case Return(k) => w.(pool := TP.Apply(w.pool, TP.Finish(k)))
  }

  predicate Legal(w: World, run: seq<Action>)
    decreases |run|
  {
    run == [] || (Enabled(w, run[0]) && Legal(Apply(w, run[0]), run[1..]))
  }

  function Exec(w: World, run: seq<Action>): World
    requires Legal(w, run)
    decreases |run|
  {
    if run == [] then w else Exec(Apply(w, run[0]), run[1..])
  }

  // ---------------------------------------------------------------- the invariant

  /** Whether a command at this stage has had its payload freed. */
  predicate PayloadFreed(cmd: Cmd) {
    cmd.carries && (cmd.stage.Released? || (cmd.stage.Executed? && cmd.kind.Uevent?))
  }

  /** Whether the callback of a request has been made. */
  predicate Answered(cmd: Cmd) {
    cmd.kind.Service? && !cmd.failed && (cmd.stage.Executed? || cmd.stage.Threw? || cmd.stage.Released?)
  }

  /** What a queued command owns and has answered at each stage, against what was done so far. */
  ghost predicate Settled(w: World, cmd: Cmd) {
    && w.freed[Payload(cmd.entry)] == (if PayloadFreed(cmd) then 1 else 0)
    && w.freed[Command(cmd.entry)] == (if cmd.stage.Released? then 1 else 0)
    && w.replies[cmd.entry] == (if Answered(cmd) then 1 else 0)
    && (cmd.failed ==> cmd.stage.Threw? || cmd.stage.Released?)
    && cmd.ptr == (if cmd.carries && !PayloadFreed(cmd) then Some(cmd.entry) else None)
  }

  ghost predicate Carried(w: World, e: nat) {
    exists j :: 0 <= j < |w.cmds| && w.cmds[j].entry == e
  }

  /** The payload of entry e has been freed exactly once if it came with one, and its command if there was one. */
  ghost predicate ReleasedOnce(w: World, e: nat) {
    && w.freed[Payload(e)] == (if e in w.payloads then 1 else 0)
    && w.freed[Command(e)] == (if e in w.made then 1 else 0)
  }

  ghost predicate Ledger(w: World) {
    && !w.misused
    && (forall e :: e in w.made || e in w.payloads ==> e < w.entered)
    && (forall j :: 0 <= j < |w.cmds| ==>
          w.cmds[j].entry in w.made && (w.cmds[j].carries <==> w.cmds[j].entry in w.payloads)
          && Settled(w, w.cmds[j]))
    && (forall i, j :: 0 <= i < j < |w.cmds| ==> w.cmds[i].entry != w.cmds[j].entry)
    && (forall e: nat :: !Carried(w, e) ==> ReleasedOnce(w, e) && w.replies[e] == 0)
  }

  /** How far each command is, against where its job is in the pool. */
  ghost predicate InStep(w: World) {
    && |w.cmds| == |w.pool.accepted|
    && (forall j :: 0 <= j < |w.cmds| && j >= |w.pool.started| ==> w.cmds[j].stage.Waiting?)
    && (forall j: nat :: j < |w.cmds| && j in w.pool.completed ==> w.cmds[j].stage.Released?)
  }

  ghost predicate Inv(w: World) {
    TP.Inv(w.pool) && Ledger(w) && InStep(w)
  }

  /** A running job was accepted, has left the queue and has not completed. */
  lemma RunningJob(s: TP.State, k: nat)
    requires TP.Inv(s) && k < |s.workers| && s.workers[k].Running?
    ensures s.workers[k].job < |s.started| <= |s.accepted|
    ensures s.workers[k].job !in s.completed
  {
    var j := s.workers[k].job;
    assert s.workers[k] in multiset(s.workers);
    assert multiset(s.completed)[j] + multiset(s.workers)[TP.Running(j)] == multiset(s.started)[j];
    assert forall i :: 0 <= i < |s.started| ==> s.started[i] == s.accepted[i];
    TP.OccursOnce(s.started, j);
    assert multiset(s.completed)[j] == 0;
    assert j !in multiset(s.completed);
  }

  lemma CarriedStays(w: World, v: World)
    requires |w.cmds| <= |v.cmds|
    requires forall j :: 0 <= j < |w.cmds| ==> v.cmds[j].entry == w.cmds[j].entry
    ensures forall e: nat :: Carried(w, e) ==> Carried(v, e)
  {
    forall e: nat | Carried(w, e) ensures Carried(v, e) {
      var j :| 0 <= j < |w.cmds| && w.cmds[j].entry == e;
      assert v.cmds[j].entry == e;
    }
  }

  lemma StepReceive(w: World, a: Action)
    requires Inv(w) && Enabled(w, a)
    requires a.ReceiveNoManager? || a.ReceiveNoMemory? || a.SendRefused?
    ensures Inv(Apply(w, a))
  {
    var v := Apply(w, a);
    assert v.pool == w.pool && v.cmds == w.cmds;
    ReceiveLedger(w, a);
  }

  /** What comes in and is not queued is released at once. */
  lemma ReceiveLedger(w: World, a: Action)
    requires Ledger(w) && Enabled(w, a)
    requires a.ReceiveNoManager? || a.ReceiveNoMemory? || a.SendRefused?
    ensures Ledger(Apply(w, a))
  {
    var v := Apply(w, a);
    var e := w.entered;
    assert !Carried(w, e) && ReleasedOnce(w, e);
    forall j | 0 <= j < |v.cmds| ensures Settled(v, v.cmds[j]) {
      assert Settled(w, w.cmds[j]);
      assert w.cmds[j].entry in w.made;
    }
    forall x: nat | !Carried(v, x) ensures ReleasedOnce(v, x) && v.replies[x] == 0 {
      assert !Carried(w, x);
    }
  }

  lemma StepSend(w: World, kind: Kind, carries: bool)
    requires Inv(w) && Enabled(w, Send(kind, carries))
    ensures Inv(Apply(w, Send(kind, carries)))
  {
    SendPool(w, kind, carries);
    SendLedger(w, kind, carries);
  }

  lemma SendPool(w: World, kind: Kind, carries: bool)
    requires TP.Inv(w.pool) && InStep(w) && Enabled(w, Send(kind, carries))
    ensures var v := Apply(w, Send(kind, carries)); TP.Inv(v.pool) && InStep(v)
  {
    TP.StepInv(w.pool, TP.Enqueue);
    NotYetCompleted(w, |w.cmds|);
  }

  lemma SendLedger(w: World, kind: Kind, carries: bool)
    requires Ledger(w) && Enabled(w, Send(kind, carries))
    ensures Ledger(Apply(w, Send(kind, carries)))
  {
    var v := Apply(w, Send(kind, carries));
    var e := w.entered;
    assert !Carried(w, e) && ReleasedOnce(w, e);
    forall j | 0 <= j < |v.cmds| ensures Settled(v, v.cmds[j]) && v.cmds[j].entry in v.made {
      if j < |w.cmds| { assert Settled(w, w.cmds[j]); }
    }
    assert v.cmds[|w.cmds|].entry == e;
    CarriedStays(w, v);
    forall x: nat | !Carried(v, x) ensures ReleasedOnce(v, x) && v.replies[x] == 0 {
      assert x != e && !Carried(w, x);
    }
  }

  lemma NotYetCompleted(w: World, j: nat)
    requires TP.Inv(w.pool) && j >= |w.pool.accepted|
    ensures j !in w.pool.completed
  {
    var s := w.pool;
    assert multiset(s.completed)[j] + multiset(s.workers)[TP.Running(j)] == multiset(s.started)[j];
    assert forall i :: 0 <= i < |s.started| ==> s.started[i] == s.accepted[i];
    TP.OccursOnce(s.started, j);
    assert j !in multiset(s.completed);
  }

  lemma StepPool(w: World, a: Action)
    requires Inv(w) && Enabled(w, a) && (a.Pool? || a.Return?)
    ensures Inv(Apply(w, a))
  {
    var v := Apply(w, a);
    TP.StepInv(w.pool, if a.Pool? then a.step else TP.Finish(a.w));
    SameLedger(w, v);
    StaysInStep(w, a);
  }

  /** The pool does not touch the ledger. */
  lemma SameLedger(w: World, v: World)
    requires Ledger(w) && v == w.(pool := v.pool)
    ensures Ledger(v)
  {
    forall x: nat | !Carried(v, x) ensures ReleasedOnce(v, x) && v.replies[x] == 0 {
      assert !Carried(w, x);
    }
    forall j | 0 <= j < |v.cmds| ensures Settled(v, v.cmds[j]) {
      assert Settled(w, w.cmds[j]);
    }
  }

  lemma StaysInStep(w: World, a: Action)
    requires InStep(w) && Enabled(w, a) && (a.Pool? || a.Return?)
    ensures InStep(Apply(w, a))
  {
  }

  /** Before an execution step of worker k: its job is a queued command, not yet released. */
  lemma ExecutingCommand(w: World, k: nat)
    requires Inv(w) && Executes(w, k)
    ensures var job := w.pool.workers[k].job;
      && job < |w.pool.started| <= |w.cmds| && job !in w.pool.completed
      && Settled(w, w.cmds[job]) && Carried(w, w.cmds[job].entry)
  {
    RunningJob(w.pool, k);
    var job := w.pool.workers[k].job;
    assert w.cmds[job].entry == w.cmds[job].entry;
  }

  /** What such a step changes: only its own command, and deletes of its own two objects. */
  ghost predicate OnlyItsOwn(w: World, v: World, k: nat)
    requires Executes(w, k)
  {
    var job := w.pool.workers[k].job;
    var e := w.cmds[job].entry;
    && v.pool == w.pool && v.entered == w.entered && v.payloads == w.payloads && v.made == w.made
    && |v.cmds| == |w.cmds| && v.cmds[job].entry == e && v.cmds[job].carries == w.cmds[job].carries
    && (forall j :: 0 <= j < |w.cmds| && j != job ==> v.cmds[j] == w.cmds[j])
    && (forall o: Obj :: o.n != e ==> v.freed[o] == w.freed[o])
    && (forall x: nat :: x != e ==> v.replies[x] == w.replies[x])
  }

  lemma HandleStep(w: World, k: nat, throws: bool)
    requires Inv(w) && Enabled(w, Handle(k, throws))
    ensures var v := Apply(w, Handle(k, throws)); var job := w.pool.workers[k].job;
      OnlyItsOwn(w, v, k) && !v.misused && Settled(v, v.cmds[job])
  {
    ExecutingCommand(w, k);
  }

  lemma FreePayloadStep(w: World, k: nat)
    requires Inv(w) && Enabled(w, FreePayload(k))
    ensures var v := Apply(w, FreePayload(k)); var job := w.pool.workers[k].job;
      OnlyItsOwn(w, v, k) && !v.misused && Settled(v, v.cmds[job])
  {
    ExecutingCommand(w, k);
  }

  lemma ReplyStep(w: World, k: nat, throws: bool)
    requires Inv(w) && Enabled(w, Reply(k, throws))
    ensures var v := Apply(w, Reply(k, throws)); var job := w.pool.workers[k].job;
      OnlyItsOwn(w, v, k) && !v.misused && Settled(v, v.cmds[job])
  {
    ExecutingCommand(w, k);
  }

  lemma DeleteStep(w: World, k: nat)
    requires Inv(w) && Enabled(w, DeleteCommand(k))
    ensures var v := Apply(w, DeleteCommand(k)); var job := w.pool.workers[k].job;
      OnlyItsOwn(w, v, k) && !v.misused && Settled(v, v.cmds[job])
  {
    ExecutingCommand(w, k);
  }

  lemma OwnStepInv(w: World, v: World, k: nat)
    requires Inv(w) && Executes(w, k) && OnlyItsOwn(w, v, k)
    requires !v.misused && Settled(v, v.cmds[w.pool.workers[k].job])
    ensures Inv(v)
  {
    var job := w.pool.workers[k].job;
    ExecutingCommand(w, k);
    forall j | 0 <= j < |v.cmds| ensures v.cmds[j].entry == w.cmds[j].entry && Settled(v, v.cmds[j]) {
      assert j != job ==> Settled(w, w.cmds[j]);
    }
    CarriedStays(w, v);
    forall x: nat | !Carried(v, x) ensures ReleasedOnce(v, x) && v.replies[x] == 0 {
      assert !Carried(w, x) && x != w.cmds[job].entry;
    }
  }

  lemma StepInv(w: World, a: Action)
    requires Inv(w) && Enabled(w, a)
    ensures Inv(Apply(w, a))
  {
    match a
    case Send(kind, carries) => StepSend(w, kind, carries);
    case Pool(_) => StepPool(w, a);
    case Return(_) => StepPool(w, a);
    case Handle(k, throws) => HandleStep(w, k, throws); OwnStepInv(w, Apply(w, a), k);
    case FreePayload(k) => FreePayloadStep(w, k); OwnStepInv(w, Apply(w, a), k);
    case Reply(k, throws) => ReplyStep(w, k, throws); OwnStepInv(w, Apply(w, a), k);
    case DeleteCommand(k) => DeleteStep(w, k); OwnStepInv(w, Apply(w, a), k);
    case _ => StepReceive(w, a);
  }

  lemma StepWorkers(w: World, a: Action)
    requires Enabled(w, a)
    ensures |Apply(w, a).pool.workers| == |w.pool.workers|
  {
  }

  lemma {:induction false} RunInv(w: World, run: seq<Action>)
    requires Inv(w) && Legal(w, run)
    ensures Inv(Exec(w, run)) && |Exec(w, run).pool.workers| == |w.pool.workers|
    decreases |run|
  {
    if run != [] {
      StepInv(w, run[0]);
      StepWorkers(w, run[0]);
      RunInv(Apply(w, run[0]), run[1..]);
    }
  }

  lemma EveryRunInv(threads: nat, run: seq<Action>)
    requires Legal(Init(threads), run)
    ensures Inv(Exec(Init(threads), run)) && |Exec(Init(threads), run).pool.workers| == threads
  {
    TP.InitInv(threads);
    RunInv(Init(threads), run);
  }

  // ---------------------------------------------------------------- the results

  /**
   * In every interleaving of uevents and service requests nothing is used or freed after it was
   * freed, and nothing is freed twice.
   */
  lemma NeverFreedTwice(threads: nat, run: seq<Action>, o: Obj)
    requires Legal(Init(threads), run)
    ensures !Exec(Init(threads), run).misused
    ensures Exec(Init(threads), run).freed[o] <= 1
  {
    EveryRunInv(threads, run);
    var w := Exec(Init(threads), run);
    if Carried(w, o.n) {
      var j :| 0 <= j < |w.cmds| && w.cmds[j].entry == o.n;
      assert Settled(w, w.cmds[j]);
    } else {
      assert ReleasedOnce(w, o.n);
    }
  }

  ghost predicate AllReleased(w: World) {
    forall e: nat :: ReleasedOnce(w, e)
  }

  /**
   * When the pool has been destroyed, every uevent that ever entered handleEvent, every command
   * ever given to sendCommand and every payload of one has been freed exactly once, exactly if the
   * pool had a worker or never accepted a command.
   */
  lemma ReleasedExactlyOnce(threads: nat, run: seq<Action>)
    requires Legal(Init(threads), run) && Exec(Init(threads), run).pool.teardown.Joined?
    ensures var w := Exec(Init(threads), run);
      AllReleased(w) <==> threads > 0 || w.pool.accepted == []
  {
    EveryRunInv(threads, run);
    var w := Exec(Init(threads), run);
    TP.JoinedMeansDrained(w.pool);
    if threads > 0 || w.pool.accepted == [] {
      forall e: nat ensures ReleasedOnce(w, e) {
        if Carried(w, e) {
          var j :| 0 <= j < |w.cmds| && w.cmds[j].entry == e;
          TP.OccursOnce(w.pool.accepted, j);
          assert multiset(w.pool.completed)[j] == 1;
          assert j in multiset(w.pool.completed);
          assert Settled(w, w.cmds[j]);
        }
      }
    } else {
      assert w.cmds[0].stage.Waiting?;
      assert Settled(w, w.cmds[0]) && !ReleasedOnce(w, w.cmds[0].entry);
    }
  }

  /**
   * Nobody is answered twice or unasked, and a uevent never. When the pool has been destroyed
   * every request it accepted has been answered exactly if the device manager did not throw on
   * it, provided there was a worker; a refused request never is.
   */
  lemma {:induction false} RequestsAnswered(threads: nat, run: seq<Action>, w: World)
    requires Legal(Init(threads), run) && w == Exec(Init(threads), run)
    ensures forall e: nat :: w.replies[e] <= 1
    ensures forall e: nat :: !Carried(w, e) ==> w.replies[e] == 0
    ensures forall j :: 0 <= j < |w.cmds| && w.cmds[j].kind.Uevent? ==> w.replies[w.cmds[j].entry] == 0
    ensures w.pool.teardown.Joined? && threads > 0 ==>
      forall j :: 0 <= j < |w.cmds| && w.cmds[j].kind.Service? ==>
        (w.replies[w.cmds[j].entry] == 1 <==> !w.cmds[j].failed)
  {
    EveryRunInv(threads, run);
    forall e: nat ensures w.replies[e] <= 1 {
      if Carried(w, e) {
        var j :| 0 <= j < |w.cmds| && w.cmds[j].entry == e;
        assert Settled(w, w.cmds[j]);
      }
    }
    if w.pool.teardown.Joined? && threads > 0 {
      TP.JoinedMeansDrained(w.pool);
      forall j | 0 <= j < |w.cmds| ensures w.cmds[j].stage.Released? {
        TP.OccursOnce(w.pool.accepted, j);
        assert multiset(w.pool.completed)[j] == 1;
        assert j in multiset(w.pool.completed);
      }
    }
  }
}
