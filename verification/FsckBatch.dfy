/**
 * Batches of partition checks: a thread per partition, an atomic countdown that the spawner
 * raises after it has started each thread, and a notification by whoever reads zero. Starting
 * and counting are separate steps, and so are decrementing and testing. The spawner may pause
 * between two threads, so several batches that share the countdown are one batch of them all.
 */
module FsckBatch {
  datatype Pc = Checking | Checked | Decremented | Exited

  datatype State = State(
    n: nat,              // partitions to check
    threads: seq<Pc>,    // threads started so far
    counted: nat,        // how often the spawner has raised the counter
    counter: int,        // m_fsckThreadCount
    calls: nat,          // notifications so far
    premature: bool)     // one of them came before all n checks were done

  datatype Action = Spawn | CountUp | FinishCheck(i: nat) | Decrement(i: nat) | Test(i: nat)

  function Init(n: nat): State {
    State(n, [], 0, 0, 0, false)
  }

  predicate At(s: State, i: nat, pc: Pc) {
    i < |s.threads| && s.threads[i] == pc
  }

  predicate AllChecked(s: State) {
    |s.threads| == s.n && Checking !in s.threads
  }

  predicate Enabled(s: State, a: Action) {
    match a
    case Spawn => s.counted < s.n && |s.threads| == s.counted
    case CountUp => |s.threads| == s.counted + 1
    case FinishCheck(i) => At(s, i, Checking)
    case Decrement(i) => At(s, i, Checked)
    case Test(i) => At(s, i, Decremented)
  }

  function Apply(s: State, a: Action): State
    requires Enabled(s, a)
  {
    match a
    case Spawn => s.(threads := s.threads + [Checking])
    case CountUp => s.(counted := s.counted + 1, counter := s.counter + 1)
    case FinishCheck(i) => s.(threads := s.threads[i := Checked])
    case Decrement(i) => s.(threads := s.threads[i := Decremented], counter := s.counter - 1)
    case Test(i) =>
      var t := s.(threads := s.threads[i := Exited]);
      if s.counter == 0 then t.(calls := s.calls + 1, premature := s.premature || !AllChecked(s)) else t
  }

  predicate Legal(s: State, run: seq<Action>)
    decreases |run|
  {
    run == [] || (Enabled(s, run[0]) && Legal(Apply(s, run[0]), run[1..]))
  }

  function Exec(s: State, run: seq<Action>): State
    requires Legal(s, run)
    decreases |run|
  {
    if run == [] then s else Exec(Apply(s, run[0]), run[1..])
  }

  // ---------------------------------------------------------------- the counter

  function HowMany(s: State, pc: Pc): nat {
    multiset(s.threads)[pc]
  }

  /** The counter is what was counted less what was taken off, and starting is one ahead at most. */
  ghost predicate Inv(s: State) {
    && s.counter == s.counted - HowMany(s, Decremented) - HowMany(s, Exited)
    && s.counted <= |s.threads| <= s.counted + 1
    && |s.threads| <= s.n
  }

  lemma Replace(ts: seq<Pc>, i: nat, pc: Pc, x: Pc)
    requires i < |ts|
    ensures multiset(ts[i := pc])[x] == multiset(ts)[x] - (if ts[i] == x then 1 else 0) + (if pc == x then 1 else 0)
  {
    assert multiset(ts[i := pc]) == multiset(ts) - multiset{ts[i]} + multiset{pc};
    assert ts[i] in multiset(ts);
  }

  lemma StepInv(s: State, a: Action)
    requires Inv(s) && Enabled(s, a)
    ensures Inv(Apply(s, a))
  {
    if a.FinishCheck? || a.Decrement? || a.Test? {
      var pc := if a.FinishCheck? then Checked else if a.Decrement? then Decremented else Exited;
      Replace(s.threads, a.i, pc, Decremented);
      Replace(s.threads, a.i, pc, Exited);
    }
  }

  lemma {:induction false} RunInv(s: State, run: seq<Action>)
    requires Inv(s) && Legal(s, run)
    ensures Inv(Exec(s, run)) && Exec(s, run).n == s.n
    decreases |run|
  {
    if run != [] {
      StepInv(s, run[0]);
      RunInv(Apply(s, run[0]), run[1..]);
    }
  }

  lemma {:induction false} Total(ts: seq<Pc>)
    ensures multiset(ts)[Checking] + multiset(ts)[Checked] + multiset(ts)[Decremented] + multiset(ts)[Exited] == |ts|
  {
    if ts != [] {
      Total(ts[1..]);
      assert ts == [ts[0]] + ts[1..];
      assert multiset(ts) == multiset{ts[0]} + multiset(ts[1..]);
      var pc := ts[0];
      assert pc == Checking || pc == Checked || pc == Decremented || pc == Exited;
    }
  }

  /** Once all threads are counted, the counter reads zero exactly if every thread has decremented. */
  lemma ZeroMeansAllDecremented(s: State)
    requires Inv(s) && s.counted == s.n
    ensures s.counter == 0 <==> Checking !in s.threads && Checked !in s.threads
  {
    Total(s.threads);
    assert Checking in s.threads <==> multiset(s.threads)[Checking] > 0;
    assert Checked in s.threads <==> multiset(s.threads)[Checked] > 0;
  }

  // ---------------------------------------------------------------- the barrier

  /** Nothing is left to happen. */
  predicate Final(s: State) {
    s.counted == s.n && forall i :: 0 <= i < |s.threads| ==> s.threads[i].Exited?
  }

  /** Some notification was made, and each came after all n checks. */
  predicate Barrier(s: State) {
    s.calls >= 1 && !s.premature
  }

  /** Some thread has still to read the counter. */
  predicate Untested(s: State) {
    exists i :: 0 <= i < |s.threads| && !s.threads[i].Exited?
  }

  /** From the last count on, no early notification is added and the last reader notifies. */
  lemma StepAfterCounting(s: State, a: Action)
    requires Inv(s) && s.counted == s.n && Enabled(s, a)
    ensures var t := Apply(s, a);
      t.counted == t.n && t.premature == s.premature
      && (s.calls >= 1 || Untested(s)) && (t.calls >= 1 || Untested(t))
  {
    var t := Apply(s, a);
    ZeroMeansAllDecremented(s);
    assert a.FinishCheck? || a.Decrement? || a.Test?;
    assert !s.threads[a.i].Exited?;
    if !a.Test? {
      assert !t.threads[a.i].Exited?;
    } else if s.counter != 0 {
      assert Checking in s.threads || Checked in s.threads;
      var j :| 0 <= j < |s.threads| && (s.threads[j] == Checking || s.threads[j] == Checked);
      assert !t.threads[j].Exited?;
    }
  }

  lemma {:induction false} AfterCounting(s: State, run: seq<Action>)
    requires Inv(s) && s.counted == s.n && Legal(s, run) && Final(Exec(s, run))
    ensures Barrier(Exec(s, run)) <==> !s.premature && (s.calls >= 1 || Untested(s))
    decreases |run|
  {
    if run != [] {
      StepInv(s, run[0]);
      StepAfterCounting(s, run[0]);
      AfterCounting(Apply(s, run[0]), run[1..]);
    }
  }

  // ---------------------------------------------------------------- reading it off the schedule

  datatype What = Ups | Checks | Decs | Tests

  predicate Is(a: Action, what: What) {
    match what
    case Ups => a.CountUp?
    case Checks => a.FinishCheck?
    case Decs => a.Decrement?
    case Tests => a.Test?
  }

  /** How many actions of a schedule are of this sort. */
  function Tally(run: seq<Action>, what: What): nat {
    if run == [] then 0
    else Tally(run[..|run| - 1], what) + if Is(run[|run| - 1], what) then 1 else 0
  }

  /** At position k a thread tests while as many have been taken off as were counted. */
  predicate ReadsZero(run: seq<Action>, k: nat)
    requires k < |run|
  {
    run[k].Test? && Tally(run[..k], Ups) == Tally(run[..k], Decs)
  }

  ghost predicate SomeReadsZero(run: seq<Action>) {
    exists k :: 0 <= k < |run| && ReadsZero(run, k)
  }

  /** Whoever reads zero does so after n checks. */
  ghost predicate ZeroAfterChecks(run: seq<Action>, n: nat) {
    forall k :: 0 <= k < |run| && ReadsZero(run, k) ==> Tally(run[..k], Checks) == n
  }

  lemma {:induction false} OneMore(s: State, run: seq<Action>, a: Action)
    ensures Legal(s, run + [a]) <==> Legal(s, run) && Enabled(Exec(s, run), a)
    ensures Legal(s, run + [a]) ==> Exec(s, run + [a]) == Apply(Exec(s, run), a)
    decreases |run|
  {
    if run == [] {
      assert [a][1..] == [] && run + [a] == [a];
    } else {
      assert (run + [a])[1..] == run[1..] + [a];
      if Enabled(s, run[0]) { OneMore(Apply(s, run[0]), run[1..], a); }
    }
  }

  lemma TallyOneMore(run: seq<Action>, a: Action, what: What)
    ensures Tally(run + [a], what) == Tally(run, what) + if Is(a, what) then 1 else 0
  {
    assert (run + [a])[..|run|] == run;
  }

  lemma ReadsZeroOneMore(run: seq<Action>, a: Action, k: nat)
    requires k <= |run|
    ensures (run + [a])[..k] == run[..k]
    ensures k < |run| ==> (ReadsZero(run + [a], k) <==> ReadsZero(run, k))
    ensures ReadsZero(run + [a], |run|) <==> a.Test? && Tally(run, Ups) == Tally(run, Decs)
  {
    assert (run + [a])[..k] == run[..k] && (run + [a])[..|run|] == run;
  }

  /** The state a schedule leads to, in terms of its tallies. */
  ghost predicate Tallied(s: State, n: nat, run: seq<Action>) {
    && s.n == n && s.counted == Tally(run, Ups) && s.counter == s.counted - Tally(run, Decs)
    && HowMany(s, Checking) == |s.threads| - Tally(run, Checks) && HowMany(s, Exited) == Tally(run, Tests)
    && |s.threads| <= n
  }

  lemma TalliedStep(s: State, n: nat, run: seq<Action>, a: Action)
    requires Inv(s) && Tallied(s, n, run) && Enabled(s, a)
    ensures Tallied(Apply(s, a), n, run + [a])
  {
    TallyOneMore(run, a, Ups);
    TallyOneMore(run, a, Checks);
    TallyOneMore(run, a, Decs);
    TallyOneMore(run, a, Tests);
    match a
    case FinishCheck(i) => Replace(s.threads, i, Checked, Checking); Replace(s.threads, i, Checked, Exited);
    case Decrement(i) => Replace(s.threads, i, Decremented, Checking); Replace(s.threads, i, Decremented, Exited);
    case Test(i) => Replace(s.threads, i, Exited, Checking); Replace(s.threads, i, Exited, Exited);
    case _ =>
  }

  lemma CheckedAll(s: State, n: nat, run: seq<Action>)
    requires Tallied(s, n, run)
    ensures AllChecked(s) <==> Tally(run, Checks) == n
  {
    Total(s.threads);
    assert Checking in s.threads <==> multiset(s.threads)[Checking] > 0;
  }

  lemma ZeroReadsOneMore(run: seq<Action>, a: Action, n: nat)
    ensures var zero := a.Test? && Tally(run, Ups) == Tally(run, Decs);
      && (SomeReadsZero(run + [a]) <==> SomeReadsZero(run) || zero)
      && (ZeroAfterChecks(run + [a], n) <==> ZeroAfterChecks(run, n) && (zero ==> Tally(run, Checks) == n))
  {
    forall k | 0 <= k <= |run|
      ensures (run + [a])[..k] == run[..k]
      ensures k < |run| ==> (ReadsZero(run + [a], k) <==> ReadsZero(run, k))
      ensures ReadsZero(run + [a], |run|) <==> a.Test? && Tally(run, Ups) == Tally(run, Decs)
    {
      ReadsZeroOneMore(run, a, k);
    }
    assert run[..|run|] == run;
  }

  /** Notifications are made, and made early, exactly as the schedule reads zero, and reads it early. */
  lemma {:induction false} CallsFromSchedule(n: nat, run: seq<Action>)
    requires Legal(Init(n), run)
    ensures var s := Exec(Init(n), run);
      && Inv(s) && Tallied(s, n, run)
      && (s.premature <==> !ZeroAfterChecks(run, n))
      && (s.calls >= 1 <==> SomeReadsZero(run))
    decreases |run|
  {
    if run != [] {
      var init, a := run[..|run| - 1], run[|run| - 1];
      assert run == init + [a];
      OneMore(Init(n), init, a);
      CallsFromSchedule(n, init);
      var s := Exec(Init(n), init);
      StepInv(s, a);
      TalliedStep(s, n, init, a);
      CheckedAll(s, n, init);
      ZeroReadsOneMore(init, a, n);
    }
  }

  lemma UntestedFromSchedule(s: State, n: nat, run: seq<Action>)
    requires Tallied(s, n, run) && |s.threads| == n
    ensures Untested(s) <==> Tally(run, Tests) < n
  {
    Total(s.threads);
    if Untested(s) {
      var i :| 0 <= i < |s.threads| && !s.threads[i].Exited?;
      assert multiset(s.threads)[s.threads[i]] > 0;
    } else {
      assert forall pc :: pc in multiset(s.threads) ==> pc.Exited?;
    }
  }

  /**
   * The exact condition, on the schedule up to the moment the last thread has been counted.
   * However the batch goes on from there, when everything has ended some notification was made
   * and each came after all n checks exactly if (i) whoever read zero until then did so after n
   * checks, and (ii) somebody did, or fewer than n threads have tested.
   */
  lemma {:induction false} BarrierExactly(n: nat, before: seq<Action>, b: State, after: seq<Action>)
    requires Legal(Init(n), before) && Tally(before, Ups) == n && b == Exec(Init(n), before)
    requires Legal(b, after) && Final(Exec(b, after))
    ensures Barrier(Exec(b, after)) <==>
      ZeroAfterChecks(before, n) && (SomeReadsZero(before) || Tally(before, Tests) < n)
  {
    CallsFromSchedule(n, before);
    BarrierFrom(b, n, before, after);
  }

  lemma {:induction false} BarrierFrom(b: State, n: nat, before: seq<Action>, after: seq<Action>)
    requires Inv(b) && Tallied(b, n, before) && Tally(before, Ups) == n
    requires b.premature <==> !ZeroAfterChecks(before, n)
    requires b.calls >= 1 <==> SomeReadsZero(before)
    requires Legal(b, after) && Final(Exec(b, after))
    ensures Barrier(Exec(b, after)) <==>
      ZeroAfterChecks(before, n) && (SomeReadsZero(before) || Tally(before, Tests) < n)
  {
    UntestedFromSchedule(b, n, before);
    AfterCounting(b, after);
  }

  lemma {:induction false} NoneTallied(run: seq<Action>, what: What)
    requires forall k :: 0 <= k < |run| ==> !Is(run[k], what)
    ensures Tally(run, what) == 0
  {
    if run != [] { NoneTallied(run[..|run| - 1], what); }
  }

  /** The usual case: every thread of a non-empty batch is counted before the first one decrements. */
  lemma {:induction false} CountedFirst(n: nat, before: seq<Action>, b: State, after: seq<Action>)
    requires n >= 1 && Legal(Init(n), before) && Tally(before, Ups) == n && b == Exec(Init(n), before)
    requires forall k :: 0 <= k < |before| ==> !before[k].Decrement? && !before[k].Test?
    requires Legal(b, after) && Final(Exec(b, after))
    ensures Barrier(Exec(b, after))
  {
    NoneTallied(before, Tests);
    BarrierExactly(n, before, b, after);
  }

  /** Without that, a thread that ends before the second is started notifies too early. */
  lemma FinishesBeforeOthersStart()
    ensures var run := [Spawn, CountUp, FinishCheck(0), Decrement(0), Test(0)];
      Legal(Init(2), run) && Exec(Init(2), run).premature
  {
    Walk(Init(2), [Spawn, CountUp, FinishCheck(0), Decrement(0), Test(0)],
         [Init(2),
          State(2, [Checking], 0, 0, 0, false),
          State(2, [Checking], 1, 1, 0, false),
          State(2, [Checked], 1, 1, 0, false),
          State(2, [Decremented], 1, 0, 0, false),
          State(2, [Exited], 1, 0, 1, true)]);
  }

  /** And one that ends before it is counted leaves a batch nobody ever reports. */
  lemma FinishesBeforeItIsCounted()
    ensures var run := [Spawn, FinishCheck(0), Decrement(0), Test(0), CountUp];
      Legal(Init(1), run) && Final(Exec(Init(1), run)) && Exec(Init(1), run).calls == 0
  {
    Walk(Init(1), [Spawn, FinishCheck(0), Decrement(0), Test(0), CountUp],
         [Init(1),
          State(1, [Checking], 0, 0, 0, false),
          State(1, [Checked], 0, 0, 0, false),
          State(1, [Decremented], 0, -1, 0, false),
          State(1, [Exited], 0, -1, 0, false),
          State(1, [Exited], 1, 0, 0, false)]);
  }

  lemma {:induction false} Walk(s: State, run: seq<Action>, states: seq<State>)
    requires |states| == |run| + 1 && states[0] == s
    requires forall k :: 0 <= k < |run| ==> Enabled(states[k], run[k]) && Apply(states[k], run[k]) == states[k + 1]
    ensures Legal(s, run) && Exec(s, run) == states[|run|]
    decreases |run|
  {
    if run != [] {
      Walk(states[1], run[1..], states[1..]);
    }
  }

  // ---------------------------------------------------------------- how many notifications

  lemma {:induction false} EveryReaderNotifies(s: State, run: seq<Action>)
    requires Inv(s) && s.counted == s.n && Legal(s, run) && Final(Exec(s, run))
    requires s.counter == 0
    ensures Exec(s, run).calls == s.calls + HowMany(s, Decremented)
    decreases |run|
  {
    ZeroMeansAllDecremented(s);
    if run == [] {
      assert Decremented !in s.threads;
    } else {
      var a := run[0];
      StepInv(s, a);
      assert a.Test?;
      Replace(s.threads, a.i, Exited, Decremented);
      EveryReaderNotifies(Apply(s, a), run[1..]);
    }
  }

  /**
   * Decrement and test being two steps, the notification can come more than once: there are as
   * many as threads that had not yet tested when the last of them decremented.
   */
  lemma CallsAreTheLateReaders(s: State, i: nat, run: seq<Action>)
    requires Inv(s) && s.counted == s.n && Enabled(s, Decrement(i)) && s.calls == 0
    requires var t := Apply(s, Decrement(i)); t.counter == 0 && Legal(t, run) && Final(Exec(t, run))
    ensures Exec(Apply(s, Decrement(i)), run).calls == HowMany(s, Decremented) + 1
  {
    StepInv(s, Decrement(i));
    Replace(s.threads, i, Decremented, Decremented);
    EveryReaderNotifies(Apply(s, Decrement(i)), run);
  }

  // ---------------------------------------------------------------- overlapping batches

  predicate Busy(pc: Pc) {
    pc.Checking? || pc.Checked?
  }

  function BusyCount(ts: seq<Pc>): nat {
    multiset(ts)[Checking] + multiset(ts)[Checked]
  }

  /**
   * However many batches overlap, a test notifies exactly if as many of all started threads are
   * busy as are started and not yet counted: none, or one.
   */
  lemma {:induction false} NotifiesExactly(n: nat, run: seq<Action>, s: State, i: nat)
    requires Legal(Init(n), run) && s == Exec(Init(n), run) && Enabled(s, Test(i))
    ensures Apply(s, Test(i)).calls == s.calls + if BusyCount(s.threads) == |s.threads| - s.counted then 1 else 0
    ensures s.counted <= |s.threads| <= s.counted + 1
  {
    RunInv(Init(n), run);
    Total(s.threads);
  }

  lemma BusyMeansCounted(ts: seq<Pc>)
    ensures BusyCount(ts) > 0 <==> exists j :: 0 <= j < |ts| && Busy(ts[j])
  {
    if exists j :: 0 <= j < |ts| && Busy(ts[j]) {
      var j :| 0 <= j < |ts| && Busy(ts[j]);
      assert ts[j] in multiset(ts);
    }
    if BusyCount(ts) > 0 {
      assert Checking in ts || Checked in ts;
    }
  }

  /** Some thread that has been counted has not yet counted down. */
  ghost predicate CountedThreadBusy(s: State) {
    exists j :: 0 <= j < s.counted && j < |s.threads| && Busy(s.threads[j])
  }

  /** A thread was started, ran to its countdown, and has still to be counted. */
  predicate Overtaken(s: State) {
    |s.threads| == s.counted + 1 && !Busy(s.threads[s.counted])
  }

  /**
   * So a batch that has been counted, whatever batches follow, is reported while one of its checks
   * is still running exactly if a thread started later overtook its own counting.
   */
  lemma {:induction false} ReportedEarlyExactly(n: nat, run: seq<Action>, s: State, i: nat)
    requires Legal(Init(n), run) && s == Exec(Init(n), run) && Enabled(s, Test(i))
    requires Apply(s, Test(i)).calls > s.calls
    ensures CountedThreadBusy(s) <==> Overtaken(s)
  {
    NotifiesExactly(n, run, s, i);
    var counted := s.threads[..s.counted];
    BusyMeansCounted(counted);
    assert CountedThreadBusy(s) <==> BusyCount(counted) > 0 by {
      assert forall j :: 0 <= j < s.counted ==> counted[j] == s.threads[j];
    }
    if |s.threads| == s.counted {
      assert counted == s.threads;
    } else {
      assert s.threads == counted + [s.threads[s.counted]];
      assert multiset(s.threads) == multiset(counted) + multiset{s.threads[s.counted]};
    }
  }

  /** A thread of a second batch that overtakes its counting reports the first batch too early. */
  lemma SecondBatchReportsFirstEarly()
    ensures var run := [Spawn, CountUp, Spawn, FinishCheck(1), Decrement(1)];
      && Legal(Init(2), run) && Enabled(Exec(Init(2), run), Test(1))
      && Apply(Exec(Init(2), run), Test(1)).calls == 1 && At(Exec(Init(2), run), 0, Checking)
  {
    Walk(Init(2), [Spawn, CountUp, Spawn, FinishCheck(1), Decrement(1)],
         [Init(2),
          State(2, [Checking], 0, 0, 0, false),
          State(2, [Checking], 1, 1, 0, false),
          State(2, [Checking, Checking], 1, 1, 0, false),
          State(2, [Checking, Checked], 1, 1, 0, false),
          State(2, [Checking, Decremented], 1, 0, 0, false)]);
  }

  /** Two batches that overlap can end with one notification between them. */
  lemma TwoBatchesOneNotification(run: seq<Action>)
    requires run == [Spawn, CountUp, Spawn, CountUp, FinishCheck(0), Decrement(0), Test(0),
                     FinishCheck(1), Decrement(1), Test(1)]
    ensures Legal(Init(2), run) && Final(Exec(Init(2), run)) && Exec(Init(2), run).calls == 1
  {
    var between := State(2, [Checked, Checking], 2, 2, 0, false);
    FirstOfTwo(run[..5], between);
    SecondOfTwo(between, run[5..]);
    GoOn(Init(2), run[..5], run[5..]);
    assert run == run[..5] + run[5..];
  }

  lemma FirstOfTwo(run: seq<Action>, between: State)
    requires run == [Spawn, CountUp, Spawn, CountUp, FinishCheck(0)]
    requires between == State(2, [Checked, Checking], 2, 2, 0, false)
    ensures Legal(Init(2), run) && Exec(Init(2), run) == between
  {
    Walk(Init(2), run,
         [Init(2),
          State(2, [Checking], 0, 0, 0, false),
          State(2, [Checking], 1, 1, 0, false),
          State(2, [Checking, Checking], 1, 1, 0, false),
          State(2, [Checking, Checking], 2, 2, 0, false),
          between]);
  }

  lemma SecondOfTwo(between: State, run: seq<Action>)
    requires between == State(2, [Checked, Checking], 2, 2, 0, false)
    requires run == [Decrement(0), Test(0), FinishCheck(1), Decrement(1), Test(1)]
    ensures Legal(between, run) && Exec(between, run) == State(2, [Exited, Exited], 2, 0, 1, false)
  {
    Walk(between, run,
         [between,
          State(2, [Decremented, Checking], 2, 1, 0, false),
          State(2, [Exited, Checking], 2, 1, 0, false),
          State(2, [Exited, Checked], 2, 1, 0, false),
          State(2, [Exited, Decremented], 2, 0, 0, false),
          State(2, [Exited, Exited], 2, 0, 1, false)]);
  }

  lemma {:induction false} GoOn(s: State, first: seq<Action>, second: seq<Action>)
    requires Legal(s, first) && Legal(Exec(s, first), second)
    ensures Legal(s, first + second) && Exec(s, first + second) == Exec(Exec(s, first), second)
    decreases |first|
  {
    if first == [] {
      assert first + second == second;
    } else {
      assert (first + second)[1..] == first[1..] + second;
      GoOn(Apply(s, first[0]), first[1..], second);
    }
  }
}
