/**
 The latch that allows one block synchronisation at a time: an atomic flag beside a peer name
 and a deadline behind a lock, used by any number of threads. One step is one atomic access
 or one locked section; between two of them any other thread may move.
 */
module SyncLatch {
  /** Where a thread is inside its call. */
  datatype Counter =
    | Idle
    | Claimed(address: string)  // won the flag, deadline not written yet
    | Armed                     // deadline written, request not sent yet
    | Ticking                   // saw the flag set, deadline not read yet
    | Cancelling                // decided to cancel
    | Cleared                   // peer and deadline cleared, flag not yet

  datatype Latch = Latch(syncing: bool, peer: string, deadline: int, now: int, threads: seq<Counter>)

  datatype Step =
    | Claim(thread: nat, address: string)
    | Arm(thread: nat)
    | Send(thread: nat, sent: bool)
    | Answer(thread: nat, address: string)
    | Tick(thread: nat)
    | Judge(thread: nat)
    | Clear(thread: nat)
    | Release(thread: nat)
    | Advance(time: int)

  /** Which counter a step starts from. The clock is not a thread, and may be set back. */
  predicate Enabled(s: Latch, step: Step) {
    if step.Advance? then step.time >= 0
    else
      && step.thread < |s.threads|
      && match s.threads[step.thread]
         case Idle => step.Claim? || step.Answer? || step.Tick?
         case Claimed(_) => step.Arm?
         case Armed => step.Send?
         case Ticking => step.Judge?
         case Cancelling => step.Clear?
         case Cleared => step.Release?
  }

  function Moved(s: Latch, thread: nat, to: Counter): Latch
    requires thread < |s.threads|
  {
    s.(threads := s.threads[thread := to])
  }

  /** One step; `timeout` is how long a sync may go unanswered. */
  function Next(s: Latch, step: Step, timeout: nat): Latch
    requires Enabled(s, step)
  {
    match step
    case Claim(i, address) => if s.syncing then s else Moved(s.(syncing := true), i, Claimed(address))
    case Arm(i) => Moved(s.(peer := s.threads[i].address, deadline := s.now + timeout), i, Armed)
    case Send(i, sent) => Moved(s, i, if sent then Idle else Cancelling)
    case Answer(i, address) => if s.peer != address then s else Moved(s, i, Cancelling)
    case Tick(i) => if !s.syncing then s else Moved(s, i, Ticking)
    case Judge(i) => Moved(s, i, if s.deadline == 0 || s.now < s.deadline then Idle else Cancelling)
    case Clear(i) => Moved(s.(peer := "", deadline := 0), i, Cleared)
    case Release(i) => Moved(s.(syncing := false), i, Idle)
    case Advance(time) => s.(now := time)
  }

  ghost predicate Run(s: Latch, steps: seq<Step>, timeout: nat)
    decreases |steps|
  {
    steps == [] || (Enabled(s, steps[0]) && Run(Next(s, steps[0], timeout), steps[1..], timeout))
  }

  ghost function After(s: Latch, steps: seq<Step>, timeout: nat): Latch
    requires Run(s, steps, timeout)
    decreases |steps|
  {
    if steps == [] then s else After(Next(s, steps[0], timeout), steps[1..], timeout)
  }

  predicate Initial(s: Latch) {
    && !s.syncing && s.peer == "" && s.deadline == 0 && s.now >= 0
    && forall i :: 0 <= i < |s.threads| ==> s.threads[i] == Idle
  }

  lemma {:induction false} RunConcat(s: Latch, first: seq<Step>, second: seq<Step>, timeout: nat)
    requires Run(s, first, timeout) && Run(After(s, first, timeout), second, timeout)
    ensures Run(s, first + second, timeout)
    ensures After(s, first + second, timeout) == After(After(s, first, timeout), second, timeout)
    decreases |first|
  {
    if first == [] {
      assert first + second == second;
    } else {
      assert (first + second)[1..] == first[1..] + second;
      RunConcat(Next(s, first[0], timeout), first[1..], second, timeout);
    }
  }

  // ---------- No wedged sync ----------

  /** A set flag always has somebody responsible for it: a deadline, or a thread about to write one or about to release. */
  ghost predicate NotWedged(s: Latch) {
    s.now >= 0 && (s.syncing ==> s.deadline != 0 || exists i :: 0 <= i < |s.threads| && Responsible(s.threads[i]))
  }

  predicate Responsible(c: Counter) {
    c.Claimed? || c.Cleared?
  }

  lemma StepKeepsNotWedged(s: Latch, step: Step, timeout: nat)
    requires NotWedged(s) && Enabled(s, step) && timeout > 0
    ensures NotWedged(Next(s, step, timeout))
  {
    var after := Next(s, step, timeout);
    if s.syncing && s.deadline == 0 {
      var i :| 0 <= i < |s.threads| && Responsible(s.threads[i]);
      if !step.Arm? && !step.Release? {
        assert Responsible(after.threads[i]);
      }
    }
    if step.Claim? && !s.syncing {
      assert Responsible(after.threads[step.thread]);
    }
    if step.Clear? {
      assert Responsible(after.threads[step.thread]);
    }
  }

  lemma {:induction false} RunKeepsNotWedged(s: Latch, steps: seq<Step>, timeout: nat)
    requires NotWedged(s) && Run(s, steps, timeout) && timeout > 0
    ensures NotWedged(After(s, steps, timeout))
    decreases |steps|
  {
    hide NotWedged, Next, Enabled;
    if steps != [] {
      StepKeepsNotWedged(s, steps[0], timeout);
      RunKeepsNotWedged(Next(s, steps[0], timeout), steps[1..], timeout);
    }
  }

  /** For any number of threads and any interleaving. */
  lemma NoRunWedges(s: Latch, steps: seq<Step>, timeout: nat)
    requires Initial(s) && Run(s, steps, timeout) && timeout > 0
    ensures NotWedged(After(s, steps, timeout))
  {
    RunKeepsNotWedged(s, steps, timeout);
  }

  // ---------- Recovery ----------

  /** The four steps of a stall tick that finds the deadline passed. */
  function StallTick(thread: nat): seq<Step> {
    [Tick(thread), Judge(thread), Clear(thread), Release(thread)]
  }

  /**
   With no thread between its two writes, a stall tick run alone clears a set flag exactly
   when the deadline has passed; it then also clears the peer and the deadline.
   */
  lemma QuietTickClearsExactly(s: Latch, thread: nat, timeout: nat)
    requires NotWedged(s) && s.syncing && thread < |s.threads| && s.threads[thread] == Idle
    requires forall i :: 0 <= i < |s.threads| ==> !Responsible(s.threads[i])
    ensures Run(s, StallTick(thread), timeout) <==> s.now >= s.deadline
    ensures s.now >= s.deadline ==>
      After(s, StallTick(thread), timeout) == s.(syncing := false, peer := "", deadline := 0)
  {
    assert s.deadline != 0;
    var steps := StallTick(thread);
    var a := s.(threads := s.threads[thread := Ticking]);
    var b := Next(a, Judge(thread), timeout);
    assert Next(s, Tick(thread), timeout) == a;
    if s.now >= s.deadline {
      var c := Latch(true, "", 0, s.now, s.threads[thread := Cleared]);
      var d := s.(syncing := false, peer := "", deadline := 0);
      assert b == s.(threads := s.threads[thread := Cancelling]);
      assert Next(b, Clear(thread), timeout) == c;
      assert Next(c, Release(thread), timeout) == d;
      FourSteps(s, a, b, c, d, steps, timeout);
    } else {
      LaterEnabled(s, a, b, steps, timeout);
    }
  }

  /** In a run of three steps or more the second and the third are enabled where they are taken. */
  lemma LaterEnabled(s: Latch, s1: Latch, s2: Latch, steps: seq<Step>, timeout: nat)
    requires |steps| >= 3 && Enabled(s, steps[0]) && s1 == Next(s, steps[0], timeout)
    ensures Run(s, steps, timeout) ==> Enabled(s1, steps[1])
    ensures Enabled(s1, steps[1]) && s2 == Next(s1, steps[1], timeout) && Run(s, steps, timeout) ==> Enabled(s2, steps[2])
  {
    hide Enabled, Next;
    RunUnfold(s, steps, timeout);
    RunUnfold(s1, steps[1..], timeout);
    if Enabled(s1, steps[1]) {
      RunUnfold(Next(s1, steps[1], timeout), steps[1..][1..], timeout);
    }
  }

  lemma RunUnfold(s: Latch, steps: seq<Step>, timeout: nat)
    requires steps != []
    ensures Run(s, steps, timeout) <==> Enabled(s, steps[0]) && Run(Next(s, steps[0], timeout), steps[1..], timeout)
  {
  }

  /** Steps still to take in a call that has begun. */
  function Remaining(c: Counter): nat {
    match c
    case Idle => 0
    case Claimed(_) => 4
    case Armed => 3
    case Ticking => 3
    case Cancelling => 2
    case Cleared => 1
  }

  function Work(threads: seq<Counter>): nat {
    if threads == [] then 0 else Work(threads[..|threads| - 1]) + Remaining(threads[|threads| - 1])
  }

  lemma {:induction false} WorkMoved(threads: seq<Counter>, i: nat, to: Counter)
    requires i < |threads|
    ensures Work(threads[i := to]) == Work(threads) - Remaining(threads[i]) + Remaining(to)
    decreases |threads|
  {
    var n := |threads| - 1;
    if i < n {
      WorkMoved(threads[..n], i, to);
      assert threads[i := to][..n] == threads[..n][i := to];
    } else {
      assert threads[i := to][..n] == threads[..n];
    }
  }

  /** A step of a call that has begun, as opposed to the start of a new one or the clock. */
  predicate Continues(step: Step) {
    step.Arm? || step.Send? || step.Judge? || step.Clear? || step.Release?
  }

  /** In any interleaving, calls that have begun end: each of their steps leaves less work. */
  lemma ContinuingEnds(s: Latch, step: Step, timeout: nat)
    requires Enabled(s, step) && Continues(step)
    ensures Work(Next(s, step, timeout).threads) < Work(s.threads)
  {
    var i := step.thread;
    WorkMoved(s.threads, i, Next(s, step, timeout).threads[i]);
  }

  lemma {:induction false} NoWorkLeft(threads: seq<Counter>, i: nat)
    requires i < |threads| && Work(threads) == 0
    ensures threads[i] == Idle
  {
    var n := |threads| - 1;
    if i < n {
      NoWorkLeft(threads[..n], i);
    }
  }

  lemma {:induction false} SomebodyBusy(threads: seq<Counter>) returns (i: nat)
    requires Work(threads) > 0
    ensures i < |threads| && threads[i] != Idle
  {
    var n := |threads| - 1;
    if Remaining(threads[n]) > 0 {
      i := n;
    } else {
      i := SomebodyBusy(threads[..n]);
    }
  }

  /** How a call that has begun goes on, with its request sent. */
  function StepOf(c: Counter, thread: nat): Step
    requires c != Idle
  {
    match c
    case Claimed(_) => Arm(thread)
    case Armed => Send(thread, true)
    case Ticking => Judge(thread)
    case Cancelling => Clear(thread)
    case Cleared => Release(thread)
  }

  /** Letting every begun call finish brings all threads to rest. */
  lemma {:induction false} Settle(s: Latch, timeout: nat) returns (steps: seq<Step>)
    requires NotWedged(s) && timeout > 0
    ensures Run(s, steps, timeout) && |steps| <= Work(s.threads)
    ensures
      var end := After(s, steps, timeout);
      NotWedged(end) && |end.threads| == |s.threads| && forall i :: 0 <= i < |end.threads| ==> end.threads[i] == Idle
    decreases Work(s.threads)
  {
    hide NotWedged, Work;
    if Work(s.threads) == 0 {
      forall i | 0 <= i < |s.threads|
        ensures s.threads[i] == Idle
      {
        NoWorkLeft(s.threads, i);
      }
      steps := [];
    } else {
      var i := SomebodyBusy(s.threads);
      var step := StepOf(s.threads[i], i);
      StepKeepsNotWedged(s, step, timeout);
      ContinuingEnds(s, step, timeout);
      var rest := Settle(Next(s, step, timeout), timeout);
      steps := [step] + rest;
      assert steps[1..] == rest;
    }
  }

  /**
   From every reachable state the latch can be freed: let the begun calls finish, in at most
   four steps each, wait for the deadline, and run one stall tick.
   */
  lemma AlwaysRecoverable(start: Latch, before: seq<Step>, timeout: nat) returns (steps: seq<Step>)
    requires Initial(start) && Run(start, before, timeout) && timeout > 0 && |start.threads| > 0
    ensures
      var s := After(start, before, timeout);
      && Run(s, steps, timeout) && |steps| <= Work(s.threads) + 5
      && !After(s, steps, timeout).syncing
  {
    NoRunWedges(start, before, timeout);
    ThreadsStay(start, before, timeout);
    var s := After(start, before, timeout);
    steps := Settle(s, timeout);
    var end := After(s, steps, timeout);
    if end.syncing {
      var late := if end.now >= end.deadline then end.now else end.deadline;
      var waited := Next(end, Advance(late), timeout);
      QuietTickClearsExactly(waited, 0, timeout);
      assert ([Advance(late)] + StallTick(0))[1..] == StallTick(0);
      RunConcat(s, steps, [Advance(late)] + StallTick(0), timeout);
      steps := steps + ([Advance(late)] + StallTick(0));
    }
  }

  lemma {:induction false} ThreadsStay(s: Latch, steps: seq<Step>, timeout: nat)
    requires Run(s, steps, timeout)
    ensures |After(s, steps, timeout).threads| == |s.threads|
    decreases |steps|
  {
    if steps != [] {
      ThreadsStay(Next(s, steps[0], timeout), steps[1..], timeout);
    }
  }

  // ---------- How long a sync lives ----------

  predicate AllIdle(s: Latch) {
    forall i :: 0 <= i < |s.threads| ==> s.threads[i] == Idle
  }

  /** One thread starts a sync with a peer and its request is sent. */
  function StartSync(thread: nat, address: string): seq<Step> {
    [Claim(thread, address), Arm(thread), Send(thread, true)]
  }

  /** Steps that should not end a sync with `address` before `expiry`: anything but an answer from it, at any time before. */
  ghost predicate Harmless(steps: seq<Step>, address: string, expiry: int) {
    forall k :: 0 <= k < |steps| ==>
      match steps[k]
      case Answer(_, other) => other != address
      case Advance(time) => time < expiry
      case _ => true
  }

  /** A sync with `address` is waiting for its answer. */
  ghost predicate Waiting(s: Latch, address: string, expiry: int) {
    && s.syncing && s.peer == address && s.deadline == expiry && 0 <= s.now < expiry
    && forall i :: 0 <= i < |s.threads| ==> s.threads[i] == Idle || s.threads[i] == Ticking
  }

  lemma StartedWaits(s: Latch, thread: nat, address: string, timeout: nat)
    requires AllIdle(s) && !s.syncing && thread < |s.threads| && s.now >= 0 && timeout > 0
    ensures Run(s, StartSync(thread, address), timeout)
    ensures
      var started := After(s, StartSync(thread, address), timeout);
      Waiting(started, address, s.now + timeout) && started.threads == s.threads && started.now == s.now
  {
    var steps := StartSync(thread, address);
    var a := Next(s, steps[0], timeout);
    var b := Next(a, steps[1], timeout);
    var c := Next(b, steps[2], timeout);
    assert c.threads == s.threads;
    TwoSteps(s, a, b, steps[..2], timeout);
    OneStep(b, steps[2], timeout);
    RunConcat(s, steps[..2], [steps[2]], timeout);
    assert steps == steps[..2] + [steps[2]];
  }

  lemma StepWaits(s: Latch, step: Step, address: string, expiry: int, timeout: nat)
    requires Waiting(s, address, expiry) && Enabled(s, step) && Harmless([step], address, expiry)
    ensures Waiting(Next(s, step, timeout), address, expiry)
  {
    assert [step][0] == step;
    var after := Next(s, step, timeout);
    forall i | 0 <= i < |after.threads|
      ensures after.threads[i] == Idle || after.threads[i] == Ticking
    {
      assert s.threads[i] == Idle || s.threads[i] == Ticking;
    }
  }

  lemma {:induction false} RunWaits(s: Latch, steps: seq<Step>, address: string, expiry: int, timeout: nat)
    requires Waiting(s, address, expiry) && Run(s, steps, timeout) && Harmless(steps, address, expiry)
    ensures Waiting(After(s, steps, timeout), address, expiry)
    decreases |steps|
  {
    hide Waiting, Next, Enabled;
    if steps != [] {
      assert [steps[0]][0] == steps[0];
      StepWaits(s, steps[0], address, expiry, timeout);
      RunWaits(Next(s, steps[0], timeout), steps[1..], address, expiry, timeout);
    }
  }

  /**
   A sync started at some time with a peer lives until `timeout` later: whatever the other
   threads do before then, ticks, attempts to sync and answers from other addresses included,
   it goes on. At any later reading of the clock an undisturbed stall tick clears it exactly
   when `timeout` has gone by since the start.
   */
  lemma SyncLivesUntilTimeout(s: Latch, starter: nat, address: string, steps: seq<Step>, later: int, ticker: nat, timeout: nat)
    requires AllIdle(s) && !s.syncing && starter < |s.threads| && s.now >= 0 && timeout > 0 && later >= 0
    requires Run(s, StartSync(starter, address) + steps, timeout) && Harmless(steps, address, s.now + timeout)
    ensures
      var meanwhile := After(s, StartSync(starter, address) + steps, timeout);
      && meanwhile.syncing && meanwhile.peer == address
      && (ticker < |meanwhile.threads| && meanwhile.threads[ticker] == Idle ==>
            (Run(meanwhile, [Advance(later)] + StallTick(ticker), timeout) <==> later >= s.now + timeout))
      && (ticker < |meanwhile.threads| && meanwhile.threads[ticker] == Idle && later >= s.now + timeout ==>
            !After(meanwhile, [Advance(later)] + StallTick(ticker), timeout).syncing)
  {
    var first := StartSync(starter, address);
    StartedWaits(s, starter, address, timeout);
    RunSplit(s, first, steps, timeout);
    RunWaits(After(s, first, timeout), steps, address, s.now + timeout, timeout);
    var meanwhile := After(s, first + steps, timeout);
    if ticker < |meanwhile.threads| && meanwhile.threads[ticker] == Idle {
      TickAt(meanwhile, address, s.now + timeout, later, ticker, timeout);
    }
  }

  lemma TickAt(s: Latch, address: string, expiry: int, later: int, ticker: nat, timeout: nat)
    requires Waiting(s, address, expiry) && ticker < |s.threads| && s.threads[ticker] == Idle && later >= 0
    ensures Run(s, [Advance(later)] + StallTick(ticker), timeout) <==> later >= expiry
    ensures later >= expiry ==> !After(s, [Advance(later)] + StallTick(ticker), timeout).syncing
  {
    var waited := Next(s, Advance(later), timeout);
    QuietTickClearsExactly(waited, ticker, timeout);
    assert ([Advance(later)] + StallTick(ticker))[1..] == StallTick(ticker);
  }

  lemma {:induction false} RunSplit(s: Latch, first: seq<Step>, second: seq<Step>, timeout: nat)
    requires Run(s, first + second, timeout)
    ensures Run(s, first, timeout) && Run(After(s, first, timeout), second, timeout)
    ensures After(s, first + second, timeout) == After(After(s, first, timeout), second, timeout)
    decreases |first|
  {
    if first == [] {
      assert first + second == second;
    } else {
      assert (first + second)[1..] == first[1..] + second;
      RunSplit(Next(s, first[0], timeout), first[1..], second, timeout);
    }
  }

  /** A sync whose request could not be sent is cancelled by the thread that started it, unlike one whose request was. */
  lemma FailedSendEnds(s: Latch, thread: nat, timeout: nat)
    requires thread < |s.threads| && s.threads[thread] == Armed
    ensures Run(s, [Send(thread, false), Clear(thread), Release(thread)], timeout)
    ensures
      After(s, [Send(thread, false), Clear(thread), Release(thread)], timeout)
      == s.(syncing := false, peer := "", deadline := 0, threads := s.threads[thread := Idle])
    ensures Next(s, Send(thread, true), timeout) == s.(threads := s.threads[thread := Idle])
  {
    var steps := [Send(thread, false), Clear(thread), Release(thread)];
    var a := Next(s, steps[0], timeout);
    var b := Next(a, steps[1], timeout);
    TwoSteps(s, a, b, steps[..2], timeout);
    OneStep(b, steps[2], timeout);
    RunConcat(s, steps[..2], [steps[2]], timeout);
    assert steps == steps[..2] + [steps[2]];
  }

  /** An answer from the peer of a waiting sync ends it; an answer from anyone else does not even begin to. */
  lemma AnswerEndsExactly(s: Latch, address: string, expiry: int, from: string, thread: nat, timeout: nat)
    requires Waiting(s, address, expiry) && thread < |s.threads| && s.threads[thread] == Idle
    ensures Run(s, [Answer(thread, from), Clear(thread), Release(thread)], timeout) <==> from == address
    ensures from == address ==>
      After(s, [Answer(thread, from), Clear(thread), Release(thread)], timeout)
      == s.(syncing := false, peer := "", deadline := 0)
    ensures from != address ==> Next(s, Answer(thread, from), timeout) == s
  {
    var steps := [Answer(thread, from), Clear(thread), Release(thread)];
    var a := Next(s, steps[0], timeout);
    if from == address {
      var b := Next(a, steps[1], timeout);
      var c := Next(b, steps[2], timeout);
      assert c.threads == s.threads;
      TwoSteps(s, a, b, steps[..2], timeout);
      OneStep(b, steps[2], timeout);
      RunConcat(s, steps[..2], [steps[2]], timeout);
      assert steps == steps[..2] + [steps[2]];
    } else {
      LaterEnabled(s, a, a, steps, timeout);
    }
  }

  // ---------- One sync at a time ----------

  /** A thread that has won the flag and not yet finished sending its request. */
  predicate Starting(c: Counter) {
    c.Claimed? || c.Armed?
  }

  /** What one synchronisation at a time means: no two threads are starting one. */
  ghost predicate AtMostOne(s: Latch) {
    forall i, j :: 0 <= i < j < |s.threads| ==> !(Starting(s.threads[i]) && Starting(s.threads[j]))
  }

  /** What the flag is there for: besides, it is set while a thread is starting a sync. */
  ghost predicate Exclusive(s: Latch) {
    AtMostOne(s) && forall i :: 0 <= i < |s.threads| && Starting(s.threads[i]) ==> s.syncing
  }

  ghost predicate ReleasedUnder(s: Latch, step: Step) {
    step.Release? && exists i :: 0 <= i < |s.threads| && Starting(s.threads[i])
  }

  /** Only a release under a starting thread ends the protection of the flag. */
  lemma StepKeepsExclusiveExactly(s: Latch, step: Step, timeout: nat)
    requires Exclusive(s) && Enabled(s, step)
    ensures Exclusive(Next(s, step, timeout)) <==> !ReleasedUnder(s, step)
  {
    var after := Next(s, step, timeout);
    if ReleasedUnder(s, step) {
      var i :| 0 <= i < |s.threads| && Starting(s.threads[i]);
      assert Starting(after.threads[i]);
    } else if step.Claim? && !s.syncing {
      forall i | 0 <= i < |s.threads|
        ensures !Starting(s.threads[i])
      {
      }
    } else {
      forall i | 0 <= i < |s.threads| && Starting(after.threads[i])
        ensures Starting(s.threads[i])
      {
      }
    }
  }

  /** After a release, the next claim leaves one thread starting exactly when nobody was starting under the release. */
  lemma ReleaseThenClaim(s: Latch, r: nat, address: string, timeout: nat)
    requires Exclusive(s) && Enabled(s, Release(r))
    ensures
      var released := Next(s, Release(r), timeout);
      Enabled(released, Claim(r, address))
      && (AtMostOne(Next(released, Claim(r, address), timeout)) <==> !ReleasedUnder(s, Release(r)))
  {
    var released := Next(s, Release(r), timeout);
    var claimed := Next(released, Claim(r, address), timeout);
    assert Starting(claimed.threads[r]);
    forall i | 0 <= i < |s.threads| && i != r
      ensures claimed.threads[i] == s.threads[i]
    {
    }
    if ReleasedUnder(s, Release(r)) {
      var i :| 0 <= i < |s.threads| && Starting(s.threads[i]);
      assert i < r || r < i;
    }
  }

  ghost predicate NoEarlyRelease(s: Latch, steps: seq<Step>, timeout: nat)
    requires Run(s, steps, timeout)
    decreases |steps|
  {
    steps == [] || (!ReleasedUnder(s, steps[0]) && NoEarlyRelease(Next(s, steps[0], timeout), steps[1..], timeout))
  }

  /** No thread that can claim the flag here would make two threads start a sync. */
  ghost predicate ClaimsSafe(s: Latch, timeout: nat) {
    AtMostOne(s) && forall r, address :: Enabled(s, Claim(r, address)) ==> AtMostOne(Next(s, Claim(r, address), timeout))
  }

  /** Claims are safe in the state the run starts from and in every state it goes through. */
  ghost predicate SafeThroughout(s: Latch, steps: seq<Step>, timeout: nat)
    requires Run(s, steps, timeout)
    decreases |steps|
  {
    ClaimsSafe(s, timeout) && (steps == [] || SafeThroughout(Next(s, steps[0], timeout), steps[1..], timeout))
  }

  lemma ExclusiveIsSafe(s: Latch, timeout: nat)
    requires Exclusive(s)
    ensures ClaimsSafe(s, timeout)
  {
    forall r, address | Enabled(s, Claim(r, address))
      ensures AtMostOne(Next(s, Claim(r, address), timeout))
    {
      StepKeepsExclusiveExactly(s, Claim(r, address), timeout);
    }
  }

  lemma ReleasedUnderIsUnsafe(s: Latch, step: Step, timeout: nat)
    requires Exclusive(s) && Enabled(s, step) && ReleasedUnder(s, step)
    ensures !ClaimsSafe(Next(s, step, timeout), timeout)
  {
    ReleaseThenClaim(s, step.thread, "", timeout);
  }

  /**
   Syncs exclude each other in every state of a run, and after any claim from one of them,
   exactly when the run never releases the flag under a thread that is starting a sync.
   */
  lemma {:induction false} ExcludesExactly(s: Latch, steps: seq<Step>, timeout: nat)
    requires Exclusive(s) && Run(s, steps, timeout)
    ensures SafeThroughout(s, steps, timeout) <==> NoEarlyRelease(s, steps, timeout)
    ensures NoEarlyRelease(s, steps, timeout) ==> Exclusive(After(s, steps, timeout))
    decreases |steps|
  {
    hide Exclusive, ClaimsSafe, Next, Enabled, ReleasedUnder;
    ExclusiveIsSafe(s, timeout);
    if steps != [] {
      var next := Next(s, steps[0], timeout);
      StepKeepsExclusiveExactly(s, steps[0], timeout);
      if ReleasedUnder(s, steps[0]) {
        ReleasedUnderIsUnsafe(s, steps[0], timeout);
      } else {
        ExcludesExactly(next, steps[1..], timeout);
      }
    }
  }

  /** From rest, for any number of threads and any interleaving. */
  lemma RunsExcludeExactly(s: Latch, steps: seq<Step>, timeout: nat)
    requires Initial(s) && Run(s, steps, timeout)
    ensures SafeThroughout(s, steps, timeout) <==> NoEarlyRelease(s, steps, timeout)
    ensures NoEarlyRelease(s, steps, timeout) ==> Exclusive(After(s, steps, timeout))
  {
    ExcludesExactly(s, steps, timeout);
  }

  function Resting(n: nat): Latch {
    Latch(false, "", 0, 0, seq(n, _ => Idle))
  }

  /**
   A run that does overlap: the answer from A is checked by two threads before either
   cancels, and the slower one then clears the sync with B that was started meanwhile.
   */
  function LateCancel(): seq<Step> {
    [Claim(0, "A"), Arm(0), Send(0, true), Answer(1, "A"), Answer(2, "A"), Clear(1), Release(1),
     Claim(0, "B"), Arm(0), Clear(2), Release(2), Claim(1, "C"), Arm(1)]
  }

  /** Mutual exclusion of syncs does not hold: two threads are sending requests to different peers at once. */
  lemma SyncsCanOverlap(timeout: nat)
    ensures Initial(Resting(3)) && Run(Resting(3), LateCancel(), timeout)
    ensures
      var end := After(Resting(3), LateCancel(), timeout);
      end.threads == [Armed, Armed, Idle] && end.peer == "C"
  {
    var a := [Claim(0, "A"), Arm(0), Send(0, true), Answer(1, "A"), Answer(2, "A")];
    var b := [Clear(1), Release(1), Claim(0, "B"), Arm(0)];
    var c := [Clear(2), Release(2), Claim(1, "C"), Arm(1)];
    assert LateCancel() == a + b + c;
    LateCheck(timeout);
    NextSync(timeout);
    Overlap(timeout);
    RunConcat(Resting(3), a, b, timeout);
    RunConcat(Resting(3), a + b, c, timeout);
  }

  /** No stale check is needed: the peer of a sync disconnects while its request is being sent. */
  function DisconnectWhileSending(): seq<Step> {
    [Claim(0, "A"), Arm(0), Answer(1, "A"), Clear(1), Release(1), Claim(2, "C"), Arm(2)]
  }

  lemma DisconnectOverlaps(timeout: nat)
    ensures Run(Resting(3), DisconnectWhileSending(), timeout)
    ensures
      var end := After(Resting(3), DisconnectWhileSending(), timeout);
      end.threads == [Armed, Idle, Armed] && end.peer == "C"
  {
    var first := [Claim(0, "A"), Arm(0), Answer(1, "A")];
    var second := [Clear(1), Release(1), Claim(2, "C"), Arm(2)];
    assert DisconnectWhileSending() == first + second;
    CancelWhileSending(timeout);
    SyncWhileSending(timeout);
    hide Enabled, Next;
    RunConcat(Resting(3), first, second, timeout);
  }

  lemma CancelWhileSending(timeout: nat)
    ensures
      var steps := [Claim(0, "A"), Arm(0), Answer(1, "A")];
      && Run(Resting(3), steps, timeout)
      && After(Resting(3), steps, timeout) == Latch(true, "A", timeout, 0, [Armed, Cancelling, Idle])
  {
    var armed := Latch(true, "A", timeout, 0, [Armed, Idle, Idle]);
    var steps := [Claim(0, "A"), Arm(0), Answer(1, "A")];
    TwoSteps(Resting(3), Latch(true, "", 0, 0, [Claimed("A"), Idle, Idle]), armed, steps[..2], timeout);
    OneStep(armed, steps[2], timeout);
    RunConcat(Resting(3), steps[..2], [steps[2]], timeout);
    assert steps == steps[..2] + [steps[2]];
  }

  lemma SyncWhileSending(timeout: nat)
    ensures
      var s := Latch(true, "A", timeout, 0, [Armed, Cancelling, Idle]);
      var steps := [Clear(1), Release(1), Claim(2, "C"), Arm(2)];
      Run(s, steps, timeout) && After(s, steps, timeout) == Latch(true, "C", timeout, 0, [Armed, Idle, Armed])
  {
    FourSteps(
      Latch(true, "A", timeout, 0, [Armed, Cancelling, Idle]), Latch(true, "", 0, 0, [Armed, Cleared, Idle]),
      Latch(false, "", 0, 0, [Armed, Idle, Idle]), Latch(true, "", 0, 0, [Armed, Idle, Claimed("C")]),
      Latch(true, "C", timeout, 0, [Armed, Idle, Armed]), [Clear(1), Release(1), Claim(2, "C"), Arm(2)], timeout);
  }

  lemma TwoSteps(s: Latch, s1: Latch, s2: Latch, steps: seq<Step>, timeout: nat)
    requires |steps| == 2 && Enabled(s, steps[0]) && Enabled(s1, steps[1])
    requires Next(s, steps[0], timeout) == s1 && Next(s1, steps[1], timeout) == s2
    ensures Run(s, steps, timeout) && After(s, steps, timeout) == s2
  {
    hide Enabled, Next;
    OneStep(s, steps[0], timeout);
    OneStep(s1, steps[1], timeout);
    RunConcat(s, [steps[0]], [steps[1]], timeout);
    assert steps == [steps[0]] + [steps[1]];
  }

  lemma LateCheck(timeout: nat)
    ensures
      var steps := [Claim(0, "A"), Arm(0), Send(0, true), Answer(1, "A"), Answer(2, "A")];
      && Run(Resting(3), steps, timeout)
      && After(Resting(3), steps, timeout) == Latch(true, "A", timeout, 0, [Idle, Cancelling, Cancelling])
  {
    var steps := [Claim(0, "A"), Arm(0), Send(0, true), Answer(1, "A"), Answer(2, "A")];
    var s1 := Latch(true, "", 0, 0, [Claimed("A"), Idle, Idle]);
    var s2 := Latch(true, "A", timeout, 0, [Armed, Idle, Idle]);
    var s3 := s2.(threads := [Idle, Idle, Idle]);
    var s4 := s2.(threads := [Idle, Cancelling, Idle]);
    assert Next(Resting(3), steps[0], timeout) == s1 && Next(s1, steps[1], timeout) == s2;
    assert Next(s2, steps[2], timeout) == s3 && Next(s3, steps[3], timeout) == s4;
    FourSteps(Resting(3), s1, s2, s3, s4, steps[..4], timeout);
    OneStep(s4, steps[4], timeout);
    RunConcat(Resting(3), steps[..4], [steps[4]], timeout);
    assert steps == steps[..4] + [steps[4]];
  }

  lemma NextSync(timeout: nat)
    ensures
      var s := Latch(true, "A", timeout, 0, [Idle, Cancelling, Cancelling]);
      var steps := [Clear(1), Release(1), Claim(0, "B"), Arm(0)];
      Run(s, steps, timeout) && After(s, steps, timeout) == Latch(true, "B", timeout, 0, [Armed, Idle, Cancelling])
  {
    FourSteps(
      Latch(true, "A", timeout, 0, [Idle, Cancelling, Cancelling]), Latch(true, "", 0, 0, [Idle, Cleared, Cancelling]),
      Latch(false, "", 0, 0, [Idle, Idle, Cancelling]), Latch(true, "", 0, 0, [Claimed("B"), Idle, Cancelling]),
      Latch(true, "B", timeout, 0, [Armed, Idle, Cancelling]), [Clear(1), Release(1), Claim(0, "B"), Arm(0)], timeout);
  }

  lemma Overlap(timeout: nat)
    ensures
      var s := Latch(true, "B", timeout, 0, [Armed, Idle, Cancelling]);
      var steps := [Clear(2), Release(2), Claim(1, "C"), Arm(1)];
      Run(s, steps, timeout) && After(s, steps, timeout) == Latch(true, "C", timeout, 0, [Armed, Armed, Idle])
  {
    FourSteps(
      Latch(true, "B", timeout, 0, [Armed, Idle, Cancelling]), Latch(true, "", 0, 0, [Armed, Idle, Cleared]),
      Latch(false, "", 0, 0, [Armed, Idle, Idle]), Latch(true, "", 0, 0, [Armed, Claimed("C"), Idle]),
      Latch(true, "C", timeout, 0, [Armed, Armed, Idle]), [Clear(2), Release(2), Claim(1, "C"), Arm(1)], timeout);
  }

  lemma OneStep(s: Latch, step: Step, timeout: nat)
    requires Enabled(s, step)
    ensures Run(s, [step], timeout) && After(s, [step], timeout) == Next(s, step, timeout)
  {
    assert [step][1..] == [];
  }

  lemma FourSteps(s: Latch, s1: Latch, s2: Latch, s3: Latch, s4: Latch, steps: seq<Step>, timeout: nat)
    requires |steps| == 4 && Enabled(s, steps[0]) && Enabled(s1, steps[1]) && Enabled(s2, steps[2]) && Enabled(s3, steps[3])
    requires Next(s, steps[0], timeout) == s1 && Next(s1, steps[1], timeout) == s2
    requires Next(s2, steps[2], timeout) == s3 && Next(s3, steps[3], timeout) == s4
    ensures Run(s, steps, timeout) && After(s, steps, timeout) == s4
  {
    hide Enabled, Next;
    assert steps == [steps[0]] + [steps[1]] + [steps[2]] + [steps[3]];
    OneStep(s, steps[0], timeout);
    OneStep(s1, steps[1], timeout);
    OneStep(s2, steps[2], timeout);
    OneStep(s3, steps[3], timeout);
    RunConcat(s, [steps[0]], [steps[1]], timeout);
    RunConcat(s, [steps[0]] + [steps[1]], [steps[2]], timeout);
    RunConcat(s, [steps[0]] + [steps[1]] + [steps[2]], [steps[3]], timeout);
  }
}
