/** One-time initialisation of the Oracle client: any number of threads, interleaved at every
    read and write of the shared flags. */
module OracleInit {

  /** `settings.ORACLE_DRIVER_MODE`, the same for every thread. */
  datatype Mode = Thin | Thick | Auto

  /** How a thread's call ends: normally, with the stored error, or with an exception that no
      handler catches, raised before the initialiser is called, out of it, or while the
      handler builds its message. */
  datatype End = Returned | Raised | Aborted

  datatype Pc =
    | Start            // before the mode test
    | Waiting          // at the lock
    | Testing          // holds the lock, before reading ATTEMPTED
    | Marked           // has set ATTEMPTED, reads the directories before the call
    | Calling          // inside `init_oracle_client`
    | Leaving(end: End)  // about to release the lock
    | Done(end: End)

  datatype State = State(
    mode: Mode, threads: seq<Pc>, lock: bool, attempted: bool, error: bool,
    calls: nat, succeeded: bool, aborted: bool)

  predicate Holds(pc: Pc) { pc.Testing? || pc.Marked? || pc.Calling? || pc.Leaving? }

  predicate Initialising(pc: Pc) { pc.Marked? || pc.Calling? }

  function Init(mode: Mode, n: nat): State {
    State(mode, seq(n, _ => Start), false, false, false, 0, false, false)
  }

  /** Outcomes of the initialiser; `Interrupted` also of the statements before it. */
  datatype Answer = Succeeds | Fails | Interrupted

  /** Where a thread goes next; `answer` is used while it initialises. */
  function NextPc(s: State, pc: Pc, answer: Answer): Pc {
    match pc
    case Start => if s.mode.Thin? then Done(Returned) else Waiting
    case Waiting => Testing
    case Testing =>
      if s.attempted then Leaving(if s.error && s.mode.Thick? then Raised else Returned) else Marked
    case Marked => if answer.Interrupted? then Leaving(Aborted) else Calling
    case Calling =>
      (match answer
       case Succeeds => Leaving(Returned)
       case Fails => Leaving(if s.mode.Thick? then Raised else Returned)
       case Interrupted => Leaving(Aborted))
    case Leaving(end) => Done(end)
    case Done(end) => Done(end)
  }

  /** What the step does to the lock and the shared flags. */
  function Shared(s: State, pc: Pc, answer: Answer): State {
    match pc
    case Waiting => s.(lock := true)
    case Testing => s.(attempted := true)
    case Marked => if answer.Interrupted? then s.(aborted := true) else s.(calls := s.calls + 1)
    case Calling =>
      (match answer
       case Succeeds => s.(succeeded := true)
       case Fails => s.(error := true)
       case Interrupted => s.(aborted := true))
    case Leaving(_) => s.(lock := false)
    case _ => s
  }

  /** One atomic step of thread t. */
  function StepOf(s: State, t: nat, answer: Answer): State
    requires t < |s.threads|
  {
    Shared(s, s.threads[t], answer).(threads := s.threads[t := NextPc(s, s.threads[t], answer)])
  }

  /** A thread can go on unless it is done or waits for a lock another thread holds. */
  predicate Enabled(s: State, t: nat)
    requires t < |s.threads|
  {
    !s.threads[t].Done? && (s.threads[t].Waiting? ==> !s.lock)
  }

  // ----- the invariant

  ghost predicate Inv(s: State) {
    && LockInv(s)
    && CallInv(s)
    && AbortInv(s)
    && forall t :: 0 <= t < |s.threads| ==> ThreadInv(s, s.threads[t])
  }

  /** The lock is taken exactly when one thread is past it, and then by that thread only. */
  ghost predicate LockInv(s: State) {
    && (s.lock <==> exists t :: 0 <= t < |s.threads| && Holds(s.threads[t]))
    && forall t, u :: 0 <= t < u < |s.threads| ==> !(Holds(s.threads[t]) && Holds(s.threads[u]))
  }

  ghost predicate CallInv(s: State) {
    && s.calls <= 1
    && (s.mode.Thin? ==> !s.attempted && s.calls == 0)
    && (!s.attempted ==> s.calls == 0 && !s.error && !s.succeeded && !s.aborted)
    && !(s.error && s.succeeded) && !(s.error && s.aborted) && !(s.succeeded && s.aborted)
    && (s.attempted && !(exists t :: 0 <= t < |s.threads| && Initialising(s.threads[t])) ==>
          (s.calls == 1 || s.aborted) && (s.succeeded || s.error || s.aborted))
  }

  predicate Breaks(pc: Pc) { pc == Leaving(Aborted) || pc == Done(Aborted) }

  /** The attempt is broken off exactly when one thread ends with that exception, and no
      second thread does. */
  ghost predicate AbortInv(s: State) {
    && (s.aborted <==> exists t :: 0 <= t < |s.threads| && Breaks(s.threads[t]))
    && forall t, u :: 0 <= t < u < |s.threads| ==> !(Breaks(s.threads[t]) && Breaks(s.threads[u]))
  }

  ghost predicate ThreadInv(s: State, pc: Pc) {
    match pc
    case Start => true
    case Waiting => !s.mode.Thin?
    case Testing => !s.mode.Thin?
    case Marked => s.attempted && s.calls == 0 && !s.error && !s.succeeded && !s.aborted && !s.mode.Thin?
    case Calling => s.attempted && s.calls == 1 && !s.error && !s.succeeded && !s.aborted && !s.mode.Thin?
    case Leaving(end) => !s.mode.Thin? && EndInv(s, end)
    case Done(end) => EndInv(s, end)
  }

  ghost predicate EndInv(s: State, end: End) {
    match end
    case Returned => (!s.mode.Thin? ==> s.attempted) && (s.mode.Thick? ==> s.succeeded || s.aborted)
    case Raised => s.mode.Thick? && s.error
    case Aborted => s.aborted
  }

  lemma {:induction false} InitInv(mode: Mode, n: nat)
    ensures Inv(Init(mode, n))
  {
  }

  lemma {:induction false} StepKeepsLock(s: State, t: nat, answer: Answer)
    requires Inv(s) && t < |s.threads| && Enabled(s, t)
    ensures LockInv(StepOf(s, t, answer))
  {
    var r := StepOf(s, t, answer);
    assert forall u :: 0 <= u < |s.threads| && u != t ==> r.threads[u] == s.threads[u];
    if !s.lock { NobodyHolds(s); }
    if Holds(r.threads[t]) {
      assert forall u :: 0 <= u < |s.threads| && u != t ==> !Holds(s.threads[u]);
    } else if s.threads[t].Leaving? {
      assert Holds(s.threads[t]);
      assert forall u :: 0 <= u < |s.threads| && u != t ==> !Holds(s.threads[u]);
    } else {
      if s.lock {
        var u :| 0 <= u < |s.threads| && Holds(s.threads[u]);
        assert Holds(r.threads[u]);
      }
    }
  }

  lemma {:induction false} NobodyHolds(s: State)
    requires LockInv(s) && !s.lock
    ensures forall u :: 0 <= u < |s.threads| ==> !Holds(s.threads[u])
  {
  }

  /** While a thread holds the lock no other is initialising. */
  lemma {:induction false} OnlyHolder(s: State, t: nat)
    requires LockInv(s) && t < |s.threads| && Holds(s.threads[t])
    ensures forall u :: 0 <= u < |s.threads| && u != t ==> !Holds(s.threads[u]) && !Initialising(s.threads[u])
  {
  }

  lemma {:induction false} StepKeepsCall(s: State, t: nat, answer: Answer)
    requires Inv(s) && t < |s.threads| && Enabled(s, t)
    ensures CallInv(StepOf(s, t, answer))
  {
    hide LockInv;
    var r := StepOf(s, t, answer);
    assert ThreadInv(s, s.threads[t]);
    assert forall u :: 0 <= u < |s.threads| && u != t ==> r.threads[u] == s.threads[u];
    if Holds(s.threads[t]) {
      OnlyHolder(s, t);
      if Initialising(r.threads[t]) { assert exists u :: 0 <= u < |r.threads| && Initialising(r.threads[u]); }
    } else if exists u :: 0 <= u < |s.threads| && Initialising(s.threads[u]) {
      var u :| 0 <= u < |s.threads| && Initialising(s.threads[u]);
      assert Initialising(r.threads[u]);
    }
  }

  lemma {:induction false} StepKeepsThreads(s: State, t: nat, answer: Answer)
    requires Inv(s) && t < |s.threads| && Enabled(s, t)
    ensures var r := StepOf(s, t, answer); forall u :: 0 <= u < |r.threads| ==> ThreadInv(r, r.threads[u])
  {
    hide LockInv;
    var r := StepOf(s, t, answer);
    assert ThreadInv(s, s.threads[t]);
    if Holds(s.threads[t]) { OnlyHolder(s, t); }
    forall u | 0 <= u < |r.threads| ensures ThreadInv(r, r.threads[u]) {
      assert ThreadInv(s, s.threads[u]);
    }
  }

  lemma {:induction false} StepKeepsAbort(s: State, t: nat, answer: Answer)
    requires Inv(s) && t < |s.threads| && Enabled(s, t)
    ensures AbortInv(StepOf(s, t, answer))
  {
    hide LockInv, CallInv;
    var r := StepOf(s, t, answer);
    assert ThreadInv(s, s.threads[t]);
    assert forall u :: 0 <= u < |s.threads| && u != t ==> r.threads[u] == s.threads[u];
    if s.aborted {
      var u :| 0 <= u < |s.threads| && Breaks(s.threads[u]);
      assert Breaks(r.threads[u]);
    } else if Breaks(r.threads[t]) {
      assert r.aborted;
    }
  }

  lemma {:induction false} StepKeeps(s: State, t: nat, answer: Answer)
    requires Inv(s) && t < |s.threads| && Enabled(s, t)
    ensures Inv(StepOf(s, t, answer))
  {
    hide LockInv, CallInv, AbortInv, ThreadInv, StepOf;
    StepKeepsLock(s, t, answer);
    StepKeepsCall(s, t, answer);
    StepKeepsAbort(s, t, answer);
    StepKeepsThreads(s, t, answer);
  }

  // ----- runs

  datatype Move = Move(thread: nat, answer: Answer)

  /** Every interleaving: any enabled thread may take the next step. */
  ghost predicate Runs(s: State, moves: seq<Move>, t: State)
    decreases |moves|
  {
    if moves == [] then s == t
    else
      && moves[0].thread < |s.threads| && Enabled(s, moves[0].thread)
      && Runs(StepOf(s, moves[0].thread, moves[0].answer), moves[1..], t)
  }

  lemma {:induction false} StepFrame(s: State, t: nat, answer: Answer)
    requires t < |s.threads|
    ensures StepOf(s, t, answer).mode == s.mode && |StepOf(s, t, answer).threads| == |s.threads|
  {
  }

  lemma {:induction false} InvOverRuns(s: State, moves: seq<Move>, t: State)
    requires Inv(s) && Runs(s, moves, t)
    ensures Inv(t) && t.mode == s.mode && |t.threads| == |s.threads|
    decreases |moves|
  {
    hide Inv, StepOf;
    if moves != [] {
      StepKeeps(s, moves[0].thread, moves[0].answer);
      StepFrame(s, moves[0].thread, moves[0].answer);
      InvOverRuns(StepOf(s, moves[0].thread, moves[0].answer), moves[1..], t);
    }
  }

  /** The initialiser is called at most once, and comes to one end only; in thin mode it is
      never called; in thick mode no thread has returned normally unless the call has
      succeeded, or the attempt was broken off; outside thick mode nobody gets the stored
      error; a thread ends with another exception only when it broke off the attempt. */
  lemma {:induction false} OneTimeInitialisation(mode: Mode, n: nat, moves: seq<Move>, t: State, u: nat)
    requires Runs(Init(mode, n), moves, t) && u < n
    ensures t.calls <= 1 && !(t.succeeded && t.aborted) && (mode.Thin? ==> t.calls == 0 && !t.aborted)
    ensures u < |t.threads|
    ensures mode.Thick? && t.threads[u] == Done(Returned) ==> t.aborted || (t.calls == 1 && t.succeeded)
    ensures !mode.Thick? ==> t.threads[u] != Done(Raised)
    ensures t.threads[u] == Done(Aborted) ==>
              t.aborted && forall v :: 0 <= v < |t.threads| && v != u ==> t.threads[v] != Done(Aborted)
  {
    InitInv(mode, n);
    InvOverRuns(Init(mode, n), moves, t);
    assert ThreadInv(t, t.threads[u]);
    assert forall v :: 0 <= v < |t.threads| && Initialising(t.threads[v]) ==> ThreadInv(t, t.threads[v]);
  }

  /** In thick mode, once all threads are done: a normal return means that the client is
      initialised exactly when the attempt was not broken off, or only one thread was there. */
  lemma {:induction false} ReturnMeansInitialised(n: nat, moves: seq<Move>, t: State)
    requires Runs(Init(Thick, n), moves, t) && forall u :: 0 <= u < n ==> u < |t.threads| && t.threads[u].Done?
    ensures (forall u :: 0 <= u < |t.threads| && t.threads[u] == Done(Returned) ==> t.succeeded)
            <==> !t.aborted || n < 2
  {
    InitInv(Thick, n);
    InvOverRuns(Init(Thick, n), moves, t);
    assert forall u :: 0 <= u < n ==> ThreadInv(t, t.threads[u]);
    if t.aborted {
      var a :| 0 <= a < n && Breaks(t.threads[a]);
      if n >= 2 {
        var u := if a == 0 then 1 else 0;
        assert !Breaks(t.threads[u]);
        assert t.threads[u] == Done(Returned);
      }
    }
  }

  /** How it ends outside thin mode, once all of at least one thread are done: one outcome,
      of one call unless the attempt was broken off before it; the stored error reaches every
      thread in thick mode and none in auto mode; a broken attempt, the one thread that broke
      it. In thin mode everyone returns. */
  lemma {:induction false} AllDoneOutcome(mode: Mode, n: nat, moves: seq<Move>, t: State)
    requires n > 0 && Runs(Init(mode, n), moves, t)
    requires forall u :: 0 <= u < n ==> u < |t.threads| && t.threads[u].Done?
    ensures |t.threads| == n
    ensures mode.Thin? ==> t.calls == 0 && forall u :: 0 <= u < n ==> t.threads[u] == Done(Returned)
    ensures !mode.Thin? ==> t.attempted && (t.succeeded || t.error || t.aborted) && (t.calls == 1 || t.aborted)
    ensures t.succeeded ==> forall u :: 0 <= u < n ==> t.threads[u] == Done(Returned)
    ensures t.error && mode.Auto? ==> forall u :: 0 <= u < n ==> t.threads[u] == Done(Returned)
    ensures t.error && mode.Thick? ==> forall u :: 0 <= u < n ==> t.threads[u] == Done(Raised)
    ensures t.aborted ==> exists a :: 0 <= a < n && t.threads[a] == Done(Aborted)
                                      && forall u :: 0 <= u < n && u != a ==> t.threads[u] == Done(Returned)
  {
    hide Runs;
    InitInv(mode, n);
    InvOverRuns(Init(mode, n), moves, t);
    assert forall u :: 0 <= u < n ==> ThreadInv(t, t.threads[u]);
    assert ThreadInv(t, t.threads[0]);
    if t.aborted {
      var a :| 0 <= a < n && Breaks(t.threads[a]);
      assert forall u :: 0 <= u < n && u != a ==> !Breaks(t.threads[u]);
    }
  }

  // ----- progress

  function Distance(pc: Pc): nat {
    match pc
    case Start => 6
    case Waiting => 5
    case Testing => 4
    case Marked => 3
    case Calling => 2
    case Leaving(_) => 1
    case Done(_) => 0
  }

  function TotalDistance(ts: seq<Pc>): nat {
    if ts == [] then 0 else Distance(ts[0]) + TotalDistance(ts[1..])
  }

  lemma {:induction false} DistanceUpdate(ts: seq<Pc>, t: nat, pc: Pc)
    requires t < |ts|
    ensures TotalDistance(ts[t := pc]) == TotalDistance(ts) - Distance(ts[t]) + Distance(pc)
  {
    if t > 0 {
      DistanceUpdate(ts[1..], t - 1, pc);
      assert ts[t := pc][1..] == ts[1..][t - 1 := pc];
    } else {
      assert ts[t := pc][1..] == ts[1..];
    }
  }

  lemma {:induction false} StepNearer(s: State, pc: Pc, answer: Answer)
    requires !pc.Done?
    ensures Distance(NextPc(s, pc, answer)) < Distance(pc)
  {
  }

  lemma {:induction false} RunsNearer(s: State, moves: seq<Move>, t: State)
    requires Runs(s, moves, t)
    ensures |moves| + TotalDistance(t.threads) <= TotalDistance(s.threads)
    decreases |moves|
  {
    hide Distance, NextPc, Shared;
    if moves != [] {
      var u, answer := moves[0].thread, moves[0].answer;
      var pc := NextPc(s, s.threads[u], answer);
      DistanceUpdate(s.threads, u, pc);
      StepNearer(s, s.threads[u], answer);
      RunsNearer(StepOf(s, u, answer), moves[1..], t);
    }
  }

  lemma {:induction false} StartDistance(n: nat)
    ensures TotalDistance(seq(n, _ => Start)) == 6 * n
  {
    if n > 0 {
      StartDistance(n - 1);
      assert seq(n, _ => Start)[1..] == seq(n - 1, _ => Start);
    }
  }

  /** No run is longer than six steps a thread. */
  lemma {:induction false} RunsEnd(mode: Mode, n: nat, moves: seq<Move>, t: State)
    requires Runs(Init(mode, n), moves, t)
    ensures |moves| <= 6 * n
  {
    hide Runs;
    RunsNearer(Init(mode, n), moves, t);
    StartDistance(n);
    assert Init(mode, n).threads == seq(n, _ => Start);
  }

  /** No deadlock: in every reachable state some thread can go on, until all are done. */
  lemma {:induction false} NoDeadlock(mode: Mode, n: nat, moves: seq<Move>, t: State)
    requires Runs(Init(mode, n), moves, t)
    ensures || (forall u :: 0 <= u < |t.threads| ==> t.threads[u].Done?)
            || exists u :: 0 <= u < |t.threads| && Enabled(t, u)
  {
    InitInv(mode, n);
    InvOverRuns(Init(mode, n), moves, t);
    if t.lock {
      var u :| 0 <= u < |t.threads| && Holds(t.threads[u]);
      assert Enabled(t, u);
    } else if exists u :: 0 <= u < |t.threads| && !t.threads[u].Done? {
      var u :| 0 <= u < |t.threads| && !t.threads[u].Done?;
      assert Enabled(t, u);
    }
  }

  /** An exception no handler catches leaves the attempt marked without an error: in thick
      mode the next thread returns normally with no client initialised. Here the initialiser
      was called. */
  lemma {:induction false} InterruptedLooksDone() returns (moves: seq<Move>, t: State)
    ensures Runs(Init(Thick, 2), moves, t)
    ensures t.threads == [Done(Aborted), Done(Returned)] && !t.succeeded && t.calls == 1
  {
    var first, second := Move(0, Interrupted), Move(1, Succeeds);
    var mid := State(Thick, [Done(Aborted), Start], false, true, false, 1, false, true);
    t := State(Thick, [Done(Aborted), Done(Returned)], false, true, false, 1, false, true);
    var tail := SecondThread(second, mid, t);
    moves := FirstThread(Move(0, Succeeds), first, mid, tail, t);
  }

  lemma {:induction false} SecondThread(m: Move, mid: State, t: State) returns (moves: seq<Move>)
    requires m == Move(1, Succeeds)
    requires mid == State(Thick, [Done(Aborted), Start], false, true, false, 1, false, true)
    requires t == State(Thick, [Done(Aborted), Done(Returned)], false, true, false, 1, false, true)
    ensures Runs(mid, moves, t)
  {
    hide Runs;
    var s1 := mid.(threads := [Done(Aborted), Waiting]);
    var s2 := mid.(threads := [Done(Aborted), Testing], lock := true);
    var s3 := mid.(threads := [Done(Aborted), Leaving(Returned)], lock := true);
    RunNone(t);
    RunOne(s3, m, [], t, t);
    assert [m] + [] == [m];
    RunOne(s2, m, [m], s3, t);
    RunOne(s1, m, [m] + [m], s2, t);
    RunOne(mid, m, [m] + ([m] + [m]), s1, t);
    moves := [m] + ([m] + ([m] + [m]));
  }

  lemma {:induction false} FirstThread(go: Move, m: Move, mid: State, tail: seq<Move>, t: State)
    returns (moves: seq<Move>)
    requires go == Move(0, Succeeds) && m == Move(0, Interrupted) && Runs(mid, tail, t)
    requires mid == State(Thick, [Done(Aborted), Start], false, true, false, 1, false, true)
    ensures Runs(Init(Thick, 2), moves, t)
  {
    hide Runs;
    var s0 := Init(Thick, 2);
    assert s0.threads == [Start, Start];
    var s1 := s0.(threads := [Waiting, Start]);
    var s2 := s0.(threads := [Testing, Start], lock := true);
    var s3 := s0.(threads := [Marked, Start], lock := true, attempted := true);
    var s4 := s0.(threads := [Calling, Start], lock := true, attempted := true, calls := 1);
    var s5 := mid.(threads := [Leaving(Aborted), Start], lock := true);
    RunOne(s5, m, tail, mid, t);
    RunOne(s4, m, [m] + tail, s5, t);
    var called := [m] + ([m] + tail);
    RunOne(s3, go, called, s4, t);
    RunOne(s2, go, [go] + called, s3, t);
    RunOne(s1, go, [go] + ([go] + called), s2, t);
    RunOne(s0, go, [go] + ([go] + ([go] + called)), s1, t);
    moves := [go] + ([go] + ([go] + ([go] + called)));
  }

  lemma {:induction false} RunNone(t: State)
    ensures Runs(t, [], t)
  {
  }

  lemma {:induction false} RunOne(s: State, m: Move, rest: seq<Move>, r: State, t: State)
    requires m.thread < |s.threads| && Enabled(s, m.thread) && r == StepOf(s, m.thread, m.answer)
    requires Runs(r, rest, t)
    ensures Runs(s, [m] + rest, t)
  {
    assert ([m] + rest)[1..] == rest;
  }
}
