/** Whole runs of the recursive reader/writer lock: safety for every nested use, and
    completion exactly for the uses that never upgrade a read to a write. */
module RwMutexRuns {
  import opened RwMutex

  /** `schedule` names, in order, a thread that can step at each point. */
  predicate IsRun(s: State, schedule: seq<nat>)
    decreases |schedule|
  {
    schedule == [] ||
    (schedule[0] < |s.threads| && Enabled(s, schedule[0]) && MidCall(s.threads[schedule[0]])
     && IsRun(Step(s, schedule[0]), schedule[1..]))
  }

  function Exec(s: State, schedule: seq<nat>): (r: State)
    requires IsRun(s, schedule)
    ensures |r.threads| == |s.threads|
    decreases |schedule|
  {
    if schedule == [] then s else Exec(Step(s, schedule[0]), schedule[1..])
  }

  lemma {:induction false} RunInv(s: State, schedule: seq<nat>)
    requires Inv(s) && IsRun(s, schedule)
    ensures Inv(Exec(s, schedule))
    decreases |schedule|
  {
    if schedule != [] {
      StepInv(s, schedule[0]);
      RunInv(Step(s, schedule[0]), schedule[1..]);
    }
  }

  // Safety.

  /** One writer or many readers. */
  ghost predicate Exclusive(s: State) {
    forall i, j | 0 <= i < |s.threads| && 0 <= j < |s.threads| && i != j && W in s.threads[i].held ::
      s.threads[j].held == []
  }

  lemma InvIsExclusive(s: State)
    requires Inv(s)
    ensures Exclusive(s)
  {
    forall i, j | 0 <= i < |s.threads| && 0 <= j < |s.threads| && i != j && W in s.threads[i].held
      ensures s.threads[j].held == []
    {
      assert ThreadOk(s.threads[i]) && Owns(s.threads[i]);
      assert ThreadOk(s.threads[j]) && !Owns(s.threads[j]);
      SharesAtLeast(s.threads, j);
    }
  }

  /** `write_thread` names the thread inside an outermost write, once its lock call has
      returned, and the depths are its own nesting; the slim lock is released only by a holder. */
  ghost predicate FieldsFaithful(s: State) {
    forall i | 0 <= i < |s.threads| ::
      var t := s.threads[i];
      && (t.pc == Idle ==> (W in t.held <==> s.writeThread == Somebody(i)))
      && (s.writeThread == Somebody(i) ==>
            s.writeDepth == Count(t.held, W) && s.readDepth == Count(t.held, R))
      && (t.pc == WuFree ==> s.exclusive == Somebody(i))
      && (t.pc == RuRelease ==> s.shared > 0)
  }

  lemma InvIsFaithful(s: State)
    requires Inv(s)
    ensures FieldsFaithful(s)
  {
    forall i | 0 <= i < |s.threads|
      ensures var t := s.threads[i];
        && (t.pc == Idle ==> (W in t.held <==> s.writeThread == Somebody(i)))
        && (s.writeThread == Somebody(i) ==>
              s.writeDepth == Count(t.held, W) && s.readDepth == Count(t.held, R))
        && (t.pc == WuFree ==> s.exclusive == Somebody(i))
        && (t.pc == RuRelease ==> s.shared > 0)
    {
      assert ThreadOk(s.threads[i]);
      SharesAtLeast(s.threads, i);
    }
  }

  /** Every reachable state, for any number of threads and any nested use, upgrades included. */
  lemma LockIsSafe(scripts: seq<seq<Call>>, schedule: seq<nat>)
    requires forall i | 0 <= i < |scripts| :: Nested([], scripts[i])
    requires IsRun(Initial(scripts), schedule)
    ensures var s := Exec(Initial(scripts), schedule); Exclusive(s) && FieldsFaithful(s)
  {
    InitialInv(scripts);
    RunInv(Initial(scripts), schedule);
    InvIsExclusive(Exec(Initial(scripts), schedule));
    InvIsFaithful(Exec(Initial(scripts), schedule));
  }

  // Progress.

  ghost predicate NoUpgrades(s: State) {
    forall i | 0 <= i < |s.threads| :: !Upgrades(s.threads[i].held, s.threads[i].script)
  }

  /** Whoever holds `internallock` is never waiting. */
  lemma InternalHolderRuns(s: State, i: nat)
    requires Inv(s) && s.internal == Somebody(i)
    ensures i < |s.threads| && Enabled(s, i)
  {
  }

  /** With `internallock` free, an unfinished thread that is blocked waits for `lock`. */
  lemma BlockedWaitsForLock(s: State, i: nat)
    requires Inv(s) && s.internal == Nobody && i < |s.threads|
    requires !Finished(s.threads[i]) && !Enabled(s, i)
    ensures s.threads[i].pc in {RlWait, WlWait} && !Owns(s.threads[i])
  {
    assert ThreadOk(s.threads[i]);
    assert !HoldsInternal(s.threads[i].pc);
  }

  lemma {:induction false} SomeReader(threads: seq<Thread>) returns (j: nat)
    requires TotalShares(threads) > 0
    ensures j < |threads| && Shares(threads[j]) > 0
  {
    j := |threads| - 1;
    if Shares(threads[j]) == 0 {
      j := SomeReader(threads[..j]);
    }
  }

  /** Some unfinished thread can always step. */
  lemma SomeThreadCanStep(s: State, i: nat) returns (j: nat)
    requires Inv(s) && NoUpgrades(s) && i < |s.threads| && !Finished(s.threads[i])
    ensures j < |s.threads| && Enabled(s, j)
  {
    j := i;
    if s.internal != Nobody {
      j := s.internal.id;
      InternalHolderRuns(s, j);
    } else if !Enabled(s, i) {
      BlockedWaitsForLock(s, i);
      if s.exclusive != Nobody {
        j := s.exclusive.id;
        assert Owns(s.threads[j]) && ThreadOk(s.threads[j]);
        if !Enabled(s, j) {
          BlockedWaitsForLock(s, j);
        }
      } else {
        j := SomeReader(s.threads);
        var t := s.threads[j];
        assert ThreadOk(t) && !Upgrades(t.held, t.script);
        if !Enabled(s, j) {
          BlockedWaitsForLock(s, j);
        }
      }
    }
  }

  lemma StepKeepsNoUpgrades(s: State, i: nat)
    requires Inv(s) && NoUpgrades(s) && i < |s.threads| && Enabled(s, i) && MidCall(s.threads[i])
    ensures NoUpgrades(Step(s, i))
  {
    var t, t' := s.threads[i], Step(s, i).threads[i];
    assert ThreadOk(t);
    assert !Upgrades(t'.held, t'.script);
  }

  /** An upgrading thread never gets past its upgrade, so it keeps one ahead of it. */
  lemma StepKeepsUpgrade(s: State, i: nat, j: nat)
    requires Inv(s) && i < |s.threads| && Enabled(s, i) && MidCall(s.threads[i])
    requires j < |s.threads| && Upgrades(s.threads[j].held, s.threads[j].script)
    ensures Upgrades(Step(s, i).threads[j].held, Step(s, i).threads[j].script)
  {
    if i == j {
      var t := s.threads[i];
      assert ThreadOk(t);
      if t.pc == WlWait {
        InvIsMine(s, i);
        FirstWrite(s, i);
      }
    }
  }

  lemma {:induction false} RunKeepsUpgrade(s: State, schedule: seq<nat>, j: nat)
    requires Inv(s) && IsRun(s, schedule)
    requires j < |s.threads| && Upgrades(s.threads[j].held, s.threads[j].script)
    ensures !Finished(Exec(s, schedule).threads[j])
    decreases |schedule|
  {
    if schedule != [] {
      StepInv(s, schedule[0]);
      StepKeepsUpgrade(s, schedule[0], j);
      RunKeepsUpgrade(Step(s, schedule[0]), schedule[1..], j);
    }
  }

  lemma {:induction false} RunKeepsNoUpgrades(s: State, schedule: seq<nat>)
    requires Inv(s) && NoUpgrades(s) && IsRun(s, schedule)
    ensures NoUpgrades(Exec(s, schedule))
    decreases |schedule|
  {
    if schedule != [] {
      StepInv(s, schedule[0]);
      StepKeepsNoUpgrades(s, schedule[0]);
      RunKeepsNoUpgrades(Step(s, schedule[0]), schedule[1..]);
    }
  }

  // Every run is bounded: no call takes more than seven steps.

  function Rank(pc: Pc): int {
    match pc
    case Idle => 0
    case RlCheck => -1 case RlSlow => -2 case RlWait => -3 case RlFast => 1
    case RuCheck => -1 case RuSlow => -2 case RuRelease => -3 case RuFast => 1
    case WlCheck => -1 case WlSlow => -2 case WlWait => -3 case WlFast => 1
    case WlGot => 3 case WlSet => 2 case WlDone => 1
    case WuCheck => -1 case WuFast => 1
    case WuClear => 3 case WuFree => 2 case WuDone => 1
  }

  function Work(t: Thread): int {
    7 * |t.script| + Rank(t.pc)
  }

  function TotalWork(threads: seq<Thread>): int {
    if threads == [] then 0 else TotalWork(threads[..|threads| - 1]) + Work(threads[|threads| - 1])
  }

  lemma {:induction false} WorkUpdate(threads: seq<Thread>, i: nat, t: Thread)
    requires i < |threads|
    ensures TotalWork(threads[i := t]) == TotalWork(threads) - Work(threads[i]) + Work(t)
  {
    var front := threads[..|threads| - 1];
    if i == |threads| - 1 {
      assert threads[i := t][..|threads| - 1] == front;
    } else {
      WorkUpdate(front, i, t);
      assert threads[i := t][..|threads| - 1] == front[i := t];
    }
  }

  lemma {:induction false} WorkIsNonNegative(threads: seq<Thread>)
    requires forall i | 0 <= i < |threads| :: ThreadOk(threads[i])
    ensures TotalWork(threads) >= 0
  {
    if threads != [] {
      WorkIsNonNegative(threads[..|threads| - 1]);
      assert ThreadOk(threads[|threads| - 1]);
    }
  }

  lemma StepWorks(s: State, i: nat)
    requires i < |s.threads| && Enabled(s, i) && MidCall(s.threads[i])
    ensures TotalWork(Step(s, i).threads) <= TotalWork(s.threads) - 1
  {
    var t' := Step(s, i).threads[i];
    OneThreadMoves(s, i);
    WorkUpdate(s.threads, i, t');
  }

  lemma OneThreadMoves(s: State, i: nat)
    requires i < |s.threads| && MidCall(s.threads[i])
    ensures var s' := Step(s, i); s'.threads == s.threads[i := s'.threads[i]]
    ensures Work(Step(s, i).threads[i]) < Work(s.threads[i])
  {
  }

  lemma {:induction false} RunsAreBounded(s: State, schedule: seq<nat>)
    requires Inv(s) && IsRun(s, schedule)
    ensures |schedule| <= TotalWork(s.threads)
    decreases |schedule|
  {
    if schedule == [] {
      WorkIsNonNegative(s.threads);
    } else {
      StepInv(s, schedule[0]);
      StepWorks(s, schedule[0]);
      RunsAreBounded(Step(s, schedule[0]), schedule[1..]);
    }
  }

  ghost predicate AllFinished(s: State) {
    forall i | 0 <= i < |s.threads| :: Finished(s.threads[i])
  }

  ghost predicate Stuck(s: State) {
    forall i | 0 <= i < |s.threads| :: !Enabled(s, i)
  }

  /** A run that goes on until nobody can step has finished every thread, if and only if
      no thread ever asks for a write inside its own read. */
  lemma RunsCompleteWithoutUpgrades(scripts: seq<seq<Call>>, schedule: seq<nat>)
    requires forall i | 0 <= i < |scripts| :: Nested([], scripts[i])
    requires IsRun(Initial(scripts), schedule) && Stuck(Exec(Initial(scripts), schedule))
    ensures AllFinished(Exec(Initial(scripts), schedule)) <==>
      forall i | 0 <= i < |scripts| :: !Upgrades([], scripts[i])
  {
    var s, e := Initial(scripts), Exec(Initial(scripts), schedule);
    InitialInv(scripts);
    RunInv(s, schedule);
    if i :| 0 <= i < |scripts| && Upgrades([], scripts[i]) {
      RunKeepsUpgrade(s, schedule, i);
    } else {
      RunKeepsNoUpgrades(s, schedule);
      forall i | 0 <= i < |e.threads| ensures Finished(e.threads[i]) {
        if !Finished(e.threads[i]) {
          var j := SomeThreadCanStep(e, i);
        }
      }
    }
  }

  /** Once all threads are finished the lock is as it was when it was made. */
  lemma FinishedLockIsFree(s: State)
    requires Inv(s) && AllFinished(s)
    ensures s == Initial([]).(threads := s.threads)
  {
    assert forall i | 0 <= i < |s.threads| :: ThreadOk(s.threads[i]) && s.threads[i].held == [];
    NoShares(s.threads);
  }

  /** The smallest upgrade: one thread, alone, that never gets to its end. */
  lemma OneUpgradeNeverFinishes(schedule: seq<nat>)
    requires IsRun(Initial([[ReadLock, WriteLock, WriteUnlock, ReadUnlock]]), schedule)
    ensures !AllFinished(Exec(Initial([[ReadLock, WriteLock, WriteUnlock, ReadUnlock]]), schedule))
  {
    var script := [ReadLock, WriteLock, WriteUnlock, ReadUnlock];
    var s := Initial([script]);
    assert script[1..] == [WriteLock, WriteUnlock, ReadUnlock] && script[1..][1..] == [WriteUnlock, ReadUnlock];
    assert script[1..][1..][1..] == [ReadUnlock] && [ReadUnlock][1..] == [];
    assert [] + [R] == [R] && [R] + [W] == [R, W] && [R, W][..1] == [R] && [R][..0] == [];
    assert Nested([R], [ReadUnlock]) && Nested([R, W], [WriteUnlock, ReadUnlock]) && Nested([R], script[1..]);
    assert Upgrades([R], script[1..]);
    InitialInv([script]);
    RunKeepsUpgrade(s, schedule, 0);
  }
}
