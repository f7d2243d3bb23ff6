/** The recursive reader/writer lock of cflare-windows/mutex.c as a machine over N threads.
    `internal` and `lock` are the two primitive slim locks; each step is one primitive
    acquire, release, or update made while `internallock` is held, so the gap between the
    ownership check and the acquisition of `lock` is a real gap here. */
module RwMutex {
  datatype Kind = R | W

  datatype Call = ReadLock | ReadUnlock | WriteLock | WriteUnlock

  /** Program points, named after the call (Rl, Ru, Wl, Wu) and what comes next. */
  datatype Pc =
    | Idle
    | RlCheck | RlFast | RlSlow | RlWait
    | RuCheck | RuFast | RuSlow | RuRelease
    | WlCheck | WlFast | WlSlow | WlWait | WlGot | WlSet | WlDone
    | WuCheck | WuFast | WuClear | WuFree | WuDone

  /** `held` lists the acquisitions of the thread that are in force, outermost first. A call
      leaves `script` at the step that changes `held`. */
  datatype Thread = Thread(pc: Pc, held: seq<Kind>, script: seq<Call>)

  datatype Owner = Nobody | Somebody(id: nat)

  datatype State = State(
    internal: Owner, exclusive: Owner, shared: int,
    writeThread: Owner, writeDepth: int, readDepth: int,
    threads: seq<Thread>)

  /** `script` locks and unlocks in properly nested fashion, starting inside `held`. */
  predicate Nested(held: seq<Kind>, script: seq<Call>)
    decreases |script|
  {
    if script == [] then held == []
    else
      match script[0]
      case ReadLock => Nested(held + [R], script[1..])
      case WriteLock => Nested(held + [W], script[1..])
      case ReadUnlock => held != [] && held[|held| - 1] == R && Nested(held[..|held| - 1], script[1..])
      case WriteUnlock => held != [] && held[|held| - 1] == W && Nested(held[..|held| - 1], script[1..])
  }

  /** Somewhere the script asks for a write while its outermost lock is a read. */
  predicate Upgrades(held: seq<Kind>, script: seq<Call>)
    decreases |script|
  {
    script != [] &&
    match script[0]
    case ReadLock => Upgrades(held + [R], script[1..])
    case WriteLock => (held != [] && held[0] == R) || Upgrades(held + [W], script[1..])
    case ReadUnlock => held != [] && Upgrades(held[..|held| - 1], script[1..])
    case WriteUnlock => held != [] && Upgrades(held[..|held| - 1], script[1..])
  }

  function Initial(scripts: seq<seq<Call>>): State {
    State(Nobody, Nobody, 0, Nobody, 0, 0,
          seq(|scripts|, i requires 0 <= i < |scripts| => Thread(Idle, [], scripts[i])))
  }

  predicate Finished(t: Thread) {
    t.pc == Idle && t.script == []
  }

  /** Whether thread `i` has a step: only the acquisitions of the primitive locks can block. */
  predicate Enabled(s: State, i: nat)
    requires i < |s.threads|
  {
    var t := s.threads[i];
    match t.pc
    case Idle => t.script != [] && s.internal == Nobody
    case RlWait => s.exclusive == Nobody
    case WlWait => s.exclusive == Nobody && s.shared == 0
    case WlGot => s.internal == Nobody
    case _ => true
  }

  function Entry(c: Call): Pc {
    match c
    case ReadLock => RlCheck
    case ReadUnlock => RuCheck
    case WriteLock => WlCheck
    case WriteUnlock => WuCheck
  }

  function Goto(s: State, i: nat, pc: Pc): State
    requires i < |s.threads|
  {
    s.(threads := s.threads[i := s.threads[i].(pc := pc)])
  }

  /** The step at which the current call changes what the thread holds. */
  function Take(s: State, i: nat, pc: Pc, k: Kind): State
    requires i < |s.threads| && s.threads[i].script != []
  {
    var t := s.threads[i];
    s.(threads := s.threads[i := Thread(pc, t.held + [k], t.script[1..])])
  }

  function Drop(s: State, i: nat, pc: Pc): State
    requires i < |s.threads| && s.threads[i].script != []
  {
    var t := s.threads[i];
    s.(threads := s.threads[i := Thread(pc, if t.held == [] then [] else t.held[..|t.held| - 1], t.script[1..])])
  }

  predicate MidCall(t: Thread) {
    match t.pc
    case Idle => t.script != []
    case RlCheck => t.script != [] && t.script[0] == ReadLock
    case RlSlow => t.script != [] && t.script[0] == ReadLock
    case RlWait => t.script != [] && t.script[0] == ReadLock
    case RuCheck => t.script != [] && t.script[0] == ReadUnlock
    case RuSlow => t.script != [] && t.script[0] == ReadUnlock
    case RuRelease => t.script != [] && t.script[0] == ReadUnlock
    case WlCheck => t.script != [] && t.script[0] == WriteLock
    case WlSlow => t.script != [] && t.script[0] == WriteLock
    case WlWait => t.script != [] && t.script[0] == WriteLock
    case WuCheck => t.script != [] && t.script[0] == WriteUnlock
    case _ => true
  }

  /** One step of thread `i`. */
  function Step(s: State, i: nat): State
    requires i < |s.threads| && MidCall(s.threads[i])
  {
    var t, me := s.threads[i], Somebody(i);
    match t.pc
    case Idle => Goto(s, i, Entry(t.script[0])).(internal := me)

    case RlCheck =>
      if s.writeThread == me then Take(s, i, RlFast, R).(readDepth := s.readDepth + 1)
      else Goto(s, i, RlSlow)
    case RlFast => Goto(s, i, Idle).(internal := Nobody)
    case RlSlow => Goto(s, i, RlWait).(internal := Nobody)
    case RlWait => Take(s, i, Idle, R).(shared := s.shared + 1)

    case RuCheck =>
      if s.writeThread == me then Drop(s, i, RuFast).(readDepth := s.readDepth - 1)
      else Goto(s, i, RuSlow)
    case RuFast => Goto(s, i, Idle).(internal := Nobody)
    case RuSlow => Goto(s, i, RuRelease).(internal := Nobody)
    case RuRelease => Drop(s, i, Idle).(shared := s.shared - 1)

    case WlCheck =>
      if s.writeThread == me then Take(s, i, WlFast, W).(writeDepth := s.writeDepth + 1)
      else Goto(s, i, WlSlow)
    case WlFast => Goto(s, i, Idle).(internal := Nobody)
    case WlSlow => Goto(s, i, WlWait).(internal := Nobody)
    case WlWait => Take(s, i, WlGot, W).(exclusive := me)
    case WlGot => Goto(s, i, WlSet).(internal := me)
    case WlSet => Goto(s, i, WlDone).(writeThread := me, writeDepth := 1)
    case WlDone => Goto(s, i, Idle).(internal := Nobody)

    case WuCheck =>
      if s.writeThread == me then
        Drop(s, i, if s.writeDepth - 1 > 0 then WuFast else WuClear).(writeDepth := s.writeDepth - 1)
      else Drop(s, i, WuClear)
    case WuFast => Goto(s, i, Idle).(internal := Nobody)
    case WuClear => Goto(s, i, WuFree).(writeThread := Nobody)
    case WuFree => Goto(s, i, WuDone).(exclusive := Nobody)
    case WuDone => Goto(s, i, Idle).(internal := Nobody)
  }

  // What every reachable state keeps.

  predicate HoldsInternal(pc: Pc) {
    !(pc in {Idle, RlWait, RuRelease, WlWait, WlGot})
  }

  /** The thread owns `lock` exclusively. */
  predicate Owns(t: Thread) {
    (t.held != [] && t.held[0] == W) || t.pc in {WuClear, WuFree}
  }

  /** The thread is the one recorded in `write_thread`. */
  predicate Recorded(t: Thread) {
    Owns(t) && !(t.pc in {WlGot, WlSet, WuFree})
  }

  function Count(held: seq<Kind>, k: Kind): nat {
    if held == [] then 0 else Count(held[..|held| - 1], k) + if held[|held| - 1] == k then 1 else 0
  }

  /** How often the thread holds `lock` shared. */
  function Shares(t: Thread): nat {
    if t.held != [] && t.held[0] == R then |t.held| else 0
  }

  function TotalShares(threads: seq<Thread>): nat {
    if threads == [] then 0 else TotalShares(threads[..|threads| - 1]) + Shares(threads[|threads| - 1])
  }

  predicate ThreadOk(t: Thread) {
    && Nested(t.held, t.script)
    && (t.held != [] && t.held[0] == R ==> forall k | 0 <= k < |t.held| :: t.held[k] == R)
    && (t.pc == Idle || MidCall(t))
    && (t.pc in {RlFast, RuFast, WlFast, WuFast} ==> t.held != [] && t.held[0] == W)
    && (t.pc in {WlGot, WlSet, WlDone} ==> t.held == [W])
    && (t.pc in {WuClear, WuFree, WuDone} ==> t.held == [])
    && (t.pc in {RlSlow, RlWait, RuSlow, RuRelease, WlSlow, WlWait} ==> !Owns(t))
  }

  /** The three owners are right about thread `j`. */
  ghost predicate FlagsOk(s: State, j: nat)
    requires j < |s.threads|
  {
    && (HoldsInternal(s.threads[j].pc) <==> s.internal == Somebody(j))
    && (Owns(s.threads[j]) <==> s.exclusive == Somebody(j))
    && (Recorded(s.threads[j]) <==> s.writeThread == Somebody(j))
  }

  ghost predicate Inv(s: State) {
    && (forall i | 0 <= i < |s.threads| :: ThreadOk(s.threads[i]))
    && (forall i | 0 <= i < |s.threads| :: HoldsInternal(s.threads[i].pc) <==> s.internal == Somebody(i))
    && (forall i | 0 <= i < |s.threads| :: Owns(s.threads[i]) <==> s.exclusive == Somebody(i))
    && (forall i | 0 <= i < |s.threads| :: Recorded(s.threads[i]) <==> s.writeThread == Somebody(i))
    && (s.internal != Nobody ==> s.internal.id < |s.threads|)
    && (s.exclusive != Nobody ==> s.exclusive.id < |s.threads| && s.shared == 0)
    && s.shared == TotalShares(s.threads)
    && DepthsOk(s)
  }

  lemma {:induction false} SharesUpdate(threads: seq<Thread>, i: nat, t: Thread)
    requires i < |threads|
    ensures TotalShares(threads[i := t]) == TotalShares(threads) - Shares(threads[i]) + Shares(t)
  {
    var front := threads[..|threads| - 1];
    if i == |threads| - 1 {
      assert threads[i := t][..|threads| - 1] == front;
    } else {
      SharesUpdate(front, i, t);
      assert threads[i := t][..|threads| - 1] == front[i := t];
    }
  }

  lemma {:induction false} SharesAtLeast(threads: seq<Thread>, i: nat)
    requires i < |threads|
    ensures TotalShares(threads) >= Shares(threads[i])
  {
    if i < |threads| - 1 {
      SharesAtLeast(threads[..|threads| - 1], i);
    }
  }

  lemma CountEnds(held: seq<Kind>, k: Kind, x: Kind)
    ensures Count(held + [x], k) == Count(held, k) + if x == k then 1 else 0
  {
    assert (held + [x])[..|held|] == held;
  }

  /** A nest with a write at its bottom counts it, however much is stacked on top. */
  lemma {:induction false} BottomCounts(held: seq<Kind>)
    ensures held != [] && held[0] == W ==> Count(held, W) >= 1
    ensures held != [] && held[0] == W && held[|held| - 1] == W && Count(held, W) == 1 && Count(held, R) == 0 ==>
      held == [W]
    ensures Count(held, W) + Count(held, R) == |held|
  {
    if |held| > 1 {
      BottomCounts(held[..|held| - 1]);
    }
  }

  lemma InitialInv(scripts: seq<seq<Call>>)
    requires forall i | 0 <= i < |scripts| :: Nested([], scripts[i])
    ensures Inv(Initial(scripts))
  {
    NoShares(Initial(scripts).threads);
  }

  lemma {:induction false} NoShares(threads: seq<Thread>)
    requires forall i | 0 <= i < |threads| :: threads[i].held == []
    ensures TotalShares(threads) == 0
  {
    if threads != [] {
      NoShares(threads[..|threads| - 1]);
    }
  }

  /** The depth fields say how the recorded thread is nested. */
  ghost predicate DepthsOk(s: State) {
    match s.writeThread
    case Nobody => s.writeDepth == s.readDepth == 0
    case Somebody(i) =>
      && i < |s.threads|
      && s.writeDepth == Count(s.threads[i].held, W)
      && s.readDepth == Count(s.threads[i].held, R)
  }

  /** What the invariant says of thread `i`. */
  ghost predicate Mine(s: State, i: nat) {
    && i < |s.threads| && ThreadOk(s.threads[i])
    && FlagsOk(s, i)
    && (s.exclusive != Nobody ==> s.shared == 0)
    && (s.writeThread != Nobody ==> s.exclusive == s.writeThread)
    && s.shared >= Shares(s.threads[i])
    && DepthsOk(s)
  }

  lemma InvIsMine(s: State, i: nat)
    requires Inv(s) && i < |s.threads|
    ensures Mine(s, i)
  {
    SharesAtLeast(s.threads, i);
  }

  /** One of the owners, before and after a step of thread `i`. */
  predicate PassesHand(was: Owner, now: Owner, i: nat) {
    now == was || (was == Nobody && now == Somebody(i)) || (was == Somebody(i) && now == Nobody)
  }

  /** A step that is right as far as thread `i` is concerned. */
  ghost predicate LocalStep(s: State, s': State, i: nat) {
    && i < |s.threads| == |s'.threads| && s'.threads == s.threads[i := s'.threads[i]]
    && FlagsOk(s', i) && ThreadOk(s'.threads[i])
    && s'.shared == s.shared - Shares(s.threads[i]) + Shares(s'.threads[i])
    && PassesHand(s.internal, s'.internal, i)
    && PassesHand(s.exclusive, s'.exclusive, i)
    && PassesHand(s.writeThread, s'.writeThread, i)
    && (s'.exclusive != Nobody ==> s'.shared == 0)
    && DepthsOk(s')
  }

  lemma LocalStepInv(s: State, s': State, i: nat)
    requires Inv(s) && LocalStep(s, s', i)
    ensures Inv(s')
  {
    SharesUpdate(s.threads, i, s'.threads[i]);
    forall j | 0 <= j < |s'.threads| ensures FlagsOk(s', j) && ThreadOk(s'.threads[j]) {
      FlagsStay(s, s', i, j);
    }
  }

  lemma FlagsStay(s: State, s': State, i: nat, j: nat)
    requires Inv(s) && LocalStep(s, s', i) && j < |s.threads|
    ensures FlagsOk(s', j) && ThreadOk(s'.threads[j])
  {
    assert i != j ==> FlagsOk(s, j);
  }

  lemma StepInv(s: State, i: nat)
    requires Inv(s) && i < |s.threads| && Enabled(s, i)
    ensures MidCall(s.threads[i]) && Inv(Step(s, i))
  {
    InvIsMine(s, i);
    StepIsLocal(s, i);
    LocalStepInv(s, Step(s, i), i);
  }

  lemma StepIsLocal(s: State, i: nat)
    requires Mine(s, i) && Enabled(s, i)
    ensures MidCall(s.threads[i]) && LocalStep(s, Step(s, i), i)
  {
    match s.threads[i].pc {
      case Idle => Enter(s, i);
      case RlCheck => ReadLockStep(s, i);
      case RlWait => SharedRead(s, i);
      case RuCheck => ReadUnlockStep(s, i);
      case RuRelease => ReleaseShared(s, i);
      case WlCheck => WriteLockStep(s, i);
      case WlWait => FirstWrite(s, i);
      case WlGot => Enter(s, i);
      case WlSet => RecordWrite(s, i);
      case WuCheck => WriteRelease(s, i);
      case WuClear => GiveBack(s, i);
      case WuFree => GiveBack(s, i);
      case RlSlow => GoAndWait(s, i);
      case RuSlow => GoAndWait(s, i);
      case WlSlow => GoAndWait(s, i);
      case _ => Leave(s, i);
    }
  }

  lemma Enter(s: State, i: nat)
    requires Mine(s, i) && Enabled(s, i) && s.threads[i].pc in {Idle, WlGot}
    ensures LocalStep(s, Step(s, i), i)
  {
  }

  lemma Leave(s: State, i: nat)
    requires Mine(s, i) && s.threads[i].pc in {RlFast, RuFast, WlFast, WlDone, WuFast, WuDone}
    ensures LocalStep(s, Step(s, i), i)
  {
    assert Step(s, i) == Goto(s, i, Idle).(internal := Nobody);
  }

  lemma GoAndWait(s: State, i: nat)
    requires Mine(s, i) && s.threads[i].pc in {RlSlow, RuSlow, WlSlow}
    ensures LocalStep(s, Step(s, i), i)
  {
  }

  lemma ReadLockStep(s: State, i: nat)
    requires Mine(s, i) && s.threads[i].pc == RlCheck
    ensures LocalStep(s, Step(s, i), i)
  {
    if s.writeThread == Somebody(i) {
      NestedRead(s, i);
    }
  }

  /** A read inside the thread's own write. */
  lemma NestedRead(s: State, i: nat)
    requires Mine(s, i) && s.threads[i].pc == RlCheck && s.writeThread == Somebody(i)
    ensures LocalStep(s, Step(s, i), i)
  {
    var t := s.threads[i];
    CountEnds(t.held, R, R);
    CountEnds(t.held, W, R);
    var t' := Thread(RlFast, t.held + [R], t.script[1..]);
    assert Step(s, i) == s.(threads := s.threads[i := t'], readDepth := s.readDepth + 1);
    assert t'.held[0] == W && ThreadOk(t') && Shares(t') == 0;
  }

  /** Acquiring `lock` shared. */
  lemma SharedRead(s: State, i: nat)
    requires Mine(s, i) && Enabled(s, i) && s.threads[i].pc == RlWait
    ensures LocalStep(s, Step(s, i), i)
  {
    var t := s.threads[i];
    var t' := Thread(Idle, t.held + [R], t.script[1..]);
    assert Step(s, i) == s.(threads := s.threads[i := t'], shared := s.shared + 1);
    AllReads(t.held);
    assert ThreadOk(t') && Shares(t') == Shares(t) + 1 && !Owns(t');
  }

  lemma AllReads(held: seq<Kind>)
    requires held != [] ==> held[0] == R && forall k | 0 <= k < |held| :: held[k] == R
    ensures (held + [R])[0] == R && forall k | 0 <= k < |held + [R]| :: (held + [R])[k] == R
  {
  }

  lemma ReadUnlockStep(s: State, i: nat)
    requires Mine(s, i) && s.threads[i].pc == RuCheck
    ensures LocalStep(s, Step(s, i), i)
  {
  }

  lemma ReleaseShared(s: State, i: nat)
    requires Mine(s, i) && s.threads[i].pc == RuRelease
    ensures LocalStep(s, Step(s, i), i)
  {
  }

  lemma WriteLockStep(s: State, i: nat)
    requires Mine(s, i) && s.threads[i].pc == WlCheck
    ensures LocalStep(s, Step(s, i), i)
  {
    if s.writeThread == Somebody(i) {
      NestedWrite(s, i);
    }
  }

  /** A write inside the thread's own write. */
  lemma NestedWrite(s: State, i: nat)
    requires Mine(s, i) && s.threads[i].pc == WlCheck && s.writeThread == Somebody(i)
    ensures LocalStep(s, Step(s, i), i)
  {
    var t := s.threads[i];
    CountEnds(t.held, R, W);
    CountEnds(t.held, W, W);
    var t' := Thread(WlFast, t.held + [W], t.script[1..]);
    assert Step(s, i) == s.(threads := s.threads[i := t'], writeDepth := s.writeDepth + 1);
    assert t'.held[0] == W && ThreadOk(t') && Shares(t') == 0;
  }

  /** Acquiring `lock` exclusively: the thread cannot be one of its own readers. */
  lemma FirstWrite(s: State, i: nat)
    requires Mine(s, i) && Enabled(s, i) && s.threads[i].pc == WlWait
    ensures s.threads[i].held == [] && LocalStep(s, Step(s, i), i)
  {
    var t := s.threads[i];
    var t' := Thread(WlGot, [W], t.script[1..]);
    assert [] + [W] == [W] && Step(s, i) == s.(threads := s.threads[i := t'], exclusive := Somebody(i));
    assert ThreadOk(t') && Owns(t') && !Recorded(t') && Shares(t') == 0;
  }

  lemma RecordWrite(s: State, i: nat)
    requires Mine(s, i) && s.threads[i].pc == WlSet
    ensures LocalStep(s, Step(s, i), i)
  {
    var t := s.threads[i];
    assert Count([W], W) == 1 && Count([W], R) == 0 by {
      CountEnds([], W, W);
      CountEnds([], R, W);
      assert [] + [W] == [W];
    }
    var t' := t.(pc := WlDone);
    assert Step(s, i) == s.(threads := s.threads[i := t'], writeThread := Somebody(i), writeDepth := 1);
  }

  lemma GiveBack(s: State, i: nat)
    requires Mine(s, i) && s.threads[i].pc in {WuClear, WuFree}
    ensures LocalStep(s, Step(s, i), i)
  {
  }

  /** One write less; the last one starts to give the lock back. */
  lemma WriteRelease(s: State, i: nat)
    requires Mine(s, i) && s.threads[i].pc == WuCheck
    ensures LocalStep(s, Step(s, i), i)
  {
    var t := s.threads[i];
    assert t.held != [] && t.held[|t.held| - 1] == W && t.held[0] == W;
    var front := t.held[..|t.held| - 1];
    BottomCounts(front);
    var t' := Thread(if s.writeDepth - 1 > 0 then WuFast else WuClear, front, t.script[1..]);
    assert Step(s, i) == s.(threads := s.threads[i := t'], writeDepth := s.writeDepth - 1);
    assert s.writeDepth - 1 == Count(front, W);
    assert ThreadOk(t') && Owns(t') && Recorded(t') && Shares(t') == 0;
  }
}
