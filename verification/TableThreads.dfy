/** Threads sharing one table. The size check of set reads `count` and `buckets_count`
    without the lock; the rebuild it asks for and the body are two separate locked steps,
    so a rebuild may use a size that other threads have made stale. */
module TableThreads {
  import opened Options
  import opened Hashes
  import opened Chains
  import opened TableSpec
  import opened HashTables
  import opened TableRuns

  /** Where a thread stands in its current call, with what it has read so far. */
  datatype Pc =
    | Idle
    | HaveCount(count: nat)
    | MustResize
    | WillRebuild(size: nat)
    | Checked
    | Ready
    | Aborted

  datatype Thread = Thread(script: seq<Op>, done: nat, pc: Pc)

  datatype Event = Event(thread: nat, op: Op, answer: Option<Bytes>)

  datatype State = State(table: Table, threads: seq<Thread>, history: seq<Event>)

  function Initial(scripts: seq<seq<Op>>): State {
    State(NEW_TABLE, seq(|scripts|, i requires 0 <= i < |scripts| => Thread(scripts[i], 0, Idle)), [])
  }

  /** A step takes the call further, or finishes it. */
  datatype Outcome = Moves(pc: Pc) | Finishes(answer: Option<Bytes>)

  datatype Effect = Effect(table: Table, outcome: Outcome)

  /** A lookup and a direct rebuild are one step; an update first reads the count. */
  function Beginning(t: Table, op: Op): Outcome {
    match op
    case OpGet(h) => Finishes(if h in t.entries then Some(t.entries[h].bytes) else None)
    case OpRebuild(size) => Finishes(None)
    case _ => Moves(HaveCount(|t.entries|))
  }

  /** The locked body. */
  function AfterBody(t: Table, op: Op): Table {
    match op
    case OpSet(h, value) => Stored(t, h, value)
    case OpRemove(h) => Removed(t, h)
    case _ => t
  }

  /** One atomic step of the call `op` at `pc`. */
  function Act(t: Table, op: Op, pc: Pc): Effect {
    match pc
    case Idle => Effect(if op.OpRebuild? then Rebuilt(t, op.size) else t, Beginning(t, op))
    case HaveCount(count) =>
      var resize := if op.OpSet? then count + 1 > t.buckets * 2 else Predecessor(count) < t.buckets / 8;
      Effect(t, Moves(if resize then MustResize else Checked))
    case MustResize =>
      var size :=
        if !op.OpSet? then t.buckets / 4
        else if t.buckets * 4 < START_SIZE then START_SIZE
        else t.buckets * 4;
      Effect(t, Moves(if op.OpSet? || size > START_SIZE then WillRebuild(size) else Checked))
    case WillRebuild(size) => Effect(Rebuilt(t, size), Moves(Checked))
    case Checked => Effect(t, Moves(if t.buckets > 0 then Ready else Aborted))
    case Ready => Effect(AfterBody(t, op), Finishes(None))
    case Aborted => Effect(t, Moves(Aborted))
  }

  /** What a step of thread `i` does to the thread and to the history of finished calls. */
  function Settled(t: Thread, outcome: Outcome): Thread {
    match outcome
    case Moves(pc) => t.(pc := pc)
    case Finishes(_) => t.(done := t.done + 1, pc := Idle)
  }

  function Recorded(history: seq<Event>, i: nat, op: Op, outcome: Outcome): seq<Event> {
    match outcome
    case Moves(_) => history
    case Finishes(answer) => history + [Event(i, op, answer)]
  }

  function After(s: State, i: nat, e: Effect): State
    requires i < |s.threads| && s.threads[i].done < |s.threads[i].script|
  {
    var t := s.threads[i];
    State(e.table, s.threads[i := Settled(t, e.outcome)], Recorded(s.history, i, t.script[t.done], e.outcome))
  }

  /** One atomic step of thread `i`. */
  function Step(s: State, i: nat): State
    requires i < |s.threads|
  {
    var t := s.threads[i];
    if t.done >= |t.script| then s else After(s, i, Act(s.table, t.script[t.done], t.pc))
  }

  function Exec(s: State, schedule: seq<nat>): State
    requires forall k | 0 <= k < |schedule| :: schedule[k] < |s.threads|
    ensures |Exec(s, schedule).threads| == |s.threads|
  {
    if schedule == [] then s
    else Step(Exec(s, schedule[..|schedule| - 1]), schedule[|schedule| - 1])
  }

  function Ops(history: seq<Event>): seq<Op> {
    seq(|history|, k requires 0 <= k < |history| => history[k].op)
  }

  /** The operations thread `i` has completed, in the order they took effect. */
  function OpsOf(history: seq<Event>, i: nat): seq<Op> {
    if history == [] then []
    else
      var e := history[|history| - 1];
      OpsOf(history[..|history| - 1], i) + if e.thread == i then [e.op] else []
  }

  /** The history is a legal run of one plain map: each lookup answers by the updates before it. */
  ghost predicate Legal(history: seq<Event>) {
    forall k | 0 <= k < |history| && history[k].op.OpGet? ::
      var m, h := PlainRun(map[], Ops(history[..k])), history[k].op.h;
      history[k].answer == if h in m then Some(m[h]) else None
  }

  /** What a call at `pc` may rely on. */
  predicate PcOk(t: Table, op: Op, pc: Pc) {
    && (op.OpRebuild? ==> op.size > 0)
    && (pc != Idle ==> op.OpSet? || op.OpRemove?)
    && (pc.WillRebuild? ==> pc.size > 0)
    && (pc == Ready ==> t.buckets > 0)
    && (pc == Checked && op.OpSet? ==> t.buckets > 0)
    && (pc == Aborted ==> op.OpRemove?)
  }

  ghost predicate ThreadOk(s: State, i: nat)
    requires i < |s.threads|
  {
    var t := s.threads[i];
    && t.done <= |t.script|
    && OpsOf(s.history, i) == t.script[..t.done]
    && (forall k | 0 <= k < |t.script| && t.script[k].OpRebuild? :: t.script[k].size > 0)
    && (if t.done < |t.script| then PcOk(s.table, t.script[t.done], t.pc) else t.pc == Idle)
  }

  ghost predicate Inv(s: State) {
    && (forall i | 0 <= i < |s.threads| :: ThreadOk(s, i))
    && Contents(s.table) == PlainRun(map[], Ops(s.history))
    && Legal(s.history)
    && Balanced(s.table)
  }

  lemma InitialInv(scripts: seq<seq<Op>>)
    requires forall i, k | 0 <= i < |scripts| && 0 <= k < |scripts[i]| && scripts[i][k].OpRebuild? ::
      scripts[i][k].size > 0
    ensures Inv(Initial(scripts))
  {
    assert Contents(NEW_TABLE) == map[];
  }

  /** What the table is after a step that keeps the other threads' calls sound. */
  ghost predicate TableOk(t: Table, e: Effect, op: Op) {
    && Balanced(e.table) && (t.buckets > 0 ==> e.table.buckets > 0)
    && (e.outcome.Moves? ==> Contents(e.table) == Contents(t) && PcOk(e.table, op, e.outcome.pc))
    && (e.outcome.Finishes? ==>
          && Contents(e.table) == PlainStep(Contents(t), op)
          && (op.OpGet? ==>
                e.outcome.answer == if op.h in Contents(t) then Some(Contents(t)[op.h]) else None))
  }

  /** Only rebuilds and bodies touch the table, and only finished calls change the map. */
  lemma ActIsSound(t: Table, op: Op, pc: Pc)
    requires Balanced(t) && PcOk(t, op, pc)
    ensures TableOk(t, Act(t, op, pc), op)
  {
    match pc {
      case Idle => RebuiltIsSound(t, if op.OpRebuild? then op.size else 1);
      case WillRebuild(size) => RebuiltIsSound(t, size);
      case Ready => BodyIsSound(t, op);
      case _ =>
    }
  }

  lemma RebuiltIsSound(t: Table, size: nat)
    requires Balanced(t) && size > 0
    ensures Balanced(Rebuilt(t, size)) && Contents(Rebuilt(t, size)) == Contents(t)
  {
  }

  lemma BodyIsSound(t: Table, op: Op)
    requires Balanced(t) && (op.OpSet? || op.OpRemove?)
    ensures Balanced(AfterBody(t, op)) && AfterBody(t, op).buckets == t.buckets
    ensures Contents(AfterBody(t, op)) == PlainStep(Contents(t), op)
  {
    BodyContents(t, op.h, if op.OpSet? then op.value else []);
    if op.OpSet? {
      StoredKeepsBalance(t, op.h, op.value);
    } else {
      RemovedKeepsBalance(t, op.h);
    }
  }

  lemma OpsSnoc(history: seq<Event>, event: Event)
    ensures PlainRun(map[], Ops(history + [event])) == PlainStep(PlainRun(map[], Ops(history)), event.op)
    ensures forall j :: OpsOf(history + [event], j) == OpsOf(history, j) + if event.thread == j then [event.op] else []
  {
    assert (history + [event])[..|history|] == history;
    assert Ops(history + [event])[..|history|] == Ops(history);
  }

  lemma LegalSnoc(history: seq<Event>, event: Event)
    requires Legal(history)
    requires event.op.OpGet? ==>
      var m, h := PlainRun(map[], Ops(history)), event.op.h; event.answer == if h in m then Some(m[h]) else None
    ensures Legal(history + [event])
  {
    var all := history + [event];
    forall k | 0 <= k < |all| && all[k].op.OpGet?
      ensures var m, h := PlainRun(map[], Ops(all[..k])), all[k].op.h;
        all[k].answer == if h in m then Some(m[h]) else None
    {
      assert all[..k] == history[..k];
      assert history[..|history|] == history;
    }
  }

  lemma StepInv(s: State, i: nat)
    requires Inv(s) && i < |s.threads|
    ensures Inv(Step(s, i))
  {
    var t := s.threads[i];
    assert ThreadOk(s, i);
    if t.done < |t.script| {
      var op := t.script[t.done];
      var e := Act(s.table, op, t.pc);
      ActIsSound(s.table, op, t.pc);
      HistoryIsSound(s, i, e);
      ThreadStaysSound(s, i, e);
      forall j | 0 <= j < |s.threads| && j != i ensures ThreadOk(After(s, i, e), j) {
        OthersStaySound(s, i, e, j);
      }
    }
  }

  /** A call that finishes appends one legal event. */
  lemma HistoryIsSound(s: State, i: nat, e: Effect)
    requires Inv(s) && i < |s.threads| && s.threads[i].done < |s.threads[i].script|
    requires TableOk(s.table, e, s.threads[i].script[s.threads[i].done])
    ensures var history := Recorded(s.history, i, s.threads[i].script[s.threads[i].done], e.outcome);
      Contents(e.table) == PlainRun(map[], Ops(history)) && Legal(history)
  {
    if e.outcome.Finishes? {
      var event := Event(i, s.threads[i].script[s.threads[i].done], e.outcome.answer);
      OpsSnoc(s.history, event);
      LegalSnoc(s.history, event);
    }
  }

  /** The event belongs to its thread. */
  lemma ThreadStaysSound(s: State, i: nat, e: Effect)
    requires i < |s.threads| && ThreadOk(s, i) && s.threads[i].done < |s.threads[i].script|
    requires TableOk(s.table, e, s.threads[i].script[s.threads[i].done])
    ensures ThreadOk(After(s, i, e), i)
  {
    var t := s.threads[i];
    if e.outcome.Finishes? {
      OpsSnoc(s.history, Event(i, t.script[t.done], e.outcome.answer));
      assert t.script[..t.done + 1] == t.script[..t.done] + [t.script[t.done]];
    }
  }

  lemma OthersStaySound(s: State, i: nat, e: Effect, j: nat)
    requires i < |s.threads| && s.threads[i].done < |s.threads[i].script|
    requires i != j && j < |s.threads| && ThreadOk(s, j)
    requires s.table.buckets > 0 ==> e.table.buckets > 0
    ensures ThreadOk(After(s, i, e), j)
  {
    var t := s.threads[i];
    if e.outcome.Finishes? {
      OpsSnoc(s.history, Event(i, t.script[t.done], e.outcome.answer));
    }
  }

  lemma {:induction false} ExecInv(s: State, schedule: seq<nat>)
    requires Inv(s) && forall k | 0 <= k < |schedule| :: schedule[k] < |s.threads|
    ensures Inv(Exec(s, schedule))
  {
    if schedule != [] {
      ExecInv(s, schedule[..|schedule| - 1]);
      StepInv(Exec(s, schedule[..|schedule| - 1]), schedule[|schedule| - 1]);
    }
  }

  lemma {:induction false} ScriptsStay(s: State, schedule: seq<nat>, i: nat)
    requires i < |s.threads| && forall k | 0 <= k < |schedule| :: schedule[k] < |s.threads|
    ensures Exec(s, schedule).threads[i].script == s.threads[i].script
  {
    if schedule != [] {
      ScriptsStay(s, schedule[..|schedule| - 1], i);
    }
  }

  /** Under any interleaving, the calls that have taken effect are a legal sequential run of one
      map, in the order of their locked bodies; the table holds that map and owns its buffers. */
  lemma CallsAreLinearizable(scripts: seq<seq<Op>>, schedule: seq<nat>)
    requires forall i, k | 0 <= i < |scripts| && 0 <= k < |scripts[i]| && scripts[i][k].OpRebuild? ::
      scripts[i][k].size > 0
    requires forall k | 0 <= k < |schedule| :: schedule[k] < |scripts|
    ensures var s := Exec(Initial(scripts), schedule);
      Legal(s.history) && Contents(s.table) == PlainRun(map[], Ops(s.history)) && Balanced(s.table)
  {
    InitialInv(scripts);
    ExecInv(Initial(scripts), schedule);
  }

  /** The history keeps each thread's own order; the bucket index of a body about to run is in
      range; and only a removal can abort, never a set. */
  lemma ThreadsRunInOrder(scripts: seq<seq<Op>>, schedule: seq<nat>, i: nat)
    requires forall i, k | 0 <= i < |scripts| && 0 <= k < |scripts[i]| && scripts[i][k].OpRebuild? ::
      scripts[i][k].size > 0
    requires i < |scripts| && forall k | 0 <= k < |schedule| :: schedule[k] < |scripts|
    ensures var s := Exec(Initial(scripts), schedule); var t := s.threads[i];
      && t.done <= |scripts[i]| && OpsOf(s.history, i) == scripts[i][..t.done]
      && (t.pc == Ready ==> s.table.buckets > 0)
      && (t.pc == Aborted ==> t.done < |scripts[i]| && scripts[i][t.done].OpRemove?)
  {
    InitialInv(scripts);
    ExecInv(Initial(scripts), schedule);
    ScriptsStay(Initial(scripts), schedule, i);
    assert ThreadOk(Exec(Initial(scripts), schedule), i);
  }

  // Calls that run one after the other.

  function Times(i: nat, n: nat): (schedule: seq<nat>)
    ensures forall k | 0 <= k < |schedule| :: schedule[k] == i
  {
    seq(n, _ => i)
  }

  /** `n` steps of thread `i` and of no other. */
  function Alone(s: State, i: nat, n: nat): (s': State)
    requires i < |s.threads|
    ensures |s'.threads| == |s.threads|
  {
    if n == 0 then s else Step(Alone(s, i, n - 1), i)
  }

  lemma {:induction false} AloneIsExec(s: State, i: nat, n: nat)
    requires i < |s.threads|
    ensures Exec(s, Times(i, n)) == Alone(s, i, n)
  {
    if n > 0 {
      assert Times(i, n)[..n - 1] == Times(i, n - 1);
      AloneIsExec(s, i, n - 1);
    }
  }

  /** The call of thread `i` has come to `pc`, and has left the table so. */
  function Stage(s: State, i: nat, table: Table, pc: Pc): State
    requires i < |s.threads|
  {
    State(table, s.threads[i := s.threads[i].(pc := pc)], s.history)
  }

  /** It has ended. */
  function Ended(s: State, i: nat, table: Table, answer: Option<Bytes>): State
    requires i < |s.threads| && s.threads[i].done < |s.threads[i].script|
  {
    var t := s.threads[i];
    State(table, s.threads[i := t.(done := t.done + 1, pc := Idle)],
          s.history + [Event(i, t.script[t.done], answer)])
  }

  lemma StageStep(s: State, i: nat, table: Table, pc: Pc)
    requires i < |s.threads| && s.threads[i].done < |s.threads[i].script|
    ensures var t := s.threads[i]; var op := t.script[t.done]; var e := Act(table, op, pc);
      && (e.outcome.Moves? ==> Step(Stage(s, i, table, pc), i) == Stage(s, i, e.table, e.outcome.pc))
      && (e.outcome.Finishes? ==> Step(Stage(s, i, table, pc), i) == Ended(s, i, e.table, e.outcome.answer))
  {
    var t := s.threads[i];
    var next := Settled(t, Act(table, t.script[t.done], pc).outcome);
    assert s.threads[i := t.(pc := pc)][i := next] == s.threads[i := next];
  }

  /** The table at `pc` of a call that began on `t0` and has not been disturbed. */
  predicate Midway(t0: Table, op: Op, pc: Pc, t: Table) {
    (op.OpSet? || op.OpRemove?) &&
    var r := if op.OpSet? then Grow(|t0.entries|, t0.buckets) else Shrink(|t0.entries|, t0.buckets);
    match pc
    case Idle => t == t0
    case HaveCount(count) => t == t0 && count == |t0.entries|
    case MustResize => t == t0 && if op.OpSet? then r.To? else Predecessor(|t0.entries|) < t0.buckets / 8
    case WillRebuild(size) => t == t0 && r == To(size)
    case Checked => t == Resized(t0, r)
    case Ready => t == Resized(t0, r) && t.buckets > 0
    case Aborted => t == t0 && op.OpRemove? && t0.buckets == 0
  }

  function StepsLeft(pc: Pc): nat {
    match pc
    case Idle => 6
    case HaveCount(_) => 5
    case MustResize => 4
    case WillRebuild(_) => 3
    case Checked => 2
    case Ready => 1
    case Aborted => 0
  }

  lemma MidwayStep(t0: Table, op: Op, pc: Pc, t: Table)
    requires Midway(t0, op, pc, t) && pc != Aborted
    ensures var e := Act(t, op, pc);
      && (e.outcome.Moves? ==> Midway(t0, op, e.outcome.pc, e.table) && StepsLeft(e.outcome.pc) < StepsLeft(pc))
      && (e.outcome.Finishes? ==> e.table == TableRuns.Step(t0, op) && e.outcome.answer == None)
      && (e.outcome.Finishes? ==> !(op.OpRemove? && t0.buckets == 0))
  {
  }

  /** After `n` steps of thread `i` alone nothing has finished. */
  ghost predicate Quiet(s: State, i: nat, n: nat)
    requires i < |s.threads|
  {
    Alone(s, i, n).history == s.history
  }

  /** After `n` steps it is done, or stopped for ever. */
  ghost predicate IsOver(s: State, i: nat, n: nat, answer: Option<Bytes>)
    requires i < |s.threads| && s.threads[i].done < |s.threads[i].script|
  {
    var op := s.threads[i].script[s.threads[i].done];
    Alone(s, i, n) ==
      if op.OpRemove? && s.table.buckets == 0 then Stage(s, i, s.table, Aborted)
      else Ended(s, i, TableRuns.Step(s.table, op), answer)
  }

  /** Such a call comes to its body, or is stopped before it. */
  lemma {:induction false} CallComes(s: State, i: nat, m: nat, table: Table, pc: Pc)
    returns (n: nat, table': Table, pc': Pc)
    requires i < |s.threads| && s.threads[i].pc == Idle && s.threads[i].done < |s.threads[i].script|
    requires Midway(s.table, s.threads[i].script[s.threads[i].done], pc, table)
    requires Alone(s, i, m) == Stage(s, i, table, pc)
    ensures pc' == Ready || pc' == Aborted
    ensures Midway(s.table, s.threads[i].script[s.threads[i].done], pc', table')
    ensures Alone(s, i, n) == Stage(s, i, table', pc')
    ensures m <= n && n + StepsLeft(pc') <= m + StepsLeft(pc)
    decreases StepsLeft(pc)
  {
    if pc == Ready || pc == Aborted {
      n, table', pc' := m, table, pc;
    } else {
      var t, p := CallStep(s, i, m, table, pc);
      n, table', pc' := CallComes(s, i, m + 1, t, p);
    }
  }

  lemma CallStep(s: State, i: nat, m: nat, table: Table, pc: Pc) returns (table': Table, pc': Pc)
    requires i < |s.threads| && s.threads[i].pc == Idle && s.threads[i].done < |s.threads[i].script|
    requires Midway(s.table, s.threads[i].script[s.threads[i].done], pc, table) && pc != Ready && pc != Aborted
    requires Alone(s, i, m) == Stage(s, i, table, pc)
    ensures Midway(s.table, s.threads[i].script[s.threads[i].done], pc', table') && StepsLeft(pc') < StepsLeft(pc)
    ensures Alone(s, i, m + 1) == Stage(s, i, table', pc')
  {
    var op := s.threads[i].script[s.threads[i].done];
    var e := Act(table, op, pc);
    MidwayStep(s.table, op, pc, table);
    StageStep(s, i, table, pc);
    table', pc' := e.table, e.outcome.pc;
  }

  lemma {:induction false} HistoryGrows(s: State, i: nat, k: nat, n: nat)
    requires i < |s.threads| && k <= n
    ensures Alone(s, i, k).history <= Alone(s, i, n).history
  {
    if k < n {
      HistoryGrows(s, i, k, n - 1);
    }
  }

  /** If nothing has finished by then, nothing had before. */
  lemma QuietBefore(s: State, i: nat, n: nat)
    requires i < |s.threads| && Quiet(s, i, n)
    ensures forall k | 0 <= k <= n :: Quiet(s, i, k)
  {
    forall k | 0 <= k <= n ensures Quiet(s, i, k) {
      HistoryGrows(s, i, 0, k);
      HistoryGrows(s, i, k, n);
    }
  }

  /** An update that is not disturbed. */
  lemma UpdateAlone(s: State, i: nat) returns (n: nat)
    requires i < |s.threads| && s.threads[i].pc == Idle && s.threads[i].done < |s.threads[i].script|
    requires var op := s.threads[i].script[s.threads[i].done]; op.OpSet? || op.OpRemove?
    ensures 0 < n <= 6 && IsOver(s, i, n, None) && forall k | 0 <= k < n :: Quiet(s, i, k)
  {
    var op := s.threads[i].script[s.threads[i].done];
    assert s.threads[i := s.threads[i].(pc := Idle)] == s.threads;
    var table, pc;
    n, table, pc := CallComes(s, i, 0, s.table, Idle);
    assert n > 0 by {
      assert Alone(s, i, 0).threads[i].pc == Idle;
    }
    QuietBefore(s, i, n);
    if pc == Ready {
      MidwayStep(s.table, op, Ready, table);
      StageStep(s, i, table, Ready);
      n := n + 1;
    }
  }

  /** A call of which no other thread's step comes in between is the whole operation: after at most
      six steps, and no earlier, it has its event; or it is a removal from a table without buckets. */
  lemma CallAlone(s: State, i: nat) returns (n: nat)
    requires i < |s.threads| && s.threads[i].pc == Idle && s.threads[i].done < |s.threads[i].script|
    requires var op := s.threads[i].script[s.threads[i].done]; op.OpRebuild? ==> op.size > 0
    ensures 0 < n <= 6 && forall k | 0 <= k < n :: Exec(s, Times(i, k)).history == s.history
    ensures var t, s' := s.threads[i], Exec(s, Times(i, n));
      var op := t.script[t.done];
      if op.OpRemove? && s.table.buckets == 0 then s' == Stage(s, i, s.table, Aborted)
      else
        && s'.table == TableRuns.Step(s.table, op)
        && s'.threads == s.threads[i := t.(done := t.done + 1)]
        && s'.history == s.history + [Event(i, op,
             if op.OpGet? && op.h in s.table.entries then Some(s.table.entries[op.h].bytes) else None)]
  {
    var t := s.threads[i];
    var op := t.script[t.done];
    var now := s.threads[i].(pc := Idle);
    assert s.threads[i := now] == s.threads && Stage(s, i, s.table, Idle) == s;
    StageStep(s, i, s.table, Idle);
    if op.OpSet? || op.OpRemove? {
      n := UpdateAlone(s, i);
    } else {
      n := 1;
      assert Alone(s, i, 0) == s && Quiet(s, i, 0);
    }
    AloneIsExec(s, i, n);
    forall k | 0 <= k < n ensures Exec(s, Times(i, k)).history == s.history {
      AloneIsExec(s, i, k);
      assert Quiet(s, i, k);
    }
  }

  /** No thread steps while another is in the middle of a call. */
  predicate InTurn(s: State, schedule: seq<nat>)
    requires forall k | 0 <= k < |schedule| :: schedule[k] < |s.threads|
  {
    schedule == [] ||
    var front, i := schedule[..|schedule| - 1], schedule[|schedule| - 1];
    && InTurn(s, front)
    && forall j | 0 <= j < |s.threads| && j != i :: Exec(s, front).threads[j].pc == Idle
  }

  /** At most one thread is in the middle of a call, and the table is that of the run of calls. */
  ghost predicate OneAtATime(s: State) {
    var t0 := Run(NEW_TABLE, Ops(s.history));
    && (forall i, j | 0 <= i < |s.threads| && 0 <= j < |s.threads| && i != j && s.threads[i].pc != Idle ::
          s.threads[j].pc == Idle)
    && ((forall i | 0 <= i < |s.threads| :: s.threads[i].pc == Idle) ==> s.table == t0)
    && forall i | 0 <= i < |s.threads| && s.threads[i].pc != Idle ::
         var t := s.threads[i]; t.done < |t.script| && Midway(t0, t.script[t.done], t.pc, s.table)
  }

  lemma OpsGrow(history: seq<Event>, event: Event)
    ensures Run(NEW_TABLE, Ops(history + [event])) == TableRuns.Step(Run(NEW_TABLE, Ops(history)), event.op)
  {
    assert Ops(history + [event]) == Ops(history) + [event.op];
    assert (Ops(history) + [event.op])[..|history|] == Ops(history);
  }

  lemma ActInTurn(t0: Table, op: Op, pc: Pc, t: Table)
    requires if pc == Idle then t == t0 else Midway(t0, op, pc, t)
    ensures var e := Act(t, op, pc);
      && (e.outcome.Moves? ==> e.outcome.pc != Idle && Midway(t0, op, e.outcome.pc, e.table))
      && (e.outcome.Finishes? ==> e.table == TableRuns.Step(t0, op))
  {
    if (op.OpSet? || op.OpRemove?) && pc != Aborted {
      MidwayStep(t0, op, pc, t);
    }
  }

  lemma StepInTurn(s: State, i: nat)
    requires OneAtATime(s) && i < |s.threads| && forall j | 0 <= j < |s.threads| && j != i :: s.threads[j].pc == Idle
    ensures OneAtATime(Step(s, i))
  {
    var t, t0 := s.threads[i], Run(NEW_TABLE, Ops(s.history));
    if t.done < |t.script| {
      var e := Act(s.table, t.script[t.done], t.pc);
      assert t.pc == Idle ==> s.table == t0;
      ActInTurn(t0, t.script[t.done], t.pc, s.table);
      SettledInTurn(s, i, e, t0);
    }
  }

  lemma SettledInTurn(s: State, i: nat, e: Effect, t0: Table)
    requires i < |s.threads| && s.threads[i].done < |s.threads[i].script| && t0 == Run(NEW_TABLE, Ops(s.history))
    requires forall j | 0 <= j < |s.threads| && j != i :: s.threads[j].pc == Idle
    requires var op := s.threads[i].script[s.threads[i].done];
      && (e.outcome.Moves? ==> e.outcome.pc != Idle && Midway(t0, op, e.outcome.pc, e.table))
      && (e.outcome.Finishes? ==> e.table == TableRuns.Step(t0, op))
    ensures OneAtATime(After(s, i, e))
  {
    var t, s' := s.threads[i], After(s, i, e);
    assert s'.threads[i] == Settled(t, e.outcome);
    assert forall j | 0 <= j < |s.threads| && j != i :: s'.threads[j] == s.threads[j];
    if e.outcome.Finishes? {
      OpsGrow(s.history, Event(i, t.script[t.done], e.outcome.answer));
    }
  }

  lemma {:induction false} ExecInTurn(s: State, schedule: seq<nat>)
    requires OneAtATime(s) && forall k | 0 <= k < |schedule| :: schedule[k] < |s.threads|
    requires InTurn(s, schedule)
    ensures OneAtATime(Exec(s, schedule))
  {
    if schedule != [] {
      ExecInTurn(s, schedule[..|schedule| - 1]);
      StepInTurn(Exec(s, schedule[..|schedule| - 1]), schedule[|schedule| - 1]);
    }
  }

  /** When each call runs to its end before the next begins, the table is that of the plain run of
      the calls, whenever none is under way; and a removal is stopped only when there are no buckets. */
  lemma CallsInTurn(scripts: seq<seq<Op>>, schedule: seq<nat>)
    requires forall k | 0 <= k < |schedule| :: schedule[k] < |scripts|
    requires InTurn(Initial(scripts), schedule)
    ensures var s := Exec(Initial(scripts), schedule); var run := Run(NEW_TABLE, Ops(s.history));
      && ((forall i | 0 <= i < |s.threads| :: s.threads[i].pc == Idle) ==> s.table == run)
      && forall i | 0 <= i < |s.threads| && s.threads[i].pc == Aborted :: run.buckets == 0
  {
    assert Ops([]) == [];
    ExecInTurn(Initial(scripts), schedule);
  }

  // The same steps on one heap table.

  /** A lookup, or the reading of the count that begins an update. */
  method Look(table: HashTable, op: Op) returns (outcome: Outcome)
    requires table.Valid() && !op.OpRebuild?
    ensures outcome == Beginning(table.Table(), op)
  {
    if op.OpGet? {
      var found := table.Get(op.h);
      outcome := Finishes(if found.Some? then Some(found.value.bytes) else None);
    } else {
      outcome := Moves(HaveCount(table.count));
    }
  }

  /** The step of a call that stands at its beginning. */
  method Begin(table: HashTable, op: Op) returns (outcome: Outcome)
    requires table.Valid() && (op.OpRebuild? ==> op.size > 0)
    modifies table.repr
    ensures table.Valid() && fresh(table.repr - old(table.repr))
    ensures table.Table() == if op.OpRebuild? then Rebuilt(old(table.Table()), op.size) else old(table.Table())
    ensures outcome == Beginning(old(table.Table()), op)
  {
    if op.OpRebuild? {
      table.Rebuild(op.size);
      outcome := Finishes(None);
    } else {
      outcome := Look(table, op);
    }
  }

  /** The locked body. */
  method Body(table: HashTable, op: Op)
    requires table.Valid() && table.bucketsCount > 0 && (op.OpSet? || op.OpRemove?)
    modifies table.repr
    ensures table.Valid() && fresh(table.repr - old(table.repr))
    ensures table.Table() == AfterBody(old(table.Table()), op)
  {
    if op.OpSet? {
      table.Store(op.h, op.value);
    } else {
      table.Erase(op.h);
    }
  }

  /** The size check, which reads the table without the lock. */
  method Check(table: HashTable, op: Op, pc: Pc) returns (outcome: Outcome)
    requires table.Valid() && PcOk(table.Table(), op, pc) && (pc.HaveCount? || pc.MustResize? || pc.Checked?)
    ensures Effect(table.Table(), outcome) == Act(table.Table(), op, pc)
  {
    var next := Checked;
    match pc {
      case HaveCount(count) =>
        if op.OpSet? && count + 1 > table.bucketsCount * 2 {
          next := MustResize;
        } else if op.OpRemove? && Predecessor(count) < table.bucketsCount / 8 {
          next := MustResize;
        }
      case MustResize =>
        if op.OpSet? {
          var newsize := table.bucketsCount * 4;
          if newsize < START_SIZE {
            newsize := START_SIZE;
          }
          next := WillRebuild(newsize);
        } else if table.bucketsCount / 4 > START_SIZE {
          next := WillRebuild(table.bucketsCount / 4);
        }
      case Checked =>
        next := if table.bucketsCount > 0 then Ready else Aborted;
    }
    outcome := Moves(next);
  }

  method ActOnHeap(table: HashTable, op: Op, pc: Pc) returns (outcome: Outcome)
    requires table.Valid() && PcOk(table.Table(), op, pc)
    modifies table.repr
    ensures table.Valid() && fresh(table.repr - old(table.repr))
    ensures Effect(table.Table(), outcome) == Act(old(table.Table()), op, pc)
  {
    match pc {
      case Idle => outcome := Begin(table, op);
      case WillRebuild(size) =>
        table.Rebuild(size);
        outcome := Moves(Checked);
      case Ready =>
        Body(table, op);
        outcome := Finishes(None);
      case Aborted => outcome := Moves(Aborted);
      case _ => outcome := Check(table, op, pc);
    }
  }

  /** Any schedule of any threads on one table in the heap: the table, the threads and the answers
      are those of the steps above. */
  method RunThreads(scripts: seq<seq<Op>>, schedule: seq<nat>)
    returns (table: HashTable, threads: seq<Thread>, history: seq<Event>)
    requires forall i, k | 0 <= i < |scripts| && 0 <= k < |scripts[i]| && scripts[i][k].OpRebuild? ::
      scripts[i][k].size > 0
    requires forall k | 0 <= k < |schedule| :: schedule[k] < |scripts|
    ensures table.Valid() && fresh(table.repr)
    ensures State(table.Table(), threads, history) == Exec(Initial(scripts), schedule)
    ensures Legal(history) && Contents(table.Table()) == PlainRun(map[], Ops(history))
  {
    table := new HashTable();
    threads, history := Initial(scripts).threads, [];
    ghost var start := Initial(scripts);
    InitialInv(scripts);
    for k := 0 to |schedule|
      invariant table.Valid() && fresh(table.repr)
      invariant State(table.Table(), threads, history) == Exec(start, schedule[..k])
      invariant Inv(Exec(start, schedule[..k]))
    {
      ghost var s := Exec(start, schedule[..k]);
      ExecTurn(start, schedule, k);
      StepInv(s, schedule[k]);
      threads, history := RunThread(table, threads, schedule[k], history);
    }
    assert schedule[..|schedule|] == schedule;
  }

  lemma ExecTurn(s: State, schedule: seq<nat>, k: nat)
    requires k < |schedule| && forall j | 0 <= j < |schedule| :: schedule[j] < |s.threads|
    ensures Exec(s, schedule[..k + 1]) == Step(Exec(s, schedule[..k]), schedule[k])
  {
    assert schedule[..k + 1][..k] == schedule[..k];
  }

  method RunThread(table: HashTable, threads: seq<Thread>, i: nat, history: seq<Event>)
    returns (threads': seq<Thread>, history': seq<Event>)
    requires table.Valid() && Inv(State(table.Table(), threads, history)) && i < |threads|
    modifies table.repr
    ensures table.Valid() && fresh(table.repr - old(table.repr))
    ensures State(table.Table(), threads', history') == Step(State(old(table.Table()), threads, history), i)
  {
    var t := threads[i];
    threads', history' := threads, history;
    assert ThreadOk(State(table.Table(), threads, history), i);
    if t.done < |t.script| {
      var outcome := ActOnHeap(table, t.script[t.done], t.pc);
      threads' := threads[i := Settled(t, outcome)];
      history' := Recorded(history, i, t.script[t.done], outcome);
    }
  }
}
