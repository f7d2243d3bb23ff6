/** What the hook registry does to one table, on sequences, and what whole runs of it keep. */
module HookSpec {
  import opened LinkedLists

  /** `func` and `context` stand for the pointers that were registered. The stored priority is a
      float, the one passed in a double: `narrow` is that rounding. */
  datatype Hook = Hook(id: string, priority: real, func: nat, context: nat)

  ghost predicate IsNarrowing(narrow: real -> real) {
    && (forall x, y | x <= y :: narrow(x) <= narrow(y))
    && (forall x {:trigger narrow(narrow(x))} :: narrow(narrow(x)) == narrow(x))
  }

  function Drop(hooks: seq<Hook>, id: string): seq<Hook> {
    if hooks == [] then []
    else Drop(hooks[..|hooks| - 1], id) + if hooks[|hooks| - 1].id == id then [] else [hooks[|hooks| - 1]]
  }

  /** The first hook with a higher priority, or the end. */
  function Place(hooks: seq<Hook>, priority: real): (k: nat)
    ensures k <= |hooks|
    ensures forall i | 0 <= i < k :: hooks[i].priority <= priority
    ensures k < |hooks| ==> hooks[k].priority > priority
  {
    if hooks == [] then 0
    else
      var k := Place(hooks[..|hooks| - 1], priority);
      if k < |hooks| - 1 || hooks[|hooks| - 1].priority > priority then k else |hooks|
  }

  /** Inserting where the loop of hook_add stopped. With no higher priority that is before
      null, which leaves the new hook alone. */
  function Put(rest: seq<Hook>, h: Hook, priority: real): seq<Hook> {
    var k := Place(rest, priority);
    if k < |rest| then Inserted(rest, k, h) else [h]
  }

  /** What an add leaves. */
  function Added(hooks: seq<Hook>, h: Hook, priority: real): seq<Hook> {
    Put(Drop(hooks, h.id), h, priority)
  }

  /** The documented meaning: low priorities first, and the newest last among equals. */
  function AddedAsMeant(hooks: seq<Hook>, h: Hook, priority: real): seq<Hook> {
    var rest := Drop(hooks, h.id);
    Inserted(rest, Place(rest, priority), h)
  }

  lemma {:induction false} InDrop(hooks: seq<Hook>, id: string, h: Hook)
    ensures h in Drop(hooks, id) <==> h in hooks && h.id != id
  {
    if hooks != [] {
      InDrop(hooks[..|hooks| - 1], id, h);
      assert hooks == hooks[..|hooks| - 1] + [hooks[|hooks| - 1]];
    }
  }

  /** The other hooks survive an add if and only if there are none, or one has a higher priority. */
  lemma AddKeepsOthers(hooks: seq<Hook>, h: Hook, priority: real)
    ensures var rest := Drop(hooks, h.id); var now := Added(hooks, h, priority);
      && h in now
      && ((forall g | g in rest :: g in now) <==> rest == [] || exists g :: g in rest && g.priority > priority)
      && (now == AddedAsMeant(hooks, h, priority) <==>
            rest == [] || exists g :: g in rest && g.priority > priority)
  {
    var rest := Drop(hooks, h.id);
    if rest == [] {
      assert Inserted(rest, 0, h) == [h];
    } else if Place(rest, priority) < |rest| {
      InsertKeeps(rest, Place(rest, priority), h);
      assert rest[Place(rest, priority)] in rest;
    } else {
      assert forall g | g in rest :: g.priority <= priority;
      InDrop(hooks, h.id, rest[0]);
      assert rest[0] in rest && rest[0] !in [h];
      assert |AddedAsMeant(hooks, h, priority)| == |rest| + 1;
    }
  }

  lemma InsertKeeps(rest: seq<Hook>, k: nat, h: Hook)
    requires k <= |rest|
    ensures h in Inserted(rest, k, h) && forall g | g in rest :: g in Inserted(rest, k, h)
  {
    var now := Inserted(rest, k, h);
    assert now[k] == h;
    forall g | g in rest ensures g in now {
      var i :| 0 <= i < |rest| && rest[i] == g;
      assert now[if i < k then i else i + 1] == g;
    }
  }

  predicate Sorted(hooks: seq<Hook>) {
    forall i, j | 0 <= i < j < |hooks| :: hooks[i].priority <= hooks[j].priority
  }

  predicate UniqueIds(hooks: seq<Hook>) {
    forall i, j | 0 <= i < j < |hooks| :: hooks[i].id != hooks[j].id
  }

  predicate Stored(hooks: seq<Hook>, narrow: real -> real) {
    forall i | 0 <= i < |hooks| :: narrow(hooks[i].priority) == hooks[i].priority
  }

  // Dropping keeps order, so it keeps everything that is about pairs.

  lemma {:induction false} DropPlaces(hooks: seq<Hook>, id: string, i: nat, j: nat) returns (i': nat, j': nat)
    requires i < j < |Drop(hooks, id)|
    ensures i' < j' < |hooks| && hooks[i'] == Drop(hooks, id)[i] && hooks[j'] == Drop(hooks, id)[j]
    ensures hooks[i'].id != id && hooks[j'].id != id
    decreases |hooks|
  {
    var front, last := hooks[..|hooks| - 1], hooks[|hooks| - 1];
    if j < |Drop(front, id)| {
      i', j' := DropPlaces(front, id, i, j);
    } else {
      i' := DropPlace(front, id, i);
      j' := |hooks| - 1;
    }
  }

  lemma {:induction false} DropPlace(hooks: seq<Hook>, id: string, i: nat) returns (i': nat)
    requires i < |Drop(hooks, id)|
    ensures i' < |hooks| && hooks[i'] == Drop(hooks, id)[i] && hooks[i'].id != id
    decreases |hooks|
  {
    var front := hooks[..|hooks| - 1];
    if i < |Drop(front, id)| {
      i' := DropPlace(front, id, i);
    } else {
      i' := |hooks| - 1;
    }
  }

  lemma SortedDrop(hooks: seq<Hook>, id: string, narrow: real -> real)
    requires Sorted(hooks) && UniqueIds(hooks) && Stored(hooks, narrow)
    ensures Sorted(Drop(hooks, id)) && UniqueIds(Drop(hooks, id)) && Stored(Drop(hooks, id), narrow)
    ensures forall i | 0 <= i < |Drop(hooks, id)| :: Drop(hooks, id)[i].id != id
  {
    var rest := Drop(hooks, id);
    forall i, j | 0 <= i < j < |rest| ensures rest[i].priority <= rest[j].priority && rest[i].id != rest[j].id {
      var i', j' := DropPlaces(hooks, id, i, j);
    }
    forall i | 0 <= i < |rest| ensures rest[i].id != id && narrow(rest[i].priority) == rest[i].priority {
      var i' := DropPlace(hooks, id, i);
    }
  }

  /** Each add, of either kind, keeps the table sorted and its ids unique. */
  lemma AddKeepsSorted(hooks: seq<Hook>, h: Hook, priority: real, narrow: real -> real)
    requires Sorted(hooks) && UniqueIds(hooks) && Stored(hooks, narrow)
    requires IsNarrowing(narrow) && h.priority == narrow(priority)
    ensures var now := AddedAsMeant(hooks, h, priority); Sorted(now) && UniqueIds(now) && Stored(now, narrow)
    ensures var now := Added(hooks, h, priority); Sorted(now) && UniqueIds(now) && Stored(now, narrow)
  {
    SortedDrop(hooks, h.id, narrow);
    var rest := Drop(hooks, h.id);
    var k := Place(rest, priority);
    InsertKeepsSorted(rest, k, h, priority, narrow);
  }

  lemma {:induction false} InsertKeepsSorted(rest: seq<Hook>, k: nat, h: Hook, priority: real, narrow: real -> real)
    requires Sorted(rest) && UniqueIds(rest) && Stored(rest, narrow) && IsNarrowing(narrow)
    requires h.priority == narrow(priority)
    requires k == Place(rest, priority) && forall i | 0 <= i < |rest| :: rest[i].id != h.id
    ensures var now := Inserted(rest, k, h); Sorted(now) && UniqueIds(now) && Stored(now, narrow)
  {
    var now := Inserted(rest, k, h);
    forall i, j | 0 <= i < j < |now| ensures now[i].priority <= now[j].priority && now[i].id != now[j].id {
      if i == k {
        assert now[j] == rest[j - 1];
        NarrowOrder(rest[j - 1].priority, rest[k].priority, priority, narrow);
      } else if j == k {
        assert now[i] == rest[i] && narrow(rest[i].priority) <= narrow(priority);
      } else {
        assert now[i] == rest[if i < k then i else i - 1] && now[j] == rest[if j < k then j else j - 1];
      }
    }
    InsertKeepsStored(rest, k, h, narrow);
  }

  lemma InsertKeepsStored(rest: seq<Hook>, k: nat, h: Hook, narrow: real -> real)
    requires k <= |rest| && Stored(rest, narrow) && narrow(h.priority) == h.priority
    ensures Stored(Inserted(rest, k, h), narrow)
  {
    var now := Inserted(rest, k, h);
    assert forall i | 0 <= i < |now| :: now[i] == if i < k then rest[i] else if i == k then h else rest[i - 1];
  }

  lemma NarrowOrder(x: real, y: real, p: real, narrow: real -> real)
    requires IsNarrowing(narrow) && narrow(x) == x && x >= y > p
    ensures x >= narrow(p)
  {
    assert narrow(p) <= narrow(x);
  }

  // Whole runs.

  datatype Op = Add(id: string, priority: real, func: nat, context: nat) | Remove(id: string)

  function HookOf(op: Op, narrow: real -> real): Hook
    requires op.Add?
  {
    Hook(op.id, narrow(op.priority), op.func, op.context)
  }

  function Step(hooks: seq<Hook>, op: Op, narrow: real -> real): seq<Hook> {
    match op
    case Add(_, priority, _, _) => Added(hooks, HookOf(op, narrow), priority)
    case Remove(id) => Drop(hooks, id)
  }

  function Run(ops: seq<Op>, narrow: real -> real): seq<Hook> {
    if ops == [] then [] else Step(Run(ops[..|ops| - 1], narrow), ops[|ops| - 1], narrow)
  }

  function StepAsMeant(hooks: seq<Hook>, op: Op, narrow: real -> real): seq<Hook> {
    match op
    case Add(_, priority, _, _) => AddedAsMeant(hooks, HookOf(op, narrow), priority)
    case Remove(id) => Drop(hooks, id)
  }

  function RunAsMeant(ops: seq<Op>, narrow: real -> real): seq<Hook> {
    if ops == [] then [] else StepAsMeant(RunAsMeant(ops[..|ops| - 1], narrow), ops[|ops| - 1], narrow)
  }

  /** How many hooks one call drops that it should not. */
  function Loss(hooks: seq<Hook>, op: Op, narrow: real -> real): int {
    |StepAsMeant(hooks, op, narrow)| - |Step(hooks, op, narrow)|
  }

  function Lost(ops: seq<Op>, narrow: real -> real): int {
    if ops == [] then 0
    else Lost(ops[..|ops| - 1], narrow) + Loss(Run(ops[..|ops| - 1], narrow), ops[|ops| - 1], narrow)
  }

  lemma LossIsVisible(hooks: seq<Hook>, op: Op, narrow: real -> real)
    ensures Loss(hooks, op, narrow) >= 0
    ensures Loss(hooks, op, narrow) == 0 <==> Step(hooks, op, narrow) == StepAsMeant(hooks, op, narrow)
  {
    if op.Add? {
      var rest := Drop(hooks, op.id);
      var h := HookOf(op, narrow);
      if rest == [] {
        assert Inserted(rest, 0, h) == [h];
      }
    }
  }

  /** The run has been as documented after every call. */
  predicate SameRuns(ops: seq<Op>, narrow: real -> real) {
    Run(ops, narrow) == RunAsMeant(ops, narrow) && (ops == [] || SameRuns(ops[..|ops| - 1], narrow))
  }

  /** Some hook there, but for those with this id, has a higher priority. */
  predicate Covers(hooks: seq<Hook>, id: string, priority: real) {
    exists g :: g in Drop(hooks, id) && g.priority > priority
  }

  /** No hook has been dropped if and only if the run has been as documented all along. */
  lemma {:induction false} LostIsVisible(ops: seq<Op>, narrow: real -> real)
    ensures Lost(ops, narrow) >= 0
    ensures Lost(ops, narrow) == 0 <==> SameRuns(ops, narrow)
  {
    if ops != [] {
      var front, op := ops[..|ops| - 1], ops[|ops| - 1];
      LostIsVisible(front, narrow);
      LossIsVisible(Run(front, narrow), op, narrow);
    }
  }

  /** The add that an id is registered by now, or -1. */
  function AddOf(ops: seq<Op>, id: string): (k: int)
    ensures -1 <= k < |ops| && (k >= 0 ==> ops[k].Add? && ops[k].id == id)
  {
    if ops == [] then -1
    else if ops[|ops| - 1].id == id then (if ops[|ops| - 1].Add? then |ops| - 1 else -1)
    else AddOf(ops[..|ops| - 1], id)
  }

  /** The `j`th call is an add that its id is registered by, and the id is another one. */
  predicate IsOther(calls: seq<Op>, j: int, id: string) {
    0 <= j < |calls| && calls[j].id != id && AddOf(calls, calls[j].id) == j
  }

  /** When this add is made, no other id is registered, or one with a higher priority is. */
  ghost predicate AddIsCovered(before: seq<Op>, op: Op, narrow: real -> real) {
    op.Add? ==>
      (forall j :: !IsOther(before, j, op.id))
      || exists j :: IsOther(before, j, op.id) && narrow(before[j].priority) > op.priority
  }

  lemma OthersAreTheRest(before: seq<Op>, op: Op, narrow: real -> real, g: Hook)
    ensures g in Drop(RunAsMeant(before, narrow), op.id) <==>
      IsOther(before, AddOf(before, g.id), op.id) && g == HookOf(before[AddOf(before, g.id)], narrow)
  {
    MeantRunIsRegistered(before, narrow, g);
    InDrop(RunAsMeant(before, narrow), op.id, g);
  }

  lemma CoveredIsAsMeant(before: seq<Op>, op: Op, narrow: real -> real)
    ensures var hooks := RunAsMeant(before, narrow);
      AddIsCovered(before, op, narrow) <==> Step(hooks, op, narrow) == StepAsMeant(hooks, op, narrow)
  {
    var hooks := RunAsMeant(before, narrow);
    if op.Add? {
      var rest := Drop(hooks, op.id);
      AddKeepsOthers(hooks, HookOf(op, narrow), op.priority);
      forall j | IsOther(before, j, op.id) ensures HookOf(before[j], narrow) in rest {
        OthersAreTheRest(before, op, narrow, HookOf(before[j], narrow));
      }
      forall g | g in rest
        ensures var j := AddOf(before, g.id); IsOther(before, j, op.id) && g == HookOf(before[j], narrow)
      {
        OthersAreTheRest(before, op, narrow, g);
      }
      assert rest != [] ==> rest[0] in rest;
    }
  }

  /** Every add of the run is covered when it is made. */
  ghost predicate EveryAddIsCovered(ops: seq<Op>, narrow: real -> real) {
    ops == [] ||
    (EveryAddIsCovered(ops[..|ops| - 1], narrow) && AddIsCovered(ops[..|ops| - 1], ops[|ops| - 1], narrow))
  }

  /** A run loses hooks if and only if it has an add, with other ids registered before it, none of
      which has a higher priority. */
  lemma NoneLost(ops: seq<Op>, narrow: real -> real)
    ensures Lost(ops, narrow) >= 0
    ensures Lost(ops, narrow) == 0 <==> EveryAddIsCovered(ops, narrow)
  {
    LostIsVisible(ops, narrow);
    SameIsCovered(ops, narrow);
  }

  lemma {:induction false} SameIsCovered(ops: seq<Op>, narrow: real -> real)
    ensures SameRuns(ops, narrow) <==> EveryAddIsCovered(ops, narrow)
  {
    if ops != [] {
      var front, op := ops[..|ops| - 1], ops[|ops| - 1];
      SameIsCovered(front, narrow);
      LastIsCovered(ops, front, op, narrow);
    }
  }

  lemma LastIsCovered(ops: seq<Op>, front: seq<Op>, op: Op, narrow: real -> real)
    requires ops != [] && front == ops[..|ops| - 1] && op == ops[|ops| - 1]
    ensures Run(front, narrow) == RunAsMeant(front, narrow) ==>
      (Run(ops, narrow) == RunAsMeant(ops, narrow) <==> AddIsCovered(front, op, narrow))
  {
    CoveredIsAsMeant(front, op, narrow);
  }

  lemma {:induction false} RunIsSorted(ops: seq<Op>, narrow: real -> real)
    requires IsNarrowing(narrow)
    ensures var hooks := Run(ops, narrow); Sorted(hooks) && UniqueIds(hooks) && Stored(hooks, narrow)
    ensures var hooks := RunAsMeant(ops, narrow); Sorted(hooks) && UniqueIds(hooks) && Stored(hooks, narrow)
  {
    if ops != [] {
      var front, op := ops[..|ops| - 1], ops[|ops| - 1];
      RunIsSorted(front, narrow);
      match op {
        case Add(_, priority, _, _) =>
          AddKeepsSorted(Run(front, narrow), HookOf(op, narrow), priority, narrow);
          AddKeepsSorted(RunAsMeant(front, narrow), HookOf(op, narrow), priority, narrow);
        case Remove(id) =>
          SortedDrop(Run(front, narrow), id, narrow);
          SortedDrop(RunAsMeant(front, narrow), id, narrow);
      }
    }
  }

  /** As documented, the table would hold exactly the hooks that are registered. */
  lemma {:induction false} MeantRunIsRegistered(ops: seq<Op>, narrow: real -> real, h: Hook)
    ensures var k := AddOf(ops, h.id);
      h in RunAsMeant(ops, narrow) <==>
        k >= 0 && h == Hook(ops[k].id, narrow(ops[k].priority), ops[k].func, ops[k].context)
  {
    if ops != [] {
      var front, op := ops[..|ops| - 1], ops[|ops| - 1];
      var hooks := RunAsMeant(front, narrow);
      MeantRunIsRegistered(front, narrow, h);
      InDrop(hooks, op.id, h);
      if op.Add? {
        InInserted(Drop(hooks, op.id), Place(Drop(hooks, op.id), op.priority), HookOf(op, narrow), h);
      }
    }
  }

  lemma InInserted(s: seq<Hook>, k: nat, x: Hook, h: Hook)
    requires k <= |s|
    ensures h in Inserted(s, k, x) <==> h == x || h in s
  {
    assert s == s[..k] + s[k..];
    assert Inserted(s, k, x)[k] == x;
  }

  /** Every add after the `k`th call found a hook with a higher priority. */
  predicate CoveredSince(ops: seq<Op>, k: int, narrow: real -> real) {
    ops == [] || k >= |ops| - 1 ||
    var front, op := ops[..|ops| - 1], ops[|ops| - 1];
    CoveredSince(front, k, narrow) && (op.Add? ==> Covers(Run(front, narrow), op.id, op.priority))
  }

  /** The code's table holds exactly those of the registered hooks after which every add found a
      higher priority. */
  lemma {:induction false} RunIsRegistered(ops: seq<Op>, narrow: real -> real, h: Hook)
    ensures var k := AddOf(ops, h.id);
      h in Run(ops, narrow) <==>
        && k >= 0 && h == Hook(ops[k].id, narrow(ops[k].priority), ops[k].func, ops[k].context)
        && CoveredSince(ops, k, narrow)
  {
    if ops != [] {
      var front, op := ops[..|ops| - 1], ops[|ops| - 1];
      RunIsRegistered(front, narrow, h);
      InStep(Run(front, narrow), op, narrow, h);
    }
  }

  lemma InStep(hooks: seq<Hook>, op: Op, narrow: real -> real, h: Hook)
    ensures h in Step(hooks, op, narrow) <==>
      if h.id == op.id then op.Add? && h == HookOf(op, narrow)
      else h in hooks && (op.Add? ==> Covers(hooks, op.id, op.priority))
  {
    var rest := Drop(hooks, op.id);
    InDrop(hooks, op.id, h);
    if op.Add? {
      var k := Place(rest, op.priority);
      assert k < |rest| ==> rest[k] in rest;
      if k < |rest| {
        InInserted(rest, k, HookOf(op, narrow), h);
      }
    }
  }

  /** Equal priorities stand in the order of their adds. */
  predicate InOrder(hooks: seq<Hook>, ops: seq<Op>) {
    forall i, j | 0 <= i < j < |hooks| ::
      hooks[i].priority < hooks[j].priority || AddOf(ops, hooks[i].id) < AddOf(ops, hooks[j].id)
  }

  /** No float rounds up. One that does puts its hook before its equals (RoundedUpGoesFirst). */
  predicate NoneRoundsUp(ops: seq<Op>, narrow: real -> real) {
    forall i | 0 <= i < |ops| && ops[i].Add? :: narrow(ops[i].priority) <= ops[i].priority
  }

  lemma DropIsInOrder(hooks: seq<Hook>, ops: seq<Op>, op: Op)
    requires InOrder(hooks, ops)
    ensures InOrder(Drop(hooks, op.id), ops + [op])
  {
    var rest := Drop(hooks, op.id);
    assert (ops + [op])[..|ops|] == ops;
    forall i, j | 0 <= i < j < |rest|
      ensures rest[i].priority < rest[j].priority || AddOf(ops + [op], rest[i].id) < AddOf(ops + [op], rest[j].id)
    {
      var i', j' := DropPlaces(hooks, op.id, i, j);
    }
  }

  lemma {:induction false} InsertIsInOrder(rest: seq<Hook>, ops: seq<Op>, op: Op, narrow: real -> real)
    requires InOrder(rest, ops + [op]) && Sorted(rest) && Stored(rest, narrow) && IsNarrowing(narrow)
    requires forall i | 0 <= i < |rest| :: rest[i].id != op.id
    requires op.Add? && narrow(op.priority) <= op.priority
    ensures InOrder(Inserted(rest, Place(rest, op.priority), HookOf(op, narrow)), ops + [op])
    ensures InOrder([HookOf(op, narrow)], ops + [op])
  {
    var p, k, h := op.priority, Place(rest, op.priority), HookOf(op, narrow);
    var now := Inserted(rest, k, h);
    NewestAdd(ops, op);
    forall i, j | 0 <= i < j < |now|
      ensures now[i].priority < now[j].priority || AddOf(ops + [op], now[i].id) < AddOf(ops + [op], now[j].id)
    {
      if i == k {
        assert now[j] == rest[j - 1] && rest[j - 1].priority >= rest[k].priority > p;
      } else if j == k {
        assert now[i] == rest[i] && narrow(rest[i].priority) <= narrow(p);
      } else {
        assert now[i] == rest[if i < k then i else i - 1] && now[j] == rest[if j < k then j else j - 1];
      }
    }
  }

  lemma {:induction false} NewestAdd(ops: seq<Op>, op: Op)
    requires op.Add?
    ensures AddOf(ops + [op], op.id) == |ops|
    ensures forall id | id != op.id :: AddOf(ops + [op], id) < |ops|
  {
    assert (ops + [op])[..|ops|] == ops;
  }

  /** Over any run in which no priority is rounded up, hooks of equal priority are called in
      the order in which they were added. */
  lemma {:induction false} RunIsInOrder(ops: seq<Op>, narrow: real -> real)
    requires IsNarrowing(narrow) && NoneRoundsUp(ops, narrow)
    ensures InOrder(Run(ops, narrow), ops) && InOrder(RunAsMeant(ops, narrow), ops)
  {
    if ops != [] {
      var front, op := ops[..|ops| - 1], ops[|ops| - 1];
      assert ops == front + [op];
      RunIsInOrder(front, narrow);
      RunIsSorted(front, narrow);
      StepIsInOrder(Run(front, narrow), front, op, narrow);
      StepIsInOrder(RunAsMeant(front, narrow), front, op, narrow);
    }
  }

  lemma StepIsInOrder(hooks: seq<Hook>, ops: seq<Op>, op: Op, narrow: real -> real)
    requires InOrder(hooks, ops) && Sorted(hooks) && UniqueIds(hooks) && Stored(hooks, narrow) && IsNarrowing(narrow)
    requires op.Add? ==> narrow(op.priority) <= op.priority
    ensures InOrder(Step(hooks, op, narrow), ops + [op]) && InOrder(StepAsMeant(hooks, op, narrow), ops + [op])
  {
    DropIsInOrder(hooks, ops, op);
    SortedDrop(hooks, op.id, narrow);
    if op.Add? {
      InsertIsInOrder(Drop(hooks, op.id), ops, op, narrow);
    }
  }

  /** A new hook stands after every other of its priority if and only if there is none or its
      priority was not rounded up. */
  lemma {:induction false} RoundedUpGoesFirst(hooks: seq<Hook>, h: Hook, priority: real, narrow: real -> real)
    requires Sorted(hooks) && UniqueIds(hooks) && Stored(hooks, narrow) && IsNarrowing(narrow)
    requires h.priority == narrow(priority)
    ensures var rest := Drop(hooks, h.id); var k := Place(rest, priority);
      (forall i | k <= i < |rest| :: rest[i].priority != h.priority)
        <==> narrow(priority) <= priority || forall i | 0 <= i < |rest| :: rest[i].priority != h.priority
  {
    SortedDrop(hooks, h.id, narrow);
    var rest := Drop(hooks, h.id);
    assert forall i | Place(rest, priority) <= i < |rest| :: rest[i].priority > priority;
  }

  // Two runs that go against the documentation.

  lemma TwoCalls(first: Op, second: Op, narrow: real -> real)
    ensures Run([first, second], narrow) == Step(Step([], first, narrow), second, narrow)
    ensures RunAsMeant([first, second], narrow) == StepAsMeant(StepAsMeant([], first, narrow), second, narrow)
  {
    assert [first, second][..1] == [first] && [first][..0] == [];
    assert Run([first], narrow) == Step(Run([], narrow), first, narrow);
    assert RunAsMeant([first], narrow) == StepAsMeant(RunAsMeant([], narrow), first, narrow);
  }

  lemma PutAfterOne(g: Hook, h: Hook, p: real)
    requires g.id != h.id && g.priority <= p
    ensures Added([g], h, p) == [h] && |AddedAsMeant([g], h, p)| == 2
  {
    assert [g][..0] == [];
    assert Drop([g], h.id) == [g] && Place([g], p) == 1;
  }

  /** Adding in the order of priority leaves only the last hook. */
  lemma SecondAddDropsFirst(narrow: real -> real)
    requires narrow(1.0) == 1.0 && narrow(2.0) == 2.0
    ensures var a, b := Add("a", 1.0, 0, 0), Add("b", 2.0, 0, 0);
      Run([a, b], narrow) == [HookOf(b, narrow)] && |RunAsMeant([a, b], narrow)| == 2
  {
    var a, b := Add("a", 1.0, 0, 0), Add("b", 2.0, 0, 0);
    assert "a"[0] != "b"[0];
    TwoCalls(a, b, narrow);
    PutAfterOne(HookOf(a, narrow), HookOf(b, narrow), 2.0);
    assert Step([], a, narrow) == StepAsMeant([], a, narrow) == [HookOf(a, narrow)];
  }

  /** A priority that a float rounds up is called before its equal that was added earlier. */
  lemma EqualPriorityOvertakes(p: real, narrow: real -> real)
    requires narrow(p) > p
    ensures var a, b := Add("a", p, 0, 0), Add("b", p, 0, 0);
      Run([a, b], narrow) == [HookOf(b, narrow), HookOf(a, narrow)]
  {
    var a, b := Add("a", p, 0, 0), Add("b", p, 0, 0);
    TwoCalls(a, b, narrow);
    PutBeforeOne(HookOf(a, narrow), HookOf(b, narrow), p);
    assert "a"[0] != "b"[0];
    assert Step([], a, narrow) == [HookOf(a, narrow)];
  }

  lemma PutBeforeOne(g: Hook, h: Hook, p: real)
    requires g.id != h.id && g.priority > p
    ensures Added([g], h, p) == [h, g]
  {
    assert [g][..0] == [] && [g][0..] == [g];
    assert Drop([g], h.id) == [g] && Place([g], p) == 0;
  }
}
