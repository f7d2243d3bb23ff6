/** Whole runs of a hash table: it refines a plain map, its resizing is amortised,
    and every value buffer is given up exactly once. */
module TableRuns {
  import opened Options
  import opened Hashes
  import opened Chains
  import opened TableSpec
  import opened HashTables

  datatype Op =
    | OpSet(h: Hash, value: Bytes)
    | OpRemove(h: Hash)
    | OpGet(h: Hash)
    | OpRebuild(size: nat)

  /** The operations whose assertion or division the source leaves to its callers. */
  predicate Allowed(t: Table, op: Op) {
    && (op.OpRemove? ==> t.buckets > 0)
    && (op.OpRebuild? ==> op.size > 0 || t.entries == map[])
  }

  function Step(t: Table, op: Op): Table {
    match op
    case OpSet(h, value) => Set(t, h, value)
    case OpRemove(h) => Remove(t, h)
    case OpGet(_) => t
    case OpRebuild(size) => Rebuilt(t, size)
  }

  function Run(t: Table, ops: seq<Op>): Table {
    if ops == [] then t else Step(Run(t, ops[..|ops| - 1]), ops[|ops| - 1])
  }

  lemma RunSnoc(t: Table, ops: seq<Op>, i: nat)
    requires i < |ops|
    ensures Run(t, ops[..i + 1]) == Step(Run(t, ops[..i]), ops[i])
  {
    assert ops[..i + 1][..i] == ops[..i];
  }

  // Refinement of a map from keys to bytes.

  function Contents(t: Table): map<Hash, Bytes> {
    map h | h in t.entries :: t.entries[h].bytes
  }

  function PlainStep(m: map<Hash, Bytes>, op: Op): map<Hash, Bytes> {
    match op
    case OpSet(h, value) => m[h := value]
    case OpRemove(h) => m - {h}
    case OpGet(_) => m
    case OpRebuild(_) => m
  }

  function PlainRun(m: map<Hash, Bytes>, ops: seq<Op>): map<Hash, Bytes> {
    if ops == [] then m else PlainStep(PlainRun(m, ops[..|ops| - 1]), ops[|ops| - 1])
  }

  lemma BodyContents(t: Table, h: Hash, value: Bytes)
    ensures Contents(Stored(t, h, value)) == Contents(t)[h := value]
    ensures Contents(Removed(t, h)) == Contents(t) - {h}
  {
  }

  lemma StepRefinesMap(t: Table, op: Op)
    ensures Contents(Step(t, op)) == PlainStep(Contents(t), op)
  {
    match op
    case OpSet(h, value) =>
      var g := Resized(t, Grow(|t.entries|, t.buckets));
      assert Contents(g) == Contents(t);
      BodyContents(g, h, value);
    case OpRemove(h) =>
      var g := Resized(t, Shrink(|t.entries|, t.buckets));
      assert Contents(g) == Contents(t);
      BodyContents(g, h, []);
    case _ =>
  }

  lemma {:induction false} RunRefinesMap(t: Table, ops: seq<Op>)
    ensures Contents(Run(t, ops)) == PlainRun(Contents(t), ops)
  {
    if ops != [] {
      RunRefinesMap(t, ops[..|ops| - 1]);
      StepRefinesMap(Run(t, ops[..|ops| - 1]), ops[|ops| - 1]);
    }
  }

  // Amortised cost of resizing.

  function Power4(k: nat): nat {
    if k == 0 then 1 else 4 * Power4(k - 1)
  }

  /** At most two entries a bucket, and 32 times a power of four buckets once there are any. */
  ghost predicate Sized(t: Table) {
    && |t.entries| <= 2 * t.buckets
    && (t.buckets == 0 || exists k: nat :: t.buckets == START_SIZE * Power4(k))
  }

  /** The credit a table holds towards its next rebuild. */
  function Credit(count: nat, buckets: nat): int {
    if 2 * count > buckets then 4 * count - 2 * buckets
    else if buckets >= 512 then buckets / 2 - count
    else 0
  }

  lemma CreditIsNonNegative(count: nat, buckets: nat)
    ensures Credit(count, buckets) >= 0
  {
  }

  lemma {:induction false} SizesAreMultiples(k: nat)
    ensures START_SIZE * Power4(k) % START_SIZE == 0
    ensures k >= 1 ==> START_SIZE * Power4(k) % 128 == 0
    ensures k >= 2 ==> START_SIZE * Power4(k) % 512 == 0
    ensures START_SIZE * Power4(k) >= START_SIZE
    ensures k <= 1 ==> START_SIZE * Power4(k) < 512
  {
    if k > 0 {
      SizesAreMultiples(k - 1);
    }
  }

  lemma GrowKeepsSized(t: Table)
    requires Sized(t)
    ensures var g := Resized(t, Grow(|t.entries|, t.buckets));
      && Sized(g) && |g.entries| + 1 <= 2 * g.buckets
      && g.buckets >= t.buckets
      && 3 * g.moved + Credit(|g.entries|, g.buckets) <= 3 * t.moved + Credit(|t.entries|, t.buckets)
  {
    if t.buckets == 0 {
      assert START_SIZE == START_SIZE * Power4(0);
    } else {
      var k: nat :| t.buckets == START_SIZE * Power4(k);
      SizesAreMultiples(k);
      assert 4 * t.buckets == START_SIZE * Power4(k + 1);
    }
  }

  lemma ShrinkKeepsSized(t: Table)
    requires Sized(t)
    ensures var s := Resized(t, Shrink(|t.entries|, t.buckets));
      && Sized(s)
      && (t.buckets >= 128 ==> s.buckets >= 128)
      && 3 * s.moved + Credit(|s.entries|, s.buckets) <= 3 * t.moved + Credit(|t.entries|, t.buckets)
  {
    if t.buckets > 0 {
      var k: nat :| t.buckets == START_SIZE * Power4(k);
      SizesAreMultiples(k);
      if k > 0 {
        SizesAreMultiples(k - 1);
        assert t.buckets / 4 == START_SIZE * Power4(k - 1);
      }
    }
  }

  lemma StoredSize(t: Table, h: Hash, value: Bytes)
    ensures var s := Stored(t, h, value);
      && s.buckets == t.buckets && s.moved == t.moved
      && |t.entries| <= |s.entries| <= |t.entries| + 1
  {
  }

  lemma RemovedSize(t: Table, h: Hash)
    ensures var s := Removed(t, h);
      && s.buckets == t.buckets && s.moved == t.moved
      && |s.entries| <= |t.entries| <= |s.entries| + 1
  {
  }

  /** `s` keeps the sizes right and has paid for its moves with `pay` and the credit. */
  ghost predicate Pays(t: Table, s: Table, pay: nat) {
    && Sized(s) && (t.buckets >= 128 ==> s.buckets >= 128)
    && 3 * s.moved + Credit(|s.entries|, s.buckets) <= 3 * t.moved + Credit(|t.entries|, t.buckets) + pay
  }

  /** One set or remove pays at most four thirds of a move, averaged by the credit. */
  lemma StepIsAmortised(t: Table, op: Op)
    requires Sized(t) && !op.OpRebuild?
    ensures Pays(t, Step(t, op), if op.OpGet? then 0 else 4)
  {
    match op
    case OpSet(h, value) =>
      GrowKeepsSized(t);
      StoredPays(Resized(t, Grow(|t.entries|, t.buckets)), h, value);
    case OpRemove(h) =>
      ShrinkKeepsSized(t);
      RemovedPays(Resized(t, Shrink(|t.entries|, t.buckets)), h);
    case OpGet(_) =>
  }

  lemma StoredPays(t: Table, h: Hash, value: Bytes)
    requires Sized(t) && |t.entries| + 1 <= 2 * t.buckets
    ensures Pays(t, Stored(t, h, value), 4)
  {
    StoredSize(t, h, value);
  }

  lemma RemovedPays(t: Table, h: Hash)
    requires Sized(t)
    ensures Pays(t, Removed(t, h), 4)
  {
    RemovedSize(t, h);
  }

  function Updates(ops: seq<Op>): nat {
    if ops == [] then 0
    else Updates(ops[..|ops| - 1]) + if ops[|ops| - 1].OpGet? then 0 else 1
  }

  lemma {:induction false} RunKeepsCredit(ops: seq<Op>)
    requires forall i | 0 <= i < |ops| :: !ops[i].OpRebuild?
    ensures var t := Run(NEW_TABLE, ops);
      Sized(t) && 3 * t.moved + Credit(|t.entries|, t.buckets) <= 4 * Updates(ops)
  {
    if ops != [] {
      RunKeepsCredit(ops[..|ops| - 1]);
      StepIsAmortised(Run(NEW_TABLE, ops[..|ops| - 1]), ops[|ops| - 1]);
    }
  }

  /** Over any run without direct rebuilds: three moves per four updates at most, and the
      table is never more than twice as full as it has buckets. */
  lemma ResizingIsAmortised(ops: seq<Op>)
    requires forall i | 0 <= i < |ops| :: !ops[i].OpRebuild?
    ensures var t := Run(NEW_TABLE, ops);
      3 * t.moved <= 4 * Updates(ops) && Sized(t)
  {
    RunKeepsCredit(ops);
    var t := Run(NEW_TABLE, ops);
    CreditIsNonNegative(|t.entries|, t.buckets);
  }

  /** A table of 512 buckets or more keeps an eighth of them. */
  predicate Dense(t: Table) {
    t.buckets >= 512 ==> 8 * |t.entries| >= t.buckets
  }

  /** From 512 buckets on the sizes are multiples of 512, and a quarter of one is 128 or another. */
  lemma SizesByFour(t: Table)
    requires Sized(t)
    ensures t.buckets == 0 || t.buckets == 32 || t.buckets == 128 || (t.buckets >= 512 && t.buckets % 512 == 0)
  {
    if t.buckets > 0 {
      var k: nat :| t.buckets == START_SIZE * Power4(k);
      SizesAreMultiples(k);
      if k == 0 {
        assert t.buckets == 32;
      } else if k == 1 {
        assert Power4(1) == 4 * Power4(0);
      } else {
        SizesAtLeast512(k);
      }
    }
  }

  lemma {:induction false} SizesAtLeast512(k: nat)
    requires k >= 2
    ensures START_SIZE * Power4(k) >= 512
  {
    if k == 2 {
      assert Power4(2) == 4 * Power4(1) && Power4(1) == 4 * Power4(0);
    } else {
      SizesAtLeast512(k - 1);
    }
  }

  /** What one call does to the number of buckets. */
  lemma SetBuckets(t: Table, h: Hash, value: Bytes)
    requires Sized(t) && Dense(t)
    ensures var s := Set(t, h, value);
      && s.buckets ==
           (if |t.entries| + 1 <= 2 * t.buckets then t.buckets else if t.buckets == 0 then 32 else 4 * t.buckets)
      && Dense(s)
  {
    SizesByFour(t);
    StoredSize(Resized(t, Grow(|t.entries|, t.buckets)), h, value);
  }

  lemma RemoveBuckets(t: Table, h: Hash)
    requires Sized(t) && Dense(t)
    ensures var s := Remove(t, h);
      && s.buckets == (if t.buckets >= 512 && 8 * (|t.entries| - 1) < t.buckets then t.buckets / 4 else t.buckets)
      && Dense(s)
  {
    SizesByFour(t);
    ShrinkByFour(|t.entries|, t.buckets);
    RemovedSize(Resized(t, Shrink(|t.entries|, t.buckets)), h);
  }

  lemma ShrinkByFour(count: nat, buckets: nat)
    requires buckets == 0 || buckets == 32 || buckets == 128 || (buckets >= 512 && buckets % 512 == 0)
    requires buckets >= 512 ==> 8 * count >= buckets
    ensures Shrink(count, buckets) == if buckets >= 512 && 8 * (count - 1) < buckets then To(buckets / 4) else Stay
  {
  }

  /** Over any run without direct rebuilds a table is never sparse. */
  lemma {:induction false} RunIsDense(ops: seq<Op>)
    requires forall i | 0 <= i < |ops| :: !ops[i].OpRebuild?
    ensures var t := Run(NEW_TABLE, ops);
      Sized(t) && (t.buckets >= 512 ==> 8 * |t.entries| >= t.buckets)
  {
    if ops != [] {
      var t, op := Run(NEW_TABLE, ops[..|ops| - 1]), ops[|ops| - 1];
      RunIsDense(ops[..|ops| - 1]);
      StepIsAmortised(t, op);
      match op {
        case OpSet(h, value) => SetBuckets(t, h, value);
        case OpRemove(h) => RemoveBuckets(t, h);
        case OpGet(_) =>
      }
    }
  }

  /** A set has four times the buckets when one more would be too many, at first 32; a removal has
      a quarter when, from 512 buckets on, an eighth would not be kept; nothing else changes them. */
  predicate Resizes(t: Table, t': Table, op: Op) {
    match op
    case OpSet(_, _) =>
      t'.buckets == if |t.entries| + 1 <= 2 * t.buckets then t.buckets else if t.buckets == 0 then 32 else 4 * t.buckets
    case OpRemove(_) =>
      if t.buckets >= 512 && 8 * (|t.entries| - 1) < t.buckets then 4 * t'.buckets == t.buckets
      else t'.buckets == t.buckets
    case OpGet(_) => t' == t
    case OpRebuild(size) => t'.buckets == size
  }

  lemma StepResizes(t: Table, op: Op)
    requires Sized(t) && Dense(t)
    ensures Resizes(t, Step(t, op), op)
  {
    SizesByFour(t);
    match op
    case OpSet(h, value) => SetBuckets(t, h, value);
    case OpRemove(h) => RemoveBuckets(t, h);
    case _ =>
  }

  lemma CallsResize(ops: seq<Op>, op: Op)
    requires forall i | 0 <= i < |ops| :: !ops[i].OpRebuild?
    ensures Resizes(Run(NEW_TABLE, ops), Run(NEW_TABLE, ops + [op]), op)
  {
    assert (ops + [op])[..|ops|] == ops;
    RunIsDense(ops);
    StepResizes(Run(NEW_TABLE, ops), op);
  }

  /** For a table of any size: the same set, and a removal that leaves fewer than an eighth has a
      quarter, from 132 buckets on; but a table without entries keeps its buckets. */
  lemma AnyTableResizes(t: Table, op: Op)
    requires t.buckets < 0x1_0000_0000_0000_0000
    ensures var t', n := Step(t, op), |t.entries|;
      && (op.OpSet? ==>
            t'.buckets == if n + 1 <= 2 * t.buckets then t.buckets else if t.buckets < 8 then 32 else 4 * t.buckets)
      && (op.OpRemove? ==>
            t'.buckets == if 0 < n && n - 1 < t.buckets / 8 && t.buckets >= 132 then t.buckets / 4 else t.buckets)
  {
    match op
    case OpSet(h, value) => StoredSize(Resized(t, Grow(|t.entries|, t.buckets)), h, value);
    case OpRemove(h) => RemovedSize(Resized(t, Shrink(|t.entries|, t.buckets)), h);
    case _ =>
  }

  /** The comment in the source has 128 buckets shrink to 32; the strict test never lets them. */
  lemma {:induction false} NeverBackBelow128(t: Table, ops: seq<Op>)
    requires Sized(t) && t.buckets >= 128
    requires forall i | 0 <= i < |ops| :: !ops[i].OpRebuild?
    ensures Sized(Run(t, ops)) && Run(t, ops).buckets >= 128
  {
    if ops != [] {
      NeverBackBelow128(t, ops[..|ops| - 1]);
      StepIsAmortised(Run(t, ops[..|ops| - 1]), ops[|ops| - 1]);
    }
  }

  // Ownership of value buffers.

  /** Every buffer made is either live under one key or freed once, never both. */
  ghost predicate Balanced(t: Table) {
    && (forall h | h in t.entries :: t.entries[h].id < t.minted)
    && (forall g, h | g in t.entries && h in t.entries && g != h :: t.entries[g].id != t.entries[h].id)
    && (forall i | 0 <= i < |t.freed| :: t.freed[i].id < t.minted)
    && (forall i, j | 0 <= i < j < |t.freed| :: t.freed[i].id != t.freed[j].id)
    && (forall i, h | 0 <= i < |t.freed| && h in t.entries :: t.freed[i].id != t.entries[h].id)
    && t.minted == |t.entries| + |t.freed|
  }

  lemma StepKeepsBalance(t: Table, op: Op)
    requires Balanced(t)
    ensures Balanced(Step(t, op))
  {
    match op
    case OpSet(h, value) =>
      var g := Resized(t, Grow(|t.entries|, t.buckets));
      assert Balanced(g);
      StoredKeepsBalance(g, h, value);
    case OpRemove(h) =>
      var s := Resized(t, Shrink(|t.entries|, t.buckets));
      assert Balanced(s);
      RemovedKeepsBalance(s, h);
    case _ =>
  }

  lemma StoredKeepsBalance(t: Table, h: Hash, value: Bytes)
    requires Balanced(t)
    ensures Balanced(Stored(t, h, value))
  {
    if h in t.entries && t.entries[h].bytes == value {
    } else if h in t.entries {
      RemovedKeepsBalance(t, h);
      StoredIsFresh(t, h, value);
      FreshKeepsBalance(Removed(t, h), Stored(t, h, value), h, value);
    } else {
      FreshKeepsBalance(t, Stored(t, h, value), h, value);
    }
  }

  /** Overwriting is removing and storing anew. */
  lemma StoredIsFresh(t: Table, h: Hash, value: Bytes)
    requires h in t.entries && t.entries[h].bytes != value
    ensures var r, s := Removed(t, h), Stored(t, h, value);
      s.entries == r.entries[h := Buffer(r.minted, value)] && s.freed == r.freed && s.minted == r.minted + 1
  {
  }

  /** A new buffer under a key that has none. */
  lemma FreshKeepsBalance(t: Table, s: Table, h: Hash, value: Bytes)
    requires Balanced(t) && h !in t.entries
    requires s.entries == t.entries[h := Buffer(t.minted, value)] && s.minted == t.minted + 1 && s.freed == t.freed
    ensures Balanced(s)
  {
    assert |s.entries| == |t.entries| + 1;
  }

  lemma RemovedKeepsBalance(t: Table, h: Hash)
    requires Balanced(t)
    ensures Balanced(Removed(t, h))
  {
    if h in t.entries {
      WithoutKey(t.entries, h);
      var freed := t.freed + [t.entries[h]];
      FreedAreDistinct(t, h, freed);
      assert Removed(t, h).freed == freed;
    }
  }

  lemma FreedAreDistinct(t: Table, h: Hash, freed: seq<Buffer>)
    requires Balanced(t) && h in t.entries && freed == t.freed + [t.entries[h]]
    ensures forall i | 0 <= i < |freed| :: freed[i].id < t.minted
    ensures forall i, j | 0 <= i < j < |freed| :: freed[i].id != freed[j].id
    ensures forall i, g | 0 <= i < |freed| && g in t.entries && g != h :: freed[i].id != t.entries[g].id
  {
    assert forall i | 0 <= i < |t.freed| :: freed[i] == t.freed[i];
  }

  /** The key that had this buffer has it no more. */
  ghost predicate Leaves(b: Buffer, t: Table, t': Table) {
    exists h :: h in t.entries && t.entries[h] == b && !(h in t'.entries && t'.entries[h] == b)
  }

  lemma StepFreesWhatLeaves(t: Table, op: Op, b: Buffer)
    requires Balanced(t)
    ensures b in Step(t, op).freed <==> b in t.freed || Leaves(b, t, Step(t, op))
  {
    match op
    case OpSet(h, value) => BodyFrees(t, Resized(t, Grow(|t.entries|, t.buckets)), op, b);
    case OpRemove(h) => BodyFrees(t, Resized(t, Shrink(|t.entries|, t.buckets)), op, b);
    case _ =>
  }

  lemma BodyFrees(t: Table, r: Table, op: Op, b: Buffer)
    requires Balanced(t) && (op.OpSet? || op.OpRemove?)
    requires r.entries == t.entries && r.freed == t.freed && r.minted == t.minted
    ensures var s := if op.OpSet? then Stored(r, op.h, op.value) else Removed(r, op.h);
      b in s.freed <==> b in t.freed || Leaves(b, t, s)
  {
    var s := if op.OpSet? then Stored(r, op.h, op.value) else Removed(r, op.h);
    assert forall h | h in t.entries && h != op.h :: h in s.entries && s.entries[h] == t.entries[h];
    if op.h in t.entries && !(op.OpSet? && t.entries[op.h].bytes == op.value) {
      assert s.freed == t.freed + [t.entries[op.h]];
      assert !(op.h in s.entries && s.entries[op.h] == t.entries[op.h]);
    } else {
      assert s.freed == t.freed;
    }
  }

  /** The `d`th call of the run has taken this buffer from its key. */
  ghost predicate TakenAt(ops: seq<Op>, d: nat, b: Buffer) {
    d < |ops| && Leaves(b, Run(NEW_TABLE, ops[..d]), Run(NEW_TABLE, ops[..d + 1]))
  }

  lemma TakenAtFront(ops: seq<Op>, d: nat, b: Buffer)
    requires d < |ops|
    ensures var front := ops[..|ops| - 1];
      TakenAt(ops, d, b) <==>
        if d < |front| then TakenAt(front, d, b) else Leaves(b, Run(NEW_TABLE, front), Run(NEW_TABLE, ops))
  {
    var front := ops[..|ops| - 1];
    if d < |front| {
      assert ops[..d] == front[..d] && ops[..d + 1] == front[..d + 1];
    } else {
      assert ops[..d + 1] == ops;
    }
  }

  /** Over a whole run, a buffer has been freed if and only if some call has taken it from its key. */
  lemma {:induction false} RunFreesWhatLeaves(ops: seq<Op>, b: Buffer)
    ensures b in Run(NEW_TABLE, ops).freed <==> exists d :: TakenAt(ops, d, b)
  {
    if ops != [] {
      var front := ops[..|ops| - 1];
      RunKeepsBalance(NEW_TABLE, front);
      RunFreesWhatLeaves(front, b);
      StepFreesWhatLeaves(Run(NEW_TABLE, front), ops[|ops| - 1], b);
      forall d: nat | d < |ops|
        ensures TakenAt(ops, d, b) <==>
          if d < |front| then TakenAt(front, d, b) else Leaves(b, Run(NEW_TABLE, front), Run(NEW_TABLE, ops))
      {
        TakenAtFront(ops, d, b);
      }
      assert TakenAt(ops, |front|, b) <==> Leaves(b, Run(NEW_TABLE, front), Run(NEW_TABLE, ops));
    }
  }

  lemma {:induction false} RunKeepsBalance(t: Table, ops: seq<Op>)
    requires Balanced(t)
    ensures Balanced(Run(t, ops))
    ensures Run(t, ops).deleter == t.deleter
    ensures t.deleter && t.handed == t.freed ==> Run(t, ops).handed == Run(t, ops).freed
    ensures !t.deleter ==> Run(t, ops).handed == t.handed
  {
    if ops != [] {
      RunKeepsBalance(t, ops[..|ops| - 1]);
      StepKeepsBalance(Run(t, ops[..|ops| - 1]), ops[|ops| - 1]);
      StepHandsOver(Run(t, ops[..|ops| - 1]), ops[|ops| - 1]);
    }
  }

  lemma StepHandsOver(t: Table, op: Op)
    ensures Step(t, op).deleter == t.deleter
    ensures t.deleter && t.handed == t.freed ==> Step(t, op).handed == Step(t, op).freed
    ensures !t.deleter ==> Step(t, op).handed == t.handed
  {
  }

  /** What the lookups of a run over a plain map answer, in order. */
  function PlainAnswers(m: map<Hash, Bytes>, ops: seq<Op>): seq<Option<Bytes>> {
    if ops == [] then []
    else
      var front, op := ops[..|ops| - 1], ops[|ops| - 1];
      var before := PlainRun(m, front);
      PlainAnswers(m, front) +
      if op.OpGet? then [if op.h in before then Some(before[op.h]) else None] else []
  }

  /** One operation on the heap table; a lookup answers. */
  method Apply(table: HashTable, op: Op) returns (answers: seq<Option<Bytes>>)
    requires table.Valid() && Allowed(table.Table(), op)
    modifies table.repr
    ensures table.Valid() && fresh(table.repr - old(table.repr))
    ensures table.Table() == Step(old(table.Table()), op)
    ensures var m := Contents(old(table.Table()));
      answers == if op.OpGet? then [if op.h in m then Some(m[op.h]) else None] else []
  {
    answers := [];
    match op {
      case OpSet(h, value) => table.Set(h, Some(value));
      case OpRemove(h) => table.Set(h, None);
      case OpRebuild(size) => table.Rebuild(size);
      case OpGet(h) =>
        var found := table.Get(h);
        answers := [if found.Some? then Some(found.value.bytes) else None];
    }
  }

  lemma AnswersSnoc(t: Table, ops: seq<Op>, i: nat)
    requires i < |ops|
    ensures Run(t, ops[..i + 1]) == Step(Run(t, ops[..i]), ops[i])
    ensures var m, op := Contents(Run(t, ops[..i])), ops[i];
      PlainAnswers(Contents(t), ops[..i + 1]) == PlainAnswers(Contents(t), ops[..i]) +
        if op.OpGet? then [if op.h in m then Some(m[op.h]) else None] else []
  {
    RunSnoc(t, ops, i);
    RunRefinesMap(t, ops[..i]);
    assert ops[..i + 1][..i] == ops[..i];
  }

  /** Any allowed run of the heap table itself answers every lookup as the plain map does. */
  method Replay(ops: seq<Op>, deleter: bool) returns (table: HashTable, answers: seq<Option<Bytes>>)
    requires forall i | 0 <= i < |ops| :: Allowed(Run(NEW_TABLE.(deleter := deleter), ops[..i]), ops[i])
    ensures table.Valid() && fresh(table.repr)
    ensures table.Table() == Run(NEW_TABLE.(deleter := deleter), ops)
    ensures answers == PlainAnswers(map[], ops)
  {
    table := new HashTable();
    table.OnDelete(deleter);
    answers := [];
    ghost var start := NEW_TABLE.(deleter := deleter);
    assert Contents(start) == map[];
    for i := 0 to |ops|
      invariant table.Valid() && fresh(table.repr)
      invariant table.Table() == Run(start, ops[..i])
      invariant answers == PlainAnswers(map[], ops[..i])
    {
      AnswersSnoc(start, ops, i);
      var some := Apply(table, ops[i]);
      answers := answers + some;
    }
    assert ops[..|ops|] == ops;
  }

  /** A table's whole life: its deleter sees every buffer it ever made, each exactly once. */
  method Lifetime(ops: seq<Op>) returns (handed: seq<Buffer>, minted: nat)
    requires forall i | 0 <= i < |ops| :: Allowed(Run(NEW_TABLE.(deleter := true), ops[..i]), ops[i])
    ensures minted == Run(NEW_TABLE.(deleter := true), ops).minted
    ensures |handed| == minted
    ensures forall i | 0 <= i < |handed| :: handed[i].id < minted
    ensures forall i, j | 0 <= i < j < |handed| :: handed[i].id != handed[j].id
  {
    var table, _ := Replay(ops, true);
    ghost var t := table.Table();
    RunKeepsBalance(NEW_TABLE.(deleter := true), ops);
    minted := table.minted;
    ghost var last := table.Delete();
    handed := table.handed;
    ListsCount(last, t.entries);
    EndOfLife(t, last);
  }

  lemma EndOfLife(t: Table, last: Chain)
    requires Balanced(t) && Lists(last, t.entries) && |last| == |t.entries|
    ensures var all := t.freed + Data(last);
      && |all| == t.minted
      && (forall i | 0 <= i < |all| :: all[i].id < t.minted)
      && (forall i, j | 0 <= i < j < |all| :: all[i].id != all[j].id)
  {
    var all, n := t.freed + Data(last), |t.freed|;
    forall i | 0 <= i < |all| ensures i < n ==> all[i] == t.freed[i]
      ensures i >= n ==> all[i] == last[i - n].data == t.entries[last[i - n].hash]
    {
    }
  }
}
