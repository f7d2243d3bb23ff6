/** The handle table of handle.c: reference counts, and a deleter run when one gets to zero. */
module Handles {
  import opened Options

  const MAX_REFS := 255
  const HANDLE_MODULUS := 0x1_0000_0000_0000_0000

  // What runs of calls mean.

  type Positive = n: int | n > 0 witness 1

  /** `data` and `deleter` stand for pointers; a null deleter is never called. */
  datatype Entry = Entry(data: nat, deleter: Option<nat>, count: Positive)

  /** The handles that are live, and the last one issued. */
  datatype Table = Table(live: map<nat, Entry>, issued: nat)

  const EMPTY := Table(map[], 0)

  datatype Call = New(data: nat, deleter: Option<nat>) | Reference(handle: nat) | Unreference(handle: nat)

  datatype Event =
    | Created(handle: nat, data: nat, deleter: Option<nat>)
    | Referenced(handle: nat)
    | Unreferenced(handle: nat)
    | Destroyed(handle: nat, data: nat, deleter: Option<nat>)

  /** The other calls end the program: New when the numbers have run out, and the use of a
      handle that is not live. */
  predicate Allowed(t: Table, c: Call) {
    match c
    case New(_, _) => |t.live| < MAX_REFS ==> t.issued + 1 < HANDLE_MODULUS
    case Reference(h) => h in t.live
    case Unreference(h) => h in t.live
  }

  function Step(t: Table, c: Call): Table {
    if !Allowed(t, c) then t
    else
      match c
      case New(data, deleter) =>
        if |t.live| >= MAX_REFS then t else Table(t.live[t.issued + 1 := Entry(data, deleter, 1)], t.issued + 1)
      case Reference(h) => t.(live := t.live[h := t.live[h].(count := t.live[h].count + 1)])
      case Unreference(h) =>
        if t.live[h].count == 1 then t.(live := t.live - {h})
        else t.(live := t.live[h := t.live[h].(count := t.live[h].count - 1)])
  }

  function Events(t: Table, c: Call): seq<Event> {
    if !Allowed(t, c) then []
    else
      match c
      case New(data, deleter) => if |t.live| >= MAX_REFS then [] else [Created(t.issued + 1, data, deleter)]
      case Reference(h) => [Referenced(h)]
      case Unreference(h) =>
        [Unreferenced(h)] + if t.live[h].count == 1 then [Destroyed(h, t.live[h].data, t.live[h].deleter)] else []
  }

  function Run(calls: seq<Call>): Table {
    if calls == [] then EMPTY else Step(Run(calls[..|calls| - 1]), calls[|calls| - 1])
  }

  function Trace(calls: seq<Call>): seq<Event> {
    if calls == [] then []
    else Trace(calls[..|calls| - 1]) + Events(Run(calls[..|calls| - 1]), calls[|calls| - 1])
  }

  function Creations(tr: seq<Event>, h: nat): nat {
    if tr == [] then 0
    else Creations(tr[..|tr| - 1], h) + var e := tr[|tr| - 1]; if e.Created? && e.handle == h then 1 else 0
  }

  function Destructions(tr: seq<Event>, h: nat): nat {
    if tr == [] then 0
    else Destructions(tr[..|tr| - 1], h) + var e := tr[|tr| - 1]; if e.Destroyed? && e.handle == h then 1 else 0
  }

  /** Creation and references, less unreferences. */
  function Balance(tr: seq<Event>, h: nat): int {
    if tr == [] then 0
    else
      var e := tr[|tr| - 1];
      Balance(tr[..|tr| - 1], h) +
      if e.handle != h then 0
      else
        match e
        case Created(_, _, _) => 1
        case Referenced(_) => 1
        case Unreferenced(_) => -1
        case _ => 0
  }

  /** What the history says of one handle. */
  predicate Accounted(t: Table, tr: seq<Event>, h: nat) {
    var issued := 0 < h <= t.issued;
    && (h in t.live ==> issued)
    && Creations(tr, h) == (if issued then 1 else 0)
    && Destructions(tr, h) == (if issued && h !in t.live then 1 else 0)
    && Balance(tr, h) == (if h in t.live then t.live[h].count else 0)
  }

  /** What it says of the data: it stays what was stored, and is what the deleter is handed. */
  predicate DataKept(t: Table, tr: seq<Event>, h: nat) {
    && (h in t.live ==> Created(h, t.live[h].data, t.live[h].deleter) in tr)
    && (forall i | 0 <= i < |tr| && tr[i].Destroyed? && tr[i].handle == h ::
          Created(h, tr[i].data, tr[i].deleter) in tr[..i])
  }

  lemma OneMoreEvent(tr: seq<Event>, e: Event, h: nat)
    ensures Creations(tr + [e], h) == Creations(tr, h) + if e.Created? && e.handle == h then 1 else 0
    ensures Destructions(tr + [e], h) == Destructions(tr, h) + if e.Destroyed? && e.handle == h then 1 else 0
    ensures Balance(tr + [e], h) == Balance(tr, h) +
      if e.handle != h then 0
      else
        match e
        case Created(_, _, _) => 1
        case Referenced(_) => 1
        case Unreferenced(_) => -1
        case _ => 0
  {
    assert (tr + [e])[..|tr|] == tr;
  }

  /** The call issues the next number. */
  predicate Issues(t: Table, c: Call) {
    c.New? && |t.live| < MAX_REFS && Allowed(t, c)
  }

  /** What the call adds to the references of `h`. */
  function Change(t: Table, c: Call, h: nat): int {
    match c
    case New(_, _) => if Issues(t, c) && h == t.issued + 1 then 1 else 0
    case Reference(g) => if g == h && h in t.live then 1 else 0
    case Unreference(g) => if g == h && h in t.live then -1 else 0
  }

  lemma EventsCount(t: Table, tr: seq<Event>, c: Call, h: nat)
    ensures var all := tr + Events(t, c);
      && Creations(all, h) == Creations(tr, h) + (if c.New? then Change(t, c, h) else 0)
      && Destructions(all, h) == Destructions(tr, h) +
           (if c.Unreference? && c.handle == h && h in t.live && t.live[h].count == 1 then 1 else 0)
      && Balance(all, h) == Balance(tr, h) + Change(t, c, h)
  {
    var es := Events(t, c);
    if |es| == 0 {
      assert tr + es == tr;
    } else if |es| == 1 {
      assert es == [es[0]];
      OneMoreEvent(tr, es[0], h);
    } else {
      assert es == [es[0], es[1]] && tr + es == tr + [es[0]] + [es[1]];
      OneMoreEvent(tr, es[0], h);
      OneMoreEvent(tr + [es[0]], es[1], h);
    }
  }

  lemma StepAccounts(t: Table, tr: seq<Event>, c: Call, h: nat)
    requires Accounted(t, tr, h) && Accounted(t, tr, t.issued + 1)
    ensures Accounted(Step(t, c), tr + Events(t, c), h)
  {
    EventsCount(t, tr, c, h);
  }

  lemma StepKeepsData(t: Table, tr: seq<Event>, c: Call, h: nat)
    requires DataKept(t, tr, h)
    ensures DataKept(Step(t, c), tr + Events(t, c), h)
  {
    var es := Events(t, c);
    var all := tr + es;
    forall i | 0 <= i < |all| && all[i].Destroyed? && all[i].handle == h
      ensures Created(h, all[i].data, all[i].deleter) in all[..i]
    {
      if i < |tr| {
        assert all[..i] == tr[..i];
      } else {
        assert tr <= all[..i];
      }
    }
  }

  /** Over any run: a handle is created at most once, so never issued again; while it is live
      its count is the references to it; and it is destroyed once, when they are gone. */
  lemma {:induction false} RunIsAccounted(calls: seq<Call>, h: nat)
    ensures Accounted(Run(calls), Trace(calls), h) && DataKept(Run(calls), Trace(calls), h)
  {
    if calls != [] {
      var front, c := calls[..|calls| - 1], calls[|calls| - 1];
      RunIsAccounted(front, h);
      RunIsAccounted(front, Run(front).issued + 1);
      StepAccounts(Run(front), Trace(front), c, h);
      StepKeepsData(Run(front), Trace(front), c, h);
    }
  }

  // The table itself.

  datatype Ref = Ref(typ: string, id: nat, data: nat, deleter: Option<nat>, count: nat)

  function Used(s: seq<Ref>): (n: nat)
    ensures n <= |s|
  {
    if s == [] then 0 else Used(s[..|s| - 1]) + if s[|s| - 1].id != 0 then 1 else 0
  }

  lemma {:induction false} UsedUpdate(s: seq<Ref>, i: nat, r: Ref)
    requires i < |s|
    ensures Used(s[i := r]) == Used(s) + (if r.id != 0 then 1 else 0) - if s[i].id != 0 then 1 else 0
  {
    var n := |s| - 1;
    if i < n {
      assert s[i := r][..n] == s[..n][i := r];
      UsedUpdate(s[..n], i, r);
    } else {
      assert s[i := r][..n] == s[..n];
    }
  }

  lemma {:induction false} AllUsed(s: seq<Ref>)
    ensures Used(s) == |s| <==> forall i | 0 <= i < |s| :: s[i].id != 0
  {
    if s != [] {
      var front := s[..|s| - 1];
      AllUsed(front);
      assert forall i | 0 <= i < |front| :: s[i] == front[i];
    }
  }

  ghost predicate HasId(s: seq<Ref>, h: nat) {
    exists i | 0 <= i < |s| :: s[i].id == h
  }

  ghost predicate Matches(r: Ref, live: map<nat, Entry>) {
    r.id != 0 ==>
      r.id in live && r.count == live[r.id].count && r.data == live[r.id].data && r.deleter == live[r.id].deleter
  }

  ghost predicate Distinct(s: seq<Ref>) {
    forall i, j | 0 <= i < j < |s| && s[i].id != 0 :: s[i].id != s[j].id
  }

  ghost predicate AllMatch(s: seq<Ref>, live: map<nat, Entry>) {
    forall i | 0 <= i < |s| :: Matches(s[i], live)
  }

  /** Each slot in use is one live handle's, and each live handle has one. */
  ghost predicate Holds(s: seq<Ref>, live: map<nat, Entry>) {
    && AllMatch(s, live)
    && (forall h | h in live :: h != 0 && HasId(s, h))
    && Distinct(s) && |live| == Used(s)
  }

  lemma HasIdStays(s: seq<Ref>, i: nat, r: Ref, h: nat)
    requires i < |s| && HasId(s, h) && (s[i].id == h ==> r.id == h)
    ensures HasId(s[i := r], h)
  {
    var j :| 0 <= j < |s| && s[j].id == h;
    assert s[i := r][j].id == h;
  }

  lemma DistinctStays(s: seq<Ref>, i: nat, r: Ref)
    requires Distinct(s) && i < |s| && (r.id != 0 && r.id != s[i].id ==> !HasId(s, r.id))
    ensures Distinct(s[i := r])
  {
  }

  lemma NotYetThere(s: seq<Ref>, live: map<nat, Entry>, h: nat)
    requires Holds(s, live) && h != 0 && h !in live
    ensures !HasId(s, h)
  {
    forall j | 0 <= j < |s| ensures s[j].id != h {
      assert Matches(s[j], live);
    }
  }

  lemma MatchesPut(s: seq<Ref>, live: map<nat, Entry>, i: nat, r: Ref)
    requires AllMatch(s, live) && i < |s| && r.id != 0 && r.count > 0
    requires forall j | 0 <= j < |s| && j != i :: s[j].id != r.id
    ensures AllMatch(s[i := r], live[r.id := Entry(r.data, r.deleter, r.count)])
  {
    forall j | 0 <= j < |s| && j != i ensures Matches(s[j], live[r.id := Entry(r.data, r.deleter, r.count)]) {
      assert Matches(s[j], live);
    }
  }

  /** A slot, free or its own, is given to a handle. */
  lemma HoldsPut(s: seq<Ref>, live: map<nat, Entry>, i: nat, r: Ref)
    requires Holds(s, live) && i < |s| && r.id != 0 && r.count > 0
    requires if r.id in live then s[i].id == r.id else s[i].id == 0
    ensures Holds(s[i := r], live[r.id := Entry(r.data, r.deleter, r.count)])
  {
    var s', live' := s[i := r], live[r.id := Entry(r.data, r.deleter, r.count)];
    UsedUpdate(s, i, r);
    assert live'.Keys == live.Keys + {r.id};
    if r.id !in live {
      NotYetThere(s, live, r.id);
    }
    DistinctStays(s, i, r);
    assert s'[i].id == r.id;
    forall h | h in live' ensures h != 0 && HasId(s', h) {
      if h != r.id {
        HasIdStays(s, i, r, h);
      }
    }
    MatchesPut(s, live, i, r);
  }

  /** A live handle's slot is freed. */
  lemma HoldsClear(s: seq<Ref>, live: map<nat, Entry>, i: nat, r: Ref)
    requires Holds(s, live) && i < |s| && s[i].id != 0 && r.id == 0
    ensures Holds(s[i := r], live - {s[i].id})
  {
    var s', live' := s[i := r], live - {s[i].id};
    UsedUpdate(s, i, r);
    assert Matches(s[i], live);
    assert live'.Keys == live.Keys - {s[i].id};
    DistinctStays(s, i, r);
    forall h | h in live' ensures HasId(s', h) {
      HasIdStays(s, i, r, h);
    }
    forall j | 0 <= j < |s| ensures Matches(s'[j], live') {
      assert Matches(s[j], live);
    }
  }

  ghost predicate Issued(live: map<nat, Entry>, last: nat) {
    forall h | h in live :: h <= last
  }

  /** What a call returns; Ends is a failed assertion or a fatal error. */
  datatype Answer = Handle(handle: nat) | Done | Data(data: nat) | Ends

  class HandleTable {
    const refs: array<Ref>
    var curid: nat
    ghost var live: map<nat, Entry>

    ghost predicate Valid()
      reads this, refs
    {
      && refs.Length == MAX_REFS && curid < HANDLE_MODULUS
      && Holds(refs[..], live) && Issued(live, curid)
    }

    ghost function State(): Table
      reads this
    {
      Table(live, curid)
    }

    constructor ()
      ensures Valid() && State() == EMPTY && fresh(refs)
    {
      refs := new Ref[MAX_REFS](_ => Ref([], 0, 0, None, 0));
      curid, live := 0, map[];
      new;
      NoneUsed(refs[..]);
    }

    /** new_handle and what cflare_handle_new stores. The type's name must fit its field. */
    method New(typ: string, data: nat, deleter: Option<nat>) returns (r: Answer)
      requires Valid() && |typ| < 32
      modifies this, refs
      ensures r != Ends ==> Valid() && State() == Step(old(State()), Call.New(data, deleter))
      ensures r == Ends <==> !Allowed(old(State()), Call.New(data, deleter))
      ensures r != Ends ==> r == Handle(if |old(live)| >= 255 then 0 else old(curid) + 1)
    {
      NewIs(State(), data, deleter);
      var i := FindFree();
      if i == MAX_REFS {
        return Handle(0);
      }
      r := Issue(i, typ, data, deleter);
    }

    /** A free slot gets the next number; after the last one the program ends. */
    method Issue(i: nat, typ: string, data: nat, deleter: Option<nat>) returns (r: Answer)
      requires Valid() && i < refs.Length && refs[i].id == 0
      modifies this, refs
      ensures r == Ends <==> old(curid) + 1 == HANDLE_MODULUS
      ensures r != Ends ==>
        && Valid() && curid == old(curid) + 1 && r == Handle(curid)
        && live == old(live)[curid := Entry(data, deleter, 1)]
    {
      NextId(curid);
      IssuedGrows(live, curid, Entry(data, deleter, 1));
      curid := (curid + 1) % HANDLE_MODULUS;
      assert refs[..] == old(refs[..]);
      if curid == 0 {
        return Ends;
      }
      Put(i, Ref(typ, curid, data, deleter, 1));
      r := Handle(curid);
    }

    method FindFree() returns (i: nat)
      requires Valid()
      ensures if |live| < MAX_REFS then i < MAX_REFS && refs[i].id == 0 else i == MAX_REFS
    {
      AllUsed(refs[..]);
      i := 0;
      while i < MAX_REFS && refs[i].id != 0
        invariant i <= MAX_REFS && forall j | 0 <= j < i :: refs[j].id != 0
      {
        i := i + 1;
      }
    }

    /** find_handle. */
    method Find(handle: nat) returns (i: nat)
      requires Valid() && handle != 0
      ensures if handle in live then i < MAX_REFS && refs[i].id == handle else i == MAX_REFS
    {
      i := 0;
      while i < MAX_REFS && refs[i].id != handle
        invariant i <= MAX_REFS && forall j | 0 <= j < i :: refs[j].id != handle
      {
        i := i + 1;
      }
      if handle in live {
        assert HasId(refs[..], handle);
      }
    }

    method Reference(handle: nat) returns (r: Answer)
      requires Valid()
      modifies this`live, refs
      ensures Valid() && State() == Step(old(State()), Call.Reference(handle))
      ensures r == if Allowed(old(State()), Call.Reference(handle)) then Done else Ends
    {
      if handle == 0 {
        return Ends;
      }
      var i := Find(handle);
      if i == MAX_REFS {
        return Ends;
      }
      assert Matches(refs[..][i], live);
      Put(i, refs[i].(count := refs[i].count + 1));
      r := Done;
    }

    /** The slot is free before the deleter runs; `ran` is what it is handed. */
    method Unreference(handle: nat) returns (r: Answer, ran: Option<(nat, nat)>)
      requires Valid()
      modifies this`live, refs
      ensures Valid() && State() == Step(old(State()), Call.Unreference(handle))
      ensures r == if Allowed(old(State()), Call.Unreference(handle)) then Done else Ends
      ensures ran == Ran(Events(old(State()), Call.Unreference(handle)))
    {
      ran := None;
      if handle == 0 {
        return Ends, None;
      }
      var i := Find(handle);
      if i == MAX_REFS {
        return Ends, None;
      }
      ran := Release(i, handle);
      r := Done;
    }

    method Release(i: nat, handle: nat) returns (ran: Option<(nat, nat)>)
      requires Valid() && handle in live && i < MAX_REFS && refs[i].id == handle
      modifies this`live, refs
      ensures Valid() && State() == Step(old(State()), Call.Unreference(handle))
      ensures ran == Ran(Events(old(State()), Call.Unreference(handle)))
    {
      ran := None;
      assert Matches(refs[..][i], live);
      UnreferenceIs(State(), handle);
      var count := refs[i].count - 1;
      if count == 0 {
        Clear(i, refs[i].(count := 0, id := 0));
        if refs[i].deleter.Some? {
          ran := Some((refs[i].deleter.value, refs[i].data));
        }
      } else {
        Put(i, refs[i].(count := count));
      }
    }

    method Put(i: nat, r: Ref)
      requires Holds(refs[..], live) && i < refs.Length && r.id != 0 && r.count > 0
      requires if r.id in live then refs[i].id == r.id else refs[i].id == 0
      modifies this`live, refs
      ensures Holds(refs[..], live) && live == old(live)[r.id := Entry(r.data, r.deleter, r.count)]
    {
      HoldsPut(refs[..], live, i, r);
      ghost var s := refs[..];
      refs[i] := r;
      assert refs[..] == s[i := r];
      live := live[r.id := Entry(r.data, r.deleter, r.count)];
    }

    method Clear(i: nat, r: Ref)
      requires Holds(refs[..], live) && i < refs.Length && refs[i].id != 0 && r.id == 0
      modifies this`live, refs
      ensures Holds(refs[..], live) && live == old(live) - {old(refs[i]).id} && refs[i] == r
    {
      HoldsClear(refs[..], live, i, r);
      ghost var s := refs[..];
      refs[i] := r;
      assert refs[..] == s[i := r];
      live := live - {s[i].id};
    }

    /** cflare_handle_data. */
    method GetData(handle: nat) returns (r: Answer)
      requires Valid()
      ensures r == if handle in live then Data(live[handle].data) else Ends
    {
      if handle == 0 {
        return Ends;
      }
      var i := Find(handle);
      r := if i == MAX_REFS then Ends else Data(refs[i].data);
    }
  }

  /** The deleter and the data of an event that destroys, if there is one with a deleter. */
  function Ran(es: seq<Event>): Option<(nat, nat)> {
    if |es| == 2 && es[1].Destroyed? && es[1].deleter.Some? then Some((es[1].deleter.value, es[1].data)) else None
  }

  lemma IssuedGrows(live: map<nat, Entry>, last: nat, e: Entry)
    requires Issued(live, last)
    ensures last + 1 !in live && Issued(live[last + 1 := e], last + 1)
  {
  }

  lemma NextId(id: nat)
    requires id < HANDLE_MODULUS
    ensures (id + 1) % HANDLE_MODULUS == if id + 1 == HANDLE_MODULUS then 0 else id + 1
  {
  }

  lemma NewIs(t: Table, data: nat, deleter: Option<nat>)
    ensures var c := Call.New(data, deleter);
      && (|t.live| >= MAX_REFS ==> Allowed(t, c) && Step(t, c) == t)
      && (|t.live| < MAX_REFS ==> (Allowed(t, c) <==> t.issued + 1 < HANDLE_MODULUS))
      && (|t.live| < MAX_REFS && Allowed(t, c) ==>
            Step(t, c) == Table(t.live[t.issued + 1 := Entry(data, deleter, 1)], t.issued + 1))
  {
  }

  lemma UnreferenceIs(t: Table, h: nat)
    requires h in t.live
    ensures var e := t.live[h];
      && Step(t, Call.Unreference(h))
         == (if e.count == 1 then t.(live := t.live - {h}) else t.(live := t.live[h := e.(count := e.count - 1)]))
      && Ran(Events(t, Call.Unreference(h)))
         == if e.count == 1 && e.deleter.Some? then Some((e.deleter.value, e.data)) else None
  {
  }

  lemma {:induction false} NoneUsed(s: seq<Ref>)
    requires forall i | 0 <= i < |s| :: s[i].id == 0
    ensures Used(s) == 0
  {
    if s != [] {
      NoneUsed(s[..|s| - 1]);
    }
  }

  /** What the deleters of a run are handed, in order. */
  function Deletions(tr: seq<Event>): seq<(nat, nat)> {
    if tr == [] then []
    else
      var e := tr[|tr| - 1];
      Deletions(tr[..|tr| - 1]) + if e.Destroyed? && e.deleter.Some? then [(e.deleter.value, e.data)] else []
  }

  lemma DeletionsGrow(tr: seq<Event>, t: Table, c: Call)
    ensures Deletions(tr + Events(t, c)) == Deletions(tr) + match Ran(Events(t, c)) case Some(x) => [x] case None => []
  {
    var es := Events(t, c);
    if |es| == 0 {
      assert tr + es == tr;
    } else if |es| == 1 {
      assert (tr + es)[..|tr|] == tr;
    } else {
      var tr' := tr + [es[0]];
      assert tr'[..|tr|] == tr;
      assert (tr + es)[..|tr'|] == tr';
    }
  }

  lemma RunTurn(calls: seq<Call>, d: nat)
    requires d < |calls|
    ensures Run(calls[..d + 1]) == Step(Run(calls[..d]), calls[d])
    ensures Trace(calls[..d + 1]) == Trace(calls[..d]) + Events(Run(calls[..d]), calls[d])
  {
    assert calls[..d + 1][..d] == calls[..d];
  }

  method Apply(table: HandleTable, c: Call) returns (ran: Option<(nat, nat)>)
    requires table.Valid() && Allowed(table.State(), c)
    modifies table, table.refs
    ensures table.Valid() && table.State() == Step(old(table.State()), c)
    ensures ran == Ran(Events(old(table.State()), c))
  {
    ran := None;
    match c {
      case New(data, deleter) =>
        var r := table.New("", data, deleter);
      case Reference(h) =>
        var r := table.Reference(h);
      case Unreference(h) =>
        var r;
        r, ran := table.Unreference(h);
    }
  }

  /** Any allowed run of the table comes to what the run means, and its deleters have run just
      as often, on the same data and in the same order, as handles were destroyed. */
  method Replay(calls: seq<Call>) returns (table: HandleTable, ran: seq<(nat, nat)>)
    requires forall d | 0 <= d < |calls| :: Allowed(Run(calls[..d]), calls[d])
    ensures table.Valid() && table.State() == Run(calls) && ran == Deletions(Trace(calls))
  {
    ran := [];
    table := new HandleTable();
    for d := 0 to |calls|
      invariant fresh(table) && fresh(table.refs) && table.Valid()
      invariant table.State() == Run(calls[..d]) && ran == Deletions(Trace(calls[..d]))
    {
      RunTurn(calls, d);
      DeletionsGrow(Trace(calls[..d]), Run(calls[..d]), calls[d]);
      var some := Apply(table, calls[d]);
      ran := ran + match some case Some(x) => [x] case None => [];
    }
    assert calls[..|calls|] == calls;
  }
}
