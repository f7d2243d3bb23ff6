/** The slot allocator under the locks of cflare-windows/mutex.c: a growing array searched
    cyclically. An id is a position plus one, so that zero never names a lock. */
module LockSlots {
  datatype Slot = Slot(used: bool, position: nat)

  datatype FreeResult = Freed | NullLock | OutsideRange | AlreadyFree | PastTheEnd

  const FIRST_SIZE := 16

  function Unused(s: seq<Slot>): nat {
    if s == [] then 0 else Unused(s[..|s| - 1]) + if s[|s| - 1].used then 0 else 1
  }

  lemma {:induction false} UnusedUpdate(s: seq<Slot>, k: nat, x: Slot)
    requires k < |s|
    ensures Unused(s[k := x]) == Unused(s) - (if s[k].used then 0 else 1) + (if x.used then 0 else 1)
  {
    var front := s[..|s| - 1];
    if k == |s| - 1 {
      assert s[k := x][..|s| - 1] == front;
    } else {
      UnusedUpdate(front, k, x);
      assert s[k := x][..|s| - 1] == front[k := x];
    }
  }

  lemma {:induction false} SomeUnused(s: seq<Slot>) returns (k: nat)
    requires Unused(s) > 0
    ensures k < |s| && !s[k].used
  {
    k := |s| - 1;
    if s[k].used {
      k := SomeUnused(s[..k]);
    }
  }

  lemma {:induction false} UnusedAppend(s: seq<Slot>, t: seq<Slot>)
    requires forall k | 0 <= k < |t| :: !t[k].used
    ensures Unused(s + t) == Unused(s) + |t|
  {
    if t == [] {
      assert s + t == s;
    } else {
      var front := t[..|t| - 1];
      assert (s + t)[..|s + t| - 1] == s + front;
      UnusedAppend(s, front);
    }
  }

  /** How many steps the cyclic search takes from `cur` to `k`. */
  function Distance(cur: nat, k: nat, len: nat): nat
    requires cur < len && k < len
  {
    if k >= cur then k - cur else k + len - cur
  }

  /** Every position the search from `start` passes before `stop` is in use. */
  ghost predicate PassedUsed(s: seq<Slot>, start: nat, stop: nat)
    requires start < |s| && stop < |s|
  {
    forall k | 0 <= k < |s| && Distance(start, k, |s|) < Distance(start, stop, |s|) :: s[k].used
  }

  lemma Wraps(c: nat, len: nat)
    requires c < len
    ensures (c + 1) % len == if c + 1 == len then 0 else c + 1
  {
  }

  /** The realloc and the loop that sets up the new slots. */
  method Grown(s: array<Slot>, newsize: nat) returns (grown: array<Slot>)
    requires s.Length <= newsize
    ensures fresh(grown) && grown.Length == newsize && grown[..s.Length] == s[..]
    ensures forall j | s.Length <= j < newsize :: grown[j] == Slot(false, j)
  {
    grown := new Slot[newsize](i requires 0 <= i < newsize reads s => if i < s.Length then s[i] else Slot(true, 0));
    for i := s.Length to newsize
      invariant grown[..s.Length] == s[..]
      invariant forall j | s.Length <= j < i :: grown[j] == Slot(false, j)
    {
      grown[i] := Slot(false, i);
    }
  }

  class Slots {
    var infos: array<Slot>
    var infosFree: nat
    var infosCurpos: nat

    ghost predicate Valid()
      reads this, infos
    {
      && infosFree == Unused(infos[..])
      && (if infos.Length == 0 then infosCurpos == 0 else infosCurpos < infos.Length)
      && forall i | 0 <= i < infos.Length :: infos[i].position == i
    }

    /** The positions handed out and not yet freed; the id of a position is one more. */
    ghost function Live(): set<nat>
      reads this, infos
    {
      set k: nat | k < infos.Length && infos[k].used
    }

    constructor ()
      ensures Valid() && Live() == {} && infos.Length == 0
    {
      infos, infosFree, infosCurpos := new Slot[0], 0, 0;
    }

    /** realloc_locks: more slots, all free, behind the ones there are. */
    method Realloc(newsize: nat)
      requires Valid() && newsize >= infos.Length && newsize > 0
      modifies this
      ensures Valid() && fresh(infos) && infos.Length == newsize
      ensures infosFree == old(infosFree) + newsize - old(infos.Length)
      ensures infosCurpos == old(infosCurpos) && Live() == old(Live())
      ensures infos[..old(infos.Length)] == old(infos[..])
    {
      ghost var was := infos[..];
      var grown := Grown(infos, newsize);
      UnusedAppend(was, grown[|was|..]);
      ghost var all := grown[..];
      assert all == was + grown[|was|..];
      infosFree := infosFree + (newsize - infos.Length);
      infos := grown;
      assert infos[..] == all;
    }

    /** The cyclic search: stops at the first free slot from the current position on. */
    method Probe()
      requires Valid() && infosFree > 0
      modifies this`infosCurpos
      ensures Valid() && infosCurpos < infos.Length && !infos[infosCurpos].used
      ensures PassedUsed(infos[..], old(infosCurpos), infosCurpos)
    {
      ghost var s, start := infos[..], infosCurpos;
      ghost var target := SomeUnused(s);
      assert |s| == infos.Length;
      while infos[infosCurpos].used
        invariant infosCurpos < |s|
        invariant Distance(start, infosCurpos, |s|) <= Distance(start, target, |s|)
        invariant PassedUsed(s, start, infosCurpos)
        decreases Distance(infosCurpos, target, |s|)
      {
        assert s[infosCurpos].used;
        Wraps(infosCurpos, infos.Length);
        infosCurpos := (infosCurpos + 1) % infos.Length;
      }
    }

    /** The first slots, or twice as many when none is free. */
    method MakeRoom()
      requires Valid()
      modifies this
      ensures Valid() && infosFree > 0 && (fresh(infos) || (infos == old(infos) && infos[..] == old(infos[..])))
      ensures infosCurpos == old(infosCurpos) && Live() == old(Live())
      ensures infos.Length ==
        if old(infos.Length) == 0 then FIRST_SIZE
        else if old(infosFree) == 0 then old(infos.Length) * 2
        else old(infos.Length)
    {
      if infos.Length == 0 {
        Realloc(FIRST_SIZE);
      }
      if infosFree == 0 {
        Realloc(infos.Length * 2);
      }
    }

    /** alloc_lock: the position was not live before and nothing else changes hands; a full
        array doubles first; and the search passed over positions in use only. */
    method Alloc() returns (id: nat)
      requires Valid()
      modifies this, infos
      ensures Valid() && (fresh(infos) || infos == old(infos))
      ensures 1 <= id <= infos.Length && id - 1 !in old(Live()) && Live() == old(Live()) + {id - 1}
      ensures infos.Length ==
        if old(infos.Length) == 0 then 16
        else if old(infosFree) == 0 then old(infos.Length) * 2
        else old(infos.Length)
      ensures old(infosCurpos) < infos.Length && PassedUsed(infos[..], old(infosCurpos), id - 1)
    {
      MakeRoom();
      Probe();
      id := Claim();
    }

    method Claim() returns (id: nat)
      requires Valid() && infosCurpos < infos.Length && !infos[infosCurpos].used
      modifies this`infosFree, infos
      ensures Valid() && id == infosCurpos + 1 && Live() == old(Live()) + {infosCurpos}
      ensures infos[..] == old(infos[..])[infosCurpos := Slot(true, infosCurpos)]
    {
      UnusedUpdate(infos[..], infosCurpos, Slot(true, infosCurpos));
      ghost var was := infos[..];
      infos[infosCurpos] := Slot(true, infos[infosCurpos].position);
      assert infos[..] == was[infosCurpos := Slot(true, infosCurpos)];
      infosFree := infosFree - 1;
      id := infos[infosCurpos].position + 1;
    }

    /** free_lock: exactly the live ids can be freed. The range check lets one id too many
        through, the one just past the array. */
    method Free(id: nat) returns (r: FreeResult)
      requires Valid()
      modifies this`infosFree, infos
      ensures Valid() && infos.Length == old(infos.Length)
      ensures r == Freed <==> id >= 1 && id - 1 in old(Live())
      ensures r == PastTheEnd <==> id == infos.Length + 1
      ensures Live() == old(Live()) - {id - 1}
    {
      if id == 0 {
        return NullLock;
      }
      var k := id - 1;
      if k > infos.Length {
        return OutsideRange;
      }
      if k == infos.Length {
        return PastTheEnd;
      }
      if !infos[k].used {
        return AlreadyFree;
      }
      UnusedUpdate(infos[..], k, Slot(false, k));
      ghost var was := infos[..];
      infos[k] := Slot(false, infos[k].position);
      assert infos[..] == was[k := Slot(false, k)];
      infosFree := infosFree + 1;
      return Freed;
    }
  }
}
