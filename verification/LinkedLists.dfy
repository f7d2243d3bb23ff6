/** The doubly linked pointer list of linkedlist.c and its removable iterator.
    The ghost fields of a list give its meaning: the live nodes in order, and
    the values they hold. A node outside `nodes` has been freed, or dropped. */
module LinkedLists {
  import opened Options

  class Node<T> {
    ghost const owner: LinkedList<T>
    var data: T
    var next: Node?<T>
    var prev: Node?<T>

    constructor (ghost owner: LinkedList<T>, data: T, prev: Node?<T>, next: Node?<T>)
      ensures this.owner == owner && this.data == data && this.prev == prev && this.next == next
    {
      this.owner, this.data, this.prev, this.next := owner, data, prev, next;
    }
  }

  /** `s` is a well-formed chain: next and prev are mutually inverse and both
      ends are null-terminated. That no node occurs twice follows (ChainIsAcyclic). */
  ghost predicate Chain<T>(s: seq<Node<T>>, first: Node?<T>, last: Node?<T>)
    reads s
  {
    && first == (if s == [] then null else s[0])
    && last == (if s == [] then null else s[|s| - 1])
    && (forall i {:trigger s[i].prev} | 0 <= i < |s| :: s[i].prev == if i == 0 then null else s[i - 1])
    && (forall i {:trigger s[i].next} | 0 <= i < |s| :: s[i].next == if i == |s| - 1 then null else s[i + 1])
  }

  lemma {:induction false} SameNodeSamePlace<T>(s: seq<Node<T>>, first: Node?<T>, last: Node?<T>, i: nat, j: nat)
    requires Chain(s, first, last) && i <= j < |s| && s[i] == s[j]
    ensures i == j
  {
    assert s[i].prev == s[j].prev;
    assert j > 0 ==> s[j].prev == s[j - 1];
    if i > 0 {
      assert s[i].prev == s[i - 1];
      SameNodeSamePlace(s, first, last, i - 1, j - 1);
    }
  }

  lemma ChainIsAcyclic<T>(s: seq<Node<T>>, first: Node?<T>, last: Node?<T>, k: nat)
    requires Chain(s, first, last) && k < |s|
    ensures forall i | 0 <= i < |s| && i != k :: s[i] != s[k]
  {
    forall i | 0 <= i < |s| && i != k ensures s[i] != s[k] {
      if s[i] == s[k] {
        SameNodeSamePlace(s, first, last, if i < k then i else k, if i < k then k else i);
      }
    }
  }

  function Without<T>(s: seq<T>, k: nat): seq<T>
    requires k < |s|
  {
    s[..k] + s[k + 1..]
  }

  function Inserted<T>(s: seq<T>, k: nat, x: T): seq<T>
    requires k <= |s|
  {
    s[..k] + [x] + s[k..]
  }

  /** The nodes hold the given values. */
  ghost predicate Carries<T>(s: seq<Node<T>>, values: seq<T>)
    reads s
  {
    && |s| == |values|
    && (forall i {:trigger s[i].data} | 0 <= i < |s| :: s[i].data == values[i])
  }

  ghost predicate Within<T>(s: seq<T>, all: set<T>) {
    forall i | 0 <= i < |s| :: s[i] in all
  }

  lemma CarriesInserted<T>(s: seq<Node<T>>, values: seq<T>, k: nat, n: Node<T>, all: set<Node<T>>)
    requires Carries(s, values) && k <= |s| && Within(s, all)
    ensures Carries(Inserted(s, k, n), Inserted(values, k, n.data))
    ensures Within(Inserted(s, k, n), all + {n})
  {
  }

  lemma CarriesWithout<T>(s: seq<Node<T>>, values: seq<T>, k: nat, all: set<Node<T>>)
    requires Carries(s, values) && k < |s| && Within(s, all)
    ensures Carries(Without(s, k), Without(values, k))
    ensures Within(Without(s, k), all)
  {
  }

  /** If all links are as in a chain except the two around position `k`, which
      bridge it, then what is left without position `k` is a chain. */
  lemma BridgedChain<T>(s: seq<Node<T>>, k: nat)
    requires k < |s|
    requires forall i {:trigger s[i].prev} | 0 <= i < |s| && i != k + 1 ::
      s[i].prev == if i == 0 then null else s[i - 1]
    requires forall i {:trigger s[i].next} | 0 <= i < |s| && i != k - 1 ::
      s[i].next == if i == |s| - 1 then null else s[i + 1]
    requires k + 1 < |s| ==> s[k + 1].prev == if k == 0 then null else s[k - 1]
    requires k > 0 ==> s[k - 1].next == if k == |s| - 1 then null else s[k + 1]
    ensures var r := Without(s, k);
      Chain(r, if r == [] then null else r[0], if r == [] then null else r[|r| - 1])
  {
    var r := Without(s, k);
    assert forall i | 0 <= i < k :: r[i] == s[i];
    assert forall i | k <= i < |r| :: r[i] == s[i + 1];
  }

  /** The converse step: linking `n` on both sides of position `k` gives a chain. */
  lemma SplicedChain<T>(s: seq<Node<T>>, k: nat, n: Node<T>)
    requires k <= |s|
    requires forall i {:trigger s[i].prev} | 0 <= i < |s| && i != k :: s[i].prev == if i == 0 then null else s[i - 1]
    requires forall i {:trigger s[i].next} | 0 <= i < |s| && i != k - 1 ::
      s[i].next == if i == |s| - 1 then null else s[i + 1]
    requires k < |s| ==> s[k].prev == n
    requires k > 0 ==> s[k - 1].next == n
    requires n.prev == if k == 0 then null else s[k - 1]
    requires n.next == if k == |s| then null else s[k]
    ensures var r := Inserted(s, k, n); Chain(r, r[0], r[|r| - 1])
  {
    var r := Inserted(s, k, n);
    assert r[k] == n;
    assert forall i | 0 <= i < k :: r[i] == s[i];
    assert forall i | k < i < |r| :: r[i] == s[i - 1];
  }

  lemma MoveHead<T>(done: seq<T>, rest: seq<T>)
    requires rest != []
    ensures done + rest == done + [rest[0]] + rest[1..]
  {
  }

  class LinkedList<T> {
    var count: nat
    var first: Node?<T>
    var last: Node?<T>
    var deleter: bool
    ghost var nodes: seq<Node<T>>
    ghost var contents: seq<T>
    ghost var repr: set<Node<T>>
    ghost var lost: nat           // nodes dropped from the chain but still counted

    ghost predicate Linked()
      reads this, repr
    {
      && Within(nodes, repr) && (forall n | n in repr :: n.owner == this)
      && Chain(nodes, first, last)
      && Carries(nodes, contents)
      && count == |nodes| + lost
    }

    ghost predicate Valid()
      reads this, repr
    {
      Linked() && lost == 0
    }

    constructor ()
      ensures Valid() && nodes == [] && contents == [] && repr == {} && !deleter
    {
      count, first, last, deleter := 0, null, null, false;
      nodes, contents, repr, lost := [], [], {}, 0;
    }

    method OnDelete(enabled: bool)
      requires Linked()
      modifies this`deleter
      ensures Linked() && lost == old(lost) && deleter == enabled
    {
      deleter := enabled;
    }

    /** insert_between: links a new node between `pre` and `post`, whatever they are. */
    method InsertBetween(pre: Node?<T>, post: Node?<T>, data: T) returns (node: Node<T>)
      modifies this`count, this`first, this`last
      modifies (if pre == null then {} else {pre})`next, (if post == null then {} else {post})`prev
      ensures fresh(node) && node.owner == this && node.data == data
      ensures node.prev == pre && node.next == post
      ensures pre != null ==> pre.next == node
      ensures post != null ==> post.prev == node
      ensures first == if pre == null then node else old(first)
      ensures last == if post == null then node else old(last)
      ensures count == old(count) + 1
    {
      node := new Node(this, data, pre, post);
      if pre != null {
        pre.next := node;
      } else {
        first := node;
      }
      if post != null {
        post.prev := node;
      } else {
        last := node;
      }
      count := count + 1;
    }

    /** insert_between on the two sides of position `k`. */
    method LinkAt(ghost k: nat, pre: Node?<T>, post: Node?<T>, data: T) returns (n: Node<T>)
      requires Linked() && k <= |nodes|
      requires pre == if k == 0 then null else nodes[k - 1]
      requires post == if k == |nodes| then null else nodes[k]
      modifies this, repr`next, repr`prev
      ensures Linked() && lost == old(lost) && fresh(n) && repr == old(repr) + {n} && deleter == old(deleter)
      ensures nodes == Inserted(old(nodes), k, n) && contents == Inserted(old(contents), k, data)
    {
      ghost var was := nodes;
      if k > 0 {
        ChainIsAcyclic(was, first, last, k - 1);
      }
      if k < |was| {
        ChainIsAcyclic(was, first, last, k);
      }
      n := InsertBetween(pre, post, data);
      SplicedChain(was, k, n);
      CarriesInserted(was, contents, k, n, repr);
      Adopt(Inserted(was, k, n), Inserted(contents, k, data), repr + {n});
    }

    /** insert_before. With a node it inserts there. With null it is right only on an empty list:
        otherwise both ends are overwritten, and the old chain is dropped but still counted. */
    method InsertBefore(node: Node?<T>, data: T) returns (n: Node<T>)
      requires Linked() && (node == null || node in nodes)
      modifies this, repr`next, repr`prev
      ensures fresh(n) && n.owner == this && n.data == data
      ensures repr == old(repr) + {n} && deleter == old(deleter) && count == old(count) + 1
      ensures Linked() && lost == old(lost) + if node == null then |old(nodes)| else 0
      ensures node == null && old(nodes) != [] ==>
        nodes == [n] && contents == [data] && forall m | m in old(nodes) :: unchanged(m)
      ensures node != null || old(nodes) == [] ==>
        var k := if node == null then 0 else IndexOf(old(nodes), node);
        nodes == Inserted(old(nodes), k, n) && contents == Inserted(old(contents), k, data)
    {
      if node == null && first != null {
        n := InsertBetween(null, null, data);
        lost := lost + |nodes|;
        nodes, contents, repr := [n], [data], repr + {n};
        return;
      }
      ghost var k := if node == null then 0 else IndexOf(nodes, node);
      assert node != null ==> nodes[k] == node;
      n := LinkAt(k, if node != null then node.prev else null, node, data);
      assert nodes[k] == n && contents[k] == data;
    }

    /** insert_after, with the same fault for null on a non-empty list. */
    method InsertAfter(node: Node?<T>, data: T) returns (n: Node<T>)
      requires Linked() && (node == null || node in nodes)
      modifies this, repr`next, repr`prev
      ensures fresh(n) && n.owner == this && n.data == data
      ensures repr == old(repr) + {n} && deleter == old(deleter) && count == old(count) + 1
      ensures Linked() && lost == old(lost) + if node == null then |old(nodes)| else 0
      ensures node == null && old(nodes) != [] ==>
        nodes == [n] && contents == [data] && forall m | m in old(nodes) :: unchanged(m)
      ensures node != null || old(nodes) == [] ==>
        var k := if node == null then 0 else IndexOf(old(nodes), node) + 1;
        nodes == Inserted(old(nodes), k, n) && contents == Inserted(old(contents), k, data)
    {
      if node == null && first != null {
        n := InsertBetween(null, null, data);
        lost := lost + |nodes|;
        nodes, contents, repr := [n], [data], repr + {n};
        return;
      }
      ghost var k := if node == null then 0 else IndexOf(nodes, node) + 1;
      assert node != null ==> nodes[k - 1] == node;
      n := LinkAt(k, node, if node != null then node.next else null, data);
      assert nodes[k] == n && contents[k] == data;
    }

    method InsertFirst(data: T) returns (n: Node<T>)
      requires Linked()
      modifies this, repr`next, repr`prev
      ensures Linked() && lost == old(lost) && fresh(n) && repr == old(repr) + {n} && deleter == old(deleter)
      ensures nodes == [n] + old(nodes) && contents == [data] + old(contents)
    {
      n := InsertBefore(first, data);
    }

    method InsertLast(data: T) returns (n: Node<T>)
      requires Linked()
      modifies this, repr`next, repr`prev
      ensures Linked() && lost == old(lost) && fresh(n) && repr == old(repr) + {n} && deleter == old(deleter)
      ensures nodes == old(nodes) + [n] && contents == old(contents) + [data]
    {
      if nodes != [] {
        SameNodeSamePlace(nodes, first, last, IndexOf(nodes, last), |nodes| - 1);
      }
      n := InsertAfter(last, data);
    }

    /** The caller's write through the data pointer of the live node at position `k`. */
    method Write(node: Node<T>, ghost k: nat, data: T)
      requires Linked() && k < |nodes| && nodes[k] == node
      modifies node`data, this`contents
      ensures Linked() && lost == old(lost) && contents == old(contents)[k := data]
    {
      ChainIsAcyclic(nodes, first, last, k);
      node.data := data;
      contents := contents[k := data];
    }

    /** Takes the node at position `k` out of the chain. */
    method Unlink(ghost k: nat, node: Node<T>)
      requires Linked() && k < |nodes| && nodes[k] == node
      modifies this, repr`next, repr`prev
      ensures Linked() && lost == old(lost) && repr == old(repr) && deleter == old(deleter)
      ensures nodes == Without(old(nodes), k) && contents == Without(old(contents), k)
      ensures node.next == old(node.next)
    {
      ghost var was := nodes;
      ChainIsAcyclic(was, first, last, k);
      if k > 0 {
        ChainIsAcyclic(was, first, last, k - 1);
      }
      if k + 1 < |was| {
        ChainIsAcyclic(was, first, last, k + 1);
      }
      var pre, post := node.prev, node.next;
      assert pre == if k == 0 then null else was[k - 1];
      assert post == if k == |was| - 1 then null else was[k + 1];
      Bridge(pre, post);
      BridgedChain(was, k);
      CarriesWithout(was, contents, k, repr);
      Adopt(Without(was, k), Without(contents, k), repr);
    }

    /** The part of remove that links the neighbours of a node. */
    method Bridge(pre: Node?<T>, post: Node?<T>)
      requires count > 0
      modifies this`count, this`first, this`last
      modifies (if pre == null then {} else {pre})`next, (if post == null then {} else {post})`prev
      ensures pre != null ==> pre.next == post
      ensures post != null ==> post.prev == pre
      ensures first == if pre == null then post else old(first)
      ensures last == if post == null then pre else old(last)
      ensures count == old(count) - 1
    {
      if pre != null {
        pre.next := post;
      } else {
        first := post;
      }
      if post != null {
        post.prev := pre;
      } else {
        last := pre;
      }
      count := count - 1;
    }

    /** From here on the list means these nodes and values. */
    ghost method Adopt(nodes: seq<Node<T>>, contents: seq<T>, repr: set<Node<T>>)
      requires Within(nodes, repr) && (forall n | n in repr :: n.owner == this)
      requires Chain(nodes, first, last) && Carries(nodes, contents) && count == |nodes| + lost
      modifies this`nodes, this`contents, this`repr
      ensures Linked() && this.nodes == nodes && this.contents == contents && this.repr == repr
    {
      this.nodes, this.contents, this.repr := nodes, contents, repr;
    }

    /** Unlinks the node at position `k`; `released` is what the deleter is handed, if there is one. */
    method Remove(node: Node<T>, ghost k: nat) returns (released: Option<T>)
      requires Linked() && k < |nodes| && nodes[k] == node
      modifies this, repr`next, repr`prev
      ensures Linked() && lost == old(lost) && repr == old(repr) && deleter == old(deleter)
      ensures nodes == Without(old(nodes), k) && contents == Without(old(contents), k)
      ensures released == if deleter then Some(old(contents)[k]) else None
      ensures node.next == old(node.next)
    {
      assert nodes[k].data == contents[k];
      Unlink(k, node);
      released := if deleter then Some(node.data) else None;
    }

    /** cflare_linkedlist_delete: every element is handed over once, in order. It counts down, so
        once the chain is used up it follows null for the nodes that were dropped. */
    method Delete() returns (released: seq<T>, crashed: bool)
      requires Linked()
      modifies this, repr`next, repr`prev
      ensures Linked() && lost == old(lost) && nodes == [] && repr == old(repr)
      ensures released == if old(deleter) then old(contents) else []
      ensures crashed <==> !old(Valid())
    {
      released, crashed := [], false;
      ghost var gone: seq<T> := [];
      while count != 0
        invariant Linked() && lost == old(lost) && repr == old(repr) && deleter == old(deleter)
        invariant gone + contents == old(contents)
        invariant released == if deleter then gone else []
        decreases count
      {
        if first == null {
          crashed := true;
          return;
        }
        ghost var head := contents[0];
        MoveHead(gone, contents);
        var r := Remove(first, 0);
        if r.Some? {
          released := released + [r.value];
        }
        gone := gone + [head];
      }
    }
  }

  /** Different lists never share a node, live or freed. */
  lemma ListsAreDisjoint<T>(a: LinkedList<T>, b: LinkedList<T>)
    requires a.Valid() && b.Valid() && a != b
    ensures a.repr !! b.repr
  {
    forall n | n in a.repr ensures n !in b.repr {
      assert n.owner == a;
    }
  }

  ghost function IndexOf<T>(s: seq<T>, x: T): (k: nat)
    requires x in s
    ensures k < |s| && s[k] == x
  {
    if s[0] == x then 0 else 1 + IndexOf(s[1..], x)
  }

  /** A list left by an insertion at null is no chain of `count` nodes, under any reading. */
  lemma DroppedChainIsBroken<T>(s: seq<Node<T>>, n: Node<T>)
    requires n.next == n.prev == null && |s| >= 2
    ensures !Chain(s, n, n)
  {
    assert s[0] == n ==> s[0].next == null;
  }

  function At<T>(s: seq<Node<T>>, k: int): (n: Node?<T>)
    ensures n != null <==> 0 <= k < |s|
  {
    if 0 <= k < |s| then s[k] else null
  }

  class Iterator<T> {
    var started: bool
    var list: LinkedList<T>
    var prev: Node?<T>
    var value: Node?<T>
    var next: Node?<T>

    constructor (list: LinkedList<T>)
      ensures !started && this.list == list && prev == next == null
    {
      started, this.list, prev, value, next := false, list, null, null, null;
    }

    /** A forward iteration whose next node is the one at position `k`. */
    ghost predicate Ahead(k: nat)
      reads this, list
    {
      k <= |list.nodes| && if started then next == At(list.nodes, k) else k == 0
    }

    /** A backward iteration whose next node is the one before position `k`. */
    ghost predicate Behind(k: nat)
      reads this, list
    {
      k <= |list.nodes| && if started then prev == At(list.nodes, k - 1) else k == |list.nodes|
    }

    method Next(ghost k: nat) returns (node: Node?<T>)
      requires list.Linked() && Ahead(k)
      modifies this
      ensures list == old(list) && list.Linked() && started
      ensures node == value == At(list.nodes, k)
      ensures Ahead(if k < |list.nodes| then k + 1 else k)
      ensures node != null && old(started) ==> prev == old(value)
    {
      if !started {
        next, prev, started, value := list.first, null, true, null;
      }
      if next == null {
        value := null;
        return null;
      }
      node := next;
      assert list.nodes[k] == node;
      next := node.next;
      prev := value;
      value := node;
    }

    method Prev(ghost k: nat) returns (node: Node?<T>)
      requires list.Linked() && Behind(k)
      modifies this
      ensures list == old(list) && list.Linked() && started
      ensures node == value == At(list.nodes, k - 1)
      ensures Behind(if k > 0 then k - 1 else k)
      ensures node != null && old(started) ==> next == old(value)
    {
      if !started {
        prev, next, started, value := list.last, null, true, null;
      }
      if prev == null {
        value := null;
        return null;
      }
      node := prev;
      assert list.nodes[k - 1] == node;
      prev := node.prev;
      next := value;
      value := node;
    }
  }

  /** The elements of `s` outside `chosen`, in order. */
  ghost function Unchosen<T>(s: seq<T>, chosen: set<T>): seq<T> {
    if s == [] then []
    else Unchosen(s[..|s| - 1], chosen) + if s[|s| - 1] in chosen then [] else [s[|s| - 1]]
  }

  ghost function Chosen<T>(s: seq<T>, chosen: set<T>): seq<T> {
    if s == [] then []
    else Chosen(s[..|s| - 1], chosen) + if s[|s| - 1] in chosen then [s[|s| - 1]] else []
  }

  /** A sweep splits the list: each element goes to exactly one side. */
  lemma {:induction false} SweepSplits<T>(s: seq<T>, chosen: set<T>, x: T)
    ensures x in Unchosen(s, chosen) <==> x in s && x !in chosen
    ensures x in Chosen(s, chosen) <==> x in s && x in chosen
    ensures |Unchosen(s, chosen)| + |Chosen(s, chosen)| == |s|
  {
    if s != [] {
      var front := s[..|s| - 1];
      assert s == front + [s[|s| - 1]];
      SweepSplits(front, chosen, x);
    }
  }

  /** One step of the sweep, on the sequences: `x`, the first of `rest`, is dealt with. */
  lemma SweepStep<T>(done: seq<T>, rest: seq<T>, chosen: set<T>)
    requires rest != []
    ensures var x, kept := rest[0], Unchosen(done, chosen);
      && done + rest == done + [x] + rest[1..]
      && (kept + rest)[|kept|] == x
      && Without(kept + rest, |kept|) == kept + rest[1..]
      && kept + rest == kept + [x] + rest[1..]
      && Unchosen(done + [x], chosen) == kept + (if x in chosen then [] else [x])
      && Chosen(done + [x], chosen) == Chosen(done, chosen) + (if x in chosen then [x] else [])
  {
    assert (done + [rest[0]])[..|done|] == done;
  }

  /** The state of a sweep over `was` that has dealt with `done`. */
  ghost predicate Sweeping<T>(list: LinkedList<T>, iter: Iterator<T>, done: seq<Node<T>>, rest: seq<Node<T>>,
                              chosen: set<Node<T>>)
    reads list, list.repr, iter
  {
    && iter.list == list && iter.started && list.Linked()
    && list.nodes == Unchosen(done, chosen) + rest
    && iter.value == At(rest, 0)
    && iter.Ahead(|Unchosen(done, chosen)| + if rest == [] then 0 else 1)
  }

  /** The body of the sweep: maybe remove the current node, then step on. */
  method SweepNode<T>(list: LinkedList<T>, iter: Iterator<T>, chosen: set<Node<T>>,
                      ghost done: seq<Node<T>>, ghost rest: seq<Node<T>>)
    returns (removed: bool)
    requires rest != [] && Sweeping(list, iter, done, rest, chosen)
    modifies list, list.repr`next, list.repr`prev, iter
    ensures removed == (rest[0] in chosen)
    ensures Sweeping(list, iter, done + [rest[0]], rest[1..], chosen) && list.repr == old(list.repr)
    ensures list.lost == old(list.lost)
  {
    removed := DropIfChosen(list, iter.value, chosen, done, rest);
    ghost var k := |Unchosen(done + [rest[0]], chosen)|;
    assert At(list.nodes, k) == At(rest[1..], 0);
    assert iter.Ahead(k) by {
      SweepStep(done, rest, chosen);
    }
    var _ := iter.Next(k);
  }

  method DropIfChosen<T>(list: LinkedList<T>, node: Node<T>, chosen: set<Node<T>>,
                         ghost done: seq<Node<T>>, ghost rest: seq<Node<T>>)
    returns (removed: bool)
    requires rest != [] && list.Linked() && node == rest[0]
    requires list.nodes == Unchosen(done, chosen) + rest
    modifies list, list.repr`next, list.repr`prev
    ensures removed == (node in chosen)
    ensures list.Linked() && list.lost == old(list.lost) && list.repr == old(list.repr)
    ensures list.nodes == Unchosen(done + [node], chosen) + rest[1..]
  {
    ghost var kept := Unchosen(done, chosen);
    ghost var goal := Unchosen(done + [node], chosen) + rest[1..];
    assert (kept + rest)[|kept|] == node
           && goal == if node in chosen then Without(kept + rest, |kept|) else kept + rest by {
      SweepStep(done, rest, chosen);
    }
    removed := node in chosen;
    if removed {
      var _ := list.Remove(node, |kept|);
    }
    assert list.nodes == goal;
  }

  method StartSweep<T>(list: LinkedList<T>, ghost chosen: set<Node<T>>) returns (iter: Iterator<T>)
    requires list.Linked()
    ensures fresh(iter) && Sweeping(list, iter, [], list.nodes, chosen)
  {
    iter := new Iterator(list);
    var _ := iter.Next(0);
  }

  /** Removing the current node while iterating, for any choice of nodes: every
      node is visited once and in order, and exactly the unchosen ones remain. */
  method RemoveWhileIterating<T>(list: LinkedList<T>, chosen: set<Node<T>>)
    returns (visited: seq<Node<T>>, removed: seq<Node<T>>)
    requires list.Linked()
    modifies list, list.repr`next, list.repr`prev
    ensures list.Linked() && list.lost == old(list.lost) && list.repr == old(list.repr)
    ensures visited == old(list.nodes)
    ensures removed == Chosen(old(list.nodes), chosen)
    ensures list.nodes == Unchosen(old(list.nodes), chosen)
  {
    ghost var was, rest := list.nodes, list.nodes;
    visited, removed := [], [];
    var iter := StartSweep(list, chosen);
    while iter.value != null
      invariant was == visited + rest
      invariant Sweeping(list, iter, visited, rest, chosen) && list.repr == old(list.repr)
      invariant list.lost == old(list.lost)
      invariant removed == Chosen(visited, chosen)
      decreases |rest|
    {
      SweepStep(visited, rest, chosen);
      var node: Node<T> := iter.value;
      var gone := SweepNode(list, iter, chosen, visited, rest);
      if gone {
        removed := removed + [node];
      }
      visited, rest := visited + [node], rest[1..];
    }
  }
}
