/** The hook registry of hook.c: one linked list of hooks for each name. */
module Hooks {
  import opened LinkedLists
  import opened HookSpec

  type HookList = LinkedList<Hook>

  lemma DropOneMore(hooks: seq<Hook>, d: nat, id: string)
    requires d < |hooks|
    ensures Drop(hooks[..d + 1], id) == Drop(hooks[..d], id) + if hooks[d].id == id then [] else [hooks[d]]
  {
    assert hooks[..d + 1][..d] == hooks[..d];
  }

  /** The loop of hook_remove has dealt with the first `d` of `all` hooks. */
  ghost predicate Removing(list: HookList, iter: Iterator<Hook>, all: seq<Hook>, d: nat, k: nat, id: string)
    reads list, list.repr, iter
  {
    && list.Linked() && iter.list == list && iter.Ahead(k) && d <= |all|
    && k == |Drop(all[..d], id)| && list.contents == Drop(all[..d], id) + all[d..]
  }

  lemma DropTurn(all: seq<Hook>, d: nat, id: string)
    requires d < |all|
    ensures var kept := Drop(all[..d], id); var now := Drop(all[..d + 1], id); var s := kept + all[d..];
      && s[|kept|] == all[d] && |kept| < |s|
      && now + all[d + 1..] == (if all[d].id == id then Without(s, |kept|) else s)
      && |now| == |kept| + if all[d].id == id then 0 else 1
  {
    DropOneMore(all, d, id);
  }

  method RemoveTurn(list: HookList, node: Node<Hook>, iter: Iterator<Hook>, id: string, ghost all: seq<Hook>,
                    ghost d: nat, ghost k: nat)
    returns (ghost k': nat)
    requires list.Linked() && iter.list == list && iter.Ahead(k + 1) && iter.started && d < |all|
    requires k == |Drop(all[..d], id)| && list.contents == Drop(all[..d], id) + all[d..] && node == At(list.nodes, k)
    modifies list, list.repr`next, list.repr`prev
    ensures Removing(list, iter, all, d + 1, k', id)
    ensures list.lost == old(list.lost) && list.repr == old(list.repr) && list.deleter == old(list.deleter)
  {
    DropTurn(all, d, id);
    assert node.data == list.contents[k] == all[d];
    k' := k + 1;
    if node.data.id == id {
      k' := k;
      var _ := list.Remove(node, k);
    }
  }

  lemma HooksLeft(all: seq<Hook>, d: nat, id: string, contents: seq<Hook>)
    requires d <= |all| && contents == Drop(all[..d], id) + all[d..]
    ensures d < |all| <==> |Drop(all[..d], id)| < |contents|
    ensures d == |all| ==> contents == Drop(all, id)
  {
    assert d == |all| ==> all[..d] == all;
  }

  /** Every hook with this id is taken out while iterating. */
  method RemoveId(list: HookList, id: string)
    requires list.Linked()
    modifies list, list.repr`next, list.repr`prev
    ensures list.Linked() && list.lost == old(list.lost) && list.repr == old(list.repr)
    ensures list.deleter == old(list.deleter)
    ensures list.contents == Drop(old(list.contents), id)
  {
    ghost var all := list.contents;
    ghost var d: nat, k: nat := 0, 0;
    var iter := new Iterator(list);
    while true
      invariant fresh(iter) && Removing(list, iter, all, d, k, id)
      invariant list.lost == old(list.lost) && list.repr == old(list.repr) && list.deleter == old(list.deleter)
      decreases |all| - d
    {
      var node := iter.Next(k);
      HooksLeft(all, d, id, list.contents);
      if node == null {
        return;
      }
      k := RemoveTurn(list, node, iter, id, all, d, k);
      d := d + 1;
    }
  }

  /** The loop of hook_add: the first node with a higher priority, or null. */
  method FindPlace(list: HookList, priority: real) returns (node: Node?<Hook>)
    requires list.Linked()
    ensures var k := Place(list.contents, priority); node == At(list.nodes, k)
  {
    ghost var k := 0;
    var iter := new Iterator(list);
    while true
      invariant k <= |list.nodes| && iter.list == list && iter.Ahead(k) && fresh(iter)
      invariant forall i | 0 <= i < k :: list.contents[i].priority <= priority
      decreases |list.nodes| - k
    {
      node := iter.Next(k);
      if node == null || node.data.priority > priority {
        return;
      }
      k := k + 1;
    }
  }

  /** Inserting before that node. Where there is none and the list is not empty, the hooks that
      were there are dropped: not freed, not called any more, but still counted. */
  method InsertHook(list: HookList, h: Hook, priority: real)
    requires list.Linked()
    modifies list, list.repr`next, list.repr`prev
    ensures list.Linked() && fresh(list.repr - old(list.repr)) && list.deleter == old(list.deleter)
    ensures var was := old(list.contents); var k := Place(was, priority);
      && list.contents == Put(was, h, priority)
      && list.lost == old(list.lost) + if k < |was| then 0 else |was|
  {
    ghost var nodes, k := list.nodes, Place(list.contents, priority);
    var node := FindPlace(list, priority);
    if node != null {
      SameNodeSamePlace(nodes, list.first, list.last, if IndexOf(nodes, node) < k then IndexOf(nodes, node) else k,
                        if IndexOf(nodes, node) < k then k else IndexOf(nodes, node));
    }
    var _ := list.InsertBefore(node, h);
  }

  /** The loop of hook_call: `fires` says which hooks return true. */
  method CallInOrder(list: HookList, fires: Hook -> bool) returns (r: bool, called: seq<Hook>)
    requires list.Linked()
    ensures called <= list.contents && (forall i | 0 <= i < |called| - 1 :: !fires(called[i]))
    ensures r ==> called != [] && fires(called[|called| - 1])
    ensures !r ==> called == list.contents && forall i | 0 <= i < |called| :: !fires(called[i])
  {
    r, called := false, [];
    var iter := new Iterator(list);
    while true
      invariant called <= list.contents && iter.list == list && iter.Ahead(|called|) && fresh(iter)
      invariant forall i | 0 <= i < |called| :: !fires(called[i])
      decreases |list.nodes| - |called|
    {
      var node := iter.Next(|called|);
      if node == null {
        return;
      }
      assert node.data == list.contents[|called|];
      called := called + [node.data];
      r := fires(node.data);
      if r {
        return;
      }
    }
  }

  /** cflare_hook_add on the list of its name. */
  method AddHook(list: HookList, id: string, priority: real, func: nat, context: nat, narrow: real -> real)
    requires list.Linked()
    modifies list, list.repr`next, list.repr`prev
    ensures list.Linked() && fresh(list.repr - old(list.repr)) && list.deleter == old(list.deleter)
    ensures list.contents == Added(old(list.contents), Hook(id, narrow(priority), func, context), priority)
    ensures list.lost == old(list.lost) + |Drop(old(list.contents), id)| + 1 - |list.contents|
  {
    RemoveId(list, id);
    InsertHook(list, Hook(id, narrow(priority), func, context), priority);
  }

  method Apply(list: HookList, op: Op, narrow: real -> real)
    requires list.Linked()
    modifies list, list.repr`next, list.repr`prev
    ensures list.Linked() && fresh(list.repr - old(list.repr))
    ensures list.contents == Step(old(list.contents), op, narrow)
    ensures list.lost == old(list.lost) + Loss(old(list.contents), op, narrow)
  {
    match op {
      case Add(id, priority, func, context) => AddHook(list, id, priority, func, context, narrow);
      case Remove(id) => RemoveId(list, id);
    }
  }

  lemma RunTurn(ops: seq<Op>, d: nat, narrow: real -> real)
    requires d < |ops|
    ensures Run(ops[..d + 1], narrow) == Step(Run(ops[..d], narrow), ops[d], narrow)
    ensures Lost(ops[..d + 1], narrow) == Lost(ops[..d], narrow) + Loss(Run(ops[..d], narrow), ops[d], narrow)
  {
    assert ops[..d + 1][..d] == ops[..d];
  }

  /** A run of adds and removes on a new list. */
  method RunAll(ops: seq<Op>, narrow: real -> real) returns (list: HookList)
    ensures fresh(list) && fresh(list.repr) && list.Linked()
    ensures list.contents == Run(ops, narrow) && list.lost == Lost(ops, narrow)
  {
    list := new LinkedList<Hook>();
    list.OnDelete(true);
    for d := 0 to |ops|
      invariant fresh(list) && fresh(list.repr) && list.Linked()
      invariant list.contents == Run(ops[..d], narrow) && list.lost == Lost(ops[..d], narrow)
    {
      RunTurn(ops, d, narrow);
      Apply(list, ops[d], narrow);
    }
    assert ops[..|ops|] == ops;
  }

  /** A whole life of one name's list: what is called is what the run comes to, and freeing it
      crashes if and only if some add dropped hooks. */
  method Replay(ops: seq<Op>, narrow: real -> real, fires: Hook -> bool)
    returns (r: bool, called: seq<Hook>, crashed: bool)
    ensures var hooks := Run(ops, narrow);
      && called <= hooks && (forall i | 0 <= i < |called| - 1 :: !fires(called[i]))
      && (r ==> called != [] && fires(called[|called| - 1]))
      && (!r ==> called == hooks && forall i | 0 <= i < |called| :: !fires(called[i]))
    ensures crashed <==> !EveryAddIsCovered(ops, narrow)
  {
    var list := RunAll(ops, narrow);
    NoneLost(ops, narrow);
    r, called := CallInOrder(list, fires);
    var released;
    released, crashed := list.Delete();
  }
}
