/** DL_APPEND and DL_DELETE, and the work queue's critical sections that use them. */
module DoublyLinked {
  import opened LinkedLists

  method DLAppend<T>(head0: Node?<T>, add: Node<T>, ghost nodes: seq<Node<T>>) returns (head: Node?<T>)
    requires IsDList(head0, nodes) && add !in nodes
    modifies nodes, add
    ensures IsDList(head, nodes + [add])
  {
    head := head0;
    var tail: Node?<T> := Last(nodes);
    if head != null {
      NoDupAt(nodes, 0);
      NoDupAt(nodes, |nodes| - 1);
      add.prev := head.prev;
      head.prev.next := add;
      head.prev := add;
      add.next := null;
    } else {
      head := add;
      head.prev := head;
      head.next := null;
    }
    assert forall x :: x in multiset(nodes) <==> x in nodes;
  }

  lemma RemoveNoDup<T>(s: seq<Node<T>>, k: nat)
    requires NoDup(s) && k < |s|
    ensures NoDup(s[..k] + s[k + 1..])
  {
    var r := s[..k] + s[k + 1..];
    assert s == s[..k] + [s[k]] + s[k + 1..];
    assert multiset(s) == multiset(r) + multiset{s[k]};
    forall x | x in multiset(r) ensures multiset(r)[x] == 1 {
      assert x in multiset(s);
    }
  }

  method DLDelete<T>(head0: Node<T>, del: Node<T>, ghost nodes: seq<Node<T>>, ghost k: nat)
    returns (head: Node?<T>, ghost rest: seq<Node<T>>)
    requires IsDList(head0, nodes) && k < |nodes| && del == nodes[k]
    modifies nodes
    ensures rest == nodes[..k] + nodes[k + 1..] && IsDList(head, rest)
  {
    head := head0;
    NoDupAt(nodes, k);
    NoDupAt(nodes, if k == 0 then |nodes| - 1 else k - 1);
    NoDupAt(nodes, if k == |nodes| - 1 then 0 else k + 1);
    RemoveNoDup(nodes, k);
    rest := nodes[..k] + nodes[k + 1..];
    assert forall i :: 0 <= i < |rest| ==> rest[i] == nodes[if i < k then i else i + 1];
    assert del.prev != null;
    if del.prev == del {
      head := null;
    } else if del == head {
      del.next.prev := del.prev;
      head := del.next;
    } else {
      del.prev.next := del.next;
      if del.next != null {
        del.next.prev := del.prev;
      } else {
        head.prev := del.prev;
      }
    }
  }

  /** The payloads of a node sequence. */
  ghost function Items<T>(nodes: seq<Node<T>>): (r: seq<T>)
    ensures |r| == |nodes| && forall i :: 0 <= i < |r| ==> r[i] == nodes[i].item
  {
    seq(|nodes|, i requires 0 <= i < |nodes| => nodes[i].item)
  }

  lemma ItemsCons<T>(nodes: seq<Node<T>>)
    requires nodes != []
    ensures Items(nodes) == [nodes[0].item] + Items(nodes[1..])
  {
  }

  /** The data of `wq_t`; the two methods are what wq_push and wq_pop do while holding the mutex. */
  class WorkQueue {
    var size: int
    var head: Node?<int>
    ghost var nodes: seq<Node<int>>

    ghost predicate Valid()
      reads this, nodes
    {
      IsDList(head, nodes) && size == |nodes|
    }

    constructor ()
      ensures Valid() && nodes == []
    {
      size, head, nodes := 0, null, [];
    }

    method Push(client_socket_fd: int)
      requires Valid()
      modifies this, nodes
      ensures Valid() && Items(nodes) == old(Items(nodes)) + [client_socket_fd]
      ensures exists add :: fresh(add) && nodes == old(nodes) + [add]
    {
      var add := new Node<int>(client_socket_fd);
      head := DLAppend(head, add, nodes);
      nodes := nodes + [add];
      size := size + 1;
    }

    method Pop() returns (client_socket_fd: int)
      requires Valid() && size >= 1
      modifies this, nodes
      ensures Valid() && [client_socket_fd] + Items(nodes) == old(Items(nodes)) && nodes == old(nodes)[1..]
    {
      hide Items;
      ghost var was := nodes;
      ItemsCons(was);
      client_socket_fd := head.item;
      size := size - 1;
      ghost var rest;
      head, rest := DLDelete(head, head, was, 0);
      assert rest == was[1..];
      nodes := rest;
    }
  }
}
