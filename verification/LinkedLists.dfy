/** Linked list nodes and what it means for a chain of them to spell out a sequence. */
module LinkedLists {

  /** A list element: a payload with its two intrusive links. */
  class Node<T> {
    const item: T
    var next: Node?<T>
    var prev: Node?<T>

    constructor (item: T)
      ensures this.item == item && next == null && prev == null
    {
      this.item := item;
      next, prev := null, null;
    }
  }

  ghost predicate NoDup<T>(s: seq<Node<T>>) {
    forall x :: x in multiset(s) ==> multiset(s)[x] == 1
  }

  lemma NoDupAt<T>(s: seq<Node<T>>, i: nat)
    requires NoDup(s) && i < |s|
    ensures forall j :: 0 <= j < |s| && j != i ==> s[j] != s[i]
  {
    forall j | 0 <= j < |s| && j != i ensures s[j] != s[i] {
      var lo, hi := if i < j then i else j, if i < j then j else i;
      assert s == s[..hi] + s[hi..];
      assert s[..hi][lo] == s[lo] && s[hi..][0] == s[hi];
      assert s[lo] in multiset(s[..hi]) && s[hi] in multiset(s[hi..]);
      assert multiset(s)[s[lo]] == multiset(s[..hi])[s[lo]] + multiset(s[hi..])[s[lo]];
    }
  }

  function First<T>(s: seq<Node<T>>): Node?<T> {
    if s == [] then null else s[0]
  }

  function Last<T>(s: seq<Node<T>>): Node?<T> {
    if s == [] then null else s[|s| - 1]
  }

  /** `head` starts a null-terminated chain through exactly the nodes of `s`, in order. */
  ghost predicate IsList<T>(head: Node?<T>, s: seq<Node<T>>)
    reads s
  {
    && NoDup(s)
    && head == First(s)
    && (forall i {:trigger s[i].next} :: 0 <= i < |s| - 1 ==> s[i].next == s[i + 1])
    && (s != [] ==> s[|s| - 1].next == null)
  }

  /** The same for the doubly linked form, in which the head's `prev` is the tail. */
  ghost predicate IsDList<T>(head: Node?<T>, s: seq<Node<T>>)
    reads s
  {
    && IsList(head, s)
    && (forall i {:trigger s[i].prev} :: 1 <= i < |s| ==> s[i].prev == s[i - 1])
    && (s != [] ==> s[0].prev == s[|s| - 1])
  }
}
