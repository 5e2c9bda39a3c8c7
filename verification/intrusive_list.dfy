/** Doubly linked lists whose links live inside the linked objects. */
module IntrusiveLists {

  class Node {
    var next: Node?
    var prev: Node?

    constructor ()
      ensures next == null && prev == null
    {
      next, prev := null, null;
    }

    /** No links.  A node that is alone in a list has none either. */
    predicate IsNull()
      reads this
    {
      next == null && prev == null
    }
  }

  /** The sequence with `x` put in at index `i`. */
  ghost function InsertedAt<T>(s: seq<T>, i: nat, x: T): (r: seq<T>)
    requires i <= |s|
    ensures |r| == |s| + 1
  {
    s[..i] + [x] + s[i..]
  }

  ghost function RemovedAt<T>(s: seq<T>, i: nat): (r: seq<T>)
    requires i < |s|
    ensures |r| == |s| - 1
  {
    s[..i] + s[i + 1..]
  }

  /** Taking out what was put in gives the sequence back. */
  lemma RemoveUndoesInsert<T>(s: seq<T>, i: nat, x: T)
    requires i <= |s|
    ensures RemovedAt(InsertedAt(s, i, x), i) == s
  {
  }

  /** The first index whose element is to come after the new one; the length when there is none. */
  ghost predicate FirstLater(s: seq<Node>, later: Node -> bool, i: nat) {
    i <= |s| && (i < |s| ==> later(s[i])) && forall j :: 0 <= j < i ==> !later(s[j])
  }

  class List {
    var head: Node?
    var tail: Node?
    var count: nat
    ghost var nodes: seq<Node>

    /** `nodes` are the linked nodes, in order; every link is set accordingly. */
    ghost predicate Valid()
      reads this, nodes
    {
      && count == |nodes|
      && (forall i, j :: 0 <= i < j < |nodes| ==> nodes[i] != nodes[j])
      && head == (if nodes == [] then null else nodes[0])
      && tail == (if nodes == [] then null else nodes[|nodes| - 1])
      && forall i :: 0 <= i < |nodes| ==> LinkedAt(i)
    }

    ghost predicate LinkedAt(i: nat)
      requires i < |nodes|
      reads this, nodes
    {
      && nodes[i].prev == (if i == 0 then null else nodes[i - 1])
      && nodes[i].next == (if i == |nodes| - 1 then null else nodes[i + 1])
    }

    constructor ()
      ensures Valid() && nodes == []
    {
      head, tail, count, nodes := null, null, 0, [];
    }

    method InsertHead(node: Node)
      requires Valid() && node !in nodes
      modifies this, nodes, node
      ensures Valid() && nodes == [node] + old(nodes)
    {
      assert forall i :: 0 <= i < |nodes| ==> LinkedAt(i);
      node.next := head;
      node.prev := null;
      if head != null {
        head.prev := node;
      } else {
        tail := node;
      }
      count := count + 1;
      head := node;
      nodes := [node] + nodes;
      forall i | 0 <= i < |nodes| ensures LinkedAt(i) {
        assert i > 0 ==> old(LinkedAt(i - 1));
      }
    }

    method InsertTail(node: Node)
      requires Valid() && node !in nodes
      modifies this, nodes, node
      ensures Valid() && nodes == old(nodes) + [node]
    {
      assert forall i :: 0 <= i < |nodes| ==> LinkedAt(i);
      node.next := null;
      node.prev := tail;
      if tail != null {
        tail.next := node;
      } else {
        head := node;
      }
      tail := node;
      count := count + 1;
      nodes := nodes + [node];
      forall i | 0 <= i < |nodes| ensures LinkedAt(i) {
        assert i < |nodes| - 1 ==> old(LinkedAt(i));
      }
    }

    /** Links `node` in front of the node at index `i`. */
    method InsertBefore(node: Node, existing: Node, ghost i: nat)
      requires Valid() && node !in nodes && i < |nodes| && nodes[i] == existing
      modifies this, nodes, node
      ensures Valid() && nodes == InsertedAt(old(nodes), i, node)
    {
      assert forall j :: 0 <= j < |nodes| ==> LinkedAt(j);
      assert LinkedAt(i);
      node.next := existing;
      var wasPrev := existing.prev;
      existing.prev := node;
      node.prev := wasPrev;
      if wasPrev != null {
        wasPrev.next := node;
      } else {
        head := node;
      }
      count := count + 1;
      nodes := InsertedAt(nodes, i, node);
      forall j | 0 <= j < |nodes| ensures LinkedAt(j) {
        assert j < i ==> old(LinkedAt(j));
        assert j > i ==> old(LinkedAt(j - 1));
      }
    }

    /** In front of the first node that is to come later; behind all others when there is none. */
    method InsertSorted(node: Node, later: Node -> bool) returns (ok: bool, ghost i: nat)
      requires Valid() && node !in nodes
      modifies this, nodes, node
      ensures Valid() && ok && FirstLater(old(nodes), later, i) && nodes == InsertedAt(old(nodes), i, node)
    {
      i := 0;
      if count == 0 {
        InsertHead(node);
        return true, 0;
      }
      var existing := head;
      while existing != null
        invariant i <= |nodes| && existing == (if i < |nodes| then nodes[i] else null)
        invariant forall j :: 0 <= j < i ==> !later(nodes[j])
        decreases |nodes| - i
      {
        assert LinkedAt(i);
        if later(existing) {
          InsertBefore(node, existing, i);
          return true, i;
        }
        existing := existing.next;
        i := i + 1;
      }
      InsertTail(node);
      return true, i;
    }

    /** At the given index; refused when the list is shorter. */
    method InsertAt(node: Node, index: nat) returns (ok: bool)
      requires Valid() && node !in nodes
      modifies this, nodes, node
      ensures Valid() && ok == (index <= |old(nodes)|)
      ensures nodes == if ok then InsertedAt(old(nodes), index, node) else old(nodes)
    {
      if index == 0 {
        InsertHead(node);
        return true;
      }
      if index == count {
        InsertTail(node);
        return true;
      }
      if count < index {
        return false;
      }
      var existing := head;
      var counting := 0;
      while existing != null
        invariant counting <= index && existing == nodes[counting]
        decreases index - counting
      {
        assert LinkedAt(counting);
        if counting == index {
          InsertBefore(node, existing, index);
          break;
        }
        counting := counting + 1;
        existing := existing.next;
      }
      return counting == index;
    }

    /** Unlinks the node at index `i`. */
    method Remove(node: Node, ghost i: nat)
      requires Valid() && i < |nodes| && nodes[i] == node
      modifies this, nodes
      ensures Valid() && nodes == RemovedAt(old(nodes), i) && node.IsNull()
    {
      assert forall j :: 0 <= j < |nodes| ==> LinkedAt(j);
      assert LinkedAt(i);
      if node.prev != null {
        node.prev.next := node.next;
      } else {
        head := node.next;
      }
      if node.next != null {
        node.next.prev := node.prev;
      } else {
        tail := node.prev;
      }
      count := count - 1;
      node.next := null;
      node.prev := null;
      nodes := RemovedAt(nodes, i);
      forall j | 0 <= j < |nodes| ensures LinkedAt(j) {
        assert j < i ==> old(LinkedAt(j));
        assert j >= i ==> old(LinkedAt(j + 1));
      }
    }

    method RemoveHead() returns (r: Node?)
      requires Valid()
      modifies this, nodes
      ensures Valid()
      ensures old(nodes) == [] ==> r == null && nodes == []
      ensures old(nodes) != [] ==> r == old(nodes)[0] && nodes == old(nodes)[1..] && r.IsNull()
    {
      var node := head;
      if node == null {
        return null;
      }
      assert forall j :: 0 <= j < |nodes| ==> LinkedAt(j);
      assert LinkedAt(0);
      head := node.next;
      if head != null {
        head.prev := null;
      } else {
        tail := null;
      }
      count := count - 1;
      node.next := null;
      node.prev := null;
      nodes := nodes[1..];
      forall j | 0 <= j < |nodes| ensures LinkedAt(j) {
        assert old(LinkedAt(j + 1));
      }
      return node;
    }

    /** The source reads the tail without a check: the list must not be empty. */
    method RemoveTail() returns (r: Node)
      requires Valid() && nodes != []
      modifies this, nodes
      ensures Valid() && r == old(nodes)[|old(nodes)| - 1] && nodes == old(nodes)[..|old(nodes)| - 1] && r.IsNull()
    {
      var node := tail;
      assert forall j :: 0 <= j < |nodes| ==> LinkedAt(j);
      assert LinkedAt(|nodes| - 1);
      tail := node.prev;
      if tail != null {
        tail.next := null;
      } else {
        head := null;
      }
      count := count - 1;
      node.next := null;
      node.prev := null;
      nodes := nodes[..|nodes| - 1];
      forall j | 0 <= j < |nodes| ensures LinkedAt(j) {
        assert old(LinkedAt(j));
      }
      return node;
    }
  }
}
