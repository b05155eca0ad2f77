/**
The stack object of src/cols/stack.c with one thread running: the linked nodes
in memory, the retry loops of the weak compare-exchange, and ft_stack_clear.
*/
module StackObject {

  class Node {
    var next: Node?

    constructor ()
      ensures next == null
    {
      next := null;
    }
  }

  class Stack {
    var aba: nat
    var head: Node?
    var size: nat
    /** The nodes linked from head, top first. */
    ghost var nodes: seq<Node>

    ghost predicate Valid()
      reads this, nodes
    {
      && size == |nodes|
      && (head == if nodes == [] then null else nodes[0])
      && (forall i :: 0 <= i < |nodes| ==> nodes[i].next == Below(i))
      && (forall i, j :: 0 <= i < j < |nodes| ==> nodes[i] != nodes[j])
    }

    ghost function Below(i: nat): Node?
      reads this
    {
      if i + 1 < |nodes| then nodes[i + 1] else null
    }

    constructor ()
      ensures Valid() && nodes == []
    {
      aba, head, size, nodes := 0, null, 0, [];
    }

    /** ft_stack_push; the compare-exchange fails spuriously as often as the caller's luck has it. */
    method Push(node: Node, spurious: nat)
      requires Valid() && node !in nodes
      modifies this, node
      ensures Valid()
      ensures nodes == [node] + old(nodes)
      ensures aba == old(aba) + 1
    {
      var orig, origAba, failures := head, aba, spurious;
      while true
        invariant orig == head && origAba == aba == old(aba) && size == old(size)
        invariant head == old(head) && nodes == old(nodes)
        invariant forall i :: 0 <= i < |nodes| ==> nodes[i].next == Below(i)
        decreases failures
      {
        node.next := orig;
        if failures == 0 {
          head, aba := node, origAba + 1;
          break;
        }
        orig, origAba := head, aba;
        failures := failures - 1;
      }
      nodes := [node] + nodes;
      size := size + 1;
      assert forall i :: 0 < i < |nodes| ==> nodes[i] == old(nodes)[i - 1];
    }

    /** ft_stack_pop. */
    method Pop(spurious: nat) returns (node: Node?)
      requires Valid()
      modifies this
      ensures Valid()
      ensures old(nodes) == [] ==> node == null && nodes == [] && aba == old(aba)
      ensures old(nodes) != [] ==> node == old(nodes)[0] && nodes == old(nodes)[1..] && aba == old(aba) + 1
    {
      var orig, origAba, failures := head, aba, spurious;
      while true
        invariant orig == head && origAba == aba == old(aba) && size == old(size)
        invariant head == old(head) && nodes == old(nodes)
        decreases failures
      {
        if orig == null {
          return null;
        }
        var next := orig.next;
        if failures == 0 {
          head, aba := next, origAba + 1;
          break;
        }
        orig, origAba := head, aba;
        failures := failures - 1;
      }
      assert nodes[0].next == Below(0);
      nodes := nodes[1..];
      size := size - 1;
      assert forall i :: 0 <= i < |nodes| ==>
        nodes[i] == old(nodes)[i + 1] && old(nodes)[i + 1].next == old(Below(i + 1));
      return orig;
    }

    /**
    ft_stack_clear: empties the stack, returns the number of nodes that were in
    it, and calls the callback (when there is one) with each of them, top first.
    */
    method Clear(callback: bool) returns (count: nat, removed: seq<Node>)
      requires Valid()
      modifies this
      ensures Valid() && nodes == [] && size == 0
      ensures count == old(size)
      ensures removed == if callback then old(nodes) else []
    {
      count, removed := 0, [];
      while size > 0
        invariant Valid()
        invariant count <= |old(nodes)| && nodes == old(nodes)[count..]
        invariant removed == if callback then old(nodes)[..count] else []
        decreases size
      {
        var spurious: nat :| true;
        var node := Pop(spurious);
        count := count + 1;
        if callback {
          removed := removed + [node];
        }
      }
    }
  }
}
